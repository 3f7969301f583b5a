/**
 * The two ways the charts enumerate the values of a column:
 * `Series.unique()` (every distinct value, NULL included, in order of first
 * appearance; app.py:131, app_movie.py:205, stream.py:127), and the keys of
 * `groupby` (the distinct non-NULL values, sorted; app.py:120,
 * app_ip.py:52 and app_ip.py:59). pandas sorts keys of mixed types with the
 * numbers first; strings compare by code point.
 */
module Grouping {
  import opened Text
  import opened Tables

  /* ---------- The order of group keys ---------- */

  /** Python's `<` on strings: by code point, a proper prefix first. */
  predicate StrLess(a: String, b: String)
    decreases |a|
  {
    b != [] && (a == [] || a[0] < b[0] || (a[0] == b[0] && StrLess(a[1..], b[1..])))
  }

  lemma {:induction false} StrLessIrreflexive(a: String)
    ensures !StrLess(a, a)
    decreases |a|
  {
    if a != [] {
      StrLessIrreflexive(a[1..]);
    }
  }

  lemma {:induction false} StrLessTransitive(a: String, b: String, c: String)
    requires StrLess(a, b) && StrLess(b, c)
    ensures StrLess(a, c)
    decreases |a|
  {
    if a != [] && a[0] == b[0] && b[0] == c[0] {
      StrLessTransitive(a[1..], b[1..], c[1..]);
    }
  }

  lemma {:induction false} StrLessTotal(a: String, b: String)
    requires a != b
    ensures StrLess(a, b) || StrLess(b, a)
    decreases |a|
  {
    if a != [] && b != [] && a[0] == b[0] {
      assert a[1..] != b[1..] by {
        assert a == [a[0]] + a[1..] && b == [b[0]] + b[1..];
      }
      StrLessTotal(a[1..], b[1..]);
    }
  }

  /** Where a kind of value sorts: numbers, then points in time, then strings. */
  function Rank(c: Cell): nat {
    match c
    case Num(_) => 0
    case Stamp(_) => 1
    case Str(_) => 2
    case Null => 3
  }

  /** The order in which `groupby` lists its keys. */
  predicate CellLess(a: Cell, b: Cell) {
    if Rank(a) != Rank(b) then Rank(a) < Rank(b)
    else match a
      case Num(x) => x < b.n
      case Stamp(x) => x < b.t
      case Str(x) => StrLess(x, b.s)
      case Null => false
  }

  lemma CellLessIrreflexive(a: Cell)
    ensures !CellLess(a, a)
  {
    if a.Str? {
      StrLessIrreflexive(a.s);
    }
  }

  lemma CellLessTransitive(a: Cell, b: Cell, c: Cell)
    requires CellLess(a, b) && CellLess(b, c)
    ensures CellLess(a, c)
  {
    if a.Str? && b.Str? && c.Str? {
      StrLessTransitive(a.s, b.s, c.s);
    }
  }

  lemma CellLessTotal(a: Cell, b: Cell)
    requires a != b && !a.Null? && !b.Null?
    ensures CellLess(a, b) || CellLess(b, a)
  {
    if a.Str? && b.Str? {
      StrLessTotal(a.s, b.s);
    }
  }

  predicate StrictlySorted(s: seq<Cell>) {
    forall i, j :: 0 <= i < j < |s| ==> CellLess(s[i], s[j])
  }

  /** Puts `x` into its place in the sorted `s`, unless it is there already. */
  function Insert(x: Cell, s: seq<Cell>): seq<Cell>
  {
    if s == [] then [x]
    else if x == s[0] then s
    else if CellLess(x, s[0]) then [x] + s
    else [s[0]] + Insert(x, s[1..])
  }

  lemma {:induction false} InsertSorted(x: Cell, s: seq<Cell>)
    requires StrictlySorted(s) && !x.Null? && forall c :: c in s ==> !c.Null?
    ensures StrictlySorted(Insert(x, s))
    ensures forall c :: c in Insert(x, s) <==> c == x || c in s
    decreases |s|
  {
    if s != [] && x != s[0] {
      if CellLess(x, s[0]) {
        forall j | 0 < j < |s| ensures CellLess(x, s[j]) {
          CellLessTransitive(x, s[0], s[j]);
        }
      } else {
        CellLessTotal(x, s[0]);
        InsertSorted(x, s[1..]);
        var r := Insert(x, s[1..]);
        forall j | 0 <= j < |r| ensures CellLess(s[0], r[j]) {
          assert r[j] == x || r[j] in s[1..];
        }
      }
    }
  }

  /**
   * The keys `groupby` visits, in its order: the non-NULL values of `cells`,
   * each once, sorted.
   */
  function GroupKeys(cells: seq<Cell>): (keys: seq<Cell>)
    ensures StrictlySorted(keys)
    ensures forall c :: c in keys <==> c in cells && !c.Null?
    decreases |cells|
  {
    if cells == [] then []
    else
      var x := cells[|cells| - 1];
      var front := cells[..|cells| - 1];
      var keys := GroupKeys(front);
      assert cells == front + [x];
      if x.Null? then keys
      else
        InsertSorted(x, keys);
        Insert(x, keys)
  }

  /** Sorted without repetition means without repetition. */
  lemma SortedDistinct(s: seq<Cell>)
    requires StrictlySorted(s)
    ensures forall i, j :: 0 <= i < j < |s| ==> s[i] != s[j]
  {
    forall i, j | 0 <= i < j < |s| ensures s[i] != s[j] {
      CellLessIrreflexive(s[i]);
    }
  }

  /* ---------- Values in order of first appearance ---------- */

  /** `unique()`: each value once, where it first appears. */
  function Uniques(cells: seq<Cell>): (u: seq<Cell>)
    ensures forall c :: c in u <==> c in cells
    decreases |cells|
  {
    if cells == [] then []
    else
      var x := cells[|cells| - 1];
      var u := Uniques(cells[..|cells| - 1]);
      assert cells == cells[..|cells| - 1] + [x];
      if x in u then u else u + [x]
  }

  /** Where `x` first appears. */
  function FirstIndex(cells: seq<Cell>, x: Cell): (i: nat)
    requires x in cells
    ensures i < |cells| && cells[i] == x && x !in cells[..i]
    decreases |cells|
  {
    if cells[0] == x then 0 else 1 + FirstIndex(cells[1..], x)
  }

  /** A value of a prefix first appears in the whole where it first appears in the prefix. */
  lemma FirstIndexPrefix(cells: seq<Cell>, n: nat, x: Cell)
    requires n <= |cells| && x in cells[..n]
    ensures FirstIndex(cells, x) == FirstIndex(cells[..n], x)
  {
    var i, k := FirstIndex(cells, x), FirstIndex(cells[..n], x);
    assert cells[..n][k] == cells[k];
    assert cells[..n][..k] == cells[..k];
  }

  /**
   * `unique()` lists each value once, and in the order in which the values
   * first appear.
   */
  lemma {:induction false} UniquesSpec(cells: seq<Cell>)
    ensures forall i, j :: 0 <= i < j < |Uniques(cells)| ==> Uniques(cells)[i] != Uniques(cells)[j]
    ensures forall i, j :: 0 <= i < j < |Uniques(cells)| ==>
              FirstIndex(cells, Uniques(cells)[i]) < FirstIndex(cells, Uniques(cells)[j])
    decreases |cells|
  {
    if cells != [] {
      var n := |cells| - 1;
      var front, x := cells[..n], cells[n];
      var u := Uniques(front);
      UniquesSpec(front);
      var r := Uniques(cells);
      forall i | 0 <= i < |u| ensures FirstIndex(cells, u[i]) == FirstIndex(front, u[i]) {
        FirstIndexPrefix(cells, n, u[i]);
      }
      if x !in u {
        assert r == u + [x];
        assert x !in front;
        assert FirstIndex(cells, x) == n by {
          assert forall k :: 0 <= k < n ==> front[k] == cells[k];
        }
      }
    }
  }
}
