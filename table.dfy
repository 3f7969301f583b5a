/**
 * The query result the front ends chart: the column names and the rows the
 * database returns, the split of the columns into numeric and other ones
 * (app.py:106-107, app_movie.py:180-181, stream.py:104-105, app_ip.py:40-41),
 * and the HTML-unescaping of string cells (app_movie.py:162-165).
 */
module Tables {
  import opened Text

  /**
   * A value of the result: a number, a string or SQL NULL, as the database
   * returns them, or, after the date conversion of the line chart, a point
   * in time.
   */
  datatype Cell = Num(n: int) | Str(s: String) | Stamp(t: int) | Null

  datatype Table = Table(columns: seq<String>, rows: seq<seq<Cell>>)

  /** What the database hands over: distinct column names, and every row as wide as the header. */
  predicate Shaped(t: Table) {
    (forall i, j :: 0 <= i < j < |t.columns| ==> t.columns[i] != t.columns[j])
    && forall r :: r in t.rows ==> |r| == |t.columns|
  }

  /** The cells of column `j`, in row order. */
  function Column(rows: seq<seq<Cell>>, j: nat): (c: seq<Cell>)
    requires forall r :: r in rows ==> j < |r|
    ensures |c| == |rows| && forall i :: 0 <= i < |rows| ==> c[i] == rows[i][j]
  {
    seq(|rows|, i requires 0 <= i < |rows| => rows[i][j])
  }

  /**
   * `select_dtypes(include="number")` on a frame built from the rows: a
   * column is numeric when it holds a number and nothing but numbers and
   * NULLs (NULLs among integers make a float column). A column of NULLs
   * only, and every column of an empty result, is of object type.
   */
  predicate IsNumeric(t: Table, j: nat)
    requires Shaped(t) && j < |t.columns|
    ensures IsNumeric(t, j) ==> t.rows != []
  {
    (exists i :: 0 <= i < |t.rows| && t.rows[i][j].Num?)
    && forall i :: 0 <= i < |t.rows| ==> t.rows[i][j].Num? || t.rows[i][j].Null?
  }

  /** The names of the numeric columns among the first `n`, in column order. */
  function NumColsUpTo(t: Table, n: nat): (ns: seq<String>)
    requires Shaped(t) && n <= |t.columns|
    ensures forall c :: c in ns ==> c in t.columns[..n]
    decreases n
  {
    if n == 0 then []
    else NumColsUpTo(t, n - 1) + (if IsNumeric(t, n - 1) then [t.columns[n - 1]] else [])
  }

  /** `num_cols`: a column is listed exactly when it is numeric. */
  function NumCols(t: Table): (ns: seq<String>)
    requires Shaped(t)
    ensures forall c :: c in ns ==> c in t.columns
    ensures forall j :: 0 <= j < |t.columns| ==> (t.columns[j] in ns <==> IsNumeric(t, j))
  {
    assert t.columns[..|t.columns|] == t.columns;
    NumColsListed(t);
    NumColsUpTo(t, |t.columns|)
  }

  lemma NumColsListed(t: Table)
    requires Shaped(t)
    ensures forall j :: 0 <= j < |t.columns| ==> (t.columns[j] in NumColsUpTo(t, |t.columns|) <==> IsNumeric(t, j))
  {
    forall j | 0 <= j < |t.columns| {
      NumColsExact(t, |t.columns|, j);
    }
  }

  /** `[c for c in columns if c not in num_cols]` */
  function Without(cols: seq<String>, drop: seq<String>): (r: seq<String>)
    ensures forall c :: c in r <==> c in cols && c !in drop
    ensures |r| <= |cols|
  {
    if cols == [] then []
    else (if cols[0] in drop then [] else [cols[0]]) + Without(cols[1..], drop)
  }

  /** `cat_cols`: a column is listed exactly when it is not numeric. */
  function CatCols(t: Table): (cs: seq<String>)
    requires Shaped(t)
    ensures forall c :: c in cs ==> c in t.columns
    ensures forall j :: 0 <= j < |t.columns| ==> (t.columns[j] in cs <==> !IsNumeric(t, j))
  {
    Without(t.columns, NumCols(t))
  }

  /** A column name is among the numeric ones exactly when its column is numeric. */
  lemma {:induction false} NumColsExact(t: Table, n: nat, j: nat)
    requires Shaped(t) && n <= |t.columns| && j < |t.columns|
    ensures t.columns[j] in NumColsUpTo(t, n) <==> j < n && IsNumeric(t, j)
    decreases n
  {
    if n > 0 {
      NumColsExact(t, n - 1, j);
    }
  }

  /** The names of the non-numeric columns among the first `n`, in column order. */
  function NonNumericUpTo(t: Table, n: nat): seq<String>
    requires Shaped(t) && n <= |t.columns|
    decreases n
  {
    if n == 0 then []
    else NonNumericUpTo(t, n - 1) + (if IsNumeric(t, n - 1) then [] else [t.columns[n - 1]])
  }

  lemma {:induction false} WithoutSnoc(a: seq<String>, x: String, drop: seq<String>)
    ensures Without(a + [x], drop) == Without(a, drop) + (if x in drop then [] else [x])
    decreases |a|
  {
    if a == [] {
      assert [x][1..] == [];
    } else {
      var head: seq<String> := if a[0] in drop then [] else [a[0]];
      var tail: seq<String> := if x in drop then [] else [x];
      TailAppend(a, [x]);
      calc {
        Without(a + [x], drop);
        { assert (a + [x])[0] == a[0]; }
        head + Without(a[1..] + [x], drop);
        { WithoutSnoc(a[1..], x, drop); }
        head + (Without(a[1..], drop) + tail);
        { AppendAssoc(head, Without(a[1..], drop), tail); }
        Without(a, drop) + tail;
      }
    }
  }

  /** `cat_cols` lists the non-numeric columns in column order. */
  lemma {:induction false} CatColsInOrder(t: Table, n: nat)
    requires Shaped(t) && n <= |t.columns|
    ensures Without(t.columns[..n], NumCols(t)) == NonNumericUpTo(t, n)
    decreases n
  {
    if n > 0 {
      var c, numeric, nc := t.columns[n - 1], IsNumeric(t, n - 1), NumCols(t);
      CatColsInOrder(t, n - 1);
      NumColsExact(t, |t.columns|, n - 1);
      TakeSnoc(t.columns, n);
      calc {
        Without(t.columns[..n], nc);
        Without(t.columns[..n - 1] + [c], nc);
        { WithoutSnoc(t.columns[..n - 1], c, nc); }
        Without(t.columns[..n - 1], nc) + (if c in nc then [] else [c]);
        NonNumericUpTo(t, n - 1) + (if numeric then [] else [c]);
        NonNumericUpTo(t, n);
      }
    }
  }

  lemma {:induction false} SplitCount(t: Table, n: nat)
    requires Shaped(t) && n <= |t.columns|
    ensures |NumColsUpTo(t, n)| + |NonNumericUpTo(t, n)| == n
    decreases n
  {
    if n > 0 {
      SplitCount(t, n - 1);
    }
  }

  /**
   * `num_cols` and `cat_cols` partition the columns: each column is in
   * exactly one list, the numeric list holds the numeric columns, the other
   * list is the other columns in column order, and together the lists are
   * as long as the header.
   */
  lemma Partition(t: Table)
    requires Shaped(t)
    ensures forall j :: 0 <= j < |t.columns| ==>
              (t.columns[j] in NumCols(t) <==> IsNumeric(t, j))
              && (t.columns[j] in CatCols(t) <==> !IsNumeric(t, j))
    ensures forall c :: c in NumCols(t) || c in CatCols(t) ==> c in t.columns
    ensures CatCols(t) == NonNumericUpTo(t, |t.columns|)
    ensures |NumCols(t)| + |CatCols(t)| == |t.columns|
  {
    NumColsMembers(t);
    CatColsAll(t);
    SplitCount(t, |t.columns|);
  }

  /** A column is among `num_cols` exactly when it is numeric. */
  lemma NumColsMembers(t: Table)
    requires Shaped(t)
    ensures forall j :: 0 <= j < |t.columns| ==> (t.columns[j] in NumCols(t) <==> IsNumeric(t, j))
  {
    forall j | 0 <= j < |t.columns| ensures t.columns[j] in NumCols(t) <==> IsNumeric(t, j) {
      NumColsExact(t, |t.columns|, j);
    }
  }

  lemma CatColsAll(t: Table)
    requires Shaped(t)
    ensures CatCols(t) == NonNumericUpTo(t, |t.columns|)
  {
    TakeAll(t.columns);
    CatColsInOrder(t, |t.columns|);
  }

  /** The first numeric column, which every chart that needs a number uses, is the leftmost one. */
  lemma {:induction false} FirstNumericIsLeftmost(t: Table, n: nat)
    requires Shaped(t) && n <= |t.columns|
    ensures NumColsUpTo(t, n) != [] <==> exists j :: 0 <= j < n && IsNumeric(t, j)
    ensures NumColsUpTo(t, n) != [] ==>
              exists j :: 0 <= j < n && IsNumeric(t, j) && NumColsUpTo(t, n)[0] == t.columns[j]
                          && forall i :: 0 <= i < j ==> !IsNumeric(t, i)
    decreases n
  {
    if n > 0 {
      FirstNumericIsLeftmost(t, n - 1);
      if NumColsUpTo(t, n - 1) == [] && IsNumeric(t, n - 1) {
        assert NumColsUpTo(t, n)[0] == t.columns[n - 1];
      }
    }
  }

  /** The first non-numeric column is the leftmost one. */
  lemma {:induction false} WithoutFirst(cols: seq<String>, drop: seq<String>)
    ensures Without(cols, drop) != [] <==> exists j :: 0 <= j < |cols| && cols[j] !in drop
    ensures Without(cols, drop) != [] ==>
              exists j :: 0 <= j < |cols| && cols[j] !in drop && Without(cols, drop)[0] == cols[j]
                          && forall i :: 0 <= i < j ==> cols[i] in drop
  {
    if cols != [] {
      WithoutFirst(cols[1..], drop);
      if cols[0] in drop {
        if Without(cols, drop) != [] {
          var j :| 0 <= j < |cols[1..]| && cols[1..][j] !in drop && Without(cols[1..], drop)[0] == cols[1..][j]
                   && forall i :: 0 <= i < j ==> cols[1..][i] in drop;
          assert cols[j + 1] !in drop && Without(cols, drop)[0] == cols[j + 1];
          forall i | 0 <= i < j + 1 ensures cols[i] in drop {
            if i > 0 {
              assert cols[i] == cols[1..][i - 1];
            }
          }
        } else {
          forall j | 0 <= j < |cols| ensures cols[j] in drop {
            if j > 0 {
              assert cols[j] == cols[1..][j - 1];
            }
          }
        }
      }
    }
  }

  /** `html.unescape(cell) if isinstance(cell, str) else cell`, with the unescaping a parameter. */
  function CleanCell(c: Cell, unescape: String -> String): (d: Cell)
    ensures d.Str? <==> c.Str?
    ensures !c.Str? ==> d == c
    ensures c.Str? ==> d == Str(unescape(c.s))
  {
    if c.Str? then Str(unescape(c.s)) else c
  }

  /** The cleaned rows of app_movie.py:162-165. */
  function CleanRows(rows: seq<seq<Cell>>, unescape: String -> String): (out: seq<seq<Cell>>)
    ensures |out| == |rows|
    ensures forall i :: 0 <= i < |rows| ==> |out[i]| == |rows[i]|
    ensures forall i, j :: 0 <= i < |rows| && 0 <= j < |rows[i]| ==>
              out[i][j] == CleanCell(rows[i][j], unescape)
  {
    seq(|rows|, i requires 0 <= i < |rows| => seq(|rows[i]|, j requires 0 <= j < |rows[i]| => CleanCell(rows[i][j], unescape)))
  }

  /**
   * Cleaning keeps the number of rows, their width and every cell that is
   * not a string, and changes no string into anything else; so the cleaned
   * result has the same numeric columns as the raw one.
   */
  lemma CleaningKeepsColumnKinds(t: Table, unescape: String -> String)
    requires Shaped(t)
    ensures Shaped(Table(t.columns, CleanRows(t.rows, unescape)))
    ensures NumCols(Table(t.columns, CleanRows(t.rows, unescape))) == NumCols(t)
  {
    var c := Table(t.columns, CleanRows(t.rows, unescape));
    forall r | r in c.rows ensures |r| == |c.columns| {
      var i :| 0 <= i < |c.rows| && c.rows[i] == r;
    }
    forall j | 0 <= j < |t.columns| ensures IsNumeric(c, j) == IsNumeric(t, j) {
      CleaningKeepsKind(t, c, unescape, j);
    }
    SameKindsSameNumCols(t, c, |t.columns|);
  }

  lemma CleaningKeepsKind(t: Table, c: Table, unescape: String -> String, j: nat)
    requires Shaped(t) && Shaped(c) && c == Table(t.columns, CleanRows(t.rows, unescape)) && j < |t.columns|
    ensures IsNumeric(c, j) == IsNumeric(t, j)
  {
    forall i | 0 <= i < |t.rows| ensures c.rows[i][j].Num? == t.rows[i][j].Num? && c.rows[i][j].Null? == t.rows[i][j].Null? {
      assert c.rows[i][j] == CleanCell(t.rows[i][j], unescape);
    }
  }

  lemma {:induction false} SameKindsSameNumCols(t: Table, c: Table, n: nat)
    requires Shaped(t) && Shaped(c) && t.columns == c.columns && n <= |t.columns|
    requires forall j :: 0 <= j < |t.columns| ==> IsNumeric(c, j) == IsNumeric(t, j)
    ensures NumColsUpTo(c, n) == NumColsUpTo(t, n)
    decreases n
  {
    if n > 0 {
      SameKindsSameNumCols(t, c, n - 1);
    }
  }

  /** Unescaping that leaves every string alone leaves the rows alone. */
  lemma CleaningIdentity(rows: seq<seq<Cell>>, unescape: String -> String)
    requires forall i, j :: 0 <= i < |rows| && 0 <= j < |rows[i]| && rows[i][j].Str? ==> unescape(rows[i][j].s) == rows[i][j].s
    ensures CleanRows(rows, unescape) == rows
  {
    var out := CleanRows(rows, unescape);
    forall i | 0 <= i < |rows| ensures out[i] == rows[i] {
      assert |out[i]| == |rows[i]|;
    }
  }
}
