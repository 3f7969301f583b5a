/**
 * The ASCII subset of the Python string operations the post-processing relies on:
 * `str.strip()`, `str.rstrip(chars)`, `str.lower()`, `str.upper()`,
 * `str.replace(pat, "")`, the `in` test on strings, and the character
 * classes `\s` and `\w` that the regular expressions use.
 */
module Text {

  type String = seq<char>

  /** `\s` and `str.isspace()` on ASCII: \t, \n, \v, \f, \r (0x09-0x0d), the separators \x1c-\x1f and the space (0x20). */
  predicate IsSpace(c: char) {
    ('\t' <= c <= '\r') || ('\U{1C}' <= c <= ' ')
  }

  /** `\w` on ASCII: letters, digits and the underscore. */
  predicate IsWordChar(c: char) {
    ('a' <= c <= 'z') || ('A' <= c <= 'Z') || ('0' <= c <= '9') || c == '_'
  }

  function LowerChar(c: char): (r: char)
    ensures ('A' <= c <= 'Z') ==> 'a' <= r <= 'z'
    ensures !('A' <= c <= 'Z') ==> r == c
  {
    if 'A' <= c <= 'Z' then (c as int + 32) as char else c
  }

  function UpperChar(c: char): (r: char)
    ensures ('a' <= c <= 'z') ==> 'A' <= r <= 'Z'
    ensures !('a' <= c <= 'z') ==> r == c
  {
    if 'a' <= c <= 'z' then (c as int - 32) as char else c
  }

  /** `str.lower()` */
  function Lower(s: String): (r: String)
    ensures |r| == |s| && forall i :: 0 <= i < |s| ==> r[i] == LowerChar(s[i])
  {
    seq(|s|, i requires 0 <= i < |s| => LowerChar(s[i]))
  }

  /** `str.upper()` */
  function Upper(s: String): (r: String)
    ensures |r| == |s| && forall i :: 0 <= i < |s| ==> r[i] == UpperChar(s[i])
  {
    seq(|s|, i requires 0 <= i < |s| => UpperChar(s[i]))
  }

  /** Case folding after upper-casing is the same as case folding. */
  lemma LowerOfUpper(s: String)
    ensures Lower(Upper(s)) == Lower(s)
  {
    forall i | 0 <= i < |s| ensures Lower(Upper(s))[i] == Lower(s)[i] {
      var c := s[i];
      if 'a' <= c <= 'z' {
        assert UpperChar(c) as int == c as int - 32;
      } else if 'A' <= c <= 'Z' {
        assert UpperChar(c) == c;
      }
    }
  }

  /** Case-insensitive equality, as the `(?i)` flag compares ASCII letters. */
  predicate CiEq(s: String, t: String) {
    |s| == |t| && forall i :: 0 <= i < |s| ==> LowerChar(s[i]) == LowerChar(t[i])
  }

  predicate CiStartsWith(s: String, p: String) {
    |p| <= |s| && CiEq(s[..|p|], p)
  }

  /** A character the case-insensitive comparison identifies with a word character is one. */
  lemma CiWordChar(c: char, d: char)
    requires LowerChar(c) == LowerChar(d)
    ensures IsWordChar(c) <==> IsWordChar(d)
  {
  }

  /** A character the case-insensitive comparison identifies with whitespace is whitespace. */
  lemma CiSpace(c: char, d: char)
    requires LowerChar(c) == LowerChar(d)
    ensures IsSpace(c) <==> IsSpace(d)
  {
  }

  predicate StartsWith(s: String, p: String) {
    |p| <= |s| && s[..|p|] == p
  }

  predicate EndsWith(s: String, p: String) {
    |p| <= |s| && s[|s| - |p|..] == p
  }

  predicate OccursAt(s: String, p: String, i: int) {
    0 <= i && i + |p| <= |s| && s[i..i + |p|] == p
  }

  /** Python's `p in s` for strings. */
  predicate Contains(s: String, p: String) {
    exists i :: 0 <= i <= |s| && OccursAt(s, p, i)
  }

  /** `str.lstrip()` */
  function LStrip(s: String): (r: String)
    ensures |r| <= |s| && r == s[|s| - |r|..]
    ensures forall i :: 0 <= i < |s| - |r| ==> IsSpace(s[i])
    ensures r != [] ==> !IsSpace(r[0])
    decreases |s|
  {
    if s != [] && IsSpace(s[0]) then LStrip(s[1..]) else s
  }

  /** `str.rstrip()` */
  function RStrip(s: String): (r: String)
    ensures |r| <= |s| && r == s[..|r|]
    ensures forall i :: |r| <= i < |s| ==> IsSpace(s[i])
    ensures r != [] ==> !IsSpace(r[|r| - 1])
    decreases |s|
  {
    if s != [] && IsSpace(s[|s| - 1]) then RStrip(s[..|s| - 1]) else s
  }

  /** `str.strip()`: the input is its result with whitespace around it, and the result has none at either end. */
  function Strip(s: String): (r: String)
    ensures var k := |s| - |LStrip(s)|;
            k + |r| <= |s| && r == s[k..k + |r|]
            && (forall i :: 0 <= i < k ==> IsSpace(s[i]))
            && (forall i :: k + |r| <= i < |s| ==> IsSpace(s[i]))
    ensures r != [] ==> !IsSpace(r[0]) && !IsSpace(r[|r| - 1])
  {
    var l := LStrip(s);
    var r := RStrip(l);
    assert r == s[|s| - |l|..|s| - |l| + |r|];
    r
  }

  /** A string with no whitespace at either end is its own strip. */
  lemma StripUnpadded(s: String)
    requires s != [] && !IsSpace(s[0]) && !IsSpace(s[|s| - 1])
    ensures Strip(s) == s
  {
    assert LStrip(s) == s;
    assert RStrip(s) == s;
  }

  /** A non-empty sequence is its head and its tail. */
  lemma HeadTail<T>(s: seq<T>, t: seq<T>)
    requires s != []
    ensures s == [s[0]] + s[1..]
    ensures s + t == [s[0]] + (s[1..] + t)
  {
  }

  lemma TakeAll<T>(s: seq<T>)
    ensures s[..|s|] == s
  {
  }

  lemma AppendAssoc<T>(a: seq<T>, b: seq<T>, c: seq<T>)
    ensures (a + b) + c == a + (b + c)
  {
  }

  lemma TailAppend<T>(s: seq<T>, t: seq<T>)
    requires s != []
    ensures (s + t)[1..] == s[1..] + t
  {
  }

  lemma AppendEmpty<T>(s: seq<T>)
    ensures s + [] == s
  {
  }

  lemma ConsLast<T>(c: T, x: seq<T>, t: seq<T>)
    ensures [c] + (x + t) == ([c] + x) + t
    ensures ([c] + x)[|x|] == if x == [] then c else x[|x| - 1]
  {
  }

  /** A prefix one longer is the shorter prefix and one more element. */
  lemma TakeSnoc<T>(s: seq<T>, n: nat)
    requires 0 < n <= |s|
    ensures s[..n] == s[..n - 1] + [s[n - 1]]
  {
  }

  /**
   * The positions of the elements of `xs` that `keep` accepts, in increasing
   * order: the rows a filter such as `dropna` or a boolean mask selects. The
   * contract determines the result, as there is only one strictly increasing
   * sequence holding exactly these positions.
   */
  function Positions<T>(xs: seq<T>, keep: T -> bool): (ks: seq<nat>)
    ensures forall k :: 0 <= k < |ks| ==> ks[k] < |xs| && keep(xs[ks[k]])
    ensures forall k, l :: 0 <= k < l < |ks| ==> ks[k] < ks[l]
    ensures forall i :: 0 <= i < |xs| && keep(xs[i]) ==> i in ks
    decreases |xs|
  {
    if xs == [] then []
    else
      var n := |xs| - 1;
      var front := Positions(xs[..n], keep);
      assert forall k :: 0 <= k < |front| ==> xs[..n][front[k]] == xs[front[k]];
      front + (if keep(xs[n]) then [n] else [])
  }

  /**
   * `out` is `f` applied to the elements of `xs` that `keep` accepts, in
   * their order and with their multiplicity: a filter followed by a map.
   */
  ghost predicate MapsKept<T, U>(out: seq<U>, xs: seq<T>, keep: T -> bool, f: T -> U) {
    var ks := Positions(xs, keep);
    |out| == |ks| && forall k :: 0 <= k < |ks| ==> out[k] == f(xs[ks[k]])
  }

  /** Filtering and mapping one more element appends its image when it is kept. */
  lemma MapsKeptSnoc<T, U>(front: seq<U>, xs: seq<T>, keep: T -> bool, f: T -> U)
    requires xs != [] && MapsKept(front, xs[..|xs| - 1], keep, f)
    ensures var n := |xs| - 1;
            MapsKept(front + (if keep(xs[n]) then [f(xs[n])] else []), xs, keep, f)
  {
    var n := |xs| - 1;
    var fk := Positions(xs[..n], keep);
    assert forall k :: 0 <= k < |fk| ==> xs[..n][fk[k]] == xs[fk[k]];
  }

  /** What a filter and map keeps: the image of every kept element, and nothing else. */
  lemma MapsKeptMembers<T, U>(out: seq<U>, xs: seq<T>, keep: T -> bool, f: T -> U)
    requires MapsKept(out, xs, keep, f)
    ensures forall i :: 0 <= i < |xs| && keep(xs[i]) ==> f(xs[i]) in out
    ensures forall y :: y in out ==> exists i :: 0 <= i < |xs| && keep(xs[i]) && y == f(xs[i])
    ensures out == [] <==> forall i :: 0 <= i < |xs| ==> !keep(xs[i])
  {
    var ks := Positions(xs, keep);
    forall i | 0 <= i < |xs| && keep(xs[i]) ensures f(xs[i]) in out {
      var k :| 0 <= k < |ks| && ks[k] == i;
      assert out[k] == f(xs[i]);
    }
    forall y | y in out ensures exists i :: 0 <= i < |xs| && keep(xs[i]) && y == f(xs[i]) {
      var k :| 0 <= k < |out| && out[k] == y;
      assert keep(xs[ks[k]]);
    }
    if out != [] {
      assert keep(xs[ks[0]]);
    }
  }

  /**
   * `str.replace(pat, "")`: occurrences of `pat` removed left to right,
   * without overlap. What is left are characters of the text, and a text in
   * which `pat` does not occur is left as it is.
   */
  function RemoveAll(s: String, pat: String): (r: String)
    requires pat != []
    ensures |r| <= |s|
    ensures forall c :: c in r ==> c in s
    ensures !Contains(s, pat) ==> r == s
    decreases |s|
  {
    if s == [] then []
    else if StartsWith(s, pat) then
      assert OccursAt(s, pat, 0);
      TailChars(s, |pat|);
      RemoveAll(s[|pat|..], pat)
    else
      AbsentFromTail(s, pat);
      TailChars(s, 1);
      [s[0]] + RemoveAll(s[1..], pat)
  }

  lemma TailChars(s: String, k: nat)
    requires k <= |s|
    ensures forall c :: c in s[k..] ==> c in s
  {
    forall c | c in s[k..] ensures c in s {
      var i :| 0 <= i < |s[k..]| && s[k..][i] == c;
      assert s[k + i] == c;
    }
  }

  /** A text that does not contain `pat` has no occurrence after its first character either. */
  lemma AbsentFromTail(s: String, pat: String)
    requires s != []
    ensures !Contains(s, pat) ==> !Contains(s[1..], pat)
  {
    forall i | OccursAt(s[1..], pat, i) ensures OccursAt(s, pat, i + 1) {
      assert s[1..][i..i + |pat|] == s[i + 1..i + 1 + |pat|];
    }
  }

}

/** A value that may be missing. */
module Options {
  datatype Option<T> = None | Some(value: T)
}
