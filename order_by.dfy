/**
 * Step 2.5 of the normaliser (app.py:55-61, repeated in app_movie.py:129-135
 * and stream.py:62-67): every match of `(?i)ORDER BY\s+[^;]+` is cut out of
 * the statement and the last one is appended, after a newline, to what is
 * left once it is stripped of surrounding whitespace and trailing `;`.
 */
module OrderBy {
  import opened Text

  /** The literal part of the pattern, matched case-insensitively. */
  const Keyword: String := "ORDER BY"

  /**
   * The pattern matches at `s[0]`: the keyword in any case, at least one
   * whitespace character, then at least one character the class `[^;]`
   * accepts (when the whitespace run is longer, backtracking gives its last
   * character to `[^;]+`, so the tenth character decides).
   */
  predicate ClauseHere(s: String)
    ensures ClauseHere(s) ==> |s| >= 10 && LowerChar(s[0]) == 'o' && ';' !in s[..10]
  {
    |s| >= 10 && CiEq(s[..8], Keyword) && (KeywordOpening(s); IsSpace(s[8]) && s[9] != ';')
  }

  /** The keyword opens with O and holds no `;`, in either case. */
  lemma KeywordOpening(s: String)
    requires |s| >= 10 && CiEq(s[..8], Keyword)
    ensures LowerChar(s[0]) == 'o' && forall j :: 0 <= j < 8 ==> s[j] != ';'
  {
    forall j | 0 <= j < 8 ensures s[j] != ';' && (j == 0 ==> LowerChar(s[0]) == 'o') {
      assert LowerChar(s[..8][j]) == LowerChar(Keyword[j]);
    }
  }

  /** Some match of the pattern starts somewhere in `s`. */
  predicate HasClause(s: String) {
    exists i {:trigger ClauseHere(s[i..])} :: 0 <= i < |s| && ClauseHere(s[i..])
  }

  function RunToSemicolon(s: String): (n: nat)
    ensures n <= |s| && ';' !in s[..n] && (n == |s| || s[n] == ';')
  {
    if s == [] || s[0] == ';' then 0 else 1 + RunToSemicolon(s[1..])
  }

  /** The greedy `[^;]+` makes a match run to the next `;` or to the end of the text. */
  function ClauseLength(s: String): (n: nat)
    requires ClauseHere(s)
    ensures 10 <= n <= |s| && ';' !in s[..n] && (n == |s| || s[n] == ';')
  {
    ClauseRunsPastOpening(s);
    RunToSemicolon(s)
  }

  lemma ClauseRunsPastOpening(s: String)
    requires ClauseHere(s)
    ensures RunToSemicolon(s) >= 10
  {
  }

  /** Whether a match starts at `s[0]` only depends on the first ten characters. */
  lemma ClauseHereLocal(u: String, v: String)
    requires |u| >= 10 && |v| >= 10 && u[..10] == v[..10]
    ensures ClauseHere(u) <==> ClauseHere(v)
  {
    assert u[..8] == u[..10][..8] && v[..8] == v[..10][..8];
    assert u[8] == u[..10][8] && v[8] == v[..10][8];
    assert u[9] == u[..10][9] && v[9] == v[..10][9];
  }

  /**
   * `order_patterns.findall(sql)`: the matches from left to right; after a
   * match the scan resumes where it ended. Each one opens with a match of the
   * pattern and holds no `;`.
   */
  function FindAll(s: String): (ms: seq<String>)
    ensures forall k :: 0 <= k < |ms| ==> ClauseHere(ms[k]) && ';' !in ms[k]
    decreases |s|
  {
    if s == [] then []
    else if ClauseHere(s) then
      var n := ClauseLength(s);
      assert s[..n][..10] == s[..10];
      ClauseHereLocal(s[..n], s);
      [s[..n]] + FindAll(s[n..])
    else FindAll(s[1..])
  }

  /** `order_patterns.sub("", sql)`: the text with every match deleted. */
  function RemoveClauses(s: String): (r: String)
    ensures |r| <= |s|
    ensures s != [] && !ClauseHere(s) ==> r != [] && r[0] == s[0]
    decreases |s|
  {
    if s == [] then []
    else if ClauseHere(s) then RemoveClauses(s[ClauseLength(s)..])
    else [s[0]] + RemoveClauses(s[1..])
  }

  /** `.rstrip(";")` */
  function RStripSemicolons(s: String): (r: String)
    ensures |r| <= |s| && r == s[..|r|]
    ensures r != [] ==> r[|r| - 1] != ';'
    decreases |s|
  {
    if s != [] && s[|s| - 1] == ';' then RStripSemicolons(s[..|s| - 1]) else s
  }

  /** The ORDER BY step as a whole; a statement without a clause is left as it is. */
  function Collapse(s: String): (r: String)
    ensures !HasClause(s) ==> r == s
  {
    FoundIffPresent(s);
    var found := FindAll(s);
    if found == [] then s
    else RStripSemicolons(Strip(RemoveClauses(s))) + "\n" + Strip(found[|found| - 1])
  }

  /** The scan finds something exactly when a match of the pattern starts somewhere. */
  lemma {:induction false} FoundIffPresent(s: String)
    ensures FindAll(s) == [] <==> !HasClause(s)
    decreases |s|
  {
    if s == [] {
    } else if ClauseHere(s) {
      assert s[0..] == s;
    } else {
      FoundIffPresent(s[1..]);
      if HasClause(s) {
        var i :| 0 <= i < |s| && ClauseHere(s[i..]);
        assert i > 0 by { assert s[0..] == s; }
        assert s[1..][i - 1..] == s[i..];
      }
      if HasClause(s[1..]) {
        var i :| 0 <= i < |s[1..]| && ClauseHere(s[1..][i..]);
        assert s[1..][i..] == s[i + 1..];
      }
    }
  }

  /** Where the deletion has produced no `;`, it has not deleted anything yet. */
  lemma {:induction false} RemovalHead(t: String, k: nat)
    requires k <= |RemoveClauses(t)|
    requires forall i :: 0 <= i < k ==> RemoveClauses(t)[i] != ';'
    ensures k <= |t| && RemoveClauses(t)[..k] == t[..k]
    decreases |t|
  {
    if k > 0 && t != [] {
      if ClauseHere(t) {
        assert false;
      } else {
        var y := RemoveClauses(t[1..]);
        assert RemoveClauses(t) == [t[0]] + y;
        forall i | 0 <= i < k - 1 ensures y[i] != ';' {
          assert RemoveClauses(t)[i + 1] == y[i];
        }
        RemovalHead(t[1..], k - 1);
        assert RemoveClauses(t)[..k] == [t[0]] + RemoveClauses(t[1..])[..k - 1];
      }
    }
  }

  /** A match at the head of the output of the deletion was already one in its input. */
  lemma HeadMatchFromInput(s: String)
    requires s != []
    ensures ClauseHere([s[0]] + RemoveClauses(s[1..])) ==> ClauseHere(s)
  {
    var y := RemoveClauses(s[1..]);
    var r := [s[0]] + y;
    if ClauseHere(r) {
      forall j | 0 <= j < 9 ensures y[j] != ';' {
        assert r[..10][j + 1] == y[j];
      }
      RemovalHead(s[1..], 9);
      assert r[..10] == s[..10];
      ClauseHereLocal(r, s);
    }
  }

  /** Putting a character that opens no match in front of a text without matches gives none. */
  lemma PrependNoClause(c: char, y: String)
    requires !HasClause(y) && !ClauseHere([c] + y)
    ensures !HasClause([c] + y)
  {
    var r := [c] + y;
    forall i | 0 <= i < |r| ensures !ClauseHere(r[i..]) {
      if i == 0 {
        assert r[0..] == r;
      } else {
        assert r[i..] == y[i - 1..];
      }
    }
  }

  /** No match of the pattern survives the deletion: every clause is cut out. */
  lemma {:induction false} NothingLeftAfterRemoval(s: String)
    ensures !HasClause(RemoveClauses(s))
    decreases |s|
  {
    if s != [] {
      if ClauseHere(s) {
        NothingLeftAfterRemoval(s[ClauseLength(s)..]);
      } else {
        NothingLeftAfterRemoval(s[1..]);
        HeadMatchFromInput(s);
        PrependNoClause(s[0], RemoveClauses(s[1..]));
      }
    }
  }

  /** A prefix of a text without clauses has none either. */
  lemma PrefixHasNoClause(r: String, t: String)
    requires |t| <= |r| && t == r[..|t|] && !HasClause(r)
    ensures !HasClause(t)
  {
    forall i | 0 <= i < |t| ensures !ClauseHere(t[i..]) {
      assert !ClauseHere(r[i..]);
      if |t[i..]| >= 10 {
        assert t[i..][..10] == r[i..][..10];
        ClauseHereLocal(t[i..], r[i..]);
      }
    }
  }

  /** A suffix of a text without clauses has none either. */
  lemma SuffixHasNoClause(r: String, t: String)
    requires |t| <= |r| && t == r[|r| - |t|..] && !HasClause(r)
    ensures !HasClause(t)
  {
    var k := |r| - |t|;
    forall i | 0 <= i < |t| ensures !ClauseHere(t[i..]) {
      assert t[i..] == r[k + i..];
      assert !ClauseHere(r[k + i..]);
    }
  }

  /** Stripping a match of whitespace leaves its keyword in front and brings in no `;`. */
  lemma KeptClauseShape(m: String)
    requires ClauseHere(m) && ';' !in m
    ensures CiStartsWith(Strip(m), Keyword) && ';' !in Strip(m)
  {
    var kept := Strip(m);
    var k := |m| - |LStrip(m)|;
    assert !IsSpace(m[0]);
    assert k == 0;
    assert LowerChar(m[..8][7]) == LowerChar(Keyword[7]);
    assert !IsSpace(m[7]);
    assert kept == m[..|kept|] && |kept| >= 8;
    assert kept[..8] == m[..8];
    forall j | 0 <= j < |kept| ensures kept[j] != ';' {
      assert kept[j] == m[j];
    }
  }

  /** Stripping a text without matches of whitespace leaves it without matches. */
  lemma StripHasNoClause(removed: String)
    requires !HasClause(removed)
    ensures !HasClause(Strip(removed))
  {
    var left := LStrip(removed);
    SuffixHasNoClause(removed, left);
    PrefixHasNoClause(left, RStrip(left));
  }

  /** Stripping a text without matches of whitespace and trailing `;` leaves it without matches. */
  lemma RemainderShape(removed: String)
    requires !HasClause(removed)
    ensures var rest := RStripSemicolons(Strip(removed));
            !HasClause(rest) && (rest == [] || rest[|rest| - 1] != ';')
  {
    StripHasNoClause(removed);
    var stripped := Strip(removed);
    PrefixHasNoClause(stripped, RStripSemicolons(stripped));
  }

  /**
   * With at least one clause, the result is a remainder, a newline and the
   * kept clause: the kept clause opens with ORDER BY and holds no `;`; the
   * remainder holds no match of the pattern and does not end with `;`.
   */
  lemma CollapseShape(s: String)
    requires HasClause(s)
    ensures var found := FindAll(s);
            found != [] &&
            var kept := Strip(found[|found| - 1]);
            var out := Collapse(s);
            |kept| + 1 <= |out| &&
            var rest := out[..|out| - |kept| - 1];
            out == rest + "\n" + kept
            && CiStartsWith(kept, Keyword) && ';' !in kept
            && !HasClause(rest)
            && (rest == [] || rest[|rest| - 1] != ';')
  {
    FoundIffPresent(s);
    var found := FindAll(s);
    var kept := Strip(found[|found| - 1]);
    KeptClauseShape(found[|found| - 1]);
    NothingLeftAfterRemoval(s);
    RemainderShape(RemoveClauses(s));
    var rest := RStripSemicolons(Strip(RemoveClauses(s)));
    var out := Collapse(s);
    assert out == rest + "\n" + kept;
    assert out[..|out| - |kept| - 1] == rest;
  }

  function Last(ms: seq<String>): String
    requires ms != []
  {
    ms[|ms| - 1]
  }

  /** `m` is the match starting at `s[p]`, and no match starts after its end. */
  predicate FinalMatchAt(s: String, p: int, m: String) {
    0 <= p < |s| && ClauseHere(s[p..])
    && m == s[p..p + ClauseLength(s[p..])]
    && !HasClause(s[p + ClauseLength(s[p..])..])
  }

  lemma ShiftFinalMatch(s: String, n: nat, p: int, m: String)
    requires n <= |s| && FinalMatchAt(s[n..], p, m)
    ensures FinalMatchAt(s, n + p, m)
  {
    assert s[n..][p..] == s[n + p..];
  }

  /** A match that is not at the head of the text starts in its tail. */
  lemma ClauseInTail(s: String)
    requires HasClause(s) && !ClauseHere(s)
    ensures HasClause(s[1..])
  {
    var i :| 0 <= i < |s| && ClauseHere(s[i..]);
    assert i > 0 by { assert s[0..] == s; }
    assert s[1..][i - 1..] == s[i..];
  }

  /** The scan past a match at the head continues on the rest of the text. */
  lemma FindAllAtClause(s: String)
    requires ClauseHere(s)
    ensures FindAll(s) == [s[..ClauseLength(s)]] + FindAll(s[ClauseLength(s)..])
  {
  }

  /** The kept clause is the last match: nothing after it holds another. */
  lemma {:induction false} LastMatchIsFinal(s: String)
    requires HasClause(s)
    ensures FindAll(s) != []
    ensures exists p :: FinalMatchAt(s, p, Last(FindAll(s)))
    decreases |s|
  {
    FoundIffPresent(s);
    if ClauseHere(s) {
      var n := ClauseLength(s);
      FindAllAtClause(s);
      if HasClause(s[n..]) {
        LastMatchIsFinal(s[n..]);
        var p :| FinalMatchAt(s[n..], p, Last(FindAll(s[n..])));
        assert Last(FindAll(s)) == Last(FindAll(s[n..]));
        ShiftFinalMatch(s, n, p, Last(FindAll(s)));
      } else {
        FoundIffPresent(s[n..]);
        assert s[0..] == s;
        assert FinalMatchAt(s, 0, Last(FindAll(s)));
      }
    } else {
      ClauseInTail(s);
      LastMatchIsFinal(s[1..]);
      var p :| FinalMatchAt(s[1..], p, Last(FindAll(s[1..])));
      assert FindAll(s) == FindAll(s[1..]);
      ShiftFinalMatch(s, 1, p, Last(FindAll(s)));
    }
  }

  /** With no `;` after it, a match swallows every later ORDER BY: the whole text is one match. */
  lemma SwallowsLaterClauses(s: String)
    requires ClauseHere(s) && ';' !in s
    ensures FindAll(s) == [s]
  {
    var n := ClauseLength(s);
    assert n == |s|;
    assert s[..n] == s;
    assert FindAll(s) == [s[..n]] + FindAll(s[n..]);
    assert s[n..] == [];
  }

  /** Positions that start no match are skipped by the scan. */
  lemma {:induction false} ScanSkips(s: String, k: nat)
    requires k <= |s|
    requires forall i :: 0 <= i < k ==> !ClauseHere(s[i..])
    ensures FindAll(s) == FindAll(s[k..])
    decreases k
  {
    if k > 0 {
      assert s[0..] == s;
      forall i | 0 <= i < k - 1 ensures !ClauseHere(s[1..][i..]) {
        assert s[1..][i..] == s[i + 1..];
      }
      ScanSkips(s[1..], k - 1);
      assert s[1..][k - 1..] == s[k..];
    }
  }

  /** Positions that start no match are copied by the deletion. */
  lemma {:induction false} RemovalCopies(s: String, k: nat)
    requires k <= |s|
    requires forall i :: 0 <= i < k ==> !ClauseHere(s[i..])
    ensures RemoveClauses(s) == s[..k] + RemoveClauses(s[k..])
    decreases k
  {
    if k > 0 {
      assert s[0..] == s;
      forall i | 0 <= i < k - 1 ensures !ClauseHere(s[1..][i..]) {
        assert s[1..][i..] == s[i + 1..];
      }
      RemovalCopies(s[1..], k - 1);
      assert s[1..][k - 1..] == s[k..];
      assert s[..k] == [s[0]] + s[1..][..k - 1];
    }
  }

  /** `.rstrip(";")` takes off one trailing `;`. */
  lemma RStripOneSemicolon(x: String)
    requires x != [] && x[|x| - 1] != ';'
    ensures RStripSemicolons(x + ";") == x
  {
    assert RStripSemicolons(x) == x;
    TakeSnoc(x + ";", |x| + 1);
  }

  /** The literal keyword followed by a space and a non-`;` character opens a match. */
  lemma KeywordOpensClause(s: String)
    requires |s| >= 10 && s[..8] == Keyword && s[8] == ' ' && s[9] != ';'
    ensures ClauseHere(s)
  {
  }

  /** In `ORDER BY;ORDER BY z` no match starts among the first nine characters. */
  lemma ExampleHeadSkipped(s: String)
    requires s == "ORDER BY;ORDER BY z"
    ensures forall i :: 0 <= i < 9 ==> !ClauseHere(s[i..])
  {
    forall i | 0 <= i < 9 ensures !ClauseHere(s[i..]) {
      if i == 0 {
        assert s[0..][8] == ';';
      } else {
        assert s[i..][0] == s[i];
      }
    }
  }

  /** `ORDER BY z` is one whole match. */
  lemma ExampleTail(t: String)
    requires t == "ORDER BY z"
    ensures ClauseHere(t) && ClauseLength(t) == 10
    ensures FindAll(t) == [t] && RemoveClauses(t) == []
  {
    KeywordOpensClause(t);
    assert t[..10] == t && t[10..] == [];
  }

  /** `ORDER BY;ORDER BY z` is `ORDER BY;` followed by `ORDER BY z`. */
  lemma ExampleSplit(s: String)
    requires s == "ORDER BY;ORDER BY z"
    ensures s[..9] == "ORDER BY;" && s[9..] == "ORDER BY z"
  {
  }

  /** The scan of `ORDER BY;ORDER BY z` finds the second one only. */
  lemma ExampleFound(s: String)
    requires s == "ORDER BY;ORDER BY z"
    ensures FindAll(s) == ["ORDER BY z"]
  {
    ExampleHeadSkipped(s);
    ScanSkips(s, 9);
    ExampleTail(s[9..]);
  }

  /** The deletion on `ORDER BY;ORDER BY z` keeps the first one. */
  lemma ExampleRemoved(s: String)
    requires s == "ORDER BY;ORDER BY z"
    ensures RemoveClauses(s) == "ORDER BY;"
  {
    ExampleHeadSkipped(s);
    RemovalCopies(s, 9);
    ExampleSplit(s);
    ExampleTail(s[9..]);
    AppendEmpty(s[..9]);
  }

  /**
   * The step can leave a second ORDER BY in its output, and so is not
   * idempotent: an ORDER BY that the pattern rejected (it is followed by `;`)
   * becomes the head of a match once the `;` is stripped and the kept clause
   * is appended, and the output is then one single match.
   */
  lemma SecondOrderByCanRemain(s: String)
    requires s == "ORDER BY;ORDER BY z"
    ensures Collapse(s) == "ORDER BY" + "\n" + "ORDER BY z"
    ensures FindAll(Collapse(s)) == [Collapse(s)]
  {
    ExampleCollapsed(s);
    ExampleOneMatch(Collapse(s));
  }

  /** `ORDER BY` and `ORDER BY z` on two lines are one single match. */
  lemma ExampleOneMatch(out: String)
    requires out == "ORDER BY" + "\n" + "ORDER BY z"
    ensures FindAll(out) == [out]
  {
    assert out[..8] == Keyword;
    assert ClauseHere(out);
    SwallowsLaterClauses(out);
  }

  /** The step on `ORDER BY;ORDER BY z`: the first clause without its `;`, a newline, the second clause. */
  lemma ExampleCollapsed(s: String)
    requires s == "ORDER BY;ORDER BY z"
    ensures Collapse(s) == "ORDER BY" + "\n" + "ORDER BY z"
  {
    ExampleFound(s);
    ExampleRemoved(s);
    var removed := RemoveClauses(s);
    StripUnpadded(removed);
    var kept: String := "ORDER BY";
    RStripOneSemicolon(kept);
    assert kept + ";" == removed;
    var last := FindAll(s)[|FindAll(s)| - 1];
    assert last == "ORDER BY z";
    StripUnpadded(last);
  }
}
