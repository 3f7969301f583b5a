/**
 * Step 2.6 of the normaliser (app.py:63-80, repeated in app_movie.py:137-154
 * and stream.py:68-76): for every entry of `alias_to_table`, in insertion
 * order, the two substitutions
 *
 *   re.sub(fr"(?i)\bFROM\s+{alias}\b(?!\.)", f"FROM {alias}.{tbl}", sql)
 *   re.sub(fr"(?i)\bJOIN\s+{alias}\b(?!\.)", f"JOIN {alias}.{tbl}", sql)
 *
 * The scanner below is `re.sub` for these patterns: it tries a match at each
 * position from left to right, and after a match resumes at its end. The
 * `\b` in front looks at the character before the position in the text being
 * scanned, which the scanner carries along as `prevWord`.
 */
module Qualification {
  import opened Text

  /** An entry of `alias_to_table`: the alias the generated SQL uses, and the table inside the database attached under it. */
  datatype Entry = Entry(alias: String, table: String)

  /** The fixed map, in the order `.items()` visits it. */
  const AliasToTable: seq<Entry> := [
    Entry("coin_bitcoin", "BITCOIN"),
    Entry("coin_chainlink", "CHAINLINK"),
    Entry("coin_ethereum", "ETHEREUM"),
    Entry("coin_usdcoin", "USDCOIN")
  ]

  /** One of the substitutions: `keyword` is `FROM` or `JOIN`. */
  datatype Rule = Rule(keyword: String, alias: String, table: String)

  function FromRule(e: Entry): Rule {
    Rule("FROM", e.alias, e.table)
  }

  function JoinRule(e: Entry): Rule {
    Rule("JOIN", e.alias, e.table)
  }

  /** The replacement text `f"{keyword} {alias}.{tbl}"`. */
  function Replacement(r: Rule): String {
    r.keyword + " " + r.alias + "." + r.table
  }

  /** The substitutions in the order the loop performs them: FROM, then JOIN, per entry. */
  function RulesOf(es: seq<Entry>): (rs: seq<Rule>)
    ensures |rs| == 2 * |es|
    ensures forall k :: 0 <= k < |es| ==> rs[2 * k] == FromRule(es[k]) && rs[2 * k + 1] == JoinRule(es[k])
  {
    if es == [] then [] else [FromRule(es[0]), JoinRule(es[0])] + RulesOf(es[1..])
  }

  /** The eight substitutions of the normaliser. */
  function Rules(): seq<Rule> {
    RulesOf(AliasToTable)
  }

  /** The length of the run of `\s` at the front of `s`. */
  function SpaceRun(s: String): (n: nat)
    ensures n <= |s| && (forall i :: 0 <= i < n ==> IsSpace(s[i])) && (n == |s| || !IsSpace(s[n]))
  {
    if s != [] && IsSpace(s[0]) then 1 + SpaceRun(s[1..]) else 0
  }

  /**
   * Where the alias must start: after the keyword and the whole `\s+` run.
   * An alias does not start with whitespace, so giving back characters of the
   * run cannot produce a match that the whole run does not.
   */
  function AliasStart(s: String): (w: nat)
    requires |s| >= 4
    ensures 4 <= w <= |s|
  {
    4 + SpaceRun(s[4..])
  }

  /**
   * The pattern of `r` matches at `s[0]`: no word character before it, the
   * keyword in any case, whitespace, the alias in any case, then neither a
   * word character (`\b`, as an alias ends with one) nor a `.` (`(?!\.)`).
   */
  predicate MatchHere(r: Rule, prevWord: bool, s: String)
    ensures MatchHere(r, prevWord, s) ==> !prevWord && 5 + |r.alias| <= |s|
  {
    && !prevWord
    && |s| > 4 && CiEq(s[..4], r.keyword) && IsSpace(s[4])
    && AliasStart(s) + |r.alias| <= |s|
    && CiEq(s[AliasStart(s)..AliasStart(s) + |r.alias|], r.alias)
    && var e := AliasStart(s) + |r.alias|;
       e == |s| || (!IsWordChar(s[e]) && s[e] != '.')
  }

  /** Where a match ends: after the alias. */
  function MatchEnd(r: Rule, s: String): (e: nat)
    requires MatchHere(r, false, s)
    ensures 5 <= e <= |s|
  {
    AliasStart(s) + |r.alias|
  }

  /**
   * `re.sub` of the pattern of `r`, scanning `s`, whose preceding character
   * is a word character iff `prevWord`. A text with no match is left as it is.
   */
  function Substitute(r: Rule, prevWord: bool, s: String): (o: String)
    ensures Clean(r, prevWord, s) ==> o == s
    decreases |s|
  {
    if s == [] then []
    else if MatchHere(r, prevWord, s) then
      var e := MatchEnd(r, s);
      Replacement(r) + Substitute(r, IsWordChar(s[e - 1]), s[e..])
    else [s[0]] + Substitute(r, IsWordChar(s[0]), s[1..])
  }

  /** One `re.sub` call on the whole statement. */
  function Apply(r: Rule, s: String): String {
    Substitute(r, false, s)
  }

  /** The loop body for one entry: its FROM substitution, then its JOIN substitution. */
  function QualifyEntry(s: String, e: Entry): String {
    Apply(JoinRule(e), Apply(FromRule(e), s))
  }

  /**
   * The loop over `es`, from the first entry to the last. A text that no
   * substitution of the map matches goes through it unchanged.
   */
  function QualifyWith(s: String, es: seq<Entry>): (o: String)
    ensures (forall e :: e in es ==> e in AliasToTable) && CleanFor(Rules(), s) ==> o == s
    decreases |es|
  {
    if es == [] then s
    else
      EntryFixed(s, es[0]);
      QualifyWith(QualifyEntry(s, es[0]), es[1..])
  }

  /** The whole step: it leaves no match of any of the eight patterns behind. */
  function Qualify(s: String): (o: String)
    ensures CleanFor(Rules(), o)
  {
    QualifyWithCleans(s, AliasToTable);
    QualifyWith(s, AliasToTable)
  }

  /* ---------- What the substitutions have in common ---------- */

  /** A character that can open a match: the first letter of FROM or JOIN, in either case. */
  predicate KwStart(c: char) {
    LowerChar(c) == 'f' || LowerChar(c) == 'j'
  }

  predicate NoKwStart(s: String) {
    forall i :: 0 <= i < |s| ==> !KwStart(s[i])
  }

  /**
   * Every F or J of `x` comes right after a word character, so `\b` fails in
   * front of it; for the first character of `x`, the one before it is a word
   * character iff `pw`.
   */
  predicate Guarded(pw: bool, x: String) {
    (x != [] && KwStart(x[0]) ==> pw)
    && forall i :: 1 <= i < |x| && KwStart(x[i]) ==> IsWordChar(x[i - 1])
  }

  /** What the proofs use of a substitution; the eight of the normaliser have it. */
  predicate WellFormed(r: Rule) {
    && (r.keyword == "FROM" || r.keyword == "JOIN")
    && |r.alias| > 5 && NoKwStart(r.alias) && !IsSpace(r.alias[0]) && IsWordChar(r.alias[|r.alias| - 1])
    && r.table != [] && NoKwStart(r.table) && IsWordChar(r.table[|r.table| - 1])
  }

  /** Two well-formed substitutions whose aliases are equal or differ, in any case, at index 5. */
  predicate Compatible(r: Rule, r': Rule) {
    WellFormed(r) && WellFormed(r')
    && (r.alias == r'.alias || LowerChar(r.alias[5]) != LowerChar(r'.alias[5]))
  }

  /** An alias and table of the map: neither holds F or J, and both end with a word character. */
  predicate GoodEntry(e: Entry) {
    |e.alias| > 5 && NoKwStart(e.alias) && !IsSpace(e.alias[0]) && IsWordChar(e.alias[|e.alias| - 1])
    && e.table != [] && NoKwStart(e.table) && IsWordChar(e.table[|e.table| - 1])
  }

  lemma BitcoinGood(a: String, t: String)
    requires a == "coin_bitcoin" && t == "BITCOIN"
    ensures GoodEntry(Entry(a, t))
  {
    assert |a| == 12 && a[0] == 'c' && a[11] == 'n' && t[6] == 'N';
    assert NoKwStart(a) && NoKwStart(t);
  }

  lemma ChainlinkGood(a: String, t: String)
    requires a == "coin_chainlink" && t == "CHAINLINK"
    ensures GoodEntry(Entry(a, t))
  {
    assert |a| == 14 && a[0] == 'c' && a[13] == 'k' && t[8] == 'K';
    assert NoKwStart(a) && NoKwStart(t);
  }

  lemma EthereumGood(a: String, t: String)
    requires a == "coin_ethereum" && t == "ETHEREUM"
    ensures GoodEntry(Entry(a, t))
  {
    assert |a| == 13 && a[0] == 'c' && a[12] == 'm' && t[7] == 'M';
    assert NoKwStart(a) && NoKwStart(t);
  }

  lemma UsdcoinGood(a: String, t: String)
    requires a == "coin_usdcoin" && t == "USDCOIN"
    ensures GoodEntry(Entry(a, t))
  {
    assert |a| == 12 && a[0] == 'c' && a[11] == 'n' && t[6] == 'N';
    assert NoKwStart(a) && NoKwStart(t);
  }

  lemma GoodEntries()
    ensures forall e :: e in AliasToTable ==> GoodEntry(e)
  {
    BitcoinGood("coin_bitcoin", "BITCOIN");
    ChainlinkGood("coin_chainlink", "CHAINLINK");
    EthereumGood("coin_ethereum", "ETHEREUM");
    UsdcoinGood("coin_usdcoin", "USDCOIN");
  }

  lemma EntriesWellFormed()
    ensures forall e :: e in AliasToTable ==> WellFormed(FromRule(e)) && WellFormed(JoinRule(e))
  {
    GoodEntries();
  }

  lemma EntriesDistinct()
    ensures forall e, e' :: e in AliasToTable && e' in AliasToTable ==>
              e.alias == e'.alias || LowerChar(e.alias[5]) != LowerChar(e'.alias[5])
  {
  }

  /** Every substitution of the loop belongs to one of its entries. */
  lemma RulesOfEntries(es: seq<Entry>)
    ensures forall r :: r in RulesOf(es) ==> exists e :: e in es && (r == FromRule(e) || r == JoinRule(e))
    ensures forall e :: e in es ==> FromRule(e) in RulesOf(es) && JoinRule(e) in RulesOf(es)
  {
    var rs := RulesOf(es);
    forall r | r in rs ensures exists e :: e in es && (r == FromRule(e) || r == JoinRule(e)) {
      var i :| 0 <= i < |rs| && rs[i] == r;
      var k := i / 2;
      if i % 2 == 0 {
        assert rs[2 * k] == FromRule(es[k]);
      } else {
        assert rs[2 * k + 1] == JoinRule(es[k]);
      }
    }
    forall e | e in es ensures FromRule(e) in rs && JoinRule(e) in rs {
      var k :| 0 <= k < |es| && es[k] == e;
      assert rs[2 * k] == FromRule(e) && rs[2 * k + 1] == JoinRule(e);
    }
  }

  /** Both substitutions of an entry of the map are among the eight. */
  lemma EntryRulesIn(e: Entry)
    requires e in AliasToTable
    ensures FromRule(e) in Rules() && JoinRule(e) in Rules()
  {
    RulesOfEntries(AliasToTable);
  }

  /** Any two substitutions of the normaliser can be reasoned about together. */
  lemma RulesCompatible()
    ensures forall r, r' :: r in Rules() && r' in Rules() ==> Compatible(r, r')
  {
    RulesOfEntries(AliasToTable);
    EntriesWellFormed();
    EntriesDistinct();
  }

  /** Each of the eight substitutions is well formed. */
  lemma RulesWellFormed()
    ensures forall r :: r in Rules() ==> WellFormed(r)
  {
    RulesOfEntries(AliasToTable);
    EntriesWellFormed();
  }

  /** A match opens with F or J. */
  lemma MatchOpensWithKw(r: Rule, pw: bool, s: String)
    requires WellFormed(r)
    ensures MatchHere(r, pw, s) ==> KwStart(s[0])
  {
    if MatchHere(r, pw, s) {
      assert LowerChar(s[..4][0]) == LowerChar(r.keyword[0]);
    }
  }

  /** Past its first character, a match and the character after it hold no F or J. */
  lemma MatchWindow(r: Rule, pw: bool, s: String)
    requires WellFormed(r) && MatchHere(r, pw, s)
    ensures forall i :: 1 <= i <= MatchEnd(r, s) && i < |s| ==> !KwStart(s[i])
  {
    var w := AliasStart(s);
    var e := MatchEnd(r, s);
    forall i | 1 <= i <= e && i < |s| ensures !KwStart(s[i]) {
      if i < 4 {
        assert LowerChar(s[..4][i]) == LowerChar(r.keyword[i]);
      } else if i < w {
        assert IsSpace(s[4..][i - 4]);
      } else if i < e {
        assert LowerChar(s[w..e][i - w]) == LowerChar(r.alias[i - w]);
      }
    }
  }

  /** The whitespace run is decided by its characters and the one after it. */
  lemma {:induction false} SpaceRunAgrees(a: String, b: String)
    requires SpaceRun(a) < |a| && SpaceRun(a) < |b| && a[..SpaceRun(a) + 1] == b[..SpaceRun(a) + 1]
    ensures SpaceRun(b) == SpaceRun(a)
  {
    assert a[0] == a[..SpaceRun(a) + 1][0] && b[0] == b[..SpaceRun(a) + 1][0];
    if IsSpace(a[0]) {
      assert a[1..][..SpaceRun(a[1..]) + 1] == a[..SpaceRun(a) + 1][1..];
      assert b[1..][..SpaceRun(a[1..]) + 1] == b[..SpaceRun(a) + 1][1..];
      SpaceRunAgrees(a[1..], b[1..]);
    }
  }

  /**
   * Whether a match starts at the head depends only on the text up to the
   * next F or J: two texts that agree up to index `m`, and either both end
   * there or both hold an F or J there, match alike.
   */
  lemma MatchLocal(r: Rule, pw: bool, x: String, y: String, m: nat)
    requires WellFormed(r)
    requires 1 <= m <= |x| && m <= |y| && x[..m] == y[..m]
    requires (m == |x| && m == |y|) || (m < |x| && m < |y| && KwStart(x[m]) && KwStart(y[m]))
    ensures MatchHere(r, pw, x) ==> MatchHere(r, pw, y)
  {
    if MatchHere(r, pw, x) {
      if m == |x| {
        TakeAll(x);
        TakeAll(y);
      } else {
        var e := MatchEnd(r, x);
        MatchWindow(r, pw, x);
        assert e < m;
        forall i | 0 <= i <= e ensures x[i] == y[i] {
          assert x[..m][i] == y[..m][i];
        }
        MatchAgrees(r, pw, x, y);
      }
    }
  }

  /** A match ending before the end of `x` is one of any text that agrees with `x` up to and including its end. */
  lemma MatchAgrees(r: Rule, pw: bool, x: String, y: String)
    requires MatchHere(r, pw, x) && MatchEnd(r, x) < |x| && MatchEnd(r, x) < |y|
    requires forall i :: 0 <= i <= MatchEnd(r, x) ==> x[i] == y[i]
    ensures MatchHere(r, pw, y)
  {
    var e := MatchEnd(r, x);
    assert x[..4] == y[..4];
    var n := SpaceRun(x[4..]);
    assert x[4..][..n + 1] == y[4..][..n + 1];
    SpaceRunAgrees(x[4..], y[4..]);
    var w := AliasStart(x);
    assert x[w..e] == y[w..e];
  }

  /** The index of the first F or J in `t`, or its length. */
  function FirstKw(t: String): (j: nat)
    ensures j <= |t| && (forall i :: 0 <= i < j ==> !KwStart(t[i])) && (j < |t| ==> KwStart(t[j]))
  {
    if t == [] || KwStart(t[0]) then 0 else 1 + FirstKw(t[1..])
  }

  /**
   * `o` copies `t` up to the first F or J of `t`, and has an F or J where that
   * one was; when `t` has none, `o` is `t`.
   */
  predicate PrefixKept(t: String, o: String) {
    var j := FirstKw(t);
    j <= |o| && o[..j] == t[..j]
    && (j < |t| ==> j < |o| && KwStart(o[j]))
    && (j == |t| ==> o == t)
  }

  /** Prepending the same character that is neither F nor J keeps the relation. */
  lemma PrefixKeptCons(c: char, t: String, o: String)
    requires !KwStart(c) && PrefixKept(t, o)
    ensures PrefixKept([c] + t, [c] + o)
  {
    var j := FirstKw(t);
    assert ([c] + t)[1..] == t;
    assert FirstKw([c] + t) == j + 1;
    assert ([c] + o)[..j + 1] == [c] + o[..j];
    assert ([c] + t)[..j + 1] == [c] + t[..j];
    if j < |o| {
      assert ([c] + o)[j + 1] == o[j];
    }
  }

  /**
   * A substitution copies its input up to the first F or J, and puts an F or
   * J where that one was; an input without one it leaves as it is.
   */
  lemma {:induction false} NoStartPrefix(r: Rule, pw: bool, t: String)
    requires WellFormed(r)
    ensures PrefixKept(t, Substitute(r, pw, t))
    decreases |t|
  {
    if t != [] {
      if MatchHere(r, pw, t) {
        MatchOpensWithKw(r, pw, t);
        assert Substitute(r, pw, t)[0] == r.keyword[0];
      } else if !KwStart(t[0]) {
        var c, t' := t[0], t[1..];
        NoStartPrefix(r, IsWordChar(c), t');
        PrefixKeptCons(c, t', Substitute(r, IsWordChar(c), t'));
        HeadTail(t, []);
      }
    }
  }

  /** A substitution in the tail does not change whether a match starts at the head. */
  lemma HeadTransfer(r: Rule, r': Rule, pw: bool, pw': bool, c: char, t: String)
    requires WellFormed(r) && WellFormed(r')
    ensures MatchHere(r, pw, [c] + t) <==> MatchHere(r, pw, [c] + Substitute(r', pw', t))
  {
    var o := Substitute(r', pw', t);
    NoStartPrefix(r', pw', t);
    var j := FirstKw(t);
    var x := [c] + t;
    var y := [c] + o;
    assert x[..j + 1] == [c] + t[..j];
    assert y[..j + 1] == [c] + o[..j];
    if j < |t| {
      assert x[j + 1] == t[j] && y[j + 1] == o[j];
    }
    MatchLocal(r, pw, x, y, j + 1);
    MatchLocal(r, pw, y, x, j + 1);
  }

  /* ---------- Texts a substitution leaves alone ---------- */

  /** The scan of `r` over `s` finds no match anywhere. */
  predicate Clean(r: Rule, pw: bool, s: String)
    decreases |s|
  {
    s == [] || (!MatchHere(r, pw, s) && Clean(r, IsWordChar(s[0]), s[1..]))
  }

  /** A text without matches has none from any later position either. */
  lemma {:induction false} CleanSuffix(r: Rule, pw: bool, s: String, k: nat)
    requires Clean(r, pw, s) && 1 <= k <= |s|
    ensures Clean(r, IsWordChar(s[k - 1]), s[k..])
    decreases k
  {
    if k > 1 {
      CleanSuffix(r, IsWordChar(s[0]), s[1..], k - 1);
      assert s[1..][k - 2] == s[k - 1];
      assert s[1..][k - 1..] == s[k..];
    }
  }

  /** Text without F or J in front of a text without matches brings in none. */
  lemma {:induction false} NoKwPrefixClean(r: Rule, pw: bool, x: String, t: String)
    requires WellFormed(r) && NoKwStart(x)
    requires Clean(r, if x == [] then pw else IsWordChar(x[|x| - 1]), t)
    ensures Clean(r, pw, x + t)
    decreases |x|
  {
    if x == [] {
      assert x + t == t;
    } else {
      MatchOpensWithKw(r, pw, x + t);
      assert (x + t)[0] == x[0];
      TailAppend(x, t);
      NoKwPrefixClean(r, IsWordChar(x[0]), x[1..], t);
    }
  }

  /** Past its first letter, a replacement text holds no F or J. */
  lemma ReplacementTail(r: Rule)
    requires WellFormed(r)
    ensures NoKwStart(Replacement(r)[1..])
  {
    var x := Replacement(r);
    forall i | 1 <= i < |x| ensures !KwStart(x[i]) {
      if i < 4 {
        assert x[i] == r.keyword[i];
      } else if i == 4 {
        assert x[i] == ' ';
      } else if i < 5 + |r.alias| {
        assert x[i] == r.alias[i - 5];
      } else if i == 5 + |r.alias| {
        assert x[i] == '.';
      } else {
        assert x[i] == r.table[i - 6 - |r.alias|];
      }
    }
  }

  /**
   * No substitution matches at an already qualified reference: its keyword
   * decides FROM against JOIN, index 5 of its alias decides between aliases,
   * and a `.` follows its own alias.
   */
  lemma ReplacementNoMatch(r: Rule, r': Rule, pw: bool, t: String)
    requires Compatible(r, r')
    ensures !MatchHere(r', pw, Replacement(r) + t)
  {
    var x := Replacement(r) + t;
    var a := |r.alias|;
    assert x[..4] == r.keyword;
    if r.keyword != r'.keyword {
      assert LowerChar(x[..4][0]) != LowerChar(r'.keyword[0]);
    } else {
      assert x[4] == ' ' && x[5] == r.alias[0];
      assert SpaceRun(x[4..]) == 1 by {
        assert x[4..][0] == ' ' && x[4..][1] == r.alias[0];
        assert x[4..][1..][0] == r.alias[0];
      }
      if r.alias == r'.alias {
        assert x[5 + a] == '.';
      } else if 5 + |r'.alias| <= |x| {
        assert x[5..5 + |r'.alias|][5] == r.alias[5];
      }
    }
  }

  /** An already qualified reference in front of a text without matches brings in none. */
  lemma ReplacementPassThrough(r: Rule, r': Rule, pw: bool, t: String)
    requires Compatible(r, r') && Clean(r', true, t)
    ensures Clean(r', pw, Replacement(r) + t)
  {
    var x := Replacement(r);
    ReplacementNoMatch(r, r', pw, t);
    ReplacementTail(r);
    assert x[|x| - 1] == r.table[|r.table| - 1];
    assert x[1..][|x| - 2] == x[|x| - 1];
    TailAppend(x, t);
    NoKwPrefixClean(r', IsWordChar(x[0]), x[1..], t);
  }

  /** Where a match ends, the text before holds the last letter of the alias, a word character. */
  lemma MatchEndsInWord(r: Rule, s: String)
    requires WellFormed(r) && MatchHere(r, false, s)
    ensures IsWordChar(s[MatchEnd(r, s) - 1])
  {
    var w := AliasStart(s);
    var e := MatchEnd(r, s);
    assert LowerChar(s[w..e][|r.alias| - 1]) == LowerChar(r.alias[|r.alias| - 1]);
    CiWordChar(s[e - 1], r.alias[|r.alias| - 1]);
  }

  /**
   * After a substitution, no match of it is left, and no match of another
   * substitution appears where there was none.
   */
  lemma {:induction false} CleanAfter(r: Rule, r': Rule, pw: bool, s: String)
    requires Compatible(r', r)
    requires r == r' || Clean(r, pw, s)
    ensures Clean(r, pw, Substitute(r', pw, s))
    decreases |s|
  {
    if s != [] {
      if MatchHere(r', pw, s) {
        var e := MatchEnd(r', s);
        MatchEndsInWord(r', s);
        if r != r' {
          CleanSuffix(r, pw, s, e);
        }
        CleanAfter(r, r', true, s[e..]);
        ReplacementPassThrough(r', r, pw, Substitute(r', true, s[e..]));
      } else {
        HeadTransfer(r, r', pw, IsWordChar(s[0]), s[0], s[1..]);
        assert [s[0]] + s[1..] == s;
        CleanAfter(r, r', IsWordChar(s[0]), s[1..]);
      }
    }
  }

  /* ---------- The loop over the map ---------- */

  predicate CleanFor(rs: seq<Rule>, s: String) {
    forall r :: r in rs ==> Clean(r, false, s)
  }

  /** One loop iteration leaves a text without matches as it is. */
  lemma EntryFixed(s: String, e: Entry)
    ensures e in AliasToTable && CleanFor(Rules(), s) ==> QualifyEntry(s, e) == s
  {
    if e in AliasToTable && CleanFor(Rules(), s) {
      EntryRulesIn(e);
    }
  }

  /** One loop iteration leaves no match of its own two substitutions and brings in none of the others. */
  lemma QualifyEntryCleans(s: String, e: Entry)
    requires e in AliasToTable
    ensures Clean(FromRule(e), false, QualifyEntry(s, e)) && Clean(JoinRule(e), false, QualifyEntry(s, e))
    ensures forall r :: r in Rules() && Clean(r, false, s) ==> Clean(r, false, QualifyEntry(s, e))
  {
    RulesCompatible();
    RulesOfEntries(AliasToTable);
    var f, j := FromRule(e), JoinRule(e);
    var s1 := Apply(f, s);
    var s2 := Apply(j, s1);
    CleanAfter(f, f, false, s);
    CleanAfter(f, j, false, s1);
    CleanAfter(j, j, false, s1);
    forall r | r in Rules() && Clean(r, false, s) ensures Clean(r, false, s2) {
      CleanAfter(r, f, false, s);
      CleanAfter(r, j, false, s1);
    }
  }

  /** The loop over `es` brings in no match of any of the eight patterns. */
  lemma {:induction false} QualifyWithKeepsClean(s: String, es: seq<Entry>, r: Rule)
    requires forall e :: e in es ==> e in AliasToTable
    requires r in Rules() && Clean(r, false, s)
    ensures Clean(r, false, QualifyWith(s, es))
    decreases |es|
  {
    if es != [] {
      var s1 := QualifyEntry(s, es[0]);
      QualifyEntryCleans(s, es[0]);
      QualifyWithKeepsClean(s1, es[1..], r);
    }
  }

  /** After the loop over `es`, none of their substitutions matches. */
  lemma {:induction false} QualifyWithCleans(s: String, es: seq<Entry>)
    requires forall e :: e in es ==> e in AliasToTable
    ensures CleanFor(RulesOf(es), QualifyWith(s, es))
    decreases |es|
  {
    if es != [] {
      var s1 := QualifyEntry(s, es[0]);
      var o := QualifyWith(s, es);
      assert o == QualifyWith(s1, es[1..]);
      QualifyEntryCleans(s, es[0]);
      QualifyWithCleans(s1, es[1..]);
      EntryRulesIn(es[0]);
      QualifyWithKeepsClean(s1, es[1..], FromRule(es[0]));
      QualifyWithKeepsClean(s1, es[1..], JoinRule(es[0]));
      assert RulesOf(es) == [FromRule(es[0]), JoinRule(es[0])] + RulesOf(es[1..]);
      forall r | r in RulesOf(es) ensures Clean(r, false, o) {
        if r !in RulesOf(es[1..]) {
          assert r == FromRule(es[0]) || r == JoinRule(es[0]);
        }
      }
    }
  }

  /** The step changes a statement exactly when one of the eight patterns matches somewhere in it. */
  lemma FixedPointIffClean(s: String)
    ensures Qualify(s) == s <==> CleanFor(Rules(), s)
  {
  }

  /** A second pass of the step changes nothing: it never qualifies a reference twice. */
  lemma QualifyIdempotent(s: String)
    ensures Qualify(Qualify(s)) == Qualify(s)
  {
  }

  /* ---------- What happens to one reference ---------- */

  /** `x` is a reference the pattern of `r` is written for: its keyword and alias in any case, with whitespace between. */
  predicate RefOf(x: String, r: Rule) {
    && |x| >= 5 + |r.alias|
    && CiEq(x[..4], r.keyword)
    && (forall i :: 4 <= i < |x| - |r.alias| ==> IsSpace(x[i]))
    && CiEq(x[|x| - |r.alias|..], r.alias)
  }

  lemma {:induction false} SpaceRunExact(s: String, n: nat)
    requires n < |s| && (forall i :: 0 <= i < n ==> IsSpace(s[i])) && !IsSpace(s[n])
    ensures SpaceRun(s) == n
    decreases n
  {
    if n > 0 {
      SpaceRunExact(s[1..], n - 1);
    }
  }

  /** After a reference, whatever follows, the alias is looked for where it is. */
  lemma RefAliasStart(r: Rule, x: String, u: String)
    requires WellFormed(r) && RefOf(x, r)
    ensures AliasStart(x + u) == |x| - |r.alias|
  {
    var y := x + u;
    var n := |x| - |r.alias|;
    assert LowerChar(x[n..][0]) == LowerChar(r.alias[0]);
    CiSpace(x[n], r.alias[0]);
    SpaceRunExact(y[4..], n - 4);
  }

  /**
   * The pattern of `r` matches at its own reference exactly when the text
   * after it is empty or starts with a character that is neither a word
   * character nor a `.`; the match then covers the reference.
   */
  lemma RefMatches(r: Rule, x: String, t: String)
    requires WellFormed(r) && RefOf(x, r)
    ensures MatchHere(r, false, x + t) <==> (t == [] || (!IsWordChar(t[0]) && t[0] != '.'))
    ensures MatchHere(r, false, x + t) ==> MatchEnd(r, x + t) == |x|
  {
    var y := x + t;
    var n := |x| - |r.alias|;
    RefAliasStart(r, x, t);
    assert y[..4] == x[..4];
    assert y[n..n + |r.alias|] == x[n..];
    if t != [] {
      assert y[|x|] == t[0];
    }
  }

  /** The patterns of other substitutions never match at a reference, whatever follows it. */
  lemma RefOtherNoMatch(r: Rule, r': Rule, x: String, u: String)
    requires Compatible(r, r') && RefOf(x, r)
    requires r'.keyword != r.keyword || r'.alias != r.alias
    ensures !MatchHere(r', false, x + u)
  {
    var y := x + u;
    var n := |x| - |r.alias|;
    assert y[..4] == x[..4];
    assert LowerChar(x[..4][0]) == LowerChar(r.keyword[0]);
    if r'.keyword == r.keyword {
      RefAliasStart(r, x, u);
      assert LowerChar(x[n..][5]) == LowerChar(r.alias[5]);
      if n + |r'.alias| <= |y| {
        assert y[n..n + |r'.alias|][5] == x[n..][5];
      }
    }
  }

  /** Past its first letter, a reference holds no F or J. */
  lemma RefTail(r: Rule, x: String)
    requires WellFormed(r) && RefOf(x, r)
    ensures NoKwStart(x[1..])
  {
    var n := |x| - |r.alias|;
    forall i | 1 <= i < |x| ensures !KwStart(x[i]) {
      if i < 4 {
        assert LowerChar(x[..4][i]) == LowerChar(r.keyword[i]);
      } else if i >= n {
        assert LowerChar(x[n..][i - n]) == LowerChar(r.alias[i - n]);
      }
    }
  }

  /** Whether the character before matters: not in front of a text that starts with neither F nor J. */
  lemma PrevWordIrrelevant(r: Rule, t: String)
    requires WellFormed(r) && (t == [] || !KwStart(t[0]))
    ensures Substitute(r, true, t) == Substitute(r, false, t)
  {
    if t != [] {
      MatchOpensWithKw(r, false, t);
    }
  }

  /** A substitution keeps a first character that is neither F nor J. */
  lemma FirstCharKept(r: Rule, pw: bool, t: String)
    requires WellFormed(r) && t != [] && !KwStart(t[0])
    ensures Substitute(r, pw, t) != [] && Substitute(r, pw, t)[0] == t[0]
  {
    MatchOpensWithKw(r, pw, t);
  }

  /** A character that is neither F nor J goes through a substitution as it is. */
  lemma OneCharPass(r: Rule, pw: bool, c: char, u: String)
    requires WellFormed(r) && !KwStart(c)
    ensures Substitute(r, pw, [c] + u) == [c] + Substitute(r, IsWordChar(c), u)
  {
    MatchOpensWithKw(r, pw, [c] + u);
    assert ([c] + u)[1..] == u;
  }

  /** Text whose every F or J follows a word character goes through a substitution as it is. */
  lemma {:induction false} GuardedPass(r: Rule, pw: bool, x: String, t: String)
    requires WellFormed(r) && x != [] && Guarded(pw, x)
    ensures Substitute(r, pw, x + t) == x + Substitute(r, IsWordChar(x[|x| - 1]), t)
    decreases |x|
  {
    var c, y := x[0], x[1..];
    var last := IsWordChar(x[|x| - 1]);
    HeadTail(x, t);
    GuardedHead(r, pw, c, y + t);
    if y != [] {
      GuardedTail(pw, x);
      GuardedPass(r, IsWordChar(c), y, t);
      assert y[|y| - 1] == x[|x| - 1];
      AppendAssoc([c], y, Substitute(r, last, t));
    } else {
      assert y + t == t && x == [c];
    }
  }

  /** An F or J after a word character, or any other character, goes through a substitution as it is. */
  lemma GuardedHead(r: Rule, pw: bool, c: char, u: String)
    requires WellFormed(r) && (KwStart(c) ==> pw)
    ensures Substitute(r, pw, [c] + u) == [c] + Substitute(r, IsWordChar(c), u)
  {
    if KwStart(c) {
      NoMatchStep(r, pw, c, u);
    } else {
      OneCharPass(r, pw, c, u);
    }
  }

  lemma GuardedTail(pw: bool, x: String)
    requires x != [] && Guarded(pw, x)
    ensures Guarded(IsWordChar(x[0]), x[1..])
  {
    forall i | 1 <= i < |x| - 1 && KwStart(x[1..][i]) ensures IsWordChar(x[1..][i - 1]) {
      assert x[1..][i] == x[i + 1];
    }
  }

  /** `x` opens no match of the substitutions `rs`, whatever follows it, and every F or J past its head follows a word character. */
  ghost predicate Inert(x: String, rs: seq<Rule>) {
    x != [] && Guarded(IsWordChar(x[0]), x[1..]) && forall r, u :: r in rs ==> !MatchHere(r, false, x + u)
  }

  /** The scan of `t` after `x` starts as the scan of `t` alone does. */
  predicate Joins(x: String, t: String)
    requires x != []
  {
    t == [] || !IsWordChar(x[|x| - 1]) || !KwStart(t[0])
  }

  /** Where no match starts, a substitution copies the character and moves on. */
  lemma NoMatchStep(r: Rule, pw: bool, c: char, u: String)
    requires !MatchHere(r, pw, [c] + u)
    ensures Substitute(r, pw, [c] + u) == [c] + Substitute(r, IsWordChar(c), u)
  {
    assert ([c] + u)[1..] == u;
  }

  /** Text after the head whose every F or J follows a word character goes through with it. */
  lemma TailPass(r: Rule, c: char, x: String, t: String)
    requires WellFormed(r) && Guarded(IsWordChar(c), x)
    ensures Substitute(r, IsWordChar(c), x + t)
            == x + Substitute(r, IsWordChar(([c] + x)[|x|]), t)
  {
    if x == [] {
      assert x + t == t;
    } else {
      GuardedPass(r, IsWordChar(c), x, t);
    }
  }

  /** Where no match starts at the head of `x + t`, a substitution copies it and moves on. */
  lemma HeadStep(r: Rule, x: String, t: String)
    requires x != [] && !MatchHere(r, false, x + t)
    ensures Substitute(r, false, x + t) == [x[0]] + Substitute(r, IsWordChar(x[0]), x[1..] + t)
  {
    HeadTail(x, t);
    NoMatchStep(r, false, x[0], x[1..] + t);
  }

  /** Past a copied head, the rest of `x` goes through as it is and the scan of `t` starts afresh. */
  lemma TailKept(r: Rule, c: char, x: String, t: String)
    requires WellFormed(r) && Guarded(IsWordChar(c), x) && Joins([c] + x, t)
    ensures [c] + Substitute(r, IsWordChar(c), x + t) == ([c] + x) + Substitute(r, false, t)
  {
    var pw := IsWordChar(([c] + x)[|x|]);
    TailPass(r, c, x, t);
    ConsLast(c, x, Substitute(r, pw, t));
    if pw {
      PrevWordIrrelevant(r, t);
    }
  }

  /** A substitution passes over a head where it does not match and works on the rest as if on its own. */
  lemma ApplyKeepsHead(r: Rule, x: String, t: String)
    requires WellFormed(r) && x != [] && Guarded(IsWordChar(x[0]), x[1..]) && !MatchHere(r, false, x + t) && Joins(x, t)
    ensures Apply(r, x + t) == x + Apply(r, t)
  {
    HeadStep(r, x, t);
    assert x == [x[0]] + x[1..];
    TailKept(r, x[0], x[1..], t);
  }

  /** A substitution keeps the condition under which the scan after a head starts afresh. */
  lemma JoinsKept(r: Rule, pw: bool, x: String, t: String)
    requires WellFormed(r) && x != [] && Joins(x, t)
    ensures Joins(x, Substitute(r, pw, t))
  {
    if t != [] && !KwStart(t[0]) {
      FirstCharKept(r, pw, t);
    }
  }

  /** The loop body passes over a head where neither of its substitutions matches. */
  lemma QualifyEntryKeepsHead(x: String, t: String, e: Entry)
    requires e in AliasToTable && Inert(x, [FromRule(e), JoinRule(e)]) && Joins(x, t)
    ensures QualifyEntry(x + t, e) == x + QualifyEntry(t, e) && Joins(x, QualifyEntry(t, e))
  {
    EntriesWellFormed();
    var f, j := FromRule(e), JoinRule(e);
    var t1 := Apply(f, t);
    assert !MatchHere(f, false, x + t) && !MatchHere(j, false, x + t1) by {
      assert f in [f, j] && j in [f, j];
    }
    HeadPass(f, x, t);
    HeadPass(j, x, t1);
  }

  lemma HeadPass(r: Rule, x: String, t: String)
    requires WellFormed(r) && x != [] && Guarded(IsWordChar(x[0]), x[1..]) && !MatchHere(r, false, x + t) && Joins(x, t)
    ensures Apply(r, x + t) == x + Apply(r, t) && Joins(x, Apply(r, t))
  {
    ApplyKeepsHead(r, x, t);
    JoinsKept(r, false, x, t);
  }

  /** The loop passes over a head inert for all its substitutions. */
  lemma {:induction false} QualifyWithKeepsHead(x: String, t: String, es: seq<Entry>)
    requires (forall e :: e in es ==> e in AliasToTable) && Inert(x, RulesOf(es)) && Joins(x, t)
    ensures QualifyWith(x + t, es) == x + QualifyWith(t, es) && Joins(x, QualifyWith(t, es))
    decreases |es|
  {
    if es != [] {
      var rs := RulesOf(es);
      var f, j := FromRule(es[0]), JoinRule(es[0]);
      assert rs == [f, j] + RulesOf(es[1..]);
      forall r, u | r in [f, j] ensures !MatchHere(r, false, x + u) {
        assert r in rs;
      }
      forall r, u | r in RulesOf(es[1..]) ensures !MatchHere(r, false, x + u) {
        assert r in rs;
      }
      QualifyEntryKeepsHead(x, t, es[0]);
      QualifyWithKeepsHead(x, QualifyEntry(t, es[0]), es[1..]);
    }
  }

  /* ---------- What the loop does to one reference ---------- */

  /** Running the loop over `a + b` is running it over `a`, then over `b`. */
  lemma {:induction false} QualifyWithSplit(s: String, a: seq<Entry>, b: seq<Entry>)
    ensures QualifyWith(s, a + b) == QualifyWith(QualifyWith(s, a), b)
    decreases |a|
  {
    if a != [] {
      assert (a + b)[0] == a[0] && (a + b)[1..] == a[1..] + b;
      assert QualifyWith(s, a + b) == QualifyWith(QualifyEntry(s, a[0]), a[1..] + b);
      QualifyWithSplit(QualifyEntry(s, a[0]), a[1..], b);
    } else {
      assert a + b == b;
    }
  }

  /** The loop keeps a first character that is neither F nor J. */
  lemma {:induction false} QualifyWithFirstChar(t: String, es: seq<Entry>)
    requires (forall e :: e in es ==> e in AliasToTable) && t != [] && !KwStart(t[0])
    ensures QualifyWith(t, es) != [] && QualifyWith(t, es)[0] == t[0]
    decreases |es|
  {
    if es != [] {
      EntriesWellFormed();
      var t1 := Apply(FromRule(es[0]), t);
      FirstCharKept(FromRule(es[0]), false, t);
      FirstCharKept(JoinRule(es[0]), false, t1);
      QualifyWithFirstChar(QualifyEntry(t, es[0]), es[1..]);
    }
  }

  /** No entry of the map shares its alias with another. */
  lemma AliasesDistinct(i: nat, k: nat)
    requires i < |AliasToTable| && k < |AliasToTable| && i != k
    ensures AliasToTable[i].alias != AliasToTable[k].alias
  {
    assert AliasToTable[i].alias[5] != AliasToTable[k].alias[5];
  }

  lemma PairCompatible(r: Rule, r': Rule)
    requires r in Rules() && r' in Rules()
    ensures Compatible(r, r')
  {
    RulesCompatible();
  }

  /** A reference is inert for every substitution except its own. */
  lemma RefInert(x: String, r: Rule, rs: seq<Rule>)
    requires WellFormed(r) && RefOf(x, r)
    requires forall r' :: r' in rs ==> Compatible(r, r') && r'.alias != r.alias
    ensures Inert(x, rs)
  {
    RefTail(r, x);
    forall r', u | r' in rs ensures !MatchHere(r', false, x + u) {
      RefOtherNoMatch(r, r', x, u);
    }
  }

  /** A replacement is inert for every substitution it can be reasoned about with. */
  lemma ReplacementInert(r: Rule, rs: seq<Rule>)
    requires WellFormed(r) && forall r' :: r' in rs ==> Compatible(r, r')
    ensures Inert(Replacement(r), rs)
  {
    ReplacementTail(r);
    forall r', u | r' in rs ensures !MatchHere(r', false, Replacement(r) + u) {
      ReplacementNoMatch(r, r', false, u);
    }
  }

  /** The text after a reference that the pattern requires: nothing, or neither a word character nor a `.`. */
  predicate Ends(t: String) {
    t == [] || (!IsWordChar(t[0]) && t[0] != '.')
  }

  /** A substitution replaces the reference it is written for, and scans the rest on its own. */
  lemma ApplyAtRef(r: Rule, x: String, t: String)
    requires WellFormed(r) && RefOf(x, r) && Ends(t)
    ensures Apply(r, x + t) == Replacement(r) + Apply(r, t)
  {
    var y := x + t;
    RefMatches(r, x, t);
    assert y[|x|..] == t;
    MatchEndsInWord(r, y);
    PrevWordIrrelevant(r, t);
  }

  /** The loop body replaces a reference to its own alias, whichever keyword it has. */
  lemma QualifyEntryAtRef(x: String, t: String, e: Entry, r: Rule)
    requires e in AliasToTable && (r == FromRule(e) || r == JoinRule(e)) && RefOf(x, r) && Ends(t)
    ensures QualifyEntry(x + t, e) == Replacement(r) + QualifyEntry(t, e)
  {
    var f, j := FromRule(e), JoinRule(e);
    EntriesWellFormed();
    if t != [] {
      FirstCharKept(f, false, t);
    }
    if r == f {
      EntryPairCompatible(e, e, f, j);
      FromAtRef(x, t, f, j);
    } else {
      EntryPairCompatible(e, e, j, f);
      JoinAtRef(x, t, f, j);
    }
  }

  /** The FROM substitution replaces a FROM reference, and the JOIN substitution then passes over the replacement. */
  lemma FromAtRef(x: String, t: String, f: Rule, j: Rule)
    requires Compatible(f, j) && RefOf(x, f) && Ends(t) && Ends(Apply(f, t))
    ensures Apply(j, Apply(f, x + t)) == Replacement(f) + Apply(j, Apply(f, t))
  {
    var t1 := Apply(f, t);
    ApplyAtRef(f, x, t);
    ReplacementNoMatch(f, j, false, t1);
    ReplacementTail(f);
    HeadPass(j, Replacement(f), t1);
  }

  /** The FROM substitution passes over a JOIN reference, and the JOIN substitution then replaces it. */
  lemma JoinAtRef(x: String, t: String, f: Rule, j: Rule)
    requires Compatible(j, f) && j.keyword != f.keyword && RefOf(x, j) && Ends(t) && Ends(Apply(f, t))
    ensures Apply(j, Apply(f, x + t)) == Replacement(j) + Apply(j, Apply(f, t))
  {
    RefOtherNoMatch(j, f, x, t);
    RefTail(j, x);
    HeadPass(f, x, t);
    ApplyAtRef(j, x, Apply(f, t));
  }

  /** An F or a J is a word character, so text that may follow a reference does not start with one. */
  lemma EndsNoKw(t: String)
    requires Ends(t) && t != []
    ensures !KwStart(t[0])
  {
  }

  /** The loop keeps the text after a reference as the pattern requires it. */
  lemma EndsKept(t: String, es: seq<Entry>)
    requires (forall e :: e in es ==> e in AliasToTable) && Ends(t)
    ensures Ends(QualifyWith(t, es))
  {
    if t != [] {
      EndsNoKw(t);
      QualifyWithFirstChar(t, es);
    }
  }

  /** The loop over the map, cut at the entry with index `k`. */
  lemma {:induction false} QualifyAround(s: String, k: nat)
    requires k < |AliasToTable|
    ensures Qualify(s) == QualifyWith(QualifyEntry(QualifyWith(s, AliasToTable[..k]), AliasToTable[k]), AliasToTable[k + 1..])
  {
    var pre, e, post := AliasToTable[..k], AliasToTable[k], AliasToTable[k + 1..];
    assert AliasToTable == (pre + [e]) + post;
    QualifyWithSplit(s, pre + [e], post);
    QualifyWithSplit(s, pre, [e]);
    assert QualifyWith(QualifyWith(s, pre), [e]) == QualifyEntry(QualifyWith(s, pre), e);
  }

  /** Substitutions of two entries of the map can be reasoned about together. */
  lemma EntryPairCompatible(e: Entry, e': Entry, r: Rule, r': Rule)
    requires e in AliasToTable && (r == FromRule(e) || r == JoinRule(e))
    requires e' in AliasToTable && (r' == FromRule(e') || r' == JoinRule(e'))
    ensures Compatible(r, r')
  {
    EntriesWellFormed();
    EntriesDistinct();
  }

  /** The substitutions of the entries before index `k` go with `r` of entry `k`, and none has its alias. */
  lemma RulesBefore(k: nat, r: Rule)
    requires k < |AliasToTable| && (r == FromRule(AliasToTable[k]) || r == JoinRule(AliasToTable[k]))
    ensures forall r' :: r' in RulesOf(AliasToTable[..k]) ==> Compatible(r, r') && r'.alias != r.alias
  {
    var pre := AliasToTable[..k];
    var rs := RulesOf(pre);
    forall r' | r' in rs ensures Compatible(r, r') && r'.alias != r.alias {
      var m :| 0 <= m < |rs| && rs[m] == r';
      var i := m / 2;
      assert r' == FromRule(pre[i]) || r' == JoinRule(pre[i]);
      assert pre[i] == AliasToTable[i];
      AliasesDistinct(i, k);
      EntryPairCompatible(AliasToTable[k], AliasToTable[i], r, r');
    }
  }

  /** The substitutions of the entries after index `k` go with `r` of entry `k`. */
  lemma RulesAfter(k: nat, r: Rule)
    requires k < |AliasToTable| && (r == FromRule(AliasToTable[k]) || r == JoinRule(AliasToTable[k]))
    ensures forall r' :: r' in RulesOf(AliasToTable[k + 1..]) ==> Compatible(r, r')
  {
    var post := AliasToTable[k + 1..];
    RulesOfEntries(post);
    forall r' | r' in RulesOf(post) ensures Compatible(r, r') {
      var e' :| e' in post && (r' == FromRule(e') || r' == JoinRule(e'));
      EntryPairCompatible(AliasToTable[k], e', r, r');
    }
  }

  /**
   * The step rewrites `FROM alias` and `JOIN alias`, in any case and with any
   * whitespace between, to the qualified reference `FROM alias.TABLE` when the
   * alias is followed by nothing or by a character that is neither a word
   * character nor a `.`, and handles the rest of the statement on its own.
   */
  lemma QualifyRewrites(x: String, t: String, e: Entry, r: Rule)
    requires e in AliasToTable && (r == FromRule(e) || r == JoinRule(e)) && RefOf(x, r) && Ends(t)
    ensures Qualify(x + t) == Replacement(r) + Qualify(t)
  {
    var k :| 0 <= k < |AliasToTable| && AliasToTable[k] == e;
    var pre, post := AliasToTable[..k], AliasToTable[k + 1..];
    QualifyAround(x + t, k);
    QualifyAround(t, k);
    RewriteBefore(x, t, k, r);
    var t1 := QualifyWith(t, pre);
    QualifyEntryAtRef(x, t1, e, r);
    var t2 := QualifyEntry(t1, e);
    EndsKept(t1, [e]);
    assert QualifyWith(t1, [e]) == t2;
    RewriteAfter(r, t2, k);
  }

  /** The entries before the one of `r` pass over its reference. */
  lemma RewriteBefore(x: String, t: String, k: nat, r: Rule)
    requires k < |AliasToTable| && (r == FromRule(AliasToTable[k]) || r == JoinRule(AliasToTable[k]))
    requires RefOf(x, r) && Ends(t)
    ensures QualifyWith(x + t, AliasToTable[..k]) == x + QualifyWith(t, AliasToTable[..k])
    ensures Ends(QualifyWith(t, AliasToTable[..k]))
  {
    var pre := AliasToTable[..k];
    EntriesWellFormed();
    RulesBefore(k, r);
    RefInert(x, r, RulesOf(pre));
    if t != [] {
      EndsNoKw(t);
    }
    QualifyWithKeepsHead(x, t, pre);
    EndsKept(t, pre);
  }

  /** The entries after the one of `r` pass over its replacement. */
  lemma RewriteAfter(r: Rule, t: String, k: nat)
    requires k < |AliasToTable| && (r == FromRule(AliasToTable[k]) || r == JoinRule(AliasToTable[k]))
    requires Ends(t)
    ensures QualifyWith(Replacement(r) + t, AliasToTable[k + 1..]) == Replacement(r) + QualifyWith(t, AliasToTable[k + 1..])
  {
    var post := AliasToTable[k + 1..];
    EntriesWellFormed();
    RulesAfter(k, r);
    ReplacementInert(r, RulesOf(post));
    if t != [] {
      EndsNoKw(t);
    }
    QualifyWithKeepsHead(Replacement(r), t, post);
  }

  /** A substitution of an entry of the map goes with each of the eight. */
  lemma CompatibleWithAll(e: Entry, r: Rule)
    requires e in AliasToTable && (r == FromRule(e) || r == JoinRule(e))
    ensures forall r' :: r' in Rules() ==> Compatible(r, r')
  {
    RulesCompatible();
    EntryRulesIn(e);
  }

  /** What can follow a reference that the pattern leaves alone: a `.`, or more word characters, F and J among them. */
  predicate Continuation(w: String) {
    w == "." || (w != [] && forall i :: 0 <= i < |w| ==> IsWordChar(w[i]))
  }

  /** A reference and its continuation open no match of the substitutions `rs`. */
  lemma RefFollowedInert(x: String, w: String, r: Rule, rs: seq<Rule>)
    requires WellFormed(r) && RefOf(x, r) && Continuation(w)
    requires forall r' :: r' in rs ==> Compatible(r, r')
    ensures Inert(x + w, rs)
  {
    RefFollowedGuarded(x, w, r);
    forall r', u | r' in rs ensures !MatchHere(r', false, x + w + u) {
      RefFollowedNoMatch(x, w, r, r', u);
    }
  }

  /** In a reference and its continuation, every F or J past the first letter comes after a word character. */
  lemma RefFollowedGuarded(x: String, w: String, r: Rule)
    requires WellFormed(r) && RefOf(x, r) && Continuation(w)
    ensures Guarded(IsWordChar((x + w)[0]), (x + w)[1..])
  {
    RefTail(r, x);
    var n := |x| - |r.alias|;
    assert LowerChar(x[n..][|r.alias| - 1]) == LowerChar(r.alias[|r.alias| - 1]);
    CiWordChar(x[|x| - 1], r.alias[|r.alias| - 1]);
    var h := (x + w)[1..];
    forall i | 1 <= i < |x| - 1 ensures !KwStart(h[i]) {
      assert h[i] == x[1..][i];
    }
    forall i | |x| - 1 <= i < |h| && KwStart(h[i]) ensures IsWordChar(h[i - 1]) {
      assert h[i] == w[i + 1 - |x|] && h[i - 1] == (x + w)[i];
      if i + 1 > |x| {
        assert h[i - 1] == w[i - |x|];
      }
    }
  }

  lemma RefFollowedNoMatch(x: String, w: String, r: Rule, r': Rule, u: String)
    requires WellFormed(r) && RefOf(x, r) && Continuation(w)
    requires Compatible(r, r')
    ensures !MatchHere(r', false, x + w + u)
  {
    AppendAssoc(x, w, u);
    if r'.keyword == r.keyword && r'.alias == r.alias {
      RefMatches(r', x, w + u);
      assert (w + u)[0] == w[0];
    } else {
      RefOtherNoMatch(r, r', x, w + u);
    }
  }

  /**
   * A reference continued by more word characters (a longer name such as
   * `coin_bitcoin2` or `coin_bitcoinfoo`) or followed by a `.` (a reference
   * that is already qualified) is left as it is, and so is its continuation.
   */
  lemma QualifyKeepsRef(x: String, w: String, t: String, e: Entry, r: Rule)
    requires e in AliasToTable && (r == FromRule(e) || r == JoinRule(e)) && RefOf(x, r)
    requires Continuation(w) && Joins(w, t)
    ensures Qualify(x + w + t) == x + w + Qualify(t)
  {
    CompatibleWithAll(e, r);
    EntriesWellFormed();
    RefFollowedInert(x, w, r, Rules());
    assert (x + w)[|x + w| - 1] == w[|w| - 1];
    QualifyWithKeepsHead(x + w, t, AliasToTable);
  }

  /** Text without F or J opens no match of well-formed substitutions. */
  lemma PlainInert(x: String, rs: seq<Rule>)
    requires x != [] && NoKwStart(x) && forall r :: r in rs ==> WellFormed(r)
    ensures Inert(x, rs)
  {
    forall i | 0 <= i < |x| - 1 ensures !KwStart(x[1..][i]) {
      assert x[1..][i] == x[i + 1];
    }
    forall r, u | r in rs ensures !MatchHere(r, false, x + u) {
      MatchOpensWithKw(r, false, x + u);
    }
  }

  /** Text without F or J in front of the rest of a statement is copied, and the rest is rewritten on its own. */
  lemma PlainPrefix(x: String, t: String)
    requires x != [] && NoKwStart(x) && Joins(x, t)
    ensures Qualify(x + t) == x + Qualify(t)
  {
    RulesWellFormed();
    PlainInert(x, Rules());
    QualifyWithKeepsHead(x, t, AliasToTable);
  }
}
