/**
 * Step 2 of the normaliser: removing a Markdown code fence that the text
 * generator may wrap around the statement (app.py:52-53, repeated in
 * app_movie.py:126-127 and stream.py:60-61).
 */
module Fences {
  import opened Text

  /** The opening marker the first regex anchors on. */
  const Fence: String := "```"

  /** The text the second regex removes. */
  const ClosingFence: String := "\n```"

  function FirstNewline(s: String): (i: nat)
    requires '\n' in s
    ensures i < |s| && s[i] == '\n' && '\n' !in s[..i]
  {
    if s[0] == '\n' then 0 else 1 + FirstNewline(s[1..])
  }

  /**
   * `re.sub(r"^```.*\n", "", sql)`. Without the MULTILINE flag `^` anchors at
   * the start of the text only, and `.` does not cross a newline, so at most
   * the first line goes, and only when the text opens with three backticks.
   */
  function StripOpeningFence(s: String): (r: String)
    ensures |r| <= |s| && r == s[|s| - |r|..]
    ensures r != s <==> StartsWith(s, Fence) && '\n' in s
    ensures r != s ==> var cut := |s| - |r|;
                       s[cut - 1] == '\n' && '\n' !in s[..cut - 1]
  {
    if StartsWith(s, Fence) && '\n' in s then s[FirstNewline(s) + 1..] else s
  }

  /**
   * `re.sub(r"\n```$", "", sql)`. Without MULTILINE, `$` matches at the end
   * of the text and also just before a newline that ends it, so the marker
   * is removed in either position, and only once.
   */
  function StripClosingFence(s: String): (r: String)
    ensures r == s <==> !EndsWith(s, ClosingFence) && !EndsWith(s, ClosingFence + "\n")
    ensures r != s ==> |r| + |ClosingFence| == |s|
                       && (s == r + ClosingFence
                           || (r != [] && r[|r| - 1] == '\n' && s == r[..|r| - 1] + ClosingFence + "\n"))
  {
    if EndsWith(s, ClosingFence) then s[..|s| - 4]
    else if EndsWith(s, ClosingFence + "\n") then s[..|s| - 5] + "\n"
    else s
  }

  /**
   * Both substitutions, in the order the code applies them. The text never
   * grows, and it changes exactly when it opens with a fence line or ends
   * with a closing marker.
   */
  function StripFences(s: String): (r: String)
    ensures |r| <= |s|
    ensures r == s <==> !(StartsWith(s, Fence) && '\n' in s)
                        && !EndsWith(s, ClosingFence) && !EndsWith(s, ClosingFence + "\n")
  {
    StripClosingFence(StripOpeningFence(s))
  }

  /** Text that neither opens with a fence nor ends with one passes through unchanged. */
  lemma UnfencedUnchanged(s: String)
    requires !StartsWith(s, Fence)
    requires !EndsWith(s, ClosingFence) && !EndsWith(s, ClosingFence + "\n")
    ensures StripFences(s) == s
  {
  }

  /**
   * The fence step removes at most one leading line, which starts with the
   * fence, and at most one closing marker: the input is `head + out + tail`
   * or, when the marker stood before a final newline, `head + out` with the
   * marker inserted before that newline.
   */
  lemma {:induction false} AtMostOneFenceEachEnd(s: String)
    ensures var mid := StripOpeningFence(s);
            var out := StripFences(s);
            var head := s[..|s| - |mid|];
            s == head + mid
            && (head == [] || (StartsWith(head, Fence) && head[|head| - 1] == '\n' && '\n' !in head[..|head| - 1]))
            && (out == mid || mid == out + ClosingFence || (out != [] && mid == out[..|out| - 1] + ClosingFence + "\n"))
  {
    var mid := StripOpeningFence(s);
    var head := s[..|s| - |mid|];
    assert s == head + mid;
    if mid != s {
      assert StartsWith(s, Fence);
      assert |head| >= |Fence| by {
        var cut := |s| - |mid|;
        assert '\n' !in s[..cut - 1];
        if cut - 1 < |Fence| {
          assert s[cut - 1] == Fence[cut - 1];
        }
      }
      assert head[..|Fence|] == s[..|Fence|];
    }
  }

  /**
   * Unlike what an idempotent clean-up would do, a second pass can remove a
   * further line: a doubled opening fence loses one line per pass.
   */
  lemma SecondPassCanStripAgain()
    ensures var t := Fence + "\nx";
            StripFences(Fence + "\n" + t) == t && StripFences(t) == "x"
  {
    var t := Fence + "\nx";
    FirstPassDropsOneLine(Fence + "\n" + t, t);
    SecondPassDropsAnother(t);
  }

  lemma FirstPassDropsOneLine(s: String, t: String)
    requires s == Fence + "\n" + t && t == Fence + "\nx"
    ensures StripFences(s) == t
  {
    assert s[3] == '\n' && s[..3] == Fence;
    assert FirstNewline(s) == 3;
    assert s[4..] == t;
    assert t[|t| - 1] == 'x';
    assert !EndsWith(t, ClosingFence) by {
      if |ClosingFence| <= |t| {
        assert t[|t| - |ClosingFence|..][|ClosingFence| - 1] == t[|t| - 1];
      }
    }
    assert !EndsWith(t, ClosingFence + "\n") by {
      if |ClosingFence + "\n"| <= |t| {
        assert t[|t| - |ClosingFence + "\n"|..][|ClosingFence|] == t[|t| - 1];
      }
    }
  }

  lemma SecondPassDropsAnother(t: String)
    requires t == Fence + "\nx"
    ensures StripFences(t) == "x"
  {
    assert t[3] == '\n' && t[..3] == Fence;
    assert FirstNewline(t) == 3;
    assert t[4..] == "x";
  }
}
