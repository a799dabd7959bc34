/** String extras: repetition with a signed count, and centring in a field
    of spaces. Widths count characters. */
module StrExt {
  import opened RustLib

  /** `str_repeat`: a count of zero or less gives the empty string. */
  function StrRepeat(s: string, n: int): (r: string)
    ensures n <= 0 ==> r == ""
    ensures n > 0 ==> r == Repeat(s, n) && |r| == n * |s|
  {
    if n <= 0 then "" else Repeat(s, n)
  }

  /** Repeating once is the identity, and counts add up. */
  lemma StrRepeatOnce(s: string)
    ensures StrRepeat(s, 1) == s
  {
    RepeatAdd(s, 0, 0);
  }

  lemma StrRepeatAdd(s: string, m: int, n: int)
    requires m >= 0 && n >= 0
    ensures StrRepeat(s, m + n) == StrRepeat(s, m) + StrRepeat(s, n)
  {
    RepeatAdd(s, m, n);
  }

  /** A run of `n` spaces. */
  function Spaces(n: nat): (r: string)
    ensures |r| == n && forall i :: 0 <= i < n ==> r[i] == ' '
  {
    RepeatSingle(' ', n);
    Repeat(" ", n)
  }

  /** `str_pad_center`: a width of zero or less, or one the string already
      fills, leaves the string alone; otherwise half the padding (rounded
      down) goes on the left and the rest on the right. */
  function StrPadCenter(s: string, width: int): (r: string)
    ensures width <= |s| ==> r == s
    ensures width > |s| ==>
      var left := (width - |s|) / 2;
      && |r| == width
      && r[left..left + |s|] == s
      && (forall i :: 0 <= i < left ==> r[i] == ' ')
      && (forall i :: left + |s| <= i < |r| ==> r[i] == ' ')
      && (|r| - left - |s| == left || |r| - left - |s| == left + 1)
  {
    var w := if width <= 0 then 0 else width;
    if |s| >= w then s
    else
      var total := w - |s|;
      var left := total / 2;
      var right := total - left;
      var r := Spaces(left) + s + Spaces(right);
      assert r[left..left + |s|] == s;
      r
  }

  /** The cases the centring tests check. */
  lemma PadCenterExamples()
    ensures StrPadCenter("hi", 6) == "  hi  "
    ensures StrPadCenter("hi", 7) == "  hi   "
    ensures StrPadCenter("toolong", 4) == "toolong"
    ensures StrPadCenter("a", 0) == "a"
    ensures StrPadCenter("", 4) == "    "
  {
    assert Spaces(2) == "  ";
    assert Spaces(3) == "   ";
    assert Spaces(4) == "    ";
    assert Spaces(0) == "";
  }

  lemma RepeatExamples()
    ensures StrRepeat("ab", 3) == "ababab"
    ensures StrRepeat("abc", -1) == ""
    ensures StrRepeat("", 10) == ""
  {
    assert Repeat("ab", 1) == "ab" by { RepeatAdd("ab", 0, 0); }
    assert Repeat("ab", 2) == "abab";
  }
}
