/** Character classification of whole strings: each classifier holds when
    the string is non-empty and every character is in the class. The
    Unicode classes (alphabetic, numeric, upper and lower case) come from
    tables the model does not contain; they are a parameter. */
module Chars {

  /** The Unicode property tables `char` consults. */
  datatype Tables = Tables(
    alphabetic: char -> bool,
    numeric: char -> bool,
    uppercase: char -> bool,
    lowercase: char -> bool)

  /** `char::is_alphanumeric`: alphabetic or numeric. */
  predicate Alphanumeric(t: Tables, c: char)
  {
    t.alphabetic(c) || t.numeric(c)
  }

  /** `char::is_ascii_digit`. */
  predicate AsciiDigit(c: char)
  {
    '0' <= c <= '9'
  }

  /** `char::is_ascii_whitespace`: space, tab, line feed, form feed and
      carriage return (not the vertical tab). */
  predicate AsciiWhitespace(c: char)
  {
    c == ' ' || c == '\t' || c == '\n' || c == 12 as char || c == '\r'
  }

  /** `s.chars().all(p)`: walks the string front to back. */
  function All(s: string, p: char -> bool): (b: bool)
    ensures b <==> forall i :: 0 <= i < |s| ==> p(s[i])
  {
    if s == [] then true else p(s[0]) && All(s[1..], p)
  }

  /** `!s.is_empty() && s.chars().all(p)`, the shape of all four. */
  function NonEmptyAll(s: string, p: char -> bool): (b: bool)
    ensures b <==> |s| > 0 && forall i :: 0 <= i < |s| ==> p(s[i])
  {
    s != [] && All(s, p)
  }

  /** `is_alpha`. */
  function IsAlpha(t: Tables, s: string): (b: bool)
    ensures b <==> |s| > 0 && forall i :: 0 <= i < |s| ==> t.alphabetic(s[i])
  {
    NonEmptyAll(s, t.alphabetic)
  }

  /** `is_alnum`. */
  function IsAlnum(t: Tables, s: string): (b: bool)
    ensures b <==> |s| > 0 && forall i :: 0 <= i < |s| ==> Alphanumeric(t, s[i])
  {
    NonEmptyAll(s, c => Alphanumeric(t, c))
  }

  /** `is_digit`: only `'0'` to `'9'`, no other Unicode digits. */
  function IsDigit(s: string): (b: bool)
    ensures b <==> |s| > 0 && forall i :: 0 <= i < |s| ==> '0' <= s[i] <= '9'
  {
    NonEmptyAll(s, AsciiDigit)
  }

  /** `is_ws`. */
  function IsWs(s: string): (b: bool)
    ensures b <==> |s| > 0 && forall i :: 0 <= i < |s| ==> AsciiWhitespace(s[i])
  {
    NonEmptyAll(s, AsciiWhitespace)
  }

  /** No classifier accepts the empty string. */
  lemma EmptyIsNothing(t: Tables)
    ensures !IsAlpha(t, "") && !IsAlnum(t, "") && !IsDigit("") && !IsWs("")
  {
  }

  /** The classifiers are closed under concatenation. */
  lemma {:induction false} NonEmptyAllConcat(a: string, b: string, p: char -> bool)
    requires NonEmptyAll(a, p) && NonEmptyAll(b, p)
    ensures NonEmptyAll(a + b, p)
  {
    forall i | 0 <= i < |a + b|
      ensures p((a + b)[i])
    {
      if i < |a| {
        assert (a + b)[i] == a[i];
      } else {
        assert (a + b)[i] == b[i - |a|];
      }
    }
  }

  lemma ClassifiersConcat(t: Tables, a: string, b: string)
    ensures IsAlpha(t, a) && IsAlpha(t, b) ==> IsAlpha(t, a + b)
    ensures IsAlnum(t, a) && IsAlnum(t, b) ==> IsAlnum(t, a + b)
    ensures IsDigit(a) && IsDigit(b) ==> IsDigit(a + b)
    ensures IsWs(a) && IsWs(b) ==> IsWs(a + b)
  {
    if IsAlpha(t, a) && IsAlpha(t, b) {
      NonEmptyAllConcat(a, b, t.alphabetic);
    }
    if IsAlnum(t, a) && IsAlnum(t, b) {
      NonEmptyAllConcat(a, b, c => Alphanumeric(t, c));
    }
    if IsDigit(a) && IsDigit(b) {
      NonEmptyAllConcat(a, b, AsciiDigit);
    }
    if IsWs(a) && IsWs(b) {
      NonEmptyAllConcat(a, b, AsciiWhitespace);
    }
  }

  /** Whitespace and digits are disjoint classes. */
  lemma WsIsNotDigit(s: string)
    ensures IsWs(s) ==> !IsDigit(s)
  {
    if IsWs(s) {
      assert AsciiWhitespace(s[0]);
    }
  }

  /** The strings the whitespace tests use: `"\r\n"` and form feed are
      whitespace, `" a"` and `"1"` are not. */
  lemma WsExamples()
    ensures IsWs("\r\n") && IsWs([12 as char]) && IsWs("   ")
    ensures !IsWs(" a") && !IsWs("1")
  {
    assert !AsciiWhitespace(" a"[1]);
    assert !AsciiWhitespace("1"[0]);
  }
}
