/** The string library of the standard prelude. Offsets are byte offsets in
    the source; the model assumes ASCII text, so a byte offset is a
    character index. */
module StdStr {
  import opened Prelude
  import opened RustLib
  import Builtin
  import Chars

  // ── Prefixes, suffixes and search ───────────────────────────

  /** `starts_with`: `s` agrees with `prefix` on its first `|prefix|`
      characters. */
  predicate StartsWith(s: string, prefix: string)
    ensures StartsWith(s, prefix) <==>
      |prefix| <= |s| && forall i :: 0 <= i < |prefix| ==> s[i] == prefix[i]
  {
    |prefix| <= |s| && s[..|prefix|] == prefix
  }

  /** `ends_with`: `s` agrees with `suffix` on its last `|suffix|`
      characters. */
  predicate EndsWith(s: string, suffix: string)
    ensures EndsWith(s, suffix) <==>
      |suffix| <= |s| && forall i :: 0 <= i < |suffix| ==> s[|s| - |suffix| + i] == suffix[i]
  {
    |suffix| <= |s| && s[|s| - |suffix|..] == suffix
  }

  /** A text starts with `p` exactly when it is `p` followed by something. */
  lemma StartsWithIsPrefix(s: string, p: string)
    ensures StartsWith(s, p) <==> exists t :: s == p + t
  {
    if StartsWith(s, p) {
      assert s == p + s[|p|..];
    }
    if exists t :: s == p + t {
      var t :| s == p + t;
      assert s[..|p|] == p;
    }
  }

  /** A text ends with `p` exactly when it is something followed by `p`. */
  lemma EndsWithIsSuffix(s: string, p: string)
    ensures EndsWith(s, p) <==> exists t :: s == t + p
  {
    if EndsWith(s, p) {
      assert s == s[..|s| - |p|] + p;
    }
    if exists t :: s == t + p {
      var t :| s == t + p;
      assert s[|t|..] == p;
    }
  }

  /** `strip_prefix`: the text after the prefix, or `s` itself when it does
      not start with `prefix`. */
  function StripPrefix(s: string, prefix: string): (r: string)
    ensures StartsWith(s, prefix) ==> prefix + r == s
    ensures !StartsWith(s, prefix) ==> r == s
  {
    if StartsWith(s, prefix) then
      assert s == s[..|prefix|] + s[|prefix|..];
      s[|prefix|..]
    else s
  }

  /** `strip_suffix`: the text before the suffix, or `s` itself. */
  function StripSuffix(s: string, suffix: string): (r: string)
    ensures EndsWith(s, suffix) ==> r + suffix == s
    ensures !EndsWith(s, suffix) ==> r == s
  {
    if EndsWith(s, suffix) then
      assert s == s[..|s| - |suffix|] + s[|s| - |suffix|..];
      s[..|s| - |suffix|]
    else s
  }

  /** Stripping undoes prepending, and appending. */
  lemma StripInverse(p: string, t: string)
    ensures StripPrefix(p + t, p) == t
    ensures StripSuffix(t + p, p) == t
  {
    assert (p + t)[..|p|] == p;
    assert (t + p)[|t|..] == p;
  }

  /** `find`: the smallest offset at which `sub` occurs, or -1. The empty
      string occurs at offset 0. */
  function Find(s: string, sub: string): (r: int)
    ensures -1 <= r
    ensures r >= 0 ==> Builtin.OccursAt(s, sub, r)
    ensures forall j :: 0 <= j && (r == -1 || j < r) ==> !Builtin.OccursAt(s, sub, j)
    decreases |s|
  {
    if |sub| > |s| then -1
    else if s[..|sub|] == sub then 0
    else
      var k := Find(s[1..], sub);
      assert !Builtin.OccursAt(s, sub, 0);
      forall j | 1 <= j
        ensures Builtin.OccursAt(s, sub, j) <==> Builtin.OccursAt(s[1..], sub, j - 1)
      {
        Builtin.OccursShift(s, sub, j);
      }
      if k < 0 then -1 else k + 1
  }

  /** `contains`: the same scan as `homun_contains` on strings. */
  predicate Contains(s: string, sub: string)
    ensures Contains(s, sub) <==> exists i :: Builtin.OccursAt(s, sub, i)
  {
    Builtin.ContainsStrCorrect(s, sub);
    Builtin.ContainsStr(s, sub)
  }

  /** `find` answers -1 exactly when `contains` is false. */
  lemma FindAgreesWithContains(s: string, sub: string)
    ensures Find(s, sub) == -1 <==> !Contains(s, sub)
  {
    Builtin.ContainsStrCorrect(s, sub);
    if Find(s, sub) >= 0 {
      assert Builtin.OccursAt(s, sub, Find(s, sub));
    }
  }

  // ── Repetition and padding ──────────────────────────────────

  /** `repeat`: `n as usize` turns a negative count into a huge one, which
      only the empty string survives, so a negative count needs an empty
      `s`. */
  function StdRepeat(s: string, n: int): (r: string)
    requires n >= 0 || s == []
    ensures n >= 0 ==> r == Repeat(s, n)
    ensures |r| == if n >= 0 then n * |s| else 0
  {
    if n < 0 then "" else Repeat(s, n)
  }

  /** Enough copies of the fill: `n / d + 1` copies cover `n` characters. */
  lemma CopiesCover(n: nat, d: nat)
    requires d > 0
    ensures n <= (n / d + 1) * d
  {
    var q := n / d;
    assert n == q * d + n % d;
    assert (q + 1) * d == q * d + d;
  }

  /** `pad_left`: a width the string already fills leaves it alone;
      otherwise the first `width - |s|` characters of the fill, repeated
      endlessly, go in front. A negative width, or an empty fill when
      padding is needed, panics in the source. */
  function PadLeft(s: string, width: int, fill: string): (r: string)
    requires width >= 0
    requires |s| < width ==> fill != []
    ensures |s| >= width ==> r == s
    ensures |s| < width ==>
      && |r| == width
      && r[width - |s|..] == s
      && r[..width - |s|] == Cycle(fill, width - |s|)
  {
    if |s| >= width then s
    else
      var n := width - |s|;
      var pad := Pad(n, fill);
      pad + s
  }

  /** `pad_right`: the same fill, after the string. */
  function PadRight(s: string, width: int, fill: string): (r: string)
    requires width >= 0
    requires |s| < width ==> fill != []
    ensures |s| >= width ==> r == s
    ensures |s| < width ==>
      && |r| == width
      && r[..|s|] == s
      && r[|s|..] == Cycle(fill, width - |s|)
  {
    if |s| >= width then s
    else
      var n := width - |s|;
      var pad := Pad(n, fill);
      s + pad
  }

  /** `&fill.repeat(n / |fill| + 1)[..n]`, shared by both paddings. */
  function Pad(n: nat, fill: string): (pad: string)
    requires fill != []
    ensures pad == Cycle(fill, n)
  {
    var k := n / |fill| + 1;
    CopiesCover(n, |fill|);
    RepeatPrefix(fill, k, n);
    Repeat(fill, k)[..n]
  }

  /** Padding with a one-character fill gives a run of that character. */
  lemma {:induction false} CycleSingle(c: char, n: nat)
    ensures forall i :: 0 <= i < n ==> Cycle([c], n)[i] == c
    decreases n
  {
    if n > 1 {
      CycleSingle(c, n - 1);
    }
  }

  lemma PadLeftExample()
    ensures PadLeft("7", 3, "0") == "007"
    ensures PadRight("ab", 5, "xy") == "abxyx"
    ensures PadLeft("hello", 3, "") == "hello"
  {
    assert Cycle("0", 2) == "00";
    assert Cycle("xy", 3) == "xy" + Cycle("xy", 1);
  }

  // ── Offsets ─────────────────────────────────────────────────

  /** `substr`: both offsets are normalised as `homun_slice` does it (a
      negative offset counts from the end and is floored at 0, any offset
      is capped at the length); crossed offsets give the empty string. */
  function Substr(s: string, start: int, end: int): (r: string)
    ensures var lo, hi := Builtin.Norm(|s|, start), Builtin.Norm(|s|, end);
      && (lo <= hi ==> r == s[lo..hi])
      && (lo > hi ==> r == "")
  {
    var lo := Builtin.Norm(|s|, start);
    var hi := Builtin.Norm(|s|, end);
    if lo <= hi then s[lo..hi] else ""
  }

  /** The whole range is the whole string, and adjacent ranges join. */
  lemma SubstrWhole(s: string)
    ensures Substr(s, 0, |s|) == s
  {
  }

  lemma SubstrJoin(s: string, a: int, b: int, c: int)
    requires 0 <= a <= b <= c <= |s|
    ensures Substr(s, a, b) + Substr(s, b, c) == Substr(s, a, c)
  {
    assert s[a..b] + s[b..c] == s[a..c];
  }

  /** A negative start `-k` with an end of `|s|` gives the last `k`
      characters; anything past the front gives the whole string. */
  lemma SubstrSuffix(s: string, k: int)
    requires k > 0
    ensures k <= |s| ==> Substr(s, -k, |s|) == s[|s| - k..]
    ensures k > |s| ==> Substr(s, -k, |s|) == s
  {
  }

  /** `char_at`: a negative index counts from the end and is floored at 0;
      an index at or past the end gives the empty string. */
  function CharAt(s: string, i: int): (r: string)
    ensures |r| <= 1
    ensures 0 <= i < |s| ==> r == [s[i]]
    ensures -|s| <= i < 0 ==> r == [s[|s| + i]]
    ensures i < -|s| && s != [] ==> r == [s[0]]
    ensures (i >= |s| || s == []) ==> r == ""
  {
    var idx := if i < 0 then (if |s| + i < 0 then 0 else |s| + i) else i;
    if idx < |s| then [s[idx]] else ""
  }

  /** Inside `[-len, len)` `char_at` agrees with indexing. */
  lemma CharAtIsIndex(s: string, i: int)
    requires -|s| <= i < |s|
    ensures CharAt(s, i) == [Builtin.IndexVec(s, i)]
  {
  }

  // ── Classifiers ─────────────────────────────────────────────

  /** Unlike the `chars` versions these are `s.chars().all(..)` alone, so
      the empty string passes every one of them. */
  function IsDigit(s: string): (b: bool)
    ensures b <==> forall i :: 0 <= i < |s| ==> '0' <= s[i] <= '9'
  {
    Chars.All(s, Chars.AsciiDigit)
  }

  function IsAlpha(t: Chars.Tables, s: string): (b: bool)
    ensures b <==> forall i :: 0 <= i < |s| ==> t.alphabetic(s[i])
  {
    Chars.All(s, t.alphabetic)
  }

  function IsAlnum(t: Chars.Tables, s: string): (b: bool)
    ensures b <==> forall i :: 0 <= i < |s| ==> Chars.Alphanumeric(t, s[i])
  {
    Chars.All(s, c => Chars.Alphanumeric(t, c))
  }

  function IsUpper(t: Chars.Tables, s: string): (b: bool)
    ensures b <==> forall i :: 0 <= i < |s| ==> t.uppercase(s[i])
  {
    Chars.All(s, t.uppercase)
  }

  function IsLower(t: Chars.Tables, s: string): (b: bool)
    ensures b <==> forall i :: 0 <= i < |s| ==> t.lowercase(s[i])
  {
    Chars.All(s, t.lowercase)
  }

  /** The two families differ exactly on the empty string. */
  lemma ClassifiersVersusChars(t: Chars.Tables, s: string)
    ensures IsDigit(s) <==> s == [] || Chars.IsDigit(s)
    ensures IsAlpha(t, s) <==> s == [] || Chars.IsAlpha(t, s)
    ensures IsAlnum(t, s) <==> s == [] || Chars.IsAlnum(t, s)
    ensures IsDigit("") && IsAlpha(t, "") && IsUpper(t, "") && IsLower(t, "")
  {
  }

  // ── parse_int ───────────────────────────────────────────────

  /** `char::is_whitespace`: the Unicode White_Space property, a fixed list
      of code points. */
  predicate Whitespace(c: char)
  {
    || (9 as char <= c <= 13 as char) || c == ' '
    || c == 0x85 as char || c == 0xA0 as char || c == 0x1680 as char
    || (0x2000 as char <= c <= 0x200A as char)
    || c == 0x2028 as char || c == 0x2029 as char || c == 0x202F as char
    || c == 0x205F as char || c == 0x3000 as char
  }

  /** `trim_start`: drops the leading whitespace. */
  function TrimStart(s: string): (r: string)
    ensures |r| <= |s| && r == s[|s| - |r|..]
    ensures r != [] ==> !Whitespace(r[0])
    ensures forall i :: 0 <= i < |s| - |r| ==> Whitespace(s[i])
  {
    if s != [] && Whitespace(s[0]) then TrimStart(s[1..]) else s
  }

  /** `trim_end`: drops the trailing whitespace. */
  function TrimEnd(s: string): (r: string)
    ensures |r| <= |s| && r == s[..|r|]
    ensures r != [] ==> !Whitespace(r[|r| - 1])
    ensures forall i :: |r| <= i < |s| ==> Whitespace(s[i])
  {
    if s != [] && Whitespace(s[|s| - 1]) then TrimEnd(s[..|s| - 1]) else s
  }

  /** `trim`: both ends. The result is a run of `s` with no whitespace at
      either end, and everything cut away on either side is whitespace. */
  function Trim(s: string): (r: string)
    ensures r != [] ==> !Whitespace(r[0]) && !Whitespace(r[|r| - 1])
    ensures exists i :: CutFrom(s, r, i)
  {
    var t := TrimStart(s);
    var r := TrimEnd(t);
    TrimCuts(s, t, r);
    r
  }

  /** Cutting a whitespace run off the front of `s`, giving `t`, and then
      one off the back of `t`, giving `r`, cuts whitespace from both ends. */
  lemma TrimCuts(s: string, t: string, r: string)
    requires |t| <= |s| && t == s[|s| - |t|..] && (t != [] ==> !Whitespace(t[0]))
    requires forall j :: 0 <= j < |s| - |t| ==> Whitespace(s[j])
    requires |r| <= |t| && r == t[..|r|] && (r != [] ==> !Whitespace(r[|r| - 1]))
    requires forall j :: |r| <= j < |t| ==> Whitespace(t[j])
    ensures r != [] ==> !Whitespace(r[0]) && !Whitespace(r[|r| - 1])
    ensures CutFrom(s, r, |s| - |t|)
  {
    var i := |s| - |t|;
    if r != [] {
      assert r[0] == t[0];
    }
    TakeOfDrop(s, t, r, i);
    forall j | i + |r| <= j < |s|
      ensures Whitespace(s[j])
    {
      assert s[j] == t[j - i];
    }
  }

  /** A prefix of a suffix is a slice. */
  lemma TakeOfDrop(s: string, t: string, r: string, i: nat)
    requires i <= |s| && t == s[i..]
    requires |r| <= |t| && r == t[..|r|]
    ensures i + |r| <= |s| && r == s[i..i + |r|]
  {
  }

  /** `r` is `s[i..i + |r|]`, and everything around it is whitespace. */
  predicate CutFrom(s: string, r: string, i: int)
  {
    && 0 <= i && i + |r| <= |s| && r == s[i..i + |r|]
    && (forall j :: 0 <= j < i ==> Whitespace(s[j]))
    && (forall j :: i + |r| <= j < |s| ==> Whitespace(s[j]))
  }

  /** Text with no whitespace at either end is left alone. */
  lemma TrimNoOp(s: string)
    requires s != [] ==> !Whitespace(s[0]) && !Whitespace(s[|s| - 1])
    ensures Trim(s) == s
  {
  }

  /** Every character is an ASCII digit. */
  predicate AllDigits(ds: string)
  {
    forall i :: 0 <= i < |ds| ==> Chars.AsciiDigit(ds[i])
  }

  /** The value of a string of decimal digits, read left to right. */
  function DecimalValue(ds: string): (v: nat)
    requires AllDigits(ds)
  {
    if ds == [] then 0
    else
      var d := ds[|ds| - 1];
      assert Chars.AsciiDigit(d);
      DecimalValue(ds[..|ds| - 1]) * 10 + (d as int - '0' as int)
  }

  /** `str::parse::<i32>`: one optional sign, then at least one ASCII
      digit, and a value inside the `i32` range; anything else is an
      error. */
  function ParseI32(t: string): (r: Option<int>)
    ensures r.Some? ==> InI32(r.value)
    ensures r.Some? ==> t != [] && t[|t| - 1] in "0123456789"
  {
    if t == [] then None
    else
      var digits := if t[0] == '-' || t[0] == '+' then t[1..] else t;
      if digits == [] || !Chars.All(digits, Chars.AsciiDigit) then None
      else
        assert AllDigits(digits);
        var magnitude := DecimalValue(digits);
        var v := if t[0] == '-' then -(magnitude as int) else magnitude;
        if InI32(v) then Some(v) else None
  }

  /** The value `ParseI32` gives to a sign followed by digits. */
  function SignedValue(sign: string, ds: string): (v: int)
    requires AllDigits(ds)
    ensures sign == "-" ==> v <= 0
    ensures sign != "-" ==> v >= 0
  {
    if sign == "-" then -(DecimalValue(ds) as int) else DecimalValue(ds)
  }

  /** One optional sign and at least one digit parse to the signed value,
      when it is inside the `i32` range, and fail outside it. */
  lemma ParseSigned(sign: string, ds: string)
    requires sign == "" || sign == "+" || sign == "-"
    requires ds != [] && AllDigits(ds)
    ensures ParseI32(sign + ds) ==
      if InI32(SignedValue(sign, ds)) then Some(SignedValue(sign, ds)) else None
  {
    var t := sign + ds;
    if sign == "" {
      assert t == ds;
      assert Chars.AsciiDigit(ds[0]);
    } else {
      assert t[0] == sign[0] && t[1..] == ds;
    }
  }

  /** Conversely, every text that parses is one optional sign followed by
      at least one digit, and its value is the signed value. */
  lemma ParsedShape(t: string)
    requires ParseI32(t).Some?
    ensures exists sign, ds ::
      && (sign == "" || sign == "+" || sign == "-")
      && ds != [] && AllDigits(ds) && t == sign + ds
      && ParseI32(t).value == SignedValue(sign, ds)
  {
    if t[0] == '-' || t[0] == '+' {
      var sign, ds := t[..1], t[1..];
      assert t == sign + ds;
      assert AllDigits(ds);
      assert sign == "-" <==> t[0] == '-';
    } else {
      assert t == "" + t;
      assert AllDigits(t);
    }
  }

  /** `parse_int`: the trimmed text's value, or 0 when it does not parse. */
  function ParseInt(s: string): (r: int)
    ensures InI32(r)
    ensures ParseI32(Trim(s)).None? ==> r == 0
    ensures ParseI32(Trim(s)).Some? ==> r == ParseI32(Trim(s)).value
  {
    match ParseI32(Trim(s))
    case Some(v) => v
    case None => 0
  }

  // ── A decimal formatter to parse back ───────────────────────

  function DigitChar(d: nat): (c: char)
    requires d < 10
    ensures '0' <= c <= '9' && c as int - '0' as int == d
  {
    ('0' as int + d) as char
  }

  /** The decimal digits of `n`, most significant first, no leading zero. */
  function Digits(n: nat): (ds: string)
    ensures ds != [] && AllDigits(ds)
    ensures DecimalValue(ds) == n
  {
    if n < 10 then [DigitChar(n)]
    else
      var ds := Digits(n / 10) + [DigitChar(n % 10)];
      assert ds[..|ds| - 1] == Digits(n / 10);
      ds
  }

  /** How the integer prints: a minus sign, then the digits. */
  function Format(v: int): (s: string)
  {
    if v < 0 then "-" + Digits(-v) else Digits(v)
  }

  /** The digits of a number in range parse back to it, with or without a
      minus sign in front. */
  lemma ParseDigits(n: nat, negative: bool)
    requires if negative then n >= 1 && InI32(-(n as int)) else InI32(n)
    ensures ParseI32(if negative then "-" + Digits(n) else Digits(n))
      == Some(if negative then -(n as int) else n)
  {
    var ds := Digits(n);
    if negative {
      var t := "-" + ds;
      assert t[1..] == ds;
    } else {
      assert Chars.AsciiDigit(ds[0]);
    }
  }

  /** A printed number starts and ends with something other than
      whitespace. */
  lemma FormatHasNoWhitespaceEnds(v: int)
    ensures var s := Format(v); s != [] && !Whitespace(s[0]) && !Whitespace(s[|s| - 1])
  {
    var s := Format(v);
    var ds := if v < 0 then Digits(-v) else Digits(v);
    assert s[|s| - 1] == ds[|ds| - 1];
    assert Chars.AsciiDigit(ds[|ds| - 1]);
    assert v >= 0 ==> Chars.AsciiDigit(s[0]);
  }

  /** Parsing a printed `i32` gives it back. */
  lemma ParseFormat(v: int)
    requires InI32(v)
    ensures ParseI32(Format(v)) == Some(v)
    ensures ParseInt(Format(v)) == v
  {
    var s := Format(v);
    if v < 0 {
      ParseDigits(-v, true);
      assert s == "-" + Digits(-v);
    } else {
      ParseDigits(v, false);
      assert s == Digits(v);
    }
    assert ParseI32(s) == Some(v);
    FormatHasNoWhitespaceEnds(v);
    TrimNoOp(s);
    assert ParseI32(Trim(s)) == Some(v);
  }

  /** Surrounding whitespace is ignored: a single-input example, with the
      text fixed by `requires`. */
  lemma ParseIntTrims(s: string)
    requires s == " 42\n"
    ensures ParseInt(s) == 42
  {
    var t := s[1..];
    assert TrimStart(t) == t by {
      assert t[0] == '4';
    }
    assert TrimStart(s) == t;
    var u := t[..2];
    assert TrimEnd(u) == u by {
      assert u[1] == '2';
    }
    assert t[..|t| - 1] == u;
    assert TrimEnd(t) == u;
    assert u[0] == '4' && u[1] == '2';
    var d := u[..1];
    assert d[0] == '4' && d[..0] == [];
    assert DecimalValue(d) == 4;
    assert DecimalValue(u) == 42;
    assert Chars.All(u, Chars.AsciiDigit);
  }

  /** Junk reads as 0. Like the one above, these are single-input
      examples: each takes its text as a parameter fixed by `requires`, so
      that the solver does not expand the whole parse on a literal. */
  lemma ParseIntRejectsLetters(s: string)
    requires s == "abc"
    ensures ParseInt(s) == 0
  {
    TrimNoOp(s);
    assert !Chars.AsciiDigit(s[0]);
  }

  lemma ParseIntRejectsBareSign(s: string)
    requires s == "+"
    ensures ParseInt(s) == 0
  {
    TrimNoOp(s);
    assert s[1..] == "";
  }
}
