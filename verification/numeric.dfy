/** The 32-bit integers of the source, the unchecked casts between them,
    `int.TryParse` and the invariant-culture decimal rendering. */
module Numeric {
  import opened Wrappers
  import opened Text

  const INT32_MIN: int := -0x8000_0000
  const INT32_MAX: int := 0x7FFF_FFFF
  const TWO_TO_32: int := 0x1_0000_0000

  newtype Int32 = x: int | -0x8000_0000 <= x < 0x8000_0000
  newtype UInt32 = x: int | 0 <= x < 0x1_0000_0000

  /** `(uint)x` in an unchecked context: the same residue modulo 2^32. */
  function UncheckedToUInt32(x: Int32): (r: UInt32)
    ensures (r as int - x as int) % TWO_TO_32 == 0
  {
    if x < 0 then (x as int + TWO_TO_32) as UInt32 else x as int as UInt32
  }

  /** `(int)x` in an unchecked context: the same residue modulo 2^32. */
  function UncheckedToInt32(x: UInt32): (r: Int32)
    ensures (r as int - x as int) % TWO_TO_32 == 0
    ensures x as int <= INT32_MAX ==> r as int == x as int
  {
    if x as int <= INT32_MAX then x as int as Int32 else (x as int - TWO_TO_32) as Int32
  }

  function DigitValue(c: char): (d: nat)
    requires IsDigit(c)
    ensures d < 10
  {
    c as int - '0' as int
  }

  function DigitChar(d: nat): (c: char)
    requires d < 10
    ensures IsDigit(c) && DigitValue(c) == d
  {
    (d + '0' as int) as char
  }

  /** The value of a run of decimal digits, most significant first. */
  function DigitsValue(ds: string): nat
    requires AllDigits(ds)
  {
    if |ds| == 0 then 0 else DigitsValue(ds[..|ds| - 1]) * 10 + DigitValue(ds[|ds| - 1])
  }

  /** The decimal rendering of a natural number (`uint.ToString()` and the
      magnitude part of `int.ToString()`). It is non-empty, all digits,
      without leading zeros, and reads back as `n`. */
  function NatToDecimal(n: nat): (r: string)
    ensures |r| > 0 && AllDigits(r)
    ensures r[0] == '0' ==> r == "0"
    ensures DigitsValue(r) == n
    decreases n
  {
    if n < 10 then [DigitChar(n)]
    else
      var prefix := NatToDecimal(n / 10);
      var r := prefix + [DigitChar(n % 10)];
      assert r[..|r| - 1] == prefix;
      r
  }

  /** `int.ToString()` with the invariant culture: a minus sign exactly for
      negative values, then the digits of the magnitude. */
  function Int32ToDecimal(x: Int32): (r: string)
    ensures |r| > 0 && (r[0] == '-' <==> x < 0)
    ensures x >= 0 ==> AllDigits(r) && DigitsValue(r) == x as int
    ensures x < 0 ==> |r| > 1 && AllDigits(r[1..]) && DigitsValue(r[1..]) == -(x as int)
    ensures var digits := if x < 0 then r[1..] else r; digits[0] == '0' ==> r == "0"
  {
    if x < 0 then "-" + NatToDecimal(-(x as int)) else NatToDecimal(x as int)
  }

  /** The white space `NumberStyles.Integer` allows around a number. */
  predicate IsNumberWhite(c: char) {
    c == ' ' || '\t' <= c <= '\r'
  }

  predicate AllNumberWhite(s: string) {
    forall i :: 0 <= i < |s| ==> IsNumberWhite(s[i])
  }

  function TrimLeadingWhite(s: string): string {
    if |s| > 0 && IsNumberWhite(s[0]) then TrimLeadingWhite(s[1..]) else s
  }

  function TrimTrailingWhite(s: string): string {
    if |s| > 0 && IsNumberWhite(s[|s| - 1]) then TrimTrailingWhite(s[..|s| - 1]) else s
  }

  /** The digits after an optional sign, accepted only when the signed value
      fits in 32 bits. */
  function SignedValue(digits: string, negative: bool): Option<Int32> {
    if |digits| == 0 || !AllDigits(digits) then None
    else
      var magnitude: int := DigitsValue(digits);
      var v := if negative then -magnitude else magnitude;
      if INT32_MIN <= v <= INT32_MAX then Some(v as Int32) else None
  }

  /** `int.TryParse(s, out v)` with `NumberStyles.Integer` and the invariant
      sign symbols: optional surrounding white space, one optional `+` or
      `-`, at least one ASCII digit, and a value within the Int32 range. */
  function TryParseInt32(s: string): (r: Option<Int32>)
    ensures AllNumberWhite(s) ==> r.None?
  {
    TrimAllWhite(s);
    ParseTrimmed(TrimTrailingWhite(TrimLeadingWhite(s)))
  }

  /** The trimmed text: an optional sign, then the digits. */
  function ParseTrimmed(t: string): Option<Int32> {
    if |t| > 0 && t[0] == '-' then SignedValue(t[1..], true)
    else if |t| > 0 && t[0] == '+' then SignedValue(t[1..], false)
    else SignedValue(t, false)
  }

  /** The four parts of a number in the `NumberStyles.Integer` shape:
      leading white space, an optional sign, digits, trailing white space. */
  function Compose(lead: string, sign: string, digits: string, trail: string): string {
    lead + sign + digits + trail
  }

  predicate IsSign(sign: string) {
    sign == "" || sign == "+" || sign == "-"
  }

  function SignedDigitsValue(sign: string, digits: string): int
    requires AllDigits(digits)
  {
    if sign == "-" then -(DigitsValue(digits) as int) else DigitsValue(digits)
  }

  /** `s` is an integer in the number style, denoting `n` (which may lie
      outside the Int32 range). */
  ghost predicate IntegerText(s: string, n: int) {
    exists lead, sign, digits, trail ::
      && s == Compose(lead, sign, digits, trail)
      && AllNumberWhite(lead) && AllNumberWhite(trail) && IsSign(sign)
      && |digits| > 0 && AllDigits(digits)
      && n == SignedDigitsValue(sign, digits)
  }

  /** Text that is white space only trims to nothing. */
  lemma {:induction false} TrimAllWhite(s: string)
    ensures AllNumberWhite(s) ==> TrimLeadingWhite(s) == []
  {
    if |s| > 0 && AllNumberWhite(s) {
      TrimAllWhite(s[1..]);
    }
  }

  lemma {:induction false} TrimLeadingPadding(lead: string, s: string)
    requires AllNumberWhite(lead)
    requires |s| > 0 && !IsNumberWhite(s[0])
    ensures TrimLeadingWhite(lead + s) == s
    decreases |lead|
  {
    if |lead| == 0 {
      assert lead + s == s;
    } else {
      assert (lead + s)[1..] == lead[1..] + s;
      TrimLeadingPadding(lead[1..], s);
    }
  }

  lemma {:induction false} TrimTrailingPadding(s: string, trail: string)
    requires AllNumberWhite(trail)
    requires |s| > 0 && !IsNumberWhite(s[|s| - 1])
    ensures TrimTrailingWhite(s + trail) == s
    decreases |trail|
  {
    if |trail| == 0 {
      assert s + trail == s;
    } else {
      var shorter := trail[..|trail| - 1];
      assert (s + trail)[..|s + trail| - 1] == s + shorter;
      TrimTrailingPadding(s, shorter);
    }
  }

  /** Trimming removes exactly the padding around a rendered number. */
  lemma TrimPaddedRendering(x: Int32, lead: string, trail: string)
    requires AllNumberWhite(lead) && AllNumberWhite(trail)
    ensures TrimTrailingWhite(TrimLeadingWhite(lead + Int32ToDecimal(x) + trail)) == Int32ToDecimal(x)
  {
    var text := Int32ToDecimal(x);
    var d := NatToDecimal(if x < 0 then -(x as int) else x as int);
    assert IsDigit(d[0]) && IsDigit(d[|d| - 1]);
    assert text[|text| - 1] == d[|d| - 1];
    assert lead + text + trail == lead + (text + trail);
    TrimLeadingPadding(lead, text + trail);
    TrimTrailingPadding(text, trail);
  }

  /** Every Int32 renders to text that `int.TryParse` reads back, with any
      surrounding white space the number style allows. */
  lemma ParsePaddedRendering(x: Int32, lead: string, trail: string)
    requires AllNumberWhite(lead) && AllNumberWhite(trail)
    ensures TryParseInt32(lead + Int32ToDecimal(x) + trail) == Some(x)
  {
    TrimPaddedRendering(x, lead, trail);
    var t := Int32ToDecimal(x);
    if x < 0 {
      assert t[0] == '-' && t[1..] == NatToDecimal(-(x as int));
    } else {
      var d := NatToDecimal(x as int);
      assert IsDigit(d[0]);
      assert t[0] != '-' && t[0] != '+' && t == d;
    }
  }

  /** A number beyond Int32.MaxValue is rejected, not wrapped or clamped. */
  lemma ParseOverflow(n: nat)
    requires n > INT32_MAX
    ensures TryParseInt32(NatToDecimal(n)) == None
  {
    var d := NatToDecimal(n);
    assert IsDigit(d[0]) && IsDigit(d[|d| - 1]);
    assert TrimLeadingWhite(d) == d;
    assert TrimTrailingWhite(d) == d;
  }

  /** The unpadded round trip: `int.Parse(x.ToString()) == x`. */
  lemma ParseRendering(x: Int32)
    ensures TryParseInt32(Int32ToDecimal(x)) == Some(x)
  {
    ParsePaddedRendering(x, "", "");
    assert "" + Int32ToDecimal(x) + "" == Int32ToDecimal(x);
  }

  /** Trimming at the front removes a run of white space and stops at a
      character that is not white space. */
  lemma {:induction false} TrimLeadingSplit(s: string)
    ensures |TrimLeadingWhite(s)| <= |s|
    ensures s == s[..|s| - |TrimLeadingWhite(s)|] + TrimLeadingWhite(s)
    ensures AllNumberWhite(s[..|s| - |TrimLeadingWhite(s)|])
  {
    if |s| > 0 && IsNumberWhite(s[0]) {
      TrimLeadingSplit(s[1..]);
      var t := TrimLeadingWhite(s);
      assert s[..|s| - |t|] == [s[0]] + s[1..][..|s| - 1 - |t|];
    }
  }

  /** Trimming at the back removes a run of white space. */
  lemma {:induction false} TrimTrailingSplit(s: string)
    ensures |TrimTrailingWhite(s)| <= |s|
    ensures s == TrimTrailingWhite(s) + s[|TrimTrailingWhite(s)|..]
    ensures AllNumberWhite(s[|TrimTrailingWhite(s)|..])
  {
    if |s| > 0 && IsNumberWhite(s[|s| - 1]) {
      var init := s[..|s| - 1];
      TrimTrailingSplit(init);
      var t := TrimTrailingWhite(s);
      assert s[|t|..] == init[|t|..] + [s[|s| - 1]];
    }
  }

  /** Whatever `int.TryParse` accepts is an integer in the number style,
      and the result is the value it denotes. */
  lemma ParseSound(s: string)
    requires TryParseInt32(s).Some?
    ensures IntegerText(s, TryParseInt32(s).value as int)
  {
    TrimLeadingSplit(s);
    var t1 := TrimLeadingWhite(s);
    var lead := s[..|s| - |t1|];
    TrimTrailingSplit(t1);
    var t := TrimTrailingWhite(t1);
    var trail := t1[|t|..];
    assert TryParseInt32(s) == ParseTrimmed(t);
    var sign, digits := SplitSign(t);
    ComposeParts(s, lead, t1, t, trail, sign, digits);
    assert AllNumberWhite(lead) && AllNumberWhite(trail) && IsSign(sign);
    assert TryParseInt32(s).value as int == SignedDigitsValue(sign, digits);
  }

  lemma ComposeParts(s: string, lead: string, t1: string, t: string, trail: string, sign: string, digits: string)
    requires s == lead + t1 && t1 == t + trail && t == sign + digits
    ensures s == Compose(lead, sign, digits, trail)
  {
    assert lead + (sign + digits + trail) == lead + sign + digits + trail;
  }

  /** Splits accepted trimmed text into its sign and its digits. */
  lemma SplitSign(t: string) returns (sign: string, digits: string)
    requires ParseTrimmed(t).Some?
    ensures t == sign + digits && IsSign(sign) && |digits| > 0 && AllDigits(digits)
    ensures ParseTrimmed(t).value as int == SignedDigitsValue(sign, digits)
  {
    if |t| > 0 && t[0] == '-' {
      sign, digits := "-", t[1..];
    } else if |t| > 0 && t[0] == '+' {
      sign, digits := "+", t[1..];
    } else {
      sign, digits := "", t;
    }
    assert t == sign + digits;
  }

  /** Every integer in the number style is read as the value it denotes when
      that value fits in 32 bits, and is rejected otherwise. */
  lemma ParseComplete(lead: string, sign: string, digits: string, trail: string)
    requires AllNumberWhite(lead) && AllNumberWhite(trail) && IsSign(sign)
    requires |digits| > 0 && AllDigits(digits)
    ensures var n := SignedDigitsValue(sign, digits);
      TryParseInt32(Compose(lead, sign, digits, trail))
        == if INT32_MIN <= n <= INT32_MAX then Some(n as Int32) else None
  {
    var core := sign + digits;
    assert IsDigit(digits[0]) && IsDigit(core[|core| - 1]);
    assert Compose(lead, sign, digits, trail) == lead + (core + trail);
    assert !IsNumberWhite((core + trail)[0]);
    TrimLeadingPadding(lead, core + trail);
    TrimTrailingPadding(core, trail);
    if sign != "" {
      assert core[1..] == digits;
    } else {
      assert core == digits;
    }
  }

  /** `int.TryParse` accepts exactly the integers in the number style whose
      value fits in 32 bits, and yields that value. */
  lemma ParseCharacterized(s: string, n: int)
    ensures IntegerText(s, n) ==>
      TryParseInt32(s) == if INT32_MIN <= n <= INT32_MAX then Some(n as Int32) else None
    ensures TryParseInt32(s).Some? ==> IntegerText(s, TryParseInt32(s).value as int)
  {
    if IntegerText(s, n) {
      var lead, sign, digits, trail :|
        && s == Compose(lead, sign, digits, trail)
        && AllNumberWhite(lead) && AllNumberWhite(trail) && IsSign(sign)
        && |digits| > 0 && AllDigits(digits)
        && n == SignedDigitsValue(sign, digits);
      ParseComplete(lead, sign, digits, trail);
    }
    if TryParseInt32(s).Some? {
      ParseSound(s);
    }
  }

  /** Leading zeros and a plus sign are accepted; a trailing letter is not. */
  lemma ParseShapeExamples()
    ensures TryParseInt32("007") == Some(7)
    ensures TryParseInt32("+5") == Some(5)
    ensures TryParseInt32("12a") == None
  {
    assert TryParseInt32("007") == Some(7) by {
      ParseComplete("", "", "007", "");
      assert Compose("", "", "007", "") == "007";
      assert DigitsValue("007") == 7 by {
        assert "007"[..2] == "00" && "00"[..1] == "0";
      }
    }
    assert TryParseInt32("+5") == Some(5) by {
      ParseComplete("", "+", "5", "");
      assert Compose("", "+", "5", "") == "+5";
      assert DigitsValue("5") == 5;
    }
    assert !IsDigit("12a"[2]);
  }
}
