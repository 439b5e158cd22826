/** `Latency`: a record wrapping a non-negative number of milliseconds,
    stored as an unsigned 32-bit value that only the checked constructor
    fills. */
module Latencies {
  import opened Wrappers
  import opened Text
  import opened Numeric

  datatype Latency = Latency(value: UInt32)

  /** The invariant the constructor establishes: the stored value came from a
      non-negative Int32, so it is at most Int32.MaxValue. */
  predicate Valid(l: Latency) {
    l.value as int <= INT32_MAX
  }

  /** The constructor: throws on a negative value, otherwise stores it as
      `uint`. */
  function Create(value: Int32): (r: Result<Latency, string>)
    ensures r.Failure? <==> value < 0
    ensures r.Success? ==> Valid(r.value) && r.value.value as int == value as int
  {
    if value < 0 then Failure("Latency cannot be less than zero.")
    else Success(Latency(UncheckedToUInt32(value)))
  }

  /** `ToInt()`: an unchecked cast of the stored `uint` back to `int`. On a
      constructed latency it gives back the value it was constructed from. */
  function ToInt(l: Latency): (r: Int32)
    ensures (r as int - l.value as int) % TWO_TO_32 == 0
    ensures Valid(l) ==> r >= 0 && Create(r) == Success(l)
  {
    UncheckedToInt32(l.value)
  }

  /** The implicit conversion to `uint`. On a constructed latency it is
      within the Int32 range and constructs the same latency again. */
  function ToUInt(l: Latency): (r: UInt32)
    ensures Valid(l) ==> r as int <= INT32_MAX && Create(r as int as Int32) == Success(l)
  {
    l.value
  }

  /** `ToString()`: the decimal rendering of the stored `uint`, unsigned and
      without leading zeros. */
  function ToString(l: Latency): (s: string)
    ensures |s| > 0 && AllDigits(s) && DigitsValue(s) == l.value as int
    ensures s[0] == '0' ==> s == "0"
  {
    NatToDecimal(l.value as nat)
  }

  /** `TryFrom(int)`: `null` exactly for negative values. */
  function TryFromInt(value: Int32): (r: Option<Latency>)
    ensures r.None? <==> value < 0
    ensures r.Some? ==> Valid(r.value) && ToInt(r.value) == value
  {
    if value < 0 then None else Some(Create(value).value)
  }

  /** `TryFrom(string?)`: `null` for blank text, for text `int.TryParse`
      rejects, and for a negative number; otherwise the latency of the
      parsed value. */
  function TryFromText(value: Option<string>): (r: Option<Latency>)
    ensures r.Some? <==>
      && !IsNullOrWhiteSpace(value)
      && TryParseInt32(value.value).Some?
      && TryParseInt32(value.value).value >= 0
    ensures r.Some? ==> Valid(r.value) && TryParseInt32(value.value) == Some(ToInt(r.value))
  {
    if IsNullOrWhiteSpace(value) then None
    else match TryParseInt32(value.value)
      case Some(parsed) => TryFromInt(parsed)
      case None => None
  }

  /** The `uint` conversion and `ToInt()` agree on every constructed latency;
      the cast back to `int` never wraps. */
  lemma ConversionsAgree(l: Latency)
    requires Valid(l)
    ensures ToInt(l) as int == ToUInt(l) as int
    ensures 0 <= ToInt(l) as int <= INT32_MAX
  {
  }

  /** The agreement needs the invariant: a stored value above Int32.MaxValue,
      which no constructor produces, would read back negative. */
  lemma ConversionsDisagreeWithoutInvariant()
    ensures !Valid(Latency(0x8000_0000))
    ensures ToInt(Latency(0x8000_0000)) as int == INT32_MIN
  {
  }

  /** Constructing from `n >= 0` and reading back gives `n`. */
  lemma CreateToInt(n: Int32)
    requires n >= 0
    ensures Create(n).Success? && ToInt(Create(n).value) == n
  {
  }

  /** Rendering a valid latency and parsing the text gives the same latency. */
  lemma TextRoundTrip(l: Latency)
    requires Valid(l)
    ensures TryFromText(Some(ToString(l))) == Some(l)
  {
    var n := l.value as int as Int32;
    assert ToString(l) == Int32ToDecimal(n);
    ParseRendering(n);
    DigitsAreNotWhiteSpace(ToString(l));
  }

  /** Parse, render, parse: the second parse yields the value of the first. */
  lemma ParseRenderParse(s: string)
    requires TryFromText(Some(s)).Some?
    ensures TryFromText(Some(ToString(TryFromText(Some(s)).value))) == TryFromText(Some(s))
  {
    TextRoundTrip(TryFromText(Some(s)).value);
  }

  /** Accepted text, including the surrounding white space the
      number style allows, and the signed-zero edge: `"-0"` parses to 0,
      which is not negative. */
  lemma AcceptedTextExamples()
    ensures TryFromText(Some("42")) == Some(Latency(42))
    ensures TryFromText(Some(" 7 ")) == Some(Latency(7))
    ensures TryFromText(Some("-0")) == Some(Latency(0))
  {
    assert TryFromText(Some("42")) == Some(Latency(42)) by {
      assert NatToDecimal(42) == "42" by {
        assert NatToDecimal(4) == "4";
      }
      ParseRendering(42);
      DigitsAreNotWhiteSpace("42");
    }
    assert TryFromText(Some(" 7 ")) == Some(Latency(7)) by {
      assert Int32ToDecimal(7) == "7";
      ParsePaddedRendering(7, " ", " ");
      assert " " + "7" + " " == " 7 ";
      assert !IsWhiteSpace(" 7 "[1]);
    }
    NegativeZeroParses();
  }

  /** `"-0"` is a minus sign before the digits of zero. */
  lemma NegativeZeroParses()
    ensures TryFromText(Some("-0")) == Some(Latency(0))
  {
    assert "-0"[1..] == "0";
    assert DigitsValue("0") == 0;
  }

  /** Rejected text: negative numbers, non-numbers, blank text
      and `null`. */
  lemma RejectedTextExamples()
    ensures TryFromText(Some("-1")) == None
    ensures TryFromText(Some("-5")) == None
    ensures TryFromText(Some("abc")) == None
    ensures TryFromText(Some("")) == None
    ensures TryFromText(None) == None
  {
  }
}
