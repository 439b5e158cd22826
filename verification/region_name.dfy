/** `RegionName`: a record wrapping a region's display text, validated to be
    neither null nor whitespace-only and stored exactly as given. */
module RegionNames {
  import opened Wrappers
  import opened Text

  datatype RegionName = RegionName(value: string)

  /** The invariant the record's constructor enforces. */
  predicate Valid(r: RegionName) {
    !IsNullOrWhiteSpace(Some(r.value))
  }

  /** The constructor: throws on null or whitespace-only text, otherwise keeps
      the text untrimmed. */
  function Create(value: Option<string>): (r: Result<RegionName, string>)
    ensures r.Failure? <==> IsNullOrWhiteSpace(value)
    ensures r.Success? ==> Valid(r.value) && ToString(r.value) == value.value
  {
    if IsNullOrWhiteSpace(value) then Failure("Region name cannot be empty.")
    else Success(RegionName(value.value))
  }

  /** `ToString()` and the implicit conversion to `string`: the text
      identifies the name, and it is never blank for a constructed name. */
  function ToString(r: RegionName): (s: string)
    ensures RegionName(s) == r
    ensures Valid(r) <==> !IsNullOrWhiteSpace(Some(s))
  {
    r.value
  }

  /** `TryFrom`: `null` instead of an exception for blank text, otherwise the
      constructed name, whose text is the input character for character. */
  function TryFrom(value: Option<string>): (r: Option<RegionName>)
    ensures r.None? <==> IsNullOrWhiteSpace(value)
    ensures r.Some? ==> Valid(r.value) && ToString(r.value) == value.value
  {
    if IsNullOrWhiteSpace(value) then None else Some(Create(value).value)
  }

  /** Rendering a valid name and validating the text again gives the same
      name back: nothing is trimmed or normalised on the way. */
  lemma TryFromToString(r: RegionName)
    requires Valid(r)
    ensures TryFrom(Some(ToString(r))) == Some(r)
  {
  }

  /** Surrounding spaces survive validation: `" West US "` is a different
      region from `"West US"`. */
  lemma UntrimmedExample()
    ensures TryFrom(Some(" West US ")) == Some(RegionName(" West US "))
    ensures TryFrom(Some(" West US ")) != TryFrom(Some("West US"))
  {
    assert !IsWhiteSpace(" West US "[1]);
    assert !IsWhiteSpace("West US"[0]);
    assert " West US " != "West US" by {
      assert |" West US "| != |"West US"|;
    }
  }

  /** Blank inputs: empty, spaces only, and `null`. */
  lemma BlankExamples()
    ensures TryFrom(Some("")) == None
    ensures TryFrom(Some("   ")) == None
    ensures TryFrom(Some("\t\n\r")) == None
    ensures TryFrom(None) == None
  {
  }
}
