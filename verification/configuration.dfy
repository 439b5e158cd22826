/** The configuration read by `TestingService`: the delay between runs and
    the default download address of the Edge driver. Configuration is a map
    from key to value, looked up by the key's exact spelling; a key absent
    from it is a section that does not exist. */
module Configuration {
  import opened Wrappers
  import opened Numeric
  import Text

  const DELAY_PER_RUN_KEY: string := "DELAY_PER_RUN_IN_SECONDS"
  const EDGE_DRIVER_DOWNLOAD_URI_KEY: string := "EDGE_DRIVER_DOWNLOAD_URI"

  /** `TimeSpan.FromMinutes(5)`, in seconds. */
  const DEFAULT_DELAY_SECONDS: int := 300

  const EDGE_DRIVER_HOST: string := "https://msedgedriver.azureedge.net/"

  /** `GetDelayPerRun`, in seconds: the configured value when it parses as an
      `int` (negative values included), otherwise five minutes. */
  function GetDelayPerRun(config: map<string, string>): (seconds: int)
    ensures DELAY_PER_RUN_KEY !in config ==> seconds == DEFAULT_DELAY_SECONDS
    ensures DELAY_PER_RUN_KEY in config && TryParseInt32(config[DELAY_PER_RUN_KEY]).None? ==>
      seconds == DEFAULT_DELAY_SECONDS
    ensures DELAY_PER_RUN_KEY in config && TryParseInt32(config[DELAY_PER_RUN_KEY]).Some? ==>
      seconds == TryParseInt32(config[DELAY_PER_RUN_KEY]).value as int
    ensures INT32_MIN <= seconds <= INT32_MAX
  {
    if DELAY_PER_RUN_KEY in config then
      match TryParseInt32(config[DELAY_PER_RUN_KEY])
      case Some(parsed) => parsed as int
      case None => DEFAULT_DELAY_SECONDS
    else DEFAULT_DELAY_SECONDS
  }

  /** Any `int` written into the setting is the delay the service uses. */
  lemma ConfiguredDelayRoundTrip(config: map<string, string>, seconds: Int32)
    ensures GetDelayPerRun(config[DELAY_PER_RUN_KEY := Int32ToDecimal(seconds)]) == seconds as int
  {
    ParseRendering(seconds);
  }

  /** Text that is not an `int` falls back to the default. */
  lemma UnparsableDelayExample()
    ensures GetDelayPerRun(map[DELAY_PER_RUN_KEY := "five"]) == DEFAULT_DELAY_SECONDS
  {
    assert !Text.IsDigit("five"[0]);
  }

  /** So does a number beyond the Int32 range. */
  lemma OverflowingDelayFallsBack(config: map<string, string>, n: nat)
    requires n > INT32_MAX
    ensures GetDelayPerRun(config[DELAY_PER_RUN_KEY := NatToDecimal(n)]) == DEFAULT_DELAY_SECONDS
  {
    ParseOverflow(n);
  }

  function BitnessSuffix(is64BitOperatingSystem: bool): string {
    if is64BitOperatingSystem then "64" else "32"
  }

  /** The address `GetEdgeDriverDownloadUri` builds from the installed Edge
      version when none is configured: the version is the path segment after
      the host, and the archive name ends in the operating system's
      bitness. */
  function DefaultEdgeDriverDownloadUri(edgeVersion: string, is64BitOperatingSystem: bool): (uri: string)
    ensures |uri| == |EDGE_DRIVER_HOST| + |edgeVersion| + 21
    ensures uri[..|EDGE_DRIVER_HOST|] == EDGE_DRIVER_HOST
    ensures uri[|EDGE_DRIVER_HOST|..|EDGE_DRIVER_HOST| + |edgeVersion|] == edgeVersion
    ensures uri[|EDGE_DRIVER_HOST| + |edgeVersion|..] == "/edgedriver_win" + BitnessSuffix(is64BitOperatingSystem) + ".zip"
  {
    var tail := "/edgedriver_win" + BitnessSuffix(is64BitOperatingSystem) + ".zip";
    var uri := EDGE_DRIVER_HOST + edgeVersion + tail;
    assert uri == EDGE_DRIVER_HOST + (edgeVersion + tail);
    uri
  }

  /** Distinct versions or bitnesses give distinct addresses. */
  lemma DefaultUriDeterminesVersionAndBitness(v1: string, b1: bool, v2: string, b2: bool)
    requires DefaultEdgeDriverDownloadUri(v1, b1) == DefaultEdgeDriverDownloadUri(v2, b2)
    ensures v1 == v2 && b1 == b2
  {
    var u := DefaultEdgeDriverDownloadUri(v1, b1);
    assert |v1| == |v2|;
    var tail1 := "/edgedriver_win" + BitnessSuffix(b1) + ".zip";
    var tail2 := "/edgedriver_win" + BitnessSuffix(b2) + ".zip";
    assert tail1 == tail2;
    assert tail1[15] == (if b1 then '6' else '3');
    assert tail2[15] == (if b2 then '6' else '3');
  }

  /** `GetEdgeDriverDownloadUri`. `isAbsoluteUri` stands for `Uri.TryCreate`
      with `UriKind.Absolute` (and for the `Uri` constructor, which throws
      where it fails); `edgeVersion` is the registry lookup, which fails off
      Windows and when the key is missing. */
  function GetEdgeDriverDownloadUri(config: map<string, string>, isAbsoluteUri: string -> bool,
                                    edgeVersion: Result<string, string>, is64BitOperatingSystem: bool): (r: Result<string, string>)
    ensures EDGE_DRIVER_DOWNLOAD_URI_KEY in config ==>
      (r.Success? <==> isAbsoluteUri(config[EDGE_DRIVER_DOWNLOAD_URI_KEY]))
    ensures EDGE_DRIVER_DOWNLOAD_URI_KEY in config && r.Success? ==> r.value == config[EDGE_DRIVER_DOWNLOAD_URI_KEY]
    ensures EDGE_DRIVER_DOWNLOAD_URI_KEY !in config && edgeVersion.Failure? ==> r == Failure(edgeVersion.error)
    ensures EDGE_DRIVER_DOWNLOAD_URI_KEY !in config && r.Success? ==>
      edgeVersion.Success? && r.value == DefaultEdgeDriverDownloadUri(edgeVersion.value, is64BitOperatingSystem)
    ensures EDGE_DRIVER_DOWNLOAD_URI_KEY !in config && edgeVersion.Success? ==>
      (r.Success? <==> isAbsoluteUri(DefaultEdgeDriverDownloadUri(edgeVersion.value, is64BitOperatingSystem)))
  {
    if EDGE_DRIVER_DOWNLOAD_URI_KEY in config then
      var configured := config[EDGE_DRIVER_DOWNLOAD_URI_KEY];
      if isAbsoluteUri(configured) then Success(configured)
      else Failure("'" + configured + "' is not a valid URL.")
    else
      match edgeVersion
      case Failure(e) => Failure(e)
      case Success(version) =>
        var uri := DefaultEdgeDriverDownloadUri(version, is64BitOperatingSystem);
        if isAbsoluteUri(uri) then Success(uri) else Failure("'" + uri + "' is not a valid URI.")
  }
}
