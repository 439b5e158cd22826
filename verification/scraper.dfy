/** Turning the cell texts of the scraped latency table into a map from region
    to latency (`TestingService.GetRegionLatencies` and
    `GetRegionLatencyFromRowColumns`). The browser is not modelled: a page is
    the sequence of rows, each the sequence of its `td` cell texts, or the
    fault the browser raised while producing them. */
module Scraper {
  import opened Wrappers
  import Text
  import Numeric
  import opened RegionNames
  import opened Latencies
  import opened Extensions

  type Row = seq<string>

  type RegionLatencies = map<RegionName, Latency>

  /** The exceptions that end a scrape. */
  datatype Fault =
    | BrowserFault                   // navigation, missing table, stale session
    | IndexOutOfRange                // a row with fewer than two cells
    | ConflictingKey(region: RegionName)  // a region repeated with another latency

  /** `GetRegionLatencyFromRowColumns`: cell 0 is the region text, cell 1 the
      latency text; a row without both cells faults on the array index. */
  function RegionLatencyFromRowColumns(row: Row): (r: Result<Option<(RegionName, Latency)>, Fault>)
    ensures r.Failure? <==> |row| < 2
    ensures r.Failure? ==> r.error == IndexOutOfRange
    ensures r.Success? ==>
      (r.value.Some? <==> !Text.IsNullOrWhiteSpace(Some(row[0])) && TryFromText(Some(row[1])).Some?)
    ensures r.Success? && r.value.Some? ==>
      && RegionNames.Valid(r.value.value.0)
      && RegionNames.ToString(r.value.value.0) == row[0]
      && Latencies.Valid(r.value.value.1)
      && Numeric.TryParseInt32(row[1]) == Some(ToInt(r.value.value.1))
  {
    if |row| < 2 then Failure(IndexOutOfRange)
    else
      var regionName := RegionNames.TryFrom(Some(row[0]));
      var latency := TryFromText(Some(row[1]));
      if regionName.Some? && latency.Some? then Success(Some((regionName.value, latency.value)))
      else Success(None)
  }

  /** Cells after the second never affect a row's interpretation. */
  lemma ExtraCellsIgnored(row: Row, extra: seq<string>)
    requires |row| >= 2
    ensures RegionLatencyFromRowColumns(row + extra) == RegionLatencyFromRowColumns(row)
  {
    assert (row + extra)[0] == row[0] && (row + extra)[1] == row[1];
  }

  /** The chooser of the reference description below: a row's pair, with a
      short row read as "no pair". */
  function RowChooser(row: Row): Option<(RegionName, Latency)> {
    if |row| < 2 then None else RegionLatencyFromRowColumns(row).value
  }

  /** The (region, latency) pairs of the valid rows, in table order. */
  function ValidPairs(rows: seq<Row>): seq<(RegionName, Latency)> {
    Choose(rows, RowChooser)
  }

  predicate AllRowsIndexable(rows: seq<Row>) {
    forall i :: 0 <= i < |rows| ==> |rows[i]| >= 2
  }

  /** No region appears twice with different latencies. */
  predicate Consistent(pairs: seq<(RegionName, Latency)>) {
    forall i, j :: 0 <= i < |pairs| && 0 <= j < |pairs| && pairs[i].0 == pairs[j].0 ==> pairs[i].1 == pairs[j].1
  }

  /** `m` holds exactly the pairs: its keys are their regions and each region
      maps to its pair's latency. */
  predicate MapOfPairs(m: RegionLatencies, pairs: seq<(RegionName, Latency)>) {
    && (forall k :: k in m ==> exists i :: 0 <= i < |pairs| && pairs[i].0 == k)
    && (forall i :: 0 <= i < |pairs| ==> pairs[i].0 in m && m[pairs[i].0] == pairs[i].1)
  }

  /** Every key and value of the map passed validation. */
  predicate AllValid(m: RegionLatencies) {
    forall k :: k in m ==> RegionNames.Valid(k) && Latencies.Valid(m[k])
  }

  /** One step of `ToImmutableDictionary` over the lazy pipeline: interpret
      the next row and add its pair, unless an earlier step already threw. */
  function AddRow(acc: Result<RegionLatencies, Fault>, row: Row): (r: Result<RegionLatencies, Fault>)
    ensures acc.Failure? ==> r == acc
    ensures acc.Success? && |row| < 2 ==> r == Failure(IndexOutOfRange)
    ensures r.Success? ==> acc.Success? && acc.value.Keys <= r.value.Keys
  {
    match acc
    case Failure(e) => Failure(e)
    case Success(m) =>
      match RegionLatencyFromRowColumns(row)
      case Failure(e) => Failure(e)
      case Success(None) => Success(m)
      case Success(Some(pair)) =>
        if pair.0 in m && m[pair.0] != pair.1 then Failure(ConflictingKey(pair.0))
        else Success(m[pair.0 := pair.1])
  }

  /** `GetRegionLatencies(IWebDriver)`: `Select(GetRowColumns)`, `Choose`,
      then `ToImmutableDictionary`, which adds the pairs in table order and
      throws when a region is added again with a different latency. The lazy
      pipeline interprets each row just before adding its pair, so the first
      fault in table order wins. */
  function CollectRegionLatencies(rows: seq<Row>): (r: Result<RegionLatencies, Fault>)
    ensures r.Success? ==> AllValid(r.value) && |r.value| <= |rows|
    decreases |rows|
  {
    if |rows| == 0 then Success(map[])
    else AddRow(CollectRegionLatencies(rows[..|rows| - 1]), rows[|rows| - 1])
  }

  lemma ValidPairsSnoc(rows: seq<Row>)
    requires |rows| > 0
    ensures ValidPairs(rows) == ValidPairs(rows[..|rows| - 1]) + Choose([rows[|rows| - 1]], RowChooser)
  {
    assert rows == rows[..|rows| - 1] + [rows[|rows| - 1]];
    ChooseAppend(rows[..|rows| - 1], [rows[|rows| - 1]], RowChooser);
  }

  /** Adding a pair whose region is new, or already has the same latency,
      keeps the pairs consistent and the map exact. */
  lemma AddAgreeingPair(m: RegionLatencies, before: seq<(RegionName, Latency)>, pair: (RegionName, Latency))
    requires MapOfPairs(m, before) && Consistent(before)
    requires pair.0 in m ==> m[pair.0] == pair.1
    ensures Consistent(before + [pair])
    ensures MapOfPairs(m[pair.0 := pair.1], before + [pair])
  {
    var pairs := before + [pair];
    var m' := m[pair.0 := pair.1];
    forall i, j | 0 <= i < |pairs| && 0 <= j < |pairs| && pairs[i].0 == pairs[j].0
      ensures pairs[i].1 == pairs[j].1
    {
      if i < |before| && j == |before| {
        assert m[before[i].0] == before[i].1;
      } else if j < |before| && i == |before| {
        assert m[before[j].0] == before[j].1;
      }
    }
    forall k | k in m'
      ensures exists i :: 0 <= i < |pairs| && pairs[i].0 == k
    {
      if k == pair.0 {
        assert pairs[|before|].0 == k;
      } else {
        var i :| 0 <= i < |before| && before[i].0 == k;
        assert pairs[i].0 == k;
      }
    }
    forall i | 0 <= i < |pairs|
      ensures pairs[i].0 in m' && m'[pairs[i].0] == pairs[i].1
    {
      if i < |before| {
        assert pairs[i] == before[i];
      }
    }
  }

  /** Adding a pair whose region already has another latency breaks
      consistency. */
  lemma AddConflictingPair(m: RegionLatencies, before: seq<(RegionName, Latency)>, pair: (RegionName, Latency))
    requires MapOfPairs(m, before)
    requires pair.0 in m && m[pair.0] != pair.1
    ensures !Consistent(before + [pair])
  {
    var pairs := before + [pair];
    var i :| 0 <= i < |before| && before[i].0 == pair.0;
    assert pairs[i] == before[i] && pairs[|before|] == pair;
  }

  /** An inconsistent prefix stays inconsistent whatever follows it. */
  lemma InconsistentPrefix(before: seq<(RegionName, Latency)>, after: seq<(RegionName, Latency)>)
    requires !Consistent(before)
    ensures !Consistent(before + after)
  {
    var i, j :| 0 <= i < |before| && 0 <= j < |before| && before[i].0 == before[j].0 && before[i].1 != before[j].1;
    assert (before + after)[i] == before[i] && (before + after)[j] == before[j];
  }

  lemma ChooseSingleton(row: Row)
    ensures Choose([row], RowChooser) == (match RowChooser(row) case Some(p) => [p] case None => [])
  {
    assert [row][1..] == [];
  }

  /** One step keeps the characterization: given it for the rows so far,
      it holds after the next row. */
  lemma AddRowCharacterized(acc: Result<RegionLatencies, Fault>, indexable: bool,
                            before: seq<(RegionName, Latency)>, row: Row)
    requires acc.Success? <==> indexable && Consistent(before)
    requires acc.Success? ==> MapOfPairs(acc.value, before)
    ensures AddRow(acc, row).Success? <==>
      indexable && |row| >= 2 && Consistent(before + Choose([row], RowChooser))
    ensures AddRow(acc, row).Success? ==>
      MapOfPairs(AddRow(acc, row).value, before + Choose([row], RowChooser))
  {
    ChooseSingleton(row);
    if |row| < 2 {
    } else if acc.Failure? {
      if !Consistent(before) {
        InconsistentPrefix(before, Choose([row], RowChooser));
      }
    } else if RowChooser(row).None? {
      assert before + Choose([row], RowChooser) == before;
    } else {
      var m := acc.value;
      var pair := RowChooser(row).value;
      if pair.0 in m && m[pair.0] != pair.1 {
        AddConflictingPair(m, before, pair);
      } else {
        AddAgreeingPair(m, before, pair);
      }
    }
  }

  /** The map building succeeds exactly when every row has two cells and no
      region is repeated with a different latency, and then the map holds
      exactly the pairs of the valid rows. */
  lemma {:induction false} CollectRegionLatenciesCharacterized(rows: seq<Row>)
    ensures CollectRegionLatencies(rows).Success? <==>
      AllRowsIndexable(rows) && Consistent(ValidPairs(rows))
    ensures CollectRegionLatencies(rows).Success? ==>
      MapOfPairs(CollectRegionLatencies(rows).value, ValidPairs(rows))
    decreases |rows|
  {
    if |rows| > 0 {
      var prefix := rows[..|rows| - 1];
      var last := rows[|rows| - 1];
      CollectRegionLatenciesCharacterized(prefix);
      ValidPairsSnoc(rows);
      assert AllRowsIndexable(rows) <==> AllRowsIndexable(prefix) && |last| >= 2 by {
        assert forall i :: 0 <= i < |prefix| ==> prefix[i] == rows[i];
      }
      AddRowCharacterized(CollectRegionLatencies(prefix), AllRowsIndexable(prefix), ValidPairs(prefix), last);
    }
  }

  /** `GetRegionLatencies(EdgeDriverService, …)` with its catch folded in:
      a fault raised inside the `try` (navigation, the table lookup, reading
      the rows, building the map) becomes the empty map. Creating the session
      and `Quit` lie outside the catch; their faults are not part of `page`. */
  function ScrapeRegionLatencies(page: Result<seq<Row>, Fault>): (m: RegionLatencies)
    ensures AllValid(m)
    ensures page.Failure? ==> m == map[]
    ensures page.Success? && !AllRowsIndexable(page.value) ==> m == map[]
    ensures page.Success? && !Consistent(ValidPairs(page.value)) ==> m == map[]
    ensures page.Success? && AllRowsIndexable(page.value) && Consistent(ValidPairs(page.value)) ==>
      MapOfPairs(m, ValidPairs(page.value))
  {
    match page
    case Failure(_) => map[]
    case Success(rows) =>
      CollectRegionLatenciesCharacterized(rows);
      match CollectRegionLatencies(rows)
      case Success(m) => m
      case Failure(_) => map[]
  }

  lemma ExampleRowsInterpreted()
    ensures RegionLatencyFromRowColumns(["West US", "42"]) == Success(Some((RegionName("West US"), Latency(42))))
    ensures RegionLatencyFromRowColumns(["", "10"]) == Success(None)
    ensures RegionLatencyFromRowColumns(["East US", "-5"]) == Success(None)
    ensures RegionLatencyFromRowColumns(["North Europe", "7"]) == Success(Some((RegionName("North Europe"), Latency(7))))
  {
    ExampleValidRows();
    assert RegionLatencyFromRowColumns(["East US", "-5"]) == Success(None) by {
      RejectedTextExamples();
    }
  }

  /** The two example rows that pass both validations. */
  lemma ExampleValidRows()
    ensures RegionLatencyFromRowColumns(["West US", "42"]) == Success(Some((RegionName("West US"), Latency(42))))
    ensures RegionLatencyFromRowColumns(["North Europe", "7"]) == Success(Some((RegionName("North Europe"), Latency(7))))
  {
    assert RegionLatencyFromRowColumns(["West US", "42"]) == Success(Some((RegionName("West US"), Latency(42)))) by {
      AcceptedTextExamples();
      assert !Text.IsWhiteSpace("West US"[0]);
    }
    assert TryFromText(Some("7")) == Some(Latency(7)) by {
      assert Numeric.Int32ToDecimal(7) == "7";
      Numeric.ParseRendering(7);
      Text.DigitsAreNotWhiteSpace("7");
    }
    assert !Text.IsWhiteSpace("North Europe"[0]);
  }


  /** The four-row example table: the blank region and the negative
      latency are dropped, the other two rows are kept. */
  lemma MalformedRowsDroppedExample()
    ensures ScrapeRegionLatencies(Success([["West US", "42"], ["", "10"], ["East US", "-5"], ["North Europe", "7"]]))
         == map[RegionName("West US") := Latency(42), RegionName("North Europe") := Latency(7)]
  {
    ExampleTableCollected();
  }

  /** Each row of the example table as one step of the dictionary build,
      and West US with 42 a second time. */
  lemma ExampleTableSteps()
    ensures AddRow(Success(map[]), ["West US", "42"]) == Success(map[RegionName("West US") := Latency(42)])
    ensures AddRow(Success(map[RegionName("West US") := Latency(42)]), ["", "10"])
         == Success(map[RegionName("West US") := Latency(42)])
    ensures AddRow(Success(map[RegionName("West US") := Latency(42)]), ["East US", "-5"])
         == Success(map[RegionName("West US") := Latency(42)])
    ensures AddRow(Success(map[RegionName("West US") := Latency(42)]), ["North Europe", "7"])
         == Success(map[RegionName("West US") := Latency(42), RegionName("North Europe") := Latency(7)])
    ensures AddRow(Success(map[RegionName("West US") := Latency(42)]), ["West US", "42"])
         == Success(map[RegionName("West US") := Latency(42)])
  {
    ExampleRowsInterpreted();
    var west := map[RegionName("West US") := Latency(42)];
    assert west[RegionName("West US") := Latency(42)] == west;
  }

  /** The first two rows of the example table leave only West US. */
  lemma ExampleTableFirstRows()
    ensures CollectRegionLatencies([["West US", "42"], ["", "10"]]) == Success(map[RegionName("West US") := Latency(42)])
  {
    var a, b := ["West US", "42"], ["", "10"];
    ExampleTableSteps();
    CollectSnoc([], a);
    assert [] + [a] == [a];
    CollectSnoc([a], b);
    assert [a] + [b] == [a, b];
  }

  /** The whole example table builds the two-entry map. */
  lemma ExampleTableCollected()
    ensures CollectRegionLatencies([["West US", "42"], ["", "10"], ["East US", "-5"], ["North Europe", "7"]])
         == Success(map[RegionName("West US") := Latency(42), RegionName("North Europe") := Latency(7)])
  {
    var a, b, c, d := ["West US", "42"], ["", "10"], ["East US", "-5"], ["North Europe", "7"];
    ExampleTableFirstRows();
    ExampleTableSteps();
    CollectSnoc([a, b], c);
    assert [a, b] + [c] == [a, b, c];
    CollectSnoc([a, b, c], d);
    assert [a, b, c] + [d] == [a, b, c, d];
  }

  lemma CollectSnoc(rows: seq<Row>, row: Row)
    ensures CollectRegionLatencies(rows + [row]) == AddRow(CollectRegionLatencies(rows), row)
  {
    assert (rows + [row])[..|rows|] == rows;
  }

  /** A row with a single cell faults on the second index, and the whole
      scrape comes back empty even though an earlier row was valid. */
  lemma ShortRowEmptiesScrapeExample()
    ensures ScrapeRegionLatencies(Success([["West US", "42"], ["Lonely"]])) == map[]
  {
    var rows := [["West US", "42"], ["Lonely"]];
    assert !AllRowsIndexable(rows) by {
      assert |rows[1]| < 2;
    }
  }

  /** A region listed twice with different latencies makes the dictionary
      throw, so the scrape comes back empty. */
  lemma RepeatedRegionExamples()
    ensures ScrapeRegionLatencies(Success([["West US", "42"], ["West US", "-0"], ["West US", "43"]])) == map[]
  {
    var rows := [["West US", "42"], ["West US", "-0"], ["West US", "43"]];
    AcceptedTextExamples();
    assert !Text.IsWhiteSpace("West US"[0]);
    assert ValidPairs(rows)[0] == (RegionName("West US"), Latency(42));
    assert ValidPairs(rows)[1] == (RegionName("West US"), Latency(0));
    assert !Consistent(ValidPairs(rows));
  }

  /** A region listed twice with the same latency is not a conflict: it is
      kept once. */
  lemma RepeatedSameLatencyKeptOnce()
    ensures ScrapeRegionLatencies(Success([["West US", "42"], ["West US", "42"]]))
         == map[RegionName("West US") := Latency(42)]
  {
    RepeatedRowCollected();
  }

  lemma RepeatedRowCollected()
    ensures CollectRegionLatencies([["West US", "42"], ["West US", "42"]])
         == Success(map[RegionName("West US") := Latency(42)])
  {
    var row := ["West US", "42"];
    ExampleTableSteps();
    CollectSnoc([], row);
    assert [] + [row] == [row];
    CollectSnoc([row], row);
    assert [row] + [row] == [row, row];
  }
}
