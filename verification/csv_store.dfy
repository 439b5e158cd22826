/** The CSV output of `TestingService`: `WriteRecordToFile`,
    `CsvFileAlreadyHasEntries` and `WriteCsvHeaderRecord`. The file is its
    sequence of records, each a sequence of fields, or `None` when it does not
    exist; CsvHelper's quoting and line endings are below this level, and the
    timestamp is the text CsvHelper renders for the batch's `DateTimeOffset`. */
module CsvStore {
  import opened Wrappers
  import opened RegionNames
  import opened Latencies
  import Numeric
  import Text

  type Record = seq<string>

  type CsvFile = Option<seq<Record>>

  const HEADER: Record := ["Timestamp", "Region", "Latency (ms)"]

  /** Reading the header of an existing file with no record at all is left to
      CsvHelper, whose behaviour there is not part of this model. Blank lines,
      which CsvHelper skips by default, are not represented, so an existing
      file's first record has at least one field. */
  predicate Readable(file: CsvFile) {
    file.Some? ==> |file.value| > 0 && |file.value[0]| > 0
  }

  /** `CsvFileAlreadyHasEntries`: false for a missing file; otherwise whether
      the first record, read as the header, has any field. */
  function CsvFileAlreadyHasEntries(file: CsvFile): (r: bool)
    requires Readable(file)
    ensures r <==> file.Some?
    ensures r ==> |file.value| > 0 && |file.value[0]| > 0
  {
    match file
    case None => false
    case Some(records) => |records[0]| > 0
  }

  /** `WriteCsvHeaderRecord`: opens the file for writing without append, so
      whatever it held is replaced by the header alone, which the check above
      then recognises. */
  function WriteCsvHeaderRecord(file: CsvFile): (r: CsvFile)
    ensures r.Some? && |r.value| == 1 && r.value[0] == HEADER
    ensures CsvFileAlreadyHasEntries(r)
  {
    Some([HEADER])
  }

  /** One data record: the batch timestamp, the region text and the latency
      as an `int`. */
  function DataRecord(timestamp: string, region: RegionName, latency: Latency): (r: Record)
    ensures |r| == 3 && r[0] == timestamp
  {
    [timestamp, RegionNames.ToString(region), Numeric.Int32ToDecimal(ToInt(latency))]
  }

  /** A data record is never the header, and its region and latency fields
      read back through the validating parsers as the values written. */
  lemma DataRecordReadsBack(timestamp: string, region: RegionName, latency: Latency)
    ensures DataRecord(timestamp, region, latency) != HEADER
    ensures RegionNames.Valid(region) ==>
      RegionNames.TryFrom(Some(DataRecord(timestamp, region, latency)[1])) == Some(region)
    ensures Latencies.Valid(latency) ==>
      Latencies.TryFromText(Some(DataRecord(timestamp, region, latency)[2])) == Some(latency)
  {
    var r := DataRecord(timestamp, region, latency);
    NotHeaderLatency(ToInt(latency));
    if Latencies.Valid(latency) {
      TextRoundTrip(latency);
      assert r[2] == Latencies.ToString(latency);
    }
  }

  /** No rendered `int` is the header's third field. */
  lemma NotHeaderLatency(x: Numeric.Int32)
    ensures Numeric.Int32ToDecimal(x) != HEADER[2]
  {
    var d := Numeric.NatToDecimal(if x < 0 then -(x as int) else x as int);
    assert Text.IsDigit(d[0]);
  }

  /** `order` lists the keys of `m` once each: the dictionary's enumeration
      order, which the model does not fix. */
  predicate IsEnumeration(order: seq<RegionName>, m: map<RegionName, Latency>) {
    && (forall i, j :: 0 <= i < j < |order| ==> order[i] != order[j])
    && (forall i :: 0 <= i < |order| ==> order[i] in m)
    && (forall k :: k in m ==> k in order)
  }

  lemma {:induction false} DistinctLength<T>(xs: seq<T>, s: set<T>)
    requires forall i, j :: 0 <= i < j < |xs| ==> xs[i] != xs[j]
    requires forall x :: x in xs <==> x in s
    ensures |xs| == |s|
    decreases |xs|
  {
    if |xs| > 0 {
      var last := xs[|xs| - 1];
      var front := xs[..|xs| - 1];
      assert forall x :: x in front <==> x in s - {last} by {
        forall x
          ensures x in front <==> x in s - {last}
        {
          if x in front {
            var i :| 0 <= i < |front| && front[i] == x;
            assert xs[i] == x;
          }
          if x in s - {last} {
            assert x in xs;
            var i :| 0 <= i < |xs| && xs[i] == x;
            assert i < |xs| - 1 && front[i] == x;
          }
        }
      }
      DistinctLength(front, s - {last});
    } else {
      assert forall x :: x !in s;
      assert s == {};
    }
  }

  /** An enumeration has one entry per key. */
  lemma EnumerationLength(order: seq<RegionName>, m: map<RegionName, Latency>)
    requires IsEnumeration(order, m)
    ensures |order| == |m|
  {
    DistinctLength(order, m.Keys);
  }

  /** The records written for a batch: one per key, in enumeration order. */
  function DataRecords(timestamp: string, m: map<RegionName, Latency>, order: seq<RegionName>): (rs: seq<Record>)
    requires forall i :: 0 <= i < |order| ==> order[i] in m
    ensures |rs| == |order|
    ensures forall i :: 0 <= i < |order| ==> rs[i] == DataRecord(timestamp, order[i], m[order[i]])
  {
    seq(|order|, i requires 0 <= i < |order| && order[i] in m => DataRecord(timestamp, order[i], m[order[i]]))
  }

  /** `records` are the rows of the batch `m` written at `timestamp`: one
      three-field row per map entry, one-to-one. */
  predicate IsBatch(records: seq<Record>, timestamp: string, m: map<RegionName, Latency>) {
    && |records| == |m|
    && (forall i :: 0 <= i < |records| ==> |records[i]| == 3 && records[i][0] == timestamp)
    && (forall i :: 0 <= i < |records| ==> exists k :: k in m && records[i] == DataRecord(timestamp, k, m[k]))
    && (forall k :: k in m ==> exists i :: 0 <= i < |records| && records[i] == DataRecord(timestamp, k, m[k]))
    && (forall i, j :: 0 <= i < j < |records| ==> records[i] != records[j])
  }

  lemma DataRecordsAreBatch(timestamp: string, m: map<RegionName, Latency>, order: seq<RegionName>)
    requires IsEnumeration(order, m)
    ensures IsBatch(DataRecords(timestamp, m, order), timestamp, m)
  {
    EnumerationLength(order, m);
    DataRecordsCoverMap(timestamp, m, order);
    DataRecordsDistinct(timestamp, m, order);
  }

  /** Every entry of the map has its row. */
  lemma DataRecordsCoverMap(timestamp: string, m: map<RegionName, Latency>, order: seq<RegionName>)
    requires IsEnumeration(order, m)
    ensures forall k :: k in m ==>
      exists i :: 0 <= i < |order| && DataRecords(timestamp, m, order)[i] == DataRecord(timestamp, k, m[k])
  {
    var rs := DataRecords(timestamp, m, order);
    forall k | k in m
      ensures exists i :: 0 <= i < |order| && rs[i] == DataRecord(timestamp, k, m[k])
    {
      var i :| 0 <= i < |order| && order[i] == k;
      assert rs[i] == DataRecord(timestamp, k, m[k]);
    }
  }

  /** Distinct keys give distinct rows, since the region field tells them
      apart. */
  lemma DataRecordsDistinct(timestamp: string, m: map<RegionName, Latency>, order: seq<RegionName>)
    requires IsEnumeration(order, m)
    ensures forall i, j :: 0 <= i < j < |order| ==>
      DataRecords(timestamp, m, order)[i] != DataRecords(timestamp, m, order)[j]
  {
    var rs := DataRecords(timestamp, m, order);
    forall i, j | 0 <= i < j < |rs|
      ensures rs[i] != rs[j]
    {
      assert rs[i][1] == order[i].value && rs[j][1] == order[j].value;
    }
  }

  function ExistingRecords(file: CsvFile): seq<Record> {
    match file
    case None => []
    case Some(records) => records
  }

  /** A `StreamWriter` in append mode: creates a missing file, then adds the
      records at the end. */
  function AppendRecords(file: CsvFile, records: seq<Record>): (r: CsvFile)
    ensures r.Some? && r.value == ExistingRecords(file) + records
  {
    Some(ExistingRecords(file) + records)
  }

  /** `WriteRecordToFile`: nothing for an empty batch; otherwise the header
      first when the file has no entries, then one row per map entry. */
  function WriteRecordToFile(file: CsvFile, timestamp: string, m: map<RegionName, Latency>,
                             order: seq<RegionName>): (r: CsvFile)
    requires IsEnumeration(order, m)
    requires |m| == 0 || Readable(file)
    ensures |m| == 0 ==> r == file
    ensures |m| > 0 ==> r.Some? && |r.value| >= |m| && IsBatch(r.value[|r.value| - |m|..], timestamp, m)
    ensures |m| > 0 && !CsvFileAlreadyHasEntries(file) ==>
      r.Some? && |r.value| == |m| + 1 && r.value[0] == HEADER
    ensures |m| > 0 && CsvFileAlreadyHasEntries(file) ==>
      r.Some? && |r.value| == |file.value| + |m| && file.value <= r.value
  {
    if |m| == 0 then file
    else
      var withHeader := if CsvFileAlreadyHasEntries(file) then file else WriteCsvHeaderRecord(file);
      AppendedBatch(ExistingRecords(withHeader), timestamp, m, order);
      AppendRecords(withHeader, DataRecords(timestamp, m, order))
  }

  /** Appending a batch keeps what was there and ends with the batch. */
  lemma AppendedBatch(before: seq<Record>, timestamp: string, m: map<RegionName, Latency>, order: seq<RegionName>)
    requires IsEnumeration(order, m)
    ensures var r := before + DataRecords(timestamp, m, order);
      && |r| == |before| + |m|
      && before <= r
      && IsBatch(r[|r| - |m|..], timestamp, m)
  {
    var records := DataRecords(timestamp, m, order);
    DataRecordsAreBatch(timestamp, m, order);
    assert (before + records)[|before + records| - |m|..] == records;
  }

  /** How many records are the header. */
  function HeaderCount(records: seq<Record>): nat {
    if |records| == 0 then 0
    else (if records[0] == HEADER then 1 else 0) + HeaderCount(records[1..])
  }

  lemma {:induction false} HeaderCountAppend(xs: seq<Record>, ys: seq<Record>)
    ensures HeaderCount(xs + ys) == HeaderCount(xs) + HeaderCount(ys)
    decreases |xs|
  {
    if |xs| == 0 {
      assert xs + ys == ys;
    } else {
      assert (xs + ys)[1..] == xs[1..] + ys;
      HeaderCountAppend(xs[1..], ys);
    }
  }

  lemma {:induction false} NoHeaderInData(records: seq<Record>)
    requires forall i :: 0 <= i < |records| ==> records[i] != HEADER
    ensures HeaderCount(records) == 0
    decreases |records|
  {
    if |records| > 0 {
      assert forall i :: 1 <= i < |records| ==> records[1..][i - 1] == records[i];
      NoHeaderInData(records[1..]);
    }
  }

  /** A log as the service keeps it: the header first and nowhere else. */
  predicate SingleHeaderLog(records: seq<Record>) {
    |records| > 0 && records[0] == HEADER && HeaderCount(records) == 1
  }

  lemma DataRecordsHaveNoHeader(timestamp: string, m: map<RegionName, Latency>, order: seq<RegionName>)
    requires forall i :: 0 <= i < |order| ==> order[i] in m
    ensures HeaderCount(DataRecords(timestamp, m, order)) == 0
  {
    var records := DataRecords(timestamp, m, order);
    forall i | 0 <= i < |records|
      ensures records[i] != HEADER
    {
      DataRecordReadsBack(timestamp, order[i], m[order[i]]);
    }
    NoHeaderInData(records);
  }

  /** The file after a non-empty batch: what the header check kept, then the
      batch's records. */
  lemma WriteNonEmpty(file: CsvFile, timestamp: string, m: map<RegionName, Latency>, order: seq<RegionName>)
    requires IsEnumeration(order, m) && |m| > 0 && Readable(file)
    ensures WriteRecordToFile(file, timestamp, m, order)
         == Some((if CsvFileAlreadyHasEntries(file) then file.value else [HEADER]) + DataRecords(timestamp, m, order))
  {
  }

  /** Repeated runs never duplicate or rewrite the header: appending any batch
      to a missing file or to a log with a single leading header yields such
      a log (or leaves the file missing for an empty batch). */
  lemma AppendKeepsSingleHeader(file: CsvFile, timestamp: string, m: map<RegionName, Latency>,
                                order: seq<RegionName>)
    requires IsEnumeration(order, m)
    requires file.None? || SingleHeaderLog(file.value)
    ensures WriteRecordToFile(file, timestamp, m, order).None? <==> file.None? && |m| == 0
    ensures WriteRecordToFile(file, timestamp, m, order).Some? ==>
      SingleHeaderLog(WriteRecordToFile(file, timestamp, m, order).value)
  {
    if |m| > 0 {
      var records := DataRecords(timestamp, m, order);
      DataRecordsHaveNoHeader(timestamp, m, order);
      var existing := if file.None? then [HEADER] else file.value;
      WriteNonEmpty(file, timestamp, m, order);
      HeaderCountAppend(existing, records);
      assert HeaderCount([HEADER]) == 1;
    }
  }

  /** The first append: a missing file becomes the
      header followed by the one data row. */
  lemma FirstAppendExample(timestamp: string)
    ensures WriteRecordToFile(None, timestamp, map[RegionName("West US") := Latency(42)], [RegionName("West US")])
         == Some([HEADER, [timestamp, "West US", "42"]])
  {
    var m := map[RegionName("West US") := Latency(42)];
    assert Numeric.NatToDecimal(42) == "42" by {
      assert Numeric.NatToDecimal(4) == "4";
    }
    var order := [RegionName("West US")];
    assert Numeric.Int32ToDecimal(ToInt(Latency(42))) == "42";
    assert DataRecord(timestamp, RegionName("West US"), Latency(42)) == [timestamp, "West US", "42"];
    assert DataRecords(timestamp, m, order) == [[timestamp, "West US", "42"]];
    assert IsEnumeration(order, m);
    WriteNonEmpty(None, timestamp, m, order);
    assert [HEADER] + [[timestamp, "West US", "42"]] == [HEADER, [timestamp, "West US", "42"]];
  }
}
