/** `TestingService.Run` without the driver and the logging: scrape the page,
    then append the batch to the CSV file with the run's timestamp. */
module Service {
  import opened Wrappers
  import RegionNames
  import opened Scraper
  import opened CsvStore

  /** One run. `order` is the enumeration order of the scraped dictionary.
      A failed scrape writes nothing; otherwise the file ends with one row
      per scraped region. */
  function Run(file: CsvFile, timestamp: string, page: Result<seq<Row>, Fault>, order: seq<RegionNames.RegionName>): (r: CsvFile)
    requires IsEnumeration(order, ScrapeRegionLatencies(page))
    requires |ScrapeRegionLatencies(page)| == 0 || Readable(file)
    ensures page.Failure? ==> r == file
    ensures page.Success? && !AllRowsIndexable(page.value) ==> r == file
    ensures page.Success? && !Consistent(ValidPairs(page.value)) ==> r == file
    ensures r != file ==>
      && page.Success? && AllRowsIndexable(page.value) && Consistent(ValidPairs(page.value))
      && |ValidPairs(page.value)| > 0 && r.Some?
  {
    var m := ScrapeRegionLatencies(page);
    var r := WriteRecordToFile(file, timestamp, m, order);
    assert r != file ==> |m| > 0;
    assert |m| > 0 ==> |ValidPairs(page.value)| > 0 by {
      if |m| > 0 {
        var k :| k in m;
        assert exists i :: 0 <= i < |ValidPairs(page.value)| && ValidPairs(page.value)[i].0 == k;
      }
    }
    r
  }
}
