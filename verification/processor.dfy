/** `CsvProcessorService`: the sequential run over the data rows and the
    checks made before it. The run itself takes the crawler's result for row
    `i` as `crawl(i)`; the whole process builds it from the page fetched for
    row `i`, `pages(i)`. The pause between rows is recorded, and
    `interrupts` names the rows after which the pause is interrupted. */
module Processor {
  import opened Wrappers
  import opened Strings
  import opened Rows
  import opened Validation
  import opened Crawler
  import CsvParser
  import Output

  /** What a row's email cell says when nothing was found. */
  const NotFound: string := "X"

  /** The value a row's found email takes, given what the crawler returned
      for its website: the mark for an empty website or an empty result,
      the result otherwise. */
  function FoundValue(website: string, crawled: string): string {
    if website == "" || crawled == "" then NotFound else crawled
  }

  /** A settled email cell is the mark or an address the validator accepts,
      in normal form; and it is the mark exactly when the website is empty
      or the crawl found nothing. */
  lemma FoundValueShape(website: string, page: Page)
    ensures var r := FoundValue(website, CrawlWebsiteForEmail(website, page));
            && (r == NotFound || (IsValidEmail(Some(r)) && Normalize(r) == r))
            && (r == NotFound <==> website == "" || CrawlWebsiteForEmail(website, page) == "")
  {
    CrawlResultIsNormalValid(website, page);
    ValidEmailMinLength(CrawlWebsiteForEmail(website, page));
  }

  /** The row with its found email settled; every other field is kept. */
  function Settle(row: Row, crawled: string): Row {
    row.(foundEmail := FoundValue(row.website, crawled))
  }

  /** The loop pauses after row `i` when it crawled it and it is not the last. */
  predicate PausesAfter(rows: seq<Row>, i: int) {
    1 <= i < |rows| - 1 && rows[i].website != ""
  }

  /** The last row the loop settles, searching from `from`: the first row
      whose pause is interrupted, or the last row of the table. */
  function LastSettled(rows: seq<Row>, interrupts: set<nat>, from: nat): (r: nat)
    requires 1 <= from <= |rows| - 1
    ensures from <= r <= |rows| - 1
    ensures forall i :: from <= i < r ==> !(PausesAfter(rows, i) && i in interrupts)
    ensures r < |rows| - 1 ==> PausesAfter(rows, r) && r in interrupts
    ensures interrupts == {} ==> r == |rows| - 1
    decreases |rows| - from
  {
    if from == |rows| - 1 then from
    else if PausesAfter(rows, from) && from in interrupts then from
    else LastSettled(rows, interrupts, from + 1)
  }

  /** The last data row the loop settles; 0 when there is none. */
  function LastRow(rows: seq<Row>, interrupts: set<nat>): (r: nat)
    ensures |rows| <= 1 ==> r == 0
    ensures |rows| > 1 ==> 1 <= r <= |rows| - 1
  {
    if |rows| <= 1 then 0 else LastSettled(rows, interrupts, 1)
  }

  /** `pauses` lists, in increasing order, exactly the rows below `i` after
      which the loop pauses. */
  predicate PauseLog(rows: seq<Row>, pauses: seq<nat>, i: nat) {
    && PausesBelow(rows, pauses, i)
    && (forall j :: 1 <= j < i && PausesAfter(rows, j) ==> j in pauses)
    && Increasing(pauses)
  }

  predicate PausesBelow(rows: seq<Row>, pauses: seq<nat>, i: nat) {
    forall k :: 0 <= k < |pauses| ==> 1 <= pauses[k] < i && PausesAfter(rows, pauses[k])
  }

  predicate Increasing(xs: seq<nat>) {
    forall k, l :: 0 <= k < l < |xs| ==> xs[k] < xs[l]
  }

  lemma PauseLogStep(rows: seq<Row>, pauses: seq<nat>, i: nat)
    requires PauseLog(rows, pauses, i)
    ensures PauseLog(rows, if PausesAfter(rows, i) then pauses + [i] else pauses, i + 1)
  {
    if PausesAfter(rows, i) {
      PausesBelowSnoc(rows, pauses, i);
      IncreasingSnoc(rows, pauses, i);
      var p := pauses + [i];
      forall j | 1 <= j < i + 1 && PausesAfter(rows, j) ensures j in p {
        if j < i {
          assert j in pauses;
        } else {
          assert p[|pauses|] == j;
        }
      }
    } else {
      assert PausesBelow(rows, pauses, i + 1);
    }
  }

  lemma PausesBelowSnoc(rows: seq<Row>, pauses: seq<nat>, i: nat)
    requires PausesBelow(rows, pauses, i) && PausesAfter(rows, i)
    ensures PausesBelow(rows, pauses + [i], i + 1)
  {
    var p := pauses + [i];
    forall k | 0 <= k < |p| ensures 1 <= p[k] < i + 1 && PausesAfter(rows, p[k]) {
      if k < |pauses| {
        assert p[k] == pauses[k];
      }
    }
  }

  lemma IncreasingSnoc(rows: seq<Row>, pauses: seq<nat>, i: nat)
    requires PausesBelow(rows, pauses, i) && Increasing(pauses)
    ensures Increasing(pauses + [i])
  {
    var p := pauses + [i];
    forall k, l | 0 <= k < l < |p| ensures p[k] < p[l] {
      assert p[k] == pauses[k];
      if l < |pauses| {
        assert p[l] == pauses[l];
      }
    }
  }

  /** Rows `1 .. i - 1` of `out` are settled and the rest are as in `rows`. */
  predicate SettledBelow(rows: seq<Row>, out: seq<Row>, crawl: nat -> string, i: nat) {
    && |out| == |rows| && (|rows| > 0 ==> out[0] == rows[0])
    && (forall j :: 1 <= j < i && j < |rows| ==> out[j] == Settle(rows[j], crawl(j)))
    && (forall j :: i <= j < |rows| ==> out[j] == rows[j])
  }

  lemma SettledStep(rows: seq<Row>, out: seq<Row>, crawl: nat -> string, i: nat)
    requires 1 <= i < |rows| && SettledBelow(rows, out, crawl, i)
    ensures SettledBelow(rows, out[i := Settle(rows[i], crawl(i))], crawl, i + 1)
  {
  }

  /** `crawlAndUpdateEmails`: the header is skipped; rows 1 .. `last` are
      settled in order and the rest keep their found email; a pause is
      recorded after each crawled row except the last row of the table, and
      an interrupted pause ends the run. */
  method CrawlAndUpdateEmails(rows: seq<Row>, crawl: nat -> string, interrupts: set<nat>)
    returns (out: seq<Row>, pauses: seq<nat>, last: nat)
    ensures last == LastRow(rows, interrupts)
    ensures |out| == |rows|
    ensures |rows| > 0 ==> out[0] == rows[0]
    ensures forall i :: 1 <= i <= last ==> out[i] == Settle(rows[i], crawl(i))
    ensures forall i :: last < i < |rows| ==> out[i] == rows[i]
    ensures forall k :: 0 <= k < |pauses| ==> 1 <= pauses[k] <= last && PausesAfter(rows, pauses[k])
    ensures forall i :: 1 <= i <= last && PausesAfter(rows, i) ==> i in pauses
    ensures forall k, l :: 0 <= k < l < |pauses| ==> pauses[k] < pauses[l]
  {
    out := rows;
    pauses := [];
    last := LastRow(rows, interrupts);
    if |rows| <= 1 {
      return;
    }
    var i := 1;
    var stopped := false;
    while i < |rows| && !stopped
      invariant Position(rows, interrupts, last, i, stopped)
      invariant SettledBelow(rows, out, crawl, i)
      invariant PauseLog(rows, pauses, i)
      decreases |rows| - i
    {
      PositionStep(rows, interrupts, last, i);
      SettledStep(rows, out, crawl, i);
      PauseLogStep(rows, pauses, i);
      out := out[i := Settle(rows[i], crawl(i))];
      // an empty website goes straight on to the next row, without a pause
      if rows[i].website != "" && i < |rows| - 1 {
        pauses := pauses + [i];
        // an interrupted pause ends the loop
        stopped := i in interrupts;
      }
      i := i + 1;
    }
    RunOutcome(rows, out, pauses, crawl, last);
  }

  /** Where the loop stands: at row `i`, having stopped only just after the
      last row it settles, and otherwise not past it. */
  predicate Position(rows: seq<Row>, interrupts: set<nat>, last: nat, i: nat, stopped: bool) {
    && 2 <= |rows| && 1 <= i <= |rows|
    && last == LastSettled(rows, interrupts, 1)
    && (stopped ==> i == last + 1)
    && (!stopped ==> i <= last || (i == |rows| && last == |rows| - 1))
  }

  lemma PositionStep(rows: seq<Row>, interrupts: set<nat>, last: nat, i: nat)
    requires Position(rows, interrupts, last, i, false) && i < |rows|
    ensures Position(rows, interrupts, last, i + 1, PausesAfter(rows, i) && i in interrupts)
  {
  }

  /** The state the loop leaves, read as the run's outcome. */
  lemma RunOutcome(rows: seq<Row>, out: seq<Row>, pauses: seq<nat>, crawl: nat -> string, last: nat)
    requires SettledBelow(rows, out, crawl, last + 1) && PauseLog(rows, pauses, last + 1)
    ensures |out| == |rows|
    ensures |rows| > 0 ==> out[0] == rows[0]
    ensures forall i :: 1 <= i <= last && i < |rows| ==> out[i] == Settle(rows[i], crawl(i))
    ensures forall i :: last < i < |rows| ==> out[i] == rows[i]
    ensures forall k :: 0 <= k < |pauses| ==> 1 <= pauses[k] <= last && PausesAfter(rows, pauses[k])
    ensures forall i :: 1 <= i <= last && PausesAfter(rows, i) ==> i in pauses
    ensures forall k, l :: 0 <= k < l < |pauses| ==> pauses[k] < pauses[l]
  {
    assert PausesBelow(rows, pauses, last + 1);
    assert Increasing(pauses);
  }

  datatype Failure = FileNotFound(path: string) | NoData

  /** Where the result goes, the rows as settled and the text written. */
  datatype Outcome = Outcome(outputPath: string, rows: seq<Row>, text: string)

  /** `out` is what the run leaves of `rows` when row `i`'s page is `pages(i)`:
      the header as read, rows 1 .. `LastRow` settled from their crawls, and
      the rows after that as read. */
  predicate CrawledFrom(rows: seq<Row>, out: seq<Row>, pages: nat -> Page, interrupts: set<nat>) {
    var last := LastRow(rows, interrupts);
    && |out| == |rows| && (|rows| > 0 ==> out[0] == rows[0])
    && (forall i :: 1 <= i <= last && i < |rows| ==> out[i] == Settle(rows[i], CrawlWebsiteForEmail(rows[i].website, pages(i))))
    && (forall i :: last < i < |rows| ==> out[i] == rows[i])
  }

  /** `processCsvFile`: a missing file and a file without lines are refused
      before any crawling; otherwise the rows read from the lines are
      crawled and settled, and saved, with the parser's escaping, to the
      derived output path. The file's lines arrive already decoded. */
  method ProcessCsvFile(csvPath: string, exists_: bool, lines: seq<string>, pages: nat -> Page, interrupts: set<nat>)
    returns (r: Result<Outcome, Failure>)
    ensures !exists_ ==> r == Err(FileNotFound(csvPath))
    ensures exists_ && |lines| == 0 ==> r == Err(NoData)
    ensures exists_ && |lines| > 0 ==> r.Ok? && r.value.outputPath == Output.OutputPath(csvPath)
    ensures r.Ok? ==> CrawledFrom(CsvParser.ParseCsvFile(lines), r.value.rows, pages, interrupts)
    ensures r.Ok? ==> r.value.text == Output.SaveCsvData(r.value.rows, true)
    ensures r.Ok? ==> |r.value.text| >= 1 && r.value.text[0] == CsvParser.Bom
  {
    if !exists_ {
      return Err(FileNotFound(csvPath));
    }
    var rows := CsvParser.ParseCsvFile(lines);
    if |rows| == 0 {
      return Err(NoData);
    }
    var crawl := (i: nat) => if i < |rows| then CrawlWebsiteForEmail(rows[i].website, pages(i)) else "";
    var out, _, _ := CrawlAndUpdateEmails(rows, crawl, interrupts);
    var text := Output.SaveCsvData(out, true);
    return Ok(Outcome(Output.OutputPath(csvPath), out, text));
  }
}
