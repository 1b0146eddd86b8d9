/** `saveCsvData` and `generateOutputPath` of the three processing services,
    with the file writing replaced by the text that would be written. */
module Output {
  import opened Wrappers
  import opened Strings
  import opened Rows
  import opened CsvParser

  /* ------------------------------------------------------ merged cells */

  /** The cells written for a data row: the email column takes the found
      email when it is a column of the row; every other cell is kept. */
  function UpdatedValues(row: Row): (r: seq<string>)
    ensures |r| == |row.values|
    ensures forall i :: 0 <= i < |r| && i != row.emailCol ==> r[i] == row.values[i]
    ensures 0 <= row.emailCol < |r| ==> r[row.emailCol] == row.foundEmail
  {
    if 0 <= row.emailCol < |row.values| then row.values[row.emailCol := row.foundEmail] else row.values
  }

  /** One written line, without its terminator: the header's cells joined
      by commas as they are, a data row's merged cells each escaped. The
      parser's escaping also quotes a carriage return (`quoteCr`); the copies
      in the multi-threaded services do not. */
  function RowLine(row: Row, quoteCr: bool): (r: string)
    ensures NoLineFeed(row) ==> '\n' !in r
  {
    if row.isHeader then
      assert NoLineFeed(row) ==> '\n' !in Join(row.values, ",") by {
        if NoLineFeed(row) {
          JoinAvoids(row.values, ",", '\n');
        }
      }
      Join(row.values, ",")
    else
      var e := EscapeAll(UpdatedValues(row), quoteCr);
      assert NoLineFeed(row) ==> '\n' !in Join(e, ",") by {
        if NoLineFeed(row) {
          EscapedAvoidLineFeed(UpdatedValues(row), quoteCr);
          JoinAvoids(e, ",", '\n');
        }
      }
      Join(e, ",")
  }

  lemma EscapedAvoidLineFeed(cells: seq<string>, quoteCr: bool)
    requires forall i :: 0 <= i < |cells| ==> '\n' !in cells[i]
    ensures forall i :: 0 <= i < |cells| ==> '\n' !in EscapeAll(cells, quoteCr)[i]
  {
    forall i | 0 <= i < |cells| ensures '\n' !in EscapeAll(cells, quoteCr)[i] {
      EscapeAvoidsLineFeed(cells[i], quoteCr);
    }
  }

  /** The two escapings differ only on a field whose sole reason for quoting
      is a carriage return: the parser's copy wraps it, the others leave it. */
  lemma EscapeVariants(f: string)
    ensures '\r' !in f ==> EscapeWith(f, false) == EscapeWith(f, true)
    ensures '\r' in f && ',' !in f && '"' !in f && '\n' !in f ==>
              EscapeWith(f, false) == f && EscapeWith(f, true) == "\"" + f + "\""
  {
    if '"' !in f {
      DoubleQuotesNoQuote(f);
    }
  }

  function Lines(rows: seq<Row>, quoteCr: bool): (r: seq<string>)
    ensures |r| == |rows|
    ensures forall i :: 0 <= i < |rows| ==> r[i] == RowLine(rows[i], quoteCr)
  {
    seq(|rows|, i requires 0 <= i < |rows| => RowLine(rows[i], quoteCr))
  }

  /** Every line followed by a line feed. */
  function Unlines(lines: seq<string>): string
    decreases |lines|
  {
    if |lines| == 0 then "" else lines[0] + "\n" + Unlines(lines[1..])
  }

  /** The file text: a byte-order mark, then one terminated line per row in
      list order. */
  function SaveCsvData(rows: seq<Row>, quoteCr: bool): (text: string)
    ensures |text| >= 1 && text[0] == Bom
  {
    [Bom] + Unlines(Lines(rows, quoteCr))
  }

  /* ------------------------------------------------------- reading back */

  predicate NoLineFeed(row: Row) {
    && (forall i :: 0 <= i < |row.values| ==> '\n' !in row.values[i])
    && '\n' !in row.foundEmail
  }

  lemma {:induction false} UnlinesSplit(lines: seq<string>)
    requires forall i :: 0 <= i < |lines| ==> '\n' !in lines[i]
    ensures Split(Unlines(lines), '\n') == lines + [""]
    decreases |lines|
  {
    if |lines| > 0 {
      UnlinesSplit(lines[1..]);
      SplitAppend(lines[0], Unlines(lines[1..]), '\n');
      assert lines[0] + "\n" + Unlines(lines[1..]) == lines[0] + ['\n'] + Unlines(lines[1..]);
      assert lines == [lines[0]] + lines[1..];
    }
  }

  lemma EscapeAvoidsLineFeed(f: string, quoteCr: bool)
    requires '\n' !in f
    ensures '\n' !in EscapeWith(f, quoteCr)
  {
    ReplaceAllAvoids(f, "\"", "\"\"", '\n');
  }

  /** Cutting the saved text after its mark at every line feed gives back the
      rows' lines in list order, then the empty piece after the last
      terminator, as long as no cell holds a line feed. */
  lemma SavedLines(rows: seq<Row>, quoteCr: bool)
    requires forall i :: 0 <= i < |rows| ==> NoLineFeed(rows[i])
    ensures Split(SaveCsvData(rows, quoteCr)[1..], '\n') == Lines(rows, quoteCr) + [""]
  {
    var ls := Lines(rows, quoteCr);
    assert forall i :: 0 <= i < |ls| ==> '\n' !in ls[i];
    UnlinesSplit(ls);
    assert SaveCsvData(rows, quoteCr)[1..] == Unlines(ls);
  }

  /** A written data line parses back to the merged cells, trimmed: what the
      file says in each column is what the row held, with the found email in
      the email column. */
  lemma DataLineReadsBack(row: Row, quoteCr: bool)
    requires !row.isHeader && |row.values| >= 1
    requires !IsBlank(RowLine(row, quoteCr))
    ensures ParseCsvLine(Some(RowLine(row, quoteCr))) == TrimAll(UpdatedValues(row))
  {
    ParseEscapedLine(UpdatedValues(row), quoteCr);
  }

  /** A header line whose cells hold no comma and no quote parses back to its
      cells, trimmed. */
  lemma HeaderLineReadsBack(row: Row, quoteCr: bool)
    requires row.isHeader && |row.values| >= 1
    requires forall i :: 0 <= i < |row.values| ==> ',' !in row.values[i] && '"' !in row.values[i]
    requires !IsBlank(RowLine(row, quoteCr))
    ensures ParseCsvLine(Some(RowLine(row, quoteCr))) == TrimAll(row.values)
  {
    var line := RowLine(row, quoteCr);
    JoinAvoids(row.values, ",", '"');
    ParseQuoteFreeLine(line);
    SplitJoin(row.values, ',');
  }

  /** Writing a row through the row object, as the services do: the cells
      are fetched as a copy, the copy's email cell is overwritten, and the
      cells are escaped one by one. The row object itself is not changed. */
  method WriteRow(row: CsvRow, quoteCr: bool) returns (line: string)
    ensures line == RowLine(row.State(), quoteCr)
  {
    var v := row.GetValues();
    if row.isHeader {
      line := Join(v[..], ",");
      assert row.State().isHeader && row.State().values == v[..];
      return;
    }
    if 0 <= row.emailCol < v.Length {
      v[row.emailCol] := row.foundEmail;
    }
    assert v[..] == UpdatedValues(row.State());
    line := "";
    var j := 0;
    while j < v.Length
      invariant 0 <= j <= v.Length
      invariant v[..] == UpdatedValues(row.State())
      invariant line == Join(EscapeAll(v[..j], quoteCr), ",")
    {
      var e := EscapeAll(v[..j], quoteCr);
      assert EscapeAll(v[..j + 1], quoteCr) == e + [EscapeWith(v[j], quoteCr)];
      if j > 0 {
        JoinSnoc(e, EscapeWith(v[j], quoteCr), ",");
        line := line + ",";
      } else {
        assert e == [];
      }
      line := line + EscapeWith(v[j], quoteCr);
      j := j + 1;
    }
    assert v[..j] == v[..];
    assert !row.State().isHeader;
  }

  /* ---------------------------------------------------------- out paths */

  const CsvSuffix: string := ".csv"
  const UpdatedSuffix: string := "_updated.csv"

  /** `generateOutputPath` of the sequential service and of the second
      multi-threaded one: a `.csv` ending, in any letter case, is replaced by
      `_updated.csv`; any other path gets `_updated.csv` appended. */
  function OutputPath(path: string): (r: string)
    ensures EndsWith(r, UpdatedSuffix)
    ensures EndsWith(Lower(path), CsvSuffix) ==> r == path[..|path| - 4] + UpdatedSuffix
    ensures !EndsWith(Lower(path), CsvSuffix) ==> r == path + UpdatedSuffix
  {
    if EndsWith(Lower(path), CsvSuffix) then path[..|path| - 4] + UpdatedSuffix
    else path + UpdatedSuffix
  }

  /** Dropping `_updated.csv` from the output path gives the stem; putting
      back the original's `.csv` ending, in its original letter case, gives
      the original path. The ending has to be known: see `OutputPathMerges`. */
  lemma OutputPathInverse(path: string)
    ensures var r := OutputPath(path);
            var stem := r[..|r| - |UpdatedSuffix|];
            if EndsWith(Lower(path), CsvSuffix) then stem + path[|path| - 4..] == path else stem == path
  {
  }

  /** Two inputs share one output: a path without a `.csv` ending and the
      same path with `.csv` appended. */
  lemma OutputPathMerges(stem: string)
    requires !EndsWith(Lower(stem), CsvSuffix)
    ensures stem != stem + CsvSuffix
    ensures OutputPath(stem) == OutputPath(stem + CsvSuffix) == stem + UpdatedSuffix
  {
    var p := stem + CsvSuffix;
    assert Lower(p)[|p| - 4..] == CsvSuffix;
    assert p[..|p| - 4] == stem;
  }

  /** `generateOutputPath` of the first multi-threaded service: every
      occurrence of `.csv`, in lower case only, is replaced. */
  function OutputPathReplacing(path: string): string {
    ReplaceAll(path, CsvSuffix, UpdatedSuffix)
  }

  /** A path ending in `.csv` with no other dot gets the same name both ways. */
  lemma ReplacingAgreesOnPlainName(stem: string)
    requires '.' !in stem
    ensures OutputPathReplacing(stem + CsvSuffix) == stem + UpdatedSuffix == OutputPath(stem + CsvSuffix)
  {
    ReplaceAllSkipsPrefix(stem, CsvSuffix, CsvSuffix, UpdatedSuffix);
    ReplaceAllAtMatch(CsvSuffix, "", UpdatedSuffix);
    assert CsvSuffix + "" == CsvSuffix;
    ReplaceAllShort("", CsvSuffix, UpdatedSuffix);
    var p := stem + CsvSuffix;
    assert p[|p| - 4..] == CsvSuffix;
    assert Lower(p)[|p| - 4..] == CsvSuffix;
    assert p[..|p| - 4] == stem;
  }

  /** A path without a lower-case `.csv` anywhere is returned as it is, so it
      does not end in `_updated.csv`; the other services append the ending. */
  lemma ReplacingLeavesUpperCase(path: string)
    requires !Contains(path, CsvSuffix)
    ensures OutputPathReplacing(path) == path
    ensures !EndsWith(OutputPathReplacing(path), UpdatedSuffix)
  {
    ReplaceAllWithoutOccurrence(path, CsvSuffix, UpdatedSuffix);
    if EndsWith(path, UpdatedSuffix) {
      UpdatedEndsInCsv(UpdatedSuffix, CsvSuffix);
      EndingOccurs(path, UpdatedSuffix, CsvSuffix, 8);
    }
  }

  lemma UpdatedEndsInCsv(upd: string, csv: string)
    requires upd == UpdatedSuffix && csv == CsvSuffix
    ensures OccursAt(upd, csv, 8)
  {
    assert upd[8..12] == csv;
  }

  /** What occurs in an ending occurs in every string with that ending. */
  lemma EndingOccurs(s: string, suffix: string, sub: string, k: nat)
    requires EndsWith(s, suffix) && OccursAt(suffix, sub, k)
    ensures OccursAt(s, sub, |s| - |suffix| + k)
  {
    var d := |s| - |suffix|;
    assert s[d + k..d + k + |sub|] == suffix[k..k + |sub|];
  }

  /** `DATA.CSV`: the first multi-threaded service writes its output over
      the input name; the others write `DATA_updated.csv`. */
  lemma UpperCaseNameExample(path: string, out: string)
    requires path == "DATA.CSV" && out == "DATA_updated.csv"
    ensures OutputPathReplacing(path) == path
    ensures OutputPath(path) == out
  {
    UpperCaseNameFacts(path);
    ReplacingLeavesUpperCase(path);
    assert path[..4] + UpdatedSuffix == out;
  }

  lemma UpperCaseNameFacts(path: string)
    requires path == "DATA.CSV"
    ensures !Contains(path, CsvSuffix)
    ensures EndsWith(Lower(path), CsvSuffix)
  {
    assert Lower(path)[4..] == CsvSuffix;
    assert 'c' !in path;
    MissingCharNoOccurrence(path, CsvSuffix, 1);
  }

  /** A string that lacks one of `sub`'s characters does not contain `sub`. */
  lemma MissingCharNoOccurrence(s: string, sub: string, k: nat)
    requires k < |sub| && sub[k] !in s
    ensures !Contains(s, sub)
  {
  }
}
