/** `CsvParser`: the line codec (quote-aware splitting and field escaping, in
    the manner of section 2 of RFC 4180 but with every parsed field trimmed)
    and the reading of a table's lines into rows. */
module CsvParser {
  import opened Wrappers
  import opened Strings
  import opened Rows

  /* ---------------------------------------------------------- line codec */

  /** The parser's state machine. `s` is the unread rest of the line,
      `inQuotes` the quote state and `field` the characters collected for the
      current field. Yields the current field and every later one, trimmed.
      A `""` pair inside quotes stands for one quote; any other quote only
      toggles the state; a comma outside quotes ends the field. */
  function Scan(s: string, inQuotes: bool, field: string): (r: seq<string>)
    ensures |r| >= 1
    decreases |s|
  {
    if |s| == 0 then [Trim(field)]
    else
      var c := s[0];
      if c == '"' then
        if inQuotes && |s| > 1 && s[1] == '"' then Scan(s[2..], true, field + ['"'])
        else Scan(s[1..], !inQuotes, field)
      else if c == ',' && !inQuotes then [Trim(field)] + Scan(s[1..], false, "")
      else Scan(s[1..], inQuotes, field + [c])
  }

  /** `CsvParser.parseCsvLine`: no fields for a null or blank line. */
  function ParseCsvLine(line: Option<string>): (r: seq<string>)
    ensures r == [] <==> line.None? || IsBlank(line.value)
  {
    if line.None? || |Trim(line.value)| == 0 then [] else Scan(line.value, false, "")
  }

  /** How many commas the scanner treats as separators: those met outside quotes. */
  function CommasOutsideQuotes(s: string, inQuotes: bool): nat
    decreases |s|
  {
    if |s| == 0 then 0
    else if s[0] == '"' then
      if inQuotes && |s| > 1 && s[1] == '"' then CommasOutsideQuotes(s[2..], true)
      else CommasOutsideQuotes(s[1..], !inQuotes)
    else if s[0] == ',' && !inQuotes then 1 + CommasOutsideQuotes(s[1..], false)
    else CommasOutsideQuotes(s[1..], inQuotes)
  }

  lemma {:induction false} ScanFieldCount(s: string, inQuotes: bool, field: string)
    ensures |Scan(s, inQuotes, field)| == 1 + CommasOutsideQuotes(s, inQuotes)
    decreases |s|
  {
    if |s| > 0 {
      if s[0] == '"' {
        if inQuotes && |s| > 1 && s[1] == '"' {
          ScanFieldCount(s[2..], true, field + ['"']);
        } else {
          ScanFieldCount(s[1..], !inQuotes, field);
        }
      } else if s[0] == ',' && !inQuotes {
        ScanFieldCount(s[1..], false, "");
      } else {
        ScanFieldCount(s[1..], inQuotes, field + [s[0]]);
      }
    }
  }

  /** A non-blank line has one field more than it has separating commas; the
      last field is always emitted. */
  lemma FieldCount(line: string)
    requires !IsBlank(line)
    ensures |ParseCsvLine(Some(line))| == 1 + CommasOutsideQuotes(line, false)
  {
    ScanFieldCount(line, false, "");
  }

  /** No field starts or ends with a character `trim` removes. */
  predicate AllTrimmed(fields: seq<string>) {
    forall k :: 0 <= k < |fields| ==> TrimmedEnds(fields[k])
  }

  predicate TrimmedEnds(f: string) {
    |f| > 0 ==> !IsTrimmable(f[0]) && !IsTrimmable(f[|f| - 1])
  }

  lemma TrimmedCons(f: string, rest: seq<string>)
    requires TrimmedEnds(f) && AllTrimmed(rest)
    ensures AllTrimmed([f] + rest)
  {
    var r := [f] + rest;
    forall k | 1 <= k < |r| ensures TrimmedEnds(r[k]) {
      assert r[k] == rest[k - 1];
    }
  }

  /** Every field the scanner emits is already trimmed, whatever quotes,
      doubled quotes and commas the line holds. */
  lemma {:induction false} ScanTrimmed(s: string, inQuotes: bool, field: string)
    ensures AllTrimmed(Scan(s, inQuotes, field))
    decreases |s|
  {
    if |s| == 0 {
      assert TrimmedEnds(Trim(field));
    } else if s[0] == '"' {
      if inQuotes && |s| > 1 && s[1] == '"' {
        ScanTrimmed(s[2..], true, field + ['"']);
      } else {
        ScanTrimmed(s[1..], !inQuotes, field);
      }
    } else if s[0] == ',' && !inQuotes {
      ScanTrimmed(s[1..], false, "");
      assert TrimmedEnds(Trim(field));
      TrimmedCons(Trim(field), Scan(s[1..], false, ""));
    } else {
      ScanTrimmed(s[1..], inQuotes, field + [s[0]]);
    }
  }

  /** `parseCsvLine` trims every field it returns, for any line. */
  lemma ParsedFieldsTrimmed(line: Option<string>)
    ensures forall k :: 0 <= k < |ParseCsvLine(line)| ==> Trim(ParseCsvLine(line)[k]) == ParseCsvLine(line)[k]
  {
    var r := ParseCsvLine(line);
    if line.Some? {
      ScanTrimmed(line.value, false, "");
    }
    forall k | 0 <= k < |r| ensures Trim(r[k]) == r[k] {
      TrimOfUntrimmedEnds(r[k]);
    }
  }

  function TrimAll(fields: seq<string>): (r: seq<string>)
    ensures |r| == |fields|
    ensures forall i :: 0 <= i < |fields| ==> r[i] == Trim(fields[i])
  {
    MapSeq(fields, Trim)
  }

  /** `f` applied to every element. */
  function MapSeq<T, U>(xs: seq<T>, f: T -> U): (r: seq<U>)
    ensures |r| == |xs|
    ensures forall i :: 0 <= i < |xs| ==> r[i] == f(xs[i])
  {
    seq(|xs|, i requires 0 <= i < |xs| => f(xs[i]))
  }

  lemma MapSeqCons<T, U>(xs: seq<T>, f: T -> U)
    requires |xs| >= 1
    ensures MapSeq(xs, f) == [f(xs[0])] + MapSeq(xs[1..], f)
  {
    var r := [f(xs[0])] + MapSeq(xs[1..], f);
    forall i | 0 <= i < |xs| ensures MapSeq(xs, f)[i] == r[i] {
      if i > 0 {
        assert r[i] == MapSeq(xs[1..], f)[i - 1];
        assert xs[1..][i - 1] == xs[i];
      }
    }
  }

  lemma {:induction false} ScanQuoteFree(s: string, field: string)
    requires '"' !in s && '"' !in field && ',' !in field
    ensures Scan(s, false, field) == TrimAll(Split(field + s, ','))
    decreases |s|
  {
    if |s| == 0 {
      assert field + s == field;
      SplitNoSeparator(field, ',');
    } else {
      var c := s[0];
      var rest := s[1..];
      NotInTail(s, '"');
      assert s == [c] + rest;
      if c == ',' {
        ScanQuoteFree(rest, "");
        assert "" + rest == rest;
        ScanQuoteFreeSeparator(field, s);
      } else {
        ScanQuoteFree(rest, field + [c]);
        ScanPlainStep(s, field);
        assert (field + [c]) + rest == field + s;
      }
    }
  }

  lemma NotInTail(s: string, x: char)
    requires |s| > 0 && x !in s
    ensures x !in s[1..]
  {
    forall k | 0 <= k < |s| - 1 ensures s[1..][k] != x {
      assert s[1..][k] == s[k + 1];
    }
  }

  /** An ordinary character outside quotes joins the current field. */
  lemma ScanPlainStep(s: string, field: string)
    requires |s| > 0 && s[0] != '"' && s[0] != ','
    ensures Scan(s, false, field) == Scan(s[1..], false, field + [s[0]])
  {
  }

  /** The separator step of the quote-free reading. */
  lemma ScanQuoteFreeSeparator(field: string, s: string)
    requires ',' !in field && |s| > 0 && s[0] == ','
    requires Scan(s[1..], false, "") == TrimAll(Split(s[1..], ','))
    ensures Scan(s, false, field) == TrimAll(Split(field + s, ','))
  {
    var parts := Split(s[1..], ',');
    ScanSeparatorStep(s, field);
    SplitAtSeparator(field, s);
    TrimAllCons([field] + parts);
    assert ([field] + parts)[1..] == parts;
  }

  /** A comma outside quotes closes the current field. */
  lemma ScanSeparatorStep(s: string, field: string)
    requires |s| > 0 && s[0] == ','
    ensures Scan(s, false, field) == [Trim(field)] + Scan(s[1..], false, "")
  {
  }

  lemma SplitAtSeparator(field: string, s: string)
    requires ',' !in field && |s| > 0 && s[0] == ','
    ensures Split(field + s, ',') == [field] + Split(s[1..], ',')
  {
    assert field + s == field + [','] + s[1..];
    SplitAppend(field, s[1..], ',');
  }

  /** Reference reading of a line without quote characters: split at every
      comma and trim each piece. */
  lemma ParseQuoteFreeLine(line: string)
    requires '"' !in line && !IsBlank(line)
    ensures ParseCsvLine(Some(line)) == TrimAll(Split(line, ','))
    ensures |ParseCsvLine(Some(line))| == CountChar(line, ',') + 1
  {
    ScanQuoteFree(line, "");
    assert "" + line == line;
    SplitCount(line, ',');
  }

  lemma ScanOpeningQuote(x: string, field: string)
    ensures Scan("\"" + x, false, field) == Scan(x, true, field)
  {
    assert ("\"" + x)[1..] == x;
  }

  /** Quotes that are not doubled only toggle the state: `a"b,c"d` is one field `ab,cd`. */
  lemma QuotesToggleExample(line: string)
    requires line == "a\"b,c\"d"
    ensures ParseCsvLine(Some(line)) == ["ab,cd"]
  {
    assert !IsTrimmable(line[0]);
    assert line == "a" + ("\"" + (DoubleQuotes("b,c") + "\"" + "d")) by {
      DoubleQuotesNoQuote("b,c");
    }
    ScanPlain("a", "\"" + (DoubleQuotes("b,c") + "\"" + "d"), "");
    ScanOpeningQuote(DoubleQuotes("b,c") + "\"" + "d", "a");
    ScanQuoted("b,c", "d", "a");
    ToggleJoin("a", "b,c", "d");
    ScanPlain("d", "", "ab,c");
    TrimOfUntrimmedEnds("ab,cd");
  }

  lemma ToggleJoin(a: string, g: string, d: string)
    requires a == "a" && g == "b,c" && d == "d"
    ensures "" + a == a && a + g == "ab,c" && "ab,c" + d == "ab,cd" && d + "" == d
  {
  }

  /* ------------------------------------------------------------ escaping */

  /** Whether a field must be wrapped in quotes. The parser's version also
      quotes a carriage return; the multi-threaded services' copies do not. */
  predicate NeedsQuoting(f: string, quoteCr: bool) {
    ',' in f || '"' in f || '\n' in f || (quoteCr && '\r' in f)
  }

  /** `field.replace("\"", "\"\"")`. */
  function DoubleQuotes(f: string): string {
    ReplaceAll(f, "\"", "\"\"")
  }

  lemma DoubleQuotesStep(f: string)
    requires |f| > 0
    ensures DoubleQuotes(f) == (if f[0] == '"' then "\"\"" else [f[0]]) + DoubleQuotes(f[1..])
  {
    assert f[..1] == [f[0]];
  }

  function EscapeWith(f: string, quoteCr: bool): string {
    if NeedsQuoting(f, quoteCr) then "\"" + DoubleQuotes(f) + "\"" else f
  }

  /** `CsvParser.escapeCsvField`: null becomes the empty string; a field with a
      comma, quote, LF or CR is quote-wrapped with its quotes doubled; any
      other field is returned as it is. */
  function EscapeCsvField(field: Option<string>): (r: string)
    ensures field.None? ==> r == ""
    ensures field.Some? && !NeedsQuoting(field.value, true) ==> r == field.value
    ensures field.Some? && NeedsQuoting(field.value, true) ==>
              |r| >= 2 && r[0] == '"' && r[|r| - 1] == '"'
              && Scan(r, false, "") == [Trim(field.value)]
  {
    match field
    case None => ""
    case Some(f) =>
      if NeedsQuoting(f, true) then
        ScanEscaped(f, "", "", true);
        assert EscapeWith(f, true) + "" == EscapeWith(f, true);
        assert "" + f == f;
        EscapeWith(f, true)
      else f
  }

  lemma ScanDoubledQuote(x: string, field: string)
    ensures Scan("\"\"" + x, true, field) == Scan(x, true, field + ['"'])
  {
    assert ("\"\"" + x)[2..] == x;
  }

  lemma ScanOrdinaryChar(c: char, x: string, inQuotes: bool, field: string)
    requires c != '"' && (c != ',' || inQuotes)
    ensures Scan([c] + x, inQuotes, field) == Scan(x, inQuotes, field + [c])
  {
    assert ([c] + x)[1..] == x;
  }

  lemma ScanClosingQuote(rest: string, field: string)
    requires |rest| == 0 || rest[0] != '"'
    ensures Scan("\"" + rest, true, field) == Scan(rest, false, field)
  {
    assert ("\"" + rest)[1..] == rest;
  }

  /** Inside quotes the doubled text reads back as the original, and the
      closing quote returns the scanner to the unquoted state. */
  lemma {:induction false} ScanQuoted(g: string, rest: string, field: string)
    requires |rest| == 0 || rest[0] != '"'
    ensures Scan(DoubleQuotes(g) + "\"" + rest, true, field) == Scan(rest, false, field + g)
    decreases |g|
  {
    if |g| == 0 {
      ScanQuotedEmpty(g, rest, field);
    } else {
      ScanQuoted(g[1..], rest, field + [g[0]]);
      ScanQuotedStep(g, rest, field);
    }
  }

  lemma ScanQuotedEmpty(g: string, rest: string, field: string)
    requires |g| == 0
    requires |rest| == 0 || rest[0] != '"'
    ensures Scan(DoubleQuotes(g) + "\"" + rest, true, field) == Scan(rest, false, field + g)
  {
    assert DoubleQuotes(g) + "\"" + rest == "\"" + rest;
    ScanClosingQuote(rest, field);
    assert field + g == field;
  }

  lemma ScanQuotedStep(g: string, rest: string, field: string)
    requires |g| > 0
    requires Scan(DoubleQuotes(g[1..]) + "\"" + rest, true, field + [g[0]])
             == Scan(rest, false, field + [g[0]] + g[1..])
    ensures Scan(DoubleQuotes(g) + "\"" + rest, true, field) == Scan(rest, false, field + g)
  {
    ScanQuotedHead(g, DoubleQuotes(g[1..]) + "\"" + rest, rest, field);
    AppendHeadTail(field, g);
  }

  lemma AppendHeadTail(field: string, g: string)
    requires |g| > 0
    ensures field + [g[0]] + g[1..] == field + g
  {
  }

  lemma ScanQuotedHead(g: string, t: string, rest: string, field: string)
    requires |g| > 0 && t == DoubleQuotes(g[1..]) + "\"" + rest
    ensures Scan(DoubleQuotes(g) + "\"" + rest, true, field) == Scan(t, true, field + [g[0]])
  {
    DoubleQuotesStep(g);
    if g[0] == '"' {
      assert DoubleQuotes(g) + "\"" + rest == "\"\"" + t;
      ScanDoubledQuote(t, field);
    } else {
      assert DoubleQuotes(g) + "\"" + rest == [g[0]] + t;
      ScanOrdinaryChar(g[0], t, true, field);
    }
  }

  lemma {:induction false} ScanPlain(f: string, rest: string, field: string)
    requires ',' !in f && '"' !in f
    ensures Scan(f + rest, false, field) == Scan(rest, false, field + f)
    decreases |f|
  {
    if |f| == 0 {
      assert f + rest == rest;
      assert field + f == field;
    } else {
      PlainHead(f, rest);
      ScanPlainStep(f + rest, field);
      NotInTail(f, ',');
      NotInTail(f, '"');
      ScanPlain(f[1..], rest, field + [f[0]]);
      AppendHeadTail(field, f);
    }
  }

  lemma PlainHead(f: string, rest: string)
    requires |f| > 0 && ',' !in f && '"' !in f
    ensures (f + rest)[0] == f[0] != ',' && f[0] != '"'
    ensures (f + rest)[1..] == f[1..] + rest
  {
  }

  /** An escaped field, followed by the end of the line or a separator, reads
      back as the field itself. */
  lemma ScanEscaped(f: string, rest: string, field: string, quoteCr: bool)
    requires |rest| == 0 || rest[0] == ','
    ensures Scan(EscapeWith(f, quoteCr) + rest, false, field) == Scan(rest, false, field + f)
  {
    if NeedsQuoting(f, quoteCr) {
      var s := EscapeWith(f, quoteCr) + rest;
      assert s == "\"" + (DoubleQuotes(f) + "\"" + rest);
      assert s[1..] == DoubleQuotes(f) + "\"" + rest;
      ScanQuoted(f, rest, field);
    } else {
      ScanPlain(f, rest, field);
    }
  }

  function EscapeAll(fields: seq<string>, quoteCr: bool): (r: seq<string>)
    ensures |r| == |fields|
    ensures forall i :: 0 <= i < |fields| ==> r[i] == EscapeWith(fields[i], quoteCr)
  {
    seq(|fields|, i requires 0 <= i < |fields| => EscapeWith(fields[i], quoteCr))
  }

  lemma {:induction false} ScanEscapedFields(fields: seq<string>, quoteCr: bool)
    requires |fields| >= 1
    ensures Scan(Join(EscapeAll(fields, quoteCr), ","), false, "") == TrimAll(fields)
    decreases |fields|
  {
    if |fields| == 1 {
      ScanEscapedSingle(fields, quoteCr);
    } else {
      ScanEscapedFields(fields[1..], quoteCr);
      ScanEscapedCons(fields, quoteCr);
    }
  }

  lemma ScanEscapedSingle(fields: seq<string>, quoteCr: bool)
    requires |fields| == 1
    ensures Scan(Join(EscapeAll(fields, quoteCr), ","), false, "") == TrimAll(fields)
  {
    var e := EscapeAll(fields, quoteCr);
    ScanEscaped(fields[0], "", "", quoteCr);
    assert Join(e, ",") == e[0] + "";
    assert "" + fields[0] == fields[0];
  }

  lemma ScanSeparator(tail: string, field: string)
    ensures Scan("," + tail, false, field) == [Trim(field)] + Scan(tail, false, "")
  {
    assert ("," + tail)[1..] == tail;
  }

  lemma JoinCons(e: seq<string>, sep: string)
    requires |e| >= 2
    ensures Join(e, sep) == e[0] + (sep + Join(e[1..], sep))
  {
  }

  lemma ScanEscapedCons(fields: seq<string>, quoteCr: bool)
    requires |fields| >= 2
    requires Scan(Join(EscapeAll(fields[1..], quoteCr), ","), false, "") == TrimAll(fields[1..])
    ensures Scan(Join(EscapeAll(fields, quoteCr), ","), false, "") == TrimAll(fields)
  {
    var e := EscapeAll(fields, quoteCr);
    var tail := Join(EscapeAll(fields[1..], quoteCr), ",");
    EscapedJoinCons(fields, quoteCr);
    ScanEscaped(fields[0], "," + tail, "", quoteCr);
    EmptyPrefix(fields[0]);
    ScanSeparator(tail, fields[0]);
    TrimAllCons(fields);
  }

  lemma EscapedJoinCons(fields: seq<string>, quoteCr: bool)
    requires |fields| >= 2
    ensures Join(EscapeAll(fields, quoteCr), ",")
            == EscapeWith(fields[0], quoteCr) + ("," + Join(EscapeAll(fields[1..], quoteCr), ","))
  {
    var e := EscapeAll(fields, quoteCr);
    assert e[1..] == EscapeAll(fields[1..], quoteCr);
    JoinCons(e, ",");
  }

  lemma EmptyPrefix(x: string)
    ensures "" + x == x
  {
  }

  lemma TrimAllCons(fields: seq<string>)
    requires |fields| >= 1
    ensures TrimAll(fields) == [Trim(fields[0])] + TrimAll(fields[1..])
  {
    MapSeqCons(fields, Trim);
  }

  /** Round trip of a whole line: escaping every field, joining with commas
      and parsing gives back the trimmed fields, whichever escaping variant
      wrote the line. */
  lemma ParseEscapedLine(fields: seq<string>, quoteCr: bool)
    requires |fields| >= 1
    requires !IsBlank(Join(EscapeAll(fields, quoteCr), ","))
    ensures ParseCsvLine(Some(Join(EscapeAll(fields, quoteCr), ","))) == TrimAll(fields)
  {
    ScanEscapedFields(fields, quoteCr);
  }

  /** Round trip of one field that is not blank. */
  lemma ParseEscapedField(f: string)
    requires !IsBlank(f)
    ensures ParseCsvLine(Some(EscapeCsvField(Some(f)))) == [Trim(f)]
  {
    var e := EscapeCsvField(Some(f));
    if !NeedsQuoting(f, true) {
      ScanPlain(f, "", "");
      assert f + "" == f;
      assert "" + f == f;
    } else {
      assert !IsTrimmable(e[0]);
    }
  }

  /** A field without quotes is not changed by the doubling. */
  lemma DoubleQuotesNoQuote(g: string)
    requires '"' !in g
    ensures DoubleQuotes(g) == g
  {
    ReplaceAllSkipsPrefix(g, "", "\"", "\"\"");
    ReplaceAllShort("", "\"", "\"\"");
    assert g + "" == g;
  }

  /** A field holding a comma and a quote is wrapped, its quote doubled, and
      it reads back unchanged. */
  lemma EscapeQuoteExample(f: string)
    requires f == "a,\"b"
    ensures EscapeCsvField(Some(f)) == "\"a,\"\"b\""
    ensures ParseCsvLine(Some(EscapeCsvField(Some(f)))) == [f]
  {
    EscapeQuoteText(f);
    assert !IsTrimmable(f[0]);
    ParseEscapedField(f);
    TrimOfUntrimmedEnds(f);
  }

  lemma EscapeQuoteText(f: string)
    requires f == "a,\"b"
    ensures EscapeCsvField(Some(f)) == "\"a,\"\"b\""
  {
    assert NeedsQuoting(f, true) by { assert f[1] == ','; }
    DoubleQuotesExample(f);
  }

  lemma DoubleQuotesExample(f: string)
    requires f == "a,\"b"
    ensures DoubleQuotes(f) == "a,\"\"b"
  {
    DoubleQuotesStep(f);
    DoubleQuotesStep(f[1..]);
    DoubleQuotesStep(f[2..]);
    DoubleQuotesNoQuote(f[3..]);
    assert f[1..][1..] == f[2..] && f[2..][1..] == f[3..] && f[3..] == "b";
  }

  /* ------------------------------------------------------- header roles */

  datatype Role = CompanyRole | WebsiteRole | EmailRole | NoRole

  /** Column indices of the three roles; -1 when the header has no such column. */
  datatype Roles = Roles(company: int, website: int, email: int)

  const NoRoles := Roles(-1, -1, -1)

  const Hoesa: string := "\U{D68C}\U{C0AC}"                  // "company"
  const Eopche: string := "\U{C5C5}\U{CCB4}"                 // "business"
  const Hompage: string := "\U{D648}\U{D398}\U{C774}\U{C9C0}"  // "home page"
  const Saiteu: string := "\U{C0AC}\U{C774}\U{D2B8}"         // "site"
  const Imeil: string := "\U{C774}\U{BA54}\U{C77C}"          // "e-mail"
  const Meil: string := "\U{BA54}\U{C77C}"                   // "mail"

  /** The role a header cell names, tested on its lower-cased, trimmed text in
      the order company, website, email: the first family that matches wins. */
  function RoleOf(cell: string): Role {
    var col := Normalize(cell);
    if Contains(col, "company") || Contains(col, Hoesa) || Contains(col, Eopche) then CompanyRole
    else if Contains(col, "website") || Contains(col, Hompage) || Contains(col, "url") || Contains(col, Saiteu) then WebsiteRole
    else if Contains(col, "email") || Contains(col, Imeil) || Contains(col, Meil) then EmailRole
    else NoRole
  }

  function RolesOf(cells: seq<string>): (r: seq<Role>)
    ensures |r| == |cells|
    ensures forall i :: 0 <= i < |cells| ==> r[i] == RoleOf(cells[i])
  {
    seq(|cells|, i requires 0 <= i < |cells| => RoleOf(cells[i]))
  }

  /** `idx` is the last position of `roles` holding `role`, or -1 when none does. */
  predicate IsLastWithRole(roles: seq<Role>, role: Role, idx: int) {
    && -1 <= idx < |roles|
    && (idx >= 0 ==> roles[idx] == role)
    && forall j :: idx < j < |roles| && j >= 0 ==> roles[j] != role
  }

  /** The loop over the header cells: every role starts at -1 and each
      matching column overwrites it, so the last matching column wins. */
  function ScanHeader(roles: seq<Role>): (r: Roles)
    ensures IsLastWithRole(roles, CompanyRole, r.company)
    ensures IsLastWithRole(roles, WebsiteRole, r.website)
    ensures IsLastWithRole(roles, EmailRole, r.email)
    decreases |roles|
  {
    if |roles| == 0 then NoRoles
    else
      var i := |roles| - 1;
      var prev := ScanHeader(roles[..i]);
      match roles[i]
      case CompanyRole => prev.(company := i)
      case WebsiteRole => prev.(website := i)
      case EmailRole => prev.(email := i)
      case NoRole => prev
  }

  /** The column roles `parseCsvFile` reads off the header row. */
  function MapHeader(cells: seq<string>): (r: Roles)
    ensures IsLastWithRole(RolesOf(cells), CompanyRole, r.company)
    ensures IsLastWithRole(RolesOf(cells), WebsiteRole, r.website)
    ensures IsLastWithRole(RolesOf(cells), EmailRole, r.email)
  {
    ScanHeader(RolesOf(cells))
  }

  /** A cell naming two families takes the first: "company email" is the company column. */
  lemma CompanyBeforeEmail(cell: string)
    requires cell == "Company Email"
    ensures RoleOf(cell) == CompanyRole
  {
    CompanyEmailNormalizes(cell);
    CompanyEmailContains(Normalize(cell));
    CompanyFirst(cell);
  }

  lemma CompanyFirst(cell: string)
    requires Contains(Normalize(cell), "company")
    ensures RoleOf(cell) == CompanyRole
  {
  }

  lemma CompanyEmailContains(col: string)
    requires col == "company email"
    ensures Contains(col, "company")
  {
    assert OccursAt(col, "company", 0);
  }

  lemma CompanyEmailNormalizes(cell: string)
    requires cell == "Company Email"
    ensures Normalize(cell) == "company email"
  {
    assert Lower(cell) == "company email";
    TrimOfUntrimmedEnds("company email");
  }

  /* ------------------------------------------------------------- reading */

  const Bom: char := '\U{FEFF}'

  function StripBom(line: string): (r: string)
    ensures |line| > 0 && line[0] == Bom ==> r == line[1..]
    ensures !(|line| > 0 && line[0] == Bom) ==> r == line
  {
    if |line| > 0 && line[0] == Bom then line[1..] else line
  }

  /** The trimmed cell at `col`, or "" when `col` is not a column of the row. */
  function CellAt(values: seq<string>, col: int): (r: string)
    ensures 0 <= col < |values| ==> r == Trim(values[col])
    ensures !(0 <= col < |values|) ==> r == ""
  {
    if 0 <= col < |values| then Trim(values[col]) else ""
  }

  /** A data row as `parseCsvFile` builds it from its cells and the header's
      roles: each of the three fields is the trimmed cell in its role's column. */
  function DataRow(values: seq<string>, roles: Roles): (r: Row)
    ensures !r.isHeader && r.values == values && r.foundEmail == ""
    ensures r.companyCol == roles.company && r.websiteCol == roles.website && r.emailCol == roles.email
    ensures r.company == CellAt(values, roles.company)
    ensures r.website == CellAt(values, roles.website)
    ensures r.originalEmail == CellAt(values, roles.email)
  {
    NewRow(values, false).(
      company := CellAt(values, roles.company),
      website := CellAt(values, roles.website),
      originalEmail := CellAt(values, roles.email),
      companyCol := roles.company,
      websiteCol := roles.website,
      emailCol := roles.email)
  }

  function ParseLine(line: string): seq<string> {
    ParseCsvLine(Some(StripBom(line)))
  }

  /** The data rows below the header, all read with the header's roles. */
  function DataRows(lines: seq<string>, roles: Roles): (rows: seq<Row>)
    ensures |rows| == |lines|
    ensures forall i :: 0 <= i < |lines| ==> rows[i] == DataRow(ParseLine(lines[i]), roles)
  {
    seq(|lines|, i requires 0 <= i < |lines| => DataRow(ParseLine(lines[i]), roles))
  }

  /** `CsvParser.parseCsvFile` after the file has been read into lines: one
      row per line, the first the header, every later one a data row whose
      column indices are the header's last company, website and email columns. */
  function ParseCsvFile(lines: seq<string>): (rows: seq<Row>)
    ensures |rows| == |lines|
    ensures |lines| > 0 ==> rows[0] == NewRow(ParseLine(lines[0]), true)
    ensures |lines| > 0 ==> rows[1..] == DataRows(lines[1..], MapHeader(ParseLine(lines[0])))
  {
    if |lines| == 0 then []
    else [NewRow(ParseLine(lines[0]), true)] + DataRows(lines[1..], MapHeader(ParseLine(lines[0])))
  }

  /** Every data row takes its email from the header's last email column, and
      from no column when the header names none. */
  lemma DataRowEmailColumn(lines: seq<string>, i: nat)
    requires 1 <= i < |lines|
    ensures IsLastWithRole(RolesOf(ParseLine(lines[0])), EmailRole, ParseCsvFile(lines)[i].emailCol)
    ensures ParseCsvFile(lines)[i].originalEmail == CellAt(ParseLine(lines[i]), ParseCsvFile(lines)[i].emailCol)
    ensures ParseCsvFile(lines)[i].emailCol == -1 ==> ParseCsvFile(lines)[i].originalEmail == ""
  {
    var rows := ParseCsvFile(lines);
    assert rows[i] == rows[1..][i - 1];
  }
}
