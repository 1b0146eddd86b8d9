/** `CsvRow`: one line of the table, with the cells as read and the fields the
    crawler fills in. The datatype is the value the rest of the model passes
    around; the class shows the defensive copying of the cell array. */
module Rows {

  datatype Row = Row(
    values: seq<string>,
    isHeader: bool,
    company: string,
    website: string,
    originalEmail: string,
    foundEmail: string,
    companyCol: int,
    websiteCol: int,
    emailCol: int)

  /** A freshly constructed row: the given cells and flag, empty text fields,
      every column index at -1. */
  function NewRow(values: seq<string>, isHeader: bool): (r: Row)
    ensures r.values == values && r.isHeader == isHeader
    ensures r.company == "" && r.website == "" && r.originalEmail == "" && r.foundEmail == ""
    ensures r.companyCol == -1 && r.websiteCol == -1 && r.emailCol == -1
  {
    Row(values, isHeader, "", "", "", "", -1, -1, -1)
  }

  /** The mutable row object. Its cells are held as a value, so the arrays
      passed in and handed out are never shared with the row. */
  class CsvRow {
    var values: seq<string>
    var isHeader: bool
    var company: string
    var website: string
    var originalEmail: string
    var foundEmail: string
    var companyCol: int
    var websiteCol: int
    var emailCol: int

    function State(): Row
      reads this
    {
      Row(values, isHeader, company, website, originalEmail, foundEmail, companyCol, websiteCol, emailCol)
    }

    constructor (cells: array<string>, header: bool)
      ensures State() == NewRow(cells[..], header)
    {
      values := cells[..];
      isHeader := header;
      company, website, originalEmail, foundEmail := "", "", "", "";
      companyCol, websiteCol, emailCol := -1, -1, -1;
    }

    /** `getValues`: a fresh array holding the cells. */
    method GetValues() returns (a: array<string>)
      ensures fresh(a) && a[..] == values
    {
      a := new string[|values|](i requires 0 <= i < |values| reads this => values[i]);
    }

    /** `setValues`: stores a copy of the given cells and nothing else changes. */
    method SetValues(cells: array<string>)
      modifies this
      ensures State() == old(State()).(values := cells[..])
    {
      values := cells[..];
    }

    method SetHeader(header: bool)
      modifies this
      ensures State() == old(State()).(isHeader := header)
    {
      isHeader := header;
    }

    method SetCompany(s: string)
      modifies this
      ensures State() == old(State()).(company := s)
    {
      company := s;
    }

    method SetWebsite(s: string)
      modifies this
      ensures State() == old(State()).(website := s)
    {
      website := s;
    }

    method SetOriginalEmail(s: string)
      modifies this
      ensures State() == old(State()).(originalEmail := s)
    {
      originalEmail := s;
    }

    method SetFoundEmail(s: string)
      modifies this
      ensures State() == old(State()).(foundEmail := s)
    {
      foundEmail := s;
    }

    method SetCompanyCol(i: int)
      modifies this
      ensures State() == old(State()).(companyCol := i)
    {
      companyCol := i;
    }

    method SetWebsiteCol(i: int)
      modifies this
      ensures State() == old(State()).(websiteCol := i)
    {
      websiteCol := i;
    }

    method SetEmailCol(i: int)
      modifies this
      ensures State() == old(State()).(emailCol := i)
    {
      emailCol := i;
    }
  }

  /** A caller builds a row from an array, then overwrites the first cell both
      of its own array and of the array `getValues` handed out: the row still
      holds the original cells and still reports the flag it was built with. */
  method DefensiveCopy(cells: seq<string>, replacement: string, header: bool)
    returns (kept: seq<string>, callerCells: seq<string>, flag: bool)
    requires |cells| > 0
    ensures kept == cells
    ensures callerCells == [replacement] + cells[1..]
    ensures flag == header
  {
    var a := new string[|cells|](i requires 0 <= i < |cells| => cells[i]);
    var row := new CsvRow(a, header);
    a[0] := replacement;
    var handedOut := row.GetValues();
    handedOut[0] := replacement;
    var again := row.GetValues();
    kept := again[..];
    callerCells := a[..];
    flag := row.isHeader;
  }
}
