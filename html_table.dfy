/** The hourly price table of the retail-energy HTML page, as both
    `psp_parse` in main.py and `parse` in psp_html.py read it. The page is
    stored by printing the downloaded bytes, so the whole file is one line in
    which every newline appears as the two characters `\` `n`. */
module HtmlTable {
  import opened Common
  import opened Text
  import opened Numerals
  import opened PriceTable

  const DateOpen: string := "<td id=\"Date\">"
  const HourOpen: string := "<td id=\"Hour\">"
  const PriceOpen: string := "<td id=\"Price\">"
  const CellClose: string := "</td>"
  const BodyOpen: string := "<tbody>"
  const BodyClose: string := "</tbody>"

  /** A newline as `print(bytes)` writes it: a backslash and an `n`. */
  const EscapedNewline: string := "\\n"

  /** The indentation of the page's table cells: 28 spaces. */
  const Indent: string := "                            "

  /** The two `replace` passes: escaped newlines become real ones, then a
      cell end followed by a newline and the indentation loses both, so that
      the cells of one table row come to stand on one line. */
  function JoinRows(body: string): string
  {
    Replace(Replace(body, EscapedNewline, "\n"), CellClose + "\n" + Indent, CellClose)
  }

  /** The lines of the table body that the parsing loop visits. */
  function Lines(body: string): seq<string>
  {
    Split(JoinRows(body), "\n")
  }

  /** What one line contributes, `offset` being subtracted from its hour:
      nothing without an Hour cell; otherwise the price is converted first
      (the right-hand side of `today[...] = ...` is evaluated before the
      key), so a missing Price cell raises AttributeError and text that is
      not a number raises ValueError, and only then the hour. */
  function LineEntry(line: string, offset: int): Outcome
  {
    CellsEntry(Search(line, HourOpen, CellClose), Search(line, PriceOpen, CellClose), offset)
  }

  /** The outcome of a line from the text of its Hour and Price cells. */
  function CellsEntry(hour: Option<string>, price: Option<string>, offset: int): Outcome
  {
    if hour.None? then Ok(None)
    else if price.None? then Err(AttributeError)
    else
      var p := ParseFloat(price.value);
      var h := ParseInt(hour.value);
      if p.None? || h.None? then Err(ValueError)
      else Ok(Some(Entry(h.value - offset, p.value)))
  }

  /** What each line of the table body does in the parsing loop. */
  function Outcomes(lines: seq<string>, offset: int): seq<Outcome>
  {
    seq(|lines|, i requires 0 <= i < |lines| => LineEntry(lines[i], offset))
  }

  /** The table of the first `<tbody>` block of the page, or the exception
      the parse raises: AttributeError when the page has no such block. */
  function PageTable(html: string, offset: int): Result<Table>
  {
    var body := Search(html, BodyOpen, BodyClose);
    if body.None? then Err(AttributeError) else Build(Outcomes(Lines(body.value), offset))
  }

  /** The loop over the lines of the table body. */
  method ParseLines(lines: seq<string>, offset: int) returns (r: Result<Table>)
    ensures r == Build(Outcomes(lines, offset))
    ensures r.Ok? ==> DistinctKeys(r.value)
  {
    ghost var outs := Outcomes(lines, offset);
    var today: Table := [];
    for i := 0 to |lines|
      invariant Build(outs[..i]) == Ok(today)
      invariant DistinctKeys(today)
    {
      var entry := LineEntry(lines[i], offset);
      assert outs[i] == entry;
      BuildStep(outs, i);
      if entry.Err? {
        BuildKeepsError(outs, i + 1);
        return Err(entry.error);
      }
      if entry.value.Some? {
        PutDistinct(today, entry.value.value.hour, entry.value.value.price);
        today := Put(today, entry.value.value.hour, entry.value.value.price);
      }
    }
    assert outs[..|lines|] == outs;
    return Ok(today);
  }

  /** Parsing the page: find the table body, join each row onto one line and
      fill the dict line by line. */
  method ParsePage(html: string, offset: int) returns (r: Result<Table>)
    ensures r == PageTable(html, offset)
    ensures r.Ok? ==> DistinctKeys(r.value)
  {
    var body := Search(html, BodyOpen, BodyClose);
    if body.None? {
      return Err(AttributeError);
    }
    r := ParseLines(Lines(body.value), offset);
  }

  /** A line in which no Hour cell opens (a `<tr>`, a `</tr>` or a blank line)
      adds nothing and raises nothing. */
  lemma LineWithoutHourCell(line: string, offset: int)
    requires !Contains(line, HourOpen)
    ensures LineEntry(line, offset) == Ok(None)
  {
    NotContains(line, HourOpen);
    SearchFails(line, HourOpen, CellClose);
  }

  /** The text of the first Date cell of the page. */
  function DateCell(html: string): Option<string>
  {
    Search(html, DateOpen, CellClose)
  }

  /** `int(cell.split('-')[2])`: the day of month of a `YYYY-MM-DD` date cell;
      IndexError with fewer than three fields, ValueError when the third is
      not a number. */
  function DayOfMonth(cell: string): Result<int>
  {
    var fields := Split(cell, "-");
    if |fields| < 3 then Err(IndexError)
    else
      var day := ParseInt(fields[2]);
      if day.None? then Err(ValueError) else Ok(day.value)
  }

  /** The day of month read back from a formatted date is that date's day. */
  lemma DayOfFormattedDate(d: Date)
    ensures DayOfMonth(FormatDate(d)) == Ok(d.day)
  {
    FormatDateFields(d);
  }

  /** A page whose first Date cell holds a formatted date yields that date. */
  lemma DateCellOfPage(a: string, d: Date, b: string)
    requires forall i :: 0 <= i < |a| ==> !OccursAt(a + DateOpen + FormatDate(d) + CellClose + b, DateOpen, i)
    ensures DateCell(a + DateOpen + FormatDate(d) + CellClose + b) == Some(FormatDate(d))
  {
    var g := FormatDate(d);
    assert g == Decimal(d.year) + ['-'] + Pad2(d.month) + ['-'] + Pad2(d.day);
    assert '<' !in g && '\n' !in g;
    NoMatchWithoutHead(g, CellClose + b, CellClose);
    SearchFinds(a, DateOpen, g, CellClose, b);
  }

  /** Text that may stand inside a cell of the page: no escape, tag or newline. */
  predicate Plain(s: string)
  {
    '\\' !in s && '<' !in s && '\n' !in s
  }

  /** The characters of the tags that the row lemmas rely on. */
  lemma HourTagChars()
    ensures HourOpen == ['<'] + HourOpen[1..] && HourOpen[1] == 't' && '<' !in HourOpen[1..]
  {
  }

  lemma EscapeChars()
    ensures '\\' !in HourOpen && '\\' !in PriceOpen && '\\' !in CellClose && '\\' !in Indent
  {
  }

  lemma LineBreakChars()
    ensures '\n' !in PriceOpen && '\n' !in CellClose
    ensures CellClose[1] == '/' && (CellClose + "\n" + Indent)[5] == '\n'
  {
  }

  /** A table row as the page stores it: the Hour cell, an escaped newline,
      the indentation, the Price cell. */
  function RowSource(hs: string, ps: string): string
  {
    HourOpen + hs + CellClose + EscapedNewline + Indent + PriceOpen + ps + CellClose
  }

  /** A table row after the two `replace` passes. */
  function RowLine(hs: string, ps: string): string
  {
    HourOpen + hs + CellClose + PriceOpen + ps + CellClose
  }

  /** The first pass turns the escaped newline between a row's cells into a
      real one. */
  lemma FirstPass(hs: string, ps: string)
    requires Plain(hs) && Plain(ps)
    ensures Replace(RowSource(hs, ps), EscapedNewline, "\n")
            == HourOpen + hs + CellClose + "\n" + Indent + PriceOpen + ps + CellClose
  {
    var a := HourOpen + hs + CellClose;
    var b := Indent + PriceOpen + ps + CellClose;
    EscapeChars();
    assert '\\' !in a && '\\' !in b;
    assert RowSource(hs, ps) == a + EscapedNewline + b;
    ReplaceOnce(a, EscapedNewline, b, "\n");
  }

  /** The second pass removes the newline and indentation after the Hour cell. */
  lemma SecondPass(hs: string, ps: string)
    requires Plain(hs) && Plain(ps)
    ensures Replace(HourOpen + hs + CellClose + "\n" + Indent + PriceOpen + ps + CellClose,
                    CellClose + "\n" + Indent, CellClose)
            == RowLine(hs, ps)
  {
    var pat := CellClose + "\n" + Indent;
    var a := HourOpen[1..] + hs;
    var b := PriceOpen + ps + CellClose;
    HourTagChars();
    LineBreakChars();
    SecondPassShape(hs, ps);
    assert a[0] == 't' && '<' !in a;
    ReplaceFirstAfter('<', a, pat, b, CellClose);
    assert '\n' !in b;
    ReplaceAbsentChar(b, pat, CellClose, 5);
  }

  lemma SecondPassShape(hs: string, ps: string)
    ensures HourOpen == ['<'] + HourOpen[1..] ==>
      HourOpen + hs + CellClose + "\n" + Indent + PriceOpen + ps + CellClose
        == ['<'] + (HourOpen[1..] + hs) + (CellClose + "\n" + Indent) + (PriceOpen + ps + CellClose)
      && ['<'] + (HourOpen[1..] + hs) + CellClose + (PriceOpen + ps + CellClose) == RowLine(hs, ps)
  {
  }

  /** The two `replace` passes bring the Hour and Price cells of a row, which
      the page writes on two lines, onto one line. */
  lemma RowJoinsOntoOneLine(hs: string, ps: string)
    requires Plain(hs) && Plain(ps)
    ensures JoinRows(RowSource(hs, ps)) == RowLine(hs, ps)
  {
    FirstPass(hs, ps);
    SecondPass(hs, ps);
  }

  lemma HourCellOfLine(hs: string, ps: string)
    requires '<' !in hs && '\n' !in hs
    ensures Search(RowLine(hs, ps), HourOpen, CellClose) == Some(hs)
  {
    var b := PriceOpen + ps + CellClose;
    assert RowLine(hs, ps) == [] + HourOpen + hs + CellClose + b;
    NoMatchWithoutHead(hs, CellClose + b, CellClose);
    SearchFinds([], HourOpen, hs, CellClose, b);
  }

  lemma PriceCellOfLine(hs: string, ps: string)
    requires '<' !in hs && '<' !in ps && '\n' !in ps
    ensures Search(RowLine(hs, ps), PriceOpen, CellClose) == Some(ps)
  {
    var a := HourOpen + hs + CellClose;
    var line := a + PriceOpen + ps + CellClose + [];
    assert RowLine(hs, ps) == line;
    var start := |HourOpen| + |hs|;
    forall i | 0 <= i < |a| ensures !OccursAt(line, PriceOpen, i) {
      if i == 0 {
        assert line[8] != PriceOpen[8];
      } else if i < |HourOpen| {
        assert line[i] == HourOpen[i];
      } else if i < start {
        assert line[i] == hs[i - |HourOpen|];
      } else if i == start {
        assert line[i + 1] != PriceOpen[1];
      } else {
        assert line[i] == CellClose[i - start];
      }
    }
    NoMatchWithoutHead(ps, CellClose + [], CellClose);
    SearchFinds(a, PriceOpen, ps, CellClose, []);
  }

  /** A joined row line yields the hour and price its cells hold. */
  lemma CellsLineEntry(hs: string, ps: string, offset: int)
    requires '<' !in hs && '\n' !in hs && '<' !in ps && '\n' !in ps
    ensures LineEntry(RowLine(hs, ps), offset) == CellsEntry(Some(hs), Some(ps), offset)
  {
    HourCellOfLine(hs, ps);
    PriceCellOfLine(hs, ps);
  }

  lemma NumeralChars(s: string)
    requires AllDigits(s)
    ensures '<' !in s && '\n' !in s
  {
  }

  lemma CellsOfNumbers(hs: string, ps: string, offset: int, h: int, v: real)
    requires ParseInt(hs) == Some(h) && ParseFloat(ps) == Some(v)
    ensures CellsEntry(Some(hs), Some(ps), offset) == Ok(Some(Entry(h - offset, v)))
  {
  }

  /** A row whose Hour cell holds `str(h)` and whose Price cell holds `ip.fp`
      stores that price under `h - offset`. */
  lemma RowLineEntry(h: nat, ip: string, fp: string, offset: int)
    requires ip != [] && AllDigits(ip) && AllDigits(fp)
    ensures LineEntry(RowLine(Decimal(h), ip + "." + fp), offset) == Ok(Some(Entry(h - offset, PointValue(ip, fp))))
  {
    var hs := Decimal(h);
    var ps := ip + "." + fp;
    NumeralChars(hs);
    NumeralChars(ip);
    NumeralChars(fp);
    assert '<' !in ps && '\n' !in ps;
    CellsLineEntry(hs, ps, offset);
    ParseIntDecimal(h);
    ParseFloatPoint(ip, fp);
    CellsOfNumbers(hs, ps, offset, h, PointValue(ip, fp));
  }
}
