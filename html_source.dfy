/** The HTML price source (psp_html.py): the utility's account page, stored
    on disk, with a Date cell and a table of Hour and Price cells. It shares
    the page layout and the row parsing with main.py (module HtmlTable); it
    differs in its date check and in refusing to download late in the day. */
module HtmlSource {
  import opened Common
  import opened Text
  import opened Numerals
  import opened PriceTable
  import opened HtmlTable

  /** From 4 PM local time on, the page already shows tomorrow's prices. */
  const LastDownloadHour: nat := 16

  /** `download()` up to its network access: at or after 4 PM it exits;
      before, it fetches the page, writes it and resets the board. */
  function DownloadGuard(localHour: nat): DateCheck
  {
    if localHour >= LastDownloadHour then Exit else Download
  }

  // ----- loading the stored page at import -----

  /** The module's start-up as written: the stored page is read when the file
      exists (`Keep`: the program goes on with it); otherwise `download()` is
      called before its `def` statement has run, so the name is still unbound
      and NameError is raised. */
  function LoadAsWritten(stored: Option<string>): DateCheck
  {
    if stored.Some? then Keep else Crash(NameError)
  }

  /** A missing page file crashes the import at every hour, where a download
      (or, from 4 PM on, a clean exit) is evidently meant. */
  lemma MissingFileRaises(localHour: nat)
    ensures LoadAsWritten(None) == Crash(NameError)
    ensures LoadAsWritten(None) != LoadIntended(None, localHour)
  {
  }

  /** The start-up with `download()` defined before it is called. */
  function LoadIntended(stored: Option<string>, localHour: nat): DateCheck
  {
    if stored.Some? then Keep else DownloadGuard(localHour)
  }

  /** The corrected start-up never raises: a stored page is used, and without
      one the page is fetched before 4 PM and the program exits after. */
  lemma LoadIntendedFetches(stored: Option<string>, localHour: nat)
    ensures !LoadIntended(stored, localHour).Crash?
    ensures LoadIntended(stored, localHour) == Keep <==> stored.Some?
    ensures stored.None? ==> LoadIntended(stored, localHour) == if localHour >= 16 then Exit else Download
  {
  }

  /** `check_date()`: no Date cell exits; a day of month other than today's
      downloads (subject to the 4 PM guard); today's is kept. A Date cell that
      is not `Y-M-D` with a numeric day raises. */
  function CheckDate(html: string, localDay: int, localHour: nat): DateCheck
  {
    var cell := DateCell(html);
    if cell.None? then Exit
    else
      var day := DayOfMonth(cell.value);
      if day.Err? then Crash(day.error)
      else if day.value != localDay then DownloadGuard(localHour)
      else if day.value == localDay then Keep
      else assert false; Exit
  }

  /** For a page whose first Date cell holds date `d`: today's day of month is
      kept; any other day is fetched again before 4 PM, and stops the program
      from 4 PM on. */
  lemma CheckDateOfPage(a: string, d: Date, b: string, localDay: int, localHour: nat)
    requires forall i :: 0 <= i < |a| ==> !OccursAt(a + DateOpen + FormatDate(d) + CellClose + b, DateOpen, i)
    ensures CheckDate(a + DateOpen + FormatDate(d) + CellClose + b, localDay, localHour) ==
            if d.day == localDay then Keep else if localHour >= 16 then Exit else Download
  {
    DateCellOfPage(a, d, b);
    DayOfFormattedDate(d);
  }

  /** No page is ever downloaded from 4 PM on, whatever it holds. */
  lemma NoDownloadAfterFour(html: string, localDay: int, localHour: nat)
    requires localHour >= 16
    ensures CheckDate(html, localDay, localHour) != Download
  {
  }

  /** A page without a Date cell stops the program. */
  lemma CheckDateWithoutCell(html: string, localDay: int, localHour: nat)
    requires !Contains(html, DateOpen)
    ensures CheckDate(html, localDay, localHour) == Exit
  {
    NotContains(html, DateOpen);
    SearchFails(html, DateOpen, CellClose);
  }

  /** Hour `h` of the page (Eastern Standard Time) is local hour `h` in
      daylight time and `h - 1` in standard time. */
  function HourOffset(dst: bool): int
  {
    if dst then 0 else 1
  }

  /** `parse()`: the page's table, with hours shifted to local time. */
  method Parse(html: string, dst: bool) returns (r: Result<Table>)
    ensures r == PageTable(html, HourOffset(dst))
    ensures r.Ok? ==> DistinctKeys(r.value)
  {
    r := ParsePage(html, HourOffset(dst));
  }

  /** A row with hour `h` and price `ip.fp` enters the price under hour `h` in
      daylight time and under `h - 1` in standard time. */
  lemma RowKey(h: nat, ip: string, fp: string, dst: bool)
    requires ip != [] && AllDigits(ip) && AllDigits(fp)
    ensures LineEntry(RowLine(Decimal(h), ip + "." + fp), HourOffset(dst)) ==
            Ok(Some(Entry(if dst then h else h - 1, PointValue(ip, fp))))
  {
    RowLineEntry(h, ip, fp, HourOffset(dst));
  }
}
