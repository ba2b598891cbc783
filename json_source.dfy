/** The JSON price source (psp_json.py): the utility's API answers with a
    list of hourly records, each with a date, an "hour ending" and a price.
    The download itself is I/O; the model starts from the decoded payload. */
module JsonSource {
  import opened Common
  import opened Text
  import opened Numerals
  import opened PriceTable

  /** One element of `hourlyPriceDetails`. */
  datatype PriceDetail = PriceDetail(date: string, hour: int, price: real)

  /** The decoded answer of the API. */
  datatype Payload = Payload(hourlyPriceDetails: seq<PriceDetail>)

  /** `.strip('T00:00:00')` strips the SET of these characters from both ends. */
  const DateJunk: set<char> := {'T', '0', ':'}

  /** The time part the API appends to every date. */
  const Midnight: string := "T00:00:00"

  // ----- date_today() -----

  /** `date_today()`: the local date, except at 11 PM in standard time, when
      the hour belongs to the next day's price list (its prices are in
      Eastern Standard Time). `today` and `tomorrow` are the local dates now
      and 86400 seconds from now. */
  function DateToday(today: Date, tomorrow: Date, localHour: nat, dst: bool): string
  {
    if dst || (!dst && localHour != 23) then FormatDate(today)
    else if !dst && localHour == 23 then FormatDate(tomorrow)
    else assert false; ""
  }

  /** The requested date is tomorrow's exactly at 11 PM in standard time, and
      today's otherwise. */
  lemma DateTodayChoice(today: Date, tomorrow: Date, localHour: nat, dst: bool)
    requires today != tomorrow
    ensures DateToday(today, tomorrow, localHour, dst) == FormatDate(tomorrow) <==> !dst && localHour == 23
    ensures DateToday(today, tomorrow, localHour, dst) == FormatDate(today) <==> dst || localHour != 23
  {
    FormatDateOneToOne(today, tomorrow);
  }

  // ----- check_date(), as written -----

  /** The date of the first record with `.strip('T00:00:00')` applied; an
      empty list raises IndexError. */
  function ExtractDate(p: Payload): Result<string>
  {
    if p.hourlyPriceDetails == [] then Err(IndexError)
    else Ok(Strip(p.hourlyPriceDetails[0].date, DateJunk))
  }

  /** `check_date()`: a payload for another date is downloaded again (and the
      board reset); one for the requested date is kept. */
  function CheckDate(p: Payload, dateToday: string): DateCheck
  {
    var d := ExtractDate(p);
    if d.Err? then Crash(d.error)
    else if d.value != dateToday then Download
    else if d.value == dateToday then Keep
    else assert false; Exit
  }

  /** A payload whose first record is dated `date`. */
  function DatedPayload(date: string, hour: int, price: real, rest: seq<PriceDetail>): Payload
  {
    Payload([PriceDetail(date + Midnight, hour, price)] + rest)
  }

  lemma MidnightJunk()
    ensures AllIn(Midnight, DateJunk) && AllIn("0" + Midnight, DateJunk)
  {
  }

  /** The day field of a day that is a multiple of ten is its tens digit
      followed by `0`. */
  lemma Pad2TrailingZero(day: nat)
    requires 10 <= day < 100 && day % 10 == 0
    ensures Pad2(day) == [DigitChar(day / 10), '0']
  {
    assert Decimal(day) == Decimal(day / 10) + [DigitChar(0)];
  }

  /** The strip also removes a final `0` of the date itself. */
  lemma StripZeroMidnight(head: string)
    requires head != [] && head[0] !in DateJunk && head[|head| - 1] !in DateJunk
    ensures Strip(head + "0" + Midnight, DateJunk) == head
  {
    assert head + "0" + Midnight == [] + head + ("0" + Midnight);
    MidnightJunk();
    StripBetween([], head, "0" + Midnight, DateJunk);
  }

  /** On the 10th, 20th and 30th of a month the strip eats the day's final
      `0` as well, so the extracted date never equals the requested one and
      the payload is downloaded again, on every check, all day. */
  lemma DayEndingInZeroNeverMatches(d: Date, hour: int, price: real, rest: seq<PriceDetail>)
    requires d.year >= 1 && 10 <= d.day < 100 && d.day % 10 == 0
    ensures var p := DatedPayload(FormatDate(d), hour, price, rest);
            ExtractDate(p).Ok? && |ExtractDate(p).value| == |FormatDate(d)| - 1 &&
            CheckDate(p, FormatDate(d)) == Download
  {
    var tens := DigitChar(d.day / 10);
    var head := Decimal(d.year) + "-" + Pad2(d.month) + "-" + [tens];
    Pad2TrailingZero(d.day);
    assert FormatDate(d) == head + "0";
    DecimalHead(d.year);
    assert head[0] == Decimal(d.year)[0] && IsDigit(head[0]);
    StripZeroMidnight(head);
  }

  /** A formatted date of a year from 1 on starts with a nonzero digit, and
      ends with the day's last digit. */
  lemma FormatDateEnds(d: Date)
    requires d.year >= 1
    ensures var f := FormatDate(d);
            f[0] != '0' && IsDigit(f[0]) && f[|f| - 1] == DigitChar(d.day % 10)
  {
    var a := Decimal(d.year) + "-" + Pad2(d.month) + "-";
    var b := Pad2(d.day);
    assert FormatDate(d) == a + b;
    assert (a + b)[0] == Decimal(d.year)[0];
    assert (a + b)[|a + b| - 1] == b[|b| - 1];
    DecimalHead(d.year);
    Pad2Last(d.day);
  }

  /** The strip removes the time part from a date that begins and ends
      outside the stripped characters. */
  lemma StripMidnight(f: string)
    requires f != [] && f[0] !in DateJunk && f[|f| - 1] !in DateJunk
    ensures Strip(f + Midnight, DateJunk) == f
  {
    assert f + Midnight == [] + f + Midnight;
    MidnightJunk();
    StripBetween([], f, Midnight, DateJunk);
  }

  /** On every other day of a year from 1 on, the strip leaves the date intact
      and the payload for the requested date is kept. */
  lemma DayNotEndingInZeroMatches(d: Date, hour: int, price: real, rest: seq<PriceDetail>)
    requires d.year >= 1 && d.day % 10 != 0
    ensures CheckDate(DatedPayload(FormatDate(d), hour, price, rest), FormatDate(d)) == Keep
  {
    FormatDateEnds(d);
    assert DigitChar(d.day % 10) != '0';
    StripMidnight(FormatDate(d));
  }

  // ----- check_date(), corrected -----

  /** The date part of an ISO timestamp: the text before the first `T`. */
  function DatePart(raw: string): string
  {
    Split(raw, "T")[0]
  }

  /** The date the check evidently intends to compare: the first record's
      date part; an empty list raises IndexError. */
  function ExtractDateIntended(p: Payload): Result<string>
  {
    if p.hourlyPriceDetails == [] then Err(IndexError)
    else Ok(DatePart(p.hourlyPriceDetails[0].date))
  }

  /** `check_date()` comparing the date part. */
  function CheckDateIntended(p: Payload, dateToday: string): DateCheck
  {
    var d := ExtractDateIntended(p);
    if d.Err? then Crash(d.error)
    else if d.value != dateToday then Download
    else Keep
  }

  /** The date part of `date + "T00:00:00"` is `date`, for every formatted date. */
  lemma DatePartOfTimestamp(d: Date)
    ensures DatePart(FormatDate(d) + Midnight) == FormatDate(d)
  {
    var f := FormatDate(d);
    assert 'T' !in f by {
      assert f == Decimal(d.year) + "-" + Pad2(d.month) + "-" + Pad2(d.day);
    }
    assert f + Midnight == f + ['T'] + "00:00:00";
    SplitAtFirst(f, 'T', "00:00:00");
  }

  /** With the corrected extraction, a payload is kept exactly when it is
      dated the requested day, whatever the day. */
  lemma IntendedCheckMatches(d: Date, requested: Date, hour: int, price: real, rest: seq<PriceDetail>)
    ensures CheckDateIntended(DatedPayload(FormatDate(d), hour, price, rest), FormatDate(requested)) ==
            if d == requested then Keep else Download
  {
    DatePartOfTimestamp(d);
    FormatDateOneToOne(d, requested);
  }

  /** An empty list of records crashes either check with IndexError. */
  lemma EmptyPayloadCrashes(dateToday: string)
    ensures CheckDate(Payload([]), dateToday) == Crash(IndexError)
    ensures CheckDateIntended(Payload([]), dateToday) == Crash(IndexError)
  {
  }

  // ----- parse() -----

  /** Hour ending `h` (Eastern Standard Time) is local hour `h - 1` in
      daylight time and `h - 2` in standard time. */
  function HourShift(dst: bool): int
  {
    if dst then 1 else 2
  }

  /** Pass `n` of the loop: record `n` assigns its price to its shifted hour;
      a missing record raises IndexError. */
  function RecordOutcome(details: seq<PriceDetail>, n: nat, dst: bool): Outcome
  {
    if n >= |details| then Err(IndexError)
    else Ok(Some(Entry(details[n].hour - HourShift(dst), details[n].price)))
  }

  /** The 24 passes of `for n in range(0, 24)`. */
  function RecordOutcomes(details: seq<PriceDetail>, dst: bool): (outs: seq<Outcome>)
    ensures |outs| == 24
  {
    seq(24, n requires 0 <= n < 24 => RecordOutcome(details, n, dst))
  }

  /** `parse()`: the first 24 records, entered one by one into a dict. */
  method Parse(p: Payload, dst: bool) returns (r: Result<Table>)
    ensures r == Build(RecordOutcomes(p.hourlyPriceDetails, dst))
    ensures r.Ok? ==> DistinctKeys(r.value)
  {
    var details := p.hourlyPriceDetails;
    ghost var outs := RecordOutcomes(details, dst);
    var today: Table := [];
    var n := 0;
    while n < 24
      invariant 0 <= n <= 24
      invariant Build(outs[..n]) == Ok(today)
      invariant DistinctKeys(today)
    {
      assert outs[n] == RecordOutcome(details, n, dst);
      BuildStep(outs, n);
      if n >= |details| {
        BuildKeepsError(outs, n + 1);
        return Err(IndexError);
      }
      var hour := details[n].hour;
      var price := details[n].price;
      PutDistinct(today, hour - HourShift(dst), price);
      today := Put(today, hour - HourShift(dst), price);
      n := n + 1;
    }
    assert outs[..24] == outs;
    return Ok(today);
  }

  /** The table of 24 records whose hours differ: each record's price under
      its shifted hour, listed in record order. */
  function Shifted(details: seq<PriceDetail>, dst: bool): (t: Table)
    requires |details| >= 24
    ensures |t| == 24
  {
    seq(24, n requires 0 <= n < 24 => Entry(details[n].hour - HourShift(dst), details[n].price))
  }

  /** Fewer than 24 records raise IndexError. */
  lemma ShortPayloadFails(details: seq<PriceDetail>, dst: bool)
    requires |details| < 24
    ensures Build(RecordOutcomes(details, dst)) == Err(IndexError)
  {
    var outs := RecordOutcomes(details, dst);
    assert outs[|details|].Err?;
    BuildFails(outs);
  }

  /** With at least 24 records whose first 24 hours differ, the table holds
      exactly their prices, under the shifted hours; later
      records are ignored. */
  lemma FullPayloadParses(details: seq<PriceDetail>, dst: bool)
    requires |details| >= 24
    requires forall i, j :: 0 <= i < j < 24 ==> details[i].hour != details[j].hour
    ensures Build(RecordOutcomes(details, dst)) == Ok(Shifted(details, dst))
  {
    BuildAllAssign(RecordOutcomes(details, dst), Shifted(details, dst));
  }

  /** A full day of records, numbered hour ending 1 to 24, fills hours 0 to 23
      in daylight time and hours -1 to 22 in standard time: hour 23 of a
      standard-time day is absent (it comes from the next day's list). */
  lemma StandardDayKeys(details: seq<PriceDetail>, dst: bool, k: int)
    requires |details| >= 24
    requires forall n :: 0 <= n < 24 ==> details[n].hour == n + 1
    ensures Build(RecordOutcomes(details, dst)).Ok?
    ensures var t := Build(RecordOutcomes(details, dst)).value;
            Get(t, k).Some? <==> 1 - HourShift(dst) <= k <= 24 - HourShift(dst)
  {
    FullPayloadParses(details, dst);
    var t := Shifted(details, dst);
    if 1 - HourShift(dst) <= k <= 24 - HourShift(dst) {
      assert t[k - 1 + HourShift(dst)].hour == k;
    }
  }
}
