/** main.py: the date check of the stored page, the ON/OFF rule, the clock
    helpers, and one pass of the `while True` loop. The clock readings
    (`time.localtime(tz())`) are parameters. */
module MainLoop {
  import opened Common
  import opened Text
  import opened Numerals
  import opened PriceTable
  import opened DailyStats
  import opened HtmlTable

  // ----- check_date -----

  /** `check_date` as written: only the day of month of the page's Date cell
      is compared with today's day of month. No Date cell means exit; a
      greater day means the page holds tomorrow's prices (exit); a smaller
      day means the page is old (download and reboot); an equal day keeps it. */
  function CheckDate(html: string, localDay: int): DateCheck
  {
    var cell := DateCell(html);
    if cell.None? then Exit
    else
      var day := DayOfMonth(cell.value);
      if day.Err? then Crash(day.error)
      else if day.value > localDay then Exit
      else if day.value < localDay then Download
      else if day.value == localDay then Keep
      else assert false; Exit
  }

  /** For a page whose first Date cell holds date `d`, the decision depends on
      `d.day` alone: greater exits, smaller downloads, equal keeps. */
  lemma CheckDateOfPage(a: string, d: Date, b: string, localDay: int)
    requires forall i :: 0 <= i < |a| ==> !OccursAt(a + DateOpen + FormatDate(d) + CellClose + b, DateOpen, i)
    ensures CheckDate(a + DateOpen + FormatDate(d) + CellClose + b, localDay) ==
            if d.day > localDay then Exit else if d.day < localDay then Download else Keep
  {
    DateCellOfPage(a, d, b);
    DayOfFormattedDate(d);
  }

  /** A page without a Date cell stops the program. */
  lemma CheckDateWithoutCell(html: string, localDay: int)
    requires !Contains(html, DateOpen)
    ensures CheckDate(html, localDay) == Exit
  {
    NotContains(html, DateOpen);
    SearchFails(html, DateOpen, CellClose);
  }

  /** On the first of a month the page saved the day before carries a larger
      day of month, so `check_date` exits instead of fetching today's prices. */
  lemma StalePageAtMonthStartExits()
    ensures var page := DateOpen + FormatDate(Date(2021, 10, 31)) + CellClose;
            CheckDate(page, 1) == Exit && Before(Date(2021, 10, 31), Date(2021, 11, 1))
  {
    var d := Date(2021, 10, 31);
    assert DateOpen + FormatDate(d) + CellClose == [] + DateOpen + FormatDate(d) + CellClose + [];
    CheckDateOfPage([], d, [], 1);
  }

  /** `a` is an earlier calendar date than `b`. */
  predicate Before(a: Date, b: Date)
  {
    a.year < b.year || (a.year == b.year && (a.month < b.month || (a.month == b.month && a.day < b.day)))
  }

  /** The whole `YYYY-MM-DD` date of a Date cell. */
  function DateOfCell(cell: string): Result<Date>
  {
    var fields := Split(cell, "-");
    if |fields| < 3 then Err(IndexError)
    else
      var y := ParseInt(fields[0]);
      var m := ParseInt(fields[1]);
      var d := ParseInt(fields[2]);
      if y.None? || m.None? || d.None? || y.value < 0 || m.value < 0 || d.value < 0 then Err(ValueError)
      else Ok(Date(y.value, m.value, d.value))
  }

  lemma DateOfFormattedDate(d: Date)
    ensures DateOfCell(FormatDate(d)) == Ok(d)
  {
    FormatDateFields(d);
  }

  /** `check_date` comparing whole dates, as its messages describe it: a page
      dated after today holds tomorrow's prices (exit), a page dated before
      today is old (download), today's page is kept. */
  function CheckDateFull(html: string, today: Date): DateCheck
  {
    var cell := DateCell(html);
    if cell.None? then Exit
    else
      var date := DateOfCell(cell.value);
      if date.Err? then Crash(date.error)
      else if Before(today, date.value) then Exit
      else if Before(date.value, today) then Download
      else Keep
  }

  /** With whole dates compared, a page from any earlier day is fetched anew,
      month and year boundaries included, and only today's page is kept. */
  lemma CheckDateFullOfPage(a: string, d: Date, b: string, today: Date)
    requires forall i :: 0 <= i < |a| ==> !OccursAt(a + DateOpen + FormatDate(d) + CellClose + b, DateOpen, i)
    ensures CheckDateFull(a + DateOpen + FormatDate(d) + CellClose + b, today) ==
            if Before(today, d) then Exit else if Before(d, today) then Download else Keep
    ensures CheckDateFull(a + DateOpen + FormatDate(d) + CellClose + b, today) == Keep <==> d == today
  {
    DateCellOfPage(a, d, b);
    DateOfFormattedDate(d);
  }

  // ----- psp_power -----

  datatype Power = On | Off

  /** The default `max` argument of `psp_power`. */
  const DefaultMax: real := 0.7

  /** The rule of `psp_power`: ON only when the price is strictly below the
      day's average, the day's median and `max`. */
  function Decide(price: real, average: real, median: real, max: real): Power
  {
    if price < average && price < median && price < max then On else Off
  }

  /** `psp_power`: the decision for the current hour; KeyError when the
      table has no price for it. */
  function PspPower(today: Table, hour: int, average: real, median: real, max: real): (r: Result<Power>)
    ensures r.Err? <==> Get(today, hour).None?
    ensures r.Err? ==> r.error == KeyError
    ensures r == Ok(On) <==> exists i :: 0 <= i < |today| && today[i].hour == hour &&
                                         Get(today, hour) == Some(today[i].price) &&
                                         today[i].price < average && today[i].price < median && today[i].price < max
  {
    var price := Get(today, hour);
    if price.None? then Err(KeyError) else Ok(Decide(price.value, average, median, max))
  }

  /** How many entries of the table the rule switches on. */
  function OnHours(t: Table, average: real, median: real, max: real): nat
  {
    if t == [] then 0
    else (if Decide(t[0].price, average, median, max) == On then 1 else 0) + OnHours(t[1..], average, median, max)
  }

  lemma {:induction false} OnHoursBelowMedian(t: Table, average: real, median: real, max: real)
    ensures OnHours(t, average, median, max) <= Count(Prices(t), Below, median)
  {
    if t != [] {
      OnHoursBelowMedian(t[1..], average, median, max);
      assert Prices(t)[1..] == Prices(t[1..]);
    }
  }

  /** With the day's own median, the rule switches on at most half of the
      hours (rounded down), whatever the average and `max`. */
  lemma AtMostHalfOn(t: Table, average: real, max: real)
    requires t != []
    ensures OnHours(t, average, Sort(Prices(t))[|t| / 2], max) <= |t| / 2
  {
    OnHoursBelowMedian(t, average, Sort(Prices(t))[|t| / 2], max);
    MedianProperties(Prices(t));
  }

  /** On a day when every hour costs the same, the price is never below the
      average, so the power stays OFF all day. */
  lemma FlatDayAllOff(t: Table, c: real, median: real, max: real, hour: int)
    requires t != [] && forall i :: 0 <= i < |t| ==> t[i].price == c
    requires Get(t, hour).Some?
    ensures PspPower(t, hour, Mean(Prices(t)), median, max) == Ok(Off)
  {
    MeanOfFlatDay(Prices(t), c);
  }

  // ----- clock helpers -----

  /** `midnight_fix`: local hour 0 becomes 24, the page's name for midnight;
      every other hour stays. The result is the hour of the page's table
      that denotes the same time of day. */
  function MidnightFix(localHour: nat): (hour: int)
    requires localHour < 24
    ensures 1 <= hour <= 24 && hour % 24 == localHour
  {
    if localHour == 0 then 24 else localHour
  }

  /** `midnight_fix` maps the 24 local hours one to one onto the table hours
      1..24. */
  lemma MidnightFixOneToOne(h1: nat, h2: nat)
    requires h1 < 24 && h2 < 24
    ensures MidnightFix(h1) == MidnightFix(h2) <==> h1 == h2
  {
  }

  /** `isTopOfHour`: minute 0. */
  predicate IsTopOfHour(minute: nat)
  {
    minute == 0
  }

  /** `is1AM`: local hour 1. */
  predicate Is1AM(localHour: nat)
  {
    localHour == 1
  }

  /** `timestamp`: `[HH:MM:SS]`, each field zero-padded to two digits. */
  function Timestamp(h: nat, m: nat, s: nat): string
  {
    "[" + Pad2(h) + ":" + Pad2(m) + ":" + Pad2(s) + "]"
  }

  /** A timestamp is ten characters, brackets and colons in fixed places, and
      each field reads back as the number it shows. */
  lemma TimestampFields(h: nat, m: nat, s: nat)
    requires h < 100 && m < 100 && s < 100
    ensures var r := Timestamp(h, m, s);
            |r| == 10 && r[0] == '[' && r[3] == ':' && r[6] == ':' && r[9] == ']' &&
            ParseInt(r[1..3]) == Some(h) && ParseInt(r[4..6]) == Some(m) && ParseInt(r[7..9]) == Some(s)
  {
    TimestampShape(h, m, s);
    ParseIntPad2(h);
    ParseIntPad2(m);
    ParseIntPad2(s);
  }

  lemma TimestampShape(h: nat, m: nat, s: nat)
    requires h < 100 && m < 100 && s < 100
    ensures var r := Timestamp(h, m, s);
            |r| == 10 && r[0] == '[' && r[3] == ':' && r[6] == ':' && r[9] == ']' &&
            r[1..3] == Pad2(h) && r[4..6] == Pad2(m) && r[7..9] == Pad2(s)
  {
    var r := Timestamp(h, m, s);
    assert r == "[" + Pad2(h) + ":" + Pad2(m) + ":" + Pad2(s) + "]";
  }

  // ----- one pass of the main loop -----

  /** The actions of one pass, in order. */
  datatype Step = CheckData | AlignHour(hour: int) | SwitchPower

  /** What a pass does: at the top of the hour, first the date check (only at
      1 AM), then the hour alignment, then the ON/OFF decision; nothing
      otherwise. */
  function TickSteps(minute: nat, localHour: nat): seq<Step>
    requires localHour < 24
  {
    if IsTopOfHour(minute) then
      (if Is1AM(localHour) then [CheckData] else []) + [AlignHour(MidnightFix(localHour)), SwitchPower]
    else []
  }

  /** The seconds a pass sleeps when it completes. */
  function SleepAfter(minute: nat): nat
  {
    if IsTopOfHour(minute) then 65 else 30
  }

  /** The date check runs exactly at 1 AM at the top of the hour, and then
      before the decision; the decision runs exactly at the top of every hour,
      right after the hour is aligned to the page's numbering. */
  lemma TickOrder(minute: nat, localHour: nat)
    requires localHour < 24
    ensures var steps := TickSteps(minute, localHour);
            (CheckData in steps <==> minute == 0 && localHour == 1) &&
            (SwitchPower in steps <==> minute == 0) &&
            (CheckData in steps ==> steps[0] == CheckData) &&
            (minute == 0 ==> |steps| >= 2 && steps[|steps| - 1] == SwitchPower &&
                             steps[|steps| - 2] == AlignHour(MidnightFix(localHour)))
  {
    var steps := TickSteps(minute, localHour);
    if minute == 0 {
      assert steps[|steps| - 2] == AlignHour(MidnightFix(localHour));
      assert CheckData in steps ==> steps[0] == CheckData;
      assert SwitchPower == steps[|steps| - 1];
    }
  }

  /** How a pass ends: asleep for the given seconds (the loop goes on),
      stopped by the date check (`reset()`, `exit()` or an exception), or
      ended by an exception of `psp_power`. */
  datatype TickEnd = Slept(seconds: nat) | Halted(check: DateCheck) | Failed(error: PyError)

  /** The state main.py keeps in globals between passes. */
  class Controller {
    var html: string
    var today: Table
    var average: real
    var median: real
    var hour: int
    /** The commands sent to the relay so far. */
    var sent: seq<Power>

    constructor (html: string, today: Table, average: real, median: real, hour: int)
      ensures this.html == html && this.today == today && this.average == average
      ensures this.median == median && this.hour == hour && sent == []
    {
      this.html := html;
      this.today := today;
      this.average := average;
      this.median := median;
      this.hour := hour;
      sent := [];
    }

    /** One pass of the `while True` loop, with `check_date` as written
        (day of month only). `performed` lists the steps the pass carried
        out: those of `TickSteps`, or only the date check when that check
        stops the loop. */
    method Tick(minute: nat, localHour: nat, localDate: Date) returns (end: TickEnd, ghost performed: seq<Step>)
      requires localHour < 24
      modifies this
      ensures html == old(html) && today == old(today) && average == old(average) && median == old(median)
      ensures performed == if end.Halted? then [CheckData] else TickSteps(minute, localHour)
      ensures minute != 0 ==> end == Slept(SleepAfter(minute)) && hour == old(hour) && sent == old(sent)
      ensures minute == 0 && localHour == 1 && CheckDate(html, localDate.day) != Keep ==>
                end == Halted(CheckDate(html, localDate.day)) && hour == old(hour) && sent == old(sent)
      ensures minute == 0 && (localHour != 1 || CheckDate(html, localDate.day) == Keep) ==>
                hour == MidnightFix(localHour) &&
                match PspPower(today, hour, average, median, DefaultMax)
                case Ok(p) => sent == old(sent) + [p] && end == Slept(SleepAfter(minute))
                case Err(e) => sent == old(sent) && end == Failed(e)
    {
      performed := [];
      if IsTopOfHour(minute) {
        if Is1AM(localHour) {
          performed := performed + [CheckData];
          var check := CheckDate(html, localDate.day);
          if check != Keep {
            return Halted(check), performed;
          }
        }
        hour := MidnightFix(localHour);
        performed := performed + [AlignHour(hour), SwitchPower];
        var power := PspPower(today, hour, average, median, DefaultMax);
        if power.Err? {
          return Failed(power.error), performed;
        }
        sent := sent + [power.value];
        return Slept(65), performed;
      }
      return Slept(30), performed;
    }
  }

  /** The boot sequence of main.py once the page is in memory: check its date
      with `check_date` as written (day of month only), parse its table,
      compute the day's average and median, align the hour and switch the
      power; then the loop starts after a 30-second sleep. Any step that stops
      the program ends the boot without a controller. */
  method Boot(html: string, localDate: Date, localHour: nat) returns (end: TickEnd, c: Controller?)
    requires localHour < 24
    ensures CheckDate(html, localDate.day) != Keep ==> end == Halted(CheckDate(html, localDate.day)) && c == null
    ensures CheckDate(html, localDate.day) == Keep && PageTable(html, 0).Err? ==>
              end == Failed(PageTable(html, 0).error) && c == null
    ensures CheckDate(html, localDate.day) == Keep && PageTable(html, 0) == Ok([]) ==>
              end == Failed(ZeroDivisionError) && c == null
    ensures CheckDate(html, localDate.day) == Keep && PageTable(html, 0).Ok? && PageTable(html, 0).value != [] ==>
              var t := PageTable(html, 0).value;
              var average, median := Mean(Prices(t)), Sort(Prices(t))[|t| / 2];
              match PspPower(t, MidnightFix(localHour), average, median, DefaultMax)
              case Err(e) => end == Failed(e) && c == null
              case Ok(p) => end == Slept(30) && c != null && fresh(c) &&
                            c.html == html && c.today == t && c.average == average && c.median == median &&
                            c.hour == MidnightFix(localHour) && c.sent == [p] && DistinctKeys(c.today)
  {
    c := null;
    var check := CheckDate(html, localDate.day);
    if check != Keep {
      return Halted(check), null;
    }
    var parsed := ParsePage(html, 0);
    if parsed.Err? {
      return Failed(parsed.error), null;
    }
    var today := parsed.value;
    var average := Average(today);
    if average.Err? {
      return Failed(average.error), null;
    }
    var median := Median(today);
    var hour := MidnightFix(localHour);
    var power := PspPower(today, hour, average.value, median.value, DefaultMax);
    if power.Err? {
      return Failed(power.error), null;
    }
    c := new Controller(html, today, average.value, median.value, hour);
    c.sent := [power.value];
    return Slept(30), c;
  }
}
