/** The CSV price source (psp_csv.py): the market operator's day-ahead
    report. Two lines of the downloaded report are kept, the one holding the
    report date and the price row of the utility's load zone, and joined into
    one comma-separated record: the date, three naming fields, then 24 hourly
    prices per megawatt-hour. */
module CsvSource {
  import opened Common
  import opened Text
  import opened Numerals
  import opened PriceTable
  import HtmlTable

  // ----- download(date) -----

  const ReportSuffix: string := "_da_expost_lmp.csv"

  /** The report's file name: the date with its dashes removed, then the
      report's suffix. */
  function ReportName(date: string): string
  {
    Replace(date, "-", "") + ReportSuffix
  }

  /** `s` with every `c` left out: the reference for a replace by nothing. */
  function Without(s: string, c: char): string
  {
    if s == [] then []
    else if s[0] == c then Without(s[1..], c)
    else [s[0]] + Without(s[1..], c)
  }

  /** Replacing a one-character string by nothing removes that character. */
  lemma {:induction false} ReplaceRemoves(s: string, c: char)
    ensures Replace(s, [c], "") == Without(s, c)
  {
    if s != [] {
      ReplaceRemoves(s[1..], c);
    }
  }

  lemma {:induction false} WithoutConcat(a: string, b: string, c: char)
    ensures Without(a + b, c) == Without(a, c) + Without(b, c)
  {
    if a == [] {
      assert a + b == b;
    } else {
      assert (a + b)[1..] == a[1..] + b;
      WithoutConcat(a[1..], b, c);
    }
  }

  lemma {:induction false} WithoutAbsent(s: string, c: char)
    requires c !in s
    ensures Without(s, c) == s
  {
    if s != [] {
      WithoutAbsent(s[1..], c);
    }
  }

  /** Removing the dashes from `y-m-d`, where no piece holds a dash, leaves `ymd`. */
  lemma WithoutDashes(y: string, m: string, dd: string)
    requires '-' !in y && '-' !in m && '-' !in dd
    ensures Without(y + "-" + m + "-" + dd, '-') == y + m + dd
  {
    var a := y + "-";
    var b := a + m;
    var c := b + "-";
    assert Without("-", '-') == [];
    WithoutAbsent(y, '-');
    WithoutAbsent(m, '-');
    WithoutAbsent(dd, '-');
    WithoutConcat(y, "-", '-');
    assert Without(a, '-') == y;
    WithoutConcat(a, m, '-');
    assert Without(b, '-') == y + m;
    WithoutConcat(b, "-", '-');
    assert Without(c, '-') == y + m;
    WithoutConcat(c, dd, '-');
  }

  /** The report for date `d` is named by its digits: year, zero-padded month
      and zero-padded day. */
  lemma ReportNameOfDate(d: Date)
    ensures ReportName(FormatDate(d)) == Decimal(d.year) + Pad2(d.month) + Pad2(d.day) + ReportSuffix
  {
    var y, m, dd := Decimal(d.year), Pad2(d.month), Pad2(d.day);
    assert '-' !in y && '-' !in m && '-' !in dd;
    ReplaceRemoves(FormatDate(d), '-');
    WithoutDashes(y, m, dd);
  }

  /** What `download` looks for in a line of the report. */
  datatype LineKind = DateLine | PriceLine | OtherLine

  /** A line with a `/` holds the report date; otherwise a line naming the
      load zone `AMIL.BGS5`, a `Loadzone` and `LMP` is the price row. */
  function Kind(line: string): LineKind
  {
    if Contains(line, "/") then DateLine
    else if Contains(line, "AMIL.BGS5") && Contains(line, "Loadzone") && Contains(line, "LMP") then PriceLine
    else OtherLine
  }

  /** The kind of each line. */
  function Kinds(lines: seq<string>): (ks: seq<LineKind>)
    ensures |ks| == |lines|
  {
    seq(|lines|, i requires 0 <= i < |lines| => Kind(lines[i]))
  }

  /** The last line whose kind (in `ks`) is `kind`: the one whose assignment
      survives the loop. */
  function LastOf(lines: seq<string>, ks: seq<LineKind>, kind: LineKind): Option<string>
    requires |ks| == |lines|
  {
    if lines == [] then None
    else if ks[|ks| - 1] == kind then Some(lines[|lines| - 1])
    else LastOf(lines[..|lines| - 1], ks[..|ks| - 1], kind)
  }

  /** `LastOf` finds nothing exactly when no line is of the kind. */
  lemma {:induction false} LastOfNone(lines: seq<string>, ks: seq<LineKind>, kind: LineKind)
    requires |ks| == |lines|
    ensures LastOf(lines, ks, kind).None? <==> forall i :: 0 <= i < |ks| ==> ks[i] != kind
  {
    if lines != [] && ks[|ks| - 1] != kind {
      var init := ks[..|ks| - 1];
      LastOfNone(lines[..|lines| - 1], init, kind);
      assert forall i :: 0 <= i < |init| ==> init[i] == ks[i];
    }
  }

  /** What `LastOf` finds is a line of the kind with no later line of that kind. */
  lemma {:induction false} LastOfIsLast(lines: seq<string>, ks: seq<LineKind>, kind: LineKind)
    requires |ks| == |lines| && LastOf(lines, ks, kind).Some?
    ensures exists i :: 0 <= i < |lines| && lines[i] == LastOf(lines, ks, kind).value && ks[i] == kind &&
                        forall j :: i < j < |ks| ==> ks[j] != kind
  {
    var n := |lines| - 1;
    if ks[n] != kind {
      var init, kinit := lines[..n], ks[..n];
      LastOfIsLast(init, kinit, kind);
      var i :| 0 <= i < n && init[i] == LastOf(init, kinit, kind).value && kinit[i] == kind &&
               forall j :: i < j < n ==> kinit[j] != kind;
      assert lines[i] == init[i] && ks[i] == kinit[i];
      forall j | i < j < |ks| ensures ks[j] != kind {
        if j < n {
          assert ks[j] == kinit[j];
        }
      }
    }
  }

  /** The record `download` returns: the last date line and the last price
      row of the report, joined by a comma; a report without either raises
      NameError (the variable was never assigned). The report is the text of
      a bytes object, so its line breaks are the two characters `\` `n`. */
  function Record(report: string): Result<string>
  {
    var lines := Split(report, HtmlTable.EscapedNewline);
    var date := LastOf(lines, Kinds(lines), DateLine);
    var row := LastOf(lines, Kinds(lines), PriceLine);
    if date.None? || row.None? then Err(NameError)
    else Ok(date.value + "," + row.value)
  }

  /** The line loop of `download` and its return value. */
  method SelectLines(report: string) returns (r: Result<string>)
    ensures r == Record(report)
  {
    var lines := Split(report, HtmlTable.EscapedNewline);
    ghost var ks := Kinds(lines);
    var misoDate: Option<string> := None;
    var csv: Option<string> := None;
    for i := 0 to |lines|
      invariant misoDate == LastOf(lines[..i], ks[..i], DateLine)
      invariant csv == LastOf(lines[..i], ks[..i], PriceLine)
    {
      assert lines[..i + 1][..i] == lines[..i] && ks[..i + 1][..i] == ks[..i];
      assert lines[..i + 1][i] == lines[i] && ks[..i + 1][i] == Kind(lines[i]);
      var line := lines[i];
      if Contains(line, "/") {
        misoDate := Some(line);
      } else if Contains(line, "AMIL.BGS5") {
        if Contains(line, "Loadzone") {
          if Contains(line, "LMP") {
            csv := Some(line);
          }
        }
      }
    }
    assert lines[..|lines|] == lines && ks[..|lines|] == ks;
    if misoDate.None? || csv.None? {
      return Err(NameError);
    }
    return Ok(misoDate.value + "," + csv.value);
  }

  /** When the date line has no comma, the record's comma-separated items are
      the date line followed by the items of the price row. */
  lemma RecordItems(report: string)
    requires Record(report).Ok?
    requires var lines := Split(report, HtmlTable.EscapedNewline);
             ',' !in LastOf(lines, Kinds(lines), DateLine).value
    ensures var lines := Split(report, HtmlTable.EscapedNewline);
            Split(Record(report).value, ",") ==
            [LastOf(lines, Kinds(lines), DateLine).value] + Split(LastOf(lines, Kinds(lines), PriceLine).value, ",")
  {
    var lines := Split(report, HtmlTable.EscapedNewline);
    SplitAtFirst(LastOf(lines, Kinds(lines), DateLine).value, ',', LastOf(lines, Kinds(lines), PriceLine).value);
  }

  // ----- date_match(raw_data, date) -----

  /** `date_match`: the first item, `M/D/Y`, rearranged to `Y-M-D` and
      compared with `date`; a first item with fewer than three `/`-separated
      fields raises IndexError. */
  function DateMatch(record: string, date: string): Result<bool>
  {
    var csvDate := Split(record, ",")[0];
    var fields := Split(csvDate, "/");
    if |fields| < 3 then Err(IndexError)
    else Ok(fields[2] + "-" + fields[0] + "-" + fields[1] == date)
  }

  /** The report's way of writing a date: zero-padded month and day, then the year. */
  function ReportDate(d: Date): string
  {
    Pad2(d.month) + "/" + Pad2(d.day) + "/" + Decimal(d.year)
  }

  lemma ReportDateFields(d: Date)
    ensures ',' !in ReportDate(d)
    ensures Split(ReportDate(d), "/") == [Pad2(d.month), Pad2(d.day), Decimal(d.year)]
  {
    var m, dd, y := Pad2(d.month), Pad2(d.day), Decimal(d.year);
    assert '/' !in m && '/' !in dd && '/' !in y;
    SplitThree(m, dd, y, '/');
  }

  /** A record dated `d` in the report's format matches exactly the
      `date_today()` text of `d`. */
  lemma DateMatchRoundTrip(d: Date, rest: string, requested: Date)
    ensures DateMatch(ReportDate(d) + "," + rest, FormatDate(requested)) == Ok(d == requested)
  {
    ReportDateFields(d);
    SplitAtFirst(ReportDate(d), ',', rest);
    FormatDateOneToOne(d, requested);
  }

  /** For any three fields free of `/` and `,`, `date_match` rearranges
      `m/d/y` into `y-m-d` and compares that text with the date as it is. */
  lemma DateMatchFields(m: string, d: string, y: string, rest: string, date: string)
    requires '/' !in m && '/' !in d && '/' !in y
    requires ',' !in m && ',' !in d && ',' !in y
    ensures DateMatch(m + "/" + d + "/" + y + "," + rest, date) == Ok(y + "-" + m + "-" + d == date)
  {
    var first := m + "/" + d + "/" + y;
    assert ',' !in first by {
      forall k | 0 <= k < |first| ensures first[k] != ',' {
        if k < |m| { assert first[k] == m[k]; }
        else if k == |m| {}
        else if k < |m| + 1 + |d| { assert first[k] == d[k - |m| - 1]; }
        else if k == |m| + 1 + |d| {}
        else { assert first[k] == y[k - |m| - |d| - 2]; }
      }
    }
    SplitAtFirst(first, ',', rest);
    assert first + "," + rest == first + [','] + rest;
    assert first == m + ['/'] + d + ['/'] + y;
    SplitThree(m, d, y, '/');
  }

  /** `date_match` adds no zero padding: a record dated `1/5/2021` does not
      match `2021-01-05`. */
  lemma DateMatchAddsNoPadding(rest: string)
    ensures DateMatch("1/5/2021," + rest, FormatDate(Date(2021, 1, 5))) == Ok(false)
  {
    assert "1/5/2021," + rest == "1" + "/" + "5" + "/" + "2021" + "," + rest;
    DateMatchFields("1", "5", "2021", rest, FormatDate(Date(2021, 1, 5)));
    assert |"2021" + "-" + "1" + "-" + "5"| == 8;
    FormatDateFields(Date(2021, 1, 5));
    assert |FormatDate(Date(2021, 1, 5))| == 10;
  }

  /** A first item without any `/` raises IndexError. */
  lemma DateMatchWithoutSlashes(first: string, rest: string, date: string)
    requires ',' !in first && '/' !in first
    ensures DateMatch(first + "," + rest, date) == Err(IndexError)
  {
    SplitAtFirst(first, ',', rest);
    SplitNoSeparator(first, '/');
  }

  // ----- parse(raw_data) -----

  /** Hour ending `n + 1` (Eastern Standard Time) is local hour `n` in
      daylight time and `n - 1` in standard time. */
  function HourShift(dst: bool): int
  {
    if dst then 0 else 1
  }

  /** Pass `n` of the loop: item `n + 4` read as a price per megawatt-hour and
      stored per kilowatt-hour under local hour `n` (daylight time) or `n - 1`
      (standard time). A missing item raises IndexError, one that is not a
      number ValueError. */
  function ItemOutcome(items: seq<string>, n: nat, dst: bool): (o: Outcome)
    ensures o.Ok? ==> o.value.Some? && o.value.value.hour == n - HourShift(dst)
    ensures o == Err(IndexError) <==> n + 4 >= |items|
  {
    if n + 4 >= |items| then Err(IndexError)
    else
      var v := ParseFloat(items[n + 4]);
      if v.None? then Err(ValueError)
      else Ok(Some(Entry(n - HourShift(dst), v.value / 1000.0)))
  }

  /** The 24 passes of `for n in range(0, 24)`. */
  function ItemOutcomes(items: seq<string>, dst: bool): (outs: seq<Outcome>)
    ensures |outs| == 24
  {
    seq(24, n requires 0 <= n < 24 => ItemOutcome(items, n, dst))
  }

  /** The loop of `parse(raw_data)` over the record's items. */
  method ParseItems(items: seq<string>, dst: bool) returns (r: Result<Table>)
    ensures r == Build(ItemOutcomes(items, dst))
    ensures r.Ok? ==> DistinctKeys(r.value)
  {
    ghost var outs := ItemOutcomes(items, dst);
    var priceData: Table := [];
    var n := 0;
    while n < 24
      invariant 0 <= n <= 24
      invariant Build(outs[..n]) == Ok(priceData)
      invariant DistinctKeys(priceData)
    {
      // `price_data[key] = float(items[n + 4]) / 1000`, which may raise
      var pass := ItemOutcome(items, n, dst);
      assert outs[n] == pass;
      BuildStep(outs, n);
      if pass.Err? {
        BuildKeepsError(outs, n + 1);
        return Err(pass.error);
      }
      PutDistinct(priceData, pass.value.value.hour, pass.value.value.price);
      priceData := Put(priceData, pass.value.value.hour, pass.value.value.price);
      n := n + 1;
    }
    assert outs[..24] == outs;
    return Ok(priceData);
  }

  /** `parse(raw_data)`: the record split at commas, then 24 passes. */
  method Parse(record: string, dst: bool) returns (r: Result<Table>)
    ensures r == Build(ItemOutcomes(Split(record, ","), dst))
    ensures r.Ok? ==> DistinctKeys(r.value)
  {
    var items := Split(record, ",");
    r := ParseItems(items, dst);
  }

  /** Items 4 to 27 are all numbers. */
  predicate HasPrices(items: seq<string>)
  {
    |items| >= 28 && forall i :: 4 <= i < 28 ==> ParseFloat(items[i]).Some?
  }

  /** The day's table: the 24 prices in kilowatt-hours under consecutive hours. */
  function Prices(items: seq<string>, dst: bool): (t: Table)
    requires HasPrices(items)
    ensures |t| == 24
  {
    seq(24, n requires 0 <= n < 24 => Entry(n - HourShift(dst), ParseFloat(items[n + 4]).value / 1000.0))
  }

  /** A record with 24 prices yields exactly those prices, divided by 1000,
      each under its hour. */
  lemma ParseComplete(items: seq<string>, dst: bool)
    requires HasPrices(items)
    ensures Build(ItemOutcomes(items, dst)) == Ok(Prices(items, dst))
  {
    var outs := ItemOutcomes(items, dst);
    var t := Prices(items, dst);
    forall n | 0 <= n < 24 ensures outs[n] == Ok(Some(t[n])) {
      assert ParseFloat(items[n + 4]).Some?;
      OutcomeNumber(items, n, dst);
    }
    BuildAllAssign(outs, t);
  }

  /** The pass at the first missing item raises IndexError. */
  lemma OutcomeShort(items: seq<string>, dst: bool)
    requires |items| < 28
    ensures var n := if |items| >= 4 then |items| - 4 else 0;
            ItemOutcome(items, n, dst) == Err(IndexError)
  {
  }

  /** A pass whose item is not a number raises ValueError. */
  lemma OutcomeNotNumber(items: seq<string>, n: nat, dst: bool)
    requires n + 4 < |items| && ParseFloat(items[n + 4]).None?
    ensures ItemOutcome(items, n, dst) == Err(ValueError)
  {
  }

  /** A pass whose item is a number stores a thousandth of it. */
  lemma OutcomeNumber(items: seq<string>, n: nat, dst: bool)
    requires n + 4 < |items| && ParseFloat(items[n + 4]).Some?
    ensures ItemOutcome(items, n, dst) == Ok(Some(Entry(n - HourShift(dst), ParseFloat(items[n + 4]).value / 1000.0)))
  {
  }

  /** Parsing fails exactly when the record is too short or one of the 24
      price items is not a number. */
  lemma ParseFails(items: seq<string>, dst: bool)
    ensures Build(ItemOutcomes(items, dst)).Err? <==> !HasPrices(items)
  {
    var outs := ItemOutcomes(items, dst);
    if HasPrices(items) {
      ParseComplete(items, dst);
    } else {
      var n: nat;
      if |items| < 28 {
        n := if |items| >= 4 then |items| - 4 else 0;
        OutcomeShort(items, dst);
      } else {
        var i :| 4 <= i < 28 && ParseFloat(items[i]).None?;
        n := i - 4;
        OutcomeNotNumber(items, n, dst);
      }
      assert outs[n].Err?;
      BuildFails(outs);
    }
  }

  /** The hours of a parsed record: 0 to 23 in daylight time, -1 to 22 in
      standard time. */
  lemma ParseKeys(items: seq<string>, dst: bool, k: int)
    requires HasPrices(items)
    ensures Build(ItemOutcomes(items, dst)).Ok?
    ensures Get(Build(ItemOutcomes(items, dst)).value, k).Some? <==> -HourShift(dst) <= k <= 23 - HourShift(dst)
  {
    ParseComplete(items, dst);
    var t := Prices(items, dst);
    if -HourShift(dst) <= k <= 23 - HourShift(dst) {
      assert t[k + HourShift(dst)].hour == k;
    }
  }
}
