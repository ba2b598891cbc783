# micropython-power-price, modelled in Dafny

micropython-power-price runs on a microcontroller next to a 433 MHz remote
power switch. Every hour it turns the power ON when electricity is cheap
under the utility's hourly ("Power Smart Pricing") tariff. Otherwise it
turns the power OFF.

- `main.py` reads the utility's retail-energy page, which is stored on disk
  as HTML. At boot and at 1 AM it compares the day of month in the page's
  Date cell with today's. A smaller day means a new page is fetched and the
  board reboots. A greater day means the program exits.
- It turns the page's table into a dict from hour to price.
- From that dict it computes the day's average and upper median.
- At the top of each hour it switches the power ON only when the current
  price is below the average, the median and a maximum of 0.7.
- Three alternative price sources, each a module with the same job, get the
  prices another way:
  - `psp_json.py`: the utility's JSON API;
  - `psp_html.py`: the same HTML page, with a 4 PM download cut-off;
  - `psp_csv.py`: the market operator's day-ahead CSV report.

The model follows the program's structure:

| file | module | what it holds |
|---|---|---|
| `common.dfy` | `Common` | `Option`, Python's exceptions as `PyError`, `Result`, the outcome of a date check (`DateCheck`: keep, download and reboot, exit, or an exception), calendar dates |
| `text.dfy` | `Text` | the Python string operations the parsers use: `in`, `find`, `split`, `join`, `replace`, `strip(chars)` and `re.search('open(.*?)close', s)` |
| `numerals.dfy` | `Numerals` | `str(n)`, `f'{n:02}'`, `int(text)`, `float(text)` on plain decimal text, and the `Y-MM-DD` date format |
| `price_table.dfy` | `PriceTable` | the dict `today` as a sequence of (hour, price) entries with distinct hours; `d[k] = v`; `Build`, the result of a parsing loop given what each pass does |
| `stats.dfy` | `DailyStats` | `psp_average` and `psp_median` as loops, proved against the mean and the upper median of the sorted prices |
| `html_table.dfy` | `HtmlTable` | the page's Date cell and the parsing of its price table, shared by `main.py` and `psp_html.py` |
| `main_loop.dfy` | `MainLoop` | `check_date`, `psp_power`, `midnight_fix`, `is1AM`, `isTopOfHour`, `timestamp`, the boot sequence, and the `while True` loop as a `Controller` class with one `Tick` per pass |
| `json_source.dfy` | `JsonSource` | `psp_json.py`: `date_today`, `check_date` and `parse` |
| `html_source.dfy` | `HtmlSource` | `psp_html.py`: the start-up read of the stored page, the 4 PM download guard, `check_date` and `parse` |
| `csv_source.dfy` | `CsvSource` | `psp_csv.py`: the report name, the line selection of `download`, `parse` and `date_match` |

Some things are passed in as parameters:
- clock readings: the local hour, minute and date, and the daylight-saving
  flag;
- the contents of stored and downloaded files.

Python exceptions become `Err` values. `reset()` (reboot after a download)
and `exit()` become the `Download` and `Exit` outcomes.

## Model

| member | source | states |
|---|---|---|
| Text.FindSpec | psp_csv.py:30-34 | `pat in s` relies on this property of find: the index found starts an occurrence of `pat` and none starts earlier; nothing is found exactly when no position starts one |
| Text.FindIs | psp_csv.py:30-34 | an occurrence with no earlier occurrence is the one `find` returns |
| Text.NotContains | psp_csv.py:30-34 | `pat in s` is false exactly when `pat` occurs at no position of `s` |
| Text.Split | main.py:111 | `str.split` with a non-empty separator always yields at least one piece |
| Text.SplitPieces | main.py:111 | no piece of `s.split(sep)` contains `sep` |
| Text.SplitJoin | main.py:128 | joining the pieces of `s.split(sep)` with `sep` gives back `s` |
| Text.SplitAtFirst | psp_csv.py:54-56 | text with no `c`, then `c`, then more text: the first piece is the text before `c` |
| Text.SplitNoSeparator | psp_csv.py:56 | text without the separator splits into itself alone |
| Text.SplitThree | main.py:111 | three pieces without `c`, joined by `c`, split back into exactly those three pieces |
| Text.Replace | main.py:125-126 | `s.replace(pat, repl)`: every leftmost, non-overlapping occurrence of `pat` replaced by `repl` |
| Text.ReplaceFirst | main.py:125-126 | `replace` copies the text up to the first occurrence, substitutes that occurrence and carries on after it |
| Text.ReplaceIsSplitJoin | main.py:125-126 | `s.replace(pat, r)` equals `r.join(s.split(pat))`, an independent statement of which occurrences are replaced (leftmost, not overlapping) |
| Text.ReplaceSkips | main.py:125-126 | a stretch in which no occurrence starts is copied unchanged |
| Text.ReplaceWithoutMatch | psp_csv.py:23 | text in which `pat` does not occur is left unchanged |
| Text.ReplaceOnce | main.py:125 | a single occurrence whose first character appears nowhere else is replaced, and the text around it is kept |
| Text.ReplaceFirstAfter | main.py:126 | the first occurrence after a stretch that cannot start one is replaced, and the rest is replaced in turn |
| Text.Strip | psp_json.py:38 | `s.strip(chars)`: the characters of the set `chars` removed from both ends |
| Text.StripLeft | psp_json.py:38 | `lstrip(chars)` removes a prefix made only of the given characters; what remains does not start with one of them |
| Text.StripRight | psp_json.py:38 | `rstrip(chars)` removes a suffix made only of the given characters; what remains does not end with one of them |
| Text.StripTrims | psp_json.py:38 | `strip(chars)` keeps a stretch of the text with only stripped characters before and after it, and the stretch neither begins nor ends with one |
| Text.StripKeeps | psp_json.py:38 | text whose two ends are outside the character set is unchanged by `strip` |
| Text.StripBetween | psp_json.py:38 | `strip` removes exactly the runs of set characters around a middle that begins and ends outside the set |
| Text.Search | main.py:107 | `re.search('open(.*?)close', s).group(1)`: the group of the leftmost match, or None |
| Text.CloseAfterIsFirst | main.py:107 | the lazy group `(.*?)` ends at the first `close`; as in CPython, no newline comes before it |
| Text.CloseAfterFinds | main.py:107 | on text with no newline before it, the first `close` is where the lazy group ends |
| Text.MatchFromFound | main.py:107 | the match `re.search` finds starts at a position where the pattern matches |
| Text.MatchFromNone | main.py:108 | when `re.search` finds nothing, the pattern matches at no position |
| Text.MatchFromLeftmost | main.py:107 | `re.search` finds the leftmost position at which the pattern matches |
| Text.SearchFails | main.py:108 | `re.search` returns None exactly when the pattern matches at no position |
| Text.SearchLeftmost | main.py:107 | the group found is that of the leftmost match |
| Text.SearchFinds | main.py:107 | in `a + open + g + close + b`, the group captured is `g` when `open` does not occur earlier, `close` starts nowhere in `g` and `g` is on one line |
| Numerals.Decimal | psp_json.py:69 | `str(n)` is a non-empty string of digits, a single digit exactly when `n < 10`, with no leading zero |
| Numerals.Pad2 | psp_json.py:69 | `f'{n:02}'` is all digits, at least two of them, exactly two when `n < 100` |
| Numerals.DecimalReadsBack | psp_json.py:69 | the digits of `str(n)` denote `n` |
| Numerals.Pad2Value | psp_json.py:69 | the digits of `f'{n:02}'` denote `n` |
| Numerals.ParseInt | main.py:111 | `int(text)`: optional surrounding whitespace and sign, then decimal digits; None where Python raises ValueError |
| Numerals.ParseFloat | main.py:132 | `float(text)`: optional surrounding whitespace and sign, then digits with at most one decimal point; None where Python raises ValueError |
| Numerals.ParseIntDecimal | main.py:111 | `int(str(n)) == n` |
| Numerals.ParseIntPad2 | main.py:111 | `int(f'{n:02}') == n` |
| Numerals.ParseFloatPoint | main.py:132 | `float('ip.fp')` is the integer digits plus the decimals scaled by `10^len(fp)` |
| Numerals.FormatDateFields | psp_json.py:69 | a formatted date splits at its dashes into its three fields, and each field reads back as the number it came from |
| Numerals.FormatDateOneToOne | psp_json.py:69 | two dates have the same `Y-MM-DD` text exactly when they are equal |
| PriceTable.Get | main.py:158 | `today[hour]` finds a value exactly when some entry has that hour, and the value is that entry's price |
| PriceTable.PutGet | main.py:132 | after `d[k] = v`, `d[k]` is `v` and every other key keeps its value |
| PriceTable.PutAppends | main.py:132 | assigning a new key adds it, with every existing key kept (the model lists it last) |
| PriceTable.PutOverwrites | main.py:132 | assigning an existing key keeps its position and changes only its value |
| PriceTable.PutDistinct | main.py:132 | assignment keeps the keys of the dict distinct |
| PriceTable.LastValue | main.py:128-132 | the last value given to a key in a run of assignments, or nothing if the run never assigns it |
| PriceTable.AssignGet | main.py:128-132 | after a run of assignments, each key holds the value it was given last, and keys the run never touched keep their old value |
| PriceTable.AssignDistinct | main.py:128-132 | assigning entries whose hours all differ to an empty dict yields exactly those entries, each key holding its price |
| PriceTable.BuildKeepsError | main.py:128-132 | once a pass has raised, later passes change nothing |
| PriceTable.BuildFails | main.py:128-132 | the loop raises exactly when some pass raises, and with the exception of the first pass that does |
| PriceTable.BuildAssigns | main.py:128-132 | when nothing is raised, the dict is the result of assigning every entry the passes produce, one pass after another |
| PriceTable.BuildGet | main.py:128-132 | when nothing is raised, each hour holds the price assigned to it last, and only assigned hours are present |
| PriceTable.BuildDistinct | main.py:128-132 | a dict the passes build without an exception holds each hour once, so its length is its number of keys |
| PriceTable.BuildAllAssign | psp_json.py:54-61 | passes that each assign one entry, with pairwise different hours, build exactly those entries |
| DailyStats.Average | main.py:138-144 | the running sum divided by the number of hours is the mean of the day's prices; an empty table raises ZeroDivisionError |
| DailyStats.SumBounds | main.py:140-141 | bounds on every price bound the sum |
| DailyStats.MeanBounds | main.py:142 | the average lies between the cheapest and the dearest hour |
| DailyStats.MeanOfFlatDay | main.py:142 | a day whose hours all cost the same has that price as its average |
| DailyStats.Insert | main.py:151 | inserting into a sorted list keeps it sorted and adds exactly the one value |
| DailyStats.Sort | main.py:151 | `list.sort()` yields the same prices (as a multiset) in ascending order |
| DailyStats.Median | main.py:147-154 | the collected and sorted prices, indexed at `int(len / 2)`: the upper median; an empty table raises IndexError |
| DailyStats.Count | main.py:152 | the number of prices in a given relation to a value never exceeds the number of prices |
| DailyStats.CountSort | main.py:151 | sorting does not change how many prices lie below (or at most at) a value |
| DailyStats.SortedCounts | main.py:152 | in a sorted list at most `k` elements lie below the element at index `k`, and at least `k + 1` are no greater than it |
| DailyStats.MedianProperties | main.py:152 | the upper median is one of the day's prices; at most half of the prices (rounded down) are cheaper, and more than half are no dearer |
| HtmlTable.ParseLines | main.py:127-135 | the loop over the lines of the table body gives the dict the passes build, or the first exception a line raises; the loop keeps the dict's hours pairwise different |
| HtmlTable.ParsePage | main.py:123-135 | `psp_parse`: the table of the first `<tbody>` block; a page without one raises AttributeError; a parsed table has pairwise different hours |
| HtmlTable.LineWithoutHourCell | main.py:131 | a line with no Hour cell (`<tr>`, `</tr>`, a blank line) adds nothing and raises nothing |
| HtmlTable.DayOfFormattedDate | main.py:111 | the day read back from a formatted Date cell is that date's day |
| HtmlTable.DateCellOfPage | main.py:107 | the first Date cell of a page holding a formatted date yields that date |
| HtmlTable.FirstPass | main.py:125 | the first replace turns the escaped newline inside a row into a real one |
| HtmlTable.SecondPass | main.py:126 | the second replace removes the newline and indentation after the Hour cell |
| HtmlTable.RowJoinsOntoOneLine | main.py:125-126 | both replace passes bring a row's Hour and Price cells, stored on two lines, onto one line |
| HtmlTable.HourCellOfLine | main.py:129 | on a joined row line, the Hour search yields the Hour cell's text |
| HtmlTable.PriceCellOfLine | main.py:130 | on a joined row line, the Price search yields the Price cell's text |
| HtmlTable.CellsLineEntry | main.py:129-132 | a joined row line contributes what its two cells say |
| HtmlTable.RowLineEntry | main.py:132 | a row with hour `str(h)` and price `ip.fp` stores that price under hour `h` minus the offset |
| MainLoop.CheckDate | main.py:106-120 | `check_date` as written: no Date cell exits; otherwise only the cell's day of month is compared with today's: greater exits, smaller downloads and reboots, equal keeps the page; a day that is not a number raises |
| MainLoop.IsTopOfHour | main.py:182-186 | `isTopOfHour`: the minute is 0 |
| MainLoop.Is1AM | main.py:175-179 | `is1AM`: the local hour is 1 |
| MainLoop.Timestamp | main.py:189-190 | `timestamp`: `[HH:MM:SS]` with each field zero-padded to two digits |
| MainLoop.CheckDateOfPage | main.py:106-120 | as written, only the day of month decides: a greater day exits, a smaller day downloads, an equal day keeps the page |
| MainLoop.CheckDateWithoutCell | main.py:108-110 | a page with no Date cell stops the program |
| MainLoop.StalePageAtMonthStartExits | main.py:111-113 | on 1 November, a page saved on 31 October, an earlier date, makes the check exit instead of fetching today's prices |
| MainLoop.DateOfFormattedDate | main.py:111 | a formatted Date cell reads back as its whole date |
| MainLoop.CheckDateFullOfPage | main.py:111-117 | comparing whole dates, a page from any earlier day is fetched anew (month and year ends included), a later one exits, and only today's is kept |
| MainLoop.PspPower | main.py:157-163 | the decision is ON exactly when the current hour's price is strictly below the average, the median and `max`; an hour missing from the table raises KeyError |
| MainLoop.OnHoursBelowMedian | main.py:158 | the hours switched ON are no more than the hours priced below the median |
| MainLoop.AtMostHalfOn | main.py:152-158 | with the day's own median, the power is ON for at most half of the hours, rounded down |
| MainLoop.FlatDayAllOff | main.py:158 | on a day when every hour costs the same, the power is OFF every hour |
| MainLoop.MidnightFix | main.py:167-172 | the local hour maps to the page's hour 1..24 that denotes the same time of day (midnight is 24) |
| MainLoop.MidnightFixOneToOne | main.py:167-172 | different local hours map to different page hours |
| MainLoop.TimestampFields | main.py:189-190 | `[HH:MM:SS]` is ten characters with brackets and colons in fixed places, and each field reads back as its number |
| MainLoop.TickOrder | main.py:227-236 | in one pass, the date check runs exactly at 1 AM on the hour and before the decision; the decision runs exactly on the hour, right after the hour is aligned |
| MainLoop.Controller.constructor | main.py:214-219 | the loop's state after boot: page, table, average, median and hour, with nothing sent yet |
| MainLoop.Controller.Tick | main.py:227-236 | one pass: off the hour it sleeps 30 s and changes nothing; at 1 AM, when the day-of-month check of main.py:106-120 does not keep the page, the loop ends with that check's outcome (download and reboot, or exit); otherwise the hour is aligned, the decision for it is sent and it sleeps 65 s, or KeyError ends the loop; the steps performed are those of `TickSteps`, or the date check alone when it stops the loop |
| MainLoop.Boot | main.py:214-220 | boot: when the day-of-month check of main.py:106-120 does not keep the page, boot ends with that check's outcome (download and reboot, or exit); a parse error or an empty table (ZeroDivisionError) ends it; otherwise the loop starts with the parsed table (pairwise different hours), its mean and upper median, the aligned hour and the first decision sent, then sleeps 30 s |
| JsonSource.DateToday | psp_json.py:64-75 | `date_today`: today's date as `Y-MM-DD`, except at 11 PM in standard time, when it is tomorrow's |
| JsonSource.CheckDate | psp_json.py:36-46 | `check_date` as written: the first record's date with the characters `T`, `0`, `:` stripped from both ends, compared with the requested date; different means download and reboot, equal keeps the payload; no record raises IndexError |
| JsonSource.DateTodayChoice | psp_json.py:64-75 | the requested date is tomorrow's exactly at 11 PM in standard time, and today's otherwise |
| JsonSource.DayEndingInZeroNeverMatches | psp_json.py:38-41 | as written: on the 10th, 20th and 30th the strip also removes the day's final `0`, so the payload never matches and is fetched again on every check |
| JsonSource.DayNotEndingInZeroMatches | psp_json.py:38-43 | as written: on every other day the strip leaves the date intact and today's payload is kept |
| JsonSource.DatePartOfTimestamp | psp_json.py:38 | the date part of `date + 'T00:00:00'` is the date |
| JsonSource.IntendedCheckMatches | psp_json.py:36-46 | corrected check: a payload is kept exactly when it is dated the requested day, and fetched again otherwise |
| JsonSource.Parse | psp_json.py:51-61 | the loop over the first 24 records gives the dict the passes build, or IndexError; its hours are pairwise different |
| JsonSource.ShortPayloadFails | psp_json.py:55 | fewer than 24 records raise IndexError |
| JsonSource.FullPayloadParses | psp_json.py:51-61 | with 24 records whose hours differ, the table holds exactly their prices under the shifted hours |
| JsonSource.StandardDayKeys | psp_json.py:57-60 | hour endings 1..24 fill local hours 0..23 in daylight time and -1..22 in standard time |
| HtmlSource.DownloadGuard | psp_html.py:35-38 | `download()` up to its network access: from 4 PM on it exits; before, it fetches the page and reboots |
| HtmlSource.CheckDate | psp_html.py:51-62 | `check_date`: no Date cell exits; a day of month other than today's goes to `download()` and its 4 PM guard; today's day keeps the page; a day that is not a number raises |
| HtmlSource.MissingFileRaises | psp_html.py:21-27 | as written: without a stored page the import raises NameError, where a download is meant |
| HtmlSource.LoadIntendedFetches | psp_html.py:21-48 | corrected start-up: never raises; a stored page is used, and without one the page is fetched before 4 PM and the program exits after |
| HtmlSource.CheckDateOfPage | psp_html.py:51-62 | a page showing today's day is kept; any other day is fetched again before 4 PM and stops the program from 4 PM on |
| HtmlSource.NoDownloadAfterFour | psp_html.py:36-38 | no page is ever downloaded from 4 PM on |
| HtmlSource.CheckDateWithoutCell | psp_html.py:53-55 | a page with no Date cell stops the program |
| HtmlSource.Parse | psp_html.py:65-80 | the page's table, hours shifted by the daylight-saving offset, pairwise different |
| HtmlSource.RowKey | psp_html.py:74-77 | a row for hour `h` lands under `h` in daylight time and under `h - 1` in standard time |
| CsvSource.ReportName | psp_csv.py:23 | the report's file name: the date with its dashes removed, then `_da_expost_lmp.csv` |
| CsvSource.Record | psp_csv.py:28-37 | what `download` returns for a report: the last line with a `/` and the last `AMIL.BGS5` `Loadzone` `LMP` line without one, joined by a comma; NameError when either is missing |
| CsvSource.DateMatch | psp_csv.py:53-61 | `date_match`: the first comma item split at `/` and rearranged from `m/d/y` to `y-m-d`, compared with the date as text; fewer than three fields raise IndexError |
| CsvSource.ReplaceRemoves | psp_csv.py:23 | replacing a one-character string by nothing removes every occurrence of that character |
| CsvSource.ReportNameOfDate | psp_csv.py:23 | the report for date `d` is named by the year, zero-padded month and zero-padded day, followed by the report suffix |
| CsvSource.LastOfNone | psp_csv.py:29-35 | no line is selected exactly when no line is of that kind |
| CsvSource.LastOfIsLast | psp_csv.py:29-35 | the line selected is of that kind, and no later line is |
| CsvSource.SelectLines | psp_csv.py:28-37 | the line loop keeps the last date line and the last price row and joins them with a comma; without either it raises NameError |
| CsvSource.RecordItems | psp_csv.py:37-44 | the record's items are the date line followed by the price row's items |
| CsvSource.ReportDateFields | psp_csv.py:56 | the report's `MM/DD/YYYY` date splits at `/` into month, day and year |
| CsvSource.DateMatchRoundTrip | psp_csv.py:53-61 | a record dated `d` in the report's format matches the requested date exactly when `d` is that date |
| CsvSource.DateMatchFields | psp_csv.py:53-61 | for any month, day and year fields free of `/` and `,`, `date_match` on `m/d/y,...` is true exactly when `y-m-d` equals the requested date as text |
| CsvSource.DateMatchAddsNoPadding | psp_csv.py:57-58 | no zero padding is added: a record dated `1/5/2021` does not match `2021-01-05` |
| CsvSource.DateMatchWithoutSlashes | psp_csv.py:56-57 | a first item without `/` raises IndexError |
| CsvSource.ItemOutcome | psp_csv.py:46-49 | a pass that does not raise assigns to local hour `n` minus the daylight-saving shift; IndexError exactly when the item is missing |
| CsvSource.ParseItems | psp_csv.py:43-50 | the 24-pass loop gives the dict the passes build, or the first exception; its hours are pairwise different |
| CsvSource.Parse | psp_csv.py:42-50 | `parse`: the record split at commas, then the 24 passes; a parsed dict has pairwise different hours |
| CsvSource.ParseComplete | psp_csv.py:45-49 | a record with 24 numeric price items yields exactly those prices divided by 1000, each under its hour |
| CsvSource.ParseFails | psp_csv.py:42-50 | parsing raises exactly when the record is too short or one of the 24 price items is not a number |
| CsvSource.ParseKeys | psp_csv.py:46-49 | a parsed record fills hours 0..23 in daylight time and -1..22 in standard time |

## Left out

- Network access is not modelled. This covers `urequests`/`urequest` calls and HTTP status codes in `psp_download` (main.py:96-103) and in the `download` functions of psp_json.py:21-33, psp_html.py:39-48 and psp_csv.py:24-27. The report text is a parameter of `CsvSource.SelectLines`.
- psp_json.py:33: when the download status is not 200, `data` is unbound and the function raises. This path is part of the download, so it is not modelled.
- The model keeps the price table in one fixed iteration order: new keys last, and an overwritten key keeps its place. A MicroPython dict does not promise an order. Nothing the program computes depends on it: `psp_average` sums the prices and `psp_median` sorts them.
- File I/O is not modelled: reading and writing the stored page, loading the transmitter code file (main.py:199-212), and `raw_data = download()` at psp_json.py:86. `MainLoop.Boot` starts with the page already in memory.
- `print`, the `timestamp()` text inside messages and the `:.3f` formatting are not modelled.
- `time.sleep` appears only as the number of seconds in `Slept`. `reset()` and `exit()` appear only as the `Download` and `Exit` outcomes.
- The clock, `tz()`, `tz(format='bool')` and `isDST` are read once per modelled call and passed in as parameters. The source reads them again within one call: main.py:111-116, main.py:168-171, psp_html.py:56-58, psp_html.py:74, psp_json.py:39-42, psp_json.py:66-71 and psp_csv.py:46. A clock change in the middle of a call (midnight, or a daylight-saving switch) is not modelled.
- `transmit('on'/'off')` is modelled as appending to `Controller.sent`. The 433 MHz protocol is not part of this model.
- Prices are exact reals. Binary floating-point rounding in `float()`, `+=`, `/` and `/ 1000` is not modelled.
- `int()` and `float()` are modelled for ASCII decimal text with a sign and surrounding ASCII whitespace. Exponents, `inf`/`nan`, underscores and non-ASCII digits are not modelled.
- JSON decoding is not modelled. The `hour` and `price` fields are taken as already-decoded numbers, so `int(hour)` and `float(price)` on strings are not modelled.
- Regular expressions are modelled only in the form the program uses: `open(.*?)close` with literal `open` and `close`.
- Text.CloseAfter: the lazy group stops at a newline, because CPython's `.` does not match one. MicroPython's `re` lets `.` match a newline. No text the program searches can tell the two apart. Each stored page is written by a single `print` of a bytes object (main.py:99, psp_html.py:43), so its line breaks are the two characters `\` `n`, and the table is split at real newlines before its cells are searched (main.py:128, psp_html.py:70). On a cell that holds a real newline, such as `<td id="Date">2021-11-\n01</td>`, the model finds no match where MicroPython would.
- The final `else` branches of main.py:118-120, psp_html.py:60-62, psp_json.py:44-46 and psp_json.py:73-75 are unreachable when the clock is read once, as the model does. Each is closed in the model by `assert false`. In the source, each comparison reads the clock again, so one of these branches can be reached when the day or the daylight-saving flag changes between two reads. For example, main.py:111, :114 and :116 could read the 15th, the 15th and the 16th, so no comparison holds and the program exits.

## Findings

| source | as written | input that shows it | evidently intended | confidence | as-written member | corrected member |
|---|---|---|---|---|---|---|
| psp_json.py:38 | `.strip('T00:00:00')` strips any of the characters `T`, `0`, `:` from both ends | first record dated `2021-11-10T00:00:00`: the check compares `2021-11-1` with `2021-11-10` | drop the time part and keep the whole date, so the 10th, 20th and 30th match | high, not executed | JsonSource.DayEndingInZeroNeverMatches | JsonSource.CheckDateIntended, proved by JsonSource.IntendedCheckMatches |
| main.py:111 | only the day of month is compared, and a greater day means "tomorrow's data", so the program exits | today 2021-11-01, stored page dated 2021-10-31: 31 > 1 gives `exit()` at 1 AM | compare whole dates: a page from an earlier date is downloaded again | high, not executed | MainLoop.StalePageAtMonthStartExits | MainLoop.CheckDateFull, proved by MainLoop.CheckDateFullOfPage |
| psp_html.py:27 | the start-up code calls `download()` before its `def` at line 35 has run | no `psp-data.html` on disk at import: the name is unbound and NameError is raised | fetch the page (before 4 PM) as `download()` does | high, not executed | HtmlSource.MissingFileRaises | HtmlSource.LoadIntended, proved by HtmlSource.LoadIntendedFetches |

`MainLoop.Controller.Tick` and `MainLoop.Boot` model the program as written,
with the day-only `MainLoop.CheckDate`. The corrected whole-date check
`MainLoop.CheckDateFull` is stated and proved on its own.
