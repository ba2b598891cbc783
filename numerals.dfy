/** Decimal text and numbers: `str(n)`, the `:02` format, and Python's
    `int(text)` and `float(text)` on ASCII decimal text. */
module Numerals {
  import opened Common
  import opened Text

  predicate IsDigit(c: char)
  {
    '0' <= c <= '9'
  }

  predicate AllDigits(s: string)
  {
    forall k :: 0 <= k < |s| ==> IsDigit(s[k])
  }

  function DigitChar(d: nat): (c: char)
    requires d < 10
    ensures IsDigit(c) && c as int - '0' as int == d
  {
    (d + '0' as int) as char
  }

  function DigitValue(c: char): nat
    requires IsDigit(c)
  {
    c as int - '0' as int
  }

  /** The number a string of decimal digits denotes (0 for no digits). */
  function DigitsValue(s: string): nat
    requires AllDigits(s)
  {
    if s == [] then 0 else DigitsValue(s[..|s| - 1]) * 10 + DigitValue(s[|s| - 1])
  }

  function Pow10(k: nat): (p: nat)
    ensures p >= 1
  {
    if k == 0 then 1 else 10 * Pow10(k - 1)
  }

  /** `str(n)` (and `f'{n}'`) for a non-negative integer. */
  function Decimal(n: nat): (r: string)
    ensures 1 <= |r| && AllDigits(r)
    ensures |r| == 1 <==> n < 10
    ensures |r| > 1 ==> r[0] != '0'
  {
    if n < 10 then [DigitChar(n)] else Decimal(n / 10) + [DigitChar(n % 10)]
  }

  /** `f'{n:02}'`: the decimal digits, zero-padded on the left to width two. */
  function Pad2(n: nat): (r: string)
    ensures AllDigits(r) && 2 <= |r|
    ensures n < 100 ==> |r| == 2
  {
    if n < 10 then "0" + Decimal(n) else Decimal(n)
  }

  /** The last digit of `str(n)` is `n % 10`. */
  lemma DecimalLast(n: nat)
    ensures var r := Decimal(n); r[|r| - 1] == DigitChar(n % 10)
  {
  }

  /** `str(n)` of a positive number does not start with `0`. */
  lemma DecimalHead(n: nat)
    requires n >= 1
    ensures Decimal(n)[0] != '0'
  {
    if n < 10 {
      assert Decimal(n) == [DigitChar(n)];
    }
  }

  /** The last digit of `f'{n:02}'` is `n % 10` too. */
  lemma Pad2Last(n: nat)
    ensures var r := Pad2(n); r[|r| - 1] == DigitChar(n % 10)
  {
    DecimalLast(n);
    if n < 10 {
      assert Pad2(n) == "0" + Decimal(n);
    }
  }

  /** Reading back the digits of `str(n)` gives `n`. */
  lemma {:induction false} DecimalReadsBack(n: nat)
    ensures DigitsValue(Decimal(n)) == n
  {
    if n >= 10 {
      DecimalReadsBack(n / 10);
      var d := Decimal(n);
      assert d[..|d| - 1] == Decimal(n / 10);
    }
  }

  /** A leading zero does not change the value of a digit string. */
  lemma {:induction false} LeadingZero(s: string)
    requires AllDigits(s)
    ensures AllDigits("0" + s) && DigitsValue("0" + s) == DigitsValue(s)
    decreases |s|
  {
    if s != [] {
      LeadingZero(s[..|s| - 1]);
      assert ("0" + s)[..|s|] == "0" + s[..|s| - 1];
    }
  }

  /** Reading back the digits of `f'{n:02}'` gives `n`. */
  lemma Pad2Value(n: nat)
    ensures DigitsValue(Pad2(n)) == n
  {
    DecimalReadsBack(n);
    if n < 10 {
      LeadingZero(Decimal(n));
    }
  }

  /** The whitespace that `int()` and `float()` ignore around a number (ASCII only). */
  const Whitespace: set<char> := {' ', '\t', '\n', '\r', 11 as char, 12 as char}

  /** Python's `int(text)`: surrounding whitespace, an optional sign, then at
      least one decimal digit; None where Python raises ValueError. */
  function ParseInt(s: string): Option<int>
  {
    var t := Strip(s, Whitespace);
    if t != [] && (t[0] == '+' || t[0] == '-') then
      var digits := t[1..];
      if digits != [] && AllDigits(digits) then
        Some(if t[0] == '-' then -(DigitsValue(digits) as int) else DigitsValue(digits))
      else None
    else if t != [] && AllDigits(t) then Some(DigitsValue(t))
    else None
  }

  /** The number written `ip.fp`: integer digits, then `|fp|` decimals. */
  function PointValue(ip: string, fp: string): real
    requires AllDigits(ip) && AllDigits(fp)
  {
    DigitsValue(ip) as real + DigitsValue(fp) as real / Pow10(|fp|) as real
  }

  /** The value of unsigned decimal text `ip.fp`, `ip` or `.fp`. */
  function UnsignedValue(body: string): Option<real>
  {
    var point := Find(body, ".");
    if point.None? then
      if body != [] && AllDigits(body) then Some(DigitsValue(body) as real) else None
    else
      var ip := body[..point.value];
      var fp := body[point.value + 1..];
      if AllDigits(ip) && AllDigits(fp) && |ip| + |fp| > 0 then Some(PointValue(ip, fp))
      else None
  }

  /** Python's `float(text)` for plain decimal notation: surrounding
      whitespace, an optional sign, digits with at most one decimal point and
      at least one digit; None where Python raises ValueError. */
  function ParseFloat(s: string): Option<real>
  {
    var t := Strip(s, Whitespace);
    if t != [] && (t[0] == '+' || t[0] == '-') then
      match UnsignedValue(t[1..])
      case None => None
      case Some(v) => Some(if t[0] == '-' then -v else v)
    else UnsignedValue(t)
  }

  /** Digit text is not changed by stripping whitespace. */
  lemma StripDigits(s: string)
    requires AllDigits(s)
    ensures Strip(s, Whitespace) == s
  {
    if s != [] {
      assert IsDigit(s[0]) && IsDigit(s[|s| - 1]);
      StripKeeps(s, Whitespace);
    }
  }

  /** `int()` of plain digit text is the value of the digits. */
  lemma ParseIntDigits(d: string)
    requires d != [] && AllDigits(d)
    ensures ParseInt(d) == Some(DigitsValue(d))
  {
    StripDigits(d);
    assert IsDigit(d[0]);
  }

  /** `int(str(n)) == n`. */
  lemma ParseIntDecimal(n: nat)
    ensures ParseInt(Decimal(n)) == Some(n)
  {
    ParseIntDigits(Decimal(n));
    DecimalReadsBack(n);
  }

  /** `int(f'{n:02}') == n`: the padded form reads back too. */
  lemma ParseIntPad2(n: nat)
    ensures ParseInt(Pad2(n)) == Some(n)
  {
    ParseIntDigits(Pad2(n));
    Pad2Value(n);
  }

  /** The unsigned value of `ip + "." + fp`. */
  lemma UnsignedValuePoint(ip: string, fp: string)
    requires AllDigits(ip) && AllDigits(fp) && |ip| + |fp| > 0
    ensures UnsignedValue(ip + "." + fp) == Some(PointValue(ip, fp))
  {
    var s := ip + "." + fp;
    assert OccursAt(s, ".", |ip|);
    forall j | 0 <= j < |ip| ensures !OccursAt(s, ".", j) {
      assert s[j] == ip[j];
    }
    FindIs(s, ".", |ip|);
    assert s[..|ip|] == ip && s[|ip| + 1..] == fp;
  }

  /** `float(ip + "." + fp)` is the value of the digits with `|fp|` decimals. */
  lemma ParseFloatPoint(ip: string, fp: string)
    requires ip != [] && AllDigits(ip) && AllDigits(fp)
    ensures ParseFloat(ip + "." + fp) == Some(PointValue(ip, fp))
  {
    var s := ip + "." + fp;
    assert s[0] == ip[0] && IsDigit(s[0]);
    assert s[|s| - 1] == '.' || IsDigit(s[|s| - 1]);
    StripKeeps(s, Whitespace);
    UnsignedValuePoint(ip, fp);
  }

  /** `f'{y}-{m:02}-{d:02}'`: a date as year, zero-padded month and
      zero-padded day, joined by dashes. */
  function FormatDate(d: Date): string
  {
    Decimal(d.year) + "-" + Pad2(d.month) + "-" + Pad2(d.day)
  }

  /** A formatted date splits at its dashes into exactly its three fields,
      and each field reads back as the number it was made from. */
  lemma FormatDateFields(d: Date)
    ensures Split(FormatDate(d), "-") == [Decimal(d.year), Pad2(d.month), Pad2(d.day)]
    ensures ParseInt(Decimal(d.year)) == Some(d.year)
    ensures ParseInt(Pad2(d.month)) == Some(d.month)
    ensures ParseInt(Pad2(d.day)) == Some(d.day)
  {
    var y, m, dd := Decimal(d.year), Pad2(d.month), Pad2(d.day);
    assert '-' !in y && '-' !in m && '-' !in dd;
    SplitThree(y, m, dd, '-');
    ParseIntDecimal(d.year);
    ParseIntPad2(d.month);
    ParseIntPad2(d.day);
  }

  /** Different dates are formatted differently. */
  lemma FormatDateOneToOne(a: Date, b: Date)
    ensures FormatDate(a) == FormatDate(b) <==> a == b
  {
    if FormatDate(a) == FormatDate(b) {
      FormatDateFields(a);
      FormatDateFields(b);
    }
  }
}
