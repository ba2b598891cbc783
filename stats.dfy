/** The day's statistics main.py derives from the price table: the mean
    (`psp_average`) and the upper median (`psp_median`). */
module DailyStats {
  import opened Common
  import opened PriceTable

  function Sum(s: seq<real>): real
  {
    if s == [] then 0.0 else Sum(s[..|s| - 1]) + s[|s| - 1]
  }

  /** The arithmetic mean of a non-empty list of prices. */
  function Mean(s: seq<real>): real
    requires s != []
  {
    Sum(s) / |s| as real
  }

  /** `psp_average`: the prices are added up one by one, then divided by the
      number of hours; an empty table raises ZeroDivisionError. */
  method Average(today: Table) returns (r: Result<real>)
    ensures today == [] ==> r == Err(ZeroDivisionError)
    ensures today != [] ==> r == Ok(Mean(Prices(today)))
  {
    var prices := Prices(today);
    var average := 0.0;
    var i := 0;
    while i < |today|
      invariant 0 <= i <= |today|
      invariant average == Sum(prices[..i])
    {
      assert prices[..i + 1][..i] == prices[..i];
      // iterating a dict yields each key once; `today[hour]` is its own entry's price
      average := average + today[i].price;
      i := i + 1;
    }
    assert prices[..|today|] == prices;
    if |today| == 0 {
      return Err(ZeroDivisionError);
    }
    return Ok(average / |today| as real);
  }

  /** Bounds on every element bound the sum. */
  lemma {:induction false} SumBounds(s: seq<real>, lo: real, hi: real)
    requires forall k :: 0 <= k < |s| ==> lo <= s[k] <= hi
    ensures |s| as real * lo <= Sum(s) <= |s| as real * hi
  {
    if s != [] {
      SumBounds(s[..|s| - 1], lo, hi);
    }
  }

  /** The mean lies between any lower and any upper bound of the prices, so
      between the cheapest and the dearest hour of the day. */
  lemma MeanBounds(s: seq<real>, lo: real, hi: real)
    requires s != []
    requires forall k :: 0 <= k < |s| ==> lo <= s[k] <= hi
    ensures lo <= Mean(s) <= hi
  {
    SumBounds(s, lo, hi);
    assert Mean(s) * |s| as real == Sum(s);
  }

  /** A day on which every hour costs the same has that price as its mean. */
  lemma MeanOfFlatDay(s: seq<real>, c: real)
    requires s != []
    requires forall k :: 0 <= k < |s| ==> s[k] == c
    ensures Mean(s) == c
  {
    MeanBounds(s, c, c);
  }

  predicate Sorted(s: seq<real>)
  {
    forall i, j :: 0 <= i < j < |s| ==> s[i] <= s[j]
  }

  /** A bound below `x` and every element of `t` is below every element of a
      list holding the same values as `t` and `x`. */
  lemma BelowAll(m: real, x: real, t: seq<real>, r: seq<real>)
    requires m <= x && forall k :: 0 <= k < |t| ==> m <= t[k]
    requires multiset(r) == multiset(t) + multiset{x}
    ensures forall k :: 0 <= k < |r| ==> m <= r[k]
  {
    forall k | 0 <= k < |r| ensures m <= r[k] {
      assert r[k] in multiset(r);
      if r[k] != x {
        assert r[k] in multiset(t);
      }
    }
  }

  /** `x` put into its place in a sorted list. */
  function Insert(x: real, s: seq<real>): (r: seq<real>)
    requires Sorted(s)
    ensures Sorted(r) && multiset(r) == multiset(s) + multiset{x}
  {
    if s == [] then [x]
    else if x <= s[0] then [x] + s
    else
      var rest := Insert(x, s[1..]);
      assert s == [s[0]] + s[1..];
      BelowAll(s[0], x, s[1..], rest);
      [s[0]] + rest
  }

  /** `list.sort()` on prices: the same values, in ascending order. */
  function Sort(s: seq<real>): (r: seq<real>)
    ensures Sorted(r) && multiset(r) == multiset(s) && |r| == |s|
  {
    if s == [] then []
    else
      assert s == [s[0]] + s[1..];
      Insert(s[0], Sort(s[1..]))
  }

  /** `psp_median`: the prices are copied into a list one by one, the list is
      sorted, and the element at index `int(len / 2)` is taken (the upper
      median); an empty table raises IndexError. */
  method Median(today: Table) returns (r: Result<real>)
    ensures today == [] ==> r == Err(IndexError)
    ensures today != [] ==> r == Ok(Sort(Prices(today))[|today| / 2])
  {
    var medianList: seq<real> := [];
    for i := 0 to |today|
      invariant medianList == Prices(today)[..i]
    {
      medianList := medianList + [today[i].price];
    }
    assert medianList == Prices(today);
    var sorted := Sort(medianList);
    var middle := |sorted| / 2;
    if middle >= |sorted| {
      return Err(IndexError);
    }
    return Ok(sorted[middle]);
  }

  /** The comparisons the properties below count by. */
  datatype Comparison = Below | AtMost

  predicate Holds(c: Comparison, x: real, m: real)
  {
    match c
    case Below => x < m
    case AtMost => x <= m
  }

  /** How many elements of `s` stand in relation `c` to `m`. */
  function Count(s: seq<real>, c: Comparison, m: real): (n: nat)
    ensures n <= |s|
  {
    if s == [] then 0 else (if Holds(c, s[0], m) then 1 else 0) + Count(s[1..], c, m)
  }

  lemma {:induction false} CountConcat(a: seq<real>, b: seq<real>, c: Comparison, m: real)
    ensures Count(a + b, c, m) == Count(a, c, m) + Count(b, c, m)
  {
    if a != [] {
      assert (a + b)[1..] == a[1..] + b;
      CountConcat(a[1..], b, c, m);
    } else {
      assert a + b == b;
    }
  }

  lemma {:induction false} CountInsert(x: real, s: seq<real>, c: Comparison, m: real)
    requires Sorted(s)
    ensures Count(Insert(x, s), c, m) == Count(s, c, m) + (if Holds(c, x, m) then 1 else 0)
  {
    if s != [] && x > s[0] {
      var rest := Insert(x, s[1..]);
      assert ([s[0]] + rest)[1..] == rest;
      CountInsert(x, s[1..], c, m);
    }
  }

  /** Sorting does not change how many prices lie below (or at most at) a value. */
  lemma {:induction false} CountSort(s: seq<real>, c: Comparison, m: real)
    ensures Count(Sort(s), c, m) == Count(s, c, m)
  {
    if s != [] {
      CountSort(s[1..], c, m);
      CountInsert(s[0], Sort(s[1..]), c, m);
    }
  }

  lemma {:induction false} CountNone(s: seq<real>, c: Comparison, m: real)
    requires forall k :: 0 <= k < |s| ==> !Holds(c, s[k], m)
    ensures Count(s, c, m) == 0
  {
    if s != [] {
      CountNone(s[1..], c, m);
    }
  }

  lemma {:induction false} CountAll(s: seq<real>, c: Comparison, m: real)
    requires forall k :: 0 <= k < |s| ==> Holds(c, s[k], m)
    ensures Count(s, c, m) == |s|
  {
    if s != [] {
      CountAll(s[1..], c, m);
    }
  }

  /** In a sorted list at most `k` elements lie below the element at index
      `k`, and at least `k + 1` are no greater than it. */
  lemma SortedCounts(t: seq<real>, k: nat)
    requires Sorted(t) && k < |t|
    ensures Count(t, Below, t[k]) <= k && Count(t, AtMost, t[k]) >= k + 1
  {
    var m := t[k];
    assert t == t[..k] + t[k..];
    CountConcat(t[..k], t[k..], Below, m);
    CountNone(t[k..], Below, m);
    assert t == t[..k + 1] + t[k + 1..];
    CountConcat(t[..k + 1], t[k + 1..], AtMost, m);
    CountAll(t[..k + 1], AtMost, m);
  }

  /** The upper median is one of the day's prices; at most half of the prices
      (rounded down) are strictly cheaper, and more than half are no dearer. */
  lemma MedianProperties(s: seq<real>)
    requires s != []
    ensures var m := Sort(s)[|s| / 2];
            m in multiset(s) && Count(s, Below, m) <= |s| / 2 && Count(s, AtMost, m) >= |s| / 2 + 1
  {
    var t := Sort(s);
    var m := t[|s| / 2];
    assert m in multiset(t);
    SortedCounts(t, |s| / 2);
    CountSort(s, Below, m);
    CountSort(s, AtMost, m);
  }
}
