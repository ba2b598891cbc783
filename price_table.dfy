/** The price table every parser builds: a dict from hour to price, kept as
    a sequence of entries with distinct hours. `d[k] = v` overwrites the
    value of a key already present or adds a new key. The sequence fixes one
    iteration order (new keys last); a MicroPython dict promises no order,
    and nothing the program computes from the table depends on it: the
    average sums the values and the median sorts them. */
module PriceTable {
  import opened Common

  /** One `today[hour] = price` pair. */
  datatype Entry = Entry(hour: int, price: real)

  /** A dict from hour to price, as entries in the model's iteration order. */
  type Table = seq<Entry>

  /** The values (`list(d.values())`), in the model's iteration order. */
  function Prices(t: Table): seq<real>
  {
    seq(|t|, i requires 0 <= i < |t| => t[i].price)
  }

  /** No key occurs twice, as in every real dict. */
  predicate DistinctKeys(t: Table)
  {
    forall i, j :: 0 <= i < j < |t| ==> t[i].hour != t[j].hour
  }

  /** `d.get(k)`: the value stored under `k`, None where `d[k]` raises KeyError. */
  function Get(t: Table, k: int): (r: Option<real>)
    ensures r.None? <==> forall i :: 0 <= i < |t| ==> t[i].hour != k
    ensures r.Some? ==> exists i :: 0 <= i < |t| && t[i] == Entry(k, r.value)
  {
    if t == [] then None
    else if t[0].hour == k then Some(t[0].price)
    else
      var r := Get(t[1..], k);
      assert r.Some? ==> t[1..][0] == t[1];
      r
  }

  /** `d[k] = v`. */
  function Put(t: Table, k: int, v: real): Table
  {
    if t == [] then [Entry(k, v)]
    else if t[0].hour == k then [Entry(k, v)] + t[1..]
    else [t[0]] + Put(t[1..], k, v)
  }

  /** After `d[k] = v`, `d[k]` is `v` and every other key keeps its value. */
  lemma {:induction false} PutGet(t: Table, k: int, v: real, j: int)
    ensures Get(Put(t, k, v), j) == if j == k then Some(v) else Get(t, j)
  {
    if t != [] && t[0].hour != k {
      PutGet(t[1..], k, v, j);
      assert Put(t, k, v)[1..] == Put(t[1..], k, v);
    }
  }

  /** A new key goes to the end of the dict. */
  lemma {:induction false} PutAppends(t: Table, k: int, v: real)
    requires forall i :: 0 <= i < |t| ==> t[i].hour != k
    ensures Put(t, k, v) == t + [Entry(k, v)]
  {
    if t != [] {
      PutAppends(t[1..], k, v);
      assert t == [t[0]] + t[1..];
    }
  }

  /** A key already present keeps its place; only its value changes. */
  lemma {:induction false} PutOverwrites(t: Table, k: int, v: real, i: nat)
    requires i < |t| && t[i].hour == k && forall j :: 0 <= j < i ==> t[j].hour != k
    ensures Put(t, k, v) == t[i := Entry(k, v)]
  {
    if i > 0 {
      PutOverwrites(t[1..], k, v, i - 1);
      assert t[1..][i - 1 := Entry(k, v)] == t[i := Entry(k, v)][1..];
    }
  }

  /** `d[k] = v` keeps the keys distinct. */
  lemma PutDistinct(t: Table, k: int, v: real)
    requires DistinctKeys(t)
    ensures DistinctKeys(Put(t, k, v))
  {
    if Get(t, k).None? {
      PutAppends(t, k, v);
    } else {
      var i :| 0 <= i < |t| && t[i].hour == k;
      forall j | 0 <= j < i ensures t[j].hour != k {
      }
      PutOverwrites(t, k, v, i);
    }
  }

  /** The dict after `d[e.hour] = e.price` for each `e` of `es` in turn. */
  function Assign(t: Table, es: seq<Entry>): Table
  {
    if es == [] then t
    else
      var last := es[|es| - 1];
      Put(Assign(t, es[..|es| - 1]), last.hour, last.price)
  }

  /** The price of the last entry of `es` with hour `k`. */
  function LastValue(es: seq<Entry>, k: int): (r: Option<real>)
    ensures r.None? <==> forall i :: 0 <= i < |es| ==> es[i].hour != k
    ensures r.Some? ==> exists i :: 0 <= i < |es| && es[i] == Entry(k, r.value) &&
                                    forall j :: i < j < |es| ==> es[j].hour != k
  {
    if es == [] then None
    else if es[|es| - 1].hour == k then Some(es[|es| - 1].price)
    else LastValue(es[..|es| - 1], k)
  }

  /** After a run of assignments, each key holds the value it was given last;
      keys the run never touched keep their old value. */
  lemma {:induction false} AssignGet(t: Table, es: seq<Entry>, k: int)
    ensures Get(Assign(t, es), k) == if LastValue(es, k).Some? then LastValue(es, k) else Get(t, k)
  {
    if es != [] {
      var last := es[|es| - 1];
      AssignGet(t, es[..|es| - 1], k);
      PutGet(Assign(t, es[..|es| - 1]), last.hour, last.price, k);
    }
  }

  /** Assignments with pairwise different hours to an empty dict yield exactly
      those entries, in the model's order of assignment. */
  lemma {:induction false} AssignDistinct(es: seq<Entry>)
    requires DistinctKeys(es)
    ensures Assign([], es) == es
  {
    if es != [] {
      var init := es[..|es| - 1];
      var last := es[|es| - 1];
      assert DistinctKeys(init);
      AssignDistinct(init);
      forall i | 0 <= i < |init| ensures init[i].hour != last.hour {
        assert init[i] == es[i];
      }
      PutAppends(init, last.hour, last.price);
      assert init + [last] == es;
    }
  }

  /** What one pass of a parsing loop does: assign an entry, add nothing, or
      raise an exception. */
  type Outcome = Result<Option<Entry>>

  /** The dict a parsing loop builds from an empty one, one outcome per pass,
      or the exception of the first pass that raises (later passes never run). */
  function Build(outs: seq<Outcome>): Result<Table>
  {
    if outs == [] then Ok([])
    else
      var before := Build(outs[..|outs| - 1]);
      var last := outs[|outs| - 1];
      if before.Err? then before
      else if last.Err? then Err(last.error)
      else if last.value.None? then before
      else Ok(Put(before.value, last.value.value.hour, last.value.value.price))
  }

  /** One more pass: the dict after `n + 1` passes from the dict after `n`. */
  lemma BuildStep(outs: seq<Outcome>, n: nat)
    requires n < |outs| && Build(outs[..n]).Ok?
    ensures outs[n].Err? ==> Build(outs[..n + 1]) == Err(outs[n].error)
    ensures outs[n] == Ok(None) ==> Build(outs[..n + 1]) == Build(outs[..n])
    ensures outs[n].Ok? && outs[n].value.Some? ==>
              Build(outs[..n + 1]) == Ok(Put(Build(outs[..n]).value, outs[n].value.value.hour, outs[n].value.value.price))
  {
    assert outs[..n + 1][..n] == outs[..n];
  }

  /** The entries the passes assign, in order. */
  function Assigned(outs: seq<Outcome>): seq<Entry>
  {
    if outs == [] then []
    else
      var last := outs[|outs| - 1];
      if last.Ok? && last.value.Some? then Assigned(outs[..|outs| - 1]) + [last.value.value]
      else Assigned(outs[..|outs| - 1])
  }

  /** Once a pass has raised, the passes after it change nothing. */
  lemma {:induction false} BuildKeepsError(outs: seq<Outcome>, n: nat)
    requires n <= |outs| && Build(outs[..n]).Err?
    ensures Build(outs) == Build(outs[..n])
    decreases |outs| - n
  {
    if n < |outs| {
      assert outs[..n + 1][..n] == outs[..n];
      BuildKeepsError(outs, n + 1);
    } else {
      assert outs[..n] == outs;
    }
  }

  /** The loop raises exactly when some pass raises, and then with the
      exception of the first such pass. */
  lemma {:induction false} BuildFails(outs: seq<Outcome>)
    ensures Build(outs).Err? <==> exists i :: 0 <= i < |outs| && outs[i].Err?
    ensures Build(outs).Err? ==>
              exists i :: 0 <= i < |outs| && outs[i] == Err(Build(outs).error) &&
                          forall j :: 0 <= j < i ==> outs[j].Ok?
  {
    if outs != [] {
      var init := outs[..|outs| - 1];
      BuildFails(init);
      assert forall i :: 0 <= i < |init| ==> init[i] == outs[i];
    }
  }

  /** Without an exception, the dict is the result of assigning every entry
      the passes produce, in order. */
  lemma {:induction false} BuildAssigns(outs: seq<Outcome>)
    requires Build(outs).Ok?
    ensures Build(outs).value == Assign([], Assigned(outs))
  {
    if outs != [] {
      BuildAssigns(outs[..|outs| - 1]);
    }
  }

  /** Without an exception, each key holds the value assigned to it last, and
      only keys some pass assigned are present. */
  lemma BuildGet(outs: seq<Outcome>, k: int)
    requires Build(outs).Ok?
    ensures Get(Build(outs).value, k) == LastValue(Assigned(outs), k)
  {
    BuildAssigns(outs);
    AssignGet([], Assigned(outs), k);
  }

  /** Whatever the passes assign, the dict they build holds each hour at most
      once, so its length is the number of its keys. */
  lemma {:induction false} BuildDistinct(outs: seq<Outcome>)
    requires Build(outs).Ok?
    ensures DistinctKeys(Build(outs).value)
  {
    if outs != [] {
      var init := outs[..|outs| - 1];
      BuildDistinct(init);
      var last := outs[|outs| - 1];
      if last.value.Some? {
        PutDistinct(Build(init).value, last.value.value.hour, last.value.value.price);
      }
    }
  }

  /** Passes that each assign an entry of `es`, whose hours differ, build
      exactly `es`. */
  lemma {:induction false} BuildAllAssign(outs: seq<Outcome>, es: seq<Entry>)
    requires |outs| == |es| && DistinctKeys(es)
    requires forall i :: 0 <= i < |outs| ==> outs[i] == Ok(Some(es[i]))
    ensures Build(outs) == Ok(es)
  {
    if outs != [] {
      var n := |outs| - 1;
      assert DistinctKeys(es[..n]);
      BuildAllAssign(outs[..n], es[..n]);
      forall i | 0 <= i < n ensures es[..n][i].hour != es[n].hour {
        assert es[..n][i] == es[i];
      }
      PutAppends(es[..n], es[n].hour, es[n].price);
      assert es[..n] + [es[n]] == es;
    }
  }
}
