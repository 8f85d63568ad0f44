/** One parent domain's sliding window of distinct names, as values: the deque, the
    ordered tally, the marks, and what they hold after any sequence of records. */
module DnsWindow {
  import opened Common

  datatype Rec = Rec(ms: int, name: string)

  /** A dict of counts, with its keys in insertion order. */
  datatype Tally = Tally(order: seq<string>, count: map<string, nat>)

  datatype Window = Window(
    dq: seq<Rec>,
    tally: Tally,
    hwm: Option<int>,
    maxDistinct: nat,
    peak: Option<int>,
    sample: seq<string>)

  const EMPTY_TALLY := Tally([], map[])
  const EMPTY_WINDOW := Window([], EMPTY_TALLY, None, 0, None, [])

  // ---------- the sorted insertion ----------

  predicate StringLess(a: string, b: string) {
    if b == [] then false
    else if a == [] then true
    else a[0] < b[0] || (a[0] == b[0] && StringLess(a[1..], b[1..]))
  }

  /** The order of (ms, name) pairs. */
  predicate RecLess(a: Rec, b: Rec) {
    a.ms < b.ms || (a.ms == b.ms && StringLess(a.name, b.name))
  }

  function BisectRight(items: seq<Rec>, x: Rec, lo: nat, hi: nat): nat
    requires lo <= hi <= |items|
    decreases hi - lo
  {
    if lo == hi then lo
    else
      var mid := (lo + hi) / 2;
      if RecLess(x, items[mid]) then BisectRight(items, x, lo, mid) else BisectRight(items, x, mid + 1, hi)
  }

  predicate TimeSorted(items: seq<Rec>) {
    forall i, j :: 0 <= i <= j < |items| ==> items[i].ms <= items[j].ms
  }

  /** The place the bisection finds separates the times. */
  lemma {:induction false} BisectSeparates(items: seq<Rec>, x: Rec, lo: nat, hi: nat)
    requires TimeSorted(items) && lo <= hi <= |items|
    requires forall i :: 0 <= i < lo ==> items[i].ms <= x.ms
    requires forall i :: hi <= i < |items| ==> x.ms <= items[i].ms
    ensures var p := BisectRight(items, x, lo, hi);
      p <= |items| &&
      (forall i :: 0 <= i < p ==> items[i].ms <= x.ms) &&
      (forall i :: p <= i < |items| ==> x.ms <= items[i].ms)
    decreases hi - lo
  {
    if lo < hi {
      var mid := (lo + hi) / 2;
      if RecLess(x, items[mid]) {
        BisectSeparates(items, x, lo, mid);
      } else {
        BisectSeparates(items, x, mid + 1, hi);
      }
    }
  }

  lemma InsertBetween(items: seq<Rec>, x: Rec, p: nat)
    requires TimeSorted(items) && p <= |items|
    requires forall i :: 0 <= i < p ==> items[i].ms <= x.ms
    requires forall i :: p <= i < |items| ==> x.ms <= items[i].ms
    ensures TimeSorted(items[..p] + [x] + items[p..])
  {
    var all := items[..p] + [x] + items[p..];
    assert forall i :: 0 <= i < |all| ==> all[i] == if i < p then items[i] else if i == p then x else items[i - 1];
  }

  /** The deque is sorted by time but not by name within a tie, so the bisection's own
      precondition fails; the place it finds still keeps the times sorted. */
  lemma BisectKeepsTimes(items: seq<Rec>, x: Rec)
    requires TimeSorted(items)
    ensures var p := BisectRight(items, x, 0, |items|);
      p <= |items| && TimeSorted(items[..p] + [x] + items[p..])
  {
    hide TimeSorted, BisectRight;
    BisectSeparates(items, x, 0, |items|);
    InsertBetween(items, x, BisectRight(items, x, 0, |items|));
  }

  lemma {:induction false} BisectInRange(items: seq<Rec>, x: Rec, lo: nat, hi: nat)
    requires lo <= hi <= |items|
    ensures lo <= BisectRight(items, x, lo, hi) <= hi
    decreases hi - lo
  {
    if lo < hi {
      var mid := (lo + hi) / 2;
      if RecLess(x, items[mid]) {
        BisectInRange(items, x, lo, mid);
      } else {
        BisectInRange(items, x, mid + 1, hi);
      }
    }
  }

  function Enqueue(dq: seq<Rec>, x: Rec): seq<Rec> {
    if dq != [] && x.ms < dq[|dq| - 1].ms then
      var p := BisectRight(dq, x, 0, |dq|);
      BisectInRange(dq, x, 0, |dq|);
      dq[..p] + [x] + dq[p..]
    else dq + [x]
  }

  lemma EnqueueSorted(dq: seq<Rec>, x: Rec)
    requires TimeSorted(dq)
    ensures TimeSorted(Enqueue(dq, x)) && multiset(Enqueue(dq, x)) == multiset(dq) + multiset{x}
  {
    hide BisectRight;
    if dq != [] && x.ms < dq[|dq| - 1].ms {
      BisectKeepsTimes(dq, x);
      var p := BisectRight(dq, x, 0, |dq|);
      assert dq == dq[..p] + dq[p..];
    }
  }

  // ---------- the tally ----------

  function Bump(t: Tally, name: string): Tally {
    if name in t.count then t.(count := t.count[name := t.count[name] + 1])
    else Tally(t.order + [name], t.count[name := 1])
  }

  function Without(order: seq<string>, name: string): seq<string> {
    if order == [] then []
    else if order[0] == name then Without(order[1..], name)
    else [order[0]] + Without(order[1..], name)
  }

  function Drop(t: Tally, name: string): Tally {
    if name !in t.count then t
    else if t.count[name] > 1 then t.(count := t.count[name := t.count[name] - 1])
    else Tally(Without(t.order, name), t.count - {name})
  }

  function Names(dq: seq<Rec>): multiset<string> {
    if dq == [] then multiset{} else multiset{dq[0].name} + Names(dq[1..])
  }

  /** The tally counts exactly the names in the deque. */
  ghost predicate Tallies(t: Tally, dq: seq<Rec>) {
    (forall n :: n in t.count <==> n in Names(dq)) &&
    (forall n :: n in t.count ==> t.count[n] == Names(dq)[n])
  }

  lemma {:induction false} NamesOfConcat(a: seq<Rec>, b: seq<Rec>)
    ensures Names(a + b) == Names(a) + Names(b)
  {
    if a == [] {
      assert a + b == b;
    } else {
      assert (a + b)[1..] == a[1..] + b;
      NamesOfConcat(a[1..], b);
    }
  }

  lemma NamesOfEnqueue(dq: seq<Rec>, x: Rec)
    ensures Names(Enqueue(dq, x)) == Names(dq) + multiset{x.name}
  {
    assert Names([x]) == multiset{x.name};
    if dq != [] && x.ms < dq[|dq| - 1].ms {
      var p := BisectRight(dq, x, 0, |dq|);
      BisectInRange(dq, x, 0, |dq|);
      assert dq == dq[..p] + dq[p..];
      NamesOfConcat(dq[..p], dq[p..]);
      NamesOfConcat(dq[..p], [x]);
      NamesOfConcat(dq[..p] + [x], dq[p..]);
    } else {
      NamesOfConcat(dq, [x]);
    }
  }

  // ---------- eviction and the step ----------

  /** Pop the front while it is older than `horizon`, uncounting each name. */
  function Evict(dq: seq<Rec>, t: Tally, horizon: int): (seq<Rec>, Tally)
    decreases |dq|
  {
    if dq != [] && dq[0].ms < horizon then Evict(dq[1..], Drop(t, dq[0].name), horizon) else (dq, t)
  }

  function Raise(hwm: Option<int>, ms: int): Option<int> {
    if hwm.None? || ms > hwm.value then Some(ms) else hwm
  }

  function FirstThree(order: seq<string>): seq<string> {
    if |order| <= 3 then order else order[..3]
  }

  /** One timed record enters a window of `w` milliseconds. */
  function Step(st: Window, ms: int, name: string, w: int): Window {
    var (dq, tally) := Evict(Enqueue(st.dq, Rec(ms, name)), Bump(st.tally, name), ms - w);
    var hwm := Raise(st.hwm, ms);
    var distinct := |tally.count|;
    if distinct > st.maxDistinct then Window(dq, tally, hwm, distinct, hwm, FirstThree(tally.order))
    else Window(dq, tally, hwm, st.maxDistinct, st.peak, st.sample)
  }

  function Run(recs: seq<Rec>, w: int): Window {
    if recs == [] then EMPTY_WINDOW
    else
      var n := |recs| - 1;
      Step(Run(recs[..n], w), recs[n].ms, recs[n].name, w)
  }

  lemma {:induction false} EvictFilters(dq: seq<Rec>, t: Tally, horizon: int)
    requires TimeSorted(dq) && Tallies(t, dq)
    ensures var (kept, tally) := Evict(dq, t, horizon);
      TimeSorted(kept) && Tallies(tally, kept) &&
      (forall r :: multiset(kept)[r] == if r.ms >= horizon then multiset(dq)[r] else 0)
    decreases |dq|
  {
    if dq != [] && dq[0].ms < horizon {
      assert dq == [dq[0]] + dq[1..];
      DropTallies(t, dq);
      EvictFilters(dq[1..], Drop(t, dq[0].name), horizon);
      assert multiset(dq) == multiset{dq[0]} + multiset(dq[1..]);
    } else {
      forall r | r in dq ensures r.ms >= horizon {
        var i :| 0 <= i < |dq| && dq[i] == r;
        assert dq[0].ms <= dq[i].ms;
      }
    }
  }

  lemma DropTallies(t: Tally, dq: seq<Rec>)
    requires dq != [] && Tallies(t, dq)
    ensures Tallies(Drop(t, dq[0].name), dq[1..])
  {
    var held, rest := Names(dq), Names(dq[1..]);
    assert held == multiset{dq[0].name} + rest;
  }

  lemma BumpTallies(t: Tally, dq: seq<Rec>, x: Rec)
    requires Tallies(t, dq)
    ensures Tallies(Bump(t, x.name), Enqueue(dq, x))
  {
    NamesOfEnqueue(dq, x);
  }

  // ---------- the declarative window ----------

  /** Record `i` has never been more than `w` behind a record that came at or after it. */
  predicate Survives(recs: seq<Rec>, w: int, i: nat)
    requires i < |recs|
  {
    forall j :: i <= j < |recs| ==> recs[i].ms >= recs[j].ms - w
  }

  /** Those of the first `k` records that survive all of `recs`, in arrival order. */
  function Survivors(recs: seq<Rec>, w: int, k: nat): seq<Rec>
    requires k <= |recs|
  {
    if k == 0 then []
    else if Survives(recs, w, k - 1) then Survivors(recs, w, k - 1) + [recs[k - 1]]
    else Survivors(recs, w, k - 1)
  }

  function Contents(recs: seq<Rec>, w: int): seq<Rec> {
    Survivors(recs, w, |recs|)
  }

  function NameSet(s: seq<Rec>): set<string> {
    set r | r in s :: r.name
  }

  function Distinct(recs: seq<Rec>, w: int): nat {
    |NameSet(Contents(recs, w))|
  }

  /** The largest distinct count over all prefixes. */
  function MaxDistinct(recs: seq<Rec>, w: int): nat {
    if recs == [] then 0
    else
      var before := MaxDistinct(recs[..|recs| - 1], w);
      if Distinct(recs, w) > before then Distinct(recs, w) else before
  }

  lemma {:induction false} MaxDistinctIsMaximum(recs: seq<Rec>, w: int)
    ensures forall k :: 0 <= k <= |recs| ==> Distinct(recs[..k], w) <= MaxDistinct(recs, w)
    ensures exists k :: 0 <= k <= |recs| && Distinct(recs[..k], w) == MaxDistinct(recs, w)
  {
    assert recs[..|recs|] == recs;
    if recs == [] {
      assert Distinct(recs[..0], w) == 0;
    } else {
      var n := |recs| - 1;
      MaxDistinctIsMaximum(recs[..n], w);
      assert forall k :: 0 <= k <= n ==> recs[..n][..k] == recs[..k];
      var k :| 0 <= k <= n && Distinct(recs[..n][..k], w) == MaxDistinct(recs[..n], w);
      assert Distinct(recs[..k], w) == MaxDistinct(recs[..n], w);
    }
  }

  /** The newest time so far. */
  function Newest(recs: seq<Rec>): (hwm: Option<int>)
    ensures hwm.None? <==> recs == []
    ensures hwm.Some? ==> forall r :: r in recs ==> r.ms <= hwm.value
    ensures hwm.Some? ==> exists r :: r in recs && r.ms == hwm.value
  {
    if recs == [] then None
    else
      var n := |recs| - 1;
      assert recs == recs[..n] + [recs[n]];
      assert recs[n] in recs;
      Raise(Newest(recs[..n]), recs[n].ms)
  }

  /** The high-water mark when the maximum was first reached. */
  function PeakMs(recs: seq<Rec>, w: int): Option<int> {
    if recs == [] then None
    else
      var n := |recs| - 1;
      if Distinct(recs, w) > MaxDistinct(recs[..n], w) then Newest(recs) else PeakMs(recs[..n], w)
  }

  /** A new record keeps the survivors still within its reach, and nothing else. */
  lemma {:induction false} SurvivorsStep(recs: seq<Rec>, x: Rec, w: int, k: nat)
    requires k <= |recs|
    ensures forall r ::
      multiset(Survivors(recs + [x], w, k))[r] == if r.ms >= x.ms - w then multiset(Survivors(recs, w, k))[r] else 0
  {
    if k > 0 {
      SurvivorsStep(recs, x, w, k - 1);
      var all := recs + [x];
      assert Survives(all, w, k - 1) <==> Survives(recs, w, k - 1) && recs[k - 1].ms >= x.ms - w by {
        assert all[|recs|] == x;
        assert forall j :: 0 <= j < |recs| ==> all[j] == recs[j];
      }
    }
  }

  lemma SameNames(t: Tally, dq: seq<Rec>, s: seq<Rec>)
    requires Tallies(t, dq) && multiset(dq) == multiset(s)
    ensures |t.count| == |NameSet(s)|
  {
    forall n ensures n in Names(dq) <==> n in NameSet(dq) {
      NameIn(dq, n);
    }
    forall r ensures r in dq <==> r in s {
      assert r in dq <==> r in multiset(dq);
      assert r in s <==> r in multiset(s);
    }
    assert t.count.Keys == NameSet(s);
  }

  lemma {:induction false} NameIn(dq: seq<Rec>, n: string)
    ensures n in Names(dq) <==> n in NameSet(dq)
  {
    if dq != [] {
      NameIn(dq[1..], n);
      assert dq == [dq[0]] + dq[1..];
    }
  }

  /** The streaming state of `recs`: the deque holds exactly the surviving records, sorted
      by time; the tally counts their names; the marks are the maxima over all prefixes. */
  ghost predicate IsWindowOf(st: Window, recs: seq<Rec>, w: int) {
    TimeSorted(st.dq) && multiset(st.dq) == multiset(Contents(recs, w)) && Tallies(st.tally, st.dq) &&
    |st.tally.count| == Distinct(recs, w) &&
    st.hwm == Newest(recs) && st.maxDistinct == MaxDistinct(recs, w) && st.peak == PeakMs(recs, w)
  }

  /** It is that after any records in any order. */
  lemma {:induction false} RunIsWindow(recs: seq<Rec>, w: int)
    requires w >= 0
    ensures IsWindowOf(Run(recs, w), recs, w)
  {
    if recs == [] {
      EmptyIsWindow(w);
    } else {
      hide *;
      var n := |recs| - 1;
      RunIsWindow(recs[..n], w);
      StepIsWindow(Run(recs[..n], w), recs[..n], recs[n], w);
      RunUnfolds(recs, w);
    }
  }

  lemma RunUnfolds(recs: seq<Rec>, w: int)
    requires recs != []
    ensures var n := |recs| - 1;
      recs[..n] + [recs[n]] == recs && Run(recs, w) == Step(Run(recs[..n], w), recs[n].ms, recs[n].name, w)
  {
    assert recs[..|recs| - 1] + [recs[|recs| - 1]] == recs;
  }

  lemma EmptyIsWindow(w: int)
    ensures IsWindowOf(EMPTY_WINDOW, [], w)
  {
    assert Contents([], w) == [];
    assert Distinct([], w) == |NameSet([])| == 0;
    assert Names([]) == multiset{};
  }

  lemma StepIsWindow(st: Window, recs: seq<Rec>, x: Rec, w: int)
    requires w >= 0 && IsWindowOf(st, recs, w)
    ensures IsWindowOf(Step(st, x.ms, x.name, w), recs + [x], w)
  {
    hide Evict;
    hide Contents;
    hide Tallies;
    hide TimeSorted;
    StepContents(recs, st.dq, st.tally, x, w);
    var after := Step(st, x.ms, x.name, w);
    SameNames(after.tally, after.dq, Contents(recs + [x], w));
    assert (recs + [x])[..|recs|] == recs;
  }

  lemma StepContents(recs: seq<Rec>, dq: seq<Rec>, t: Tally, x: Rec, w: int)
    requires w >= 0 && TimeSorted(dq) && Tallies(t, dq) && multiset(dq) == multiset(Contents(recs, w))
    ensures var (kept, tally) := Evict(Enqueue(dq, x), Bump(t, x.name), x.ms - w);
      TimeSorted(kept) && Tallies(tally, kept) && multiset(kept) == multiset(Contents(recs + [x], w))
  {
    hide Evict;
    hide Enqueue;
    hide Bump;
    hide Tallies;
    hide TimeSorted;
    EnqueueSorted(dq, x);
    BumpTallies(t, dq, x);
    EvictFilters(Enqueue(dq, x), Bump(t, x.name), x.ms - w);
    ContentsStep(recs, x, w);
    var kept := Evict(Enqueue(dq, x), Bump(t, x.name), x.ms - w).0;
    forall r
      ensures multiset(kept)[r] == multiset(Contents(recs + [x], w))[r]
    {
    }
  }

  lemma ContentsStep(recs: seq<Rec>, x: Rec, w: int)
    requires w >= 0
    ensures forall r ::
      multiset(Contents(recs + [x], w))[r]
        == if r.ms >= x.ms - w then (multiset(Contents(recs, w)) + multiset{x})[r] else 0
  {
    SurvivorsStep(recs, x, w, |recs|);
    var all := recs + [x];
    assert all[|recs|] == x && Survives(all, w, |recs|);
    assert Contents(all, w) == Survivors(all, w, |recs|) + [x];
  }
}
