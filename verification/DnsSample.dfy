/** Where a parent's peak was first reached, and which names its sample lists. */
module DnsSample {
  import opened Common
  import opened DnsWindow
  import opened DnsSweep

  // ---------- the order of the counts ----------

  /** `name` is held once `k` records are in. */
  ghost predicate HeldAt(recs: seq<Rec>, w: int, name: string, k: nat) {
    k <= |recs| && name in NameSet(Contents(recs[..k], w))
  }

  /** `name` has been held without a break since `k` records were in. */
  ghost predicate HeldSince(recs: seq<Rec>, w: int, name: string, k: nat) {
    k <= |recs| && forall m: nat :: k <= m <= |recs| ==> HeldAt(recs, w, name, m)
  }

  /** `x` has been held since before `y` last came in. */
  ghost predicate Longer(recs: seq<Rec>, w: int, x: string, y: string) {
    exists k: nat :: HeldSince(recs, w, x, k) && !HeldAt(recs, w, y, k)
  }

  /** The names stand in the order in which they came in. */
  ghost predicate LongestFirst(order: seq<string>, recs: seq<Rec>, w: int) {
    forall i, j :: 0 <= i < j < |order| ==> Longer(recs, w, order[i], order[j])
  }

  /** `x` stands somewhere before `y`. */
  predicate Before(order: seq<string>, x: string, y: string) {
    exists i, j :: 0 <= i < j < |order| && order[i] == x && order[j] == y
  }

  lemma {:induction false} WithoutBefore(order: seq<string>, name: string, x: string, y: string)
    requires Before(Without(order, name), x, y)
    ensures Before(order, x, y)
  {
    if order != [] {
      var rest := order[1..];
      if order[0] == name {
        WithoutBefore(rest, name, x, y);
      } else {
        var i, j :| 0 <= i < j < |Without(order, name)| && Without(order, name)[i] == x && Without(order, name)[j] == y;
        if i > 0 {
          assert Without(rest, name)[i - 1] == x && Without(rest, name)[j - 1] == y;
          WithoutBefore(rest, name, x, y);
        } else {
          assert Without(rest, name)[j - 1] == y;
          WithoutIn(rest, name, y);
        }
      }
      LaterBefore(order, x, y);
    }
  }

  lemma LaterBefore(order: seq<string>, x: string, y: string)
    requires order != []
    ensures Before(order[1..], x, y) || (order[0] == x && y in order[1..]) ==> Before(order, x, y)
  {
    if Before(order[1..], x, y) {
      var i, j :| 0 <= i < j < |order[1..]| && order[1..][i] == x && order[1..][j] == y;
      assert order[i + 1] == x && order[j + 1] == y;
    } else if order[0] == x && y in order[1..] {
      var j :| 0 <= j < |order[1..]| && order[1..][j] == y;
      assert order[j + 1] == y;
    }
  }

  lemma {:induction false} WithoutIn(order: seq<string>, name: string, y: string)
    requires y in Without(order, name)
    ensures y in order
  {
    WithoutIs(order, name);
    assert multiset(Without(order, name))[y] > 0;
    assert y in multiset(order);
  }

  lemma {:induction false} EvictBefore(dq: seq<Rec>, t: Tally, horizon: int, x: string, y: string)
    requires Before(Evict(dq, t, horizon).1.order, x, y)
    ensures Before(t.order, x, y)
    decreases |dq|
  {
    if dq != [] && dq[0].ms < horizon {
      EvictBefore(dq[1..], Drop(t, dq[0].name), horizon, x, y);
      DropBefore(t, dq[0].name, x, y);
    }
  }

  lemma DropBefore(t: Tally, name: string, x: string, y: string)
    requires Before(Drop(t, name).order, x, y)
    ensures Before(t.order, x, y)
  {
    hide Before;
    if name in t.count && t.count[name] <= 1 {
      WithoutBefore(t.order, name, x, y);
    }
  }

  /** A step keeps the order and puts a new name last. */
  lemma StepBefore(st: Window, ms: int, name: string, w: int, x: string, y: string)
    requires Before(Step(st, ms, name, w).tally.order, x, y)
    ensures Before(st.tally.order, x, y) || (x in st.tally.order && y == name && name !in st.tally.count)
  {
    hide Evict;
    EvictBefore(Enqueue(st.dq, Rec(ms, name)), Bump(st.tally, name), ms - w, x, y);
    var order := Bump(st.tally, name).order;
    var i, j :| 0 <= i < j < |order| && order[i] == x && order[j] == y;
    assert i < |st.tally.order| && st.tally.order[i] == x;
  }

  /** The names counted are those held. */
  lemma CountedHeld(recs: seq<Rec>, w: int, name: string)
    requires w >= 0 && Held(Run(recs, w))
    ensures name in Run(recs, w).tally.count <==> HeldAt(recs, w, name, |recs|)
    ensures name in Run(recs, w).tally.order <==> HeldAt(recs, w, name, |recs|)
  {
    hide Run, Contents, NameSet, TimeSorted, Tallies, Newest, MaxDistinct, PeakMs;
    RunIsWindow(recs, w);
    var st := Run(recs, w);
    HeldNames(st.tally, st.dq, Contents(recs, w));
    assert recs[..|recs|] == recs;
    assert name in st.tally.order <==> name in multiset(st.tally.order);
  }

  lemma LongerStays(recs: seq<Rec>, w: int, x: string, y: string)
    requires recs != [] && Longer(recs[..|recs| - 1], w, x, y) && HeldAt(recs, w, x, |recs|)
    ensures Longer(recs, w, x, y)
  {
    hide Contents, NameSet;
    var n, earlier := |recs| - 1, recs[..|recs| - 1];
    assert forall m: nat :: m <= n ==> earlier[..m] == recs[..m];
    var k: nat :| HeldSince(earlier, w, x, k) && !HeldAt(earlier, w, y, k);
    forall m: nat | k <= m <= |recs| ensures HeldAt(recs, w, x, m) {
      assert m <= n ==> HeldAt(earlier, w, x, m);
    }
    assert HeldSince(recs, w, x, k) && !HeldAt(recs, w, y, k);
  }

  lemma LongerThanNew(recs: seq<Rec>, w: int, x: string, y: string)
    requires recs != [] && HeldAt(recs[..|recs| - 1], w, x, |recs| - 1) && HeldAt(recs, w, x, |recs|)
    requires !HeldAt(recs[..|recs| - 1], w, y, |recs| - 1)
    ensures Longer(recs, w, x, y)
  {
    hide Contents, NameSet;
    var n: nat := |recs| - 1;
    assert recs[..n][..n] == recs[..n];
    assert HeldSince(recs, w, x, n) && !HeldAt(recs, w, y, n);
  }

  lemma OrderOneMore(recs: seq<Rec>, w: int)
    requires w >= 0 && recs != [] && Held(Run(recs[..|recs| - 1], w)) && Held(Run(recs, w))
    requires LongestFirst(Run(recs[..|recs| - 1], w).tally.order, recs[..|recs| - 1], w)
    ensures LongestFirst(Run(recs, w).tally.order, recs, w)
  {
    hide Step, Run, Held, HeldAt, Longer;
    var n, earlier := |recs| - 1, recs[..|recs| - 1];
    var order, was := Run(recs, w).tally.order, Run(earlier, w).tally.order;
    RunUnfolds(recs, w);
    forall i, j | 0 <= i < j < |order| ensures Longer(recs, w, order[i], order[j]) {
      var x, y := order[i], order[j];
      assert Before(order, x, y);
      StepBefore(Run(earlier, w), recs[n].ms, recs[n].name, w, x, y);
      CountedHeld(recs, w, x);
      CountedHeld(earlier, w, x);
      CountedHeld(earlier, w, y);
      if Before(was, x, y) {
        LongerStays(recs, w, x, y);
      } else {
        LongerThanNew(recs, w, x, y);
      }
    }
  }

  lemma HeldOneMore(recs: seq<Rec>, w: int)
    requires recs != [] && Held(Run(recs[..|recs| - 1], w))
    ensures Held(Run(recs, w))
  {
    hide Step, Run, Tallies, TimeSorted, Ordered;
    var n := |recs| - 1;
    RunUnfolds(recs, w);
    StepHolds(Run(recs[..n], w), recs[n].ms, recs[n].name, w);
  }

  // ---------- the sample ----------

  /** At most three of the names held after `k` records, no two alike and all of them when there are
      few: those held longest, in the order in which they came in. */
  ghost predicate IsSample(sample: seq<string>, recs: seq<Rec>, w: int) {
    var names := NameSet(Contents(recs, w));
    (|sample| == 3 <= |names| || |sample| == |names| < 3) &&
    (forall i :: 0 <= i < |sample| ==> sample[i] in names) &&
    (forall i, j :: 0 <= i < j < |sample| ==> sample[i] != sample[j]) &&
    LongestFirst(sample, recs, w) &&
    forall i, y :: 0 <= i < |sample| && y in names && y !in sample ==> Longer(recs, w, sample[i], y)
  }

  /** The `k`-th record is the first at which the distinct count reached its maximum. */
  ghost predicate PeaksAt(recs: seq<Rec>, w: int, k: nat) {
    k <= |recs| && Distinct(recs[..k], w) == MaxDistinct(recs, w) &&
    forall j :: 0 <= j < k ==> Distinct(recs[..j], w) < MaxDistinct(recs, w)
  }

  lemma OnceEach(order: seq<string>, names: set<string>)
    requires multiset(order) == multiset(names)
    ensures |order| == |names|
    ensures forall n :: n in order <==> n in names
    ensures forall i, j :: 0 <= i < j < |order| ==> order[i] != order[j]
  {
    assert |multiset(order)| == |order|;
    forall n ensures n in order <==> n in names {
      assert n in order <==> n in multiset(order);
    }
    forall i, j | 0 <= i < j < |order| ensures order[i] != order[j] {
      assert order == order[..j] + order[j..];
      assert order[i] in order[..j] && order[j] in order[j..];
      assert multiset(order)[order[i]] <= 1;
      assert multiset(order) == multiset(order[..j]) + multiset(order[j..]);
    }
  }

  lemma FirstThreeSamples(order: seq<string>, recs: seq<Rec>, w: int)
    requires multiset(order) == multiset(NameSet(Contents(recs, w))) && LongestFirst(order, recs, w)
    ensures IsSample(FirstThree(order), recs, w)
  {
    hide Longer, Contents, NameSet;
    var names, sample := NameSet(Contents(recs, w)), FirstThree(order);
    OnceEach(order, names);
    forall i, y | 0 <= i < |sample| && y in names && y !in sample ensures Longer(recs, w, sample[i], y) {
      var j :| 0 <= j < |order| && order[j] == y;
      assert order[..|sample|] == sample;
    }
  }

  lemma HeldNames(t: Tally, dq: seq<Rec>, held: seq<Rec>)
    requires Tallies(t, dq) && multiset(dq) == multiset(held)
    ensures t.count.Keys == NameSet(held)
  {
    forall n ensures n in t.count <==> n in NameSet(held) {
      NameIn(dq, n);
      if n in NameSet(dq) {
        var r :| r in dq && r.name == n;
        assert r in multiset(held);
      }
      if n in NameSet(held) {
        var r :| r in held && r.name == n;
        assert r in multiset(dq);
      }
    }
  }

  /** The reported peak time and sample are those of the first record at which the distinct count
      reached its maximum: the newest time by then, and the names held longest. */
  lemma {:induction false} RunSamples(recs: seq<Rec>, w: int) returns (k: nat)
    requires w >= 0
    ensures Held(Run(recs, w)) && LongestFirst(Run(recs, w).tally.order, recs, w)
    ensures PeaksAt(recs, w, k) && Run(recs, w).peak == Newest(recs[..k])
    ensures IsSample(Run(recs, w).sample, recs[..k], w)
  {
    if recs == [] {
      EmptyGood();
      assert recs[..0] == [] && Contents([], w) == [];
      k := 0;
    } else {
      hide *;
      k := RunSamples(recs[..|recs| - 1], w);
      HeldOneMore(recs, w);
      OrderOneMore(recs, w);
      k := SampleOneMore(recs, w, k);
    }
  }

  lemma SampleOneMore(recs: seq<Rec>, w: int, k0: nat) returns (k: nat)
    requires w >= 0 && recs != [] && Held(Run(recs, w)) && LongestFirst(Run(recs, w).tally.order, recs, w)
    requires var earlier := recs[..|recs| - 1];
      PeaksAt(earlier, w, k0) && Run(earlier, w).peak == Newest(earlier[..k0]) &&
      IsSample(Run(earlier, w).sample, earlier[..k0], w)
    ensures PeaksAt(recs, w, k) && Run(recs, w).peak == Newest(recs[..k]) && IsSample(Run(recs, w).sample, recs[..k], w)
  {
    hide Step, Tallies, TimeSorted, Contents, IsSample, Run, NameSet, Newest, LongestFirst, Distinct;
    var n := |recs| - 1;
    var before, after := Run(recs[..n], w), Run(recs, w);
    RunUnfolds(recs, w);
    RunIsWindow(recs, w);
    RunIsWindow(recs[..n], w);
    StepSample(before, recs[n].ms, recs[n].name, w);
    MaxDistinctIsMaximum(recs[..n], w);
    assert forall j: nat :: j <= n ==> recs[..n][..j] == recs[..j];
    assert recs[..|recs|] == recs;
    if |after.tally.count| > before.maxDistinct {
      HeldNames(after.tally, after.dq, Contents(recs, w));
      FirstThreeSamples(after.tally.order, recs, w);
      k := |recs|;
    } else {
      k := k0;
    }
  }

  lemma StepSample(st: Window, ms: int, name: string, w: int)
    ensures var st' := Step(st, ms, name, w);
      if |st'.tally.count| > st.maxDistinct then
        st'.sample == FirstThree(st'.tally.order) && st'.peak == st'.hwm
      else st'.sample == st.sample && st'.peak == st.peak
  {
  }
}
