/** What the window predictor means on time-ordered bursts: firing is a statement
    about the distance between an event and the one T-1 places before it. */
module WindowLaws {
  import opened Common
  import opened Detector

  predicate TimeOrdered(evs: seq<Event>) {
    forall i, j :: 0 <= i <= j < |evs| ==> evs[i].time <= evs[j].time
  }

  /** Every event counts in one group, and no two repeat a distinct value. */
  ghost predicate Saturates(r: Rule, fold: Fold, evs: seq<Event>) {
    (exists key :: InOneGroup(r, fold, evs, key)) && DistinctValues(r, evs)
  }

  ghost predicate InOneGroup(r: Rule, fold: Fold, evs: seq<Event>, key: string) {
    forall i :: 0 <= i < |evs| ==> KeyOf(r, fold, evs[i]) == Some(key)
  }

  predicate DistinctValues(r: Rule, evs: seq<Event>) {
    r.distinct.Some? ==>
      forall i, j :: 0 <= i < j < |evs| ==> Observe(r, evs[i]).value != Observe(r, evs[j]).value
  }

  /** The T events ending at position `i` fit in one window, edges included. */
  predicate Packed(r: Rule, evs: seq<Event>, i: int)
    requires r.threshold >= 1
  {
    r.threshold - 1 <= i < |evs| && evs[i].time - evs[i - (r.threshold - 1)].time <= r.window
  }

  /** How many events are no older than `from`. */
  function CountSince(evs: seq<Event>, from: int): nat {
    if evs == [] then 0
    else CountSince(evs[..|evs| - 1], from) + if evs[|evs| - 1].time >= from then 1 else 0
  }

  lemma CountAtMostLive(r: Rule, obs: seq<Obs>)
    ensures Count(r, obs) <= |obs|
  {
    if obs != [] {
      var n := |obs| - 1;
      CountAtMostLive(r, obs[..n]);
      assert obs == obs[..n] + [obs[n]];
      assert Values(obs) == Values(obs[..n]) + {obs[n].value};
    }
  }

  /** Whatever the keys, a group's window holds no more than the burst's own. */
  lemma {:induction false} GroupWindowSmaller(r: Rule, fold: Fold, evs: seq<Event>, key: string, from: int)
    ensures |Live(Group(r, fold, evs, key), from)| <= CountSince(evs, from)
  {
    if evs != [] {
      var n := |evs| - 1;
      GroupWindowSmaller(r, fold, evs[..n], key, from);
      var earlier := Group(r, fold, evs[..n], key);
      if KeyOf(r, fold, evs[n]) == Some(key) {
        var all := earlier + [Observe(r, evs[n])];
        assert all[..|all| - 1] == earlier;
      }
    }
  }

  lemma {:induction false} CountSinceBound(evs: seq<Event>, from: int, m: nat)
    requires forall i :: 0 <= i < |evs| - m ==> evs[i].time < from
    ensures CountSince(evs, from) <= m
  {
    if evs != [] {
      var n := |evs| - 1;
      if m == 0 {
        assert evs[n].time < from;
        CountSinceBound(evs[..n], from, 0);
      } else {
        CountSinceBound(evs[..n], from, m - 1);
      }
    }
  }

  /** The newest entry of a group is the event that just arrived. */
  lemma NewestEntry(r: Rule, fold: Fold, evs: seq<Event>, key: string)
    requires evs != [] && KeyOf(r, fold, evs[|evs| - 1]) == Some(key)
    ensures var g := Group(r, fold, evs, key); g != [] && g[|g| - 1] == Observe(r, evs[|evs| - 1])
  {
  }

  lemma ObserveTime(r: Rule, e: Event)
    ensures Observe(r, e).time == e.time
  {
  }

  /** Any T consecutive events span more than the window: the rule is silent,
      whatever group keys and distinct values the events carry. */
  lemma SpacedIsSilent(r: Rule, fold: Fold, evs: seq<Event>)
    requires r.threshold >= 2 && TimeOrdered(evs)
    requires forall i :: 0 <= i < |evs| ==> !Packed(r, evs, i)
    ensures !Fires(r, fold, evs)
  {
    hide Regular, KeyOf, Group, Live, Count;
    forall k | 0 <= k < |evs|
      ensures !Alarm(r, fold, evs, k)
    {
      var key := KeyOf(r, fold, evs[k]);
      if key.Some? {
        var seen := evs[..k + 1];
        var from := evs[k].time - r.window;
        var group := Group(r, fold, seen, key.value);
        NewestEntry(r, fold, seen, key.value);
        forall i | 0 <= i < |seen| - (r.threshold - 1)
          ensures seen[i].time < from
        {
          assert !Packed(r, evs, k);
          assert evs[i].time <= evs[k - (r.threshold - 1)].time;
        }
        CountSinceBound(seen, from, r.threshold - 1);
        GroupWindowSmaller(r, fold, seen, key.value, from);
        CountAtMostLive(r, Live(group, from));
      }
    }
  }

  // ---------- the converse, on bursts that exercise the rule fully ----------

  /** In one group, the list is the burst itself. */
  lemma {:induction false} GroupIsBurst(r: Rule, fold: Fold, evs: seq<Event>, key: string)
    requires InOneGroup(r, fold, evs, key)
    ensures |Group(r, fold, evs, key)| == |evs|
    ensures forall i :: 0 <= i < |evs| ==> Group(r, fold, evs, key)[i] == Observe(r, evs[i])
  {
    if evs != [] {
      GroupIsBurst(r, fold, evs[..|evs| - 1], key);
    }
  }

  /** The window of a time-sorted list is its tail from the first live entry. */
  lemma {:induction false} LiveIsTail(obs: seq<Obs>, from: int, j: nat)
    requires j <= |obs|
    requires forall i :: 0 <= i < j ==> obs[i].time < from
    requires forall i :: j <= i < |obs| ==> obs[i].time >= from
    ensures Live(obs, from) == obs[j..]
  {
    if obs != [] {
      var n := |obs| - 1;
      if j == |obs| {
        LiveIsTail(obs[..n], from, n);
      } else {
        LiveIsTail(obs[..n], from, j);
        assert |obs[..n][j..]| == n - j;
        assert obs[j..] == obs[..n][j..] + [obs[n]];
      }
    }
  }

  lemma FirstLive(obs: seq<Obs>, from: int) returns (j: nat)
    requires forall i, k :: 0 <= i <= k < |obs| ==> obs[i].time <= obs[k].time
    ensures j <= |obs|
    ensures forall i :: 0 <= i < j ==> obs[i].time < from
    ensures forall i :: j <= i < |obs| ==> obs[i].time >= from
  {
    j := 0;
    while j < |obs| && obs[j].time < from
      invariant j <= |obs|
      invariant forall i :: 0 <= i < j ==> obs[i].time < from
    {
      j := j + 1;
    }
  }

  lemma {:induction false} CountIsLength(r: Rule, obs: seq<Obs>)
    requires r.distinct.Some? ==> forall i, j :: 0 <= i < j < |obs| ==> obs[i].value != obs[j].value
    ensures Count(r, obs) == |obs|
  {
    if obs != [] {
      var n := |obs| - 1;
      CountIsLength(r, obs[..n]);
      assert obs == obs[..n] + [obs[n]];
      assert Values(obs) == Values(obs[..n]) + {obs[n].value};
    }
  }

  /** On a time-ordered burst that saturates the rule, the window at event `k` is a
      tail of the burst, and the count reaches T exactly when the event T-1 places
      earlier is still inside the window. */
  lemma WindowAt(r: Rule, fold: Fold, evs: seq<Event>, key: string, k: nat) returns (j: nat)
    requires TimeOrdered(evs) && InOneGroup(r, fold, evs, key) && DistinctValues(r, evs)
    requires k < |evs|
    ensures j <= k + 1
    ensures forall i :: 0 <= i <= k ==> (i >= j <==> evs[i].time >= evs[k].time - r.window)
    ensures var live := Live(Group(r, fold, evs[..k + 1], key), evs[k].time - r.window);
      Count(r, live) == |live| == k + 1 - j &&
      forall i :: 0 <= i < |live| ==> live[i] == Observe(r, evs[j + i])
    ensures Alarm(r, fold, evs, k) <==>
      k + 1 - j >= r.threshold &&
      (r.maxCv.Some? ==>
        Regular(SortTimes(Times(Live(Group(r, fold, evs[..k + 1], key), evs[k].time - r.window))), r.maxCv.value))
  {
    hide Regular, KeyOf, Group, Live, Count, SortTimes;
    var seen := evs[..k + 1];
    var group := Group(r, fold, seen, key);
    GroupIsBurst(r, fold, seen, key);
    NewestEntry(r, fold, seen, key);
    j := FirstLive(group, evs[k].time - r.window);
    LiveIsTail(group, evs[k].time - r.window, j);
    CountIsLength(r, group[j..]);
  }

  /** A plain (or distinct) rule fires on such a burst iff some T consecutive events
      fit in the window. */
  lemma PlainFiresIff(r: Rule, fold: Fold, evs: seq<Event>)
    requires r.maxCv.None? && r.threshold >= 1 && r.window >= 0
    requires TimeOrdered(evs) && Saturates(r, fold, evs)
    ensures Fires(r, fold, evs) <==>
      exists i :: Packed(r, evs, i)
  {
    var key :| InOneGroup(r, fold, evs, key);
    forall k | 0 <= k < |evs|
      ensures Alarm(r, fold, evs, k) <==> Packed(r, evs, k)
    {
      var j := WindowAt(r, fold, evs, key, k);
      if r.threshold - 1 <= k {
        var first := k - (r.threshold - 1);
        assert first >= j <==> evs[first].time >= evs[k].time - r.window;
      }
    }
    if i :| Packed(r, evs, i) {
      assert Alarm(r, fold, evs, i);
    }
  }
}
