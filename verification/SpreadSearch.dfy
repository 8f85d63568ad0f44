/** The searches over key counts: how few keys evade, and what the bisection returns. */
module SpreadSearch {
  import opened Common
  import opened Detector
  import opened WindowLaws
  import opened Radix
  import opened KeySpread

  // ---------- bisection ----------

  function Bisect(lo: nat, hi: nat, pred: nat -> bool): nat
    decreases hi - lo
  {
    if lo >= hi then lo
    else
      var mid := (lo + hi) / 2;
      if pred(mid) then Bisect(lo, mid, pred) else Bisect(mid + 1, hi, pred)
  }

  method FirstTrue(lo0: nat, hi0: nat, pred: nat -> bool) returns (lo: nat)
    ensures lo == Bisect(lo0, hi0, pred)
  {
    lo := lo0;
    var hi: nat := hi0;
    while lo < hi
      invariant Bisect(lo, hi, pred) == Bisect(lo0, hi0, pred)
    {
      var mid := (lo + hi) / 2;
      if pred(mid) {
        hi := mid;
      } else {
        lo := mid + 1;
      }
    }
  }

  lemma BisectProbe(lo: nat, hi: nat, pred: nat -> bool)
    requires lo < hi
    ensures var mid := (lo + hi) / 2;
      Bisect(lo, hi, pred) == if pred(mid) then Bisect(lo, mid, pred) else Bisect(mid + 1, hi, pred)
    ensures forall x: nat :: Bisect(x, x, pred) == x
  {
  }

  /** Without any assumption on `pred`, the bisection ends on a true value (if the top
      is true) whose predecessor it has seen to be false. */
  lemma {:induction false} BisectIsEdge(lo: nat, hi: nat, pred: nat -> bool)
    requires lo <= hi
    ensures var x := Bisect(lo, hi, pred);
      lo <= x <= hi && (pred(hi) ==> pred(x)) && (x > lo ==> !pred(x - 1))
    decreases hi - lo
  {
    if lo < hi {
      var mid := (lo + hi) / 2;
      if pred(mid) {
        BisectIsEdge(lo, mid, pred);
      } else {
        BisectIsEdge(mid + 1, hi, pred);
      }
    }
  }

  /** `pred` holds at every midpoint the bisection probes at or above `l` on its way to `l`:
      logarithmically many values. */
  predicate TrueOnPath(lo: nat, hi: nat, l: nat, pred: nat -> bool)
    decreases hi - lo
  {
    lo >= hi ||
    (var mid := (lo + hi) / 2;
     if mid >= l then pred(mid) && TrueOnPath(lo, mid, l, pred) else TrueOnPath(mid + 1, hi, l, pred))
  }

  /** When the bisection finds the least true value: exactly when none of those probes is a gap. */
  lemma {:induction false} BisectIsLeastIff(lo: nat, hi: nat, l: nat, pred: nat -> bool)
    requires lo <= l <= hi && forall x :: lo <= x < l ==> !pred(x)
    ensures Bisect(lo, hi, pred) == l <==> TrueOnPath(lo, hi, l, pred)
    decreases hi - lo
  {
    if lo < hi {
      var mid := (lo + hi) / 2;
      if mid < l {
        BisectIsLeastIff(mid + 1, hi, l, pred);
      } else if pred(mid) {
        BisectIsLeastIff(lo, mid, l, pred);
      } else {
        BisectIsEdge(mid + 1, hi, pred);
      }
    }
  }

  // ---------- fewest evading keys ----------

  function FirstDark(k: nat, n: nat, dark: nat -> bool): Option<nat>
    decreases n + 1 - k
  {
    if k > n then None else if dark(k) then Some(k) else FirstDark(k + 1, n, dark)
  }

  /** What the spread search answers; None is "immune". */
  function Solve(n: nat, dark: nat -> bool): Option<nat> {
    if n < 2 || !dark(n) then None
    else
      var k := Bisect(2, n, dark);
      if k > 2 && !dark(k - 1) then Some(k)
      else if k > 2 then FirstDark(2, n, dark)
      else Some(k)
  }

  method SolveSpread(n: nat, dark: nat -> bool) returns (keys: Option<nat>)
    ensures keys == Solve(n, dark)
  {
    if n < 2 || !dark(n) {
      return None;
    }
    var k := FirstTrue(2, n, dark);
    if k > 2 && !dark(k - 1) {
      return Some(k);
    }
    if k > 2 {
      var x := 2;
      while x <= n && !dark(x)
        invariant 2 <= x <= n + 1 && FirstDark(2, n, dark) == FirstDark(x, n, dark)
      {
        x := x + 1;
      }
      return if x <= n then Some(x) else None;
    }
    return Some(k);
  }

  /** The fallback scan for a non-monotone answer is never reached: the value below the
      bisection's result has always been seen to be light. The answer is therefore an
      edge of the dark set, and the least dark count whenever darkness is monotone. */
  lemma SolveIsBisection(n: nat, dark: nat -> bool)
    ensures Solve(n, dark).None? <==> n < 2 || !dark(n)
    ensures Solve(n, dark).Some? ==> Solve(n, dark).value == Bisect(2, n, dark)
    ensures Solve(n, dark).Some? ==> var k := Solve(n, dark).value;
      2 <= k <= n && dark(k) && (k > 2 ==> !dark(k - 1))
    ensures Solve(n, dark).Some? && (forall x, y :: 2 <= x <= y <= n && dark(x) ==> dark(y)) ==>
      forall x :: 2 <= x < Solve(n, dark).value ==> !dark(x)
  {
    if n >= 2 {
      BisectIsEdge(2, n, dark);
    }
  }

  /** Exactly when the answer is the fewest keys, `l`: when one key per event is dark too, and the
      bisection meets no light count at or above `l` on its way to `l`. */
  lemma SolveIsLeastIff(n: nat, dark: nat -> bool, l: nat)
    requires 2 <= l <= n && dark(l) && forall x :: 2 <= x < l ==> !dark(x)
    ensures Solve(n, dark) == Some(l) <==> dark(n) && TrueOnPath(2, n, l, dark)
  {
    SolveIsBisection(n, dark);
    BisectIsLeastIff(2, n, l, dark);
  }

  // ---------- the closed form ----------

  /** The burst over `k` keys of one kind, every other kind untouched. */
  function Spread(burst: seq<Event>, kind: string, k: nat, setters: map<string, Setter>): seq<Event>
    requires kind in setters
  {
    seq(|burst|, i requires 0 <= i < |burst| => Assigned(burst[i], i, [kind], map[kind := k], setters))
  }

  function DarkAt(rules: seq<Rule>, fold: Fold, burst: seq<Event>, kind: string, setters: map<string, Setter>): nat -> bool
    requires kind in setters
  {
    (k: nat) => !FiresSet(rules, fold, Spread(burst, kind, k, setters))
  }

  /** A plain rule keyed on `kind`, on a burst that would trip it. */
  ghost predicate OnKind(r: Rule, fold: Fold, burst: seq<Event>, kind: string, setters: map<string, Setter>)
    requires kind in setters
  {
    r.maxCv.None? && r.threshold >= 2 && Moves(r, fold, setters[kind]) &&
    OneWindow(r, burst) && Saturates(r, fold, burst)
  }

  ghost predicate OffKind(r: Rule, fold: Fold, kind: string, setters: map<string, Setter>)
    requires kind in setters
  {
    Ignores(r, fold, setters[kind])
  }

  lemma SpreadIsAssigned(burst: seq<Event>, kind: string, k: nat, setters: map<string, Setter>)
    requires kind in setters
    ensures IsAssigned(Spread(burst, kind, k, setters), burst, [kind], map[kind := k], setters)
  {
  }

  lemma SingleStride(kind: string, k: nat)
    requires k >= 1
    ensures StrideBefore([kind], map[kind := k], 0) == 1 && KeysOf(kind, map[kind := k]) == k
  {
    assert [kind][..0] == [];
    assert RadicesOf([], map[kind := k]) == [];
  }

  lemma OnKindFiresIff(
    r: Rule, fold: Fold, burst: seq<Event>, kind: string, k: nat, setters: map<string, Setter>)
    requires kind in setters && burst != [] && k >= 1 && OnKind(r, fold, burst, kind, setters)
    ensures Fires(r, fold, Spread(burst, kind, k, setters)) <==> CeilDiv(|burst|, k) >= r.threshold
    ensures Fires(r, fold, Spread(burst, kind, k, setters)) <==> k < CeilDiv(|burst|, r.threshold - 1)
  {
    hide Fires, Saturates, OneWindow, Moves, KindLoad, Spread, Ignores, IsAssigned;
    var order, counts := [kind], map[kind := k];
    var out := Spread(burst, kind, k, setters);
    SpreadIsAssigned(burst, kind, k, setters);
    SingleStride(kind, k);
    JointFiresIff(r, fold, burst, out, order, counts, setters, 0);
    SingleKindLoad(|burst|, k);
    CeilAdjoint(r.threshold - 1, |burst|, k);
    CeilAdjoint(k, |burst|, r.threshold - 1);
    assert (r.threshold - 1) * k == k * (r.threshold - 1);
  }

  lemma OffKindFiresIff(
    r: Rule, fold: Fold, burst: seq<Event>, kind: string, k: nat, setters: map<string, Setter>)
    requires kind in setters && OffKind(r, fold, kind, setters)
    ensures Fires(r, fold, Spread(burst, kind, k, setters)) <==> Fires(r, fold, burst)
  {
    UntouchedFires(r, fold, burst, Spread(burst, kind, k, setters), [kind], map[kind := k], setters);
  }

  // ---------- companions that count the keys ----------

  /** The setter writes the value a rule counts, and neither its group nor the time. */
  ghost predicate WritesValue(r: Rule, fold: Fold, put: Setter) {
    (forall e, x :: KeyOf(r, fold, e).Some? ==> KeyOf(r, fold, put(e, x)) == KeyOf(r, fold, e) && put(e, x).time == e.time) &&
    (forall e, e', x, y :: KeyOf(r, fold, e).Some? && KeyOf(r, fold, e').Some? ==>
      (Observe(r, put(e, x)).value == Observe(r, put(e', y)).value <==> x == y))
  }

  /** A distinct rule keyed elsewhere that counts the keys of this kind, as a spray companion
      does, on a burst that carries one of them. */
  ghost predicate CountsKeys(r: Rule, fold: Fold, burst: seq<Event>, kind: string, setters: map<string, Setter>)
    requires kind in setters
  {
    r.maxCv.None? && r.distinct.Some? && WritesValue(r, fold, setters[kind]) && OneWindow(r, burst) &&
    (exists key :: InOneGroup(r, fold, burst, key)) && OneValue(r, burst)
  }

  predicate OneValue(r: Rule, burst: seq<Event>) {
    forall i, j :: 0 <= i < |burst| && 0 <= j < |burst| ==> Observe(r, burst[i]).value == Observe(r, burst[j]).value
  }

  /** Values repeat with period `k`. */
  predicate Cyclic(obs: seq<Obs>, k: nat)
    requires k >= 1
  {
    forall i, j :: 0 <= i < |obs| && 0 <= j < |obs| ==> (obs[i].value == obs[j].value <==> i % k == j % k)
  }

  lemma {:induction false} CyclicCount(obs: seq<Obs>, k: nat)
    requires k >= 1 && Cyclic(obs, k)
    ensures |Values(obs)| == Min(k, |obs|)
  {
    if obs == [] {
      assert Values(obs) == {};
    } else {
      hide *;
      var m := |obs| - 1;
      CyclicPrefix(obs, k, m);
      CyclicCount(obs[..m], k);
      OneMoreValue(obs);
      if m < k {
        FirstRound(obs, k);
      } else {
        LaterRound(obs, k);
      }
    }
  }

  lemma CyclicPrefix(obs: seq<Obs>, k: nat, m: nat)
    requires k >= 1 && m <= |obs| && Cyclic(obs, k)
    ensures Cyclic(obs[..m], k)
  {
  }

  /** In the first round every value is new; later it came `k` places earlier. */
  lemma FirstRound(obs: seq<Obs>, k: nat)
    requires k >= 1 && 1 <= |obs| <= k && Cyclic(obs, k)
    ensures var m := |obs| - 1; obs[m].value !in Values(obs[..m])
  {
    hide Values;
    var m := |obs| - 1;
    SmallModulus(m, k);
    forall i | 0 <= i < m ensures obs[..m][i].value != obs[m].value {
      SmallModulus(i, k);
    }
    NotInValues(obs[..m], obs[m].value);
  }

  lemma LaterRound(obs: seq<Obs>, k: nat)
    requires 1 <= k < |obs| && Cyclic(obs, k)
    ensures var m := |obs| - 1; obs[m].value in Values(obs[..m])
  {
    hide Values;
    var m := |obs| - 1;
    SameResidue(m, k);
    assert obs[m - k].value == obs[m].value;
    InValues(obs[..m], m - k);
  }

  lemma SmallModulus(i: nat, k: nat)
    requires i < k
    ensures i % k == i
  {
    QuotientIs(i, k, 0, i);
  }

  lemma SameResidue(m: nat, k: nat)
    requires 1 <= k <= m
    ensures (m - k) % k == m % k
  {
    FloorBounds(m, k);
    QuotientIs(m - k, k, m / k - 1, m % k);
  }

  lemma OneMoreValue(obs: seq<Obs>)
    requires obs != []
    ensures var m := |obs| - 1;
      |Values(obs)| == |Values(obs[..m])| + if obs[m].value in Values(obs[..m]) then 0 else 1
  {
    var m := |obs| - 1;
    assert obs == obs[..m] + [obs[m]];
    assert Values(obs) == Values(obs[..m]) + {obs[m].value};
  }

  lemma InValues(obs: seq<Obs>, i: nat)
    requires i < |obs|
    ensures obs[i].value in Values(obs)
  {
    assert obs[i] in obs;
  }

  lemma NotInValues(obs: seq<Obs>, v: Option<string>)
    requires forall i :: 0 <= i < |obs| ==> obs[i].value != v
    ensures v !in Values(obs)
  {
  }

  /** In one group and one window, a distinct rule whose values repeat with period `k` counts
      the smaller of `k` and the events so far. */
  lemma CyclicAlarmIff(r: Rule, fold: Fold, evs: seq<Event>, key: string, k: nat, m: nat)
    requires r.maxCv.None? && r.distinct.Some? && OneWindow(r, evs) && InOneGroup(r, fold, evs, key)
    requires k >= 1 && m < |evs|
    requires forall i, j :: 0 <= i < |evs| && 0 <= j < |evs| ==>
      (Observe(r, evs[i]).value == Observe(r, evs[j]).value <==> i % k == j % k)
    ensures Alarm(r, fold, evs, m) <==> Min(k, m + 1) >= r.threshold
  {
    hide KeyOf, Observe, Group, Live, Values, Regular;
    var seen := evs[..m + 1];
    var g, from := Group(r, fold, seen, key), evs[m].time - r.window;
    GroupIsBurst(r, fold, seen, key);
    forall i | 0 <= i < |g| ensures g[i].time >= from {
      ObserveTime(r, evs[i]);
    }
    ObserveTime(r, evs[m]);
    LiveIsTail(g, from, 0);
    assert g[0..] == g;
    CyclicCount(g, k);
  }

  lemma CyclicFiresIff(r: Rule, fold: Fold, evs: seq<Event>, key: string, k: nat)
    requires r.maxCv.None? && r.distinct.Some? && OneWindow(r, evs) && InOneGroup(r, fold, evs, key)
    requires k >= 1 && evs != []
    requires forall i, j :: 0 <= i < |evs| && 0 <= j < |evs| ==>
      (Observe(r, evs[i]).value == Observe(r, evs[j]).value <==> i % k == j % k)
    ensures Fires(r, fold, evs) <==> Min(k, |evs|) >= r.threshold
  {
    hide Alarm, OneWindow, InOneGroup, Observe;
    forall m | 0 <= m < |evs| ensures Alarm(r, fold, evs, m) <==> Min(k, m + 1) >= r.threshold {
      CyclicAlarmIff(r, fold, evs, key, k, m);
    }
    assert Alarm(r, fold, evs, |evs| - 1) <==> Min(k, |evs|) >= r.threshold;
  }

  /** What the spread leaves of one event. */
  lemma SpreadAt(burst: seq<Event>, kind: string, k: nat, setters: map<string, Setter>, i: nat)
    requires kind in setters && k >= 1 && i < |burst|
    ensures Spread(burst, kind, k, setters)[i] == if k > 1 then setters[kind](burst[i], i % k) else burst[i]
  {
    hide Assigned, StrideBefore;
    var order, counts := [kind], map[kind := k];
    assert order[..0] == [];
    AssignedLast(burst[i], i, order, counts, setters);
    AssignedNothing(burst[i], i, counts, setters);
    SingleStride(kind, k);
    assert i / 1 == i;
  }

  lemma AssignedNothing(p: Event, rank: nat, counts: map<string, nat>, setters: map<string, Setter>)
    ensures Assigned(p, rank, [], counts, setters) == p
  {
  }

  lemma WritesAt(r: Rule, fold: Fold, put: Setter, e: Event, e': Event, x: nat, y: nat)
    requires WritesValue(r, fold, put) && KeyOf(r, fold, e).Some? && KeyOf(r, fold, e').Some?
    ensures KeyOf(r, fold, put(e, x)) == KeyOf(r, fold, e) && put(e, x).time == e.time
    ensures Observe(r, put(e, x)).value == Observe(r, put(e', y)).value <==> x == y
  {
  }

  /** Spread over `k` keys, a rule that counts them fires iff there are enough, one event each. */
  lemma CountingFiresIff(
    r: Rule, fold: Fold, burst: seq<Event>, kind: string, k: nat, setters: map<string, Setter>)
    requires kind in setters && burst != [] && k >= 1 && CountsKeys(r, fold, burst, kind, setters)
    ensures Fires(r, fold, Spread(burst, kind, k, setters)) <==> Min(k, |burst|) >= r.threshold
  {
    hide Fires, KeyOf, Observe, WritesValue;
    var out, put := Spread(burst, kind, k, setters), setters[kind];
    var key :| InOneGroup(r, fold, burst, key);
    assert |out| == |burst|;
    forall i | 0 <= i < |out|
      ensures out[i].time == burst[i].time && KeyOf(r, fold, out[i]) == Some(key)
    {
      SpreadAt(burst, kind, k, setters, i);
      WritesAt(r, fold, put, burst[i], burst[i], i % k, i % k);
    }
    forall i, j | 0 <= i < |out| && 0 <= j < |out|
      ensures Observe(r, out[i]).value == Observe(r, out[j]).value <==> i % k == j % k
    {
      SpreadAt(burst, kind, k, setters, i);
      SpreadAt(burst, kind, k, setters, j);
      WritesAt(r, fold, put, burst[i], burst[j], i % k, j % k);
      if k == 1 {
        assert i % k == 0 && j % k == 0;
      }
    }
    CyclicFiresIff(r, fold, out, key, k);
  }

  // ---------- the whole set ----------

  /** Every rule is keyed on `kind`, blind to it, or counts its keys, and `t` is the least
      threshold among those keyed on it. */
  ghost predicate Splits(
    rules: seq<Rule>, fold: Fold, burst: seq<Event>, kind: string, setters: map<string, Setter>, t: int)
    requires kind in setters
  {
    (forall r :: r in rules ==>
      OffKind(r, fold, kind, setters) || CountsKeys(r, fold, burst, kind, setters) ||
      (OnKind(r, fold, burst, kind, setters) && r.threshold >= t)) &&
    (exists r :: r in rules && OnKind(r, fold, burst, kind, setters) && r.threshold == t)
  }

  ghost predicate CompanionFires(
    rules: seq<Rule>, fold: Fold, burst: seq<Event>, kind: string, setters: map<string, Setter>)
    requires kind in setters
  {
    exists r :: r in rules && OffKind(r, fold, kind, setters) && Fires(r, fold, burst)
  }

  /** Some companion that counts keys fires once it sees `m` of them. */
  ghost predicate CounterFires(
    rules: seq<Rule>, fold: Fold, burst: seq<Event>, kind: string, setters: map<string, Setter>, m: int)
    requires kind in setters
  {
    exists r :: r in rules && CountsKeys(r, fold, burst, kind, setters) && r.threshold <= m
  }

  /** A set is dark at `k` iff no companion on another key fires, no companion counts that many
      keys, and the keys are enough for the least threshold. */
  lemma SpreadDarkIff(
    rules: seq<Rule>, fold: Fold, burst: seq<Event>, kind: string, k: nat, setters: map<string, Setter>, t: int)
    requires kind in setters && burst != [] && k >= 1 && Splits(rules, fold, burst, kind, setters, t)
    ensures DarkAt(rules, fold, burst, kind, setters)(k) <==>
      !CompanionFires(rules, fold, burst, kind, setters) &&
      !CounterFires(rules, fold, burst, kind, setters, Min(k, |burst|)) && k >= CeilDiv(|burst|, t - 1)
  {
    hide Fires, OnKind, OffKind, CountsKeys, Spread;
    var out := Spread(burst, kind, k, setters);
    var least :| least in rules && OnKind(least, fold, burst, kind, setters) && least.threshold == t;
    LeastCounts(least, fold, burst, kind, setters);
    forall r | r in rules && OnKind(r, fold, burst, kind, setters)
      ensures r.threshold >= 2
      ensures Fires(r, fold, out) <==> k < CeilDiv(|burst|, r.threshold - 1)
      ensures r.threshold >= t ==> CeilDiv(|burst|, r.threshold - 1) <= CeilDiv(|burst|, t - 1)
    {
      LeastCounts(r, fold, burst, kind, setters);
      OnKindFiresIff(r, fold, burst, kind, k, setters);
      if r.threshold >= t {
        FewerNeeded(|burst|, t, r.threshold);
      }
    }
    forall r | r in rules && OffKind(r, fold, kind, setters)
      ensures Fires(r, fold, out) <==> Fires(r, fold, burst)
    {
      OffKindFiresIff(r, fold, burst, kind, k, setters);
    }
    forall r | r in rules && CountsKeys(r, fold, burst, kind, setters)
      ensures Fires(r, fold, out) <==> Min(k, |burst|) >= r.threshold
    {
      CountingFiresIff(r, fold, burst, kind, k, setters);
    }
  }

  lemma LeastCounts(r: Rule, fold: Fold, burst: seq<Event>, kind: string, setters: map<string, Setter>)
    requires kind in setters && OnKind(r, fold, burst, kind, setters)
    ensures r.threshold >= 2
  {
  }

  lemma FewerNeeded(n: nat, t: int, t': int)
    requires 2 <= t <= t'
    ensures CeilDiv(n, t' - 1) <= CeilDiv(n, t - 1)
  {
    var c := CeilDiv(n, t - 1);
    CeilNonNegative(n, t - 1);
    MulMono(t - 1, t' - 1, c);
    assert c * (t - 1) <= c * (t' - 1);
    CeilAdjoint(c, n, t' - 1);
  }

  /** The closed form of darkness over the counts the search may try. */
  lemma SpreadDarkUpTo(
    rules: seq<Rule>, fold: Fold, burst: seq<Event>, kind: string, setters: map<string, Setter>, t: int)
    requires kind in setters && |burst| >= 2 && Splits(rules, fold, burst, kind, setters, t)
    ensures t >= 2 && CeilDiv(|burst|, t - 1) <= |burst|
    ensures forall k: nat :: 2 <= k <= |burst| ==>
      (DarkAt(rules, fold, burst, kind, setters)(k) <==>
        !CompanionFires(rules, fold, burst, kind, setters) &&
        !CounterFires(rules, fold, burst, kind, setters, k) && k >= CeilDiv(|burst|, t - 1))
  {
    hide DarkAt, CompanionFires, CounterFires, OnKind;
    var least :| least in rules && OnKind(least, fold, burst, kind, setters) && least.threshold == t;
    LeastCounts(least, fold, burst, kind, setters);
    NeedAtMost(|burst|, t);
    hide Splits;
    forall k: nat | 2 <= k <= |burst|
      ensures DarkAt(rules, fold, burst, kind, setters)(k) <==>
        !CompanionFires(rules, fold, burst, kind, setters) &&
        !CounterFires(rules, fold, burst, kind, setters, k) && k >= CeilDiv(|burst|, t - 1)
    {
      SpreadDarkIff(rules, fold, burst, kind, k, setters, t);
    }
  }

  lemma CounterGrows(
    rules: seq<Rule>, fold: Fold, burst: seq<Event>, kind: string, setters: map<string, Setter>, m: int, n: int)
    requires kind in setters && m <= n && CounterFires(rules, fold, burst, kind, setters, m)
    ensures CounterFires(rules, fold, burst, kind, setters, n)
  {
  }

  /** The whole search in closed form: it answers immune iff a companion keyed on something else
      already fires on the burst or one that counts keys fires at one key per event; otherwise
      the ceiling of n over T - 1 (and at least two). */
  lemma SpreadAnswer(
    rules: seq<Rule>, fold: Fold, burst: seq<Event>, kind: string, setters: map<string, Setter>, t: int)
    requires kind in setters && |burst| >= 2 && Splits(rules, fold, burst, kind, setters, t)
    ensures t >= 2
    ensures Solve(|burst|, DarkAt(rules, fold, burst, kind, setters)) ==
      if CompanionFires(rules, fold, burst, kind, setters) || CounterFires(rules, fold, burst, kind, setters, |burst|)
      then None
      else Some(Max(2, CeilDiv(|burst|, t - 1)))
  {
    hide DarkAt, Splits, CompanionFires, CounterFires, Solve;
    var n, dark := |burst|, DarkAt(rules, fold, burst, kind, setters);
    SpreadDarkUpTo(rules, fold, burst, kind, setters, t);
    var open := !CompanionFires(rules, fold, burst, kind, setters) && !CounterFires(rules, fold, burst, kind, setters, n);
    forall k: nat | 2 <= k <= n && CounterFires(rules, fold, burst, kind, setters, k)
      ensures CounterFires(rules, fold, burst, kind, setters, n)
    {
      CounterGrows(rules, fold, burst, kind, setters, k, n);
    }
    SolveOfThreshold(n, dark, open, CeilDiv(n, t - 1));
  }

  /** Exactly when "immune" is wrong: no companion on another key fires, one that counts keys
      fires at one key per event, and does not yet at the fewest keys the thresholds ask for. */
  lemma FalselyImmuneIff(
    rules: seq<Rule>, fold: Fold, burst: seq<Event>, kind: string, setters: map<string, Setter>, t: int)
    requires kind in setters && |burst| >= 2 && Splits(rules, fold, burst, kind, setters, t)
    ensures t >= 2
    ensures var dark := DarkAt(rules, fold, burst, kind, setters);
      Solve(|burst|, dark).None? && (exists k: nat :: 2 <= k <= |burst| && dark(k)) <==>
      !CompanionFires(rules, fold, burst, kind, setters) &&
      CounterFires(rules, fold, burst, kind, setters, |burst|) &&
      !CounterFires(rules, fold, burst, kind, setters, Max(2, CeilDiv(|burst|, t - 1)))
  {
    hide DarkAt, Splits, CompanionFires, CounterFires, Solve;
    SpreadDarkUpTo(rules, fold, burst, kind, setters, t);
    var dark, need := DarkAt(rules, fold, burst, kind, setters), Max(2, CeilDiv(|burst|, t - 1));
    SpreadAnswer(rules, fold, burst, kind, setters, t);
    if !CompanionFires(rules, fold, burst, kind, setters) && !CounterFires(rules, fold, burst, kind, setters, need) {
      assert dark(need);
    }
    if k: nat :| 2 <= k <= |burst| && dark(k) {
      if CounterFires(rules, fold, burst, kind, setters, need) {
        CounterGrows(rules, fold, burst, kind, setters, need, k);
      }
    }
  }

  lemma NeedAtMost(n: nat, t: int)
    requires t >= 2
    ensures CeilDiv(n, t - 1) <= n
  {
    CeilAdjoint(n, n, t - 1);
    MulMono(1, t - 1, n);
  }

  lemma SolveOfThreshold(n: nat, dark: nat -> bool, open: bool, need: int)
    requires n >= 2 && need <= n && (dark(n) <==> open)
    requires open ==> forall k: nat :: 2 <= k <= n ==> (dark(k) <==> k >= need)
    ensures Solve(n, dark) == if open then Some(Max(2, need)) else None
  {
    SolveIsBisection(n, dark);
    if open {
      var k := Solve(n, dark).value;
      assert k > 2 ==> !dark(k - 1);
    }
  }

  // ---------- a burst on which the search gives up ----------

  /** Four attempts from one source under a plain rule that wants three per source and a spray
      companion that wants four sources per account. */
  ghost predicate Sprayed(
    a: Rule, b: Rule, fold: Fold, burst: seq<Event>, kind: string, setters: map<string, Setter>)
    requires kind in setters
  {
    |burst| == 4 && a.threshold == 3 && OnKind(a, fold, burst, kind, setters) &&
    b.threshold == 4 && CountsKeys(b, fold, burst, kind, setters)
  }

  /** The search answers immune although two sources evade, and three do. */
  lemma SolveCanMissEvasion(
    a: Rule, b: Rule, fold: Fold, burst: seq<Event>, kind: string, setters: map<string, Setter>)
    requires kind in setters && Sprayed(a, b, fold, burst, kind, setters)
    ensures var dark := DarkAt([a, b], fold, burst, kind, setters);
      dark(2) && dark(3) && !dark(4) && Solve(|burst|, dark) == None
  {
    hide DarkAt, OnKind, OffKind, CountsKeys, Solve, Fires;
    var rules := [a, b];
    if OffKind(a, fold, kind, setters) {
      MovesNotIgnores(a, fold, burst, kind, setters);
    }
    if OffKind(b, fold, kind, setters) {
      WritesNotIgnores(b, fold, burst, kind, setters);
    }
    if CountsKeys(a, fold, burst, kind, setters) {
      MovesNotWrites(a, fold, burst, kind, setters);
    }
    assert Splits(rules, fold, burst, kind, setters, 3) by {
      assert a in rules;
    }
    assert b in rules;
    SpreadDarkUpTo(rules, fold, burst, kind, setters, 3);
    SpreadAnswer(rules, fold, burst, kind, setters, 3);
    CeilAdjoint(2, 4, 2);
    CeilAdjoint(1, 4, 2);
  }

  lemma MovesNotIgnores(a: Rule, fold: Fold, burst: seq<Event>, kind: string, setters: map<string, Setter>)
    requires kind in setters && OnKind(a, fold, burst, kind, setters) && burst != []
    ensures !OffKind(a, fold, kind, setters)
  {
    hide KeyOf, Observe;
    var key :| InOneGroup(a, fold, burst, key);
    var put, e := setters[kind], burst[0];
    MovesAt(a, fold, put, e, e, 0, 1);
    if OffKind(a, fold, kind, setters) {
      IgnoresAt(a, fold, put, e, 0);
      IgnoresAt(a, fold, put, e, 1);
    }
  }

  lemma WritesNotIgnores(b: Rule, fold: Fold, burst: seq<Event>, kind: string, setters: map<string, Setter>)
    requires kind in setters && CountsKeys(b, fold, burst, kind, setters) && burst != []
    ensures !OffKind(b, fold, kind, setters)
  {
    hide KeyOf, Observe, WritesValue;
    var key :| InOneGroup(b, fold, burst, key);
    var put, e := setters[kind], burst[0];
    WritesAt(b, fold, put, e, e, 0, 1);
    if OffKind(b, fold, kind, setters) {
      IgnoresAt(b, fold, put, e, 0);
      IgnoresAt(b, fold, put, e, 1);
    }
  }

  lemma MovesNotWrites(a: Rule, fold: Fold, burst: seq<Event>, kind: string, setters: map<string, Setter>)
    requires kind in setters && OnKind(a, fold, burst, kind, setters) && burst != []
    ensures !CountsKeys(a, fold, burst, kind, setters)
  {
    hide KeyOf, Observe, WritesValue, Moves;
    var key :| InOneGroup(a, fold, burst, key);
    var put, e := setters[kind], burst[0];
    MovesAt(a, fold, put, e, e, 0, 1);
    if CountsKeys(a, fold, burst, kind, setters) {
      WritesAt(a, fold, put, e, e, 0, 1);
      WritesAt(a, fold, put, e, e, 1, 0);
    }
  }

  // ---------- a burst on which the search overshoots ----------

  /** A distinct rule that wants two names, on eight events in one window that cycle through
      three names. */
  ghost predicate Cycles(r: Rule, fold: Fold, burst: seq<Event>) {
    r.maxCv.None? && r.distinct.Some? && r.threshold == 2 && |burst| == 8 && OneWindow(r, burst) &&
    (exists key :: InOneGroup(r, fold, burst, key)) &&
    forall i, j :: 0 <= i < 8 && 0 <= j < 8 ==>
      (Observe(r, burst[i]).value == Observe(r, burst[j]).value <==> i % 3 == j % 3)
  }

  /** Every entry of a group is an event that counts in it, and every such event is there. */
  lemma {:induction false} GroupIsItsEvents(r: Rule, fold: Fold, evs: seq<Event>, key: string)
    ensures forall o :: o in Group(r, fold, evs, key) <==> CountedAs(r, fold, evs, key, o)
  {
    if evs != [] {
      hide KeyOf, Observe;
      var n := |evs| - 1;
      GroupIsItsEvents(r, fold, evs[..n], key);
      forall o
        ensures CountedAs(r, fold, evs, key, o) <==>
          CountedAs(r, fold, evs[..n], key, o) || (KeyOf(r, fold, evs[n]) == Some(key) && o == Observe(r, evs[n]))
      {
        if CountedAs(r, fold, evs[..n], key, o) {
          var i :| 0 <= i < n && KeyOf(r, fold, evs[..n][i]) == Some(key) && o == Observe(r, evs[..n][i]);
          assert KeyOf(r, fold, evs[i]) == Some(key) && o == Observe(r, evs[i]);
        }
        if CountedAs(r, fold, evs, key, o) {
          var i :| 0 <= i <= n && KeyOf(r, fold, evs[i]) == Some(key) && o == Observe(r, evs[i]);
          if i < n {
            assert evs[..n][i] == evs[i];
          }
        }
      }
    }
  }

  ghost predicate CountedAs(r: Rule, fold: Fold, evs: seq<Event>, key: string, o: Obs) {
    exists i :: 0 <= i < |evs| && KeyOf(r, fold, evs[i]) == Some(key) && o == Observe(r, evs[i])
  }

  /** Two events of one group with different values. */
  predicate Differ(r: Rule, fold: Fold, evs: seq<Event>, i: int, k: int) {
    0 <= i < |evs| && 0 <= k < |evs| && KeyOf(r, fold, evs[k]).Some? && KeyOf(r, fold, evs[i]) == KeyOf(r, fold, evs[k]) &&
    Observe(r, evs[i]).value != Observe(r, evs[k]).value
  }

  /** Inside one window the group is its own window. */
  lemma PairAlarmIsCount(r: Rule, fold: Fold, evs: seq<Event>, k: nat)
    requires r.maxCv.None? && r.distinct.Some? && r.threshold == 2 && OneWindow(r, evs)
    requires k < |evs| && KeyOf(r, fold, evs[k]).Some?
    ensures Alarm(r, fold, evs, k) <==> |Values(Group(r, fold, evs[..k + 1], KeyOf(r, fold, evs[k]).value))| >= 2
  {
    hide KeyOf, Observe, Group, Live, Values, Regular;
    var seen, key := evs[..k + 1], KeyOf(r, fold, evs[k]).value;
    var g, from := Group(r, fold, seen, key), evs[k].time - r.window;
    GroupIsItsEvents(r, fold, seen, key);
    NewestEntry(r, fold, seen, key);
    forall x | 0 <= x < |g| ensures g[x].time >= from {
      assert g[x] in g && CountedAs(r, fold, seen, key, g[x]);
      var i :| 0 <= i < |seen| && KeyOf(r, fold, seen[i]) == Some(key) && g[x] == Observe(r, seen[i]);
      ObserveTime(r, seen[i]);
    }
    ObserveTime(r, evs[k]);
    LiveIsTail(g, from, 0);
    assert g[0..] == g;
  }

  lemma GroupPairIff(r: Rule, fold: Fold, seen: seq<Event>, key: string)
    ensures |Values(Group(r, fold, seen, key))| >= 2 <==>
      exists i, j :: Differ(r, fold, seen, i, j) && KeyOf(r, fold, seen[j]) == Some(key)
  {
    hide KeyOf, Observe, Group, Values;
    var g := Group(r, fold, seen, key);
    GroupIsItsEvents(r, fold, seen, key);
    TwoValues(g);
    if i, j :| Differ(r, fold, seen, i, j) && KeyOf(r, fold, seen[j]) == Some(key) {
      assert CountedAs(r, fold, seen, key, Observe(r, seen[i])) && CountedAs(r, fold, seen, key, Observe(r, seen[j]));
    }
    if x, y :| x in g && y in g && x.value != y.value {
      assert CountedAs(r, fold, seen, key, x) && CountedAs(r, fold, seen, key, y);
      var i :| 0 <= i < |seen| && KeyOf(r, fold, seen[i]) == Some(key) && x == Observe(r, seen[i]);
      var j :| 0 <= j < |seen| && KeyOf(r, fold, seen[j]) == Some(key) && y == Observe(r, seen[j]);
      assert Differ(r, fold, seen, i, j);
    }
  }

  lemma TwoValues(g: seq<Obs>)
    ensures |Values(g)| >= 2 <==> exists x, y :: x in g && y in g && x.value != y.value
  {
    if x, y :| x in g && y in g && x.value != y.value {
      SubsetSize({x.value, y.value}, Values(g));
    }
    if |Values(g)| >= 2 {
      var v :| v in Values(g);
      if Values(g) <= {v} {
        SubsetSize(Values(g), {v});
      }
      var u :| u in Values(g) && u != v;
      var x :| x in g && x.value == u;
      var y :| y in g && y.value == v;
      assert x.value != y.value;
    }
  }

  /** Inside one window a distinct rule that wants two values fires iff some group holds two. */
  lemma PairFiresIff(r: Rule, fold: Fold, evs: seq<Event>)
    requires r.maxCv.None? && r.distinct.Some? && r.threshold == 2 && OneWindow(r, evs)
    ensures Fires(r, fold, evs) <==> exists i, j :: Differ(r, fold, evs, i, j)
  {
    hide Alarm, KeyOf, Observe, Group, Values, OneWindow;
    if k :| 0 <= k < |evs| && Alarm(r, fold, evs, k) {
      AlarmIsKeyed(r, fold, evs, k);
      PairAlarmIsCount(r, fold, evs, k);
      var seen, key := evs[..k + 1], KeyOf(r, fold, evs[k]).value;
      GroupPairIff(r, fold, seen, key);
      var i, j :| Differ(r, fold, seen, i, j) && KeyOf(r, fold, seen[j]) == Some(key);
      assert Differ(r, fold, evs, i, j);
    }
    if i, j :| Differ(r, fold, evs, i, j) {
      var k := Max(i, j);
      var seen, key := evs[..k + 1], KeyOf(r, fold, evs[k]).value;
      assert Differ(r, fold, seen, i, j);
      GroupPairIff(r, fold, seen, key);
      PairAlarmIsCount(r, fold, evs, k);
      assert Alarm(r, fold, evs, k);
    }
  }

  lemma AlarmIsKeyed(r: Rule, fold: Fold, evs: seq<Event>, k: nat)
    requires k < |evs| && Alarm(r, fold, evs, k)
    ensures KeyOf(r, fold, evs[k]).Some?
  {
  }

  /** Two ranks that share a key but not a name. */
  predicate Collide(k: nat, i: int, j: int)
    requires k >= 1
  {
    0 <= i < 8 && 0 <= j < 8 && i % k == j % k && i % 3 != j % 3
  }

  /** Spread over `k` keys the cycling burst is dark iff no key receives two names. */
  lemma CyclesDarkIff(r: Rule, fold: Fold, burst: seq<Event>, kind: string, k: nat, setters: map<string, Setter>)
    requires kind in setters && k >= 1 && Cycles(r, fold, burst) && Moves(r, fold, setters[kind])
    ensures DarkAt([r], fold, burst, kind, setters)(k) <==> forall i, j :: !Collide(k, i, j)
  {
    hide Fires, KeyOf, Observe, Moves;
    var order, counts := [kind], map[kind := k];
    var out := Spread(burst, kind, k, setters);
    var key :| InOneGroup(r, fold, burst, key);
    SingleStride(kind, k);
    forall i | 0 <= i < 8
      ensures KeyOf(r, fold, out[i]).Some? && Observe(r, out[i]) == Observe(r, burst[i]) && out[i].time == burst[i].time
    {
      AssignedObserved(r, fold, burst[i], i, order, counts, setters, 0);
      ObserveTime(r, out[i]);
      ObserveTime(r, burst[i]);
    }
    forall i, j | 0 <= i < 8 && 0 <= j < 8
      ensures Differ(r, fold, out, i, j) <==> Collide(k, i, j)
    {
      AssignedKeys(r, fold, burst[i], burst[j], i, j, order, counts, setters, 0);
      assert i / 1 == i && j / 1 == j;
    }
    PairFiresIff(r, fold, out);
    OneRule(r, fold, out);
    if i, j :| Differ(r, fold, out, i, j) {
      assert Collide(k, i, j);
    }
    if i, j :| Collide(k, i, j) {
      assert Differ(r, fold, out, i, j);
    }
  }

  lemma OneRule(r: Rule, fold: Fold, evs: seq<Event>)
    ensures FiresSet([r], fold, evs) <==> Fires(r, fold, evs)
  {
    assert r in [r];
  }

  /** On such a burst three keys evade, and the search answers eight: counts three, six and
      eight are dark, and the bisection probes five and seven. */
  lemma SolveCanMissTheLeast(
    r: Rule, fold: Fold, burst: seq<Event>, kind: string, setters: map<string, Setter>)
    requires kind in setters && Cycles(r, fold, burst) && Moves(r, fold, setters[kind])
    ensures var dark := DarkAt([r], fold, burst, kind, setters);
      dark(3) && !dark(2) && Solve(|burst|, dark) == Some(8)
  {
    hide DarkAt, Cycles, Moves;
    var dark := DarkAt([r], fold, burst, kind, setters);
    assert |burst| == 8 by {
      CyclesSize(r, fold, burst);
    }
    forall k: nat | k >= 1 ensures dark(k) <==> forall i, j :: !Collide(k, i, j) {
      CyclesDarkIff(r, fold, burst, kind, k, setters);
    }
    assert Collide(2, 0, 2) && Collide(5, 0, 5) && Collide(7, 0, 7);
    assert dark(3) && dark(8) && !dark(2) && !dark(5) && !dark(7);
    hide Bisect;
    BisectProbe(2, 8, dark);
    BisectProbe(6, 8, dark);
  }

  lemma CyclesSize(r: Rule, fold: Fold, burst: seq<Event>)
    requires Cycles(r, fold, burst)
    ensures |burst| == 8
  {
  }

  // ---------- such bursts exist ----------

  const SOURCE_PATH := "src"
  const NAME_PATH := "name"
  const ACCOUNT_PATH := "user"

  lemma PathsDiffer()
    ensures SOURCE_PATH != NAME_PATH && SOURCE_PATH != ACCOUNT_PATH
    ensures SOURCE_PATH !in ACCOUNT_KEYS && ACCOUNT_PATH !in ACCOUNT_KEYS
  {
    assert SOURCE_PATH[0] == 's' && NAME_PATH[0] == 'n' && ACCOUNT_PATH[0] == 'u';
    assert |SOURCE_PATH| == 3 && |ACCOUNT_PATH| == 4;
    assert |"actor.user.name"| > 4 && |"unmapped.target_user.name"| > 4;
  }

  /** The `j`-th key the setter writes. */
  function KeyName(j: nat): string {
    seq(j, _ => 'k')
  }

  lemma KeyNamesDiffer(x: nat, y: nat)
    ensures KeyName(x) == KeyName(y) <==> x == y
  {
    assert |KeyName(x)| == x && |KeyName(y)| == y;
  }

  function PutSource(e: Event, j: nat): Event {
    e.(fields := e.fields[SOURCE_PATH := KeyName(j)])
  }

  lemma PutSourceMoves(r: Rule, fold: Fold)
    requires r.groupBy == SOURCE_PATH && r.distinct != Some(SOURCE_PATH)
    ensures Moves(r, fold, PutSource)
  {
    hide KeyName;
    PathsDiffer();
    forall x: nat, y: nat ensures KeyName(x) == KeyName(y) <==> x == y {
      KeyNamesDiffer(x, y);
    }
  }

  lemma PutSourceWrites(r: Rule, fold: Fold)
    requires r.groupBy == ACCOUNT_PATH && r.distinct == Some(SOURCE_PATH)
    ensures WritesValue(r, fold, PutSource)
  {
    hide KeyName;
    PathsDiffer();
    forall x: nat, y: nat ensures KeyName(x) == KeyName(y) <==> x == y {
      KeyNamesDiffer(x, y);
    }
  }

  /** Eight events from one source, cycling through three names. */
  lemma CyclingBurst(fold: Fold) returns (r: Rule, burst: seq<Event>, put: Setter)
    ensures Cycles(r, fold, burst) && Moves(r, fold, put)
  {
    hide Moves;
    r := Rule(2, 60000, SOURCE_PATH, Some(NAME_PATH), None);
    put := PutSource;
    PathsDiffer();
    PutSourceMoves(r, fold);
    var names := ["a", "b", "c"];
    burst := seq(8, i requires 0 <= i < 8 => Event(i, map[SOURCE_PATH := "", NAME_PATH := names[i % 3]]));
    assert InOneGroup(r, fold, burst, "");
    forall i, j | 0 <= i < 3 && 0 <= j < 3 ensures names[i] == names[j] <==> i == j {
      assert "a"[0] == 'a' && "b"[0] == 'b' && "c"[0] == 'c';
    }
  }

  /** Four events from one source on one account; the companion groups by account and counts
      sources. */
  lemma SprayingBurst(fold: Fold) returns (a: Rule, b: Rule, burst: seq<Event>, put: Setter)
    ensures Sprayed(a, b, fold, burst, "src", map["src" := put])
  {
    hide Moves, WritesValue;
    a := Rule(3, 300000, SOURCE_PATH, None, None);
    b := Rule(4, 300000, ACCOUNT_PATH, Some(SOURCE_PATH), None);
    put := PutSource;
    PathsDiffer();
    PutSourceMoves(a, fold);
    PutSourceWrites(b, fold);
    burst := seq(4, i requires 0 <= i < 4 => Event(i, map[SOURCE_PATH := "", ACCOUNT_PATH := ""]));
    assert InOneGroup(a, fold, burst, "") && InOneGroup(b, fold, burst, "");
  }

  // ---------- joint cells ----------

  /** A cell of the joint grid is dark iff the heaviest key of every rule's kind stays
      below its threshold. `at` says which kind each rule is keyed on. */
  lemma JointCellDarkIff(
    rules: seq<Rule>, fold: Fold, burst: seq<Event>, out: seq<Event>,
    order: seq<string>, counts: map<string, nat>, setters: map<string, Setter>, at: seq<nat>)
    requires Settable(order, counts, setters) && IsAssigned(out, burst, order, counts, setters)
    requires burst != [] && |at| == |rules|
    requires forall i :: 0 <= i < |rules| ==>
      rules[i].maxCv.None? && rules[i].threshold >= 1 && at[i] < |order| &&
      MovedOnlyBy(rules[i], fold, order, setters, at[i]) &&
      OneWindow(rules[i], burst) && Saturates(rules[i], fold, burst)
    ensures !FiresSet(rules, fold, out) <==>
      forall i :: 0 <= i < |rules| ==>
        KindLoad(|burst|, StrideBefore(order, counts, at[i]), KeysOf(order[at[i]], counts)) < rules[i].threshold
  {
    forall i | 0 <= i < |rules|
      ensures Fires(rules[i], fold, out) <==>
        KindLoad(|burst|, StrideBefore(order, counts, at[i]), KeysOf(order[at[i]], counts)) >= rules[i].threshold
    {
      JointFiresIff(rules[i], fold, burst, out, order, counts, setters, at[i]);
    }
  }

  lemma StrideOfSecond(a: string, b: string, x: nat, y: nat)
    requires a != b && x >= 1 && y >= 1
    ensures StrideBefore([a, b], map[a := x, b := y], 1) == x
    ensures KeysOf([a, b][1], map[a := x, b := y]) == y
  {
    var counts := map[a := x, b := y];
    assert [a, b][..1] == [a];
    assert RadicesOf([a], counts)[..0] == [];
    assert Prod(RadicesOf([a], counts)) == Prod([]) * x;
  }

  /** The dark set is not upward closed. Six events over two keys of the second kind load
      it with three at one key of the first kind but with four at two, so a rule that wants
      four is silent in the cheaper cell and fires in the dearer one. */
  lemma MoreKeysMayFireAgain(
    r: Rule, fold: Fold, burst: seq<Event>, few: seq<Event>, more: seq<Event>,
    a: string, b: string, setters: map<string, Setter>)
    requires a != b && a in setters && b in setters
    requires r.maxCv.None? && r.threshold == 4 && |burst| == 6
    requires MovedOnlyBy(r, fold, [a, b], setters, 1) && OneWindow(r, burst) && Saturates(r, fold, burst)
    requires IsAssigned(few, burst, [a, b], map[a := 1, b := 2], setters)
    requires IsAssigned(more, burst, [a, b], map[a := 2, b := 2], setters)
    ensures !Fires(r, fold, few) && Fires(r, fold, more)
  {
    hide Fires, MovedOnlyBy, OneWindow, Saturates, IsAssigned, KindLoad;
    StrideOfSecond(a, b, 1, 2);
    StrideOfSecond(a, b, 2, 2);
    JointFiresIff(r, fold, burst, few, [a, b], map[a := 1, b := 2], setters, 1);
    JointFiresIff(r, fold, burst, more, [a, b], map[a := 2, b := 2], setters, 1);
    SixOverTwo();
  }

  lemma SixOverTwo()
    ensures KindLoad(6, 1, 2) == 3 && KindLoad(6, 2, 2) == 4
  {
    SingleKindLoad(6, 2);
    CeilAdjoint(3, 6, 2);
    CeilAdjoint(2, 6, 2);
    QuotientIs(6, 2, 3, 0);
    QuotientIs(3, 2, 1, 1);
    CeilAdjoint(2, 3, 2);
    CeilAdjoint(1, 3, 2);
  }
}
