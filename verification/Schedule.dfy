/** The attacker's earliest slow schedule, and the control that is one millisecond faster. */
module Schedule {
  import opened Common
  import opened Detector
  import opened WindowLaws

  /** No `t` events inside any window of `w` milliseconds. */
  datatype Constraint = Constraint(t: int, w: int)

  function Constraints(rules: seq<Rule>): seq<Constraint> {
    seq(|rules|, i requires 0 <= i < |rules| => Constraint(rules[i].threshold, rules[i].window))
  }

  // ---------- the greedy schedule ----------

  /** When the next event may go out, given the offsets already fixed. */
  function Earliest(prev: seq<int>, cons: seq<Constraint>, minGap: int, slack: int): int {
    if cons == [] then (if prev == [] then 0 else prev[|prev| - 1] + minGap)
    else
      var v := Earliest(prev, cons[..|cons| - 1], minGap, slack);
      var c := cons[|cons| - 1];
      if c.t >= 2 && |prev| >= c.t - 1 then Max(v, prev[|prev| - (c.t - 1)] + c.w + slack) else v
  }

  function Greedy(n: nat, cons: seq<Constraint>, minGap: int, slack: int): (offsets: seq<int>)
    ensures |offsets| == n
  {
    if n == 0 then []
    else
      var prev := Greedy(n - 1, cons, minGap, slack);
      prev + [Earliest(prev, cons, minGap, slack)]
  }

  method OptimalSlowOffsets(n: nat, cons: seq<Constraint>, minGap: int, slack: int) returns (offsets: seq<int>)
    ensures Feasible(offsets, cons, minGap, slack) && |offsets| == n
    ensures forall s: seq<int> :: |s| == n && Feasible(s, cons, minGap, slack) ==>
      forall i :: 0 <= i < n ==> offsets[i] <= s[i]
    ensures offsets == Greedy(n, cons, minGap, slack)
  {
    offsets := [];
    for i := 0 to n
      invariant offsets == Greedy(i, cons, minGap, slack)
    {
      var v := if offsets != [] then offsets[|offsets| - 1] + minGap else 0;
      for c := 0 to |cons|
        invariant v == Earliest(offsets, cons[..c], minGap, slack)
      {
        assert cons[..c + 1][..c] == cons[..c];
        if cons[c].t >= 2 && i - (cons[c].t - 1) >= 0 {
          v := Max(v, offsets[i - (cons[c].t - 1)] + cons[c].w + slack);
        }
      }
      assert cons[..|cons|] == cons;
      offsets := offsets + [v];
    }
    GreedyFeasible(n, cons, minGap, slack);
    forall s: seq<int> | |s| == n && Feasible(s, cons, minGap, slack)
      ensures forall i :: 0 <= i < n ==> offsets[i] <= s[i]
    {
      GreedyLeast(s, cons, minGap, slack);
    }
  }

  /** The gap one constraint asks for, wherever it reaches back far enough. */
  predicate Keeps(s: seq<int>, c: Constraint, slack: int) {
    c.t >= 2 ==> forall i :: c.t - 1 <= i < |s| ==> s[i] >= s[i - (c.t - 1)] + c.w + slack
  }

  /** A schedule the attacker may use: not before 0, spaced, every constraint kept. */
  predicate Feasible(s: seq<int>, cons: seq<Constraint>, minGap: int, slack: int) {
    (s != [] ==> s[0] >= 0) &&
    (forall i :: 1 <= i < |s| ==> s[i] >= s[i - 1] + minGap) &&
    (forall c :: c in cons ==> Keeps(s, c, slack))
  }

  /** Does constraint `c` decide where the event after `prev` goes? */
  predicate Binds(prev: seq<int>, c: Constraint, cons: seq<Constraint>, minGap: int, slack: int) {
    c.t >= 2 && |prev| >= c.t - 1 && Earliest(prev, cons, minGap, slack) == prev[|prev| - (c.t - 1)] + c.w + slack
  }

  /** `Earliest` is the least value above every bound, and one bound attains it. */
  lemma {:induction false} EarliestIsTight(prev: seq<int>, cons: seq<Constraint>, minGap: int, slack: int)
    ensures var v := Earliest(prev, cons, minGap, slack);
      var free := if prev == [] then 0 else prev[|prev| - 1] + minGap;
      v >= free &&
      (forall c :: c in cons && c.t >= 2 && |prev| >= c.t - 1 ==> v >= prev[|prev| - (c.t - 1)] + c.w + slack) &&
      (v == free ||
       exists c :: c in cons && Binds(prev, c, cons, minGap, slack))
  {
    if cons != [] {
      var m := |cons| - 1;
      EarliestIsTight(prev, cons[..m], minGap, slack);
      assert cons == cons[..m] + [cons[m]];
      var v := Earliest(prev, cons, minGap, slack);
      if v == Earliest(prev, cons[..m], minGap, slack) {
        if c :| c in cons[..m] && Binds(prev, c, cons[..m], minGap, slack) {
          assert Binds(prev, c, cons, minGap, slack);
        }
      } else {
        assert Binds(prev, cons[m], cons, minGap, slack);
      }
    }
  }

  lemma KeepsExtends(prev: seq<int>, v: int, c: Constraint, slack: int)
    requires Keeps(prev, c, slack)
    requires c.t >= 2 && |prev| >= c.t - 1 ==> v >= prev[|prev| - (c.t - 1)] + c.w + slack
    ensures Keeps(prev + [v], c, slack)
  {
  }

  lemma {:induction false} GreedyFeasible(n: nat, cons: seq<Constraint>, minGap: int, slack: int)
    ensures Feasible(Greedy(n, cons, minGap, slack), cons, minGap, slack)
  {
    if n > 0 {
      GreedyFeasible(n - 1, cons, minGap, slack);
      var prev := Greedy(n - 1, cons, minGap, slack);
      var v := Earliest(prev, cons, minGap, slack);
      EarliestIsTight(prev, cons, minGap, slack);
      forall c | c in cons
        ensures Keeps(prev + [v], c, slack)
      {
        KeepsExtends(prev, v, c, slack);
      }
    }
  }

  lemma FeasiblePrefix(s: seq<int>, cons: seq<Constraint>, minGap: int, slack: int, n: nat)
    requires n <= |s| && Feasible(s, cons, minGap, slack)
    ensures Feasible(s[..n], cons, minGap, slack)
  {
    forall c | c in cons ensures Keeps(s[..n], c, slack) {
      assert Keeps(s, c, slack);
    }
  }

  /** Whatever binds the next event of the least schedule binds it in any other. */
  lemma EarliestLeast(s: seq<int>, prev: seq<int>, cons: seq<Constraint>, minGap: int, slack: int)
    requires s != [] && |prev| == |s| - 1 && Feasible(s, cons, minGap, slack)
    requires forall i :: 0 <= i < |prev| ==> prev[i] <= s[i]
    ensures Earliest(prev, cons, minGap, slack) <= s[|prev|]
  {
    hide Keeps, Earliest;
    EarliestIsTight(prev, cons, minGap, slack);
    if c :| c in cons && Binds(prev, c, cons, minGap, slack) {
      KeepsAtEnd(s, c, slack);
    }
  }

  lemma KeepsAtEnd(s: seq<int>, c: Constraint, slack: int)
    requires Keeps(s, c, slack) && 2 <= c.t <= |s|
    ensures s[|s| - 1] >= s[|s| - 1 - (c.t - 1)] + c.w + slack
  {
  }

  /** Pointwise minimality: no admissible schedule delivers any event sooner. */
  lemma {:induction false} GreedyLeast(s: seq<int>, cons: seq<Constraint>, minGap: int, slack: int)
    requires Feasible(s, cons, minGap, slack)
    ensures forall i :: 0 <= i < |s| ==> Greedy(|s|, cons, minGap, slack)[i] <= s[i]
  {
    if s != [] {
      hide Feasible, Earliest;
      var n := |s| - 1;
      FeasiblePrefix(s, cons, minGap, slack, n);
      GreedyLeast(s[..n], cons, minGap, slack);
      var prev := Greedy(n, cons, minGap, slack);
      EarliestLeast(s, prev, cons, minGap, slack);
    }
  }

  lemma {:induction false} GreedyPrefix(m: nat, n: nat, cons: seq<Constraint>, minGap: int, slack: int)
    requires m <= n
    ensures Greedy(n, cons, minGap, slack)[..m] == Greedy(m, cons, minGap, slack)
  {
    if m < n {
      GreedyPrefix(m, n - 1, cons, minGap, slack);
    }
  }

  // ---------- schedule against detector ----------

  /** The burst's events, moved to `offsets` after its first time `t0`. */
  predicate Follows(evs: seq<Event>, t0: int, offsets: seq<int>) {
    |evs| == |offsets| && forall i :: 0 <= i < |evs| ==> evs[i].time == t0 + offsets[i]
  }

  lemma {:induction false} SpacedIsSorted(s: seq<int>, minGap: int)
    requires minGap >= 0 && forall i :: 1 <= i < |s| ==> s[i] >= s[i - 1] + minGap
    ensures forall i, j :: 0 <= i <= j < |s| ==> s[j] >= s[i] + (j - i) * minGap
  {
    if s != [] {
      var n := |s| - 1;
      SpacedIsSorted(s[..n], minGap);
      forall i, j | 0 <= i <= j < |s|
        ensures s[j] >= s[i] + (j - i) * minGap
      {
        if j == n && i < n {
          assert s[..n][n - 1] >= s[..n][i] + (n - 1 - i) * minGap;
          assert (n - i) * minGap == (n - 1 - i) * minGap + minGap;
        } else if j < n {
          assert s[..n][j] >= s[..n][i] + (j - i) * minGap;
        }
      }
    }
  }

  lemma FollowsIsOrdered(evs: seq<Event>, t0: int, s: seq<int>, minGap: int)
    requires Follows(evs, t0, s) && minGap >= 0 && forall i :: 1 <= i < |s| ==> s[i] >= s[i - 1] + minGap
    ensures TimeOrdered(evs)
  {
    SpacedIsSorted(s, minGap);
    forall i, j | 0 <= i <= j < |evs| ensures evs[i].time <= evs[j].time {
      assert s[j] >= s[i] + (j - i) * minGap;
      MulMono(0, j - i, minGap);
    }
  }

  predicate PlainRules(rules: seq<Rule>) {
    forall r :: r in rules ==> r.maxCv.None? && r.window >= 0
  }

  ghost predicate SaturatesAll(rules: seq<Rule>, fold: Fold, evs: seq<Event>) {
    forall r :: r in rules ==> Saturates(r, fold, evs)
  }

  /** Any schedule that keeps every constraint with the strict edge evades, for every
      choice of group keys, distinct values and periodicity bounds. */
  lemma KeepingEvades(rules: seq<Rule>, fold: Fold, evs: seq<Event>, t0: int, s: seq<int>)
    requires forall r :: r in rules ==> r.threshold >= 2
    requires Follows(evs, t0, s) && TimeOrdered(evs)
    requires forall c :: c in Constraints(rules) ==> Keeps(s, c, 1)
    ensures !FiresSet(rules, fold, evs)
  {
    forall r | r in rules
      ensures !Fires(r, fold, evs)
    {
      var i :| 0 <= i < |rules| && rules[i] == r;
      assert Constraints(rules)[i] == Constraint(r.threshold, r.window);
      assert Keeps(s, Constraint(r.threshold, r.window), 1);
      SpacedIsSilent(r, fold, evs);
    }
  }

  /** The greedy schedule evades every rule-set whose thresholds are at least 2. */
  lemma GreedyEvades(rules: seq<Rule>, fold: Fold, evs: seq<Event>, t0: int, minGap: nat)
    requires forall r :: r in rules ==> r.threshold >= 2
    requires Follows(evs, t0, Greedy(|evs|, Constraints(rules), minGap, 1))
    ensures !FiresSet(rules, fold, evs)
  {
    GreedyFeasible(|evs|, Constraints(rules), minGap, 1);
    FollowsIsOrdered(evs, t0, Greedy(|evs|, Constraints(rules), minGap, 1), minGap);
    KeepingEvades(rules, fold, evs, t0, Greedy(|evs|, Constraints(rules), minGap, 1));
  }

  /** True optimality, against the detector rather than the constraints: every spaced
      schedule on which plain rules stay silent delivers no event before the greedy one. */
  lemma NoEvasionIsSooner(rules: seq<Rule>, fold: Fold, evs: seq<Event>, t0: int, s: seq<int>, minGap: nat)
    requires PlainRules(rules) && forall r :: r in rules ==> r.threshold >= 2
    requires Follows(evs, t0, s) && SaturatesAll(rules, fold, evs)
    requires Feasible(s, [], minGap, 1)
    requires !FiresSet(rules, fold, evs)
    ensures forall i :: 0 <= i < |s| ==> Greedy(|s|, Constraints(rules), minGap, 1)[i] <= s[i]
  {
    FollowsIsOrdered(evs, t0, s, minGap);
    forall c | c in Constraints(rules)
      ensures Keeps(s, c, 1)
    {
      var i :| 0 <= i < |rules| && Constraints(rules)[i] == c;
      PlainFiresIff(rules[i], fold, evs);
      assert !Fires(rules[i], fold, evs);
      forall k | c.t - 1 <= k < |s| ensures s[k] >= s[k - (c.t - 1)] + c.w + 1 {
        assert !Packed(rules[i], evs, k);
      }
    }
    GreedyLeast(s, Constraints(rules), minGap, 1);
  }

  /** The documented promise fails for a threshold below 2 (its constraint is skipped):
      the greedy schedule evades for every burst content iff the burst is empty or
      every threshold is at least 2. */
  lemma EvadesIffThresholdsAtLeastTwo(rules: seq<Rule>, fold: Fold, n: nat, t0: int, minGap: nat)
    requires PlainRules(rules)
    ensures (forall evs :: Follows(evs, t0, Greedy(n, Constraints(rules), minGap, 1)) ==> !FiresSet(rules, fold, evs))
      <==> (n == 0 || forall r :: r in rules ==> r.threshold >= 2)
  {
    var offsets := Greedy(n, Constraints(rules), minGap, 1);
    if n == 0 {
    } else if forall r :: r in rules ==> r.threshold >= 2 {
      forall evs | Follows(evs, t0, offsets) ensures !FiresSet(rules, fold, evs) {
        GreedyEvades(rules, fold, evs, t0, minGap);
      }
    } else {
      hide Fires, Greedy;
      var r :| r in rules && r.threshold < 2;
      var evs := LowThresholdBurst(r, fold, t0, offsets);
      assert FiresSet(rules, fold, evs);
    }
  }

  /** A burst whose events are all alike but for their times counts in one group. */
  lemma AlikeBurst(r: Rule, fold: Fold, t0: int, offsets: seq<int>) returns (evs: seq<Event>, key: string)
    ensures Follows(evs, t0, offsets) && InOneGroup(r, fold, evs, key)
  {
    var paths := if r.distinct.Some? then map[r.groupBy := "x", r.distinct.value := "x"] else map[r.groupBy := "x"];
    evs := seq(|offsets|, i requires 0 <= i < |offsets| => Event(t0 + offsets[i], paths));
    key := if r.groupBy in ACCOUNT_KEYS then fold("x") else "x";
  }

  /** A burst on which a threshold below 2 fires, whatever the schedule. */
  lemma LowThresholdBurst(r: Rule, fold: Fold, t0: int, offsets: seq<int>) returns (evs: seq<Event>)
    requires r.maxCv.None? && r.window >= 0 && r.threshold < 2 && offsets != []
    ensures Follows(evs, t0, offsets) && Fires(r, fold, evs)
  {
    hide Fires, KeyOf;
    var key;
    evs, key := AlikeBurst(r, fold, t0, offsets);
    assert KeyOf(r, fold, evs[0]) == Some(key);
    LoneEventFires(r, fold, evs);
  }

  /** A plain rule with a threshold below 2 fires on the first event it counts. */
  lemma LoneEventFires(r: Rule, fold: Fold, evs: seq<Event>)
    requires r.maxCv.None? && r.window >= 0 && r.threshold < 2
    requires evs != [] && KeyOf(r, fold, evs[0]).Some?
    ensures Fires(r, fold, evs)
  {
    hide Regular, KeyOf, Group, Live, Count;
    var key := KeyOf(r, fold, evs[0]).value;
    var first := evs[..1];
    assert InOneGroup(r, fold, first, key) && DistinctValues(r, first) && TimeOrdered(first);
    var j := WindowAt(r, fold, first, key, 0);
    assert first[..1] == first == evs[..0 + 1];
    assert Alarm(r, fold, first, 0);
    assert Alarm(r, fold, evs, 0);
  }

  // ---------- the boundary control: slack 0 ----------

  /** Is position `i` of `s` exactly where constraint `c` (slack 0) puts it? */
  predicate TightAt(s: seq<int>, c: Constraint, i: int) {
    c.t >= 2 && c.t - 1 <= i < |s| && s[i] == s[i - (c.t - 1)] + c.w
  }

  /** Until some constraint binds, the greedy schedule only waits `minGap` each time. */
  lemma {:induction false} UnboundGreedy(n: nat, cons: seq<Constraint>, minGap: nat)
    requires forall c, i :: c in cons ==> !TightAt(Greedy(n, cons, minGap, 0), c, i)
    ensures forall i :: 0 <= i < n ==> Greedy(n, cons, minGap, 0)[i] == i * minGap
  {
    if n > 0 {
      var prev := Greedy(n - 1, cons, minGap, 0);
      var all := Greedy(n, cons, minGap, 0);
      forall c, i | c in cons ensures !TightAt(prev, c, i) {
        assert !TightAt(all, c, i);
      }
      UnboundGreedy(n - 1, cons, minGap);
      EarliestIsTight(prev, cons, minGap, 0);
      if c :| c in cons && Binds(prev, c, cons, minGap, 0) {
        assert TightAt(all, c, n - 1);
      }
      if n > 1 {
        assert (n - 1) * minGap == (n - 2) * minGap + minGap;
      }
    }
  }

  /** Can the rule hold its threshold of events, `minGap` apart, within one window? */
  predicate Reachable(r: Rule, n: nat, minGap: nat) {
    r.threshold <= n && r.window >= (r.threshold - 1) * minGap
  }

  /** If some rule is reachable, some constraint binds on the slack-0 schedule. */
  lemma SomeConstraintBinds(n: nat, cons: seq<Constraint>, minGap: nat, mine: Constraint)
    requires mine in cons && mine.t >= 2 && mine.t <= n && mine.w >= (mine.t - 1) * minGap
    ensures exists c, i :: c in cons && TightAt(Greedy(n, cons, minGap, 0), c, i)
  {
    var off := Greedy(n, cons, minGap, 0);
    if !exists c, i :: c in cons && TightAt(off, c, i) {
      GreedyFeasible(n, cons, minGap, 0);
      UnboundGreedy(n, cons, minGap);
      assert Keeps(off, mine, 0);
      assert off[0] == 0 * minGap && off[mine.t - 1] == (mine.t - 1) * minGap;
      assert TightAt(off, mine, mine.t - 1);
    }
  }

  /** A plain rule that fires on a spaced burst is reachable. */
  lemma FiringIsReachable(r: Rule, fold: Fold, evs: seq<Event>, t0: int, s: seq<int>, minGap: nat)
    requires r.maxCv.None? && r.window >= 0 && r.threshold >= 2
    requires Follows(evs, t0, s) && Feasible(s, [], minGap, 0) && Saturates(r, fold, evs)
    requires Fires(r, fold, evs)
    ensures Reachable(r, |evs|, minGap)
  {
    FollowsIsOrdered(evs, t0, s, minGap);
    PlainFiresIff(r, fold, evs);
    SpacedIsSorted(s, minGap);
    var i :| Packed(r, evs, i);
    var first := i - (r.threshold - 1);
    assert s[i] >= s[first] + (i - first) * minGap;
  }

  lemma TightFires(r: Rule, fold: Fold, evs: seq<Event>, t0: int, s: seq<int>, minGap: nat, i: int)
    requires r.maxCv.None? && r.window >= 0
    requires Follows(evs, t0, s) && Feasible(s, [], minGap, 0) && Saturates(r, fold, evs)
    requires TightAt(s, Constraint(r.threshold, r.window), i)
    ensures Fires(r, fold, evs)
  {
    FollowsIsOrdered(evs, t0, s, minGap);
    PlainFiresIff(r, fold, evs);
    assert Packed(r, evs, i);
  }

  lemma ReachableFires(rules: seq<Rule>, r: Rule, fold: Fold, evs: seq<Event>, t0: int, off: seq<int>, minGap: nat)
    requires PlainRules(rules) && r in rules && r.threshold >= 2 && Reachable(r, |evs|, minGap)
    requires off == Greedy(|evs|, Constraints(rules), minGap, 0) && Feasible(off, [], minGap, 0)
    requires Follows(evs, t0, off) && SaturatesAll(rules, fold, evs)
    ensures FiresSet(rules, fold, evs)
  {
    hide Greedy, Feasible, Saturates, Follows, TightAt, FiresSet, Fires;
    var cons := Constraints(rules);
    var m :| 0 <= m < |rules| && rules[m] == r;
    assert cons[m] == Constraint(r.threshold, r.window);
    SomeConstraintBinds(|evs|, cons, minGap, cons[m]);
    var c, i :| c in cons && TightAt(off, c, i);
    var q :| 0 <= q < |rules| && cons[q] == c;
    TightFires(rules[q], fold, evs, t0, off, minGap, i);
    SomeRuleFires(rules, rules[q], fold, evs);
  }

  lemma SomeRuleFires(rules: seq<Rule>, r: Rule, fold: Fold, evs: seq<Event>)
    requires r in rules && Fires(r, fold, evs)
    ensures FiresSet(rules, fold, evs)
  {
  }

  /** The smallest threshold among the constraints that count, with the widest window among ties. */
  predicate Smallest(cons: seq<Constraint>, mine: Constraint) {
    mine in cons && mine.t >= 2 &&
    forall c :: c in cons && c.t >= 2 ==> c.t > mine.t || (c.t == mine.t && c.w <= mine.w)
  }

  lemma SmallestBinds(prev: seq<int>, cons: seq<Constraint>, minGap: nat, mine: Constraint)
    requires Smallest(cons, mine) && |prev| == mine.t - 1 && prev[0] == 0 && prev[|prev| - 1] + minGap <= mine.w
    ensures Earliest(prev, cons, minGap, 0) == mine.w
  {
    hide Earliest;
    EarliestIsTight(prev, cons, minGap, 0);
    if c :| c in cons && Binds(prev, c, cons, minGap, 0) {
      assert c.t == mine.t;
    }
  }

  lemma NothingTightYet(m: nat, cons: seq<Constraint>, minGap: nat, mine: Constraint)
    requires Smallest(cons, mine) && m == mine.t - 1
    ensures var prev := Greedy(m, cons, minGap, 0);
      prev[0] == 0 && prev[m - 1] + minGap == m * minGap
  {
    hide Greedy;
    var prev := Greedy(m, cons, minGap, 0);
    forall c, i | c in cons ensures !TightAt(prev, c, i) {
    }
    UnboundGreedy(m, cons, minGap);
    assert prev[0] == 0 * minGap && prev[m - 1] == (m - 1) * minGap;
    assert (m - 1) * minGap + minGap == m * minGap;
  }

  /** Nothing binds before the smallest constraint does, and then it is met exactly. */
  lemma SmallestIsTight(n: nat, cons: seq<Constraint>, minGap: nat, mine: Constraint)
    requires Smallest(cons, mine) && mine.t <= n && mine.w >= (mine.t - 1) * minGap
    ensures TightAt(Greedy(n, cons, minGap, 0), mine, mine.t - 1)
  {
    hide Earliest, Smallest;
    SmallestCounts(cons, mine);
    var m := mine.t - 1;
    NothingTightYet(m, cons, minGap, mine);
    SmallestBinds(Greedy(m, cons, minGap, 0), cons, minGap, mine);
    GreedyPrefix(mine.t, n, cons, minGap, 0);
    var all, first := Greedy(n, cons, minGap, 0), Greedy(mine.t, cons, minGap, 0);
    assert first == Greedy(m, cons, minGap, 0) + [mine.w];
    assert all[m] == first[m] && all[0] == first[0];
  }

  /** Which rule the control trips: the plain rule of the smallest threshold, widest among ties,
      fires on the slack-0 schedule iff it is reachable. */
  lemma SmallestThresholdFiresIff(rules: seq<Rule>, r: Rule, fold: Fold, evs: seq<Event>, t0: int, minGap: nat)
    requires r in rules && r.maxCv.None? && r.window >= 0
    requires Smallest(Constraints(rules), Constraint(r.threshold, r.window))
    requires Follows(evs, t0, Greedy(|evs|, Constraints(rules), minGap, 0)) && Saturates(r, fold, evs)
    ensures Fires(r, fold, evs) <==> Reachable(r, |evs|, minGap)
  {
    hide Fires, Saturates, Follows, Greedy, Smallest, TightAt;
    var cons, mine := Constraints(rules), Constraint(r.threshold, r.window);
    var off := Greedy(|evs|, cons, minGap, 0);
    assert r.threshold >= 2 by {
      SmallestCounts(cons, mine);
    }
    GreedyFeasible(|evs|, cons, minGap, 0);
    if Fires(r, fold, evs) {
      FiringIsReachable(r, fold, evs, t0, off, minGap);
    }
    if Reachable(r, |evs|, minGap) {
      SmallestIsTight(|evs|, cons, minGap, mine);
      TightFires(r, fold, evs, t0, off, minGap, r.threshold - 1);
    }
  }

  lemma SmallestCounts(cons: seq<Constraint>, mine: Constraint)
    requires Smallest(cons, mine)
    ensures mine.t >= 2
  {
  }

  /** The one-millisecond-faster schedule is detected (on one key) iff some rule is both
      reachable, n >= T, and wide enough to hold T events at the minimal spacing. */
  lemma BoundaryDetectedIff(rules: seq<Rule>, fold: Fold, evs: seq<Event>, t0: int, minGap: nat)
    requires PlainRules(rules) && forall r :: r in rules ==> r.threshold >= 2
    requires Follows(evs, t0, Greedy(|evs|, Constraints(rules), minGap, 0)) && SaturatesAll(rules, fold, evs)
    ensures FiresSet(rules, fold, evs) <==>
      exists r :: r in rules && Reachable(r, |evs|, minGap)
  {
    var off := Greedy(|evs|, Constraints(rules), minGap, 0);
    GreedyFeasible(|evs|, Constraints(rules), minGap, 0);
    if r :| r in rules && Fires(r, fold, evs) {
      FiringIsReachable(r, fold, evs, t0, off, minGap);
    }
    if r :| r in rules && Reachable(r, |evs|, minGap) {
      ReachableFires(rules, r, fold, evs, t0, off, minGap);
    }
  }
}
