/** Evenly spaced slow delivery, and why its spacing is the tight one. */
module Uniform {
  import opened Common
  import opened Detector
  import opened WindowLaws
  import opened Schedule

  /** The spacing one constraint asks for: with slack, the least that separates its T
      events by more than the window; without, the largest that still holds them. */
  function GapFor(c: Constraint, slack: int): int
    requires c.t >= 2
  {
    if slack != 0 then CeilDiv(c.w + slack, c.t - 1) else c.w / (c.t - 1)
  }

  /** The maximum over the constraints that count; None when none does. */
  function RegularGap(cons: seq<Constraint>, slack: int): Option<int> {
    if cons == [] then None
    else
      var rest := RegularGap(cons[..|cons| - 1], slack);
      var c := cons[|cons| - 1];
      if c.t < 2 then rest
      else if rest.None? then Some(GapFor(c, slack))
      else Some(Max(rest.value, GapFor(c, slack)))
  }

  function RegularSlowOffsets(n: nat, cons: seq<Constraint>, slack: int): Option<seq<int>> {
    match RegularGap(cons, slack)
    case None => None
    case Some(gap) => Some(Spaced(n, gap))
  }

  function Spaced(n: nat, gap: int): seq<int> {
    seq(n, i => i * gap)
  }

  lemma {:induction false} GapIsMaximum(cons: seq<Constraint>, slack: int)
    ensures RegularGap(cons, slack).Some? <==> exists c :: c in cons && c.t >= 2
    ensures RegularGap(cons, slack).Some? ==> var gap := RegularGap(cons, slack).value;
      (forall c :: c in cons && c.t >= 2 ==> GapFor(c, slack) <= gap) &&
      (exists c :: c in cons && c.t >= 2 && GapFor(c, slack) == gap)
  {
    if cons != [] {
      var m := |cons| - 1;
      GapIsMaximum(cons[..m], slack);
      assert cons == cons[..m] + [cons[m]];
      assert cons[m] in cons;
    }
  }

  lemma StrictGapIsNext(c: Constraint)
    requires c.t >= 2
    ensures GapFor(c, 1) == GapFor(c, 0) + 1
  {
    CeilAdjoint(c.w / (c.t - 1) + 1, c.w + 1, c.t - 1);
    CeilAdjoint(c.w / (c.t - 1), c.w + 1, c.t - 1);
    FloorBounds(c.w, c.t - 1);
  }

  /** One millisecond of spacing separates the evading schedule from its control,
      whatever the constraints. */
  lemma StrictGapIsOneMore(cons: seq<Constraint>)
    ensures RegularGap(cons, 1).Some? <==> RegularGap(cons, 0).Some?
    ensures RegularGap(cons, 1).Some? ==> RegularGap(cons, 1).value == RegularGap(cons, 0).value + 1
  {
    GapIsMaximum(cons, 0);
    GapIsMaximum(cons, 1);
    forall c | c in cons && c.t >= 2 ensures GapFor(c, 1) == GapFor(c, 0) + 1 {
      StrictGapIsNext(c);
    }
  }

  // ---------- evenly spaced bursts and the coefficient of variation ----------

  lemma {:induction false} SortedStays(ts: seq<int>)
    requires forall i, j :: 0 <= i <= j < |ts| ==> ts[i] <= ts[j]
    ensures SortTimes(ts) == ts
  {
    if ts != [] {
      SortedStays(ts[..|ts| - 1]);
    }
  }

  lemma {:induction false} SumOfEqual(xs: seq<real>, c: real)
    requires forall i :: 0 <= i < |xs| ==> xs[i] == c
    ensures Sum(xs) == |xs| as real * c
  {
    if xs != [] {
      SumOfEqual(xs[..|xs| - 1], c);
      assert |xs| as real == (|xs| - 1) as real + 1.0;
    }
  }

  lemma CancelFactor(m: real, x: real)
    requires m != 0.0
    ensures m * x / m == x
  {
  }

  lemma MeanOfEqual(xs: seq<real>, c: real)
    requires xs != [] && forall i :: 0 <= i < |xs| ==> xs[i] == c
    ensures Mean(xs) == c
  {
    SumOfEqual(xs, c);
    CancelFactor(|xs| as real, c);
  }

  /** Three or more equally spaced times vary not at all. */
  lemma EvenTimesDoNotVary(ts: seq<int>, g: int)
    requires |ts| >= 3 && g >= 1
    requires forall i :: 0 <= i < |ts| - 1 ==> ts[i + 1] - ts[i] == g
    ensures CvSquared(ts) == Some(0.0)
  {
    var deltas := Deltas(ts);
    MeanOfEqual(deltas, g as real);
    MeanOfEqual(SquaredDeviations(deltas, g as real), 0.0);
  }

  /** Two times, or simultaneous ones, have no coefficient of variation. */
  lemma NoVariation(ts: seq<int>)
    requires |ts| < 3 || forall i :: 0 <= i < |ts| - 1 ==> ts[i + 1] - ts[i] == 0
    ensures CvSquared(ts) == None
  {
    if |ts| >= 3 {
      MeanOfEqual(Deltas(ts), 0.0);
    }
  }

  /** The number of gaps a rule must see in its window before it can fire. */
  function Need(r: Rule): int {
    if r.maxCv.Some? then Max(r.threshold, 3) - 1 else r.threshold - 1
  }

  /** The last `Need` gaps of a spaced burst fit in the window. */
  predicate Holds(r: Rule, g: int) {
    Need(r) * g <= r.window
  }

  /** Gaps of nothing have no coefficient of variation. */
  predicate Measurable(r: Rule, g: int) {
    r.maxCv.Some? ==> g >= 1
  }

  /** On an evenly spaced burst a rule fires iff enough events come and its window
      holds enough of them; regular arrivals always pass a periodicity bound, and
      simultaneous ones never do. */
  lemma UniformFiresIff(r: Rule, fold: Fold, evs: seq<Event>, t0: int, g: int)
    requires g >= 0 && if r.maxCv.Some? then r.maxCv.value >= 0.0 else r.threshold >= 2
    requires Follows(evs, t0, Spaced(|evs|, g)) && Saturates(r, fold, evs)
    ensures Fires(r, fold, evs) <==> |evs| > Need(r) && Holds(r, g) && Measurable(r, g)
  {
    var key :| InOneGroup(r, fold, evs, key);
    SpacedIsOrdered(evs, t0, g);
    forall k | 0 <= k < |evs|
      ensures Alarm(r, fold, evs, k) <==> k >= Need(r) && Holds(r, g) && Measurable(r, g)
    {
      UniformAlarmIff(r, fold, evs, key, t0, g, k);
    }
    if |evs| > Need(r) && Holds(r, g) && Measurable(r, g) {
      assert Alarm(r, fold, evs, Need(r));
    }
  }

  lemma SpacedIsOrdered(evs: seq<Event>, t0: int, g: int)
    requires g >= 0 && Follows(evs, t0, Spaced(|evs|, g))
    ensures TimeOrdered(evs)
  {
    forall i, j | 0 <= i <= j < |evs| ensures evs[i].time <= evs[j].time {
      assert Spaced(|evs|, g)[i] == i * g && Spaced(|evs|, g)[j] == j * g;
      MulMono(i, j, g);
    }
  }

  /** The tail of an evenly spaced burst passes any periodicity bound once it is long enough. */
  lemma EvenTailIsRegular(ts: seq<int>, g: int, maxCv: real)
    requires g >= 0 && maxCv >= 0.0
    requires forall i :: 0 <= i < |ts| - 1 ==> ts[i + 1] - ts[i] == g
    ensures Regular(SortTimes(ts), maxCv) <==> |ts| >= 3 && g >= 1
  {
    hide CvSquared, SortTimes;
    EvenIsSorted(ts, g);
    SortedStays(ts);
    if |ts| < 3 || g == 0 {
      NoVariation(ts);
    } else {
      EvenTimesDoNotVary(ts, g);
      SquareNonNegative(maxCv);
    }
  }

  lemma {:induction false} EvenIsSorted(ts: seq<int>, g: int)
    requires g >= 0
    requires forall i :: 0 <= i < |ts| - 1 ==> ts[i + 1] - ts[i] == g
    ensures forall i, j :: 0 <= i <= j < |ts| ==> ts[i] <= ts[j]
  {
    if |ts| > 1 {
      var n := |ts| - 1;
      EvenIsSorted(ts[..n], g);
      assert ts[n] - ts[n - 1] == g;
    }
  }

  lemma UniformAlarmIff(r: Rule, fold: Fold, evs: seq<Event>, key: string, t0: int, g: int, k: nat)
    requires g >= 0 && if r.maxCv.Some? then r.maxCv.value >= 0.0 else r.threshold >= 2
    requires Follows(evs, t0, Spaced(|evs|, g)) && TimeOrdered(evs)
    requires InOneGroup(r, fold, evs, key) && DistinctValues(r, evs) && k < |evs|
    ensures Alarm(r, fold, evs, k) <==> k >= Need(r) && Holds(r, g) && Measurable(r, g)
  {
    hide Regular, SortTimes, Group, Live, KeyOf, Alarm;
    var j := WindowAt(r, fold, evs, key, k);
    var ts := Times(Live(Group(r, fold, evs[..k + 1], key), evs[k].time - r.window));
    forall i | 0 <= i < |ts| - 1 ensures ts[i + 1] - ts[i] == g {
      SpacedStep(evs, t0, g, j + i);
    }
    if r.maxCv.Some? {
      EvenTailIsRegular(ts, g, r.maxCv.value);
    }
    assert Alarm(r, fold, evs, k) <==> k - j >= Need(r) && Measurable(r, g);
    if k >= Need(r) {
      SpacedDistance(evs, t0, g, k - Need(r), k);
    }
  }

  lemma SpacedDistance(evs: seq<Event>, t0: int, g: int, i: nat, k: nat)
    requires Follows(evs, t0, Spaced(|evs|, g)) && i <= k < |evs|
    ensures evs[k].time - evs[i].time == (k - i) * g
  {
    assert Spaced(|evs|, g)[k] == k * g && Spaced(|evs|, g)[i] == i * g;
  }

  lemma SpacedStep(evs: seq<Event>, t0: int, g: int, i: nat)
    requires Follows(evs, t0, Spaced(|evs|, g)) && i + 1 < |evs|
    ensures evs[i + 1].time - evs[i].time == g
  {
    SpacedDistance(evs, t0, g, i, i + 1);
  }

  lemma SquareNonNegative(x: real)
    ensures x * x >= 0.0
  {
  }

  lemma FiresWithinGap(r: Rule, fold: Fold, evs: seq<Event>, t0: int, g: int)
    requires g >= 1 && 2 <= r.threshold <= |evs| && (r.maxCv.Some? ==> r.threshold >= 3 && r.maxCv.value >= 0.0)
    requires Follows(evs, t0, Spaced(|evs|, g)) && Saturates(r, fold, evs)
    ensures Fires(r, fold, evs) <==> g <= GapFor(Constraint(r.threshold, r.window), 0)
  {
    hide Fires, Saturates, Follows;
    UniformFiresIff(r, fold, evs, t0, g);
    FloorAdjoint(g, r.window, r.threshold - 1);
    assert Need(r) * g == g * (r.threshold - 1);
  }

  /** The strict gap is the least uniform gap on which the set is silent, and the slack-0
      gap is the greatest on which it fires, once the burst reaches every threshold.
      A periodicity rule must want at least three events: with two there is no
      coefficient of variation to test. */
  lemma UniformGapIsTight(rules: seq<Rule>, fold: Fold, evs: seq<Event>, t0: int, g: int)
    requires rules != [] && g >= 1
    requires forall r :: r in rules ==>
      2 <= r.threshold <= |evs| && (r.maxCv.Some? ==> r.threshold >= 3 && r.maxCv.value >= 0.0)
    requires Follows(evs, t0, Spaced(|evs|, g)) && SaturatesAll(rules, fold, evs)
    ensures RegularGap(Constraints(rules), 1).Some? && RegularGap(Constraints(rules), 0).Some?
    ensures FiresSet(rules, fold, evs) <==> g < RegularGap(Constraints(rules), 1).value
    ensures FiresSet(rules, fold, evs) <==> g <= RegularGap(Constraints(rules), 0).value
  {
    hide Fires, Saturates, RegularGap, GapFor, Follows;
    var cons := Constraints(rules);
    assert cons[0] in cons;
    GapIsMaximum(cons, 0);
    StrictGapIsOneMore(cons);
    forall i | 0 <= i < |rules|
      ensures Fires(rules[i], fold, evs) <==> g <= GapFor(cons[i], 0)
    {
      FiresWithinGap(rules[i], fold, evs, t0, g);
    }
    if g <= RegularGap(cons, 0).value {
      var c :| c in cons && c.t >= 2 && GapFor(c, 0) == RegularGap(cons, 0).value;
      var i :| 0 <= i < |cons| && cons[i] == c;
      assert Fires(rules[i], fold, evs);
    }
    if r :| r in rules && Fires(r, fold, evs) {
      var i :| 0 <= i < |rules| && rules[i] == r;
      assert cons[i] in cons;
    }
  }

  lemma GapNonNegative(rules: seq<Rule>)
    requires forall r :: r in rules ==> r.window >= 0
    requires RegularGap(Constraints(rules), 0).Some?
    ensures RegularGap(Constraints(rules), 0).value >= 0
  {
    hide RegularGap;
    var cons := Constraints(rules);
    GapIsMaximum(cons, 0);
    var c :| c in cons && c.t >= 2 && GapFor(c, 0) == RegularGap(cons, 0).value;
    var i :| 0 <= i < |cons| && cons[i] == c;
    assert rules[i].window >= 0;
    FloorAdjoint(0, c.w, c.t - 1);
  }

  /** What the boundary control of a periodic set really needs, thresholds of two and windows
      too short for a gap included: some rule that comes to see `Need` gaps within its window,
      and for a periodicity rule gaps that are not zero. */
  lemma RegularControlDetectedIff(rules: seq<Rule>, fold: Fold, evs: seq<Event>, t0: int)
    requires forall r :: r in rules ==>
      r.threshold >= 2 && r.window >= 0 && (r.maxCv.Some? ==> r.maxCv.value >= 0.0)
    requires RegularSlowOffsets(|evs|, Constraints(rules), 0).Some?
    requires Follows(evs, t0, RegularSlowOffsets(|evs|, Constraints(rules), 0).value) && SaturatesAll(rules, fold, evs)
    ensures var gap := RegularGap(Constraints(rules), 0).value;
      FiresSet(rules, fold, evs) <==> exists r :: r in rules && |evs| > Need(r) && Holds(r, gap) && Measurable(r, gap)
  {
    hide Fires, RegularGap, Saturates, Follows;
    var gap := RegularGap(Constraints(rules), 0).value;
    GapNonNegative(rules);
    forall r | r in rules
      ensures Fires(r, fold, evs) <==> |evs| > Need(r) && Holds(r, gap) && Measurable(r, gap)
    {
      UniformFiresIff(r, fold, evs, t0, gap);
    }
  }

  /** The strict gap separates every constraint's events by more than its window. */
  lemma StrictGapKeeps(n: nat, c: Constraint, gap: int)
    requires c.t >= 2 && GapFor(c, 1) <= gap
    ensures Keeps(Spaced(n, gap), c, 1)
  {
    CeilAdjoint(gap, c.w + 1, c.t - 1);
    forall i | c.t - 1 <= i < n ensures Spaced(n, gap)[i] >= Spaced(n, gap)[i - (c.t - 1)] + c.w + 1 {
      SplitProduct(i, c.t - 1, gap);
    }
  }

  lemma SplitProduct(i: int, d: int, gap: int)
    ensures i * gap == (i - d) * gap + gap * d
  {
  }

  lemma StrictGapPositive(c: Constraint)
    requires c.t >= 2 && c.w >= 0
    ensures GapFor(c, 1) >= 1
  {
    CeilAdjoint(0, c.w + 1, c.t - 1);
  }

  /** The strict uniform schedule evades every set, periodic rules included, whatever
      the keys, values and bounds. */
  lemma RegularEvades(rules: seq<Rule>, fold: Fold, evs: seq<Event>, t0: int)
    requires forall r :: r in rules ==> r.threshold >= 2 && r.window >= 0
    requires RegularSlowOffsets(|evs|, Constraints(rules), 1).Some?
    requires Follows(evs, t0, RegularSlowOffsets(|evs|, Constraints(rules), 1).value)
    ensures !FiresSet(rules, fold, evs)
  {
    hide GapFor, RegularGap, Keeps, Spaced, Fires;
    var cons := Constraints(rules);
    var gap := RegularGap(cons, 1).value;
    GapIsMaximum(cons, 1);
    forall c | c in cons
      ensures gap >= 1 && Keeps(Spaced(|evs|, gap), c, 1)
    {
      var i :| 0 <= i < |cons| && cons[i] == c;
      assert rules[i] in rules;
      StrictGapPositive(c);
      StrictGapKeeps(|evs|, c, gap);
    }
    SpacedIsOrdered(evs, t0, gap);
    KeepingEvades(rules, fold, evs, t0, Spaced(|evs|, gap));
  }

  lemma StrictGapFacts(rules: seq<Rule>)
    requires forall r :: r in rules ==> r.window >= 0
    requires RegularGap(Constraints(rules), 1).Some?
    ensures RegularGap(Constraints(rules), 1).value >= 1
    ensures forall c :: c in Constraints(rules) && c.t >= 2 ==> GapFor(c, 1) <= RegularGap(Constraints(rules), 1).value
  {
    hide RegularGap, GapFor;
    var cons := Constraints(rules);
    GapIsMaximum(cons, 1);
    var c :| c in cons && c.t >= 2 && GapFor(c, 1) == RegularGap(cons, 1).value;
    var i :| 0 <= i < |cons| && cons[i] == c;
    assert rules[i] in rules;
    StrictGapPositive(c);
  }

  /** The greedy schedule delivers every event no later than the uniform one. */
  lemma GreedyBeatsUniform(rules: seq<Rule>, n: nat, minGap: nat)
    requires forall r :: r in rules ==> r.window >= 0
    requires RegularGap(Constraints(rules), 1).Some? && minGap <= RegularGap(Constraints(rules), 1).value
    ensures var gap := RegularGap(Constraints(rules), 1).value;
      forall i :: 0 <= i < n ==> Greedy(n, Constraints(rules), minGap, 1)[i] <= Spaced(n, gap)[i]
  {
    hide RegularGap, GapFor, Keeps, Greedy;
    var cons, gap := Constraints(rules), RegularGap(Constraints(rules), 1).value;
    StrictGapFacts(rules);
    var s := Spaced(n, gap);
    forall c | c in cons ensures Keeps(s, c, 1) {
      if c.t >= 2 {
        StrictGapKeeps(n, c, gap);
      } else {
        SkippedIsKept(s, c, 1);
      }
    }
    forall i | 1 <= i < n ensures s[i] >= s[i - 1] + minGap {
      SplitProduct(i, 1, gap);
    }
    GreedyLeast(s, cons, minGap, 1);
  }

  lemma SkippedIsKept(s: seq<int>, c: Constraint, slack: int)
    requires c.t < 2
    ensures Keeps(s, c, slack)
  {
  }

  // ---------- thresholds below two ----------

  /** Three events of one group never fit the window: the coefficient of variation is never
      defined, and a periodicity rule stays silent whatever its threshold. */
  lemma SparseIsIrregular(r: Rule, fold: Fold, evs: seq<Event>)
    requires r.maxCv.Some? && TimeOrdered(evs)
    requires forall i :: 2 <= i < |evs| ==> evs[i].time - evs[i - 2].time > r.window
    ensures !Fires(r, fold, evs)
  {
    hide KeyOf, Group, Live, Count, SortTimes, CvSquared;
    forall k | 0 <= k < |evs| ensures !Alarm(r, fold, evs, k) {
      var key := KeyOf(r, fold, evs[k]);
      if key.Some? {
        var seen, from := evs[..k + 1], evs[k].time - r.window;
        NewestEntry(r, fold, seen, key.value);
        forall i | 0 <= i < |seen| - 2 ensures seen[i].time < from {
          assert evs[i].time <= evs[k - 2].time;
        }
        CountSinceBound(seen, from, 2);
        GroupWindowSmaller(r, fold, seen, key.value, from);
        var ts := Times(Live(Group(r, fold, seen, key.value), from));
        SortKeepsSize(ts);
        NoVariation(SortTimes(ts));
      }
    }
  }

  lemma {:induction false} InsertGrows(sorted: seq<int>, t: int)
    ensures |InsertTime(sorted, t)| == |sorted| + 1
  {
    if sorted != [] && sorted[|sorted| - 1] > t {
      InsertGrows(sorted[..|sorted| - 1], t);
    }
  }

  lemma {:induction false} SortKeepsSize(ts: seq<int>)
    ensures |SortTimes(ts)| == |ts|
  {
    if ts != [] {
      SortKeepsSize(ts[..|ts| - 1]);
      InsertGrows(SortTimes(ts[..|ts| - 1]), ts[|ts| - 1]);
    }
  }

  /** A bound below zero is met by no variation. */
  lemma NegativeBoundIsSilent(r: Rule, fold: Fold, evs: seq<Event>)
    requires r.maxCv.Some? && r.maxCv.value < 0.0
    ensures !Fires(r, fold, evs)
  {
    hide KeyOf, Group, Live, Count, SortTimes, CvSquared;
  }

  /** Is the rule silent on the uniform schedule for every burst of `n` events? Its constraint
      was counted, or it is a periodicity rule that never gets three events to measure. */
  predicate Untroubled(r: Rule, n: nat, gap: int) {
    r.threshold >= 2 || (r.maxCv.Some? && (n < 3 || 2 * gap > r.window || r.maxCv.value < 0.0))
  }

  lemma UntroubledIsSilent(r: Rule, rules: seq<Rule>, fold: Fold, evs: seq<Event>, t0: int)
    requires r in rules && forall q :: q in rules ==> q.window >= 0
    requires RegularGap(Constraints(rules), 1).Some?
    requires Follows(evs, t0, Spaced(|evs|, RegularGap(Constraints(rules), 1).value))
    requires Untroubled(r, |evs|, RegularGap(Constraints(rules), 1).value)
    ensures !Fires(r, fold, evs)
  {
    hide RegularGap, GapFor, Keeps, Fires;
    var gap := RegularGap(Constraints(rules), 1).value;
    StrictGapFacts(rules);
    SpacedIsOrdered(evs, t0, gap);
    if r.threshold >= 2 {
      var m :| 0 <= m < |rules| && rules[m] == r;
      assert Constraints(rules)[m] == Constraint(r.threshold, r.window);
      StrictGapKeeps(|evs|, Constraint(r.threshold, r.window), gap);
      KeepingSilences(r, fold, evs, t0, Spaced(|evs|, gap));
    } else if r.maxCv.value < 0.0 {
      NegativeBoundIsSilent(r, fold, evs);
    } else {
      forall i | 2 <= i < |evs| ensures evs[i].time - evs[i - 2].time > r.window {
        SpacedDistance(evs, t0, gap, i - 2, i);
      }
      SparseIsIrregular(r, fold, evs);
    }
  }

  lemma KeepingSilences(r: Rule, fold: Fold, evs: seq<Event>, t0: int, s: seq<int>)
    requires r.threshold >= 2 && Follows(evs, t0, s) && TimeOrdered(evs)
    requires Keeps(s, Constraint(r.threshold, r.window), 1)
    ensures !Fires(r, fold, evs)
  {
    hide Fires;
    SpacedIsSilent(r, fold, evs);
  }

  lemma CountPositive(r: Rule, obs: seq<Obs>)
    requires obs != []
    ensures Count(r, obs) >= 1
  {
    assert obs[0] in obs;
    assert obs[0].value in Values(obs);
  }

  /** A periodicity rule with a threshold below two fires on its third event, if the window
      holds three. */
  lemma LowPeriodicFires(r: Rule, fold: Fold, evs: seq<Event>, key: string, t0: int, gap: int)
    requires r.maxCv.Some? && r.maxCv.value >= 0.0 && r.threshold < 2 && gap >= 1 && 2 * gap <= r.window
    requires |evs| >= 3 && InOneGroup(r, fold, evs, key) && Follows(evs, t0, Spaced(|evs|, gap))
    ensures Fires(r, fold, evs)
  {
    hide KeyOf, Observe, Group, Live, Count, Regular, SortTimes;
    var seen := evs[..3];
    var g, from := Group(r, fold, seen, key), evs[2].time - r.window;
    GroupIsBurst(r, fold, seen, key);
    NewestEntry(r, fold, seen, key);
    SpacedDistance(evs, t0, gap, 0, 2);
    SpacedDistance(evs, t0, gap, 1, 2);
    SpacedDistance(evs, t0, gap, 0, 1);
    forall i | 0 <= i < 3 ensures g[i].time == evs[i].time {
      ObserveTime(r, evs[i]);
    }
    LiveIsTail(g, from, 0);
    assert g[0..] == g;
    CountPositive(r, g);
    EvenTailIsRegular(Times(g), gap, r.maxCv.value);
    assert evs[..2 + 1] == seen;
    assert Alarm(r, fold, evs, 2);
  }

  /** A rule that is not silent on every burst, with a burst that trips it. */
  lemma TroubledFires(r: Rule, fold: Fold, n: nat, gap: int, t0: int) returns (evs: seq<Event>)
    requires n >= 1 && gap >= 1 && r.window >= 0 && !Untroubled(r, n, gap)
    ensures Follows(evs, t0, Spaced(n, gap)) && Fires(r, fold, evs)
  {
    hide Fires;
    if r.maxCv.None? {
      evs := LowThresholdBurst(r, fold, t0, Spaced(n, gap));
    } else {
      var key;
      evs, key := AlikeBurst(r, fold, t0, Spaced(n, gap));
      LowPeriodicFires(r, fold, evs, key, t0, gap);
    }
  }

  /** The uniform schedule evades for every burst content iff the burst is empty or every rule is
      untroubled: thresholds of at least two are, a lower one only on a periodicity rule whose
      window or bound leaves it nothing to measure. */
  lemma RegularEvadesIff(rules: seq<Rule>, fold: Fold, n: nat, t0: int)
    requires forall r :: r in rules ==> r.window >= 0
    requires RegularSlowOffsets(n, Constraints(rules), 1).Some?
    ensures var gap := RegularGap(Constraints(rules), 1).value;
      (forall evs :: Follows(evs, t0, Spaced(n, gap)) ==> !FiresSet(rules, fold, evs))
      <==> (n == 0 || forall r :: r in rules ==> Untroubled(r, n, gap))
  {
    hide Fires, RegularGap, Follows, Untroubled, Spaced;
    var gap := RegularGap(Constraints(rules), 1).value;
    StrictGapFacts(rules);
    if n == 0 {
      forall evs | Follows(evs, t0, Spaced(n, gap)) ensures !FiresSet(rules, fold, evs) {
        EmptyIsSilent(rules, fold, evs, t0, gap);
      }
    } else if forall r :: r in rules ==> Untroubled(r, n, gap) {
      forall evs | Follows(evs, t0, Spaced(n, gap)) ensures !FiresSet(rules, fold, evs) {
        SpacedSize(evs, t0, n, gap);
        forall r | r in rules ensures !Fires(r, fold, evs) {
          UntroubledIsSilent(r, rules, fold, evs, t0);
        }
      }
    } else {
      var r :| r in rules && !Untroubled(r, n, gap);
      var evs := TroubledFires(r, fold, n, gap, t0);
      assert FiresSet(rules, fold, evs);
    }
  }

  lemma SpacedSize(evs: seq<Event>, t0: int, n: nat, gap: int)
    requires Follows(evs, t0, Spaced(n, gap))
    ensures |evs| == n
  {
  }

  lemma EmptyIsSilent(rules: seq<Rule>, fold: Fold, evs: seq<Event>, t0: int, gap: int)
    requires Follows(evs, t0, Spaced(0, gap))
    ensures !FiresSet(rules, fold, evs)
  {
  }
}
