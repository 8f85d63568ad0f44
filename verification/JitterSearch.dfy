/** The search for the least jitter at which a periodic rule-set falls silent. */
module JitterSearch {
  import opened Common
  import opened Detector
  import opened WindowLaws
  import opened Schedule
  import opened Jitter
  import opened SpreadSearch

  /** What the search answers; None when the largest jitter is still detected. */
  function SolveJitter(fires: nat -> bool): Option<nat> {
    if !fires(0) then Some(0)
    else if fires(999) then None
    else Some(Bisect(1, 999, (j: nat) => !fires(j)))
  }

  /** When more jitter never brings the alarm back, the answer is the least that evades. */
  lemma SolveJitterIsLeast(fires: nat -> bool)
    requires forall i: nat, j: nat :: i <= j <= 999 && fires(j) ==> fires(i)
    ensures SolveJitter(fires).None? <==> forall j: nat :: j <= 999 ==> fires(j)
    ensures SolveJitter(fires).Some? ==> var x := SolveJitter(fires).value;
      x <= 999 && !fires(x) && forall j: nat :: j < x ==> fires(j)
  {
    BisectIsEdge(1, 999, (j: nat) => !fires(j));
  }

  /** In general: `l` being the least silent jitter, the answer is `l` iff it is 0, or the largest
      jitter is silent too and no value the bisection probes at or above `l` on its way to `l`
      fires again. */
  lemma SolveJitterIsLeastIff(fires: nat -> bool, l: nat)
    requires l <= 999 && !fires(l) && forall j: nat :: j < l ==> fires(j)
    ensures SolveJitter(fires) == Some(l) <==>
      l == 0 || (!fires(999) && TrueOnPath(1, 999, l, (j: nat) => !fires(j)))
  {
    if l > 0 {
      BisectIsLeastIff(1, 999, l, (j: nat) => !fires(j));
    }
  }

  // ---------- more jitter varies more ----------

  lemma QuotientMono(a: real, b: real, c: real, d: real)
    requires b > 0.0 && d > 0.0 && a * d <= c * b
    ensures a / b <= c / d
  {
    var x, y := a / b, c / d;
    assert x * b == a && y * d == c;
    assert (x * b) * d == x * (b * d) && (y * d) * b == y * (b * d);
    if x > y {
      GreaterProduct(y, x, b * d);
    }
  }

  lemma GreaterProduct(x: real, y: real, c: real)
    requires x < y && c > 0.0
    ensures x * c < y * c
  {
  }

  lemma IntQuotientMono(a: int, b: int, c: int, d: int)
    requires b > 0 && d > 0 && a * d <= c * b
    ensures a as real / b as real <= c as real / d as real
  {
    RealProduct(a, d);
    RealProduct(c, b);
    QuotientMono(a as real, b as real, c as real, d as real);
  }

  lemma SquareMono(x: int, y: int)
    requires 0 <= x <= y
    ensures x * x <= y * y
  {
    MulMono(x, y, x);
    MulMono(x, y, y);
  }

  lemma SquareOfProduct(a: int, b: int)
    ensures (a * b) * (a * b) == (a * a) * (b * b)
  {
    SwapMiddle(a, b, a, b);
  }

  lemma RegroupProduct(c: int, a: int, b: int)
    ensures (c * a) * b == (a * b) * c
  {
    Associate(c, a, b);
  }

  lemma DifferenceTimesSum(x: int, y: int, x': int, y': int, e: int, o: int)
    ensures (x - y) * (e * x' + o * y') == e * (x * x') + o * (x * y') - e * (y * x') - o * (y * y')
  {
    Spread3(x, e, x', o, y');
    Spread3(y, e, x', o, y');
    MulMinus(x, y, e * x' + o * y');
  }

  lemma MulMinus(x: int, y: int, c: int)
    ensures (x - y) * c == x * c - y * c
  {
  }

  lemma Spread3(x: int, e: int, a: int, o: int, b: int)
    ensures x * (e * a + o * b) == e * (x * a) + o * (x * b)
  {
    Associate(x, e, a);
    Associate(e, x, a);
    Associate(x, o, b);
    Associate(o, x, b);
    assert x * e == e * x && x * o == o * x;
  }

  /** Longer long gaps and shorter short ones raise the ratio of their difference to any
      mixture of them. */
  lemma RatioGrows(e: int, o: int, a: int, b: int, a': int, b': int)
    requires e >= 0 && o >= 0 && 0 <= a <= a' && 0 <= b' <= b <= a
    ensures 0 <= (a - b) * (e * a' + o * b') <= (a' - b') * (e * a + o * b)
  {
    DifferenceTimesSum(a, b, a', b', e, o);
    DifferenceTimesSum(a', b', a, b, e, o);
    MulOrdered(a, b', b);
    MulMono(a, a', b);
    assert a * b' <= a' * b;
    MulMono(a * b', a' * b, e);
    MulMono(a * b', a' * b, o);
    MulMono(0, e, a');
    MulMono(0, o, b');
    MulMono(0, a - b, e * a' + o * b');
    Commutes(a, a', b, b', e, o);
  }

  lemma Commutes(a: int, a': int, b: int, b': int, e: int, o: int)
    ensures e * (a * a') == e * (a' * a) && o * (b * b') == o * (b' * b)
    ensures e * (b * a') == (a' * b) * e && e * (b' * a) == (a * b') * e
    ensures o * (a * b') == (a * b') * o && o * (a' * b) == (a' * b) * o
  {
    assert a * a' == a' * a && b * b' == b' * b && b * a' == a' * b && b' * a == a * b';
  }

  /** The quotient of squares follows. */
  lemma SquaredRatio(c: int, u: int, s: int, u': int, s': int)
    requires c >= 0 && s > 0 && s' > 0 && 0 <= u * s' <= u' * s
    ensures s * s > 0 && s' * s' > 0
    ensures (c * (u * u)) as real / (s * s) as real <= (c * (u' * u')) as real / (s' * s') as real
  {
    MulPositive(s, s);
    MulPositive(s', s');
    SquareMono(u * s', u' * s);
    SquareOfProduct(u, s');
    SquareOfProduct(u', s);
    MulMono((u * u) * (s' * s'), (u' * u') * (s * s), c);
    RegroupProduct(c, u * u, s' * s');
    RegroupProduct(c, u' * u', s * s);
    IntQuotientMono(c * (u * u), s * s, c * (u' * u'), s' * s');
  }

  /** A run of a jittered schedule varies more the larger the jitter, for every period and
      wherever the run starts. */
  lemma VariationGrows(m: nat, start: nat, period: int, i: int, j: int)
    requires m >= 2 && period >= 1 && 0 <= i <= j <= 1000
    ensures JitterCv2(m, start, period, i) <= JitterCv2(m, start, period, j)
  {
    hide Interval, Firsts, Seconds;
    var e, o := Firsts(m), Seconds(m);
    GapsSpread(period, i, j);
    SpanPositive(m, period, i, start);
    SpanPositive(m, period, j, start);
    var a, b, a', b' := Interval(period, i, 0), Interval(period, i, 1), Interval(period, j, 0), Interval(period, j, 1);
    forall jitter | jitter == i || jitter == j
      ensures Interval(period, jitter, start) == Interval(period, jitter, start % 2)
      ensures Interval(period, jitter, start + 1) == Interval(period, jitter, 1 - start % 2)
    {
      SameParity(period, jitter, start, start % 2);
      SameParity(period, jitter, start + 1, 1 - start % 2);
    }
    MulMono(0, e, o);
    if start % 2 == 0 {
      RatioGrows(e, o, a, b, a', b');
      SquaredRatio(e * o, a - b, e * a + o * b, a' - b', e * a' + o * b');
    } else {
      RatioGrows(o, e, a, b, a', b');
      SquaredRatio(e * o, a - b, e * b + o * a, a' - b', e * b' + o * a');
      SameSquare(a - b, b - a);
      SameSquare(a' - b', b' - a');
    }
  }

  // ---------- the verdict on a jittered burst inside one window ----------

  /** The burst of `n` events with jitter `j`, all counted in one group of `r`. */
  ghost predicate Delivered(r: Rule, fold: Fold, evs: seq<Event>, t0: int, period: int, j: nat, n: nat) {
    |evs| == n && Saturates(r, fold, evs) &&
    exists offsets :: IsJittered(offsets, period, j) && Follows(evs, t0, offsets)
  }

  predicate InWindow(r: Rule, evs: seq<Event>) {
    forall i, k :: 0 <= i < |evs| && 0 <= k < |evs| ==> evs[i].time >= evs[k].time - r.window
  }

  /** Some run from the first event is long enough and regular enough. */
  predicate Passes(r: Rule, n: nat, period: int, j: nat)
    requires r.maxCv.Some? && j <= 1000
  {
    period >= 1 && r.maxCv.value >= 0.0 &&
    exists m :: Max(r.threshold, 3) - 1 <= m < n && JitterCv2(m, 0, period, j) <= Square(r.maxCv.value)
  }

  predicate FiresAt(r: Rule, n: nat, period: int, j: nat)
    requires j <= 1000
  {
    if r.maxCv.Some? then Passes(r, n, period, j) else n >= r.threshold
  }

  lemma PeriodicFiresIff(r: Rule, fold: Fold, evs: seq<Event>, t0: int, period: int, j: nat, n: nat)
    requires r.maxCv.Some? && period >= 0 && j <= 1000
    requires Delivered(r, fold, evs, t0, period, j, n) && InWindow(r, evs)
    ensures Fires(r, fold, evs) <==> Passes(r, n, period, j)
  {
    hide Alarm, Saturates, JitterCv2, Square, IsJittered, Follows;
    var offsets :| IsJittered(offsets, period, j) && Follows(evs, t0, offsets);
    forall k | 0 <= k < n
      ensures Alarm(r, fold, evs, k) <==>
        period >= 1 && k + 1 >= Max(r.threshold, 3) && r.maxCv.value >= 0.0 &&
        JitterCv2(k, 0, period, j) <= Square(r.maxCv.value)
    {
      var first := JitterAlarmIff(r, fold, evs, t0, offsets, period, j, k);
      assert first == 0 by {
        assert evs[0].time >= evs[k].time - r.window;
      }
    }
  }

  lemma PlainFires(r: Rule, fold: Fold, evs: seq<Event>, t0: int, period: int, j: nat, n: nat)
    requires r.maxCv.None? && period >= 0 && j <= 1000
    requires Delivered(r, fold, evs, t0, period, j, n) && InWindow(r, evs)
    ensures Fires(r, fold, evs) <==> n >= r.threshold
  {
    hide Fires, KeyOf;
    var offsets :| IsJittered(offsets, period, j) && Follows(evs, t0, offsets);
    JitteredIsOrdered(offsets, period, j);
    assert evs[0].time >= evs[0].time - r.window;
    var key :| InOneGroup(r, fold, evs, key);
    if r.threshold < 2 {
      assert KeyOf(r, fold, evs[0]) == Some(key);
      LoneEventFires(r, fold, evs);
    } else {
      PlainFiresIff(r, fold, evs);
      if n >= r.threshold {
        assert Packed(r, evs, r.threshold - 1);
      }
    }
  }

  lemma VerdictAt(r: Rule, fold: Fold, evs: seq<Event>, t0: int, period: int, j: nat, n: nat)
    requires period >= 0 && j <= 1000
    requires Delivered(r, fold, evs, t0, period, j, n) && InWindow(r, evs)
    ensures Fires(r, fold, evs) <==> FiresAt(r, n, period, j)
  {
    hide Fires, Delivered, InWindow, Passes;
    if r.maxCv.Some? {
      PeriodicFiresIff(r, fold, evs, t0, period, j, n);
    } else {
      PlainFires(r, fold, evs, t0, period, j, n);
    }
  }

  lemma FiresAtDownward(r: Rule, n: nat, period: int, i: nat, j: nat)
    requires i <= j <= 1000 && FiresAt(r, n, period, j)
    ensures FiresAt(r, n, period, i)
  {
    hide JitterCv2, Square;
    if r.maxCv.Some? {
      var m :| Max(r.threshold, 3) - 1 <= m < n && JitterCv2(m, 0, period, j) <= Square(r.maxCv.value);
      VariationGrows(m, 0, period, i, j);
    }
  }

  /** The bisection over jitter is exact for any rule-set whose windows hold the whole burst,
      whatever the period: the answer is the least jitter at which the set is silent, and none
      iff it never is. */
  lemma JitterSearchIsExact(rules: seq<Rule>, fold: Fold, at: nat -> seq<Event>, t0: int, period: int, n: nat)
    requires period >= 0
    requires forall r, j: nat :: r in rules && j <= 999 ==>
      Delivered(r, fold, at(j), t0, period, j, n) && InWindow(r, at(j))
    ensures var fires := (j: nat) => FiresSet(rules, fold, at(j));
      SolveJitter(fires).None? <==> forall j: nat :: j <= 999 ==> fires(j)
    ensures var fires := (j: nat) => FiresSet(rules, fold, at(j));
      SolveJitter(fires).Some? ==>
        var x := SolveJitter(fires).value;
        x <= 999 && !fires(x) && forall j: nat :: j < x ==> fires(j)
  {
    hide Delivered, InWindow, Fires, FiresAt;
    var fires := (j: nat) => FiresSet(rules, fold, at(j));
    forall r, j: nat | r in rules && j <= 999
      ensures Fires(r, fold, at(j)) <==> FiresAt(r, n, period, j)
    {
      VerdictAt(r, fold, at(j), t0, period, j, n);
    }
    forall i: nat, j: nat | i <= j <= 999 && fires(j) ensures fires(i) {
      assert FiresSet(rules, fold, at(j));
      var r :| r in rules && Fires(r, fold, at(j));
      FiresAtDownward(r, n, period, i, j);
    }
    SolveJitterIsLeast(fires);
  }

  // ---------- a window that cuts the burst ----------

  /** Five events around a period of twenty seconds, under a rule that looks back 59. Two gaps
      always fit its window; three fit when the first is short and the jitter at least 50. */
  predicate CutsBurst(r: Rule) {
    r.threshold == 3 && r.window == 59000 && r.maxCv == Some(0.0485)
  }

  lemma CutTimes(evs: seq<Event>, t0: int, offsets: seq<int>, j: nat)
    requires j <= 999 && |evs| == 5 && IsJittered(offsets, 20000, j) && Follows(evs, t0, offsets)
    ensures evs[0].time == t0 && evs[1].time == t0 + 20000 + 20 * j && evs[2].time == t0 + 40000
    ensures evs[3].time == t0 + 60000 + 20 * j && evs[4].time == t0 + 80000
  {
    forall i: nat | i < 4 ensures offsets[i + 1] - offsets[i] == if i % 2 == 0 then 20000 + 20 * j else 20000 - 20 * j {
      IntervalExact(20, j, i);
    }
    assert offsets[1] - offsets[0] == 20000 + 20 * j && offsets[2] - offsets[1] == 20000 - 20 * j;
    assert offsets[3] - offsets[2] == 20000 + 20 * j && offsets[4] - offsets[3] == 20000 - 20 * j;
  }

  lemma QuotientAtMost(x: real, y: real, c: real)
    requires y > 0.0
    ensures x / y <= c <==> x <= c * y
  {
    var q := x / y;
    assert q * y == x;
    if q > c {
      GreaterProduct(c, q, y);
    } else if q < c {
      GreaterProduct(q, c, y);
    }
  }

  lemma CrossBound(x: int, y: int)
    requires y > 0
    ensures x as real / y as real <= 0.00235225 <==> x * 100000000 <= 235225 * y
  {
    QuotientAtMost(x as real, y as real, 0.00235225);
    Scaled(x as real, y as real);
    assert (x * 100000000) as real == x as real * 100000000.0;
    assert (235225 * y) as real == 235225.0 * y as real;
  }

  lemma Scaled(x: real, y: real)
    ensures x <= 0.00235225 * y <==> x * 100000000.0 <= 235225.0 * y
  {
  }

  lemma TwoGapsWithin(j: nat)
    ensures (j * j) as real / 1000000.0 <= 0.00235225 <==> j <= 48
  {
    CrossBound(j * j, 1000000);
    if j <= 48 {
      SquareMono(j, 48);
    } else {
      SquareMono(49, j);
    }
  }

  lemma ThreeGapsWithin(j: nat)
    requires 50 <= j <= 999
    ensures (3000 - j) * (3000 - j) > 0
    ensures (j * j * 8) as real / ((3000 - j) * (3000 - j)) as real <= 0.00235225 <==> j == 50
  {
    MulPositive(3000 - j, 3000 - j);
    CrossBound(j * j * 8, (3000 - j) * (3000 - j));
    if j > 50 {
      SquareMono(51, j);
      SquareMono(3000 - j, 2949);
    }
  }

  /** The rule fires at 48 and at 50 but not at 49. */
  lemma CutFiresIff(r: Rule, fold: Fold, evs: seq<Event>, t0: int, j: nat)
    requires j <= 999 && CutsBurst(r) && Delivered(r, fold, evs, t0, 20000, j, 5)
    ensures Fires(r, fold, evs) <==> j <= 48 || j == 50
  {
    hide Alarm, Saturates, IsJittered, Follows, JitterCv2;
    var offsets :| IsJittered(offsets, 20000, j) && Follows(evs, t0, offsets);
    CutTimes(evs, t0, offsets, j);
    var j0 := JitterAlarmIff(r, fold, evs, t0, offsets, 20000, j, 0);
    var j1 := JitterAlarmIff(r, fold, evs, t0, offsets, 20000, j, 1);
    var j2 := JitterAlarmIff(r, fold, evs, t0, offsets, 20000, j, 2);
    var j3 := JitterAlarmIff(r, fold, evs, t0, offsets, 20000, j, 3);
    var j4 := JitterAlarmIff(r, fold, evs, t0, offsets, 20000, j, 4);
    assert j2 == 0 && j3 == 1 && j4 == if j >= 50 then 1 else 2;
    assert Square(0.0485) == 0.00235225;
    TwoGapForm(0, j);
    TwoGapForm(1, j);
    TwoGapForm(2, j);
    if j >= 50 {
      ThreeGapForm(j);
    }
    assert Alarm(r, fold, evs, 2) <==> j <= 48;
    assert Alarm(r, fold, evs, 4) <==> if j >= 50 then j == 50 else j <= 48;
  }

  lemma TwoGapForm(start: nat, j: nat)
    requires j <= 999
    ensures JitterCv2(2, start, 20000, j) <= 0.00235225 <==> j <= 48
  {
    hide JitterCv2;
    WholeSecondForm(2, start, 20, j);
    TwoGapsWithin(j);
  }

  lemma ThreeGapForm(j: nat)
    requires 50 <= j <= 999
    ensures JitterCv2(3, 1, 20000, j) <= 0.00235225 <==> j == 50
  {
    hide JitterCv2;
    WholeSecondForm(3, 1, 20, j);
    ThreeGapsWithin(j);
  }

  /** So a jitter of 49 evades and the search answers 51: the promised smallest jitter is
      missed when a window cuts the burst. */
  lemma JitterSearchCanMissTheLeast(r: Rule, fold: Fold, at: nat -> seq<Event>, t0: int)
    requires CutsBurst(r) && forall j: nat :: j <= 999 ==> Delivered(r, fold, at(j), t0, 20000, j, 5)
    ensures !FiresSet([r], fold, at(49)) && forall j: nat :: j < 49 ==> FiresSet([r], fold, at(j))
    ensures SolveJitter((j: nat) => FiresSet([r], fold, at(j))) == Some(51)
  {
    hide CutsBurst, Delivered, Fires, FiresSet, SolveJitter;
    var fires := (j: nat) => FiresSet([r], fold, at(j));
    forall j: nat | j <= 999 ensures FiresSet([r], fold, at(j)) <==> j <= 48 || j == 50 {
      CutFiresIff(r, fold, at(j), t0, j);
      OneRule(r, fold, at(j));
    }
    assert forall j: nat :: fires(j) == FiresSet([r], fold, at(j));
    CutAnswer(fires);
  }

  /** The probes: 500, 250, 125, 63, 32, 48, 56, 52, 50, 51. */
  lemma CutAnswer(fires: nat -> bool)
    requires forall j: nat :: j <= 999 ==> (fires(j) <==> j <= 48 || j == 50)
    ensures SolveJitter(fires) == Some(51)
  {
    hide Bisect;
    var silent := (j: nat) => !fires(j);
    BisectProbe(1, 999, silent);
    BisectProbe(1, 500, silent);
    BisectProbe(1, 250, silent);
    BisectProbe(1, 125, silent);
    BisectProbe(1, 63, silent);
    BisectProbe(33, 63, silent);
    BisectProbe(49, 63, silent);
    BisectProbe(49, 56, silent);
    BisectProbe(49, 52, silent);
    BisectProbe(51, 52, silent);
  }

  /** Such bursts exist for every jitter. */
  lemma CutBurst(fold: Fold, t0: int, j: nat) returns (r: Rule, evs: seq<Event>)
    requires j <= 999
    ensures CutsBurst(r) && Delivered(r, fold, evs, t0, 20000, j, 5)
  {
    r := Rule(3, 59000, SOURCE_PATH, None, Some(0.0485));
    var offsets := [0, 20000 + 20 * j, 40000, 60000 + 20 * j, 80000];
    evs := seq(5, i requires 0 <= i < 5 => Event(t0 + offsets[i], map[SOURCE_PATH := ""]));
    forall i: nat | i < 4 ensures offsets[i + 1] - offsets[i] == Interval(20000, j, i) {
      IntervalExact(20, j, i);
    }
    assert IsJittered(offsets, 20000, j) && Follows(evs, t0, offsets);
    assert SOURCE_PATH !in ACCOUNT_KEYS by {
      assert |SOURCE_PATH| == 3 && |"actor.user.name"| > 3 && |"unmapped.target_user.name"| > 3;
    }
    assert InOneGroup(r, fold, evs, "");
  }

  // ---------- a companion that catches the short gaps ----------

  /** A periodicity rule whose window holds the whole burst, beside a plain rule for two events
      within eight seconds. */
  predicate Paired(periodic: Rule, plain: Rule) {
    periodic.threshold == 3 && periodic.window == 100000 && periodic.maxCv == Some(0.0485) &&
    plain.threshold == 2 && plain.window == 8000 && plain.maxCv.None?
  }

  lemma FiveInWindow(r: Rule, fold: Fold, evs: seq<Event>, t0: int, j: nat)
    requires j <= 999 && r.window >= 80000 && Delivered(r, fold, evs, t0, 20000, j, 5)
    ensures InWindow(r, evs)
  {
    var offsets :| IsJittered(offsets, 20000, j) && Follows(evs, t0, offsets);
    CutTimes(evs, t0, offsets, j);
  }

  lemma LongThreeGapForm(j: nat)
    requires j <= 999
    ensures JitterCv2(3, 0, 20000, j) == (j * j * 8) as real / ((3000 + j) * (3000 + j)) as real
  {
    hide JitterCv2;
    WholeSecondForm(3, 0, 20, j);
  }

  /** The runs of two, three and four gaps from the first event. */
  lemma PeriodicFiresUpTo(r: Rule, j: nat)
    requires r.threshold == 3 && r.maxCv == Some(0.0485) && j <= 999
    ensures Passes(r, 5, 20000, j) <==> j <= 52
  {
    hide JitterCv2;
    assert Square(0.0485) == 0.00235225;
    if j <= 52 {
      LongThreeGapForm(52);
      CrossBound(52 * 52 * 8, 3052 * 3052);
      VariationGrows(3, 0, 20000, j, 52);
      assert JitterCv2(3, 0, 20000, j) <= Square(r.maxCv.value);
    } else {
      LongThreeGapForm(53);
      CrossBound(53 * 53 * 8, 3053 * 3053);
      VariationGrows(3, 0, 20000, 53, j);
      TwoGapForm(0, j);
      FourGapForm(j);
      forall m | 2 <= m < 5 ensures JitterCv2(m, 0, 20000, j) > Square(r.maxCv.value) {
        assert m == 2 || m == 3 || m == 4;
      }
    }
  }

  lemma FourGapForm(j: nat)
    requires j <= 999
    ensures JitterCv2(4, 0, 20000, j) <= 0.00235225 <==> j <= 48
  {
    hide JitterCv2;
    WholeSecondForm(4, 0, 20, j);
    TwoGapsWithin(j);
  }

  /** The plain rule sees two events when a short gap is at most eight seconds. */
  lemma PlainCatchesIff(r: Rule, fold: Fold, evs: seq<Event>, t0: int, j: nat)
    requires r.threshold == 2 && r.window == 8000 && r.maxCv.None?
    requires j <= 999 && Delivered(r, fold, evs, t0, 20000, j, 5)
    ensures Fires(r, fold, evs) <==> j >= 600
  {
    hide Fires, Saturates;
    var offsets :| IsJittered(offsets, 20000, j) && Follows(evs, t0, offsets);
    CutTimes(evs, t0, offsets, j);
    JitteredIsOrdered(offsets, 20000, j);
    PlainFiresIff(r, fold, evs);
    if j >= 600 {
      assert Packed(r, evs, 2);
    }
    forall i ensures Packed(r, evs, i) ==> j >= 600 {
      if Packed(r, evs, i) {
        assert i == 1 || i == 2 || i == 3 || i == 4;
      }
    }
  }

  lemma PairFiresIffOutside(periodic: Rule, plain: Rule, fold: Fold, evs: seq<Event>, t0: int, j: nat)
    requires Paired(periodic, plain) && j <= 999
    requires Delivered(periodic, fold, evs, t0, 20000, j, 5) && Delivered(plain, fold, evs, t0, 20000, j, 5)
    ensures FiresSet([periodic, plain], fold, evs) <==> j <= 52 || j >= 600
  {
    hide Fires, Delivered, Passes;
    FiveInWindow(periodic, fold, evs, t0, j);
    PeriodicFiresIff(periodic, fold, evs, t0, 20000, j, 5);
    PeriodicFiresUpTo(periodic, j);
    PlainCatchesIff(plain, fold, evs, t0, j);
    assert periodic in [periodic, plain] && plain in [periodic, plain];
  }

  /** Every jitter from 53 to 599 evades, and the search answers that none does. */
  lemma JitterSearchCanMissEvasion(periodic: Rule, plain: Rule, fold: Fold, at: nat -> seq<Event>, t0: int)
    requires Paired(periodic, plain)
    requires forall j: nat :: j <= 999 ==>
      Delivered(periodic, fold, at(j), t0, 20000, j, 5) && Delivered(plain, fold, at(j), t0, 20000, j, 5)
    ensures forall j: nat :: j <= 999 ==>
      (FiresSet([periodic, plain], fold, at(j)) <==> j <= 52 || j >= 600)
    ensures SolveJitter((j: nat) => FiresSet([periodic, plain], fold, at(j))) == None
  {
    hide Paired, Delivered, FiresSet;
    forall j: nat | j <= 999
      ensures FiresSet([periodic, plain], fold, at(j)) <==> j <= 52 || j >= 600
    {
      PairFiresIffOutside(periodic, plain, fold, at(j), t0, j);
    }
  }

  /** Such rules and bursts exist for every jitter. */
  lemma PairedBurst(fold: Fold, t0: int, j: nat) returns (periodic: Rule, plain: Rule, evs: seq<Event>)
    requires j <= 999
    ensures Paired(periodic, plain)
    ensures Delivered(periodic, fold, evs, t0, 20000, j, 5) && Delivered(plain, fold, evs, t0, 20000, j, 5)
  {
    hide CutsBurst;
    var r;
    r, evs := CutBurst(fold, t0, j);
    periodic := r.(window := 100000, threshold := 3, maxCv := Some(0.0485));
    plain := r.(window := 8000, threshold := 2, maxCv := None);
    SameDelivery(r, periodic, fold, evs, t0, j);
    SameDelivery(r, plain, fold, evs, t0, j);
  }

  lemma SameDelivery(r: Rule, r': Rule, fold: Fold, evs: seq<Event>, t0: int, j: nat)
    requires r.groupBy == r'.groupBy && r.distinct == r'.distinct && Delivered(r, fold, evs, t0, 20000, j, 5)
    ensures Delivered(r', fold, evs, t0, 20000, j, 5)
  {
    hide IsJittered, Follows;
    var key :| InOneGroup(r, fold, evs, key);
    assert InOneGroup(r', fold, evs, key);
  }
}
