/** The deterministic jitter schedule and the exact variation the detector sees in it. */
module Jitter {
  import opened Common
  import opened Detector
  import opened WindowLaws
  import opened Schedule
  import Uniform

  /** The gap after event `i`: long, short, long, ... */
  function Interval(period: int, jitter: int, i: nat): int {
    period * (if i % 2 == 0 then 1000 + jitter else 1000 - jitter) / 1000
  }

  predicate IsJittered(offsets: seq<int>, period: int, jitter: int) {
    offsets != [] && offsets[0] == 0 &&
    forall i :: 0 <= i < |offsets| - 1 ==> offsets[i + 1] - offsets[i] == Interval(period, jitter, i)
  }

  /** Even for an empty burst one offset is returned. */
  method JitterOffsets(n: nat, period: int, jitter: int) returns (out: seq<int>)
    ensures |out| == Max(1, n) && IsJittered(out, period, jitter)
  {
    out := [0];
    var t := 0;
    for i := 0 to Max(0, n - 1)
      invariant |out| == i + 1 && out[i] == t && IsJittered(out, period, jitter)
    {
      var f := if i % 2 == 0 then 1000 + jitter else 1000 - jitter;
      t := t + period * f / 1000;
      out := out + [t];
    }
  }

  // ---------- the coefficient of variation in integers ----------

  function SumOfGaps(ts: seq<int>): int {
    if |ts| < 2 then 0 else SumOfGaps(ts[..|ts| - 1]) + (ts[|ts| - 1] - ts[|ts| - 2])
  }

  function SumOfSquares(ts: seq<int>): int {
    if |ts| < 2 then 0
    else
      var d := ts[|ts| - 1] - ts[|ts| - 2];
      SumOfSquares(ts[..|ts| - 1]) + d * d
  }

  lemma {:induction false} SumOfGapsReal(ts: seq<int>)
    ensures Sum(Deltas(ts)) == SumOfGaps(ts) as real
  {
    if |ts| >= 2 {
      var n := |ts| - 1;
      SumOfGapsReal(ts[..n]);
      assert Deltas(ts)[..n - 1] == Deltas(ts[..n]);
    }
  }

  lemma RealSquare(x: int)
    ensures Square(x as real) == (x * x) as real
  {
  }

  function SumSq(xs: seq<real>): real {
    if xs == [] then 0.0 else SumSq(xs[..|xs| - 1]) + Square(xs[|xs| - 1])
  }

  lemma SumOfSquaresStep(ts: seq<int>)
    requires |ts| >= 2
    ensures var n := |ts| - 1;
      SumOfSquares(ts) == SumOfSquares(ts[..n]) + (ts[n] - ts[n - 1]) * (ts[n] - ts[n - 1])
  {
  }

  lemma SumSqStep(ts: seq<int>)
    requires |ts| >= 2
    ensures var n := |ts| - 1;
      SumSq(Deltas(ts)) == SumSq(Deltas(ts[..n])) + Square((ts[n] - ts[n - 1]) as real)
  {
    hide Square;
    assert Deltas(ts)[..|ts| - 2] == Deltas(ts[..|ts| - 1]);
  }

  lemma {:induction false} SumOfSquaresReal(ts: seq<int>)
    ensures SumSq(Deltas(ts)) == SumOfSquares(ts) as real
  {
    if |ts| >= 2 {
      hide SumSq, SumOfSquares, Deltas, Square;
      var n := |ts| - 1;
      SumOfSquaresReal(ts[..n]);
      SumSqStep(ts);
      SumOfSquaresStep(ts);
      RealSquare(ts[n] - ts[n - 1]);
    }
  }

  lemma DeviationsPrefix(xs: seq<real>, mean: real, n: nat)
    requires n <= |xs|
    ensures SquaredDeviations(xs, mean)[..n] == SquaredDeviations(xs[..n], mean)
  {
  }

  /** Squared deviations from `mean`, given the sum of squares, the sum and the count. */
  function Expanded(squares: real, sum: real, count: real, mean: real): real {
    squares - 2.0 * mean * sum + count * Square(mean)
  }

  lemma ExpandStep(d: real, mean: real, squares: real, sum: real, count: real)
    ensures Expanded(squares, sum, count, mean) + Square(d - mean)
      == Expanded(squares + Square(d), sum + d, count + 1.0, mean)
  {
  }

  /** The squared deviations expand around any centre. */
  lemma {:induction false} DeviationsExpand(xs: seq<real>, mean: real)
    ensures Sum(SquaredDeviations(xs, mean)) == Expanded(SumSq(xs), Sum(xs), |xs| as real, mean)
  {
    if xs == [] {
      assert Expanded(0.0, 0.0, 0.0, mean) == 0.0;
    } else {
      hide Square;
      hide Expanded;
      var n := |xs| - 1;
      DeviationsExpand(xs[..n], mean);
      DeviationsPrefix(xs, mean, n);
      ExpandStep(xs[n], mean, SumSq(xs[..n]), Sum(xs[..n]), n as real);
      assert |xs| as real == n as real + 1.0;
    }
  }

  lemma QuotientOf(x: real, y: real, z: real)
    requires y != 0.0 && x == z * y
    ensures x / y == z
  {
  }

  /** Variance over squared mean is (m Q - S^2) / S^2 in the integer sums S and Q. */
  lemma CvFromSums(ts: seq<int>)
    requires |ts| >= 3 && SumOfGaps(ts) > 0
    ensures var m, s, q := |ts| - 1, SumOfGaps(ts), SumOfSquares(ts);
      CvSquared(ts) == Some(Ratio(m as real, s as real, q as real))
  {
    SumOfGapsReal(ts);
    SumOfSquaresReal(ts);
    CvFromRealSums(Deltas(ts));
  }

  lemma CvFromRealSums(xs: seq<real>)
    requires xs != [] && Sum(xs) > 0.0
    ensures Mean(xs) > 0.0 &&
      Mean(SquaredDeviations(xs, Mean(xs))) / Square(Mean(xs))
        == Ratio(|xs| as real, Sum(xs), SumSq(xs))
  {
    hide Square;
    hide Expanded;
    hide Ratio;
    DeviationsExpand(xs, Mean(xs));
    RatioAlgebra(|xs| as real, Sum(xs), SumSq(xs), Mean(xs), Sum(SquaredDeviations(xs, Mean(xs))));
  }

  function Ratio(m: real, s: real, q: real): real
    requires s > 0.0
  {
    (m * q - s * s) / (s * s)
  }

  lemma RatioAlgebra(m: real, s: real, q: real, mean: real, total: real)
    requires m > 0.0 && s > 0.0 && mean == s / m && total == Expanded(q, s, m, mean)
    ensures mean > 0.0
    ensures total / m / Square(mean) == Ratio(m, s, q)
  {
    assert mean * m == s;
    assert total * m == q * m - s * s by {
      assert mean * s * m == s * s;
      assert m * (mean * mean) * m == s * s;
    }
    assert (mean * mean) * (m * m) == s * s;
    var z := Ratio(m, s, q);
    assert z * (s * s) == m * q - s * s;
    assert total * m == z * (mean * mean) * (m * m);
    CancelRight(total, z * (mean * mean) * m, m);
    QuotientOf(total, m, z * (mean * mean));
    QuotientOf(z * (mean * mean), mean * mean, z);
  }

  lemma CancelRight(x: real, y: real, m: real)
    requires m != 0.0 && x * m == y * m
    ensures x == y
  {
  }

  // ---------- runs of a jittered schedule ----------

  /** `ts` is a run of consecutive times of a jittered schedule, from event `start`. */
  predicate IsRun(ts: seq<int>, period: int, jitter: int, start: nat) {
    forall i :: 0 <= i < |ts| - 1 ==> ts[i + 1] - ts[i] == Interval(period, jitter, start + i)
  }

  predicate GapsAlternate(ts: seq<int>, a: int, b: int) {
    forall i :: 0 <= i < |ts| - 1 ==> ts[i + 1] - ts[i] == if i % 2 == 0 then a else b
  }

  /** Long gaps among the first `m`, and short ones, when the first is long. */
  function Firsts(m: nat): nat { (m + 1) / 2 }

  function Seconds(m: nat): nat { m / 2 }

  lemma CountStep(n: nat, a: int, b: int)
    requires n >= 1
    ensures Firsts(n) * a + Seconds(n) * b
      == Firsts(n - 1) * a + Seconds(n - 1) * b + if (n - 1) % 2 == 0 then a else b
  {
    if (n - 1) % 2 == 0 {
      AddOne(Firsts(n - 1), a);
    } else {
      AddOne(Seconds(n - 1), b);
    }
  }

  lemma {:induction false} AlternatingSums(ts: seq<int>, a: int, b: int)
    requires |ts| >= 1 && GapsAlternate(ts, a, b)
    ensures SumOfGaps(ts) == Firsts(|ts| - 1) * a + Seconds(|ts| - 1) * b
    ensures SumOfSquares(ts) == Firsts(|ts| - 1) * (a * a) + Seconds(|ts| - 1) * (b * b)
  {
    if |ts| == 1 {
      assert Firsts(0) == 0 && Seconds(0) == 0;
    } else {
      hide Firsts, Seconds;
      var n := |ts| - 1;
      AlternatingSums(ts[..n], a, b);
      CountStep(n, a, b);
      CountStep(n, a * a, b * b);
    }
  }

  lemma AddOne(x: int, c: int)
    ensures (x + 1) * c == x * c + c
  {
  }

  /** A jittered run alternates between its first two gaps. */
  lemma RunAlternates(ts: seq<int>, period: int, jitter: int, start: nat)
    requires IsRun(ts, period, jitter, start)
    ensures GapsAlternate(ts, Interval(period, jitter, start), Interval(period, jitter, start + 1))
  {
    forall i | 0 <= i < |ts| - 1
      ensures ts[i + 1] - ts[i] == Interval(period, jitter, if i % 2 == 0 then start else start + 1)
    {
      SameParity(period, jitter, start + i, if i % 2 == 0 then start else start + 1);
    }
  }

  lemma SameParity(period: int, jitter: int, i: nat, j: nat)
    requires i % 2 == j % 2
    ensures Interval(period, jitter, i) == Interval(period, jitter, j)
  {
  }

  /** The squared coefficient of variation of `m` gaps that alternate `a`, `b`, `a`, ... */
  function AlternatingCv2(m: nat, a: int, b: int): real
    requires AlternatingSpan(m, a, b) > 0
  {
    MulPositive(AlternatingSpan(m, a, b), AlternatingSpan(m, a, b));
    (Firsts(m) * Seconds(m) * ((a - b) * (a - b))) as real
      / (AlternatingSpan(m, a, b) * AlternatingSpan(m, a, b)) as real
  }

  function AlternatingSpan(m: nat, a: int, b: int): int {
    Firsts(m) * a + Seconds(m) * b
  }

  lemma MulPositive(x: int, y: int)
    requires x > 0 && y > 0
    ensures x * y > 0
  {
  }

  // The two sums of an alternating run leave only the product of the counts and the
  // squared difference of the gaps; one monomial at a time.

  lemma SquareOfSum(x: int, y: int)
    ensures (x + y) * (x + y) == x * x + 2 * (x * y) + y * y
  {
  }

  lemma ProductOfSums(e: int, o: int, x: int, y: int)
    ensures (e + o) * (x + y) == e * x + e * y + o * x + o * y
  {
  }

  lemma SwapMiddle(e: int, a: int, o: int, b: int)
    ensures (e * a) * (o * b) == (e * o) * (a * b)
  {
    Associate(e, a, o * b);
    Associate(a, o, b);
    Associate(o, a, b);
    Associate(e, o, a * b);
    assert a * o == o * a;
  }

  lemma Associate(x: int, y: int, z: int)
    ensures (x * y) * z == x * (y * z)
  {
  }

  lemma ScaledSquare(c: int, a: int, b: int)
    ensures c * ((a - b) * (a - b)) == c * (a * a) - 2 * (c * (a * b)) + c * (b * b)
  {
    SquareOfSum(a, -b);
    assert a * (-b) == -(a * b) && (-b) * (-b) == b * b;
    assert (a - b) * (a - b) == a * a - 2 * (a * b) + b * b;
    Distribute(c, a * a, a * b, b * b);
  }

  lemma Distribute(c: int, x: int, y: int, z: int)
    ensures c * (x - 2 * y + z) == c * x - 2 * (c * y) + c * z
  {
  }

  lemma CountsAlgebra(e: int, o: int, a: int, b: int)
    ensures (e + o) * (e * (a * a) + o * (b * b)) - (e * a + o * b) * (e * a + o * b) == e * o * ((a - b) * (a - b))
  {
    SquareOfSum(e * a, o * b);
    ProductOfSums(e, o, e * (a * a), o * (b * b));
    SwapMiddle(e, a, e, a);
    SwapMiddle(o, b, o, b);
    SwapMiddle(e, a, o, b);
    Associate(e, e, a * a);
    Associate(o, o, b * b);
    Associate(e, o, b * b);
    Associate(o, e, a * a);
    ScaledSquare(e * o, a, b);
    assert o * e == e * o;
  }

  lemma RatioOfInts(m: int, s: int, q: int)
    requires s > 0
    ensures s * s > 0 && Ratio(m as real, s as real, q as real) == (m * q - s * s) as real / (s * s) as real
  {
    RealProduct(m, q);
    RealProduct(s, s);
    MulPositive(s, s);
  }

  lemma RealProduct(x: int, y: int)
    ensures (x * y) as real == x as real * y as real
  {
  }

  /** The variation of any alternating run is exact. */
  lemma AlternatingForm(ts: seq<int>, a: int, b: int)
    requires |ts| >= 3 && GapsAlternate(ts, a, b) && AlternatingSpan(|ts| - 1, a, b) > 0
    ensures CvSquared(ts) == Some(AlternatingCv2(|ts| - 1, a, b))
  {
    hide CvSquared, Ratio, SumOfGaps, SumOfSquares, GapsAlternate;
    var m := |ts| - 1;
    AlternatingSums(ts, a, b);
    CvFromSums(ts);
    RatioOfInts(m, SumOfGaps(ts), SumOfSquares(ts));
    CountsAdd(m);
    CountsAlgebra(Firsts(m), Seconds(m), a, b);
  }

  lemma CountsAdd(m: nat)
    ensures Firsts(m) + Seconds(m) == m
    ensures m >= 2 ==> Firsts(m) >= 1 && Seconds(m) >= 1
  {
  }

  /** The gaps around a jittered period: the long one is at least the period, no gap is
      negative, and more jitter lengthens the long one and shortens the short one. */
  lemma GapsSpread(period: int, i: int, j: int)
    requires period >= 1 && 0 <= i <= j <= 1000
    ensures 1 <= Interval(period, i, 0) <= Interval(period, j, 0)
    ensures 0 <= Interval(period, j, 1) <= Interval(period, i, 1) <= Interval(period, i, 0)
  {
    MulOrdered(period, 1000, 1000 + i);
    MulOrdered(period, 1000 + i, 1000 + j);
    MulOrdered(period, 0, 1000 - j);
    MulOrdered(period, 1000 - j, 1000 - i);
    MulOrdered(period, 1000 - i, 1000 + i);
    ThousandthMono(period * 1000, period * (1000 + i));
    ThousandthMono(period * (1000 + i), period * (1000 + j));
    ThousandthMono(0, period * (1000 - j));
    ThousandthMono(period * (1000 - j), period * (1000 - i));
    ThousandthMono(period * (1000 - i), period * (1000 + i));
  }

  lemma MulOrdered(c: int, x: int, y: int)
    requires c >= 0 && x <= y
    ensures c * x <= c * y
  {
  }

  lemma ThousandthMono(x: int, y: int)
    requires x <= y
    ensures x / 1000 <= y / 1000
  {
  }

  lemma SpanPositive(m: nat, period: int, jitter: int, start: nat)
    requires m >= 2 && period >= 1 && 0 <= jitter <= 1000
    ensures AlternatingSpan(m, Interval(period, jitter, start), Interval(period, jitter, start + 1)) > 0
  {
    hide Interval, Firsts, Seconds;
    GapsSpread(period, jitter, jitter);
    SameParity(period, jitter, start, start % 2);
    SameParity(period, jitter, start + 1, 1 - start % 2);
    CountsAdd(m);
    SumPositive(Firsts(m), Interval(period, jitter, start), Seconds(m), Interval(period, jitter, start + 1));
  }

  lemma SumPositive(e: int, a: int, o: int, b: int)
    requires e >= 1 && o >= 1 && a >= 0 && b >= 0 && (a >= 1 || b >= 1)
    ensures e * a + o * b > 0
  {
    MulMono(1, e, a);
    MulMono(1, o, b);
  }

  /** The squared coefficient of variation of `m` consecutive gaps, from event `start`. */
  function JitterCv2(m: nat, start: nat, period: int, jitter: int): real
    requires m >= 2 && period >= 1 && 0 <= jitter <= 1000
  {
    SpanPositive(m, period, jitter, start);
    AlternatingCv2(m, Interval(period, jitter, start), Interval(period, jitter, start + 1))
  }

  /** For every period and jitter the variation of a run of the schedule is exact. */
  lemma JitterClosedForm(ts: seq<int>, period: int, jitter: int, start: nat)
    requires period >= 1 && 0 <= jitter <= 1000 && |ts| >= 3 && IsRun(ts, period, jitter, start)
    ensures CvSquared(ts) == Some(JitterCv2(|ts| - 1, start, period, jitter))
  {
    hide CvSquared, AlternatingCv2, IsRun, GapsAlternate, Interval;
    SpanPositive(|ts| - 1, period, jitter, start);
    RunAlternates(ts, period, jitter, start);
    AlternatingForm(ts, Interval(period, jitter, start), Interval(period, jitter, start + 1));
  }

  // ---------- whole-second periods: the jitter itself ----------

  /** A period in whole seconds leaves nothing to round: an even run varies by exactly the
      jitter, an odd one by a little less or more as it starts long or short. */
  function WholeCv2(m: nat, longFirst: bool, jitter: int): real
    requires m >= 2 && 0 <= jitter <= 1000
  {
    if m % 2 == 0 then (jitter * jitter) as real / 1000000.0
    else
      var span := if longFirst then 1000 * m + jitter else 1000 * m - jitter;
      MulPositive(span, span);
      (jitter * jitter * (m * m - 1)) as real / (span * span) as real
  }

  lemma IntervalExact(q: int, jitter: int, i: nat)
    ensures Interval(1000 * q, jitter, i) == q * (if i % 2 == 0 then 1000 + jitter else 1000 - jitter)
  {
    var f := if i % 2 == 0 then 1000 + jitter else 1000 - jitter;
    Associate(1000, q, f);
    assert 1000 * q * f == (q * f) * 1000;
  }

  /** A common square cancels from an exact quotient. */
  lemma CancelSquare(q: int, x: int, y: int)
    requires q >= 1 && y > 0
    ensures q * q * y > 0 && (q * q * x) as real / (q * q * y) as real == x as real / y as real
  {
    MulPositive(q, q);
    MulPositive(q * q, y);
    RealProduct(q * q, x);
    RealProduct(q * q, y);
    CancelFactors((q * q) as real, x as real, y as real);
  }

  lemma CancelFactors(c: real, x: real, y: real)
    requires c > 0.0 && y > 0.0
    ensures c * y != 0.0 && (c * x) / (c * y) == x / y
  {
    var z := x / y;
    assert z * y == x;
    assert z * (c * y) == c * x;
    QuotientOf(c * x, c * y, z);
  }

  /** Gaps that are multiples of `q` vary as if `q` were one. */
  lemma AlternatingWhole(m: nat, q: int, s: int)
    requires m >= 2 && q >= 1 && -1000 <= s <= 1000
    ensures var e, o := Firsts(m), Seconds(m);
      var span := 1000 * m + (e - o) * s;
      span * span > 0 && AlternatingSpan(m, q * (1000 + s), q * (1000 - s)) > 0 &&
      AlternatingCv2(m, q * (1000 + s), q * (1000 - s)) == (4 * (e * o) * (s * s)) as real / (span * span) as real
  {
    hide Firsts, Seconds;
    var e, o := Firsts(m), Seconds(m);
    var span := 1000 * m + (e - o) * s;
    CountsAdd(m);
    SpanOf(q, s, e, o);
    PositiveSpan(m, s, q);
    SquaresOf(q, s, e * o, span);
    CancelSquare(q, 4 * (e * o) * (s * s), span * span);
  }

  lemma WholeIntervals(q: int, jitter: int, start: nat)
    ensures var s := if start % 2 == 0 then jitter else -jitter;
      Interval(1000 * q, jitter, start) == q * (1000 + s) && Interval(1000 * q, jitter, start + 1) == q * (1000 - s)
  {
    hide Interval;
    IntervalExact(q, jitter, start);
    IntervalExact(q, jitter, start + 1);
  }

  lemma JitterCv2Is(m: nat, start: nat, period: int, jitter: int, a: int, b: int)
    requires m >= 2 && period >= 1 && 0 <= jitter <= 1000
    requires Interval(period, jitter, start) == a && Interval(period, jitter, start + 1) == b
    ensures AlternatingSpan(m, a, b) > 0 && JitterCv2(m, start, period, jitter) == AlternatingCv2(m, a, b)
  {
    hide Interval, AlternatingCv2, AlternatingSpan;
    SpanPositive(m, period, jitter, start);
  }

  lemma WholeSecondForm(m: nat, start: nat, q: int, jitter: int)
    requires m >= 2 && q >= 1 && 0 <= jitter <= 1000
    ensures JitterCv2(m, start, 1000 * q, jitter) == WholeCv2(m, start % 2 == 0, jitter)
  {
    hide WholeCv2, Interval, Firsts, Seconds, AlternatingCv2, AlternatingSpan, JitterCv2;
    var s := if start % 2 == 0 then jitter else -jitter;
    WholeIntervals(q, jitter, start);
    JitterCv2Is(m, start, 1000 * q, jitter, q * (1000 + s), q * (1000 - s));
    AlternatingWhole(m, q, s);
    SameSquare(jitter, s);
    ClosedFormOf(m, start % 2 == 0, jitter, s);
  }

  /** The window of a jittered burst is a jittered run, already in time order. */
  lemma WindowIsRun(
    evs: seq<Event>, t0: int, offsets: seq<int>, period: int, jitter: int, j: nat, k: nat, ts: seq<int>)
    requires period >= 0 && 0 <= jitter <= 1000
    requires IsJittered(offsets, period, jitter) && Follows(evs, t0, offsets)
    requires j <= k + 1 <= |evs| && |ts| == k + 1 - j
    requires forall i :: 0 <= i < |ts| ==> ts[i] == evs[j + i].time
    ensures IsRun(ts, period, jitter, j) && SortTimes(ts) == ts
  {
    hide SortTimes, Interval;
    JitteredIsOrdered(offsets, period, jitter);
    forall a, b | 0 <= a <= b < |ts| ensures ts[a] <= ts[b] {
      assert offsets[j + a] <= offsets[j + b];
    }
    forall i | 0 <= i < |ts| - 1 ensures ts[i + 1] - ts[i] == Interval(period, jitter, j + i) {
      assert offsets[j + i + 1] - offsets[j + i] == Interval(period, jitter, j + i);
    }
    Uniform.SortedStays(ts);
  }

  /** Simultaneous events have no coefficient of variation. */
  lemma StillTimes(ts: seq<int>, jitter: int, start: nat)
    requires |ts| >= 3 && IsRun(ts, 0, jitter, start)
    ensures CvSquared(ts) == None
  {
    forall i | 0 <= i < |ts| - 1 ensures ts[i + 1] - ts[i] == 0 {
      assert Interval(0, jitter, start + i) == 0;
    }
    Uniform.NoVariation(ts);
  }

  /** A periodicity rule on a jittered burst, for every period: it fires at event `k` iff its
      window holds T events, and at least the three a variation needs, and the closed form of
      that window is within the bound. */
  lemma JitterAlarmIff(
    r: Rule, fold: Fold, evs: seq<Event>, t0: int, offsets: seq<int>, period: int, jitter: int, k: nat)
    returns (j: nat)
    requires r.maxCv.Some? && period >= 0 && 0 <= jitter <= 1000
    requires IsJittered(offsets, period, jitter) && Follows(evs, t0, offsets)
    requires Saturates(r, fold, evs) && k < |evs|
    ensures j <= k + 1
    ensures forall i :: 0 <= i <= k ==> (i >= j <==> evs[i].time >= evs[k].time - r.window)
    ensures Alarm(r, fold, evs, k) <==>
      period >= 1 && k + 1 - j >= Max(r.threshold, 3) && r.maxCv.value >= 0.0 &&
      JitterCv2(k - j, j, period, jitter) <= Square(r.maxCv.value)
  {
    hide CvSquared, JitterCv2, Square, SortTimes, Alarm, IsJittered, DistinctValues, IsRun, Group, Live;
    var key :| InOneGroup(r, fold, evs, key);
    JitteredIsOrdered(offsets, period, jitter);
    assert TimeOrdered(evs);
    j := WindowAt(r, fold, evs, key, k);
    var ts := Times(Live(Group(r, fold, evs[..k + 1], key), evs[k].time - r.window));
    WindowIsRun(evs, t0, offsets, period, jitter, j, k, ts);
    if |ts| < 3 {
      Uniform.NoVariation(ts);
    } else if period == 0 {
      StillTimes(ts, jitter, j);
    } else {
      JitterClosedForm(ts, period, jitter, j);
    }
  }

  lemma {:induction false} JitteredIsOrdered(offsets: seq<int>, period: int, jitter: int)
    requires period >= 0 && 0 <= jitter <= 1000 && IsJittered(offsets, period, jitter)
    ensures forall i, j :: 0 <= i <= j < |offsets| ==> offsets[i] <= offsets[j]
  {
    if |offsets| > 1 {
      hide Interval;
      var n := |offsets| - 1;
      JitteredIsOrdered(offsets[..n], period, jitter);
      IntervalNonNegative(period, jitter, n - 1);
      assert offsets[n] - offsets[n - 1] == Interval(period, jitter, n - 1);
    }
  }

  lemma IntervalNonNegative(period: int, jitter: int, i: nat)
    requires period >= 0 && 0 <= jitter <= 1000
    ensures Interval(period, jitter, i) >= 0
  {
    var f := if i % 2 == 0 then 1000 + jitter else 1000 - jitter;
    MulOrdered(period, 0, f);
    ThousandthMono(0, period * f);
  }

  lemma SameSquare(x: int, y: int)
    requires y == x || y == -x
    ensures y * y == x * x
  {
  }

  lemma SpanOf(q: int, s: int, e: int, o: int)
    ensures e * (q * (1000 + s)) + o * (q * (1000 - s)) == q * (1000 * (e + o) + (e - o) * s)
  {
    Swap(e, q, 1000 + s);
    Swap(o, q, 1000 - s);
    Thousands(e, s);
    Thousands(o, -s);
    assert o * (-s) == -(o * s) && (e - o) * s == e * s - o * s;
    MulPlus(q, e * (1000 + s), o * (1000 - s));
  }

  lemma Swap(e: int, q: int, x: int)
    ensures e * (q * x) == q * (e * x)
  {
    Associate(e, q, x);
    Associate(q, e, x);
    assert e * q == q * e;
  }

  lemma Thousands(e: int, s: int)
    ensures e * (1000 + s) == 1000 * e + e * s
  {
  }

  lemma MulPlus(q: int, x: int, y: int)
    ensures q * x + q * y == q * (x + y)
  {
  }

  lemma PositiveSpan(m: nat, s: int, q: int)
    requires m >= 2 && -1000 <= s <= 1000 && q >= 1
    ensures var span := 1000 * m + (Firsts(m) - Seconds(m)) * s;
      span > 0 && q * span > 0 && span * span > 0
  {
  }

  lemma SquaresOf(q: int, s: int, c: int, span: int)
    ensures var d := q * (1000 + s) - q * (1000 - s);
      c * (d * d) == q * q * (4 * c * (s * s))
    ensures (q * span) * (q * span) == q * q * (span * span)
  {
    Thousands(q, s);
    Thousands(q, -s);
    assert q * (-s) == -(q * s);
    var d := q * (1000 + s) - q * (1000 - s);
    assert d == 2 * (q * s);
    SwapMiddle(q, s, q, s);
    assert d * d == 4 * ((q * q) * (s * s));
    Quadruple(c, q * q, s * s);
    SwapMiddle(q, span, q, span);
  }

  lemma Quadruple(c: int, x: int, y: int)
    ensures c * (4 * (x * y)) == x * (4 * c * y)
  {
    Swap(c, x, y);
    assert c * (4 * (x * y)) == 4 * (c * (x * y));
    Associate(4, c, y);
    assert x * (4 * (c * y)) == 4 * (x * (c * y));
  }

  lemma ClosedFormOf(m: nat, longFirst: bool, jitter: int, s: int)
    requires m >= 2 && 0 <= jitter <= 1000 && s == (if longFirst then jitter else -jitter) && s * s == jitter * jitter
    ensures var e, o := Firsts(m), Seconds(m);
      var span := 1000 * m + (e - o) * s;
      span * span > 0 &&
      (4 * (e * o) * (s * s)) as real / (span * span) as real == WholeCv2(m, longFirst, jitter)
  {
    var h := m / 2;
    if m % 2 == 0 {
      EvenForm(h, s, jitter);
    } else {
      OddForm(h, s, jitter);
    }
  }

  lemma OddForm(h: int, s: int, jitter: int)
    requires h >= 1 && -1000 <= s <= 1000 && s * s == jitter * jitter
    ensures var m, e, o := 2 * h + 1, h + 1, h;
      var span := 1000 * m + (e - o) * s;
      span == 1000 * m + s && span * span > 0 && 4 * (e * o) * (s * s) == jitter * jitter * (m * m - 1)
  {
    OddCounts(h, s * s);
    PositiveSpan(2 * h + 1, s, 1);
  }

  lemma EvenForm(h: int, s: int, jitter: int)
    requires h >= 1 && s * s == jitter * jitter
    ensures var span := 1000 * (2 * h) + (h - h) * s;
      span * span > 0 &&
      (4 * (h * h) * (s * s)) as real / (span * span) as real == (jitter * jitter) as real / 1000000.0
  {
    EvenCounts(h, s * s);
    CancelSquare(2 * h, s * s, 1000000);
  }

  lemma EvenCounts(h: int, x: int)
    ensures 4 * (h * h) * x == (2 * h) * (2 * h) * x
    ensures (1000 * (2 * h)) * (1000 * (2 * h)) == (2 * h) * (2 * h) * 1000000
  {
  }

  lemma OddCounts(h: int, x: int)
    ensures 4 * ((h + 1) * h) * x == x * ((2 * h + 1) * (2 * h + 1) - 1)
  {
  }
}
