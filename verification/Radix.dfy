/** Mixed-radix digits of a rank, and how evenly they load. */
module Radix {
  import opened Common

  predicate AllPositive(ks: seq<nat>) {
    forall i :: 0 <= i < |ks| ==> ks[i] >= 1
  }

  function Prod(ks: seq<nat>): nat {
    if ks == [] then 1 else Prod(ks[..|ks| - 1]) * ks[|ks| - 1]
  }

  lemma {:induction false} ProdPositive(ks: seq<nat>)
    requires AllPositive(ks)
    ensures Prod(ks) >= 1
  {
    if ks != [] {
      ProdPositive(ks[..|ks| - 1]);
      MulMono(1, Prod(ks[..|ks| - 1]), ks[|ks| - 1]);
    }
  }

  /** The key combination a rank is assigned: digit `i` counts in blocks of the
      product of the radices before it. */
  function Combo(rank: nat, ks: seq<nat>): (d: seq<nat>)
    requires AllPositive(ks)
    ensures IsCombo(d, ks)
  {
    if ks == [] then []
    else
      var n := |ks| - 1;
      ProdPositive(ks[..n]);
      Combo(rank, ks[..n]) + [rank / Prod(ks[..n]) % ks[n]]
  }

  predicate IsCombo(d: seq<nat>, ks: seq<nat>) {
    |d| == |ks| && forall i :: 0 <= i < |ks| ==> d[i] < ks[i]
  }

  /** The rank below the product that carries a given combination. */
  function RankOf(d: seq<nat>, ks: seq<nat>): nat
    requires |d| == |ks|
  {
    if ks == [] then 0 else RankOf(d[..|ks| - 1], ks[..|ks| - 1]) + d[|ks| - 1] * Prod(ks[..|ks| - 1])
  }

  /** Splitting one digit off a remainder. */
  lemma RemainderSplit(a: nat, p: nat, k: nat)
    requires p >= 1 && k >= 1
    ensures p * k >= 1 && a % (p * k) == (a / p % k) * p + a % p
  {
    Recompose(a, p);
    Recompose(a / p, k);
    SplitDigits(a, a / p, a % p, a / p / k, a / p % k, p, k);
  }

  lemma Recompose(a: nat, p: nat)
    requires p >= 1
    ensures a == (a / p) * p + a % p && a / p >= 0
  {
  }

  lemma SplitDigits(a: nat, m: nat, r: nat, q: nat, d: nat, p: nat, k: nat)
    requires a == m * p + r && r < p && m == q * k + d && d < k
    ensures p * k >= 1 && a % (p * k) == d * p + r
  {
    MulMono(1, p, k);
    Regroup(q, k, d, p);
    MulMono(d, k - 1, p);
    MulStep(p, k - 1);
    QuotientIs(a, p * k, q, d * p + r);
  }

  lemma Regroup(q: int, k: int, d: int, p: int)
    ensures (q * k + d) * p == q * (p * k) + d * p
  {
  }

  lemma DigitsUnique(d: nat, r: nat, d': nat, r': nat, p: nat)
    requires r < p && r' < p
    ensures d * p + r == d' * p + r' <==> d == d' && r == r'
  {
    if d * p + r == d' * p + r' {
      QuotientIs(d * p + r, p, d, r);
      QuotientIs(d' * p + r', p, d', r');
    }
  }

  lemma SameSnoc<T>(a: seq<T>, x: T, b: seq<T>, y: T)
    ensures a + [x] == b + [y] <==> a == b && x == y
  {
    if a + [x] == b + [y] {
      assert a == (a + [x])[..|a|] && b == (b + [y])[..|b|];
      assert (a + [x])[|a|] == x && (b + [y])[|b|] == y;
    }
  }

  /** Two ranks get the same combination iff they agree modulo the product. */
  lemma {:induction false} SameComboIff(a: nat, b: nat, ks: seq<nat>)
    requires AllPositive(ks)
    ensures Prod(ks) >= 1
    ensures Combo(a, ks) == Combo(b, ks) <==> a % Prod(ks) == b % Prod(ks)
  {
    ProdPositive(ks);
    if ks != [] {
      var n := |ks| - 1;
      var p, k := Prod(ks[..n]), ks[n];
      SameComboIff(a, b, ks[..n]);
      RemainderSplit(a, p, k);
      RemainderSplit(b, p, k);
      DigitsUnique(a / p % k, a % p, b / p % k, b % p, p);
      SameSnoc(Combo(a, ks[..n]), a / p % k, Combo(b, ks[..n]), b / p % k);
    }
  }

  lemma {:induction false} RankOfCarries(d: seq<nat>, ks: seq<nat>)
    requires AllPositive(ks) && IsCombo(d, ks)
    ensures RankOf(d, ks) < Prod(ks) && Combo(RankOf(d, ks), ks) == d
  {
    if ks != [] {
      var n := |ks| - 1;
      var p, k := Prod(ks[..n]), ks[n];
      ProdPositive(ks[..n]);
      RankOfCarries(d[..n], ks[..n]);
      var low := RankOf(d[..n], ks[..n]);
      CarryDigit(low, d[n], p, k);
      SameComboIff(low, low + d[n] * p, ks[..n]);
    }
  }

  lemma CarryDigit(low: nat, d: nat, p: nat, k: nat)
    requires low < p && d < k
    ensures low + d * p < p * k
    ensures low % p == low && (low + d * p) % p == low && (low + d * p) / p % k == d
  {
    QuotientIs(low + d * p, p, d, low);
    QuotientIs(low, p, 0, low);
    QuotientIs(d, k, 0, d);
    MulMono(d, k - 1, p);
    assert (k - 1) * p == p * k - p;
  }

  /** Any block of `Prod` consecutive ranks hits every combination exactly once. */
  lemma BlockHitsOnce(base: nat, d: seq<nat>, ks: seq<nat>) returns (rank: nat)
    requires AllPositive(ks) && IsCombo(d, ks)
    ensures base <= rank < base + Prod(ks) && Combo(rank, ks) == d
    ensures forall other :: base <= other < base + Prod(ks) && Combo(other, ks) == d ==> other == rank
  {
    var p, v := Prod(ks), RankOf(d, ks);
    ProdPositive(ks);
    RankOfCarries(d, ks);
    QuotientIs(v, p, 0, v);
    rank := NextResidue(base, v, p);
    SameComboIff(rank, v, ks);
    forall other | base <= other < base + p && Combo(other, ks) == d
      ensures other == rank
    {
      SameComboIff(other, rank, ks);
      ResidueOnce(other, rank, p);
    }
  }

  /** The rank that stands for a combination is any of its ranks modulo the product. */
  lemma RankOfCombo(i: nat, ks: seq<nat>)
    requires AllPositive(ks)
    ensures Prod(ks) >= 1 && RankOf(Combo(i, ks), ks) == i % Prod(ks)
  {
    hide Combo, RankOf, Prod;
    ProdPositive(ks);
    RankOfCarries(Combo(i, ks), ks);
    SameComboIff(RankOf(Combo(i, ks), ks), i, ks);
    QuotientIs(RankOf(Combo(i, ks), ks), Prod(ks), 0, RankOf(Combo(i, ks), ks));
  }

  /** Digit `m` of a combination counts in blocks of the product of the radices before it. */
  lemma {:induction false} ComboDigit(rank: nat, ks: seq<nat>, m: nat)
    requires AllPositive(ks) && m < |ks|
    ensures Prod(ks[..m]) >= 1 && Combo(rank, ks)[m] == rank / Prod(ks[..m]) % ks[m]
  {
    ProdPositive(ks[..m]);
    var n := |ks| - 1;
    if m < n {
      ComboDigit(rank, ks[..n], m);
      assert ks[..n][..m] == ks[..m];
    }
  }

  lemma {:induction false} LoadAgrees(hit: nat -> bool, hit': nat -> bool, n: nat)
    requires forall i: nat :: i < n ==> hit(i) == hit'(i)
    ensures Load(hit, n) == Load(hit', n)
  {
    if n > 0 {
      LoadAgrees(hit, hit', n - 1);
    }
  }

  lemma NextResidue(base: nat, v: nat, p: nat) returns (rank: nat)
    requires v < p
    ensures base <= rank < base + p && rank % p == v
  {
    FloorBounds(base, p);
    var q, r := base / p, base % p;
    rank := if r <= v then q * p + v else (q + 1) * p + v;
    QuotientIs(rank, p, if r <= v then q else q + 1, v);
  }

  lemma ResidueOnce(a: nat, b: nat, p: nat)
    requires p >= 1 && a % p == b % p && -(p as int) < a - b < p
    ensures a == b
  {
    FloorBounds(a, p);
    FloorBounds(b, p);
    var d := a / p - b / p;
    assert a - b == d * p;
    if d >= 1 {
      MulMono(1, d, p);
    } else if d <= -1 {
      MulMono(d, -1, p);
    }
  }

  // ---------- loads ----------

  /** How many ranks below `n` are hit. */
  function Load(hit: nat -> bool, n: nat): nat {
    if n == 0 then 0 else Load(hit, n - 1) + if hit(n - 1) then 1 else 0
  }

  lemma {:induction false} LoadMonotone(hit: nat -> bool, m: nat, n: nat)
    requires m <= n
    ensures Load(hit, m) <= Load(hit, n)
  {
    if m < n {
      LoadMonotone(hit, m, n - 1);
    }
  }

  lemma {:induction false} LastHit(hit: nat -> bool, n: nat) returns (k: nat)
    requires Load(hit, n) > 0
    ensures k < n && hit(k) && Load(hit, k + 1) == Load(hit, n)
  {
    if hit(n - 1) {
      k := n - 1;
    } else {
      k := LastHit(hit, n - 1);
    }
  }

  /** Dividing one more: the quotient moves exactly when the remainder wraps. */
  lemma DivStep(a: int, p: int)
    requires p >= 1
    ensures (a + 1) / p == a / p + if a % p == p - 1 then 1 else 0
    ensures (a + 1) % p == if a % p == p - 1 then 0 else a % p + 1
  {
    FloorBounds(a, p);
    if a % p == p - 1 {
      assert a + 1 == (a / p + 1) * p;
      QuotientIs(a + 1, p, a / p + 1, 0);
    } else {
      QuotientIs(a + 1, p, a / p, a % p + 1);
    }
  }

  lemma {:induction false} ResidueLoad(hit: nat -> bool, n: nat, p: nat, v: nat)
    requires v < p && forall r: nat :: hit(r) <==> r % p == v
    ensures Load(hit, n) == (n + p - 1 - v) / p
  {
    if n == 0 {
      QuotientIs(p - 1 - v, p, 0, p - 1 - v);
    } else {
      ResidueLoad(hit, n - 1, p, v);
      DivStep(n - 1 + p - 1 - v, p);
      ResidueShift(n - 1, p, v);
    }
  }

  lemma ResidueShift(r: nat, p: nat, v: nat)
    requires v < p
    ensures (r + p - 1 - v) % p == p - 1 <==> r % p == v
  {
    FloorBounds(r, p);
    var q, m := r / p, r % p;
    if m <= v {
      QuotientIs(r + p - 1 - v, p, q, m + p - 1 - v);
    } else {
      assert r + p - 1 - v == (q + 1) * p + (m - 1 - v);
      QuotientIs(r + p - 1 - v, p, q + 1, m - 1 - v);
    }
  }

  /** Over `n` events each combination is used the floor or the ceiling of `n` over
      the number of combinations, the early combinations taking the remainder. */
  lemma BalancedLoad(hit: nat -> bool, n: nat, d: seq<nat>, ks: seq<nat>)
    requires AllPositive(ks) && IsCombo(d, ks)
    requires forall r: nat :: hit(r) <==> Combo(r, ks) == d
    ensures Prod(ks) >= 1
    ensures Load(hit, n) == n / Prod(ks) + if RankOf(d, ks) < n % Prod(ks) then 1 else 0
  {
    var p, v := Prod(ks), RankOf(d, ks);
    ProdPositive(ks);
    RankOfCarries(d, ks);
    QuotientIs(v, p, 0, v);
    forall r: nat ensures hit(r) <==> r % p == v {
      SameComboIff(r, v, ks);
    }
    ResidueLoad(hit, n, p, v);
    FloorOfShift(n, p, v);
  }

  lemma FloorOfShift(n: nat, p: nat, v: nat)
    requires v < p
    ensures (n + p - 1 - v) / p == n / p + if v < n % p then 1 else 0
  {
    FloorBounds(n, p);
    var q, m := n / p, n % p;
    if v < m {
      assert n + p - 1 - v == (q + 1) * p + (m - 1 - v);
      QuotientIs(n + p - 1 - v, p, q + 1, m - 1 - v);
    } else {
      QuotientIs(n + p - 1 - v, p, q, m + p - 1 - v);
    }
  }

  // ---------- the load of one digit on its own ----------

  /** The heaviest load on any key of one kind, when its digit moves every `stride` ranks. */
  function KindLoad(n: nat, stride: nat, k: nat): nat
    requires stride >= 1 && k >= 1
  {
    CeilAdjoint(0, n / stride, k);
    CeilNonNegative(n / stride, k);
    stride * CeilDiv(n / stride, k) + if n / stride % k == 0 then n % stride else 0
  }

  lemma CeilNonNegative(a: nat, k: nat)
    requires k >= 1
    ensures CeilDiv(a, k) >= 0
  {
    CeilAdjoint(-1, a, k);
  }

  /** The load of digit value `x` over `n` ranks. */
  function DigitCount(n: nat, stride: nat, k: nat, x: nat): int
    requires stride >= 1 && x < k
  {
    stride * ((n / stride + k - 1 - x) / k) + if n / stride % k == x then n % stride else 0
  }

  lemma DigitCountStep(n: nat, stride: nat, k: nat, x: nat)
    requires stride >= 1 && x < k
    ensures DigitCount(n + 1, stride, k, x) == DigitCount(n, stride, k, x) + if n / stride % k == x then 1 else 0
  {
    DivStep(n, stride);
    var m := n / stride;
    if n % stride == stride - 1 {
      DivStep(m + k - 1 - x, k);
      ResidueShift(m, k, x);
      MulStep(stride, (m + k - 1 - x) / k);
    }
  }

  lemma {:induction false} DigitLoad(hit: nat -> bool, n: nat, stride: nat, k: nat, x: nat)
    requires stride >= 1 && x < k && forall r: nat :: hit(r) <==> r / stride % k == x
    ensures Load(hit, n) == DigitCount(n, stride, k, x)
  {
    if n == 0 {
      QuotientIs(k - 1 - x, k, 0, k - 1 - x);
      assert 0 / stride == 0 && 0 % stride == 0;
    } else {
      hide DigitCount;
      DigitLoad(hit, n - 1, stride, k, x);
      DigitCountStep(n - 1, stride, k, x);
      assert hit(n - 1) <==> (n - 1) / stride % k == x;
    }
  }

  lemma MulStep(s: int, c: int)
    ensures s * (c + 1) == s * c + s
  {
  }

  /** Key 0 is the heaviest, and its load is `KindLoad`. */
  lemma HeaviestDigit(hit: nat -> bool, n: nat, stride: nat, k: nat, x: nat)
    requires stride >= 1 && x < k && forall r: nat :: hit(r) <==> r / stride % k == x
    ensures Load(hit, n) <= KindLoad(n, stride, k)
    ensures x == 0 ==> Load(hit, n) == KindLoad(n, stride, k)
  {
    hide DigitCount, KindLoad;
    DigitLoad(hit, n, stride, k, x);
    DigitCountAtMost(n, stride, k, x);
  }

  lemma DigitCountAtMost(n: nat, stride: nat, k: nat, x: nat)
    requires stride >= 1 && x < k
    ensures DigitCount(n, stride, k, x) <= KindLoad(n, stride, k)
    ensures x == 0 ==> DigitCount(n, stride, k, x) == KindLoad(n, stride, k)
  {
    hide CeilDiv;
    CeilOfShift(n / stride, k, x);
    CompareLoads(stride, (n / stride + k - 1 - x) / k, CeilDiv(n / stride, k), n % stride, n / stride % k, x);
  }

  lemma CompareLoads(stride: nat, c: int, top: int, tail: nat, digit: nat, x: nat)
    requires tail < stride && c <= top && (x == 0 ==> c == top) && (digit == x && x > 0 ==> c == top - 1)
    ensures stride * c + (if digit == x then tail else 0) <= stride * top + if digit == 0 then tail else 0
    ensures x == 0 ==>
      stride * c + (if digit == x then tail else 0) == stride * top + if digit == 0 then tail else 0
  {
    MulMono(c, top, stride);
    MulStep(stride, top - 1);
  }

  lemma CeilOfShift(m: nat, k: nat, x: nat)
    requires x < k
    ensures (m + k - 1 - x) / k <= CeilDiv(m, k)
    ensures x == 0 ==> (m + k - 1 - x) / k == CeilDiv(m, k)
    ensures m % k == x && x > 0 ==> (m + k - 1 - x) / k == CeilDiv(m, k) - 1
  {
    FloorBounds(m, k);
    var q, r := m / k, m % k;
    CeilAdjoint(q, m, k);
    CeilAdjoint(q + 1, m, k);
    CeilAdjoint(q - 1, m, k);
    assert (q + 1) * k == q * k + k && (q - 1) * k == q * k - k;
    if r <= x {
      QuotientIs(m + k - 1 - x, k, q, r + k - 1 - x);
    } else {
      assert m + k - 1 - x == (q + 1) * k + (r - 1 - x);
      QuotientIs(m + k - 1 - x, k, q + 1, r - 1 - x);
    }
  }

  lemma SingleKindLoad(n: nat, k: nat)
    requires k >= 1
    ensures KindLoad(n, 1, k) == CeilDiv(n, k)
  {
    assert n / 1 == n && n % 1 == 0;
  }
}
