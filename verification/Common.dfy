/** Small shared vocabulary: optional values and integer rounding. */
module Common {

  datatype Option<+T> = None | Some(value: T)

  function Max(a: int, b: int): (m: int)
    ensures m >= a && m >= b && (m == a || m == b)
  {
    if a < b then b else a
  }

  function Min(a: int, b: int): (m: int)
    ensures m <= a && m <= b && (m == a || m == b)
  {
    if a < b then a else b
  }

  /** The exact integer ceiling of a quotient. */
  function CeilDiv(a: int, b: int): (c: int)
    requires b > 0
    ensures (c - 1) * b < a <= c * b
  {
    FloorBounds(-a, b);
    -((-a) / b)
  }

  lemma FloorBounds(a: int, b: int)
    requires b > 0
    ensures (a / b) * b <= a < (a / b + 1) * b
  {
  }

  /** Floor division is the adjoint of multiplication. */
  lemma FloorAdjoint(g: int, a: int, b: int)
    requires b > 0
    ensures g * b <= a <==> g <= a / b
  {
    FloorBounds(a, b);
    if g <= a / b {
      MulMono(g, a / b, b);
    } else {
      MulMono(a / b + 1, g, b);
    }
  }

  lemma CeilAdjoint(g: int, a: int, b: int)
    requires b > 0
    ensures a <= g * b <==> CeilDiv(a, b) <= g
  {
    FloorAdjoint(-g, -a, b);
    assert (-g) * b == -(g * b);
  }

  lemma MulMono(a: int, b: int, k: int)
    requires a <= b && k >= 0
    ensures a * k <= b * k
  {
  }

  /** A quotient is the only number that fits between the two multiples. */
  lemma QuotientIs(a: int, b: int, q: int, r: int)
    requires b > 0 && a == q * b + r && 0 <= r < b
    ensures a / b == q && a % b == r
  {
    FloorAdjoint(q, a, b);
    FloorAdjoint(q + 1, a, b);
    assert (q + 1) * b == q * b + b;
  }

  lemma SubsetSize<T>(a: set<T>, b: set<T>)
    requires a <= b
    ensures |a| <= |b|
  {
    assert b == a + (b - a);
  }
}
