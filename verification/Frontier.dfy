/** The Pareto frontier of key counts that evade, and how two frontiers compare. */
module Frontier {

  /** A grid cell: a key count for each kind. */
  type Point = seq<nat>

  /** `m` needs at least as many keys of every kind as `f` (a shorter `f` never covers). */
  predicate Covers(m: Point, f: Point) {
    |m| <= |f| && forall i :: 0 <= i < |m| ==> m[i] >= f[i]
  }

  predicate CoveredBy(m: Point, floor: set<Point>) {
    exists f :: f in floor && Covers(m, f)
  }

  predicate SameSize(cells: set<Point>) {
    forall a, b :: a in cells && b in cells ==> |a| == |b|
  }

  /** The dark cells that no other dark cell undercuts. */
  function FrontierOf(dark: set<Point>): set<Point> {
    set g | g in dark && !exists h :: h in dark && h != g && Covers(g, h)
  }

  /** Measured points at which the attacker gets by with fewer keys than the floor allows. */
  function Regressed(floor: set<Point>, measured: set<Point>): set<Point> {
    set m | m in measured && !CoveredBy(m, floor)
  }

  lemma CoversTransitive(a: Point, b: Point, c: Point)
    requires Covers(a, b) && Covers(b, c)
    ensures Covers(a, c)
  {
  }

  function Size(p: Point): nat {
    if p == [] then 0 else Size(p[..|p| - 1]) + p[|p| - 1]
  }

  lemma {:induction false} SmallerCover(g: Point, h: Point)
    requires |g| == |h| && Covers(g, h)
    ensures Size(h) <= Size(g)
    ensures h != g ==> Size(h) < Size(g)
  {
    if g != [] {
      var n := |g| - 1;
      SmallerCover(g[..n], h[..n]);
      assert g == g[..n] + [g[n]] && h == h[..n] + [h[n]];
    }
  }

  /** Every dark cell dominates some frontier point. */
  lemma {:induction false} FrontierReached(dark: set<Point>, g: Point) returns (f: Point)
    requires SameSize(dark) && g in dark
    ensures f in FrontierOf(dark) && Covers(g, f)
    decreases Size(g)
  {
    if h :| h in dark && h != g && Covers(g, h) {
      SmallerCover(g, h);
      f := FrontierReached(dark, h);
      CoversTransitive(g, h, f);
    } else {
      f := g;
    }
  }

  /** The frontier is the least set of dark cells that every dark cell dominates a point of, and
      no point of it undercuts another. */
  lemma FrontierIsLeast(dark: set<Point>)
    requires SameSize(dark)
    ensures forall g :: g in dark ==> CoveredBy(g, FrontierOf(dark))
    ensures forall other: set<Point> ::
      other <= dark && (forall g :: g in dark ==> CoveredBy(g, other)) ==> FrontierOf(dark) <= other
    ensures forall a, b :: a in FrontierOf(dark) && b in FrontierOf(dark) && Covers(a, b) ==> a == b
  {
    forall g | g in dark ensures CoveredBy(g, FrontierOf(dark)) {
      var f := FrontierReached(dark, g);
    }
    forall other: set<Point>, f | other <= dark && (forall g :: g in dark ==> CoveredBy(g, other)) && f in FrontierOf(dark)
      ensures f in other
    {
      assert CoveredBy(f, other);
      var h :| h in other && Covers(f, h);
    }
  }

  /** Comparing frontiers compares the whole dark sets: nothing regressed iff every
      measured dark cell dominates a floor point. */
  lemma NoRegressionIff(floor: set<Point>, dark: set<Point>)
    requires SameSize(dark)
    ensures Regressed(floor, FrontierOf(dark)) == {} <==> forall g :: g in dark ==> CoveredBy(g, floor)
  {
    if Regressed(floor, FrontierOf(dark)) == {} {
      forall g | g in dark
        ensures CoveredBy(g, floor)
      {
        var f := FrontierReached(dark, g);
        assert f !in Regressed(floor, FrontierOf(dark));
        var f' :| f' in floor && Covers(f, f');
        CoversTransitive(g, f, f');
      }
    }
  }

  lemma NothingRegressed(floor: set<Point>, measured: set<Point>)
    ensures Regressed(floor, measured) == {} <==> forall m :: m in measured ==> CoveredBy(m, floor)
  {
    if m :| m in measured && !CoveredBy(m, floor) {
      assert m in Regressed(floor, measured);
    }
  }

  /** On the counts themselves, where all cells name the same kinds: a measured point regresses
      when every floor point asks for more keys of some kind. */
  lemma RegressedPointwise(floor: set<Point>, measured: set<Point>)
    requires SameSize(floor + measured)
    ensures Regressed(floor, measured) != {} <==>
      exists m :: m in measured && forall f :: f in floor ==> exists i :: 0 <= i < |m| && m[i] < f[i]
  {
    NothingRegressed(floor, measured);
    forall m, f | m in measured && f in floor
      ensures !Covers(m, f) <==> exists i :: 0 <= i < |m| && m[i] < f[i]
    {
      assert m in floor + measured && f in floor + measured;
    }
  }

  /** No frontier regresses against itself. */
  lemma RegressedReflexive(frontier: set<Point>)
    ensures Regressed(frontier, frontier) == {}
  {
    forall m | m in frontier ensures CoveredBy(m, frontier) {
      assert Covers(m, m);
    }
  }

  lemma RegressedTransitive(a: set<Point>, b: set<Point>, c: set<Point>)
    requires Regressed(a, b) == {} && Regressed(b, c) == {}
    ensures Regressed(a, c) == {}
  {
    NothingRegressed(a, b);
    NothingRegressed(b, c);
    forall m | m in c ensures CoveredBy(m, a) {
      var f :| f in b && Covers(m, f);
      var f' :| f' in a && Covers(f, f');
      CoversTransitive(m, f, f');
    }
    NothingRegressed(a, c);
  }

  /** An accepted frontier only shrinks the set of cells the floor concedes. */
  lemma ConcededShrinks(before: set<Point>, after: set<Point>)
    ensures Regressed(before, after) == {} <==> forall g :: CoveredBy(g, after) ==> CoveredBy(g, before)
  {
    if Regressed(before, after) == {} {
      NothingRegressed(before, after);
      forall g | CoveredBy(g, after) ensures CoveredBy(g, before) {
        var f :| f in after && Covers(g, f);
        var f' :| f' in before && Covers(f, f');
        CoversTransitive(g, f, f');
      }
    } else {
      var m :| m in Regressed(before, after);
      assert Covers(m, m) && CoveredBy(m, after);
    }
  }
}
