/** Spreading a burst over several keys: the assignment, and the exact load at which
    the detector still fires. */
module KeySpread {
  import opened Common
  import opened Detector
  import opened WindowLaws
  import opened Radix

  /** Writes key number `j` of one kind into an event. */
  type Setter = (Event, nat) -> Event

  // ---------- the assignment ----------

  function KeysOf(kind: string, counts: map<string, nat>): (k: nat)
    ensures k >= 1
  {
    if kind in counts && counts[kind] > 1 then counts[kind] else 1
  }

  function RadicesOf(order: seq<string>, counts: map<string, nat>): (ks: seq<nat>)
    ensures |ks| == |order| && AllPositive(ks)
  {
    seq(|order|, i requires 0 <= i < |order| => KeysOf(order[i], counts))
  }

  /** A setter exists for every kind that is spread. */
  predicate Settable(order: seq<string>, counts: map<string, nat>, setters: map<string, Setter>) {
    forall kind :: kind in order && KeysOf(kind, counts) > 1 ==> kind in setters
  }

  /** One event after every kind in `order` has written its digit of `rank`. */
  function Assigned(p: Event, rank: nat, order: seq<string>, counts: map<string, nat>, setters: map<string, Setter>): Event
    requires Settable(order, counts, setters)
  {
    if order == [] then p
    else
      var n := |order| - 1;
      var before := Assigned(p, rank, order[..n], counts, setters);
      var k := KeysOf(order[n], counts);
      ProdPositive(RadicesOf(order[..n], counts));
      if k > 1 then setters[order[n]](before, rank / Prod(RadicesOf(order[..n], counts)) % k) else before
  }

  lemma NoRadices(counts: map<string, nat>)
    ensures Prod(RadicesOf([], counts)) == 1
  {
  }

  lemma RadicesStep(order: seq<string>, counts: map<string, nat>, m: nat)
    requires m < |order|
    ensures Prod(RadicesOf(order[..m + 1], counts)) == Prod(RadicesOf(order[..m], counts)) * KeysOf(order[m], counts)
  {
    assert RadicesOf(order[..m + 1], counts)[..m] == RadicesOf(order[..m], counts);
  }

  method AssignKeys(payloads: seq<Event>, order: seq<string>, counts: map<string, nat>, setters: map<string, Setter>)
    returns (out: seq<Event>)
    requires Settable(order, counts, setters)
    ensures |out| == |payloads|
    ensures forall rank :: 0 <= rank < |out| ==> out[rank] == Assigned(payloads[rank], rank, order, counts, setters)
  {
    hide RadicesOf;
    NoRadices(counts);
    out := payloads;
    var stride := 1;
    for m := 0 to |order|
      invariant |out| == |payloads| && stride == Prod(RadicesOf(order[..m], counts)) && stride >= 1
      invariant forall rank :: 0 <= rank < |out| ==>
        out[rank] == Assigned(payloads[rank], rank, order[..m], counts, setters)
    {
      assert order[..m + 1][..m] == order[..m];
      RadicesStep(order, counts, m);
      var k := if order[m] in counts then counts[order[m]] else 1;
      if k > 1 {
        ghost var before := out;
        for rank := 0 to |out|
          invariant |out| == |payloads|
          invariant forall i :: 0 <= i < rank ==> out[i] == setters[order[m]](before[i], i / stride % k)
          invariant forall i :: rank <= i < |out| ==> out[i] == before[i]
        {
          out := out[rank := setters[order[m]](out[rank], rank / stride % k)];
        }
        MulMono(1, stride, k);
        stride := stride * k;
      }
    }
    assert order[..|order|] == order;
  }

  // ---------- firing as a load ----------

  lemma {:induction false} GroupCount(r: Rule, fold: Fold, evs: seq<Event>, key: string, hit: nat -> bool)
    requires forall i :: 0 <= i < |evs| ==> (KeyOf(r, fold, evs[i]) == Some(key) <==> hit(i))
    ensures |Group(r, fold, evs, key)| == Load(hit, |evs|)
  {
    if evs != [] {
      GroupCount(r, fold, evs[..|evs| - 1], key, hit);
    }
  }

  ghost predicate FromBurst(r: Rule, evs: seq<Event>, o: Obs) {
    exists j :: 0 <= j < |evs| && o == Observe(r, evs[j])
  }

  predicate NoRepeats(g: seq<Obs>) {
    forall i, j :: 0 <= i < j < |g| ==> g[i].value != g[j].value
  }

  lemma NoRepeatsExtends(g: seq<Obs>, o: Obs)
    requires NoRepeats(g) && forall x :: x in g ==> x.value != o.value
    ensures NoRepeats(g + [o])
  {
  }

  lemma {:induction false} GroupFromBurst(r: Rule, fold: Fold, evs: seq<Event>, key: string)
    requires DistinctValues(r, evs)
    ensures forall o :: o in Group(r, fold, evs, key) ==> FromBurst(r, evs, o)
    ensures r.distinct.Some? ==> NoRepeats(Group(r, fold, evs, key))
  {
    if evs != [] {
      var n := |evs| - 1;
      GroupFromBurst(r, fold, evs[..n], key);
      var earlier := Group(r, fold, evs[..n], key);
      forall o | o in earlier
        ensures FromBurst(r, evs, o) && (r.distinct.Some? ==> o.value != Observe(r, evs[n]).value)
      {
        assert FromBurst(r, evs[..n], o);
        var j :| 0 <= j < n && o == Observe(r, evs[..n][j]);
        assert o == Observe(r, evs[j]);
      }
      assert FromBurst(r, evs, Observe(r, evs[n]));
      if r.distinct.Some? {
        NoRepeatsExtends(earlier, Observe(r, evs[n]));
      }
    }
  }

  /** Every event is within a window of every other. */
  predicate OneWindow(r: Rule, evs: seq<Event>) {
    forall i, j :: 0 <= i < |evs| && 0 <= j < |evs| ==> evs[i].time >= evs[j].time - r.window
  }

  /** Events share a group exactly when `digit` puts them together. */
  ghost predicate KeyedBy(r: Rule, fold: Fold, evs: seq<Event>, digit: nat -> nat) {
    (forall i :: 0 <= i < |evs| ==> KeyOf(r, fold, evs[i]).Some?) &&
    (forall i, j :: 0 <= i < |evs| && 0 <= j < |evs| ==>
      (KeyOf(r, fold, evs[i]) == KeyOf(r, fold, evs[j]) <==> digit(i) == digit(j)))
  }

  /** The ranks whose digit is `x`. */
  function SharesDigit(digit: nat -> nat, x: nat): nat -> bool {
    (i: nat) => digit(i) == x
  }

  lemma AlarmIsLoad(r: Rule, fold: Fold, evs: seq<Event>, digit: nat -> nat, k: nat)
    requires r.maxCv.None? && OneWindow(r, evs) && KeyedBy(r, fold, evs, digit) && DistinctValues(r, evs)
    requires k < |evs|
    ensures Alarm(r, fold, evs, k) <==> Load(SharesDigit(digit, digit(k)), k + 1) >= r.threshold
  {
    hide Regular;
    var seen := evs[..k + 1];
    var key := KeyOf(r, fold, evs[k]).value;
    var g := Group(r, fold, seen, key);
    var hit := SharesDigit(digit, digit(k));
    GroupCount(r, fold, seen, key, hit);
    GroupFromBurst(r, fold, seen, key);
    NewestEntry(r, fold, seen, key);
    var from := evs[k].time - r.window;
    forall i | 0 <= i < |g| ensures g[i].time >= from {
      assert FromBurst(r, seen, g[i]);
    }
    LiveIsTail(g, from, 0);
    CountIsLength(r, g);
  }

  /** Inside one window, a plain rule fires iff some key carries its threshold. */
  lemma FiresIffLoaded(r: Rule, fold: Fold, evs: seq<Event>, digit: nat -> nat)
    requires r.maxCv.None? && r.threshold >= 1
    requires OneWindow(r, evs) && KeyedBy(r, fold, evs, digit) && DistinctValues(r, evs)
    ensures Fires(r, fold, evs) <==>
      exists k :: 0 <= k < |evs| && Load(SharesDigit(digit, digit(k)), |evs|) >= r.threshold
  {
    if k :| 0 <= k < |evs| && Alarm(r, fold, evs, k) {
      AlarmIsLoad(r, fold, evs, digit, k);
      LoadMonotone(SharesDigit(digit, digit(k)), k + 1, |evs|);
    }
    if k :| 0 <= k < |evs| && Load(SharesDigit(digit, digit(k)), |evs|) >= r.threshold {
      var last := LastHit(SharesDigit(digit, digit(k)), |evs|);
      AlarmIsLoad(r, fold, evs, digit, last);
    }
  }

  // ---------- setters ----------

  /** The setter gives equally keyed events different keys for different numbers, and
      touches nothing else the rule reads. */
  ghost predicate Moves(r: Rule, fold: Fold, put: Setter) {
    (forall e, x :: Observe(r, put(e, x)) == Observe(r, e)) &&
    (forall e, e', x, y :: KeyOf(r, fold, e).Some? && KeyOf(r, fold, e) == KeyOf(r, fold, e') ==>
      KeyOf(r, fold, put(e, x)).Some? &&
      (KeyOf(r, fold, put(e, x)) == KeyOf(r, fold, put(e', y)) <==> x == y))
  }

  /** The setter changes nothing the rule reads. */
  ghost predicate Ignores(r: Rule, fold: Fold, put: Setter) {
    forall e, x :: KeyOf(r, fold, put(e, x)) == KeyOf(r, fold, e) && Observe(r, put(e, x)) == Observe(r, e)
  }

  /** The rule's key is one of the kinds, at position `m`; no other kind disturbs it. */
  ghost predicate MovedOnlyBy(r: Rule, fold: Fold, order: seq<string>, setters: map<string, Setter>, m: nat) {
    m < |order| &&
    (order[m] in setters ==> Moves(r, fold, setters[order[m]])) &&
    (forall i :: 0 <= i < |order| && i != m && order[i] in setters ==> Ignores(r, fold, setters[order[i]]))
  }

  ghost predicate IgnoresAll(r: Rule, fold: Fold, order: seq<string>, setters: map<string, Setter>) {
    forall i :: 0 <= i < |order| && order[i] in setters ==> Ignores(r, fold, setters[order[i]])
  }

  function StrideBefore(order: seq<string>, counts: map<string, nat>, m: nat): (s: nat)
    requires m <= |order|
    ensures s >= 1
  {
    ProdPositive(RadicesOf(order[..m], counts));
    Prod(RadicesOf(order[..m], counts))
  }

  lemma {:induction false} AssignedIgnored(
    r: Rule, fold: Fold, p: Event, rank: nat, order: seq<string>, counts: map<string, nat>, setters: map<string, Setter>)
    requires Settable(order, counts, setters) && IgnoresAll(r, fold, order, setters)
    ensures KeyOf(r, fold, Assigned(p, rank, order, counts, setters)) == KeyOf(r, fold, p)
    ensures Observe(r, Assigned(p, rank, order, counts, setters)) == Observe(r, p)
  {
    if order != [] {
      var n := |order| - 1;
      assert forall i :: 0 <= i < n ==> order[..n][i] == order[i];
      AssignedIgnored(r, fold, p, rank, order[..n], counts, setters);
    }
  }

  /** The last kind writes its digit, or nothing. */
  lemma AssignedLast(p: Event, rank: nat, order: seq<string>, counts: map<string, nat>, setters: map<string, Setter>)
    requires Settable(order, counts, setters) && order != []
    ensures var n := |order| - 1;
      var before, k := Assigned(p, rank, order[..n], counts, setters), KeysOf(order[n], counts);
      Assigned(p, rank, order, counts, setters) ==
        if k > 1 then setters[order[n]](before, rank / StrideBefore(order, counts, n) % k) else before
  {
  }

  lemma MovesAt(r: Rule, fold: Fold, put: Setter, e: Event, e': Event, x: nat, y: nat)
    requires Moves(r, fold, put) && KeyOf(r, fold, e).Some? && KeyOf(r, fold, e) == KeyOf(r, fold, e')
    ensures Observe(r, put(e, x)) == Observe(r, e) && KeyOf(r, fold, put(e, x)).Some?
    ensures KeyOf(r, fold, put(e, x)) == KeyOf(r, fold, put(e', y)) <==> x == y
  {
  }

  lemma IgnoresAt(r: Rule, fold: Fold, put: Setter, e: Event, x: nat)
    requires Ignores(r, fold, put)
    ensures KeyOf(r, fold, put(e, x)) == KeyOf(r, fold, e) && Observe(r, put(e, x)) == Observe(r, e)
  {
  }

  /** Dropping the last kind keeps who moves the rule. */
  lemma MovedOnlyPrefix(
    r: Rule, fold: Fold, order: seq<string>, counts: map<string, nat>, setters: map<string, Setter>, m: nat)
    requires Settable(order, counts, setters) && MovedOnlyBy(r, fold, order, setters, m)
    ensures var n := |order| - 1;
      Settable(order[..n], counts, setters) &&
      if m == n then IgnoresAll(r, fold, order[..n], setters)
      else
        MovedOnlyBy(r, fold, order[..n], setters, m) &&
        (KeysOf(order[n], counts) > 1 ==> order[n] in setters && Ignores(r, fold, setters[order[n]]))
  {
    hide Moves, Ignores, KeysOf;
    var n := |order| - 1;
    assert forall x :: 0 <= x < n ==> order[..n][x] == order[x];
  }

  lemma MoverMoves(
    r: Rule, fold: Fold, order: seq<string>, counts: map<string, nat>, setters: map<string, Setter>, m: nat)
    requires Settable(order, counts, setters) && MovedOnlyBy(r, fold, order, setters, m)
    ensures KeysOf(order[m], counts) > 1 ==> order[m] in setters && Moves(r, fold, setters[order[m]])
  {
    hide Moves, Ignores, KeysOf;
  }

  /** The rule still reads a moved event the way it did, and keys it. */
  lemma {:induction false} AssignedObserved(
    r: Rule, fold: Fold, p: Event, i: nat,
    order: seq<string>, counts: map<string, nat>, setters: map<string, Setter>, m: nat)
    requires Settable(order, counts, setters) && MovedOnlyBy(r, fold, order, setters, m)
    requires KeyOf(r, fold, p).Some?
    ensures Observe(r, Assigned(p, i, order, counts, setters)) == Observe(r, p)
    ensures KeyOf(r, fold, Assigned(p, i, order, counts, setters)).Some?
  {
    hide KeyOf, Observe, Moves, Ignores, IgnoresAll, Assigned, Settable, KeysOf, StrideBefore;
    var n := |order| - 1;
    MovedOnlyPrefix(r, fold, order, counts, setters, m);
    var before := Assigned(p, i, order[..n], counts, setters);
    var digit := i / StrideBefore(order, counts, n) % KeysOf(order[n], counts);
    AssignedLast(p, i, order, counts, setters);
    if m == n {
      AssignedIgnored(r, fold, p, i, order[..n], counts, setters);
      MoverMoves(r, fold, order, counts, setters, m);
      if KeysOf(order[n], counts) > 1 {
        MovesAt(r, fold, setters[order[n]], before, before, digit, digit);
      }
    } else {
      AssignedObserved(r, fold, p, i, order[..n], counts, setters, m);
      if KeysOf(order[n], counts) > 1 {
        IgnoresAt(r, fold, setters[order[n]], before, digit);
      }
    }
  }

  /** After the assignment, two events of a singly keyed burst share the rule's group
      iff they carry the same digit of its kind. */
  lemma {:induction false} AssignedKeys(
    r: Rule, fold: Fold, p: Event, q: Event, i: nat, j: nat,
    order: seq<string>, counts: map<string, nat>, setters: map<string, Setter>, m: nat)
    requires Settable(order, counts, setters) && MovedOnlyBy(r, fold, order, setters, m)
    requires KeyOf(r, fold, p).Some? && KeyOf(r, fold, p) == KeyOf(r, fold, q)
    ensures var stride, k := StrideBefore(order, counts, m), KeysOf(order[m], counts);
      KeyOf(r, fold, Assigned(p, i, order, counts, setters)) == KeyOf(r, fold, Assigned(q, j, order, counts, setters))
      <==> i / stride % k == j / stride % k
  {
    hide KeyOf, Observe, Moves, Ignores, IgnoresAll, Assigned, Settable, KeysOf, StrideBefore;
    var n := |order| - 1;
    MovedOnlyPrefix(r, fold, order, counts, setters, m);
    var stride, k := StrideBefore(order, counts, n), KeysOf(order[n], counts);
    var before, before' := Assigned(p, i, order[..n], counts, setters), Assigned(q, j, order[..n], counts, setters);
    AssignedLast(p, i, order, counts, setters);
    AssignedLast(q, j, order, counts, setters);
    if m == n {
      AssignedIgnored(r, fold, p, i, order[..n], counts, setters);
      AssignedIgnored(r, fold, q, j, order[..n], counts, setters);
      MoverMoves(r, fold, order, counts, setters, m);
      if k > 1 {
        MovesAt(r, fold, setters[order[n]], before, before', i / stride % k, j / stride % k);
      } else {
        OneDigit(i / stride, k);
        OneDigit(j / stride, k);
      }
    } else {
      AssignedKeys(r, fold, p, q, i, j, order[..n], counts, setters, m);
      StridePrefix(order, counts, m);
      if k > 1 {
        IgnoresAt(r, fold, setters[order[n]], before, i / stride % k);
        IgnoresAt(r, fold, setters[order[n]], before', j / stride % k);
      }
    }
  }

  lemma OneDigit(x: nat, k: nat)
    requires k == 1
    ensures x % k == 0
  {
  }

  lemma StridePrefix(order: seq<string>, counts: map<string, nat>, m: nat)
    requires m < |order| - 1
    ensures StrideBefore(order[..|order| - 1], counts, m) == StrideBefore(order, counts, m)
  {
    assert order[..|order| - 1][..m] == order[..m];
  }

  ghost predicate IsAssigned(
    out: seq<Event>, burst: seq<Event>, order: seq<string>, counts: map<string, nat>, setters: map<string, Setter>)
    requires Settable(order, counts, setters)
  {
    |out| == |burst| && forall i :: 0 <= i < |out| ==> out[i] == Assigned(burst[i], i, order, counts, setters)
  }

  // ---------- key combinations of the assigned events ----------

  /** One rule for each kind, moved by that kind alone, and all grouping the burst as one. */
  ghost predicate ReadsEach(
    rules: seq<Rule>, fold: Fold, burst: seq<Event>, order: seq<string>, setters: map<string, Setter>)
  {
    |rules| == |order| &&
    forall m :: 0 <= m < |rules| ==>
      MovedOnlyBy(rules[m], fold, order, setters, m) && exists key :: InOneGroup(rules[m], fold, burst, key)
  }

  /** Events `i` and `j` carry the same key of every kind. */
  predicate SameKeys(rules: seq<Rule>, fold: Fold, evs: seq<Event>, i: nat, j: nat)
    requires i < |evs| && j < |evs|
  {
    forall m :: 0 <= m < |rules| ==> KeyOf(rules[m], fold, evs[i]) == KeyOf(rules[m], fold, evs[j])
  }

  /** The digit the assignment writes is the combination's. */
  lemma DigitIsCombo(rank: nat, order: seq<string>, counts: map<string, nat>, m: nat)
    requires m < |order|
    ensures Combo(rank, RadicesOf(order, counts))[m]
      == rank / StrideBefore(order, counts, m) % KeysOf(order[m], counts)
  {
    hide Combo;
    ComboDigit(rank, RadicesOf(order, counts), m);
    assert RadicesOf(order, counts)[..m] == RadicesOf(order[..m], counts);
  }

  /** Two assigned events carry the same keys iff their ranks have the same combination. */
  lemma SameKeysIff(
    rules: seq<Rule>, fold: Fold, burst: seq<Event>, out: seq<Event>,
    order: seq<string>, counts: map<string, nat>, setters: map<string, Setter>, i: nat, j: nat)
    requires Settable(order, counts, setters) && ReadsEach(rules, fold, burst, order, setters)
    requires IsAssigned(out, burst, order, counts, setters) && i < |out| && j < |out|
    ensures SameKeys(rules, fold, out, i, j) <==>
      Combo(i, RadicesOf(order, counts)) == Combo(j, RadicesOf(order, counts))
  {
    hide KeyOf, MovedOnlyBy, Assigned, Combo, Settable, StrideBefore, KeysOf;
    var ks := RadicesOf(order, counts);
    forall m | 0 <= m < |order|
      ensures KeyOf(rules[m], fold, out[i]) == KeyOf(rules[m], fold, out[j]) <==> Combo(i, ks)[m] == Combo(j, ks)[m]
    {
      var key :| InOneGroup(rules[m], fold, burst, key);
      AssignedKeys(rules[m], fold, burst[i], burst[j], i, j, order, counts, setters, m);
      DigitIsCombo(i, order, counts, m);
      DigitIsCombo(j, order, counts, m);
    }
    SameDigits(Combo(i, ks), Combo(j, ks), |order|);
  }

  lemma SameDigits(a: seq<nat>, b: seq<nat>, n: nat)
    requires |a| == n && |b| == n
    ensures a == b <==> forall m :: 0 <= m < n ==> a[m] == b[m]
  {
  }

  /** Any block of as many consecutive events as there are combinations holds every event's
      combination of keys exactly once. */
  lemma BlockHoldsEachOnce(
    rules: seq<Rule>, fold: Fold, burst: seq<Event>, out: seq<Event>,
    order: seq<string>, counts: map<string, nat>, setters: map<string, Setter>, base: nat, i: nat)
    returns (j: nat)
    requires Settable(order, counts, setters) && ReadsEach(rules, fold, burst, order, setters)
    requires IsAssigned(out, burst, order, counts, setters) && i < |out|
    requires base + Prod(RadicesOf(order, counts)) <= |out|
    ensures base <= j < base + Prod(RadicesOf(order, counts)) && SameKeys(rules, fold, out, i, j)
    ensures forall other :: base <= other < base + Prod(RadicesOf(order, counts)) && SameKeys(rules, fold, out, i, other) ==>
      other == j
  {
    hide Settable, ReadsEach, IsAssigned, SameKeys, Combo, Prod, RadicesOf;
    var ks := RadicesOf(order, counts);
    j := BlockHitsOnce(base, Combo(i, ks), ks);
    SizesMatch(burst, out, order, counts, setters);
    forall other | base <= other < base + Prod(ks)
      ensures SameKeys(rules, fold, out, i, other) <==> Combo(i, ks) == Combo(other, ks)
    {
      SameKeysIff(rules, fold, burst, out, order, counts, setters, i, other);
    }
  }

  lemma SizesMatch(
    burst: seq<Event>, out: seq<Event>, order: seq<string>, counts: map<string, nat>, setters: map<string, Setter>)
    requires Settable(order, counts, setters) && IsAssigned(out, burst, order, counts, setters)
    ensures |out| == |burst|
  {
  }

  /** The events that carry all the keys of event `i`. */
  ghost function SharesKeys(rules: seq<Rule>, fold: Fold, evs: seq<Event>, i: nat): nat -> bool
    requires i < |evs|
  {
    (j: nat) => j < |evs| && SameKeys(rules, fold, evs, i, j)
  }

  /** The burst is balanced: each combination of keys is carried by the floor or the ceiling of n
      over the number of combinations, those of the first n modulo that number taking one more. */
  lemma KeysBalanced(
    rules: seq<Rule>, fold: Fold, burst: seq<Event>, out: seq<Event>,
    order: seq<string>, counts: map<string, nat>, setters: map<string, Setter>, i: nat)
    requires Settable(order, counts, setters) && ReadsEach(rules, fold, burst, order, setters)
    requires IsAssigned(out, burst, order, counts, setters) && i < |out|
    ensures var p := Prod(RadicesOf(order, counts));
      p >= 1 &&
      Load(SharesKeys(rules, fold, out, i), |out|) == |out| / p + if i % p < |out| % p then 1 else 0
  {
    hide Settable, ReadsEach, IsAssigned, SameKeys, Combo, RankOf, Prod, RadicesOf;
    var ks := RadicesOf(order, counts);
    var hit: nat -> bool := (j: nat) => Combo(j, ks) == Combo(i, ks);
    forall j: nat | j < |out| ensures SharesKeys(rules, fold, out, i)(j) == hit(j) {
      SameKeysIff(rules, fold, burst, out, order, counts, setters, i, j);
    }
    LoadAgrees(SharesKeys(rules, fold, out, i), hit, |out|);
    RankOfCombo(i, ks);
    BalancedLoad(hit, |out|, Combo(i, ks), ks);
  }

  /** The closed form of a grid cell: after a joint assignment over any number of kinds,
      a plain rule keyed on one of them fires iff the heaviest load on that kind reaches
      its threshold. */
  lemma JointFiresIff(
    r: Rule, fold: Fold, burst: seq<Event>, out: seq<Event>,
    order: seq<string>, counts: map<string, nat>, setters: map<string, Setter>, m: nat)
    requires r.maxCv.None? && r.threshold >= 1 && burst != []
    requires Settable(order, counts, setters) && MovedOnlyBy(r, fold, order, setters, m)
    requires IsAssigned(out, burst, order, counts, setters)
    requires OneWindow(r, burst) && Saturates(r, fold, burst)
    ensures Fires(r, fold, out) <==>
      KindLoad(|burst|, StrideBefore(order, counts, m), KeysOf(order[m], counts)) >= r.threshold
  {
    var stride, k := StrideBefore(order, counts, m), KeysOf(order[m], counts);
    KeysAfter(r, fold, burst, out, order, counts, setters, m);
    FiresIffLoaded(r, fold, out, DigitAt(stride, k));
    SomeKeyLoadedIff(|out|, stride, k, r.threshold);
  }

  lemma SomeKeyLoadedIff(n: nat, stride: nat, k: nat, t: int)
    requires n >= 1 && stride >= 1 && k >= 1
    ensures (exists x :: 0 <= x < n && Load(SharesDigit(DigitAt(stride, k), DigitAt(stride, k)(x)), n) >= t)
      <==> KindLoad(n, stride, k) >= t
  {
    var digit := DigitAt(stride, k);
    forall x: nat
      ensures Load(SharesDigit(digit, digit(x)), n) <= KindLoad(n, stride, k)
    {
      HeaviestDigit(SharesDigit(digit, digit(x)), n, stride, k, digit(x));
    }
    FirstDigit(stride, k);
    HeaviestDigit(SharesDigit(digit, digit(0)), n, stride, k, 0);
  }

  lemma FirstDigit(stride: nat, k: nat)
    requires stride >= 1 && k >= 1
    ensures DigitAt(stride, k)(0) == 0
  {
    QuotientIs(0, stride, 0, 0);
    QuotientIs(0, k, 0, 0);
  }

  /** The digit a rank has at one position. */
  function DigitAt(stride: nat, k: nat): nat -> nat
    requires stride >= 1 && k >= 1
  {
    (i: nat) => i / stride % k
  }

  lemma KeysAfter(
    r: Rule, fold: Fold, burst: seq<Event>, out: seq<Event>,
    order: seq<string>, counts: map<string, nat>, setters: map<string, Setter>, m: nat)
    requires Settable(order, counts, setters) && MovedOnlyBy(r, fold, order, setters, m)
    requires IsAssigned(out, burst, order, counts, setters)
    requires OneWindow(r, burst) && Saturates(r, fold, burst)
    ensures KeyedBy(r, fold, out, DigitAt(StrideBefore(order, counts, m), KeysOf(order[m], counts)))
    ensures OneWindow(r, out) && DistinctValues(r, out)
  {
    var key :| InOneGroup(r, fold, burst, key);
    var digit := DigitAt(StrideBefore(order, counts, m), KeysOf(order[m], counts));
    forall i | 0 <= i < |out|
      ensures KeyOf(r, fold, out[i]).Some? && Observe(r, out[i]) == Observe(r, burst[i])
    {
      AssignedObserved(r, fold, burst[i], i, order, counts, setters, m);
    }
    forall i, j | 0 <= i < |out| && 0 <= j < |out|
      ensures KeyOf(r, fold, out[i]) == KeyOf(r, fold, out[j]) <==> digit(i) == digit(j)
    {
      AssignedKeys(r, fold, burst[i], burst[j], i, j, order, counts, setters, m);
    }
    assert forall i :: 0 <= i < |out| ==> Observe(r, out[i]) == Observe(r, burst[i]);
    assert forall i :: 0 <= i < |out| ==> out[i].time == Observe(r, out[i]).time == burst[i].time;
  }

  /** A rule on another key sees the burst unchanged. */
  lemma UntouchedFires(
    r: Rule, fold: Fold, burst: seq<Event>, out: seq<Event>,
    order: seq<string>, counts: map<string, nat>, setters: map<string, Setter>)
    requires Settable(order, counts, setters) && IgnoresAll(r, fold, order, setters)
    requires IsAssigned(out, burst, order, counts, setters)
    ensures Fires(r, fold, out) <==> Fires(r, fold, burst)
  {
    forall i | 0 <= i < |out|
      ensures KeyOf(r, fold, out[i]) == KeyOf(r, fold, burst[i]) && Observe(r, out[i]) == Observe(r, burst[i])
    {
      AssignedIgnored(r, fold, burst[i], i, order, counts, setters);
    }
    forall k | 0 <= k < |out|
      ensures Alarm(r, fold, out, k) <==> Alarm(r, fold, burst, k)
    {
      if KeyOf(r, fold, out[k]).Some? {
        SameGroup(r, fold, out[..k + 1], burst[..k + 1], KeyOf(r, fold, out[k]).value);
      }
    }
  }

  lemma {:induction false} SameGroup(r: Rule, fold: Fold, a: seq<Event>, b: seq<Event>, key: string)
    requires |a| == |b|
    requires forall i :: 0 <= i < |a| ==> KeyOf(r, fold, a[i]) == KeyOf(r, fold, b[i]) && Observe(r, a[i]) == Observe(r, b[i])
    ensures Group(r, fold, a, key) == Group(r, fold, b, key)
  {
    if a != [] {
      SameGroup(r, fold, a[..|a| - 1], b[..|b| - 1], key);
    }
  }
}
