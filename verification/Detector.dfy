/** The independent window predictor: would a stateful rule fire on a list of
    normalised events, taken in arrival order? */
module Detector {
  import opened Common

  /** A normalised event: its time in milliseconds and the value at each dotted path. */
  datatype Event = Event(time: int, fields: map<string, string>)

  /** A rule's declared parameters. `maxCv` is present for a periodicity rule. */
  datatype Rule = Rule(
    threshold: int,
    window: int,
    groupBy: string,
    distinct: Option<string>,
    maxCv: Option<real>)

  /** Account canonicalisation: any function that strips and folds an account name. */
  type Fold = string -> string

  /** What one event leaves in the list of its group. */
  datatype Obs = Obs(time: int, value: Option<string>)

  const ACCOUNT_KEYS: set<string> := {"actor.user.name", "unmapped.target_user.name"}

  function Dig(ev: Event, path: string): Option<string> {
    if path in ev.fields then Some(ev.fields[path]) else None
  }

  /** The group an event counts in, or None when the rule passes it over. */
  function KeyOf(r: Rule, fold: Fold, ev: Event): Option<string> {
    match Dig(ev, r.groupBy)
    case None => None
    case Some(g) =>
      if r.distinct.Some? && Dig(ev, r.distinct.value).None? then None
      else if r.groupBy in ACCOUNT_KEYS then Some(fold(g))
      else Some(g)
  }

  function Observe(r: Rule, ev: Event): Obs {
    Obs(ev.time, if r.distinct.Some? then Dig(ev, r.distinct.value) else None)
  }

  /** The list a group has accumulated once all of `evs` have arrived. */
  function Group(r: Rule, fold: Fold, evs: seq<Event>, key: string): seq<Obs> {
    if evs == [] then []
    else
      var n := |evs| - 1;
      var earlier := Group(r, fold, evs[..n], key);
      if KeyOf(r, fold, evs[n]) == Some(key) then earlier + [Observe(r, evs[n])] else earlier
  }

  /** The entries no older than `from`. */
  function Live(obs: seq<Obs>, from: int): seq<Obs> {
    if obs == [] then []
    else
      var n := |obs| - 1;
      if obs[n].time >= from then Live(obs[..n], from) + [obs[n]] else Live(obs[..n], from)
  }

  function Values(obs: seq<Obs>): set<Option<string>> {
    set o | o in obs :: o.value
  }

  function Count(r: Rule, live: seq<Obs>): nat {
    if r.distinct.Some? then |Values(live)| else |live|
  }

  // ---------- coefficient of variation ----------

  function Times(obs: seq<Obs>): seq<int> {
    seq(|obs|, i requires 0 <= i < |obs| => obs[i].time)
  }

  function InsertTime(sorted: seq<int>, t: int): seq<int> {
    if sorted == [] || sorted[|sorted| - 1] <= t then sorted + [t]
    else InsertTime(sorted[..|sorted| - 1], t) + [sorted[|sorted| - 1]]
  }

  function SortTimes(ts: seq<int>): seq<int> {
    if ts == [] then [] else InsertTime(SortTimes(ts[..|ts| - 1]), ts[|ts| - 1])
  }

  function Sum(xs: seq<real>): real {
    if xs == [] then 0.0 else Sum(xs[..|xs| - 1]) + xs[|xs| - 1]
  }

  function Deltas(ts: seq<int>): seq<real> {
    if |ts| < 2 then [] else seq(|ts| - 1, i requires 0 <= i < |ts| - 1 => (ts[i + 1] - ts[i]) as real)
  }

  function Mean(xs: seq<real>): real
    requires |xs| > 0
  {
    Sum(xs) / |xs| as real
  }

  function Product(x: real, y: real): (r: real)
    ensures x > 0.0 && y > 0.0 ==> r > 0.0
  {
    x * y
  }

  function Square(x: real): real {
    Product(x, x)
  }

  function SquaredDeviations(xs: seq<real>, mean: real): seq<real> {
    seq(|xs|, i requires 0 <= i < |xs| => Square(xs[i] - mean))
  }

  /** The SQUARE of the coefficient of variation of the gaps between `ts`
      (population variance over squared mean); None where it is undefined. */
  function CvSquared(ts: seq<int>): Option<real> {
    if |ts| < 3 then None
    else
      var deltas := Deltas(ts);
      var mean := Mean(deltas);
      if mean <= 0.0 then None
      else Some(Mean(SquaredDeviations(deltas, mean)) / Square(mean))
  }

  /** The comparison of the coefficient itself with its bound, squared on both sides. */
  predicate Regular(ts: seq<int>, maxCv: real) {
    var cv2 := CvSquared(ts);
    cv2.Some? && maxCv >= 0.0 && cv2.value <= Square(maxCv)
  }

  // ---------- firing ----------

  /** Does the rule fire at the newest entry of a group? */
  predicate FiresAtEnd(r: Rule, obs: seq<Obs>)
    requires obs != []
  {
    var live := Live(obs, obs[|obs| - 1].time - r.window);
    Count(r, live) >= r.threshold &&
    (r.maxCv.Some? ==> Regular(SortTimes(Times(live)), r.maxCv.value))
  }

  /** Does the rule fire when event number `k` arrives? */
  predicate Alarm(r: Rule, fold: Fold, evs: seq<Event>, k: nat)
    requires k < |evs|
  {
    var key := KeyOf(r, fold, evs[k]);
    key.Some? &&
    (assert evs[..k + 1][..k] == evs[..k];
     FiresAtEnd(r, Group(r, fold, evs[..k + 1], key.value)))
  }

  predicate Fires(r: Rule, fold: Fold, evs: seq<Event>) {
    exists k :: 0 <= k < |evs| && Alarm(r, fold, evs, k)
  }

  predicate FiresSet(rules: seq<Rule>, fold: Fold, evs: seq<Event>) {
    exists r :: r in rules && Fires(r, fold, evs)
  }

  /** The predictor as it runs: one pass, a growing list per group, an early return. */
  method PredictRule(r: Rule, fold: Fold, evs: seq<Event>) returns (fired: bool)
    ensures fired <==> Fires(r, fold, evs)
  {
    hide KeyOf, Observe, FiresAtEnd;
    var groups: map<string, seq<Obs>> := map[];
    for i := 0 to |evs|
      invariant forall key :: key in groups ==> groups[key] == Group(r, fold, evs[..i], key)
      invariant forall key :: key !in groups ==> Group(r, fold, evs[..i], key) == []
      invariant forall k :: 0 <= k < i ==> !Alarm(r, fold, evs, k)
    {
      assert evs[..i + 1][..i] == evs[..i];
      var key := KeyOf(r, fold, evs[i]);
      if key.Some? {
        var lst := (if key.value in groups then groups[key.value] else []) + [Observe(r, evs[i])];
        groups := groups[key.value := lst];
        assert lst == Group(r, fold, evs[..i + 1], key.value);
        if FiresAtEnd(r, lst) {
          assert Alarm(r, fold, evs, i);
          return true;
        }
      }
    }
    assert evs[..|evs|] == evs;
    return false;
  }

  method PredictSet(rules: seq<Rule>, fold: Fold, evs: seq<Event>) returns (fired: bool)
    ensures fired <==> FiresSet(rules, fold, evs)
  {
    for i := 0 to |rules|
      invariant forall j :: 0 <= j < i ==> !Fires(rules[j], fold, evs)
    {
      var f := PredictRule(rules[i], fold, evs);
      if f {
        return true;
      }
    }
    return false;
  }
}
