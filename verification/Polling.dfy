/** The live companion's wait helpers: anchor, then a settled alert set, then the negative
    assertions. The search and the clock are what the environment answers. */
module Polling {
  import opened Common

  datatype Alert = Alert(alertId: Option<string>, ruleId: Option<string>)

  /** The `k`-th search: None is a failed query. */
  type Searches = nat -> Option<seq<Alert>>

  /** The clock after the `k`-th search, and when a helper starts before search `k`. */
  datatype Clock = Clock(after: nat -> real, start: nat -> real)

  /** Time only moves forward, and sleeping between polls takes at least `poll`. */
  ghost predicate Ticks(clock: Clock, poll: real) {
    poll > 0.0 &&
    (forall k: nat :: clock.after(k + 1) >= clock.after(k) + poll) &&
    (forall k: nat :: clock.start(k) <= clock.after(k))
  }

  // ---------- the identity of an alert set ----------

  function Identity(a: Alert): string {
    if a.alertId.Some? && a.alertId.value != "" then a.alertId.value
    else if a.ruleId.Some? then a.ruleId.value
    else "None"
  }

  /** Order-insensitive: the sorted tuple of identities, as a multiset. */
  function Signature(alerts: seq<Alert>): multiset<string> {
    if alerts == [] then multiset{} else multiset{Identity(alerts[0])} + Signature(alerts[1..])
  }

  predicate Successful(search: Searches, k: nat) {
    search(k).Some? && search(k).value != []
  }

  predicate HasRule(alerts: seq<Alert>, rule: string) {
    exists i :: 0 <= i < |alerts| && alerts[i].ruleId == Some(rule)
  }

  predicate Anchors(search: Searches, rule: string, k: nat) {
    search(k).Some? && HasRule(search(k).value, rule)
  }

  predicate InTime(clock: Clock, from: nat, t0: real, limit: real, k: nat)
    requires from <= k
  {
    forall j :: from <= j < k ==> clock.after(j) - t0 < limit
  }

  /** Polls are few: all but the last ended before the limit. */
  lemma {:induction false} PollsAreBounded(clock: Clock, poll: real, from: nat, k: nat)
    requires Ticks(clock, poll) && from <= k
    ensures clock.after(k) >= clock.after(from) + (k - from) as real * poll
  {
    if from < k {
      PollsAreBounded(clock, poll, from, k - 1);
      assert (k - from) as real == (k - 1 - from) as real + 1.0;
      OneMore((k - 1 - from) as real, poll);
    }
  }

  /** Whichever helper ran, all its polls but the last fit in the time limit. */
  lemma PollCount(clock: Clock, poll: real, from: nat, limit: real, last: nat)
    requires Ticks(clock, poll) && from < last && InTime(clock, from, clock.start(from), limit, last)
    ensures (last - 1 - from) as real * poll < limit
  {
    PollsAreBounded(clock, poll, from, last - 1);
    assert clock.after(last - 1) - clock.start(from) < limit;
  }

  lemma OneMore(x: real, c: real)
    ensures (x + 1.0) * c == x * c + c
  {
  }

  /** Waiting ends: from some poll on, the limit has passed. */
  lemma LimitPasses(clock: Clock, poll: real, from: nat, limit: real) returns (bound: nat)
    requires Ticks(clock, poll)
    ensures forall k: nat :: k >= bound ==> clock.after(k) - clock.start(from) >= limit
  {
    var left := limit - (clock.after(from) - clock.start(from));
    var n: nat := EnoughPolls(left, poll);
    bound := from + n;
    forall k: nat | k >= bound ensures clock.after(k) - clock.start(from) >= limit {
      PollsAreBounded(clock, poll, from, k);
      LessProduct(n as real, (k - from) as real, poll);
    }
  }

  lemma EnoughPolls(left: real, poll: real) returns (n: nat)
    requires poll > 0.0
    ensures n as real * poll >= left
  {
    var q := left / poll;
    assert q * poll == left;
    n := Max(0, q.Floor + 1);
    LessProduct(q, n as real, poll);
  }

  /** Searches `from`, `from + 1`, ... up to the first that anchors, or out of time. */
  method WaitForAnchor(search: Searches, rule: string, timeout: real, ghost poll: real, clock: Clock, from: nat)
    returns (found: bool, seen: seq<Alert>, last: nat)
    requires Ticks(clock, poll)
    ensures from <= last && InTime(clock, from, clock.start(from), timeout, last)
    ensures found ==> Anchors(search, rule, last) && seen == search(last).value
    ensures !found ==> clock.after(last) - clock.start(from) >= timeout
    ensures forall j :: from <= j <= last && (found ==> j < last) ==> !Anchors(search, rule, j)
  {
    var t0 := clock.start(from);
    ghost var bound := LimitPasses(clock, poll, from, timeout);
    hide Ticks;
    last := from;
    seen := [];
    while true
      invariant from <= last && InTime(clock, from, t0, timeout, last)
      invariant forall j :: from <= j < last ==> !Anchors(search, rule, j)
      decreases bound - last
    {
      var a := search(last);
      if a.Some? {
        seen := a.value;
        if HasRule(seen, rule) {
          return true, seen, last;
        }
      }
      if clock.after(last) - t0 >= timeout {
        return false, seen, last;
      }
      last := last + 1;
    }
  }

  lemma LessProduct(x: real, y: real, c: real)
    requires x <= y && c > 0.0
    ensures x * c <= y * c
  {
  }

  // ---------- settling ----------

  /** Two successful polls saw the same alert set. */
  predicate Agrees(search: Searches, i: nat, k: nat) {
    Successful(search, i) && Successful(search, k) && Signature(search(i).value) == Signature(search(k).value)
  }

  /** How many successful polls of one signature end at poll `k`. */
  function RunAt(search: Searches, from: nat, k: nat): nat
    requires from <= k
    decreases k
  {
    if !Successful(search, k) then 0
    else if k > from && Agrees(search, k - 1, k) then RunAt(search, from, k - 1) + 1
    else 1
  }

  /** The last `n` polls up to `k` all succeeded, were non-empty, and agreed. */
  predicate StableRun(search: Searches, from: nat, k: nat, n: nat) {
    k + 1 >= from + n && forall i: nat :: k + 1 - n <= i <= k ==> Agrees(search, i, k)
  }

  lemma LastAgree(search: Searches, from: nat, k: nat, n: nat)
    requires n >= 1 && from <= k
    ensures StableRun(search, from, k, n) ==> Agrees(search, k, k) && (n > 1 && k > from ==> Agrees(search, k - 1, k))
  {
    hide Agrees;
    if n > 1 && k > from {
      var p: nat := k - 1;
      assert k + 1 - n <= p;
    }
  }

  lemma {:induction false} RunMeansStable(search: Searches, from: nat, k: nat, n: nat)
    requires from <= k && n >= 1
    ensures RunAt(search, from, k) >= n <==> StableRun(search, from, k, n)
    decreases k
  {
    hide Signature;
    if Successful(search, k) && n > 1 && k > from && Agrees(search, k - 1, k) {
      RunMeansStable(search, from, k - 1, n - 1);
      assert Agrees(search, k, k);
      if StableRun(search, from, k - 1, n - 1) {
        forall i: nat | k + 1 - n <= i <= k ensures Agrees(search, i, k) {
          assert i < k ==> Agrees(search, i, k - 1);
        }
      }
      if StableRun(search, from, k, n) {
        var p: nat := k - 1;
        forall i: nat | k + 1 - n <= i <= p ensures Agrees(search, i, p) {
          assert Agrees(search, i, k);
        }
      }
    } else {
      LastAgree(search, from, k, n);
    }
  }

  /** The newest successful poll's alerts. */
  function LatestAlerts(search: Searches, from: nat, k: nat): seq<Alert>
    decreases k
  {
    if k <= from then []
    else if Successful(search, k - 1) then search(k - 1).value
    else LatestAlerts(search, from, k - 1)
  }

  /** Polls from `from` until the run is long enough, or out of time. */
  method Settle(search: Searches, stablePolls: int, limit: real, ghost poll: real, clock: Clock, from: nat)
    returns (alerts: seq<Alert>, settled: bool, last: nat)
    requires Ticks(clock, poll)
    ensures from <= last && InTime(clock, from, clock.start(from), limit, last)
    ensures settled <==> StableRun(search, from, last, Max(1, stablePolls))
    ensures forall j :: from <= j < last ==> !StableRun(search, from, j, Max(1, stablePolls))
    ensures !settled ==> clock.after(last) - clock.start(from) >= limit
    ensures alerts == LatestAlerts(search, from, last + 1)
  {
    hide Signature, StableRun;
    var t0 := clock.start(from);
    ghost var bound := LimitPasses(clock, poll, from, limit);
    hide Ticks;
    var need: nat := Max(1, stablePolls);
    last := from;
    alerts := [];
    var run := 0;
    var lastSig: Option<multiset<string>> := None;
    while true
      invariant from <= last && InTime(clock, from, t0, limit, last)
      invariant run == if last == from then 0 else RunAt(search, from, last - 1)
      invariant alerts == LatestAlerts(search, from, last)
      invariant last > from && Successful(search, last - 1) ==> lastSig == Some(Signature(search(last - 1).value))
      invariant forall j :: from <= j < last ==> RunAt(search, from, j) < need
      decreases bound - last
    {
      var a := search(last);
      if a.Some? && a.value != [] {
        var sig := Signature(a.value);
        run := if lastSig == Some(sig) then run + 1 else 1;
        lastSig := Some(sig);
        alerts := a.value;
        assert run == RunAt(search, from, last);
        if run >= stablePolls {
          AllRuns(search, from, last, need);
          return alerts, true, last;
        }
      } else {
        run := 0;
      }
      if clock.after(last) - t0 >= limit {
        AllRuns(search, from, last, need);
        return alerts, false, last;
      }
      last := last + 1;
    }
  }

  lemma AllRuns(search: Searches, from: nat, k: nat, n: nat)
    requires from <= k && n >= 1
    ensures forall j :: from <= j <= k ==> (RunAt(search, from, j) >= n <==> StableRun(search, from, j, n))
  {
    forall j | from <= j <= k ensures RunAt(search, from, j) >= n <==> StableRun(search, from, j, n) {
      RunMeansStable(search, from, j, n);
    }
  }

  // ---------- the verdict ----------

  datatype Failure = NoAnchor | Unsettled | Forbidden(message: string)

  /** `a` is the first poll that shows the anchor, in time. */
  predicate AnchorAt(search: Searches, clock: Clock, rule: string, timeout: real, a: nat) {
    Anchors(search, rule, a) && InTime(clock, 0, clock.start(0), timeout, a) &&
    forall j :: 0 <= j < a ==> !Anchors(search, rule, j)
  }

  /** `k` is the first poll after `a` that completes a stable run, in time. */
  predicate SettledAt(search: Searches, clock: Clock, stablePolls: int, timeout: real, a: nat, k: nat) {
    a < k && StableRun(search, a + 1, k, Max(1, stablePolls)) &&
    InTime(clock, a + 1, clock.start(a + 1), timeout, k) &&
    forall j {:trigger StableRun(search, a + 1, j, Max(1, stablePolls))} ::
      a < j < k ==> !StableRun(search, a + 1, j, Max(1, stablePolls))
  }

  /** Anchor, settle, then the negative assertions; `mustNot` maps rules to messages. */
  method Evaluate(
    search: Searches, rule: string, mustNot: map<string, string>, timeout: real, stablePolls: int,
    ghost poll: real, clock: Clock, fails0: seq<Failure>)
    returns (alerts: seq<Alert>, fails: seq<Failure>)
    requires Ticks(clock, poll)
    ensures fails0 <= fails
    ensures fails == fails0 <==>
      exists a: nat, k: nat ::
        AnchorAt(search, clock, rule, timeout, a) && SettledAt(search, clock, stablePolls, timeout, a, k) &&
        search(k).Some? && forall r :: r in mustNot ==> !HasRule(search(k).value, r)
    ensures forall a: nat, k: nat ::
      AnchorAt(search, clock, rule, timeout, a) && SettledAt(search, clock, stablePolls, timeout, a, k) ==>
      search(k) == Some(alerts) && alerts != []
  {
    fails := fails0;
    var found, seen, a := WaitForAnchor(search, rule, timeout, poll, clock, 0);
    if !found {
      forall a': nat ensures !AnchorAt(search, clock, rule, timeout, a') {
        if a' > a {
          assert clock.after(a) - clock.start(0) >= timeout;
        }
      }
      return seen, fails + [NoAnchor];
    }
    assert AnchorAt(search, clock, rule, timeout, a);
    forall a': nat | AnchorAt(search, clock, rule, timeout, a') ensures a' == a {
    }
    var settled, k;
    alerts, settled, k := Settle(search, stablePolls, timeout, poll, clock, a + 1);
    forall k': nat | SettledAt(search, clock, stablePolls, timeout, a, k') ensures settled && k' == k {
    }
    if !settled {
      return alerts, fails + [Unsettled];
    }
    assert SettledAt(search, clock, stablePolls, timeout, a, k);
    assert Agrees(search, k, k);
    var todo := mustNot.Keys;
    while todo != {}
      invariant todo <= mustNot.Keys && fails0 <= fails
      invariant fails == fails0 <==> forall r :: r in mustNot && r !in todo ==> !HasRule(alerts, r)
      decreases todo
    {
      var r :| r in todo;
      todo := todo - {r};
      if HasRule(alerts, r) {
        fails := fails + [Forbidden(mustNot[r])];
      }
    }
  }

  /** What is kept when time runs out: the newest successful poll, or nothing. */
  lemma {:induction false} LatestIs(search: Searches, from: nat, k: nat)
    requires from <= k
    ensures LatestAlerts(search, from, k) == [] <==> forall j: nat :: from <= j < k ==> !Successful(search, j)
    ensures forall j: nat :: from <= j < k && Successful(search, j) && (forall i: nat :: j < i < k ==> !Successful(search, i)) ==>
      LatestAlerts(search, from, k) == search(j).value
    decreases k
  {
    if from < k {
      hide Signature;
      LatestIs(search, from, k - 1);
    }
  }

  // ---------- agreement on the alerts' own fields ----------

  /** Every alert carries an id of its own. */
  predicate AllIds(alerts: seq<Alert>) {
    forall i :: 0 <= i < |alerts| ==> alerts[i].alertId.Some? && alerts[i].alertId.value != ""
  }

  /** No alert does, and every one names its rule. */
  predicate OnlyRules(alerts: seq<Alert>) {
    forall i :: 0 <= i < |alerts| ==>
      (alerts[i].alertId.None? || alerts[i].alertId.value == "") && alerts[i].ruleId.Some?
  }

  function AlertIds(alerts: seq<Alert>): seq<string>
    requires AllIds(alerts)
  {
    seq(|alerts|, i requires 0 <= i < |alerts| => alerts[i].alertId.value)
  }

  function RuleIds(alerts: seq<Alert>): seq<string>
    requires OnlyRules(alerts)
  {
    seq(|alerts|, i requires 0 <= i < |alerts| => alerts[i].ruleId.value)
  }

  lemma {:induction false} SignatureOfAlertIds(alerts: seq<Alert>)
    requires AllIds(alerts)
    ensures Signature(alerts) == multiset(AlertIds(alerts))
  {
    if alerts != [] {
      hide AllIds;
      TailIds(alerts);
      SignatureOfAlertIds(alerts[1..]);
      FirstCounts(alerts[0].alertId.value, AlertIds(alerts[1..]));
    }
  }

  lemma TailIds(alerts: seq<Alert>)
    requires alerts != [] && AllIds(alerts)
    ensures AllIds(alerts[1..]) && alerts[0].alertId.Some? && Identity(alerts[0]) == alerts[0].alertId.value
    ensures AlertIds(alerts) == [alerts[0].alertId.value] + AlertIds(alerts[1..])
  {
    assert alerts[0].alertId.Some?;
  }

  lemma {:induction false} SignatureOfRuleIds(alerts: seq<Alert>)
    requires OnlyRules(alerts)
    ensures Signature(alerts) == multiset(RuleIds(alerts))
  {
    if alerts != [] {
      hide OnlyRules;
      TailRules(alerts);
      SignatureOfRuleIds(alerts[1..]);
      FirstCounts(alerts[0].ruleId.value, RuleIds(alerts[1..]));
    }
  }

  lemma TailRules(alerts: seq<Alert>)
    requires alerts != [] && OnlyRules(alerts)
    ensures OnlyRules(alerts[1..]) && alerts[0].ruleId.Some? && Identity(alerts[0]) == alerts[0].ruleId.value
    ensures RuleIds(alerts) == [alerts[0].ruleId.value] + RuleIds(alerts[1..])
  {
    assert alerts[0].ruleId.Some?;
  }

  lemma FirstCounts(x: string, rest: seq<string>)
    ensures multiset([x] + rest) == multiset{x} + multiset(rest)
  {
  }

  /** The alert shows the id `x`: its own, or its rule's when it has none. */
  predicate Shows(a: Alert, x: string) {
    if a.alertId.None? || a.alertId == Some("") then a.ruleId == Some(x) || (a.ruleId.None? && x == "None")
    else a.alertId == Some(x)
  }

  lemma {:induction false} SignatureGrows(alerts: seq<Alert>, last: Alert)
    ensures Signature(alerts + [last]) == Signature(alerts) + multiset{Identity(last)}
  {
    if alerts == [] {
      assert [last][1..] == [] && alerts + [last] == [last];
    } else {
      assert (alerts + [last])[1..] == alerts[1..] + [last];
      SignatureGrows(alerts[1..], last);
    }
  }

  /** Mixed polls too: the signature counts, for each id, the alerts that show it. */
  lemma {:induction false} SignatureCounts(alerts: seq<Alert>, x: string)
    ensures Signature(alerts)[x] == |set i | 0 <= i < |alerts| && Shows(alerts[i], x)|
  {
    if alerts != [] {
      hide Identity, Shows, Signature;
      var n, earlier := |alerts| - 1, alerts[..|alerts| - 1];
      SignatureCounts(earlier, x);
      SignatureGrows(earlier, alerts[n]);
      ShowsIdentity(alerts[n], x);
      assert alerts == earlier + [alerts[n]];
      PositionsGrow(earlier, alerts[n], x);
    }
  }

  lemma PositionsGrow(alerts: seq<Alert>, last: Alert, x: string)
    ensures |set i | 0 <= i < |alerts + [last]| && Shows((alerts + [last])[i], x)|
      == |set i | 0 <= i < |alerts| && Shows(alerts[i], x)| + if Shows(last, x) then 1 else 0
  {
    hide Shows;
    var all := alerts + [last];
    assert (set i | 0 <= i < |all| && Shows(all[i], x)) ==
      (set i | 0 <= i < |alerts| && Shows(alerts[i], x)) + if Shows(last, x) then {|alerts|} else {};
  }

  lemma ShowsIdentity(a: Alert, x: string)
    ensures Shows(a, x) <==> Identity(a) == x
  {
  }

  /** Two non-empty polls agree iff they show the same alert ids, as often, in any order; or the
      same rule ids, where alerts carry no id. */
  lemma AgreesIffSame(search: Searches, i: nat, k: nat)
    requires search(i).Some? && search(k).Some? && search(i).value != [] && search(k).value != []
    ensures AllIds(search(i).value) && AllIds(search(k).value) ==>
      (Agrees(search, i, k) <==> multiset(AlertIds(search(i).value)) == multiset(AlertIds(search(k).value)))
    ensures OnlyRules(search(i).value) && OnlyRules(search(k).value) ==>
      (Agrees(search, i, k) <==> multiset(RuleIds(search(i).value)) == multiset(RuleIds(search(k).value)))
  {
    hide Signature;
    var a, b := search(i).value, search(k).value;
    if AllIds(a) && AllIds(b) {
      SignatureOfAlertIds(a);
      SignatureOfAlertIds(b);
    }
    if OnlyRules(a) && OnlyRules(b) {
      SignatureOfRuleIds(a);
      SignatureOfRuleIds(b);
    }
  }

  /** Poll `i` shows the same alert ids as poll `k`, and some. */
  predicate SameAlertIds(search: Searches, i: nat, k: nat)
    requires search(i).Some? ==> AllIds(search(i).value)
    requires search(k).Some? ==> AllIds(search(k).value)
  {
    search(i).Some? && search(k).Some? && search(i).value != [] &&
    multiset(AlertIds(search(i).value)) == multiset(AlertIds(search(k).value))
  }

  /** A run is stable iff its last `n` polls all show the same alert ids, and some, when every
      alert carries one. */
  lemma StableIffSameIds(search: Searches, from: nat, k: nat, n: nat)
    requires n >= 1 && k + 1 >= from + n
    requires forall i: nat :: k + 1 - n <= i <= k && search(i).Some? ==> AllIds(search(i).value)
    ensures StableRun(search, from, k, n) <==>
      forall i: nat :: k + 1 - n <= i <= k ==> SameAlertIds(search, i, k)
  {
    hide Signature;
    forall i: nat | k + 1 - n <= i <= k ensures Agrees(search, i, k) <==> SameAlertIds(search, i, k) {
      SameIdsAgree(search, i, k);
    }
  }

  lemma SameIdsAgree(search: Searches, i: nat, k: nat)
    requires search(i).Some? ==> AllIds(search(i).value)
    requires search(k).Some? ==> AllIds(search(k).value)
    ensures Agrees(search, i, k) <==> SameAlertIds(search, i, k)
  {
    hide Signature;
    if search(i).Some? && search(k).Some? {
      SignatureOfAlertIds(search(i).value);
      SignatureOfAlertIds(search(k).value);
      SameSizes(search(i).value, search(k).value);
    }
  }

  lemma SameSizes(a: seq<Alert>, b: seq<Alert>)
    requires AllIds(a) && AllIds(b)
    ensures multiset(AlertIds(a)) == multiset(AlertIds(b)) ==> |a| == |b|
  {
    assert |multiset(AlertIds(a))| == |a| && |multiset(AlertIds(b))| == |b|;
  }

  // ---------- what a settled run says of its anchor ----------

  lemma {:induction false} SignatureHolds(alerts: seq<Alert>, id: string)
    ensures id in Signature(alerts) <==> exists i :: 0 <= i < |alerts| && Identity(alerts[i]) == id
  {
    if alerts != [] {
      SignatureHolds(alerts[1..], id);
      if i :| 0 <= i < |alerts| && Identity(alerts[i]) == id {
        assert i > 0 ==> Identity(alerts[1..][i - 1]) == id;
      }
      if i :| 0 <= i < |alerts[1..]| && Identity(alerts[1..][i]) == id {
        assert Identity(alerts[i + 1]) == id;
      }
    }
  }

  /** One alert id never stands for two rules across two sets. */
  predicate SameRules(a: seq<Alert>, b: seq<Alert>) {
    forall x, y :: x in a && y in b && Identity(x) == Identity(y) ==> x.ruleId == y.ruleId
  }

  lemma HasRuleCarries(a: seq<Alert>, b: seq<Alert>, rule: string)
    requires Signature(a) == Signature(b) && SameRules(a, b) && HasRule(a, rule)
    ensures HasRule(b, rule)
  {
    hide Signature, Identity;
    var i :| 0 <= i < |a| && a[i].ruleId == Some(rule);
    SignatureHolds(a, Identity(a[i]));
    SignatureHolds(b, Identity(a[i]));
    var k :| 0 <= k < |b| && Identity(b[k]) == Identity(a[i]);
    assert a[i] in a && b[k] in b;
  }

  lemma SameRulesIs(a: seq<Alert>, b: seq<Alert>)
    requires AllIds(a) && AllIds(b)
    ensures SameRules(a, b) <==> forall x, y :: x in a && y in b && x.alertId == y.alertId ==> x.ruleId == y.ruleId
  {
    forall x, y | x in a && y in b ensures x.alertId == y.alertId <==> Identity(x) == Identity(y) {
      assert x.alertId.Some? && y.alertId.Some?;
    }
  }

  /** The final set of a settled run holds the anchor iff any one poll of the run does, as long
      as one alert id never stands for two rules: agreement on identities is agreement on rules. */
  lemma AnchorKeptIff(search: Searches, from: nat, k: nat, n: nat, i: nat, rule: string)
    requires n >= 1 && StableRun(search, from, k, n) && k + 1 - n <= i <= k
    requires search(i).Some? && search(k).Some? ==> SameRules(search(i).value, search(k).value)
    ensures Anchors(search, rule, k) <==> Anchors(search, rule, i)
  {
    hide Signature, Identity, HasRule;
    assert Agrees(search, i, k);
    var a, b := search(i).value, search(k).value;
    forall x, y | x in b && y in a && Identity(x) == Identity(y) ensures x.ruleId == y.ruleId {
    }
    if HasRule(a, rule) {
      HasRuleCarries(a, b, rule);
    }
    if HasRule(b, rule) {
      HasRuleCarries(b, a, rule);
    }
  }

  /** Exactly when the final set no longer holds the anchor: no poll of the settled run shows it,
      so that it was gone before the run began. */
  lemma AnchorVanishedIff(search: Searches, from: nat, k: nat, n: nat, rule: string)
    requires n >= 1 && StableRun(search, from, k, n)
    requires forall i: nat :: k + 1 - n <= i <= k && search(i).Some? && search(k).Some? ==>
      SameRules(search(i).value, search(k).value)
    ensures !Anchors(search, rule, k) <==> forall i: nat :: k + 1 - n <= i <= k ==> !Anchors(search, rule, i)
  {
    hide StableRun, Anchors, SameRules;
    forall i: nat | k + 1 - n <= i <= k ensures Anchors(search, rule, k) <==> Anchors(search, rule, i) {
      AnchorKeptIff(search, from, k, n, i, rule);
    }
  }

  /** A clean verdict does not mean the anchor is in the final set: it may have been seen
      once and be gone from the polls that settle. */
  lemma AnchorMayVanish()
    ensures exists search: Searches, clock: Clock ::
      Ticks(clock, 3.0) && AnchorAt(search, clock, "anchor", 120.0, 0) && SettledAt(search, clock, 3, 120.0, 0, 3) &&
      search(3).Some? && !HasRule(search(3).value, "anchor")
  {
    var first, other := Alert(Some("1"), Some("anchor")), Alert(Some("2"), Some("other"));
    var search: Searches := (k: nat) => if k == 0 then Some([first]) else Some([other]);
    var time: nat -> real := (k: nat) => k as real * 3.0;
    var clock := Clock(time, time);
    assert HasRule([first], "anchor") by {
      assert [first][0].ruleId == Some("anchor");
    }
    assert "other"[0] != "anchor"[0];
    hide Signature;
    forall i: nat | 1 <= i <= 3 ensures Agrees(search, i, 3) {
    }
    assert Ticks(clock, 3.0) && SettledAt(search, clock, 3, 120.0, 0, 3);
  }
}
