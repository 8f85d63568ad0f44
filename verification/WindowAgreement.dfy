/** Two implementations of one rule: the streaming analyzer's peak against the window
    predictor's verdict, on the same log. */
module WindowAgreement {
  import opened Common
  import opened Detector
  import opened WindowLaws
  import opened DnsWindow
  import opened DnsAnalyzer
  import opened DnsSweep

  const PARENT_PATH := "unmapped.dns.parent_domain"
  const NAME_PATH := "dst_endpoint.hostname"

  /** The distinct-name rule the analyzer replays. */
  function TunnelRule(threshold: int, w: int): Rule {
    Rule(threshold, w, PARENT_PATH, Some(NAME_PATH), None)
  }

  function EventOf(line: Line): Event
    requires Timed(line)
  {
    Event(line.ms.value, map[PARENT_PATH := line.parent.value, NAME_PATH := line.name])
  }

  function EventsOf(lines: seq<Line>): seq<Event> {
    if lines == [] then []
    else
      var n := |lines| - 1;
      if Timed(lines[n]) then EventsOf(lines[..n]) + [EventOf(lines[n])] else EventsOf(lines[..n])
  }

  // ---------- the predictor's window, over one parent's records ----------

  function ObsOf(recs: seq<Rec>): seq<Obs> {
    seq(|recs|, i requires 0 <= i < |recs| => Obs(recs[i].ms, Some(recs[i].name)))
  }

  /** The records no older than `from`, whatever came between. */
  function Reach(recs: seq<Rec>, from: int): seq<Rec> {
    if recs == [] then []
    else
      var n := |recs| - 1;
      if recs[n].ms >= from then Reach(recs[..n], from) + [recs[n]] else Reach(recs[..n], from)
  }

  lemma KeyOfEvent(t: int, w: int, fold: Fold, line: Line)
    requires Timed(line)
    ensures KeyOf(TunnelRule(t, w), fold, EventOf(line)) == line.parent
    ensures Observe(TunnelRule(t, w), EventOf(line)) == Obs(line.ms.value, Some(line.name))
  {
    assert PARENT_PATH != NAME_PATH && PARENT_PATH !in ACCOUNT_KEYS by {
      assert PARENT_PATH[9] == 'd' && "unmapped.target_user.name"[9] == 't' && "actor.user.name"[0] == 'a';
      assert PARENT_PATH[0] == 'u' && NAME_PATH[0] == 'd';
    }
  }

  lemma {:induction false} GroupIsOf(t: int, w: int, fold: Fold, lines: seq<Line>, parent: string)
    ensures Group(TunnelRule(t, w), fold, EventsOf(lines), parent) == ObsOf(Of(lines, parent))
  {
    if lines != [] {
      var n := |lines| - 1;
      GroupIsOf(t, w, fold, lines[..n], parent);
      if Timed(lines[n]) {
        KeyOfEvent(t, w, fold, lines[n]);
        assert EventsOf(lines)[..|EventsOf(lines)| - 1] == EventsOf(lines[..n]);
      }
    }
  }

  lemma {:induction false} LiveIsReach(recs: seq<Rec>, from: int)
    ensures Live(ObsOf(recs), from) == ObsOf(Reach(recs, from))
  {
    if recs != [] {
      var n := |recs| - 1;
      LiveIsReach(recs[..n], from);
      assert ObsOf(recs)[..n] == ObsOf(recs[..n]);
    }
  }

  lemma {:induction false} CountIsNames(recs: seq<Rec>)
    ensures |Values(ObsOf(recs))| == |NameSet(recs)|
  {
    var names := NameSet(recs);
    SomeSize(names);
    forall v
      ensures v in Values(ObsOf(recs)) <==> v in SomeOf(names)
    {
      if v in Values(ObsOf(recs)) {
        var o :| o in ObsOf(recs) && o.value == v;
        var i :| 0 <= i < |recs| && ObsOf(recs)[i] == o;
        assert recs[i] in recs;
      }
      if v in SomeOf(names) {
        var r :| r in recs && Some(r.name) == v;
        var i :| 0 <= i < |recs| && recs[i] == r;
        assert ObsOf(recs)[i] in ObsOf(recs);
      }
    }
    assert Values(ObsOf(recs)) == SomeOf(names);
  }

  function SomeOf(names: set<string>): set<Option<string>> {
    set n | n in names :: Some(n)
  }

  lemma {:induction false} SomeSize(names: set<string>)
    ensures |SomeOf(names)| == |names|
  {
    if names != {} {
      var n :| n in names;
      SomeSize(names - {n});
      assert SomeOf(names) == SomeOf(names - {n}) + {Some(n)};
    }
  }

  // ---------- the two windows ----------

  lemma {:induction false} SurvivorsInReach(recs: seq<Rec>, w: int, k: nat, from: int)
    requires k <= |recs|
    requires forall i :: 0 <= i < k && Survives(recs, w, i) ==> recs[i].ms >= from
    ensures forall r :: r in Survivors(recs, w, k) ==> r in Reach(recs[..k], from)
    ensures (forall i :: 0 <= i < k ==> (Survives(recs, w, i) <==> recs[i].ms >= from)) ==>
      Survivors(recs, w, k) == Reach(recs[..k], from)
  {
    if k > 0 {
      SurvivorsInReach(recs, w, k - 1, from);
      assert recs[..k][..k - 1] == recs[..k - 1];
    }
  }

  /** Record `i` was passed by more than a window at `j`, yet is in reach of `k`. */
  predicate ComesBack(recs: seq<Rec>, w: int, i: int, j: int, k: int) {
    0 <= i < j < k < |recs| && recs[i].ms < recs[j].ms - w && recs[i].ms >= recs[k].ms - w
  }

  /** Nothing the analyzer has evicted comes back within reach. */
  ghost predicate NoComeback(recs: seq<Rec>, w: int) {
    forall i, j, k :: !ComesBack(recs, w, i, j, k)
  }

  /** At the newest record the analyzer keeps exactly what the predictor sees. */
  predicate SameWindow(recs: seq<Rec>, w: int)
    requires recs != []
  {
    forall i :: 0 <= i < |recs| ==>
      (Survives(recs, w, i) <==> recs[i].ms >= recs[|recs| - 1].ms - w)
  }

  ghost predicate AlwaysSameWindow(recs: seq<Rec>, w: int) {
    forall m :: 0 < m <= |recs| ==> SameWindow(recs[..m], w)
  }

  /** The two windows agree after every record iff nothing evicted comes back in reach:
      a weaker demand than time order, and the exact one. */
  lemma WindowsAgreeIff(recs: seq<Rec>, w: int)
    requires w >= 0
    ensures NoComeback(recs, w) <==> AlwaysSameWindow(recs, w)
  {
    hide SameWindow;
    if NoComeback(recs, w) {
      forall m | 0 < m <= |recs| ensures SameWindow(recs[..m], w) {
        PrefixNoComeback(recs, w, m);
        AgreeAtEnd(recs[..m], w);
      }
    }
    forall i, j, k | ComesBack(recs, w, i, j, k)
      ensures !AlwaysSameWindow(recs, w)
    {
      ComebackDisagrees(recs, w, i, j, k);
    }
  }

  lemma PrefixNoComeback(recs: seq<Rec>, w: int, m: nat)
    requires m <= |recs| && NoComeback(recs, w)
    ensures NoComeback(recs[..m], w)
  {
    forall i, j, k ensures !ComesBack(recs[..m], w, i, j, k) {
      assert !ComesBack(recs, w, i, j, k);
    }
  }

  lemma ComebackDisagrees(recs: seq<Rec>, w: int, i: nat, j: nat, k: nat)
    requires ComesBack(recs, w, i, j, k)
    ensures !SameWindow(recs[..k + 1], w)
  {
    hide SameWindow, Survives;
    PassedButInReach(recs[..k + 1], w, i, j);
  }

  lemma PassedButInReach(seen: seq<Rec>, w: int, i: nat, j: nat)
    requires i < j < |seen| && seen[i].ms < seen[j].ms - w && seen[i].ms >= seen[|seen| - 1].ms - w
    ensures !SameWindow(seen, w)
  {
    assert !Survives(seen, w, i);
  }

  lemma AgreeAtEnd(recs: seq<Rec>, w: int)
    requires w >= 0 && recs != [] && NoComeback(recs, w)
    ensures SameWindow(recs, w)
  {
    var k := |recs| - 1;
    forall i | 0 <= i < |recs| && recs[i].ms >= recs[k].ms - w
      ensures Survives(recs, w, i)
    {
      forall j | i <= j < |recs| ensures recs[i].ms >= recs[j].ms - w {
        assert !ComesBack(recs, w, i, j, k);
      }
    }
  }

  /** Time order leaves nothing to come back. */
  lemma OrderedHasNoComeback(recs: seq<Rec>, w: int)
    requires TimeSorted(recs)
    ensures NoComeback(recs, w)
  {
  }

  /** The analyzer never counts more names than are in reach, and as many when nothing
      comes back. */
  lemma DistinctAgainstReach(recs: seq<Rec>, w: int)
    requires w >= 0 && recs != []
    ensures var from := recs[|recs| - 1].ms - w;
      Distinct(recs, w) <= |NameSet(Reach(recs, from))| &&
      (NoComeback(recs, w) ==> Distinct(recs, w) == |NameSet(Reach(recs, from))|)
  {
    hide Survives, Survivors, Reach, NameSet, NoComeback;
    var from := recs[|recs| - 1].ms - w;
    assert recs[..|recs|] == recs;
    forall i | 0 <= i < |recs| && Survives(recs, w, i) ensures recs[i].ms >= from {
      SurvivorReaches(recs, w, i);
    }
    SurvivorsInReach(recs, w, |recs|, from);
    FewerNames(Contents(recs, w), Reach(recs, from));
    if NoComeback(recs, w) {
      AgreeAtEnd(recs, w);
    }
  }

  lemma SurvivorReaches(recs: seq<Rec>, w: int, i: nat)
    requires i < |recs| && Survives(recs, w, i)
    ensures recs[i].ms >= recs[|recs| - 1].ms - w
  {
  }

  lemma FewerNames(a: seq<Rec>, b: seq<Rec>)
    requires forall r :: r in a ==> r in b
    ensures |NameSet(a)| <= |NameSet(b)|
  {
    SubsetSize(NameSet(a), NameSet(b));
  }

  /** The predictor fires on the newest line iff enough names are within its reach. */
  lemma VerdictAtLine(t: int, w: int, fold: Fold, lines: seq<Line>)
    requires lines != [] && Timed(lines[|lines| - 1])
    ensures var line, evs := lines[|lines| - 1], EventsOf(lines);
      evs != [] &&
      (Alarm(TunnelRule(t, w), fold, evs, |evs| - 1) <==>
        |NameSet(Reach(Of(lines, line.parent.value), line.ms.value - w))| >= t)
  {
    hide Regular, KeyOf, NameSet, Values, Group, Of, Reach;
    var n := |lines| - 1;
    var p, evs := lines[n].parent.value, EventsOf(lines);
    var recs, r, from := Of(lines, p), TunnelRule(t, w), lines[n].ms.value - w;
    KeyOfEvent(t, w, fold, lines[n]);
    GroupIsOf(t, w, fold, lines, p);
    LastOf(lines);
    assert evs[..|evs|] == evs;
    LiveIsReach(recs, from);
    CountIsNames(Reach(recs, from));
  }

  lemma LastOf(lines: seq<Line>)
    requires lines != [] && Timed(lines[|lines| - 1])
    ensures var line := lines[|lines| - 1];
      var recs := Of(lines, line.parent.value);
      recs != [] && recs[|recs| - 1] == Rec(line.ms.value, line.name) &&
      recs[..|recs| - 1] == Of(lines[..|lines| - 1], line.parent.value)
  {
  }

  lemma AlarmAtLine(t: int, w: int, fold: Fold, lines: seq<Line>)
    requires w >= 0 && lines != [] && Timed(lines[|lines| - 1])
    ensures var p, evs := lines[|lines| - 1].parent.value, EventsOf(lines);
      evs != [] &&
      (Distinct(Of(lines, p), w) >= t ==> Alarm(TunnelRule(t, w), fold, evs, |evs| - 1)) &&
      (NoComeback(Of(lines, p), w) && Alarm(TunnelRule(t, w), fold, evs, |evs| - 1) ==>
        Distinct(Of(lines, p), w) >= t)
  {
    hide Alarm, Distinct, NoComeback, Of, EventsOf;
    VerdictAtLine(t, w, fold, lines);
    LastOf(lines);
    DistinctAgainstReach(Of(lines, lines[|lines| - 1].parent.value), w);
  }

  lemma FiresSnoc(r: Rule, fold: Fold, evs: seq<Event>, e: Event)
    ensures Fires(r, fold, evs + [e]) <==> Fires(r, fold, evs) || Alarm(r, fold, evs + [e], |evs|)
  {
    hide FiresAtEnd;
    forall k | 0 <= k < |evs| ensures Alarm(r, fold, evs + [e], k) <==> Alarm(r, fold, evs, k) {
      assert (evs + [e])[..k + 1] == evs[..k + 1];
    }
  }

  /** Some parent's records have reached the threshold. */
  ghost predicate PeakReached(lines: seq<Line>, w: int, t: int) {
    exists p :: MaxDistinct(Of(lines, p), w) >= t
  }

  lemma OfPrefix(lines: seq<Line>, p: string)
    requires lines != []
    ensures var earlier := Of(lines[..|lines| - 1], p);
      |earlier| <= |Of(lines, p)| && Of(lines, p)[..|earlier|] == earlier
  {
  }

  lemma {:induction false} PeakAgainstVerdict(t: int, w: int, fold: Fold, lines: seq<Line>)
    requires w >= 0 && t >= 1
    ensures PeakReached(lines, w, t) ==> Fires(TunnelRule(t, w), fold, EventsOf(lines))
    ensures (forall p :: NoComeback(Of(lines, p), w)) && Fires(TunnelRule(t, w), fold, EventsOf(lines)) ==>
      PeakReached(lines, w, t)
  {
    hide Alarm, Distinct, NoComeback;
    if lines == [] {
      assert !PeakReached([], w, t);
    } else {
      var n := |lines| - 1;
      PeakAgainstVerdict(t, w, fold, lines[..n]);
      forall p
        ensures NoComeback(Of(lines, p), w) ==> NoComeback(Of(lines[..n], p), w)
      {
        OfPrefix(lines, p);
        if NoComeback(Of(lines, p), w) {
          PrefixNoComeback(Of(lines, p), w, |Of(lines[..n], p)|);
        }
      }
      if Timed(lines[n]) {
        AlarmAtLine(t, w, fold, lines);
        FiresSnoc(TunnelRule(t, w), fold, EventsOf(lines[..n]), EventOf(lines[n]));
      }
      PeakGrows(lines, w, t);
    }
  }

  /** One more line raises one parent's peak, if any. */
  lemma PeakStep(lines: seq<Line>, w: int, p: string)
    requires lines != []
    ensures var n := |lines| - 1;
      MaxDistinct(Of(lines, p), w) ==
        if Timed(lines[n]) && lines[n].parent.value == p
        then Max(MaxDistinct(Of(lines[..n], p), w), Distinct(Of(lines, p), w))
        else MaxDistinct(Of(lines[..n], p), w)
  {
    hide Distinct;
    if Timed(lines[|lines| - 1]) && lines[|lines| - 1].parent.value == p {
      hide Of;
      LastOf(lines);
    }
  }

  lemma PeakGrows(lines: seq<Line>, w: int, t: int)
    requires lines != []
    ensures var n := |lines| - 1;
      PeakReached(lines, w, t) <==>
        PeakReached(lines[..n], w, t) ||
        (Timed(lines[n]) && Distinct(Of(lines, lines[n].parent.value), w) >= t)
  {
    hide Distinct, MaxDistinct, Of;
    var n := |lines| - 1;
    if p :| MaxDistinct(Of(lines, p), w) >= t {
      PeakStep(lines, w, p);
    }
    if p :| MaxDistinct(Of(lines[..n], p), w) >= t {
      PeakStep(lines, w, p);
      assert MaxDistinct(Of(lines, p), w) >= t;
    }
    if Timed(lines[n]) && Distinct(Of(lines, lines[n].parent.value), w) >= t {
      PeakStep(lines, w, lines[n].parent.value);
      assert MaxDistinct(Of(lines, lines[n].parent.value), w) >= t;
    }
  }

  /** Some timed line carries this time. */
  ghost predicate SeenAt(lines: seq<Line>, ms: int) {
    exists i :: 0 <= i < |lines| && Timed(lines[i]) && lines[i].ms.value == ms
  }

  lemma SeenLater(lines: seq<Line>, n: nat, ms: int)
    requires n <= |lines| && SeenAt(lines[..n], ms)
    ensures SeenAt(lines, ms)
  {
    var i :| 0 <= i < n && Timed(lines[..n][i]) && lines[..n][i].ms.value == ms;
    assert Timed(lines[i]) && lines[i].ms.value == ms;
  }

  lemma {:induction false} RecordsAreSeen(lines: seq<Line>, p: string)
    ensures forall r :: r in Of(lines, p) ==> SeenAt(lines, r.ms)
  {
    if lines != [] {
      var n := |lines| - 1;
      RecordsAreSeen(lines[..n], p);
      forall r | r in Of(lines, p) ensures SeenAt(lines, r.ms) {
        if r in Of(lines[..n], p) {
          SeenLater(lines, n, r.ms);
        } else {
          assert Timed(lines[n]) && lines[n].ms.value == r.ms;
        }
      }
    }
  }

  lemma {:induction false} OrderedRecords(lines: seq<Line>, p: string)
    requires InTimeOrder(lines)
    ensures TimeSorted(Of(lines, p))
  {
    if lines != [] {
      var n := |lines| - 1;
      OrderedRecords(lines[..n], p);
      RecordsAreSeen(lines[..n], p);
      var earlier := Of(lines[..n], p);
      assert forall i :: 0 <= i < |earlier| ==> earlier[i] in earlier;
    }
  }

  ghost predicate AnalyzerReaches(s: State, t: int) {
    exists p :: p in s.parents && s.parents[p].maxDistinct >= t
  }

  /** The analyzer's report against the predictor's verdict, sweeping not yet begun: a
      reported peak is always a detection, and a detection is always reported unless some
      parent's evicted record came back in reach. */
  lemma ReportAgainstVerdict(t: int, w: int, fold: Fold, lines: seq<Line>, every: nat)
    requires w >= 0 && t >= 1 && TimedCount(lines) < every
    ensures AnalyzerReaches(RunLines(lines, w, every), t) ==> Fires(TunnelRule(t, w), fold, EventsOf(lines))
    ensures (forall p :: NoComeback(Of(lines, p), w)) ==>
      (AnalyzerReaches(RunLines(lines, w, every), t) <==> Fires(TunnelRule(t, w), fold, EventsOf(lines)))
  {
    hide Fires, RunLines, NoComeback, IsWindowOf, MaxDistinct;
    var s := RunLines(lines, w, every);
    forall p
      ensures WindowOf(s, p).maxDistinct == MaxDistinct(Of(lines, p), w)
    {
      UnsweptRun(lines, w, every, p);
      MaxOfRun(Of(lines, p), w);
    }
    PeakAgainstVerdict(t, w, fold, lines);
    if p :| MaxDistinct(Of(lines, p), w) >= t {
      assert WindowOf(s, p).maxDistinct >= t;
    }
    if p :| p in s.parents && s.parents[p].maxDistinct >= t {
      assert MaxDistinct(Of(lines, p), w) >= t;
    }
  }

  lemma MaxOfRun(recs: seq<Rec>, w: int)
    requires w >= 0
    ensures Run(recs, w).maxDistinct == MaxDistinct(recs, w)
  {
    RunIsWindow(recs, w);
  }

  /** A reported peak is a detection on any log: in any record order, for any interleaving of
      parents and for every sweep interval. */
  lemma ReportIsDetection(t: int, w: int, fold: Fold, lines: seq<Line>, every: nat)
    requires w >= 0 && t >= 1 && AnalyzerReaches(RunLines(lines, w, every), t)
    ensures Fires(TunnelRule(t, w), fold, EventsOf(lines))
  {
    hide Fires, RunLines;
    var never := |lines| + 1;
    SweepNeverOverstates(lines, w, every, never);
    TimedAtMost(lines);
    var swept, whole := RunLines(lines, w, every), RunLines(lines, w, never);
    var p :| p in swept.parents && swept.parents[p].maxDistinct >= t;
    assert Within(swept.parents[p], whole.parents[p]);
    assert AnalyzerReaches(whole, t);
    ReportAgainstVerdict(t, w, fold, lines, never);
  }

  /** For every sweep interval the two agree on any log on which nothing evicted comes back
      within reach and no line reaches back into a window the sweep could have freed. */
  lemma SweptLogsAgree(t: int, w: int, fold: Fold, lines: seq<Line>, every: nat)
    requires w >= 0 && t >= 1 && NoLateReturn(lines, w) && forall p :: NoComeback(Of(lines, p), w)
    ensures AnalyzerReaches(RunLines(lines, w, every), t) <==> Fires(TunnelRule(t, w), fold, EventsOf(lines))
  {
    hide Fires, RunLines, NoComeback, NoLateReturn;
    SweepInvisible(lines, w, every, |lines| + 1);
    TimedAtMost(lines);
    ReportAgainstVerdict(t, w, fold, lines, |lines| + 1);
    var a, b := RunLines(lines, w, every), RunLines(lines, w, |lines| + 1);
    forall p | p in a.parents ensures a.parents[p].maxDistinct == b.parents[p].maxDistinct {
      assert SameReport(a.parents[p], b.parents[p]);
    }
  }

  /** On a time-ordered log the two agree for every sweep interval. */
  lemma OrderedLogsAgree(t: int, w: int, fold: Fold, lines: seq<Line>, every: nat)
    requires w >= 0 && t >= 1 && InTimeOrder(lines)
    ensures AnalyzerReaches(RunLines(lines, w, every), t) <==> Fires(TunnelRule(t, w), fold, EventsOf(lines))
  {
    hide Fires, RunLines, NoComeback, NoLateReturn;
    OrderedHasNoLateReturn(lines, w);
    forall p ensures NoComeback(Of(lines, p), w) {
      OrderedRecords(lines, p);
      OrderedHasNoComeback(Of(lines, p), w);
    }
    SweptLogsAgree(t, w, fold, lines, every);
  }

  /** An older record after a newer one, under a window of ten seconds: the predictor still
      reaches back past the eviction, so it sees a record the analyzer no longer holds. */
  lemma ComebackSplitsThem()
    ensures var w, recs := 10 * 1000, [Rec(0, "a"), Rec(100000, "b"), Rec(0, "c")];
      |Contents(recs, w)| == 2 && |Reach(recs, recs[2].ms - w)| == 3
  {
    var recs := [Rec(0, "a"), Rec(100000, "b"), Rec(0, "c")];
    OnlyFirstEvicted(recs);
    assert recs[..2] == [recs[0], recs[1]] && recs[..2][..1] == [recs[0]];
    assert Reach(recs[..2][..1], -10000) == [recs[0]];
    assert Reach(recs[..2], -10000) == recs[..2];
  }

  lemma OnlyFirstEvicted(recs: seq<Rec>)
    requires |recs| == 3 && recs[0].ms == 0 && recs[1].ms == 100000 && recs[2].ms == 0
    ensures |Contents(recs, 10000)| == 2
  {
    assert !Survives(recs, 10000, 0) by {
      assert recs[0].ms < recs[1].ms - 10000;
    }
    assert Survives(recs, 10000, 1) && Survives(recs, 10000, 2);
    assert Survivors(recs, 10000, 1) == [];
    assert Survivors(recs, 10000, 2) == [recs[1]];
  }
}
