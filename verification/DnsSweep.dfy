/** Whole runs of the analyzer: what it holds when nothing is swept, and when the sweep
    cannot be noticed. */
module DnsSweep {
  import opened Common
  import opened DnsWindow
  import opened DnsAnalyzer

  /** Replays a log through a fresh analyzer. */
  method Replay(windowSeconds: int, sweepEvery: int, lines: seq<Line>) returns (an: Analyzer)
    ensures an.View() == RunLines(lines, windowSeconds * 1000, Max(1, sweepEvery))
  {
    hide AddLine, RunLines, Analyzer.Valid, Analyzer.View;
    an := new Analyzer(windowSeconds, sweepEvery);
    RunNothing(windowSeconds * 1000, Max(1, sweepEvery));
    assert lines[..0] == [];
    for i := 0 to |lines|
      invariant an.Valid() && fresh(an) && fresh(an.Objects())
      invariant an.windowMs == windowSeconds * 1000 && an.sweepEvery == Max(1, sweepEvery)
      invariant an.View() == RunLines(lines[..i], windowSeconds * 1000, Max(1, sweepEvery))
    {
      an.Add(lines[i]);
      assert lines[..i + 1][..i] == lines[..i];
      RunStep(lines[..i + 1], windowSeconds * 1000, Max(1, sweepEvery));
    }
    assert lines[..|lines|] == lines;
  }

  lemma RunNothing(w: int, every: nat)
    ensures RunLines([], w, every) == INITIAL
  {
  }

  /** The timed records of one parent, in arrival order. */
  function Of(lines: seq<Line>, parent: string): seq<Rec> {
    if lines == [] then []
    else
      var n := |lines| - 1;
      if lines[n].parent == Some(parent) && lines[n].ms.Some? then
        Of(lines[..n], parent) + [Rec(lines[n].ms.value, lines[n].name)]
      else Of(lines[..n], parent)
  }

  predicate Timed(line: Line) {
    line.parent.Some? && line.ms.Some?
  }

  function TimedCount(lines: seq<Line>): nat {
    if lines == [] then 0
    else TimedCount(lines[..|lines| - 1]) + if Timed(lines[|lines| - 1]) then 1 else 0
  }

  lemma {:induction false} TimedAtMost(lines: seq<Line>)
    ensures TimedCount(lines) <= |lines|
  {
    if lines != [] {
      TimedAtMost(lines[..|lines| - 1]);
    }
  }

  /** A record of the parent extends its run by a step. */
  lemma OfStep(lines: seq<Line>, parent: string, w: int)
    requires lines != []
    ensures var n, recs := |lines| - 1, Of(lines[..|lines| - 1], parent);
      if Timed(lines[n]) && lines[n].parent.value == parent then
        Of(lines, parent) == recs + [Rec(lines[n].ms.value, lines[n].name)] &&
        Run(Of(lines, parent), w) == Step(Run(recs, w), lines[n].ms.value, lines[n].name, w)
      else Of(lines, parent) == recs
  {
    hide Step;
    var n, recs := |lines| - 1, Of(lines[..|lines| - 1], parent);
    if Timed(lines[n]) && lines[n].parent.value == parent {
      var all := recs + [Rec(lines[n].ms.value, lines[n].name)];
      assert all[..|recs|] == recs;
    }
  }

  /** Before the first sweep each parent's window is that parent's own run, however the parents
      interleave. */
  lemma {:induction false} UnsweptRun(lines: seq<Line>, w: int, every: nat, parent: string)
    requires TimedCount(lines) < every
    ensures RunLines(lines, w, every).sinceSweep == TimedCount(lines)
    ensures WindowOf(RunLines(lines, w, every), parent) == Run(Of(lines, parent), w)
  {
    if lines != [] {
      hide Step, Of, Run, IsLate;
      UnsweptRun(lines[..|lines| - 1], w, every, parent);
      OfStep(lines, parent, w);
    } else {
      assert Of(lines, parent) == [];
    }
  }

  // ---------- the sweep ----------

  /** The tally's key list and its counts agree. */
  ghost predicate Ordered(t: Tally) {
    multiset(t.order) == multiset(t.count.Keys)
  }

  /** What every unswept window keeps: a sorted deque, an exact tally, and a high-water mark that
      is the newest time still held. */
  ghost predicate Good(st: Window) {
    TimeSorted(st.dq) && Tallies(st.tally, st.dq) && Ordered(st.tally) &&
    (st.dq == [] <==> st.hwm.None?) &&
    (forall r :: r in st.dq ==> r.ms <= st.hwm.value) &&
    (st.dq != [] ==> exists r :: r in st.dq && r.ms == st.hwm.value)
  }

  lemma {:induction false} WithoutIs(order: seq<string>, name: string)
    ensures forall n :: multiset(Without(order, name))[n] == if n == name then 0 else multiset(order)[n]
  {
    if order != [] {
      WithoutIs(order[1..], name);
      assert order == [order[0]] + order[1..];
    }
  }

  lemma BumpOrdered(t: Tally, name: string)
    requires Ordered(t)
    ensures Ordered(Bump(t, name))
  {
    if name !in t.count {
      assert t.count[name := 1].Keys == t.count.Keys + {name};
    } else {
      assert t.count[name := t.count[name] + 1].Keys == t.count.Keys;
    }
  }

  lemma DropOrdered(t: Tally, name: string)
    requires Ordered(t)
    ensures Ordered(Drop(t, name))
  {
    WithoutIs(t.order, name);
    if name in t.count {
      if t.count[name] > 1 {
        assert t.count[name := t.count[name] - 1].Keys == t.count.Keys;
      } else {
        assert (t.count - {name}).Keys == t.count.Keys - {name};
      }
    }
  }

  lemma {:induction false} EvictOrdered(dq: seq<Rec>, t: Tally, horizon: int)
    requires Ordered(t)
    ensures Ordered(Evict(dq, t, horizon).1)
    decreases |dq|
  {
    if dq != [] && dq[0].ms < horizon {
      DropOrdered(t, dq[0].name);
      EvictOrdered(dq[1..], Drop(t, dq[0].name), horizon);
    }
  }

  /** The deque after a step: the new record and those still within its reach. */
  lemma StepHolds(st: Window, ms: int, name: string, w: int)
    requires TimeSorted(st.dq) && Tallies(st.tally, st.dq) && Ordered(st.tally)
    ensures var st' := Step(st, ms, name, w);
      TimeSorted(st'.dq) && Tallies(st'.tally, st'.dq) && Ordered(st'.tally) &&
      st'.hwm == Raise(st.hwm, ms) &&
      (forall r :: multiset(st'.dq)[r] ==
        (if r.ms >= ms - w then (multiset(st.dq) + multiset{Rec(ms, name)})[r] else 0)) &&
      (forall r :: r in st'.dq <==> r.ms >= ms - w && (r in st.dq || r == Rec(ms, name)))
  {
    hide Evict, Enqueue, Bump, Tallies, TimeSorted, Ordered;
    var x := Rec(ms, name);
    EnqueueSorted(st.dq, x);
    BumpTallies(st.tally, st.dq, x);
    BumpOrdered(st.tally, name);
    var queued, tally := Enqueue(st.dq, x), Bump(st.tally, name);
    EvictFilters(queued, tally, ms - w);
    EvictOrdered(queued, tally, ms - w);
    var kept := Evict(queued, tally, ms - w).0;
    forall r
      ensures r in kept <==> r.ms >= ms - w && (r in st.dq || r == x)
    {
      assert r in kept <==> multiset(kept)[r] > 0;
      assert r in queued <==> r in multiset(st.dq) + multiset{x};
    }
  }

  lemma StepGood(st: Window, ms: int, name: string, w: int)
    requires Good(st) && w >= 0
    ensures Good(Step(st, ms, name, w))
  {
    hide Step, Tallies, TimeSorted, Ordered;
    StepHolds(st, ms, name, w);
    var st' := Step(st, ms, name, w);
    assert Rec(ms, name) in st'.dq;
    if st.dq != [] && ms <= st.hwm.value {
      var r :| r in st.dq && r.ms == st.hwm.value;
      assert r in st'.dq;
    }
  }

  /** A freed window whose parent has fallen a full window behind forgets nothing: the next
      record would have emptied it anyway. */
  lemma FreedStepSame(st: Window, ms: int, name: string, w: int)
    requires Good(st) && w >= 0 && st.hwm.Some? && st.hwm.value < ms - w
    ensures Step(Freed(st), ms, name, w) == Step(st, ms, name, w)
  {
    var x := Rec(ms, name);
    var a, b := Step(st, ms, name, w), Step(Freed(st), ms, name, w);
    assert Tallies(EMPTY_TALLY, []) && Ordered(EMPTY_TALLY);
    StepHolds(st, ms, name, w);
    StepHolds(Freed(st), ms, name, w);
    StepOnlyNew(st, ms, name, w);
    StepOnlyNew(Freed(st), ms, name, w);
  }

  /** When nothing older is within reach, a step leaves one record and one counted name. */
  lemma StepOnlyNew(st: Window, ms: int, name: string, w: int)
    requires TimeSorted(st.dq) && Tallies(st.tally, st.dq) && Ordered(st.tally) && w >= 0
    requires forall r :: r in st.dq ==> r.ms < ms - w
    ensures Step(st, ms, name, w).dq == [Rec(ms, name)]
    ensures Step(st, ms, name, w).tally == Tally([name], map[name := 1])
  {
    hide Step, Tallies, Ordered, TimeSorted;
    StepHolds(st, ms, name, w);
    var x := Rec(ms, name);
    var kept := Step(st, ms, name, w).dq;
    forall r ensures multiset(kept)[r] == multiset{x}[r] {
      assert r in st.dq <==> multiset(st.dq)[r] > 0;
    }
    assert multiset(kept) == multiset{x};
    OnlyOne(kept, x);
    SingleTally(Step(st, ms, name, w).tally, x);
  }

  lemma SingleTally(t: Tally, x: Rec)
    requires Tallies(t, [x]) && Ordered(t)
    ensures t == Tally([x.name], map[x.name := 1])
  {
    assert Names([x]) == multiset{x.name};
    assert t.count == map[x.name := 1];
    assert t.count.Keys == {x.name};
    OnlyOne(t.order, x.name);
  }

  lemma OnlyOne<T>(s: seq<T>, x: T)
    requires multiset(s) == multiset{x}
    ensures s == [x]
  {
    assert |multiset(s)| == 1;
    assert s[0] in multiset(s);
  }

  /** Among the timed lines, no timestamp goes back. */
  predicate InTimeOrder(lines: seq<Line>) {
    forall i, j :: 0 <= i < j < |lines| && Timed(lines[i]) && Timed(lines[j]) ==> lines[i].ms.value <= lines[j].ms.value
  }

  /** A swept window against the unswept one: the same, or freed and a full window behind. */
  ghost predicate Tied(swept: Window, whole: Window, hwm: Option<int>, w: int) {
    Good(whole) &&
    (swept == whole ||
     (swept == Freed(whole) && whole.hwm.Some? && hwm.Some? && whole.hwm.value < hwm.value - w))
  }

  predicate SameCounters(a: State, b: State) {
    a.records == b.records && a.noParent == b.noParent && a.untimed == b.untimed && a.timed == b.timed &&
    a.late == b.late && a.maxEntries == b.maxEntries && a.hwm == b.hwm
  }

  ghost predicate AllTied(swept: map<string, Window>, whole: map<string, Window>, hwm: Option<int>, w: int) {
    swept.Keys == whole.Keys && forall p :: p in whole ==> Tied(swept[p], whole[p], hwm, w)
  }

  ghost predicate Simulates(a: State, b: State, w: int) {
    SameCounters(a, b) && AllTied(a.parents, b.parents, b.hwm, w)
  }

  lemma EmptyGood()
    ensures Good(EMPTY_WINDOW)
  {
    assert multiset(EMPTY_TALLY.order) == multiset(EMPTY_TALLY.count.Keys);
  }

  /** A window the sweep may have freed is not reached back into: a record that enters it after
      its parent fell a window behind comes more than a window after all the parent had sent. */
  predicate Harmless(h: Option<int>, global: Option<int>, ms: int, w: int) {
    h.Some? && global.Some? && h.value < global.value - w ==> h.value < ms - w
  }

  lemma TiedStep(a: Window, b: Window, hwm: Option<int>, ms: int, name: string, w: int)
    requires w >= 0 && Tied(a, b, hwm, w) && Harmless(b.hwm, hwm, ms, w)
    ensures Step(a, ms, name, w) == Step(b, ms, name, w) && Good(Step(b, ms, name, w))
    ensures a.hwm == b.hwm
  {
    StepGood(b, ms, name, w);
    if a != b {
      FreedStepSame(b, ms, name, w);
    }
  }

  /** Falling behind is for good. */
  lemma TiedLater(a: Window, b: Window, hwm: Option<int>, ms: int, w: int)
    requires Tied(a, b, hwm, w)
    ensures Tied(a, b, Raise(hwm, ms), w)
  {
    hide Good;
  }

  lemma TiedSelf(a: Window, hwm: Option<int>, w: int)
    requires Good(a)
    ensures Tied(a, a, hwm, w)
  {
    hide Good;
  }

  lemma TiedWindows(a: State, b: State, p: string, w: int)
    requires Simulates(a, b, w)
    ensures Tied(WindowOf(a, p), WindowOf(b, p), b.hwm, w)
  {
    EmptyGood();
    hide Good;
  }

  lemma EnterSimulates(a: State, b: State, ms: int, name: string, p: string, w: int)
    requires w >= 0 && Simulates(a, b, w) && Harmless(WindowOf(b, p).hwm, b.hwm, ms, w)
    ensures Simulates(Enter(a, ms, name, p, w), Enter(b, ms, name, p, w), w)
  {
    hide Step, IsLate, WindowOf, Tied, AllTied;
    TiedWindows(a, b, p, w);
    TiedStep(WindowOf(a, p), WindowOf(b, p), b.hwm, ms, name, w);
    var st, hwm := Step(WindowOf(b, p), ms, name, w), Raise(b.hwm, ms);
    TiedSelf(st, hwm, w);
    AllTiedLater(a.parents, b.parents, b.hwm, ms, w);
    TiedUpdate(a.parents, b.parents, p, st, st, hwm, w);
    SameLateness(WindowOf(a, p), WindowOf(b, p), hwm.value, ms, w);
  }

  lemma AllTiedLater(swept: map<string, Window>, whole: map<string, Window>, hwm: Option<int>, ms: int, w: int)
    requires AllTied(swept, whole, hwm, w)
    ensures AllTied(swept, whole, Raise(hwm, ms), w)
  {
    hide Tied;
    forall p | p in whole ensures Tied(swept[p], whole[p], Raise(hwm, ms), w) {
      TiedLater(swept[p], whole[p], hwm, ms, w);
    }
  }

  lemma SameLateness(a: Window, b: Window, global: int, ms: int, w: int)
    requires a.hwm == b.hwm
    ensures IsLate(a, global, ms, w) == IsLate(b, global, ms, w)
  {
  }

  lemma SweepSimulates(a: State, b: State, w: int)
    requires Simulates(a, b, w)
    ensures Simulates(Sweep(a, w), b, w)
  {
    hide Good;
    var a' := Sweep(a, w);
    forall q | q in b.parents
      ensures Tied(a'.parents[q], b.parents[q], b.hwm, w)
    {
      assert Tied(a.parents[q], b.parents[q], b.hwm, w);
    }
  }

  /** The newest time of all lines that enter a window. */
  function GlobalNewest(lines: seq<Line>): Option<int> {
    if lines == [] then None
    else
      var n := |lines| - 1;
      if Timed(lines[n]) then Raise(GlobalNewest(lines[..n]), lines[n].ms.value) else GlobalNewest(lines[..n])
  }

  /** The global mark does not depend on the sweep. */
  lemma {:induction false} MarkIs(lines: seq<Line>, w: int, every: nat)
    ensures RunLines(lines, w, every).hwm == GlobalNewest(lines)
  {
    if lines != [] {
      hide Step, SweepParents, IsLate, WindowOf;
      MarkIs(lines[..|lines| - 1], w, every);
    }
  }

  /** Line `i` reaches back into a window the sweep could have freed: by then its parent's newest
      time was more than a window behind the log's, yet no more than a window before the line. */
  predicate LateReturn(lines: seq<Line>, w: int, i: nat) {
    i < |lines| && Timed(lines[i]) &&
    !Harmless(Newest(Of(lines[..i], lines[i].parent.value)), GlobalNewest(lines[..i]), lines[i].ms.value, w)
  }

  predicate NoLateReturn(lines: seq<Line>, w: int) {
    forall i :: 0 <= i < |lines| ==> !LateReturn(lines, w, i)
  }

  lemma NoLateReturnPrefix(lines: seq<Line>, w: int, n: nat)
    requires n <= |lines| && NoLateReturn(lines, w)
    ensures NoLateReturn(lines[..n], w)
  {
    hide Harmless;
    forall i | 0 <= i < n ensures !LateReturn(lines[..n], w, i) {
      assert lines[..n][..i] == lines[..i];
      assert !LateReturn(lines, w, i);
    }
  }

  lemma RunMark(recs: seq<Rec>, w: int)
    requires w >= 0
    ensures Run(recs, w).hwm == Newest(recs)
  {
    RunIsWindow(recs, w);
  }

  /** What a line with no late return finds in the run that never sweeps. */
  lemma LineHarmless(lines: seq<Line>, w: int, never: nat, n: nat)
    requires w >= 0 && n < |lines| < never && Timed(lines[n]) && !LateReturn(lines, w, n)
    ensures var b := RunLines(lines[..n], w, never);
      Harmless(WindowOf(b, lines[n].parent.value).hwm, b.hwm, lines[n].ms.value, w)
  {
    hide Harmless, RunLines, WindowOf, Newest, Of, Run;
    TimedAtMost(lines[..n]);
    UnsweptRun(lines[..n], w, never, lines[n].parent.value);
    RunMark(Of(lines[..n], lines[n].parent.value), w);
    MarkIs(lines[..n], w, never);
  }

  /** The sweeping run simulates the one that never sweeps, line by line. */
  lemma {:induction false} SweptRunSimulates(lines: seq<Line>, w: int, every: nat, never: nat)
    requires w >= 0 && NoLateReturn(lines, w) && |lines| < never
    ensures Simulates(RunLines(lines, w, every), RunLines(lines, w, never), w)
    ensures RunLines(lines, w, never).sinceSweep <= |lines|
  {
    if lines != [] {
      var n := |lines| - 1;
      NoLateReturnPrefix(lines, w, n);
      SweptRunSimulates(lines[..n], w, every, never);
      hide Simulates, AddLine, NoLateReturn, LateReturn, Harmless, WindowOf;
      assert !LateReturn(lines, w, n) by {
        LastNotLate(lines, w);
      }
      if Timed(lines[n]) {
        LineHarmless(lines, w, never, n);
      }
      LineSimulates(RunLines(lines[..n], w, every), RunLines(lines[..n], w, never), lines[n], w, every, never);
    }
  }

  lemma LastNotLate(lines: seq<Line>, w: int)
    requires lines != [] && NoLateReturn(lines, w)
    ensures !LateReturn(lines, w, |lines| - 1)
  {
  }

  lemma LineSimulates(a: State, b: State, line: Line, w: int, every: nat, never: nat)
    requires w >= 0 && Simulates(a, b, w) && b.sinceSweep + 1 < never
    requires Timed(line) ==> Harmless(WindowOf(b, line.parent.value).hwm, b.hwm, line.ms.value, w)
    ensures Simulates(AddLine(a, line, w, every), AddLine(b, line, w, never), w)
    ensures AddLine(b, line, w, never).sinceSweep <= b.sinceSweep + 1
  {
    hide Simulates, MaybeSweep, Enter, Harmless, Tied, AllTied;
    var a1, b1 := a.(records := a.records + 1), b.(records := b.records + 1);
    CountedSimulates(a, b, w);
    if Timed(line) {
      EnterSimulates(a1, b1, line.ms.value, line.name, line.parent.value, w);
      var a2, b2 := Enter(a1, line.ms.value, line.name, line.parent.value, w),
                    Enter(b1, line.ms.value, line.name, line.parent.value, w);
      SweepLater(a2, b2, w, every);
      NoSweepYet(b1, line.ms.value, line.name, line.parent.value, w, never);
    } else if line.parent.Some? {
      TouchSimulates(a1, b1, line.parent.value, w);
    } else {
      OrphanSimulates(a1, b1, w);
    }
  }

  lemma NoSweepYet(b: State, ms: int, name: string, p: string, w: int, never: nat)
    requires b.sinceSweep + 1 < never
    ensures var b' := Enter(b, ms, name, p, w);
      MaybeSweep(b', w, never) == b' && b'.sinceSweep == b.sinceSweep + 1
  {
  }

  lemma CountedSimulates(a: State, b: State, w: int)
    requires Simulates(a, b, w)
    ensures Simulates(a.(records := a.records + 1), b.(records := b.records + 1), w)
  {
    hide AllTied;
  }

  lemma OrphanSimulates(a: State, b: State, w: int)
    requires Simulates(a, b, w)
    ensures Simulates(a.(noParent := a.noParent + 1), b.(noParent := b.noParent + 1), w)
  {
    hide AllTied;
  }

  lemma TouchSimulates(a: State, b: State, p: string, w: int)
    requires Simulates(a, b, w)
    ensures Simulates(
      a.(parents := a.parents[p := WindowOf(a, p)], untimed := a.untimed + 1),
      b.(parents := b.parents[p := WindowOf(b, p)], untimed := b.untimed + 1), w)
  {
    TiedWindows(a, b, p, w);
    TiedUpdate(a.parents, b.parents, p, WindowOf(a, p), WindowOf(b, p), b.hwm, w);
    hide AllTied, WindowOf;
  }

  lemma TiedUpdate(
    swept: map<string, Window>, whole: map<string, Window>, p: string, x: Window, y: Window, hwm: Option<int>, w: int)
    requires AllTied(swept, whole, hwm, w) && Tied(x, y, hwm, w)
    ensures AllTied(swept[p := x], whole[p := y], hwm, w)
  {
    hide Tied;
  }

  lemma SweepLater(a: State, b: State, w: int, every: nat)
    requires Simulates(a, b, w)
    ensures Simulates(MaybeSweep(a, w, every), b, w)
  {
    hide Tied;
    if a.sinceSweep >= every {
      assert Simulates(a.(sinceSweep := 0), b, w);
      SweepSimulates(a.(sinceSweep := 0), b, w);
    }
  }

  /** What the report reads of one parent. */
  predicate SameReport(a: Window, b: Window) {
    a.maxDistinct == b.maxDistinct && a.peak == b.peak && a.sample == b.sample
  }

  /** When no line reaches back, the sweep cannot be noticed: for any two sweep intervals every
      parent's report, the counters and the largest deque ever held are the same. */
  lemma SweepInvisible(lines: seq<Line>, w: int, every1: nat, every2: nat)
    requires w >= 0 && NoLateReturn(lines, w)
    ensures var a, b := RunLines(lines, w, every1), RunLines(lines, w, every2);
      a.parents.Keys == b.parents.Keys &&
      (forall p :: p in a.parents ==> SameReport(a.parents[p], b.parents[p])) &&
      a.maxEntries == b.maxEntries && a.late == b.late && a.timed == b.timed && a.hwm == b.hwm
  {
    var never := |lines| + 1;
    SweptRunSimulates(lines, w, every1, never);
    SweptRunSimulates(lines, w, every2, never);
    hide Good, NoLateReturn;
    var a, b, c := RunLines(lines, w, every1), RunLines(lines, w, every2), RunLines(lines, w, never);
    forall p | p in c.parents
      ensures SameReport(a.parents[p], c.parents[p]) && SameReport(b.parents[p], c.parents[p])
    {
      assert Tied(a.parents[p], c.parents[p], c.hwm, w) && Tied(b.parents[p], c.parents[p], c.hwm, w);
    }
  }

  lemma {:induction false} GlobalSeen(lines: seq<Line>)
    ensures GlobalNewest(lines).Some? ==>
      exists i :: 0 <= i < |lines| && Timed(lines[i]) && lines[i].ms == GlobalNewest(lines)
  {
    if lines != [] {
      var n := |lines| - 1;
      GlobalSeen(lines[..n]);
      if GlobalNewest(lines).Some? && GlobalNewest(lines) == GlobalNewest(lines[..n]) {
        var i :| 0 <= i < n && Timed(lines[..n][i]) && lines[..n][i].ms == GlobalNewest(lines[..n]);
        assert lines[i].ms == GlobalNewest(lines);
      } else if GlobalNewest(lines).Some? {
        assert lines[n].ms == GlobalNewest(lines);
      }
    }
  }

  /** Time order, the sweep's own assumption, is enough. */
  lemma OrderedHasNoLateReturn(lines: seq<Line>, w: int)
    requires w >= 0 && InTimeOrder(lines)
    ensures NoLateReturn(lines, w)
  {
    hide Of, Newest;
    forall i | 0 <= i < |lines| ensures !LateReturn(lines, w, i) {
      GlobalSeen(lines[..i]);
      if Timed(lines[i]) && GlobalNewest(lines[..i]).Some? {
        var j :| 0 <= j < i && Timed(lines[..i][j]) && lines[..i][j].ms == GlobalNewest(lines[..i]);
        assert lines[j].ms.value <= lines[i].ms.value;
      }
    }
  }

  // ---------- exactly when a sweep shows ----------

  /** Line `i` leaves its parent's window as it would had nothing ever been swept. */
  predicate EnteredAlike(lines: seq<Line>, w: int, every: nat, i: nat)
    requires i < |lines|
  {
    Timed(lines[i]) ==>
      var p, ms, name := lines[i].parent.value, lines[i].ms.value, lines[i].name;
      Step(WindowOf(RunLines(lines[..i], w, every), p), ms, name, w) == Step(Run(Of(lines[..i], p), w), ms, name, w)
  }

  lemma HarmlessEntersAlike(lines: seq<Line>, w: int, every: nat, i: nat)
    requires w >= 0 && NoLateReturn(lines, w) && i < |lines|
    ensures EnteredAlike(lines, w, every, i)
  {
    if Timed(lines[i]) {
      hide Step, Simulates, RunLines, WindowOf, Of, Run, NoLateReturn, LateReturn, Harmless;
      var p, never := lines[i].parent.value, |lines| + 1;
      NoLateReturnPrefix(lines, w, i);
      SweptRunSimulates(lines[..i], w, every, never);
      assert !LateReturn(lines, w, i) by {
        NotLateAt(lines, w, i);
      }
      LineHarmless(lines, w, never, i);
      var a, b := RunLines(lines[..i], w, every), RunLines(lines[..i], w, never);
      TiedWindows(a, b, p, w);
      TiedStep(WindowOf(a, p), WindowOf(b, p), b.hwm, lines[i].ms.value, lines[i].name, w);
      TimedAtMost(lines[..i]);
      UnsweptRun(lines[..i], w, never, p);
    }
  }

  lemma NotLateAt(lines: seq<Line>, w: int, i: nat)
    requires NoLateReturn(lines, w) && i < |lines|
    ensures !LateReturn(lines, w, i)
  {
  }

  lemma {:induction false} RunGood(recs: seq<Rec>, w: int)
    requires w >= 0
    ensures Good(Run(recs, w))
  {
    if recs == [] {
      EmptyGood();
    } else {
      hide Good, Step;
      var n := |recs| - 1;
      RunGood(recs[..n], w);
      StepGood(Run(recs[..n], w), recs[n].ms, recs[n].name, w);
    }
  }

  /** The sweep that a timed line brings on finds every window unswept so far. */
  lemma SweptNow(lines: seq<Line>, w: int, parent: string)
    requires lines != [] && Timed(lines[|lines| - 1])
    ensures WindowOf(RunLines(lines, w, TimedCount(lines)), parent)
      == SweepOne(Run(Of(lines, parent), w), GlobalNewest(lines).value - w)
  {
    hide Step, Of, Run, IsLate, SweepOne, RunLines, TimedCount, WindowOf, AddLine;
    var n, every := |lines| - 1, TimedCount(lines);
    CountStep(lines);
    OfStep(lines, parent, w);
    RunStep(lines, w, every);
    UnsweptRun(lines[..n], w, every, parent);
    MarkIs(lines[..n], w, every);
    SweepEntered(RunLines(lines[..n], w, every), lines[n], w, every, parent);
  }

  lemma CountBasics(lines: seq<Line>)
    ensures TimedCount(lines) >= 1 ==> lines != []
    ensures lines != [] && !Timed(lines[|lines| - 1]) ==>
      TimedCount(lines) == TimedCount(lines[..|lines| - 1]) && GlobalNewest(lines) == GlobalNewest(lines[..|lines| - 1])
    ensures lines != [] && Timed(lines[|lines| - 1]) ==> GlobalNewest(lines).Some?
  {
  }

  /** With the interval set to the number of timed lines, the one sweep comes right after the last. */
  lemma {:induction false} SweptOnce(lines: seq<Line>, w: int, parent: string)
    requires TimedCount(lines) >= 1
    ensures GlobalNewest(lines).Some?
    ensures WindowOf(RunLines(lines, w, TimedCount(lines)), parent)
      == SweepOne(Run(Of(lines, parent), w), GlobalNewest(lines).value - w)
  {
    hide *;
    CountBasics(lines);
    if Timed(lines[|lines| - 1]) {
      SweptNow(lines, w, parent);
    } else {
      SweptOnce(lines[..|lines| - 1], w, parent);
      UntimedRun(lines, w, TimedCount(lines), parent);
    }
  }

  /** A line without a time, or without a parent, moves no window and no run. */
  lemma UntimedRun(lines: seq<Line>, w: int, every: nat, parent: string)
    requires lines != [] && !Timed(lines[|lines| - 1])
    ensures var n := |lines| - 1;
      WindowOf(RunLines(lines, w, every), parent) == WindowOf(RunLines(lines[..n], w, every), parent) &&
      Of(lines, parent) == Of(lines[..n], parent)
  {
    hide Step, Run, RunLines, WindowOf, AddLine;
    var n := |lines| - 1;
    RunStep(lines, w, every);
    UntimedKeeps(RunLines(lines[..n], w, every), lines[n], w, every, parent);
  }

  lemma UntimedKeeps(s: State, line: Line, w: int, every: nat, parent: string)
    requires !Timed(line)
    ensures WindowOf(AddLine(s, line, w, every), parent) == WindowOf(s, parent)
  {
  }

  lemma CountStep(lines: seq<Line>)
    requires lines != []
    ensures TimedCount(lines) == TimedCount(lines[..|lines| - 1]) + if Timed(lines[|lines| - 1]) then 1 else 0
  {
  }

  lemma RunStep(lines: seq<Line>, w: int, every: nat)
    requires lines != []
    ensures RunLines(lines, w, every) == AddLine(RunLines(lines[..|lines| - 1], w, every), lines[|lines| - 1], w, every)
  {
  }

  /** A timed line that fills the interval: its own window steps, and then all are swept. */
  lemma SweepEntered(s: State, line: Line, w: int, every: nat, parent: string)
    requires Timed(line) && s.sinceSweep + 1 >= every
    ensures var mark := Raise(s.hwm, line.ms.value).value;
      WindowOf(AddLine(s, line, w, every), parent) == SweepOne(
        if line.parent.value == parent then Step(WindowOf(s, parent), line.ms.value, line.name, w) else WindowOf(s, parent),
        mark - w)
  {
    hide Step, IsLate;
  }

  /** A line that reaches back is left differently once the sweep comes just before it. */
  lemma LateReturnShows(lines: seq<Line>, w: int, i: nat)
    requires w >= 0 && LateReturn(lines, w, i)
    ensures TimedCount(lines[..i]) >= 1 && !EnteredAlike(lines, w, TimedCount(lines[..i]), i)
  {
    hide Step, RunLines, WindowOf, Run, Newest;
    var p, pre := lines[i].parent.value, lines[..i];
    var recs := Of(pre, p);
    CountsTimed(pre);
    SweptOnce(pre, w, p);
    RunMark(recs, w);
    RunGood(recs, w);
    FreeingHarmlessIff(Run(recs, w), lines[i].ms.value, lines[i].name, w);
  }

  lemma {:induction false} CountsTimed(lines: seq<Line>)
    ensures TimedCount(lines) >= 1 <==> GlobalNewest(lines).Some?
  {
    if lines != [] {
      CountsTimed(lines[..|lines| - 1]);
    }
  }

  /** Over whole logs in any order: no line reaches back iff, for every sweep interval, each line
      leaves its parent's window as it would had nothing been swept. */
  lemma SweepUnseenIff(lines: seq<Line>, w: int)
    requires w >= 0
    ensures NoLateReturn(lines, w) <==>
      forall every: nat, i: nat :: every >= 1 && i < |lines| ==> EnteredAlike(lines, w, every, i)
  {
    hide EnteredAlike;
    if NoLateReturn(lines, w) {
      forall every: nat, i: nat | every >= 1 && i < |lines| ensures EnteredAlike(lines, w, every, i) {
        HarmlessEntersAlike(lines, w, every, i);
      }
    } else {
      var i: nat :| i < |lines| && LateReturn(lines, w, i);
      LateReturnShows(lines, w, i);
    }
  }

  // ---------- what a sweep can do out of order ----------

  ghost predicate Held(st: Window) {
    TimeSorted(st.dq) && Tallies(st.tally, st.dq) && Ordered(st.tally)
  }

  /** A swept window holds no more than the unswept one, and never reached a higher peak. */
  ghost predicate Within(a: Window, b: Window) {
    Held(a) && Held(b) && multiset(a.dq) <= multiset(b.dq) && a.maxDistinct <= b.maxDistinct
  }

  ghost predicate AllWithin(a: map<string, Window>, b: map<string, Window>) {
    a.Keys == b.Keys && forall p :: p in b ==> Within(a[p], b[p])
  }

  lemma FewerCounted(t: Tally, dq: seq<Rec>, t': Tally, dq': seq<Rec>)
    requires Tallies(t, dq) && Tallies(t', dq') && multiset(dq) <= multiset(dq')
    ensures |t.count| <= |t'.count|
  {
    forall n | n in t.count ensures n in t'.count {
      NameIn(dq, n);
      NameIn(dq', n);
      var r :| r in dq && r.name == n;
      assert r in multiset(dq');
    }
    SubsetSize(t.count.Keys, t'.count.Keys);
  }

  lemma WithinStep(a: Window, b: Window, ms: int, name: string, w: int)
    requires Within(a, b)
    ensures Within(Step(a, ms, name, w), Step(b, ms, name, w))
  {
    hide Step, Tallies, TimeSorted, Ordered;
    StepHolds(a, ms, name, w);
    StepHolds(b, ms, name, w);
    StepMarks(a, ms, name, w);
    StepMarks(b, ms, name, w);
    var a', b' := Step(a, ms, name, w), Step(b, ms, name, w);
    forall r ensures multiset(a'.dq)[r] <= multiset(b'.dq)[r] {
      assert multiset(a.dq)[r] <= multiset(b.dq)[r];
    }
    FewerCounted(a'.tally, a'.dq, b'.tally, b'.dq);
  }

  lemma WithinFreed(a: Window, b: Window, horizon: int)
    requires Within(a, b)
    ensures Within(SweepOne(a, horizon), b)
  {
    EmptyGood();
  }

  lemma WithinWindows(a: State, b: State, p: string)
    requires AllWithin(a.parents, b.parents)
    ensures Within(WindowOf(a, p), WindowOf(b, p))
  {
    hide Within;
    EmptyWithin();
  }

  lemma EmptyWithin()
    ensures Within(EMPTY_WINDOW, EMPTY_WINDOW)
  {
    EmptyGood();
  }

  lemma LineWithin(a: State, b: State, line: Line, w: int, every: nat, never: nat)
    requires AllWithin(a.parents, b.parents) && b.sinceSweep + 1 < never
    ensures AllWithin(AddLine(a, line, w, every).parents, AddLine(b, line, w, never).parents)
    ensures AddLine(b, line, w, never).sinceSweep <= b.sinceSweep + 1
  {
    hide Step, Within, IsLate;
    if line.parent.Some? {
      var p := line.parent.value;
      WithinWindows(a, b, p);
      if line.ms.Some? {
        WithinStep(WindowOf(a, p), WindowOf(b, p), line.ms.value, line.name, w);
        forall x, y, horizon | Within(x, y) ensures Within(SweepOne(x, horizon), y) {
          WithinFreed(x, y, horizon);
        }
      }
    }
  }

  /** In any order and for every interval, sweeping never raises a parent's peak above the one a
      run without a sweep reports. */
  lemma {:induction false} SweepNeverOverstates(lines: seq<Line>, w: int, every: nat, never: nat)
    requires |lines| < never
    ensures AllWithin(RunLines(lines, w, every).parents, RunLines(lines, w, never).parents)
    ensures RunLines(lines, w, never).sinceSweep <= |lines|
  {
    if lines != [] {
      hide AddLine, AllWithin;
      var n := |lines| - 1;
      SweepNeverOverstates(lines[..n], w, every, never);
      LineWithin(RunLines(lines[..n], w, every), RunLines(lines[..n], w, never), lines[n], w, every, never);
    } else {
      assert AllWithin(INITIAL.parents, INITIAL.parents);
    }
  }

  /** Freeing a window loses nothing exactly when the parent's next record is more than a
      window past everything the parent had sent. */
  lemma FreeingHarmlessIff(st: Window, ms: int, name: string, w: int)
    requires Good(st) && st.dq != [] && w >= 0
    ensures Step(Freed(st), ms, name, w).dq == Step(st, ms, name, w).dq <==> st.hwm.value < ms - w
  {
    if st.hwm.value < ms - w {
      FreedStepSame(st, ms, name, w);
    } else {
      EmptyGood();
      StepOnlyNew(Freed(st), ms, name, w);
      StepHolds(st, ms, name, w);
      hide Step, Tallies, TimeSorted, Ordered;
      var r :| r in st.dq && r.ms == st.hwm.value;
      var kept, x := Step(st, ms, name, w).dq, Rec(ms, name);
      assert r in kept && multiset(st.dq)[r] > 0;
      assert multiset([x])[x] == 1 && (r != x ==> r !in [x]);
    }
  }

  /** On input that goes back in time the sweep interval shows: under a window of ten seconds a
      third record, late but within reach of the first, is counted with it only if no sweep came
      between. */
  lemma SweepShowsOutOfOrder()
    ensures exists lines: seq<Line> ::
      WindowOf(RunLines(lines, 10 * 1000, 2), "a").maxDistinct < WindowOf(RunLines(lines, 10 * 1000, 4), "a").maxDistinct
  {
    hide RunLines, Step;
    var w := 10 * 1000;
    var l1, l2, l3 := Line(Some(0), "x", Some("a")), Line(Some(100000), "y", Some("b")), Line(Some(5000), "z", Some("a"));
    var st := Step(EMPTY_WINDOW, 0, "x", w);
    LateAfterOne(st);
    ThreeLines(l1, l2, l3, w, 2);
    ThreeLines(l1, l2, l3, w, 4);
    var a1 := AddLine(INITIAL, l1, w, 2);
    assert a1.parents == map["a" := st] && a1.hwm == Some(0) && a1.sinceSweep == 1;
    var a2 := AddLine(a1, l2, w, 2);
    assert WindowOf(a2, "a") == Freed(st) && a2.sinceSweep == 0;
    assert WindowOf(AddLine(a2, l3, w, 2), "a") == Step(Freed(st), 5000, "z", w);
    var b1 := AddLine(INITIAL, l1, w, 4);
    var b2 := AddLine(b1, l2, w, 4);
    assert WindowOf(b2, "a") == st && b2.sinceSweep == 2;
    assert WindowOf(AddLine(b2, l3, w, 4), "a") == Step(st, 5000, "z", w);
  }

  lemma ThreeLines(l1: Line, l2: Line, l3: Line, w: int, every: nat)
    ensures RunLines([l1, l2, l3], w, every) ==
      AddLine(AddLine(AddLine(INITIAL, l1, w, every), l2, w, every), l3, w, every)
  {
    hide AddLine;
    assert [l1, l2, l3][..2] == [l1, l2] && [l1, l2][..1] == [l1] && [l1][..0] == [];
    assert RunLines([l1], w, every) == AddLine(RunLines([], w, every), l1, w, every);
    assert RunLines([l1, l2], w, every) == AddLine(RunLines([l1], w, every), l2, w, every);
  }

  lemma LateAfterOne(st: Window)
    requires st == Step(EMPTY_WINDOW, 0, "x", 10000)
    ensures Expired(st, 90000) && st.hwm == Some(0)
    ensures Step(Freed(st), 5000, "z", 10000).maxDistinct == 1 < Step(st, 5000, "z", 10000).maxDistinct
  {
    hide Step, Tallies, Ordered;
    EmptyGood();
    StepOnlyNew(EMPTY_WINDOW, 0, "x", 10000);
    StepMarks(EMPTY_WINDOW, 0, "x", 10000);
    StepGood(EMPTY_WINDOW, 0, "x", 10000);
    StepOnlyNew(Freed(st), 5000, "z", 10000);
    StepMarks(Freed(st), 5000, "z", 10000);
    StepHolds(st, 5000, "z", 10000);
    StepMarks(st, 5000, "z", 10000);
    var both := Step(st, 5000, "z", 10000);
    assert Rec(0, "x") in st.dq;
    TwoCounted(both.tally, both.dq);
  }

  lemma StepMarks(st: Window, ms: int, name: string, w: int)
    ensures var st' := Step(st, ms, name, w);
      st'.maxDistinct == Max(st.maxDistinct, |st'.tally.count|) && st'.hwm == Raise(st.hwm, ms)
  {
  }

  lemma TwoCounted(t: Tally, dq: seq<Rec>)
    requires Tallies(t, dq) && Rec(0, "x") in dq && Rec(5000, "z") in dq
    ensures |t.count| >= 2
  {
    assert "x" in NameSet(dq) && "z" in NameSet(dq);
    NameIn(dq, "x");
    NameIn(dq, "z");
    SubsetSize({"x", "z"}, t.count.Keys);
  }
}
