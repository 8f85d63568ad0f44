/** The analyzer's counters over whole logs, in terms of the log's lines alone. */
module DnsCounts {
  import opened Common
  import opened DnsWindow
  import opened DnsAnalyzer
  import opened DnsSweep

  /** Positions of the lines that reached no window, had no time, and were counted. */
  ghost function Parentless(lines: seq<Line>): set<nat> {
    set i: nat | i < |lines| && lines[i].parent.None?
  }

  ghost function Undated(lines: seq<Line>): set<nat> {
    set i: nat | i < |lines| && lines[i].parent.Some? && lines[i].ms.None?
  }

  ghost function Dated(lines: seq<Line>): set<nat> {
    set i: nat | i < |lines| && lines[i].parent.Some? && lines[i].ms.Some?
  }

  /** Line `i` comes more than a window behind a counted line no later in the log, whosever
      parent it was. */
  predicate Behind(lines: seq<Line>, w: int, i: nat)
    requires i < |lines|
  {
    lines[i].parent.Some? && lines[i].ms.Some? &&
    exists j :: 0 <= j <= i && lines[j].parent.Some? && lines[j].ms.Some? &&
      lines[i].ms.value < lines[j].ms.value - w
  }

  ghost function AllBehind(lines: seq<Line>, w: int): set<nat> {
    set i: nat | i < |lines| && Behind(lines, w, i)
  }

  ghost function Domains(lines: seq<Line>): set<string> {
    set i: nat | i < |lines| && lines[i].parent.Some? :: lines[i].parent.value
  }

  /** What one more line adds to each set of positions. */
  lemma OneMoreLine(lines: seq<Line>, w: int)
    requires lines != []
    ensures var n, earlier := |lines| - 1, lines[..|lines| - 1];
      Parentless(lines) == Parentless(earlier) + (if lines[n].parent.None? then {n} else {}) &&
      Undated(lines) == Undated(earlier) + (if lines[n].parent.Some? && lines[n].ms.None? then {n} else {}) &&
      Dated(lines) == Dated(earlier) + (if Timed(lines[n]) then {n} else {}) &&
      AllBehind(lines, w) == AllBehind(earlier, w) + (if Behind(lines, w, n) then {n} else {}) &&
      Domains(lines) == Domains(earlier) + (if lines[n].parent.Some? then {lines[n].parent.value} else {})
  {
    var n, earlier := |lines| - 1, lines[..|lines| - 1];
    forall i: nat | i < n ensures Behind(lines, w, i) <==> Behind(earlier, w, i) {
    }
    assert forall d :: d in Domains(earlier) ==> d in Domains(lines);
    assert lines[n].parent.Some? ==> lines[n].parent.value in Domains(lines);
  }

  /** No parent's mark is past the log's. */
  predicate MarksBounded(parents: map<string, Window>, hwm: Option<int>) {
    forall p :: p in parents && parents[p].hwm.Some? ==> hwm.Some? && parents[p].hwm.value <= hwm.value
  }

  lemma {:induction false} GlobalIsNewest(lines: seq<Line>)
    ensures GlobalNewest(lines).None? <==> forall i :: 0 <= i < |lines| ==> !Timed(lines[i])
    ensures GlobalNewest(lines).Some? ==>
      (forall i :: 0 <= i < |lines| && Timed(lines[i]) ==> lines[i].ms.value <= GlobalNewest(lines).value) &&
      exists i :: 0 <= i < |lines| && Timed(lines[i]) && lines[i].ms == GlobalNewest(lines)
  {
    if lines != [] {
      var n := |lines| - 1;
      GlobalIsNewest(lines[..n]);
      GlobalSeen(lines);
    }
  }

  /** With the global mark in hand, lateness is the existence of a newer counted line. */
  lemma LateIffBehind(lines: seq<Line>, st: Window, w: int)
    requires lines != [] && Timed(lines[|lines| - 1])
    requires var h := GlobalNewest(lines[..|lines| - 1]);
      st.hwm.Some? ==> h.Some? && st.hwm.value <= h.value
    ensures var n := |lines| - 1;
      GlobalNewest(lines).Some? &&
      (IsLate(st, GlobalNewest(lines).value, lines[n].ms.value, w) <==> Behind(lines, w, n))
  {
    hide IsLate;
    var n := |lines| - 1;
    GlobalIsNewest(lines);
    LateIs(st, GlobalNewest(lines).value, lines[n].ms.value, w);
    var j :| 0 <= j < |lines| && Timed(lines[j]) && lines[j].ms == GlobalNewest(lines);
  }

  ghost predicate CountersOf(s: State, lines: seq<Line>, w: int) {
    s.records == |lines| && s.noParent == |Parentless(lines)| && s.untimed == |Undated(lines)| &&
    s.timed == |Dated(lines)| && s.late == |AllBehind(lines, w)| && s.hwm == GlobalNewest(lines) &&
    s.parents.Keys == Domains(lines) && MarksBounded(s.parents, s.hwm)
  }

  lemma EnterCounts(s: State, ms: int, name: string, p: string, w: int, every: nat)
    requires MarksBounded(s.parents, s.hwm)
    ensures var e, hwm := MaybeSweep(Enter(s, ms, name, p, w), w, every), Raise(s.hwm, ms);
      e.records == s.records && e.noParent == s.noParent && e.untimed == s.untimed && e.timed == s.timed + 1 &&
      e.late == s.late + (if IsLate(WindowOf(s, p), hwm.value, ms, w) then 1 else 0) &&
      e.hwm == hwm && e.parents.Keys == s.parents.Keys + {p} && MarksBounded(e.parents, hwm)
  {
    hide IsLate, Step;
    StepMarks(WindowOf(s, p), ms, name, w);
    var entered, hwm := Enter(s, ms, name, p, w), Raise(s.hwm, ms);
    assert MarksBounded(entered.parents, hwm);
    assert forall q :: q in entered.parents ==> SweepOne(entered.parents[q], hwm.value - w).hwm == entered.parents[q].hwm;
  }

  /** Every counter over every log, whatever the interval: lines, lines without a parent, without
      a time, counted, and late ones, which are those more than a window behind a counted line no
      later in the log; and the parents seen. */
  lemma {:induction false} CountersAre(lines: seq<Line>, w: int, every: nat)
    ensures CountersOf(RunLines(lines, w, every), lines, w)
  {
    if lines == [] {
      assert Domains(lines) == {};
      NothingCounted(w);
    } else {
      hide CountersOf, RunLines;
      CountersAre(lines[..|lines| - 1], w, every);
      RunStep(lines, w, every);
      LineCounts(RunLines(lines[..|lines| - 1], w, every), lines, w, every);
    }
  }

  lemma NothingCounted(w: int)
    ensures CountersOf(INITIAL, [], w)
  {
    assert Domains([]) == {} && Parentless([]) == {} && Undated([]) == {} && Dated([]) == {} && AllBehind([], w) == {};
  }

  /** The sizes of those sets as one more line comes. */
  lemma SizesGrow(lines: seq<Line>, w: int)
    requires lines != []
    ensures var line, earlier := lines[|lines| - 1], lines[..|lines| - 1];
      |Parentless(lines)| == |Parentless(earlier)| + (if line.parent.None? then 1 else 0) &&
      |Undated(lines)| == |Undated(earlier)| + (if line.parent.Some? && line.ms.None? then 1 else 0) &&
      |Dated(lines)| == |Dated(earlier)| + (if Timed(line) then 1 else 0) &&
      |AllBehind(lines, w)| == |AllBehind(earlier, w)| + (if Behind(lines, w, |lines| - 1) then 1 else 0)
  {
    hide Behind, Parentless, Undated, Dated, AllBehind, Domains;
    OneMoreLine(lines, w);
    OnlyBefore(lines[..|lines| - 1], w);
  }

  /** What one line does to the counters. */
  lemma LineAdds(s: State, line: Line, w: int, every: nat)
    requires MarksBounded(s.parents, s.hwm)
    ensures var e := AddLine(s, line, w, every);
      e.records == s.records + 1 && e.noParent == s.noParent + (if line.parent.None? then 1 else 0) &&
      e.untimed == s.untimed + (if line.parent.Some? && line.ms.None? then 1 else 0) &&
      e.timed == s.timed + (if Timed(line) then 1 else 0) &&
      e.late == s.late + (if Timed(line) &&
        IsLate(WindowOf(s, line.parent.value), Raise(s.hwm, line.ms.value).value, line.ms.value, w) then 1 else 0) &&
      e.hwm == (if Timed(line) then Raise(s.hwm, line.ms.value) else s.hwm) &&
      e.parents.Keys == s.parents.Keys + (if line.parent.Some? then {line.parent.value} else {}) &&
      MarksBounded(e.parents, e.hwm)
  {
    hide Enter, MaybeSweep, IsLate;
    if line.parent.Some? {
      var p, s1 := line.parent.value, s.(records := s.records + 1);
      if line.ms.Some? {
        EnterCounts(s1, line.ms.value, line.name, p, w, every);
      } else {
        assert MarksBounded(s.parents[p := WindowOf(s1, p)], s.hwm);
      }
    }
  }

  lemma LineCounts(s: State, lines: seq<Line>, w: int, every: nat)
    requires lines != [] && CountersOf(s, lines[..|lines| - 1], w)
    ensures CountersOf(AddLine(s, lines[|lines| - 1], w, every), lines, w)
  {
    hide AddLine, IsLate, Behind, Parentless, Undated, Dated, AllBehind, Domains;
    var line := lines[|lines| - 1];
    SizesGrow(lines, w);
    OneMoreLine(lines, w);
    LineAdds(s, line, w, every);
    UntimedNotBehind(lines, w);
    if Timed(line) {
      BoundedMark(s, line.parent.value);
      LateIffBehind(lines, WindowOf(s, line.parent.value), w);
    }
  }

  lemma BoundedMark(s: State, p: string)
    requires MarksBounded(s.parents, s.hwm)
    ensures var st := WindowOf(s, p);
      st.hwm.Some? ==> s.hwm.Some? && st.hwm.value <= s.hwm.value
  {
  }

  lemma OnlyBefore(lines: seq<Line>, w: int)
    ensures |lines| !in Parentless(lines) && |lines| !in Undated(lines) && |lines| !in Dated(lines)
    ensures |lines| !in AllBehind(lines, w)
  {
  }

  lemma UntimedNotBehind(lines: seq<Line>, w: int)
    requires lines != []
    ensures !Timed(lines[|lines| - 1]) ==> !Behind(lines, w, |lines| - 1)
  {
  }

  // ---------- the largest deque ----------

  /** How many records the window of line `i`'s parent holds once line `i` is in. */
  ghost function SizeAt(lines: seq<Line>, w: int, i: nat): nat
    requires i < |lines| && Timed(lines[i])
  {
    |Contents(Of(lines[..i + 1], lines[i].parent.value), w)|
  }

  /** `most` bounds every size a window ever had, and one window had it. */
  ghost predicate IsLargest(lines: seq<Line>, w: int, most: nat) {
    (forall i: nat :: i < |lines| && Timed(lines[i]) ==> SizeAt(lines, w, i) <= most) &&
    (most > 0 ==> exists i: nat :: i < |lines| && Timed(lines[i]) && SizeAt(lines, w, i) == most)
  }

  lemma {:induction false} LargestUnswept(lines: seq<Line>, w: int, every: nat)
    requires w >= 0 && TimedCount(lines) < every
    ensures IsLargest(lines, w, RunLines(lines, w, every).maxEntries)
  {
    if lines != [] {
      hide IsLargest, RunLines, AddLine;
      var n := |lines| - 1;
      LargestUnswept(lines[..n], w, every);
      RunStep(lines, w, every);
      var s := RunLines(lines[..n], w, every);
      if Timed(lines[n]) {
        UnsweptRun(lines[..n], w, every, lines[n].parent.value);
        LineSize(s, lines[n], w, every);
        SizeIs(lines, w);
      } else {
        UncountedLine(s, lines[n], w, every);
      }
      LargestGrows(lines, w, s.maxEntries);
    }
  }

  lemma LineSize(s: State, line: Line, w: int, every: nat)
    requires Timed(line)
    ensures var st := Step(WindowOf(s, line.parent.value), line.ms.value, line.name, w);
      AddLine(s, line, w, every).maxEntries == Max(s.maxEntries, |st.dq|)
  {
    hide Step, IsLate, SweepParents;
  }

  lemma UncountedLine(s: State, line: Line, w: int, every: nat)
    requires !Timed(line)
    ensures AddLine(s, line, w, every).maxEntries == s.maxEntries
  {
  }

  lemma SizeIs(lines: seq<Line>, w: int)
    requires w >= 0 && lines != [] && Timed(lines[|lines| - 1])
    ensures var n, line := |lines| - 1, lines[|lines| - 1];
      var st := Step(Run(Of(lines[..n], line.parent.value), w), line.ms.value, line.name, w);
      |st.dq| == SizeAt(lines, w, n)
  {
    hide Step, Run, Of, Contents, TimeSorted, Tallies, Distinct, Newest, MaxDistinct, PeakMs;
    var n, p := |lines| - 1, lines[|lines| - 1].parent.value;
    assert lines[..n + 1] == lines;
    OfStep(lines, p, w);
    RunIsWindow(Of(lines, p), w);
    var dq := Run(Of(lines, p), w).dq;
    assert |dq| == |multiset(dq)|;
  }

  lemma LargestGrows(lines: seq<Line>, w: int, most: nat)
    requires lines != [] && IsLargest(lines[..|lines| - 1], w, most)
    ensures var n := |lines| - 1;
      IsLargest(lines, w, if Timed(lines[n]) then Max(most, SizeAt(lines, w, n)) else most)
  {
    hide Of, Contents, SizeAt;
    var n, earlier := |lines| - 1, lines[..|lines| - 1];
    forall i: nat | i < n && Timed(lines[i]) ensures SizeAt(lines, w, i) == SizeAt(earlier, w, i) {
      SamePrefix(lines, w, i);
    }
    if most > 0 {
      var i: nat :| i < n && Timed(earlier[i]) && SizeAt(earlier, w, i) == most;
      assert SizeAt(lines, w, i) == most;
    }
  }

  lemma SamePrefix(lines: seq<Line>, w: int, i: nat)
    requires i + 1 < |lines| && Timed(lines[i])
    ensures SizeAt(lines, w, i) == SizeAt(lines[..|lines| - 1], w, i)
  {
    assert lines[..|lines| - 1][..i + 1] == lines[..i + 1];
  }

  /** The largest deque is the largest number of surviving records any parent had at one time, for
      every interval when no line reaches back. */
  lemma LargestIs(lines: seq<Line>, w: int, every: nat)
    requires w >= 0 && NoLateReturn(lines, w)
    ensures IsLargest(lines, w, RunLines(lines, w, every).maxEntries)
  {
    hide RunLines, NoLateReturn, IsLargest;
    TimedAtMost(lines);
    LargestUnswept(lines, w, |lines| + 1);
    SweepInvisible(lines, w, every, |lines| + 1);
  }
}
