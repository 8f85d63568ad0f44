/** The streaming analyzer: one window per parent domain, a global high-water mark and a
    periodic sweep of expired parents. */
module DnsAnalyzer {
  import opened Common
  import opened DnsWindow

  // ---------- the state as a value ----------

  datatype State = State(
    parents: map<string, Window>,
    records: nat, noParent: nat, untimed: nat, timed: nat,
    late: nat, maxEntries: nat,
    hwm: Option<int>, sinceSweep: nat)

  /** A log line after parsing: no timestamp, or no parent domain, is possible. */
  datatype Line = Line(ms: Option<int>, name: string, parent: Option<string>)

  const INITIAL := State(map[], 0, 0, 0, 0, 0, 0, None, 0)

  predicate IsLate(st: Window, global: int, ms: int, w: int) {
    (st.hwm.Some? && ms < st.hwm.value - w) || ms < global - w
  }

  lemma LateIs(st: Window, global: int, ms: int, w: int)
    ensures IsLate(st, global, ms, w) <==> (st.hwm.Some? && ms < st.hwm.value - w) || ms < global - w
  {
  }

  function Freed(st: Window): Window {
    st.(dq := [], tally := EMPTY_TALLY)
  }

  predicate Expired(st: Window, horizon: int) {
    st.dq != [] && st.hwm.Some? && st.hwm.value < horizon
  }

  function SweepOne(st: Window, horizon: int): Window {
    if Expired(st, horizon) then Freed(st) else st
  }

  function SweepParents(parents: map<string, Window>, horizon: int): map<string, Window> {
    map p | p in parents :: SweepOne(parents[p], horizon)
  }

  function Sweep(s: State, w: int): State {
    if s.hwm.None? then s else s.(parents := SweepParents(s.parents, s.hwm.value - w))
  }

  function WindowOf(s: State, parent: string): Window {
    if parent in s.parents then s.parents[parent] else EMPTY_WINDOW
  }

  /** The part of a timed record's handling that touches windows and marks. */
  function Enter(s: State, ms: int, name: string, parent: string, w: int): State {
    var st := WindowOf(s, parent);
    var hwm := Raise(s.hwm, ms);
    var st' := Step(st, ms, name, w);
    s.(parents := s.parents[parent := st'],
       timed := s.timed + 1,
       late := s.late + (if IsLate(st, hwm.value, ms, w) then 1 else 0),
       maxEntries := if |st'.dq| > s.maxEntries then |st'.dq| else s.maxEntries,
       hwm := hwm,
       sinceSweep := s.sinceSweep + 1)
  }

  lemma EnterIs(s: State, after: State, ms: int, name: string, p: string, w: int)
    requires var st, hwm := WindowOf(s, p), Raise(s.hwm, ms);
      var entered := Step(st, ms, name, w);
      after == State(s.parents[p := entered], s.records, s.noParent, s.untimed, s.timed + 1,
        s.late + (if IsLate(st, hwm.value, ms, w) then 1 else 0),
        if |entered.dq| > s.maxEntries then |entered.dq| else s.maxEntries, hwm, s.sinceSweep + 1)
    ensures after == Enter(s, ms, name, p, w)
  {
  }

  function MaybeSweep(s: State, w: int, every: nat): State {
    if s.sinceSweep >= every then Sweep(s.(sinceSweep := 0), w) else s
  }

  function AddLine(s: State, line: Line, w: int, every: nat): State {
    var s := s.(records := s.records + 1);
    if line.parent.None? then s.(noParent := s.noParent + 1)
    else
      var p := line.parent.value;
      if line.ms.None? then s.(parents := s.parents[p := WindowOf(s, p)], untimed := s.untimed + 1)
      else MaybeSweep(Enter(s, line.ms.value, line.name, p, w), w, every)
  }

  function RunLines(lines: seq<Line>, w: int, every: nat): State {
    if lines == [] then INITIAL
    else AddLine(RunLines(lines[..|lines| - 1], w, every), lines[|lines| - 1], w, every)
  }

  // ---------- the objects ----------

  class Parent {
    /** The domain the window belongs to; it keeps two parents from sharing one object. */
    ghost const domain: string
    var dq: seq<Rec>
    var order: seq<string>
    var counts: map<string, nat>
    var hwm: Option<int>
    var maxDistinct: nat
    var peakMs: Option<int>
    var sample: seq<string>

    constructor (ghost domain: string)
      ensures View() == EMPTY_WINDOW && Valid() && this.domain == domain
    {
      this.domain := domain;
      dq, order, counts, hwm, maxDistinct, peakMs, sample := [], [], map[], None, 0, None, [];
    }

    function View(): Window
      reads this
    {
      Window(dq, Tally(order, counts), hwm, maxDistinct, peakMs, sample)
    }

    ghost predicate Valid()
      reads this
    {
      Tallies(View().tally, dq)
    }

    lemma ViewReads()
      ensures View().dq == dq && View().hwm == hwm
    {
    }

    method Enqueue(x: Rec)
      modifies this`dq
      ensures dq == DnsWindow.Enqueue(old(dq), x)
    {
      if dq != [] && x.ms < dq[|dq| - 1].ms {
        var at := InsertionIndex(dq, x);
        dq := dq[..at] + [x] + dq[at..];
      } else {
        dq := dq + [x];
      }
    }

    method CountName(name: string)
      modifies this`order, this`counts
      ensures View().tally == Bump(old(View().tally), name)
    {
      if name in counts {
        counts := counts[name := counts[name] + 1];
      } else {
        counts := counts[name := 1];
        order := order + [name];
      }
    }

    /** One record through the window: insert, count, evict, mark. */
    method Accept(ms: int, name: string, w: int)
      requires Valid()
      modifies this
      ensures Valid() && View() == Step(old(View()), ms, name, w)
    {
      hide Tallies, Evict, Bump, FirstThree, DnsWindow.Enqueue;
      BumpTallies(View().tally, dq, Rec(ms, name));
      Enqueue(Rec(ms, name));
      CountName(name);
      if hwm.None? || ms > hwm.value {
        hwm := Some(ms);
      }
      EvictBefore(ms - w);
      var distinct := |counts|;
      if distinct > maxDistinct {
        maxDistinct := distinct;
        peakMs := hwm;
        sample := FirstThree(order);
      }
    }

    method FreeIfExpired(horizon: int)
      requires Valid()
      modifies this
      ensures Valid() && View() == SweepOne(old(View()), horizon)
    {
      if dq != [] && hwm.Some? && hwm.value < horizon {
        dq := [];
        counts, order := map[], [];
      }
    }

    /** Pops expired entries; the uncounting never meets a missing name. */
    method EvictBefore(horizon: int)
      requires Valid()
      modifies this`dq, this`order, this`counts
      ensures Valid()
      ensures (dq, View().tally) == Evict(old(dq), old(View().tally), horizon)
    {
      while dq != [] && dq[0].ms < horizon
        invariant Valid()
        invariant Evict(dq, View().tally, horizon) == Evict(old(dq), old(View().tally), horizon)
        decreases |dq|
      {
        DropTallies(View().tally, dq);
        var name := dq[0].name;
        assert name in Names(dq);
        var left := counts[name] - 1;
        dq := dq[1..];
        if left != 0 {
          counts := counts[name := left];
        } else {
          counts := counts - {name};
          order := Without(order, name);
        }
      }
    }
  }

  /** The insertion index of the sorted insertion, by bisection. */
  method InsertionIndex(items: seq<Rec>, x: Rec) returns (lo: nat)
    ensures lo == BisectRight(items, x, 0, |items|)
    ensures lo <= |items|
    ensures TimeSorted(items) ==> TimeSorted(items[..lo] + [x] + items[lo..])
  {
    lo := 0;
    var hi := |items|;
    while lo < hi
      invariant lo <= hi <= |items|
      invariant BisectRight(items, x, lo, hi) == BisectRight(items, x, 0, |items|)
    {
      var mid := (lo + hi) / 2;
      if RecLess(x, items[mid]) {
        hi := mid;
      } else {
        lo := mid + 1;
      }
    }
    if TimeSorted(items) {
      BisectKeepsTimes(items, x);
    }
  }

  /** `after` is `before` with the window of `p` replaced by `st`. */
  ghost predicate Updated(before: map<string, Window>, p: string, st: Window, after: map<string, Window>) {
    after.Keys == before.Keys + {p} && after[p] == st &&
    forall q :: q in before && q != p ==> after[q] == before[q]
  }

  lemma UpdatedIs(before: map<string, Window>, p: string, st: Window, after: map<string, Window>)
    requires Updated(before, p, st, after)
    ensures after == before[p := st]
  {
  }

  lemma UpdateTwice(m: map<string, Window>, p: string, a: Window, b: Window)
    ensures m[p := a][p := b] == m[p := b]
  {
  }

  class Analyzer {
    const windowMs: int
    const sweepEvery: nat
    var parents: map<string, Parent>
    var records: nat
    var noParent: nat
    var untimed: nat
    var late: nat
    var timedRecords: nat
    var maxWindowEntries: nat
    var globalHwm: Option<int>
    var sinceSweep: nat

    constructor (windowSeconds: int, sweepEvery: int)
      ensures Valid() && fresh(Objects()) && View() == INITIAL
      ensures windowMs == windowSeconds * 1000 && this.sweepEvery == Max(1, sweepEvery)
    {
      windowMs := windowSeconds * 1000;
      this.sweepEvery := Max(1, sweepEvery);
      parents := map[];
      records, noParent, untimed, late, timedRecords, maxWindowEntries := 0, 0, 0, 0, 0, 0;
      globalHwm, sinceSweep := None, 0;
    }

    ghost function Objects(): set<object>
      reads this`parents
    {
      set p | p in parents :: parents[p]
    }

    /** No two parents share a window object. */
    ghost predicate Valid()
      reads this`parents, Objects()
    {
      forall p :: p in parents ==> parents[p].domain == p && parents[p].Valid()
    }

    function Windows(): map<string, Window>
      reads this`parents, Objects()
    {
      map p | p in parents :: parents[p].View()
    }

    function View(): State
      reads this, Objects()
    {
      State(Windows(), records, noParent, untimed, timedRecords, late, maxWindowEntries, globalHwm, sinceSweep)
    }

    /** The parent's window, created on first sight. */
    method Touch(p: string) returns (st: Parent)
      requires Valid()
      modifies this`parents
      ensures Valid() && fresh(Objects() - old(Objects())) && p in parents && parents[p] == st
      ensures Updated(old(Windows()), p, WindowOf(old(View()), p), Windows())
    {
      hide Parent.View, Parent.Valid;
      if p !in parents {
        st := new Parent(p);
        parents := parents[p := st];
      } else {
        st := parents[p];
      }
    }

    method WindowAdd(ghost p: string, st: Parent, ms: int, name: string)
      requires Valid() && p in parents && parents[p] == st && globalHwm.Some?
      modifies this`late, this`maxWindowEntries, st
      ensures Valid()
      ensures Updated(old(Windows()), p, Step(old(Windows())[p], ms, name, windowMs), Windows())
      ensures late == old(late) + if IsLate(old(Windows())[p], globalHwm.value, ms, windowMs) then 1 else 0
      ensures maxWindowEntries == if |Windows()[p].dq| > old(maxWindowEntries) then |Windows()[p].dq| else old(maxWindowEntries)
    {
      hide Step, IsLate, Parent.Valid, Parent.View;
      st.ViewReads();
      LateIs(st.View(), globalHwm.value, ms, windowMs);
      var w := windowMs;
      var gh := globalHwm.value;
      if (st.hwm.Some? && ms < st.hwm.value - w) || ms < gh - w {
        late := late + 1;
      }
      st.Accept(ms, name, w);
      st.ViewReads();
      if |st.dq| > maxWindowEntries {
        maxWindowEntries := |st.dq|;
      }
    }

    method SweepExpired()
      requires Valid()
      modifies Objects()
      ensures Valid() && Windows() == if globalHwm.None? then old(Windows()) else
        SweepParents(old(Windows()), globalHwm.value - windowMs)
    {
      hide SweepOne, Parent.View, Parent.Valid;
      if globalHwm.None? {
        return;
      }
      var horizon := globalHwm.value - windowMs;
      var todo := parents.Keys;
      ghost var before := Windows();
      while todo != {}
        invariant todo <= parents.Keys && Valid()
        invariant forall p :: p in parents ==>
          parents[p].View() == (if p in todo then before[p] else SweepOne(before[p], horizon))
        decreases todo
      {
        var p :| p in todo;
        todo := todo - {p};
        parents[p].FreeIfExpired(horizon);
      }
    }

    /** The counter and the global mark; no window changes. */
    method NoteTime(ms: int)
      requires Valid()
      modifies this`timedRecords, this`globalHwm
      ensures Valid() && Windows() == old(Windows())
      ensures timedRecords == old(timedRecords) + 1 && globalHwm == Raise(old(globalHwm), ms)
    {
      hide Parent.View, Parent.Valid;
      timedRecords := timedRecords + 1;
      if globalHwm.None? || ms > globalHwm.value {
        globalHwm := Some(ms);
      }
    }

    /** A timed record, up to the sweep. */
    method EnterTimed(p: string, ms: int, name: string)
      requires Valid()
      modifies this, Objects()
      ensures Valid() && fresh(Objects() - old(Objects()))
      ensures View() == Enter(old(View()), ms, name, p, windowMs)
    {
      hide Step, IsLate, WindowOf, Updated, Enter, Windows, Valid, Parent.View, Parent.Valid;
      ghost var before := View();
      var st := Touch(p);
      UpdatedIs(before.parents, p, WindowOf(before, p), Windows());
      NoteTime(ms);
      ghost var touched := Windows();
      WindowAdd(p, st, ms, name);
      UpdatedIs(touched, p, Step(touched[p], ms, name, windowMs), Windows());
      UpdateTwice(before.parents, p, WindowOf(before, p), Step(touched[p], ms, name, windowMs));
      sinceSweep := sinceSweep + 1;
      EnterIs(before, View(), ms, name, p, windowMs);
    }

    method Add(line: Line)
      requires Valid()
      modifies this, Objects()
      ensures Valid() && fresh(Objects() - old(Objects()))
      ensures View() == AddLine(old(View()), line, windowMs, sweepEvery)
    {
      hide Enter, SweepParents, WindowOf, Updated, Windows, Valid, Parent.View, Parent.Valid;
      records := records + 1;
      if line.parent.None? {
        noParent := noParent + 1;
        return;
      }
      if line.ms.None? {
        ghost var before := View();
        var p := line.parent.value;
        var st := Touch(p);
        UpdatedIs(before.parents, p, WindowOf(before, p), Windows());
        untimed := untimed + 1;
        return;
      }
      EnterTimed(line.parent.value, line.ms.value, line.name);
      if sinceSweep >= sweepEvery {
        sinceSweep := 0;
        SweepExpired();
      }
    }
  }
}
