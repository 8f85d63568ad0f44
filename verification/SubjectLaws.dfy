/** Which events a rule counts together, read off their fields, and the sorting the
    coefficient of variation relies on. */
module SubjectLaws {
  import opened Common
  import opened Detector
  import opened WindowLaws

  /** The event is about `name`: it carries the grouping path and the distinct path if there is
      one; the two account paths are compared folded, every other path as spelled. */
  predicate IsAbout(r: Rule, fold: Fold, name: string, e: Event) {
    r.groupBy in e.fields &&
    (r.distinct.Some? ==> r.distinct.value in e.fields) &&
    if r.groupBy == "actor.user.name" || r.groupBy == "unmapped.target_user.name"
    then fold(e.fields[r.groupBy]) == name
    else e.fields[r.groupBy] == name
  }

  /** The events about `name`, in arrival order. */
  function About(r: Rule, fold: Fold, evs: seq<Event>, name: string): seq<Event> {
    if evs == [] then []
    else
      var n := |evs| - 1;
      if IsAbout(r, fold, name, evs[n]) then About(r, fold, evs[..n], name) + [evs[n]] else About(r, fold, evs[..n], name)
  }

  lemma AboutIsKey(r: Rule, fold: Fold, name: string, e: Event)
    ensures IsAbout(r, fold, name, e) <==> KeyOf(r, fold, e) == Some(name)
  {
  }

  lemma {:induction false} AboutInOneGroup(r: Rule, fold: Fold, evs: seq<Event>, name: string)
    ensures InOneGroup(r, fold, About(r, fold, evs, name), name)
  {
    if evs != [] {
      hide KeyOf, IsAbout;
      var n := |evs| - 1;
      AboutInOneGroup(r, fold, evs[..n], name);
      AboutIsKey(r, fold, name, evs[n]);
    }
  }

  /** The list of a group is the list of its own events alone. */
  lemma {:induction false} GroupOfAbout(r: Rule, fold: Fold, evs: seq<Event>, name: string)
    ensures Group(r, fold, evs, name) == Group(r, fold, About(r, fold, evs, name), name)
  {
    if evs != [] {
      hide KeyOf, IsAbout, Observe;
      var n := |evs| - 1;
      GroupOfAbout(r, fold, evs[..n], name);
      AboutIsKey(r, fold, name, evs[n]);
      if IsAbout(r, fold, name, evs[n]) {
        var earlier := About(r, fold, evs[..n], name);
        assert (earlier + [evs[n]])[..|earlier|] == earlier;
      }
    }
  }

  lemma FiresWithNext(r: Rule, fold: Fold, evs: seq<Event>)
    requires evs != []
    ensures var n := |evs| - 1;
      Fires(r, fold, evs) <==> Fires(r, fold, evs[..n]) || Alarm(r, fold, evs, n)
  {
    hide FiresAtEnd, KeyOf;
    var n := |evs| - 1;
    forall k | 0 <= k < n ensures Alarm(r, fold, evs, k) <==> Alarm(r, fold, evs[..n], k) {
      assert evs[..n][..k + 1] == evs[..k + 1];
    }
  }

  /** The newest event alarms in the whole arrival exactly as it does among its own. */
  lemma AlarmAmongOwn(r: Rule, fold: Fold, evs: seq<Event>, name: string)
    requires evs != [] && IsAbout(r, fold, name, evs[|evs| - 1])
    ensures var own := About(r, fold, evs, name);
      own != [] && (Alarm(r, fold, evs, |evs| - 1) <==> Alarm(r, fold, own, |own| - 1))
  {
    hide FiresAtEnd, KeyOf, IsAbout;
    var own := About(r, fold, evs, name);
    AboutIsKey(r, fold, name, evs[|evs| - 1]);
    GroupOfAbout(r, fold, evs, name);
    assert own[|own| - 1] == evs[|evs| - 1];
    assert evs[..|evs|] == evs && own[..|own|] == own;
  }

  /** Events about different names never share a count, and an event that lacks the grouping or
      the distinct path is passed over: in any order, a rule of any kind fires on the arrival iff
      it fires on the events about some one name. */
  lemma {:induction false} SubjectsApart(r: Rule, fold: Fold, evs: seq<Event>)
    ensures Fires(r, fold, evs) <==> exists name :: Fires(r, fold, About(r, fold, evs, name))
  {
    if evs == [] {
      NothingFires(r, fold);
    } else {
      hide Alarm, KeyOf, IsAbout, Fires, About;
      var n := |evs| - 1;
      SubjectsApart(r, fold, evs[..n]);
      FiresWithNext(r, fold, evs);
      if Fires(r, fold, evs[..n]) {
        var name :| Fires(r, fold, About(r, fold, evs[..n], name));
        OneMoreAbout(r, fold, evs, name);
      } else if Alarm(r, fold, evs, n) {
        var name := AlarmHasSubject(r, fold, evs);
        OneMoreAbout(r, fold, evs, name);
      }
      if name :| Fires(r, fold, About(r, fold, evs, name)) {
        OneMoreAbout(r, fold, evs, name);
      }
    }
  }

  lemma NothingFires(r: Rule, fold: Fold)
    ensures !Fires(r, fold, []) && forall name :: !Fires(r, fold, About(r, fold, [], name))
  {
  }

  lemma OneMoreAbout(r: Rule, fold: Fold, evs: seq<Event>, name: string)
    requires evs != []
    ensures var n := |evs| - 1;
      Fires(r, fold, About(r, fold, evs, name)) <==>
        Fires(r, fold, About(r, fold, evs[..n], name)) ||
        (IsAbout(r, fold, name, evs[n]) && Alarm(r, fold, evs, n))
  {
    hide Alarm, KeyOf, IsAbout, Fires;
    if IsAbout(r, fold, name, evs[|evs| - 1]) {
      var own := About(r, fold, evs, name);
      AlarmAmongOwn(r, fold, evs, name);
      FiresWithNext(r, fold, own);
      assert own[..|own| - 1] == About(r, fold, evs[..|evs| - 1], name);
    }
  }

  lemma AlarmHasSubject(r: Rule, fold: Fold, evs: seq<Event>) returns (name: string)
    requires evs != [] && Alarm(r, fold, evs, |evs| - 1)
    ensures IsAbout(r, fold, name, evs[|evs| - 1])
  {
    hide FiresAtEnd, KeyOf, IsAbout;
    name := KeyOf(r, fold, evs[|evs| - 1]).value;
    AboutIsKey(r, fold, name, evs[|evs| - 1]);
  }

  /** `t` consecutive events of the burst span at most `w`. */
  predicate FitAt(evs: seq<Event>, t: int, w: int, i: int) {
    0 <= i - (t - 1) < |evs| && 0 <= i < |evs| && evs[i].time - evs[i - (t - 1)].time <= w
  }

  lemma {:induction false} AboutOrdered(r: Rule, fold: Fold, evs: seq<Event>, name: string)
    requires TimeOrdered(evs)
    ensures TimeOrdered(About(r, fold, evs, name))
    ensures forall e :: e in About(r, fold, evs, name) ==> e in evs
  {
    if evs != [] {
      hide IsAbout;
      var n := |evs| - 1;
      AboutOrdered(r, fold, evs[..n], name);
      var earlier := About(r, fold, evs[..n], name);
      forall e | e in earlier ensures e in evs && e.time <= evs[n].time {
        var i :| 0 <= i < n && evs[..n][i] == e;
        assert evs[i] == e;
      }
      assert forall i :: 0 <= i < |earlier| ==> earlier[i] in earlier;
    }
  }

  /** On a time-ordered arrival a plain rule fires iff, for some name, some T consecutive events
      about it fit the window: all spellings of one account together, other paths as spelled. */
  lemma SubjectFiresIff(r: Rule, fold: Fold, evs: seq<Event>)
    requires r.maxCv.None? && r.distinct.None? && r.threshold >= 1 && r.window >= 0 && TimeOrdered(evs)
    ensures Fires(r, fold, evs) <==>
      exists name, i :: FitAt(About(r, fold, evs, name), r.threshold, r.window, i)
  {
    hide Fires, KeyOf, IsAbout, About;
    SubjectsApart(r, fold, evs);
    forall name
      ensures Fires(r, fold, About(r, fold, evs, name)) <==>
        exists i :: FitAt(About(r, fold, evs, name), r.threshold, r.window, i)
    {
      OneSubjectFiresIff(r, fold, About(r, fold, evs, name), evs, name);
    }
  }

  lemma OneSubjectFiresIff(r: Rule, fold: Fold, own: seq<Event>, evs: seq<Event>, name: string)
    requires r.maxCv.None? && r.distinct.None? && r.threshold >= 1 && r.window >= 0 && TimeOrdered(evs)
    requires own == About(r, fold, evs, name)
    ensures Fires(r, fold, own) <==> exists i :: FitAt(own, r.threshold, r.window, i)
  {
    hide Fires, KeyOf, About;
    AboutOrdered(r, fold, evs, name);
    AboutInOneGroup(r, fold, evs, name);
    PlainFiresIff(r, fold, own);
    forall i ensures FitAt(own, r.threshold, r.window, i) <==> Packed(r, own, i) {
    }
  }

  // ---------- any order, distinct rules too ----------

  /** The positions up to `k` whose time is no older than the window of the event at `k`. */
  function InReach(evs: seq<Event>, w: int, k: int): set<int>
    requires 0 <= k < |evs|
  {
    set j | 0 <= j <= k && evs[j].time >= evs[k].time - w
  }

  /** At position `k` enough events are in reach, or enough different values of the counted path. */
  predicate EnoughAt(r: Rule, evs: seq<Event>, k: int) {
    0 <= k < |evs| &&
    match r.distinct
    case None => |InReach(evs, r.window, k)| >= r.threshold
    case Some(path) => |set j | j in InReach(evs, r.window, k) && path in evs[j].fields :: evs[j].fields[path]| >= r.threshold
  }

  function LivePositions(obs: seq<Obs>, from: int): set<int> {
    set j | 0 <= j < |obs| && obs[j].time >= from
  }

  lemma {:induction false} LiveByPosition(obs: seq<Obs>, from: int)
    ensures |Live(obs, from)| == |LivePositions(obs, from)|
    ensures forall o :: o in Live(obs, from) <==> o in obs && o.time >= from
  {
    if obs == [] {
      assert LivePositions(obs, from) == {};
    } else {
      var n := |obs| - 1;
      LiveByPosition(obs[..n], from);
      assert obs == obs[..n] + [obs[n]];
      assert LivePositions(obs, from) == LivePositions(obs[..n], from) + if obs[n].time >= from then {n} else {};
    }
  }

  lemma LiveValues(obs: seq<Obs>, from: int)
    ensures Values(Live(obs, from)) == set j | j in LivePositions(obs, from) :: obs[j].value
  {
    LiveByPosition(obs, from);
    var live, names := Live(obs, from), set j | j in LivePositions(obs, from) :: obs[j].value;
    forall v | v in Values(live) ensures v in names {
      var o :| o in live && o.value == v;
      var j :| 0 <= j < |obs| && obs[j] == o;
      assert j in LivePositions(obs, from);
    }
    forall v | v in names ensures v in Values(live) {
      var j :| j in LivePositions(obs, from) && obs[j].value == v;
      assert obs[j] in live;
    }
  }

  lemma {:induction false} SomesOf(names: set<string>)
    ensures |set s | s in names :: Some(s)| == |names|
  {
    if names != {} {
      var s :| s in names;
      SomesOf(names - {s});
      assert (set x | x in names :: Some(x)) == (set x | x in names - {s} :: Some(x)) + {Some(s)};
    }
  }

  /** At any event of a one-name arrival a rule without a periodicity bound alarms iff there is
      enough in reach. */
  lemma AlarmIffEnough(r: Rule, fold: Fold, evs: seq<Event>, name: string, k: nat)
    requires r.maxCv.None? && InOneGroup(r, fold, evs, name) && k < |evs|
    ensures Alarm(r, fold, evs, k) <==> EnoughAt(r, evs, k)
  {
    hide KeyOf, Group, Live, Regular, InReach, Values;
    var seen, from := evs[..k + 1], evs[k].time - r.window;
    var g := Group(r, fold, seen, name);
    GroupIsBurst(r, fold, seen, name);
    NewestEntry(r, fold, seen, name);
    LiveByPosition(g, from);
    LiveValues(g, from);
    assert LivePositions(g, from) == InReach(evs, r.window, k) by {
      SamePositions(g, evs, r, k);
    }
    if r.distinct.Some? {
      ValuesInReach(r, fold, evs, name, k, g);
    }
  }

  lemma SamePositions(g: seq<Obs>, evs: seq<Event>, r: Rule, k: nat)
    requires k < |evs| && |g| == k + 1 && forall i :: 0 <= i <= k ==> g[i] == Observe(r, evs[i])
    ensures LivePositions(g, evs[k].time - r.window) == InReach(evs, r.window, k)
  {
  }

  lemma ValuesInReach(r: Rule, fold: Fold, evs: seq<Event>, name: string, k: nat, g: seq<Obs>)
    requires r.distinct.Some? && InOneGroup(r, fold, evs, name)
    requires k < |evs| && |g| == k + 1 && forall i :: 0 <= i <= k ==> g[i] == Observe(r, evs[i])
    ensures |set j | j in InReach(evs, r.window, k) && r.distinct.value in evs[j].fields :: evs[j].fields[r.distinct.value]|
      == |set j | j in InReach(evs, r.window, k) :: g[j].value|
  {
    var d := r.distinct.value;
    var names := set j | j in InReach(evs, r.window, k) && d in evs[j].fields :: evs[j].fields[d];
    SomesOf(names);
    forall i | 0 <= i < |evs| ensures d in evs[i].fields {
      assert KeyOf(r, fold, evs[i]) == Some(name);
    }
    assert (set j | j in InReach(evs, r.window, k) :: g[j].value) == set s | s in names :: Some(s);
  }

  /** In any arrival order a rule without a periodicity bound fires iff, for some name, an event
      about it has enough events, or enough different values, of that name in reach behind it. */
  lemma AnyOrderFiresIff(r: Rule, fold: Fold, evs: seq<Event>)
    requires r.maxCv.None?
    ensures Fires(r, fold, evs) <==> exists name, k :: EnoughAt(r, About(r, fold, evs, name), k)
  {
    hide Alarm, KeyOf, IsAbout, About, EnoughAt;
    SubjectsApart(r, fold, evs);
    forall name, k: nat | k < |About(r, fold, evs, name)|
      ensures Alarm(r, fold, About(r, fold, evs, name), k) <==> EnoughAt(r, About(r, fold, evs, name), k)
    {
      AboutInOneGroup(r, fold, evs, name);
      AlarmIffEnough(r, fold, About(r, fold, evs, name), name, k);
    }
    if name, k :| EnoughAt(r, About(r, fold, evs, name), k) {
      EnoughInRange(r, About(r, fold, evs, name), k);
      assert Alarm(r, fold, About(r, fold, evs, name), k);
    }
  }

  lemma EnoughInRange(r: Rule, evs: seq<Event>, k: int)
    requires EnoughAt(r, evs, k)
    ensures 0 <= k < |evs|
  {
  }

  /** Two spellings of one account count together; elsewhere two spellings are two subjects. */
  lemma SpellingsDecide(fold: Fold, path: string, a: string, b: string, w: int, gap: int)
    requires fold(a) == fold(b) && a != b && 0 <= gap <= w
    ensures var r := Rule(2, w, path, None, None);
      var evs := [Event(0, map[path := a]), Event(gap, map[path := b])];
      Fires(r, fold, evs) <==> path == "actor.user.name" || path == "unmapped.target_user.name"
  {
    hide Fires;
    var r := Rule(2, w, path, None, None);
    var evs := [Event(0, map[path := a]), Event(gap, map[path := b])];
    SubjectFiresIff(r, fold, evs);
    assert evs[..2] == evs && evs[..1] == [evs[0]] && evs[..1][..0] == [];
    forall name ensures About(r, fold, evs, name) ==
      (if IsAbout(r, fold, name, evs[0]) then [evs[0]] else []) + if IsAbout(r, fold, name, evs[1]) then [evs[1]] else []
    {
      assert About(r, fold, evs[..1][..0], name) == [];
    }
    if path == "actor.user.name" || path == "unmapped.target_user.name" {
      assert FitAt(About(r, fold, evs, fold(a)), 2, w, 1);
    }
  }

  // ---------- sorting ----------

  predicate Ascending(ts: seq<int>) {
    forall i, j :: 0 <= i <= j < |ts| ==> ts[i] <= ts[j]
  }

  predicate AtMost(ts: seq<int>, top: int) {
    forall x :: x in multiset(ts) ==> x <= top
  }

  lemma AscendingSnoc(ts: seq<int>, t: int)
    requires Ascending(ts) && AtMost(ts, t)
    ensures Ascending(ts + [t])
  {
    forall i | 0 <= i < |ts| ensures ts[i] <= t {
      assert ts[i] in multiset(ts);
    }
  }

  lemma {:induction false} InsertSorts(sorted: seq<int>, t: int)
    requires Ascending(sorted)
    ensures Ascending(InsertTime(sorted, t)) && multiset(InsertTime(sorted, t)) == multiset(sorted) + multiset{t}
  {
    hide Ascending;
    BoundedByLast(sorted);
    if sorted == [] || sorted[|sorted| - 1] <= t {
      AscendingSnoc(sorted, t);
    } else {
      var n := |sorted| - 1;
      var placed := InsertTime(sorted[..n], t);
      InsertSorts(sorted[..n], t);
      assert sorted == sorted[..n] + [sorted[n]];
      BoundedWith(placed, sorted[..n], t, sorted[n]);
      AscendingSnoc(placed, sorted[n]);
    }
  }

  lemma BoundedWith(placed: seq<int>, sorted: seq<int>, t: int, top: int)
    requires multiset(placed) == multiset(sorted) + multiset{t} && t <= top
    requires AtMost(sorted, top)
    ensures AtMost(placed, top)
  {
  }

  lemma BoundedByLast(sorted: seq<int>)
    requires Ascending(sorted)
    ensures sorted != [] ==> Ascending(sorted[..|sorted| - 1])
    ensures sorted != [] ==> AtMost(sorted, sorted[|sorted| - 1]) && AtMost(sorted[..|sorted| - 1], sorted[|sorted| - 1])
  {
  }

  /** Arrival order does not matter to the variation: the live times are sorted first. */
  lemma {:induction false} TimesAreSorted(ts: seq<int>)
    ensures Ascending(SortTimes(ts)) && multiset(SortTimes(ts)) == multiset(ts)
  {
    if ts != [] {
      var n := |ts| - 1;
      TimesAreSorted(ts[..n]);
      InsertSorts(SortTimes(ts[..n]), ts[n]);
      assert ts == ts[..n] + [ts[n]];
    }
  }
}
