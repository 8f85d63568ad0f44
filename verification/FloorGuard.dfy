/** The pull-request guard over two floors, and what it can say about whole runs of the
    ratchet. */
module FloorGuard {
  import opened Common
  import opened Frontier
  import opened Ratchet
  import opened RatchetLaws

  datatype Violation = FieldLowered(key: string, field: FieldName) | FrontierLowered(key: string)

  predicate LogGrew(base: RuleFloor, next: RuleFloor) {
    |next.lowered| > |base.lowered|
  }

  predicate FieldMoved(base: RuleFloor, next: RuleFloor, name: FieldName) {
    name in next.fields && name in base.fields &&
    Worse(next.fields[name].better, next.fields[name].value, base.fields[name].value)
  }

  predicate FrontierMoved(base: RuleFloor, next: RuleFloor) {
    next.joint.Some? && base.joint.Some? &&
    next.joint.value.frontier != {} && base.joint.value.frontier != {} &&
    Regressed(base.joint.value.frontier, next.joint.value.frontier) != {}
  }

  /** Moves toward the attacker, common to both floors, that no new log entry accounts for. */
  function AllViolations(base: Floor, next: Floor): set<Violation> {
    (set key, name | key in next.sets && key in base.sets && !LogGrew(base.sets[key], next.sets[key]) &&
      name in next.sets[key].fields && FieldMoved(base.sets[key], next.sets[key], name) :: FieldLowered(key, name))
    + (set key | key in next.sets && key in base.sets && !LogGrew(base.sets[key], next.sets[key]) &&
      FrontierMoved(base.sets[key], next.sets[key]) :: FrontierLowered(key))
  }

  method Violations(base: Floor, next: Floor) returns (out: seq<Violation>)
    ensures Elements(out) == AllViolations(base, next)
  {
    out := [];
    var todo := next.sets.Keys;
    while todo != {}
      invariant todo <= next.sets.Keys
      invariant forall v :: v in out <==> v in AllViolations(base, next) && v.key !in todo
      decreases todo
    {
      hide FieldMoved, FrontierMoved, LogGrew;
      var key :| key in todo;
      todo := todo - {key};
      if key in base.sets {
        var more := SetViolations(key, base.sets[key], next.sets[key]);
        out := out + more;
      }
    }
  }

  predicate Shows(b: RuleFloor, n: RuleFloor, v: Violation) {
    match v
    case FieldLowered(_, name) => FieldMoved(b, n, name)
    case FrontierLowered(_) => FrontierMoved(b, n)
  }

  method SetViolations(key: string, b: RuleFloor, n: RuleFloor) returns (out: seq<Violation>)
    ensures forall v :: v in out <==> v.key == key && !LogGrew(b, n) && Shows(b, n, v)
  {
    out := [];
    var grew := |n.lowered| > |b.lowered|;
    var todo := n.fields.Keys;
    while todo != {}
      invariant todo <= n.fields.Keys
      invariant forall v :: v in out <==> v.key == key && !grew && v.FieldLowered? && v.field !in todo && FieldMoved(b, n, v.field)
      decreases todo
    {
      var name :| name in todo;
      todo := todo - {name};
      if name in b.fields {
        if Worse(n.fields[name].better, n.fields[name].value, b.fields[name].value) && !grew {
          out := out + [FieldLowered(key, name)];
        }
      }
    }
    if n.joint.Some? && b.joint.Some? && n.joint.value.frontier != {} && b.joint.value.frontier != {} && !grew {
      if Regressed(b.joint.value.frontier, n.joint.value.frontier) != {} {
        out := out + [FrontierLowered(key)];
      }
    }
  }

  /** The guard on the values themselves: a field is flagged iff it is recorded on both sides, the
      rule-set's log did not grow, and the new value is further toward the attacker in the
      direction the new record names. */
  lemma GuardFlagsIff(base: Floor, next: Floor, key: string, name: FieldName)
    ensures FieldLowered(key, name) in AllViolations(base, next) <==>
      key in base.sets && key in next.sets && |next.sets[key].lowered| <= |base.sets[key].lowered| &&
      name in base.sets[key].fields && name in next.sets[key].fields &&
      if next.sets[key].fields[name].better == MaxIsBetter
      then Below(next.sets[key].fields[name].value, base.sets[key].fields[name].value)
      else Below(base.sets[key].fields[name].value, next.sets[key].fields[name].value)
  {
    hide Below, Worse;
    if key in base.sets && key in next.sets && name in base.sets[key].fields && name in next.sets[key].fields {
      WorseIsBelow(next.sets[key].fields[name].value, base.sets[key].fields[name].value);
    }
  }

  /** A frontier is flagged iff both sides record one that is not empty, the log did not grow, and
      some new point asks for fewer keys of some kind than every old one. */
  lemma GuardFlagsFrontierIff(base: Floor, next: Floor, key: string)
    requires key in base.sets && key in next.sets && base.sets[key].joint.Some? && next.sets[key].joint.Some?
    requires SameSize(base.sets[key].joint.value.frontier + next.sets[key].joint.value.frontier)
    ensures var before, now := base.sets[key].joint.value.frontier, next.sets[key].joint.value.frontier;
      FrontierLowered(key) in AllViolations(base, next) <==>
      |next.sets[key].lowered| <= |base.sets[key].lowered| && before != {} &&
      exists m :: m in now && forall f :: f in before ==> exists i :: 0 <= i < |m| && m[i] < f[i]
  {
    hide Regressed, FieldMoved;
    RegressedPointwise(base.sets[key].joint.value.frontier, next.sets[key].joint.value.frontier);
  }

  // ---------- what one rule-set keeps ----------

  /** A recorded field either stands untouched, or was re-measured and is no worse. */
  predicate FieldKept(b: Field, n: Field, name: FieldName) {
    n == b || (n.better == BetterOf(name) && !Worse(BetterOf(name), n.value, b.value))
  }

  predicate JointKept(b: Option<Joint>, n: Option<Joint>) {
    b.Some? ==> n.Some? && Regressed(b.value.frontier, n.value.frontier) == {}
  }

  /** Every field is still there and no worse, and the frontier concedes nothing new. */
  predicate NeverWorse(b: RuleFloor, n: RuleFloor) {
    (forall name :: name in b.fields ==> name in n.fields && FieldKept(b.fields[name], n.fields[name], name)) &&
    JointKept(b.joint, n.joint)
  }

  /** The log never shrinks, and when it has not grown nothing got worse. */
  predicate Guarded(b: RuleFloor, n: RuleFloor) {
    |b.lowered| <= |n.lowered| && (|b.lowered| == |n.lowered| ==> NeverWorse(b, n))
  }

  lemma NeverWorseReflexive(b: RuleFloor)
    ensures NeverWorse(b, b)
  {
    if b.joint.Some? {
      RegressedReflexive(b.joint.value.frontier);
    }
  }

  lemma NeverWorseTransitive(a: RuleFloor, b: RuleFloor, c: RuleFloor)
    requires NeverWorse(a, b) && NeverWorse(b, c)
    ensures NeverWorse(a, c)
  {
    forall name | name in a.fields
      ensures name in c.fields && FieldKept(a.fields[name], c.fields[name], name)
    {
      assert name in b.fields;
    }
    if a.joint.Some? {
      RegressedTransitive(a.joint.value.frontier, b.joint.value.frontier, c.joint.value.frontier);
    }
  }

  lemma CleanFieldKept(key: string, row: Row, b: RuleFloor, rq: Request, n: RuleFloor, name: FieldName)
    requires SetUpdated(key, row, b, rq, n) && NothingLowered(row, b) && name in b.fields
    ensures name in n.fields && FieldKept(b.fields[name], n.fields[name], name)
  {
    UpdatedField(key, row, b, rq, n, name);
    hide FieldValues, SetUpdated, FrontierWorsened;
    assert name in FieldValues(row) by {
      assert name !in Lost(row, b);
    }
    assert name !in Worsened(row, b);
    DirectionByName(row, name);
  }

  /** A rule-set update that lowers nothing keeps everything. */
  lemma CleanUpdateKeeps(key: string, row: Row, b: RuleFloor, rq: Request, n: RuleFloor)
    requires SetUpdated(key, row, b, rq, n) && NothingLowered(row, b)
    ensures NeverWorse(b, n)
  {
    hide FieldValues, FieldKept, Worsened, Lost, NewFields, Recorded, Lists, Regressed;
    forall name | name in b.fields
      ensures name in n.fields && FieldKept(b.fields[name], n.fields[name], name)
    {
      CleanFieldKept(key, row, b, rq, n, name);
    }
    if b.joint.Some? {
      RegressedReflexive(b.joint.value.frontier);
    }
  }

  /** An accepted rule-set update records what it lowers. */
  lemma UpdateGuards(key: string, row: Row, b: RuleFloor, rq: Request, n: RuleFloor)
    requires SetUpdated(key, row, b, rq, n) && (rq.MayLower() || NothingLowered(row, b))
    ensures Guarded(b, n)
  {
    hide FieldValues;
    if |b.lowered| == |n.lowered| {
      assert n.lowered[|b.lowered|..] == [];
      assert Elements<Lowering>([]) == {};
      if rq.MayLower() {
        NothingRecorded(row, b, rq);
      }
      CleanUpdateKeeps(key, row, b, rq, n);
    }
  }

  lemma NothingRecorded(row: Row, fl: RuleFloor, rq: Request)
    ensures Recorded(row, fl, rq) == {} <==> NothingLowered(row, fl)
  {
    hide FieldValues, Worse;
    if name :| name in Worsened(row, fl) {
      assert FieldLowering(name, row, fl, rq) in Recorded(row, fl, rq);
    }
    if name :| name in Lost(row, fl) {
      assert LossLowering(name, fl, rq) in Recorded(row, fl, rq);
    }
    if FrontierWorsened(row, fl) {
      assert FrontierLowering(row, fl, rq) in Recorded(row, fl, rq);
    }
  }

  // ---------- whole runs ----------

  /** What one commit of the ratchet does to the file. */
  ghost predicate Committed(a: Floor, b: Floor, rq: Request) {
    b == a || exists res :: Accepted(res, a, rq) && FloorUpdated(res, a, rq, b)
  }

  /** A history of the floor file: floor `i + 1` comes from floor `i` by request `i`. */
  ghost predicate IsHistory(floors: seq<Floor>, requests: seq<Request>) {
    |floors| == |requests| + 1 &&
    forall i :: 0 <= i < |requests| ==> Committed(floors[i], floors[i + 1], requests[i])
  }

  lemma CommitGuards(a: Floor, b: Floor, rq: Request, key: string)
    requires Committed(a, b, rq) && key in a.sets && key in b.sets
    ensures Guarded(a.sets[key], b.sets[key])
  {
    if b == a {
      NeverWorseReflexive(a.sets[key]);
    } else {
      hide SetUpdated, Guarded, NeverWorse, NothingLowered;
      var res :| Accepted(res, a, rq) && FloorUpdated(res, a, rq, b);
      if key in res.rows {
        UpdateGuards(key, res.rows[key], a.sets[key], rq, b.sets[key]);
      } else {
        GuardedReflexive(a.sets[key]);
      }
    }
  }

  lemma GuardedReflexive(b: RuleFloor)
    ensures Guarded(b, b)
  {
    NeverWorseReflexive(b);
  }

  lemma GuardedTransitive(a: RuleFloor, b: RuleFloor, c: RuleFloor)
    requires Guarded(a, b) && Guarded(b, c)
    ensures Guarded(a, c)
  {
    if |a.lowered| == |c.lowered| {
      NeverWorseTransitive(a, b, c);
    }
  }

  lemma {:induction false} HistoryGuards(floors: seq<Floor>, requests: seq<Request>, key: string)
    requires IsHistory(floors, requests)
    requires forall i :: 0 <= i < |floors| ==> key in floors[i].sets
    ensures Guarded(floors[0].sets[key], floors[|floors| - 1].sets[key])
  {
    hide Guarded, Committed;
    var n := |requests|;
    if n == 0 {
      GuardedReflexive(floors[0].sets[key]);
    } else {
      assert floors[..n][n - 1] == floors[n - 1];
      HistoryGuards(floors[..n], requests[..n - 1], key);
      CommitGuards(floors[n - 1], floors[n], requests[n - 1], key);
      GuardedTransitive(floors[0].sets[key], floors[n - 1].sets[key], floors[n].sets[key]);
    }
  }

  /** Nothing recorded for the rule-set moved toward the attacker. */
  ghost predicate MovedNothing(base: RuleFloor, last: RuleFloor) {
    !FrontierMoved(base, last) && forall name :: !FieldMoved(base, last, name)
  }

  ghost predicate KeptThroughout(floors: seq<Floor>, key: string) {
    forall i :: 0 <= i < |floors| ==> key in floors[i].sets
  }

  lemma KeptIsClean(floors: seq<Floor>, requests: seq<Request>, key: string)
    requires IsHistory(floors, requests) && KeptThroughout(floors, key)
    ensures var b, n := floors[0].sets[key], floors[|floors| - 1].sets[key];
      LogGrew(b, n) || MovedNothing(b, n)
  {
    hide IsHistory, NeverWorse, FieldMoved, FrontierMoved;
    HistorySize(floors, requests);
    HistoryGuards(floors, requests, key);
    if !LogGrew(floors[0].sets[key], floors[|floors| - 1].sets[key]) {
      KeptMeansUnmoved(floors[0].sets[key], floors[|floors| - 1].sets[key]);
    }
  }

  lemma HistorySize(floors: seq<Floor>, requests: seq<Request>)
    requires IsHistory(floors, requests)
    ensures |floors| >= 1
  {
  }

  /** Ratchet and guard agree rule-set by rule-set, over any history, lowering or not: whatever
      the guard flags between the first floor and the last is a rule-set that was removed on
      the way. */
  lemma ViolationMeansRemoved(floors: seq<Floor>, requests: seq<Request>, v: Violation)
    requires IsHistory(floors, requests) && v in AllViolations(floors[0], floors[|floors| - 1])
    ensures !KeptThroughout(floors, v.key)
  {
    hide IsHistory, LogGrew, FieldMoved, FrontierMoved;
    if KeptThroughout(floors, v.key) {
      KeptIsClean(floors, requests, v.key);
    }
  }

  /** Exactly when the guard is clean: every rule-set removed on the way and recorded again by
      the end has a longer log than at the start, or moved nothing. */
  lemma GuardCleanIff(floors: seq<Floor>, requests: seq<Request>)
    requires IsHistory(floors, requests)
    ensures var base, last := floors[0], floors[|floors| - 1];
      AllViolations(base, last) == {} <==>
      forall key :: key in base.sets && key in last.sets && !KeptThroughout(floors, key) ==>
        LogGrew(base.sets[key], last.sets[key]) || MovedNothing(base.sets[key], last.sets[key])
  {
    hide IsHistory, LogGrew, FieldMoved, FrontierMoved, KeptThroughout;
    HistorySize(floors, requests);
    var base, last := floors[0], floors[|floors| - 1];
    forall key | key in base.sets && key in last.sets && KeptThroughout(floors, key)
      ensures LogGrew(base.sets[key], last.sets[key]) || MovedNothing(base.sets[key], last.sets[key])
    {
      KeptIsClean(floors, requests, key);
    }
    NoViolationIff(base, last);
  }

  lemma NoViolationIff(base: Floor, last: Floor)
    ensures AllViolations(base, last) == {} <==>
      forall key :: key in base.sets && key in last.sets ==>
        LogGrew(base.sets[key], last.sets[key]) || MovedNothing(base.sets[key], last.sets[key])
  {
    hide LogGrew, FrontierMoved;
    forall key | key in base.sets && key in last.sets && !LogGrew(base.sets[key], last.sets[key]) &&
        !MovedNothing(base.sets[key], last.sets[key])
      ensures AllViolations(base, last) != {}
    {
      if FrontierMoved(base.sets[key], last.sets[key]) {
        assert FrontierLowered(key) in AllViolations(base, last);
      } else {
        var name :| FieldMoved(base.sets[key], last.sets[key], name);
        Flagged(base, last, key, name);
      }
    }
    if v :| v in AllViolations(base, last) {
      assert v.key in base.sets && v.key in last.sets && !LogGrew(base.sets[v.key], last.sets[v.key]);
      assert !MovedNothing(base.sets[v.key], last.sets[v.key]);
    }
  }

  /** In particular the guard finds nothing when no rule-set was removed. */
  lemma HistoryPassesGuard(floors: seq<Floor>, requests: seq<Request>)
    requires IsHistory(floors, requests)
    requires forall key, i :: key in floors[0].sets && 0 <= i < |floors| ==> key in floors[i].sets
    ensures AllViolations(floors[0], floors[|floors| - 1]) == {}
  {
    hide IsHistory;
    HistorySize(floors, requests);
    GuardCleanIff(floors, requests);
  }

  lemma KeptMeansUnmoved(b: RuleFloor, n: RuleFloor)
    requires NeverWorse(b, n)
    ensures !FrontierMoved(b, n) && forall name :: !FieldMoved(b, n, name)
  {
    forall name ensures !FieldMoved(b, n, name) {
      if name in b.fields {
        assert FieldKept(b.fields[name], n.fields[name], name);
      }
    }
  }

  /** Without permission to lower, no rule-set, field or frontier is ever lost or worsened. */
  lemma {:induction false} StrictHistoryNeverWorse(floors: seq<Floor>, requests: seq<Request>, key: string)
    requires IsHistory(floors, requests)
    requires forall i :: 0 <= i < |requests| ==> !requests[i].MayLower()
    requires key in floors[0].sets
    ensures var last := floors[|floors| - 1];
      key in last.sets && NeverWorse(floors[0].sets[key], last.sets[key])
  {
    hide NeverWorse, Committed;
    var n := |requests|;
    if n == 0 {
      NeverWorseReflexive(floors[0].sets[key]);
    } else {
      assert floors[..n][n - 1] == floors[n - 1];
      StrictHistoryNeverWorse(floors[..n], requests[..n - 1], key);
      StrictCommitKeeps(floors[n - 1], floors[n], requests[n - 1], key);
      NeverWorseTransitive(floors[0].sets[key], floors[n - 1].sets[key], floors[n].sets[key]);
    }
  }

  lemma StrictCommitKeeps(a: Floor, b: Floor, rq: Request, key: string)
    requires Committed(a, b, rq) && !rq.MayLower() && key in a.sets
    ensures key in b.sets && NeverWorse(a.sets[key], b.sets[key])
  {
    NeverWorseReflexive(a.sets[key]);
    if b != a {
      hide SetUpdated, NeverWorse, NothingLowered;
      var res :| Accepted(res, a, rq) && FloorUpdated(res, a, rq, b);
      if key in res.rows {
        CleanUpdateKeeps(key, res.rows[key], a.sets[key], rq, b.sets[key]);
      }
    }
  }

  /** The proviso is needed: a rule-set removed with a reason and measured afresh later has
      an empty log, so the guard flags a history the ratchet itself accepted. */
  lemma RemovalEscapesTheLog()
    ensures exists floors, requests ::
      IsHistory(floors, requests) && AllViolations(floors[0], floors[|floors| - 1]) != {}
  {
    hide Committed, FieldValues, NewFields, AllViolations;
    var strong := NEW_SET.(fields := map[ForgoneEvents := Field(MaxIsBetter, Number(10.0), None)]);
    var f0 := Floor(map["k" := strong], {}, []);
    var rq := Request(true, "rule retired", "today", map[]);
    var f1 := Floor(map[], {}, [Removal("today", "k", "rule retired")]);
    var weak := Row(Number(5.0), None, None, map[], false, false, false, false, {}, None, "fp", "", true);
    var res := Results(map["k" := weak], {"k"}, false);
    var remeasured := RuleFloor(NewFields("k", weak, NEW_SET, rq), None, [], Some("fp"), Some(""), true);
    var f2 := Floor(map["k" := remeasured], {}, f1.removed);
    RetiredSet(f0, f1, rq);
    FreshSet(f1, f2, res, weak, remeasured, rq);
    var floors, requests := [f0, f1, f2], [rq, rq];
    assert IsHistory(floors, requests);
    Flagged(f0, f2, "k", ForgoneEvents);
  }

  lemma Flagged(base: Floor, next: Floor, key: string, name: FieldName)
    requires key in base.sets && key in next.sets && !LogGrew(base.sets[key], next.sets[key])
    requires FieldMoved(base.sets[key], next.sets[key], name)
    ensures AllViolations(base, next) != {}
  {
    assert FieldLowered(key, name) in AllViolations(base, next);
  }

  lemma RetiredSet(f0: Floor, f1: Floor, rq: Request)
    requires f0.sets.Keys == {"k"} && rq.MayLower()
    requires f1.sets == map[] && f1.waivers == f0.waivers && f0.removed == []
    requires f1.removed == [Removal(rq.today, "k", rq.reason)]
    ensures Committed(f0, f1, rq)
  {
    var res := Results(map[], {}, false);
    assert Gone(res, f0) == {"k"};
    assert f1.removed[0..] == f1.removed;
    var once := {Removal(rq.today, "k", rq.reason)};
    assert Elements(f1.removed) == once && Removals(rq, {"k"}) == once && |once| == 1;
    assert FloorUpdated(res, f0, rq, f1);
  }

  lemma FreshSet(f1: Floor, f2: Floor, res: Results, row: Row, fl: RuleFloor, rq: Request)
    requires f1.sets == map[] && rq.MayLower() && res == Results(map["k" := row], {"k"}, false) && row.joint.None?
    requires f2 == Floor(map["k" := fl], f1.waivers, f1.removed)
    requires fl == RuleFloor(NewFields("k", row, NEW_SET, rq), None, [], Some(row.fingerprint), Some(row.params), row.reachable)
    ensures Committed(f1, f2, rq)
    ensures ForgoneEvents in fl.fields && fl.fields[ForgoneEvents] == Field(MaxIsBetter, row.forgoneEvents, None)
  {
    hide FieldValues, FieldsAfter;
    FirstUpdate(row, fl, rq);
    assert Elements<Removal>([]) == {};
    assert Gone(res, f1) == {};
    assert f2.removed[|f1.removed|..] == [];
    assert FloorUpdated(res, f1, rq, f2);
  }

  lemma NewSetLowersNothing(row: Row)
    ensures Worsened(row, NEW_SET) == {} && Lost(row, NEW_SET) == {} && !FrontierWorsened(row, NEW_SET)
  {
    hide FieldValues, Worse, Regressed;
  }

  lemma FirstField(row: Row, rq: Request)
    ensures var fields := NewFields("k", row, NEW_SET, rq);
      ForgoneEvents in fields && fields[ForgoneEvents] == Field(MaxIsBetter, row.forgoneEvents, None)
  {
    hide FieldValues, Worsened, Lost;
    NewSetLowersNothing(row);
    ForgoneMeasured(row);
  }

  lemma FirstUpdate(row: Row, fl: RuleFloor, rq: Request)
    requires rq.MayLower() && row.joint.None?
    requires fl == RuleFloor(NewFields("k", row, NEW_SET, rq), None, [], Some(row.fingerprint), Some(row.params), row.reachable)
    ensures SetUpdated("k", row, NEW_SET, rq, fl)
    ensures ForgoneEvents in fl.fields && fl.fields[ForgoneEvents] == Field(MaxIsBetter, row.forgoneEvents, None)
  {
    hide FieldValues, NewFields, Worsened, Lost, FrontierWorsened;
    NewSetLowersNothing(row);
    FirstField(row, rq);
    assert Elements<Lowering>([]) == {};
  }
}
