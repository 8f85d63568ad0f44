/** The ratchet read off the values themselves: which moves it refuses, what it records, and
    what the log then tells. */
module RatchetLaws {
  import opened Common
  import opened Frontier
  import opened Ratchet

  // ---------- the order of values ----------

  /** Immunity is above every number; numbers compare by size, a flag as one or zero. */
  predicate Below(a: Value, b: Value) {
    match (a, b)
    case (Immune, _) => false
    case (_, Immune) => true
    case (Number(x), Number(y)) => x < y
    case (Flag(x), Flag(y)) => !x && y
    case (Number(x), Flag(y)) => if y then x < 1.0 else x < 0.0
    case (Flag(x), Number(y)) => if x then 1.0 < y else 0.0 < y
  }

  /** The fields on which the defender wants more; on the others, less. */
  predicate MoreIsBetter(name: FieldName) {
    name.ForgoneEvents? || name.ExtraSeconds? || name.MinKeys? || name.Other?
  }

  /** The measured value is further toward the attacker than the recorded one. */
  predicate GivesGround(name: FieldName, recorded: Value, measured: Value) {
    if MoreIsBetter(name) then Below(measured, recorded) else Below(recorded, measured)
  }

  /** What a row measures under each name. */
  function MeasuredIn(row: Row, name: FieldName): Option<Value> {
    match name
    case ForgoneEvents => Some(row.forgoneEvents)
    case ExtraSeconds => if row.extraSeconds.None? then None else Some(Number(row.extraSeconds.value))
    case StealthRate => if row.sustainedRate.None? then None else Some(Number(row.sustainedRate.value))
    case MinKeys(kind) => if kind in row.minKeys then Some(row.minKeys[kind]) else None
    case RespellingEvades => Some(Flag(row.respelling))
    case ForgeryEvades => Some(Flag(row.forgery))
    case ClockForgeable => Some(Flag(row.clock))
    case RespellingEvadesMapped => Some(Flag(row.respellingMapped))
    case Other(_) => None
  }

  lemma WorseIsBelow(measured: Value, floor: Value)
    ensures Worse(MaxIsBetter, measured, floor) <==> Below(measured, floor)
    ensures Worse(MinIsBetter, measured, floor) <==> Below(floor, measured)
  {
  }

  lemma MeasuresAre(row: Row, name: FieldName)
    ensures name in FieldValues(row) <==> MeasuredIn(row, name).Some?
    ensures name in FieldValues(row) ==>
      FieldValues(row)[name] == Measure(MeasuredIn(row, name).value, if MoreIsBetter(name) then MaxIsBetter else MinIsBetter)
  {
  }

  lemma WorsenedIff(row: Row, fl: RuleFloor, name: FieldName)
    ensures name in Worsened(row, fl) <==>
      name in fl.fields && MeasuredIn(row, name).Some? &&
      GivesGround(name, fl.fields[name].value, MeasuredIn(row, name).value)
  {
    hide FieldValues, Worse, Below;
    MeasuresAre(row, name);
    if name in FieldValues(row) && name in fl.fields {
      WorseIsBelow(FieldValues(row)[name].value, fl.fields[name].value);
    }
  }

  lemma LostIff(row: Row, fl: RuleFloor, name: FieldName)
    ensures name in Lost(row, fl) <==> name in fl.fields && MeasuredIn(row, name).None?
  {
    hide FieldValues;
    MeasuresAre(row, name);
  }

  // ---------- one rule-set, updated ----------

  lemma UpdatedField(key: string, row: Row, b: RuleFloor, rq: Request, n: RuleFloor, name: FieldName)
    requires SetUpdated(key, row, b, rq, n)
    ensures name in n.fields <==>
      name in FieldValues(row) || (name in b.fields && !rq.MayLower())
    ensures name in FieldValues(row) ==> n.fields[name] == NewField(key, name, row, b, rq)
    ensures name in n.fields && name !in FieldValues(row) ==> n.fields[name] == b.fields[name]
  {
    hide FieldValues, Worsened, Recorded, Elements, NewField;
  }

  lemma RefusedNames(key: string, row: Row, fl: RuleFloor, name: FieldName)
    ensures WorseField(key, name) in RefusalsOf(key, row, fl) <==> name in Worsened(row, fl)
    ensures LostField(key, name) in RefusalsOf(key, row, fl) <==> name in Lost(row, fl)
    ensures WorseFrontier(key) in RefusalsOf(key, row, fl) <==> FrontierWorsened(row, fl)
  {
    hide Worsened, Lost, FrontierWorsened;
  }

  /** Without permission to lower, a measured field stands at the better of what was recorded and
      what was measured, and is refused exactly when the measurement gives ground. */
  lemma StrictFieldLaw(key: string, row: Row, b: RuleFloor, rq: Request, n: RuleFloor, name: FieldName)
    requires SetUpdated(key, row, b, rq, n) && !rq.MayLower() && MeasuredIn(row, name).Some?
    ensures var refused := name in b.fields && GivesGround(name, b.fields[name].value, MeasuredIn(row, name).value);
      name in n.fields &&
      n.fields[name].value == (if refused then b.fields[name].value else MeasuredIn(row, name).value) &&
      (WorseField(key, name) in RefusalsOf(key, row, b) <==> refused)
  {
    hide FieldValues, Worsened, SetUpdated, RefusalsOf, GivesGround;
    MeasuresAre(row, name);
    WorsenedIff(row, b, name);
    UpdatedField(key, row, b, rq, n, name);
    RefusedNames(key, row, b, name);
  }

  /** Immunity once recorded is not given up for any number of keys, and is taken up when measured;
      a table row once safe does not become forgeable unrefused. */
  lemma ImmunityHolds(key: string, row: Row, b: RuleFloor, rq: Request, n: RuleFloor, kind: string)
    requires SetUpdated(key, row, b, rq, n) && !rq.MayLower()
    requires kind in row.minKeys && MinKeys(kind) in b.fields
    ensures b.fields[MinKeys(kind)].value == Immune && row.minKeys[kind] != Immune ==>
      n.fields[MinKeys(kind)] == b.fields[MinKeys(kind)] && WorseField(key, MinKeys(kind)) in RefusalsOf(key, row, b)
    ensures row.minKeys[kind] == Immune ==>
      n.fields[MinKeys(kind)].value == Immune && WorseField(key, MinKeys(kind)) !in RefusalsOf(key, row, b)
  {
    hide FieldValues, SetUpdated, RefusalsOf, Worsened;
    var name := MinKeys(kind);
    StrictFieldLaw(key, row, b, rq, n, name);
    WorsenedIff(row, b, name);
    MeasuresAre(row, name);
    UpdatedField(key, row, b, rq, n, name);
  }

  lemma ForgeryHolds(key: string, row: Row, b: RuleFloor, rq: Request, n: RuleFloor)
    requires SetUpdated(key, row, b, rq, n) && !rq.MayLower()
    requires ForgeryEvades in b.fields && b.fields[ForgeryEvades].value == Flag(false) && row.forgery
    ensures n.fields[ForgeryEvades] == b.fields[ForgeryEvades] && WorseField(key, ForgeryEvades) in RefusalsOf(key, row, b)
  {
    hide FieldValues, SetUpdated, RefusalsOf, Worsened;
    StrictFieldLaw(key, row, b, rq, n, ForgeryEvades);
    WorsenedIff(row, b, ForgeryEvades);
    MeasuresAre(row, ForgeryEvades);
    UpdatedField(key, row, b, rq, n, ForgeryEvades);
  }

  /** Unless it was refused, a measured field carries the open finding of its rule-set exactly when
      it is one of the three table fields. */
  lemma OpenFindingLaw(key: string, row: Row, b: RuleFloor, rq: Request, n: RuleFloor, name: FieldName)
    requires SetUpdated(key, row, b, rq, n) && MeasuredIn(row, name).Some?
    requires rq.MayLower() || !(name in b.fields && GivesGround(name, b.fields[name].value, MeasuredIn(row, name).value))
    ensures name in n.fields && n.fields[name].openFinding ==
      if (name == RespellingEvades || name == ForgeryEvades || name == ClockForgeable) && (key, name) in rq.open
      then Some(rq.open[(key, name)]) else None
  {
    hide FieldValues, SetUpdated, Worsened, GivesGround;
    MeasuresAre(row, name);
    WorsenedIff(row, b, name);
    UpdatedField(key, row, b, rq, n, name);
  }

  // ---------- what the log tells ----------

  /** The entry tells a move from the old record to the new one, with the date and the reason. */
  predicate Tells(e: Lowering, b: RuleFloor, n: RuleFloor, rq: Request) {
    e.date == rq.today && e.reason == rq.reason &&
    match e.subject
    case Scalar(name) =>
      name in b.fields && e.from == LogValue(b.fields[name].value) &&
      if name in n.fields
      then e.to == LogValue(n.fields[name].value) && GivesGround(name, b.fields[name].value, n.fields[name].value)
      else e.to == NotMeasured
    case JointFrontier =>
      b.joint.Some? && n.joint.Some? &&
      e.from == LogFrontier(b.joint.value.frontier) && e.to == LogFrontier(n.joint.value.frontier) &&
      Regressed(b.joint.value.frontier, n.joint.value.frontier) != {}
  }

  /** Something recorded about the subject moved toward the attacker. */
  ghost predicate Moved(subject: Subject, b: RuleFloor, n: RuleFloor) {
    match subject
    case Scalar(name) =>
      name in b.fields && (name !in n.fields || GivesGround(name, b.fields[name].value, n.fields[name].value))
    case JointFrontier =>
      b.joint.Some? && n.joint.Some? && Regressed(b.joint.value.frontier, n.joint.value.frontier) != {}
  }

  lemma FieldEntryTells(key: string, row: Row, b: RuleFloor, rq: Request, n: RuleFloor, name: FieldName)
    requires SetUpdated(key, row, b, rq, n) && rq.MayLower()
    ensures name in Worsened(row, b) ==> Tells(FieldLowering(name, row, b, rq), b, n, rq)
    ensures name in Lost(row, b) ==> Tells(LossLowering(name, b, rq), b, n, rq)
    ensures Moved(Scalar(name), b, n) <==> name in Worsened(row, b) || name in Lost(row, b)
  {
    hide FieldValues, SetUpdated, Worsened, Lost, GivesGround;
    MeasuresAre(row, name);
    WorsenedIff(row, b, name);
    LostIff(row, b, name);
    UpdatedField(key, row, b, rq, n, name);
  }

  lemma FrontierEntryTells(key: string, row: Row, b: RuleFloor, rq: Request, n: RuleFloor)
    requires SetUpdated(key, row, b, rq, n) && rq.MayLower()
    ensures FrontierWorsened(row, b) ==> Tells(FrontierLowering(row, b, rq), b, n, rq)
    ensures Moved(JointFrontier, b, n) <==> FrontierWorsened(row, b)
  {
    hide FieldValues, NewFields, Regressed, Recorded, Elements;
    if b.joint.Some? {
      RegressedReflexive(b.joint.value.frontier);
    }
  }

  /** After an update that was allowed to lower, the new log entries tell every move toward the
      attacker once, old value and new, and tell nothing else. */
  lemma LogTells(key: string, row: Row, b: RuleFloor, rq: Request, n: RuleFloor)
    requires SetUpdated(key, row, b, rq, n) && rq.MayLower()
    ensures b.lowered <= n.lowered
    ensures forall e :: e in n.lowered[|b.lowered|..] ==> Tells(e, b, n, rq)
    ensures forall subject :: Moved(subject, b, n) ==> exists e :: e in n.lowered[|b.lowered|..] && e.subject == subject
    ensures forall i, j :: |b.lowered| <= i < j < |n.lowered| ==> n.lowered[i].subject != n.lowered[j].subject
  {
    NewEntries(key, row, b, rq, n);
    hide SetUpdated, Recorded, Tells, Moved, Elements, Lists;
    var added := n.lowered[|b.lowered|..];
    SubjectsOnce(row, b, rq, added);
    assert forall i :: |b.lowered| <= i < |n.lowered| ==> n.lowered[i] == added[i - |b.lowered|];
    forall e | e in added ensures Tells(e, b, n, rq) {
      EntryTells(key, row, b, rq, n, e);
    }
    forall subject | Moved(subject, b, n) ensures exists e :: e in added && e.subject == subject {
      var e := MoveIsRecorded(key, row, b, rq, n, subject);
    }
  }

  lemma EntryTells(key: string, row: Row, b: RuleFloor, rq: Request, n: RuleFloor, e: Lowering)
    requires SetUpdated(key, row, b, rq, n) && rq.MayLower() && e in Recorded(row, b, rq)
    ensures Tells(e, b, n, rq)
  {
    hide FieldValues, SetUpdated, Recorded, Worsened, Lost, FrontierWorsened, Tells;
    RecordedIs(row, b, rq, e);
    match e.subject
    case Scalar(name) => FieldEntryTells(key, row, b, rq, n, name);
    case JointFrontier => FrontierEntryTells(key, row, b, rq, n);
  }

  lemma MoveIsRecorded(key: string, row: Row, b: RuleFloor, rq: Request, n: RuleFloor, subject: Subject) returns (e: Lowering)
    requires SetUpdated(key, row, b, rq, n) && rq.MayLower() && Moved(subject, b, n)
    ensures e in Recorded(row, b, rq) && e.subject == subject
  {
    hide FieldValues, SetUpdated, Worse, Regressed, Moved, NewFields, GivesGround;
    match subject
    case Scalar(name) =>
      FieldEntryTells(key, row, b, rq, n, name);
      e := if name in Worsened(row, b) then FieldLowering(name, row, b, rq) else LossLowering(name, b, rq);
    case JointFrontier =>
      FrontierEntryTells(key, row, b, rq, n);
      e := FrontierLowering(row, b, rq);
  }

  lemma NewEntries(key: string, row: Row, b: RuleFloor, rq: Request, n: RuleFloor)
    requires SetUpdated(key, row, b, rq, n) && rq.MayLower()
    ensures b.lowered <= n.lowered
    ensures forall e :: e in n.lowered[|b.lowered|..] <==> e in Recorded(row, b, rq)
    ensures Lists(n.lowered[|b.lowered|..], Recorded(row, b, rq))
  {
    hide NewFields, NewJoint, Recorded, NothingLowered;
    forall e ensures e in n.lowered[|b.lowered|..] <==> e in Elements(n.lowered[|b.lowered|..]) {
    }
  }

  /** A move is recorded by one entry only. */
  lemma SubjectsOnce(row: Row, fl: RuleFloor, rq: Request, added: seq<Lowering>)
    requires Lists(added, Recorded(row, fl, rq))
    ensures forall i, j :: 0 <= i < j < |added| ==> added[i].subject != added[j].subject
  {
    hide Recorded, FieldLowering, LossLowering, FrontierLowering, FieldValues, Worsened, Lost, FrontierWorsened;
    ListsOnce(added);
    forall i, j | 0 <= i < j < |added| ensures added[i].subject != added[j].subject {
      assert added[i] in Elements(added) && added[j] in Elements(added);
      RecordedIs(row, fl, rq, added[i]);
      RecordedIs(row, fl, rq, added[j]);
      ApartIs(row, fl);
    }
  }

  lemma ApartIs(row: Row, fl: RuleFloor)
    ensures Worsened(row, fl) !! Lost(row, fl)
  {
    hide FieldValues, Worse;
  }

  lemma RecordedIs(row: Row, fl: RuleFloor, rq: Request, e: Lowering)
    requires e in Recorded(row, fl, rq)
    ensures match e.subject
      case Scalar(name) =>
        (name in Worsened(row, fl) && e == FieldLowering(name, row, fl, rq)) ||
        (name in Lost(row, fl) && e == LossLowering(name, fl, rq))
      case JointFrontier => FrontierWorsened(row, fl) && e == FrontierLowering(row, fl, rq)
  {
    hide FieldValues, Worse, Regressed;
  }

  /** A rule-set that left the floor is recorded once by its key, with the date and the reason, and
      only such rule-sets are. */
  lemma RemovalsTell(res: Results, floor: Floor, rq: Request, next: Floor)
    requires FloorUpdated(res, floor, rq, next)
    ensures floor.removed <= next.removed
    ensures forall key :: key in floor.sets && key !in next.sets ==>
      exists r :: r in next.removed[|floor.removed|..] && r.key == key
    ensures forall r :: r in next.removed[|floor.removed|..] ==>
      rq.MayLower() && r.date == rq.today && r.reason == rq.reason &&
      r.key in floor.sets && r.key !in next.sets && r.key !in res.rows && r.key !in res.stateful
    ensures forall i, j :: |floor.removed| <= i < j < |next.removed| ==> next.removed[i].key != next.removed[j].key
  {
    hide SetUpdated;
    var added := next.removed[|floor.removed|..];
    ListsOnce(added);
    assert forall i :: |floor.removed| <= i < |next.removed| ==>
      next.removed[i] == added[i - |floor.removed|] && next.removed[i] in added;
    forall r ensures r in added <==> r in Elements(added) {
    }
    forall key | key in floor.sets && key !in next.sets ensures exists r :: r in added && r.key == key {
      assert key in Gone(res, floor);
      assert Removal(rq.today, key, rq.reason) in Removals(rq, Gone(res, floor));
    }
  }
}
