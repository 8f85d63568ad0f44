/** The gate's floor section: the judge of a measurement against a recorded floor, and
    exactly when a clean update satisfies it. */
module FloorCheck {
  import opened Common
  import opened Frontier
  import opened Ratchet
  import opened RatchetLaws

  datatype Failure =
    | NoLongerMeasured(key: string)
    | NoFloor(key: string)
    | NoFields(key: string)
    | Fingerprint(key: string)
    | AxisLost(key: string, field: FieldName)
    | Cheaper(key: string, field: FieldName)
    | FrontierCheaper(key: string)
    | FrontierLost(key: string)

  /** A True table field is tolerated through an open finding of the register. */
  predicate Tolerated(spec: Field, value: Value, name: FieldName, ids: set<string>) {
    name in TABLE_FIELDS && spec.openFinding.Some? && spec.openFinding.value != "" &&
    spec.openFinding.value in ids && value == Flag(true)
  }

  predicate Lapsed(row: Row, fl: RuleFloor, name: FieldName, ids: set<string>) {
    name in fl.fields && name in FieldValues(row) &&
    Worse(fl.fields[name].better, FieldValues(row)[name].value, fl.fields[name].value) &&
    !Tolerated(fl.fields[name], FieldValues(row)[name].value, name, ids)
  }

  /** A lapse on an unratified table row only warns. */
  predicate OnlyWarns(row: Row, name: FieldName) {
    name in TABLE_FIELDS && name !in row.ratified
  }

  predicate HasFloor(floor: Floor, key: string) {
    key in floor.sets && floor.sets[key].fields != map[]
  }

  function FieldFailures(key: string, row: Row, fl: RuleFloor, ids: set<string>): set<Failure> {
    (set name | name in fl.fields && name !in FieldValues(row) :: AxisLost(key, name))
    + (set name | name in fl.fields && Lapsed(row, fl, name, ids) && !OnlyWarns(row, name) :: Cheaper(key, name))
  }

  function RowFailures(key: string, row: Row, fl: RuleFloor, ids: set<string>): set<Failure> {
    (if fl.fingerprint != Some(row.fingerprint) then {Fingerprint(key)} else {})
    + FieldFailures(key, row, fl, ids)
    + (if FrontierWorsened(row, fl) then {FrontierCheaper(key)} else {})
    + (if row.joint.None? && fl.joint.Some? then {FrontierLost(key)} else {})
  }

  /** A floor that outlived its rule-set's measurement. */
  predicate Orphaned(res: Results, floor: Floor, key: string) {
    key in floor.sets && key !in res.rows && !res.partial && (key in floor.waivers || key !in res.stateful)
  }

  function FailuresOf(res: Results, floor: Floor, ids: set<string>, key: string): set<Failure>
    requires key in res.rows
  {
    if key !in floor.sets then {NoFloor(key)}
    else if floor.sets[key].fields == map[] then {NoFields(key)}
    else RowFailures(key, res.rows[key], floor.sets[key], ids)
  }

  function Warnings(row: Row, fl: RuleFloor, ids: set<string>): set<FieldName> {
    set name | name in fl.fields && Lapsed(row, fl, name, ids) && OnlyWarns(row, name)
  }

  ghost predicate IsFailure(res: Results, floor: Floor, ids: set<string>, f: Failure) {
    (f.NoLongerMeasured? && Orphaned(res, floor, f.key)) ||
    (f.key in res.rows && f in FailuresOf(res, floor, ids, f.key))
  }

  method CheckFields(key: string, row: Row, fl: RuleFloor, ids: set<string>)
    returns (fail: seq<Failure>, warn: seq<FieldName>)
    ensures Elements(fail) == FieldFailures(key, row, fl, ids)
    ensures Elements(warn) == Warnings(row, fl, ids)
  {
    fail, warn := [], [];
    var todo := fl.fields.Keys;
    var cur := FieldValues(row);
    while todo != {}
      invariant todo <= fl.fields.Keys
      invariant forall f :: f in fail <==> f in FieldFailures(key, row, fl, ids) && f.field !in todo
      invariant forall name :: name in warn <==> name in Warnings(row, fl, ids) && name !in todo
      decreases todo
    {
      hide FieldValues, Worse;
      var name :| name in todo;
      todo := todo - {name};
      var spec := fl.fields[name];
      if name !in cur {
        fail := fail + [AxisLost(key, name)];
        continue;
      }
      var val := cur[name].value;
      if !Worse(spec.better, val, spec.value) {
        continue;
      }
      if name in TABLE_FIELDS {
        if spec.openFinding.Some? && spec.openFinding.value != "" && spec.openFinding.value in ids && val == Flag(true) {
          continue;
        }
        if name in row.ratified {
          fail := fail + [Cheaper(key, name)];
        } else {
          warn := warn + [name];
        }
        continue;
      }
      fail := fail + [Cheaper(key, name)];
    }
  }

  method CheckRow(key: string, row: Row, floor: Floor, ids: set<string>, res: Results)
    returns (fail: seq<Failure>, warn: seq<FieldName>)
    requires key in res.rows && res.rows[key] == row
    ensures Elements(fail) == FailuresOf(res, floor, ids, key)
    ensures Elements(warn) == if HasFloor(floor, key) then Warnings(row, floor.sets[key], ids) else {}
  {
    fail, warn := [], [];
    if key !in floor.sets {
      return [NoFloor(key)], [];
    }
    var fl := floor.sets[key];
    if fl.fields == map[] {
      return [NoFields(key)], [];
    }
    hide FieldFailures, Warnings, Elements, Regressed;
    var fields, warned := CheckFields(key, row, fl, ids);
    warn := warned;
    OneElement(Fingerprint(key));
    OneElement(FrontierCheaper(key));
    OneElement(FrontierLost(key));
    fail := if fl.fingerprint != Some(row.fingerprint) then [Fingerprint(key)] else [];
    ElementsConcat(fail, fields);
    fail := fail + fields;
    if row.joint.Some? && fl.joint.Some? {
      if Regressed(fl.joint.value.frontier, row.joint.value.frontier) != {} {
        ElementsConcat(fail, [FrontierCheaper(key)]);
        fail := fail + [FrontierCheaper(key)];
      }
    } else if row.joint.None? && fl.joint.Some? {
      ElementsConcat(fail, [FrontierLost(key)]);
      fail := fail + [FrontierLost(key)];
    }
  }

  lemma OneElement<T>(x: T)
    ensures Elements([x]) == {x} && Elements<T>([]) == {}
  {
  }

  method CheckFloors(res: Results, floor: Floor, ids: set<string>) returns (fail: seq<Failure>)
    ensures forall f :: f in fail <==> IsFailure(res, floor, ids, f)
  {
    fail := [];
    var unmeasured := floor.sets.Keys - res.rows.Keys;
    while unmeasured != {}
      invariant unmeasured <= floor.sets.Keys - res.rows.Keys
      invariant forall f :: f in fail <==> f.NoLongerMeasured? && Orphaned(res, floor, f.key) && f.key !in unmeasured
      decreases unmeasured
    {
      var key :| key in unmeasured;
      unmeasured := unmeasured - {key};
      if res.partial {
        continue;
      }
      if key in floor.waivers || key !in res.stateful {
        fail := fail + [NoLongerMeasured(key)];
      }
    }
    var todo := res.rows.Keys;
    while todo != {}
      invariant todo <= res.rows.Keys
      invariant forall f :: f in fail <==> IsFailure(res, floor, ids, f) && f.key !in todo
      decreases todo
    {
      hide FailuresOf;
      var key :| key in todo;
      todo := todo - {key};
      var more, warn := CheckRow(key, res.rows[key], floor, ids, res);
      FailuresAreAbout(res, floor, ids, key);
      fail := fail + more;
    }
  }

  lemma FailuresAreAbout(res: Results, floor: Floor, ids: set<string>, key: string)
    requires key in res.rows
    ensures forall f :: f in FailuresOf(res, floor, ids, key) ==> f.key == key && !f.NoLongerMeasured?
  {
    hide FieldValues, Lapsed, Regressed;
  }

  // ---------- the gate against the ratchet ----------

  /** Each recorded direction is the one its name settles, as every update writes it. */
  predicate DirectionsByName(fl: RuleFloor) {
    forall name :: name in fl.fields ==>
      fl.fields[name].better == if MoreIsBetter(name) then MaxIsBetter else MinIsBetter
  }

  /** The row gives ground on a field, by the values themselves. */
  predicate GroundGiven(row: Row, fl: RuleFloor, name: FieldName) {
    name in fl.fields && MeasuredIn(row, name).Some? &&
    GivesGround(name, fl.fields[name].value, MeasuredIn(row, name).value)
  }

  /** A table field that is now true, under an open finding the register still lists. */
  predicate Excused(row: Row, fl: RuleFloor, name: FieldName, ids: set<string>) {
    (name == RespellingEvades || name == ForgeryEvades || name == ClockForgeable) &&
    name in fl.fields && MeasuredIn(row, name) == Some(Flag(true)) &&
    fl.fields[name].openFinding.Some? && fl.fields[name].openFinding.value != "" && fl.fields[name].openFinding.value in ids
  }

  lemma LapsedIff(row: Row, fl: RuleFloor, name: FieldName, ids: set<string>)
    requires DirectionsByName(fl)
    ensures Lapsed(row, fl, name, ids) <==> GroundGiven(row, fl, name) && !Excused(row, fl, name, ids)
  {
    hide FieldValues, Worse, Below;
    MeasuresAre(row, name);
    if name in FieldValues(row) && name in fl.fields {
      WorseIsBelow(FieldValues(row)[name].value, fl.fields[name].value);
    }
  }

  /** What the gate says of one field: a failure when it gives ground, is not excused, and is not
      an unratified table field, on which it only warns; a failure when it is no longer measured;
      and otherwise nothing. */
  lemma GateOnField(key: string, row: Row, fl: RuleFloor, ids: set<string>, name: FieldName)
    requires DirectionsByName(fl)
    ensures var table := name == RespellingEvades || name == ForgeryEvades || name == ClockForgeable;
      (Cheaper(key, name) in FieldFailures(key, row, fl, ids) <==>
        GroundGiven(row, fl, name) && !Excused(row, fl, name, ids) && (!table || name in row.ratified)) &&
      (name in Warnings(row, fl, ids) <==>
        GroundGiven(row, fl, name) && !Excused(row, fl, name, ids) && table && name !in row.ratified)
    ensures AxisLost(key, name) in FieldFailures(key, row, fl, ids) <==> name in fl.fields && MeasuredIn(row, name).None?
  {
    hide FieldValues, Lapsed, GroundGiven, Excused;
    LapsedIff(row, fl, name, ids);
    LapsedIsRecorded(row, fl, name, ids);
    MeasuresAre(row, name);
  }

  lemma LapsedIsRecorded(row: Row, fl: RuleFloor, name: FieldName, ids: set<string>)
    ensures Lapsed(row, fl, name, ids) ==> name in fl.fields
  {
    hide FieldValues, Worse;
  }

  /** Two judges of one move: a name the update would lower is a failure, a warning or excused at
      the gate, and no other name is. */
  lemma GateMatchesWorsened(key: string, row: Row, fl: RuleFloor, ids: set<string>, name: FieldName)
    requires DirectionsByName(fl)
    ensures name in Worsened(row, fl) <==>
      Cheaper(key, name) in FieldFailures(key, row, fl, ids) || name in Warnings(row, fl, ids) ||
      (GroundGiven(row, fl, name) && Excused(row, fl, name, ids))
    ensures name in Lost(row, fl) <==> AxisLost(key, name) in FieldFailures(key, row, fl, ids)
  {
    hide FieldValues, Worsened, Lost, Warnings, FieldFailures, Excused;
    GateOnField(key, row, fl, ids, name);
    WorsenedIff(row, fl, name);
    LostIff(row, fl, name);
  }

  /** Apart from the fingerprint and a recorded frontier that was not measured, the gate finds
      nothing, warns of nothing and excuses nothing on a row iff the strict update would lower
      nothing. */
  lemma GateAgreesWithRatchet(key: string, row: Row, fl: RuleFloor, ids: set<string>)
    requires DirectionsByName(fl)
    ensures NothingLowered(row, fl) <==>
      RowFailures(key, row, fl, ids) <= {Fingerprint(key), FrontierLost(key)} && Warnings(row, fl, ids) == {} &&
      forall name :: !(GroundGiven(row, fl, name) && Excused(row, fl, name, ids))
  {
    hide FieldValues, Worsened, Lost, FieldFailures, GroundGiven, Excused, Warnings, FrontierWorsened;
    forall name ensures (name in Worsened(row, fl) <==>
        Cheaper(key, name) in FieldFailures(key, row, fl, ids) || name in Warnings(row, fl, ids) ||
        (GroundGiven(row, fl, name) && Excused(row, fl, name, ids))) &&
      (name in Lost(row, fl) <==> AxisLost(key, name) in FieldFailures(key, row, fl, ids))
    {
      GateMatchesWorsened(key, row, fl, ids, name);
    }
    FieldFailureKinds(key, row, fl, ids);
    if name :| name in Worsened(row, fl) && Cheaper(key, name) in FieldFailures(key, row, fl, ids) {
      assert Cheaper(key, name) in RowFailures(key, row, fl, ids);
    }
    if name :| name in Lost(row, fl) {
      assert AxisLost(key, name) in RowFailures(key, row, fl, ids);
    }
    if FrontierWorsened(row, fl) {
      assert FrontierCheaper(key) in RowFailures(key, row, fl, ids);
    }
  }

  lemma FieldFailureKinds(key: string, row: Row, fl: RuleFloor, ids: set<string>)
    ensures forall f :: f in FieldFailures(key, row, fl, ids) ==>
      (f.AxisLost? && f.key == key) || (f.Cheaper? && f.key == key)
  {
    hide FieldValues, Lapsed;
  }

  /** The row's other failures, and what the gate makes of a rule-set whose measurement went away. */
  lemma GateOnRest(res: Results, floor: Floor, ids: set<string>, key: string)
    requires key in res.rows
    ensures var fails := FailuresOf(res, floor, ids, key);
      (NoFloor(key) in fails <==> key !in floor.sets) &&
      (key in floor.sets ==>
        (NoFields(key) in fails <==> floor.sets[key].fields == map[]) &&
        (floor.sets[key].fields != map[] ==>
          (Fingerprint(key) in fails <==> floor.sets[key].fingerprint != Some(res.rows[key].fingerprint)) &&
          (FrontierCheaper(key) in fails <==> FrontierWorsened(res.rows[key], floor.sets[key])) &&
          (FrontierLost(key) in fails <==> res.rows[key].joint.None? && floor.sets[key].joint.Some?)))
  {
    hide FieldFailures, Regressed;
    if key in floor.sets {
      FieldFailureKinds(key, res.rows[key], floor.sets[key], ids);
    }
  }

  /** A full run: the rule-sets the update would drop are exactly those the gate reports as no longer
      measured, leaving out the stateful ones, which it reports only when waived. */
  lemma GateSeesGone(res: Results, floor: Floor, ids: set<string>, key: string)
    requires !res.partial
    ensures key in Gone(res, floor) <==> IsFailure(res, floor, ids, NoLongerMeasured(key)) && key !in res.stateful
    ensures key in res.stateful ==>
      (IsFailure(res, floor, ids, NoLongerMeasured(key)) <==> key in floor.sets && key !in res.rows && key in floor.waivers)
  {
    hide FieldFailures, Regressed, FailuresOf;
    if key in res.rows {
      FailuresAreAbout(res, floor, ids, key);
    }
  }

  // ---------- update, then check ----------

  /** Re-measuring what was just recorded lapses nowhere. */
  lemma UpdatedRowIsClean(key: string, row: Row, b: RuleFloor, rq: Request, n: RuleFloor, ids: set<string>)
    requires SetUpdated(key, row, b, rq, n) && (rq.MayLower() || NothingLowered(row, b))
    ensures n.fields != map[]
    ensures Warnings(row, n, ids) == {}
    ensures RowFailures(key, row, n, ids) == if row.joint.None? && b.joint.Some? then {FrontierLost(key)} else {}
  {
    hide FieldValues, SetUpdated, Regressed, FieldFailures, Warnings, NothingLowered;
    MeasuredFields(key, row, b, rq, n);
    SameValuesLapseNowhere(key, row, n, ids);
    if row.joint.Some? {
      RegressedReflexive(row.joint.value.frontier);
    }
  }

  lemma SameValuesLapseNowhere(key: string, row: Row, n: RuleFloor, ids: set<string>)
    requires n.fields.Keys == FieldValues(row).Keys
    requires forall name :: name in n.fields ==> n.fields[name].value == FieldValues(row)[name].value
    ensures FieldFailures(key, row, n, ids) == {} && Warnings(row, n, ids) == {}
  {
    hide FieldValues, Tolerated, OnlyWarns;
    forall name ensures !Lapsed(row, n, name, ids) {
      if name in n.fields {
        assert n.fields[name].value == FieldValues(row)[name].value;
      }
    }
  }

  lemma MeasuredFields(key: string, row: Row, b: RuleFloor, rq: Request, n: RuleFloor)
    requires SetUpdated(key, row, b, rq, n) && (rq.MayLower() || NothingLowered(row, b))
    ensures n.fields.Keys == FieldValues(row).Keys && n.fields != map[]
    ensures forall name :: name in n.fields ==> n.fields[name].value == FieldValues(row)[name].value
    ensures n.fingerprint == Some(row.fingerprint)
    ensures n.joint == if row.joint.Some? then row.joint else b.joint
  {
    hide FieldValues, Worse, Regressed, Recorded, Elements, Entry;
    ForgoneMeasured(row);
    assert ForgoneEvents in n.fields;
    EntryMeasures(key, row, rq);
  }

  lemma EntryMeasures(key: string, row: Row, rq: Request)
    ensures forall name :: name in FieldValues(row) ==> Entry(key, name, row, rq).value == FieldValues(row)[name].value
  {
  }

  /** The gate right after an accepted update. Its floor section is clean exactly when no
      measured rule-set has a recorded frontier that was not measured again, and no
      unmeasured rule-set that the update keeps is also waived. */
  lemma UpdateThenCheckIff(res: Results, floor: Floor, rq: Request, next: Floor, ids: set<string>)
    requires Accepted(res, floor, rq) && FloorUpdated(res, floor, rq, next)
    ensures (forall f :: !IsFailure(res, next, ids, f)) <==>
      (forall key :: key in res.rows ==> res.rows[key].joint.Some? || FloorOf(floor, key).joint.None?) &&
      (res.partial || forall key :: key in floor.sets && key !in res.rows && key in res.stateful ==> key !in floor.waivers)
  {
    hide SetUpdated, NothingLowered, RowFailures;
    forall key | key in res.rows
      ensures FailuresOf(res, next, ids, key) == {} <==> res.rows[key].joint.Some? || FloorOf(floor, key).joint.None?
      ensures FailuresOf(res, next, ids, key) != {} ==> FrontierLost(key) in FailuresOf(res, next, ids, key)
    {
      UpdatedRowIsClean(key, res.rows[key], FloorOf(floor, key), rq, next.sets[key], ids);
    }
    hide FailuresOf;
    forall key
      ensures Orphaned(res, next, key) <==>
        !res.partial && key in floor.sets && key !in res.rows && key in res.stateful && key in floor.waivers
    {
      assert key in Gone(res, floor) <==> key in floor.sets && key !in res.rows && key !in res.stateful;
    }
    if key :| key in res.rows && res.rows[key].joint.None? && FloorOf(floor, key).joint.Some? {
      assert IsFailure(res, next, ids, FrontierLost(key));
    }
    if key :| Orphaned(res, next, key) {
      assert IsFailure(res, next, ids, NoLongerMeasured(key));
    }
  }
}
