/** The evasion-cost floor: the update that may only move it toward the defender, or
    record that it did not. */
module Ratchet {
  import opened Common
  import opened Frontier

  // ---------- values ----------

  /** A floor value; None and "immune" in the source are both `Immune`. */
  datatype Value = Immune | Number(n: real) | Flag(b: bool)

  datatype Better = MaxIsBetter | MinIsBetter

  datatype Extended = Finite(r: real) | Infinite

  function Num(v: Value): Extended {
    match v
    case Immune => Infinite
    case Number(n) => Finite(n)
    case Flag(b) => Finite(if b then 1.0 else 0.0)
  }

  predicate Less(a: Extended, b: Extended) {
    a.Finite? && (b.Infinite? || a.r < b.r)
  }

  predicate Worse(better: Better, measured: Value, floor: Value) {
    if better == MaxIsBetter then Less(Num(measured), Num(floor)) else Less(Num(floor), Num(measured))
  }

  // ---------- a measured row ----------

  datatype Joint = Joint(kinds: seq<string>, frontier: set<Point>, gridMax: nat)

  datatype Row = Row(
    forgoneEvents: Value,
    extraSeconds: Option<real>,
    sustainedRate: Option<real>,
    minKeys: map<string, Value>,
    respelling: bool, forgery: bool, clock: bool, respellingMapped: bool,
    ratified: set<FieldName>,
    joint: Option<Joint>,
    fingerprint: string,
    params: string,
    reachable: bool)

  datatype Measure = Measure(value: Value, better: Better)

  /** The names a floor field can have; `Other` is one no measurement produces. */
  datatype FieldName =
    | ForgoneEvents | ExtraSeconds | StealthRate
    | MinKeys(kind: string)
    | RespellingEvades | ForgeryEvades | ClockForgeable | RespellingEvadesMapped
    | Other(name: string)

  const TABLE_FIELDS: set<FieldName> := {RespellingEvades, ForgeryEvades, ClockForgeable}

  /** The fields this row measures. */
  function FieldNames(row: Row): set<FieldName> {
    {ForgoneEvents, RespellingEvades, ForgeryEvades, ClockForgeable, RespellingEvadesMapped}
    + (if row.extraSeconds.Some? then {ExtraSeconds} else {})
    + (if row.sustainedRate.Some? then {StealthRate} else {})
    + set kind | kind in row.minKeys :: MinKeys(kind)
  }

  function MeasureOf(row: Row, name: FieldName): Measure
    requires name in FieldNames(row)
  {
    match name
    case ForgoneEvents => Measure(row.forgoneEvents, MaxIsBetter)
    case ExtraSeconds => Measure(Number(row.extraSeconds.value), MaxIsBetter)
    case StealthRate => Measure(Number(row.sustainedRate.value), MinIsBetter)
    case MinKeys(kind) => Measure(row.minKeys[kind], MaxIsBetter)
    case RespellingEvades => Measure(Flag(row.respelling), MinIsBetter)
    case ForgeryEvades => Measure(Flag(row.forgery), MinIsBetter)
    case ClockForgeable => Measure(Flag(row.clock), MinIsBetter)
    case RespellingEvadesMapped => Measure(Flag(row.respellingMapped), MinIsBetter)
  }

  /** The scalar fields a floor can hold. */
  function FieldValues(row: Row): map<FieldName, Measure> {
    map name | name in FieldNames(row) :: MeasureOf(row, name)
  }

  /** A field's direction is settled by its name alone. */
  function BetterOf(name: FieldName): Better {
    match name
    case ForgoneEvents | ExtraSeconds | MinKeys(_) | Other(_) => MaxIsBetter
    case StealthRate | RespellingEvades | ForgeryEvades | ClockForgeable | RespellingEvadesMapped => MinIsBetter
  }

  lemma DirectionByName(row: Row, name: FieldName)
    requires name in FieldValues(row)
    ensures FieldValues(row)[name].better == BetterOf(name)
  {
  }

  lemma ForgoneMeasured(row: Row)
    ensures ForgoneEvents in FieldValues(row) && FieldValues(row)[ForgoneEvents] == Measure(row.forgoneEvents, MaxIsBetter)
  {
    assert ForgoneEvents in FieldNames(row);
  }

  // ---------- a recorded floor ----------

  datatype Field = Field(better: Better, value: Value, openFinding: Option<string>)

  /** Which entry of a rule-set's record a recorded move is about. */
  datatype Subject = Scalar(name: FieldName) | JointFrontier

  datatype Logged = LogValue(v: Value) | LogFrontier(f: set<Point>) | NotMeasured

  /** A recorded move toward the attacker. */
  datatype Lowering = Lowering(date: string, subject: Subject, from: Logged, to: Logged, reason: string)

  datatype RuleFloor = RuleFloor(
    fields: map<FieldName, Field>,
    joint: Option<Joint>,
    lowered: seq<Lowering>,
    fingerprint: Option<string>,
    params: Option<string>,
    reachable: bool)

  datatype Removal = Removal(date: string, key: string, reason: string)

  datatype Floor = Floor(sets: map<string, RuleFloor>, waivers: set<string>, removed: seq<Removal>)

  datatype Results = Results(rows: map<string, Row>, stateful: set<string>, partial: bool)

  /** What the person running the update asked for. */
  datatype Request = Request(allowLower: bool, reason: string, today: string, open: map<(string, FieldName), string>)
  {
    predicate MayLower() { allowLower && reason != "" }
  }

  datatype Refusal =
    | WorseField(key: string, field: FieldName)
    | LostField(key: string, field: FieldName)
    | WorseFrontier(key: string)
    | GoneSet(key: string)

  const NEW_SET := RuleFloor(map[], None, [], None, None, false)

  function FloorOf(floor: Floor, key: string): RuleFloor {
    if key in floor.sets then floor.sets[key] else NEW_SET
  }

  // ---------- what an update does to one rule-set ----------

  function Worsened(row: Row, fl: RuleFloor): set<FieldName> {
    set name | name in FieldValues(row) && name in fl.fields &&
      Worse(FieldValues(row)[name].better, FieldValues(row)[name].value, fl.fields[name].value)
  }

  function Lost(row: Row, fl: RuleFloor): set<FieldName> {
    fl.fields.Keys - FieldValues(row).Keys
  }

  predicate FrontierWorsened(row: Row, fl: RuleFloor) {
    row.joint.Some? && fl.joint.Some? && Regressed(fl.joint.value.frontier, row.joint.value.frontier) != {}
  }

  predicate NothingLowered(row: Row, fl: RuleFloor) {
    Worsened(row, fl) == {} && Lost(row, fl) == {} && !FrontierWorsened(row, fl)
  }

  function Entry(key: string, name: FieldName, row: Row, rq: Request): Field
    requires name in FieldValues(row)
  {
    var m := FieldValues(row)[name];
    Field(m.better, m.value,
      if name in TABLE_FIELDS && (key, name) in rq.open then Some(rq.open[(key, name)]) else None)
  }

  /** A measured field's floor afterwards: the measurement, unless that was refused. */
  function NewField(key: string, name: FieldName, row: Row, fl: RuleFloor, rq: Request): Field
    requires name in FieldValues(row)
  {
    if name in Worsened(row, fl) && !rq.MayLower() then fl.fields[name] else Entry(key, name, row, rq)
  }

  /** The fields once those in `done` have been handled. */
  function FieldsAfter(key: string, row: Row, fl: RuleFloor, rq: Request, done: set<FieldName>): map<FieldName, Field>
    requires done <= FieldValues(row).Keys
  {
    map name | name in fl.fields.Keys + done ::
      if name in done then NewField(key, name, row, fl, rq) else fl.fields[name]
  }

  function NewFields(key: string, row: Row, fl: RuleFloor, rq: Request): map<FieldName, Field> {
    FieldsAfter(key, row, fl, rq, FieldValues(row).Keys) - (if rq.MayLower() then Lost(row, fl) else {})
  }

  function NewJoint(row: Row, fl: RuleFloor, rq: Request): Option<Joint> {
    if row.joint.Some? && (!FrontierWorsened(row, fl) || rq.MayLower()) then row.joint else fl.joint
  }

  function FieldLowering(name: FieldName, row: Row, fl: RuleFloor, rq: Request): Lowering
    requires name in FieldValues(row) && name in fl.fields
  {
    Lowering(rq.today, Scalar(name), LogValue(fl.fields[name].value), LogValue(FieldValues(row)[name].value), rq.reason)
  }

  function LossLowering(name: FieldName, fl: RuleFloor, rq: Request): Lowering
    requires name in fl.fields
  {
    Lowering(rq.today, Scalar(name), LogValue(fl.fields[name].value), NotMeasured, rq.reason)
  }

  function FrontierLowering(row: Row, fl: RuleFloor, rq: Request): Lowering
    requires row.joint.Some? && fl.joint.Some?
  {
    Lowering(rq.today, JointFrontier, LogFrontier(fl.joint.value.frontier), LogFrontier(row.joint.value.frontier), rq.reason)
  }

  /** Every move toward the attacker that an allowed update records. */
  function Recorded(row: Row, fl: RuleFloor, rq: Request): set<Lowering> {
    (set name | name in Worsened(row, fl) :: FieldLowering(name, row, fl, rq))
    + (set name | name in Lost(row, fl) :: LossLowering(name, fl, rq))
    + if FrontierWorsened(row, fl) then {FrontierLowering(row, fl, rq)} else {}
  }

  function RefusalsOf(key: string, row: Row, fl: RuleFloor): set<Refusal> {
    (set name | name in Worsened(row, fl) :: WorseField(key, name))
    + (set name | name in Lost(row, fl) :: LostField(key, name))
    + if FrontierWorsened(row, fl) then {WorseFrontier(key)} else {}
  }

  function Elements<T(==)>(s: seq<T>): set<T> {
    set x | x in s
  }

  /** The sequence holds each element of the set once, and nothing else. */
  predicate Lists<T(==)>(s: seq<T>, all: set<T>) {
    Elements(s) == all && |s| == |all|
  }

  lemma ListsSnoc<T>(s: seq<T>, n: nat, x: T, all: set<T>)
    requires n <= |s| && Lists(s[n..], all) && x !in all
    ensures Lists((s + [x])[n..], all + {x})
  {
    assert (s + [x])[n..] == s[n..] + [x];
  }

  lemma {:induction false} ListsOnce<T>(s: seq<T>)
    ensures |Elements(s)| <= |s|
    ensures |Elements(s)| == |s| ==> forall i, j :: 0 <= i < j < |s| ==> s[i] != s[j]
  {
    if s != [] {
      var n := |s| - 1;
      ListsOnce(s[..n]);
      assert s == s[..n] + [s[n]];
      assert Elements(s) == Elements(s[..n]) + {s[n]};
      if |Elements(s)| == |s| {
        assert s[n] !in Elements(s[..n]);
        forall i | 0 <= i < n ensures s[i] != s[n] {
          assert s[i] == s[..n][i] && s[..n][i] in Elements(s[..n]);
        }
      }
    }
  }

  lemma ElementsSnoc<T>(s: seq<T>, x: T)
    ensures Elements(s + [x]) == Elements(s) + {x}
  {
  }

  /** The rule-set `fl` after an update on `row`: values, log, and fingerprint. */
  ghost predicate SetUpdated(key: string, row: Row, fl: RuleFloor, rq: Request, fl': RuleFloor) {
    fl'.fields == NewFields(key, row, fl, rq) &&
    fl'.joint == NewJoint(row, fl, rq) &&
    fl'.reachable == row.reachable &&
    fl.lowered <= fl'.lowered &&
    Lists(fl'.lowered[|fl.lowered|..], if rq.MayLower() then Recorded(row, fl, rq) else {}) &&
    (if (rq.MayLower() || NothingLowered(row, fl)) && fl.fingerprint != Some(row.fingerprint)
     then fl'.fingerprint == Some(row.fingerprint) && fl'.params == Some(row.params)
     else fl'.fingerprint == fl.fingerprint && fl'.params == fl.params)
  }

  function LoggedSoFar(row: Row, fl: RuleFloor, rq: Request, done: set<FieldName>, dropped: set<FieldName>): set<Lowering> {
    if !rq.MayLower() then {}
    else
      (set name | name in Worsened(row, fl) && name in done :: FieldLowering(name, row, fl, rq))
      + (set name | name in Lost(row, fl) && name in dropped :: LossLowering(name, fl, rq))
  }

  function RefusedSoFar(
    key: string, row: Row, fl: RuleFloor, rq: Request, done: set<FieldName>, dropped: set<FieldName>): set<Refusal>
  {
    if rq.MayLower() then {}
    else
      (set name | name in Worsened(row, fl) && name in done :: WorseField(key, name))
      + (set name | name in Lost(row, fl) && name in dropped :: LostField(key, name))
  }

  /** The measured fields: ratchet up, refuse, or record. */
  method UpdateFields(key: string, row: Row, fl0: RuleFloor, rq: Request) returns (fl: RuleFloor, refused: seq<Refusal>)
    ensures fl == fl0.(lowered := fl.lowered, fields := FieldsAfter(key, row, fl0, rq, FieldValues(row).Keys))
    ensures fl0.lowered <= fl.lowered
    ensures Lists(fl.lowered[|fl0.lowered|..], LoggedSoFar(row, fl0, rq, FieldValues(row).Keys, {}))
    ensures Elements(refused) == RefusedSoFar(key, row, fl0, rq, FieldValues(row).Keys, {})
  {
    hide FieldValues, Worse, FieldsAfter, LoggedSoFar, RefusedSoFar, Elements, Entry, Lists;
    fl := fl0;
    refused := [];
    var measured := FieldValues(row);
    var todo := measured.Keys;
    NothingYet(key, row, fl0, rq);
    while todo != {}
      invariant todo <= measured.Keys
      invariant fl == fl0.(lowered := fl.lowered, fields := FieldsAfter(key, row, fl0, rq, measured.Keys - todo))
      invariant fl0.lowered <= fl.lowered
      invariant Lists(fl.lowered[|fl0.lowered|..], LoggedSoFar(row, fl0, rq, measured.Keys - todo, {}))
      invariant Elements(refused) == RefusedSoFar(key, row, fl0, rq, measured.Keys - todo, {})
      decreases todo
    {
      var name :| name in todo;
      var m := measured[name];
      ghost var done := measured.Keys - todo;
      HandleField(key, row, fl0, rq, done, name);
      if name in fl.fields && Worse(m.better, m.value, fl.fields[name].value) {
        if !rq.MayLower() {
          ElementsSnoc(refused, WorseField(key, name));
          refused := refused + [WorseField(key, name)];
        } else {
          var entry := FieldLowering(name, row, fl, rq);
          ListsSnoc(fl.lowered, |fl0.lowered|, entry, LoggedSoFar(row, fl0, rq, done, {}));
          fl := fl.(lowered := fl.lowered + [entry], fields := fl.fields[name := Entry(key, name, row, rq)]);
        }
      } else {
        fl := fl.(fields := fl.fields[name := Entry(key, name, row, rq)]);
      }
      todo := todo - {name};
      assert measured.Keys - todo == done + {name};
    }
    assert measured.Keys - todo == FieldValues(row).Keys;
  }

  lemma NothingYet(key: string, row: Row, fl: RuleFloor, rq: Request)
    ensures FieldsAfter(key, row, fl, rq, {}) == fl.fields
    ensures LoggedSoFar(row, fl, rq, {}, {}) == {} == Elements([])
    ensures RefusedSoFar(key, row, fl, rq, {}, {}) == {} == Elements([])
    ensures FieldValues(row).Keys - FieldValues(row).Keys == {}
    ensures fl.lowered[|fl.lowered|..] == [] && Lists<Lowering>([], {})
  {
    hide FieldValues, Worse;
  }

  /** Handling one more field, in the three places it shows. */
  lemma HandleField(key: string, row: Row, fl: RuleFloor, rq: Request, done: set<FieldName>, name: FieldName)
    requires done <= FieldValues(row).Keys && name in FieldValues(row) && name !in done
    ensures var before := FieldsAfter(key, row, fl, rq, done);
      (name in before <==> name in fl.fields) && (name in before ==> before[name] == fl.fields[name]) &&
      FieldsAfter(key, row, fl, rq, done + {name}) == before[name := NewField(key, name, row, fl, rq)]
    ensures name in Worsened(row, fl) <==>
      name in fl.fields && Worse(FieldValues(row)[name].better, FieldValues(row)[name].value, fl.fields[name].value)
    ensures LoggedSoFar(row, fl, rq, done + {name}, {}) == if rq.MayLower() && name in Worsened(row, fl)
      then LoggedSoFar(row, fl, rq, done, {}) + {FieldLowering(name, row, fl, rq)}
      else LoggedSoFar(row, fl, rq, done, {})
    ensures name in Worsened(row, fl) ==> FieldLowering(name, row, fl, rq) !in LoggedSoFar(row, fl, rq, done, {})
    ensures RefusedSoFar(key, row, fl, rq, done + {name}, {}) == RefusedSoFar(key, row, fl, rq, done, {})
      + if !rq.MayLower() && name in Worsened(row, fl) then {WorseField(key, name)} else {}
  {
    hide FieldValues, Worse, Entry;
    LogField(row, fl, rq, done, name);
    RefuseField(key, row, fl, rq, done, name);
  }

  lemma LogField(row: Row, fl: RuleFloor, rq: Request, done: set<FieldName>, name: FieldName)
    ensures LoggedSoFar(row, fl, rq, done + {name}, {}) == if rq.MayLower() && name in Worsened(row, fl)
      then LoggedSoFar(row, fl, rq, done, {}) + {FieldLowering(name, row, fl, rq)}
      else LoggedSoFar(row, fl, rq, done, {})
    ensures name in Worsened(row, fl) && name !in done ==> FieldLowering(name, row, fl, rq) !in LoggedSoFar(row, fl, rq, done, {})
  {
    hide FieldValues, Worse;
  }

  lemma RefuseField(key: string, row: Row, fl: RuleFloor, rq: Request, done: set<FieldName>, name: FieldName)
    ensures RefusedSoFar(key, row, fl, rq, done + {name}, {}) == RefusedSoFar(key, row, fl, rq, done, {})
      + if !rq.MayLower() && name in Worsened(row, fl) then {WorseField(key, name)} else {}
  {
    hide FieldValues, Worse;
  }

  /** Fields recorded but no longer measured: recorded and deleted, or refused. */
  method DropLost(key: string, row: Row, fl0: RuleFloor, fl1: RuleFloor, rq: Request, refused0: seq<Refusal>)
    returns (fl: RuleFloor, refused: seq<Refusal>)
    requires fl1.fields == FieldsAfter(key, row, fl0, rq, FieldValues(row).Keys)
    ensures fl == fl1.(lowered := fl.lowered, fields := NewFields(key, row, fl0, rq))
    ensures fl1.lowered <= fl.lowered
    ensures Lists(fl.lowered[|fl1.lowered|..], LoggedSoFar(row, fl0, rq, {}, Lost(row, fl0)))
    ensures Elements(refused) == Elements(refused0) + RefusedSoFar(key, row, fl0, rq, {}, Lost(row, fl0))
  {
    hide FieldValues, Worse, FieldsAfter, LoggedSoFar, RefusedSoFar, Elements, Lists, LossLowering, Lost, NewFields;
    fl := fl1;
    refused := refused0;
    LostIs(key, row, fl0, rq);
    var todo := fl1.fields.Keys - FieldValues(row).Keys;
    ghost var lost := todo;
    NothingYet(key, row, fl0, rq);
    assert fl1.fields - {} == fl1.fields && lost - todo == {} && fl1.lowered[|fl1.lowered|..] == [];
    while todo != {}
      invariant todo <= lost
      invariant fl == fl1.(lowered := fl.lowered, fields := fl1.fields - (if rq.MayLower() then lost - todo else {}))
      invariant fl1.lowered <= fl.lowered
      invariant Lists(fl.lowered[|fl1.lowered|..], LoggedSoFar(row, fl0, rq, {}, lost - todo))
      invariant Elements(refused) == Elements(refused0) + RefusedSoFar(key, row, fl0, rq, {}, lost - todo)
      decreases todo
    {
      var name :| name in todo;
      ghost var done := lost - todo;
      HandleLoss(row, fl0, rq, key, done, name);
      LostValue(key, row, fl0, rq, name);
      if rq.MayLower() {
        var entry := LossLowering(name, fl, rq);
        SameLoss(name, fl, fl0, rq);
        ListsSnoc(fl.lowered, |fl1.lowered|, entry, LoggedSoFar(row, fl0, rq, {}, done));
        fl := fl.(lowered := fl.lowered + [entry], fields := fl.fields - {name});
        DropOneMore(fl1.fields, done, name);
      } else {
        ElementsSnoc(refused, LostField(key, name));
        refused := refused + [LostField(key, name)];
      }
      todo := todo - {name};
      assert lost - todo == done + {name};
    }
    assert lost - todo == Lost(row, fl0);
    NewFieldsAre(key, row, fl0, rq);
  }

  lemma NewFieldsAre(key: string, row: Row, fl: RuleFloor, rq: Request)
    ensures NewFields(key, row, fl, rq) ==
      FieldsAfter(key, row, fl, rq, FieldValues(row).Keys) - (if rq.MayLower() then Lost(row, fl) else {})
  {
    hide FieldValues, FieldsAfter, Lost;
  }

  lemma LostIs(key: string, row: Row, fl: RuleFloor, rq: Request)
    ensures FieldsAfter(key, row, fl, rq, FieldValues(row).Keys).Keys - FieldValues(row).Keys == Lost(row, fl)
    ensures Elements<Lowering>([]) == {} && LoggedSoFar(row, fl, rq, {}, {}) == {}
    ensures RefusedSoFar(key, row, fl, rq, {}, {}) == {}
  {
    hide FieldValues, Worse;
  }

  lemma LostValue(key: string, row: Row, fl: RuleFloor, rq: Request, name: FieldName)
    requires name in Lost(row, fl)
    ensures var after := FieldsAfter(key, row, fl, rq, FieldValues(row).Keys);
      name in fl.fields && name in after && after[name] == fl.fields[name]
  {
    hide FieldValues, Worse;
  }

  lemma DropOneMore(m: map<FieldName, Field>, done: set<FieldName>, name: FieldName)
    ensures m - done - {name} == m - (done + {name})
  {
  }

  lemma SameLoss(name: FieldName, fl: RuleFloor, fl': RuleFloor, rq: Request)
    requires name in fl.fields && name in fl'.fields && fl.fields[name] == fl'.fields[name]
    ensures LossLowering(name, fl, rq) == LossLowering(name, fl', rq)
  {
  }

  lemma HandleLoss(row: Row, fl: RuleFloor, rq: Request, key: string, done: set<FieldName>, name: FieldName)
    requires name in Lost(row, fl) && name !in done
    ensures LoggedSoFar(row, fl, rq, {}, done + {name}) ==
      if rq.MayLower() then LoggedSoFar(row, fl, rq, {}, done) + {LossLowering(name, fl, rq)}
      else LoggedSoFar(row, fl, rq, {}, done)
    ensures LossLowering(name, fl, rq) !in LoggedSoFar(row, fl, rq, {}, done)
    ensures RefusedSoFar(key, row, fl, rq, {}, done + {name}) ==
      if rq.MayLower() then RefusedSoFar(key, row, fl, rq, {}, done)
      else RefusedSoFar(key, row, fl, rq, {}, done) + {LostField(key, name)}
  {
    hide FieldValues, Worse;
  }

  /** One measured rule-set: fields, lost fields, frontier, then the fingerprint, which
      moves only when nothing about this rule-set was refused. */
  method UpdateSet(key: string, row: Row, fl0: RuleFloor, rq: Request) returns (fl: RuleFloor, refused: seq<Refusal>)
    ensures SetUpdated(key, row, fl0, rq, fl)
    ensures Elements(refused) == if rq.MayLower() then {} else RefusalsOf(key, row, fl0)
  {
    hide FieldValues, Worse, FieldsAfter, LoggedSoFar, RefusedSoFar, Elements, Lists, Regressed, Recorded, RefusalsOf,
      NewFields, Lost, Worsened;
    fl, refused := UpdateFields(key, row, fl0, rq);
    ghost var fl1 := fl;
    fl, refused := DropLost(key, row, fl0, fl, rq, refused);
    ghost var fl2 := fl;
    if row.joint.Some? {
      if fl.joint.None? || Regressed(fl.joint.value.frontier, row.joint.value.frontier) == {} {
        fl := fl.(joint := row.joint);
      } else if rq.MayLower() {
        fl := fl.(lowered := fl.lowered + [FrontierLowering(row, fl0, rq)], joint := row.joint);
      } else {
        ElementsSnoc(refused, WorseFrontier(key));
        refused := refused + [WorseFrontier(key)];
      }
    }
    RefusedAll(key, row, fl0, rq);
    assert fl2.lowered + [] == fl2.lowered;
    LogIsWhole(row, fl0, fl1, fl2, rq);
    NoRefusals(key, row, fl0, refused);
    if fl0.fingerprint != Some(row.fingerprint) && refused == [] {
      fl := fl.(fingerprint := Some(row.fingerprint), params := Some(row.params));
    }
    fl := fl.(reachable := row.reachable);
  }

  /** The three parts of the log are all that is recorded, each once. */
  lemma LogIsWhole(row: Row, fl0: RuleFloor, fl1: RuleFloor, fl2: RuleFloor, rq: Request)
    requires fl0.lowered <= fl1.lowered <= fl2.lowered
    requires Lists(fl1.lowered[|fl0.lowered|..], LoggedSoFar(row, fl0, rq, FieldValues(row).Keys, {}))
    requires Lists(fl2.lowered[|fl1.lowered|..], LoggedSoFar(row, fl0, rq, {}, Lost(row, fl0)))
    ensures var added := if rq.MayLower() && FrontierWorsened(row, fl0) then [FrontierLowering(row, fl0, rq)] else [];
      Lists((fl2.lowered + added)[|fl0.lowered|..], if rq.MayLower() then Recorded(row, fl0, rq) else {})
  {
    hide LoggedSoFar, Recorded, FieldValues, Lost, Regressed, Elements, Lists, Worsened;
    var a, b := fl1.lowered[|fl0.lowered|..], fl2.lowered[|fl1.lowered|..];
    var added := if rq.MayLower() && FrontierWorsened(row, fl0) then [FrontierLowering(row, fl0, rq)] else [];
    assert (fl2.lowered + added)[|fl0.lowered|..] == a + b + added;
    LoggedAll(row, fl0, rq);
    LoggedApart(row, fl0, rq);
    ListsConcat(a, LoggedSoFar(row, fl0, rq, FieldValues(row).Keys, {}), b, LoggedSoFar(row, fl0, rq, {}, Lost(row, fl0)));
    ListsOne(row, fl0, rq);
    ListsConcat(a + b, LoggedSoFar(row, fl0, rq, FieldValues(row).Keys, {}) + LoggedSoFar(row, fl0, rq, {}, Lost(row, fl0)),
      added, if rq.MayLower() && FrontierWorsened(row, fl0) then {FrontierLowering(row, fl0, rq)} else {});
  }

  lemma ListsOne(row: Row, fl: RuleFloor, rq: Request)
    ensures Lists(if rq.MayLower() && FrontierWorsened(row, fl) then [FrontierLowering(row, fl, rq)] else [],
      if rq.MayLower() && FrontierWorsened(row, fl) then {FrontierLowering(row, fl, rq)} else {})
  {
    hide Regressed, Worse;
  }

  lemma ListsConcat<T>(a: seq<T>, all: set<T>, b: seq<T>, more: set<T>)
    requires Lists(a, all) && Lists(b, more) && all !! more
    ensures Lists(a + b, all + more)
  {
    ElementsConcat(a, b);
  }

  lemma LoggedApart(row: Row, fl: RuleFloor, rq: Request)
    ensures LoggedSoFar(row, fl, rq, FieldValues(row).Keys, {}) !! LoggedSoFar(row, fl, rq, {}, Lost(row, fl))
    ensures forall e :: e in LoggedSoFar(row, fl, rq, FieldValues(row).Keys, {}) + LoggedSoFar(row, fl, rq, {}, Lost(row, fl)) ==>
      e.subject != JointFrontier
    ensures FrontierWorsened(row, fl) ==> FrontierLowering(row, fl, rq).subject == JointFrontier
  {
    hide FieldValues, Worse, Regressed;
  }

  lemma LoggedAll(row: Row, fl: RuleFloor, rq: Request)
    ensures LoggedSoFar(row, fl, rq, FieldValues(row).Keys, {}) + LoggedSoFar(row, fl, rq, {}, Lost(row, fl))
      + (if rq.MayLower() && FrontierWorsened(row, fl) then {FrontierLowering(row, fl, rq)} else {})
      == if rq.MayLower() then Recorded(row, fl, rq) else {}
  {
    hide FieldValues, Worse, Regressed, FieldLowering, LossLowering, FrontierLowering;
  }

  lemma RefusedAll(key: string, row: Row, fl: RuleFloor, rq: Request)
    ensures RefusedSoFar(key, row, fl, rq, FieldValues(row).Keys, {}) + RefusedSoFar(key, row, fl, rq, {}, Lost(row, fl))
      + (if !rq.MayLower() && FrontierWorsened(row, fl) then {WorseFrontier(key)} else {})
      == if rq.MayLower() then {} else RefusalsOf(key, row, fl)
  {
    hide FieldValues, Worse, Regressed;
  }

  lemma NoRefusals(key: string, row: Row, fl: RuleFloor, refused: seq<Refusal>)
    ensures refused == [] <==> Elements(refused) == {}
    ensures RefusalsOf(key, row, fl) == {} <==> NothingLowered(row, fl)
  {
    hide FieldValues, Worse, Regressed;
    if refused != [] {
      assert refused[0] in Elements(refused);
    }
    if name :| name in Worsened(row, fl) {
      assert WorseField(key, name) in RefusalsOf(key, row, fl);
    }
    if name :| name in Lost(row, fl) {
      assert LostField(key, name) in RefusalsOf(key, row, fl);
    }
  }

  // ---------- the whole floor ----------

  /** Rule-sets with a floor that are neither measured nor known as stateful any more. */
  function Gone(res: Results, floor: Floor): set<string> {
    set key | key in floor.sets && key !in res.rows && key !in res.stateful
  }

  /** An update that refuses nothing: lowering is allowed, or nothing would be lowered. */
  predicate Accepted(res: Results, floor: Floor, rq: Request) {
    rq.MayLower() ||
    ((forall key :: key in res.rows ==> NothingLowered(res.rows[key], FloorOf(floor, key))) && Gone(res, floor) == {})
  }

  function AllRefusals(res: Results, floor: Floor): set<Refusal> {
    (set key, x | key in res.rows && x in RefusalsOf(key, res.rows[key], FloorOf(floor, key)) :: x)
    + GoneRefusals(Gone(res, floor))
  }

  ghost predicate FloorUpdated(res: Results, floor: Floor, rq: Request, next: Floor) {
    next.waivers == floor.waivers &&
    (forall key :: key in res.rows ==>
      key in next.sets && SetUpdated(key, res.rows[key], FloorOf(floor, key), rq, next.sets[key])) &&
    (forall key :: key !in res.rows ==>
      (key in next.sets <==> key in floor.sets && !(rq.MayLower() && key in Gone(res, floor)))) &&
    (forall key :: key !in res.rows && key in next.sets ==> next.sets[key] == floor.sets[key]) &&
    floor.removed <= next.removed &&
    Lists(next.removed[|floor.removed|..], if rq.MayLower() then Removals(rq, Gone(res, floor)) else {})
  }

  method UpdateFloor(res: Results, floor: Floor, rq: Request) returns (next: Floor, refused: seq<Refusal>)
    ensures FloorUpdated(res, floor, rq, next)
    ensures Elements(refused) == if rq.MayLower() then {} else AllRefusals(res, floor)
    ensures refused == [] <==> Accepted(res, floor, rq)
  {
    hide SetUpdated, RefusalsOf, NothingLowered, Elements, Lists, Removals, GoneRefusals, Accepted;
    next, refused := UpdateMeasured(res, floor, rq);
    next, refused := SettleGone(res, floor, rq, next, refused);
    RefusalsMeanRefused(res, floor, rq, refused);
  }

  function RefusalsFrom(res: Results, floor: Floor, done: set<string>): set<Refusal> {
    set key, x | key in res.rows && key in done && x in RefusalsOf(key, res.rows[key], FloorOf(floor, key)) :: x
  }

  method UpdateMeasured(res: Results, floor: Floor, rq: Request) returns (next: Floor, refused: seq<Refusal>)
    ensures next == floor.(sets := next.sets)
    ensures forall key :: key in res.rows ==>
      key in next.sets && SetUpdated(key, res.rows[key], FloorOf(floor, key), rq, next.sets[key])
    ensures forall key :: key !in res.rows ==>
      (key in next.sets <==> key in floor.sets) && (key in floor.sets ==> next.sets[key] == floor.sets[key])
    ensures Elements(refused) == if rq.MayLower() then {} else RefusalsFrom(res, floor, res.rows.Keys)
  {
    hide SetUpdated, RefusalsOf;
    next := floor;
    refused := [];
    var todo := res.rows.Keys;
    assert RefusalsFrom(res, floor, res.rows.Keys - todo) == {};
    while todo != {}
      invariant todo <= res.rows.Keys
      invariant next == floor.(sets := next.sets)
      invariant forall key :: key in res.rows && key !in todo ==>
        key in next.sets && SetUpdated(key, res.rows[key], FloorOf(floor, key), rq, next.sets[key])
      invariant forall key :: key in todo || key !in res.rows ==>
        (key in next.sets <==> key in floor.sets) && (key in floor.sets ==> next.sets[key] == floor.sets[key])
      invariant Elements(refused) == if rq.MayLower() then {} else RefusalsFrom(res, floor, res.rows.Keys - todo)
      decreases todo
    {
      var key :| key in todo;
      var fl, more := UpdateSet(key, res.rows[key], FloorOf(next, key), rq);
      next := next.(sets := next.sets[key := fl]);
      ElementsConcat(refused, more);
      RefuseMore(res, floor, res.rows.Keys - todo, key);
      refused := refused + more;
      todo := todo - {key};
      assert res.rows.Keys - todo == (res.rows.Keys - (todo + {key})) + {key};
    }
    assert res.rows.Keys - todo == res.rows.Keys;
  }

  lemma ElementsConcat<T>(a: seq<T>, b: seq<T>)
    ensures Elements(a + b) == Elements(a) + Elements(b)
  {
  }

  lemma RefuseMore(res: Results, floor: Floor, done: set<string>, key: string)
    requires key in res.rows
    ensures RefusalsFrom(res, floor, done + {key})
      == RefusalsFrom(res, floor, done) + RefusalsOf(key, res.rows[key], FloorOf(floor, key))
  {
    hide RefusalsOf;
  }

  function Removals(rq: Request, keys: set<string>): set<Removal> {
    set key | key in keys :: Removal(rq.today, key, rq.reason)
  }

  function GoneRefusals(keys: set<string>): set<Refusal> {
    set key | key in keys :: GoneSet(key)
  }

  lemma GoneOneMore(rq: Request, keys: set<string>, key: string)
    ensures Removals(rq, keys + {key}) == Removals(rq, keys) + {Removal(rq.today, key, rq.reason)}
    ensures GoneRefusals(keys + {key}) == GoneRefusals(keys) + {GoneSet(key)}
    ensures key !in keys ==> Removal(rq.today, key, rq.reason) !in Removals(rq, keys)
  {
  }

  lemma NothingGoneYet(floor: Floor, rq: Request)
    ensures Removals(rq, {}) == {} && Lists(floor.removed[|floor.removed|..], {})
    ensures GoneRefusals({}) == {}
  {
    assert floor.removed[|floor.removed|..] == [];
  }

  method SettleGone(res: Results, floor: Floor, rq: Request, new0: Floor, refused0: seq<Refusal>)
    returns (next: Floor, refused: seq<Refusal>)
    requires new0 == floor.(sets := new0.sets)
    requires forall key :: key in res.rows ==> key in new0.sets
    requires forall key :: key !in res.rows ==> (key in new0.sets <==> key in floor.sets)
    ensures next.waivers == floor.waivers && floor.removed <= next.removed
    ensures next.sets == new0.sets - if rq.MayLower() then Gone(res, floor) else {}
    ensures Lists(next.removed[|floor.removed|..], if rq.MayLower() then Removals(rq, Gone(res, floor)) else {})
    ensures Elements(refused) == Elements(refused0)
      + if rq.MayLower() then {} else GoneRefusals(Gone(res, floor))
  {
    hide Elements, Lists, Removals, GoneRefusals;
    NothingGoneYet(floor, rq);
    next := new0;
    refused := refused0;
    var todo := new0.sets.Keys - res.rows.Keys;
    ghost var done: set<string> := {};
    while todo != {}
      invariant todo <= new0.sets.Keys - res.rows.Keys && done <= Gone(res, floor)
      invariant Gone(res, floor) - done <= todo && done !! todo
      invariant next.waivers == floor.waivers && floor.removed <= next.removed
      invariant next.sets == new0.sets - if rq.MayLower() then done else {}
      invariant Lists(next.removed[|floor.removed|..], if rq.MayLower() then Removals(rq, done) else {})
      invariant Elements(refused) == Elements(refused0) + if rq.MayLower() then {} else GoneRefusals(done)
      decreases todo
    {
      var key :| key in todo;
      todo := todo - {key};
      if key !in res.stateful {
        GoneOneMore(rq, done, key);
        if rq.MayLower() {
          ListsSnoc(next.removed, |floor.removed|, Removal(rq.today, key, rq.reason), Removals(rq, done));
          next := next.(removed := next.removed + [Removal(rq.today, key, rq.reason)], sets := next.sets - {key});
        } else {
          ElementsSnoc(refused, GoneSet(key));
          refused := refused + [GoneSet(key)];
        }
        done := done + {key};
      }
    }
    assert done == Gone(res, floor);
  }

  lemma RefusalsMeanRefused(res: Results, floor: Floor, rq: Request, refused: seq<Refusal>)
    requires Elements(refused) == if rq.MayLower() then {} else AllRefusals(res, floor)
    ensures refused == [] <==> Accepted(res, floor, rq)
  {
    hide RefusalsOf, NothingLowered;
    if refused != [] {
      assert refused[0] in Elements(refused);
    }
    forall key | key in res.rows
      ensures RefusalsOf(key, res.rows[key], FloorOf(floor, key)) == {} <==> NothingLowered(res.rows[key], FloorOf(floor, key))
    {
      NoRefusals(key, res.rows[key], FloorOf(floor, key), []);
    }
    if key, x :| key in res.rows && x in RefusalsOf(key, res.rows[key], FloorOf(floor, key)) {
      assert x in AllRefusals(res, floor);
    }
    if key :| key in Gone(res, floor) {
      assert GoneSet(key) in AllRefusals(res, floor);
    }
  }

  /** The command line: lowering needs a reason, and a refused update writes nothing. */
  method Commit(res: Results, floor: Floor, rq: Request) returns (after: Floor, refused: seq<Refusal>)
    ensures (rq.allowLower && rq.reason == "") || !Accepted(res, floor, rq) ==> after == floor
    ensures !(rq.allowLower && rq.reason == "") && Accepted(res, floor, rq) ==> FloorUpdated(res, floor, rq, after)
  {
    refused := [];
    if rq.allowLower && rq.reason == "" {
      return floor, [];
    }
    after, refused := UpdateFloor(res, floor, rq);
    if refused != [] {
      after := floor;
    }
  }
}
