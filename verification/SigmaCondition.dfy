/** Conditions as token lists: the engine's recursive-descent evaluator, and the
    importer's substitution of OR groups for selection names. */
module SigmaCondition {

  datatype Token = Open | Close | And | Or | Not | Name(name: string)

  /** Which selections match; a name that is no selection reads as false. */
  type Valuation = string -> bool

  /** A value and the tokens left over, or a syntax error. */
  datatype Parsed = Error | Parsed(value: bool, rest: seq<Token>)

  function ParseOr(ts: seq<Token>, vals: Valuation): (r: Parsed)
    ensures r.Parsed? ==> |r.rest| < |ts|
    decreases |ts|, 4
  {
    match ParseAnd(ts, vals)
    case Error => Error
    case Parsed(value, rest) => OrTail(value, rest, vals)
  }

  function OrTail(value: bool, ts: seq<Token>, vals: Valuation): (r: Parsed)
    ensures r.Parsed? ==> |r.rest| <= |ts|
    decreases |ts|, 0
  {
    if ts != [] && ts[0] == Or then
      match ParseAnd(ts[1..], vals)
      case Error => Error
      case Parsed(rhs, rest) => OrTail(value || rhs, rest, vals)
    else Parsed(value, ts)
  }

  function ParseAnd(ts: seq<Token>, vals: Valuation): (r: Parsed)
    ensures r.Parsed? ==> |r.rest| < |ts|
    decreases |ts|, 3
  {
    match ParseNot(ts, vals)
    case Error => Error
    case Parsed(value, rest) => AndTail(value, rest, vals)
  }

  function AndTail(value: bool, ts: seq<Token>, vals: Valuation): (r: Parsed)
    ensures r.Parsed? ==> |r.rest| <= |ts|
    decreases |ts|, 0
  {
    if ts != [] && ts[0] == And then
      match ParseNot(ts[1..], vals)
      case Error => Error
      case Parsed(rhs, rest) => AndTail(value && rhs, rest, vals)
    else Parsed(value, ts)
  }

  function ParseNot(ts: seq<Token>, vals: Valuation): (r: Parsed)
    ensures r.Parsed? ==> |r.rest| < |ts|
    decreases |ts|, 2
  {
    if ts != [] && ts[0] == Not then
      match ParseNot(ts[1..], vals)
      case Error => Error
      case Parsed(value, rest) => Parsed(!value, rest)
    else ParseAtom(ts, vals)
  }

  function ParseAtom(ts: seq<Token>, vals: Valuation): (r: Parsed)
    ensures r.Parsed? ==> |r.rest| < |ts|
    decreases |ts|, 1
  {
    if ts == [] then Error
    else
      match ts[0]
      case Open =>
        (match ParseOr(ts[1..], vals)
         case Error => Error
         case Parsed(value, rest) => if rest != [] && rest[0] == Close then Parsed(value, rest[1..]) else Error)
      case Name(n) => Parsed(vals(n), ts[1..])
      case _ => Error
  }

  /** A condition that does not parse to its end never matches. */
  function Evaluate(ts: seq<Token>, vals: Valuation): bool {
    match ParseOr(ts, vals)
    case Error => false
    case Parsed(value, rest) => rest == [] && value
  }

  // ---------- the substitution ----------

  /** The local selections each source selection became. */
  type Groups = map<string, seq<string>>

  function JoinOr(names: seq<string>): seq<Token>
    requires names != []
  {
    if |names| == 1 then [Name(names[0])] else [Name(names[0]), Or] + JoinOr(names[1..])
  }

  function Expand(t: Token, groups: Groups): seq<Token> {
    if t.Name? && t.name in groups && groups[t.name] != [] then
      var names := groups[t.name];
      if |names| == 1 then [Name(names[0])] else [Open] + JoinOr(names) + [Close]
    else [t]
  }

  function Rewrite(ts: seq<Token>, groups: Groups): seq<Token> {
    if ts == [] then [] else Expand(ts[0], groups) + Rewrite(ts[1..], groups)
  }

  predicate AnyOf(names: seq<string>, vals: Valuation) {
    exists i :: 0 <= i < |names| && vals(names[i])
  }

  /** The original reading: a selection matches when one of its items does. */
  function Original(groups: Groups, vals: Valuation): Valuation {
    (n: string) => if n in groups && groups[n] != [] then AnyOf(groups[n], vals) else vals(n)
  }

  /** `p`, over rewritten tokens, is `q` over the original ones. */
  predicate Mirrors(p: Parsed, q: Parsed, groups: Groups) {
    match q
    case Error => p == Error
    case Parsed(value, rest) => p == Parsed(value, Rewrite(rest, groups))
  }

  lemma RewriteHead(ts: seq<Token>, groups: Groups)
    requires ts != []
    ensures Rewrite(ts, groups) == Expand(ts[0], groups) + Rewrite(ts[1..], groups)
    ensures Expand(ts[0], groups) != []
    ensures !ts[0].Name? ==> Rewrite(ts, groups)[0] == ts[0] && Rewrite(ts, groups)[1..] == Rewrite(ts[1..], groups)
    ensures ts[0].Name? ==> Rewrite(ts, groups)[0].Name? || Rewrite(ts, groups)[0] == Open
  {
  }

  lemma AnyOfSplit(names: seq<string>, vals: Valuation)
    requires names != []
    ensures AnyOf(names, vals) <==> vals(names[0]) || AnyOf(names[1..], vals)
  {
    if i :| 0 <= i < |names| && vals(names[i]) {
      assert i > 0 ==> vals(names[1..][i - 1]);
    }
    if i :| 0 <= i < |names[1..]| && vals(names[1..][i]) {
      assert vals(names[i + 1]);
    }
  }

  /** One more alternative is read into the value so far. */
  lemma OrTailStep(value: bool, n: string, tail: seq<Token>, vals: Valuation)
    requires tail != [] && (tail[0] == Or || tail[0] == Close)
    ensures OrTail(value, [Or, Name(n)] + tail, vals) == OrTail(value || vals(n), tail, vals)
  {
    hide ParseAnd;
    assert ([Or, Name(n)] + tail)[1..] == [Name(n)] + tail;
    NameParses(n, tail, vals);
  }

  lemma OrTailStops(value: bool, after: seq<Token>, vals: Valuation)
    requires after != [] && after[0] == Close
    ensures OrTail(value, after, vals) == Parsed(value, after)
  {
  }

  /** An expanded group parses, as an atom, to the OR of its members. */
  lemma {:induction false} GroupParses(names: seq<string>, value: bool, after: seq<Token>, vals: Valuation)
    requires names != [] && after != [] && after[0] == Close
    ensures OrTail(value, [Or] + JoinOr(names) + after, vals) == Parsed(value || AnyOf(names, vals), after)
  {
    hide OrTail, AnyOf;
    AnyOfSplit(names, vals);
    if |names| == 1 {
      assert names[1..] == [] && !AnyOf([], vals) by {
        NoneOf(vals);
      }
      assert [Or] + JoinOr(names) + after == [Or, Name(names[0])] + after;
      OrTailStep(value, names[0], after, vals);
      OrTailStops(value || vals(names[0]), after, vals);
    } else {
      var tail := [Or] + JoinOr(names[1..]) + after;
      assert [Or] + JoinOr(names) + after == [Or, Name(names[0])] + tail;
      OrTailStep(value, names[0], tail, vals);
      GroupParses(names[1..], value || vals(names[0]), after, vals);
    }
  }

  lemma NoneOf(vals: Valuation)
    ensures !AnyOf([], vals)
  {
  }

  lemma NameParses(n: string, tail: seq<Token>, vals: Valuation)
    requires tail != [] && (tail[0] == Or || tail[0] == Close)
    ensures ParseAnd([Name(n)] + tail, vals) == Parsed(vals(n), tail)
  {
    var ts := [Name(n)] + tail;
    assert ts[1..] == tail;
    assert ParseAtom(ts, vals) == Parsed(vals(n), tail);
    assert ParseNot(ts, vals) == Parsed(vals(n), tail);
  }

  lemma ExpandedNameParses(n: string, after: seq<Token>, groups: Groups, vals: Valuation)
    ensures ParseAtom(Expand(Name(n), groups) + after, vals) == Parsed(Original(groups, vals)(n), after)
  {
    var ts := Expand(Name(n), groups) + after;
    if n in groups && |groups[n]| > 1 {
      var names := groups[n];
      var tail := [Or] + JoinOr(names[1..]) + ([Close] + after);
      assert ts[1..] == [Name(names[0])] + tail;
      NameParses(names[0], tail, vals);
      GroupParses(names[1..], vals(names[0]), [Close] + after, vals);
      AnyOfSplit(names, vals);
      assert ([Close] + after)[1..] == after;
    } else if n in groups && |groups[n]| == 1 {
      assert AnyOf(groups[n], vals) <==> vals(groups[n][0]);
      assert ts[1..] == after;
    } else {
      assert ts[1..] == after;
    }
  }

  lemma {:induction false} AtomMirrors(ts: seq<Token>, groups: Groups, vals: Valuation)
    ensures Mirrors(ParseAtom(Rewrite(ts, groups), vals), ParseAtom(ts, Original(groups, vals)), groups)
    decreases |ts|, 1
  {
    if ts != [] {
      RewriteHead(ts, groups);
      if ts[0].Name? {
        ExpandedNameParses(ts[0].name, Rewrite(ts[1..], groups), groups, vals);
      } else if ts[0] == Open {
        OrMirrors(ts[1..], groups, vals);
        var q := ParseOr(ts[1..], Original(groups, vals));
        if q.Parsed? && q.rest != [] {
          RewriteHead(q.rest, groups);
        }
      }
    }
  }

  lemma {:induction false} NotMirrors(ts: seq<Token>, groups: Groups, vals: Valuation)
    ensures Mirrors(ParseNot(Rewrite(ts, groups), vals), ParseNot(ts, Original(groups, vals)), groups)
    decreases |ts|, 2
  {
    if ts != [] {
      RewriteHead(ts, groups);
    }
    if ts != [] && ts[0] == Not {
      NotMirrors(ts[1..], groups, vals);
    } else {
      AtomMirrors(ts, groups, vals);
    }
  }

  lemma {:induction false} AndTailMirrors(value: bool, ts: seq<Token>, groups: Groups, vals: Valuation)
    ensures Mirrors(AndTail(value, Rewrite(ts, groups), vals), AndTail(value, ts, Original(groups, vals)), groups)
    decreases |ts|, 0
  {
    if ts != [] {
      RewriteHead(ts, groups);
      if ts[0] == And {
        NotMirrors(ts[1..], groups, vals);
        var q := ParseNot(ts[1..], Original(groups, vals));
        if q.Parsed? {
          AndTailMirrors(value && q.value, q.rest, groups, vals);
        }
      }
    }
  }

  lemma {:induction false} AndMirrors(ts: seq<Token>, groups: Groups, vals: Valuation)
    ensures Mirrors(ParseAnd(Rewrite(ts, groups), vals), ParseAnd(ts, Original(groups, vals)), groups)
    decreases |ts|, 3
  {
    NotMirrors(ts, groups, vals);
    var q := ParseNot(ts, Original(groups, vals));
    if q.Parsed? {
      AndTailMirrors(q.value, q.rest, groups, vals);
    }
  }

  lemma {:induction false} OrTailMirrors(value: bool, ts: seq<Token>, groups: Groups, vals: Valuation)
    ensures Mirrors(OrTail(value, Rewrite(ts, groups), vals), OrTail(value, ts, Original(groups, vals)), groups)
    decreases |ts|, 0
  {
    if ts != [] {
      RewriteHead(ts, groups);
      if ts[0] == Or {
        AndMirrors(ts[1..], groups, vals);
        var q := ParseAnd(ts[1..], Original(groups, vals));
        if q.Parsed? {
          OrTailMirrors(value || q.value, q.rest, groups, vals);
        }
      }
    }
  }

  lemma {:induction false} OrMirrors(ts: seq<Token>, groups: Groups, vals: Valuation)
    ensures Mirrors(ParseOr(Rewrite(ts, groups), vals), ParseOr(ts, Original(groups, vals)), groups)
    decreases |ts|, 4
  {
    AndMirrors(ts, groups, vals);
    var q := ParseAnd(ts, Original(groups, vals));
    if q.Parsed? {
      OrTailMirrors(q.value, q.rest, groups, vals);
    }
  }

  /** Meaning is preserved for every token list, well formed or not: the rewritten
      condition parses exactly when the original does, and to the same truth value. */
  lemma RewritePreservesMeaning(ts: seq<Token>, groups: Groups, vals: Valuation)
    ensures Evaluate(Rewrite(ts, groups), vals) == Evaluate(ts, Original(groups, vals))
    ensures ParseOr(Rewrite(ts, groups), vals).Error? <==> ParseOr(ts, Original(groups, vals)).Error?
  {
    OrMirrors(ts, groups, vals);
    var q := ParseOr(ts, Original(groups, vals));
    if q.Parsed? && q.rest != [] {
      RewriteHead(q.rest, groups);
    }
  }
}
