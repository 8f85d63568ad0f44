/** What conditions mean: an expression written out parses and evaluates to its meaning, and an
    imported condition means the source's own expression over the source's own selections. */
module SigmaMeaning {
  import opened SigmaCondition
  import opened SigmaText
  import opened SigmaImport

  datatype Expr = Var(name: string) | Negation(e: Expr) | Both(a: Expr, b: Expr) | Either(a: Expr, b: Expr)

  predicate Meaning(e: Expr, vals: Valuation) {
    match e
    case Var(n) => vals(n)
    case Negation(x) => !Meaning(x, vals)
    case Both(a, b) => Meaning(a, vals) && Meaning(b, vals)
    case Either(a, b) => Meaning(a, vals) || Meaning(b, vals)
  }

  // ---------- written with as few parentheses as precedence allows ----------

  function OrForm(e: Expr): seq<Token>
    decreases e, 3
  {
    match e
    case Either(a, b) => OrForm(a) + [Or] + AndForm(b)
    case _ => AndForm(e)
  }

  function AndForm(e: Expr): seq<Token>
    decreases e, 2
  {
    match e
    case Both(a, b) => AndForm(a) + [And] + NotForm(b)
    case _ => NotForm(e)
  }

  function NotForm(e: Expr): seq<Token>
    decreases e, 1
  {
    match e
    case Var(n) => [Name(n)]
    case Negation(x) => [Not] + NotForm(x)
    case Both(a, b) => [Open] + (AndForm(a) + [And] + NotForm(b)) + [Close]
    case Either(a, b) => [Open] + (OrForm(a) + [Or] + AndForm(b)) + [Close]
  }

  predicate Starts(ts: seq<Token>, t: Token) {
    ts != [] && ts[0] == t
  }

  lemma AndTailStops(value: bool, ts: seq<Token>, vals: Valuation)
    requires !Starts(ts, And)
    ensures AndTail(value, ts, vals) == Parsed(value, ts)
  {
  }

  lemma OrTailEnds(value: bool, ts: seq<Token>, vals: Valuation)
    requires !Starts(ts, Or)
    ensures OrTail(value, ts, vals) == Parsed(value, ts)
  {
  }

  /** Negation binds tightest. */
  lemma {:induction false} NotFormParses(e: Expr, rest: seq<Token>, vals: Valuation)
    ensures ParseNot(NotForm(e) + rest, vals) == Parsed(Meaning(e, vals), rest)
    decreases e, 1
  {
    var ts := NotForm(e) + rest;
    match e
    case Var(n) =>
      assert ts[1..] == rest;
    case Negation(x) =>
      assert ts[1..] == NotForm(x) + rest;
      NotFormParses(x, rest, vals);
    case Both(a, b) =>
      AndInParens(a, b, rest, vals);
    case Either(a, b) =>
      OrInParens(a, b, rest, vals);
  }

  lemma {:induction false} AndInParens(a: Expr, b: Expr, rest: seq<Token>, vals: Valuation)
    ensures ParseNot(NotForm(Both(a, b)) + rest, vals) == Parsed(Meaning(a, vals) && Meaning(b, vals), rest)
    decreases Both(a, b), 0, 2
  {
    var closing := [Close] + rest;
    AndPairParses(a, b, closing, vals);
    AndTailStops(Meaning(a, vals) && Meaning(b, vals), closing, vals);
    OrTailEnds(Meaning(a, vals) && Meaning(b, vals), closing, vals);
    ParenParses(AndForm(a) + [And] + NotForm(b), Meaning(a, vals) && Meaning(b, vals), rest, vals);
  }

  lemma {:induction false} OrInParens(a: Expr, b: Expr, rest: seq<Token>, vals: Valuation)
    ensures ParseNot(NotForm(Either(a, b)) + rest, vals) == Parsed(Meaning(a, vals) || Meaning(b, vals), rest)
    decreases Either(a, b), 0, 2
  {
    var closing := [Close] + rest;
    OrPairParses(a, b, closing, vals);
    OrTailEnds(Meaning(a, vals) || Meaning(b, vals), closing, vals);
    ParenParses(OrForm(a) + [Or] + AndForm(b), Meaning(a, vals) || Meaning(b, vals), rest, vals);
  }

  lemma ParenParses(inner: seq<Token>, value: bool, rest: seq<Token>, vals: Valuation)
    requires ParseOr(inner + ([Close] + rest), vals) == Parsed(value, [Close] + rest)
    ensures ParseNot([Open] + inner + [Close] + rest, vals) == Parsed(value, rest)
  {
    hide ParseOr;
    var ts := [Open] + inner + [Close] + rest;
    assert ts[1..] == inner + ([Close] + rest);
    assert ([Close] + rest)[1..] == rest;
  }

  /** A conjunction is read from the left, each operand no looser than a negation. */
  lemma {:induction false} AndFormParses(e: Expr, rest: seq<Token>, vals: Valuation)
    ensures ParseAnd(AndForm(e) + rest, vals) == AndTail(Meaning(e, vals), rest, vals)
    decreases e, 2
  {
    match e
    case Both(a, b) =>
      AndFirstParses(a, b, rest, vals);
    case _ =>
      NotFormParses(e, rest, vals);
  }

  lemma {:induction false} AndFirstParses(a: Expr, b: Expr, rest: seq<Token>, vals: Valuation)
    ensures ParseAnd(AndForm(a) + [And] + NotForm(b) + rest, vals)
      == AndTail(Meaning(a, vals) && Meaning(b, vals), rest, vals)
    decreases Both(a, b), 0, 0
  {
    hide ParseAnd;
    var tail := [And] + NotForm(b) + rest;
    assert AndForm(a) + [And] + NotForm(b) + rest == AndForm(a) + tail;
    AndFormParses(a, tail, vals);
    assert tail[1..] == NotForm(b) + rest;
    NotFormParses(b, rest, vals);
  }

  lemma {:induction false} AndPairParses(a: Expr, b: Expr, rest: seq<Token>, vals: Valuation)
    requires !Starts(rest, And)
    ensures ParseOr(AndForm(a) + [And] + NotForm(b) + rest, vals)
      == OrTail(Meaning(a, vals) && Meaning(b, vals), rest, vals)
    decreases Both(a, b), 0, 1
  {
    hide ParseAnd;
    AndFirstParses(a, b, rest, vals);
    AndTailStops(Meaning(a, vals) && Meaning(b, vals), rest, vals);
  }

  /** A disjunction is read from the left and binds loosest. */
  lemma {:induction false} OrFormParses(e: Expr, rest: seq<Token>, vals: Valuation)
    requires !Starts(rest, And)
    ensures ParseOr(OrForm(e) + rest, vals) == OrTail(Meaning(e, vals), rest, vals)
    decreases e, 3
  {
    match e
    case Either(a, b) =>
      OrPairParses(a, b, rest, vals);
    case _ =>
      AndFormParses(e, rest, vals);
      AndTailStops(Meaning(e, vals), rest, vals);
  }

  lemma {:induction false} OrPairParses(a: Expr, b: Expr, rest: seq<Token>, vals: Valuation)
    requires !Starts(rest, And)
    ensures ParseOr(OrForm(a) + [Or] + AndForm(b) + rest, vals)
      == OrTail(Meaning(a, vals) || Meaning(b, vals), rest, vals)
    decreases Either(a, b), 0, 0
  {
    hide ParseOr, ParseAnd;
    var tail := [Or] + AndForm(b) + rest;
    assert OrForm(a) + [Or] + AndForm(b) + rest == OrForm(a) + tail;
    OrFormParses(a, tail, vals);
    assert tail[1..] == AndForm(b) + rest;
    AndFormParses(b, rest, vals);
    AndTailStops(Meaning(b, vals), rest, vals);
  }

  /** The engine evaluates a written expression to its meaning. */
  lemma WrittenMeans(e: Expr, vals: Valuation)
    ensures Evaluate(OrForm(e), vals) <==> Meaning(e, vals)
  {
    hide ParseOr, OrTail;
    assert OrForm(e) + [] == OrForm(e);
    OrFormParses(e, [], vals);
    OrTailEnds(Meaning(e, vals), [], vals);
  }

  // ---------- as text ----------

  function Word(t: Token): string {
    match t
    case Open => "("
    case Close => ")"
    case And => "and"
    case Or => "or"
    case Not => "not"
    case Name(n) => n
  }

  /** Tokens written one after the other, a space after each. */
  function Text(ts: seq<Token>): string {
    if ts == [] then "" else Word(ts[0]) + (" " + Text(ts[1..]))
  }

  /** A selection name an author can write in a condition: one word, no operator. */
  predicate IsSourceName(n: string) {
    n != "" && (forall i :: 0 <= i < |n| ==> !Separates(n[i])) && !IsKeyword(n)
  }

  predicate NamesHold(ts: seq<Token>, ok: string -> bool) {
    forall i :: 0 <= i < |ts| && ts[i].Name? ==> ok(ts[i].name)
  }

  lemma SourceSpace(rest: string)
    ensures SourceTokens(" " + rest) == SourceTokens(rest)
  {
    assert (" " + rest)[1..] == rest;
  }

  lemma SourceParen(rest: string)
    ensures SourceTokens("(" + rest) == [Open] + SourceTokens(rest)
    ensures SourceTokens(")" + rest) == [Close] + SourceTokens(rest)
  {
    assert ("(" + rest)[1..] == rest && (")" + rest)[1..] == rest;
  }

  lemma WordLength(w: string, rest: string)
    requires (forall i :: 0 <= i < |w| ==> !Separates(w[i])) && Breaks(rest)
    ensures SourceWord(w + rest) == |w|
  {
    var s := w + rest;
    assert forall i :: 0 <= i < |w| ==> s[i] == w[i];
    assert rest != "" ==> s[|w|] == rest[0];
  }

  lemma SourceWordRead(w: string, rest: string)
    requires w != "" && (forall i :: 0 <= i < |w| ==> !Separates(w[i])) && Breaks(rest)
    ensures SourceTokens(w + rest) == [TokenOf(w)] + SourceTokens(rest)
  {
    var s := w + rest;
    WordLength(w, rest);
    assert s[0] == w[0] && s[..|w|] == w && s[|w|..] == rest;
  }

  lemma WordIsToken(t: Token)
    requires t != Open && t != Close && (t.Name? ==> IsSourceName(t.name))
    ensures Word(t) != "" && (forall i :: 0 <= i < |Word(t)| ==> !Separates(Word(t)[i])) && TokenOf(Word(t)) == t
  {
  }

  lemma TextStep(ts: seq<Token>)
    requires ts != []
    ensures Text(ts) == Word(ts[0]) + (" " + Text(ts[1..])) && Breaks(" " + Text(ts[1..]))
  {
  }

  lemma SourceReadsToken(t: Token, more: string)
    requires t.Name? ==> IsSourceName(t.name)
    ensures SourceTokens(Word(t) + (" " + more)) == [t] + SourceTokens(more)
  {
    hide SourceTokens, Word, TokenOf, IsSourceName, Separates;
    var rest := " " + more;
    SourceSpace(more);
    SpaceBreaks(more);
    if t == Open || t == Close {
      WordOfParen();
      SourceParen(rest);
    } else {
      WordIsToken(t);
      SourceWordRead(Word(t), rest);
    }
  }

  lemma SpaceBreaks(more: string)
    ensures Breaks(" " + more)
  {
  }

  /** The author's tokens are read back from the text. */
  lemma {:induction false} SourceReadsText(ts: seq<Token>)
    requires NamesHold(ts, IsSourceName)
    ensures SourceTokens(Text(ts)) == ts
  {
    if ts != [] {
      hide SourceTokens, Text, Word, TokenOf, IsSourceName, Breaks;
      TextStep(ts);
      SourceReadsText(ts[1..]);
      SourceReadsToken(ts[0], Text(ts[1..]));
      assert ts == [ts[0]] + ts[1..];
    } else {
      assert Text(ts) == "" && SourceTokens("") == [];
    }
  }

  lemma WordOfParen()
    ensures Word(Open) == "(" && Word(Close) == ")"
  {
  }

  lemma LocalWord(t: Token)
    requires t != Open && t != Close && (t.Name? ==> IsLocalName(t.name))
    ensures Word(t) != "" && (forall i :: 0 <= i < |Word(t)| ==> IsPlain(Word(t)[i])) && TokenOf(Word(t)) == t
  {
  }

  lemma EngineReadsToken(t: Token, more: string)
    requires t.Name? ==> IsLocalName(t.name)
    ensures EngineTokens(Word(t) + (" " + more)) == [t] + EngineTokens(more)
  {
    hide EngineTokens, Word, TokenOf, IsLocalName;
    var rest := " " + more;
    assert rest == [' '] + more;
    SpaceTokens(' ', more);
    if t == Open || t == Close {
      WordOfParen();
      ParenTokens(rest);
    } else {
      LocalWord(t);
      PlainRun(Word(t), rest);
    }
  }

  /** So does the engine's tokenizer, when the names are local ones. */
  lemma {:induction false} EngineReadsText(ts: seq<Token>)
    requires NamesHold(ts, IsLocalName)
    ensures EngineTokens(Text(ts)) == ts
  {
    if ts != [] {
      hide EngineTokens, Text, Word, TokenOf, IsLocalName, Breaks;
      TextStep(ts);
      EngineReadsText(ts[1..]);
      EngineReadsToken(ts[0], Text(ts[1..]));
      assert ts == [ts[0]] + ts[1..];
    } else {
      assert Text(ts) == "" && EngineTokens("") == [];
    }
  }

  /** The first token of a run of token characters. */
  lemma RunStep(run: string, n: nat, rest: string)
    requires run != "" && TokenLength(run) == n <= |run| && Breaks(rest)
    requires forall i :: 0 <= i < |run| ==> IsTokenChar(run[i])
    ensures EngineTokens(run + rest) == [TokenOf(run[..n])] + EngineTokens((run + rest)[n..])
  {
    hide TokenOf, TokenLength, EngineWord, Breaks;
    TokenRunLength(run, rest);
    assert (run + rest)[..|run|] == run && (run + rest)[0] == run[0];
  }

  /** A keyword ends at a dot and the rest of the run is read again. */
  lemma DottedRun(word: string, tail: string, rest: string)
    requires word == "and" || word == "or" || word == "not"
    requires (forall i :: 0 <= i < |tail| ==> IsTokenChar(tail[i])) && Breaks(rest)
    ensures EngineTokens(word + ("." + tail + rest)) == [TokenOf(word)] + EngineTokens("." + tail + rest)
  {
    hide TokenOf, TokenLength, EngineTokens, Breaks;
    var run, more := word + "." + tail, "." + tail + rest;
    assert word + more == run + rest;
    DottedLength(word, tail);
    RunStep(run, |word|, rest);
    assert (word + more)[|word|..] == more && run[..|word|] == word;
  }

  lemma DottedLength(word: string, tail: string)
    requires word == "and" || word == "or" || word == "not"
    ensures TokenLength(word + "." + tail) == |word|
  {
    var run := word + "." + tail;
    assert run[..|word|] == word && run[|word|] == '.';
    assert word == "and" || word == "not" ==> run[..3] == word && |word| == 3;
    assert word == "or" ==> run[..2] == word && run[2] == '.';
  }

  lemma TokenRunLength(run: string, rest: string)
    requires (forall i :: 0 <= i < |run| ==> IsTokenChar(run[i])) && Breaks(rest)
    ensures EngineWord(run + rest) == |run|
  {
    var s := run + rest;
    assert forall i :: 0 <= i < |run| ==> s[i] == run[i];
    assert rest != "" ==> s[|run|] == rest[0];
  }

  /** A keyword stands at the start of `s` with a dot after it. */
  predicate CutByDot(s: string) {
    (|s| > 3 && (s[..4] == "and." || s[..4] == "not.")) || (|s| > 2 && s[..3] == "or.")
  }

  /** Any other run of letters, digits, underscores and dots is one engine token. */
  lemma RunIsToken(run: string, rest: string)
    requires run != "" && !CutByDot(run) && Breaks(rest)
    requires forall i :: 0 <= i < |run| ==>
      'a' <= run[i] <= 'z' || 'A' <= run[i] <= 'Z' || '0' <= run[i] <= '9' || run[i] == '_' || run[i] == '.'
    ensures EngineTokens(run + rest) == [TokenOf(run)] + EngineTokens(rest)
  {
    hide TokenOf, TokenLength, EngineTokens, Breaks, CutByDot;
    WholeLength(run);
    RunStep(run, |run|, rest);
    assert (run + rest)[|run|..] == rest && run[..|run|] == run;
  }

  lemma WholeLength(run: string)
    requires run != "" && !CutByDot(run)
    ensures TokenLength(run) == |run|
  {
    assert |run| > 3 ==> run[..4] == run[..3] + [run[3]];
    assert |run| > 2 ==> run[..3] == run[..2] + [run[2]];
  }

  /** Blanks, tabs and line ends separate words and are no token, to author and engine alike. */
  lemma WhiteSeparates(c: char, rest: string)
    requires c == ' ' || c == '\t' || c == '\n' || c == '\r'
    ensures SourceTokens([c] + rest) == SourceTokens(rest) && EngineTokens([c] + rest) == EngineTokens(rest)
    ensures Breaks([c] + rest)
  {
    assert ([c] + rest)[1..] == rest;
  }

  // ---------- names of an expression ----------

  function NamesIn(e: Expr): set<string> {
    match e
    case Var(n) => {n}
    case Negation(x) => NamesIn(x)
    case Both(a, b) => NamesIn(a) + NamesIn(b)
    case Either(a, b) => NamesIn(a) + NamesIn(b)
  }

  lemma PairNames(a: seq<Token>, t: Token, b: seq<Token>, ok: string -> bool)
    requires NamesHold(a, ok) && NamesHold(b, ok) && !t.Name?
    ensures NamesHold(a + [t] + b, ok) && NamesHold([t] + b, ok) && NamesHold([Open] + (a + [t] + b) + [Close], ok)
  {
  }

  lemma {:induction false} FormNames(e: Expr, ok: string -> bool)
    requires forall n :: n in NamesIn(e) ==> ok(n)
    ensures NamesHold(OrForm(e), ok) && NamesHold(AndForm(e), ok) && NamesHold(NotForm(e), ok)
  {
    match e
    case Var(n) =>
      assert OrForm(e) == AndForm(e) == NotForm(e) == [Name(n)];
    case Negation(x) =>
      FormNames(x, ok);
      PairNames([], Not, NotForm(x), ok);
      assert OrForm(e) == AndForm(e) == NotForm(e) == [Not] + NotForm(x);
    case Both(a, b) =>
      FormNames(a, ok);
      FormNames(b, ok);
      PairNames(AndForm(a), And, NotForm(b), ok);
    case Either(a, b) =>
      FormNames(a, ok);
      FormNames(b, ok);
      PairNames(OrForm(a), Or, AndForm(b), ok);
  }

  lemma {:induction false} SameReading(e: Expr, vals: Valuation, vals': Valuation)
    requires forall n :: n in NamesIn(e) ==> vals(n) == vals'(n)
    ensures Meaning(e, vals) <==> Meaning(e, vals')
  {
    match e
    case Var(n) =>
    case Negation(x) =>
      SameReading(x, vals, vals');
    case Both(a, b) =>
      SameReading(a, vals, vals');
      SameReading(b, vals, vals');
    case Either(a, b) =>
      SameReading(a, vals, vals');
      SameReading(b, vals, vals');
  }

  /** An expression written over local names, as text, means to the engine what it says. */
  lemma EngineTextMeans(e: Expr, vals: Valuation)
    requires forall n :: n in NamesIn(e) ==> IsLocalName(n)
    ensures Evaluate(EngineTokens(Text(OrForm(e))), vals) <==> Meaning(e, vals)
  {
    hide EngineTokens, Evaluate, IsLocalName;
    FormNames(e, IsLocalName);
    EngineReadsText(OrForm(e));
    WrittenMeans(e, vals);
  }

  // ---------- the imported condition ----------

  lemma {:induction false} TextResolves(ts: seq<Token>, groups: Groups)
    requires NamesHold(ts, IsSourceName) && NamesHold(ts, (n: string) => n in groups && groups[n] != [])
    ensures Resolves(Text(ts), groups)
  {
    if ts == [] {
      assert Text(ts) == "";
    } else {
      hide Text, Word, TokenOf, IsSourceName, Resolves, Known;
      var t, more := ts[0], Text(ts[1..]);
      TextStep(ts);
      TextResolves(ts[1..], groups);
      SpaceResolves(more, groups);
      if t == Open || t == Close {
        WordOfParen();
        ParenResolves(" " + more, groups);
      } else {
        WordIsToken(t);
        TokenKnown(t, groups);
        WordResolves(Word(t), " " + more, groups);
      }
    }
  }

  lemma TokenKnown(t: Token, groups: Groups)
    requires t != Open && t != Close && (t.Name? ==> t.name in groups && groups[t.name] != [])
    ensures Known(Word(t), groups)
  {
  }

  lemma SpaceResolves(rest: string, groups: Groups)
    requires Resolves(rest, groups)
    ensures Resolves(" " + rest, groups)
  {
    assert (" " + rest)[1..] == rest;
  }

  lemma ParenResolves(rest: string, groups: Groups)
    requires Resolves(rest, groups)
    ensures Resolves("(" + rest, groups) && Resolves(")" + rest, groups)
  {
    assert ("(" + rest)[1..] == rest && (")" + rest)[1..] == rest;
  }

  lemma WordResolves(w: string, rest: string, groups: Groups)
    requires w != "" && (forall i :: 0 <= i < |w| ==> !Separates(w[i])) && Breaks(rest)
    requires Known(w, groups) && Resolves(rest, groups)
    ensures Resolves(w + rest, groups)
  {
    var s := w + rest;
    WordLength(w, rest);
    assert s[0] == w[0] && s[..|w|] == w && s[|w|..] == rest;
  }

  /** The source's own reading of a selection name. */
  ghost predicate SourceReads<F>(sources: seq<Source<F>>, matches: F -> bool, n: string) {
    exists i :: 0 <= i < |sources| && sources[i].name == n && SelectionMatches(sources[i], matches)
  }

  /** An expression an author can write over these selections. */
  ghost predicate WrittenOver<F>(e: Expr, sources: seq<Source<F>>) {
    forall n :: n in NamesIn(e) ==> IsSourceName(n) && exists i :: 0 <= i < |sources| && sources[i].name == n && HasItems(sources[i])
  }

  lemma ImportedNames<F>(sources: seq<Source<F>>, e: Expr)
    requires DistinctNames(sources) && WrittenOver(e, sources)
    ensures var groups := Build(sources).groups;
      NamesHold(OrForm(e), IsSourceName) && NamesHold(OrForm(e), (n: string) => n in groups && groups[n] != [])
  {
    hide Build, PartsOf, IsSourceName, OrForm, HasItems;
    var groups := Build(sources).groups;
    forall n | n in NamesIn(e) ensures n in groups && groups[n] != [] {
      var i :| 0 <= i < |sources| && sources[i].name == n && HasItems(sources[i]);
      PartsAreItems(sources[i], (f: F) => true);
      var o := GroupSlice(sources, i);
    }
    FormNames(e, IsSourceName);
    FormNames(e, (n: string) => n in groups && groups[n] != []);
  }

  /** End to end: for every expression over the source's selections and every event, the engine
      evaluates the imported text to what the expression says of the selections themselves,
      mappings as they stand and lists as the OR of their items, when none overwrites another. */
  lemma ImportedMeans<F>(sources: seq<Source<F>>, e: Expr, matches: F -> bool)
    requires DistinctNames(sources) && forall i :: 0 <= i < |sources| ==> !Reserved(sources[i])
    requires WrittenOver(e, sources)
    requires forall k :: 0 <= k < |AllParts(sources)| ==> !Overwritten(AllParts(sources), k)
    ensures var b := Build(sources);
      Evaluate(EngineTokens(Substitute(Text(OrForm(e)), b.groups)), Matched(Stored(b.log), matches)) <==>
      Meaning(e, (n: string) => SourceReads(sources, matches, n))
  {
    hide Build, Stored, Substitute, EngineTokens, SourceTokens, Evaluate, Overwritten, AllParts, Resolves,
      Text, OrForm, Meaning, Original, SelectionMatches, HasItems, Reserved;
    var b := Build(sources);
    var vals := Matched(Stored(b.log), matches);
    ImportedNames(sources, e);
    TextResolves(OrForm(e), b.groups);
    SourceReadsText(OrForm(e));
    ImportPreservesMeaning(sources, Text(OrForm(e)), matches);
    WrittenMeans(e, Original(b.groups, vals));
    forall n | n in NamesIn(e)
      ensures Original(b.groups, vals)(n) <==> SourceReads(sources, matches, n)
    {
      var i :| 0 <= i < |sources| && sources[i].name == n && HasItems(sources[i]);
    }
    SameReading(e, Original(b.groups, vals), (n: string) => SourceReads(sources, matches, n));
  }
}
