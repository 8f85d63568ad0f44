/** Conditions as text: the importer's word substitution and the engine's tokenizer. */
module SigmaText {
  import opened SigmaCondition

  predicate IsSpace(c: char) {
    c == ' ' || ('\U{9}' <= c <= '\U{D}') || ('\U{1C}' <= c <= '\U{1F}')
  }

  predicate IsParen(c: char) {
    c == '(' || c == ')'
  }

  predicate Separates(c: char) {
    IsSpace(c) || IsParen(c)
  }

  /** A character of a local selection name. */
  predicate IsPlain(c: char) {
    'a' <= c <= 'z' || '0' <= c <= '9' || c == '_'
  }

  predicate IsWord(c: char) {
    IsPlain(c) || 'A' <= c <= 'Z'
  }

  /** A character of an engine token. */
  predicate IsTokenChar(c: char) {
    IsWord(c) || c == '.'
  }

  /** The longest prefix whose characters all satisfy `p`. */
  function Prefix(s: string, p: char -> bool): (k: nat)
    ensures k <= |s|
    ensures forall i :: 0 <= i < k ==> p(s[i])
    ensures k < |s| ==> !p(s[k])
  {
    if s == "" || !p(s[0]) then 0 else 1 + Prefix(s[1..], p)
  }

  function SourceWord(s: string): nat {
    Prefix(s, c => !Separates(c))
  }

  function EngineWord(s: string): nat {
    Prefix(s, IsTokenChar)
  }

  function TokenOf(word: string): Token {
    if word == "and" then And
    else if word == "or" then Or
    else if word == "not" then Not
    else Name(word)
  }

  predicate IsKeyword(word: string) {
    word == "and" || word == "or" || word == "not"
  }

  /** How much of a run of token characters is one token: a keyword ends at a dot. */
  function TokenLength(run: string): nat
    requires run != ""
  {
    if |run| > 3 && (run[..3] == "and" || run[..3] == "not") && run[3] == '.' then 3
    else if |run| > 2 && run[..2] == "or" && run[2] == '.' then 2
    else |run|
  }

  /** The engine's tokens: parentheses, keywords at word boundaries, and runs of word
      characters and dots; everything else is skipped. */
  function EngineTokens(s: string): seq<Token>
    decreases |s|
  {
    if s == "" then []
    else if s[0] == '(' then [Open] + EngineTokens(s[1..])
    else if s[0] == ')' then [Close] + EngineTokens(s[1..])
    else if IsTokenChar(s[0]) then
      var run := s[..EngineWord(s)];
      var n := TokenLength(run);
      [TokenOf(run[..n])] + EngineTokens(s[n..])
    else EngineTokens(s[1..])
  }

  /** The words of a condition as its author wrote them: anything between spaces and
      parentheses. */
  function SourceTokens(s: string): seq<Token>
    decreases |s|
  {
    if s == "" then []
    else if s[0] == '(' then [Open] + SourceTokens(s[1..])
    else if s[0] == ')' then [Close] + SourceTokens(s[1..])
    else if IsSpace(s[0]) then SourceTokens(s[1..])
    else
      var n := SourceWord(s);
      [TokenOf(s[..n])] + SourceTokens(s[n..])
  }

  // ---------- the substitution on text ----------

  function JoinText(names: seq<string>): string
    requires names != []
  {
    if |names| == 1 then names[0] else names[0] + " or " + JoinText(names[1..])
  }

  /** What a source word is replaced by; keywords and unknown words stay. */
  function Replacement(word: string, groups: Groups): string {
    if IsKeyword(word) || word !in groups || groups[word] == [] then word
    else if |groups[word]| == 1 then groups[word][0]
    else "(" + JoinText(groups[word]) + ")"
  }

  /** One pass over the text: an inserted group is never scanned again. */
  function Substitute(s: string, groups: Groups): string
    decreases |s|
  {
    if s == "" then ""
    else if Separates(s[0]) then [s[0]] + Substitute(s[1..], groups)
    else
      var n := SourceWord(s);
      Replacement(s[..n], groups) + Substitute(s[n..], groups)
  }

  // ---------- both tokenizers agree ----------

  predicate IsLocalName(w: string) {
    w != "" && (forall i :: 0 <= i < |w| ==> IsPlain(w[i])) && !IsKeyword(w)
  }

  predicate LocalNames(names: seq<string>) {
    forall i :: 0 <= i < |names| ==> IsLocalName(names[i])
  }

  /** Every word is a keyword, an imported selection or already a local name. */
  predicate Resolves(s: string, groups: Groups)
    decreases |s|
  {
    if s == "" then true
    else if Separates(s[0]) then Resolves(s[1..], groups)
    else
      var n := SourceWord(s);
      Known(s[..n], groups) && Resolves(s[n..], groups)
  }

  predicate Known(word: string, groups: Groups) {
    IsKeyword(word) || IsLocalName(word) || (word in groups && groups[word] != [])
  }

  predicate GroupsAreLocal(groups: Groups) {
    forall w :: w in groups ==> LocalNames(groups[w]) && !IsKeyword(w)
  }

  /** Text that ends a token: empty, or starting with a separator. */
  predicate Breaks(rest: string) {
    rest == "" || Separates(rest[0])
  }

  lemma PlainRun(w: string, rest: string)
    requires w != "" && (forall i :: 0 <= i < |w| ==> IsPlain(w[i])) && Breaks(rest)
    ensures EngineTokens(w + rest) == [TokenOf(w)] + EngineTokens(rest)
  {
    var s := w + rest;
    assert s[0] == w[0] && IsTokenChar(s[0]) && s[0] != '(' && s[0] != ')';
    RunLength(w, rest);
    assert s[..|w|] == w && s[|w|..] == rest;
    assert TokenLength(w) == |w|;
    assert w[..|w|] == w;
  }

  lemma RunLength(w: string, rest: string)
    requires (forall i :: 0 <= i < |w| ==> IsPlain(w[i])) && Breaks(rest)
    ensures EngineWord(w + rest) == |w|
  {
    var s := w + rest;
    assert forall i :: 0 <= i < |w| ==> IsTokenChar(s[i]);
    assert rest != "" ==> s[|w|] == rest[0];
  }

  lemma SpaceTokens(c: char, rest: string)
    requires IsSpace(c)
    ensures EngineTokens([c] + rest) == EngineTokens(rest)
  {
    assert ([c] + rest)[1..] == rest;
  }

  lemma OrGlue(rest: string)
    ensures Breaks(" or " + rest)
    ensures EngineTokens(" or " + rest) == [Or] + EngineTokens(rest)
  {
    hide EngineTokens;
    var spaced := [' '] + rest;
    assert " or " + rest == [' '] + ("or" + spaced);
    SpaceTokens(' ', "or" + spaced);
    PlainRun("or", spaced);
    SpaceTokens(' ', rest);
  }

  lemma NameThenMore(name: string, more: string)
    requires IsLocalName(name)
    ensures EngineTokens(name + " or " + more) == [Name(name), Or] + EngineTokens(more)
  {
    hide EngineTokens;
    OrGlue(more);
    PlainRun(name, " or " + more);
    assert name + (" or " + more) == name + " or " + more;
  }

  lemma Associates<T>(a: seq<T>, b: seq<T>, c: seq<T>)
    ensures a + (b + c) == a + b + c
  {
  }

  lemma {:induction false} JoinTokens(names: seq<string>, rest: string)
    requires names != [] && LocalNames(names) && Breaks(rest)
    ensures EngineTokens(JoinText(names) + rest) == JoinOr(names) + EngineTokens(rest)
  {
    if |names| == 1 {
      PlainRun(names[0], rest);
    } else {
      hide EngineTokens, IsLocalName;
      JoinTokens(names[1..], rest);
      NameThenMore(names[0], JoinText(names[1..]) + rest);
      Associates(names[0] + " or ", JoinText(names[1..]), rest);
      Associates([Name(names[0]), Or], JoinOr(names[1..]), EngineTokens(rest));
    }
  }

  lemma ParenTokens(rest: string)
    ensures EngineTokens("(" + rest) == [Open] + EngineTokens(rest)
    ensures EngineTokens(")" + rest) == [Close] + EngineTokens(rest)
  {
    assert ("(" + rest)[1..] == rest && (")" + rest)[1..] == rest;
  }

  lemma GroupTokens(names: seq<string>, rest: string)
    requires names != [] && LocalNames(names)
    ensures EngineTokens("(" + JoinText(names) + ")" + rest) == [Open] + JoinOr(names) + [Close] + EngineTokens(rest)
  {
    hide EngineTokens, IsLocalName, JoinText, JoinOr;
    var closing := ")" + rest;
    ParenTokens(rest);
    ParenTokens(JoinText(names) + closing);
    assert Breaks(closing);
    JoinTokens(names, closing);
    assert "(" + (JoinText(names) + closing) == "(" + JoinText(names) + ")" + rest;
    Associates([Open], JoinOr(names), [Close] + EngineTokens(rest));
    Associates([Open] + JoinOr(names), [Close], EngineTokens(rest));
  }

  lemma ReplacementTokens(word: string, groups: Groups, rest: string)
    requires GroupsAreLocal(groups) && Known(word, groups) && Breaks(rest)
    ensures EngineTokens(Replacement(word, groups) + rest) == Expand(TokenOf(word), groups) + EngineTokens(rest)
  {
    if !IsKeyword(word) && word in groups && |groups[word]| > 1 {
      hide EngineTokens;
      GroupTokens(groups[word], rest);
    } else {
      hide EngineTokens;
      PlainRun(Replacement(word, groups), rest);
    }
  }

  lemma SubstituteBreaks(s: string, groups: Groups)
    requires Breaks(s)
    ensures Breaks(Substitute(s, groups))
  {
  }

  lemma RewriteCons(t: Token, rest: seq<Token>, groups: Groups)
    ensures Rewrite([t] + rest, groups) == Expand(t, groups) + Rewrite(rest, groups)
  {
    assert ([t] + rest)[1..] == rest;
  }

  /** A separator survives the substitution and means the same to both tokenizers. */
  lemma SeparatorStep(s: string, groups: Groups)
    requires s != "" && Separates(s[0])
    requires EngineTokens(Substitute(s[1..], groups)) == Rewrite(SourceTokens(s[1..]), groups)
    ensures EngineTokens(Substitute(s, groups)) == Rewrite(SourceTokens(s), groups)
  {
    var rest := Substitute(s[1..], groups);
    assert Substitute(s, groups) == [s[0]] + rest;
    if IsParen(s[0]) {
      var t := if s[0] == '(' then Open else Close;
      assert SourceTokens(s) == [t] + SourceTokens(s[1..]);
      hide EngineTokens, SourceTokens, Substitute, Rewrite;
      ParenTokens(rest);
      RewriteCons(t, SourceTokens(s[1..]), groups);
    } else {
      assert SourceTokens(s) == SourceTokens(s[1..]);
      hide EngineTokens, SourceTokens, Substitute, Rewrite;
      SpaceTokens(s[0], rest);
    }
  }

  /** Tokenizing the substituted text gives the substituted tokens: no token is split,
      merged or captured on the way through text. */
  lemma {:induction false} SubstituteTokens(s: string, groups: Groups)
    requires GroupsAreLocal(groups) && Resolves(s, groups)
    ensures EngineTokens(Substitute(s, groups)) == Rewrite(SourceTokens(s), groups)
    decreases |s|
  {
    if s == "" {
    } else if Separates(s[0]) {
      hide EngineTokens, SourceTokens, Substitute, Rewrite;
      SubstituteTokens(s[1..], groups);
      SeparatorStep(s, groups);
    } else {
      hide EngineTokens, Rewrite, GroupsAreLocal;
      var n := SourceWord(s);
      SubstituteTokens(s[n..], groups);
      assert Breaks(s[n..]);
      SubstituteBreaks(s[n..], groups);
      ReplacementTokens(s[..n], groups, Substitute(s[n..], groups));
      RewriteCons(TokenOf(s[..n]), SourceTokens(s[n..]), groups);
    }
  }
}
