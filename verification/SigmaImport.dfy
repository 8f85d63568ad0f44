/** From Sigma selections to local ones: names, groups, and the meaning of the imported
    rule as the engine evaluates it. */
module SigmaImport {
  import opened Common
  import opened SigmaCondition
  import opened SigmaText

  // ---------- names ----------

  function Lower(c: char): char {
    if 'A' <= c <= 'Z' then c - 'A' + 'a' else c
  }

  /** Lower-cases, and turns every run of other characters into one underscore. */
  function Collapse(s: string): string
    decreases |s|
  {
    if s == "" then ""
    else if IsPlain(Lower(s[0])) then [Lower(s[0])] + Collapse(s[1..])
    else
      var n := Prefix(s, c => !IsPlain(Lower(c)));
      "_" + Collapse(s[n..])
  }

  function Strip(s: string): string
    decreases |s|
  {
    if s == "" then ""
    else if s[0] == '_' then Strip(s[1..])
    else if s[|s| - 1] == '_' then Strip(s[..|s| - 1])
    else s
  }

  function Sanitize(name: string): string {
    var out := Strip(Collapse(name));
    if out == "" then "_" else out
  }

  predicate AllPlain(s: string) {
    forall i :: 0 <= i < |s| ==> IsPlain(s[i])
  }

  lemma {:induction false} CollapsePlain(s: string)
    ensures AllPlain(Collapse(s))
    decreases |s|
  {
    if s != "" {
      if IsPlain(Lower(s[0])) {
        CollapsePlain(s[1..]);
      } else {
        CollapsePlain(s[Prefix(s, c => !IsPlain(Lower(c)))..]);
      }
    }
  }

  lemma {:induction false} StripPlain(s: string)
    requires AllPlain(s)
    ensures AllPlain(Strip(s))
    decreases |s|
  {
    if s != "" {
      if s[0] == '_' {
        StripPlain(s[1..]);
      } else if s[|s| - 1] == '_' {
        StripPlain(s[..|s| - 1]);
      }
    }
  }

  function Decimal(n: nat): (d: string)
    ensures d != "" && AllPlain(d) && '0' <= d[|d| - 1] <= '9'
  {
    var digit := [(n % 10) as char + '0'];
    if n < 10 then digit else Decimal(n / 10) + digit
  }

  function Numbered(base: string, n: nat): string {
    base + "_" + Decimal(n)
  }

  /** Every name the importer makes is one the engine's tokenizer keeps whole. */
  lemma SanitizedIsLocal(name: string, n: nat)
    ensures !IsKeyword(Sanitize(name)) ==> IsLocalName(Sanitize(name))
    ensures IsLocalName(Numbered(Sanitize(name), n))
    ensures IsLocalName(Numbered(Numbered(Sanitize(name), n), n))
  {
    CollapsePlain(name);
    StripPlain(Collapse(name));
    NumberedIsLocal(Sanitize(name), n);
    NumberedIsLocal(Numbered(Sanitize(name), n), n);
  }

  lemma NumberedIsLocal(base: string, n: nat)
    requires AllPlain(base)
    ensures IsLocalName(Numbered(base, n)) && AllPlain(Numbered(base, n))
  {
    var w, d := Numbered(base, n), Decimal(n);
    assert w[|w| - 1] == d[|d| - 1];
    assert "and"[2] == 'd' && "or"[1] == 'r' && "not"[2] == 't';
  }

  // ---------- selections ----------

  /** One translated item of a list selection, with its position in the source list. */
  datatype Item<F> = Item(index: nat, fields: F)

  datatype Selection<F> = Single(fields: F) | Listed(items: seq<Item<F>>)

  datatype Source<F> = Source(name: string, selection: Selection<F>)

  datatype Part<F> = Part(name: string, fields: F)

  /** The local selections one source selection asks for. */
  function PartsOf<F>(src: Source<F>): seq<Part<F>> {
    match src.selection
    case Single(fields) => [Part(Sanitize(src.name), fields)]
    case Listed(items) =>
      seq(|items|, i requires 0 <= i < |items| => Part(Numbered(Sanitize(src.name), items[i].index), items[i].fields))
  }

  /** Everything stored so far, in order, and the group of each source name. */
  datatype Import<F> = Import(log: seq<Part<F>>, groups: Groups)

  /** The stored dictionary: a name written twice keeps the later fields. */
  function Stored<F>(log: seq<Part<F>>): map<string, F> {
    if log == [] then map[]
    else Stored(log[..|log| - 1])[log[|log| - 1].name := log[|log| - 1].fields]
  }

  /** The name a part is stored under: numbered when its own is taken. */
  function LocalName<F>(log: seq<Part<F>>, name: string): string {
    if name in Stored(log) then Numbered(name, |Stored(log)|) else name
  }

  function StoreParts<F>(log: seq<Part<F>>, parts: seq<Part<F>>): seq<Part<F>> {
    if parts == [] then log
    else
      var n := |parts| - 1;
      var before := StoreParts(log, parts[..n]);
      before + [Part(LocalName(before, parts[n].name), parts[n].fields)]
  }

  function NamesOf<F>(parts: seq<Part<F>>): seq<string> {
    seq(|parts|, i requires 0 <= i < |parts| => parts[i].name)
  }

  predicate Reserved<F>(src: Source<F>) {
    IsKeyword(Sanitize(src.name))
  }

  function Build<F>(sources: seq<Source<F>>): Import<F> {
    if sources == [] then Import([], map[])
    else
      var n := |sources| - 1;
      var before := Build(sources[..n]);
      var log := StoreParts(before.log, PartsOf(sources[n]));
      StoreExtends(before.log, PartsOf(sources[n]));
      if |log| == |before.log| then before
      else Import(log, before.groups[sources[n].name := NamesOf(log[|before.log|..])])
  }

  lemma {:induction false} StoreExtends<F>(log: seq<Part<F>>, parts: seq<Part<F>>)
    ensures var after := StoreParts(log, parts);
      log <= after && |after| == |log| + |parts| &&
      forall i :: 0 <= i < |parts| ==> after[|log| + i].fields == parts[i].fields
  {
    if parts != [] {
      StoreExtends(log, parts[..|parts| - 1]);
    }
  }

  /** Stores one source's parts, numbering a name that is taken. */
  method StoreAll<F>(det0: map<string, F>, ghost log: seq<Part<F>>, parts: seq<Part<F>>)
    returns (det: map<string, F>, locals: seq<string>)
    requires det0 == Stored(log)
    ensures det == Stored(StoreParts(log, parts))
    ensures |locals| == |parts| && |StoreParts(log, parts)| == |log| + |parts|
    ensures locals == NamesOf(StoreParts(log, parts)[|log|..])
  {
    det := det0;
    locals := [];
    for k := 0 to |parts|
      invariant |StoreParts(log, parts[..k])| == |log| + k
      invariant det == Stored(StoreParts(log, parts[..k]))
      invariant locals == NamesOf(StoreParts(log, parts[..k])[|log|..])
    {
      hide Stored, Numbered;
      ghost var before := StoreParts(log, parts[..k]);
      var local := parts[k].name;
      if local in det {
        local := Numbered(local, |det|);
      }
      det := det[local := parts[k].fields];
      locals := locals + [local];
      StoreOne(log, parts, k);
      StoredSnoc(before, Part(local, parts[k].fields));
      NamesSnoc(before, |log|, Part(local, parts[k].fields));
    }
    assert parts[..|parts|] == parts;
  }

  lemma StoreOne<F>(log: seq<Part<F>>, parts: seq<Part<F>>, k: nat)
    requires k < |parts|
    ensures var before := StoreParts(log, parts[..k]);
      StoreParts(log, parts[..k + 1]) == before + [Part(LocalName(before, parts[k].name), parts[k].fields)]
  {
    assert parts[..k + 1][..k] == parts[..k];
  }

  lemma StoredSnoc<F>(log: seq<Part<F>>, part: Part<F>)
    ensures Stored(log + [part]) == Stored(log)[part.name := part.fields]
  {
    assert (log + [part])[..|log|] == log;
  }

  lemma NamesSnoc<F>(log: seq<Part<F>>, start: nat, part: Part<F>)
    requires start <= |log|
    ensures NamesOf((log + [part])[start..]) == NamesOf(log[start..]) + [part.name]
  {
  }

  /** The import loop: refused when a selection is named like an operator, or when nothing
      could be stored. */
  method ImportSelections<F>(sources: seq<Source<F>>) returns (r: Option<(map<string, F>, Groups)>)
    ensures r.None? <==> (exists i :: 0 <= i < |sources| && Reserved(sources[i])) || Build(sources).log == []
    ensures r.Some? ==> r.value == (Stored(Build(sources).log), Build(sources).groups)
  {
    hide Stored, StoreParts, PartsOf, NamesOf, Build, Reserved;
    BuildEmpty<F>();
    var det: map<string, F> := map[];
    var groups: Groups := map[];
    assert sources[..0] == [];
    for i := 0 to |sources|
      invariant Build(sources[..i]).groups == groups && det == Stored(Build(sources[..i]).log)
      invariant forall j :: 0 <= j < i ==> !Reserved(sources[j])
    {
      if Reserved(sources[i]) {
        return None;
      }
      var locals;
      ghost var log := Build(sources[..i]).log;
      det, locals := StoreAll(det, log, PartsOf(sources[i]));
      BuildOne(sources, i);
      if locals != [] {
        groups := groups[sources[i].name := locals];
      } else {
        StoreNothing(log, PartsOf(sources[i]));
      }
    }
    assert sources[..|sources|] == sources;
    StoredEmpty(Build(sources).log);
    if det == map[] {
      return None;
    }
    return Some((det, groups));
  }

  lemma StoreNothing<F>(log: seq<Part<F>>, parts: seq<Part<F>>)
    requires parts == []
    ensures StoreParts(log, parts) == log
  {
  }

  lemma BuildOne<F>(sources: seq<Source<F>>, i: nat)
    requires i < |sources|
    ensures var before, after := Build(sources[..i]), Build(sources[..i + 1]);
      var log := StoreParts(before.log, PartsOf(sources[i]));
      |before.log| <= |log| &&
      if |log| == |before.log| then after == before
      else after == Import(log, before.groups[sources[i].name := NamesOf(log[|before.log|..])])
  {
    assert sources[..i + 1][..i] == sources[..i];
    StoreExtends(Build(sources[..i]).log, PartsOf(sources[i]));
  }

  lemma StoredEmpty<F>(log: seq<Part<F>>)
    ensures Stored(log) == map[] <==> log == []
  {
    if log != [] {
      assert log[|log| - 1].name in Stored(log);
    }
  }

  // ---------- does every item keep its fields? ----------

  predicate KeepsEvery<F(==)>(log: seq<Part<F>>) {
    forall p :: 0 <= p < |log| ==> log[p].name in Stored(log) && Stored(log)[log[p].name] == log[p].fields
  }

  predicate NoClash<F(==)>(log: seq<Part<F>>) {
    forall p, q :: 0 <= p < q < |log| && log[p].name == log[q].name ==> log[p].fields == log[q].fields
  }

  lemma StoredStep<F>(log: seq<Part<F>>)
    requires log != []
    ensures var n := |log| - 1; Stored(log) == Stored(log[..n])[log[n].name := log[n].fields]
  {
  }

  /** The dictionary holds exactly the stored names, each with the fields of some item. */
  lemma {:induction false} StoredHolds<F>(log: seq<Part<F>>)
    ensures forall p :: 0 <= p < |log| ==> log[p].name in Stored(log)
    ensures forall name :: name in Stored(log) ==> Part(name, Stored(log)[name]) in log
  {
    if log == [] {
      StoredEmpty(log);
    } else {
      hide Stored;
      var n := |log| - 1;
      StoredStep(log);
      StoredHolds(log[..n]);
      assert log == log[..n] + [log[n]];
    }
  }

  /** Every stored item is still the one its group names iff no local name was given to
      two items with different fields: the numbering alone does not ensure it. */
  lemma KeepsEveryIff<F>(log: seq<Part<F>>)
    ensures KeepsEvery(log) <==> NoClash(log)
  {
    hide Stored;
    StoredHolds(log);
    if NoClash(log) {
      forall p | 0 <= p < |log| ensures Stored(log)[log[p].name] == log[p].fields {
        var q :| 0 <= q < |log| && log[q] == Part(log[p].name, Stored(log)[log[p].name]);
        assert log[p].fields == log[q].fields;
      }
    }
  }

  /** Storing `part` overwrites other fields: its own name is taken, and so is the numbered
      name it is given instead. */
  predicate Overwrites<F(==)>(before: seq<Part<F>>, part: Part<F>) {
    part.name in Stored(before) &&
    var numbered := Numbered(part.name, |Stored(before)|);
    numbered in Stored(before) && Stored(before)[numbered] != part.fields
  }

  /** One store step keeps every item exactly when it overwrites nothing. */
  lemma StoreStepKeeps<F>(before: seq<Part<F>>, part: Part<F>)
    ensures KeepsEvery(before + [Part(LocalName(before, part.name), part.fields)]) <==>
      KeepsEvery(before) && !Overwrites(before, part)
  {
    hide Stored, Numbered;
    var stored := Part(LocalName(before, part.name), part.fields);
    var after := before + [stored];
    StoredSnoc(before, stored);
    StoredHolds(before);
    assert forall p :: 0 <= p < |before| ==> after[p] == before[p];
    assert after[|before|] == stored;
    if Overwrites(before, part) {
      var q :| 0 <= q < |before| && before[q] == Part(stored.name, Stored(before)[stored.name]);
      assert after[q].name == stored.name && Stored(after)[stored.name] != after[q].fields;
    } else if KeepsEvery(after) {
      forall p | 0 <= p < |before| ensures Stored(before)[before[p].name] == before[p].fields {
        assert Stored(after)[after[p].name] == after[p].fields;
      }
    }
  }

  /** Does item `k` of all those to be stored overwrite one before it? */
  predicate Overwritten<F(==)>(parts: seq<Part<F>>, k: nat) {
    k < |parts| && Overwrites(StoreParts([], parts[..k]), parts[k])
  }

  /** Every item of every selection, in the order the importer meets them. */
  function AllParts<F>(sources: seq<Source<F>>): seq<Part<F>> {
    if sources == [] then [] else AllParts(sources[..|sources| - 1]) + PartsOf(sources[|sources| - 1])
  }

  lemma {:induction false} StoreConcat<F>(log: seq<Part<F>>, a: seq<Part<F>>, b: seq<Part<F>>)
    ensures StoreParts(log, a + b) == StoreParts(StoreParts(log, a), b)
  {
    if b == [] {
      assert a + b == a;
    } else {
      hide Stored, LocalName;
      var n := |b| - 1;
      assert (a + b)[..|a + b| - 1] == a + b[..n];
      StoreConcat(log, a, b[..n]);
    }
  }

  lemma {:induction false} BuildStoresAll<F>(sources: seq<Source<F>>)
    ensures Build(sources).log == StoreParts([], AllParts(sources))
  {
    if sources == [] {
      BuildEmpty<F>();
    } else {
      hide Build, StoreParts, PartsOf, Stored;
      var n := |sources| - 1;
      assert sources[..n + 1] == sources;
      BuildStoresAll(sources[..n]);
      BuildOne(sources, n);
      StoreConcat([], AllParts(sources[..n]), PartsOf(sources[n]));
      StoreExtends(Build(sources[..n]).log, PartsOf(sources[n]));
      if PartsOf(sources[n]) == [] {
        StoreNothing(Build(sources[..n]).log, PartsOf(sources[n]));
      }
    }
  }

  lemma OverwrittenSplit<F>(parts: seq<Part<F>>)
    requires parts != []
    ensures var n := |parts| - 1;
      (forall k :: 0 <= k < |parts| ==> !Overwritten(parts, k)) <==>
      (forall k :: 0 <= k < n ==> !Overwritten(parts[..n], k)) && !Overwrites(StoreParts([], parts[..n]), parts[n])
  {
    hide StoreParts, Overwrites;
    var n := |parts| - 1;
    forall k | 0 <= k < n ensures Overwritten(parts[..n], k) <==> Overwritten(parts, k) {
      assert parts[..n][..k] == parts[..k];
    }
    assert Overwritten(parts, n) <==> Overwrites(StoreParts([], parts[..n]), parts[n]);
  }

  lemma {:induction false} StoredKeepIff<F>(parts: seq<Part<F>>)
    ensures KeepsEvery(StoreParts([], parts)) <==> forall k :: 0 <= k < |parts| ==> !Overwritten(parts, k)
  {
    if parts == [] {
      StoreNothing<F>([], parts);
    } else {
      hide *;
      var n := |parts| - 1;
      StoredKeepIff(parts[..n]);
      OverwrittenSplit(parts);
      StoreOne([], parts, n);
      assert parts[..n + 1] == parts;
      StoreStepKeeps(StoreParts([], parts[..n]), parts[n]);
    }
  }

  /** The import keeps every item's fields iff no item, on its turn, finds both its own name
      and the numbered one taken by other fields. */
  lemma ImportKeepsIff<F>(sources: seq<Source<F>>)
    ensures KeepsEvery(Build(sources).log) <==>
      forall k :: 0 <= k < |AllParts(sources)| ==> !Overwritten(AllParts(sources), k)
  {
    hide *;
    BuildStoresAll(sources);
    StoredKeepIff(AllParts(sources));
  }

  predicate DistinctPartNames<F>(parts: seq<Part<F>>) {
    forall i, j :: 0 <= i < j < |parts| ==> parts[i].name != parts[j].name
  }

  lemma FreshName<F>(parts: seq<Part<F>>)
    requires parts != [] && DistinctPartNames(parts)
    ensures var n := |parts| - 1; LocalName(parts[..n], parts[n].name) == parts[n].name
  {
    hide Stored, Numbered;
    var n := |parts| - 1;
    StoredHolds(parts[..n]);
    assert forall p :: 0 <= p < n ==> parts[..n][p].name == parts[p].name;
  }

  lemma {:induction false} DistinctPartsStored<F>(parts: seq<Part<F>>)
    requires DistinctPartNames(parts)
    ensures StoreParts([], parts) == parts
  {
    if parts == [] {
      StoreNothing<F>([], parts);
    } else {
      hide Stored, StoreParts, LocalName;
      var n := |parts| - 1;
      DistinctPartsStored(parts[..n]);
      StoreOne([], parts, n);
      assert parts[..n + 1] == parts == parts[..n] + [parts[n]];
      FreshName(parts);
    }
  }

  /** To be read off the source: selections whose sanitized, numbered names are pairwise
      distinct are stored under those names, and none overwrites another. */
  lemma DistinctNamesKeep<F>(sources: seq<Source<F>>)
    requires DistinctPartNames(AllParts(sources))
    ensures Build(sources).log == AllParts(sources) && NoClash(Build(sources).log)
    ensures forall k :: 0 <= k < |AllParts(sources)| ==> !Overwritten(AllParts(sources), k)
  {
    hide Build, Stored, StoreParts, PartsOf, KeepsEvery, Overwritten;
    BuildStoresAll(sources);
    DistinctPartsStored(AllParts(sources));
    KeepsEveryIff(Build(sources).log);
    ImportKeepsIff(sources);
  }

  lemma StoredOf<F>(log: seq<Part<F>>, p: nat)
    requires p < |log| && KeepsEvery(log)
    ensures log[p].name in Stored(log) && Stored(log)[log[p].name] == log[p].fields
  {
  }

  lemma {:induction false} PartsAmongAll<F>(sources: seq<Source<F>>, i: nat)
    requires i < |sources|
    ensures forall part :: part in PartsOf(sources[i]) ==> part in AllParts(sources)
  {
    hide PartsOf;
    if i < |sources| - 1 {
      PartsAmongAll(sources[..|sources| - 1], i);
    }
  }

  /** A mapping's fields are stored under its sanitized name, each item of a list under that name
      and the item's own number, when those names are distinct. */
  lemma ItemsAreStored<F>(sources: seq<Source<F>>, i: nat)
    requires DistinctPartNames(AllParts(sources)) && i < |sources|
    ensures var det := Stored(Build(sources).log);
      match sources[i].selection
      case Single(fields) => Sanitize(sources[i].name) in det && det[Sanitize(sources[i].name)] == fields
      case Listed(items) => forall k :: 0 <= k < |items| ==>
        var name := Sanitize(sources[i].name) + "_" + Decimal(items[k].index);
        name in det && det[name] == items[k].fields
  {
    hide Sanitize, Decimal, Build, Stored, AllParts, KeepsEvery;
    var log := Build(sources).log;
    DistinctNamesKeep(sources);
    KeepsEveryIff(log);
    PartsAmongAll(sources, i);
    forall part | part in PartsOf(sources[i]) ensures part.name in Stored(log) && Stored(log)[part.name] == part.fields {
      var p :| 0 <= p < |log| && log[p] == part;
      StoredOf(log, p);
    }
    match sources[i].selection
    case Single(fields) =>
      assert Part(Sanitize(sources[i].name), fields) in PartsOf(sources[i]);
    case Listed(items) =>
      forall k | 0 <= k < |items|
        ensures var name := Sanitize(sources[i].name) + "_" + Decimal(items[k].index);
          name in Stored(log) && Stored(log)[name] == items[k].fields
      {
        assert PartsOf(sources[i])[k] in PartsOf(sources[i]);
      }
  }

  // ---------- what the made names look like ----------

  /** The number a decimal text stands for. */
  function ValueOf(d: string): int {
    if d == "" then 0 else ValueOf(d[..|d| - 1]) * 10 + (d[|d| - 1] as int - '0' as int)
  }

  /** The numbering reads back, so two numbers never make one name. */
  lemma {:induction false} DecimalReadsBack(n: nat)
    ensures ValueOf(Decimal(n)) == n
  {
    var digit := [(n % 10) as char + '0'];
    if n < 10 {
      assert Decimal(n) == digit && digit[..0] == "";
    } else {
      DecimalReadsBack(n / 10);
      var d := Decimal(n);
      assert d == Decimal(n / 10) + digit;
      assert d[..|d| - 1] == Decimal(n / 10) && d[|d| - 1] == digit[0];
    }
  }

  /** A run of characters outside the local alphabet becomes one underscore, whatever its length. */
  lemma {:induction false} CollapseJoins(word: string, junk: string, rest: string)
    requires forall i :: 0 <= i < |word| ==> IsPlain(Lower(word[i]))
    requires junk != "" && forall i :: 0 <= i < |junk| ==> !IsPlain(Lower(junk[i]))
    requires rest == "" || IsPlain(Lower(rest[0]))
    ensures Collapse(word + junk + rest) == Lowered(word) + "_" + Collapse(rest)
    decreases |word|
  {
    hide Lower, Collapse, Lowered, IsPlain;
    if word == "" {
      assert word + junk + rest == junk + rest;
      JunkCollapses(junk, rest);
      LoweredNothing();
      assert "" + "_" + Collapse(rest) == "_" + Collapse(rest);
    } else {
      var s := word + junk + rest;
      assert s[1..] == word[1..] + junk + rest && s[0] == word[0];
      CollapseJoins(word[1..], junk, rest);
      PlainFirst(s);
      LoweredFirst(word);
    }
  }

  lemma LoweredNothing()
    ensures Lowered("") == ""
  {
  }

  lemma LoweredFirst(word: string)
    requires word != ""
    ensures Lowered(word) == [Lower(word[0])] + Lowered(word[1..])
  {
  }

  lemma PlainFirst(s: string)
    requires s != "" && IsPlain(Lower(s[0]))
    ensures Collapse(s) == [Lower(s[0])] + Collapse(s[1..])
  {
  }

  lemma JunkCollapses(junk: string, rest: string)
    requires junk != "" && forall i :: 0 <= i < |junk| ==> !IsPlain(Lower(junk[i]))
    requires rest == "" || IsPlain(Lower(rest[0]))
    ensures Collapse(junk + rest) == "_" + Collapse(rest)
  {
    var s := junk + rest;
    assert s[0] == junk[0];
    JunkPrefix(junk, rest);
    assert s[|junk|..] == rest;
  }

  function Lowered(s: string): string {
    seq(|s|, i requires 0 <= i < |s| => Lower(s[i]))
  }

  lemma JunkPrefix(junk: string, rest: string)
    requires forall i :: 0 <= i < |junk| ==> !IsPlain(Lower(junk[i]))
    requires rest == "" || IsPlain(Lower(rest[0]))
    ensures Prefix(junk + rest, c => !IsPlain(Lower(c))) == |junk|
  {
    var s := junk + rest;
    assert forall i :: 0 <= i < |junk| ==> s[i] == junk[i];
    assert rest != "" ==> s[|junk|] == rest[0];
  }

  /** Lower-casing is of the letters A to Z alone. */
  lemma LowerIs(c: char)
    ensures 'A' <= c <= 'Z' ==> Lower(c) as int == c as int + 32
    ensures !('A' <= c <= 'Z') ==> Lower(c) == c
  {
  }

  /** Wrapping underscores go, inner ones stay. */
  lemma {:induction false} StripUnwraps(left: nat, core: string, right: nat)
    requires core != "" && core[0] != '_' && core[|core| - 1] != '_'
    ensures Strip(Bars(left) + core + Bars(right)) == core
    decreases left + right
  {
    var s := Bars(left) + core + Bars(right);
    if left > 0 {
      assert s[1..] == Bars(left - 1) + core + Bars(right);
      StripUnwraps(left - 1, core, right);
    } else if right > 0 {
      assert s[0] == core[0];
      assert s[..|s| - 1] == Bars(0) + core + Bars(right - 1);
      StripUnwraps(0, core, right - 1);
    } else {
      assert s == core;
    }
  }

  function Bars(n: nat): string {
    seq(n, _ => '_')
  }

  /** A numbered name can itself be taken: the third selection here is stored over the
      second, whose group then matches the wrong fields. */
  lemma NumberingCanClash()
    ensures var built := Build([Source("a", Single(1)), Source("a_2", Single(2)), Source("A", Single(3))]);
      built.log == [Part("a", 1), Part("a_2", 2), Part("a_2", 3)] &&
      "a_2" in built.groups && built.groups["a_2"] == ["a_2"] && !NoClash(built.log)
  {
    hide Sanitize, Decimal, Build, Stored;
    SanitizeExamples();
    var s1, s2, s3 := Source("a", Single(1)), Source("a_2", Single(2)), Source("A", Single(3));
    BuildEmpty<int>();
    BuildSingle([], s1);
    BuildSingle([s1], s2);
    BuildSingle([s1, s2], s3);
    assert [] + [s1] == [s1] && [s1] + [s2] == [s1, s2] && [s1, s2] + [s3] == [s1, s2, s3];
    StoredSnoc([], Part("a", 1));
    assert [] + [Part("a", 1)] == [Part("a", 1)];
    StoredSnoc([Part("a", 1)], Part("a_2", 2));
    assert [Part("a", 1)] + [Part("a_2", 2)] == [Part("a", 1), Part("a_2", 2)];
    assert Numbered("a", 2) == "a_2" && "a" != "a_2";
    assert Stored([Part("a", 1), Part("a_2", 2)]) == map["a" := 1, "a_2" := 2];
    var log := Build([s1, s2, s3]).log;
    assert log == [Part("a", 1), Part("a_2", 2), Part("a_2", 3)];
    assert log[1].name == log[2].name;
  }

  lemma BuildEmpty<F>()
    ensures Build<F>([]) == Import([], map[]) && Stored<F>([]) == map[]
  {
  }

  lemma BuildSingle<F>(sources: seq<Source<F>>, src: Source<F>)
    requires src.selection.Single?
    ensures var before := Build(sources);
      var local := LocalName(before.log, Sanitize(src.name));
      Build(sources + [src]) ==
        Import(before.log + [Part(local, src.selection.fields)], before.groups[src.name := [local]])
  {
    hide Sanitize, Stored, Build, StoreParts, PartsOf, NamesOf, LocalName;
    var all, n := sources + [src], |sources|;
    assert all[..n] == sources && all[..n + 1] == all;
    BuildOne(all, n);
    StoreSingle(Build(sources).log, src);
  }

  lemma StoreSingle<F>(log: seq<Part<F>>, src: Source<F>)
    requires src.selection.Single?
    ensures var part := Part(LocalName(log, Sanitize(src.name)), src.selection.fields);
      StoreParts(log, PartsOf(src)) == log + [part] && NamesOf((log + [part])[|log|..]) == [part.name]
  {
    hide Sanitize, Stored;
    assert StoreParts(log, []) == log;
    var part := Part(LocalName(log, Sanitize(src.name)), src.selection.fields);
    assert PartsOf(src)[..0] == [];
    assert (log + [part])[|log|..] == [part];
  }

  /** A name already plain is its own local name, unless underscores wrap it. */
  lemma {:induction false} PlainCollapses(s: string)
    requires AllPlain(s)
    ensures Collapse(s) == s
  {
    if s != "" {
      assert Lower(s[0]) == s[0];
      PlainCollapses(s[1..]);
    }
  }

  lemma PlainSanitizes(s: string)
    requires AllPlain(s) && s != "" && s[0] != '_' && s[|s| - 1] != '_'
    ensures Sanitize(s) == s
  {
    hide Collapse;
    PlainCollapses(s);
  }

  lemma SanitizeExamples()
    ensures Sanitize("a") == "a" && Sanitize("a_2") == "a_2" && Sanitize("A") == "a" && Decimal(2) == "2"
  {
    hide Sanitize, Strip;
    PlainSanitizes("a");
    PlainSanitizes("a_2");
    UpperExample();
  }

  lemma UpperExample()
    ensures Sanitize("A") == "a"
  {
    assert "A"[1..] == "" && Collapse("") == "";
    assert Collapse("A") == "a";
  }

  // ---------- the imported rule means what the source said ----------

  /** A mapping's keys. */
  predicate DistinctNames<F>(sources: seq<Source<F>>) {
    forall i, j :: 0 <= i < j < |sources| ==> sources[i].name != sources[j].name
  }

  lemma {:induction false} GroupSlice<F>(sources: seq<Source<F>>, i: nat) returns (o: nat)
    requires DistinctNames(sources) && i < |sources| && PartsOf(sources[i]) != []
    ensures var b, parts := Build(sources), PartsOf(sources[i]);
      o + |parts| <= |b.log| && sources[i].name in b.groups &&
      b.groups[sources[i].name] == NamesOf(b.log[o..o + |parts|]) &&
      forall k :: 0 <= k < |parts| ==> b.log[o + k].fields == parts[k].fields
  {
    hide Build, StoreParts, Stored, PartsOf;
    var n := |sources| - 1;
    assert sources[..n + 1] == sources;
    BuildOne(sources, n);
    var before := Build(sources[..n]);
    StoreExtends(before.log, PartsOf(sources[n]));
    var log := StoreParts(before.log, PartsOf(sources[n]));
    if i == n {
      o := |before.log|;
      assert log[o..o + |PartsOf(sources[n])|] == log[o..];
    } else {
      o := GroupSlice(sources[..n], i);
      var m := o + |PartsOf(sources[i])|;
      assert log[o..m] == before.log[o..m];
    }
  }

  lemma {:induction false} StoredLocal<F>(log: seq<Part<F>>, parts: seq<Part<F>>)
    requires forall p :: 0 <= p < |log| ==> IsLocalName(log[p].name)
    requires forall p :: 0 <= p < |parts| ==> IsLocalName(parts[p].name)
    ensures forall p :: 0 <= p < |StoreParts(log, parts)| ==> IsLocalName(StoreParts(log, parts)[p].name)
  {
    if parts != [] {
      hide Stored, Numbered, IsLocalName;
      var n := |parts| - 1;
      StoredLocal(log, parts[..n]);
      LocalStaysLocal(StoreParts(log, parts[..n]), parts[n].name);
    }
  }

  lemma LocalStaysLocal<F>(log: seq<Part<F>>, name: string)
    requires IsLocalName(name)
    ensures IsLocalName(LocalName(log, name))
  {
    hide Stored;
    NumberedIsLocal(name, |Stored(log)|);
  }

  lemma PartsLocal<F>(src: Source<F>)
    requires !Reserved(src)
    ensures forall p :: 0 <= p < |PartsOf(src)| ==> IsLocalName(PartsOf(src)[p].name)
  {
    hide Sanitize, Numbered, IsLocalName;
    SanitizedIsLocal(src.name, 0);
    if src.selection.Listed? {
      forall p | 0 <= p < |src.selection.items| ensures IsLocalName(PartsOf(src)[p].name) {
        SanitizedIsLocal(src.name, src.selection.items[p].index);
      }
    }
  }

  lemma KeywordIsReserved<F>(src: Source<F>)
    requires IsKeyword(src.name)
    ensures Reserved(src)
  {
    hide Sanitize;
    PlainSanitizes(src.name);
  }

  lemma {:induction false} BuildLocal<F>(sources: seq<Source<F>>)
    requires forall i :: 0 <= i < |sources| ==> !Reserved(sources[i])
    ensures forall p :: 0 <= p < |Build(sources).log| ==> IsLocalName(Build(sources).log[p].name)
    ensures GroupsAreLocal(Build(sources).groups)
  {
    if sources == [] {
      BuildEmpty<F>();
    } else {
      hide Build, StoreParts, PartsOf, Reserved, IsLocalName, IsKeyword, GroupsAreLocal, NamesOf;
      var n := |sources| - 1;
      assert sources[..n + 1] == sources;
      BuildLocal(sources[..n]);
      BuildOne(sources, n);
      var before := Build(sources[..n]);
      var log := StoreParts(before.log, PartsOf(sources[n]));
      PartsLocal(sources[n]);
      StoredLocal(before.log, PartsOf(sources[n]));
      GroupsStayLocal(before.groups, sources[n], log, |before.log|);
    }
  }

  lemma GroupsStayLocal<F>(groups: Groups, src: Source<F>, log: seq<Part<F>>, start: nat)
    requires GroupsAreLocal(groups) && !Reserved(src) && start <= |log|
    requires forall p :: 0 <= p < |log| ==> IsLocalName(log[p].name)
    ensures GroupsAreLocal(groups[src.name := NamesOf(log[start..])])
  {
    hide IsLocalName, IsKeyword, Reserved;
    if IsKeyword(src.name) {
      KeywordIsReserved(src);
    }
  }

  /** The engine's match table for one event, given how each stored selection fares. */
  function Matched<F>(det: map<string, F>, matches: F -> bool): Valuation {
    (n: string) => n in det && matches(det[n])
  }

  /** The source's own reading: a mapping as it stands, a list as the OR of its items. */
  predicate SelectionMatches<F>(src: Source<F>, matches: F -> bool) {
    match src.selection
    case Single(fields) => matches(fields)
    case Listed(items) => exists k :: 0 <= k < |items| && matches(items[k].fields)
  }

  /** Something of the selection was translated. */
  predicate HasItems<F>(src: Source<F>) {
    src.selection.Single? || src.selection.items != []
  }

  /** The local selections stand for the source's items, each with its own fields. */
  lemma PartsAreItems<F>(src: Source<F>, matches: F -> bool)
    ensures PartsOf(src) != [] <==> HasItems(src)
    ensures SelectionMatches(src, matches) <==> exists k :: 0 <= k < |PartsOf(src)| && matches(PartsOf(src)[k].fields)
  {
    hide Sanitize, Numbered;
    match src.selection
    case Single(fields) =>
      assert PartsOf(src)[0].fields == fields;
    case Listed(items) =>
      assert forall k :: 0 <= k < |items| ==> PartsOf(src)[k].fields == items[k].fields;
  }

  lemma GroupMatches<F>(sources: seq<Source<F>>, i: nat, matches: F -> bool)
    requires DistinctNames(sources) && i < |sources| && HasItems(sources[i])
    requires KeepsEvery(Build(sources).log)
    ensures var b := Build(sources);
      Original(b.groups, Matched(Stored(b.log), matches))(sources[i].name) <==> SelectionMatches(sources[i], matches)
  {
    hide Build, StoreParts, Stored, PartsOf, SelectionMatches, HasItems;
    PartsAreItems(sources[i], matches);
    var b, parts := Build(sources), PartsOf(sources[i]);
    var o := GroupSlice(sources, i);
    var names := b.groups[sources[i].name];
    var vals := Matched(Stored(b.log), matches);
    forall k | 0 <= k < |parts|
      ensures vals(names[k]) <==> matches(parts[k].fields)
    {
      assert names[k] == b.log[o + k].name;
    }
  }

  /** The whole import, for every source and every event: the engine's verdict on the
      substituted text is the source condition over the groups, malformed conditions staying
      malformed; and when no item overwrites another, each group matches exactly when its
      selection does, a list as the OR of its items. */
  lemma ImportPreservesMeaning<F>(sources: seq<Source<F>>, condition: string, matches: F -> bool)
    requires DistinctNames(sources) && forall i :: 0 <= i < |sources| ==> !Reserved(sources[i])
    requires Resolves(condition, Build(sources).groups)
    ensures var b := Build(sources);
      var vals := Matched(Stored(b.log), matches);
      Evaluate(EngineTokens(Substitute(condition, b.groups)), vals)
        == Evaluate(SourceTokens(condition), Original(b.groups, vals))
    ensures (forall k :: 0 <= k < |AllParts(sources)| ==> !Overwritten(AllParts(sources), k)) ==>
      var b := Build(sources);
      var vals := Matched(Stored(b.log), matches);
      forall i :: 0 <= i < |sources| && HasItems(sources[i]) ==>
        (Original(b.groups, vals)(sources[i].name) <==> SelectionMatches(sources[i], matches))
  {
    hide Build, Stored, Substitute, EngineTokens, SourceTokens, Rewrite, Evaluate, SelectionMatches, KeepsEvery, Overwritten,
      AllParts, Resolves, GroupsAreLocal, HasItems;
    var b := Build(sources);
    BuildLocal(sources);
    SubstituteTokens(condition, b.groups);
    RewritePreservesMeaning(SourceTokens(condition), b.groups, Matched(Stored(b.log), matches));
    ImportKeepsIff(sources);
    if KeepsEvery(b.log) {
      forall i | 0 <= i < |sources| && HasItems(sources[i])
        ensures Original(b.groups, Matched(Stored(b.log), matches))(sources[i].name) <==> SelectionMatches(sources[i], matches)
      {
        GroupMatches(sources, i, matches);
      }
    }
  }
}
