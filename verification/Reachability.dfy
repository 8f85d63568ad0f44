/** Which module-level names are reachable from the entry block. */
module Reachability {

  /** A module's name graph: the names mentioned in each function and each entry block,
      where `unittest.main` is mentioned, and the test methods of its classes. */
  datatype Module = Module(
    defs: map<string, set<string>>,
    entries: seq<set<string>>,
    entryRunsUnittest: bool,
    runsUnittest: set<string>,
    testMethods: set<string>)

  function EntryNames(entries: seq<set<string>>): set<string> {
    if entries == [] then {} else entries[0] + EntryNames(entries[1..])
  }

  function BodiesOf(m: Module, names: set<string>): set<string> {
    set f, n | f in names && f in m.defs && n in m.defs[f] :: n
  }

  /** Names within `k` steps of the entry block. */
  function Within(m: Module, k: nat): set<string> {
    if k == 0 then EntryNames(m.entries) else Within(m, k - 1) + BodiesOf(m, Within(m, k - 1))
  }

  ghost predicate Reaches(m: Module, name: string) {
    exists k: nat :: name in Within(m, k)
  }

  /** Contains the entry names and everything named in the body of a contained function. */
  predicate Closed(m: Module, names: set<string>) {
    EntryNames(m.entries) <= names && forall f :: f in names && f in m.defs ==> m.defs[f] <= names
  }

  lemma {:induction false} ClosedContains(m: Module, names: set<string>, k: nat)
    requires Closed(m, names)
    ensures Within(m, k) <= names
  {
    if k > 0 {
      ClosedContains(m, names, k - 1);
    }
  }

  lemma ReachesStep(m: Module, f: string, n: string)
    requires Reaches(m, f) && f in m.defs && n in m.defs[f]
    ensures Reaches(m, n)
  {
    var k: nat :| f in Within(m, k);
    assert n in BodiesOf(m, Within(m, k));
    assert n in Within(m, k + 1);
  }

  lemma BodyReached(m: Module, f: string)
    requires Reaches(m, f) && f in m.defs
    ensures forall n :: n in m.defs[f] ==> Reaches(m, n)
  {
    hide Reaches;
    forall n | n in m.defs[f] ensures Reaches(m, n) {
      ReachesStep(m, f, n);
    }
  }

  function Universe(m: Module): set<string> {
    EntryNames(m.entries) + BodiesOf(m, m.defs.Keys)
  }

  lemma EntryReached(m: Module)
    ensures forall n :: n in EntryNames(m.entries) ==> Reaches(m, n)
  {
    forall n | n in EntryNames(m.entries) ensures Reaches(m, n) {
      assert n in Within(m, 0);
    }
  }

  lemma UniverseHolds(m: Module)
    ensures EntryNames(m.entries) <= Universe(m)
    ensures forall f :: f in m.defs ==> m.defs[f] <= Universe(m)
  {
    hide EntryNames;
  }

  lemma ClosedReaches(m: Module, names: set<string>)
    requires Closed(m, names)
    ensures forall n :: Reaches(m, n) ==> n in names
  {
    hide Closed;
    forall n | Reaches(m, n) ensures n in names {
      var k: nat :| n in Within(m, k);
      ClosedContains(m, names, k);
    }
  }

  /** The worklist, whatever order names are popped in. */
  method Worklist(m: Module) returns (reach: set<string>)
    ensures Closed(m, reach)
    ensures forall n :: n in reach <==> Reaches(m, n)
  {
    hide EntryNames, Universe, Reaches;
    EntryReached(m);
    UniverseHolds(m);
    reach := {};
    var todo := EntryNames(m.entries);
    while todo != {}
      invariant todo <= Universe(m) && reach <= Universe(m)
      invariant EntryNames(m.entries) <= reach + todo
      invariant forall f :: f in reach && f in m.defs ==> m.defs[f] <= reach + todo
      invariant forall n :: n in reach + todo ==> Reaches(m, n)
      decreases Universe(m) - reach, |todo|
    {
      var name :| name in todo;
      todo := todo - {name};
      if name !in reach {
        reach := reach + {name};
        if name in m.defs {
          BodyReached(m, name);
          todo := todo + (m.defs[name] - reach);
        }
      }
    }
    ClosedReaches(m, reach);
  }

  /** What the worklist computes is the least closed set. */
  lemma ReachesIsLeast(m: Module, names: set<string>, reach: set<string>)
    requires Closed(m, names) && forall n :: n in reach ==> Reaches(m, n)
    ensures reach <= names
  {
    forall n | n in reach ensures n in names {
      var k: nat :| n in Within(m, k);
      ClosedContains(m, names, k);
    }
  }

  /** A chain of mentions: the first name stands in an entry block, each next one in the body of
      the function before it. */
  ghost predicate IsChain(m: Module, chain: seq<string>) {
    chain != [] && (exists i :: 0 <= i < |m.entries| && chain[0] in m.entries[i]) &&
    forall j :: 0 <= j < |chain| - 1 ==> chain[j] in m.defs && chain[j + 1] in m.defs[chain[j]]
  }

  lemma {:induction false} EntryNamesAre(entries: seq<set<string>>, n: string)
    ensures n in EntryNames(entries) <==> exists i :: 0 <= i < |entries| && n in entries[i]
  {
    if entries != [] {
      EntryNamesAre(entries[1..], n);
      if n in EntryNames(entries[1..]) {
        var i :| 0 <= i < |entries[1..]| && n in entries[1..][i];
        assert n in entries[i + 1];
      }
      if i :| 0 <= i < |entries| && n in entries[i] {
        assert i > 0 ==> n in entries[1..][i - 1];
      }
    }
  }

  lemma {:induction false} WithinHasChain(m: Module, k: nat, n: string) returns (chain: seq<string>)
    requires n in Within(m, k)
    ensures IsChain(m, chain) && chain[|chain| - 1] == n
  {
    if k == 0 {
      EntryNamesAre(m.entries, n);
      chain := [n];
    } else if n in Within(m, k - 1) {
      chain := WithinHasChain(m, k - 1, n);
    } else {
      var f :| f in Within(m, k - 1) && f in m.defs && n in m.defs[f];
      var before := WithinHasChain(m, k - 1, f);
      chain := before + [n];
    }
  }

  lemma {:induction false} ChainReaches(m: Module, chain: seq<string>)
    requires IsChain(m, chain)
    ensures Reaches(m, chain[|chain| - 1])
  {
    hide Reaches;
    var n := |chain| - 1;
    if n == 0 {
      EntryNamesAre(m.entries, chain[0]);
      EntryReached(m);
    } else {
      ChainReaches(m, chain[..n]);
      ReachesStep(m, chain[n - 1], chain[n]);
    }
  }

  /** A name is reached iff a chain of mentions leads to it from some entry block; in particular
      every name in every entry block is. */
  lemma ReachesIffChain(m: Module, n: string)
    ensures Reaches(m, n) <==> exists chain :: IsChain(m, chain) && chain[|chain| - 1] == n
    ensures forall i :: 0 <= i < |m.entries| && n in m.entries[i] ==> Reaches(m, n)
  {
    if Reaches(m, n) {
      var k: nat :| n in Within(m, k);
      var chain := WithinHasChain(m, k, n);
    }
    hide Reaches;
    if chain :| IsChain(m, chain) && chain[|chain| - 1] == n {
      ChainReaches(m, chain);
    }
    forall i | 0 <= i < |m.entries| && n in m.entries[i] ensures Reaches(m, n) {
      ChainReaches(m, [n]);
    }
  }

  ghost predicate UnittestReached(m: Module) {
    m.entryRunsUnittest || exists f :: f in m.defs && f in m.runsUnittest && Reaches(m, f)
  }

  /** A reachable `unittest.main` brings in every test method, and nothing else does. */
  method CalledFromEntry(m: Module) returns (names: set<string>)
    ensures forall n :: n in names <==> Reaches(m, n) || (UnittestReached(m) && n in m.testMethods)
  {
    names := Worklist(m);
    var runs := m.entryRunsUnittest || names * m.defs.Keys * m.runsUnittest != {};
    assert runs <==> UnittestReached(m) by {
      if f :| f in m.defs && f in m.runsUnittest && Reaches(m, f) {
        assert f in names * m.defs.Keys * m.runsUnittest;
      }
    }
    if runs {
      names := names + m.testMethods;
    }
  }
}
