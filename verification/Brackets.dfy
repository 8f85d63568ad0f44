/** The top-level balanced `[...]` spans of a text. */
module Brackets {

  /** Opening minus closing brackets in `text[from..to]`. */
  function Depth(text: string, from: nat, to: nat): int
    requires from <= to <= |text|
  {
    if from == to then 0
    else Depth(text, from, to - 1) + if text[to - 1] == '[' then 1 else if text[to - 1] == ']' then -1 else 0
  }

  /** The depth is the number of opening brackets less the number of closing ones. */
  lemma {:induction false} DepthCounts(text: string, from: nat, to: nat)
    requires from <= to <= |text|
    ensures Depth(text, from, to) + multiset(text[from..to])[']'] == multiset(text[from..to])['[']
  {
    if from == to {
      assert text[from..to] == "";
    } else {
      DepthCounts(text, from, to - 1);
      assert text[from..to] == text[from..to - 1] + [text[to - 1]];
    }
  }

  /** A span of `text`, both ends included. */
  datatype Span = Span(start: nat, end: nat)

  /** The bracket opened at the start first closes at the end. */
  predicate Balanced(text: string, s: Span) {
    s.start <= s.end < |text| && text[s.start] == '[' &&
    Depth(text, s.start, s.end + 1) == 0 &&
    forall j :: s.start < j <= s.end ==> Depth(text, s.start, j) > 0
  }

  /** The bracket opened at `p` is never closed. */
  predicate NeverClosed(text: string, p: nat) {
    p < |text| && text[p] == '[' && forall j :: p < j <= |text| ==> Depth(text, p, j) > 0
  }

  predicate Inside(spans: seq<Span>, p: nat) {
    exists i :: 0 <= i < |spans| && spans[i].start <= p <= spans[i].end
  }

  predicate Increasing(spans: seq<Span>) {
    forall i, j :: 0 <= i < j < |spans| ==> spans[i].end < spans[j].start
  }

  /** The spans of the text before `stop`: balanced, in order, and leaving no opening
      bracket outside. */
  predicate Covers(text: string, spans: seq<Span>, stop: nat)
    requires stop <= |text|
  {
    Increasing(spans) &&
    (forall i :: 0 <= i < |spans| ==> Balanced(text, spans[i]) && spans[i].end < stop) &&
    (forall p :: 0 <= p < stop && text[p] == '[' ==> Inside(spans, p))
  }

  method Find(text: string, from: nat) returns (at: nat)
    requires from <= |text|
    ensures from <= at <= |text| && (at < |text| ==> text[at] == '[')
    ensures forall p :: from <= p < at ==> text[p] != '['
  {
    at := from;
    while at < |text| && text[at] != '['
      invariant from <= at <= |text|
      invariant forall p :: from <= p < at ==> text[p] != '['
    {
      at := at + 1;
    }
  }

  /** Where the bracket at `start` closes, or the end of the text if it does not. */
  method CloseOf(text: string, start: nat) returns (end: nat)
    requires start < |text| && text[start] == '['
    ensures end < |text| ==> Balanced(text, Span(start, end))
    ensures end == |text| ==> NeverClosed(text, start)
    ensures start <= end <= |text|
  {
    var depth := 0;
    for i := start to |text|
      invariant depth == Depth(text, start, i) && (i > start ==> depth > 0)
      invariant forall j :: start < j <= i ==> Depth(text, start, j) > 0
    {
      if text[i] == '[' {
        depth := depth + 1;
      } else if text[i] == ']' {
        depth := depth - 1;
        if depth == 0 {
          return i;
        }
      }
    }
    return |text|;
  }

  /** The scan yields exactly the spans before `stop`, which is the end of the text or its
      first top-level bracket that never closes. */
  method BalancedSpans(text: string) returns (spans: seq<Span>, stop: nat)
    ensures stop <= |text| && Covers(text, spans, stop)
    ensures stop < |text| ==> NeverClosed(text, stop)
  {
    hide Balanced, NeverClosed, Covers;
    spans := [];
    var start := Find(text, 0);
    NothingCovered(text, start);
    while start < |text|
      invariant start <= |text| && (start < |text| ==> text[start] == '[')
      invariant Covers(text, spans, start)
    {
      var end := CloseOf(text, start);
      if end == |text| {
        return spans, start;
      }
      assert end >= start && end + 1 <= |text|;
      var next := Find(text, end + 1);
      CoversOneMore(text, spans, start, Span(start, end), next);
      spans := spans + [Span(start, end)];
      start := next;
    }
    return spans, start;
  }

  lemma NothingCovered(text: string, stop: nat)
    requires stop <= |text| && forall p :: 0 <= p < stop ==> text[p] != '['
    ensures Covers(text, [], stop)
  {
  }

  lemma CoversOneMore(text: string, spans: seq<Span>, stop: nat, s: Span, next: nat)
    requires stop <= |text| && Covers(text, spans, stop) && Balanced(text, s) && s.start == stop
    requires s.end < next <= |text| && forall p :: s.end < p < next ==> text[p] != '['
    ensures Covers(text, spans + [s], next)
  {
    hide Depth;
    var all := spans + [s];
    forall p | 0 <= p < next && text[p] == '['
      ensures Inside(all, p)
    {
      if p < stop {
        assert Inside(spans, p);
        var i :| 0 <= i < |spans| && spans[i].start <= p <= spans[i].end;
        assert all[i] == spans[i];
      } else {
        assert all[|spans|] == s;
      }
    }
  }
}
