/**
 Statements wrapped in try/finally by insertions at their ends: what the visit
 pushes, and when the brackets that splicing emits nest as the statements do.
 */
module Instrument {
  import opened Splice
  import opened Wrappers

  // What the visit sees: an extent, whether it is to be wrapped, and its parts.
  // It is a statement, or the inside of an instrumented function's body, which
  // may be empty, or anything else, which is not wrapped.
  datatype Node = Node(open: nat, close: nat, wrapped: bool, children: seq<Node>)

  datatype Span = Span(open: nat, close: nat)

  // A character of the source, or the bracket opening or closing statement `id`.
  datatype Mark = Source(c: char) | Open(id: nat) | Close(id: nat)

  // ----- The visit -----

  // The wrapped statements, outer ones first.
  ghost function Wrapped(n: Node): seq<Span> {
    (if n.wrapped then [Span(n.open, n.close)] else []) + WrappedAll(n.children)
  }

  ghost function WrappedAll(ns: seq<Node>): seq<Span> {
    if ns == [] then [] else Wrapped(ns[0]) + WrappedAll(ns[1..])
  }

  // What is pushed for them, numbered from `k`.
  function Pushes(spans: seq<Span>, k: nat): seq<Insertion<Mark>> {
    if spans == [] then []
    else [Insertion(spans[0].open, [Open(k)]), Insertion(spans[0].close, [Close(k)])] + Pushes(spans[1..], k + 1)
  }

  lemma {:induction false} PushesConcat(s: seq<Span>, t: seq<Span>, k: nat)
    ensures Pushes(s + t, k) == Pushes(s, k) + Pushes(t, k + |s|)
    decreases |s|
  {
    if s == [] {
      assert s + t == t;
    } else {
      assert (s + t)[1..] == s[1..] + t;
      PushesConcat(s[1..], t, k + 1);
    }
  }

  // ----- Every node to be wrapped is visited -----

  // The node that a path of child indices leads to.
  ghost function NodeAt(n: Node, path: seq<nat>): Option<Node> {
    if path == [] then Some(n)
    else if path[0] < |n.children| then NodeAt(n.children[path[0]], path[1..])
    else None
  }

  ghost predicate IsWrapped(n: Node, path: seq<nat>) {
    NodeAt(n, path).Some? && NodeAt(n, path).value.wrapped
  }

  // The paths to all nodes to be wrapped, each once.
  ghost predicate Lists(paths: seq<seq<nat>>, n: Node) {
    Distinct(paths) && forall path :: path in paths <==> IsWrapped(n, path)
  }

  ghost function SpanAt(n: Node, path: seq<nat>): Span
    requires IsWrapped(n, path)
  {
    Span(NodeAt(n, path).value.open, NodeAt(n, path).value.close)
  }

  // The spans are those of the nodes that the paths lead to.
  ghost predicate SpansOf(spans: seq<Span>, n: Node, paths: seq<seq<nat>>) {
    |spans| == |paths| && forall i :: 0 <= i < |paths| ==> IsWrapped(n, paths[i]) && spans[i] == SpanAt(n, paths[i])
  }

  // The same for nodes in a row, whose indices begin at `i`.
  ghost predicate InRow(ns: seq<Node>, i: nat, path: seq<nat>) {
    path != [] && i <= path[0] < i + |ns| && IsWrapped(ns[path[0] - i], path[1..])
  }

  ghost predicate ListsRow(paths: seq<seq<nat>>, ns: seq<Node>, i: nat) {
    Distinct(paths) && forall path :: path in paths <==> InRow(ns, i, path)
  }

  ghost predicate SpansOfRow(spans: seq<Span>, ns: seq<Node>, i: nat, paths: seq<seq<nat>>) {
    && |spans| == |paths|
    && forall k :: 0 <= k < |paths| ==>
         InRow(ns, i, paths[k]) && spans[k] == SpanAt(ns[paths[k][0] - i], paths[k][1..])
  }

  lemma {:induction false} WrappedAreAll(n: Node) returns (paths: seq<seq<nat>>)
    ensures Lists(paths, n) && SpansOf(Wrapped(n), n, paths)
    decreases n, 1
  {
    hide ListsRow, SpansOfRow, Lists, SpansOf;
    var row := RowAreAll(n.children, 0);
    paths := if n.wrapped then [[]] + row else row;
    RowIsBelow(n, row);
    RootIsFirst(n, row);
  }

  lemma RowIsBelow(n: Node, row: seq<seq<nat>>)
    requires ListsRow(row, n.children, 0) && SpansOfRow(WrappedAll(n.children), n.children, 0, row)
    ensures Distinct(row) && forall path :: path in row <==> path != [] && IsWrapped(n, path)
    ensures SpansOf(WrappedAll(n.children), n, row)
  {
    forall path
      ensures InRow(n.children, 0, path) <==> path != [] && IsWrapped(n, path)
    {
    }
  }

  lemma RootIsFirst(n: Node, row: seq<seq<nat>>)
    requires Distinct(row) && forall path :: path in row <==> path != [] && IsWrapped(n, path)
    requires SpansOf(WrappedAll(n.children), n, row)
    ensures var paths := if n.wrapped then [[]] + row else row;
      Lists(paths, n) && SpansOf(Wrapped(n), n, paths)
  {
    hide Wrapped, WrappedAll, IsWrapped, SpanAt, Distinct;
    RootIs(n);
    if n.wrapped {
      InFront([], row);
      SpansInFront(n, WrappedAll(n.children), row);
    }
  }

  lemma InFront<T>(x: T, s: seq<T>)
    ensures forall y :: y in [x] + s <==> y == x || y in s
    ensures x !in s && Distinct(s) ==> Distinct([x] + s)
  {
    if x !in s && Distinct(s) {
      forall i, j | 0 <= i < j < |[x] + s|
        ensures ([x] + s)[i] != ([x] + s)[j]
      {
        assert ([x] + s)[j] == s[j - 1];
        assert i > 0 ==> ([x] + s)[i] == s[i - 1];
      }
    }
  }

  lemma SpansInFront(n: Node, spans: seq<Span>, row: seq<seq<nat>>)
    requires SpansOf(spans, n, row) && IsWrapped(n, [])
    ensures SpansOf([SpanAt(n, [])] + spans, n, [[]] + row)
  {
    hide IsWrapped, SpanAt;
    var paths := [[]] + row;
    forall i | 0 <= i < |paths|
      ensures IsWrapped(n, paths[i]) && ([SpanAt(n, [])] + spans)[i] == SpanAt(n, paths[i])
    {
      assert i > 0 ==> paths[i] == row[i - 1];
    }
  }

  lemma RootIs(n: Node)
    ensures IsWrapped(n, []) <==> n.wrapped
    ensures n.wrapped ==> SpanAt(n, []) == Span(n.open, n.close)
    ensures Wrapped(n) == (if n.wrapped then [Span(n.open, n.close)] else []) + WrappedAll(n.children)
    ensures [] + WrappedAll(n.children) == WrappedAll(n.children)
  {
  }

  lemma {:induction false} RowAreAll(ns: seq<Node>, i: nat) returns (paths: seq<seq<nat>>)
    ensures ListsRow(paths, ns, i) && SpansOfRow(WrappedAll(ns), ns, i, paths)
    decreases ns, 0
  {
    if ns == [] {
      paths := [];
    } else {
      var below := WrappedAreAll(ns[0]);
      var after := RowAreAll(ns[1..], i + 1);
      var first := seq(|below|, k requires 0 <= k < |below| => [i] + below[k]);
      paths := first + after;
      FirstInRow(ns, i, below, first);
      AfterInRow(ns, i, after);
      RowIsBoth(ns, i, first, after, paths);
    }
  }

  lemma FirstInRow(ns: seq<Node>, i: nat, below: seq<seq<nat>>, first: seq<seq<nat>>)
    requires ns != [] && Lists(below, ns[0]) && SpansOf(Wrapped(ns[0]), ns[0], below)
    requires |first| == |below| && forall k :: 0 <= k < |below| ==> first[k] == [i] + below[k]
    ensures Distinct(first) && forall path :: path in first <==> InRow(ns, i, path) && path[0] == i
    ensures SpansOfRow(Wrapped(ns[0]), ns, i, first)
  {
    assert forall k :: 0 <= k < |first| ==> first[k][0] == i && first[k][1..] == below[k];
    forall path | path != [] && path[0] == i && IsWrapped(ns[0], path[1..])
      ensures path in first
    {
      var k :| 0 <= k < |below| && below[k] == path[1..];
      assert first[k] == path;
    }
  }

  lemma AfterInRow(ns: seq<Node>, i: nat, after: seq<seq<nat>>)
    requires ns != [] && ListsRow(after, ns[1..], i + 1)
    requires SpansOfRow(WrappedAll(ns[1..]), ns[1..], i + 1, after)
    ensures forall path :: path in after <==> InRow(ns, i, path) && path[0] != i
    ensures SpansOfRow(WrappedAll(ns[1..]), ns, i, after)
  {
    forall path
      ensures InRow(ns[1..], i + 1, path) <==> InRow(ns, i, path) && path[0] != i
    {
    }
  }

  lemma RowIsBoth(
    ns: seq<Node>, i: nat, first: seq<seq<nat>>, after: seq<seq<nat>>, paths: seq<seq<nat>>)
    requires ns != [] && paths == first + after && Distinct(first) && Distinct(after)
    requires forall path :: path in first <==> InRow(ns, i, path) && path[0] == i
    requires forall path :: path in after <==> InRow(ns, i, path) && path[0] != i
    requires SpansOfRow(Wrapped(ns[0]), ns, i, first) && SpansOfRow(WrappedAll(ns[1..]), ns, i, after)
    ensures ListsRow(paths, ns, i) && SpansOfRow(WrappedAll(ns), ns, i, paths)
  {
    hide InRow, SpanAt, Wrapped, WrappedAll;
    assert forall path :: path in paths <==> path in first || path in after;
    forall j, k | 0 <= j < k < |paths|
      ensures paths[j] != paths[k]
    {
      if j < |first| <= k {
        assert paths[j] in first && paths[k] in after;
      }
    }
    SpansOfBoth(ns, i, first, after);
    assert WrappedAll(ns) == Wrapped(ns[0]) + WrappedAll(ns[1..]) by {
      WrappedAllNext(ns);
    }
  }

  lemma WrappedAllNext(ns: seq<Node>)
    requires ns != []
    ensures WrappedAll(ns) == Wrapped(ns[0]) + WrappedAll(ns[1..])
  {
  }

  lemma SpansOfBoth(ns: seq<Node>, i: nat, first: seq<seq<nat>>, after: seq<seq<nat>>)
    requires ns != []
    requires SpansOfRow(Wrapped(ns[0]), ns, i, first) && SpansOfRow(WrappedAll(ns[1..]), ns, i, after)
    ensures SpansOfRow(Wrapped(ns[0]) + WrappedAll(ns[1..]), ns, i, first + after)
  {
    hide SpanAt, Wrapped, WrappedAll;
    var s, t := Wrapped(ns[0]), WrappedAll(ns[1..]);
    forall k | 0 <= k < |first + after|
      ensures var path := (first + after)[k];
        InRow(ns, i, path) && (s + t)[k] == SpanAt(ns[path[0] - i], path[1..])
    {
      assert k >= |first| ==> (first + after)[k] == after[k - |first|] && (s + t)[k] == t[k - |first|];
    }
  }

  // Two insertions for each span, in their order.
  lemma {:induction false} PushesAre(spans: seq<Span>, k: nat, i: nat)
    requires i < |spans|
    ensures |Pushes(spans, k)| == 2 * |spans|
    ensures Pushes(spans, k)[2 * i] == Insertion(spans[i].open, [Open(k + i)])
    ensures Pushes(spans, k)[2 * i + 1] == Insertion(spans[i].close, [Close(k + i)])
  {
    PushesCount(spans, k);
    PushesCount(spans[1..], k + 1);
    if i > 0 {
      PushesAre(spans[1..], k + 1, i - 1);
    }
  }

  lemma {:induction false} PushesCount(spans: seq<Span>, k: nat)
    ensures |Pushes(spans, k)| == 2 * |spans|
  {
    if spans != [] {
      PushesCount(spans[1..], k + 1);
    }
  }

  // For each node to be wrapped its two insertions, with numbers from `k`, and nothing else.
  ghost predicate PushedFor(pushed: seq<Insertion<Mark>>, n: Node, paths: seq<seq<nat>>, k: nat) {
    && Lists(paths, n) && |pushed| == 2 * |paths|
    && forall i :: 0 <= i < |paths| ==>
         && IsWrapped(n, paths[i])
         && pushed[2 * i] == Insertion(SpanAt(n, paths[i]).open, [Open(k + i)])
         && pushed[2 * i + 1] == Insertion(SpanAt(n, paths[i]).close, [Close(k + i)])
  }

  lemma PushedForAll(n: Node, k: nat) returns (paths: seq<seq<nat>>)
    ensures PushedFor(Pushes(Wrapped(n), k), n, paths, k) && SpansOf(Wrapped(n), n, paths)
  {
    hide Lists, Pushes, SpanAt, Wrapped;
    paths := WrappedAreAll(n);
    PushesCount(Wrapped(n), k);
    forall i | 0 <= i < |paths|
      ensures Pushes(Wrapped(n), k)[2 * i] == Insertion(SpanAt(n, paths[i]).open, [Open(k + i)])
      ensures Pushes(Wrapped(n), k)[2 * i + 1] == Insertion(SpanAt(n, paths[i]).close, [Close(k + i)])
    {
      PushesAre(Wrapped(n), k, i);
    }
  }

  class Visitor {
    var insertions: seq<Insertion<Mark>>
    var serial: nat

    constructor ()
      ensures insertions == [] && serial == 0
    {
      insertions, serial := [], 0;
    }

    method InstrumentStatement(n: Node)
      modifies this
      ensures serial == old(serial) + 1
      ensures insertions == old(insertions) + Pushes([Span(n.open, n.close)], old(serial))
    {
      var index := serial;
      serial := serial + 1;
      insertions := insertions + [Insertion(n.open, [Open(index)])];
      insertions := insertions + [Insertion(n.close, [Close(index)])];
    }

    method Visit(n: Node)
      modifies this
      ensures serial == old(serial) + |Wrapped(n)|
      ensures insertions == old(insertions) + Pushes(Wrapped(n), old(serial))
      ensures old(insertions) <= insertions
      ensures exists paths :: PushedFor(insertions[|old(insertions)|..], n, paths, old(serial))
      decreases n, 1
    {
      if n.wrapped {
        InstrumentStatement(n);
        PushesConcat([Span(n.open, n.close)], WrappedAll(n.children), old(serial));
      } else {
        assert Wrapped(n) == WrappedAll(n.children);
      }
      VisitAll(n.children);
      ghost var paths := PushedForAll(n, old(serial));
      assert insertions[|old(insertions)|..] == Pushes(Wrapped(n), old(serial));
    }

    method VisitAll(ns: seq<Node>)
      modifies this
      ensures serial == old(serial) + |WrappedAll(ns)|
      ensures insertions == old(insertions) + Pushes(WrappedAll(ns), old(serial))
      decreases ns, 0
    {
      var i := 0;
      while i < |ns|
        invariant 0 <= i <= |ns|
        invariant serial + |WrappedAll(ns[i..])| == old(serial) + |WrappedAll(ns)|
        invariant insertions + Pushes(WrappedAll(ns[i..]), serial)
          == old(insertions) + Pushes(WrappedAll(ns), old(serial))
      {
        assert ns[i..][1..] == ns[i + 1..];
        PushesConcat(Wrapped(ns[i]), WrappedAll(ns[i + 1..]), serial);
        Visit(ns[i]);
        i := i + 1;
      }
    }
  }

  // ----- The spans of a tree nest -----

  // Parts lie inside their statement, one after the other.
  ghost predicate WellFormed(n: Node) {
    && n.open <= n.close
    && (forall i :: 0 <= i < |n.children| ==>
          n.open <= n.children[i].open && n.children[i].close <= n.close && WellFormed(n.children[i]))
    && (forall i, j :: 0 <= i < j < |n.children| ==> n.children[i].close <= n.children[j].open)
  }

  // A later span lies inside an earlier one or after it.
  ghost predicate Nested(spans: seq<Span>) {
    && (forall i :: 0 <= i < |spans| ==> spans[i].open <= spans[i].close)
    && (forall i, j :: 0 <= i < j < |spans| ==> InsideOrAfter(spans[i], spans[j]))
  }

  ghost predicate InsideOrAfter(s: Span, t: Span) {
    (s.open <= t.open && t.close <= s.close) || s.close <= t.open
  }

  ghost predicate Between(spans: seq<Span>, a: nat, b: nat) {
    forall i :: 0 <= i < |spans| ==> a <= spans[i].open && spans[i].close <= b
  }

  lemma {:induction false} VisitNests(n: Node)
    requires WellFormed(n)
    ensures Nested(Wrapped(n)) && Between(Wrapped(n), n.open, n.close)
    decreases n, 1
  {
    VisitAllNests(n.children, n.open, n.close);
  }

  lemma {:induction false} VisitAllNests(ns: seq<Node>, a: nat, b: nat)
    requires forall i :: 0 <= i < |ns| ==> a <= ns[i].open && ns[i].close <= b && WellFormed(ns[i])
    requires forall i, j :: 0 <= i < j < |ns| ==> ns[i].close <= ns[j].open
    ensures Nested(WrappedAll(ns)) && Between(WrappedAll(ns), a, b)
    decreases ns, 0
  {
    if ns != [] {
      VisitNests(ns[0]);
      assert a <= ns[0].open <= ns[0].close <= b;
      VisitAllNests(ns[1..], ns[0].close, b);
      NestedConcat(Wrapped(ns[0]), WrappedAll(ns[1..]), ns[0].close);
    }
  }

  lemma NestedConcat(s: seq<Span>, t: seq<Span>, m: nat)
    requires Nested(s) && Nested(t)
    requires forall i :: 0 <= i < |s| ==> s[i].close <= m
    requires forall i :: 0 <= i < |t| ==> m <= t[i].open
    ensures Nested(s + t)
  {
    forall i, j | 0 <= i < j < |s + t|
      ensures InsideOrAfter((s + t)[i], (s + t)[j])
    {
      if j < |s| {
        assert InsideOrAfter(s[i], s[j]);
      } else if i >= |s| {
        assert InsideOrAfter(t[i - |s|], t[j - |s|]);
      }
    }
  }

  // ----- Erasing what was inserted -----

  // The characters of the source among the marks, or the brackets.
  function Keep(marks: seq<Mark>, source: bool): seq<Mark> {
    if marks == [] then []
    else (if marks[0].Source? == source then [marks[0]] else []) + Keep(marks[1..], source)
  }

  ghost predicate AllSource(marks: seq<Mark>) {
    forall i :: 0 <= i < |marks| ==> marks[i].Source?
  }

  ghost predicate NoSource(marks: seq<Mark>) {
    forall i :: 0 <= i < |marks| ==> !marks[i].Source?
  }

  lemma {:induction false} KeepConcat(s: seq<Mark>, t: seq<Mark>, source: bool)
    ensures Keep(s + t, source) == Keep(s, source) + Keep(t, source)
    decreases |s|
  {
    if s == [] {
      assert s + t == t;
    } else {
      assert (s + t)[1..] == s[1..] + t;
      KeepConcat(s[1..], t, source);
    }
  }

  lemma {:induction false} KeepInserted(s: seq<Mark>)
    requires NoSource(s)
    ensures Keep(s, true) == [] && Keep(s, false) == s
  {
    if s != [] {
      KeepInserted(s[1..]);
    }
  }

  lemma {:induction false} TextsHaveNoSource(s: seq<Insertion<Mark>>, p: nat)
    requires forall i :: 0 <= i < |s| ==> NoSource(s[i].text)
    ensures NoSource(TextsAt(s, p))
  {
    if s != [] {
      TextsHaveNoSource(s[..|s| - 1], p);
    }
  }

  // The brackets inserted from `p` on.
  ghost function Inserted(s: seq<Insertion<Mark>>, p: nat, end: nat): seq<Mark>
    requires p <= end
    decreases end - p
  {
    if p == end then TextsAt(s, p) else TextsAt(s, p) + Inserted(s, p + 1, end)
  }

  // Erasing the inserted texts gives the source back, and what is erased are
  // the texts in the order of their offsets.
  lemma {:induction false} EraseWeave(src: seq<Mark>, s: seq<Insertion<Mark>>, p: nat)
    requires p <= |src| && AllSource(src) && forall i :: 0 <= i < |s| ==> NoSource(s[i].text)
    ensures Keep(Weave(src, s, p), true) == src[p..]
    ensures Keep(Weave(src, s, p), false) == Inserted(s, p, |src|)
    decreases |src| - p
  {
    hide Keep, TextsAt, Weave;
    TextsHaveNoSource(s, p);
    KeepInserted(TextsAt(s, p));
    if p < |src| {
      EraseWeave(src, s, p + 1);
      WeaveStep(src, s, p);
      KeepStep(TextsAt(s, p), src[p], Weave(src, s, p + 1), true);
      KeepStep(TextsAt(s, p), src[p], Weave(src, s, p + 1), false);
      assert [] + ([src[p]] + src[p + 1..]) == src[p..];
      assert TextsAt(s, p) + ([] + Inserted(s, p + 1, |src|)) == Inserted(s, p, |src|);
    } else {
      WeaveEnd(src, s);
      assert src[p..] == [];
    }
  }

  lemma WeaveEnd(src: seq<Mark>, s: seq<Insertion<Mark>>)
    ensures Weave(src, s, |src|) == TextsAt(s, |src|)
  {
  }

  lemma KeepStep(texts: seq<Mark>, m: Mark, rest: seq<Mark>, source: bool)
    ensures Keep(texts + ([m] + rest), source)
      == Keep(texts, source) + ((if m.Source? == source then [m] else []) + Keep(rest, source))
  {
    KeepConcat(texts, [m] + rest, source);
    assert ([m] + rest)[1..] == rest;
  }
}
