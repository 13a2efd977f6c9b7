/**
 When the brackets emitted for nested statements are balanced and nested as the
 statements are: exactly when no two statements start at one offset and none
 ends where one starts, be it another or an empty one itself.
 */
module BracketNesting {
  import opened Splice
  import opened Instrument
  import opened Wrappers

  // Reads brackets against a stack of the open ones, the innermost last.
  function Run(tokens: seq<Mark>, stack: seq<nat>): Option<seq<nat>> {
    if tokens == [] then Some(stack)
    else match tokens[0]
      case Open(id) => Run(tokens[1..], stack + [id])
      case Close(id) =>
        if stack != [] && stack[|stack| - 1] == id then Run(tokens[1..], stack[..|stack| - 1]) else None
      case Source(_) => None
  }

  // Every bracket closes the innermost open one, and none is left open.
  predicate Balanced(tokens: seq<Mark>) {
    Run(tokens, []) == Some([])
  }

  // The brackets of the first `n` spans at offset `p`, as splicing emits them.
  ghost function TokensAt(spans: seq<Span>, n: nat, p: nat): seq<Mark>
    requires n <= |spans|
  {
    if n == 0 then []
    else
      (if spans[n - 1].close == p then [Close(n - 1)] else [])
      + ((if spans[n - 1].open == p then [Open(n - 1)] else []) + TokensAt(spans, n - 1, p))
  }

  ghost function TokensFrom(spans: seq<Span>, p: nat, end: nat): seq<Mark>
    requires p <= end
    decreases end - p
  {
    if p == end then TokensAt(spans, |spans|, p) else TokensAt(spans, |spans|, p) + TokensFrom(spans, p + 1, end)
  }

  lemma TextsOfTwo(before: seq<Insertion<Mark>>, open: Insertion<Mark>, close: Insertion<Mark>, p: nat)
    ensures TextsAt(before + [open, close], p)
      == (if close.at == p then close.text else []) + ((if open.at == p then open.text else []) + TextsAt(before, p))
  {
    hide TextsAt;
    assert before + [open, close] == before + [open] + [close];
    TextsOneMore(before + [open], close, p);
    TextsOneMore(before, open, p);
  }

  lemma PushesOneMore(spans: seq<Span>, n: nat)
    requires 0 < n <= |spans|
    ensures Pushes(spans[..n], 0) == Pushes(spans[..n - 1], 0)
      + [Insertion(spans[n - 1].open, [Open(n - 1)]), Insertion(spans[n - 1].close, [Close(n - 1)])]
  {
    assert spans[..n] == spans[..n - 1] + [spans[n - 1]];
    PushesConcat(spans[..n - 1], [spans[n - 1]], 0);
  }

  lemma {:induction false} TextsOfPushes(spans: seq<Span>, n: nat, p: nat)
    requires n <= |spans|
    ensures TextsAt(Pushes(spans[..n], 0), p) == TokensAt(spans, n, p)
  {
    if n > 0 {
      hide TextsAt, Pushes;
      TextsOfPushes(spans, n - 1, p);
      PushesOneMore(spans, n);
      TextsOfTwo(Pushes(spans[..n - 1], 0), Insertion(spans[n - 1].open, [Open(n - 1)]),
                 Insertion(spans[n - 1].close, [Close(n - 1)]), p);
    }
  }

  lemma {:induction false} InsertedTokens(spans: seq<Span>, p: nat, end: nat)
    requires p <= end
    ensures Inserted(Pushes(spans, 0), p, end) == TokensFrom(spans, p, end)
    decreases end - p
  {
    TextsOfPushes(spans, |spans|, p);
    assert spans[..|spans|] == spans;
    if p < end {
      InsertedTokens(spans, p + 1, end);
    }
  }

  // ----- Brackets apart nest -----

  // No two statements start together, and none starts where one ends.
  ghost predicate Apart(spans: seq<Span>) {
    forall i, j :: 0 <= i < |spans| && 0 <= j < |spans| ==>
      (i != j ==> spans[i].open != spans[j].open) && spans[i].close != spans[j].open
  }

  ghost predicate NoneEmpty(spans: seq<Span>) {
    forall i :: 0 <= i < |spans| ==> spans[i].open < spans[i].close
  }

  // The spans still open just before offset `p`, outer ones first.
  ghost function Active(spans: seq<Span>, n: nat, p: nat): seq<nat>
    requires n <= |spans|
  {
    if n == 0 then []
    else Active(spans, n - 1, p) + (if spans[n - 1].open < p <= spans[n - 1].close then [n - 1] else [])
  }

  lemma {:induction false} RunConcat(s: seq<Mark>, t: seq<Mark>, stack: seq<nat>)
    ensures Run(s + t, stack) == match Run(s, stack) case None => None case Some(st) => Run(t, st)
    decreases |s|
  {
    if s == [] {
      assert s + t == t;
    } else {
      assert (s + t)[1..] == s[1..] + t;
      match s[0]
      case Open(id) => RunConcat(s[1..], t, stack + [id]);
      case Close(id) =>
        if stack != [] && stack[|stack| - 1] == id {
          RunConcat(s[1..], t, stack[..|stack| - 1]);
        }
      case Source(_) =>
    }
  }

  lemma RunOpen(id: nat, tokens: seq<Mark>, stack: seq<nat>)
    ensures Run([Open(id)] + tokens, stack) == Run(tokens, stack + [id])
  {
    assert ([Open(id)] + tokens)[1..] == tokens;
  }

  lemma PopOne(tokens: seq<Mark>, stack: seq<nat>, id: nat)
    ensures Run([Close(id)] + tokens, stack + [id]) == Run(tokens, stack)
  {
    assert ([Close(id)] + tokens)[1..] == tokens && (stack + [id])[..|stack|] == stack;
  }

  // What one more span adds where none starts.
  lemma OneMoreSpan(spans: seq<Span>, n: nat, p: nat)
    requires 0 < n <= |spans| && spans[n - 1].open != p && spans[n - 1].open < spans[n - 1].close
    ensures var s := spans[n - 1];
      && TokensAt(spans, n, p) == (if s.close == p then [Close(n - 1)] else []) + TokensAt(spans, n - 1, p)
      && Active(spans, n, p) == Active(spans, n - 1, p) + (if s.open < p <= s.close then [n - 1] else [])
      && Active(spans, n, p + 1) == Active(spans, n - 1, p + 1) + (if s.open < p < s.close then [n - 1] else [])
  {
  }

  // Where spans only end, they end innermost first.
  lemma {:induction false} ClosesAt(spans: seq<Span>, n: nat, p: nat)
    requires n <= |spans| && Nested(spans) && NoneEmpty(spans)
    requires forall i :: 0 <= i < n ==> spans[i].open != p
    ensures Run(TokensAt(spans, n, p), Active(spans, n, p)) == Some(Active(spans, n, p + 1))
  {
    hide TokensAt, Active, Run;
    if n == 0 {
      RunNothing(spans, p);
    } else {
      var s := spans[n - 1];
      var tokens, stack, after := TokensAt(spans, n - 1, p), Active(spans, n - 1, p), Active(spans, n - 1, p + 1);
      ClosesAt(spans, n - 1, p);
      OneMoreSpan(spans, n, p);
      assert [] + tokens == tokens && stack + [] == stack && after + [] == after;
      if s.close == p {
        PopOne(tokens, stack, n - 1);
      } else if s.open < p < s.close {
        NoClosesBelow(spans, n - 1, n - 1, p);
        RunEmpty(stack + [n - 1]);
      }
    }
  }

  lemma RunEmpty(stack: seq<nat>)
    ensures Run([], stack) == Some(stack)
  {
  }

  lemma RunNothing(spans: seq<Span>, p: nat)
    ensures Run(TokensAt(spans, 0, p), Active(spans, 0, p)) == Some(Active(spans, 0, p + 1))
  {
  }

  // While a span stays open across `p`, none before it in the list ends there.
  lemma {:induction false} NoClosesBelow(spans: seq<Span>, j: nat, n: nat, p: nat)
    requires n <= j < |spans| && Nested(spans) && spans[j].open < p < spans[j].close
    requires forall i :: 0 <= i < n ==> spans[i].open != p
    ensures TokensAt(spans, n, p) == [] && Active(spans, n, p + 1) == Active(spans, n, p)
  {
    if n > 0 {
      NoClosesBelow(spans, j, n - 1, p);
      assert InsideOrAfter(spans[n - 1], spans[j]);
    }
  }

  lemma NestedPair(spans: seq<Span>, i: nat, j: nat)
    requires Nested(spans) && i < |spans| && j < |spans|
    ensures i < j ==> InsideOrAfter(spans[i], spans[j])
  {
  }

  // Where one span starts and none ends, it becomes the innermost.
  lemma {:induction false} OpenAt(spans: seq<Span>, n: nat, p: nat, k: nat)
    requires n <= |spans| && Nested(spans) && NoneEmpty(spans) && k < |spans| && spans[k].open == p
    requires forall i :: 0 <= i < |spans| && i != k ==> spans[i].open != p && spans[i].close != p
    ensures TokensAt(spans, n, p) == if k < n then [Open(k)] else []
    ensures Active(spans, n, p + 1) == Active(spans, n, p) + (if k < n then [k] else [])
  {
    if n > 0 {
      hide Nested;
      OpenAt(spans, n - 1, p, k);
      NestedPair(spans, k, n - 1);
    }
  }

  lemma StepAt(spans: seq<Span>, p: nat)
    requires Nested(spans) && Apart(spans)
    ensures Run(TokensAt(spans, |spans|, p), Active(spans, |spans|, p)) == Some(Active(spans, |spans|, p + 1))
  {
    assert NoneEmpty(spans) by {
      assert forall i :: 0 <= i < |spans| ==> spans[i].open != spans[i].close;
    }
    if k :| 0 <= k < |spans| && spans[k].open == p {
      OpenAt(spans, |spans|, p, k);
      assert TokensAt(spans, |spans|, p) == [Open(k)];
    } else {
      ClosesAt(spans, |spans|, p);
    }
  }

  lemma {:induction false} RunFrom(spans: seq<Span>, p: nat, end: nat)
    requires Nested(spans) && Apart(spans) && p <= end
    ensures Run(TokensFrom(spans, p, end), Active(spans, |spans|, p)) == Some(Active(spans, |spans|, end + 1))
    decreases end - p
  {
    StepAt(spans, p);
    if p < end {
      RunConcat(TokensAt(spans, |spans|, p), TokensFrom(spans, p + 1, end), Active(spans, |spans|, p));
      RunFrom(spans, p + 1, end);
    }
  }

  lemma {:induction false} NoneActive(spans: seq<Span>, n: nat, p: nat)
    requires n <= |spans| && (p == 0 || forall i :: 0 <= i < n ==> spans[i].close < p)
    ensures Active(spans, n, p) == []
  {
    if n > 0 {
      NoneActive(spans, n - 1, p);
    }
  }

  lemma ApartBalances(spans: seq<Span>, end: nat)
    requires Nested(spans) && Apart(spans) && Between(spans, 0, end)
    ensures Balanced(TokensFrom(spans, 0, end))
  {
    RunFrom(spans, 0, end);
    NoneActive(spans, |spans|, 0);
    NoneActive(spans, |spans|, end + 1);
  }

  // ----- Brackets that nest are apart -----

  // The brackets of spans `i` and `j` alone.
  function Only(tokens: seq<Mark>, i: nat, j: nat): seq<Mark> {
    if tokens == [] then []
    else (if Concerns(tokens[0], i, j) then [tokens[0]] else []) + Only(tokens[1..], i, j)
  }

  predicate Concerns(m: Mark, i: nat, j: nat) {
    !m.Source? && (m.id == i || m.id == j)
  }

  function OnlyStack(stack: seq<nat>, i: nat, j: nat): seq<nat> {
    if stack == [] then []
    else
      OnlyStack(stack[..|stack| - 1], i, j)
      + (if stack[|stack| - 1] == i || stack[|stack| - 1] == j then [stack[|stack| - 1]] else [])
  }

  lemma OnlyStackPush(stack: seq<nat>, id: nat, i: nat, j: nat)
    ensures OnlyStack(stack + [id], i, j) == OnlyStack(stack, i, j) + (if id == i || id == j then [id] else [])
  {
    assert (stack + [id])[..|stack|] == stack;
  }

  // Leaving out other brackets leaves a balanced run balanced.
  lemma {:induction false} OnlyRuns(tokens: seq<Mark>, stack: seq<nat>, i: nat, j: nat)
    requires Run(tokens, stack).Some?
    ensures Run(Only(tokens, i, j), OnlyStack(stack, i, j)) == Some(OnlyStack(Run(tokens, stack).value, i, j))
    decreases |tokens|
  {
    hide Run, Only, OnlyStack;
    if tokens == [] {
      RunEmpty(stack);
      OnlyEmpty(i, j);
      RunEmpty(OnlyStack(stack, i, j));
    } else {
      var m, rest := tokens[0], tokens[1..];
      var next := RunStep(tokens, stack);
      OnlyRuns(rest, next, i, j);
      assert tokens == [m] + rest;
      OnlyCons(m, rest, i, j);
      assert [] + Only(rest, i, j) == Only(rest, i, j);
      if m.Open? {
        OnlyStackPush(stack, m.id, i, j);
        OnlyOpens(m.id, Only(rest, i, j), OnlyStack(stack, i, j), i, j);
      } else {
        OnlyStackPush(next, m.id, i, j);
        OnlyCloses(m.id, Only(rest, i, j), OnlyStack(next, i, j), i, j);
      }
    }
  }

  // A run that succeeds takes its first step.
  lemma RunStep(tokens: seq<Mark>, stack: seq<nat>) returns (next: seq<nat>)
    requires tokens != [] && Run(tokens, stack).Some?
    ensures tokens[0].Open? || tokens[0].Close?
    ensures if tokens[0].Open? then next == stack + [tokens[0].id] else stack == next + [tokens[0].id]
    ensures Run(tokens, stack) == Run(tokens[1..], next)
  {
    next := if tokens[0].Open? then stack + [tokens[0].id] else stack[..|stack| - 1];
  }

  lemma OnlyOpens(id: nat, rest: seq<Mark>, stack: seq<nat>, i: nat, j: nat)
    ensures var mine := id == i || id == j;
      Run((if mine then [Open(id)] else []) + rest, stack) == Run(rest, stack + (if mine then [id] else []))
  {
    hide Run;
    RunOpen(id, rest, stack);
    assert [] + rest == rest && stack + [] == stack;
  }

  lemma OnlyCloses(id: nat, rest: seq<Mark>, stack: seq<nat>, i: nat, j: nat)
    ensures var mine := id == i || id == j;
      Run((if mine then [Close(id)] else []) + rest, stack + (if mine then [id] else [])) == Run(rest, stack)
  {
    hide Run;
    PopOne(rest, stack, id);
    assert [] + rest == rest && stack + [] == stack;
  }

  lemma {:induction false} OnlyConcat(s: seq<Mark>, t: seq<Mark>, i: nat, j: nat)
    ensures Only(s + t, i, j) == Only(s, i, j) + Only(t, i, j)
    decreases |s|
  {
    hide Only;
    if s == [] {
      assert s + t == t;
      OnlyEmpty(i, j);
      assert [] + Only(t, i, j) == Only(t, i, j);
    } else {
      assert s + t == [s[0]] + (s[1..] + t) && s == [s[0]] + s[1..];
      OnlyConcat(s[1..], t, i, j);
      OnlyCons(s[0], s[1..] + t, i, j);
      OnlyCons(s[0], s[1..], i, j);
      Assoc(if Concerns(s[0], i, j) then [s[0]] else [], Only(s[1..], i, j), Only(t, i, j));
    }
  }

  lemma OnlyEmpty(i: nat, j: nat)
    ensures Only([], i, j) == []
  {
  }

  lemma OnlyCons(m: Mark, rest: seq<Mark>, i: nat, j: nat)
    ensures Only([m] + rest, i, j) == (if Concerns(m, i, j) then [m] else []) + Only(rest, i, j)
  {
    assert ([m] + rest)[1..] == rest;
  }

  // The brackets of two spans at offset `p`; the later span's come first.  A
  // span paired with itself stands alone.
  ghost function PairAt(s: Span, t: Span, i: nat, j: nat, p: nat): seq<Mark> {
    OneAt(t, j, p) + (if i == j then [] else OneAt(s, i, p))
  }

  ghost function PairFrom(s: Span, t: Span, i: nat, j: nat, p: nat, end: nat): seq<Mark>
    requires p <= end
    decreases end - p
  {
    if p == end then PairAt(s, t, i, j, p) else PairAt(s, t, i, j, p) + PairFrom(s, t, i, j, p + 1, end)
  }

  // The part of `PairAt` that the first `n` spans give.
  ghost function PairUpTo(spans: seq<Span>, n: nat, i: nat, j: nat, p: nat): seq<Mark>
    requires i <= j < |spans|
  {
    (if j < n then OneAt(spans[j], j, p) else []) + (if i < n && i != j then OneAt(spans[i], i, p) else [])
  }

  ghost function OneAt(s: Span, id: nat, p: nat): seq<Mark> {
    (if s.close == p then [Close(id)] else []) + (if s.open == p then [Open(id)] else [])
  }

  lemma OnlyOne(s: Span, id: nat, p: nat, i: nat, j: nat)
    ensures Only(OneAt(s, id, p), i, j) == if id == i || id == j then OneAt(s, id, p) else []
  {
    var close := if s.close == p then [Close(id)] else [];
    var open := if s.open == p then [Open(id)] else [];
    OnlyConcat(close, open, i, j);
  }

  lemma {:induction false} OnlyAt(spans: seq<Span>, n: nat, i: nat, j: nat, p: nat)
    requires n <= |spans| && i <= j < |spans|
    ensures Only(TokensAt(spans, n, p), i, j) == PairUpTo(spans, n, i, j, p)
  {
    hide OneAt, TokensAt, Only;
    if n == 0 {
      OnlyNothing(spans, i, j, p);
    } else {
      OnlyAt(spans, n - 1, i, j, p);
      TokensAtOne(spans, n, p);
      OnlyOne(spans[n - 1], n - 1, p, i, j);
      OnlyConcat(OneAt(spans[n - 1], n - 1, p), TokensAt(spans, n - 1, p), i, j);
    }
  }

  lemma OnlyNothing(spans: seq<Span>, i: nat, j: nat, p: nat)
    ensures Only(TokensAt(spans, 0, p), i, j) == []
  {
  }

  lemma TokensAtOne(spans: seq<Span>, n: nat, p: nat)
    requires 0 < n <= |spans|
    ensures TokensAt(spans, n, p) == OneAt(spans[n - 1], n - 1, p) + TokensAt(spans, n - 1, p)
  {
  }

  lemma {:induction false} OnlyFrom(spans: seq<Span>, i: nat, j: nat, p: nat, end: nat)
    requires i <= j < |spans| && p <= end
    ensures Only(TokensFrom(spans, p, end), i, j) == PairFrom(spans[i], spans[j], i, j, p, end)
    decreases end - p
  {
    OnlyAt(spans, |spans|, i, j, p);
    if p < end {
      OnlyFrom(spans, i, j, p + 1, end);
      OnlyConcat(TokensAt(spans, |spans|, p), TokensFrom(spans, p + 1, end), i, j);
    }
  }

  ghost predicate Quiet(s: Span, t: Span, p: nat) {
    p != s.open && p != s.close && p != t.open && p != t.close
  }

  // Offsets where neither span starts or ends may be skipped.
  lemma {:induction false} SkipTo(s: Span, t: Span, i: nat, j: nat, p: nat, q: nat, end: nat)
    requires p <= q <= end
    requires forall x :: p <= x < q ==> Quiet(s, t, x)
    ensures PairFrom(s, t, i, j, p, end) == PairFrom(s, t, i, j, q, end)
    decreases q - p
  {
    if p < q {
      assert Quiet(s, t, p);
      assert PairAt(s, t, i, j, p) == [];
      SkipTo(s, t, i, j, p + 1, q, end);
    }
  }

  lemma RunWrongClose(id: nat, tokens: seq<Mark>, stack: seq<nat>)
    requires tokens != [] && tokens[0] == Close(id) && stack != [] && stack[|stack| - 1] != id
    ensures Run(tokens, stack) == None
  {
  }

  lemma RunTwo(m: Mark, id: nat, tokens: seq<Mark>, stack: seq<nat>)
    requires m.Open?
    ensures Run([m, Close(id)] + tokens, stack) == Run([Close(id)] + tokens, stack + [m.id])
    ensures Run([m, Open(id)] + tokens, stack) == Run(tokens, stack + [m.id, id])
  {
    assert [m, Close(id)] + tokens == [m] + ([Close(id)] + tokens);
    assert [m, Open(id)] + tokens == [m] + ([Open(id)] + tokens);
    RunOpen(m.id, [Close(id)] + tokens, stack);
    RunOpen(m.id, [Open(id)] + tokens, stack);
    RunOpen(id, tokens, stack + [m.id]);
    assert stack + [m.id] + [id] == stack + [m.id, id];
  }

  // The brackets from one offset on begin with those at it.
  lemma PairHead(s: Span, t: Span, i: nat, j: nat, p: nat, end: nat) returns (tail: seq<Mark>)
    requires p <= end
    ensures PairFrom(s, t, i, j, p, end) == PairAt(s, t, i, j, p) + tail
    ensures p < end ==> tail == PairFrom(s, t, i, j, p + 1, end)
  {
    tail := if p == end then [] else PairFrom(s, t, i, j, p + 1, end);
  }

  // A statement with nothing in it closes before it opens.
  lemma EmptyCrosses(s: Span, i: nat, end: nat)
    requires s.open == s.close <= end
    ensures Run(PairFrom(s, s, i, i, 0, end), []).None?
  {
    SkipTo(s, s, i, i, 0, s.open, end);
    var rest := PairHead(s, s, i, i, s.open, end);
    assert PairAt(s, s, i, i, s.open) == [Close(i), Open(i)];
  }

  // Two statements that start together come out crossed: the inner one opens
  // first and closes first.
  lemma SameStartCrosses(s: Span, t: Span, i: nat, j: nat, end: nat)
    requires i != j && s.open < s.close <= end && t.open < t.close <= s.close && s.open == t.open
    ensures Run(PairFrom(s, t, i, j, 0, end), []).None?
  {
    hide Run, PairFrom;
    var p, q := s.open, t.close;
    SkipTo(s, t, i, j, 0, p, end);
    assert PairAt(s, t, i, j, p) == [Open(j), Open(i)];
    var rest := PairHead(s, t, i, j, p, end);
    RunTwo(Open(j), i, rest, []);
    SkipTo(s, t, i, j, p + 1, q, end);
    var tail := PairHead(s, t, i, j, q, end);
    assert PairAt(s, t, i, j, q)[0] == Close(j);
    RunWrongClose(j, rest, [] + [j, i]);
  }

  // A statement that starts where the one before it ends opens before that one closes.
  lemma TouchingCrosses(s: Span, t: Span, i: nat, j: nat, end: nat)
    requires i != j && s.open < s.close && t.open < t.close <= end && s.close == t.open
    ensures Run(PairFrom(s, t, i, j, 0, end), []).None?
  {
    hide Run, PairFrom;
    var p, q := s.open, s.close;
    SkipTo(s, t, i, j, 0, p, end);
    assert PairAt(s, t, i, j, p) == [Open(i)];
    var rest := PairHead(s, t, i, j, p, end);
    RunOpen(i, rest, []);
    SkipTo(s, t, i, j, p + 1, q, end);
    assert PairAt(s, t, i, j, q) == [Open(j), Close(i)];
    var tail := PairHead(s, t, i, j, q, end);
    RunTwo(Open(j), i, tail, [] + [i]);
    RunWrongClose(i, [Close(i)] + tail, [] + [i] + [j]);
  }

  lemma BalancedIsApart(spans: seq<Span>, end: nat)
    requires Nested(spans) && Between(spans, 0, end) && Balanced(TokensFrom(spans, 0, end))
    ensures Apart(spans)
  {
    forall i | 0 <= i < |spans|
      ensures spans[i].open < spans[i].close
    {
      OnlyRuns(TokensFrom(spans, 0, end), [], i, i);
      OnlyFrom(spans, i, i, 0, end);
      if spans[i].open == spans[i].close {
        EmptyCrosses(spans[i], i, end);
      }
    }
    forall i, j | 0 <= i < j < |spans|
      ensures spans[i].open != spans[j].open
      ensures spans[i].close != spans[j].open && spans[j].close != spans[i].open
    {
      assert InsideOrAfter(spans[i], spans[j]);
      OnlyRuns(TokensFrom(spans, 0, end), [], i, j);
      OnlyFrom(spans, i, j, 0, end);
      if spans[i].open == spans[j].open {
        SameStartCrosses(spans[i], spans[j], i, j, end);
      } else if spans[i].close == spans[j].open {
        TouchingCrosses(spans[i], spans[j], i, j, end);
      }
    }
  }

  // The brackets spliced in for the statements of a tree are balanced, each
  // statement's closing its own opening, exactly when the statements are apart.
  lemma SplicedBracketsNest(src: seq<Mark>, n: Node)
    requires WellFormed(n) && n.close <= |src| && AllSource(src)
    ensures var code := Weave(src, Pushes(Wrapped(n), 0), 0);
      && Keep(code, true) == src
      && (Balanced(Keep(code, false)) <==> Apart(Wrapped(n)))
  {
    var spans := Wrapped(n);
    VisitNests(n);
    PushesHaveNoSource(spans, 0);
    EraseWeave(src, Pushes(spans, 0), 0);
    InsertedTokens(spans, 0, |src|);
    assert Between(spans, 0, |src|);
    if Apart(spans) {
      ApartBalances(spans, |src|);
    } else if Balanced(TokensFrom(spans, 0, |src|)) {
      BalancedIsApart(spans, |src|);
    }
  }

  // The empty body of an instrumented function: its closing bracket comes out
  // before its opening one.
  lemma EmptyBodyIsCrossed(src: seq<Mark>, at: nat)
    requires at <= |src| && AllSource(src)
    ensures var n := Node(at, at, true, []);
      && WellFormed(n) && Wrapped(n) == [Span(at, at)]
      && Keep(Weave(src, Pushes(Wrapped(n), 0), 0), false) == [Close(0), Open(0)]
      && !Balanced([Close(0), Open(0)])
  {
    var n := Node(at, at, true, []);
    assert Wrapped(n) == [Span(at, at)];
    var spans := Wrapped(n);
    PushesHaveNoSource(spans, 0);
    EraseWeave(src, Pushes(spans, 0), 0);
    InsertedTokens(spans, 0, |src|);
    EmptyBodyTokens(at, 0, |src|);
  }

  lemma {:induction false} EmptyBodyTokens(at: nat, p: nat, end: nat)
    requires p <= end && at <= end
    ensures TokensFrom([Span(at, at)], p, end) == if p <= at then [Close(0), Open(0)] else []
    decreases end - p
  {
    var spans := [Span(at, at)];
    assert TokensAt(spans, 0, p) == [];
    assert TokensAt(spans, 1, p) == if p == at then [Close(0), Open(0)] else [];
    if p < end {
      EmptyBodyTokens(at, p + 1, end);
    }
  }

  lemma {:induction false} PushesHaveNoSource(spans: seq<Span>, k: nat)
    ensures forall i :: 0 <= i < |Pushes(spans, k)| ==> NoSource(Pushes(spans, k)[i].text)
  {
    if spans != [] {
      PushesHaveNoSource(spans[1..], k + 1);
    }
  }

  // ----- Where the brackets stand -----

  // The mark stands in the code after `at` characters of the source.
  ghost predicate StandsAt(code: seq<Mark>, m: Mark, at: nat) {
    exists c :: 0 <= c < |code| && code[c] == m && |Keep(code[..c], true)| == at
  }

  lemma {:induction false} TextStands(src: seq<Mark>, s: seq<Insertion<Mark>>, p: nat, at: nat, m: Mark)
    requires p <= at <= |src| && AllSource(src) && m in TextsAt(s, at)
    requires forall i :: 0 <= i < |s| ==> NoSource(s[i].text)
    ensures StandsAt(Weave(src, s, p), m, at - p)
    decreases at - p
  {
    hide Keep, TextsAt, Weave;
    var texts := TextsAt(s, p);
    TextsHaveNoSource(s, p);
    if p == at {
      WeaveBegins(src, s, p);
      var c :| 0 <= c < |texts| && texts[c] == m;
      assert Weave(src, s, p)[..c] == texts[..c];
      KeepInserted(texts[..c]);
    } else {
      TextStands(src, s, p + 1, at, m);
      var rest := Weave(src, s, p + 1);
      WeaveStep(src, s, p);
      var c :| 0 <= c < |rest| && rest[c] == m && |Keep(rest[..c], true)| == at - p - 1;
      var code := texts + ([src[p]] + rest);
      assert code[|texts| + 1 + c] == m && code[..|texts| + 1 + c] == texts + ([src[p]] + rest[..c]);
      KeepStep(texts, src[p], rest[..c], true);
      KeepInserted(texts);
    }
  }

  lemma WeaveBegins(src: seq<Mark>, s: seq<Insertion<Mark>>, p: nat)
    requires p <= |src|
    ensures TextsAt(s, p) <= Weave(src, s, p)
  {
  }

  lemma {:induction false} KeptCount(marks: seq<Mark>)
    ensures multiset(marks) == multiset(Keep(marks, true)) + multiset(Keep(marks, false))
    ensures AllSource(Keep(marks, true)) && NoSource(Keep(marks, false))
  {
    hide Keep;
    if marks == [] {
      KeptNothing();
    } else {
      var m, rest := marks[0], marks[1..];
      KeptCount(rest);
      KeptNext(marks, true);
      KeptNext(marks, false);
      assert marks == [m] + rest;
      if m.Source? {
        assert [] + Keep(rest, false) == Keep(rest, false);
      } else {
        assert [] + Keep(rest, true) == Keep(rest, true);
      }
    }
  }

  lemma KeptNothing()
    ensures Keep([], true) == [] && Keep([], false) == []
  {
  }

  lemma KeptNext(marks: seq<Mark>, source: bool)
    requires marks != []
    ensures Keep(marks, source) == (if marks[0].Source? == source then [marks[0]] else []) + Keep(marks[1..], source)
  {
  }

  // How often a mark is among the tokens: each bracket once, at its own offset.
  function Expected(spans: seq<Span>, n: nat, m: Mark, p: nat): nat
    requires n <= |spans|
  {
    match m
    case Open(i) => if i < n && spans[i].open == p then 1 else 0
    case Close(i) => if i < n && spans[i].close == p then 1 else 0
    case Source(_) => 0
  }

  lemma {:induction false} TokensCount(spans: seq<Span>, n: nat, p: nat, m: Mark)
    requires n <= |spans|
    ensures multiset(TokensAt(spans, n, p))[m] == Expected(spans, n, m, p)
  {
    hide TokensAt;
    if n == 0 {
      assert TokensAt(spans, 0, p) == [] by {
        NoTokens(spans, p);
      }
    } else {
      TokensCount(spans, n - 1, p, m);
      TokensNext(spans, n, p);
      var close := if spans[n - 1].close == p then [Close(n - 1)] else [];
      var open := if spans[n - 1].open == p then [Open(n - 1)] else [];
      CountsAdd(close, open + TokensAt(spans, n - 1, p), m);
      CountsAdd(open, TokensAt(spans, n - 1, p), m);
    }
  }

  lemma NoTokens(spans: seq<Span>, p: nat)
    ensures TokensAt(spans, 0, p) == []
  {
  }

  lemma CountsAdd(a: seq<Mark>, b: seq<Mark>, m: Mark)
    ensures multiset(a + b)[m] == multiset(a)[m] + multiset(b)[m]
  {
  }

  lemma TokensNext(spans: seq<Span>, n: nat, p: nat)
    requires 0 < n <= |spans|
    ensures TokensAt(spans, n, p) == (if spans[n - 1].close == p then [Close(n - 1)] else [])
      + ((if spans[n - 1].open == p then [Open(n - 1)] else []) + TokensAt(spans, n - 1, p))
  {
  }

  lemma {:induction false} AllTokensCount(spans: seq<Span>, p: nat, end: nat, m: Mark)
    requires p <= end
    ensures multiset(TokensFrom(spans, p, end))[m] == match m
      case Open(i) => if i < |spans| && p <= spans[i].open <= end then 1 else 0
      case Close(i) => if i < |spans| && p <= spans[i].close <= end then 1 else 0
      case Source(_) => 0
    decreases end - p
  {
    hide TokensAt;
    TokensCount(spans, |spans|, p, m);
    if p < end {
      AllTokensCount(spans, p + 1, end, m);
    }
  }

  // Every node to be wrapped has one opening and one closing bracket in the code,
  // at its own ends; the code has no other brackets.
  ghost predicate Bracketed(code: seq<Mark>, n: Node, paths: seq<seq<nat>>) {
    && Lists(paths, n)
    && (forall m: Mark :: !m.Source? && m in code ==> m.id < |paths|)
    && forall i :: 0 <= i < |paths| ==>
         && IsWrapped(n, paths[i])
         && multiset(code)[Open(i)] == 1 && StandsAt(code, Open(i), SpanAt(n, paths[i]).open)
         && multiset(code)[Close(i)] == 1 && StandsAt(code, Close(i), SpanAt(n, paths[i]).close)
  }

  lemma BracketsStand(src: seq<Mark>, spans: seq<Span>, i: nat)
    requires AllSource(src) && i < |spans| && Between(spans, 0, |src|) && Nested(spans)
    ensures var code := Weave(src, Pushes(spans, 0), 0);
      && multiset(code)[Open(i)] == 1 && StandsAt(code, Open(i), spans[i].open)
      && multiset(code)[Close(i)] == 1 && StandsAt(code, Close(i), spans[i].close)
  {
    hide StandsAt, Weave, Keep, Pushes, TextsAt, TokensAt;
    BracketCounts(src, spans, Open(i));
    BracketCounts(src, spans, Close(i));
    PushesHaveNoSource(spans, 0);
    assert spans[..|spans|] == spans;
    assert spans[i].open <= spans[i].close <= |src|;
    TextsOfPushes(spans, |spans|, spans[i].open);
    TokensCount(spans, |spans|, spans[i].open, Open(i));
    TextStands(src, Pushes(spans, 0), 0, spans[i].open, Open(i));
    TextsOfPushes(spans, |spans|, spans[i].close);
    TokensCount(spans, |spans|, spans[i].close, Close(i));
    TextStands(src, Pushes(spans, 0), 0, spans[i].close, Close(i));
  }

  lemma BracketCounts(src: seq<Mark>, spans: seq<Span>, m: Mark)
    requires AllSource(src) && Between(spans, 0, |src|) && Nested(spans) && !m.Source?
    ensures multiset(Weave(src, Pushes(spans, 0), 0))[m] == if m.id < |spans| then 1 else 0
  {
    hide Weave, Keep, Pushes, TextsAt, TokensAt, TokensFrom;
    PushesHaveNoSource(spans, 0);
    EraseWeave(src, Pushes(spans, 0), 0);
    InsertedTokens(spans, 0, |src|);
    AllTokensCount(spans, 0, |src|, m);
    KeptCount(Weave(src, Pushes(spans, 0), 0));
    assert src[0..] == src && m !in src;
  }

  lemma AllBracketed(src: seq<Mark>, n: Node) returns (paths: seq<seq<nat>>)
    requires WellFormed(n) && n.close <= |src| && AllSource(src)
    ensures Bracketed(Weave(src, Pushes(Wrapped(n), 0), 0), n, paths)
  {
    hide Lists, StandsAt, Weave, Keep, Pushes, IsWrapped, SpanAt, Nested;
    paths := WrappedAreAll(n);
    VisitNests(n);
    var spans, code := Wrapped(n), Weave(src, Pushes(Wrapped(n), 0), 0);
    assert Between(spans, 0, |src|);
    forall m: Mark | !m.Source? && m in code
      ensures m.id < |paths|
    {
      BracketCounts(src, spans, m);
    }
    forall i | 0 <= i < |paths|
      ensures IsWrapped(n, paths[i])
      ensures multiset(code)[Open(i)] == 1 && StandsAt(code, Open(i), SpanAt(n, paths[i]).open)
      ensures multiset(code)[Close(i)] == 1 && StandsAt(code, Close(i), SpanAt(n, paths[i]).close)
    {
      BracketsStand(src, spans, i);
    }
  }

  // The whole transform: visit, then sort and splice.
  method Transform(src: seq<Mark>, n: Node) returns (code: seq<Mark>)
    requires WellFormed(n) && n.close <= |src| && AllSource(src)
    ensures Keep(code, true) == src
    ensures exists paths :: Bracketed(code, n, paths)
    ensures Balanced(Keep(code, false)) <==> Apart(Wrapped(n))
  {
    hide Bracketed;
    var visitor := new Visitor();
    visitor.Visit(n);
    assert visitor.insertions == Pushes(Wrapped(n), 0);
    VisitNests(n);
    PushesStay(Wrapped(n), 0, |src|);
    code := InsertAll(src, visitor.insertions);
    SplicedBracketsNest(src, n);
    ghost var paths := AllBracketed(src, n);
  }

  lemma {:induction false} PushesStay(spans: seq<Span>, k: nat, end: nat)
    requires forall i :: 0 <= i < |spans| ==> spans[i].open <= spans[i].close <= end
    ensures forall i :: 0 <= i < |Pushes(spans, k)| ==> Pushes(spans, k)[i].at <= end
  {
    if spans != [] {
      PushesStay(spans[1..], k + 1, end);
    }
  }
}
