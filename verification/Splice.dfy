/**
 Source instrumentation by inserting text at offsets.  The insertions are
 sorted by descending offset and spliced in one after another.
 */
module Splice {

  datatype Insertion<T> = Insertion(at: nat, text: seq<T>)

  // ----- The stable sort by descending offset -----

  // `x` goes after everything at its offset or beyond.
  function Place<T>(s: seq<Insertion<T>>, x: Insertion<T>): seq<Insertion<T>> {
    if s == [] || s[0].at < x.at then [x] + s else [s[0]] + Place(s[1..], x)
  }

  function SortDescending<T>(s: seq<Insertion<T>>): seq<Insertion<T>> {
    if s == [] then [] else Place(SortDescending(s[..|s| - 1]), s[|s| - 1])
  }

  ghost predicate Descending<T>(s: seq<Insertion<T>>) {
    forall i, j :: 0 <= i < j < |s| ==> s[i].at >= s[j].at
  }

  // The insertions at one offset, in list order.
  ghost function AtOffset<T>(s: seq<Insertion<T>>, p: nat): seq<Insertion<T>> {
    if s == [] then [] else AtOffset(s[..|s| - 1], p) + (if s[|s| - 1].at == p then [s[|s| - 1]] else [])
  }

  lemma {:induction false} AtOffsetConcat<T>(s: seq<Insertion<T>>, t: seq<Insertion<T>>, p: nat)
    ensures AtOffset(s + t, p) == AtOffset(s, p) + AtOffset(t, p)
    decreases |t|
  {
    if t == [] {
      assert s + t == s;
    } else {
      AtOffsetConcat(s, t[..|t| - 1], p);
      assert (s + t)[..|s + t| - 1] == s + t[..|t| - 1];
    }
  }

  lemma {:induction false} PlaceKeeps<T>(s: seq<Insertion<T>>, x: Insertion<T>)
    ensures multiset(Place(s, x)) == multiset(s) + multiset{x}
  {
    if s != [] && s[0].at >= x.at {
      PlaceKeeps(s[1..], x);
      assert s == [s[0]] + s[1..];
    }
  }

  ghost predicate UpTo<T>(s: seq<Insertion<T>>, bound: nat) {
    forall i :: 0 <= i < |s| ==> s[i].at <= bound
  }

  lemma {:induction false} PlaceBounded<T>(s: seq<Insertion<T>>, x: Insertion<T>, bound: nat)
    requires UpTo(s, bound) && x.at <= bound
    ensures UpTo(Place(s, x), bound)
  {
    if s != [] && s[0].at >= x.at {
      PlaceBounded(s[1..], x, bound);
    }
  }

  lemma DescendingCons<T>(x: Insertion<T>, s: seq<Insertion<T>>)
    requires Descending(s) && UpTo(s, x.at)
    ensures Descending([x] + s)
  {
  }

  lemma {:induction false} PlaceSorts<T>(s: seq<Insertion<T>>, x: Insertion<T>)
    requires Descending(s)
    ensures Descending(Place(s, x))
  {
    if s == [] || s[0].at < x.at {
      DescendingCons(x, s);
    } else {
      PlaceSorts(s[1..], x);
      PlaceBounded(s[1..], x, s[0].at);
      DescendingCons(s[0], Place(s[1..], x));
    }
  }

  lemma {:induction false} PlaceIsStable<T>(s: seq<Insertion<T>>, x: Insertion<T>, p: nat)
    requires Descending(s)
    ensures AtOffset(Place(s, x), p) == AtOffset(s, p) + AtOffset([x], p)
  {
    hide AtOffset;
    var one, all := AtOffset([x], p), AtOffset(s, p);
    if s == [] || s[0].at < x.at {
      AtOffsetConcat([x], s, p);
      if x.at == p {
        NothingBeyond(s, p);
        assert one + [] == [] + one;
      } else {
        AtOffsetOne(x, p);
        assert [] + all == all + [];
      }
    } else {
      var rest := s[1..];
      PlaceIsStable(rest, x, p);
      assert s == [s[0]] + rest;
      AtOffsetConcat([s[0]], rest, p);
      AtOffsetConcat([s[0]], Place(rest, x), p);
      Assoc(AtOffset([s[0]], p), AtOffset(rest, p), one);
    }
  }

  lemma Assoc<T>(a: seq<T>, b: seq<T>, c: seq<T>)
    ensures a + (b + c) == a + b + c
  {
  }

  lemma AtOffsetOne<T>(x: Insertion<T>, p: nat)
    ensures AtOffset([x], p) == if x.at == p then [x] else []
  {
    assert [x][..0] == [];
  }

  lemma {:induction false} NothingBeyond<T>(s: seq<Insertion<T>>, p: nat)
    requires forall i :: 0 <= i < |s| ==> s[i].at < p
    ensures AtOffset(s, p) == []
  {
    if s != [] {
      NothingBeyond(s[..|s| - 1], p);
    }
  }

  lemma SortNothing<T>(p: nat)
    ensures Descending(SortDescending<T>([])) && AtOffset(SortDescending<T>([]), p) == AtOffset([], p)
  {
  }

  // The result is sorted, holds the same insertions, and keeps the list order
  // of those at one offset.
  lemma {:induction false} SortsStably<T>(s: seq<Insertion<T>>, p: nat)
    ensures Descending(SortDescending(s))
    ensures multiset(SortDescending(s)) == multiset(s)
    ensures AtOffset(SortDescending(s), p) == AtOffset(s, p)
  {
    hide Place, Descending, AtOffset;
    if s == [] {
      SortNothing<T>(p);
    } else {
      SortsStably(s[..|s| - 1], p);
      PlaceKeeps(SortDescending(s[..|s| - 1]), s[|s| - 1]);
      PlaceSorts(SortDescending(s[..|s| - 1]), s[|s| - 1]);
      PlaceIsStable(SortDescending(s[..|s| - 1]), s[|s| - 1], p);
      AtOffsetConcat(s[..|s| - 1], [s[|s| - 1]], p);
      assert s == s[..|s| - 1] + [s[|s| - 1]];
    }
  }

  // ----- Splicing -----

  // The texts inserted at `p`, the last of the list first.
  function TextsAt<T>(s: seq<Insertion<T>>, p: nat): seq<T> {
    if s == [] then []
    else (if s[|s| - 1].at == p then s[|s| - 1].text else []) + TextsAt(s[..|s| - 1], p)
  }

  // The source from `p` on, with every insertion made at once.
  function Weave<T>(src: seq<T>, s: seq<Insertion<T>>, p: nat): seq<T>
    requires p <= |src|
    decreases |src| - p
  {
    if p == |src| then TextsAt(s, p) else TextsAt(s, p) + ([src[p]] + Weave(src, s, p + 1))
  }

  // The loop of the transform: sort, then splice in that order.
  method InsertAll<T>(src: seq<T>, insertions: seq<Insertion<T>>) returns (code: seq<T>)
    requires forall i :: 0 <= i < |insertions| ==> insertions[i].at <= |src|
    ensures code == Weave(src, insertions, 0)
  {
    hide Weave, SortDescending, Place;
    var sorted := SortDescending(insertions);
    SortsStably(insertions, 0);
    SameOffsets(src, insertions, sorted);
    code := src;
    WeaveNothing(src, 0);
    var i := 0;
    while i < |sorted|
      invariant 0 <= i <= |sorted|
      invariant code == Weave(src, sorted[..i], 0)
    {
      assert sorted[..i + 1] == sorted[..i] + [sorted[i]];
      WeaveOneMore(src, sorted[..i], sorted[i]);
      code := code[..sorted[i].at] + sorted[i].text + code[sorted[i].at..];
      i := i + 1;
    }
    assert sorted[..i] == sorted;
    SameTexts(src, insertions, 0);
  }

  lemma SameOffsets<T>(src: seq<T>, s: seq<Insertion<T>>, t: seq<Insertion<T>>)
    requires multiset(s) == multiset(t) && forall i :: 0 <= i < |s| ==> s[i].at <= |src|
    ensures forall i :: 0 <= i < |t| ==> t[i].at <= |src|
  {
    forall i | 0 <= i < |t|
      ensures t[i].at <= |src|
    {
      assert t[i] in multiset(t);
    }
  }

  lemma {:induction false} WeaveNothing<T>(src: seq<T>, p: nat)
    requires p <= |src|
    ensures Weave(src, [], p) == src[p..]
    decreases |src| - p
  {
    if p < |src| {
      WeaveNothing(src, p + 1);
    }
  }

  lemma {:induction false} NoTexts<T>(s: seq<Insertion<T>>, p: nat)
    requires forall i :: 0 <= i < |s| ==> s[i].at != p
    ensures TextsAt(s, p) == []
  {
    if s != [] {
      NoTexts(s[..|s| - 1], p);
    }
  }

  lemma WeaveStep<T>(src: seq<T>, s: seq<Insertion<T>>, p: nat)
    requires p < |src|
    ensures Weave(src, s, p) == TextsAt(s, p) + ([src[p]] + Weave(src, s, p + 1))
  {
  }

  lemma WeaveQuiet<T>(src: seq<T>, s: seq<Insertion<T>>, p: nat)
    requires p < |src| && TextsAt(s, p) == []
    ensures Weave(src, s, p) == [src[p]] + Weave(src, s, p + 1)
  {
    hide TextsAt;
  }

  // Before every insertion the woven text is the source.
  lemma {:induction false} WeaveBefore<T>(src: seq<T>, s: seq<Insertion<T>>, p: nat, q: nat)
    requires p <= q <= |src| && forall i :: 0 <= i < |s| ==> s[i].at >= q
    ensures Weave(src, s, p) == src[p..q] + Weave(src, s, q)
    decreases q - p
  {
    hide Weave, TextsAt;
    if p < q {
      NoTexts(s, p);
      WeaveQuiet(src, s, p);
      WeaveBefore(src, s, p + 1, q);
      assert src[p..q] == [src[p]] + src[p + 1..q];
      Assoc([src[p]], src[p + 1..q], Weave(src, s, q));
    }
  }

  // An insertion at or before the others goes in at its own offset.
  lemma WeaveOneMore<T>(src: seq<T>, s: seq<Insertion<T>>, x: Insertion<T>)
    requires x.at <= |src| && forall i :: 0 <= i < |s| ==> s[i].at >= x.at
    ensures var code := Weave(src, s, 0);
      x.at <= |code| && Weave(src, s + [x], 0) == code[..x.at] + x.text + code[x.at..]
  {
    hide Weave;
    WeaveBefore(src, s, 0, x.at);
    WeaveBefore(src, s + [x], 0, x.at);
    WeaveAtOnce(src, s, x);
    Assoc(src[0..x.at], x.text, Weave(src, s, x.at));
    var code := Weave(src, s, 0);
    assert code[..x.at] == src[0..x.at] && code[x.at..] == Weave(src, s, x.at);
  }

  lemma TextsOneMore<T>(s: seq<Insertion<T>>, x: Insertion<T>, p: nat)
    ensures TextsAt(s + [x], p) == (if x.at == p then x.text else []) + TextsAt(s, p)
  {
    assert (s + [x])[..|s|] == s;
  }

  lemma WeaveAtOnce<T>(src: seq<T>, s: seq<Insertion<T>>, x: Insertion<T>)
    requires x.at <= |src|
    ensures Weave(src, s + [x], x.at) == x.text + Weave(src, s, x.at)
  {
    hide TextsAt;
    TextsOneMore(s, x, x.at);
    if x.at < |src| {
      WeaveAfter(src, s, x, x.at + 1);
      Assoc(x.text, TextsAt(s, x.at), [src[x.at]] + Weave(src, s, x.at + 1));
    }
  }

  lemma {:induction false} WeaveAfter<T>(src: seq<T>, s: seq<Insertion<T>>, x: Insertion<T>, p: nat)
    requires x.at < p <= |src|
    ensures Weave(src, s + [x], p) == Weave(src, s, p)
    decreases |src| - p
  {
    hide TextsAt;
    TextsOneMore(s, x, p);
    assert [] + TextsAt(s, p) == TextsAt(s, p);
    if p < |src| {
      WeaveAfter(src, s, x, p + 1);
    }
  }

  // Only the order among insertions at one offset matters, and sorting keeps it.
  lemma {:induction false} SameTexts<T>(src: seq<T>, s: seq<Insertion<T>>, p: nat)
    requires p <= |src|
    ensures Weave(src, SortDescending(s), p) == Weave(src, s, p)
    decreases |src| - p
  {
    hide SortDescending, TextsAt, AtOffset, Descending;
    SortsStably(s, p);
    TextsAtOffset(s, p);
    TextsAtOffset(SortDescending(s), p);
    if p < |src| {
      SameTexts(src, s, p + 1);
    }
  }

  lemma {:induction false} TextsAtOffset<T>(s: seq<Insertion<T>>, p: nat)
    ensures TextsAt(s, p) == TextsAt(AtOffset(s, p), p)
  {
    if s != [] {
      var n := |s| - 1;
      TextsAtOffset(s[..n], p);
      var before := AtOffset(s[..n], p);
      if s[n].at == p {
        assert (before + [s[n]])[..|before|] == before;
      } else {
        assert AtOffset(s, p) == before;
      }
    }
  }
}
