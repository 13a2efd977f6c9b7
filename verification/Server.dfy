/**
 The sync server's library: it keeps one version of each key, and of a push
 takes up what wins over what it has.
 */
module Server {
  import opened Wrappers
  import opened Stamps
  import opened Replica
  import opened Outcomes
  import opened Convergence

  // The keys that a push deletes for good.
  function Retiring(page: seq<Change>): set<Key> {
    set c | c in page && IsHardDelete(c.key, c.value) :: c.key
  }

  predicate IsSuppressed(t: Tables, retiring: set<Key>, c: Change) {
    && !IsHardDelete(c.key, c.value)
    && (c.key in t.retired || exists p <- Parents(c.key) :: p in t.retired || p in retiring)
  }

  function Decide(t: Tables, c: Change): Decision {
    if c.key in t.units then Compare(t.units[c.key], Version(c.stamp, c.value)) else ApplyRemote
  }

  predicate Wins(t: Tables, retiring: set<Key>, c: Change) {
    && !IsSuppressed(t, retiring, c)
    && (Decide(t, c).ApplyRemote? || (IsHardDelete(c.key, c.value) && c.key !in t.retired))
  }

  // Two values under one stamp: against any change pushed before, or the unit.
  predicate IsIntegral(t: Tables, versions: set<Change>, c: Change) {
    && (forall d <- versions :: d.key == c.key && d.stamp == c.stamp ==> d.value == c.value)
    && !Decide(t, c).Conflict?
  }

  predicate AllIntegral(t: Tables, versions: set<Change>, page: seq<Change>) {
    forall i :: 0 <= i < |page| ==> IsIntegral(t, versions, page[i])
  }

  function Winners(t: Tables, retiring: set<Key>, page: seq<Change>): seq<Change> {
    if page == [] then []
    else (if Wins(t, retiring, page[0]) then [page[0]] else []) + Winners(t, retiring, page[1..])
  }

  // A winner takes its key's place.  What belongs to a deleted key goes, but for
  // keys that are retired themselves.
  function Take(t: Tables, c: Change): Tables {
    var units := t.units[c.key := Version(c.stamp, c.value)];
    if !IsHardDelete(c.key, c.value) then t.(units := units)
    else
      var retired := t.retired + {c.key};
      t.(units := map x | x in units && (c.key !in Parents(x) || x in retired) :: units[x], retired := retired)
  }

  function TakeAll(t: Tables, winners: seq<Change>): Tables
    decreases |winners|
  {
    if winners == [] then t else TakeAll(Take(t, winners[0]), winners[1..])
  }

  ghost function ChangesOf(page: seq<Change>): set<Change> {
    set c | c in page
  }

  // What the server keeps; `versions` is every change ever pushed, taken up or not.
  datatype Holding = Holding(tables: Tables, versions: set<Change>)

  const NOTHING_HELD: Holding := Holding(NO_TABLES, {})

  // None where two values meet under one stamp.
  ghost function PushOn(l: Holding, page: seq<Change>): Option<Holding> {
    if !AllIntegral(l.tables, l.versions, page) then None
    else Some(Holding(TakeAll(l.tables, Winners(l.tables, Retiring(page), page)), l.versions + ChangesOf(page)))
  }

  class Library {
    var tables: Tables
    var versions: set<Change>

    constructor ()
      ensures Value() == NOTHING_HELD
    {
      tables, versions := NO_TABLES, {};
    }

    ghost function Value(): Holding
      reads this
    {
      Holding(tables, versions)
    }

    // push_at, without its checks of the device, the clock and the format: the
    // winners are found first, then all are taken up in one transaction.
    method Push(page: seq<Change>) returns (failed: bool)
      modifies this
      ensures var pushed := PushOn(old(Value()), page);
        failed == pushed.None? && Value() == if failed then old(Value()) else pushed.value
      ensures versions == if failed then old(versions) else old(versions) + (set c | c in page)
    {
      hide Winners, TakeAll;
      var winners;
      failed, winners := Select(page);
      if !failed {
        TakeUp(winners);
        versions := versions + (set c | c in page);
      }
    }

    method Select(page: seq<Change>) returns (failed: bool, winners: seq<Change>)
      ensures failed <==> !AllIntegral(tables, versions, page)
      ensures !failed ==> winners == Winners(tables, Retiring(page), page)
    {
      hide Wins, IsIntegral;
      var retiring := Retiring(page);
      winners := [];
      for i := 0 to |page|
        invariant forall j :: 0 <= j < i ==> IsIntegral(tables, versions, page[j])
        invariant winners + Winners(tables, retiring, page[i..]) == Winners(tables, retiring, page)
      {
        if !IsIntegral(tables, versions, page[i]) {
          return true, [];
        }
        assert page[i..][1..] == page[i + 1..];
        if Wins(tables, retiring, page[i]) {
          winners := winners + [page[i]];
        }
      }
      failed := false;
    }

    method TakeUp(winners: seq<Change>)
      modifies this
      ensures tables == TakeAll(old(tables), winners) && versions == old(versions)
    {
      hide Take;
      var tx := tables;
      for i := 0 to |winners|
        invariant TakeAll(tx, winners[i..]) == TakeAll(tables, winners)
        invariant tables == old(tables) && versions == old(versions)
      {
        assert winners[i..][1..] == winners[i + 1..];
        tx := Take(tx, winners[i]);
      }
      tables := tx;
    }
  }

  // ----- A push keeps the library faithful to all that was pushed -----

  ghost predicate DistinctKeys(page: seq<Change>) {
    forall i, j :: 0 <= i < j < |page| ==> page[i].key != page[j].key
  }

  ghost predicate HasKey(page: seq<Change>, k: Key) {
    exists c :: c in page && c.key == k
  }

  lemma {:induction false} WinnersAre(t: Tables, retiring: set<Key>, page: seq<Change>)
    requires DistinctKeys(page)
    ensures var w := Winners(t, retiring, page);
      DistinctKeys(w) && forall c :: c in w <==> c in page && Wins(t, retiring, c)
  {
    hide Wins;
    if page != [] {
      WinnersAre(t, retiring, page[1..]);
      var rest := Winners(t, retiring, page[1..]);
      assert forall c :: c in page <==> c == page[0] || c in page[1..];
      assert forall i :: 0 <= i < |rest| ==> rest[i] in page[1..];
      forall i | 0 <= i < |rest|
        ensures rest[i].key != page[0].key
      {
        var j :| 0 <= j < |page[1..]| && page[1..][j] == rest[i];
        assert page[j + 1] == rest[i];
      }
    }
  }

  // `t'` is `t` with the winners taken up: other keys, unless they come under a
  // retired owner, stay as they were.
  ghost predicate HasTaken(t: Tables, t': Tables, w: seq<Change>) {
    && t'.retired == t.retired + Retiring(w)
    && (forall k :: k in t'.units ==>
          (k in t.units && t'.units[k] == t.units[k]) || Change(k, t'.units[k].stamp, t'.units[k].value) in w)
    && (forall c :: c in w && !IsMasked(t', c.key) ==>
          c.key in t'.units && t'.units[c.key] == Version(c.stamp, c.value))
    && (forall k :: !IsMasked(t', k) && !HasKey(w, k) ==> SameUnit(t, t', k))
  }

  lemma {:induction false} TakeAllIs(t: Tables, w: seq<Change>)
    requires DistinctKeys(w)
    ensures HasTaken(t, TakeAll(t, w), w)
    decreases |w|
  {
    hide Take, IsMasked;
    if w != [] {
      TakeAllIs(Take(t, w[0]), w[1..]);
      TakeThen(t, Take(t, w[0]), TakeAll(t, w), w);
    } else {
      assert forall k :: SameUnit(t, t, k);
    }
  }

  lemma TakeThen(t: Tables, next: Tables, t': Tables, w: seq<Change>)
    requires DistinctKeys(w) && w != [] && next == Take(t, w[0]) && HasTaken(next, t', w[1..])
    ensures HasTaken(t, t', w)
  {
    hide Take, IsMasked, HasKey;
    var c, rest := w[0], w[1..];
    assert forall d :: d in w <==> d == c || d in rest;
    assert Retiring(w) == (if IsHardDelete(c.key, c.value) then {c.key} else {}) + Retiring(rest);
    TakeIs(t, c);
    NotAgain(w);
    forall k | !IsMasked(t', k)
      ensures k != c.key ==> SameUnit(t, next, k)
    {
      OwnersAreKept(t', k, c.key);
    }
    forall k | k != c.key
      ensures HasKey(w, k) <==> HasKey(rest, k)
    {
      OtherKeys(w, k);
    }
    OwnKey(w);
  }

  // Taking one change up changes only its key and what belongs to a deleted one.
  lemma TakeIs(t: Tables, c: Change)
    ensures var next := Take(t, c);
      && next.retired == t.retired + (if IsHardDelete(c.key, c.value) then {c.key} else {})
      && c.key in next.units && next.units[c.key] == Version(c.stamp, c.value)
      && (forall k :: k != c.key && k in next.units ==> k in t.units && next.units[k] == t.units[k])
      && forall k :: k != c.key && !(IsHardDelete(c.key, c.value) && c.key in Parents(k)) ==> SameUnit(t, next, k)
  {
    assert c.key !in Parents(c.key);
  }

  // What goes are the keys of a deleted owner that are not retired themselves.
  lemma TakeRemoves(t: Tables, c: Change, k: Key)
    requires k in t.units && k != c.key
    ensures k !in Take(t, c).units <==>
      IsExistence(c.key) && c.value.Deleted? && c.key in Parents(k) && k !in t.retired
  {
  }

  lemma OwnersAreKept(t: Tables, k: Key, p: Key)
    requires !IsMasked(t, k)
    ensures p in t.retired ==> p !in Parents(k)
  {
  }

  lemma OtherKeys(w: seq<Change>, k: Key)
    requires w != [] && k != w[0].key
    ensures HasKey(w, k) <==> HasKey(w[1..], k)
  {
    assert forall d :: d in w <==> d == w[0] || d in w[1..];
  }

  lemma OwnKey(w: seq<Change>)
    requires w != []
    ensures HasKey(w, w[0].key)
  {
    assert w[0] in w;
  }

  lemma NotAgain(w: seq<Change>)
    requires w != [] && DistinctKeys(w)
    ensures !HasKey(w[1..], w[0].key)
  {
  }

  lemma NotMaskedBefore(t: Tables, t': Tables, k: Key)
    requires t.retired <= t'.retired && !IsMasked(t', k)
    ensures !IsMasked(t, k)
  {
  }

  // Every key that the push deletes ends up retired, so what is suppressed for
  // the sake of an owner comes under a retired one.
  lemma NotSuppressedByOwner(t: Tables, page: seq<Change>, t': Tables, c: Change)
    requires DistinctKeys(page) && HasTaken(t, t', Winners(t, Retiring(page), page)) && !IsMasked(t', c.key)
    ensures IsSuppressed(t, Retiring(page), c) <==> !IsHardDelete(c.key, c.value) && c.key in t.retired
    ensures Retiring(page) <= t'.retired
  {
    hide Decide, Winners;
    var w := Winners(t, Retiring(page), page);
    WinnersAre(t, Retiring(page), page);
    forall p | p in Retiring(page)
      ensures p in t'.retired
    {
      var d :| d in page && IsHardDelete(d.key, d.value) && d.key == p;
      assert d !in w ==> p in t.retired;
      assert d in w ==> p in Retiring(w);
    }
  }

  // Away from retired owners a change wins exactly when a device would put it in.
  lemma WinsLikeApply(t: Tables, h: set<Change>, c: Change, retiring: set<Key>)
    requires Faithful(t, h) && Agree(h + {c}) && !IsMasked(t, c.key)
    requires IsSuppressed(t, retiring, c) <==> !IsHardDelete(c.key, c.value) && c.key in t.retired
    ensures var r := Apply(t, c);
      var taken := if Wins(t, retiring, c) then Put(t, c.key, Version(c.stamp, c.value), false) else t;
      && r.Some?
      && r.value.units == taken.units && r.value.retired == taken.retired && r.value.rows == taken.rows
  {
    hide Put, Compare, IsMasked, Witnessed;
    WitnessedIsApart(t, {}, c);
    WitnessedIsApart(Put(t, c.key, Version(c.stamp, c.value), false), {}, c);
    NoConflict(t, h, c);
    assert UnitOk(t, h, c.key);
    if IsExistence(c.key) && c.key !in t.retired {
      NotDeletedYet(t, h, c.key);
    }
    assert c.key in t.retired ==> HardDeleted(h, c.key);
  }

  // A change of the push whose key is not under a retired owner then is counted.
  lemma PushedIsCounted(t: Tables, h: set<Change>, page: seq<Change>, t': Tables, c: Change)
    requires Faithful(t, h) && Agree(h + ChangesOf(page)) && DistinctKeys(page) && c in page
    requires HasTaken(t, t', Winners(t, Retiring(page), page)) && !IsMasked(t', c.key)
    ensures HardDeleted(h + {c}, c.key) ==> c.key in t'.retired
    ensures UnitOk(t', h + {c}, c.key)
  {
    hide Known, Apply, Wins, IsSuppressed, Winners, HardDeleted, UnitOk, HasKey;
    var w, k, v := Winners(t, Retiring(page), page), c.key, Version(c.stamp, c.value);
    WinnersAre(t, Retiring(page), page);
    NotMaskedBefore(t, t', k);
    AgreeOnLess(h + ChangesOf(page), h + {c});
    ApplyIsFaithful(t, h, c);
    NotSuppressedByOwner(t, page, t', c);
    WinsLikeApply(t, h, c, Retiring(page));
    var applied := Apply(t, c).value;
    assert !IsMasked(applied, k) by {
      PutPuts(t, c, false);
      assert k !in Parents(k);
    }
    assert UnitOk(applied, h + {c}, k);
    if c !in w {
      OneForAKey(page, c, w);
      assert SameUnit(t, t', k);
    } else {
      assert IsHardDelete(k, c.value) ==> k in Retiring(w);
    }
    UnitIsAll(applied, t', h + {c}, k);
  }

  lemma UnitIsAll(t: Tables, t': Tables, h: set<Change>, k: Key)
    requires SameUnit(t, t', k) && UnitOk(t, h, k)
    ensures UnitOk(t', h, k)
  {
  }

  lemma OneForAKey(page: seq<Change>, c: Change, w: seq<Change>)
    requires DistinctKeys(page) && c in page && c !in w && forall d :: d in w ==> d in page
    ensures !HasKey(w, c.key)
  {
    forall d | d in w
      ensures d.key != c.key
    {
      var i :| 0 <= i < |page| && page[i] == c;
      var j :| 0 <= j < |page| && page[j] == d;
    }
  }

  // Of a deleted owner nothing is kept but what is deleted for good itself.
  ghost predicate IsClean(t: Tables) {
    forall k :: k in t.units && IsMasked(t, k) ==> k in t.retired
  }

  lemma TakeKeepsClean(t: Tables, c: Change)
    requires IsClean(t) && (IsHardDelete(c.key, c.value) || !IsMasked(t, c.key))
    ensures IsClean(Take(t, c))
  {
    var next := Take(t, c);
    forall k | k in next.units && IsMasked(next, k)
      ensures k in next.retired
    {
      var p :| p in Parents(k) && p in next.retired;
      assert p in t.retired ==> IsMasked(t, k);
    }
  }

  lemma {:induction false} TakeAllKeepsClean(t: Tables, w: seq<Change>)
    requires IsClean(t)
    requires forall c :: c in w ==> IsHardDelete(c.key, c.value) || Parents(c.key) !! t.retired + Retiring(w)
    ensures IsClean(TakeAll(t, w))
    decreases |w|
  {
    hide Take, IsClean;
    if w != [] {
      TakeIs(t, w[0]);
      TakeKeepsClean(t, w[0]);
      assert Retiring(w[1..]) <= Retiring(w);
      assert IsHardDelete(w[0].key, w[0].value) ==> w[0].key in Retiring(w);
      TakeAllKeepsClean(Take(t, w[0]), w[1..]);
    }
  }

  // A push keeps it so, also of the owners that it deletes.
  lemma PushKeepsClean(t: Tables, page: seq<Change>)
    requires IsClean(t) && DistinctKeys(page)
    ensures IsClean(TakeAll(t, Winners(t, Retiring(page), page)))
  {
    hide Winners, TakeAll, IsClean, Decide;
    var w := Winners(t, Retiring(page), page);
    WinnersAre(t, Retiring(page), page);
    assert Retiring(w) <= Retiring(page);
    TakeAllKeepsClean(t, w);
  }

  // A push of changes that agree with all before never fails, and the library
  // shows then what they determine together.
  lemma PushIsFaithful(t: Tables, h: set<Change>, page: seq<Change>)
    requires Faithful(t, h) && Agree(h + ChangesOf(page)) && DistinctKeys(page)
    ensures AllIntegral(t, h, page)
    ensures Faithful(TakeAll(t, Winners(t, Retiring(page), page)), h + ChangesOf(page))
  {
    hide Winners, TakeAll, IsMasked, Compare, Take;
    var w, h' := Winners(t, Retiring(page), page), h + ChangesOf(page);
    var t' := TakeAll(t, w);
    WinnersAre(t, Retiring(page), page);
    TakeAllIs(t, w);
    PushIsIntegral(t, h, page);
    PushIsKnown(t, h, page, t');
    forall k | !IsMasked(t', k)
      ensures (HardDeleted(h', k) ==> k in t'.retired) && UnitOk(t', h', k)
    {
      NotMaskedBefore(t, t', k);
      if c :| c in page && c.key == k {
        PushedIsCounted(t, h, page, t', c);
        OneChange(h, page, c);
        SameChanges(h + {c}, h', k);
      } else {
        SameChanges(h, h', k);
        assert SameUnit(t, t', k) && UnitOk(t, h, k);
      }
    }
  }

  lemma OneChange(h: set<Change>, page: seq<Change>, c: Change)
    requires DistinctKeys(page) && c in page
    ensures forall d: Change :: d.key == c.key ==> (d in h + {c} <==> d in h + ChangesOf(page))
  {
    forall d | d in page && d.key == c.key
      ensures d == c
    {
      var i :| 0 <= i < |page| && page[i] == c;
      var j :| 0 <= j < |page| && page[j] == d;
    }
  }

  lemma PushIsIntegral(t: Tables, h: set<Change>, page: seq<Change>)
    requires Known(t, h) && Agree(h + ChangesOf(page))
    ensures AllIntegral(t, h, page)
  {
    hide Compare, Known;
    forall i | 0 <= i < |page|
      ensures IsIntegral(t, h, page[i])
    {
      assert page[i] in h + ChangesOf(page);
      AgreeOnLess(h + ChangesOf(page), h + {page[i]});
      NoConflict(t, h, page[i]);
    }
  }

  // A push fails exactly when one of its changes does not agree with those
  // pushed before, taken up or not.
  lemma PushFailsExactly(t: Tables, h: set<Change>, page: seq<Change>)
    requires Known(t, h) && Agree(h)
    ensures AllIntegral(t, h, page) <==> forall i :: 0 <= i < |page| ==> Agree(h + {page[i]})
  {
    hide Known, Compare;
    forall i | 0 <= i < |page|
      ensures IsIntegral(t, h, page[i]) <==> Agree(h + {page[i]})
    {
      if Agree(h + {page[i]}) {
        NoConflict(t, h, page[i]);
      }
    }
  }

  lemma PushIsKnown(t: Tables, h: set<Change>, page: seq<Change>, t': Tables)
    requires Known(t, h) && DistinctKeys(page) && HasTaken(t, t', Winners(t, Retiring(page), page))
    ensures Known(t', h + ChangesOf(page))
  {
    hide Winners, Wins;
    var w, h' := Winners(t, Retiring(page), page), h + ChangesOf(page);
    WinnersAre(t, Retiring(page), page);
    forall k | k in t'.retired
      ensures HardDeleted(h', k)
    {
      if k in t.retired {
        HardDeletedGrows(h, h', k);
      } else {
        var d :| d in w && IsHardDelete(d.key, d.value) && d.key == k;
        assert d in h';
      }
    }
  }
}
