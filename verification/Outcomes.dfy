/**
 What a commit, a received change and a pass over the rows leave, key by key
 and row by row.
 */
module Outcomes {
  import opened Wrappers
  import opened Stamps
  import opened Replica

  // ----- A commit writes what is edited -----

  ghost predicate DistinctEdits(edits: seq<Edit>) {
    forall i, j :: 0 <= i < j < |edits| ==> edits[i].key != edits[j].key
  }

  // One of the edits deletes an owner of the key for good.
  ghost predicate DeletesOwner(edits: seq<Edit>, k: Key) {
    exists i :: 0 <= i < |edits| && edits[i].key in Parents(k) && edits[i].value.Deleted?
  }

  // The edit changes what is here: the unit's value or, with no unit, the library's.
  ghost predicate Changes(t: Tables, e: Edit) {
    if e.key in t.units then t.units[e.key].value != e.value else e.before != e.value
  }

  // The key's unit is what the edit makes, queued as that, and recorded; or where
  // it changes nothing, what it was, and nothing is recorded.
  ghost predicate IsWritten(t: Tables, e: Edit, s: Stamp, t': Tables, w: set<Change>, w': set<Change>) {
    if Changes(t, e) then
      && e.key in t'.units && t'.units[e.key] == Version(s, e.value)
      && e.key in t'.outbox && t'.outbox[e.key] == Version(s, e.value)
      && Change(e.key, s, e.value) in w'
    else
      SameUnit(t, t', e.key) && forall c :: c in w' && c.key == e.key ==> c in w
  }

  ghost predicate SameUnit(t: Tables, t': Tables, k: Key) {
    (k in t'.units <==> k in t.units) && (k in t.units ==> t'.units[k] == t.units[k])
  }

  // An edit of another key, which deletes no owner of this one, leaves the unit
  // and whether it is retired; what is queued for it is as it was or the unit.
  lemma WriteOneElsewhere(t: Tables, e: Edit, s: Stamp, k: Key)
    requires e.key != k && !(e.key in Parents(k) && e.value.Deleted?)
    ensures var t' := WriteOne(t, e, s);
      && SameUnit(t, t', k) && (IsRetired(t', k) <==> IsRetired(t, k))
      && (k in t.outbox && k in t.units && t.outbox[k] == t.units[k] ==>
            k in t'.outbox && t'.outbox[k] == t.units[k])
  {
    hide Put, Requeued, IsRetired, IsMasked;
    assert e.key in Parents(k) ==> IsExistence(e.key);
    var put := Put(t, e.key, Version(s, e.value), true);
    PutElsewhere(t, e.key, Version(s, e.value), k);
    RequeuedElsewhere(put, Parents(e.key) + e.names, k);
    assert SameUnit(t, t, k);
  }

  lemma PutElsewhere(t: Tables, key: Key, v: Version, k: Key)
    requires key != k && !(key in Parents(k) && v.value.Deleted?)
    ensures var t' := Put(t, key, v, true);
      && SameUnit(t, t', k) && (IsRetired(t', k) <==> IsRetired(t, k))
      && (k in t.outbox ==> k in t'.outbox && t'.outbox[k] == t.outbox[k])
  {
    hide Suppressed;
  }

  lemma RequeuedElsewhere(t: Tables, owners: set<Key>, k: Key)
    ensures var t' := Requeued(t, owners);
      && t'.units == t.units && (IsRetired(t', k) <==> IsRetired(t, k))
      && (k in t.outbox ==>
            k in t'.outbox && (t'.outbox[k] == t.outbox[k] || (k in t.units && t'.outbox[k] == t.units[k])))
  {
    hide IsOwed;
  }

  lemma {:induction false} WriteAllElsewhere(t: Tables, edits: seq<Edit>, s: Stamp, k: Key)
    requires forall i :: 0 <= i < |edits| ==> edits[i].key != k
    requires !DeletesOwner(edits, k)
    ensures var t' := WriteAll(t, edits, s);
      && SameUnit(t, t', k) && (IsRetired(t', k) <==> IsRetired(t, k))
      && (k in t.outbox && k in t.units && t.outbox[k] == t.units[k] ==>
            k in t'.outbox && t'.outbox[k] == t.units[k])
    ensures forall c :: c in Recorded(t, edits, s) ==> c.key != k
    decreases |edits|
  {
    hide WriteOne, IsRetired, Shown;
    if edits != [] {
      WriteOneElsewhere(t, edits[0], s, k);
      FewerDelete(edits, k);
      WriteAllElsewhere(WriteOne(t, edits[0], s), edits[1..], s, k);
    }
  }

  lemma FewerDelete(edits: seq<Edit>, k: Key)
    requires edits != [] && !DeletesOwner(edits, k)
    ensures !DeletesOwner(edits[1..], k)
  {
  }

  lemma WriteOneWrites(t: Tables, e: Edit, s: Stamp)
    requires !IsRetired(t, e.key)
    ensures var recorded := if Changes(t, e) then {Change(e.key, s, e.value)} else {};
      IsWritten(t, e, s, WriteOne(t, e, s), {}, recorded) && Recorded(t, [e], s) == recorded
  {
    hide Suppressed;
    assert e.key !in Parents(e.key);
    assert [e][1..] == [];
  }

  // Every edit of a key that is not retired, and whose owners the commit leaves,
  // is written, queued and recorded under the stamp, if it changes anything.
  lemma {:induction false} CommitWritesEdits(t: Tables, edits: seq<Edit>, s: Stamp, i: nat)
    requires DistinctEdits(edits) && i < |edits|
    requires !IsRetired(t, edits[i].key) && !DeletesOwner(edits, edits[i].key)
    ensures IsWritten(t, edits[i], s, WriteAll(t, edits, s), {}, Recorded(t, edits, s))
    decreases |edits|
  {
    hide WriteOne, IsRetired, Shown;
    var e, next := edits[0], WriteOne(t, edits[0], s);
    FewerDelete(edits, edits[i].key);
    if i > 0 {
      assert edits[1..][i - 1] == edits[i];
      WriteOneElsewhere(t, e, s, edits[i].key);
      CommitWritesEdits(next, edits[1..], s, i - 1);
    } else {
      WriteOneWrites(t, e, s);
      WriteAllElsewhere(next, edits[1..], s, e.key);
      RecordedFirst(t, edits, s);
    }
  }

  // What a commit promises of its edits, of keys not retired whose owners it leaves.
  ghost predicate EditsAreWritten(
    t: Tables, edits: seq<Edit>, s: Stamp, t': Tables, w: set<Change>, w': set<Change>)
  {
    forall i :: 0 <= i < |edits| && !IsRetired(t, edits[i].key) && !DeletesOwner(edits, edits[i].key) ==>
      IsWritten(t, edits[i], s, t', w, w')
  }

  lemma AllEditsAreWritten(t: Tables, edits: seq<Edit>, s: Stamp, w: set<Change>)
    requires DistinctEdits(edits)
    ensures EditsAreWritten(t, edits, s, WriteAll(t, edits, s), w, w + Recorded(t, edits, s))
  {
    hide IsRetired;
    forall i | 0 <= i < |edits| && !IsRetired(t, edits[i].key) && !DeletesOwner(edits, edits[i].key)
      ensures IsWritten(t, edits[i], s, WriteAll(t, edits, s), w, w + Recorded(t, edits, s))
    {
      CommitWritesEdits(t, edits, s, i);
    }
  }

  lemma RecordedFirst(t: Tables, edits: seq<Edit>, s: Stamp)
    requires edits != []
    ensures Recorded(t, edits, s) == Recorded(t, [edits[0]], s) + Recorded(WriteOne(t, edits[0], s), edits[1..], s)
  {
    hide WriteOne, IsRetired, Shown;
    assert [edits[0]][1..] == [];
  }

  // What a retired key is edited to is not written.
  lemma {:induction false} RetiredIsNotWritten(t: Tables, edits: seq<Edit>, s: Stamp, k: Key)
    requires IsRetired(t, k)
    ensures forall c :: c in Recorded(t, edits, s) ==> c.key != k
    decreases |edits|
  {
    hide Shown;
    if edits != [] {
      RetiredStays(t, edits[0], s, k);
      RetiredIsNotWritten(WriteOne(t, edits[0], s), edits[1..], s, k);
    }
  }

  lemma RetiredStays(t: Tables, e: Edit, s: Stamp, k: Key)
    requires IsRetired(t, k)
    ensures IsRetired(WriteOne(t, e, s), k)
  {
    hide Suppressed;
  }

  // ----- A received change -----

  // What belongs to a key that is deleted for good goes: its units, what is
  // queued of it, and its rows, which are done.  All else stays.
  ghost predicate Cleared(t: Tables, t': Tables, owner: Key) {
    && owner in t'.retired
    && (forall x :: owner in Parents(x) ==> x !in t'.units && x !in t'.outbox)
    && |t'.rows| == |t.rows|
    && (forall i :: 0 <= i < |t.rows| && owner in Parents(t.rows[i].change.key) ==>
          t'.rows[i] == Row(t.rows[i].change, Done))
  }

  // Away from the key and from what belongs to it.
  ghost predicate SameElsewhere(t: Tables, t': Tables, k: Key, owns: bool) {
    && (forall x :: x != k && !(owns && k in Parents(x)) ==>
          SameUnit(t, t', x) && (x in t'.retired <==> x in t.retired)
          && (x in t'.outbox <==> x in t.outbox) && (x in t.outbox ==> t'.outbox[x] == t.outbox[x]))
    && |t'.rows| == |t.rows|
    && (forall i :: 0 <= i < |t.rows| && !(owns && k in Parents(t.rows[i].change.key)) ==> t'.rows[i] == t.rows[i])
  }

  // A change under a retired key is skipped, unless it deletes the key for good.
  ghost predicate IsSkipped(t: Tables, c: Change) {
    && !(IsExistence(c.key) && c.value.Deleted?)
    && (c.key in t.retired || exists p :: p in Parents(c.key) && p in t.retired)
  }

  // Applying fails exactly where a change that is not skipped meets another
  // value under its stamp.
  lemma ConflictIsRaised(t: Tables, c: Change)
    ensures Apply(t, c).None? <==>
      && !IsSkipped(t, c) && c.key in t.units
      && t.units[c.key].stamp == c.stamp && t.units[c.key].value != c.value
  {
    hide Put, Witnessed;
    if c.key in t.units {
      BeforeIsTotal(t.units[c.key].stamp, c.stamp);
    }
  }

  // The change replaces what is here if it is later, or deletes for good what is not deleted.
  ghost predicate TakesPlace(t: Tables, c: Change) {
    || c.key !in t.units || Before(t.units[c.key].stamp, c.stamp)
    || (IsExistence(c.key) && c.value.Deleted? && !t.units[c.key].value.Deleted?)
  }

  // What putting a version in does, key by key.
  ghost predicate TookPlace(t: Tables, t': Tables, c: Change) {
    var deletes := IsExistence(c.key) && c.value.Deleted?;
    && c.key in t'.units && t'.units[c.key] == Version(c.stamp, c.value) && c.key !in t'.outbox
    && (c.key in t'.retired <==> deletes || c.key in t.retired)
    && SameElsewhere(t, t', c.key, deletes) && (deletes ==> Cleared(t, t', c.key))
  }

  lemma PutTakesPlace(t: Tables, c: Change)
    ensures TookPlace(t, Put(t, c.key, Version(c.stamp, c.value), false), c)
  {
    assert c.key !in Parents(c.key);
  }

  lemma WitnessedTakesPlace(t: Tables, t': Tables, c: Change)
    requires TookPlace(t, t', c)
    ensures TookPlace(t, Witnessed(t', c.key, Version(c.stamp, c.value)), c)
  {
    var w := Witnessed(t', c.key, Version(c.stamp, c.value));
    assert forall x :: SameUnit(t, t', x) ==> SameUnit(t, w, x);
  }

  // A change that does not take its key's place leaves everything but, if it is
  // the unit that came back, the queue of the key.
  ghost predicate LeftAlone(t: Tables, t': Tables, c: Change) {
    && t' == t.(outbox := t'.outbox, published := t'.published) && SameElsewhere(t, t', c.key, false)
    && c.key in t.units
    && (if t.units[c.key] == Version(c.stamp, c.value)
        then !(c.key in t'.outbox && t'.outbox[c.key] == Version(c.stamp, c.value))
        else t' == t)
  }

  lemma WitnessedLeavesAlone(t: Tables, c: Change)
    requires c.key in t.units
    ensures LeftAlone(t, Witnessed(t, c.key, Version(c.stamp, c.value)), c)
  {
  }

  // What applying a change does: to its own key, to what belongs to it if that
  // is deleted for good, and to nothing else.
  lemma AppliedChangeIs(t: Tables, c: Change)
    requires Apply(t, c).Some?
    ensures var t' := Apply(t, c).value;
      if IsSkipped(t, c) then t' == t else if TakesPlace(t, c) then TookPlace(t, t', c) else LeftAlone(t, t', c)
  {
    hide Put, Witnessed, TookPlace, LeftAlone;
    var put := Put(t, c.key, Version(c.stamp, c.value), false);
    PutTakesPlace(t, c);
    WitnessedTakesPlace(t, put, c);
    if c.key in t.units {
      WitnessedLeavesAlone(t, c);
      BeforeIsTotal(t.units[c.key].stamp, c.stamp);
    }
  }

  // A change that is the unit, by being put in or by having come back, is known
  // to be published.
  lemma AppliedIsPublished(t: Tables, c: Change)
    requires Apply(t, c).Some? && !IsSkipped(t, c)
    ensures var t', v := Apply(t, c).value, Version(c.stamp, c.value);
      c.key in t'.units && t'.units[c.key] == v ==> c.key in t'.published && t'.published[c.key] == v
  {
    hide Put;
  }

  // ----- The queue -----

  // The owners that are here and not retired are queued as they are, or known to
  // be published so; with one never queued before, all its parts.  All else of
  // the queue stays.
  lemma RequeuedIs(t: Tables, owners: set<Key>)
    ensures var t' := Requeued(t, owners);
      && t' == t.(outbox := t'.outbox, started := t'.started)
      && (forall p :: p in owners && p in t.units && !IsRetired(t, p) ==>
            p in t'.started && PublishedOrQueued(t', p))
      && (forall p, k :: p in owners && IsNew(t, p) && k in t.units && !IsRetired(t, k) && IsPartOf(k, {p}) ==>
            PublishedOrQueued(t', k))
      && (forall k :: k in t'.outbox ==>
            || (k in t.outbox && t'.outbox[k] == t.outbox[k])
            || (k in t.units && t'.outbox[k] == t.units[k]))
      && (forall k :: k in t.outbox ==> k in t'.outbox)
  {
    hide IsMasked;
    forall p, k | p in owners && IsNew(t, p) && k in t.units && !IsRetired(t, k) && IsPartOf(k, {p})
      ensures PublishedOrQueued(Requeued(t, owners), k)
    {
      var here := set q | q in owners && q in t.units && q !in t.retired;
      assert p in here - t.started && IsPartOf(k, here - t.started);
    }
  }

  ghost predicate IsNew(t: Tables, p: Key) {
    p in t.units && p !in t.retired && p !in t.started
  }

  ghost predicate PublishedOrQueued(t: Tables, k: Key) {
    k in t.units &&
    ((k in t.published && t.published[k] == t.units[k]) || (k in t.outbox && t.outbox[k] == t.units[k]))
  }

  // The parts of an owner are the keys whose own owner it is; existences are
  // queued for themselves.
  lemma PartsAreOwned(k: Key, p: Key)
    ensures IsPartOf(k, {p}) <==>
      && !IsExistence(k) && p in Parents(k) && forall q :: q in Parents(k) && q != p ==> q in Parents(p)
  {
  }

  // ----- Staged pages -----

  lemma {:induction false} StagedIs(t: Tables, page: seq<Change>)
    ensures Staging(t, page) == t.(rows := t.rows + seq(|page|, i requires 0 <= i < |page| => Row(page[i], Staged)))
    decreases |page|
  {
    var rows := seq(|page|, i requires 0 <= i < |page| => Row(page[i], Staged));
    if page == [] {
      assert t.rows + rows == t.rows;
    } else {
      var row, rest := Row(page[0], Staged), page[1..];
      StagedIs(t.(rows := t.rows + [row]), rest);
      var more := seq(|rest|, i requires 0 <= i < |rest| => Row(rest[i], Staged));
      assert t.rows + [row] + more == t.rows + rows;
    }
  }

  // ----- A pass -----

  // Retirement stays, and units but for what comes under a retired owner.
  ghost predicate Onward(t: Tables, t': Tables) {
    && t.retired <= t'.retired && |t'.rows| == |t.rows|
    && (forall x :: x in t.units ==> x in t'.units || IsMasked(t', x))
    && (forall i :: 0 <= i < |t.rows| ==> t'.rows[i].change == t.rows[i].change)
  }

  // A row that is not taken up stays as it is, unless its key comes under a
  // retired owner: then it is done.
  ghost predicate RowStays(t: Tables, t': Tables, i: nat)
    requires i < |t.rows| == |t'.rows|
  {
    var k := t.rows[i].change.key;
    && (t'.rows[i] == t.rows[i] || (IsMasked(t', k) && t'.rows[i].status.Done?))
    && (IsMasked(t', k) && !IsMasked(t, k) ==> t'.rows[i].status.Done?)
  }

  lemma ApplyOnward(t: Tables, c: Change)
    requires Apply(t, c).Some?
    ensures Onward(t, Apply(t, c).value)
    ensures forall i :: 0 <= i < |t.rows| ==> RowStays(t, Apply(t, c).value, i)
    ensures IsMasked(Apply(t, c).value, c.key) <==> IsMasked(t, c.key)
  {
    hide Apply, Suppressed, Compare, Without;
    AppliedChangeIs(t, c);
    var t', deletes := Apply(t, c).value, IsExistence(c.key) && c.value.Deleted?;
    RetiredOnce(t, c);
    assert c.key !in Parents(c.key);
    forall x | x in t.units && x !in t'.units
      ensures IsMasked(t', x)
    {
      assert deletes && c.key in Parents(x) && c.key in t'.retired by {
        assert TakesPlace(t, c) && !IsSkipped(t, c);
        assert SameElsewhere(t, t', c.key, deletes);
        assert SameUnit(t, t', x) || x == c.key || (deletes && c.key in Parents(x));
      }
    }
    forall i | 0 <= i < |t.rows|
      ensures RowStays(t, t', i) && t'.rows[i].change == t.rows[i].change
    {
      var k := t.rows[i].change.key;
      if IsMasked(t', k) && !IsMasked(t, k) {
        var p :| p in Parents(k) && p in t'.retired;
        assert p == c.key;
      }
    }
  }

  lemma RetiredOnce(t: Tables, c: Change)
    requires Apply(t, c).Some?
    ensures t.retired <= Apply(t, c).value.retired <= t.retired + {c.key}
    ensures c.key in Apply(t, c).value.retired && c.key !in t.retired ==>
      !IsSkipped(t, c) && TakesPlace(t, c) && IsExistence(c.key) && c.value.Deleted?
  {
    hide Suppressed;
    if c.key in t.units {
      BeforeIsTotal(t.units[c.key].stamp, c.stamp);
    }
  }

  lemma MaskedAgain(t: Tables, t': Tables, k: Key)
    requires IsMasked(t, k) && t.retired <= t'.retired
    ensures IsMasked(t', k)
  {
  }

  lemma MaskedByRetired(t: Tables, t': Tables, k: Key)
    requires t.retired == t'.retired
    ensures IsMasked(t, k) <==> IsMasked(t', k)
  {
  }

  // One row taken up.
  lemma ApplyRowIs(t: Tables, i: nat, waits: map<nat, Wait>)
    requires i < |t.rows| && ApplyRow(t, i, waits).Some?
    ensures var t', k := ApplyRow(t, i, waits).value, t.rows[i].change.key;
      && Onward(t, t') && t'.rows[i].status == StatusFor(t, k, i, waits)
      && (IsMasked(t', k) <==> IsMasked(t, k))
      && forall j :: 0 <= j < |t.rows| && j != i ==> RowStays(t, t', j)
  {
    hide Apply, StatusFor, IsMasked;
    var c := t.rows[i].change;
    var t' := ApplyRow(t, i, waits).value;
    if StatusFor(t, c.key, i, waits).Done? {
      ApplyOnward(t, c);
      var applied := Apply(t, c).value;
      forall k
        ensures IsMasked(applied, k) <==> IsMasked(t', k)
      {
        MaskedByRetired(applied, t', k);
      }
      forall j | 0 <= j < |t.rows| && j != i
        ensures RowStays(t, t', j)
      {
        assert RowStays(t, applied, j) && t'.rows[j] == applied.rows[j];
      }
    } else {
      forall k
        ensures IsMasked(t, k) <==> IsMasked(t', k)
      {
        MaskedByRetired(t, t', k);
      }
    }
  }

  lemma OnwardTwice(a: Tables, b: Tables, c: Tables)
    requires Onward(a, b) && Onward(b, c)
    ensures Onward(a, c)
  {
    forall x | x in a.units && x !in c.units
      ensures IsMasked(c, x)
    {
      if IsMasked(b, x) {
        MaskedAgain(b, c, x);
      }
    }
  }

  lemma RowStaysTwice(a: Tables, b: Tables, c: Tables, i: nat)
    requires Onward(a, b) && Onward(b, c) && i < |a.rows| && RowStays(a, b, i) && RowStays(b, c, i)
    ensures RowStays(a, c, i)
  {
    hide IsMasked;
    var k := a.rows[i].change.key;
    if IsMasked(b, k) {
      MaskedAgain(b, c, k);
    }
    if IsMasked(a, k) {
      MaskedAgain(a, b, k);
    }
  }

  lemma {:induction false} PassElsewhere(t: Tables, order: seq<nat>, waits: map<nat, Wait>)
    requires InRange(order, |t.rows|) && Pass(t, order, waits).Some?
    ensures Onward(t, Pass(t, order, waits).value)
    ensures forall i :: 0 <= i < |t.rows| && i !in order ==> RowStays(t, Pass(t, order, waits).value, i)
    decreases |order|
  {
    hide ApplyRow, Onward, RowStays, IsMasked;
    var t' := Pass(t, order, waits).value;
    if order == [] {
      NothingStays(t);
    } else {
      ApplyRowIs(t, order[0], waits);
      var next := ApplyRow(t, order[0], waits).value;
      PassElsewhere(next, order[1..], waits);
      OnwardTwice(t, next, t');
      forall i | 0 <= i < |t.rows| && i !in order
        ensures RowStays(t, t', i)
      {
        RowStaysTwice(t, next, t', i);
      }
    }
  }

  lemma NothingStays(t: Tables)
    ensures Onward(t, t) && forall i :: 0 <= i < |t.rows| ==> RowStays(t, t, i)
  {
    hide IsMasked;
  }

  // What a row that is taken up ends with: done under a deleted owner; else, if
  // its key is not deleted, as it waits or done where all owners were here, and
  // held where one is missing.
  ghost predicate RowOk(t: Tables, t': Tables, i: nat, waits: map<nat, Wait>)
    requires i < |t.rows| == |t'.rows|
  {
    var k, status := t.rows[i].change.key, t'.rows[i].status;
    && t'.rows[i].change == t.rows[i].change
    && (IsMasked(t', k) ==> status.Done?)
    && (!IsMasked(t', k) && k !in t'.retired ==>
          && ((forall p :: p in Parents(k) ==> p in t.units) ==> status == if i in waits then waits[i] else Done)
          && ((exists p :: p in Parents(k) && p !in t'.units) ==> status == Held))
  }

  // An owner that was here still is, unless the key comes under a deleted owner.
  lemma OwnerStays(t: Tables, t': Tables, k: Key, p: Key)
    requires Onward(t, t') && p in Parents(k) && p in t.units && !IsMasked(t', k)
    ensures p in t'.units
  {
    assert forall q :: q in Parents(p) ==> q in Parents(k);
  }

  lemma {:induction false} PassTakesUp(t: Tables, order: seq<nat>, waits: map<nat, Wait>, i: nat)
    requires Distinct(order) && InRange(order, |t.rows|) && i in order && Pass(t, order, waits).Some?
    ensures RowOk(t, Pass(t, order, waits).value, i, waits)
    decreases |order|
  {
    hide ApplyRow, StatusFor, IsMasked;
    var t', next := Pass(t, order, waits).value, ApplyRow(t, order[0], waits).value;
    ApplyRowIs(t, order[0], waits);
    PassElsewhere(next, order[1..], waits);
    var k := t.rows[i].change.key;
    if order[0] == i {
      assert i !in order[1..];
      TurnIs(t, next, t', i, waits);
    } else {
      PassTakesUp(next, order[1..], waits, i);
      if !IsMasked(t', k) && forall p :: p in Parents(k) ==> p in t.units {
        forall p | p in Parents(k)
          ensures p in next.units
        {
          if IsMasked(next, k) {
            MaskedAgain(next, t', k);
          }
          OwnerStays(t, next, k, p);
        }
      }
    }
  }

  // From the row's turn on.
  lemma TurnIs(t: Tables, next: Tables, t': Tables, i: nat, waits: map<nat, Wait>)
    requires Onward(t, next) && Onward(next, t') && i < |t.rows| && RowStays(next, t', i)
    requires next.rows[i].status == StatusFor(t, t.rows[i].change.key, i, waits)
    requires IsMasked(next, t.rows[i].change.key) <==> IsMasked(t, t.rows[i].change.key)
    ensures RowOk(t, t', i, waits)
  {
    hide IsMasked;
    var k := t.rows[i].change.key;
    OnwardTwice(t, next, t');
    if IsMasked(t, k) {
      MaskedAgain(t, next, k);
      MaskedAgain(next, t', k);
    }
    if !IsMasked(t', k) {
      forall p | p in Parents(k) && p in t.units
        ensures p in t'.units
      {
        OwnerStays(t, t', k, p);
      }
    }
  }

  // A pass over the pending rows takes up what was staged or held, and a drain
  // what was deferred; every other row stays.
  lemma PassOverPending(t: Tables, order: seq<nat>, drain: bool, waits: map<nat, Wait>, i: nat)
    requires Selects(t.rows, order, drain) && i < |t.rows| && Pass(t, order, waits).Some?
    ensures var t', status := Pass(t, order, waits).value, t.rows[i].status;
      if status == Staged || status == Held || (status == Deferred && drain) then RowOk(t, t', i, waits)
      else RowStays(t, t', i)
  {
    hide Pass, RowOk, RowStays;
    PassElsewhere(t, order, waits);
    if i in order {
      PassTakesUp(t, order, waits, i);
    }
  }

  // A key all of whose rows wait keeps its unit and what is queued of it, unless
  // an owner of it is deleted.
  lemma {:induction false} WaitingKeyStays(t: Tables, order: seq<nat>, waits: map<nat, Wait>, k: Key)
    requires InRange(order, |t.rows|) && Pass(t, order, waits).Some? && k !in t.retired
    requires forall i :: 0 <= i < |order| && t.rows[order[i]].change.key == k ==> order[i] in waits
    ensures var t' := Pass(t, order, waits).value;
      IsMasked(t', k) || (SameUnit(t, t', k) && k !in t'.retired && SameQueue(t, t', k))
    decreases |order|
  {
    hide ApplyRow, IsMasked;
    if order != [] {
      var next := ApplyRow(t, order[0], waits).value;
      ApplyRowIs(t, order[0], waits);
      OneRowKeeps(t, order[0], waits, k);
      PassElsewhere(next, order[1..], waits);
      if IsMasked(next, k) {
        MaskedAgain(next, Pass(t, order, waits).value, k);
      } else {
        WaitingKeyStays(next, order[1..], waits, k);
      }
    }
  }

  ghost predicate SameQueue(t: Tables, t': Tables, k: Key) {
    (k in t'.outbox <==> k in t.outbox) && (k in t.outbox ==> t'.outbox[k] == t.outbox[k])
  }

  lemma OneRowKeeps(t: Tables, i: nat, waits: map<nat, Wait>, k: Key)
    requires i < |t.rows| && ApplyRow(t, i, waits).Some? && k !in t.retired
    requires t.rows[i].change.key == k ==> i in waits
    ensures var t' := ApplyRow(t, i, waits).value;
      IsMasked(t', k) || (SameUnit(t, t', k) && k !in t'.retired && SameQueue(t, t', k))
  {
    hide Apply, IsMissing, SameUnit;
    var c, t' := t.rows[i].change, ApplyRow(t, i, waits).value;
    assert SameUnit(t, t, k) by {
      SameIsSame(t, k);
    }
    if StatusFor(t, c.key, i, waits).Done? {
      var applied := Apply(t, c).value;
      ApplyOnward(t, c);
      MaskedByRetired(applied, t', k);
      AppliedChangeIs(t, c);
      if c.key == k {
        MaskedAgain(t, t', k);
      } else if !IsMasked(t', k) {
        assert SameUnit(t, applied, k) by {
          KeptIsSame(t, applied, k);
        }
        KeptIsSame(applied, t', k);
        SameTwice(t, applied, t', k);
      }
    } else {
      KeptIsSame(t, t', k);
    }
  }

  lemma SameIsSame(t: Tables, k: Key)
    ensures SameUnit(t, t, k)
  {
  }

  lemma KeptIsSame(t: Tables, t': Tables, k: Key)
    ensures t.units == t'.units ==> SameUnit(t, t', k)
  {
  }

  lemma SameTwice(a: Tables, b: Tables, c: Tables, k: Key)
    requires SameUnit(a, b, k) && SameUnit(b, c, k)
    ensures SameUnit(a, c, k)
  {
  }
}
