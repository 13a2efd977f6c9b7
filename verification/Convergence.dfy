/**
 Devices that exchange their writes agree: whatever the order in which changes
 arrive and however often, two devices that have applied the same ones show the
 same units, no two values ever meet under one stamp, and nothing is held for
 ever when the owners of all changes arrive.
 */
module Convergence {
  import opened Wrappers
  import opened Stamps
  import opened Replica

  // ----- What the tables are, by the set of changes applied -----

  ghost predicate Agree(h: set<Change>) {
    forall c, d :: c in h && d in h && c.key == d.key && c.stamp == d.stamp ==> c.value == d.value
  }

  ghost predicate HardDeleted(h: set<Change>, k: Key) {
    exists c :: c in h && c.key == k && IsHardDelete(k, c.value)
  }

  // No change of the key is later than the version; only deletes count once it is retired.
  ghost predicate IsLatest(h: set<Change>, k: Key, v: Version, deletes: bool) {
    && Change(k, v.stamp, v.value) in h
    && forall c :: c in h && c.key == k && (deletes ==> c.value.Deleted?) ==> !Before(v.stamp, c.stamp)
  }

  ghost predicate Touched(h: set<Change>, k: Key) {
    exists c :: c in h && c.key == k
  }

  // The version a key must have: of a deleted existence the latest delete, of
  // anything else the latest change, and none without a change.
  ghost predicate UnitOk(t: Tables, h: set<Change>, k: Key) {
    if HardDeleted(h, k) then k in t.units && t.units[k].value.Deleted? && IsLatest(h, k, t.units[k], true)
    else if Touched(h, k) then k in t.units && IsLatest(h, k, t.units[k], false)
    else k !in t.units
  }

  ghost predicate Known(t: Tables, h: set<Change>) {
    && (forall k :: k in t.units ==> Change(k, t.units[k].stamp, t.units[k].value) in h)
    && (forall k :: k in t.retired ==> HardDeleted(h, k))
  }

  ghost predicate OwnerDeleted(h: set<Change>, k: Key) {
    exists p :: p in Parents(k) && HardDeleted(h, p)
  }

  // Only keys under a retired owner are exempt: nothing reads those.
  ghost predicate Faithful(t: Tables, h: set<Change>) {
    && Known(t, h)
    && forall k :: !IsMasked(t, k) ==> (HardDeleted(h, k) ==> k in t.retired) && UnitOk(t, h, k)
  }

  // ----- One change -----

  lemma MaskedStays(t: Tables, t': Tables, k: Key)
    requires t.retired <= t'.retired && IsMasked(t, k)
    ensures IsMasked(t', k)
  {
    var p :| p in Parents(k) && p in t.retired;
    assert p in t'.retired;
  }

  // Changes under a retired owner may be counted as applied.
  lemma MaskedChangesCount(t: Tables, h: set<Change>, h': set<Change>)
    requires Faithful(t, h) && h <= h'
    requires forall c :: c in h' && c !in h ==> IsMasked(t, c.key)
    ensures Faithful(t, h')
  {
    assert Known(t, h') by {
      forall k | k in t.retired
        ensures HardDeleted(h', k)
      {
        assert HardDeleted(h, k);
      }
    }
    forall k | !IsMasked(t, k)
      ensures (HardDeleted(h', k) ==> k in t.retired) && UnitOk(t, h', k)
    {
      SameChanges(h, h', k);
      assert UnitOk(t, h, k);
    }
  }

  // What is said of a key depends on its own changes only.
  lemma SameChanges(h: set<Change>, h': set<Change>, k: Key)
    requires forall c: Change :: c.key == k ==> (c in h <==> c in h')
    ensures HardDeleted(h, k) <==> HardDeleted(h', k)
    ensures Touched(h, k) <==> Touched(h', k)
    ensures forall v, deletes :: IsLatest(h, k, v, deletes) <==> IsLatest(h', k, v, deletes)
  {
    if HardDeleted(h, k) {
      var c :| c in h && c.key == k && IsHardDelete(k, c.value);
      assert c in h';
    }
    if HardDeleted(h', k) {
      var c :| c in h' && c.key == k && IsHardDelete(k, c.value);
      assert c in h;
    }
  }

  // `t'` is `t` with a version put in, and at most what belongs to a deleted key gone.
  ghost predicate IsPut(t: Tables, t': Tables, k: Key, v: Version) {
    && t'.retired == (if IsHardDelete(k, v.value) then t.retired + {k} else t.retired)
    && k in t'.units && t'.units[k] == v
    && forall x :: x != k ==>
         if x in t'.units then x in t.units && t'.units[x] == t.units[x]
         else x in t.units ==> IsHardDelete(k, v.value) && k in Parents(x)
  }

  // Putting a version in: other keys keep theirs, or come under a retired owner.
  lemma PutIsFaithful(t: Tables, t': Tables, h: set<Change>, c: Change)
    requires Faithful(t, h) && IsPut(t, t', c.key, Version(c.stamp, c.value))
    requires var h' := h + {c};
      IsMasked(t, c.key)
      || (IsHardDelete(c.key, c.value) && IsLatest(h', c.key, Version(c.stamp, c.value), true))
      || (!HardDeleted(h', c.key) && IsLatest(h', c.key, Version(c.stamp, c.value), false))
    ensures Faithful(t', h + {c})
  {
    var k, v, h' := c.key, Version(c.stamp, c.value), h + {c};
    assert Known(t', h') by {
      assert c in h';
      forall x | x in t'.retired
        ensures HardDeleted(h', x)
      {
        if x in t.retired {
          assert HardDeleted(h, x);
        }
      }
    }
    forall x | !IsMasked(t', x)
      ensures (HardDeleted(h', x) ==> x in t'.retired) && UnitOk(t', h', x)
    {
      if IsMasked(t, x) {
        MaskedStays(t, t', x);
        assert false;
      }
      if x != k {
        SameChanges(h, h', x);
        assert UnitOk(t, h, x);
        assert k in Parents(x) && IsHardDelete(k, v.value) ==> IsMasked(t', x);
      } else {
        assert k !in Parents(k);
        assert IsHardDelete(k, c.value) ==> HardDeleted(h', k);
        assert Touched(h', k);
      }
    }
  }

  lemma PutPuts(t: Tables, c: Change, publish: bool)
    ensures IsPut(t, Put(t, c.key, Version(c.stamp, c.value), publish), c.key, Version(c.stamp, c.value))
  {
    assert c.key !in Parents(c.key);
  }

  // Only the units and what is retired matter.
  lemma RestIsApart(t: Tables, t': Tables, h: set<Change>)
    requires Faithful(t, h) && t.units == t'.units && t.retired == t'.retired
    ensures Faithful(t', h)
  {
    forall k | !IsMasked(t', k)
      ensures (HardDeleted(h, k) ==> k in t'.retired) && UnitOk(t', h, k)
    {
      MaskedWithoutRows(t', t, k);
      assert !IsMasked(t, k) && UnitOk(t, h, k);
    }
  }

  // What is known to be published does not matter for what is shown.
  lemma WitnessedIsApart(t: Tables, h: set<Change>, c: Change)
    ensures var t' := Witnessed(t, c.key, Version(c.stamp, c.value));
      && t'.units == t.units && t'.retired == t.retired && t'.rows == t.rows
      && (Faithful(t, h) ==> Faithful(t', h))
  {
    hide Faithful;
    if Faithful(t, h) {
      RestIsApart(t, Witnessed(t, c.key, Version(c.stamp, c.value)), h);
    }
  }

  lemma SkipIsFaithful(t: Tables, h: set<Change>, c: Change)
    requires Faithful(t, h)
    requires var h' := h + {c};
      IsMasked(t, c.key) || ((HardDeleted(h', c.key) ==> c.key in t.retired) && UnitOk(t, h', c.key))
    ensures Faithful(t, h + {c})
  {
    var h' := h + {c};
    assert Known(t, h') by {
      forall k | k in t.retired
        ensures HardDeleted(h', k)
      {
        assert HardDeleted(h, k);
      }
    }
    forall k | !IsMasked(t, k)
      ensures (HardDeleted(h', k) ==> k in t.retired) && UnitOk(t, h', k)
    {
      if k != c.key {
        SameChanges(h, h', k);
        assert UnitOk(t, h, k);
      }
    }
  }

  // A change after the latest is the latest.
  lemma NextIsLatest(h: set<Change>, k: Key, v: Version, c: Change, deletes: bool)
    requires IsLatest(h, k, v, deletes) && c.key == k
    ensures Before(v.stamp, c.stamp) ==> IsLatest(h + {c}, k, Version(c.stamp, c.value), deletes)
    ensures !Before(v.stamp, c.stamp) ==> IsLatest(h + {c}, k, v, deletes)
  {
    BeforeIsTotal(c.stamp, c.stamp);
    forall d | d in h && d.key == k && (deletes ==> d.value.Deleted?)
      ensures Before(v.stamp, c.stamp) ==> !Before(c.stamp, d.stamp)
    {
      if Before(v.stamp, c.stamp) && Before(c.stamp, d.stamp) {
        BeforeIsTransitive(v.stamp, c.stamp, d.stamp);
      }
    }
  }

  // The units are known, so two values under one stamp cannot meet.
  lemma NoConflict(t: Tables, h: set<Change>, c: Change)
    requires Known(t, h) && Agree(h + {c})
    ensures c.key in t.units ==> var local := t.units[c.key];
      && !Compare(local, Version(c.stamp, c.value)).Conflict?
      && (Compare(local, Version(c.stamp, c.value)).ApplyRemote? <==> Before(local.stamp, c.stamp))
  {
    if c.key in t.units {
      var local := t.units[c.key];
      BeforeIsTotal(local.stamp, c.stamp);
      assert Change(c.key, local.stamp, local.value) in h + {c} && c in h + {c};
    }
  }

  // Applying a change never fails, and counts it.
  lemma ApplyIsFaithful(t: Tables, h: set<Change>, c: Change)
    requires Faithful(t, h) && Agree(h + {c})
    ensures Apply(t, c).Some? && Faithful(Apply(t, c).value, h + {c})
  {
    hide Put, Compare, IsMasked, Witnessed;
    WitnessedIsApart(t, h + {c}, c);
    WitnessedIsApart(Put(t, c.key, Version(c.stamp, c.value), false), h + {c}, c);
    PutPuts(t, c, false);
    NoConflict(t, h, c);
    if IsMasked(t, c.key) {
      SkipIsFaithful(t, h, c);
      PutIsFaithful(t, Put(t, c.key, Version(c.stamp, c.value), false), h, c);
    } else if IsHardDelete(c.key, c.value) {
      DeleteIsFaithful(t, h, c);
    } else {
      SetIsFaithful(t, h, c);
    }
  }

  lemma DeleteIsFaithful(t: Tables, h: set<Change>, c: Change)
    requires Faithful(t, h) && Agree(h + {c}) && !IsMasked(t, c.key) && IsHardDelete(c.key, c.value)
    ensures Apply(t, c).Some? && Faithful(Apply(t, c).value, h + {c})
  {
    hide Put, Compare, IsMasked, Witnessed;
    WitnessedIsApart(t, h + {c}, c);
    WitnessedIsApart(Put(t, c.key, Version(c.stamp, c.value), false), h + {c}, c);
    PutPuts(t, c, false);
    var k := c.key;
    NoConflict(t, h, c);
    assert UnitOk(t, h, k);
    assert c in h + {c} && HardDeleted(h + {c}, k);
    BeforeIsTotal(c.stamp, c.stamp);
    if HardDeleted(h, k) {
      NextIsLatest(h, k, t.units[k], c, true);
      if Before(t.units[k].stamp, c.stamp) {
        PutIsFaithful(t, Put(t, c.key, Version(c.stamp, c.value), false), h, c);
      } else {
        SkipIsFaithful(t, h, c);
      }
    } else {
      NotDeletedYet(t, h, k);
      assert IsLatest(h + {c}, k, Version(c.stamp, c.value), true) by {
        assert forall d :: d in h && d.key == k ==> !IsHardDelete(k, d.value);
      }
      PutIsFaithful(t, Put(t, c.key, Version(c.stamp, c.value), false), h, c);
    }
  }

  lemma NotDeletedYet(t: Tables, h: set<Change>, k: Key)
    requires Known(t, h) && IsExistence(k) && !HardDeleted(h, k)
    ensures k in t.units ==> !t.units[k].value.Deleted?
  {
    if k in t.units {
      assert Change(k, t.units[k].stamp, t.units[k].value) in h;
    }
  }

  lemma SetIsFaithful(t: Tables, h: set<Change>, c: Change)
    requires Faithful(t, h) && Agree(h + {c}) && !IsMasked(t, c.key) && !IsHardDelete(c.key, c.value)
    ensures Apply(t, c).Some? && Faithful(Apply(t, c).value, h + {c})
  {
    hide Put, Compare, IsMasked, Witnessed;
    WitnessedIsApart(t, h + {c}, c);
    WitnessedIsApart(Put(t, c.key, Version(c.stamp, c.value), false), h + {c}, c);
    PutPuts(t, c, false);
    var k, h' := c.key, h + {c};
    NoConflict(t, h, c);
    assert UnitOk(t, h, k);
    BeforeIsTotal(c.stamp, c.stamp);
    assert HardDeleted(h', k) <==> HardDeleted(h, k) by {
      if HardDeleted(h, k) {
        var d :| d in h && d.key == k && IsHardDelete(k, d.value);
        assert d in h';
      }
    }
    if HardDeleted(h, k) {
      assert IsLatest(h', k, t.units[k], true);
      SkipIsFaithful(t, h, c);
    } else {
      assert k !in t.retired;
      assert c in h' && Touched(h', k);
      if k !in t.units {
        PutIsFaithful(t, Put(t, c.key, Version(c.stamp, c.value), false), h, c);
      } else {
        assert Change(k, t.units[k].stamp, t.units[k].value) in h && Touched(h, k);
        NextIsLatest(h, k, t.units[k], c, false);
        if Before(t.units[k].stamp, c.stamp) {
          PutIsFaithful(t, Put(t, c.key, Version(c.stamp, c.value), false), h, c);
        } else {
          SkipIsFaithful(t, h, c);
        }
      }
    }
  }

  // The latest write does not win over a delete of an owner: an earlier delete
  // takes its place, and with it all that belongs to the owner.
  lemma EarlierDeleteWins(t: Tables, c: Change)
    requires IsHardDelete(c.key, c.value) && c.key in t.units && !t.units[c.key].value.Deleted?
    requires Before(c.stamp, t.units[c.key].stamp)
    ensures var r := Apply(t, c);
      && r.Some? && r.value.units[c.key] == Version(c.stamp, Deleted) && c.key in r.value.retired
      && forall k :: c.key in Parents(k) ==> k !in r.value.units
  {
  }

  // ----- Rows -----

  ghost function DoneChanges(rows: seq<Row>): set<Change> {
    set r | r in rows && r.status.Done? :: r.change
  }

  ghost function RowChanges(rows: seq<Row>): set<Change> {
    set r | r in rows :: r.change
  }

  // Each row keeps its change, and no row that was done goes back.
  ghost predicate RowsKept(rows: seq<Row>, rows': seq<Row>) {
    && |rows| == |rows'|
    && forall j :: 0 <= j < |rows| ==>
         rows'[j].change == rows[j].change && (rows[j].status.Done? ==> rows'[j].status.Done?)
  }

  lemma KeptRowsKeepChanges(rows: seq<Row>, rows': seq<Row>)
    requires RowsKept(rows, rows')
    ensures RowChanges(rows') == RowChanges(rows) && DoneChanges(rows) <= DoneChanges(rows')
  {
    forall c | c in RowChanges(rows)
      ensures c in RowChanges(rows')
    {
      var j :| 0 <= j < |rows| && rows[j].change == c;
      assert rows'[j] in rows';
    }
    forall c | c in RowChanges(rows')
      ensures c in RowChanges(rows)
    {
      var j :| 0 <= j < |rows'| && rows'[j].change == c;
      assert rows[j] in rows;
    }
    forall c | c in DoneChanges(rows)
      ensures c in DoneChanges(rows')
    {
      var j :| 0 <= j < |rows| && rows[j].change == c && rows[j].status.Done?;
      assert rows'[j] in rows';
    }
  }

  // Applying a change keeps the rows but for those that come under a retired owner, which are done.
  lemma ApplyKeepsRows(t: Tables, c: Change)
    requires Apply(t, c).Some?
    ensures var t' := Apply(t, c).value;
      && t.retired <= t'.retired && RowsKept(t.rows, t'.rows)
      && forall j :: 0 <= j < |t.rows| ==> t'.rows[j] == t.rows[j] || IsMasked(t', t.rows[j].change.key)
  {
    hide Compare, IsRetired, Witnessed;
    WitnessedIsApart(t, {}, c);
    WitnessedIsApart(Put(t, c.key, Version(c.stamp, c.value), false), {}, c);
    var t' := Apply(t, c).value;
    forall j | 0 <= j < |t.rows|
      ensures t'.rows[j] == t.rows[j] || IsMasked(t', t.rows[j].change.key)
    {
      if t'.rows[j] != t.rows[j] {
        assert c.key in Parents(t.rows[j].change.key) && c.key in t'.retired;
      }
    }
  }

  // A row is open, or under a retired owner, which leaves nothing to do for it.
  ghost predicate IsReady(t: Tables, i: nat)
    requires i < |t.rows|
  {
    t.rows[i].status.Done? ==> IsMasked(t, t.rows[i].change.key)
  }

  lemma ApplyRowIsFaithful(t: Tables, w: set<Change>, i: nat, waits: map<nat, Wait>)
    requires i < |t.rows| && IsReady(t, i)
    requires Faithful(t, w + DoneChanges(t.rows)) && Agree(w + RowChanges(t.rows))
    ensures var r := ApplyRow(t, i, waits);
      && r.Some? && Faithful(r.value, w + DoneChanges(r.value.rows))
      && RowsKept(t.rows, r.value.rows) && t.retired <= r.value.retired
      && (forall j :: 0 <= j < |t.rows| && j != i && IsReady(t, j) ==> IsReady(r.value, j))
      && r.value.rows[i].status == StatusFor(t, t.rows[i].change.key, i, waits)
  {
    hide Faithful, Agree, Apply, IsMasked;
    var c, h := t.rows[i].change, w + DoneChanges(t.rows);
    var status := StatusFor(t, c.key, i, waits);
    if status.Done? {
      assert t.rows[i] in t.rows;
      AgreeOnLess(w + RowChanges(t.rows), h + {c});
      ApplyIsFaithful(t, h, c);
      ApplyKeepsRows(t, c);
      var t1 := Apply(t, c).value;
      RowIsDone(t, t1, w, i);
      ReadyStays(t, t1, i);
      ReadyWithout(t1, i, Row(c, status));
    } else {
      RestIsApart(t, t.(rows := t.rows[i := Row(c, status)]), h);
      OpenRow(t.rows, i, status);
      ReadyStays(t, t, i);
      ReadyWithout(t, i, Row(c, status));
    }
  }

  lemma ReadyWithout(t: Tables, i: nat, row: Row)
    requires i < |t.rows|
    ensures forall j :: 0 <= j < |t.rows| && j != i && IsReady(t, j) ==> IsReady(t.(rows := t.rows[i := row]), j)
  {
    hide IsMasked;
    forall j | 0 <= j < |t.rows| && j != i && IsReady(t, j)
      ensures IsReady(t.(rows := t.rows[i := row]), j)
    {
      MaskedWithoutRows(t, t.(rows := t.rows[i := row]), t.rows[j].change.key);
    }
  }

  // With row `i` applied and done, its change counts, and so do those of the rows retired with it.
  lemma RowIsDone(t: Tables, t1: Tables, w: set<Change>, i: nat)
    requires i < |t.rows| && RowsKept(t.rows, t1.rows)
    requires Faithful(t1, w + DoneChanges(t.rows) + {t.rows[i].change})
    requires forall j :: 0 <= j < |t.rows| ==> t1.rows[j] == t.rows[j] || IsMasked(t1, t.rows[j].change.key)
    ensures var t' := t1.(rows := t1.rows[i := Row(t.rows[i].change, Done)]);
      RowsKept(t.rows, t'.rows) && Faithful(t', w + DoneChanges(t'.rows))
  {
    hide Faithful, IsMasked;
    var c, h := t.rows[i].change, w + DoneChanges(t.rows);
    var t' := t1.(rows := t1.rows[i := Row(c, Done)]);
    RestIsApart(t1, t', h + {c});
    KeptRowsKeepChanges(t.rows, t'.rows);
    assert t'.rows[i] in t'.rows;
    assert c in DoneChanges(t'.rows);
    forall d | d in w + DoneChanges(t'.rows) && d !in h + {c}
      ensures IsMasked(t', d.key)
    {
      var j :| 0 <= j < |t'.rows| && t'.rows[j].change == d && t'.rows[j].status.Done?;
      assert t.rows[j] in t.rows;
      MaskedWithoutRows(t1, t', d.key);
    }
    MaskedChangesCount(t', h + {c}, w + DoneChanges(t'.rows));
  }

  lemma AgreeOnLess(h: set<Change>, h': set<Change>)
    requires Agree(h) && h' <= h
    ensures Agree(h')
  {
  }

  lemma MaskedWithoutRows(t: Tables, t': Tables, k: Key)
    requires t.retired == t'.retired
    ensures IsMasked(t, k) <==> IsMasked(t', k)
  {
  }

  lemma OpenRow(rows: seq<Row>, i: nat, status: Status)
    requires i < |rows| && !rows[i].status.Done? && !status.Done?
    ensures DoneChanges(rows[i := Row(rows[i].change, status)]) == DoneChanges(rows)
  {
    var rows' := rows[i := Row(rows[i].change, status)];
    forall r: Row | r.status.Done?
      ensures r in rows <==> r in rows'
    {
      if r in rows {
        var j :| 0 <= j < |rows| && rows[j] == r;
        assert rows'[j] == r;
      }
      if r in rows' {
        var j :| 0 <= j < |rows'| && rows'[j] == r;
        assert rows[j] == r;
      }
    }
  }

  lemma ReadyStays(t: Tables, t': Tables, i: nat)
    requires i < |t.rows| == |t'.rows| && t.retired <= t'.retired
    requires forall j :: 0 <= j < |t.rows| && j != i ==>
      t'.rows[j] == t.rows[j] || IsMasked(t', t.rows[j].change.key)
    requires forall j :: 0 <= j < |t.rows| ==> t'.rows[j].change == t.rows[j].change
    ensures forall j :: 0 <= j < |t.rows| && j != i && IsReady(t, j) ==> IsReady(t', j)
  {
    hide IsMasked;
    forall j | 0 <= j < |t.rows| && j != i && IsReady(t, j)
      ensures IsReady(t', j)
    {
      if IsMasked(t, t.rows[j].change.key) {
        MaskedStays(t, t', t.rows[j].change.key);
      }
    }
  }

  // ----- A pass over the rows -----

  ghost predicate AllReady(t: Tables, order: seq<nat>) {
    InRange(order, |t.rows|) && forall i :: 0 <= i < |order| ==> IsReady(t, order[i])
  }

  lemma RowsKeptOn(a: seq<Row>, b: seq<Row>, c: seq<Row>)
    requires RowsKept(a, b) && RowsKept(b, c)
    ensures RowsKept(a, c)
  {
  }

  lemma {:induction false} PassIsFaithful(t: Tables, w: set<Change>, order: seq<nat>, waits: map<nat, Wait>)
    requires Distinct(order) && AllReady(t, order)
    requires Faithful(t, w + DoneChanges(t.rows)) && Agree(w + RowChanges(t.rows))
    ensures var r := Pass(t, order, waits);
      r.Some? && Faithful(r.value, w + DoneChanges(r.value.rows)) && RowsKept(t.rows, r.value.rows)
    decreases |order|
  {
    hide Faithful, Agree, ApplyRow, IsReady;
    if order != [] {
      assert IsReady(t, order[0]);
      ApplyRowIsFaithful(t, w, order[0], waits);
      var next := ApplyRow(t, order[0], waits).value;
      KeptRowsKeepChanges(t.rows, next.rows);
      assert forall k :: 0 < k < |order| ==> order[k] != order[0];
      PassIsFaithful(next, w, order[1..], waits);
      RowsKeptOn(t.rows, next.rows, Pass(next, order[1..], waits).value.rows);
    }
  }

  lemma SelectedAreReady(t: Tables, order: seq<nat>, drain: bool)
    requires Selects(t.rows, order, drain)
    ensures AllReady(t, order)
  {
    forall i | 0 <= i < |order|
      ensures IsReady(t, order[i])
    {
      assert order[i] in order;
    }
  }

  // ----- Held rows drain -----

  // The owners of every change have changes themselves, unless one is deleted.
  ghost predicate IsClosed(h: set<Change>) {
    forall c, p :: c in h && p in Parents(c.key) ==> Touched(h, p) || OwnerDeleted(h, c.key)
  }

  // Rows outside the order are done.
  ghost predicate OnlyOpen(rows: seq<Row>, order: seq<nat>) {
    forall i :: 0 <= i < |rows| && i !in order ==> rows[i].status.Done?
  }

  // The owners of a key are known, or there is nothing to do for it.
  ghost predicate OwnersKnown(t: Tables, all: set<Change>, k: Key) {
    k in t.retired || OwnerDeleted(all, k) || forall p :: p in Parents(k) ==> Touched(all, p)
  }

  // ... of every row of the order.
  ghost predicate RowsHaveOwners(t: Tables, all: set<Change>, order: seq<nat>)
    requires InRange(order, |t.rows|)
  {
    forall i :: 0 <= i < |order| ==> OwnersKnown(t, all, t.rows[order[i]].change.key)
  }

  // With what comes first applied, the next row is neither held nor deferred.
  lemma NextIsNotHeld(t: Tables, w: set<Change>, order: seq<nat>)
    requires order != [] && InRange(order, |t.rows|) && OwnersFirst(t.rows, order) && OnlyOpen(t.rows, order)
    requires Faithful(t, w + DoneChanges(t.rows))
    requires OwnersKnown(t, w + RowChanges(t.rows), t.rows[order[0]].change.key)
    ensures StatusFor(t, t.rows[order[0]].change.key, order[0], map[]).Done?
  {
    hide Faithful;
    var c, all := t.rows[order[0]].change, w + RowChanges(t.rows);
    assert t.rows[order[0]] in t.rows;
    assert c in all;
    if !IsRetired(t, c.key) {
      OwnersAreNotDeleted(t, w, order);
      forall p | p in Parents(c.key)
        ensures p in t.units
      {
        assert Touched(all, p);
        OwnerIsApplied(t, w, order, p);
        OwnerIsHere(t, w + DoneChanges(t.rows), c.key, p);
      }
    }
  }

  // What is known of an owner of the next row is applied: it comes before.
  lemma AppliedBefore(t: Tables, w: set<Change>, order: seq<nat>, d: Change)
    requires order != [] && InRange(order, |t.rows|) && OwnersFirst(t.rows, order) && OnlyOpen(t.rows, order)
    requires d in w + RowChanges(t.rows) && d.key in Parents(t.rows[order[0]].change.key)
    ensures d in w + DoneChanges(t.rows)
  {
    if d !in w {
      var j :| 0 <= j < |t.rows| && t.rows[j].change == d;
      assert d.key != t.rows[order[0]].change.key;
      assert forall n :: 0 < n < |order| ==> t.rows[order[n]].change.key !in Parents(t.rows[order[0]].change.key);
      assert j !in order;
      assert t.rows[j] in t.rows;
    }
  }

  lemma OwnersAreNotDeleted(t: Tables, w: set<Change>, order: seq<nat>)
    requires order != [] && InRange(order, |t.rows|) && OwnersFirst(t.rows, order) && OnlyOpen(t.rows, order)
    requires Faithful(t, w + DoneChanges(t.rows)) && !IsMasked(t, t.rows[order[0]].change.key)
    ensures !OwnerDeleted(w + RowChanges(t.rows), t.rows[order[0]].change.key)
  {
    hide Faithful, IsMasked;
    var k := t.rows[order[0]].change.key;
    MaskedIsDetermined(t, w + DoneChanges(t.rows), k);
    forall q | q in Parents(k)
      ensures !HardDeleted(w + RowChanges(t.rows), q)
    {
      if HardDeleted(w + RowChanges(t.rows), q) {
        DeleteIsApplied(t, w, order, q);
      }
    }
  }

  lemma DeleteIsApplied(t: Tables, w: set<Change>, order: seq<nat>, q: Key)
    requires order != [] && InRange(order, |t.rows|) && OwnersFirst(t.rows, order) && OnlyOpen(t.rows, order)
    requires HardDeleted(w + RowChanges(t.rows), q) && q in Parents(t.rows[order[0]].change.key)
    ensures HardDeleted(w + DoneChanges(t.rows), q)
  {
    var d :| d in w + RowChanges(t.rows) && d.key == q && IsHardDelete(q, d.value);
    AppliedBefore(t, w, order, d);
  }

  lemma OwnerIsApplied(t: Tables, w: set<Change>, order: seq<nat>, p: Key)
    requires order != [] && InRange(order, |t.rows|) && OwnersFirst(t.rows, order) && OnlyOpen(t.rows, order)
    requires Touched(w + RowChanges(t.rows), p) && p in Parents(t.rows[order[0]].change.key)
    ensures Touched(w + DoneChanges(t.rows), p)
  {
    var d :| d in w + RowChanges(t.rows) && d.key == p;
    AppliedBefore(t, w, order, d);
  }

  lemma OwnerIsHere(t: Tables, h: set<Change>, k: Key, p: Key)
    requires Faithful(t, h) && !IsRetired(t, k) && p in Parents(k) && Touched(h, p)
    ensures p in t.units
  {
    assert !IsMasked(t, p) by {
      assert forall q :: q in Parents(p) ==> q in Parents(k);
    }
    assert UnitOk(t, h, p);
  }

  // A drain leaves no row open exactly when the owners of every row are known.
  lemma PassDrains(t: Tables, w: set<Change>, order: seq<nat>)
    requires Distinct(order) && AllReady(t, order) && OwnersFirst(t.rows, order) && OnlyOpen(t.rows, order)
    requires Faithful(t, w + DoneChanges(t.rows)) && Agree(w + RowChanges(t.rows))
    ensures var r := Pass(t, order, map[]);
      && r.Some?
      && ((forall i :: 0 <= i < |r.value.rows| ==> r.value.rows[i].status.Done?)
          <==> RowsHaveOwners(t, w + RowChanges(t.rows), order))
  {
    hide Faithful, Agree, Pass, IsReady, OwnersKnown;
    PassIsFaithful(t, w, order, map[]);
    forall i | 0 <= i < |order| && t.rows[order[i]].status.Done?
      ensures OwnersKnown(t, w + RowChanges(t.rows), t.rows[order[i]].change.key)
    {
      DoneHasOwners(t, w, order[i]);
    }
    if RowsHaveOwners(t, w + RowChanges(t.rows), order) {
      AllAreApplied(t, w, order);
    } else {
      var i :| 0 <= i < |order| && !OwnersKnown(t, w + RowChanges(t.rows), t.rows[order[i]].change.key);
      StaysOpen(t, w, order, order[i]);
    }
  }

  // A row that is done and to be taken up is under a deleted owner.
  lemma DoneHasOwners(t: Tables, w: set<Change>, i: nat)
    requires i < |t.rows| && t.rows[i].status.Done? && IsReady(t, i) && Faithful(t, w + DoneChanges(t.rows))
    ensures OwnersKnown(t, w + RowChanges(t.rows), t.rows[i].change.key)
  {
    hide Faithful, IsMasked;
    MaskedIsKnown(t, w, t.rows[i].change.key);
  }

  lemma MaskedIsKnown(t: Tables, w: set<Change>, k: Key)
    requires Faithful(t, w + DoneChanges(t.rows)) && IsMasked(t, k)
    ensures OwnerDeleted(w + RowChanges(t.rows), k)
  {
    hide Faithful, IsMasked;
    MaskedIsDetermined(t, w + DoneChanges(t.rows), k);
    var p :| p in Parents(k) && HardDeleted(w + DoneChanges(t.rows), p);
    var c :| c in w + DoneChanges(t.rows) && c.key == p && IsHardDelete(p, c.value);
    assert c in w + RowChanges(t.rows);
    assert HardDeleted(w + RowChanges(t.rows), p);
  }

  lemma {:induction false} AllAreApplied(t: Tables, w: set<Change>, order: seq<nat>)
    requires Distinct(order) && AllReady(t, order) && OwnersFirst(t.rows, order) && OnlyOpen(t.rows, order)
    requires Faithful(t, w + DoneChanges(t.rows)) && Agree(w + RowChanges(t.rows))
    requires RowsHaveOwners(t, w + RowChanges(t.rows), order)
    ensures var r := Pass(t, order, map[]);
      r.Some? && forall i :: 0 <= i < |r.value.rows| ==> r.value.rows[i].status.Done?
    decreases |order|
  {
    hide Faithful, Agree, ApplyRow, IsReady, StatusFor, OwnerDeleted, Touched;
    if order != [] {
      assert IsReady(t, order[0]);
      NextIsNotHeld(t, w, order);
      ApplyRowIsFaithful(t, w, order[0], map[]);
      var next := ApplyRow(t, order[0], map[]).value;
      KeptRowsKeepChanges(t.rows, next.rows);
      assert forall k :: 0 < k < |order| ==> order[k] != order[0];
      assert OnlyOpen(next.rows, order[1..]) by {
        assert forall i :: i in order && i != order[0] ==> i in order[1..];
      }
      AllAreApplied(next, w, order[1..]);
    }
  }

  // A key with an owner unknown is held.
  lemma UnknownIsHeld(t: Tables, w: set<Change>, k: Key, i: nat, waits: map<nat, Wait>)
    requires Faithful(t, w + DoneChanges(t.rows)) && !OwnersKnown(t, w + RowChanges(t.rows), k)
    ensures StatusFor(t, k, i, waits) == Held
  {
    hide IsMasked;
    var p :| p in Parents(k) && !Touched(w + RowChanges(t.rows), p);
    if IsMasked(t, k) {
      MaskedIsKnown(t, w, k);
    }
    if p in t.units {
      UnitIsTouched(t, w, p);
    }
  }

  lemma UnitIsTouched(t: Tables, w: set<Change>, k: Key)
    requires Known(t, w + DoneChanges(t.rows)) && k in t.units
    ensures Touched(w + RowChanges(t.rows), k)
  {
    assert Change(k, t.units[k].stamp, t.units[k].value) in w + RowChanges(t.rows);
  }

  // What one row does leaves another open whose key has an owner unknown.
  lemma StaysOpenOnce(t: Tables, w: set<Change>, i: nat, j: nat)
    requires i < |t.rows| && j < |t.rows| && IsReady(t, i)
    requires Faithful(t, w + DoneChanges(t.rows)) && Agree(w + RowChanges(t.rows))
    requires !t.rows[j].status.Done? && !OwnersKnown(t, w + RowChanges(t.rows), t.rows[j].change.key)
    ensures var r := ApplyRow(t, i, map[]);
      && r.Some? && !r.value.rows[j].status.Done?
      && !OwnersKnown(r.value, w + RowChanges(t.rows), t.rows[j].change.key)
  {
    hide Faithful, Agree, StatusFor, Apply, IsMasked, OwnerDeleted, Touched;
    var c, k := t.rows[i].change, t.rows[j].change.key;
    ApplyRowIsFaithful(t, w, i, map[]);
    UnknownIsHeld(t, w, k, i, map[]);
    var next := ApplyRow(t, i, map[]).value;
    if c.key != k && StatusFor(t, c.key, i, map[]).Done? {
      ApplyKeepsRows(t, c);
      ApplyRetiresItsKey(t, c);
      var t1 := Apply(t, c).value;
      KeptRowsKeepChanges(t.rows, next.rows);
      MaskedWithoutRows(t1, next, k);
      if IsMasked(next, k) {
        MaskedIsKnown(next, w, k);
      }
      assert i != j;
    }
  }

  lemma ApplyRetiresItsKey(t: Tables, c: Change)
    requires Apply(t, c).Some?
    ensures Apply(t, c).value.retired <= t.retired + {c.key}
  {
  }

  lemma {:induction false} StaysOpen(t: Tables, w: set<Change>, order: seq<nat>, j: nat)
    requires Distinct(order) && AllReady(t, order)
    requires Faithful(t, w + DoneChanges(t.rows)) && Agree(w + RowChanges(t.rows))
    requires j < |t.rows| && !t.rows[j].status.Done?
    requires !OwnersKnown(t, w + RowChanges(t.rows), t.rows[j].change.key)
    ensures var r := Pass(t, order, map[]);
      r.Some? && !r.value.rows[j].status.Done?
    decreases |order|
  {
    hide Faithful, Agree, ApplyRow, IsReady, OwnersKnown;
    if order != [] {
      assert IsReady(t, order[0]);
      ApplyRowIsFaithful(t, w, order[0], map[]);
      StaysOpenOnce(t, w, order[0], j);
      var next := ApplyRow(t, order[0], map[]).value;
      KeptRowsKeepChanges(t.rows, next.rows);
      assert forall k :: 0 < k < |order| ==> order[k] != order[0];
      StaysOpen(next, w, order[1..], j);
    }
  }

  // With the owners of all changes known, so are those of every row.
  lemma ClosedHasOwners(t: Tables, all: set<Change>, order: seq<nat>)
    requires InRange(order, |t.rows|) && IsClosed(all) && RowChanges(t.rows) <= all
    ensures RowsHaveOwners(t, all, order)
  {
    forall i | 0 <= i < |order|
      ensures OwnersKnown(t, all, t.rows[order[i]].change.key)
    {
      assert t.rows[order[i]] in t.rows;
    }
  }

  // ----- What is shown -----

  // The units that are read: those under a retired owner are not.
  ghost function View(t: Tables): map<Key, Version> {
    map k | k in t.units && !IsMasked(t, k) :: t.units[k]
  }

  // Which keys are under a retired owner is decided by the deletes applied.
  lemma MaskedIsDetermined(t: Tables, h: set<Change>, k: Key)
    requires Faithful(t, h)
    ensures IsMasked(t, k) <==> OwnerDeleted(h, k)
  {
    if p :| p in Parents(k) && HardDeleted(h, p) {
      if IsMasked(t, p) {
        assert forall q :: q in Parents(p) ==> q in Parents(k);
      }
    }
  }

  lemma LatestIsUnique(h: set<Change>, k: Key, a: Version, b: Version, deletes: bool)
    requires Agree(h) && IsLatest(h, k, a, deletes) && IsLatest(h, k, b, deletes)
    requires deletes ==> a.value.Deleted? && b.value.Deleted?
    ensures a == b
  {
    var c, d := Change(k, a.stamp, a.value), Change(k, b.stamp, b.value);
    assert c in h && d in h;
    assert !Before(a.stamp, d.stamp) && !Before(b.stamp, c.stamp);
    BeforeIsTotal(a.stamp, b.stamp);
  }

  // Two copies that have applied the same changes show the same.
  lemma SameChangesSameView(t: Tables, t': Tables, h: set<Change>)
    requires Faithful(t, h) && Faithful(t', h) && Agree(h)
    ensures View(t) == View(t')
  {
    hide Agree, IsLatest;
    forall k
      ensures IsMasked(t, k) <==> IsMasked(t', k)
      ensures !IsMasked(t, k) ==> (k in t.units <==> k in t'.units) && (k in t.units ==> t.units[k] == t'.units[k])
    {
      MaskedIsDetermined(t, h, k);
      MaskedIsDetermined(t', h, k);
      if !IsMasked(t, k) {
        assert UnitOk(t, h, k) && UnitOk(t', h, k);
        if k in t.units && k in t'.units {
          LatestIsUnique(h, k, t.units[k], t'.units[k], HardDeleted(h, k));
        }
      }
    }
  }

  // The unit shown is the latest change of its key exactly when the key is not a
  // deleted existence, or was deleted last.
  lemma LatestIsShown(t: Tables, h: set<Change>, k: Key)
    requires Faithful(t, h) && Agree(h) && Touched(h, k) && !OwnerDeleted(h, k)
    ensures k in View(t)
    ensures IsLatest(h, k, View(t)[k], false)
      <==> !HardDeleted(h, k) || exists v: Version :: v.value.Deleted? && IsLatest(h, k, v, false)
  {
    MaskedIsDetermined(t, h, k);
    assert UnitOk(t, h, k);
    if v: Version :| v.value.Deleted? && IsLatest(h, k, v, false) {
      if HardDeleted(h, k) {
        assert IsLatest(h, k, v, true);
        LatestIsUnique(h, k, v, t.units[k], true);
      }
    }
  }

  // ----- Changes that need not arrive -----

  // A change that makes no difference beside the others: an owner is deleted, or
  // the key is and this is no delete, or there is a later one of its kind.
  ghost predicate Superseded(h: set<Change>, c: Change) {
    || OwnerDeleted(h, c.key)
    || (HardDeleted(h, c.key) && !c.value.Deleted?)
    || (HasLater(h, c) && (IsHardDelete(c.key, c.value) ==> HardDeleted(h, c.key)))
  }

  ghost predicate HasLater(h: set<Change>, c: Change) {
    exists d :: d in h && d.key == c.key && Before(c.stamp, d.stamp) && (HardDeleted(h, c.key) ==> d.value.Deleted?)
  }

  // All of `h'` is in `h` or superseded by it.
  ghost predicate Covers(h: set<Change>, h': set<Change>) {
    forall c :: c in h' && c !in h ==> Superseded(h, c)
  }

  // Two writes to one key of which only the later arrives: nothing is missing.
  lemma OnlyTheLaterArrives(h: set<Change>, c: Change, d: Change)
    requires d in h && d.key == c.key && Before(c.stamp, d.stamp)
    requires !IsHardDelete(c.key, c.value)
    ensures Covers(h, h + {c})
  {
    assert !HardDeleted(h, c.key) ==> HasLater(h, c);
    assert HardDeleted(h, c.key) && c.value.Deleted? ==> IsHardDelete(c.key, c.value) by {
      assert HardDeleted(h, c.key) ==> IsExistence(c.key);
    }
  }

  lemma HardDeletedGrows(h: set<Change>, h': set<Change>, k: Key)
    requires h <= h' && HardDeleted(h, k)
    ensures HardDeleted(h', k)
  {
    var c :| c in h && c.key == k && IsHardDelete(k, c.value);
    assert c in h';
  }

  // What is superseded stays so when more arrives.
  lemma SupersededGrows(h: set<Change>, h': set<Change>, c: Change)
    requires h <= h' && Superseded(h, c)
    ensures Superseded(h', c)
  {
    if OwnerDeleted(h, c.key) {
      var p :| p in Parents(c.key) && HardDeleted(h, p);
      HardDeletedGrows(h, h', p);
      assert OwnerDeleted(h', c.key);
    } else if HardDeleted(h, c.key) {
      HardDeletedGrows(h, h', c.key);
      if c.value.Deleted? {
        var d :| d in h && d.key == c.key && Before(c.stamp, d.stamp) && d.value.Deleted?;
        assert d in h' && HasLater(h', c);
      }
    } else {
      var d :| d in h && d.key == c.key && Before(c.stamp, d.stamp);
      assert d in h';
      if !HardDeleted(h', c.key) {
        assert HasLater(h', c);
      }
    }
  }

  lemma SupersededKeepsDeletes(h: set<Change>, h': set<Change>, k: Key)
    requires h <= h' && Covers(h, h') && !OwnerDeleted(h, k)
    ensures HardDeleted(h', k) <==> HardDeleted(h, k)
    ensures Touched(h', k) <==> Touched(h, k)
  {
    if HardDeleted(h, k) {
      HardDeletedGrows(h, h', k);
    }
    if HardDeleted(h', k) {
      var c :| c in h' && c.key == k && IsHardDelete(k, c.value);
      assert c !in h ==> Superseded(h, c);
    }
    if Touched(h, k) {
      var c :| c in h && c.key == k;
      assert c in h';
    }
    if Touched(h', k) {
      var c :| c in h' && c.key == k;
      if c !in h && HardDeleted(h, k) {
        var d :| d in h && d.key == k && IsHardDelete(k, d.value);
      }
      assert c !in h ==> Superseded(h, c);
    }
  }

  // Tables that have applied some changes show what they would with all that these supersede.
  lemma SupersededCount(t: Tables, h: set<Change>, h': set<Change>)
    requires Faithful(t, h) && h <= h' && Covers(h, h')
    ensures Faithful(t, h')
  {
    assert Known(t, h') by {
      forall k | k in t.retired
        ensures HardDeleted(h', k)
      {
        HardDeletedGrows(h, h', k);
      }
    }
    forall k | !IsMasked(t, k)
      ensures (HardDeleted(h', k) ==> k in t.retired) && UnitOk(t, h', k)
    {
      MaskedIsDetermined(t, h, k);
      SupersededKeepsDeletes(h, h', k);
      assert UnitOk(t, h, k);
      if Touched(h, k) {
        LatestStays(h, h', k, t.units[k]);
      }
    }
  }

  lemma LatestStays(h: set<Change>, h': set<Change>, k: Key, v: Version)
    requires h <= h' && Covers(h, h') && !OwnerDeleted(h, k) && IsLatest(h, k, v, HardDeleted(h, k))
    ensures IsLatest(h', k, v, HardDeleted(h, k))
  {
    forall c | c in h' && c.key == k && (HardDeleted(h, k) ==> c.value.Deleted?)
      ensures !Before(v.stamp, c.stamp)
    {
      if c !in h {
        assert Superseded(h, c) && HasLater(h, c);
        var d :| d in h && d.key == k && Before(c.stamp, d.stamp) && (HardDeleted(h, k) ==> d.value.Deleted?);
        if Before(v.stamp, c.stamp) {
          BeforeIsTransitive(v.stamp, c.stamp, d.stamp);
        }
      }
    }
  }

  // ----- The units supersede the rest -----

  // Of the retired owners of a key one is not itself under a retired one.
  lemma TopOwner(t: Tables, k: Key) returns (p: Key)
    requires IsMasked(t, k)
    ensures p in Parents(k) && p in t.retired && !IsMasked(t, p)
  {
    p :| p in Parents(k) && p in t.retired;
    if IsMasked(t, p) {
      var q :| q in Parents(p) && q in t.retired;
      p := q;
    }
  }

  // The changes that the units are superseded all others that made them.
  lemma UnitsSupersede(t: Tables, h: set<Change>, s: set<Change>)
    requires Faithful(t, h) && Agree(h)
    requires forall k :: k in t.units ==> Change(k, t.units[k].stamp, t.units[k].value) in s
    ensures Covers(s, h)
  {
    forall c | c in h && c !in s
      ensures Superseded(s, c)
    {
      var k := c.key;
      if IsMasked(t, k) {
        var p := TopOwner(t, k);
        assert HardDeleted(h, p) && UnitOk(t, h, p);
        assert IsHardDelete(p, t.units[p].value) && HardDeleted(s, p);
        assert OwnerDeleted(s, k);
      } else {
        assert Touched(h, k) && UnitOk(t, h, k);
        UnitSupersedes(t, h, s, c);
      }
    }
  }

  lemma UnitSupersedes(t: Tables, h: set<Change>, s: set<Change>, c: Change)
    requires Agree(h) && c in h && c !in s && UnitOk(t, h, c.key) && c.key in t.units
    requires Change(c.key, t.units[c.key].stamp, t.units[c.key].value) in s
    ensures Superseded(s, c)
  {
    var k, v := c.key, t.units[c.key];
    var u := Change(k, v.stamp, v.value);
    assert u in h by {
      assert IsLatest(h, k, v, HardDeleted(h, k)) by {
        assert Touched(h, k);
      }
    }
    BeforeIsTotal(c.stamp, v.stamp);
    if HardDeleted(h, k) {
      assert IsHardDelete(k, v.value) && HardDeleted(s, k);
      if c.value.Deleted? {
        assert HasLater(s, c);
      }
    } else {
      assert !IsHardDelete(k, c.value);
      assert Touched(h, k);
      if !HardDeleted(s, k) {
        assert HasLater(s, c);
      }
    }
  }

  lemma OwnersStay(h: set<Change>, h': set<Change>, k: Key)
    requires h <= h' && Covers(h, h') && !OwnerDeleted(h, k)
    ensures !OwnerDeleted(h', k)
  {
    forall q | q in Parents(k)
      ensures !HardDeleted(h', q)
    {
      assert forall r :: r in Parents(q) ==> r in Parents(k);
      SupersededKeepsDeletes(h, h', q);
    }
  }

  lemma CoveredIsClosed(h: set<Change>, h': set<Change>)
    requires h <= h' && Covers(h, h') && IsClosed(h')
    ensures IsClosed(h)
  {
    forall c, p | c in h && p in Parents(c.key) && !OwnerDeleted(h, c.key)
      ensures Touched(h, p)
    {
      OwnersStay(h, h', c.key);
      assert forall q :: q in Parents(p) ==> q in Parents(c.key);
      assert c in h' && Touched(h', p);
      SupersededKeepsDeletes(h, h', p);
    }
  }
}
