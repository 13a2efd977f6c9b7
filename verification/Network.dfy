/**
 Runs of many devices: commits, pages of changes received in any order and any
 number of times, drains and acknowledgements.  Every run keeps the writes
 consistent, so that devices show the same once what one has applied beyond the
 other makes no difference there.
 */
module Network {
  import opened Wrappers
  import opened Stamps
  import opened Replica
  import opened Outcomes
  import opened Convergence
  import opened Devices

  datatype Action =
    | Commit(device: nat, wall: U64, edits: seq<Edit>)
    | Receive(device: nat, page: seq<Change>, order: seq<nat>, waits: map<nat, Wait>)
    | Drain(device: nat, order: seq<nat>, waits: map<nat, Wait>)
    | Acknowledge(device: nat, page: seq<Change>)

  ghost function Sent(ds: seq<Device>): set<Change> {
    set i, c | 0 <= i < |ds| && c in ds[i].written :: c
  }

  // What a device has applied, and all it knows of.
  ghost function Applied(d: Device): set<Change> {
    d.written + DoneChanges(d.tables.rows)
  }

  ghost function Received(d: Device): set<Change> {
    d.written + RowChanges(d.tables.rows)
  }

  // ----- Steps -----

  // A commit edits each key once; a page holds changes that some device wrote.
  // Rows are taken up in any order, and any of them may wait.
  ghost predicate Enabled(ds: seq<Device>, a: Action) {
    && a.device < |ds|
    && match a
       case Commit(_, _, edits) => DistinctEdits(edits)
       case Receive(i, page, order, _) =>
         (forall c :: c in page ==> c in Sent(ds)) && Selects(Staging(ds[i].tables, page).rows, order, false)
       case Drain(i, order, _) => Selects(ds[i].tables.rows, order, true)
       case Acknowledge(_, page) => forall c :: c in page ==> c in Sent(ds)
  }

  // None when two values meet under one stamp.
  ghost function StepOn(ds: seq<Device>, a: Action): Option<Device>
    requires Enabled(ds, a)
  {
    var d := ds[a.device];
    match a
    case Commit(_, wall, edits) => Some(CommitOn(d, wall, edits))
    case Receive(_, page, order, waits) => ReceiveOn(d, page, order, waits)
    case Drain(_, order, waits) => DrainOn(d, order, waits)
    case Acknowledge(_, page) => Some(AckOn(d, page))
  }

  // ----- The invariant -----

  // Not after the stamp of a clock.
  ghost predicate Within(s: Stamp, clock: Option<Stamp>) {
    clock.Some? && !Before(clock.value, s)
  }

  ghost predicate DeviceOk(d: Device, sent: set<Change>) {
    && ValidWriter(d.writer) && ValidStamp(d.accepted)
    && (d.issued.Some? ==> d.issued.value.writer == d.writer)
    && (forall c :: c in d.written ==> c.stamp.writer == d.writer && Within(c.stamp, d.issued))
    && (forall c :: c in RowChanges(d.tables.rows) ==> c in sent && Within(c.stamp, d.accepted))
    && Faithful(d.tables, Applied(d))
  }

  ghost predicate Valid(ds: seq<Device>) {
    && (forall i, j :: 0 <= i < j < |ds| ==> ds[i].writer != ds[j].writer)
    && (forall i :: 0 <= i < |ds| ==> DeviceOk(ds[i], Sent(ds)))
    && Agree(Sent(ds))
  }

  lemma SentHas(ds: seq<Device>, i: nat)
    requires i < |ds|
    ensures ds[i].written <= Sent(ds)
  {
  }

  lemma ReceivedAgree(ds: seq<Device>, i: nat)
    requires Valid(ds) && i < |ds|
    ensures Received(ds[i]) <= Sent(ds) && Agree(Received(ds[i]))
  {
    hide Faithful;
    SentHas(ds, i);
    assert DeviceOk(ds[i], Sent(ds));
    AgreeOnLess(Sent(ds), Received(ds[i]));
  }

  // ----- Receiving -----

  lemma {:induction false} StagingAdds(t: Tables, page: seq<Change>)
    ensures var s := Staging(t, page);
      && s.units == t.units && s.retired == t.retired
      && DoneChanges(s.rows) == DoneChanges(t.rows)
      && (forall c :: c in RowChanges(s.rows) <==> c in RowChanges(t.rows) || c in page)
    decreases |page|
  {
    if page != [] {
      var row := Row(page[0], Staged);
      var next := t.(rows := t.rows + [row]);
      StagingAdds(next, page[1..]);
      assert forall r :: r in next.rows <==> r in t.rows || r == row;
      assert row in next.rows;
      assert forall c :: c in page <==> c == page[0] || c in page[1..];
      forall c
        ensures c in RowChanges(next.rows) <==> c in RowChanges(t.rows) || c == page[0]
      {
        if c in RowChanges(t.rows) {
          var r :| r in t.rows && r.change == c;
          assert r in next.rows;
        }
      }
      forall c
        ensures c in DoneChanges(next.rows) <==> c in DoneChanges(t.rows)
      {
        if c in DoneChanges(t.rows) {
          var r :| r in t.rows && r.status.Done? && r.change == c;
          assert r in next.rows;
        }
      }
    }
  }

  lemma WithinLater(s: Stamp, clock: Option<Stamp>, later: Stamp)
    requires Within(s, clock) && Before(clock.value, later)
    ensures Within(s, Some(later)) && Before(s, later)
  {
    BeforeIsTotal(s, clock.value);
    BeforeIsTotal(s, later);
    if Before(s, clock.value) {
      BeforeIsTransitive(s, clock.value, later);
    }
  }

  lemma {:induction false} LatestIsLast(accepted: Option<Stamp>, page: seq<Change>)
    ensures var last := Latest(accepted, page);
      && (forall c :: c in page ==> Within(c.stamp, last))
      && (forall s :: Within(s, accepted) ==> Within(s, last))
      && (last == accepted || exists c :: c in page && last == Some(c.stamp))
    decreases |page|
  {
    if page != [] {
      var c := page[0];
      var next := if accepted.None? || Before(accepted.value, c.stamp) then Some(c.stamp) else accepted;
      BeforeIsTotal(c.stamp, c.stamp);
      forall s | Within(s, accepted)
        ensures Within(s, next)
      {
        if next != accepted {
          WithinLater(s, accepted, c.stamp);
        }
      }
      LatestIsLast(next, page[1..]);
      assert Within(c.stamp, next);
      assert forall d :: d in page <==> d == c || d in page[1..];
    }
  }

  lemma PassIsOk(ds: seq<Device>, i: nat, t: Tables, order: seq<nat>, waits: map<nat, Wait>, drain: bool)
    requires Valid(ds) && i < |ds| && Selects(t.rows, order, drain)
    requires t.units == ds[i].tables.units && t.retired == ds[i].tables.retired
    requires DoneChanges(t.rows) == DoneChanges(ds[i].tables.rows)
    requires RowChanges(t.rows) <= Sent(ds)
    ensures var r := Pass(t, order, waits);
      && r.Some? && RowChanges(r.value.rows) == RowChanges(t.rows)
      && Faithful(r.value, ds[i].written + DoneChanges(r.value.rows))
  {
    hide Faithful, Agree, Pass;
    SelectedAreReady(t, order, drain);
    assert DeviceOk(ds[i], Sent(ds));
    RestIsApart(ds[i].tables, t, Applied(ds[i]));
    SentHas(ds, i);
    AgreeOnLess(Sent(ds), ds[i].written + RowChanges(t.rows));
    PassIsFaithful(t, ds[i].written, order, waits);
    KeptRowsKeepChanges(t.rows, Pass(t, order, waits).value.rows);
  }

  // A device that writes nothing new leaves the rest as it is.
  lemma StillValid(ds: seq<Device>, i: nat, d: Device)
    requires Valid(ds) && i < |ds| && d.writer == ds[i].writer && d.written == ds[i].written
    requires DeviceOk(d, Sent(ds))
    ensures Valid(ds[i := d]) && Sent(ds[i := d]) == Sent(ds)
  {
    hide DeviceOk;
    var next := ds[i := d];
    assert forall j :: 0 <= j < |ds| ==> next[j].written == ds[j].written && next[j].writer == ds[j].writer;
    assert Sent(next) == Sent(ds);
    forall j | 0 <= j < |next|
      ensures DeviceOk(next[j], Sent(next))
    {
      assert j != i ==> DeviceOk(ds[j], Sent(ds));
    }
  }

  lemma ReceiveIsOk(ds: seq<Device>, a: Action)
    requires Valid(ds) && Enabled(ds, a) && a.Receive?
    ensures StepOn(ds, a).Some? && Valid(ds[a.device := StepOn(ds, a).value])
  {
    hide Faithful, Agree, Staging, Pass, Latest, Selects;
    var d := ds[a.device];
    var staged := Staging(d.tables, a.page);
    assert DeviceOk(d, Sent(ds));
    StagingAdds(d.tables, a.page);
    PassIsOk(ds, a.device, staged, a.order, a.waits, false);
    LatestIsLast(d.accepted, a.page);
    var d' := StepOn(ds, a).value;
    assert ValidStamp(d'.accepted) by {
      if d'.accepted != d.accepted {
        var c :| c in a.page && d'.accepted == Some(c.stamp);
        var w := WrittenByOne(ds, c);
      }
    }
    StillValid(ds, a.device, d');
  }

  lemma {:induction false} AcknowledgedIsApart(t: Tables, page: seq<Change>)
    ensures var t' := Acknowledged(t, page);
      t'.units == t.units && t'.retired == t.retired && t'.rows == t.rows
    decreases |page|
  {
    if page != [] {
      AcknowledgedIsApart(AckOne(t, page[0]), page[1..]);
    }
  }

  lemma AckIsOk(ds: seq<Device>, a: Action)
    requires Valid(ds) && Enabled(ds, a) && a.Acknowledge?
    ensures Valid(ds[a.device := StepOn(ds, a).value])
  {
    hide Faithful, Agree, Latest, Acknowledged;
    var d := ds[a.device];
    var d' := AckOn(d, a.page);
    AcknowledgedIsApart(d.tables, a.page);
    assert DeviceOk(d, Sent(ds));
    LatestIsLast(d.accepted, a.page);
    assert ValidStamp(d'.accepted) by {
      if d'.accepted != d.accepted {
        var c :| c in a.page && d'.accepted == Some(c.stamp);
        var w := WrittenByOne(ds, c);
      }
    }
    RestIsApart(d.tables, d'.tables, Applied(d));
    StillValid(ds, a.device, d');
  }

  lemma WrittenByOne(ds: seq<Device>, c: Change) returns (i: nat)
    requires Valid(ds) && c in Sent(ds)
    ensures i < |ds| && c in ds[i].written && c.stamp.writer == ds[i].writer && ValidWriter(c.stamp.writer)
  {
    hide Faithful, Agree;
    i :| 0 <= i < |ds| && c in ds[i].written;
    assert DeviceOk(ds[i], Sent(ds));
  }

  lemma DrainIsOk(ds: seq<Device>, a: Action)
    requires Valid(ds) && Enabled(ds, a) && a.Drain?
    ensures StepOn(ds, a).Some? && Valid(ds[a.device := StepOn(ds, a).value])
  {
    hide Faithful, Agree, Pass, Selects;
    var d := ds[a.device];
    assert DeviceOk(d, Sent(ds));
    PassIsOk(ds, a.device, d.tables, a.order, a.waits, true);
    StillValid(ds, a.device, StepOn(ds, a).value);
  }

  // ----- Committing -----

  // Every change known of the key is before the stamp.
  ghost predicate IsFresh(h: set<Change>, k: Key, s: Stamp) {
    forall c :: c in h && c.key == k ==> Before(c.stamp, s)
  }

  lemma FreshAgrees(h: set<Change>, c: Change)
    requires Agree(h) && IsFresh(h, c.key, c.stamp)
    ensures Agree(h + {c})
  {
    BeforeIsTotal(c.stamp, c.stamp);
  }

  // A new write is applied like a change later than all others.
  lemma WriteOneIsFaithful(t: Tables, w: set<Change>, e: Edit, s: Stamp)
    requires Faithful(t, w + DoneChanges(t.rows)) && Agree(w + RowChanges(t.rows))
    requires IsFresh(w + RowChanges(t.rows), e.key, s)
    ensures var t' := WriteOne(t, e, s);
      var recorded := if IsRetired(t, e.key) || Shown(t, e) == e.value then {} else {Change(e.key, s, e.value)};
      && RowChanges(t'.rows) == RowChanges(t.rows) && Agree(w + recorded + RowChanges(t'.rows))
      && Faithful(t', w + recorded + DoneChanges(t'.rows))
  {
    hide Faithful, Agree, Put, IsFresh, IsMasked;
    var c := Change(e.key, s, e.value);
    if IsRetired(t, e.key) || Shown(t, e) == e.value {
      assert w + {} == w;
    } else {
      DoneAreRows(t.rows);
      var h := w + DoneChanges(t.rows);
      FreshAgrees(w + RowChanges(t.rows), c);
      FreshOnLess(w + RowChanges(t.rows), h, c.key, s);
      AgreeOnLess(w + RowChanges(t.rows) + {c}, h + {c});
      ApplyIsFaithful(t, h, c);
      WriteIsApply(t, h, e, s);
      ApplyKeepsRows(t, c);
      var t' := WriteOne(t, e, s);
      RestIsApart(Apply(t, c).value, t', h + {c});
      KeptRowsKeepChanges(t.rows, t'.rows);
      assert w + {c} + RowChanges(t'.rows) == w + RowChanges(t.rows) + {c};
      forall d | d in w + {c} + DoneChanges(t'.rows) && d !in h + {c}
        ensures IsMasked(t', d.key)
      {
        var j :| 0 <= j < |t'.rows| && t'.rows[j].change == d && t'.rows[j].status.Done?;
        assert t.rows[j] in t.rows;
        MaskedWithoutRows(Apply(t, c).value, t', d.key);
      }
      MaskedChangesCount(t', h + {c}, w + {c} + DoneChanges(t'.rows));
    }
  }

  lemma FreshOnLess(h: set<Change>, h': set<Change>, k: Key, s: Stamp)
    requires IsFresh(h, k, s) && h' <= h
    ensures IsFresh(h', k, s)
  {
  }

  lemma DoneAreRows(rows: seq<Row>)
    ensures DoneChanges(rows) <= RowChanges(rows)
  {
  }

  // But for the queue, it does what such a change does.
  lemma WriteIsApply(t: Tables, h: set<Change>, e: Edit, s: Stamp)
    requires Faithful(t, h) && IsFresh(h, e.key, s) && !IsRetired(t, e.key) && Shown(t, e) != e.value
    ensures var r, w := Apply(t, Change(e.key, s, e.value)), WriteOne(t, e, s);
      r.Some? && r.value.units == w.units && r.value.retired == w.retired && r.value.rows == w.rows
  {
    hide Put, Witnessed, Requeued;
    var put := Put(t, e.key, Version(s, e.value), true);
    PutAlike(t, e.key, Version(s, e.value));
    RequeuedIsApart(put, Parents(e.key) + e.names);
    WitnessedIsApart(Put(t, e.key, Version(s, e.value), false), {}, Change(e.key, s, e.value));
    if e.key in t.units {
      var local := t.units[e.key];
      assert Change(e.key, local.stamp, local.value) in h;
      BeforeIsTotal(local.stamp, s);
    }
  }

  lemma PutAlike(t: Tables, k: Key, v: Version)
    ensures var a, b := Put(t, k, v, true), Put(t, k, v, false);
      a.units == b.units && a.retired == b.retired && a.rows == b.rows
  {
    hide Suppressed, Without;
  }

  ghost predicate AllFresh(h: set<Change>, edits: seq<Edit>, s: Stamp) {
    forall i :: 0 <= i < |edits| ==> IsFresh(h, edits[i].key, s)
  }

  lemma {:induction false} WriteAllIsFaithful(t: Tables, w: set<Change>, edits: seq<Edit>, s: Stamp)
    requires DistinctEdits(edits) && AllFresh(w + RowChanges(t.rows), edits, s)
    requires Faithful(t, w + DoneChanges(t.rows)) && Agree(w + RowChanges(t.rows))
    ensures var t' := WriteAll(t, edits, s);
      && RowChanges(t'.rows) == RowChanges(t.rows)
      && Faithful(t', w + Recorded(t, edits, s) + DoneChanges(t'.rows))
    decreases |edits|
  {
    hide Faithful, Agree, WriteOne, Shown, IsRetired, IsFresh;
    if edits == [] {
      assert w + {} == w;
    } else {
      var e := edits[0];
      var recorded := if IsRetired(t, e.key) || Shown(t, e) == e.value then {} else {Change(e.key, s, e.value)};
      WriteOneIsFaithful(t, w, e, s);
      var next := WriteOne(t, e, s);
      assert AllFresh(w + recorded + RowChanges(next.rows), edits[1..], s) by {
        forall i | 0 <= i < |edits[1..]|
          ensures IsFresh(w + recorded + RowChanges(next.rows), edits[1..][i].key, s)
        {
          assert edits[i + 1].key != e.key;
          assert IsFresh(w + RowChanges(t.rows), edits[i + 1].key, s);
          FreshButFor(w + RowChanges(t.rows), recorded, e.key, edits[i + 1].key, s);
          assert w + recorded + RowChanges(next.rows) == w + RowChanges(t.rows) + recorded;
        }
      }
      WriteAllIsFaithful(next, w + recorded, edits[1..], s);
      assert w + recorded + Recorded(next, edits[1..], s) == w + Recorded(t, edits, s);
    }
  }

  lemma FreshButFor(h: set<Change>, more: set<Change>, key: Key, k: Key, s: Stamp)
    requires IsFresh(h, k, s) && k != key && forall c :: c in more ==> c.key == key
    ensures IsFresh(h + more, k, s)
  {
  }

  // Each change recorded is one of the edits, under the stamp.
  lemma {:induction false} RecordedAreEdits(t: Tables, edits: seq<Edit>, s: Stamp)
    ensures forall c :: c in Recorded(t, edits, s) ==> c.stamp == s && IsEdit(edits, c)
    decreases |edits|
  {
    if edits != [] {
      RecordedAreEdits(WriteOne(t, edits[0], s), edits[1..], s);
      forall c | c in Recorded(t, edits, s)
        ensures c.stamp == s && IsEdit(edits, c)
      {
        if IsEdit(edits[1..], c) {
          var i :| 0 <= i < |edits[1..]| && edits[1..][i].key == c.key && edits[1..][i].value == c.value;
          assert edits[i + 1].key == c.key;
        } else {
          assert edits[0].key == c.key;
        }
      }
    }
  }

  ghost predicate IsEdit(edits: seq<Edit>, c: Change) {
    exists i :: 0 <= i < |edits| && edits[i].key == c.key && edits[i].value == c.value
  }

  // The stamp issued is after every change the device knows of.
  lemma IssuedIsFresh(d: Device, sent: set<Change>, wall: U64, edits: seq<Edit>)
    requires DeviceOk(d, sent)
    ensures var issue := IssueStamp(wall, d.writer, d.issued, d.accepted);
      && !issue.InvalidWriter?
      && (issue.Issued? ==> issue.stamp.writer == d.writer && AllFresh(Received(d), edits, issue.stamp))
      && (issue.Issued? && d.issued.Some? ==> Before(d.issued.value, issue.stamp))
  {
    hide Faithful, IssueStamp;
    IssueIsNext(wall, d.writer, d.issued, d.accepted);
    var issue := IssueStamp(wall, d.writer, d.issued, d.accepted);
    if issue.Issued? {
      forall c | c in Received(d)
        ensures Before(c.stamp, issue.stamp)
      {
        if c in d.written {
          WithinLater(c.stamp, d.issued, issue.stamp);
        } else {
          WithinLater(c.stamp, d.accepted, issue.stamp);
        }
      }
    }
  }

  // New writes under a stamp of the device's own agree with all there are.
  lemma NewWritesAgree(ds: seq<Device>, i: nat, s: Stamp, edits: seq<Edit>, recorded: set<Change>)
    requires Valid(ds) && i < |ds| && DistinctEdits(edits)
    requires s.writer == ds[i].writer && (ds[i].issued.Some? ==> Before(ds[i].issued.value, s))
    requires forall c :: c in recorded ==> c.stamp == s && IsEdit(edits, c)
    ensures Agree(Sent(ds) + recorded)
  {
    hide Faithful;
    forall c, d | c in Sent(ds) + recorded && d in recorded && c.key == d.key && c.stamp == d.stamp
      ensures c.value == d.value
    {
      if c !in recorded {
        var j := WrittenByOne(ds, c);
        assert false;
      }
    }
  }

  lemma CommitIsOk(ds: seq<Device>, a: Action)
    requires Valid(ds) && Enabled(ds, a) && a.Commit?
    ensures Valid(ds[a.device := StepOn(ds, a).value])
  {
    hide Faithful, Agree, WriteAll, Recorded, IssueStamp;
    var d, i := ds[a.device], a.device;
    assert DeviceOk(d, Sent(ds));
    IssuedIsFresh(d, Sent(ds), a.wall, a.edits);
    var issue := IssueStamp(a.wall, d.writer, d.issued, d.accepted);
    if !issue.Issued? {
      assert ds[i := d] == ds;
    } else {
      var s := issue.stamp;
      var recorded := Recorded(d.tables, a.edits, s);
      ReceivedAgree(ds, i);
      WriteAllIsFaithful(d.tables, d.written, a.edits, s);
      RecordedAreEdits(d.tables, a.edits, s);
      NewWritesAgree(ds, i, s, a.edits, recorded);
      CommitKeepsClocks(d, Sent(ds), s, recorded);
      MoreIsSent(ds, i, StepOn(ds, a).value, recorded);
    }
  }

  lemma CommitKeepsClocks(d: Device, sent: set<Change>, s: Stamp, recorded: set<Change>)
    requires DeviceOk(d, sent) && s.writer == d.writer && (d.issued.Some? ==> Before(d.issued.value, s))
    requires forall c :: c in recorded ==> c.stamp == s
    ensures forall c :: c in d.written + recorded ==> c.stamp.writer == d.writer && Within(c.stamp, Some(s))
  {
    hide Faithful;
    BeforeIsTotal(s, s);
    forall c | c in d.written
      ensures Within(c.stamp, Some(s))
    {
      WithinLater(c.stamp, d.issued, s);
    }
  }

  lemma MoreIsSent(ds: seq<Device>, i: nat, d: Device, recorded: set<Change>)
    requires Valid(ds) && i < |ds| && d.writer == ds[i].writer && d.written == ds[i].written + recorded
    requires DeviceOk(d, Sent(ds)) && Agree(Sent(ds) + recorded)
    ensures Valid(ds[i := d])
  {
    hide DeviceOk, Agree;
    var next := ds[i := d];
    forall c
      ensures c in Sent(next) <==> c in Sent(ds) + recorded
    {
      if j :| 0 <= j < |ds| && c in ds[j].written {
        assert c in next[j].written;
      }
      if c in recorded {
        assert c in next[i].written;
      }
    }
    assert Sent(next) == Sent(ds) + recorded;
    forall j | 0 <= j < |next|
      ensures DeviceOk(next[j], Sent(next))
    {
      assert j != i ==> DeviceOk(ds[j], Sent(ds));
      DeviceStaysOk(next[j], Sent(ds), Sent(next));
    }
  }

  lemma DeviceStaysOk(d: Device, sent: set<Change>, sent': set<Change>)
    requires DeviceOk(d, sent) && sent <= sent'
    ensures DeviceOk(d, sent')
  {
    hide Faithful;
  }

  // ----- The owners of what is written are written -----

  // Every owner of what a commit edits is here, or is made by the commit.
  ghost predicate HasOwners(t: Tables, edits: seq<Edit>) {
    forall i, p :: 0 <= i < |edits| && p in Parents(edits[i].key) ==> p in t.units || Makes(edits, p)
  }

  ghost predicate Makes(edits: seq<Edit>, p: Key) {
    exists i :: 0 <= i < |edits| && edits[i].key == p && edits[i].value != edits[i].before
  }

  // Present, or gone for good.
  ghost predicate IsHere(t: Tables, k: Key) {
    k in t.units || IsRetired(t, k)
  }

  lemma WriteOneIsHere(t: Tables, e: Edit, s: Stamp, k: Key)
    ensures IsHere(t, k) ==> IsHere(WriteOne(t, e, s), k)
    ensures e.key == k && e.value != e.before ==> IsHere(WriteOne(t, e, s), k)
  {
    hide Put, Requeued, IsMasked;
    var t' := WriteOne(t, e, s);
    PutPuts(t, Change(e.key, s, e.value), true);
    RequeuedIsApart(Put(t, e.key, Version(s, e.value), true), Parents(e.key) + e.names);
    if IsMasked(t, k) {
      MaskedStays(t, t', k);
    } else if k in t.units && k !in t'.units {
      ParentMasks(t', k, e.key);
    }
  }

  lemma ParentMasks(t: Tables, k: Key, p: Key)
    requires p in Parents(k) && p in t.retired
    ensures IsMasked(t, k)
  {
  }

  lemma RequeuedIsApart(t: Tables, owners: set<Key>)
    ensures var t' := Requeued(t, owners);
      t'.units == t.units && t'.retired == t.retired && t'.rows == t.rows && t'.published == t.published
  {
  }

  lemma {:induction false} WriteAllIsHere(t: Tables, edits: seq<Edit>, s: Stamp, k: Key)
    requires IsHere(t, k) || Makes(edits, k)
    ensures IsHere(WriteAll(t, edits, s), k)
    decreases |edits|
  {
    hide WriteOne, IsHere;
    if edits != [] {
      WriteOneIsHere(t, edits[0], s, k);
      if !IsHere(WriteOne(t, edits[0], s), k) {
        var i :| 0 <= i < |edits| && edits[i].key == k && edits[i].value != edits[i].before;
        assert edits[1..][i - 1] == edits[i];
      }
      WriteAllIsHere(WriteOne(t, edits[0], s), edits[1..], s, k);
    }
  }

  lemma HereIsTouched(t: Tables, h: set<Change>, k: Key, p: Key)
    requires Known(t, h) && IsHere(t, p) && p in Parents(k)
    ensures Touched(h, p) || OwnerDeleted(h, k)
  {
    assert forall q :: q in Parents(p) ==> q in Parents(k);
    if p in t.units {
      assert Change(p, t.units[p].stamp, t.units[p].value) in h;
    }
  }

  lemma ClosedGrows(h: set<Change>, h': set<Change>, k: Key, p: Key)
    requires h <= h' && (Touched(h, p) || OwnerDeleted(h, k))
    ensures Touched(h', p) || OwnerDeleted(h', k)
  {
    if OwnerDeleted(h, k) {
      var q :| q in Parents(k) && HardDeleted(h, q);
      HardDeletedGrows(h, h', q);
    } else {
      var c :| c in h && c.key == p;
      assert c in h';
    }
  }

  // A commit whose edits have their owners leaves the writes closed, and nothing else writes.
  lemma StepIsClosed(ds: seq<Device>, a: Action)
    requires Valid(ds) && Enabled(ds, a) && StepOn(ds, a).Some? && IsClosed(Sent(ds))
    requires a.Commit? ==> HasOwners(ds[a.device].tables, a.edits)
    ensures IsClosed(Sent(ds[a.device := StepOn(ds, a).value]))
  {
    hide Valid, Selects, HasOwners, Known, Touched, OwnerDeleted, StepOn, DeviceOk;
    var d, next := StepOn(ds, a).value, ds[a.device := StepOn(ds, a).value];
    StepIsOk(ds, a);
    StepSends(ds, a);
    forall c, p | c in Sent(next) && p in Parents(c.key)
      ensures Touched(Sent(next), p) || OwnerDeleted(Sent(next), c.key)
    {
      if c in Sent(ds) {
        ClosedGrows(Sent(ds), Sent(next), c.key, p);
      } else {
        WrittenNowHasOwners(ds, a, c, p);
        AppliedAreSent(next, a.device);
        HereIsTouched(d.tables, Applied(d), c.key, p);
        ClosedGrows(Applied(d), Sent(next), c.key, p);
      }
    }
  }

  lemma WrittenNowHasOwners(ds: seq<Device>, a: Action, c: Change, p: Key)
    requires Valid(ds) && Enabled(ds, a) && StepOn(ds, a).Some?
    requires a.Commit? ==> HasOwners(ds[a.device].tables, a.edits)
    requires c in Sent(ds[a.device := StepOn(ds, a).value]) && c !in Sent(ds) && p in Parents(c.key)
    ensures IsHere(StepOn(ds, a).value.tables, p)
  {
    hide Valid, WriteAll, Recorded, IssueStamp, IsHere;
    var d, e := ds[a.device], StepOn(ds, a).value;
    assert forall j :: 0 <= j < |ds| ==> c !in ds[j].written;
    assert c in e.written by {
      var j :| 0 <= j < |ds| && c in ds[a.device := e][j].written;
      assert j == a.device;
    }
    assert a.Commit?;
    var s := IssueStamp(a.wall, d.writer, d.issued, d.accepted).stamp;
    RecordedAreEdits(d.tables, a.edits, s);
    var i :| 0 <= i < |a.edits| && a.edits[i].key == c.key && a.edits[i].value == c.value;
    assert IsHere(d.tables, p) || Makes(a.edits, p) by {
      assert p in d.tables.units ==> IsHere(d.tables, p) by {
        UnitIsHere(d.tables, p);
      }
    }
    WriteAllIsHere(d.tables, a.edits, s, p);
  }

  lemma UnitIsHere(t: Tables, k: Key)
    ensures k in t.units ==> IsHere(t, k)
  {
  }

  lemma StepSends(ds: seq<Device>, a: Action)
    requires Enabled(ds, a) && StepOn(ds, a).Some?
    ensures Sent(ds) <= Sent(ds[a.device := StepOn(ds, a).value])
  {
    hide Pass, WriteAll, Recorded, IssueStamp, Latest, Acknowledged, Staging, Selects;
    var d := StepOn(ds, a).value;
    var next := ds[a.device := d];
    assert ds[a.device].written <= d.written;
    forall c | c in Sent(ds)
      ensures c in Sent(next)
    {
      var j :| 0 <= j < |ds| && c in ds[j].written;
      assert c in next[j].written;
    }
  }

  // ----- Runs -----

  ghost predicate Start(ds: seq<Device>) {
    && (forall i, j :: 0 <= i < j < |ds| ==> ds[i].writer != ds[j].writer)
    && forall i :: 0 <= i < |ds| ==>
         ValidWriter(ds[i].writer) && ds[i] == NewDevice(ds[i].writer)
  }

  ghost predicate Legal(ds: seq<Device>, run: seq<Action>)
    decreases |run|
  {
    run == [] ||
    (Enabled(ds, run[0]) &&
     (StepOn(ds, run[0]).Some? ==> Legal(ds[run[0].device := StepOn(ds, run[0]).value], run[1..])))
  }

  // Where a run leads; None when two values met under one stamp.
  ghost function After(ds: seq<Device>, run: seq<Action>): Option<seq<Device>>
    requires Legal(ds, run)
    decreases |run|
  {
    if run == [] then Some(ds)
    else
      var d := StepOn(ds, run[0]);
      if d.None? then None else After(ds[run[0].device := d.value], run[1..])
  }

  lemma StartIsValid(ds: seq<Device>)
    requires Start(ds)
    ensures Valid(ds)
  {
    assert Sent(ds) == {};
    forall i | 0 <= i < |ds|
      ensures DeviceOk(ds[i], Sent(ds))
    {
      assert Applied(ds[i]) == {};
      assert Faithful(ds[i].tables, {});
    }
  }

  lemma StepIsOk(ds: seq<Device>, a: Action)
    requires Valid(ds) && Enabled(ds, a)
    ensures StepOn(ds, a).Some? && Valid(ds[a.device := StepOn(ds, a).value])
  {
    hide Valid, Enabled;
    match a
    case Commit(_, _, _) => CommitIsOk(ds, a);
    case Receive(_, _, _, _) => ReceiveIsOk(ds, a);
    case Drain(_, _, _) => DrainIsOk(ds, a);
    case Acknowledge(_, _) => AckIsOk(ds, a);
  }

  // No run ever sees two values under one stamp, and all keep the invariant.
  lemma {:induction false} RunsAreValid(ds: seq<Device>, run: seq<Action>)
    requires Valid(ds) && Legal(ds, run)
    ensures After(ds, run).Some? && Valid(After(ds, run).value)
    decreases |run|
  {
    hide Valid, StepOn;
    if run != [] {
      StepIsOk(ds, run[0]);
      RunsAreValid(ds[run[0].device := StepOn(ds, run[0]).value], run[1..]);
    }
  }

  lemma AppliedAreSent(ds: seq<Device>, i: nat)
    requires Valid(ds) && i < |ds|
    ensures Applied(ds[i]) <= Received(ds[i]) <= Sent(ds) && Faithful(ds[i].tables, Applied(ds[i]))
  {
    hide Faithful, Agree;
    ReceivedAgree(ds, i);
    DoneAreRows(ds[i].tables.rows);
    assert DeviceOk(ds[i], Sent(ds));
  }

  // After any run, devices show the same when what either has applied beyond
  // the other is superseded there, as it is when both have applied the same.
  lemma DevicesConverge(start: seq<Device>, run: seq<Action>, i: nat, j: nat)
    requires Start(start) && Legal(start, run)
    ensures After(start, run).Some?
    ensures var ds := After(start, run).value;
      i < |ds| && j < |ds| && Covers(Applied(ds[i]), Applied(ds[j])) && Covers(Applied(ds[j]), Applied(ds[i]))
      ==> View(ds[i].tables) == View(ds[j].tables)
  {
    hide Faithful, Agree, After, Legal, Superseded;
    StartIsValid(start);
    RunsAreValid(start, run);
    var ds := After(start, run).value;
    if i < |ds| && j < |ds| && Covers(Applied(ds[i]), Applied(ds[j])) && Covers(Applied(ds[j]), Applied(ds[i])) {
      var both := Applied(ds[i]) + Applied(ds[j]);
      AppliedAreSent(ds, i);
      AppliedAreSent(ds, j);
      SupersededCount(ds[i].tables, Applied(ds[i]), both);
      SupersededCount(ds[j].tables, Applied(ds[j]), both);
      AgreeOnLess(Sent(ds), both);
      SameChangesSameView(ds[i].tables, ds[j].tables, both);
    }
  }

  // Everything but what is superseded has reached the device, and the owners of its rows.
  ghost predicate HasAll(ds: seq<Device>, i: nat, order: seq<nat>) {
    && i < |ds| && Covers(Received(ds[i]), Sent(ds))
    && Drains(ds[i], order) && RowsHaveOwners(ds[i].tables, Received(ds[i]), order)
  }

  // An order in which a drain may take up all rows.
  ghost predicate Drains(d: Device, order: seq<nat>) {
    Selects(d.tables.rows, order, true) && OwnersFirst(d.tables.rows, order)
  }

  // A drain in which no row waits applies everything exactly when the owners of every row are known.
  lemma DrainAppliesAll(ds: seq<Device>, i: nat, order: seq<nat>)
    requires Valid(ds) && i < |ds| && Drains(ds[i], order)
    ensures var drained := DrainOn(ds[i], order, map[]);
      && drained.Some? && Received(drained.value) == Received(ds[i])
      && ((forall n :: 0 <= n < |drained.value.tables.rows| ==> drained.value.tables.rows[n].status.Done?)
          <==> RowsHaveOwners(ds[i].tables, Received(ds[i]), order))
      && (RowsHaveOwners(ds[i].tables, Received(ds[i]), order) ==>
            Applied(drained.value) == Received(ds[i]) && Faithful(drained.value.tables, Received(ds[i])))
  {
    hide Faithful, Agree, Pass, RowsHaveOwners;
    var t := ds[i].tables;
    assert DeviceOk(ds[i], Sent(ds));
    ReceivedAgree(ds, i);
    SelectedAreReady(t, order, true);
    OthersAreDone(t.rows, order);
    PassDrains(t, ds[i].written, order);
    PassIsFaithful(t, ds[i].written, order, map[]);
    var t' := Pass(t, order, map[]).value;
    KeptRowsKeepChanges(t.rows, t'.rows);
    if RowsHaveOwners(t, Received(ds[i]), order) {
      AllDone(t'.rows);
    }
  }

  // Once everything but what is superseded has reached a device, whatever was
  // held or deferred there, a drain with nothing being generated applies it all:
  // the device shows, of each key not under a deleted owner, the latest delete
  // ever written, or with none the latest change.
  lemma EverythingArrives(start: seq<Device>, run: seq<Action>, i: nat, order: seq<nat>)
    requires Start(start) && Legal(start, run) && After(start, run).Some?
    requires HasAll(After(start, run).value, i, order)
    ensures var ds := After(start, run).value;
      var drained := DrainOn(ds[i], order, map[]);
      && drained.Some? && Applied(drained.value) == Received(ds[i]) && Faithful(drained.value.tables, Sent(ds))
  {
    hide Faithful, Agree, After, Legal, Pass, RowsHaveOwners, Superseded;
    StartIsValid(start);
    RunsAreValid(start, run);
    var ds := After(start, run).value;
    ReceivedAgree(ds, i);
    DrainAppliesAll(ds, i, order);
    SupersededCount(DrainOn(ds[i], order, map[]).value.tables, Received(ds[i]), Sent(ds));
  }

  // So any two such devices show the same after draining.
  lemma DevicesEndAlike(
    start: seq<Device>, run: seq<Action>, i: nat, j: nat, orderI: seq<nat>, orderJ: seq<nat>)
    requires Start(start) && Legal(start, run) && After(start, run).Some?
    requires HasAll(After(start, run).value, i, orderI) && HasAll(After(start, run).value, j, orderJ)
    ensures var ds := After(start, run).value;
      var a, b := DrainOn(ds[i], orderI, map[]), DrainOn(ds[j], orderJ, map[]);
      a.Some? && b.Some? && View(a.value.tables) == View(b.value.tables)
  {
    hide Faithful, Agree, After, Legal, Pass, Covers, RowsHaveOwners;
    EverythingArrives(start, run, i, orderI);
    EverythingArrives(start, run, j, orderJ);
    StartIsValid(start);
    RunsAreValid(start, run);
    var ds := After(start, run).value;
    SameChangesSameView(
      DrainOn(ds[i], orderI, map[]).value.tables, DrainOn(ds[j], orderJ, map[]).value.tables, Sent(ds));
  }

  lemma OthersAreDone(rows: seq<Row>, order: seq<nat>)
    requires Selects(rows, order, true)
    ensures OnlyOpen(rows, order)
  {
  }

  lemma AllDone(rows: seq<Row>)
    requires forall i :: 0 <= i < |rows| ==> rows[i].status.Done?
    ensures DoneChanges(rows) == RowChanges(rows)
  {
  }
}
