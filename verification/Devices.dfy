/**
 A device: its clock, its tables, and the calls that change them.
 */
module Devices {
  import opened Wrappers
  import opened Stamps
  import opened Replica
  import opened Outcomes

  // `written` is what the device has ever recorded.
  datatype Device = Device(
    writer: Writer, issued: Option<Stamp>, accepted: Option<Stamp>, tables: Tables, written: set<Change>)

  function NewDevice(writer: Writer): Device {
    Device(writer, None, None, NO_TABLES, {})
  }

  function CommitOn(d: Device, wall: U64, edits: seq<Edit>): Device {
    var issue := IssueStamp(wall, d.writer, d.issued, d.accepted);
    if !issue.Issued? then d
    else Device(d.writer, Some(issue.stamp), d.accepted, WriteAll(d.tables, edits, issue.stamp),
                d.written + Recorded(d.tables, edits, issue.stamp))
  }

  // None when two values meet under one stamp.
  function ReceiveOn(d: Device, page: seq<Change>, order: seq<nat>, waits: map<nat, Wait>): Option<Device>
    requires InRange(order, |Staging(d.tables, page).rows|)
  {
    var applied := Pass(Staging(d.tables, page), order, waits);
    if applied.None? then None
    else Some(d.(tables := applied.value, accepted := Latest(d.accepted, page)))
  }

  function DrainOn(d: Device, order: seq<nat>, waits: map<nat, Wait>): Option<Device>
    requires InRange(order, |d.tables.rows|)
  {
    var applied := Pass(d.tables, order, waits);
    if applied.None? then None else Some(d.(tables := applied.value))
  }

  function AckOn(d: Device, page: seq<Change>): Device {
    d.(tables := Acknowledged(d.tables, page), accepted := Latest(d.accepted, page))
  }

  // What was published as it is queued is queued no more, and is known to be
  // published while it is the unit.
  function Acknowledged(t: Tables, page: seq<Change>): Tables
    decreases |page|
  {
    if page == [] then t else Acknowledged(AckOne(t, page[0]), page[1..])
  }

  function AckOne(t: Tables, c: Change): Tables {
    var k, v := c.key, Version(c.stamp, c.value);
    t.(outbox := if k in t.outbox && t.outbox[k] == v then t.outbox - {k} else t.outbox,
       published := if k in t.units && t.units[k] == v then t.published[k := v] else t.published)
  }

  // What leaves the queue is what the page has as it is queued; what is then
  // known to be published is what the page has as the unit.
  lemma {:induction false} AcknowledgedIs(t: Tables, page: seq<Change>)
    ensures var t' := Acknowledged(t, page);
      && t' == t.(outbox := t'.outbox, published := t'.published)
      && (forall k :: k in t'.outbox <==> k in t.outbox && Change(k, t.outbox[k].stamp, t.outbox[k].value) !in page)
      && (forall k :: k in t'.outbox ==> t'.outbox[k] == t.outbox[k])
      && (forall k :: k in t'.published <==>
            k in t.published || (k in t.units && Change(k, t.units[k].stamp, t.units[k].value) in page))
      && (forall k :: k in t'.published ==>
            if k in t.units && Change(k, t.units[k].stamp, t.units[k].value) in page then t'.published[k] == t.units[k]
            else t'.published[k] == t.published[k])
    decreases |page|
  {
    if page != [] {
      AcknowledgedIs(AckOne(t, page[0]), page[1..]);
      assert forall c :: c in page <==> c == page[0] || c in page[1..];
    }
  }

  // Every row of the query is taken up.
  lemma AllTakenUp(t: Tables, queried: seq<nat>, waits: map<nat, Wait>)
    requires Distinct(queried) && InRange(queried, |t.rows|)
    requires Pass(t, ExistencesFirst(t.rows, queried), waits).Some?
    ensures forall i :: i in queried ==>
      RowOk(t, Pass(t, ExistencesFirst(t.rows, queried), waits).value, i, waits)
  {
    hide RowOk, Pass;
    var first, second := Among(t.rows, queried, true), Among(t.rows, queried, false);
    var order := ExistencesFirst(t.rows, queried);
    AmongAre(t.rows, queried, true);
    AmongAre(t.rows, queried, false);
    forall i, j | 0 <= i < j < |order|
      ensures order[i] != order[j]
    {
      if i < |first| <= j {
        assert order[i] in first && order[j] in second;
      }
    }
    forall i | i in queried
      ensures RowOk(t, Pass(t, order, waits).value, i, waits)
    {
      assert i in first || i in second;
      assert i in order;
      PassTakesUp(t, order, waits, i);
    }
  }

  // ----- The device's store -----

  class Store {
    const writer: Writer
    var issued: Option<Stamp>
    var accepted: Option<Stamp>
    // What is committed.
    var tables: Tables
    ghost var written: set<Change>

    constructor (writer: Writer)
      ensures Value() == NewDevice(writer)
    {
      this.writer, issued, accepted, tables := writer, None, None, NO_TABLES;
      written := {};
    }

    ghost function Value(): Device
      reads this
    {
      Device(writer, issued, accepted, tables, written)
    }

    // reserve_stamp
    method Reserve(wall: U64) returns (issue: Issue)
      modifies this
      ensures issue == IssueStamp(wall, writer, old(issued), old(accepted))
      ensures issued == if issue.Issued? then Some(issue.stamp) else old(issued)
      ensures issue.Issued? ==> AfterBoth(issue.stamp, wall, old(issued), old(accepted))
      ensures accepted == old(accepted) && tables == old(tables) && written == old(written)
    {
      IssueIsNext(wall, writer, issued, accepted);
      issue := IssueStamp(wall, writer, issued, accepted);
      if issue.Issued? {
        issued := Some(issue.stamp);
      }
    }

    // observe, for each change of a page
    method Observe(page: seq<Change>)
      modifies this
      ensures accepted == Latest(old(accepted), page)
      ensures issued == old(issued) && tables == old(tables) && written == old(written)
    {
      for i := 0 to |page|
        invariant Latest(accepted, page[i..]) == Latest(old(accepted), page)
        invariant issued == old(issued) && tables == old(tables) && written == old(written)
      {
        assert page[i..][1..] == page[i + 1..];
        if accepted.None? || Before(accepted.value, page[i].stamp) {
          accepted := Some(page[i].stamp);
        }
      }
    }

    // stage_receive_rows
    method Stage(page: seq<Change>)
      modifies this
      ensures tables == Staging(old(tables), page)
      ensures issued == old(issued) && accepted == old(accepted) && written == old(written)
    {
      var tx := tables;
      for i := 0 to |page|
        invariant Staging(tx, page[i..]) == Staging(tables, page)
      {
        assert page[i..][1..] == page[i + 1..];
        tx := tx.(rows := tx.rows + [Row(page[i], Staged)]);
      }
      tables := tx;
    }

    // apply_receive_rows, in one transaction: `queried` is what its query gives,
    // which is then sorted.
    method ApplyReceiveRows(queried: seq<nat>, waits: map<nat, Wait>) returns (failed: bool)
      requires InRange(queried, |tables.rows|)
      modifies this
      ensures var applied := Pass(old(tables), ExistencesFirst(old(tables.rows), queried), waits);
        failed == applied.None? && tables == if failed then old(tables) else applied.value
      ensures !failed && Distinct(queried) ==>
        |tables.rows| == |old(tables.rows)| && forall i :: i in queried ==> RowOk(old(tables), tables, i, waits)
      ensures issued == old(issued) && accepted == old(accepted) && written == old(written)
    {
      hide Put, StatusFor, ExistencesFirst, Apply;
      var order := ExistencesFirst(tables.rows, queried);
      var tx := tables;
      var k := 0;
      while k < |order|
        invariant 0 <= k <= |order| && |tx.rows| == |tables.rows|
        invariant Pass(tx, order[k..], waits) == Pass(tables, order, waits)
        invariant tables == old(tables) && written == old(written)
        invariant issued == old(issued) && accepted == old(accepted)
      {
        assert order[k..][1..] == order[k + 1..];
        var change := tx.rows[order[k]].change;
        var status := StatusFor(tx, change.key, order[k], waits);
        if status.Done? {
          var applied := Apply(tx, change);
          if applied.None? {
            return true;
          }
          tx := applied.value;
        }
        tx := tx.(rows := tx.rows[order[k] := Row(change, status)]);
        k := k + 1;
      }
      if Distinct(queried) {
        AllTakenUp(tables, queried, waits);
      }
      tables := tx;
      failed := false;
    }

    // lww_apply_receive on a page: staged, applied, and then observed.  A
    // failed application leaves it staged.
    method Receive(page: seq<Change>, queried: seq<nat>, waits: map<nat, Wait>) returns (failed: bool)
      requires InRange(queried, |Staging(tables, page).rows|)
      modifies this
      ensures var order := ExistencesFirst(Staging(old(tables), page).rows, queried);
        var received := ReceiveOn(old(Value()), page, order, waits);
        && failed == received.None?
        && Value() == if failed then old(Value()).(tables := Staging(old(tables), page)) else received.value
    {
      Stage(page);
      failed := ApplyReceiveRows(queried, waits);
      if !failed {
        Observe(page);
      }
    }

    // lww_drain_deferred
    method Drain(queried: seq<nat>, waits: map<nat, Wait>) returns (failed: bool)
      requires InRange(queried, |tables.rows|)
      modifies this
      ensures var drained := DrainOn(old(Value()), ExistencesFirst(old(tables.rows), queried), waits);
        failed == drained.None? && Value() == if failed then old(Value()) else drained.value
    {
      failed := ApplyReceiveRows(queried, waits);
    }

    // A local commit: a stamp is reserved, and the changes are recorded under it.
    method Commit(wall: U64, edits: seq<Edit>) returns (issue: Issue)
      modifies this
      ensures issue == IssueStamp(wall, writer, old(issued), old(accepted))
      ensures Value() == CommitOn(old(Value()), wall, edits)
      ensures issue.Issued? && DistinctEdits(edits) ==>
        EditsAreWritten(old(tables), edits, issue.stamp, tables, old(written), written)
    {
      issue := Reserve(wall);
      if issue.Issued? {
        RecordChanges(edits, issue.stamp);
      }
    }

    // lww_ack_outbox
    method Acknowledge(page: seq<Change>)
      modifies this
      ensures Value() == AckOn(old(Value()), page)
      ensures accepted == Latest(old(accepted), page)
    {
      var tx := tables;
      for i := 0 to |page|
        invariant Acknowledged(tx, page[i..]) == Acknowledged(tables, page) && Value() == old(Value())
      {
        assert page[i..][1..] == page[i + 1..];
        var k, v := page[i].key, Version(page[i].stamp, page[i].value);
        if k in tx.outbox && tx.outbox[k] == v {
          tx := tx.(outbox := tx.outbox - {k});
        }
        if k in tx.units && tx.units[k] == v {
          tx := tx.(published := tx.published[k := v]);
        }
      }
      tables := tx;
      Observe(page);
    }

    // record_changes
    method RecordChanges(edits: seq<Edit>, stamp: Stamp)
      modifies this
      ensures tables == WriteAll(old(tables), edits, stamp)
      ensures written == old(written) + Recorded(old(tables), edits, stamp)
      ensures DistinctEdits(edits) ==>
        EditsAreWritten(old(tables), edits, stamp, tables, old(written), written)
      ensures issued == old(issued) && accepted == old(accepted)
    {
      hide Put, IsRetired, Shown, Requeued;
      var tx := tables;
      ghost var recorded := {};
      for i := 0 to |edits|
        invariant WriteAll(tx, edits[i..], stamp) == WriteAll(tables, edits, stamp)
        invariant recorded + Recorded(tx, edits[i..], stamp) == Recorded(tables, edits, stamp)
      {
        assert edits[i..][1..] == edits[i + 1..];
        var e := edits[i];
        if !IsRetired(tx, e.key) && Shown(tx, e) != e.value {
          tx := Put(tx, e.key, Version(stamp, e.value), true);
          tx := Requeued(tx, Parents(e.key) + e.names);
          recorded := recorded + {Change(e.key, stamp, e.value)};
        }
      }
      if DistinctEdits(edits) {
        AllEditsAreWritten(tables, edits, stamp, written);
      }
      tables := tx;
      written := written + recorded;
    }
  }
}
