/**
 Devices that synchronise through one server.  A device queues one version of
 each key, and the server keeps one: most versions never reach another device.
 Once the queues are empty and every device has what the server keeps, all show
 the same.
 */
module Sync {
  import opened Wrappers
  import opened Stamps
  import opened Replica
  import opened Convergence
  import opened Devices
  import opened Network
  import opened Server

  datatype System = System(devices: seq<Device>, library: Holding)

  // A device acts, or changes are pushed to the server.
  datatype Event = Acts(action: Action) | Push(page: seq<Change>)

  // What devices receive, or see acknowledged, has been pushed; what is pushed
  // some device wrote, each key once in a push.
  ghost predicate CanHappen(s: System, e: Event) {
    match e
    case Acts(a) =>
      && Enabled(s.devices, a)
      && (a.Receive? || a.Acknowledge? ==> ChangesOf(a.page) <= s.library.versions)
    case Push(page) => ChangesOf(page) <= Sent(s.devices) && DistinctKeys(page)
  }

  // None when two values meet under one stamp, on a device or at the server.
  ghost function Happen(s: System, e: Event): Option<System>
    requires CanHappen(s, e)
  {
    match e
    case Acts(a) =>
      var d := StepOn(s.devices, a);
      if d.None? then None else Some(s.(devices := s.devices[a.device := d.value]))
    case Push(page) =>
      var l := PushOn(s.library, page);
      if l.None? then None else Some(s.(library := l.value))
  }

  // ----- Nothing is lost -----

  // Every unit is queued or known to be published as it is, nothing else is
  // queued, and what is known to be published was pushed.
  ghost predicate NothingLost(t: Tables, versions: set<Change>) {
    && (forall k :: k in t.units ==> IsSafe(t, k))
    && (forall k :: k in t.outbox ==> k in t.units && t.outbox[k] == t.units[k])
    && forall k :: k in t.published ==> Change(k, t.published[k].stamp, t.published[k].value) in versions
  }

  ghost predicate IsSafe(t: Tables, k: Key)
    requires k in t.units
  {
    || (k in t.published && t.published[k] == t.units[k])
    || (k in t.outbox && t.outbox[k] == t.units[k])
  }

  // So nothing is queued again with what it owns.
  lemma RequeuedIsNothingNew(t: Tables, versions: set<Change>, owners: set<Key>)
    requires NothingLost(t, versions)
    ensures Requeued(t, owners).outbox == t.outbox
  {
    hide IsPartOf, IsRetired;
    var again := Requeued(t, owners).outbox;
    forall k | k in again
      ensures k in t.outbox && again[k] == t.outbox[k]
    {
      assert k in t.units ==> IsSafe(t, k);
    }
  }

  lemma PutIsSafe(t: Tables, versions: set<Change>, k: Key, v: Version, publish: bool)
    requires NothingLost(t, versions)
    ensures var t' := Put(t, k, v, publish);
      && (forall x :: x in t'.units && x != k ==> IsSafe(t', x)) && t'.published == t.published
      && (forall x :: x in t'.outbox ==> x in t'.units && t'.outbox[x] == t'.units[x])
      && k in t'.units && t'.units[k] == v && (publish ==> IsSafe(t', k))
  {
    hide Suppressed;
    var t' := Put(t, k, v, publish);
    assert k !in Parents(k);
    forall x | x in t'.units && x != k
      ensures IsSafe(t', x)
    {
      assert IsSafe(t, x);
    }
  }

  lemma WriteLosesNothing(t: Tables, versions: set<Change>, e: Edit, s: Stamp)
    requires NothingLost(t, versions)
    ensures NothingLost(WriteOne(t, e, s), versions)
  {
    hide Put, IsRetired, Requeued, Shown;
    PutIsSafe(t, versions, e.key, Version(s, e.value), true);
    var put := Put(t, e.key, Version(s, e.value), true);
    RequeuedIsNothingNew(put, versions, Parents(e.key) + e.names);
    RequeuedIsApart(put, Parents(e.key) + e.names);
    SameIsSafe(put, Requeued(put, Parents(e.key) + e.names), versions);
  }

  lemma WitnessedLosesNothing(t: Tables, versions: set<Change>, c: Change)
    requires c in versions
    requires forall x :: x in t.units && x != c.key ==> IsSafe(t, x)
    requires forall k :: k in t.outbox ==> k in t.units && t.outbox[k] == t.units[k]
    requires forall k :: k in t.published ==> Change(k, t.published[k].stamp, t.published[k].value) in versions
    requires c.key in t.units && t.units[c.key] != Version(c.stamp, c.value) ==> IsSafe(t, c.key)
    ensures NothingLost(Witnessed(t, c.key, Version(c.stamp, c.value)), versions)
  {
    var t' := Witnessed(t, c.key, Version(c.stamp, c.value));
    forall k | k in t'.units
      ensures IsSafe(t', k)
    {
      assert k != c.key ==> IsSafe(t, k);
    }
  }

  lemma ApplyLosesNothing(t: Tables, versions: set<Change>, c: Change)
    requires NothingLost(t, versions) && c in versions
    ensures Apply(t, c).Some? ==> NothingLost(Apply(t, c).value, versions)
  {
    hide Put, Witnessed, Compare, IsRetired;
    PutIsSafe(t, versions, c.key, Version(c.stamp, c.value), false);
    WitnessedLosesNothing(t, versions, c);
    WitnessedLosesNothing(Put(t, c.key, Version(c.stamp, c.value), false), versions, c);
  }

  lemma SameIsSafe(t: Tables, t': Tables, versions: set<Change>)
    requires NothingLost(t, versions)
    requires t.units == t'.units && t.outbox == t'.outbox && t.published == t'.published
    ensures NothingLost(t', versions)
  {
    forall k | k in t'.units
      ensures IsSafe(t', k)
    {
      assert IsSafe(t, k);
    }
  }

  lemma ApplyRowLosesNothing(t: Tables, versions: set<Change>, i: nat, waits: map<nat, Wait>)
    requires i < |t.rows| && NothingLost(t, versions) && t.rows[i].change in versions
    ensures var r := ApplyRow(t, i, waits);
      r.Some? ==> NothingLost(r.value, versions)
  {
    hide NothingLost, Apply, StatusFor;
    var r, c := ApplyRow(t, i, waits), t.rows[i].change;
    ApplyLosesNothing(t, versions, c);
    if r.Some? {
      var applied := if StatusFor(t, c.key, i, waits).Done? then Apply(t, c).value else t;
      SameIsSafe(applied, r.value, versions);
    }
  }

  lemma {:induction false} PassLosesNothing(
    t: Tables, versions: set<Change>, w: set<Change>, order: seq<nat>, waits: map<nat, Wait>)
    requires Distinct(order) && AllReady(t, order) && NothingLost(t, versions)
    requires Faithful(t, w + DoneChanges(t.rows)) && Agree(w + RowChanges(t.rows))
    requires RowChanges(t.rows) <= versions
    ensures var r := Pass(t, order, waits);
      r.Some? ==> NothingLost(r.value, versions)
    decreases |order|
  {
    hide NothingLost, Faithful, Agree, ApplyRow, IsReady;
    if order != [] {
      assert IsReady(t, order[0]);
      assert t.rows[order[0]] in t.rows;
      ApplyRowLosesNothing(t, versions, order[0], waits);
      ApplyRowIsFaithful(t, w, order[0], waits);
      var next := ApplyRow(t, order[0], waits).value;
      KeptRowsKeepChanges(t.rows, next.rows);
      assert forall k :: 0 < k < |order| ==> order[k] != order[0];
      PassLosesNothing(next, versions, w, order[1..], waits);
    }
  }

  lemma {:induction false} WriteAllLosesNothing(t: Tables, versions: set<Change>, edits: seq<Edit>, s: Stamp)
    requires NothingLost(t, versions)
    ensures NothingLost(WriteAll(t, edits, s), versions)
    decreases |edits|
  {
    hide NothingLost, WriteOne;
    if edits != [] {
      WriteLosesNothing(t, versions, edits[0], s);
      WriteAllLosesNothing(WriteOne(t, edits[0], s), versions, edits[1..], s);
    }
  }

  lemma AckOneLosesNothing(t: Tables, versions: set<Change>, c: Change)
    requires NothingLost(t, versions) && c in versions
    ensures NothingLost(AckOne(t, c), versions)
  {
    var t' := AckOne(t, c);
    forall k | k in t'.units
      ensures IsSafe(t', k)
    {
      assert IsSafe(t, k);
    }
  }

  lemma {:induction false} AckLosesNothing(t: Tables, versions: set<Change>, page: seq<Change>)
    requires NothingLost(t, versions) && ChangesOf(page) <= versions
    ensures NothingLost(Acknowledged(t, page), versions)
    decreases |page|
  {
    hide NothingLost, AckOne;
    if page != [] {
      assert forall c :: c in page <==> c == page[0] || c in page[1..];
      AckOneLosesNothing(t, versions, page[0]);
      AckLosesNothing(AckOne(t, page[0]), versions, page[1..]);
    }
  }

  // ----- The invariant -----

  ghost predicate SystemOk(s: System) {
    && Valid(s.devices)
    && s.library.versions <= Sent(s.devices) && Faithful(s.library.tables, s.library.versions)
    && forall i :: 0 <= i < |s.devices| ==> DeviceSynced(s.devices[i], s.library.versions)
  }

  // What is received had been pushed, and of what is here nothing is lost.
  ghost predicate DeviceSynced(d: Device, versions: set<Change>) {
    RowChanges(d.tables.rows) <= versions && NothingLost(d.tables, versions)
  }

  lemma StepStaysSynced(s: System, a: Action)
    requires SystemOk(s) && CanHappen(s, Acts(a)) && StepOn(s.devices, a).Some?
    ensures DeviceSynced(StepOn(s.devices, a).value, s.library.versions)
  {
    hide Faithful, Agree, NothingLost, Staging, Pass, Selects, WriteAll, Recorded, IssueStamp, Acknowledged, Latest;
    var d, v := s.devices[a.device], s.library.versions;
    assert DeviceSynced(d, v) && DeviceOk(d, Sent(s.devices));
    match a
    case Commit(_, wall, edits) =>
      var issue := IssueStamp(wall, d.writer, d.issued, d.accepted);
      if issue.Issued? {
        CommitStaysSynced(s, a, issue.stamp);
      }
    case Receive(i, page, order, waits) =>
      var staged := Staging(d.tables, page);
      StagingAdds(d.tables, page);
      StagingKeepsQueue(d.tables, page);
      SameIsSafe(d.tables, staged, v);
      PassStaysSynced(s, i, staged, order, waits, false);
    case Drain(i, order, waits) =>
      PassStaysSynced(s, i, d.tables, order, waits, true);
    case Acknowledge(_, page) =>
      AcknowledgedIsApart(d.tables, page);
      AckLosesNothing(d.tables, v, page);
  }

  lemma {:induction false} StagingKeepsQueue(t: Tables, page: seq<Change>)
    ensures Staging(t, page).outbox == t.outbox && Staging(t, page).published == t.published
    decreases |page|
  {
    if page != [] {
      StagingKeepsQueue(t.(rows := t.rows + [Row(page[0], Staged)]), page[1..]);
    }
  }

  lemma CommitStaysSynced(s: System, a: Action, stamp: Stamp)
    requires SystemOk(s) && CanHappen(s, Acts(a)) && a.Commit?
    requires var d := s.devices[a.device]; IssueStamp(a.wall, d.writer, d.issued, d.accepted) == Issued(stamp)
    ensures DeviceSynced(CommitOn(s.devices[a.device], a.wall, a.edits), s.library.versions)
  {
    hide Faithful, Agree, NothingLost, WriteAll, Recorded, IssueStamp;
    var d := s.devices[a.device];
    assert DeviceSynced(d, s.library.versions) && DeviceOk(d, Sent(s.devices));
    IssuedIsFresh(d, Sent(s.devices), a.wall, a.edits);
    ReceivedAgree(s.devices, a.device);
    WriteAllIsFaithful(d.tables, d.written, a.edits, stamp);
    WriteAllLosesNothing(d.tables, s.library.versions, a.edits, stamp);
  }

  lemma PassStaysSynced(s: System, i: nat, t: Tables, order: seq<nat>, waits: map<nat, Wait>, drain: bool)
    requires SystemOk(s) && i < |s.devices| && Selects(t.rows, order, drain)
    requires t.units == s.devices[i].tables.units && t.retired == s.devices[i].tables.retired
    requires DoneChanges(t.rows) == DoneChanges(s.devices[i].tables.rows)
    requires RowChanges(t.rows) <= s.library.versions && NothingLost(t, s.library.versions)
    ensures var r := Pass(t, order, waits);
      r.Some? && RowChanges(r.value.rows) <= s.library.versions && NothingLost(r.value, s.library.versions)
  {
    hide Faithful, Agree, NothingLost, Pass;
    var d := s.devices[i];
    PassIsOk(s.devices, i, t, order, waits, drain);
    SelectedAreReady(t, order, drain);
    AppliedAreSent(s.devices, i);
    RestIsApart(d.tables, t, Applied(d));
    AgreeOnLess(Sent(s.devices), d.written + RowChanges(t.rows));
    PassLosesNothing(t, s.library.versions, d.written, order, waits);
  }

  lemma SyncedStays(d: Device, versions: set<Change>, versions': set<Change>)
    requires DeviceSynced(d, versions) && versions <= versions'
    ensures DeviceSynced(d, versions')
  {
  }

  lemma EventIsOk(s: System, e: Event)
    requires SystemOk(s) && CanHappen(s, e)
    ensures Happen(s, e).Some? && SystemOk(Happen(s, e).value)
  {
    hide Valid, Faithful, DeviceSynced, Selects, StepOn, PushOn;
    match e
    case Acts(a) =>
      StepIsOk(s.devices, a);
      StepStaysSynced(s, a);
      StepSends(s.devices, a);
      var next := s.devices[a.device := StepOn(s.devices, a).value];
      forall i | 0 <= i < |next|
        ensures DeviceSynced(next[i], s.library.versions)
      {
        assert i != a.device ==> DeviceSynced(s.devices[i], s.library.versions);
      }
      assert s.library.versions <= Sent(next);
    case Push(page) =>
      PushIsOk(s, page);
      forall i | 0 <= i < |s.devices|
        ensures DeviceSynced(s.devices[i], PushOn(s.library, page).value.versions)
      {
        SyncedStays(s.devices[i], s.library.versions, PushOn(s.library, page).value.versions);
      }
  }

  lemma PushIsOk(s: System, page: seq<Change>)
    requires SystemOk(s) && CanHappen(s, Push(page))
    ensures var l := PushOn(s.library, page);
      && l.Some? && l.value.versions == s.library.versions + ChangesOf(page)
      && Faithful(l.value.tables, l.value.versions)
  {
    hide Faithful, Agree, Winners, TakeAll;
    AgreeOnLess(Sent(s.devices), s.library.versions + ChangesOf(page));
    PushIsFaithful(s.library.tables, s.library.versions, page);
  }

  // ----- Runs -----

  ghost predicate Begins(s: System) {
    Start(s.devices) && s.library == NOTHING_HELD
  }

  ghost predicate CanRun(s: System, run: seq<Event>)
    decreases |run|
  {
    run == [] || (CanHappen(s, run[0]) && (Happen(s, run[0]).Some? ==> CanRun(Happen(s, run[0]).value, run[1..])))
  }

  ghost function RunOf(s: System, run: seq<Event>): Option<System>
    requires CanRun(s, run)
    decreases |run|
  {
    if run == [] then Some(s)
    else
      var next := Happen(s, run[0]);
      if next.None? then None else RunOf(next.value, run[1..])
  }

  lemma BeginningIsOk(s: System)
    requires Begins(s)
    ensures SystemOk(s)
  {
    StartIsValid(s.devices);
    assert Faithful(s.library.tables, {});
  }

  // No device and no push ever meets two values under one stamp.
  lemma {:induction false} SystemsRun(s: System, run: seq<Event>)
    requires SystemOk(s) && CanRun(s, run)
    ensures RunOf(s, run).Some? && SystemOk(RunOf(s, run).value)
    decreases |run|
  {
    hide SystemOk, CanHappen, Happen;
    if run != [] {
      EventIsOk(s, run[0]);
      SystemsRun(Happen(s, run[0]).value, run[1..]);
    }
  }

  // ----- At rest -----

  // The changes that the units of a table are.
  ghost function UnitChanges(t: Tables): set<Change> {
    set k | k in t.units :: Change(k, t.units[k].stamp, t.units[k].value)
  }

  // Nothing is queued anywhere, and every device has received what the server keeps.
  ghost predicate AtRest(s: System) {
    forall i :: 0 <= i < |s.devices| ==>
      s.devices[i].tables.outbox == map[] && UnitChanges(s.library.tables) <= Received(s.devices[i])
  }

  // What was never pushed is superseded by what was.
  lemma PushedCoverSent(s: System)
    requires SystemOk(s) && AtRest(s)
    ensures Covers(s.library.versions, Sent(s.devices))
  {
    hide Faithful, Agree, Superseded;
    forall c | c in Sent(s.devices) && c !in s.library.versions
      ensures Superseded(s.library.versions, c)
    {
      var i := WrittenByOne(s.devices, c);
      var d := s.devices[i];
      AppliedAreSent(s.devices, i);
      AgreeOnLess(Sent(s.devices), Applied(d));
      assert DeviceSynced(d, s.library.versions);
      forall k | k in d.tables.units
        ensures Change(k, d.tables.units[k].stamp, d.tables.units[k].value) in s.library.versions
      {
        assert IsSafe(d.tables, k);
      }
      UnitsSupersede(d.tables, Applied(d), s.library.versions);
    }
  }

  // What was pushed and not received is superseded by what the server keeps.
  lemma ReceivedCoverPushed(s: System, i: nat)
    requires SystemOk(s) && AtRest(s) && i < |s.devices|
    ensures Covers(Received(s.devices[i]), s.library.versions)
  {
    hide Faithful, Agree, Superseded;
    var kept, got := UnitChanges(s.library.tables), Received(s.devices[i]);
    AgreeOnLess(Sent(s.devices), s.library.versions);
    UnitsSupersede(s.library.tables, s.library.versions, kept);
    forall c | c in s.library.versions && c !in got
      ensures Superseded(got, c)
    {
      SupersededGrows(kept, got, c);
    }
  }

  // Tables that show what a device received show what all writes determine.
  lemma ShowsAll(s: System, i: nat, t: Tables)
    requires SystemOk(s) && AtRest(s) && i < |s.devices| && Faithful(t, Received(s.devices[i]))
    ensures Faithful(t, Sent(s.devices))
  {
    hide Faithful, Agree, Superseded;
    var got, pushed := Received(s.devices[i]), s.library.versions;
    ReceivedAgree(s.devices, i);
    ReceivedCoverPushed(s, i);
    PushedCoverSent(s);
    SupersededCount(t, got, got + pushed);
    assert Covers(got + pushed, Sent(s.devices)) by {
      forall c | c in Sent(s.devices) && c !in got + pushed
        ensures Superseded(got + pushed, c)
      {
        SupersededGrows(pushed, got + pushed, c);
      }
    }
    SupersededCount(t, got + pushed, Sent(s.devices));
  }

  // At rest the owners of a device's rows are known to it, if all writes have theirs.
  lemma RowsAreOwned(s: System, i: nat, order: seq<nat>)
    requires SystemOk(s) && AtRest(s) && i < |s.devices| && IsClosed(Sent(s.devices))
    requires InRange(order, |s.devices[i].tables.rows|)
    ensures RowsHaveOwners(s.devices[i].tables, Received(s.devices[i]), order)
  {
    hide Faithful, Agree, Superseded, IsClosed;
    var got, pushed := Received(s.devices[i]), s.library.versions;
    ReceivedAgree(s.devices, i);
    ReceivedCoverPushed(s, i);
    PushedCoverSent(s);
    assert Covers(got + pushed, Sent(s.devices)) by {
      forall c | c in Sent(s.devices) && c !in got + pushed
        ensures Superseded(got + pushed, c)
      {
        SupersededGrows(pushed, got + pushed, c);
      }
    }
    CoveredIsClosed(got + pushed, Sent(s.devices));
    CoveredIsClosed(got, got + pushed);
    ClosedHasOwners(s.devices[i].tables, got, order);
  }

  // After any run that comes to rest, a drain of a device leaves no row open
  // exactly when the owners of its rows are known to it; it shows then what the
  // server shows, and that is what all writes ever made determine.
  lemma DrainedShowsWhatTheServerShows(start: System, run: seq<Event>, i: nat, order: seq<nat>)
    requires Begins(start) && CanRun(start, run) && RunOf(start, run).Some?
    requires var s := RunOf(start, run).value;
      AtRest(s) && i < |s.devices| && Drains(s.devices[i], order)
    ensures var s := RunOf(start, run).value;
      var drained := DrainOn(s.devices[i], order, map[]);
      && drained.Some?
      && ((forall n :: 0 <= n < |drained.value.tables.rows| ==> drained.value.tables.rows[n].status.Done?)
          <==> RowsHaveOwners(s.devices[i].tables, Received(s.devices[i]), order))
      && (RowsHaveOwners(s.devices[i].tables, Received(s.devices[i]), order) ==>
            View(drained.value.tables) == View(s.library.tables))
      && Faithful(s.library.tables, Sent(s.devices))
  {
    hide Faithful, Agree, RowsHaveOwners, Pass, RunOf, CanRun;
    BeginningIsOk(start);
    SystemsRun(start, run);
    var s := RunOf(start, run).value;
    DrainAppliesAll(s.devices, i, order);
    PushedCoverSent(s);
    SupersededCount(s.library.tables, s.library.versions, Sent(s.devices));
    var drained := DrainOn(s.devices[i], order, map[]).value;
    if RowsHaveOwners(s.devices[i].tables, Received(s.devices[i]), order) {
      ShowsAll(s, i, drained.tables);
      SameChangesSameView(drained.tables, s.library.tables, Sent(s.devices));
    }
  }

  // ----- The owners of what is written -----

  // Every commit of the run has the owners of what it edits, or makes them.
  ghost predicate CommitsHaveOwners(s: System, run: seq<Event>)
    requires CanRun(s, run)
    decreases |run|
  {
    run == [] ||
    (EventHasOwners(s, run[0]) && (Happen(s, run[0]).Some? ==> CommitsHaveOwners(Happen(s, run[0]).value, run[1..])))
  }

  ghost predicate EventHasOwners(s: System, e: Event)
    requires CanHappen(s, e)
  {
    e.Acts? && e.action.Commit? ==> HasOwners(s.devices[e.action.device].tables, e.action.edits)
  }

  lemma EventIsClosed(s: System, e: Event)
    requires SystemOk(s) && CanHappen(s, e) && EventHasOwners(s, e) && IsClosed(Sent(s.devices))
    requires Happen(s, e).Some?
    ensures IsClosed(Sent(Happen(s, e).value.devices))
  {
    hide Valid, Faithful, IsClosed, StepOn, PushOn, Enabled;
    if e.Acts? {
      StepIsClosed(s.devices, e.action);
    }
  }

  lemma {:induction false} WritesAreClosed(s: System, run: seq<Event>)
    requires SystemOk(s) && CanRun(s, run) && CommitsHaveOwners(s, run) && IsClosed(Sent(s.devices))
    requires RunOf(s, run).Some?
    ensures IsClosed(Sent(RunOf(s, run).value.devices))
    decreases |run|
  {
    hide SystemOk, CanHappen, Happen, EventHasOwners, IsClosed;
    if run != [] {
      EventIsOk(s, run[0]);
      EventIsClosed(s, run[0]);
      WritesAreClosed(Happen(s, run[0]).value, run[1..]);
    }
  }

  // So after any run of such commits that comes to rest, every device, once
  // drained, shows what the server shows.
  lemma AllShowWhatTheServerShows(start: System, run: seq<Event>, i: nat, order: seq<nat>)
    requires Begins(start) && CanRun(start, run) && CommitsHaveOwners(start, run) && RunOf(start, run).Some?
    requires var s := RunOf(start, run).value;
      AtRest(s) && i < |s.devices| && Drains(s.devices[i], order)
    ensures var s := RunOf(start, run).value;
      var drained := DrainOn(s.devices[i], order, map[]);
      && drained.Some? && View(drained.value.tables) == View(s.library.tables)
      && Faithful(s.library.tables, Sent(s.devices))
  {
    hide Faithful, Agree, RowsHaveOwners, Pass, RunOf, CanRun, CommitsHaveOwners, AtRest;
    BeginningIsOk(start);
    SystemsRun(start, run);
    NothingIsClosed(start);
    WritesAreClosed(start, run);
    RowsAreOwned(RunOf(start, run).value, i, order);
    DrainedShowsWhatTheServerShows(start, run, i, order);
  }

  lemma NothingIsClosed(s: System)
    requires Begins(s)
    ensures IsClosed(Sent(s.devices))
  {
    assert Sent(s.devices) == {};
  }
}
