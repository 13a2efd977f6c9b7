/**
 One device's copy of the synchronised units: the last write of each key wins,
 a deleted owner is retired for good with all that belongs to it, and a change
 whose owner is not here yet is held.
 */
module Replica {
  import opened Wrappers
  import opened Stamps

  // ----- Keys -----

  // What has an existence of its own; a record is of some collection.
  datatype Kind = Character | Preset | Persona | Record(collection: string)

  // A key by what it belongs to.  `Owner` and `Sub` are the keys that say a
  // record, or a conversation of a character, exists.
  datatype Key =
    | Owner(kind: Kind, id: string)
    | Sub(character: string, conversation: string)
    | Part(kind: Kind, id: string, name: string)
    | SubPart(character: string, conversation: string, name: string)
    | Free(name: string)

  predicate IsExistence(k: Key) {
    k.Owner? || k.Sub?
  }

  function Parents(k: Key): set<Key> {
    match k
    case Sub(c, _) => {Owner(Character, c)}
    case Part(kind, id, _) => {Owner(kind, id)}
    case SubPart(c, s, _) => {Owner(Character, c), Sub(c, s)}
    case _ => {}
  }

  // ----- Tables -----

  // Content by its identity, the hash of its encoding.
  datatype Value = Deleted | Content(identity: int)

  datatype Version = Version(stamp: Stamp, value: Value)

  datatype Change = Change(key: Key, stamp: Stamp, value: Value)

  datatype Status = Staged | Held | Deferred | Done

  datatype Row = Row(change: Change, status: Status)

  // `outbox` holds what is still to be published and `published` what is known
  // to have been, one version of each key; `started` are the owners whose parts
  // have been queued for the first time.
  datatype Tables = Tables(
    units: map<Key, Version>, retired: set<Key>, rows: seq<Row>,
    outbox: map<Key, Version>, published: map<Key, Version>, started: set<Key>)

  const NO_TABLES: Tables := Tables(map[], {}, [], map[], map[], {})

  datatype Decision = KeepLocal | ApplyRemote | Identical | Conflict

  // compare_version.
  function Compare(local: Version, remote: Version): Decision {
    if Before(remote.stamp, local.stamp) then KeepLocal
    else if Before(local.stamp, remote.stamp) then ApplyRemote
    else if local.value == remote.value then Identical
    else Conflict
  }

  // Whether the key itself or an owner of it is retired.
  predicate IsRetired(t: Tables, k: Key) {
    k in t.retired || IsMasked(t, k)
  }

  predicate IsMasked(t: Tables, k: Key) {
    exists p <- Parents(k) :: p in t.retired
  }

  predicate IsMissing(t: Tables, k: Key) {
    exists p <- Parents(k) :: p !in t.units
  }

  predicate IsHardDelete(k: Key, v: Value) {
    IsExistence(k) && v.Deleted?
  }

  // put_unit: a local write is queued to be published, a received one takes the
  // place of what was queued.  A deleted existence is retired, and what belongs
  // to it goes from the units, from the queue and out of the rows still to apply.
  function Put(t: Tables, k: Key, v: Version, publish: bool): (r: Tables)
    ensures |r.rows| == |t.rows|
  {
    var units := t.units[k := v];
    var outbox := if publish then t.outbox[k := v] else t.outbox - {k};
    if !IsHardDelete(k, v.value) then t.(units := units, outbox := outbox)
    else
      t.(units := Without(units, k), retired := t.retired + {k},
         rows := Suppressed(t.rows, k), outbox := Without(outbox, k))
  }

  // The table without what belongs to an owner.
  function Without(m: map<Key, Version>, owner: Key): map<Key, Version> {
    map x | x in m && owner !in Parents(x) :: m[x]
  }

  function Suppressed(rows: seq<Row>, k: Key): (s: seq<Row>)
    ensures |s| == |rows|
    ensures forall i :: 0 <= i < |s| ==>
      s[i] == if k in Parents(rows[i].change.key) then rows[i].(status := Done) else rows[i]
  {
    if rows == [] then []
    else
      [if k in Parents(rows[0].change.key) then rows[0].(status := Done) else rows[0]] + Suppressed(rows[1..], k)
  }

  // A row that waits stays as given: deferred while its key is being generated,
  // held while its character is archived, or as it was.
  type Wait = s: Status | !s.Done? witness Held

  // What becomes of row `i`, of key `k`.
  function StatusFor(t: Tables, k: Key, i: nat, waits: map<nat, Wait>): Status {
    if IsRetired(t, k) then Done
    else if IsMissing(t, k) then Held
    else if i in waits then waits[i]
    else Done
  }

  // witness_received: what arrived as the unit is was published, by whoever, and
  // is not queued any more.
  function Witnessed(t: Tables, k: Key, v: Version): Tables {
    if k !in t.units || t.units[k] != v then t
    else
      t.(published := t.published[k := v],
         outbox := if k in t.outbox && t.outbox[k] == v then t.outbox - {k} else t.outbox)
  }

  // A row that does not wait; None for two values under one stamp.
  function Apply(t: Tables, c: Change): (r: Option<Tables>)
    ensures r.Some? ==> |r.value.rows| == |t.rows|
  {
    var v := Version(c.stamp, c.value);
    var hard := IsHardDelete(c.key, c.value);
    if IsRetired(t, c.key) && !hard then Some(t)
    else
      var decision := if c.key in t.units then Compare(t.units[c.key], v) else ApplyRemote;
      var newRetirement := hard && (c.key in t.units ==> !t.units[c.key].value.Deleted?);
      if decision.Conflict? then None
      else
        Some(Witnessed(if decision.ApplyRemote? || newRetirement then Put(t, c.key, v, false) else t, c.key, v))
  }

  function ApplyRow(t: Tables, i: nat, waits: map<nat, Wait>): (r: Option<Tables>)
    requires i < |t.rows|
    ensures r.Some? ==> |r.value.rows| == |t.rows|
  {
    var c := t.rows[i].change;
    var status := StatusFor(t, c.key, i, waits);
    var applied := if status.Done? then Apply(t, c) else Some(t);
    if applied.None? then None
    else Some(applied.value.(rows := applied.value.rows[i := Row(c, status)]))
  }

  predicate InRange(order: seq<nat>, n: nat) {
    forall i :: 0 <= i < |order| ==> order[i] < n
  }

  function Pass(t: Tables, order: seq<nat>, waits: map<nat, Wait>): (r: Option<Tables>)
    requires InRange(order, |t.rows|)
    ensures r.Some? ==> |r.value.rows| == |t.rows|
    decreases |order|
  {
    if order == [] then Some(t)
    else
      var next := ApplyRow(t, order[0], waits);
      if next.None? then None else Pass(next.value, order[1..], waits)
  }

  // ----- The rows a pass takes up, and their order -----

  predicate IsPending(s: Status, drain: bool) {
    s.Staged? || s.Held? || (drain && s.Deferred?)
  }

  // All pending rows, in any order; draining takes up the deferred ones too.
  ghost predicate Selects(rows: seq<Row>, order: seq<nat>, drain: bool) {
    && Distinct(order)
    && InRange(order, |rows|)
    && forall i :: 0 <= i < |rows| ==> (i in order <==> IsPending(rows[i].status, drain))
  }

  // No row comes before one of an owner of its key.
  ghost predicate OwnersFirst(rows: seq<Row>, order: seq<nat>)
    requires InRange(order, |rows|)
  {
    forall i, j :: 0 <= i < j < |order| ==> rows[order[j]].change.key !in Parents(rows[order[i]].change.key)
  }

  // A key's text as far as the order depends on it; `rest` is what else it holds.
  function TextOf(k: Key, rest: Key -> string): string {
    match k
    case Owner(Character, _) => EXISTS + ("character\"," + rest(k))
    case Owner(_, _) => EXISTS + rest(k)
    case Sub(_, _) => EXISTS + ("conversation\"," + rest(k))
    case _ => rest(k)
  }

  const EXISTS: string := "[\"exists\",\""

  predicate TextBefore(a: string, b: string) {
    b != [] && (a == [] || a[0] < b[0] || (a[0] == b[0] && TextBefore(a[1..], b[1..])))
  }

  // What the query gives: the pending rows by the text of their keys.
  ghost predicate IsQueried(rows: seq<Row>, queried: seq<nat>, drain: bool, rest: Key -> string) {
    && Selects(rows, queried, drain)
    && forall i, j :: 0 <= i < j < |queried| ==>
         !TextBefore(TextOf(rows[queried[j]].change.key, rest), TextOf(rows[queried[i]].change.key, rest))
  }

  // The rows among them whose keys are existences, or are not.
  function Among(rows: seq<Row>, queried: seq<nat>, existences: bool): (order: seq<nat>)
    requires InRange(queried, |rows|)
    ensures InRange(order, |rows|)
  {
    if queried == [] then []
    else
      (if IsExistence(rows[queried[0]].change.key) == existences then [queried[0]] else [])
      + Among(rows, queried[1..], existences)
  }

  // The stable sort that puts existences first.
  function ExistencesFirst(rows: seq<Row>, queried: seq<nat>): (order: seq<nat>)
    requires InRange(queried, |rows|)
    ensures InRange(order, |rows|)
  {
    Among(rows, queried, true) + Among(rows, queried, false)
  }

  lemma {:induction false} AmongAre(rows: seq<Row>, queried: seq<nat>, existences: bool)
    requires InRange(queried, |rows|) && Distinct(queried)
    ensures var order := Among(rows, queried, existences);
      && Distinct(order)
      && forall n :: n in order <==> n in queried && IsExistence(rows[n].change.key) == existences
  {
    if queried != [] {
      AmongAre(rows, queried[1..], existences);
      assert forall n :: n in queried <==> n == queried[0] || n in queried[1..];
      assert queried[0] !in queried[1..];
    }
  }

  // The rows picked keep their order.
  lemma {:induction false} AmongKeepsOrder(rows: seq<Row>, queried: seq<nat>, existences: bool, i: nat, j: nat)
    requires InRange(queried, |rows|) && i < j < |Among(rows, queried, existences)|
    ensures var order := Among(rows, queried, existences);
      ComesBefore(queried, order[i], order[j])
  {
    hide IsExistence, ComesBefore;
    var order, rest := Among(rows, queried, existences), Among(rows, queried[1..], existences);
    if order == rest {
      AmongKeepsOrder(rows, queried[1..], existences, i, j);
      ComesBeforeLater(queried, order[i], order[j]);
    } else if i > 0 {
      AmongKeepsOrder(rows, queried[1..], existences, i - 1, j - 1);
      ComesBeforeLater(queried, order[i], order[j]);
    } else {
      AmongFrom(rows, queried[1..], existences, j - 1);
      FirstComesBefore(queried, order[j]);
    }
  }

  lemma {:induction false} AmongFrom(rows: seq<Row>, queried: seq<nat>, existences: bool, j: nat)
    requires InRange(queried, |rows|) && j < |Among(rows, queried, existences)|
    ensures Among(rows, queried, existences)[j] in queried
  {
    hide IsExistence;
    var order := Among(rows, queried, existences);
    if order[j] != queried[0] {
      var rest := Among(rows, queried[1..], existences);
      AmongFrom(rows, queried[1..], existences, if |order| == |rest| then j else j - 1);
    }
  }

  lemma FirstComesBefore(order: seq<nat>, b: nat)
    requires order != [] && b in order[1..]
    ensures ComesBefore(order, order[0], b)
  {
    var m :| 0 <= m < |order[1..]| && order[1..][m] == b;
    assert order[m + 1] == b;
  }

  ghost predicate ComesBefore(order: seq<nat>, a: nat, b: nat) {
    exists i, j :: 0 <= i < j < |order| && order[i] == a && order[j] == b
  }

  lemma ComesBeforeLater(order: seq<nat>, a: nat, b: nat)
    requires order != [] && ComesBefore(order[1..], a, b)
    ensures ComesBefore(order, a, b)
  {
    var i, j :| 0 <= i < j < |order[1..]| && order[1..][i] == a && order[1..][j] == b;
    assert order[i + 1] == a && order[j + 1] == b;
  }

  lemma {:induction false} AfterPrefix(prefix: string, a: string, b: string)
    requires TextBefore(a, b)
    ensures TextBefore(prefix + a, prefix + b)
  {
    if prefix == [] {
      assert prefix + a == a && prefix + b == b;
    } else {
      AfterPrefix(prefix[1..], a, b);
      assert (prefix + a)[1..] == prefix[1..] + a && (prefix + b)[1..] == prefix[1..] + b;
    }
  }

  // A character's existence comes before those of its conversations.
  lemma CharactersBeforeConversations(k: Key, p: Key, rest: Key -> string)
    requires k.Sub? && p in Parents(k)
    ensures TextBefore(TextOf(p, rest), TextOf(k, rest))
  {
    var a, b := "character\"," + rest(p), "conversation\"," + rest(k);
    assert a[0] == b[0] && a[1..][0] < b[1..][0];
    assert TextBefore(a[1..], b[1..]);
    AfterPrefix(EXISTS, a, b);
  }

  // So no row is taken up before one of an owner of its key.
  lemma ExistencesFirstIsOwnersFirst(rows: seq<Row>, queried: seq<nat>, drain: bool, rest: Key -> string)
    requires IsQueried(rows, queried, drain, rest)
    ensures var order := ExistencesFirst(rows, queried);
      Selects(rows, order, drain) && OwnersFirst(rows, order)
  {
    hide Among, TextOf, TextBefore;
    var first, second := Among(rows, queried, true), Among(rows, queried, false);
    var order := ExistencesFirst(rows, queried);
    AmongAre(rows, queried, true);
    AmongAre(rows, queried, false);
    forall i, j | 0 <= i < j < |order|
      ensures rows[order[j]].change.key !in Parents(rows[order[i]].change.key)
    {
      var k, p := rows[order[i]].change.key, rows[order[j]].change.key;
      if j >= |first| {
        assert order[j] == second[j - |first|] && order[j] in second;
      } else {
        assert order[i] == first[i] && order[j] == first[j] && order[i] in first;
        AmongKeepsOrder(rows, queried, true, i, j);
        if k.Sub? && p == Owner(Character, k.character) {
          CharactersBeforeConversations(k, p, rest);
        }
      }
    }
  }

  // ----- Writing -----

  // What a local commit does to one key: `before` is what the library showed
  // for it in case no unit has it, and `names` the owners that its value names.
  datatype Edit = Edit(key: Key, value: Value, before: Value, names: set<Key>)

  function WriteOne(t: Tables, e: Edit, stamp: Stamp): Tables {
    if IsRetired(t, e.key) || Shown(t, e) == e.value then t
    else Requeued(Put(t, e.key, Version(stamp, e.value), true), Parents(e.key) + e.names)
  }

  // ensure_publishable_parents: the owners that are here are queued, and with an
  // owner that never was all its parts, if they are not known to be published.
  function Requeued(t: Tables, owners: set<Key>): Tables {
    var here := set p | p in owners && p in t.units && p !in t.retired;
    t.(outbox := t.outbox + (map k | k in t.units && IsOwed(t, here, k) :: t.units[k]),
       started := t.started + here)
  }

  predicate IsOwed(t: Tables, here: set<Key>, k: Key)
    requires k in t.units
  {
    && (k in here || IsPartOf(k, here - t.started))
    && (IsRetired(t, k) ==> IsHardDelete(k, t.units[k].value))
    && (k in t.published ==> t.published[k] != t.units[k])
  }

  predicate IsPartOf(k: Key, owners: set<Key>) {
    match k
    case Part(kind, id, _) => Owner(kind, id) in owners
    case SubPart(c, s, _) => Sub(c, s) in owners
    case _ => false
  }

  function Shown(t: Tables, e: Edit): Value {
    if e.key in t.units then t.units[e.key].value else e.before
  }

  function WriteAll(t: Tables, edits: seq<Edit>, stamp: Stamp): Tables
    decreases |edits|
  {
    if edits == [] then t else WriteAll(WriteOne(t, edits[0], stamp), edits[1..], stamp)
  }

  // The changes that a commit records.
  function Recorded(t: Tables, edits: seq<Edit>, stamp: Stamp): set<Change>
    decreases |edits|
  {
    if edits == [] then {}
    else
      var e := edits[0];
      (if IsRetired(t, e.key) || Shown(t, e) == e.value then {} else {Change(e.key, stamp, e.value)})
      + Recorded(WriteOne(t, e, stamp), edits[1..], stamp)
  }

  // ----- Pages -----

  function Latest(accepted: Option<Stamp>, page: seq<Change>): Option<Stamp>
    decreases |page|
  {
    if page == [] then accepted
    else
      var next := if accepted.None? || Before(accepted.value, page[0].stamp) then Some(page[0].stamp) else accepted;
      Latest(next, page[1..])
  }

  function Staging(t: Tables, page: seq<Change>): Tables
    decreases |page|
  {
    if page == [] then t else Staging(t.(rows := t.rows + [Row(page[0], Staged)]), page[1..])
  }
}
