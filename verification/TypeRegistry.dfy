/**
 The type registry of the embind runtime.  Types are registered outright, or by
 a rule that waits for the types it depends on.  A registration fires the
 callbacks awaiting it, and a callback that completes a rule registers more
 types, reentrantly.
 */
module TypeRegistry {
  import opened Wrappers

  type TypeId = x: int | x > 0 witness 1

  // Who registered a type: a direct call, or one of the targets of a completed rule.
  datatype Registration = Given | Produced(activation: nat, index: nat)

  // One call of whenDependentTypesAreResolved.  `spawn` holds the calls that
  // its getTypeConverters makes before it returns the converters.
  datatype Rule = Rule(targets: seq<TypeId>, deps: seq<TypeId>, spawn: seq<Rule>)

  // The variables a call closes over: `waiting` is the length of
  // unregisteredTypes, `fired` the counter, `done` how often onComplete ran.
  datatype Activation = Activation(
    rule: Rule, slots: seq<Option<Registration>>, waiting: nat, fired: nat, done: nat)

  // A callback awaiting a type: it fills one converter slot of one activation.
  datatype Callback = Callback(act: nat, slot: nat)

  // ----- What the rules mean -----

  // What the rule, and what it spawns, registers where the types of `S` are
  // registered, each type as often as that happens.
  ghost function Effects(S: set<TypeId>, r: Rule): multiset<TypeId> {
    if forall d <- r.deps :: d in S then multiset(r.targets) + EffectsAll(S, r.spawn) else multiset{}
  }

  ghost function EffectsAll(S: set<TypeId>, rs: seq<Rule>): multiset<TypeId> {
    if rs == [] then multiset{} else Effects(S, rs[0]) + EffectsAll(S, rs[1..])
  }

  ghost function Outcome(bases: set<TypeId>, roots: seq<Rule>, S: set<TypeId>): multiset<TypeId> {
    multiset(bases) + EffectsAll(S, roots)
  }

  // `S` holds the base registrations and is closed under the rules.
  ghost predicate Model(bases: set<TypeId>, roots: seq<Rule>, S: set<TypeId>) {
    forall t :: t in Outcome(bases, roots, S) ==> t in S
  }

  // The rules have a model that registers no type twice.
  ghost predicate Consistent(bases: set<TypeId>, roots: seq<Rule>) {
    exists S: set<TypeId> :: Model(bases, roots, S) && forall t :: Outcome(bases, roots, S)[t] <= 1
  }

  lemma {:induction false} EffectsOfTwo(S: set<TypeId>, rs: seq<Rule>, more: seq<Rule>)
    ensures EffectsAll(S, rs + more) == EffectsAll(S, rs) + EffectsAll(S, more)
  {
    if rs == [] {
      assert rs + more == more;
    } else {
      assert (rs + more)[1..] == rs[1..] + more;
      EffectsOfTwo(S, rs[1..], more);
    }
  }

  ghost function Size(r: Rule): nat {
    1 + |r.targets| + SizeAll(r.spawn)
  }

  ghost function SizeAll(rs: seq<Rule>): nat {
    if rs == [] then 0 else Size(rs[0]) + SizeAll(rs[1..])
  }

  // The work that activations not yet complete can still cause.
  ghost function Pot(acts: seq<Activation>): nat {
    if acts == [] then 0
    else Pot(acts[..|acts| - 1]) + (if acts[|acts| - 1].done == 0 then Size(acts[|acts| - 1].rule) else 0)
  }

  lemma {:induction false} PotUpdate(acts: seq<Activation>, k: nat, a: Activation)
    requires k < |acts| && a.rule == acts[k].rule
    ensures Pot(acts[k := a]) + (if acts[k].done == 0 then Size(a.rule) else 0)
         == Pot(acts) + (if a.done == 0 then Size(a.rule) else 0)
  {
    var n := |acts| - 1;
    if k < n {
      assert acts[k := a][..n] == acts[..n][k := a];
      PotUpdate(acts[..n], k, a);
    } else {
      assert acts[k := a][..n] == acts[..n];
    }
  }

  ghost function Nones<T>(slots: seq<Option<T>>): nat {
    if slots == [] then 0
    else Nones(slots[..|slots| - 1]) + (if slots[|slots| - 1].None? then 1 else 0)
  }

  lemma {:induction false} NonesUpdate<T>(slots: seq<Option<T>>, i: nat, v: T)
    requires i < |slots| && slots[i].None?
    ensures Nones(slots[i := Some(v)]) + 1 == Nones(slots)
  {
    var n := |slots| - 1;
    if i < n {
      assert slots[i := Some(v)][..n] == slots[..n][i := Some(v)];
      NonesUpdate(slots[..n], i, v);
    } else {
      assert slots[i := Some(v)][..n] == slots[..n];
    }
  }

  lemma {:induction false} NonesZero<T>(slots: seq<Option<T>>)
    ensures Nones(slots) == 0 <==> forall i :: 0 <= i < |slots| ==> slots[i].Some?
  {
    if slots != [] {
      var n := |slots| - 1;
      NonesZero(slots[..n]);
      assert forall i :: 0 <= i < n ==> slots[..n][i] == slots[i];
    }
  }

  // ----- The invariant, on values -----

  // The tables, and three ghosts for the loops still running on the call stack:
  // callbacks not yet fired, targets due to be registered, and rules to be
  // spawned.  `lost` are the callbacks that an exception left unfired for good.
  datatype State = State(
    registered: map<TypeId, Registration>,
    awaiting: map<TypeId, seq<Callback>>,
    acts: seq<Activation>,
    inFlight: set<Callback>,
    due: multiset<TypeId>,
    toSpawn: seq<Rule>,
    lost: set<Callback>)

  ghost predicate IsCallback(acts: seq<Activation>, c: Callback) {
    c.act < |acts| && c.slot < |acts[c.act].rule.deps|
  }

  ghost predicate IsPending(st: State, c: Callback)
    requires IsCallback(st.acts, c)
  {
    var t := st.acts[c.act].rule.deps[c.slot];
    c in st.inFlight || (t in st.awaiting && c in st.awaiting[t])
  }

  // A slot is empty exactly while its callback is pending, and a filled slot
  // holds the registration of its dependency.
  ghost predicate SlotsOk(st: State) {
    && (forall k :: 0 <= k < |st.acts| ==> |st.acts[k].slots| == |st.acts[k].rule.deps|)
    && (forall c: Callback :: IsCallback(st.acts, c) ==>
          SlotOk(st, c))
  }

  ghost predicate SlotOk(st: State, c: Callback)
    requires IsCallback(st.acts, c) && |st.acts[c.act].slots| == |st.acts[c.act].rule.deps|
  {
    var t := st.acts[c.act].rule.deps[c.slot];
    var slot := st.acts[c.act].slots[c.slot];
    && (slot.None? <==> IsPending(st, c))
    && (slot.Some? ==> t in st.registered && slot.value == st.registered[t])
  }

  ghost predicate CallbacksOk(st: State) {
    && (forall t :: t in st.awaiting ==> t !in st.registered && Distinct(st.awaiting[t]))
    && (forall t, c :: t in st.awaiting && c in st.awaiting[t] ==>
          IsCallback(st.acts, c) && st.acts[c.act].rule.deps[c.slot] == t && c !in st.inFlight)
    && st.lost <= st.inFlight
    && (forall c :: c in st.inFlight ==>
          IsCallback(st.acts, c) && st.acts[c.act].rule.deps[c.slot] in st.registered)
  }

  // The counters, with activation `except` about to complete.
  ghost predicate CountsOk(st: State, except: int) {
    forall k :: 0 <= k < |st.acts| ==>
      && st.acts[k].waiting == st.acts[k].fired + Nones(st.acts[k].slots)
      && st.acts[k].done == (if Nones(st.acts[k].slots) == 0 && k != except then 1 else 0)
  }

  // Every registration but those given is of the target it names, of a rule
  // that has completed.
  ghost predicate SourcesOk(st: State) {
    forall t :: t in st.registered ==> IsSource(st.acts, t, st.registered[t])
  }

  ghost predicate IsSource(acts: seq<Activation>, t: TypeId, reg: Registration) {
    match reg
    case Given => true
    case Produced(k, i) =>
      k < |acts| && acts[k].done >= 1 && i < |acts[k].rule.targets| && acts[k].rule.targets[i] == t
  }

  ghost predicate InvExcept(st: State, except: int) {
    SlotsOk(st) && CallbacksOk(st) && CountsOk(st, except) && SourcesOk(st)
  }

  ghost predicate Inv(st: State) {
    InvExcept(st, -1)
  }

  // ----- Steps keep the invariant -----

  ghost function Elems<T>(s: seq<T>): set<T> {
    set c | c in s
  }

  // Entering a type in the table moves its awaiting callbacks in flight.
  ghost function Entered(st: State, t: TypeId, reg: Registration): State {
    st.(registered := st.registered[t := reg],
        due := st.due - multiset{t},
        awaiting := st.awaiting - {t},
        inFlight := st.inFlight + (if t in st.awaiting then Elems(st.awaiting[t]) else {}))
  }

  lemma EnterStep(st: State, t: TypeId, reg: Registration)
    requires Inv(st) && t !in st.registered && IsSource(st.acts, t, reg)
    ensures Inv(Entered(st, t, reg))
    ensures t in st.awaiting ==> Distinct(st.awaiting[t]) && Elems(st.awaiting[t]) !! st.inFlight
    ensures st.lost <= st.inFlight
  {
    var st' := Entered(st, t, reg);
    forall c: Callback | IsCallback(st'.acts, c)
      ensures SlotOk(st', c)
    {
      assert SlotOk(st, c);
    }
  }

  // A callback fills its slot.
  ghost function Filled(st: State, c: Callback): State
    requires Inv(st) && c in st.inFlight - st.lost
  {
    var a := st.acts[c.act];
    st.(acts := st.acts[c.act := a.(
          slots := a.slots[c.slot := Some(st.registered[a.rule.deps[c.slot]])],
          fired := a.fired + 1)],
        inFlight := st.inFlight - {c})
  }

  lemma InFlightIsCallback(st: State, c: Callback)
    requires Inv(st) && c in st.inFlight - st.lost
    ensures IsCallback(st.acts, c) && c.slot < |st.acts[c.act].slots|
    ensures st.acts[c.act].rule.deps[c.slot] in st.registered
  {
  }

  lemma FillStep(st: State, c: Callback)
    requires Inv(st) && c in st.inFlight - st.lost
    ensures var a := Filled(st, c).acts[c.act];
      && InvExcept(Filled(st, c), if a.fired == a.waiting then c.act else -1)
      && (a.fired == a.waiting ==> Nones(a.slots) == 0)
    ensures Pot(Filled(st, c).acts) == Pot(st.acts)
  {
    var st' := Filled(st, c);
    var a := st.acts[c.act];
    assert SlotOk(st, c);
    NonesUpdate(a.slots, c.slot, st.registered[a.rule.deps[c.slot]]);
    PotUpdate(st.acts, c.act, st'.acts[c.act]);
    FillSlots(st, c);
    assert CountsOk(st', if st'.acts[c.act].fired == st'.acts[c.act].waiting then c.act else -1);
    assert CallbacksOk(st');
  }

  lemma FillSlots(st: State, c: Callback)
    requires Inv(st) && c in st.inFlight - st.lost
    ensures SlotsOk(Filled(st, c))
  {
    var st' := Filled(st, c);
    forall d: Callback | IsCallback(st'.acts, d)
      ensures SlotOk(st', d)
    {
      assert SlotOk(st, d);
      assert IsPending(st', d) <==> IsPending(st, d) && d != c;
    }
  }

  ghost predicate SameRules(acts: seq<Activation>, acts': seq<Activation>) {
    && |acts| <= |acts'|
    && forall k :: 0 <= k < |acts| ==> acts[k].rule == acts'[k].rule && acts[k].done <= acts'[k].done
  }

  lemma SameRulesTransitive(acts: seq<Activation>, acts': seq<Activation>, acts'': seq<Activation>)
    requires SameRules(acts, acts') && SameRules(acts', acts'')
    ensures SameRules(acts, acts'')
  {
  }

  ghost predicate Extends(registered: map<TypeId, Registration>, registered': map<TypeId, Registration>) {
    registered.Keys <= registered'.Keys && forall t :: t in registered ==> registered'[t] == registered[t]
  }

  // The first `i` targets are registered as targets of activation `k`.
  ghost predicate AreProduced(registered: map<TypeId, Registration>, targets: seq<TypeId>, k: nat, i: nat) {
    forall x :: 0 <= x < i && x < |targets| ==>
      targets[x] in registered && registered[targets[x]] == Produced(k, x)
  }

  lemma NoneProduced(
    acts: seq<Activation>, registered: map<TypeId, Registration>, targets: seq<TypeId>, k: nat)
    ensures SameRules(acts, acts) && Extends(registered, registered) && AreProduced(registered, targets, k, 0)
  {
  }

  lemma NextProduced(
    first: map<TypeId, Registration>, before: map<TypeId, Registration>, after: map<TypeId, Registration>,
    targets: seq<TypeId>, k: nat, i: nat)
    requires Extends(first, before) && Extends(before, after) && i < |targets| && AreProduced(before, targets, k, i)
    ensures Extends(first, after)
    ensures targets[i] in after && after[targets[i]] == Produced(k, i) ==> AreProduced(after, targets, k, i + 1)
  {
  }

  lemma TargetIsSource(acts: seq<Activation>, acts': seq<Activation>, k: nat, i: nat)
    requires SameRules(acts, acts') && k < |acts| && acts[k].done >= 1 && i < |acts[k].rule.targets|
    ensures IsSource(acts', acts[k].rule.targets[i], Produced(k, i))
  {
  }

  // A rule whose slots are full is marked complete and its effects become owed.
  ghost function Completed(st: State, k: nat): State
    requires k < |st.acts|
  {
    st.(acts := st.acts[k := st.acts[k].(done := 1)],
        due := st.due + multiset(st.acts[k].rule.targets),
        toSpawn := st.acts[k].rule.spawn + st.toSpawn)
  }

  lemma CompleteStep(st: State, k: nat)
    requires k < |st.acts| && InvExcept(st, k) && Nones(st.acts[k].slots) == 0
    ensures Inv(Completed(st, k)) && st.acts[k].done == 0 && !IsCrippled(st.lost, k)
    ensures forall d <- st.acts[k].rule.deps :: d in st.registered
    ensures Pot(Completed(st, k).acts) + Size(st.acts[k].rule) == Pot(st.acts)
  {
    var st' := Completed(st, k);
    PotUpdate(st.acts, k, st'.acts[k]);
    forall d: Callback | IsCallback(st'.acts, d)
      ensures SlotOk(st', d)
    {
      assert SlotOk(st, d);
      assert IsPending(st', d) <==> IsPending(st, d);
    }
    assert CallbacksOk(st');
    assert CountsOk(st', -1);
    FullSlots(st, k);
    FullIsWhole(st, k);
  }

  // What is due with the targets from `i` on.
  ghost function Ahead<T>(rest: multiset<T>, targets: seq<T>, i: nat): multiset<T>
    requires i <= |targets|
  {
    rest + multiset(targets[i..])
  }

  lemma NextDue<T>(rest: multiset<T>, targets: seq<T>, i: nat)
    requires i < |targets|
    ensures targets[i] in Ahead(rest, targets, i)
    ensures Ahead(rest, targets, i) - multiset{targets[i]} == Ahead(rest, targets, i + 1)
  {
    assert targets[i..] == [targets[i]] + targets[i + 1..];
  }

  lemma AllDue<T>(due: multiset<T>, targets: seq<T>)
    requires multiset(targets) <= due
    ensures due == Ahead(due - multiset(targets), targets, 0)
    ensures Ahead(due - multiset(targets), targets, |targets|) == due - multiset(targets)
  {
    assert targets[0..] == targets;
  }

  // An activation with all slots full has lost no callback.
  lemma FullIsWhole(st: State, k: nat)
    requires k < |st.acts| && SlotsOk(st) && CallbacksOk(st) && Nones(st.acts[k].slots) == 0
    ensures !IsCrippled(st.lost, k)
  {
    NonesZero(st.acts[k].slots);
    forall c | c in st.lost
      ensures c.act != k
    {
      assert IsCallback(st.acts, c) && SlotOk(st, c) && IsPending(st, c);
    }
  }

  // All slots full means all dependencies registered.
  lemma FullSlots(st: State, k: nat)
    requires k < |st.acts| && SlotsOk(st) && Nones(st.acts[k].slots) == 0
    ensures forall d <- st.acts[k].rule.deps :: d in st.registered
  {
    NonesZero(st.acts[k].slots);
    forall i | 0 <= i < |st.acts[k].rule.deps|
      ensures st.acts[k].rule.deps[i] in st.registered
    {
      assert SlotOk(st, Callback(k, i));
    }
  }

  // ----- A rule is scanned: registered dependencies fill slots, the others wait -----

  // The scan of the first `i` dependencies of a new activation, starting from `st`.
  ghost predicate Scanned(
    st: State, rule: Rule, i: nat,
    slots: seq<Option<Registration>>, waiting: nat, awaiting: map<TypeId, seq<Callback>>)
  {
    && i <= |rule.deps| && |slots| == i && waiting == Nones(slots)
    && (forall x :: 0 <= x < i ==>
          slots[x] == if rule.deps[x] in st.registered then Some(st.registered[rule.deps[x]]) else None)
    && (forall t :: t in awaiting ==> t !in st.registered && Distinct(awaiting[t]))
    && (forall t, c :: t in awaiting && c in awaiting[t] ==>
          || (t in st.awaiting && c in st.awaiting[t])
          || (c.act == |st.acts| && c.slot < i && rule.deps[c.slot] == t))
    && (forall t, c :: t in st.awaiting && c in st.awaiting[t] ==> t in awaiting && c in awaiting[t])
    && (forall x :: 0 <= x < i && rule.deps[x] !in st.registered ==>
          rule.deps[x] in awaiting && Callback(|st.acts|, x) in awaiting[rule.deps[x]])
  }

  ghost function Pushed(
    st: State, rule: Rule,
    slots: seq<Option<Registration>>, waiting: nat, awaiting: map<TypeId, seq<Callback>>): State
  {
    st.(awaiting := awaiting,
        acts := st.acts + [Activation(rule, slots, waiting, 0, 0)],
        toSpawn := if st.toSpawn == [] then [] else st.toSpawn[1..])
  }

  lemma PushStep(
    st: State, rule: Rule,
    slots: seq<Option<Registration>>, waiting: nat, awaiting: map<TypeId, seq<Callback>>)
    requires Inv(st)
    requires Scanned(st, rule, |rule.deps|, slots, waiting, awaiting)
    ensures InvExcept(Pushed(st, rule, slots, waiting, awaiting), if waiting == 0 then |st.acts| else -1)
    ensures Pot(Pushed(st, rule, slots, waiting, awaiting).acts) == Pot(st.acts) + Size(rule)
    ensures waiting == Nones(slots)
  {
    var st' := Pushed(st, rule, slots, waiting, awaiting);
    var k := |st.acts|;
    assert st'.acts[..k] == st.acts;
    assert st'.acts[k].rule == rule;
    PushSlots(st, rule, slots, waiting, awaiting);
    PushCallbacks(st, rule, slots, waiting, awaiting);
  }

  lemma PushSlots(
    st: State, rule: Rule,
    slots: seq<Option<Registration>>, waiting: nat, awaiting: map<TypeId, seq<Callback>>)
    requires Inv(st) && Scanned(st, rule, |rule.deps|, slots, waiting, awaiting)
    ensures SlotsOk(Pushed(st, rule, slots, waiting, awaiting))
  {
    var st' := Pushed(st, rule, slots, waiting, awaiting);
    forall c: Callback | IsCallback(st'.acts, c)
      ensures SlotOk(st', c)
    {
      if c.act < |st.acts| {
        assert SlotOk(st, c);
      } else {
        assert c == Callback(|st.acts|, c.slot);
      }
    }
  }

  lemma PushCallbacks(
    st: State, rule: Rule,
    slots: seq<Option<Registration>>, waiting: nat, awaiting: map<TypeId, seq<Callback>>)
    requires Inv(st) && Scanned(st, rule, |rule.deps|, slots, waiting, awaiting)
    ensures CallbacksOk(Pushed(st, rule, slots, waiting, awaiting))
  {
    hide SlotsOk, CountsOk, Distinct, Nones;
  }

  lemma ScanStart(st: State, rule: Rule)
    requires Inv(st)
    ensures Scanned(st, rule, 0, [], 0, st.awaiting)
  {
  }

  lemma ScanStep(
    st: State, rule: Rule, i: nat,
    slots: seq<Option<Registration>>, waiting: nat, awaiting: map<TypeId, seq<Callback>>)
    requires Inv(st)
    requires i < |rule.deps| && Scanned(st, rule, i, slots, waiting, awaiting)
    ensures var dep := rule.deps[i];
      if dep in st.registered then
        Scanned(st, rule, i + 1, slots + [Some(st.registered[dep])], waiting, awaiting)
      else
        Scanned(st, rule, i + 1, slots + [None], waiting + 1,
          awaiting[dep := (if dep in awaiting then awaiting[dep] else []) + [Callback(|st.acts|, i)]])
  {
    hide Inv, Distinct, Nones;
    var dep := rule.deps[i];
    var slot := if dep in st.registered then Some(st.registered[dep]) else None;
    NonesMore(slots, slot);
    if dep !in st.registered {
      DistinctMore(if dep in awaiting then awaiting[dep] else [], Callback(|st.acts|, i));
      NotQueuedYet(st, rule, i, slots, waiting, awaiting);
    }
  }

  lemma NonesMore<T>(slots: seq<Option<T>>, slot: Option<T>)
    ensures Nones(slots + [slot]) == Nones(slots) + (if slot.None? then 1 else 0)
  {
    assert (slots + [slot])[..|slots|] == slots;
  }

  lemma DistinctMore<T>(s: seq<T>, x: T)
    ensures (s == [] || Distinct(s)) && x !in s ==> Distinct(s + [x])
  {
  }

  // The callback made for a dependency is not in its queue, whose callbacks are
  // of activations before or of dependencies before.
  lemma NotQueuedYet(
    st: State, rule: Rule, i: nat,
    slots: seq<Option<Registration>>, waiting: nat, awaiting: map<TypeId, seq<Callback>>)
    requires Inv(st)
    requires i < |rule.deps| && Scanned(st, rule, i, slots, waiting, awaiting)
    ensures rule.deps[i] in awaiting ==> Callback(|st.acts|, i) !in awaiting[rule.deps[i]]
  {
    hide Nones, Distinct;
  }

  // ----- The least fixed point -----

  // An activation that has lost a callback never completes.
  ghost predicate IsCrippled(lost: set<Callback>, k: nat) {
    exists c :: c in lost && c.act == k
  }

  // What activation `k` would still register.
  ghost function Share(S: set<TypeId>, a: Activation, k: nat, lost: set<Callback>): multiset<TypeId> {
    if a.done == 0 && !IsCrippled(lost, k) then Effects(S, a.rule) else multiset{}
  }

  // What activations not yet complete would register.
  ghost function Owed(S: set<TypeId>, acts: seq<Activation>, lost: set<Callback>): multiset<TypeId> {
    if acts == [] then multiset{}
    else
      var n := |acts| - 1;
      Owed(S, acts[..n], lost) + Share(S, acts[n], n, lost)
  }

  lemma Shift<T>(a: multiset<T>, b: multiset<T>, c: multiset<T>, d: multiset<T>, more: multiset<T>)
    requires a + b == c + d
    ensures a + more + b == c + more + d
  {
    assert a + more + b == (a + b) + more;
    assert c + more + d == (c + d) + more;
  }

  lemma Cancel<T>(a: multiset<T>, b: multiset<T>, more: multiset<T>)
    requires a + more == b + more
    ensures a == b
  {
    assert a == (a + more) - more;
    assert b == (b + more) - more;
  }

  // What is owed by a rule that completes becomes due, or is spawned.
  lemma Regroup<T>(
    registered: multiset<T>, due: multiset<T>, owed: multiset<T>, owed': multiset<T>,
    targets: multiset<T>, spawned: multiset<T>, toSpawn: multiset<T>)
    requires owed' + (targets + spawned) == owed
    ensures registered + (due + targets) + owed' + (spawned + toSpawn) == registered + due + owed + toSpawn
  {
    assert registered + (due + targets) + owed' + (spawned + toSpawn)
      == registered + due + (owed' + (targets + spawned)) + toSpawn;
  }

  lemma {:induction false} OwedUpdate(
    S: set<TypeId>, acts: seq<Activation>, lost: set<Callback>, k: nat, a: Activation)
    requires k < |acts|
    ensures Owed(S, acts[k := a], lost) + Share(S, acts[k], k, lost) == Owed(S, acts, lost) + Share(S, a, k, lost)
  {
    hide Share;
    var n := |acts| - 1;
    if k < n {
      assert acts[k := a][..n] == acts[..n][k := a];
      OwedUpdate(S, acts[..n], lost, k, a);
      Shift(Owed(S, acts[..n][k := a], lost), Share(S, acts[k], k, lost),
            Owed(S, acts[..n], lost), Share(S, a, k, lost), Share(S, acts[n], n, lost));
    } else {
      assert acts[k := a][..n] == acts[..n];
    }
  }

  // The rules of the activations that can still complete.
  ghost function Whole(acts: seq<Activation>, lost: set<Callback>): seq<Rule> {
    if acts == [] then []
    else
      var n := |acts| - 1;
      Whole(acts[..n], lost) + (if acts[n].done == 0 && !IsCrippled(lost, n) then [acts[n].rule] else [])
  }

  lemma {:induction false} WholeIsOwed(S: set<TypeId>, acts: seq<Activation>, lost: set<Callback>)
    ensures EffectsAll(S, Whole(acts, lost)) == Owed(S, acts, lost)
  {
    if acts != [] {
      var n := |acts| - 1;
      WholeIsOwed(S, acts[..n], lost);
      var last := if acts[n].done == 0 && !IsCrippled(lost, n) then [acts[n].rule] else [];
      EffectsOfTwo(S, Whole(acts[..n], lost), last);
      assert EffectsAll(S, last) == Share(S, acts[n], n, lost) by {
        if last != [] {
          assert last[1..] == [];
        }
      }
    }
  }

  // What is registered, due and still owed is the whole outcome, each type as
  // often as the outcome has it.
  ghost predicate Balanced(bases: set<TypeId>, roots: seq<Rule>, st: State, S: set<TypeId>) {
    multiset(st.registered.Keys) + st.due + Owed(S, st.acts, st.lost) + EffectsAll(S, st.toSpawn)
      == Outcome(bases, roots, S)
  }

  // This balance holds on every set that has the registered types, and every model is one.
  ghost predicate Accounted(bases: set<TypeId>, roots: seq<Rule>, st: State) {
    && (forall S: set<TypeId> :: st.registered.Keys <= S ==> Balanced(bases, roots, st, S))
    && (forall S: set<TypeId> :: Model(bases, roots, S) ==> st.registered.Keys <= S)
  }

  lemma EnterAccounted(bases: set<TypeId>, roots: seq<Rule>, st: State, t: TypeId, reg: Registration)
    requires Accounted(bases, roots, st) && t in st.due && t !in st.registered
    ensures Accounted(bases, roots, Entered(st, t, reg))
  {
    hide Effects, EffectsAll, Owed, Outcome;
    var st' := Entered(st, t, reg);
    forall S: set<TypeId> | st'.registered.Keys <= S
      ensures Balanced(bases, roots, st', S)
    {
      assert Balanced(bases, roots, st, S);
      EnterBalanced(bases, roots, st, t, reg, S);
    }
    forall S: set<TypeId> | Model(bases, roots, S)
      ensures t in S
    {
      DueIsOutcome(bases, roots, st, t, S);
    }
  }

  lemma DueIsOutcome(bases: set<TypeId>, roots: seq<Rule>, st: State, t: TypeId, S: set<TypeId>)
    requires Accounted(bases, roots, st) && t in st.due && Model(bases, roots, S)
    ensures t in S
  {
    hide Effects, EffectsAll, Owed, Outcome;
    assert Balanced(bases, roots, st, S);
    assert t in Outcome(bases, roots, S);
  }

  lemma EnterBalanced(
    bases: set<TypeId>, roots: seq<Rule>, st: State, t: TypeId, reg: Registration, S: set<TypeId>)
    requires t in st.due && t !in st.registered && Balanced(bases, roots, st, S)
    ensures Balanced(bases, roots, Entered(st, t, reg), S)
  {
    hide Effects, EffectsAll, Owed, Outcome;
    var keys := st.registered.Keys;
    assert Entered(st, t, reg).registered.Keys == keys + {t};
    assert multiset(keys + {t}) == multiset(keys) + multiset{t};
    assert multiset(keys) + multiset{t} + (st.due - multiset{t}) == multiset(keys) + st.due;
  }

  lemma FillAccounted(bases: set<TypeId>, roots: seq<Rule>, st: State, c: Callback)
    requires Inv(st) && Accounted(bases, roots, st) && c in st.inFlight - st.lost
    ensures Accounted(bases, roots, Filled(st, c))
  {
    hide Effects, EffectsAll, Owed, Outcome;
    var st' := Filled(st, c);
    forall S: set<TypeId> | st.registered.Keys <= S
      ensures Balanced(bases, roots, st', S)
    {
      assert Balanced(bases, roots, st, S);
      var a := st'.acts[c.act];
      OwedUpdate(S, st.acts, st.lost, c.act, a);
      assert Share(S, a, c.act, st.lost) == Share(S, st.acts[c.act], c.act, st.lost);
      Cancel(Owed(S, st'.acts, st.lost), Owed(S, st.acts, st.lost), Share(S, a, c.act, st.lost));
    }
  }

  lemma CompleteAccounted(bases: set<TypeId>, roots: seq<Rule>, st: State, k: nat)
    requires Accounted(bases, roots, st) && k < |st.acts| && st.acts[k].done == 0 && !IsCrippled(st.lost, k)
    requires forall d <- st.acts[k].rule.deps :: d in st.registered
    ensures Accounted(bases, roots, Completed(st, k))
  {
    hide Effects, EffectsAll, Owed, Outcome;
    var st' := Completed(st, k);
    forall S: set<TypeId> | st.registered.Keys <= S
      ensures Balanced(bases, roots, st', S)
    {
      assert Balanced(bases, roots, st, S);
      CompleteBalanced(bases, roots, st, k, S);
    }
  }

  lemma CompleteBalanced(bases: set<TypeId>, roots: seq<Rule>, st: State, k: nat, S: set<TypeId>)
    requires k < |st.acts| && st.acts[k].done == 0 && !IsCrippled(st.lost, k) && Balanced(bases, roots, st, S)
    requires forall d <- st.acts[k].rule.deps :: d in S
    ensures Balanced(bases, roots, Completed(st, k), S)
  {
    hide EffectsAll, Owed, Outcome;
    var st' := Completed(st, k);
    var rule := st.acts[k].rule;
    OwedUpdate(S, st.acts, st.lost, k, st'.acts[k]);
    EffectsOfTwo(S, rule.spawn, st.toSpawn);
    Regroup(multiset(st.registered.Keys), st.due, Owed(S, st.acts, st.lost), Owed(S, st'.acts, st.lost),
            multiset(rule.targets), EffectsAll(S, rule.spawn), EffectsAll(S, st.toSpawn));
  }

  lemma PushAccounted(
    bases: set<TypeId>, roots: seq<Rule>, st: State, rule: Rule,
    slots: seq<Option<Registration>>, waiting: nat, awaiting: map<TypeId, seq<Callback>>)
    requires Accounted(bases, roots, st) && Inv(st) && |st.toSpawn| > 0 && st.toSpawn[0] == rule
    ensures Accounted(bases, roots, Pushed(st, rule, slots, waiting, awaiting))
  {
    var st' := Pushed(st, rule, slots, waiting, awaiting);
    assert st'.acts[..|st.acts|] == st.acts;
    assert !IsCrippled(st.lost, |st.acts|);
    forall S: set<TypeId> | st.registered.Keys <= S
      ensures Balanced(bases, roots, st', S)
    {
      assert Balanced(bases, roots, st, S);
    }
  }

  // A target that is registered already has two registrations in every model.
  lemma TwiceIsInconsistent(bases: set<TypeId>, roots: seq<Rule>, st: State, t: TypeId)
    requires Accounted(bases, roots, st) && t in st.due && t in st.registered
    ensures !Consistent(bases, roots)
  {
    forall S: set<TypeId> | Model(bases, roots, S)
      ensures Outcome(bases, roots, S)[t] > 1
    {
      assert Balanced(bases, roots, st, S);
    }
  }

  // A type registered outright while a rule that targets it still waits: the
  // registration that completes the rule throws.
  lemma RegisteredWhileAwaited()
    ensures var rule := Rule([2], [1], []);
      Consistent({2}, [rule]) && !Consistent({1, 2}, [rule])
  {
    var rule := Rule([2], [1], []);
    forall S: set<TypeId>
      ensures EffectsAll(S, [rule]) == if 1 in S then multiset{2} else multiset{}
    {
      assert Effects(S, rule) == if 1 in S then multiset([2]) else multiset{};
      assert [rule][1..] == [];
    }
    assert Model({2}, [rule], {2});
    forall S: set<TypeId> | Model({1, 2}, [rule], S)
      ensures Outcome({1, 2}, [rule], S)[2] > 1
    {
      assert 1 in Outcome({1, 2}, [rule], S);
    }
  }

  lemma MoreBases(bases: set<TypeId>, roots: seq<Rule>, st: State, t: TypeId)
    requires Accounted(bases, roots, st) && t !in bases
    ensures Accounted(bases + {t}, roots, st.(due := st.due + multiset{t}))
  {
    var st' := st.(due := st.due + multiset{t});
    forall S: set<TypeId>
      ensures Outcome(bases + {t}, roots, S) == Outcome(bases, roots, S) + multiset{t}
    {
    }
    forall S: set<TypeId> | st.registered.Keys <= S
      ensures Balanced(bases + {t}, roots, st', S)
    {
      assert Balanced(bases, roots, st, S);
    }
    forall S: set<TypeId> | Model(bases + {t}, roots, S)
      ensures Model(bases, roots, S)
    {
      assert forall x :: x in Outcome(bases, roots, S) ==> x in Outcome(bases + {t}, roots, S);
    }
  }

  lemma MoreRoots(bases: set<TypeId>, roots: seq<Rule>, st: State, rule: Rule)
    requires Accounted(bases, roots, st)
    ensures Accounted(bases, roots + [rule], st.(toSpawn := [rule] + st.toSpawn))
  {
    var st' := st.(toSpawn := [rule] + st.toSpawn);
    forall S: set<TypeId>
      ensures Outcome(bases, roots + [rule], S) == Outcome(bases, roots, S) + EffectsAll(S, [rule])
    {
      EffectsOfTwo(S, roots, [rule]);
    }
    forall S: set<TypeId> | st.registered.Keys <= S
      ensures Balanced(bases, roots + [rule], st', S)
    {
      assert Balanced(bases, roots, st, S);
      EffectsOfTwo(S, [rule], st.toSpawn);
    }
    forall S: set<TypeId> | Model(bases, roots + [rule], S)
      ensures Model(bases, roots, S)
    {
      assert forall x :: x in Outcome(bases, roots, S) ==> x in Outcome(bases, roots + [rule], S);
    }
  }

  // The call stack has unwound and owes nothing.
  ghost predicate Quiescent(st: State) {
    Inv(st) && st.inFlight == st.lost && st.due == multiset{} && st.toSpawn == []
  }

  lemma CompleteIffDepsRegistered(st: State, k: nat)
    requires Quiescent(st) && k < |st.acts|
    ensures st.acts[k].done == 1
      <==> !IsCrippled(st.lost, k) && forall d <- st.acts[k].rule.deps :: d in st.registered
  {
    if st.acts[k].done == 1 {
      FullSlots(st, k);
      FullIsWhole(st, k);
    } else if !IsCrippled(st.lost, k) && forall d <- st.acts[k].rule.deps :: d in st.registered {
      forall i | 0 <= i < |st.acts[k].slots|
        ensures st.acts[k].slots[i].Some?
      {
        assert SlotOk(st, Callback(k, i));
      }
    }
    NonesZero(st.acts[k].slots);
  }

  // Activations that wait for an unregistered type owe nothing to the registered ones.
  lemma {:induction false} NothingOwed(st: State, n: nat)
    requires Quiescent(st) && n <= |st.acts|
    ensures Owed(st.registered.Keys, st.acts[..n], st.lost) == multiset{}
  {
    if n > 0 {
      assert st.acts[..n][..n - 1] == st.acts[..n - 1];
      NothingOwed(st, n - 1);
      CompleteIffDepsRegistered(st, n - 1);
    }
  }

  // After an exception: what was pending is lost, and the registry stands on
  // what is registered and on the rules that can still complete.
  ghost function Abandoned(st: State): State {
    st.(due := multiset{}, toSpawn := [], lost := st.inFlight)
  }

  lemma AbandonStep(st: State)
    requires Inv(st)
    ensures Quiescent(Abandoned(st)) && st.lost <= st.inFlight
    ensures Accounted(st.registered.Keys, Whole(st.acts, st.inFlight), Abandoned(st))
  {
    var st' := Abandoned(st);
    var bases, roots := st.registered.Keys, Whole(st.acts, st.inFlight);
    forall c: Callback | IsCallback(st'.acts, c)
      ensures SlotOk(st', c)
    {
      assert SlotOk(st, c);
    }
    forall S: set<TypeId>
      ensures Balanced(bases, roots, st', S)
    {
      WholeIsOwed(S, st.acts, st.inFlight);
    }
    forall S: set<TypeId>, t | Model(bases, roots, S) && t in bases
      ensures t in S
    {
      assert t in Outcome(bases, roots, S);
    }
  }

  // The registered types are then the outcome of themselves, each once.
  lemma RegisteredIsOutcome(bases: set<TypeId>, roots: seq<Rule>, st: State)
    requires Quiescent(st) && Accounted(bases, roots, st)
    ensures multiset(st.registered.Keys) == Outcome(bases, roots, st.registered.Keys)
    ensures Consistent(bases, roots)
  {
    var S := st.registered.Keys;
    assert st.acts[..|st.acts|] == st.acts;
    NothingOwed(st, |st.acts|);
    assert Balanced(bases, roots, st, S);
    assert Model(bases, roots, S);
  }

  lemma ElemsNext<T>(s: seq<T>, i: nat)
    requires i < |s| && Distinct(s)
    ensures Elems(s[..i + 1]) == Elems(s[..i]) + {s[i]} && s[i] !in Elems(s[..i])
  {
    assert s[..i + 1] == s[..i] + [s[i]];
  }

  // Work that becomes due from outside.
  lemma DueStep(st: State, due: multiset<TypeId>, toSpawn: seq<Rule>)
    requires Inv(st)
    ensures Inv(st.(due := due)) && Inv(st.(toSpawn := toSpawn))
  {
    forall st' | st' == st.(due := due) || st' == st.(toSpawn := toSpawn)
      ensures SlotsOk(st')
    {
      assert forall c: Callback :: IsCallback(st'.acts, c) ==> SlotOk(st, c);
    }
  }

  class TypeRegistry {
    var registered: map<TypeId, Registration>
    var awaiting: map<TypeId, seq<Callback>>
    var acts: seq<Activation>

    // The pending work of the loops on the call stack, and the callbacks that
    // exceptions have left unfired.
    ghost var inFlight: set<Callback>
    ghost var due: multiset<TypeId>
    ghost var toSpawn: seq<Rule>
    ghost var lost: set<Callback>

    // What was asked for from outside; after an exception, what was registered
    // by then and the rules that can still complete.
    ghost var bases: set<TypeId>
    ghost var roots: seq<Rule>

    ghost function View(): State
      reads this
    {
      State(registered, awaiting, acts, inFlight, due, toSpawn, lost)
    }

    ghost predicate Running()
      reads this
    {
      Inv(View()) && Accounted(bases, roots, View())
    }

    ghost predicate Valid()
      reads this
    {
      Running() && Quiescent(View()) && bases <= registered.Keys
    }

    // Tables only grow, and registrations are never replaced.
    twostate predicate Extended()
      reads this
    {
      SameRules(old(acts), acts) && Extends(old(registered), registered)
    }

    // What every method leaves for the loops above it on the stack, thrown or not.
    twostate predicate Grown()
      reads this
    {
      Running() && Extended() && bases == old(bases) && roots == old(roots) && lost == old(lost)
    }

    constructor ()
      ensures Valid() && bases == {} && roots == [] && registered == map[] && acts == []
    {
      registered, awaiting, acts := map[], map[], [];
      inFlight, due, toSpawn, lost := {}, multiset{}, [], {};
      bases, roots := {}, [];
    }

    // What a call that asks for more leaves: it throws exactly when some type
    // would be registered twice, and then stands on what it has.
    ghost predicate Answered(thrown: bool, bases': set<TypeId>, roots': seq<Rule>)
      reads this
    {
      && thrown == !Consistent(bases', roots')
      && (forall S: set<TypeId> :: Model(bases', roots', S) ==> registered.Keys <= S)
      && (if thrown then bases == registered.Keys && roots == Whole(acts, lost)
          else bases == bases' && roots == roots')
    }

    // registerType, called from outside.  It throws for the null type and for a
    // type registered before, unless duplicates are to be ignored; and in the
    // middle of the cascade exactly when some type would be registered twice.
    method Register(rawType: nat, ignoreDuplicate: bool) returns (thrown: bool)
      requires Valid()
      modifies this
      ensures Valid() && Extended() && old(lost) <= lost
      ensures rawType == 0 || rawType in old(registered) ==>
        && View() == old(View()) && bases == old(bases) && roots == old(roots)
        && thrown == (rawType == 0 || !ignoreDuplicate)
      ensures rawType > 0 && rawType !in old(registered) ==>
        && rawType in registered && registered[rawType] == Given
        && Answered(thrown, old(bases) + {rawType}, old(roots)) && (!thrown ==> lost == old(lost))
    {
      hide Inv, InvExcept, Accounted, Quiescent, Answered;
      if rawType == 0 {
        return true;
      }
      if rawType in registered {
        return !ignoreDuplicate;
      }
      thrown := Give(rawType);
    }

    // A type that is registered outright for the first time.
    method Give(t: TypeId) returns (thrown: bool)
      requires Valid() && t !in registered
      modifies this
      ensures Valid() && Extended() && old(lost) <= lost && (!thrown ==> lost == old(lost))
      ensures t in registered && registered[t] == Given && Answered(thrown, old(bases) + {t}, old(roots))
    {
      hide InvExcept, Accounted, Pot, Consistent, SameRules;
      MoreBases(bases, roots, View(), t);
      DueStep(View(), due + multiset{t}, toSpawn);
      bases := bases + {t};
      due := due + multiset{t};
      assert View() == old(View()).(due := due);
      thrown := Enter(t, Given);
      Answer(thrown);
    }

    // The call has unwound.  What an exception left pending is given up.
    ghost method Answer(thrown: bool)
      requires Running() && (thrown ==> !Consistent(bases, roots))
      requires !thrown ==> Quiescent(View()) && bases <= registered.Keys
      modifies `bases, `roots, `due, `toSpawn, `lost
      ensures Valid() && Answered(thrown, old(bases), old(roots))
      ensures old(lost) <= lost && (!thrown ==> lost == old(lost))
    {
      hide InvExcept, Consistent, Whole, Balanced;
      assert Accounted(bases, roots, View());
      if thrown {
        AbandonStep(View());
        bases, roots := registered.Keys, Whole(acts, inFlight);
        due, toSpawn, lost := multiset{}, [], inFlight;
        assert View() == Abandoned(old(View()));
      } else {
        RegisteredIsOutcome(bases, roots, View());
      }
    }

    // whenDependentTypesAreResolved, called from outside.  It throws exactly
    // when some type would be registered twice.
    method AddRule(rule: Rule) returns (thrown: bool)
      requires Valid()
      modifies this
      ensures Valid() && Extended() && old(lost) <= lost && (!thrown ==> lost == old(lost))
      ensures Answered(thrown, old(bases), old(roots) + [rule])
    {
      hide InvExcept, Accounted, Pot, Consistent;
      MoreRoots(bases, roots, View(), rule);
      DueStep(View(), due, [rule] + toSpawn);
      roots := roots + [rule];
      toSpawn := [rule] + toSpawn;
      assert View() == old(View()).(toSpawn := toSpawn);
      thrown := WhenResolved(rule);
      Answer(thrown);
    }

    // Each type that the rules bring about is registered once and no other is;
    // the registered types are the least model.
    lemma LeastFixedPoint()
      requires Valid()
      ensures multiset(registered.Keys) == Outcome(bases, roots, registered.Keys)
      ensures Model(bases, roots, registered.Keys) && Consistent(bases, roots)
      ensures forall S: set<TypeId> :: Model(bases, roots, S) ==> registered.Keys <= S
    {
      RegisteredIsOutcome(bases, roots, View());
    }

    // What was not given is registered as a target of a completed rule, also after an exception.
    lemma ProducedByTarget(t: TypeId)
      requires Valid() && t in registered && registered[t].Produced?
      ensures var Produced(k, i) := registered[t];
        k < |acts| && acts[k].done == 1 && i < |acts[k].rule.targets| && acts[k].rule.targets[i] == t
    {
      assert IsSource(acts, t, registered[t]);
    }

    // A filled slot holds what its dependency is registered as, also after an exception.
    lemma FilledSlotsHold(k: nat, i: nat)
      requires Valid() && k < |acts| && i < |acts[k].slots| && acts[k].slots[i].Some?
      ensures i < |acts[k].rule.deps| && acts[k].rule.deps[i] in registered
      ensures acts[k].slots[i].value == registered[acts[k].rule.deps[i]]
    {
      assert SlotOk(View(), Callback(k, i));
    }

    // A call completes once if its dependencies are all registered and none of
    // its callbacks was lost, with every converter slot holding its dependency's
    // registration, and not otherwise.
    lemma CompletesExactlyOnce(k: nat)
      requires Valid() && k < |acts|
      ensures acts[k].done
        == if !IsCrippled(lost, k) && (forall d <- acts[k].rule.deps :: d in registered) then 1 else 0
      ensures |acts[k].slots| == |acts[k].rule.deps|
      ensures acts[k].done == 1 ==>
        forall i :: 0 <= i < |acts[k].slots| ==> acts[k].slots[i] == Some(registered[acts[k].rule.deps[i]])
    {
      CompleteIffDepsRegistered(View(), k);
      NonesZero(acts[k].slots);
      forall i | acts[k].done == 1 && 0 <= i < |acts[k].slots|
        ensures acts[k].rule.deps[i] in registered
          && acts[k].slots[i] == Some(registered[acts[k].rule.deps[i]])
      {
        assert SlotOk(View(), Callback(k, i));
      }
    }

    // The waiting table names exactly the unregistered dependencies, each with
    // the callbacks of the slots that need it.
    lemma AwaitingIsExact(k: nat, i: nat)
      requires Valid() && k < |acts| && i < |acts[k].rule.deps|
      ensures var t := acts[k].rule.deps[i];
        t !in registered <==> t in awaiting && Callback(k, i) in awaiting[t]
      ensures forall t :: t in awaiting ==> t !in registered && Distinct(awaiting[t])
    {
      assert SlotOk(View(), Callback(k, i));
    }

    // The body of registerType once its checks have passed.
    method Enter(t: TypeId, reg: Registration) returns (thrown: bool)
      requires Running() && t in due && t !in registered && IsSource(acts, t, reg)
      modifies this
      ensures Grown() && t in registered && registered[t] == reg
      ensures thrown ==> !Consistent(bases, roots)
      ensures !thrown ==>
        due == old(due) - multiset{t} && toSpawn == old(toSpawn) && inFlight == old(inFlight)
      ensures Pot(acts) <= old(Pot(acts))
      decreases Pot(acts), 4
    {
      hide Inv, Accounted, Consistent, Distinct, Pot;
      EnterStep(View(), t, reg);
      EnterAccounted(bases, roots, View(), t, reg);
      registered := registered[t := reg];
      due := due - multiset{t};
      thrown := false;
      if t in awaiting {
        var callbacks := awaiting[t];
        awaiting := awaiting - {t};
        inFlight := inFlight + Elems(callbacks);
        assert View() == Entered(old(View()), t, reg);
        thrown := FireAll(callbacks);
      } else {
        assert View() == Entered(old(View()), t, reg);
      }
    }

    method FireAll(callbacks: seq<Callback>) returns (thrown: bool)
      requires Running() && Distinct(callbacks) && Elems(callbacks) <= inFlight - lost
      modifies this
      ensures Grown()
      ensures thrown ==> !Consistent(bases, roots)
      ensures !thrown ==>
        due == old(due) && toSpawn == old(toSpawn) && inFlight == old(inFlight) - Elems(callbacks)
      ensures Pot(acts) <= old(Pot(acts))
      decreases Pot(acts), 3
    {
      hide InvExcept, Accounted, Consistent;
      var i := 0;
      while i < |callbacks|
        invariant 0 <= i <= |callbacks|
        invariant Grown()
        invariant due == old(due) && toSpawn == old(toSpawn)
        invariant inFlight == old(inFlight) - Elems(callbacks[..i])
        invariant Pot(acts) <= old(Pot(acts))
      {
        ElemsNext(callbacks, i);
        assert callbacks[i] in Elems(callbacks);
        thrown := Fire(callbacks[i]);
        if thrown {
          return;
        }
        i := i + 1;
      }
      assert callbacks[..i] == callbacks;
      thrown := false;
    }

    // A callback: fills its slot, and completes the activation when it was the last.
    method Fire(c: Callback) returns (thrown: bool)
      requires Running() && c in inFlight - lost
      modifies this
      ensures Grown()
      ensures thrown ==> !Consistent(bases, roots)
      ensures !thrown ==> due == old(due) && toSpawn == old(toSpawn) && inFlight == old(inFlight) - {c}
      ensures Pot(acts) <= old(Pot(acts))
      decreases Pot(acts), 2
    {
      hide InvExcept, Accounted, Consistent;
      InFlightIsCallback(View(), c);
      FillStep(View(), c);
      FillAccounted(bases, roots, View(), c);
      var a := acts[c.act];
      var a' := a.(slots := a.slots[c.slot := Some(registered[a.rule.deps[c.slot]])], fired := a.fired + 1);
      acts := acts[c.act := a'];
      inFlight := inFlight - {c};
      assert View() == Filled(old(View()), c);
      thrown := false;
      if a'.fired == a'.waiting {
        thrown := OnComplete(c.act);
      }
    }

    // Runs the nested calls of getTypeConverters, then registers the targets.
    method OnComplete(k: nat) returns (thrown: bool)
      requires k < |acts| && InvExcept(View(), k) && Nones(acts[k].slots) == 0
      requires Accounted(bases, roots, View())
      modifies this
      ensures Grown()
      ensures thrown ==> !Consistent(bases, roots)
      ensures !thrown ==> due == old(due) && toSpawn == old(toSpawn) && inFlight == old(inFlight)
      ensures acts[k].rule == old(acts[k].rule)
      ensures !thrown ==> AreProduced(registered, acts[k].rule.targets, k, |acts[k].rule.targets|)
      ensures Pot(acts) < old(Pot(acts))
      decreases Pot(acts), 1
    {
      hide InvExcept, Accounted, Pot, SizeAll, Consistent;
      var rule := acts[k].rule;
      CompleteStep(View(), k);
      CompleteAccounted(bases, roots, View(), k);
      acts := acts[k := acts[k].(done := acts[k].done + 1)];
      due := due + multiset(rule.targets);
      toSpawn := rule.spawn + toSpawn;
      assert View() == Completed(old(View()), k);
      assert SameRules(old(acts), acts);
      ghost var marked := acts;
      thrown := SpawnAll(rule.spawn);
      SameRulesTransitive(old(acts), marked, acts);
      if !thrown {
        ghost var spawned := acts;
        thrown := RegisterAll(k, rule.targets);
        SameRulesTransitive(old(acts), spawned, acts);
      }
    }

    // The calls that getTypeConverters makes.
    method SpawnAll(spawn: seq<Rule>) returns (thrown: bool)
      requires Running() && spawn <= toSpawn
      modifies this
      ensures Grown()
      ensures thrown ==> !Consistent(bases, roots)
      ensures !thrown ==> due == old(due) && toSpawn == old(toSpawn)[|spawn|..] && inFlight == old(inFlight)
      ensures Pot(acts) <= old(Pot(acts)) + SizeAll(spawn)
      decreases Pot(acts) + SizeAll(spawn), 3
    {
      hide InvExcept, Accounted, Consistent;
      var j := 0;
      while j < |spawn|
        invariant 0 <= j <= |spawn|
        invariant Grown()
        invariant toSpawn == old(toSpawn)[j..] && spawn[j..] <= toSpawn
        invariant due == old(due) && inFlight == old(inFlight)
        invariant Pot(acts) + SizeAll(spawn[j..]) <= old(Pot(acts)) + SizeAll(spawn)
      {
        assert spawn[j..][0] == spawn[j] && spawn[j..][1..] == spawn[j + 1..];
        thrown := WhenResolved(spawn[j]);
        if thrown {
          return;
        }
        j := j + 1;
      }
      thrown := false;
    }

    // The calls of registerType for the targets of a completed rule.
    method RegisterAll(k: nat, targets: seq<TypeId>) returns (thrown: bool)
      requires Running() && multiset(targets) <= due
      requires k < |acts| && acts[k].done >= 1 && acts[k].rule.targets == targets
      modifies this
      ensures Grown()
      ensures thrown ==> !Consistent(bases, roots)
      ensures !thrown ==>
        && due == old(due) - multiset(targets) && toSpawn == old(toSpawn) && inFlight == old(inFlight)
        && AreProduced(registered, targets, k, |targets|)
      ensures Pot(acts) <= old(Pot(acts))
      decreases Pot(acts), 6
    {
      hide Inv, Accounted, Consistent, Pot, IsSource, SameRules, Ahead, Extends, AreProduced;
      NoneProduced(acts, registered, targets, k);
      ghost var rest := due - multiset(targets);
      AllDue(due, targets);
      var i := 0;
      while i < |targets|
        invariant 0 <= i <= |targets|
        invariant Grown()
        invariant due == Ahead(rest, targets, i)
        invariant toSpawn == old(toSpawn) && inFlight == old(inFlight)
        invariant AreProduced(registered, targets, k, i)
        invariant Pot(acts) <= old(Pot(acts))
      {
        NextDue(rest, targets, i);
        TargetIsSource(old(acts), acts, k, i);
        ghost var before, had := acts, registered;
        thrown := RegisterTarget(targets[i], Produced(k, i));
        SameRulesTransitive(old(acts), before, acts);
        NextProduced(old(registered), had, registered, targets, k, i);
        if thrown {
          return;
        }
        i := i + 1;
      }
      thrown := false;
    }

    // registerType, called for a target.
    method RegisterTarget(t: TypeId, reg: Registration) returns (thrown: bool)
      requires Running() && t in due && IsSource(acts, t, reg)
      modifies this
      ensures Grown()
      ensures thrown ==> !Consistent(bases, roots)
      ensures !thrown ==>
        && due == old(due) - multiset{t} && toSpawn == old(toSpawn) && inFlight == old(inFlight)
        && t in registered && registered[t] == reg
      ensures Pot(acts) <= old(Pot(acts))
      decreases Pot(acts), 5
    {
      hide Inv, Accounted, Consistent, Pot;
      if t in registered {
        TwiceIsInconsistent(bases, roots, View(), t);
        return true;
      }
      thrown := Enter(t, reg);
    }

    // The body of whenDependentTypesAreResolved.
    method WhenResolved(rule: Rule) returns (thrown: bool)
      requires Running() && |toSpawn| > 0 && toSpawn[0] == rule
      modifies this
      ensures Grown()
      ensures thrown ==> !Consistent(bases, roots)
      ensures !thrown ==> due == old(due) && toSpawn == old(toSpawn)[1..] && inFlight == old(inFlight)
      ensures Pot(acts) <= old(Pot(acts)) + Size(rule)
      decreases Pot(acts) + Size(rule), 2
    {
      hide InvExcept, Accounted, Pot, Size, SameRules, Consistent;
      var waiting := Activate(rule);
      thrown := false;
      if waiting == 0 {
        ghost var before := acts;
        thrown := OnComplete(|acts| - 1);
        SameRulesTransitive(old(acts), before, acts);
      }
    }

    // The new closure, with the dependencies it waits for.
    method Activate(rule: Rule) returns (waiting: nat)
      requires Running() && |toSpawn| > 0 && toSpawn[0] == rule
      modifies this
      ensures Accounted(bases, roots, View()) && Extended() && |acts| > 0
      ensures acts == old(acts) + [acts[|acts| - 1]] && acts[|acts| - 1].rule == rule
      ensures bases == old(bases) && roots == old(roots)
      ensures InvExcept(View(), if waiting == 0 then |acts| - 1 else -1)
      ensures waiting == 0 ==> Nones(acts[|acts| - 1].slots) == 0
      ensures due == old(due) && toSpawn == old(toSpawn)[1..] && inFlight == old(inFlight) && lost == old(lost)
      ensures Pot(acts) == old(Pot(acts)) + Size(rule)
    {
      hide InvExcept, Accounted, Scanned, Pot, Size;
      ghost var st := View();
      var slots;
      slots, waiting := Scan(rule);
      PushStep(st, rule, slots, waiting, awaiting);
      PushAccounted(bases, roots, st, rule, slots, waiting, awaiting);
      acts := acts + [Activation(rule, slots, waiting, 0, 0)];
      toSpawn := toSpawn[1..];
      assert View() == Pushed(st, rule, slots, waiting, awaiting);
    }

    // Sorts the dependencies into filled slots and awaiting callbacks.
    method Scan(rule: Rule) returns (slots: seq<Option<Registration>>, waiting: nat)
      requires Inv(View())
      modifies `awaiting
      ensures Scanned(old(View()), rule, |rule.deps|, slots, waiting, awaiting)
    {
      hide Scanned, InvExcept, Distinct;
      ghost var st := View();
      slots, waiting := [], 0;
      var i := 0;
      ScanStart(st, rule);
      while i < |rule.deps|
        invariant 0 <= i <= |rule.deps|
        invariant Scanned(st, rule, i, slots, waiting, awaiting)
      {
        var dep := rule.deps[i];
        ScanStep(st, rule, i, slots, waiting, awaiting);
        if dep in registered {
          slots := slots + [Some(registered[dep])];
        } else {
          slots := slots + [None];
          waiting := waiting + 1;
          ghost var was := awaiting;
          if dep !in awaiting {
            awaiting := awaiting[dep := []];
          }
          awaiting := awaiting[dep := awaiting[dep] + [Callback(|acts|, i)]];
          assert awaiting == was[dep := (if dep in was then was[dep] else []) + [Callback(|acts|, i)]];
        }
        i := i + 1;
      }
    }
  }
}
