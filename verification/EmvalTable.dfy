/**
 The emval handle table: JavaScript values that native code refers to by a
 small integer.  Slots are reference counted and recycled through a free list.
 */
module EmvalTable {
  import opened Wrappers

  // `Other` stands for any value that is not one of the four constants.
  datatype Value = Undefined | Null | True | False | Other(id: int)

  datatype Slot = Empty | Fixed(constant: Value) | Cell(refcount: int, value: Value)

  const RESERVED: seq<Slot> :=
    [Fixed(Undefined), Fixed(Undefined), Fixed(Null), Fixed(True), Fixed(False)]

  ghost function Live(slots: seq<Slot>): nat {
    if slots == [] then 0
    else Live(slots[..|slots| - 1]) + (if slots[|slots| - 1].Cell? then 1 else 0)
  }

  lemma {:induction false} LiveUpdate(slots: seq<Slot>, h: nat, slot: Slot)
    requires h < |slots|
    ensures Live(slots[h := slot]) + (if slots[h].Cell? then 1 else 0)
         == Live(slots) + (if slot.Cell? then 1 else 0)
  {
    var n := |slots| - 1;
    if h < n {
      assert slots[h := slot][..n] == slots[..n][h := slot];
      LiveUpdate(slots[..n], h, slot);
    } else {
      assert slots[h := slot][..n] == slots[..n];
    }
  }

  lemma LiveAppend(slots: seq<Slot>, slot: Slot)
    ensures Live(slots + [slot]) == Live(slots) + (if slot.Cell? then 1 else 0)
  {
    assert (slots + [slot])[..|slots|] == slots;
  }

  lemma {:induction false} LiveFixed(slots: seq<Slot>)
    requires forall h :: 0 <= h < |slots| ==> slots[h].Fixed?
    ensures Live(slots) == 0
  {
    if slots != [] {
      LiveFixed(slots[..|slots| - 1]);
    }
  }

  // A slot above the constants is in use exactly while references to it are
  // held, and counts them.
  ghost predicate SlotsOk(handles: seq<Slot>, held: multiset<nat>) {
    && RESERVED <= handles
    && (forall h :: 5 <= h < |handles| ==> SlotOk(handles[h], held[h]))
    && (forall h :: h in held ==> 5 <= h < |handles|)
  }

  ghost predicate SlotOk(slot: Slot, references: nat) {
    if references == 0 then slot == Empty
    else slot.Cell? && slot.refcount == references && slot.value.Other?
  }

  // The free list is the empty slots, each once.
  ghost predicate FreeOk(handles: seq<Slot>, free: seq<nat>) {
    Distinct(free) && forall h :: h in free <==> 5 <= h < |handles| && handles[h].Empty?
  }

  lemma EmptyUnheld(handles: seq<Slot>, held: multiset<nat>, h: nat)
    requires SlotsOk(handles, held) && 5 <= h < |handles| && handles[h].Empty?
    ensures h !in held
  {
  }

  // A held slot counts its references, and fits one less.
  lemma OneReferenceLess(handles: seq<Slot>, held: multiset<nat>, h: nat)
    requires SlotsOk(handles, held) && h in held
    ensures 5 <= h < |handles| && handles[h].Cell? && handles[h].refcount == held[h] && handles[h].value.Other?
    ensures forall x :: x != h ==> (held - multiset{h})[x] == held[x]
    ensures (held - multiset{h})[h] == held[h] - 1
  {
    assert SlotOk(handles[h], held[h]);
  }

  // A slot rewritten to fit its new number of references.
  lemma SlotsPut(handles: seq<Slot>, held: multiset<nat>, h: nat, slot: Slot, held': multiset<nat>)
    requires SlotsOk(handles, held) && 5 <= h < |handles|
    requires SlotOk(slot, held'[h]) && forall x :: x != h ==> held'[x] == held[x]
    ensures SlotsOk(handles[h := slot], held')
  {
    var handles' := handles[h := slot];
    assert RESERVED <= handles' by {
      assert handles'[..5] == handles[..5];
    }
    forall x | x in held'
      ensures 5 <= x < |handles'|
    {
      assert x == h || x in held;
    }
  }

  lemma Recounted(slot: Slot, references: nat)
    requires slot.Cell? && slot.refcount == references && slot.value.Other?
    ensures SlotOk(if references == 0 then Empty else slot, references)
  {
  }

  lemma SlotsGrow(handles: seq<Slot>, held: multiset<nat>, slot: Slot)
    requires SlotsOk(handles, held) && SlotOk(slot, 1)
    ensures SlotsOk(handles + [slot], held + multiset{|handles|}) && |handles| !in held && |handles| >= 5
  {
    assert held[|handles|] == 0;
  }

  lemma FreePop(handles: seq<Slot>, free: seq<nat>, slot: Slot)
    requires FreeOk(handles, free) && free != [] && slot != Empty
    ensures var h := free[|free| - 1];
      && 5 <= h < |handles| && handles[h].Empty?
      && FreeOk(handles[h := slot], free[..|free| - 1])
  {
    var last := |free| - 1;
    assert free[last] in free;
    assert forall h :: h in free[..last] <==> h in free && h != free[last] by {
      assert free == free[..last] + [free[last]];
    }
  }

  lemma FreePush(handles: seq<Slot>, free: seq<nat>, h: nat)
    requires FreeOk(handles, free) && 5 <= h < |handles| && !handles[h].Empty?
    ensures FreeOk(handles[h := Empty], free + [h])
  {
    assert h !in free;
  }

  // The free list and the live count, whichever way a used slot is rewritten.
  lemma FreeDrop(handles: seq<Slot>, free: seq<nat>, h: nat, slot: Slot)
    requires FreeOk(handles, free) && 5 <= h < |handles| && handles[h].Cell? && slot.Cell?
    ensures FreeOk(handles[h := slot], free) && Live(handles[h := slot]) == Live(handles)
    ensures FreeOk(handles[h := Empty], free + [h]) && Live(handles[h := Empty]) == Live(handles) - 1
  {
    FreeKept(handles, free, h, slot);
    FreePush(handles, free, h);
    LiveUpdate(handles, h, slot);
    LiveUpdate(handles, h, Empty);
  }

  lemma FreeKept(handles: seq<Slot>, free: seq<nat>, h: nat, slot: Slot)
    requires FreeOk(handles, free) && h < |handles| && handles[h] != Empty && slot != Empty
    ensures FreeOk(handles[h := slot], free)
  {
  }

  lemma FreeGrow(handles: seq<Slot>, slot: Slot)
    requires FreeOk(handles, []) && slot != Empty
    ensures FreeOk(handles + [slot], [])
  {
    var free: seq<nat> := [];
    assert forall h :: 5 <= h < |handles| && handles[h].Empty? ==> h in free;
  }

  lemma CellIsHeld(handles: seq<Slot>, held: multiset<nat>, h: nat)
    requires SlotsOk(handles, held) && h < |handles|
    ensures handles[h].Cell? <==> h in held
  {
    assert h < 5 ==> handles[h] == RESERVED[h];
    assert h >= 5 ==> SlotOk(handles[h], held[h]);
  }

  lemma {:induction false} HeldBelow(handles: seq<Slot>, held: multiset<nat>, n: nat)
    requires SlotsOk(handles, held) && n <= |handles|
    ensures Live(handles[..n]) == |set h | h in held && h < n|
  {
    hide SlotsOk;
    var below := set h | h in held && h < n;
    if n > 0 {
      HeldBelow(handles, held, n - 1);
      assert handles[..n][..n - 1] == handles[..n - 1];
      CellIsHeld(handles, held, n - 1);
      var before := set h | h in held && h < n - 1;
      assert below == if n - 1 in held then before + {n - 1} else before;
    }
  }

  class EmvalTable {
    var handles: seq<Slot>
    var free: seq<nat>

    // References given out and not yet released, and the most handles ever live at once.
    ghost var held: multiset<nat>
    ghost var peak: nat

    ghost predicate Valid()
      reads this
    {
      && SlotsOk(handles, held) && FreeOk(handles, free)
      && |free| + Live(handles) == |handles| - 5
      // a slot is added only when every other one is in use
      && peak == |handles| - 5
    }

    constructor ()
      ensures Valid() && held == multiset{} && peak == 0
    {
      handles, free := RESERVED, [];
      held, peak := multiset{}, 0;
      LiveFixed(RESERVED);
    }

    ghost predicate IsLive(h: nat)
      reads this
    {
      h in held
    }

    // A handle is live or free, never both; the table has grown to the peak and no further.
    lemma FreeIsUnheld(h: nat)
      requires Valid()
      ensures h in held <==> 5 <= h < |handles| && h !in free
      ensures Distinct(free) && |handles| == 5 + peak && Live(handles) <= peak
    {
      if 5 <= h < |handles| {
        assert SlotOk(handles[h], held[h]);
      }
    }

    lemma InUseIsLive(h: nat)
      requires Valid() && h > 4
      ensures InUse(h) <==> IsLive(h)
    {
      assert h < |handles| ==> SlotOk(handles[h], held[h]);
    }

    // The live count is the number of different handles held.
    lemma LiveIsHeld()
      requires Valid()
      ensures Live(handles) == |set h | h in held|
    {
      HeldBelow(handles, held, |handles|);
      assert handles[..|handles|] == handles;
      assert (set h | h in held) == (set h | h in held && h < |handles|);
    }

    // The table holds a value for every constant and every live handle.
    function ValueAt(h: nat): Value
      reads this
      requires Valid() && (1 <= h <= 4 || IsLive(h))
    {
      if h <= 4 then handles[h].constant else handles[h].value
    }

    // A handle that names a slot in use; reading a field of any other throws.
    predicate InUse(h: nat)
      reads this
    {
      h < |handles| && handles[h] != Empty
    }

    // Emval.toValue throws for the null handle and for one that is not live.
    method ToValue(h: nat) returns (thrown: bool, value: Value)
      requires Valid()
      ensures thrown <==> h == 0 || (h > 4 && !IsLive(h))
      ensures !thrown ==> value == ValueAt(h)
    {
      thrown, value := h == 0 || !InUse(h), Undefined;
      if h > 4 {
        InUseIsLive(h);
      }
      if !thrown {
        value := if handles[h].Fixed? then handles[h].constant else handles[h].value;
      }
    }

    // Emval.toHandle: the constants have fixed handles; any other value gets a
    // handle that was not live, and the live ones keep theirs.
    method ToHandle(value: Value) returns (h: nat)
      requires Valid()
      modifies this
      ensures Valid() && 1 <= h && (h <= 4 || IsLive(h)) && ValueAt(h) == value
      ensures !value.Other? ==> h <= 4 && held == old(held) && handles == old(handles)
      ensures value.Other? ==> h >= 5 && h !in old(held) && held == old(held) + multiset{h}
      // the handle freed last is taken first
      ensures value.Other? ==>
        h == if old(free) == [] then |old(handles)| else old(free)[|old(free)| - 1]
      ensures forall x :: x in old(held) ==> IsLive(x) && ValueAt(x) == old(ValueAt(x))
      ensures peak == if Live(handles) > old(peak) then Live(handles) else old(peak)
    {
      hide FreeOk;
      match value {
        case Undefined => h := 1;
        case Null => h := 2;
        case True => h := 3;
        case False => h := 4;
        case Other(_) =>
          if |free| > 0 {
            h := free[|free| - 1];
            Recycle(h, Cell(1, value));
          } else {
            h := |handles|;
            Grow(Cell(1, value));
          }
      }
    }

    // Puts a first reference in the slot on top of the free list.
    method Recycle(h: nat, slot: Slot)
      requires Valid() && |free| > 0 && h == free[|free| - 1]
      requires slot.Cell? && slot.refcount == 1 && slot.value.Other?
      modifies this
      ensures Valid() && held == old(held) + multiset{h} && peak == old(peak)
      ensures 5 <= h < |old(handles)| && h !in old(held) && handles == old(handles)[h := slot]
      ensures Live(handles) <= peak
    {
      hide SlotsOk, FreeOk;
      FreePop(handles, free, slot);
      EmptyUnheld(handles, held, h);
      SlotsPut(handles, held, h, slot, held + multiset{h});
      LiveUpdate(handles, h, slot);
      free := free[..|free| - 1];
      handles := handles[h := slot];
      held := held + multiset{h};
    }

    // Puts a first reference in a new slot.
    method Grow(slot: Slot)
      requires Valid() && free == []
      requires slot.Cell? && slot.refcount == 1 && slot.value.Other?
      modifies this
      ensures Valid() && held == old(held) + multiset{|old(handles)|}
      ensures |old(handles)| >= 5 && |old(handles)| !in old(held) && handles == old(handles) + [slot]
      ensures peak == old(peak) + 1 == Live(handles)
    {
      hide SlotsOk, FreeOk;
      SlotsGrow(handles, held, slot);
      FreeGrow(handles, slot);
      LiveAppend(handles, slot);
      held := held + multiset{|handles|};
      handles := handles + [slot];
      peak := peak + 1;
    }

    // Throws for a handle that is not live, changing nothing.
    method Incref(h: nat) returns (thrown: bool)
      requires Valid()
      modifies this
      ensures thrown <==> h > 4 && !old(IsLive(h))
      ensures Valid() && peak == old(peak) && Live(handles) == old(Live(handles))
      ensures held == if h > 4 && !thrown then old(held) + multiset{h} else old(held)
      ensures forall x :: x in old(held) ==> ValueAt(x) == old(ValueAt(x))
    {
      thrown := h > 4 && !InUse(h);
      if h > 4 {
        InUseIsLive(h);
      }
      if h > 4 && !thrown {
        var slot := handles[h].(refcount := handles[h].refcount + 1);
        SlotsPut(handles, held, h, slot, held + multiset{h});
        FreeKept(handles, free, h, slot);
        LiveUpdate(handles, h, slot);
        handles := handles[h := slot];
        held := held + multiset{h};
      }
    }

    // Releases one reference; the last one empties the slot and frees the handle.
    // Throws for a handle that is not live, changing nothing.
    method Decref(h: nat) returns (thrown: bool)
      requires Valid()
      modifies this
      ensures thrown <==> h > 4 && !old(IsLive(h))
      ensures Valid() && peak == old(peak)
      ensures held == if h > 4 && !thrown then old(held) - multiset{h} else old(held)
      ensures Live(handles) == old(Live(handles)) - (if h > 4 && old(held)[h] == 1 then 1 else 0)
      ensures free == if h > 4 && old(held)[h] == 1 then old(free) + [h] else old(free)
      ensures forall x :: x in held ==> ValueAt(x) == old(ValueAt(x))
    {
      hide FreeOk, Live, SlotOk;
      thrown := h > 4 && !InUse(h);
      if h > 4 {
        InUseIsLive(h);
      }
      if h > 4 && !thrown {
        ghost var before := handles;
        OneReferenceLess(handles, held, h);
        var slot := handles[h].(refcount := handles[h].refcount - 1);
        Recounted(slot, held[h] - 1);
        SlotsPut(handles, held, h, if slot.refcount == 0 then Empty else slot, held - multiset{h});
        FreeDrop(handles, free, h, slot);
        handles := handles[h := slot];
        if slot.refcount == 0 {
          handles := handles[h := Empty];
          assert handles == before[h := Empty];
          free := free + [h];
        }
        held := held - multiset{h};
      }
    }

    // count_emval_handles.
    method Count() returns (count: nat)
      requires Valid()
      ensures count == Live(handles)
    {
      count := 0;
      var i := 5;
      LiveFixed(RESERVED);
      assert handles[..5] == RESERVED;
      while i < |handles|
        invariant 5 <= i <= |handles|
        invariant count == Live(handles[..i])
      {
        assert handles[..i + 1] == handles[..i] + [handles[i]];
        LiveAppend(handles[..i], handles[i]);
        if handles[i] != Empty {
          count := count + 1;
        }
        i := i + 1;
      }
      assert handles[..i] == handles;
    }

    // get_first_emval: the slot of the lowest live handle.
    method First() returns (slot: Slot)
      requires Valid()
      ensures if held == multiset{} then slot == Empty
        else exists h :: h in held && slot == handles[h] && forall x :: x in held ==> h <= x
    {
      var i := 5;
      while i < |handles|
        invariant 5 <= i <= |handles|
        invariant forall x :: x in held ==> i <= x
      {
        assert SlotOk(handles[i], held[i]);
        if handles[i] != Empty {
          assert i in held;
          return handles[i];
        }
        i := i + 1;
      }
      slot := Empty;
      assert held == multiset{};
    }
  }
}
