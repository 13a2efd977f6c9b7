/**
 Handles to native objects.  Clones share one reference count; the native
 destructor runs when the last of them is released, whether by delete, by a
 flush of the deletion queue, or by a finalizer.
 */
module ClassHandles {
  import opened Wrappers

  // Where a handle stands in its life: a collected handle is out of reach of the program.
  datatype Stage = Live | Deleted | Collected

  // The object that clones share.
  class Count {
    var value: int
    // How often the native destructor has run for the group.
    var destroyed: nat
    // The handles of the group not yet released.
    ghost var holders: set<Handle>

    constructor ()
      ensures value == 1 && destroyed == 0 && holders == {}
    {
      value, destroyed, holders := 1, 0, {};
    }
  }

  // A handle's record; `ptr` is undefined once the handle is deleted.
  class Handle {
    const count: Count
    const smart: bool
    var hasPtr: bool
    var deleteScheduled: bool
    ghost var stage: Stage

    constructor (count: Count, smart: bool)
      ensures this.count == count && this.smart == smart
      ensures hasPtr && !deleteScheduled && stage == Live
    {
      this.count, this.smart := count, smart;
      hasPtr, deleteScheduled, stage := true, false, Live;
    }
  }

  ghost function Counts(handles: set<Handle>): set<Count> {
    set h | h in handles :: h.count
  }

  class Runtime {
    var deletionQueue: seq<Handle>
    // The handles the FinalizationRegistry watches; none where the host has no registry.
    var watched: set<Handle>
    const hasRegistry: bool
    // Every handle made so far.
    ghost var all: set<Handle>

    ghost predicate Valid()
      reads this, all, Counts(all)
    {
      QueueOk() && (forall h :: h in all ==> HandleOk(h)) && (forall h :: h in all ==> CountOk(h.count))
    }

    ghost predicate QueueOk()
      reads this
    {
      Distinct(deletionQueue) && forall h :: h in deletionQueue ==> h in all
    }

    // A handle holds a reference exactly while it is live, and is marked as
    // scheduled exactly while it is queued.
    ghost predicate HandleOk(h: Handle)
      reads this, h, h.count
    {
      && (h in h.count.holders <==> h.stage == Live)
      && (h.hasPtr <==> h.stage != Deleted)
      && (h.deleteScheduled <==> h in deletionQueue)
      && (h.deleteScheduled ==> h.stage == Live)
      && (h in watched <==> h.stage == Live && h.smart && hasRegistry)
    }

    // The count is the number of live handles of the group, and the destructor
    // has run once if there are none left and not otherwise.
    ghost predicate CountOk(c: Count)
      reads this, c
    {
      && c.value == |c.holders|
      && c.destroyed == (if c.holders == {} then 1 else 0)
      && (forall x :: x in c.holders ==> x in all && x.count == c)
    }

    // The handles of a group that have not been released.
    ghost function LiveIn(c: Count): set<Handle>
      reads this, all
    {
      set h | h in all && h.count == c && h.stage == Live
    }

    // The shared count is the number of unreleased handles, and the destructor
    // has run exactly once if there are none, and never otherwise.
    lemma CountIsLiveHandles(h: Handle)
      requires Valid() && h in all
      ensures h.count.value == |LiveIn(h.count)|
      ensures h.count.destroyed == if LiveIn(h.count) == {} then 1 else 0
    {
      var c := h.count;
      assert CountOk(c);
      assert forall x :: x in all ==> HandleOk(x);
      assert c.holders == LiveIn(c);
    }

    // A handle is marked as scheduled exactly while it is in the queue, where it
    // is live and stands once.
    lemma ScheduledIsQueued(h: Handle)
      requires Valid() && h in all
      ensures h.deleteScheduled <==> h in deletionQueue
      ensures Distinct(deletionQueue) && (h in deletionQueue ==> h.stage == Live && h.hasPtr)
    {
      assert HandleOk(h);
    }

    constructor (hasRegistry: bool)
      ensures Valid() && all == {} && deletionQueue == [] && this.hasRegistry == hasRegistry
    {
      this.hasRegistry := hasRegistry;
      deletionQueue, watched, all := [], {}, {};
    }

    // makeClassHandle.
    method Make(smart: bool) returns (h: Handle)
      requires Valid()
      modifies this
      ensures Valid() && fresh(h) && fresh(h.count) && all == old(all) + {h}
      ensures h.stage == Live && h.count.holders == {h} && deletionQueue == old(deletionQueue)
    {
      var count := new Count();
      h := new Handle(count, smart);
      Attach(h);
    }

    // Enters a new handle in its group, whose count already allows for it, and
    // watches it where there is a registry and a smart pointer.
    method Attach(h: Handle)
      requires QueueOk() && forall x :: x in all ==> HandleOk(x) && (x.count != h.count ==> CountOk(x.count))
      requires h !in all && h.stage == Live && h.hasPtr && !h.deleteScheduled
      requires h !in watched && h !in h.count.holders
      requires h.count.value == |h.count.holders| + 1 && h.count.destroyed == 0
      requires forall x :: x in h.count.holders ==> x in all && x.count == h.count
      modifies this, h.count
      ensures Valid() && all == old(all) + {h} && h.count.holders == old(h.count.holders) + {h}
      ensures deletionQueue == old(deletionQueue)
    {
      if hasRegistry && h.smart {
        watched := watched + {h};
      }
      all := all + {h};
      h.count.holders := h.count.holders + {h};
      assert CountOk(h.count);
      forall x | x in all
        ensures HandleOk(x) && CountOk(x.count)
      {
        assert x in old(all) || x == h;
      }
    }

    // A method of a handle throws once the handle is deleted.
    method Clone(h: Handle) returns (thrown: bool, clone: Handle)
      requires Valid() && h in all && h.stage != Collected
      modifies this, h.count
      ensures Valid() && thrown == (h.stage == Deleted)
      ensures thrown ==> all == old(all) && h.count.holders == old(h.count.holders)
      ensures !thrown ==> fresh(clone) && clone.count == h.count && clone.stage == Live
      ensures !thrown ==> all == old(all) + {clone} && h.count.holders == old(h.count.holders) + {clone}
      ensures deletionQueue == old(deletionQueue)
    {
      thrown, clone := !h.hasPtr, h;
      if h.hasPtr {
        assert HandleOk(h) && CountOk(h.count);
        clone := new Handle(h.count, h.smart);
        h.count.value := h.count.value + 1;
        Attach(clone);
      }
    }

    // Gives up a live handle's reference; the last one runs the destructor.
    method Release(h: Handle, ghost to: Stage)
      requires Valid() && h in all && h.stage == Live && to != Live
      requires h !in deletionQueue
      modifies this, h, h.count
      ensures h.stage == to && h.count.holders == old(h.count.holders) - {h}
      ensures forall x :: x in all && x != h ==> HandleOk(x)
      ensures forall x :: x in all ==> CountOk(x.count)
      ensures h.hasPtr && h.deleteScheduled == old(h.deleteScheduled) && h !in watched
      ensures deletionQueue == old(deletionQueue) && all == old(all)
    {
      assert HandleOk(h) && CountOk(h.count);
      watched := watched - {h};
      h.stage := to;
      Drop(h.count, h);
      forall x | x in all && x != h
        ensures HandleOk(x)
      {
        assert old(HandleOk(x));
      }
      forall x | x in all && x.count != h.count
        ensures CountOk(x.count)
      {
        assert old(CountOk(x.count));
      }
    }

    // Takes one holder off a count.
    method Drop(c: Count, ghost h: Handle)
      requires CountOk(c) && h in c.holders
      modifies c
      ensures CountOk(c) && c.holders == old(c.holders) - {h}
    {
      assert h in c.holders && |c.holders - {h}| == |c.holders| - 1;
      c.holders := c.holders - {h};
      c.value := c.value - 1;
      if c.value == 0 {
        c.destroyed := c.destroyed + 1;
      }
    }

    // ClassHandle_delete.
    method Delete(h: Handle) returns (thrown: bool)
      requires Valid() && h in all && h.stage != Collected
      modifies this, h, h.count
      ensures Valid() && thrown == (old(h.stage) == Deleted || h in old(deletionQueue))
      ensures if thrown then h.stage == old(h.stage) && h.count.holders == old(h.count.holders)
        else h.stage == Deleted && h.count.holders == old(h.count.holders) - {h}
      ensures deletionQueue == old(deletionQueue) && all == old(all)
    {
      if !h.hasPtr || h.deleteScheduled {
        return true;
      }
      Release(h, Deleted);
      h.hasPtr := false;
      return false;
    }

    // ClassHandle_deleteLater.
    method DeleteLater(h: Handle) returns (thrown: bool)
      requires Valid() && h in all && h.stage != Collected
      modifies this, h
      ensures Valid() && thrown == (h.stage == Deleted || h in old(deletionQueue))
      ensures deletionQueue == if thrown then old(deletionQueue) else old(deletionQueue) + [h]
      ensures h.stage == old(h.stage) && all == old(all)
    {
      if !h.hasPtr || h.deleteScheduled {
        return true;
      }
      deletionQueue := deletionQueue + [h];
      h.deleteScheduled := true;
      return false;
    }

    // A finalizer: the registry reports a watched handle that the program no
    // longer reaches.  A queued handle is still reached, from the queue.
    method Finalize(h: Handle)
      requires Valid() && h in watched && h in all && h !in deletionQueue
      modifies this, h, h.count
      ensures Valid() && h.stage == Collected && h.count.holders == old(h.count.holders) - {h}
      ensures deletionQueue == old(deletionQueue) && all == old(all)
    {
      Release(h, Collected);
    }

    // Takes the last handle off the queue, unmarked.
    method Pop() returns (obj: Handle)
      requires Valid() && |deletionQueue| > 0
      modifies this, all
      ensures Valid() && obj in all && obj.stage == Live && obj !in deletionQueue
      ensures old(deletionQueue) == deletionQueue + [obj] && all == old(all)
      ensures forall h :: h in all ==> h.stage == old(h.stage)
    {
      obj := deletionQueue[|deletionQueue| - 1];
      assert HandleOk(obj);
      deletionQueue := deletionQueue[..|deletionQueue| - 1];
      obj.deleteScheduled := false;
      forall h | h in all
        ensures HandleOk(h)
      {
        assert old(HandleOk(h));
        assert h in old(deletionQueue) <==> h in deletionQueue || h == obj;
      }
    }

    // flushPendingDeletes: no delete throws, and the queue ends empty.
    method Flush() returns (thrown: bool)
      requires Valid()
      modifies this, all, Counts(all)
      ensures Valid() && !thrown && deletionQueue == [] && all == old(all)
      ensures forall h :: h in all ==> h.stage == if h in old(deletionQueue) then Deleted else old(h.stage)
    {
      hide Valid, HandleOk, CountOk;
      thrown := false;
      ghost var flushed := [];
      while |deletionQueue| > 0
        invariant Valid() && all == old(all) && !thrown
        invariant old(deletionQueue) == deletionQueue + flushed
        invariant forall h :: h in all ==> h.stage == if h in flushed then Deleted else old(h.stage)
        decreases |deletionQueue|
      {
        var obj := Pop();
        assert obj.count in Counts(all);
        thrown := Delete(obj);
        flushed := [obj] + flushed;
      }
    }
  }
}
