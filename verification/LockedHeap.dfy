/**
 kmalloc and krealloc of userland/kmalloc.cpp with the lock around them, as one thread calls them. A thread that waits
 for the lock while it holds it never returns: BinarySemaphore.WaitingTwiceBlocks.
 */
module LockedHeap {
  import opened Prelude
  import opened Ledger
  import opened FreeList
  import opened ChunkAllocator

  datatype Reply = Returned(ptr: Option<int>) | Never

  /** What a pointer's header says was asked for. */
  ghost function HeldSize(live: map<nat, Block>, ptr: Option<int>): Option<nat> {
    if ptr.Some? && ptr.value - 1 in live then Some(live[ptr.value - 1].size) else None
  }

  class LockedAllocator {
    const a: Allocator
    var locked: bool              // by the thread whose calls these are

    constructor (a: Allocator)
      ensures this.a == a && !locked
    {
      this.a, locked := a, false;
    }

    /** sync_mutex_lock: whether it returns. */
    method Lock() returns (entered: bool)
      modifies this
      ensures entered == !old(locked) && locked
    {
      entered, locked := !locked, true;
    }

    method Unlock()
      requires locked
      modifies this
      ensures !locked
    {
      locked := false;
    }

    method Kmalloc(bytes: nat) returns (r: Reply)
      requires a.Valid() && (!locked ==> bytes < WORD_MOD && !Diverges(bytes))
      modifies this, a, a.next, a.prev, a.count, a.size
      ensures a.Valid() && locked == old(locked) && r.Never? == old(locked)
      ensures r.Never? ==> a.View() == old(a.View()) && a.Mem() == old(a.Mem())
      ensures !r.Never? ==> a.View() == Malloc(old(a.View()), bytes)
      ensures !r.Never? ==> (r.ptr.Some? <==> Place(old(a.View()), bytes).Some?)
      ensures !r.Never? && r.ptr.Some? ==> r.ptr.value - 1 == Place(old(a.View()), bytes).value
    {
      var entered := Lock();
      if !entered {
        return Never;
      }
      var ptr := a.KmallocNoLock(bytes);
      Unlock();
      r := Returned(ptr);
    }

    /**
     krealloc of NULL or of a live pointer, for which ReallocRoute decides. It never gives a new block for a live one:
     it answers NULL, or it waits for its own lock before it gets to copying (lines 139-144 are not reached).
     */
    method Krealloc(ptr: Option<int>, bytes: nat) returns (r: Reply)
      requires a.Valid() && !locked
      requires ptr.Some? ==> a.initialized && 0 <= ptr.value - 1 < a.n && ptr.value - 1 in a.live
      requires ptr.None? ==> bytes < WORD_MOD && !Diverges(bytes)
      modifies this, a, a.next, a.prev, a.count, a.size
      ensures a.Valid()
      ensures match ReallocRoute(HeldSize(old(a.live), ptr), bytes)
        case Allocates =>
          && !locked && r.Returned? && a.View() == Malloc(old(a.View()), bytes)
          && (r.ptr.Some? <==> Place(old(a.View()), bytes).Some?)
          && (r.ptr.Some? ==> r.ptr.value - 1 == Place(old(a.View()), bytes).value)
        case Null => !locked && r == Returned(None) && a.View() == old(a.View()) && a.Mem() == old(a.Mem())
        case Waits => locked && r == Never && a.View() == old(a.View()) && a.Mem() == old(a.Mem())
      ensures r.Never? <==> ptr.Some? && old(a.live)[ptr.value - 1].size <= bytes
      ensures ptr.Some? && r.Returned? ==> r.ptr == None
    {
      var entered := Lock();
      if ptr == None {
        var fresh' := a.KmallocNoLock(bytes);
        Unlock();
        return Returned(fresh');
      }
      var prevSize := a.size[ptr.value - 1];
      if bytes < prevSize {
        Unlock();
        return Returned(None);
      }
      r := Kmalloc(bytes);
      if r.Returned? {
        assert false;  // so nothing is copied, and the old block is not freed
      }
    }
  }
}
