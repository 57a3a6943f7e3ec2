/**
 The chunk allocator of userland/kmalloc.cpp, statement by statement, over the fields of `struct info`
 as arrays. What each function promises is said in terms of the live blocks (module Ledger) and of the
 free list (module FreeList), whose conventions for chunk indices it shares.
 */
module ChunkAllocator {
  import opened Prelude
  import opened Ledger
  import opened FreeList

  class Allocator {
    const n: nat                 // chunk_max
    const next: array<int>
    const prev: array<int>
    const count: array<int>
    const size: array<int>
    var initialized: bool
    var totalAllocated: nat      // _totalAllocated, a size_t
    ghost var live: map<nat, Block>

    ghost function View(): Heap
      reads this
    {
      Heap(n, live)
    }

    ghost function Mem(): Memory
      reads this, next, prev, count, size
    {
      Memory(next[..], prev[..], count[..], size[..])
    }

    ghost predicate Valid()
      reads this, next, prev, count, size
    {
      && next.Length == prev.Length == count.Length == size.Length == n + 3
      && next != prev && next != count && next != size && prev != count && prev != size && count != size
      && (if initialized then Represents(View(), Mem()) else live == map[])
    }

    /** The counter is the sum of the requested sizes of the live blocks, as far as a size_t can tell. */
    ghost predicate Accounted()
      reads this
    {
      totalAllocated == TotalSize(View()) % WORD_MOD
    }

    /** Static storage and setMemoryPool: a pool with any content whatever, not yet initialised. */
    constructor (chunks: nat)
      ensures Valid() && Accounted() && n == chunks && live == map[] && !initialized
      ensures fresh(next) && fresh(prev) && fresh(count) && fresh(size)
    {
      n := chunks;
      next, prev := new int[chunks + 3], new int[chunks + 3];
      count, size := new int[chunks + 3], new int[chunks + 3];
      initialized, totalAllocated, live := false, 0, map[];
      new;
      EmptyTotal(n);
    }

    static lemma {:induction false} EmptyTotal(k: nat)
      ensures SumBelow(map[], k) == 0
    {
      if k > 0 {
        EmptyTotal(k - 1);
      }
    }

    /** init: threads all chunks, in order of address, between the sentinels. */
    method Init()
      requires Valid() && !initialized
      modifies this`initialized, next, prev, count
      ensures Valid() && initialized
      ensures forall x :: 0 <= x < n ==> (
        next[x] == (if x + 1 == n then n + 2 else x + 1) && prev[x] == (if x == 0 then n + 1 else x - 1))
    {
      next[n + 1] := 0;
      var p, curr := n + 1, 0;
      for i := 0 to n
        invariant curr == i && p == (if i == 0 then n + 1 else i - 1)
        invariant next[n + 1] == 0
        invariant forall x :: 0 <= x < i ==> (
          next[x] == x + 1 && prev[x] == (if x == 0 then n + 1 else x - 1) && count[x] == 0)
      {
        prev[curr] := p;
        next[curr] := curr + 1;
        count[curr] := 0;
        p := curr;
        curr := curr + 1;
      }
      next[p] := n + 2;
      prev[n + 2] := p;
      initialized := true;
      InitialMemory(n, Mem());
    }

    /** chunk_count. Outside its precondition the loop never leaves (see Ledger.ChunkLoopStopsExactly). */
    static method ChunkCountLoop(size: nat) returns (chunks: nat)
      requires size < WORD_MOD && !Diverges(size)
      ensures chunks == ChunkCount(size)
    {
      chunks := 0;
      var chunksSize: nat := 0;
      while chunksSize < (size + CHUNK) % WORD_MOD
        invariant chunks <= ChunkCount(size)
        invariant chunksSize == CHUNK * chunks < WORD_MOD
        decreases ChunkCount(size) - chunks
      {
        chunksSize := (chunksSize + CHUNK) % WORD_MOD;
        chunks := chunks + 1;
      }
    }

    /** unlink: takes a free run out of the list and writes the header. The result is the payload's chunk. */
    method Unlink(top: nat, chunks: nat, bytes: nat) returns (ptr: int)
      requires Valid() && initialized
      requires 1 <= chunks && RunFree(View(), top, chunks)
      modifies this`totalAllocated, this`live, next, prev, count, size
      ensures Valid()
      ensures live == old(live)[top := Block(chunks, bytes)]
      ensures totalAllocated == (old(totalAllocated) + bytes) % WORD_MOD
      ensures ptr == top + 1
      ensures SameBlocks(old(View()), old(Mem()), Mem())
    {
      hide Linked, SameBlocks, HeadersWritten, WellFormed, IsFree;
      UnlinkRepresents(View(), Mem(), top, Block(chunks, bytes));
      var p := prev[top];
      var q := next[top + chunks - 1];
      next[p] := q;
      prev[q] := p;
      count[top] := chunks;
      size[top] := bytes;
      totalAllocated := (totalAllocated + bytes) % WORD_MOD;
      live := live[top := Block(chunks, bytes)];
      ptr := top + 1;
      assert Mem() == Memory(old(next[..])[p := q], old(prev[..])[q := p],
                             old(count[..])[top := chunks], old(size[..])[top := bytes]);
    }

    /** The walk of relink: the last node below `top`. */
    method NodeBelow(top: int) returns (p: int)
      requires Valid() && initialized && 0 <= top < n
      ensures 0 <= p < n + 3 && Adjacent(View(), p, next[p])
      ensures Pos(View(), p) < top <= next[p]
    {
      ghost var h, m := View(), Mem();
      p := n + 1;
      while next[p] != n + 2 && next[p] < top
        invariant Source(h, p) && Pos(h, p) < top
        decreases n + 2 - Pos(h, p)
      {
        assert Adjacent(h, p, m.next[p]);
        p := next[p];
      }
      assert Adjacent(h, p, m.next[p]);
    }

    /** The rest of relink: threads the chunks of a block between two nodes. */
    method Splice(top: int, below: int, q: int)
      requires next.Length == prev.Length == count.Length == size.Length == n + 3
      requires next != prev && next != count && next != size && prev != count && prev != size && count != size
      requires 0 <= top < n && 0 <= count[top] && top + count[top] <= n
      requires 0 <= below < n + 3 && 0 <= q < n + 3
      requires !(top <= below < top + count[top]) && !(top <= q < top + count[top])
      modifies next, prev, count
      ensures old(count[top]) > 0 ==> Spliced(n, old(Mem()), Mem(), top, old(count[top]), below, q)
      ensures old(count[top]) == 0 ==>
        Mem() == old(Mem().(next := Mem().next[below := q], prev := Mem().prev[q := below]))
    {
      ghost var m := Mem();
      var curr, p := top, below;
      next[p] := curr;
      var chunks := count[top];
      for i := 0 to chunks
        invariant curr == top + i && p == (if i == 0 then below else top + i - 1)
        invariant forall x :: 0 <= x < n + 3 ==> (
          next[x] == if top <= x < top + i then x + 1 else if x == below then top else m.next[x])
        invariant forall x :: 0 <= x < n + 3 ==> (
          prev[x] == if top < x < top + i then x - 1 else if x == top && i > 0 then below else m.prev[x])
        invariant forall x :: 0 <= x < n + 3 ==> (
          count[x] == if top <= x < top + i then 0 else m.count[x])
      {
        prev[curr] := p;
        next[curr] := curr + 1;
        count[curr] := 0;
        p := curr;
        curr := curr + 1;
      }
      next[p] := q;
      prev[q] := p;
    }

    /**
     relink: splices the block back between its neighbours in the list. On a chunk whose count reads 0, as it does
     in every free chunk, it leaves every word as it was, and only the counter moves; the test for a dual free does
     not come into it, since NodeBelow never returns `top`.
     */
    method Relink(top: int)
      requires Valid()
      requires 0 <= top < n ==> initialized && (top in live || count[top] == 0)
      modifies this`totalAllocated, this`live, next, prev, count
      ensures Valid()
      ensures View() == (if top in old(live) then Free(old(View()), top) else old(View()))
      ensures top !in old(live) ==> Mem() == old(Mem())
      ensures totalAllocated ==
        if 0 <= top < n then (old(totalAllocated) - old(size[top])) % WORD_MOD else old(totalAllocated)
      ensures SameBlocks(View(), old(Mem()), Mem())
    {
      if top < 0 || n - 1 < top {
        return;
      }
      totalAllocated := (totalAllocated - size[top]) % WORD_MOD;
      var p := NodeBelow(top);
      if p == top {
        return;  // dual free
      }
      var q := next[p];
      ghost var h, m := View(), Mem();
      if top in live {
        LiveBlockBetween(h, top, p, q);
      }
      Splice(top, p, q);
      if top in live {
        RelinkRepresents(h, m, Mem(), top, p, q);
        live := live - {top};
      } else {
        AdjacentIsInjective(h, m.prev[q], q, p, q);
        assert Mem() == m;
      }
    }

    /** The scan of kmalloc_no_lock: the first run of neighbours in memory that is long enough. */
    method FirstRun(chunks: nat) returns (found: Option<nat>)
      requires Valid() && initialized
      ensures found == if chunks == 0 then None else FirstFit(View(), chunks, 0)
    {
      ghost var h, m := View(), Mem();
      var keep := 0;
      var top := next[n + 1];
      var curr := top;
      assert Adjacent(h, n + 1, m.next[n + 1]);
      if chunks > 0 {
        NoRunBelowList(h, top, chunks);
      }
      while curr != n + 2
        invariant Target(h, curr) && 0 <= top <= n + 2
        invariant if keep == 0 then top == curr else curr == top + keep < n
        invariant RunFree(h, top, keep) || keep == 0
        invariant chunks == 0 || keep < chunks
        invariant forall q :: 0 <= q < top && chunks > 0 ==> !RunFree(h, q, chunks)
        decreases n + 2 - curr
      {
        keep := keep + 1;
        assert Adjacent(h, curr, m.next[curr]);
        assert RunFree(h, top, keep);
        if keep == chunks {
          return Some(top);
        }
        if next[curr] == curr + 1 {
          curr := next[curr];
          continue;
        }
        if chunks > 0 {
          NoRunBeforeGap(h, top, curr, next[curr], chunks);
        }
        keep := 0;
        top := next[curr];
        curr := next[curr];
      }
      found := None;
    }

    /** kmalloc_no_lock. The result points at the chunk after the header. */
    method KmallocNoLock(bytes: nat) returns (ptr: Option<int>)
      requires Valid() && bytes < WORD_MOD && !Diverges(bytes)
      modifies this`initialized, this`totalAllocated, this`live, next, prev, count, size
      ensures Valid() && initialized
      ensures View() == Malloc(old(View()), bytes)
      ensures ptr == match Place(old(View()), bytes) case None => None case Some(top) => Some(top + 1)
      ensures SameBlocks(old(View()), old(Mem()), Mem())
      ensures old(Accounted()) ==> Accounted()
      ensures ptr.None? && old(initialized) ==> Mem() == old(Mem())
    {
      if !initialized {
        Init();
      }
      TotalAfterMalloc(View(), bytes);
      CounterFollows(TotalSize(View()), bytes);
      var chunks := ChunkCountLoop(bytes);
      var found := FirstRun(chunks);
      if found == None {
        return None;
      }
      var p := Unlink(found.value, chunks, bytes);
      return Some(p);
    }

    /**
     kfree_no_lock, for NULL, for a pointer outside the pool, for a live block, and for a chunk whose count reads 0,
     as in one already free. The last is the one case in which the byte counter goes wrong: exactly when the size
     there is not 0.
     */
    method KfreeNoLock(ptr: Option<int>)
      requires Valid()
      requires ptr.Some? && 0 <= ptr.value - 1 < n ==>
        initialized && (ptr.value - 1 in live || count[ptr.value - 1] == 0)
      modifies this`totalAllocated, this`live, next, prev, count
      ensures Valid()
      ensures View() ==
        if ptr.Some? && ptr.value - 1 in old(live) then Free(old(View()), ptr.value - 1) else old(View())
      ensures totalAllocated ==
        if ptr.Some? && 0 <= ptr.value - 1 < n then (old(totalAllocated) - old(size[ptr.value - 1])) % WORD_MOD
        else old(totalAllocated)
      ensures old(Accounted()) ==> (
        Accounted() <==>
          (ptr.Some? && 0 <= ptr.value - 1 < n && ptr.value - 1 !in old(live) ==>
             old(size[ptr.value - 1]) % WORD_MOD == 0))
      ensures ptr.None? || ptr.value - 1 !in old(live) ==> Mem() == old(Mem())
      ensures SameBlocks(View(), old(Mem()), Mem())
    {
      if ptr == None {
        return;
      }
      if ptr.value - 1 in live {
        TotalAfterFree(View(), ptr.value - 1);
        CounterFollows(TotalSize(View()), 0 - live[ptr.value - 1].size);
      } else if 0 <= ptr.value - 1 < n {
        CounterGoesWrong(TotalSize(View()), size[ptr.value - 1]);
      }
      Relink(ptr.value - 1);
    }

    /** A client stores what it likes in a payload chunk of a live block. */
    method WritePayload(x: nat, words: (int, int, int, int))
      requires Valid() && initialized && x < n && IsPayload(View(), x)
      modifies next, prev, count, size
      ensures Valid()
      ensures next[x] == words.0 && prev[x] == words.1 && count[x] == words.2 && size[x] == words.3
      ensures forall y :: 0 <= y < n + 3 && y != x ==> SameChunk(old(Mem()), Mem(), y)
    {
      ghost var m := Mem();
      next[x], prev[x], count[x], size[x] := words.0, words.1, words.2, words.3;
      PayloadWritesAreHarmless(View(), m, Mem());
    }
  }
}
