/**
 The allocator of userland/kmalloc.cpp seen from outside: which blocks are live.
 Everything else (the free cells, the free list, the answer to a request) is a function of that.
 Cells are numbered 0..n, one for each 32-byte chunk of the pool.
 */
module Ledger {
  import opened Prelude

  /** sizeof(union chunk), which on x86_64 is also sizeof(struct info). */
  const CHUNK: nat := 32

  /** A live block: how many chunks it takes and how many bytes were asked for. */
  datatype Block = Block(count: nat, size: nat)

  /** A pool of n chunks; `live` maps the header chunk of each live block to the block. */
  datatype Heap = Heap(n: nat, live: map<nat, Block>)

  ghost predicate InBlock(h: Heap, top: nat, x: int) {
    top in h.live && top <= x < top + h.live[top].count
  }

  ghost predicate Covered(h: Heap, x: int) {
    exists top: nat :: InBlock(h, top, x)
  }

  ghost predicate IsFree(h: Heap, x: int) {
    0 <= x < h.n && !Covered(h, x)
  }

  /** Live blocks are not empty, lie in the pool, and share no chunk. */
  ghost predicate WellFormed(h: Heap) {
    && (forall top: nat :: top in h.live ==> 1 <= h.live[top].count && top + h.live[top].count <= h.n)
    && (forall a: nat, b: nat :: a in h.live && b in h.live && a < b ==> a + h.live[a].count <= b)
  }

  // ---------- sizes ----------

  /** Sizes for which the loop of chunk_count never leaves (see ChunkLoopStopsExactly). */
  predicate Diverges(size: nat) {
    WORD_MOD - 2 * CHUNK < size < WORD_MOD - CHUNK
  }

  /** What chunk_count answers, wrap-around of size + sizeof(struct info) included. */
  function ChunkCount(size: nat): nat
    requires size < WORD_MOD && !Diverges(size)
  {
    var wanted := (size + CHUNK) % WORD_MOD;
    (wanted + CHUNK - 1) / CHUNK
  }

  /** Apart from the wrap-around, a block is its header and the least number of chunks that holds the payload. */
  lemma ChunkCountIsCeiling(size: nat)
    requires size <= WORD_MOD - 2 * CHUNK
    ensures !Diverges(size)
    ensures CHUNK * (ChunkCount(size) - 1) < size + CHUNK <= CHUNK * ChunkCount(size)
  {
    assert (size + CHUNK) % WORD_MOD == size + CHUNK;
  }

  /** The payload chunks of a block hold the bytes asked for exactly when the size is not one of the last 63. */
  lemma PayloadFitsExactly(size: nat)
    requires size < WORD_MOD && !Diverges(size) && ChunkCount(size) > 0
    ensures CHUNK * (ChunkCount(size) - 1) >= size <==> size <= WORD_MOD - 2 * CHUNK
  {
    if size <= WORD_MOD - 2 * CHUNK {
      ChunkCountIsCeiling(size);
    } else {
      assert (size + CHUNK) % WORD_MOD == size + CHUNK - WORD_MOD;
    }
  }

  /** The guard of the loop of chunk_count after k rounds. */
  predicate ChunkLoopGoesOn(size: nat, k: nat) {
    k * CHUNK % WORD_MOD < (size + CHUNK) % WORD_MOD
  }

  /** The loop of chunk_count leaves after some number of rounds exactly when the size does not diverge. */
  lemma ChunkLoopStopsExactly(size: nat)
    requires size < WORD_MOD
    ensures (exists k: nat :: !ChunkLoopGoesOn(size, k)) <==> !Diverges(size)
  {
    if Diverges(size) {
      forall k: nat ensures ChunkLoopGoesOn(size, k) {
        MultipleOfChunk(k);
      }
    } else {
      var k := ChunkCount(size);
      assert k * CHUNK <= WORD_MOD - CHUNK;
      assert !ChunkLoopGoesOn(size, k);
    }
  }

  lemma MultipleOfChunk(k: nat)
    ensures k * CHUNK % WORD_MOD <= WORD_MOD - CHUNK
  {
    var q, r := k * CHUNK / WORD_MOD, k * CHUNK % WORD_MOD;
    assert r == CHUNK * (k - q * (WORD_MOD / CHUNK));
  }

  // ---------- first fit ----------

  /** The cells r .. r + k are all free. */
  ghost predicate RunFree(h: Heap, r: int, k: nat) {
    0 <= r && r + k <= h.n && forall x :: r <= x < r + k ==> IsFree(h, x)
  }

  /** The lowest start, from `from` on, of a free run of k cells. */
  ghost function FirstFit(h: Heap, k: nat, from: nat): (r: Option<nat>)
    ensures r.Some? ==> from <= r.value && RunFree(h, r.value, k)
    ensures r.Some? ==> forall q :: from <= q < r.value ==> !RunFree(h, q, k)
    ensures r.None? ==> forall q :: from <= q ==> !RunFree(h, q, k)
    decreases h.n - from
  {
    if h.n < from then None
    else if RunFree(h, from, k) then Some(from)
    else if from == h.n then None
    else FirstFit(h, k, from + 1)
  }

  /** The answer of first fit is the start of a maximal free run, the lowest one that is long enough. */
  lemma FirstFitStartsMaximalRun(h: Heap, k: nat)
    requires 1 <= k && FirstFit(h, k, 0).Some?
    ensures var r := FirstFit(h, k, 0).value; r == 0 || !IsFree(h, r - 1)
  {
    var r := FirstFit(h, k, 0).value;
    if r > 0 && IsFree(h, r - 1) {
      assert RunFree(h, r - 1, k);
    }
  }

  // ---------- the two operations ----------

  /** What kmalloc answers: the header of the new block. A request for zero chunks (a wrapped size) finds none. */
  ghost function Place(h: Heap, size: nat): (r: Option<nat>)
    requires size < WORD_MOD && !Diverges(size)
  {
    var k := ChunkCount(size);
    if k == 0 then None else FirstFit(h, k, 0)
  }

  ghost function Malloc(h: Heap, size: nat): Heap
    requires size < WORD_MOD && !Diverges(size)
  {
    match Place(h, size)
    case None => h
    case Some(top) => h.(live := h.live[top := Block(ChunkCount(size), size)])
  }

  ghost function Free(h: Heap, top: nat): Heap {
    h.(live := h.live - {top})
  }

  /** Adding a block covers its cells and no others. */
  lemma CoveredAfterAdd(h: Heap, top: nat, b: Block, x: int)
    requires top !in h.live
    ensures Covered(h.(live := h.live[top := b]), x) <==> Covered(h, x) || top <= x < top + b.count
  {
    var g := h.(live := h.live[top := b]);
    if Covered(h, x) {
      var t: nat :| InBlock(h, t, x);
      assert InBlock(g, t, x);
    }
    if Covered(g, x) {
      var t: nat :| InBlock(g, t, x);
      assert t == top || InBlock(h, t, x);
    }
    if top <= x < top + b.count {
      assert InBlock(g, top, x);
    }
  }

  /** Removing a block uncovers its cells and no others. */
  lemma CoveredAfterFree(h: Heap, top: nat, x: int)
    requires WellFormed(h) && top in h.live
    ensures Covered(Free(h, top), x) <==> Covered(h, x) && !InBlock(h, top, x)
  {
    if Covered(h, x) && !InBlock(h, top, x) {
      var t: nat :| InBlock(h, t, x);
      assert InBlock(Free(h, top), t, x);
    }
    if Covered(Free(h, top), x) {
      var t: nat :| InBlock(Free(h, top), t, x);
      assert InBlock(h, t, x);
    }
  }

  /** A free run holds no header, and no live block reaches into it. */
  lemma RunAvoidsBlocks(h: Heap, r: nat, k: nat, top: nat)
    requires WellFormed(h) && 1 <= k && top in h.live
    ensures RunFree(h, r, k) ==> top + h.live[top].count <= r || r + k <= top
  {
    if r < top + h.live[top].count && top < r + k {
      assert InBlock(h, top, Max(r, top));
      assert !IsFree(h, Max(r, top));
    }
  }

  /** kmalloc keeps live blocks apart, and the new block is made of cells that were free. */
  lemma MallocKeepsWellFormed(h: Heap, size: nat)
    requires WellFormed(h) && size < WORD_MOD && !Diverges(size)
    ensures WellFormed(Malloc(h, size))
    ensures Place(h, size).Some? ==> Place(h, size).value !in h.live
  {
    if Place(h, size).Some? {
      var r, k := Place(h, size).value, ChunkCount(size);
      forall top: nat | top in h.live ensures top + h.live[top].count <= r || r + k <= top {
        RunAvoidsBlocks(h, r, k, top);
      }
    }
  }

  /** Freeing a block just allocated gives back the heap there was. */
  lemma FreeUndoesMalloc(h: Heap, size: nat)
    requires WellFormed(h) && size < WORD_MOD && !Diverges(size) && Place(h, size).Some?
    ensures Free(Malloc(h, size), Place(h, size).value) == h
  {
    MallocKeepsWellFormed(h, size);
    var top := Place(h, size).value;
    assert Free(Malloc(h, size), top).live == h.live;
  }

  ghost function FreeAll(h: Heap, order: seq<nat>): Heap
    decreases |order|
  {
    if order == [] then h else FreeAll(Free(h, order[0]), order[1..])
  }

  /** Freeing blocks in an order leaves the blocks the order does not name, whatever the order is. */
  lemma {:induction false} FreeAllRemoves(h: Heap, order: seq<nat>)
    ensures FreeAll(h, order) == h.(live := h.live - set t | t in order)
    decreases |order|
  {
    if order != [] {
      FreeAllRemoves(Free(h, order[0]), order[1..]);
      assert (h.live - {order[0]}) - (set t | t in order[1..]) == h.live - (set t | t in order);
    } else {
      assert h.live - (set t | t in order) == h.live;
    }
  }

  // ---------- krealloc ----------

  /** Where krealloc goes: to kmalloc_no_lock, back with NULL, or into a wait for the lock that it holds. */
  datatype Route = Allocates | Null | Waits

  /** `held` is the size in the header of the block that is to be resized, if there is one. */
  function ReallocRoute(held: Option<nat>, bytes: nat): Route {
    match held
    case None => Allocates
    case Some(size) => if bytes < size then Null else Waits
  }

  // ---------- accounting ----------

  /** Sum of the requested sizes of the live blocks whose header is below k. */
  ghost function SumBelow(live: map<nat, Block>, k: nat): nat {
    if k == 0 then 0
    else SumBelow(live, k - 1) + if k - 1 in live then live[k - 1].size else 0
  }

  ghost function TotalSize(h: Heap): nat {
    SumBelow(h.live, h.n)
  }

  lemma {:induction false} SumAfterChange(before: map<nat, Block>, after: map<nat, Block>, top: nat, k: nat)
    requires before - {top} == after - {top}
    ensures SumBelow(after, k) - SumBelow(before, k) ==
            if top < k
            then (if top in after then after[top].size else 0) - (if top in before then before[top].size else 0)
            else 0
  {
    if k > 0 {
      SumAfterChange(before, after, top, k - 1);
      if k - 1 != top {
        assert k - 1 in before <==> k - 1 in before - {top};
        assert k - 1 in after <==> k - 1 in after - {top};
        assert k - 1 in before ==> before[k - 1] == (before - {top})[k - 1] == after[k - 1];
      }
    }
  }

  lemma TotalAfterMalloc(h: Heap, size: nat)
    requires WellFormed(h) && size < WORD_MOD && !Diverges(size)
    ensures TotalSize(Malloc(h, size)) == TotalSize(h) + if Place(h, size).Some? then size else 0
  {
    if Place(h, size).Some? {
      MallocKeepsWellFormed(h, size);
      var top := Place(h, size).value;
      assert Malloc(h, size).live - {top} == h.live - {top};
      SumAfterChange(h.live, Malloc(h, size).live, top, h.n);
    }
  }

  lemma TotalAfterFree(h: Heap, top: nat)
    requires WellFormed(h) && top in h.live
    ensures TotalSize(Free(h, top)) == TotalSize(h) - h.live[top].size
  {
    assert Free(h, top).live - {top} == h.live - {top};
    SumAfterChange(h.live, Free(h, top).live, top, h.n);
  }

  /** A size_t counter follows the exact sum: reducing before or after a change is the same. */
  lemma CounterFollows(total: int, change: int)
    ensures (total % WORD_MOD + change) % WORD_MOD == (total + change) % WORD_MOD
  {
    var q := total / WORD_MOD;
    assert total + change == total % WORD_MOD + change + q * WORD_MOD;
  }

  lemma CounterGoesWrong(total: int, change: int)
    ensures (total % WORD_MOD - change) % WORD_MOD == total % WORD_MOD <==> change % WORD_MOD == 0
  {
  }

  /** Every block is as long as its requested size demands. */
  ghost predicate Roomy(h: Heap) {
    forall top: nat :: top in h.live ==> h.live[top].size <= CHUNK * (h.live[top].count - 1)
  }

  /** Blocks that hold what was asked for never add up to more than the pool, so the counter does not wrap. */
  lemma {:induction false} SumFitsPool(h: Heap, k: nat)
    requires WellFormed(h) && Roomy(h) && 0 < k <= h.n
    requires forall top: nat :: top in h.live && top < k ==> top + h.live[top].count <= k
    ensures SumBelow(h.live, k) <= CHUNK * k
    decreases k
  {
    // Peel cells from the top until the header of the last block comes off.
    var t := k - 1;
    while t > 0 && t !in h.live
      invariant 0 <= t < k
      invariant forall x: nat :: t < x < k ==> x !in h.live
      invariant SumBelow(h.live, k) == SumBelow(h.live, t + 1)
    {
      t := t - 1;
    }
    if t in h.live {
      if t > 0 {
        SumFitsPool(h, t);
      }
    }
  }

  /** For pools that fit the address space, requests of sensible size keep the counter from ever wrapping. */
  lemma CounterIsExact(h: Heap)
    requires WellFormed(h) && Roomy(h) && CHUNK * h.n < WORD_MOD
    ensures TotalSize(h) % WORD_MOD == TotalSize(h) <= CHUNK * h.n
  {
    if h.n > 0 {
      SumFitsPool(h, h.n);
    }
  }

  // ---------- runs of calls ----------

  datatype Call = Allocate(size: nat) | Release(top: nat)

  /** Sizes for which chunk_count terminates, and blocks the caller was given. */
  ghost predicate Proper(h: Heap, c: Call) {
    match c
    case Allocate(size) => size < WORD_MOD && !Diverges(size)
    case Release(top) => top in h.live
  }

  ghost function Apply(h: Heap, c: Call): Heap {
    match c
    case Allocate(size) => if size < WORD_MOD && !Diverges(size) then Malloc(h, size) else h
    case Release(top) => Free(h, top)
  }

  ghost function Answer(h: Heap, c: Call): Option<nat> {
    match c
    case Allocate(size) => if size < WORD_MOD && !Diverges(size) then Place(h, size) else None
    case Release(_) => None
  }

  /** The heap after a sequence of calls, one at a time. */
  ghost function Sequential(h: Heap, calls: seq<Call>): Heap
    decreases |calls|
  {
    if calls == [] then h
    else Apply(Sequential(h, calls[..|calls| - 1]), calls[|calls| - 1])
  }

  ghost predicate AllProper(h: Heap, calls: seq<Call>)
    decreases |calls|
  {
    calls == [] ||
    var rest := calls[..|calls| - 1];
    AllProper(h, rest) && Proper(Sequential(h, rest), calls[|calls| - 1])
  }

  lemma ApplyKeepsWellFormed(h: Heap, c: Call)
    requires WellFormed(h)
    ensures WellFormed(Apply(h, c)) && Apply(h, c).n == h.n
  {
    if c.Allocate? && c.size < WORD_MOD && !Diverges(c.size) {
      MallocKeepsWellFormed(h, c.size);
    }
  }

  /** Every block has as many chunks as chunk_count answers for its size. */
  ghost predicate Measured(h: Heap) {
    forall top: nat :: top in h.live ==>
      h.live[top].size < WORD_MOD && !Diverges(h.live[top].size) && h.live[top].count == ChunkCount(h.live[top].size)
  }

  lemma RoomyExactly(h: Heap)
    requires WellFormed(h) && Measured(h)
    ensures Roomy(h) <==> forall top: nat :: top in h.live ==> h.live[top].size <= WORD_MOD - 2 * CHUNK
  {
    hide ChunkCount, Diverges;
    forall top: nat | top in h.live
      ensures h.live[top].size <= CHUNK * (h.live[top].count - 1) <==> h.live[top].size <= WORD_MOD - 2 * CHUNK
    {
      PayloadFitsExactly(h.live[top].size);
    }
  }

  lemma ApplyKeepsMeasured(h: Heap, c: Call)
    requires Measured(h) && Proper(h, c)
    ensures Measured(Apply(h, c))
  {
    hide ChunkCount, FirstFit;
  }

  /**
   Along any run of proper calls: all blocks hold what was asked for if and only if none of them was asked for with one
   of the last 63 sizes; and while they do, the byte counter is exact.
   */
  lemma {:induction false} RunsAreAccounted(h: Heap, calls: seq<Call>)
    requires WellFormed(h) && Measured(h) && CHUNK * h.n < WORD_MOD && AllProper(h, calls)
    ensures var g := Sequential(h, calls);
      && WellFormed(g) && Measured(g) && g.n == h.n
      && (Roomy(g) <==> forall top: nat :: top in g.live ==> g.live[top].size <= WORD_MOD - 2 * CHUNK)
      && (Roomy(g) ==> TotalSize(g) % WORD_MOD == TotalSize(g) <= CHUNK * h.n)
    decreases |calls|
  {
    hide WellFormed, Measured, Roomy, TotalSize, Apply;
    if calls != [] {
      var rest, c := calls[..|calls| - 1], calls[|calls| - 1];
      RunsAreAccounted(h, rest);
      ApplyKeepsWellFormed(Sequential(h, rest), c);
      ApplyKeepsMeasured(Sequential(h, rest), c);
    }
    RoomyExactly(Sequential(h, calls));
    if Roomy(Sequential(h, calls)) {
      CounterIsExact(Sequential(h, calls));
    }
  }

  // ---------- a pool that was just set up ----------

  function Allocations(sizes: seq<nat>): seq<Call> {
    seq(|sizes|, i requires 0 <= i < |sizes| => Allocate(sizes[i]))
  }

  function ChunksFor(sizes: seq<nat>): nat
    requires forall i :: 0 <= i < |sizes| ==> sizes[i] <= WORD_MOD - 2 * CHUNK
    decreases |sizes|
  {
    if sizes == [] then 0
    else
      ChunkCountIsCeiling(sizes[|sizes| - 1]);
      ChunksFor(sizes[..|sizes| - 1]) + ChunkCount(sizes[|sizes| - 1])
  }

  /** Exactly the cells from k on are free. */
  ghost predicate FilledUpTo(h: Heap, k: nat) {
    forall x :: 0 <= x < h.n ==> (IsFree(h, x) <==> k <= x)
  }

  lemma NextBlock(h: Heap, k: nat, size: nat)
    requires WellFormed(h) && FilledUpTo(h, k) && size <= WORD_MOD - 2 * CHUNK
    requires !Diverges(size) && k + ChunkCount(size) <= h.n
    ensures Place(h, size) == Some(k) && FilledUpTo(Malloc(h, size), k + ChunkCount(size))
  {
    ChunkCountIsCeiling(size);
    var c := ChunkCount(size);
    assert RunFree(h, k, c);
    var r := FirstFit(h, c, 0).value;
    assert IsFree(h, r);
    assert Place(h, size) == Some(k);
    MallocKeepsWellFormed(h, size);
    var h' := Malloc(h, size);
    assert h' == h.(live := h.live[k := Block(c, size)]);
    forall x | 0 <= x < h.n ensures IsFree(h', x) <==> k + c <= x {
      CoveredAfterAdd(h, k, Block(c, size), x);
      assert IsFree(h, x) <==> k <= x;
    }
  }

  lemma NothingIsFilled(n: nat)
    ensures WellFormed(Heap(n, map[])) && FilledUpTo(Heap(n, map[]), 0)
  {
    var e := Heap(n, map[]);
    forall x | 0 <= x < n ensures IsFree(e, x) {
      assert forall t: nat :: !InBlock(e, t, x);
    }
  }

  /** The heap after one call more. */
  lemma OneCallMore(h: Heap, calls: seq<Call>)
    requires calls != []
    ensures Sequential(h, calls) == Apply(Sequential(h, calls[..|calls| - 1]), calls[|calls| - 1])
  {
  }

  /** A pool that was just set up grants whatever fits into it, one block after the other. */
  lemma {:induction false} FreshPoolServes(n: nat, sizes: seq<nat>)
    requires forall i :: 0 <= i < |sizes| ==> sizes[i] <= WORD_MOD - 2 * CHUNK
    requires ChunksFor(sizes) <= n
    ensures var e, calls := Heap(n, map[]), Allocations(sizes);
      && WellFormed(Sequential(e, calls)) && Sequential(e, calls).n == n
      && FilledUpTo(Sequential(e, calls), ChunksFor(sizes))
      && forall i :: 0 <= i < |sizes| ==> Answer(Sequential(e, calls[..i]), calls[i]).Some?
    decreases |sizes|
  {
    hide Sequential, FilledUpTo, WellFormed, ChunkCount, Place, Malloc;
    var e, calls := Heap(n, map[]), Allocations(sizes);
    if sizes == [] {
      NothingIsFilled(n);
      assert Sequential(e, calls) == e by {
        NoCalls(e);
      }
    } else {
      var last := |sizes| - 1;
      FreshPoolServes(n, sizes[..last]);
      assert Allocations(sizes[..last]) == calls[..last];
      var h := Sequential(e, calls[..last]);
      ChunkCountIsCeiling(sizes[last]);
      NextBlock(h, ChunksFor(sizes[..last]), sizes[last]);
      ApplyKeepsWellFormed(h, calls[last]);
      OneCallMore(e, calls);
      forall i | 0 <= i < last ensures Answer(Sequential(e, calls[..i]), calls[i]).Some? {
        assert calls[..last][..i] == calls[..i];
      }
    }
  }

  lemma NoCalls(h: Heap)
    ensures Sequential(h, []) == h
  {
  }

  /** The first request of all, the shell's buffer of 256 bytes in ten pages, is granted. */
  lemma ShellBufferIsGranted()
    ensures Place(Heap(10 * 4096 / CHUNK, map[]), 256) == Some(0)
  {
    NothingIsFilled(10 * 4096 / CHUNK);
    NextBlock(Heap(10 * 4096 / CHUNK, map[]), 0, 256);
  }
}
