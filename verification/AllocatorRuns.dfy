/**
 What the allocator of userland/kmalloc.cpp does over several calls: allocating and freeing, freeing twice, freeing
 everything, and the same calls on memories that differ in what users stored.
 */
module AllocatorRuns {
  import opened Prelude
  import opened Ledger
  import opened FreeList
  import opened ChunkAllocator

  /** Freeing a block just allocated restores every link of the free list, the zero counts, and the counter. */
  method MallocThenFree(a: Allocator, bytes: nat) returns (top: nat)
    requires a.Valid() && a.initialized && a.Accounted()
    requires bytes < WORD_MOD && !Diverges(bytes) && Place(a.View(), bytes).Some?
    modifies a, a.next, a.prev, a.count, a.size
    ensures a.Valid() && a.initialized && a.View() == old(a.View()) && a.totalAllocated == old(a.totalAllocated)
    ensures SameLinks(a.View(), old(a.Mem()), a.Mem())
    ensures IsFree(a.View(), top) && top < a.n && top !in a.live && a.count[top] == 0 && a.size[top] == bytes
  {
    ghost var h, m := a.View(), a.Mem();
    MallocKeepsWellFormed(h, bytes);
    FreeUndoesMalloc(h, bytes);
    var ptr := a.KmallocNoLock(bytes);
    top := ptr.value - 1;
    assert a.live[top].size == bytes;
    a.KfreeNoLock(ptr);
    LinksAreDetermined(h, m, a.Mem());
    assert RunFree(h, top, ChunkCount(bytes));
  }

  /** Freeing it once more changes no word of the memory, and takes its size off the counter a second time. */
  method MallocThenFreeTwice(a: Allocator, bytes: nat)
    requires a.Valid() && a.initialized && a.Accounted()
    requires bytes < WORD_MOD && !Diverges(bytes) && Place(a.View(), bytes).Some?
    modifies a, a.next, a.prev, a.count, a.size
    ensures a.Valid() && a.View() == old(a.View()) && SameLinks(a.View(), old(a.Mem()), a.Mem())
    ensures a.totalAllocated == (old(a.totalAllocated) - bytes) % WORD_MOD
    ensures a.Accounted() <==> bytes == 0
  {
    hide Represents, Place, TotalSize, SumBelow, SameBlocks, IsFree;
    var top := MallocThenFree(a, bytes);
    hide SameLinks;
    a.KfreeNoLock(Some(top + 1));
  }

  /** Freeing all live blocks, each once and in any order, gives back the list that init built and a counter of 0. */
  method FreeAllBlocks(a: Allocator, order: seq<nat>)
    requires a.Valid() && a.initialized && a.Accounted()
    requires forall i, j :: 0 <= i < j < |order| ==> order[i] != order[j]
    requires forall t :: t in order <==> t in a.live
    modifies a, a.next, a.prev, a.count, a.size
    ensures a.Valid() && a.live == map[] && InitialLinks(a.n, a.Mem()) && a.totalAllocated == 0
  {
    hide Represents, TotalSize, SameBlocks;
    for i := 0 to |order|
      invariant a.Valid() && a.initialized && a.Accounted()
      invariant forall t :: t in a.live <==> t in order[i..]
    {
      assert order[i] in order[i..];
      assert forall t :: t in order[i..] <==> t == order[i] || t in order[i + 1..];
      a.KfreeNoLock(Some(order[i] + 1));
    }
    assert a.live == map[];
    NothingTotals(a.View());
    FreeingAllRestoresInitialList(a.View(), [], a.Mem());
  }

  lemma NothingTotals(h: Heap)
    requires h.live == map[]
    ensures TotalSize(h) == 0
  {
    Allocator.EmptyTotal(h.n);
  }

  // ---------- the same calls on two memories ----------

  /** A call, or a client's store into a payload chunk. */
  datatype Step = Do(call: Call) | Write(x: nat, words: (int, int, int, int))

  /** Calls are proper ones, and clients write where they may. */
  ghost predicate Allowed(h: Heap, steps: seq<Step>)
    decreases |steps|
  {
    steps == [] ||
    match steps[0]
    case Do(call) => Proper(h, call) && Allowed(Apply(h, call), steps[1..])
    case Write(x, _) => x < h.n && IsPayload(h, x) && Allowed(h, steps[1..])
  }

  ghost predicate Apart(a: Allocator, b: Allocator) {
    a != b && {a.next, a.prev, a.count, a.size} !! {b.next, b.prev, b.count, b.size}
  }

  /** kmalloc or kfree, and what it returns. */
  method Perform(a: Allocator, call: Call) returns (answer: Option<int>)
    requires a.Valid() && a.initialized && Proper(a.View(), call)
    modifies a, a.next, a.prev, a.count, a.size
    ensures a.Valid() && a.initialized && a.View() == Apply(old(a.View()), call)
    ensures answer == match Answer(old(a.View()), call) case None => None case Some(top) => Some(top + 1)
  {
    match call
    case Allocate(size) =>
      answer := a.KmallocNoLock(size);
    case Release(top) =>
      a.KfreeNoLock(Some(top + 1));
      answer := None;
  }

  /**
   The same calls on two pools with the same live blocks. What the memories hold in payload chunks at the start, and
   what clients of the first one write there between the calls, makes no difference: the answers are the same, and
   so are all links, counts and headers in the end.
   */
  method RunBoth(a: Allocator, b: Allocator, steps: seq<Step>)
    returns (answers: seq<Option<int>>, answers': seq<Option<int>>)
    requires a.Valid() && b.Valid() && a.initialized && b.initialized && a.View() == b.View() && Apart(a, b)
    requires Allowed(a.View(), steps)
    modifies a, a.next, a.prev, a.count, a.size, b, b.next, b.prev, b.count, b.size
    ensures a.Valid() && b.Valid() && a.View() == b.View()
    ensures answers == answers'
    ensures SameLinks(a.View(), a.Mem(), b.Mem())
  {
    hide Represents, Apply, Proper, IsPayload, Answer;
    answers, answers' := [], [];
    for i := 0 to |steps|
      invariant a.Valid() && b.Valid() && a.initialized && b.initialized && a.View() == b.View()
      invariant Allowed(a.View(), steps[i..]) && answers == answers'
    {
      assert steps[i..][1..] == steps[i + 1..];
      match steps[i]
      case Do(call) =>
        var answer := Perform(a, call);
        var answer' := Perform(b, call);
        answers, answers' := answers + [answer], answers' + [answer'];
      case Write(x, words) =>
        a.WritePayload(x, words);
    }
    LinksAreDetermined(a.View(), a.Mem(), b.Mem());
  }
}
