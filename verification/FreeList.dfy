/**
 The address-ordered free list of userland/kmalloc.cpp as a property of memory contents.

 A chunk is named by its index in the pool, 0..n. The index n (the address one past the pool) is never
 a node; the static sentinels `head` and `tail` have the indices n + 1 and n + 2. Each field of
 `struct info` is a sequence over these indices, also for chunks that currently hold user data: there
 the fields read as whatever the user wrote.
 */
module FreeList {
  import opened Prelude
  import opened Ledger

  datatype Memory = Memory(next: seq<int>, prev: seq<int>, count: seq<int>, size: seq<int>)

  // ---------- neighbours ----------

  /** What the list can point from: a free chunk or `head`. */
  ghost predicate Source(h: Heap, p: int) {
    p == h.n + 1 || IsFree(h, p)
  }

  /** What the list can point to: a free chunk or `tail`. */
  ghost predicate Target(h: Heap, q: int) {
    q == h.n + 2 || IsFree(h, q)
  }

  /** `head` counts as lying below the pool. */
  function Pos(h: Heap, p: int): int {
    if p == h.n + 1 then -1 else p
  }

  /** q is the next free chunk above p, or `tail` when there is none. */
  ghost predicate Adjacent(h: Heap, p: int, q: int) {
    Source(h, p) && Target(h, q) && Pos(h, p) < q && forall z :: Pos(h, p) < z < q ==> !IsFree(h, z)
  }

  /** A node has one neighbour above and one below. */
  lemma AdjacentIsInjective(h: Heap, p: int, q: int, p': int, q': int)
    requires Adjacent(h, p, q) && Adjacent(h, p', q')
    ensures p == p' <==> q == q'
  {
    if p != p' {
      assert IsFree(h, p) || IsFree(h, p');
    }
    if q != q' {
      assert IsFree(h, q) || IsFree(h, q');
    }
  }

  // ---------- what the allocator relies on ----------

  predicate Sized(n: nat, m: Memory) {
    |m.next| == |m.prev| == |m.count| == |m.size| == n + 3
  }

  /** Both link fields spell the neighbours of every node, and free chunks have count 0. */
  ghost predicate Linked(h: Heap, m: Memory) {
    && Sized(h.n, m)
    && (forall p {:trigger m.next[p]} :: Source(h, p) ==> Adjacent(h, p, m.next[p]))
    && (forall q {:trigger m.prev[q]} :: Target(h, q) ==> Adjacent(h, m.prev[q], q))
    && (forall x {:trigger IsFree(h, x)} :: IsFree(h, x) ==> m.count[x] == 0)
  }

  /** The header of a live block says what the block is. Payload chunks are not mentioned. */
  ghost predicate HeadersWritten(h: Heap, m: Memory) {
    && Sized(h.n, m)
    && forall top: nat :: top in h.live ==>
         top < h.n && m.count[top] == h.live[top].count && m.size[top] == h.live[top].size
  }

  ghost predicate Represents(h: Heap, m: Memory) {
    WellFormed(h) && Linked(h, m) && HeadersWritten(h, m)
  }

  /** No field of a chunk that belongs to a live block of h differs. */
  ghost predicate SameBlocks(h: Heap, m: Memory, m': Memory) {
    && Sized(h.n, m) && Sized(h.n, m')
    && forall x :: 0 <= x < h.n && Covered(h, x) ==> SameChunk(m, m', x)
  }

  predicate SameChunk(m: Memory, m': Memory, x: nat)
    requires x < |m.next| == |m.prev| == |m.count| == |m.size|
    requires x < |m'.next| == |m'.prev| == |m'.count| == |m'.size|
  {
    m.next[x] == m'.next[x] && m.prev[x] == m'.prev[x] && m.count[x] == m'.count[x] && m.size[x] == m'.size[x]
  }

  /** `prev` inverts `next`, in both directions. */
  lemma PrevInvertsNext(h: Heap, m: Memory)
    requires Linked(h, m)
    ensures forall p {:trigger m.next[p]} :: Source(h, p) ==> Target(h, m.next[p]) && m.prev[m.next[p]] == p
    ensures forall q {:trigger m.prev[q]} :: Target(h, q) ==> Source(h, m.prev[q]) && m.next[m.prev[q]] == q
  {
    forall p | Source(h, p) ensures Target(h, m.next[p]) && m.prev[m.next[p]] == p {
      AdjacentIsInjective(h, p, m.next[p], m.prev[m.next[p]], m.next[p]);
    }
    forall q | Target(h, q) ensures Source(h, m.prev[q]) && m.next[m.prev[q]] == q {
      AdjacentIsInjective(h, m.prev[q], q, m.prev[q], m.next[m.prev[q]]);
    }
  }

  /** The memories agree on everything the allocator reads. */
  ghost predicate SameLinks(h: Heap, m: Memory, m': Memory) {
    && Sized(h.n, m) && Sized(h.n, m')
    && (forall p :: 0 <= p < h.n + 3 && Source(h, p) ==> m.next[p] == m'.next[p])
    && (forall q :: 0 <= q < h.n + 3 && Target(h, q) ==> m.prev[q] == m'.prev[q])
    && (forall x :: 0 <= x < h.n && (IsFree(h, x) || x in h.live) ==> m.count[x] == m'.count[x])
    && (forall x :: 0 <= x < h.n && x in h.live ==> m.size[x] == m'.size[x])
  }

  /**
   The live blocks determine every field the allocator reads: memories of the same heap agree on all links
   of all nodes, on the zero counts, and on the headers. What users wrote into their payload does not matter,
   and neither does the history of the pool.
   */
  lemma LinksAreDetermined(h: Heap, m: Memory, m': Memory)
    requires Represents(h, m) && Represents(h, m')
    ensures SameLinks(h, m, m')
  {
    forall p | Source(h, p) ensures m.next[p] == m'.next[p] {
      AdjacentIsInjective(h, p, m.next[p], p, m'.next[p]);
    }
    forall q | Target(h, q) ensures m.prev[q] == m'.prev[q] {
      AdjacentIsInjective(h, m.prev[q], q, m'.prev[q], q);
    }
  }

  /** A chunk that is payload: inside a live block, and not its header. */
  ghost predicate IsPayload(h: Heap, x: int) {
    Covered(h, x) && x !in h.live
  }

  /** Whatever users write into payload chunks, the memory still represents the heap. */
  lemma PayloadWritesAreHarmless(h: Heap, m: Memory, m': Memory)
    requires Represents(h, m) && Sized(h.n, m')
    requires forall x :: 0 <= x < h.n + 3 && !IsPayload(h, x) ==> SameChunk(m, m', x)
    ensures Represents(h, m')
  {
    forall p | Source(h, p) ensures Adjacent(h, p, m'.next[p]) {
      NodesAreNotPayload(h, p);
      assert SameChunk(m, m', p);
    }
    forall q | Target(h, q) ensures Adjacent(h, m'.prev[q], q) {
      NodesAreNotPayload(h, q);
      assert SameChunk(m, m', q);
    }
    forall x | IsFree(h, x) ensures m'.count[x] == 0 {
      assert SameChunk(m, m', x);
    }
    forall top: nat | top in h.live ensures m'.count[top] == m.count[top] && m'.size[top] == m.size[top] {
      assert SameChunk(m, m', top);
    }
  }

  lemma NodesAreNotPayload(h: Heap, x: int)
    requires WellFormed(h)
    ensures Source(h, x) || Target(h, x) ==> 0 <= x < h.n + 3 && !IsPayload(h, x)
  {
    if x > h.n {
      assert forall top: nat :: !InBlock(h, top, x);
    }
  }

  // ---------- the list as a walk ----------

  /** The free chunks from `from` up, in order of address. */
  ghost function FreeFrom(h: Heap, from: nat): seq<int>
    decreases h.n - from
  {
    if h.n <= from then []
    else if IsFree(h, from) then [from] + FreeFrom(h, from + 1)
    else FreeFrom(h, from + 1)
  }

  /** The chunks a walk along `next` meets from q until `tail`, giving up after `fuel` steps. */
  function Walk(m: Memory, q: int, fuel: nat): seq<int>
    decreases fuel
  {
    if fuel == 0 || !(0 <= q < |m.next|) || q == |m.next| - 1 then []
    else [q] + Walk(m, m.next[q], fuel - 1)
  }

  /** Walking from a node spells exactly the free chunks from there on, and n steps are always enough. */
  lemma {:induction false} WalkSpellsFreeChunks(h: Heap, m: Memory, from: nat, q: int, fuel: nat)
    requires Linked(h, m) && from <= h.n
    requires Target(h, q) && from <= q && forall z :: from <= z < q ==> !IsFree(h, z)
    requires fuel >= h.n - from
    ensures Walk(m, q, fuel) == FreeFrom(h, from)
    decreases h.n - from
  {
    if from < h.n {
      if from < q {
        if fuel > h.n - from - 1 {
          WalkSpellsFreeChunks(h, m, from + 1, q, fuel);
        }
      } else {
        assert Adjacent(h, q, m.next[q]);
        WalkSpellsFreeChunks(h, m, from + 1, m.next[q], fuel - 1);
      }
    }
  }

  /** The list from `head` to `tail` is strictly ascending and consists of the free chunks. */
  lemma ListIsFreeChunks(h: Heap, m: Memory)
    requires Linked(h, m)
    ensures Walk(m, m.next[h.n + 1], h.n) == FreeFrom(h, 0)
    ensures forall i, j :: 0 <= i < j < |FreeFrom(h, 0)| ==> FreeFrom(h, 0)[i] < FreeFrom(h, 0)[j]
    ensures forall x :: x in FreeFrom(h, 0) <==> IsFree(h, x)
  {
    assert Source(h, h.n + 1);
    WalkSpellsFreeChunks(h, m, 0, m.next[h.n + 1], h.n);
    FreeFromIsAscending(h, 0);
  }

  lemma {:induction false} FreeFromIsAscending(h: Heap, from: nat)
    ensures forall i, j :: 0 <= i < j < |FreeFrom(h, from)| ==> FreeFrom(h, from)[i] < FreeFrom(h, from)[j]
    ensures forall x :: x in FreeFrom(h, from) <==> IsFree(h, x) && from <= x
    decreases h.n - from
  {
    if from < h.n {
      FreeFromIsAscending(h, from + 1);
      var rest := FreeFrom(h, from + 1);
      forall j | 0 <= j < |rest| ensures from < rest[j] {
        assert rest[j] in rest;
      }
    }
  }

  /** The list that init builds: every chunk, in order. */
  predicate InitialLinks(n: nat, m: Memory)
    requires Sized(n, m)
  {
    && (forall x :: 0 <= x < n ==> (
          m.next[x] == (if x + 1 == n then n + 2 else x + 1) && m.prev[x] == (if x == 0 then n + 1 else x - 1)))
    && m.next[n + 1] == (if n == 0 then n + 2 else 0)
    && m.prev[n + 2] == (if n == 0 then n + 1 else n - 1)
  }

  /** A memory with these links and no counts is one of the heap without blocks. */
  lemma InitialMemory(n: nat, m: Memory)
    requires Sized(n, m) && InitialLinks(n, m) && forall x :: 0 <= x < n ==> m.count[x] == 0
    ensures Represents(Heap(n, map[]), m)
  {
    var e := Heap(n, map[]);
    forall x | 0 <= x < n ensures IsFree(e, x) {
      assert forall t: nat :: !InBlock(e, t, x);
    }
  }

  /** Freeing all live blocks, in whatever order, gives back the list init built: coalescing is complete. */
  lemma FreeingAllRestoresInitialList(h: Heap, order: seq<nat>, m: Memory)
    requires forall t: nat :: t in h.live ==> t in order
    requires Sized(h.n, m) && Represents(FreeAll(h, order), m)
    ensures InitialLinks(h.n, m)
  {
    var e := FreeAll(h, order);
    FreeAllRemoves(h, order);
    assert e.live == map[];
    forall x | 0 <= x < h.n ensures IsFree(e, x) {
      assert forall t: nat :: !InBlock(e, t, x);
    }
    EmptyHeapHasInitialList(e, m);
  }

  lemma EmptyHeapHasInitialList(e: Heap, m: Memory)
    requires Linked(e, m) && forall x :: 0 <= x < e.n ==> IsFree(e, x)
    ensures InitialLinks(e.n, m)
  {
    var n := e.n;
    assert Adjacent(e, n + 1, m.next[n + 1]) && Adjacent(e, m.prev[n + 2], n + 2);
    assert n > 0 ==> IsFree(e, 0) && IsFree(e, n - 1);
    forall x | 0 <= x < n
      ensures m.next[x] == (if x + 1 == n then n + 2 else x + 1) && m.prev[x] == (if x == 0 then n + 1 else x - 1)
    {
      assert Adjacent(e, x, m.next[x]) && Adjacent(e, m.prev[x], x);
      assert x + 1 < n ==> IsFree(e, x + 1);
      assert 0 < x ==> IsFree(e, x - 1);
    }
  }

  // ---------- scanning for a run ----------

  /** No run starts below the first chunk of the list. */
  lemma NoRunBelowList(h: Heap, q: int, k: nat)
    requires Adjacent(h, h.n + 1, q) && 1 <= k
    ensures forall r :: 0 <= r < q ==> !RunFree(h, r, k)
  {
    forall r | 0 <= r < q ensures !RunFree(h, r, k) {
      assert !IsFree(h, r);
    }
  }

  /** A run from `top` to `curr`, before a gap, is of no use to longer requests, and nor is its inside. */
  lemma NoRunBeforeGap(h: Heap, top: nat, curr: int, q: int, k: nat)
    requires Adjacent(h, curr, q) && top <= curr < h.n && curr < top + k - 1 && q != curr + 1
    ensures forall r :: top <= r < q ==> !RunFree(h, r, k)
  {
    forall r | top <= r < q ensures !RunFree(h, r, k) {
      assert !IsFree(h, if r <= curr then curr + 1 else r);
    }
  }

  // ---------- cutting a run out ----------

  /** The neighbour below a chunk inside a free run is the chunk before it, and likewise above. */
  lemma InsideRun(h: Heap, top: int, k: nat, a: int, z: int)
    requires RunFree(h, top, k) && Adjacent(h, a, z)
    ensures top < z < top + k ==> a == z - 1
    ensures top <= a < top + k - 1 ==> z == a + 1
  {
    if top < z < top + k {
      assert IsFree(h, z - 1);
    }
    if top <= a < top + k - 1 {
      assert IsFree(h, a + 1);
    }
  }

  /** unlink's four writes turn a memory of the heap into a memory of the heap with the new block. */
  lemma UnlinkRepresents(h: Heap, m: Memory, top: nat, b: Block)
    requires Represents(h, m)
    requires 1 <= b.count && RunFree(h, top, b.count)
    ensures var p, q := m.prev[top], m.next[top + b.count - 1];
      && 0 <= p < h.n + 3 && 0 <= q < h.n + 3 && top < h.n && top !in h.live
      && var h' := h.(live := h.live[top := b]);
         var m' := Memory(m.next[p := q], m.prev[q := p], m.count[top := b.count], m.size[top := b.size]);
         Represents(h', m') && SameBlocks(h, m, m')
  {
    hide Covered, WellFormed;
    assert IsFree(h, top) && IsFree(h, top + b.count - 1);
    var p, q := m.prev[top], m.next[top + b.count - 1];
    var h' := h.(live := h.live[top := b]);
    var m' := Memory(m.next[p := q], m.prev[q := p], m.count[top := b.count], m.size[top := b.size]);
    AddedBlockIsApart(h, top, b);
    forall x ensures IsFree(h', x) <==> IsFree(h, x) && !(top <= x < top + b.count) {
      CoveredAfterAdd(h, top, b, x);
    }
    assert Target(h, top) && Source(h, top + b.count - 1);
    assert Adjacent(h, p, top) && Adjacent(h, top + b.count - 1, q);
    assert Linked(h', m') by {
      CutKeepsLinks(h, m, h', m', top, b.count);
    }
    assert SameBlocks(h, m, m') by {
      NodeWritesMissBlocks(h, m, m', p, q, top);
    }
    assert HeadersWritten(h', m') by {
      HeadersStay(h, m, m', top);
    }
  }

  lemma NodeWritesMissBlocks(h: Heap, m: Memory, m': Memory, p: int, q: int, top: int)
    requires Sized(h.n, m) && Sized(h.n, m') && Source(h, p) && Target(h, q) && IsFree(h, top)
    requires forall x :: 0 <= x < h.n && x != p && x != q && x != top ==> SameChunk(m, m', x)
    ensures SameBlocks(h, m, m')
  {
  }

  /** A block made of free chunks shares none with the live blocks. */
  lemma AddedBlockIsApart(h: Heap, top: nat, b: Block)
    requires WellFormed(h) && 1 <= b.count && RunFree(h, top, b.count)
    ensures top !in h.live && WellFormed(h.(live := h.live[top := b]))
  {
    forall t: nat | t in h.live ensures t + h.live[t].count <= top || top + b.count <= t {
      RunAvoidsBlocks(h, top, b.count, t);
    }
  }

  /** Writes to free chunks and to the chunk `top` leave the other headers alone. */
  lemma HeadersStay(h: Heap, m: Memory, m': Memory, top: nat)
    requires WellFormed(h) && HeadersWritten(h, m) && Sized(h.n, m')
    requires forall x :: 0 <= x < h.n && x != top && Covered(h, x) ==> SameChunk(m, m', x)
    ensures forall t: nat :: t in h.live && t != top ==>
      t < h.n && m'.count[t] == h.live[t].count && m'.size[t] == h.live[t].size
  {
    forall t: nat | t in h.live && t != top
      ensures t < h.n && m'.count[t] == h.live[t].count && m'.size[t] == h.live[t].size
    {
      assert InBlock(h, t, t);
      assert SameChunk(m, m', t);
    }
  }

  /** The link part of UnlinkRepresents, where only the set of free chunks matters. */
  lemma CutKeepsLinks(h: Heap, m: Memory, h': Heap, m': Memory, top: nat, k: nat)
    requires Linked(h, m) && Sized(h.n, m') && h'.n == h.n
    requires 1 <= k && RunFree(h, top, k)
    requires forall x :: IsFree(h', x) <==> IsFree(h, x) && !(top <= x < top + k)
    requires Target(h, top) && Source(h, top + k - 1)
    requires var p, q := m.prev[top], m.next[top + k - 1];
      0 <= p < h.n + 3 && 0 <= q < h.n + 3 && m'.next == m.next[p := q] && m'.prev == m.prev[q := p]
    requires forall x :: IsFree(h', x) ==> m'.count[x] == m.count[x]
    ensures Linked(h', m')
  {
    var p, q := m.prev[top], m.next[top + k - 1];
    forall a | Source(h', a) ensures Adjacent(h', a, m'.next[a]) {
      if a != p {
        var z := m.next[a];
        assert Adjacent(h, a, z);
        AdjacentIsInjective(h, a, z, p, top);
        InsideRun(h, top, k, a, z);
      }
    }
    forall z | Target(h', z) ensures Adjacent(h', m'.prev[z], z) {
      if z != q {
        var a := m.prev[z];
        assert Adjacent(h, a, z);
        AdjacentIsInjective(h, a, z, top + k - 1, q);
        InsideRun(h, top, k, a, z);
      }
    }
  }

  // ---------- splicing a run in ----------

  /** How relink leaves the memory: the chunks of the block threaded between p and q. */
  ghost predicate Spliced(n: nat, m: Memory, m': Memory, top: nat, k: nat, p: int, q: int)
    requires Sized(n, m) && Sized(n, m')
  {
    && m'.size == m.size
    && (forall x {:trigger m'.next[x]} :: 0 <= x < n + 3 ==> (
          m'.next[x] ==
            if top <= x < top + k - 1 then x + 1
            else if x == top + k - 1 then q else if x == p then top else m.next[x]))
    && (forall x {:trigger m'.prev[x]} :: 0 <= x < n + 3 ==> (
          m'.prev[x] ==
            if top < x < top + k then x - 1 else if x == top then p else if x == q then top + k - 1 else m.prev[x]))
    && (forall x {:trigger m'.count[x]} :: 0 <= x < n + 3 ==> (
          m'.count[x] == if top <= x < top + k then 0 else m.count[x]))
  }

  /** The nodes around a live block are not in it. */
  lemma LiveBlockBetween(h: Heap, top: nat, p: int, q: int)
    requires WellFormed(h) && top in h.live && Adjacent(h, p, q) && Pos(h, p) < top <= q
    ensures top + h.live[top].count <= q && p != top
  {
    if q < top + h.live[top].count {
      assert InBlock(h, top, q);
    }
  }

  lemma RelinkRepresents(h: Heap, m: Memory, m': Memory, top: nat, p: int, q: int)
    requires Represents(h, m) && top in h.live && Sized(h.n, m')
    requires Adjacent(h, p, q) && Pos(h, p) < top < q
    requires Spliced(h.n, m, m', top, h.live[top].count, p, q)
    ensures Represents(Free(h, top), m')
    ensures SameBlocks(Free(h, top), m, m')
  {
    var h', k := Free(h, top), h.live[top].count;
    forall x ensures Covered(h', x) <==> Covered(h, x) && !(top <= x < top + k) {
      CoveredAfterFree(h, top, x);
    }
    forall x | top <= x < top + k ensures !IsFree(h, x) {
      assert InBlock(h, top, x);
    }
    forall x ensures IsFree(h', x) <==> IsFree(h, x) || top <= x < top + k {}
    SpliceKeepsLinks(h, m, h', m', top, k, p, q);
    assert SameBlocks(h', m, m');
    assert WellFormed(h');
    assert HeadersWritten(h', m) && !(top in h'.live);
    HeadersStay(h', m, m', top);
  }

  /** Neighbours that a run is not spliced between stay neighbours. */
  lemma SpliceKeepsNeighbours(h: Heap, h': Heap, top: nat, k: nat, p: int, q: int, a: int, b: int)
    requires h'.n == h.n && forall x :: IsFree(h', x) <==> IsFree(h, x) || top <= x < top + k
    requires Adjacent(h, p, q) && Pos(h, p) < top && top + k <= q
    requires Adjacent(h, a, b) && a != p
    ensures b != q && Adjacent(h', a, b)
  {
    AdjacentIsInjective(h, a, b, p, q);
    assert b <= Pos(h, p) || q <= a by {
      assert Source(h, p) && Target(h, q);
    }
  }

  /** The neighbours that a spliced run has and makes. */
  lemma SpliceMakesNeighbours(h: Heap, h': Heap, top: nat, k: nat, p: int, q: int, x: int)
    requires h'.n == h.n && forall x :: IsFree(h', x) <==> IsFree(h, x) || top <= x < top + k
    requires Adjacent(h, p, q) && Pos(h, p) < top && top + k <= q && 1 <= k && top + k <= h.n
    ensures Adjacent(h', p, top) && Adjacent(h', top + k - 1, q)
    ensures top <= x < top + k - 1 ==> Adjacent(h', x, x + 1)
    ensures top < x < top + k ==> Adjacent(h', x - 1, x)
  {
    assert IsFree(h', top) && IsFree(h', top + k - 1);
    assert top <= x < top + k ==> IsFree(h', x);
    assert top < x < top + k ==> IsFree(h', x - 1);
    assert top <= x < top + k - 1 ==> IsFree(h', x + 1);
  }

  lemma SpliceKeepsLinks(h: Heap, m: Memory, h': Heap, m': Memory, top: nat, k: nat, p: int, q: int)
    requires Linked(h, m) && Sized(h.n, m') && h'.n == h.n
    requires 1 <= k && top + k <= h.n && top + k <= q
    requires forall x :: IsFree(h', x) <==> IsFree(h, x) || top <= x < top + k
    requires Adjacent(h, p, q) && Pos(h, p) < top
    requires Spliced(h.n, m, m', top, k, p, q)
    ensures Linked(h', m')
  {
    hide Adjacent, Spliced;
    forall a | Source(h', a) ensures Adjacent(h', a, m'.next[a]) {
      SpliceKeepsNext(h, m, h', m', top, k, p, q, a);
    }
    forall z | Target(h', z) ensures Adjacent(h', m'.prev[z], z) {
      SpliceKeepsPrev(h, m, h', m', top, k, p, q, z);
    }
    forall x | IsFree(h', x) ensures m'.count[x] == 0 {
      SplicedCount(h.n, m, m', top, k, p, q, x);
    }
  }

  lemma SplicedCount(n: nat, m: Memory, m': Memory, top: nat, k: nat, p: int, q: int, x: nat)
    requires Sized(n, m) && Sized(n, m') && x < n && Spliced(n, m, m', top, k, p, q)
    ensures m'.count[x] == if top <= x < top + k then 0 else m.count[x]
  {
  }

  lemma SpliceKeepsNext(h: Heap, m: Memory, h': Heap, m': Memory, top: nat, k: nat, p: int, q: int, a: int)
    requires Linked(h, m) && Sized(h.n, m') && h'.n == h.n
    requires 1 <= k && top + k <= h.n && top + k <= q
    requires forall x :: IsFree(h', x) <==> IsFree(h, x) || top <= x < top + k
    requires Adjacent(h, p, q) && Pos(h, p) < top && Spliced(h.n, m, m', top, k, p, q)
    requires Source(h', a)
    ensures Adjacent(h', a, m'.next[a])
  {
    hide Adjacent;
    SpliceMakesNeighbours(h, h', top, k, p, q, a);
    if a != p && !(top <= a < top + k) {
      SpliceKeepsNeighbours(h, h', top, k, p, q, a, m.next[a]);
    }
  }

  lemma SpliceKeepsPrev(h: Heap, m: Memory, h': Heap, m': Memory, top: nat, k: nat, p: int, q: int, z: int)
    requires Linked(h, m) && Sized(h.n, m') && h'.n == h.n
    requires 1 <= k && top + k <= h.n && top + k <= q
    requires forall x :: IsFree(h', x) <==> IsFree(h, x) || top <= x < top + k
    requires Adjacent(h, p, q) && Pos(h, p) < top && Spliced(h.n, m, m', top, k, p, q)
    requires Target(h', z)
    ensures Adjacent(h', m'.prev[z], z)
  {
    hide Adjacent;
    SpliceMakesNeighbours(h, h', top, k, p, q, z);
    if z != q && !(top <= z < top + k) {
      AdjacentIsInjective(h, m.prev[z], z, p, q);
      SpliceKeepsNeighbours(h, h', top, k, p, q, m.prev[z], z);
    }
  }
}
