/**
 Slots, pages and threads of the root server: userland/InitialUntypedPool.cpp, userland/PageTable.cpp,
 userland/ObjectFactory.cpp and the start of userland/RootServer.cpp. Which calls fail is given beforehand, as the
 answers to the requests that can be refused; what comes of that is computed by the functions of module Supply. A
 failed assert ends the root server (userland/runtime.h:11-22); that outcome is Crashed, and so is every other end.
 */
module Paging {
  import opened Prelude
  import opened AddressSpace
  import opened Ledger
  import opened Supply
  import opened Threads

  /** Expected<T, seL4_Error>, or no return at all. */
  datatype Outcome<+T> = Good(value: T) | Bad(error: Error) | Crashed(cause: Cause)

  // ---------- the kernel ----------

  class Kernel {
    const refuses: nat -> bool
    var request: nat              // how many requests that can be refused were made
    var s: Space
    var lookupLevel: nat          // seL4_MappingFailedLookupLevel

    constructor (refuses: nat -> bool)
      ensures this.refuses == refuses && request == 0
      ensures s == Space(map[INIT_THREAD_TCB := Tcb], map[], NO_STRUCTURES)
    {
      this.refuses, request, lookupLevel := refuses, 0, 0;
      s := Space(map[INIT_THREAD_TCB := Tcb], map[], NO_STRUCTURES);
    }

    /** A request of which only success or failure matters here: the calls on a TCB, and `new`. */
    method Ask() returns (granted: bool)
      modifies this`request
      ensures granted == !refuses(old(request)) && request == old(request) + 1
    {
      granted, request := !refuses(request), request + 1;
    }

    /** seL4_Untyped_Retype, seL4_CNode_Mint and seL4_X86_IOPortControl_Issue: a new capability in an empty slot. */
    method Retype(kind: Kind, slot: nat) returns (err: Error)
      modifies this`request, this`s
      ensures request == old(request) + 1
      ensures err == if !refuses(old(request)) && slot !in old(s).caps then NoError else OtherError
      ensures s == if err == NoError then old(s).(caps := old(s).caps[slot := kind]) else old(s)
    {
      var granted := Ask();
      if !granted || slot in s.caps {
        return OtherError;
      }
      s := s.(caps := s.caps[slot := kind]);
      err := NoError;
    }

    method PageMap(frame: nat, vaddr: nat) returns (err: Error)
      modifies this`s, this`lookupLevel
      ensures err == PageMapError(old(s), frame, vaddr)
      ensures s == if err == NoError then old(s).(mapped := old(s).mapped[frame := vaddr]) else old(s)
      ensures err == FailedLookup ==> lookupLevel == Missing(old(s).structures, vaddr)
    {
      err := PageMapError(s, frame, vaddr);
      if err == NoError {
        s := s.(mapped := s.mapped[frame := vaddr]);
      } else if err == FailedLookup {
        lookupLevel := Missing(s.structures, vaddr);
      }
    }

    /** seL4_X86_Page_Unmap, which is content with a frame that is not mapped. */
    method PageUnmap(frame: nat) returns (err: Error)
      modifies this`s
      ensures err == NoError <==> frame in old(s).caps && old(s).caps[frame] == Frame
      ensures s == if err == NoError then old(s).(mapped := old(s).mapped - {frame}) else old(s)
    {
      if frame !in s.caps || s.caps[frame] != Frame {
        return OtherError;
      }
      s := s.(mapped := s.mapped - {frame});
      err := NoError;
    }

    method StructureMap(cap: nat, kind: Kind, vaddr: nat) returns (err: Error)
      modifies this`s
      ensures err == StructureMapError(old(s), cap, kind, vaddr)
      ensures s ==
        if err == NoError then old(s).(structures := WithStructure(old(s).structures, kind, vaddr)) else old(s)
    {
      err := StructureMapError(s, cap, kind, vaddr);
      if err == NoError {
        s := s.(structures := WithStructure(s.structures, kind, vaddr));
      }
    }
  }

  // ---------- slots ----------

  function Slots(a: nat, b: nat): (r: set<nat>)
    ensures |r| == Max(b - a, 0) && forall x :: x in r <==> a <= x < b
  {
    if b <= a then {} else Slots(a, b - 1) + {b - 1}
  }

  lemma NextSlot(a: nat, b: nat)
    ensures b == 0 ==> Slots(a, b) == {} == Slots(a, a) && Slots(a, a + 1) == {a}
    ensures a <= b ==> Slots(a, b + 1) == Slots(a, b) + {b}
  {
  }

  /** The kernel uses no slot of the free region but those handed out, and slot 1 is the first thread's TCB. */
  ghost predicate SlotsInOrder(caps: map<nat, Kind>, start: nat, handedOut: set<nat>) {
    && INIT_THREAD_TCB < start
    && (forall slot :: slot in caps ==> 0 < slot && (slot < start || slot in handedOut))
    && INIT_THREAD_TCB in caps && caps[INIT_THREAD_TCB] == Tcb
  }

  /** A slot of the free region that was not handed out is empty. */
  lemma UnusedSlot(caps: map<nat, Kind>, start: nat, handedOut: set<nat>, slot: nat)
    requires SlotsInOrder(caps, start, handedOut) && start <= slot && slot !in handedOut
    ensures slot !in caps && slot > 0 && SlotsInOrder(caps, start, handedOut + {slot})
  {
  }

  lemma SlotIsTaken(caps: map<nat, Kind>, start: nat, handedOut: set<nat>, slot: nat, kind: Kind)
    requires SlotsInOrder(caps, start, handedOut) && slot in handedOut && slot !in caps && slot > 0
    ensures SlotsInOrder(caps[slot := kind], start, handedOut)
  {
  }

  lemma NotAPageTable(caps: map<nat, Kind>, start: nat, handedOut: set<nat>)
    requires SlotsInOrder(caps, start, handedOut)
    ensures 0 !in caps && 1 in caps && caps[1] == Tcb
  {
  }

  class UntypedPool {
    const kernel: Kernel
    const start: nat              // bootinfo->empty
    const end: nat
    const isDevice: seq<bool>     // bootinfo->untypedList
    var emptySlotPos: nat

    ghost function HandedOut(): set<nat>
      reads this
    {
      Slots(start, emptySlotPos)
    }

    ghost predicate Valid()
      reads this, kernel`s
    {
      && start <= end && (emptySlotPos == 0 || start <= emptySlotPos <= end + 1)
      && SlotsInOrder(kernel.s.caps, start, HandedOut())
    }

    /** What is left to be had. */
    ghost function Left(): Stock
      reads this, kernel`request
    {
      var next := if emptySlotPos == 0 then start else emptySlotPos;
      Stock(kernel.refuses, isDevice, Max(end + 1 - next, 0), kernel.request)
    }

    constructor (kernel: Kernel, start: nat, end: nat, isDevice: seq<bool>)
      requires INIT_THREAD_TCB < start <= end && kernel.s.caps == map[INIT_THREAD_TCB := Tcb]
      ensures Valid() && this.kernel == kernel && HandedOut() == {}
      ensures this.start == start && this.end == end
      ensures Left() == Stock(kernel.refuses, isDevice, end + 1 - start, kernel.request)
    {
      this.kernel, this.start, this.end, this.isDevice := kernel, start, end, isDevice;
      emptySlotPos := 0;
    }

    /**
     getFreeSlot: a slot never handed out before. It is one of the region's slots exactly as long as fewer were
     handed out than the region has; the next one is past the region, and after that there are no more.
     */
    method GetFreeSlot() returns (r: Outcome<nat>)
      requires Valid()
      modifies this
      ensures Valid() && !r.Crashed?
      ensures r.Good? ==> r.value !in old(HandedOut()) && HandedOut() == old(HandedOut()) + {r.value}
      ensures r.Good? ==> r.value !in kernel.s.caps && r.value > 0
      ensures r.Good? ==> (start <= r.value < end <==> |old(HandedOut())| < end - start)
      ensures r.Bad? <==> |old(HandedOut())| == end - start + 1
      ensures r.Bad? ==> r.error == NotEnoughMemory && HandedOut() == old(HandedOut())
      ensures r.Good? <==> old(Left()).slots > 0
      ensures Left() == if r.Good? then SlotTaken(old(Left())) else old(Left())
    {
      hide SlotsInOrder, Slots;
      NextSlot(start, emptySlotPos);
      ghost var before := HandedOut();
      if emptySlotPos == 0 {
        emptySlotPos := start;
      } else if emptySlotPos > end {
        return Bad(NotEnoughMemory);
      }
      assert before == Slots(start, emptySlotPos);
      UnusedSlot(kernel.s.caps, start, before, emptySlotPos);
      var ret := emptySlotPos;
      emptySlotPos := emptySlotPos + 1;
      r := Good(ret);
    }

    /**
     allocObject: an object of the kind in a fresh slot, from the first untyped that will give it (see
     Supply.AllocSucceeds for when there is one). On failure the slot is used up all the same.
     */
    method AllocObject(kind: Kind) returns (r: Outcome<nat>)
      requires Valid()
      modifies this, kernel`s, kernel`request
      ensures Valid() && !r.Crashed? && old(HandedOut()) <= HandedOut()
      ensures (r.Good?, Left()) == Alloc(old(Left()))
      ensures r.Good? ==> r.value !in old(HandedOut()) && r.value in HandedOut() && r.value !in old(kernel.s).caps
      ensures kernel.s == if r.Good? then old(kernel.s).(caps := old(kernel.s).caps[r.value := kind]) else old(kernel.s)
      ensures r.Bad? ==> r.error == NotEnoughMemory
    {
      hide SlotsInOrder, Slots;
      ghost var caps, before := kernel.s.caps, Left();
      var slotOrErr := GetFreeSlot();
      if slotOrErr.Bad? {
        return Bad(slotOrErr.error);
      }
      var slot := slotOrErr.value;
      var untyped := 0;
      while untyped < |isDevice|
        invariant untyped <= |isDevice| && Left().isDevice == isDevice
        invariant Valid() && kernel.s == old(kernel.s) && HandedOut() == old(HandedOut()) + {slot}
        invariant FromUntyped(Left(), untyped) == FromUntyped(SlotTaken(before), 0)
      {
        if !isDevice[untyped] {
          ghost var now := Left();
          assert Granted(now, 0) == !kernel.refuses(kernel.request);
          var error := kernel.Retype(kind, slot);
          assert Left() == Asked(now);
          if error == NoError {
            SlotIsTaken(caps, start, HandedOut(), slot, kind);
            return Good(slot);
          }
        }
        untyped := untyped + 1;
      }
      r := Bad(NotEnoughMemory);
    }

    /** A free slot, and a capability made in it by seL4_CNode_Mint or seL4_X86_IOPortControl_Issue. */
    method MintSlot(kind: Kind) returns (r: Outcome<nat>)
      requires Valid()
      modifies this, kernel`s, kernel`request
      ensures var (fate, left) := MintFate(old(Left()));
        && Left() == left
        && match fate
           case Fatal(cause) => r == Crashed(cause)
           case Refused(error, _) => r == Bad(error)
           case Built => r.Good?
      ensures Valid() && old(HandedOut()) <= HandedOut()
      ensures kernel.s == if r.Good? then old(kernel.s).(caps := old(kernel.s).caps[r.value := kind]) else old(kernel.s)
      ensures r.Good? ==> r.value in HandedOut() - old(HandedOut()) && r.value !in old(kernel.s).caps
    {
      hide SlotsInOrder, Slots;
      ghost var caps, u := kernel.s.caps, Left();
      var slotOrErr := GetFreeSlot();
      if !slotOrErr.Good? {
        return Crashed(NoSlot);  // the assert on the slot
      }
      assert Granted(SlotTaken(u), 0) == !kernel.refuses(kernel.request);
      var err := kernel.Retype(kind, slotOrErr.value);
      assert Left() == Asked(SlotTaken(u));
      if err != NoError {
        return Bad(err);
      }
      SlotIsTaken(caps, start, HandedOut(), slotOrErr.value, kind);
      r := Good(slotOrErr.value);
    }
  }

  // ---------- pages ----------

  /** A size_t that counts pages. */
  predicate IsCount(counter: nat, pages: nat) {
    counter == pages % WORD_MOD
  }

  function Up(counter: nat): nat {
    (counter + 1) % WORD_MOD
  }

  function Down(counter: nat): nat {
    (counter - 1) % WORD_MOD
  }

  /** One step up is right for one page more, and wrong for as many pages as before. */
  lemma CountingUp(counter: nat, pages: nat)
    requires IsCount(counter, pages)
    ensures IsCount(Up(counter), pages + 1) && !IsCount(Up(counter), pages)
  {
  }

  /** And one step down for one page less. */
  lemma CountingDown(counter: nat, pages: nat)
    requires IsCount(counter, pages)
    ensures pages > 0 ==> IsCount(Down(counter), pages - 1)
    ensures !IsCount(Down(counter), pages)
  {
  }

  lemma SmallCount(counter: nat, pages: nat)
    requires IsCount(counter, pages) && pages < WORD_MOD
    ensures counter == pages
  {
  }

  lemma OnlyFramesAreMapped(s: Space, frame: nat)
    requires Sound(s) && (frame !in s.caps || s.caps[frame] != Frame)
    ensures frame !in s.mapped && s.mapped - {frame} == s.mapped
  {
  }

  class PageTable {
    const pool: UntypedPool
    const kernel: Kernel
    var mappedPages: nat          // _mappedPages, a size_t

    ghost predicate Valid()
      reads this, pool, kernel`s
    {
      pool.kernel == kernel && pool.Valid() && Sound(kernel.s)
    }

    /** The counter is the number of mapped frames, as far as a size_t can tell. */
    ghost predicate Counted()
      reads this, kernel`s
    {
      IsCount(mappedPages, |kernel.s.mapped|)
    }

    constructor (pool: UntypedPool)
      requires pool.Valid() && Sound(pool.kernel.s) && pool.kernel.s.mapped == map[]
      ensures Valid() && Counted() && this.pool == pool && mappedPages == 0
    {
      this.pool, this.kernel, mappedPages := pool, pool.kernel, 0;
    }

    /**
     mapPage. It does not look at errors other than a failed lookup, so that a page already in use is counted
     again without being mapped: then, and only then, the counter goes wrong. And when a page table is missing it
     hands the kernel the truth value of the new table's Expected for a capability (userland/PageTable.cpp:34-37
     with userland/lib/expected.hpp:23), which is never the table. So it crashes exactly when there is no frame or a
     paging structure is missing, and the cause says which assert it was.
     */
    method MapPage(vaddr: nat) returns (r: Outcome<nat>)
      requires Valid()
      modifies this, pool, kernel
      ensures Valid() && old(pool.HandedOut()) <= pool.HandedOut() && Grown(old(kernel.s), kernel.s)
      ensures var (cause, left) := PageFate(old(pool.Left()), Missing(old(kernel.s).structures, vaddr));
        if cause.Some? then r == Crashed(cause.value) else r.Good? && pool.Left() == left
      ensures r.Crashed? <==> !Alloc(old(pool.Left())).0 || Missing(old(kernel.s).structures, vaddr) != 3
      ensures r == Crashed(NoTable) ==> Missing(old(kernel.s).structures, vaddr) == 0
      ensures r == Crashed(NotImplemented) ==> Missing(old(kernel.s).structures, vaddr) in {1, 2}
      ensures r.Good? ==> r.value !in old(kernel.s).caps && r.value in kernel.s.caps && r.value in pool.HandedOut()
      ensures r.Good? ==> (
        kernel.s.mapped ==
          if vaddr in old(kernel.s).mapped.Values then old(kernel.s).mapped else old(kernel.s).mapped[r.value := vaddr])
      ensures r.Good? ==> mappedPages == Up(old(mappedPages))
      ensures r.Good? && old(Counted()) ==> (Counted() <==> vaddr !in old(kernel.s).mapped.Values)
    {
      hide Sound, Grown, Missing, SlotsInOrder, Slots, Alloc, IsCount, Up, Down;
      ghost var s := kernel.s;
      var frameOrErr := pool.AllocObject(Frame);
      if frameOrErr.Bad? {
        GrowthIsReflexive(s);
        return Crashed(NoFrame);
      }
      var frame := frameOrErr.value;
      NewCapIsGrowth(s, frame, Frame);
      GrowthKeepsCaps(s, kernel.s);
      ghost var t := kernel.s;
      FrameIsUnused(s, frame);
      var error := kernel.PageMap(frame, vaddr);
      if error == NoError {
        MappingIsSound(t, frame, vaddr);
        GrowthIsTransitive(s, t, kernel.s);
      }
      if error == FailedLookup {
        if kernel.lookupLevel == 0 {
          error := MapTable(vaddr);
          GrowthIsTransitive(s, t, kernel.s);
          if error == NoError {
            assert false;  // so the second attempt at mapping the page is never made
          }
          return Crashed(NoTable);
        }
        return Crashed(NotImplemented);
      }
      if IsCount(mappedPages, |s.mapped|) {
        CountingUp(mappedPages, |s.mapped|);
      }
      mappedPages := Up(mappedPages);
      r := Good(frame);
    }

    /** mapPage's attempt at a page table: the capability it gives the kernel is never that of the table. */
    method MapTable(vaddr: nat) returns (error: Error)
      requires Valid()
      modifies pool, kernel
      ensures Valid() && old(pool.HandedOut()) <= pool.HandedOut() && Grown(old(kernel.s), kernel.s)
      ensures error != NoError && kernel.s.mapped == old(kernel.s).mapped
    {
      hide Sound, Grown, Missing, SlotsInOrder, Slots, Alloc, IsCount, Up, Down;
      ghost var s := kernel.s;
      GrowthIsReflexive(s);
      var newPageTable := pool.AllocObject(PageTableObject);
      if newPageTable.Good? {
        NewCapIsGrowth(s, newPageTable.value, PageTableObject);
      }
      var cap := if newPageTable.Good? then 1 else 0;
      NotAPageTable(kernel.s.caps, pool.start, pool.HandedOut());
      error := kernel.StructureMap(cap, PageTableObject, vaddr);
    }

    /** unmapPage. The kernel does not mind a frame that is not mapped; the counter does. */
    method UnmapPage(frame: nat) returns (err: Error)
      requires Valid()
      modifies this, kernel`s
      ensures Valid() && Grown(old(kernel.s), kernel.s)
      ensures err == NoError <==> frame in old(kernel.s).caps && old(kernel.s).caps[frame] == Frame
      ensures kernel.s == old(kernel.s).(mapped := old(kernel.s).mapped - {frame})
      ensures mappedPages == if err == NoError then Down(old(mappedPages)) else old(mappedPages)
      ensures old(Counted()) ==> (Counted() <==> err != NoError || frame in old(kernel.s).mapped)
    {
      hide Sound, Grown, SlotsInOrder, Slots, IsCount, Up, Down;
      ghost var s := kernel.s;
      UnmappingIsSound(s, frame);
      err := kernel.PageUnmap(frame);
      if err != NoError {
        OnlyFramesAreMapped(s, frame);
        return;
      }
      if IsCount(mappedPages, |s.mapped|) {
        CountingDown(mappedPages, |s.mapped|);
      }
      mappedPages := Down(mappedPages);
    }

    /**
     init: page directory pointer table, page directory and page table for an address. It gets by exactly when the
     address lacks all three, or all but the first, and the objects it needs are there; then the address has all
     three, and no other region got a page table.
     */
    method Init(vaddr: nat) returns (r: Outcome<()>)
      requires Valid()
      modifies pool, kernel
      ensures var (initialised, left) := InitFate(old(pool.Left()), Missing(old(kernel.s).structures, vaddr));
        if initialised then r == Good(()) && pool.Left() == left else r == Crashed(NotInitialised)
      ensures r.Good? ==>
        && Valid() && kernel.s.mapped == old(kernel.s).mapped
        && kernel.s.structures.tables == old(kernel.s).structures.tables + {TableOf(vaddr)}
        && kernel.s.structures.directories == old(kernel.s).structures.directories + {DirectoryOf(vaddr)}
        && kernel.s.structures.pdpts == old(kernel.s).structures.pdpts + {PdptOf(vaddr)}
        && TableOf(vaddr) !in old(kernel.s).structures.tables && Missing(kernel.s.structures, vaddr) == 3
    {
      hide SlotsInOrder, Slots, Sound, Missing, Alloc, IsCount, Up, Down;
      ghost var s := kernel.s;
      var pdptOrErr, pdOrErr, ptOrErr := AllocStructures();
      ghost var t := kernel.s;
      assert t.structures == s.structures;
      var error := kernel.StructureMap(if pdptOrErr.Good? then pdptOrErr.value else 0, PdptObject, vaddr);
      if error == NoError {
        StructureKeepsSound(t, PdptObject, vaddr);
      }
      ghost var u := kernel.s;
      error := kernel.StructureMap(if pdOrErr.Good? then pdOrErr.value else 0, DirectoryObject, vaddr);
      if error != NoError {
        return Crashed(NotInitialised);
      }
      StructureKeepsSound(u, DirectoryObject, vaddr);
      ghost var v := kernel.s;
      error := kernel.StructureMap(if ptOrErr.Good? then ptOrErr.value else 0, PageTableObject, vaddr);
      if error != NoError {
        return Crashed(NotInitialised);
      }
      StructureKeepsSound(v, PageTableObject, vaddr);
      HasPdpt(s.structures, vaddr);
      r := Good(());
    }

    /** The three allocations of init, whose results it does not look at. */
    method AllocStructures() returns (pdpt: Outcome<nat>, pd: Outcome<nat>, pt: Outcome<nat>)
      requires Valid()
      modifies pool, kernel
      ensures Valid() && kernel.s == old(kernel.s).(caps := kernel.s.caps) && 0 !in kernel.s.caps
      ensures (pdpt.Good?, pd.Good?, pt.Good?, pool.Left()) ==
              (var (a, u1) := Alloc(old(pool.Left()));
               var (b, u2) := Alloc(u1);
               var (c, u3) := Alloc(u2);
               (a, b, c, u3))
      ensures pdpt.Good? ==> pdpt.value in kernel.s.caps && kernel.s.caps[pdpt.value] == PdptObject
      ensures pd.Good? ==> pd.value in kernel.s.caps && kernel.s.caps[pd.value] == DirectoryObject
      ensures pt.Good? ==> pt.value in kernel.s.caps && kernel.s.caps[pt.value] == PageTableObject
    {
      hide SlotsInOrder, Slots, Sound, Alloc, IsCount, Up, Down;
      ghost var s := kernel.s;
      pdpt := pool.AllocObject(PdptObject);
      if pdpt.Good? {
        NewCapIsGrowth(s, pdpt.value, PdptObject);
      }
      ghost var t := kernel.s;
      pd := pool.AllocObject(DirectoryObject);
      if pd.Good? {
        NewCapIsGrowth(t, pd.value, DirectoryObject);
      }
      ghost var u := kernel.s;
      pt := pool.AllocObject(PageTableObject);
      if pt.Good? {
        NewCapIsGrowth(u, pt.value, PageTableObject);
      }
      NotAPageTable(kernel.s.caps, pool.start, pool.HandedOut());
    }
  }

  lemma StructureKeepsSound(s: Space, kind: Kind, vaddr: nat)
    requires Sound(s) && kind in {PdptObject, DirectoryObject, PageTableObject}
    requires Missing(s.structures, vaddr) == LevelOf(kind)
    ensures var t := s.(structures := WithStructure(s.structures, kind, vaddr));
      Sound(t) && Missing(t.structures, vaddr) == (if kind == PageTableObject then 3 else LevelOf(kind) - 1)
    ensures kind == PageTableObject ==> TableOf(vaddr) !in s.structures.tables
  {
    StructureFits(s.structures, kind, vaddr);
  }

  lemma HasPdpt(st: Structures, vaddr: nat)
    requires Missing(st, vaddr) == 1 || Missing(st, vaddr) == 2
    ensures Missing(st, vaddr) == 1 ==> st.pdpts + {PdptOf(vaddr)} == st.pdpts
  {
  }

  // ---------- threads ----------

  class ObjectFactory {
    const pool: UntypedPool
    const pt: PageTable
    const kernel: Kernel
    var currentVirtualAddress: nat

    ghost predicate Valid()
      reads this, pt, pool, kernel`s
    {
      && pt.pool == pool && pt.kernel == kernel && pt.Valid() && pt.Counted()
      && Below(kernel.s.mapped, currentVirtualAddress)
    }

    constructor (pool: UntypedPool, pt: PageTable, currentVirtualAddress: nat)
      requires pt.pool == pool
      ensures this.pool == pool && this.pt == pt && kernel == pt.kernel
      ensures this.currentVirtualAddress == currentVirtualAddress
    {
      this.pool, this.pt, this.kernel, this.currentVirtualAddress := pool, pt, pt.kernel, currentVirtualAddress;
    }

    /** One page of a new thread: mapPage at the next address, which then moves on. */
    method MapNext() returns (r: Outcome<nat>)
      requires Valid()
      modifies this, pt, pool, kernel
      ensures var (cause, left) :=
          PageFate(old(pool.Left()), Missing(old(kernel.s).structures, old(currentVirtualAddress)));
        if cause.Some? then r == Crashed(cause.value) else r.Good? && pool.Left() == left
      ensures r.Good? ==> Valid() && old(pool.HandedOut()) <= pool.HandedOut() && Grown(old(kernel.s), kernel.s)
      ensures r.Good? ==> r.value !in old(kernel.s).caps && r.value in kernel.s.caps
      ensures r.Good? ==> kernel.s.mapped == old(kernel.s).mapped[r.value := old(currentVirtualAddress)]
      ensures r.Good? ==> currentVirtualAddress == old(currentVirtualAddress) + PAGE_SIZE
    {
      hide Grown, Missing, SlotsInOrder, Slots, Sound, Below, PageFate, Alloc, IsCount, Up, Down;
      NextPageIsFree(kernel.s.mapped, currentVirtualAddress);
      r := pt.MapPage(currentVirtualAddress);
      if r.Good? {
        currentVirtualAddress := currentVirtualAddress + PAGE_SIZE;
      }
    }

    /** The three pages of a new thread: stack, thread-local storage, IPC buffer. mapPage never returns an error. */
    method MapThreadPages() returns (r: Outcome<(nat, nat, nat)>)
      requires Valid()
      modifies this, pt, pool, kernel
      ensures var (cause, left) := PagesFate(old(pool.Left()), old(kernel.s).structures, old(currentVirtualAddress), 3);
        if cause.Some? then r == Crashed(cause.value) else r.Good? && pool.Left() == left
      ensures r.Good? ==> Valid() && old(pool.HandedOut()) <= pool.HandedOut() && Grown(old(kernel.s), kernel.s)
      ensures r.Good? ==> Fresh(old(kernel.s), r.value)
      ensures r.Good? ==> kernel.s.mapped == WithThreadPages(old(kernel.s).mapped, r.value, old(currentVirtualAddress))
      ensures r.Good? ==> currentVirtualAddress == old(currentVirtualAddress) + 3 * PAGE_SIZE
    {
      hide Sound, Grown, Missing, SlotsInOrder, Slots, Below, PageFate, PagesFate, Fresh, IsCount, Up, Down;
      ghost var s0, vaddr := kernel.s, currentVirtualAddress;
      NextPage(pool.Left(), s0.structures, vaddr, 3);
      var stack := MapNext();
      if stack.Crashed? {
        return Crashed(stack.cause);
      }
      ghost var s1 := kernel.s;
      GrowthKeepsCaps(s0, s1);
      NextPage(pool.Left(), s0.structures, vaddr + PAGE_SIZE, 2);
      var tls := MapNext();
      if tls.Crashed? {
        return Crashed(tls.cause);
      }
      ghost var s2 := kernel.s;
      GrowthIsTransitive(s0, s1, s2);
      NextPage(pool.Left(), s0.structures, vaddr + 2 * PAGE_SIZE, 1);
      var ipc := MapNext();
      if ipc.Crashed? {
        return Crashed(ipc.cause);
      }
      GrowthIsTransitive(s0, s2, kernel.s);
      OneAfterTheOther(s0, s1, s2, stack.value, tls.value, ipc.value);
      NoMorePages(pool.Left(), s0.structures, vaddr + 3 * PAGE_SIZE);
      r := Good((stack.value, tls.value, ipc.value));
    }

    /** The three pages are unmapped again. (releaseObject and releaseSlot do nothing.) */
    method ReleasePages(frames: (nat, nat, nat), ghost before: Space, ghost vaddr: nat)
      requires Valid() && Fresh(before, frames) && Sound(before)
      requires kernel.s.mapped == WithThreadPages(before.mapped, frames, vaddr)
      modifies pt, kernel`s
      ensures Valid() && Grown(old(kernel.s), kernel.s)
      ensures kernel.s == old(kernel.s).(mapped := before.mapped)
    {
      hide Sound, Grown, SlotsInOrder, Below, WithThreadPages, Slots, IsCount, Up, Down;
      ghost var s := kernel.s;
      ThreadPagesAreApart(before, frames, vaddr);
      var _ := pt.UnmapPage(frames.0);
      ghost var t := kernel.s;
      var _ := pt.UnmapPage(frames.1);
      GrowthIsTransitive(s, t, kernel.s);
      t := kernel.s;
      var _ := pt.UnmapPage(frames.2);
      GrowthIsTransitive(s, t, kernel.s);
      assert kernel.s.mapped == s.mapped - {frames.0} - {frames.1} - {frames.2};
      FewerPagesBelow(s.mapped, before.mapped, currentVirtualAddress, frames);
    }

    /** The three calls that configure the TCB: SetTLSBase, SetIPCBuffer, setPriority. */
    method Configure() returns (err: Error)
      requires Valid()
      modifies kernel`request
      ensures Valid() && (err == NoError, pool.Left()) == AllGranted(old(pool.Left()), 3)
      ensures err == NoError || err == OtherError
    {
      hide SlotsInOrder, Slots, Below, Sound, IsCount, Up, Down;
      ghost var u := pool.Left();
      assert forall v: Stock :: Granted(v, 0) == !v.refuses(v.request);
      var granted := kernel.Ask();
      assert pool.Left() == Asked(u);
      if granted {
        granted := kernel.Ask();
        assert pool.Left() == Asked(Asked(u));
      }
      if granted {
        granted := kernel.Ask();
        assert pool.Left() == Asked(Asked(Asked(u)));
      }
      err := if granted then NoError else OtherError;
    }

    /** The second half of createThread, with the pages mapped: configure the TCB, mint the endpoint, share it. */
    method FinishThread(tcb: nat, badge: nat, stackAddr: nat, pages: (nat, nat, nat),
                        ghost before: Space, ghost vaddr: nat)
      returns (r: Outcome<Thread>)
      requires Valid() && Fresh(before, pages) && Sound(before) && tcb in pool.HandedOut()
      requires kernel.s.mapped == WithThreadPages(before.mapped, pages, vaddr)
      modifies pt, pool, kernel
      ensures Ends(r, FinishFate(old(pool.Left())), pool.Left())
      ensures !r.Crashed? ==> Valid() && old(pool.HandedOut()) <= pool.HandedOut() && Grown(old(kernel.s), kernel.s)
      ensures r.Bad? ==> kernel.s.mapped == before.mapped
      ensures r.Good? ==> kernel.s.mapped == old(kernel.s).mapped
      ensures r.Good? ==> r.value == Thread(tcb, badge, stackAddr, r.value.endpoint)
      ensures r.Good? ==> r.value.endpoint in pool.HandedOut() - old(pool.HandedOut())
    {
      hide Sound, Grown, SlotsInOrder, Below, WithThreadPages, Missing, Slots, AllGranted, MintFate, IsCount, Up, Down;
      ghost var s2 := kernel.s;
      var err := Configure();
      if err != NoError {
        ReleasePages(pages, before, vaddr);
        return Bad(err);
      }
      GrowthIsReflexive(s2);
      var endpoint := pool.MintSlot(EndpointObject);  // seL4_CNode_Mint
      if endpoint.Crashed? {
        return Crashed(endpoint.cause);
      }
      if endpoint.Bad? {
        ReleasePages(pages, before, vaddr);
        return Bad(endpoint.error);
      }
      NewCapIsGrowth(s2, endpoint.value, EndpointObject);
      assert Granted(pool.Left(), 0) == !kernel.refuses(kernel.request);
      ghost var u := pool.Left();
      var granted := kernel.Ask();  // the count of the shared pointer
      assert pool.Left() == Asked(u);
      if !granted {
        return Crashed(NoMemory);
      }
      r := Good(Thread(tcb, badge, stackAddr, endpoint.value));
    }

    /** The first part of createThread: the TCB, memory for the Thread, and seL4_TCB_SetSpace. */
    method BeginThread() returns (r: Outcome<nat>)
      requires Valid()
      modifies pool, kernel`s, kernel`request
      ensures var (early, left) := BeginFate(old(pool.Left()));
        && pool.Left() == left
        && match early
           case None => r.Good?
           case Some(Refused(error, _)) => r == Bad(error)
           case Some(Fatal(cause)) => r == Crashed(cause)
           case Some(Built) => false
      ensures Valid() && old(pool.HandedOut()) <= pool.HandedOut() && Grown(old(kernel.s), kernel.s)
      ensures kernel.s == old(kernel.s).(caps := kernel.s.caps)
      ensures r.Good? ==> r.value in pool.HandedOut() - old(pool.HandedOut())
    {
      hide Sound, Grown, SlotsInOrder, Below, Missing, Slots, Alloc, IsCount, Up, Down;
      ghost var s := kernel.s;
      GrowthIsReflexive(s);
      var tcbOrErr := pool.AllocObject(Tcb);
      if tcbOrErr.Bad? {
        return Bad(tcbOrErr.error);
      }
      NewCapIsGrowth(s, tcbOrErr.value, Tcb);
      ghost var u := pool.Left();
      assert Granted(u, 0) == !kernel.refuses(kernel.request);
      var granted := kernel.Ask();  // new Thread
      assert pool.Left() == Asked(u);
      if !granted {
        return Crashed(NoMemory);  // the constructor of Thread writes through NULL
      }
      assert Granted(Asked(u), 0) == !kernel.refuses(kernel.request);
      granted := kernel.Ask();  // seL4_TCB_SetSpace
      assert pool.Left() == Asked(Asked(u));
      r := if granted then Good(tcbOrErr.value) else Bad(OtherError);
    }

    /**
     createThread, for every pattern of failures: it succeeds, returns an error or crashes exactly as CreateFate
     says. An error leaves exactly the pages that were mapped before (and may leave the next address three pages
     further); success adds three adjacent fresh pages, the stack first.
     */
    method CreateThread(badge: nat) returns (r: Outcome<Thread>, ghost frames: (nat, nat, nat))
      requires Valid()
      modifies this, pt, pool, kernel
      ensures var fate := CreateFate(old(pool.Left()), old(kernel.s).structures, old(currentVirtualAddress));
        && Ends(r, fate, pool.Left())
        && (!r.Crashed? ==>
             currentVirtualAddress
             == old(currentVirtualAddress) + if r.Good? || fate.0.moved then 3 * PAGE_SIZE else 0)
      ensures !r.Crashed? ==> Valid() && old(pool.HandedOut()) <= pool.HandedOut() && Grown(old(kernel.s), kernel.s)
      ensures r.Bad? ==> kernel.s.mapped == old(kernel.s).mapped
      ensures r.Good? ==>
        && Fresh(old(kernel.s), frames)
        && kernel.s.mapped == WithThreadPages(old(kernel.s).mapped, frames, old(currentVirtualAddress))
      ensures r.Good? ==>
        && r.value.badge == badge && r.value.stackAddr == old(currentVirtualAddress)
        && r.value.tcb in pool.HandedOut() - old(pool.HandedOut())
        && r.value.endpoint in pool.HandedOut() - old(pool.HandedOut()) && r.value.tcb != r.value.endpoint
    {
      hide Sound, Grown, Missing, SlotsInOrder, Below, WithThreadPages, Slots, IsCount, Up, Down;
      BeginIsFirst(pool.Left());
      hide BeginFate, PagesFate, FinishFate;
      frames := (0, 0, 0);
      ghost var s0, vaddr := kernel.s, currentVirtualAddress;
      var tcbOrErr := BeginThread();
      if tcbOrErr.Bad? {
        return Bad(tcbOrErr.error), frames;
      }
      if tcbOrErr.Crashed? {
        return Crashed(tcbOrErr.cause), frames;
      }
      ghost var s1 := kernel.s;
      GrowthKeepsCaps(s0, s1);
      var stackAddr := currentVirtualAddress;
      var pages := MapThreadPages();
      if !pages.Good? {
        return Crashed(pages.cause), frames;
      }
      frames := pages.value;
      ghost var s2 := kernel.s;
      GrowthIsTransitive(s0, s1, s2);
      FinishIsLast(pool.Left());
      r := FinishThread(tcbOrErr.value, badge, stackAddr, pages.value, s1, vaddr);
      if !r.Crashed? {
        GrowthIsTransitive(s0, s2, kernel.s);
      }
    }
  }

  lemma BeginIsFirst(u: Stock)
    ensures var early := BeginFate(u).0; early.Some? && early.value.Refused? ==> !early.value.moved
  {
  }

  lemma FinishIsLast(u: Stock)
    ensures FinishFate(u).0.Refused? ==> FinishFate(u).0.moved
  {
  }

  /** A result is as foretold, and so is what is left afterwards. */
  ghost predicate Ends(r: Outcome<Thread>, fate: (Fate, Stock), left: Stock) {
    match fate.0
    case Fatal(cause) => r == Crashed(cause)
    case Refused(error, _) => r == Bad(error) && left == fate.1
    case Built => r.Good? && left == fate.1
  }

  // ---------- the thread table ----------

  /** The vector in struct ThreadTable: push_back with doRealloc. `bytes` is the size of the block at _data. */
  class ThreadTable {
    const kernel: Kernel
    var size: nat                 // _size and _reservation, each a size_t
    var reservation: nat
    var bytes: Option<nat>        // None: _data is nullptr
    var threads: seq<Thread>      // what is at _data

    ghost function View(): Table
      reads this
    {
      Table(size, reservation, bytes)
    }

    /** A vector that was made empty. */
    ghost predicate Valid()
      reads this
    {
      size == |threads| <= reservation < WORD_MOD && (bytes.None? ==> reservation == 0)
    }

    constructor (kernel: Kernel)
      ensures Valid() && View() == EMPTY_TABLE && this.kernel == kernel && threads == []
    {
      this.kernel, size, reservation, bytes, threads := kernel, 0, 0, None, [];
    }

    /** ThreadTable::add. It ends the run, or the table holds one thread more, as AddFate has it. */
    method Add(t: Thread, ghost u: Stock) returns (cause: Option<Cause>)
      requires Valid() && u.refuses == kernel.refuses && u.request == kernel.request
      modifies this, kernel`request
      ensures var (foretold, left, table) := AddFate(u, old(View()));
        cause == foretold && (cause.None? ==> View() == table && u.(request := kernel.request) == left)
      ensures cause.None? ==> Valid() && threads == old(threads) + [t]
    {
      assert Granted(u, 0) == !kernel.refuses(kernel.request);
      if bytes.None? || size >= reservation {
        if reservation == 0 {
          reservation := TABLE_ROOM;
        } else {
          reservation := size * 2 % WORD_MOD;
        }
        var sizeToRealloc := reservation * SHARED_POINTER % WORD_MOD;
        match ReallocRoute(bytes, sizeToRealloc)
        case Waits =>
          return Some(LockTakenTwice);
        case Null =>
          return Some(NoMemory);
        case Allocates =>
          var granted := kernel.Ask();
          if !granted {
            return Some(NoMemory);
          }
          bytes := Some(sizeToRealloc);
      }
      threads := threads[..size] + [t];
      size := (size + 1) % WORD_MOD;
      return None;
    }
  }

  // ---------- the root server ----------

  /** One page of reservePages, above all others. */
  method ReservePage(pt: PageTable, vaddr: nat) returns (cause: Option<Cause>)
    requires pt.Valid() && pt.Counted() && Below(pt.kernel.s.mapped, vaddr)
    modifies pt, pt.pool, pt.kernel
    ensures var (foretold, left) := PageFate(old(pt.pool.Left()), Missing(old(pt.kernel.s).structures, vaddr));
      cause == foretold && (cause.None? ==> pt.pool.Left() == left)
    ensures cause.None? ==> pt.Valid() && pt.Counted() && Below(pt.kernel.s.mapped, vaddr + PAGE_SIZE)
    ensures cause.None? ==> pt.kernel.s.structures == old(pt.kernel.s).structures
    ensures cause.None? ==> |pt.kernel.s.mapped| == |old(pt.kernel.s).mapped| + 1
    ensures cause.None? ==> pt.kernel.s.mapped.Values == old(pt.kernel.s).mapped.Values + {vaddr}
  {
    hide Sound, SlotsInOrder, Slots, PageFate, Missing, Below, Grown, IsCount, Up, Down;
    ghost var s := pt.kernel.s;
    NextPageIsFree(s.mapped, vaddr);
    var capOrErr := pt.MapPage(vaddr);
    if !capOrErr.Good? {
      return Some(capOrErr.cause);
    }
    FrameIsUnused(s, capOrErr.value);
    GrowthKeepsCaps(s, pt.kernel.s);
    assert pt.kernel.s.mapped.Keys == s.mapped.Keys + {capOrErr.value};
    OneValueMore(s.mapped, capOrErr.value, vaddr);
    return None;
  }

  lemma OneValueMore(m: map<nat, nat>, frame: nat, vaddr: nat)
    requires frame !in m
    ensures m[frame := vaddr].Values == m.Values + {vaddr}
  {
    var m' := m[frame := vaddr];
    assert m'[frame] == vaddr;
    forall v | v in m.Values ensures v in m'.Values {
      var f :| f in m && m[f] == v;
      assert m'[f] == v;
    }
  }

  /** The first k pages of the reserved area are among the addresses. */
  ghost predicate Reserved(addresses: set<nat>, k: nat) {
    forall i :: 0 <= i < k ==> RESERVED_VADDR + i * PAGE_SIZE in addresses
  }

  lemma NothingReserved(addresses: set<nat>)
    ensures Reserved(addresses, 0)
  {
  }

  lemma OneMoreReserved(before: set<nat>, after: set<nat>, k: nat, vaddr: nat)
    requires Reserved(before, k) && after == before + {vaddr} && vaddr == RESERVED_VADDR + k * PAGE_SIZE
    ensures Reserved(after, k + 1)
  {
  }

  /** i pages are reserved, and what was foretold for all of them is foretold for the rest. */
  ghost predicate Reserving(pt: PageTable, all: (Option<Cause>, Stock), st: Structures, vaddr: nat, i: nat)
    reads pt, pt.pool, pt.kernel, pt.pool.kernel
  {
    && i <= RESERVED_PAGES && vaddr == RESERVED_VADDR + i * PAGE_SIZE
    && pt.Valid() && pt.Counted() && |pt.kernel.s.mapped| == i && pt.kernel.s.structures == st
    && Below(pt.kernel.s.mapped, vaddr) && Reserved(pt.kernel.s.mapped.Values, i)
    && PagesFate(pt.pool.Left(), st, vaddr, RESERVED_PAGES - i) == all
  }

  /** The next page of reservePages. */
  method ReserveNext(pt: PageTable, vaddr: nat, ghost all: (Option<Cause>, Stock), ghost st: Structures, ghost i: nat)
    returns (cause: Option<Cause>)
    requires Reserving(pt, all, st, vaddr, i) && i < RESERVED_PAGES
    modifies pt, pt.pool, pt.kernel
    ensures cause.Some? ==> all.0 == cause
    ensures cause.None? ==> Reserving(pt, all, st, vaddr + PAGE_SIZE, i + 1)
  {
    hide Sound, SlotsInOrder, Slots, PageFate, PagesFate, Missing, Below, Grown, IsCount, Up, Down, Reserved;
    NextPage(pt.pool.Left(), st, vaddr, RESERVED_PAGES - i);
    ghost var before := pt.kernel.s.mapped.Values;
    cause := ReservePage(pt, vaddr);
    if cause.None? {
      OneMoreReserved(before, pt.kernel.s.mapped.Values, i, vaddr);
    }
  }

  /** reservePages: the pool of kmalloc, page by page. */
  method ReservePages(pt: PageTable) returns (cause: Option<Cause>)
    requires pt.Valid() && pt.Counted() && pt.kernel.s.mapped == map[]
    modifies pt, pt.pool, pt.kernel
    ensures var (foretold, left) :=
        PagesFate(old(pt.pool.Left()), old(pt.kernel.s).structures, RESERVED_VADDR, RESERVED_PAGES);
      cause == foretold && (cause.None? ==> pt.pool.Left() == left)
    ensures cause.None? ==> pt.Valid() && pt.Counted() && pt.mappedPages == RESERVED_PAGES
    ensures cause.None? ==> pt.kernel.s.structures == old(pt.kernel.s).structures
    ensures cause.None? ==> Below(pt.kernel.s.mapped, ThreadVaddr(0)) && |pt.kernel.s.mapped| == RESERVED_PAGES
    ensures cause.None? ==> Reserved(pt.kernel.s.mapped.Values, RESERVED_PAGES)
  {
    hide PagesFate, Reserving, Reserved, Sound, SlotsInOrder, Slots, Below, IsCount;
    ghost var st := pt.kernel.s.structures;
    ghost var all := PagesFate(pt.pool.Left(), st, RESERVED_VADDR, RESERVED_PAGES);
    var vaddr: nat := RESERVED_VADDR;
    ReservingStarts(pt);
    for i := 0 to RESERVED_PAGES
      invariant Reserving(pt, all, st, vaddr, i)
    {
      cause := ReserveNext(pt, vaddr, all, st, i);
      if cause.Some? {
        return;
      }
      vaddr := vaddr + PAGE_SIZE;
    }
    ReservingEnds(pt, all, st, vaddr);
    return None;
  }

  lemma ReservingStarts(pt: PageTable)
    requires pt.Valid() && pt.Counted() && pt.kernel.s.mapped == map[]
    ensures var st := pt.kernel.s.structures;
      Reserving(pt, PagesFate(pt.pool.Left(), st, RESERVED_VADDR, RESERVED_PAGES), st, RESERVED_VADDR, 0)
  {
    hide PagesFate, Sound, SlotsInOrder, Slots, Below, IsCount;
    NothingIsBelow(RESERVED_VADDR);
    NothingReserved(pt.kernel.s.mapped.Values);
  }

  lemma ReservingEnds(pt: PageTable, all: (Option<Cause>, Stock), st: Structures, vaddr: nat)
    requires Reserving(pt, all, st, vaddr, RESERVED_PAGES)
    ensures all == (None, pt.pool.Left()) && pt.Valid() && pt.Counted() && pt.mappedPages == RESERVED_PAGES
    ensures pt.kernel.s.structures == st && |pt.kernel.s.mapped| == RESERVED_PAGES
    ensures Below(pt.kernel.s.mapped, ThreadVaddr(0)) && Reserved(pt.kernel.s.mapped.Values, RESERVED_PAGES)
  {
    hide PagesFate, Sound, SlotsInOrder, Slots, Below, IsCount, Reserved;
    NoMorePages(pt.pool.Left(), st, vaddr);
    SmallCount(pt.mappedPages, RESERVED_PAGES);
  }

  lemma NothingIsBelow(limit: nat)
    requires limit % PAGE_SIZE == 0
    ensures Below(map[], limit)
  {
  }

  /** lateInit, as far as slots, objects and memory go. */
  method LateInit(pool: UntypedPool) returns (cause: Option<Cause>)
    requires pool.Valid() && Sound(pool.kernel.s)
    modifies pool, pool.kernel
    ensures cause == LateInitFate(old(pool.Left())).0
    ensures cause.None? ==> pool.Left() == LateInitFate(old(pool.Left())).1
    ensures cause.None? ==> pool.Valid() && Sound(pool.kernel.s)
    ensures cause.None? ==> pool.kernel.s == old(pool.kernel.s).(caps := pool.kernel.s.caps)
  {
    hide Sound, SlotsInOrder, Slots, Alloc, Grown, IsCount, Up, Down, MintFate;
    ghost var s := pool.kernel.s;
    var apiEpOrErr := pool.AllocObject(EndpointObject);
    if !apiEpOrErr.Good? {
      return Some(NoEndpoint);
    }
    NewCapIsGrowth(s, apiEpOrErr.value, EndpointObject);
    ghost var t := pool.kernel.s;
    var com1SlotOrErr := pool.MintSlot(IoPort);
    if com1SlotOrErr.Crashed? {
      return Some(com1SlotOrErr.cause);
    }
    if com1SlotOrErr.Bad? {
      return Some(NoIoPort);
    }
    NewCapIsGrowth(t, com1SlotOrErr.value, IoPort);
    var com1IRQSlotOrErr := pool.GetFreeSlot();
    if !com1IRQSlotOrErr.Good? {
      return Some(NoSlot);
    }
    ghost var u2 := pool.Left();
    assert Granted(u2, 0) == !pool.kernel.refuses(pool.kernel.request);
    var granted := pool.kernel.Ask();  // Shell::init: kmalloc
    assert pool.Left() == Asked(u2);
    if !granted {
      return Some(NoBuffer);
    }
    return None;
  }

  /** Any number of calls of ObjectFactory::createThread, after others that used up the addresses of k threads. */
  method CreateThreads(factory: ObjectFactory, n: nat, ghost k: nat) returns (cause: Option<Cause>, created: nat)
    requires factory.Valid() && factory.currentVirtualAddress == ThreadVaddr(k)
    modifies factory, factory.pt, factory.pool, factory.kernel
    ensures var t := Attempts(old(factory.pool.Left()), old(factory.kernel.s).structures, k, n);
      && cause == t.cause && created == t.created
      && (cause.None? ==> factory.currentVirtualAddress == ThreadVaddr(t.used))
    ensures cause.None? ==> factory.Valid() && factory.kernel.s.structures == old(factory.kernel.s).structures
    ensures cause.None? ==> |factory.kernel.s.mapped| == |old(factory.kernel.s).mapped| + 3 * created
  {
    hide Sound, SlotsInOrder, Slots, Below, Missing, CreateFate, Attempts, Grown, IsCount, Up, Down;
    created := 0;
    ghost var j, st := k, factory.kernel.s.structures;
    ghost var all := Attempts(factory.pool.Left(), st, k, n);
    for i := 0 to n
      invariant factory.Valid() && factory.currentVirtualAddress == ThreadVaddr(j) && factory.kernel.s.structures == st
      invariant var rest := Attempts(factory.pool.Left(), st, j, n - i);
        all == rest.(created := created + rest.created)
      invariant |factory.kernel.s.mapped| == |old(factory.kernel.s).mapped| + 3 * created
    {
      ghost var s := factory.kernel.s;
      NextAttempt(factory.pool.Left(), st, j, n - i);
      var r;
      ghost var frames;
      r, frames := factory.CreateThread(i);
      if r.Crashed? {
        return Some(r.cause), created;
      }
      GrowthKeepsCaps(s, factory.kernel.s);
      if r.Good? {
        ThreadPagesAreApart(s, frames, ThreadVaddr(j));
        created := created + 1;
      }
      j := if factory.currentVirtualAddress == ThreadVaddr(j) then j else j + 1;
    }
    NoMoreAttempts(factory.pool.Left(), st, j);
    return None, created;
  }

  /** Of class RootServer, what createThread works on. */
  class RootServer {
    const factory: ObjectFactory
    const table: ThreadTable
    var tcbBadgeCounter: nat      // _tcbBadgeCounter, a seL4_Word

    ghost predicate Valid()
      reads this, table, factory, factory.pt, factory.pool, factory.kernel`s
    {
      && factory.Valid() && table.Valid() && table.kernel == factory.kernel
      && Apart(table.threads, factory.pool.HandedOut(), factory.currentVirtualAddress)
    }

    constructor (factory: ObjectFactory, table: ThreadTable)
      requires factory.Valid() && table.Valid() && table.kernel == factory.kernel && table.threads == []
      ensures Valid() && this.factory == factory && this.table == table && tcbBadgeCounter == 1
    {
      this.factory, this.table, tcbBadgeCounter := factory, table, 1;
    }

    /**
     createThread: the factory makes a thread with the next badge, and the table takes it. How it ends, if it ends, is
     what ServerFate says. An error leaves pages and table as they were. A thread comes with three pages, two slots of
     its own and the badge that was next, and is the last one in the table.
     */
    method CreateThread() returns (r: Outcome<Thread>)
      requires Valid()
      modifies this, factory, factory.pt, factory.pool, factory.kernel, table
      ensures var (fate, left, t) := ServerFate(old(factory.pool.Left()), old(factory.kernel.s).structures,
                                                old(factory.currentVirtualAddress), old(table.View()));
        && Ends(r, (fate, left), factory.pool.Left())
        && (!r.Crashed? ==>
             && table.View() == t
             && factory.currentVirtualAddress
                == old(factory.currentVirtualAddress) + if r.Good? || fate.moved then 3 * PAGE_SIZE else 0)
      ensures !r.Crashed? ==> Valid() && factory.kernel.s.structures == old(factory.kernel.s).structures
      ensures !r.Crashed? ==>
        |factory.kernel.s.mapped| == |old(factory.kernel.s).mapped| + if r.Good? then 3 else 0
      ensures tcbBadgeCounter == (old(tcbBadgeCounter) + 1) % WORD_MOD
      ensures r.Good? ==>
        && r.value.badge == old(tcbBadgeCounter) && r.value.stackAddr == old(factory.currentVirtualAddress)
        && r.value.tcb in factory.pool.HandedOut() - old(factory.pool.HandedOut())
        && r.value.endpoint in factory.pool.HandedOut() - old(factory.pool.HandedOut())
        && r.value.tcb != r.value.endpoint
      ensures r.Good? ==> table.threads == old(table.threads) + [r.value]
      ensures r.Bad? ==> table.threads == old(table.threads)
    {
      hide Sound, SlotsInOrder, Slots, Below, Missing, CreateFate, Grown, IsCount, Up, Down, AddFate, Apart;
      var badge := tcbBadgeCounter;
      tcbBadgeCounter := (tcbBadgeCounter + 1) % WORD_MOD;
      r := MakeThread(badge);
      if r.Good? {
        var cause := table.Add(r.value, factory.pool.Left());
        if cause.Some? {
          return Crashed(cause.value);
        }
      }
    }

    /** The factory's part of createThread, with what the thread will be in the table. */
    method MakeThread(badge: nat) returns (r: Outcome<Thread>)
      requires Valid()
      modifies factory, factory.pt, factory.pool, factory.kernel
      ensures var fate := CreateFate(old(factory.pool.Left()), old(factory.kernel.s).structures,
                                     old(factory.currentVirtualAddress));
        && Ends(r, fate, factory.pool.Left())
        && (!r.Crashed? ==>
             factory.currentVirtualAddress
             == old(factory.currentVirtualAddress) + if r.Good? || fate.0.moved then 3 * PAGE_SIZE else 0)
      ensures !r.Crashed? ==>
        && factory.Valid() && factory.kernel.s.structures == old(factory.kernel.s).structures
        && |factory.kernel.s.mapped| == |old(factory.kernel.s).mapped| + (if r.Good? then 3 else 0)
        && Apart(if r.Good? then table.threads + [r.value] else table.threads,
                 factory.pool.HandedOut(), factory.currentVirtualAddress)
      ensures r.Good? ==>
        && r.value.badge == badge && r.value.stackAddr == old(factory.currentVirtualAddress)
        && r.value.tcb in factory.pool.HandedOut() - old(factory.pool.HandedOut())
        && r.value.endpoint in factory.pool.HandedOut() - old(factory.pool.HandedOut())
        && r.value.tcb != r.value.endpoint
    {
      hide Sound, SlotsInOrder, Slots, Below, Missing, CreateFate, Grown, IsCount, Up, Down;
      hide WithThreadPages, Apart, Fresh;
      ghost var s, vaddr, slots := factory.kernel.s, factory.currentVirtualAddress, factory.pool.HandedOut();
      ghost var frames;
      r, frames := factory.CreateThread(badge);
      if !r.Crashed? {
        GrowthKeepsCaps(s, factory.kernel.s);
      }
      if r.Good? {
        ThreadPagesAreApart(s, frames, vaddr);
        OneThreadMore(table.threads, slots, factory.pool.HandedOut(), vaddr, r.value);
      } else if r.Bad? {
        NoThreadMore(table.threads, slots, factory.pool.HandedOut(), vaddr, factory.currentVirtualAddress);
      }
    }

    /** Where a number of calls has got to: what follows is what foretold was to follow. */
    ghost predicate Underway(all: Tally, st: Structures, k: nat, left: nat, pages: nat, made: nat)
      reads this, table, factory, factory.pt, factory.pool, factory.kernel
    {
      && Valid() && factory.currentVirtualAddress == ThreadVaddr(k) && factory.kernel.s.structures == st
      && (var rest := ServerAttempts(factory.pool.Left(), st, k, table.View(), left);
          all == rest.(created := made + rest.created))
      && |factory.kernel.s.mapped| == pages + 3 * made && |table.threads| == made
    }

    /** The next one of a number of calls. */
    method NextThread(ghost all: Tally, ghost st: Structures, ghost k: nat, ghost left: nat, ghost pages: nat,
                      ghost made: nat)
      returns (r: Outcome<Thread>, ghost k': nat)
      requires left > 0 && Underway(all, st, k, left, pages, made)
      modifies this, factory, factory.pt, factory.pool, factory.kernel, table
      ensures r.Crashed? ==> all.cause == Some(r.cause) && all.created == made
      ensures !r.Crashed? ==> Underway(all, st, k', left - 1, pages, if r.Good? then made + 1 else made)
      ensures tcbBadgeCounter == (old(tcbBadgeCounter) + 1) % WORD_MOD
      ensures r.Good? ==> r.value.badge == old(tcbBadgeCounter) && table.threads == old(table.threads) + [r.value]
      ensures r.Bad? ==> table.threads == old(table.threads)
    {
      hide Sound, SlotsInOrder, Slots, Below, Missing, ServerFate, ServerAttempts, Grown, IsCount, Up, Down, Apart;
      NextServerAttempt(factory.pool.Left(), st, k, table.View(), left);
      ghost var fate := ServerFate(factory.pool.Left(), st, ThreadVaddr(k), table.View());
      r := CreateThread();
      assert Ends(r, (fate.0, fate.1), factory.pool.Left());
      k' := if factory.currentVirtualAddress == ThreadVaddr(k) then k else k + 1;
    }

    /**
     Any number of calls. `created` counts those that gave a thread. The badges of the calls are 1, 2, 3 and so on.
     */
    method CreateThreads(n: nat, ghost k: nat) returns (cause: Option<Cause>, created: nat)
      requires Valid() && factory.currentVirtualAddress == ThreadVaddr(k)
      requires table.threads == [] && tcbBadgeCounter == 1
      modifies this, factory, factory.pt, factory.pool, factory.kernel, table
      ensures var t :=
          ServerAttempts(old(factory.pool.Left()), old(factory.kernel.s).structures, k, old(table.View()), n);
        && cause == t.cause && created == t.created
        && (cause.None? ==> factory.currentVirtualAddress == ThreadVaddr(t.used))
      ensures cause.None? ==> Valid() && factory.kernel.s.structures == old(factory.kernel.s).structures
      ensures cause.None? ==> |factory.kernel.s.mapped| == |old(factory.kernel.s).mapped| + 3 * created
      ensures cause.None? ==> |table.threads| == created
      ensures cause.None? && n < WORD_MOD - 1 ==> Numbered(table.threads, n, tcbBadgeCounter)
    {
      hide Sound, SlotsInOrder, Slots, Below, Missing, ServerAttempts, Grown, IsCount, Up, Down, Apart;
      hide Numbered, Underway, ServerFate;
      created := 0;
      ghost var j, st, pages := k, factory.kernel.s.structures, |factory.kernel.s.mapped|;
      ghost var all := ServerAttempts(factory.pool.Left(), st, k, table.View(), n);
      NothingNumbered();
      Departing(k, n);
      for i := 0 to n
        invariant Underway(all, st, j, n - i, pages, created)
        invariant n < WORD_MOD - 1 ==> tcbBadgeCounter == i + 1 && Numbered(table.threads, i, i + 1)
      {
        ghost var threads := table.threads;
        var r;
        r, j := NextThread(all, st, j, n - i, pages, created);
        if r.Crashed? {
          return Some(r.cause), created;
        }
        if n < WORD_MOD - 1 {
          OneMoreCall(threads, i, i + 1, table.threads);
        }
        if r.Good? {
          created := created + 1;
        }
      }
      Arrived(all, st, j, pages, created);
      return None, created;
    }

    /** PageTable::getMappedPagesCount. */
    method MappedPages() returns (pages: nat)
      requires Valid()
      ensures |factory.kernel.s.mapped| < WORD_MOD ==> pages == |factory.kernel.s.mapped|
    {
      hide Sound, SlotsInOrder, Slots, Below, Up, Down, Apart;
      pages := factory.pt.mappedPages;
    }

    /** The calls of createThread of a root server that has got that far, and the number of mapped pages in the end. */
    method Run(n: nat) returns (cause: Option<Cause>, created: nat, pages: nat)
      requires Valid() && factory.currentVirtualAddress == ThreadVaddr(0)
      requires table.View() == EMPTY_TABLE && table.threads == [] && tcbBadgeCounter == 1
      requires factory.kernel.s.structures == BOOT_STRUCTURES && |factory.kernel.s.mapped| == RESERVED_PAGES
      modifies this, factory, factory.pt, factory.pool, factory.kernel, table
      ensures var t := ServerAttempts(old(factory.pool.Left()), BOOT_STRUCTURES, 0, EMPTY_TABLE, n);
        cause == t.cause && created == t.created
      ensures cause.None? ==> pages == RESERVED_PAGES + 3 * created && |table.threads| == created && Valid()
      ensures cause.None? && n < WORD_MOD - 1 ==> Numbered(table.threads, n, tcbBadgeCounter)
    {
      hide SlotsInOrder, Slots, Sound, Below, Missing, Grown, IsCount, Up, Down, ServerAttempts, Apart, Numbered;
      hide RootServer.Valid, Young, Booted;
      AtMostTen(factory.pool.Left(), n);
      cause, created := CreateThreads(n, 0);
      pages := 0;
      if cause.None? {
        pages := MappedPages();
      }
    }

    lemma Departing(k: nat, n: nat)
      requires Valid() && factory.currentVirtualAddress == ThreadVaddr(k) && table.threads == []
      ensures var st := factory.kernel.s.structures;
        Underway(ServerAttempts(factory.pool.Left(), st, k, table.View(), n), st, k, n, |factory.kernel.s.mapped|, 0)
    {
    }

    lemma Arrived(all: Tally, st: Structures, k: nat, pages: nat, made: nat)
      requires Underway(all, st, k, 0, pages, made)
      ensures all == Tally(made, k, None) && Valid() && factory.currentVirtualAddress == ThreadVaddr(k)
      ensures factory.kernel.s.structures == st
      ensures |factory.kernel.s.mapped| == pages + 3 * made && |table.threads| == made
    {
    }
  }

  /** The members of the root server, before init. */
  method Construct(refuses: nat -> bool, start: nat, end: nat, isDevice: seq<bool>)
    returns (pool: UntypedPool, pt: PageTable, factory: ObjectFactory)
    requires INIT_THREAD_TCB < start <= end
    ensures fresh(pool) && fresh(pt) && fresh(pool.kernel) && fresh(factory)
    ensures factory.pt == pt && factory.pool == pool && pt.pool == pool && factory.kernel == pt.kernel
    ensures pt.Valid() && pt.Counted() && factory.currentVirtualAddress == ThreadVaddr(0)
    ensures pt.kernel.s.mapped == map[] && pt.kernel.s.structures == NO_STRUCTURES
    ensures pool.Left() == Stock(refuses, isDevice, end + 1 - start, 0)
  {
    hide SlotsInOrder, Slots, Sound, IsCount, Up, Down;
    var kernel := new Kernel(refuses);
    NothingIsSound(kernel.s);
    pool := new UntypedPool(kernel, start, end, isDevice);
    pt := new PageTable(pool);
    factory := new ObjectFactory(pool, pt, RESERVED_VADDR + RESERVED_PAGES * PAGE_SIZE);
  }

  /** earlyInit: the reserved pages, and a notification for the lock of kmalloc, whose lack goes unnoticed. */
  method EarlyInit(pt: PageTable) returns (cause: Option<Cause>)
    requires pt.Valid() && pt.Counted() && pt.kernel.s.mapped == map[]
    modifies pt, pt.pool, pt.kernel
    ensures var (foretold, left) := EarlyInitFate(old(pt.pool.Left()), old(pt.kernel.s).structures);
      cause == foretold && (cause.None? ==> pt.pool.Left() == left)
    ensures cause.None? ==> pt.Valid() && pt.Counted() && pt.kernel.s.structures == old(pt.kernel.s).structures
    ensures cause.None? ==> Below(pt.kernel.s.mapped, ThreadVaddr(0)) && |pt.kernel.s.mapped| == RESERVED_PAGES
  {
    hide SlotsInOrder, Slots, Sound, Below, PagesFate, Alloc, Grown, IsCount, Up, Down;
    cause := ReservePages(pt);
    if cause.Some? {
      return;
    }
    ghost var s := pt.kernel.s;
    var notification := pt.pool.AllocObject(NotificationObject);
    if notification.Good? {
      NewCapIsGrowth(s, notification.value, NotificationObject);
    }
  }

  /** The constructor. */
  method Start(refuses: nat -> bool, start: nat, end: nat, isDevice: seq<bool>)
    returns (pool: UntypedPool, pt: PageTable, factory: ObjectFactory, initialised: bool)
    requires INIT_THREAD_TCB < start <= end
    ensures fresh(pool) && fresh(pt) && fresh(pool.kernel) && fresh(factory)
    ensures factory.pt == pt && factory.pool == pool && pt.pool == pool && factory.kernel == pt.kernel == pool.kernel
    ensures initialised == InitFate(Stock(refuses, isDevice, end + 1 - start, 0), 2).0
    ensures initialised ==> pt.Valid() && pt.Counted() && factory.currentVirtualAddress == ThreadVaddr(0)
    ensures initialised ==> pt.kernel.s.mapped == map[] && pt.kernel.s.structures == BOOT_STRUCTURES
    ensures initialised ==> pool.Left() == InitFate(Stock(refuses, isDevice, end + 1 - start, 0), 2).1
  {
    hide SlotsInOrder, Slots, Sound, Missing, InitFate, IsCount, Up, Down;
    pool, pt, factory := Construct(refuses, start, end, isDevice);
    NothingIsThere(pt.kernel.s.structures, ADDRESS_TABLES);
    var r := pt.Init(ADDRESS_TABLES);
    initialised := r.Good?;
  }

  /**
   The root server from its constructor on, with n calls of RootServer::createThread. It comes to what BootFate says;
   and if it gets through, the counter of mapped pages is exact, and the threads in the table share no capability slot,
   no page and no badge; when every call gave a thread, their badges are 1, 2, 3 and so on.
   */
  method Boot(refuses: nat -> bool, start: nat, end: nat, isDevice: seq<bool>, n: nat)
    returns (cause: Option<Cause>, created: nat, pages: nat, threads: seq<Thread>)
    requires INIT_THREAD_TCB < start <= end
    ensures var t := BootFate(Stock(refuses, isDevice, end + 1 - start, 0), n);
      cause == t.cause && created == t.created
    ensures cause.None? ==> pages == RESERVED_PAGES + 3 * created && |threads| == created
    ensures cause.None? ==> exists handedOut, limit: nat :: Apart(threads, handedOut, limit)
    ensures cause.None? && n < WORD_MOD - 1 ==> BadgesInOrder(threads, n + 1)
    ensures cause.None? && n < WORD_MOD - 1 && created == n ==> forall i :: 0 <= i < n ==> threads[i].badge == i + 1
  {
    hide SlotsInOrder, Slots, Sound, Below, Missing, Grown, IsCount, Up, Down, Apart, BadgesInOrder;
    hide InitFate, EarlyInitFate, LateInitFate, ServerAttempts;
    created, pages, threads := 0, 0, [];
    var pool, pt, factory, initialised := Start(refuses, start, end, isDevice);
    if !initialised {
      return Some(NotInitialised), created, pages, threads;
    }
    cause := EarlyInit(pt);
    if cause.Some? {
      return;
    }
    cause := LateInit(pool);
    if cause.Some? {
      return;
    }
    var table := new ThreadTable(pool.kernel);
    assert Apart([], pool.HandedOut(), factory.currentVirtualAddress) by {
      NoThreads(pool.HandedOut(), factory.currentVirtualAddress);
    }
    var server := new RootServer(factory, table);
    cause, created, pages := server.Run(n);
    threads := table.threads;
    assert cause.None? ==> Apart(threads, pool.HandedOut(), factory.currentVirtualAddress);
  }

  lemma AtMostTen(u: Stock, n: nat)
    ensures ServerAttempts(u, BOOT_STRUCTURES, 0, EMPTY_TABLE, n).created <= TABLE_ROOM
  {
    hide ServerAttempts;
    assert Booted(BOOT_STRUCTURES);
    ServerAttemptsAreBounded(u, BOOT_STRUCTURES, 0, EMPTY_TABLE, n);
  }

  lemma NothingIsThere(st: Structures, vaddr: nat)
    requires st == NO_STRUCTURES
    ensures Missing(st, vaddr) == 2
  {
  }

  lemma NothingIsSound(s: Space)
    requires s.mapped == map[] && s.structures == NO_STRUCTURES
    ensures Sound(s)
  {
  }
}
