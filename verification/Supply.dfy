/**
 What becomes of the calls that can fail, as functions of what there is: the answers that the kernel (and the heap,
 which answers `new`) will give to the requests that can be refused, in order, and the capability slots left.
 userland/InitialUntypedPool.cpp, userland/PageTable.cpp, userland/ObjectFactory.cpp and userland/RootServer.cpp
 assert here and return errors there; which of the two happens, and where, is decided by these functions.
 */
module Supply {
  import opened Prelude
  import opened AddressSpace
  import opened Ledger

  /**
   `refuses(i)` says whether request i will be refused; `request` is the number of the next one. `isDevice` is the
   bootinfo's list of untypeds.
   */
  datatype Stock = Stock(refuses: nat -> bool, isDevice: seq<bool>, slots: nat, request: nat)

  /** Why the root server gets no further: an assert that does not hold, a NULL that is used, a lock taken twice. */
  datatype Cause =
    | NoFrame           // mapPage: no frame
    | NoTable           // mapPage: the page table it allocated is not mapped
    | NotImplemented    // mapPage: a structure above the page table is missing
    | NotInitialised    // init
    | NoEndpoint        // lateInit
    | NoSlot            // lateInit, createThread
    | NoIoPort          // lateInit
    | NoBuffer          // Shell::init: kmalloc gave NULL
    | NoMemory          // `new`, or krealloc in a vector, gave NULL, which is then written through
    | LockTakenTwice    // krealloc waits for the lock it holds

  // ---------- requests and objects ----------

  /** Whether the j-th request from now will be granted. */
  predicate Granted(u: Stock, j: nat) {
    !u.refuses(u.request + j)
  }

  function Asked(u: Stock): Stock {
    u.(request := u.request + 1)
  }

  /** The loop of allocObject from untyped i on. */
  function FromUntyped(u: Stock, i: nat): (bool, Stock)
    requires i <= |u.isDevice|
    decreases |u.isDevice| - i
  {
    if i == |u.isDevice| then (false, u)
    else if u.isDevice[i] then FromUntyped(u, i + 1)
    else if Granted(u, 0) then (true, Asked(u))
    else FromUntyped(Asked(u), i + 1)
  }

  /** getFreeSlot. */
  function SlotTaken(u: Stock): Stock
    requires u.slots > 0
  {
    u.(slots := u.slots - 1)
  }

  /** allocObject: whether there is an object, and what is left. A slot is used up either way. */
  function Alloc(u: Stock): (bool, Stock) {
    if u.slots == 0 then (false, u) else FromUntyped(SlotTaken(u), 0)
  }

  /** How many of the untypeds from i on are not device memory. */
  function Ordinary(isDevice: seq<bool>, i: nat): nat
    requires i <= |isDevice|
    decreases |isDevice| - i
  {
    if i == |isDevice| then 0 else Ordinary(isDevice, i + 1) + if isDevice[i] then 0 else 1
  }

  lemma {:induction false} FromUntypedFinds(u: Stock, i: nat)
    requires i <= |u.isDevice|
    ensures FromUntyped(u, i).0 <==> exists j :: 0 <= j < Ordinary(u.isDevice, i) && Granted(u, j)
    ensures var u' := FromUntyped(u, i).1; u' == u.(request := u'.request)
    decreases |u.isDevice| - i
  {
    if i < |u.isDevice| {
      var ordinary := Ordinary(u.isDevice, i);
      if u.isDevice[i] {
        FromUntypedFinds(u, i + 1);
      } else if !Granted(u, 0) {
        FromUntypedFinds(Asked(u), i + 1);
        assert forall j: nat :: Granted(Asked(u), j) == Granted(u, j + 1);
        if j :| 0 <= j < ordinary && Granted(u, j) {
          assert Granted(Asked(u), j - 1);
        }
      }
    }
  }

  /** An allocation succeeds exactly when a slot is left and one of the untypeds that are not devices grants it. */
  lemma AllocSucceeds(u: Stock)
    ensures Alloc(u).0 <==> u.slots > 0 && exists j :: 0 <= j < Ordinary(u.isDevice, 0) && Granted(u, j)
    ensures var u' := Alloc(u).1; u' == u.(slots := Max(u.slots - 1, 0), request := u'.request)
  {
    if u.slots > 0 {
      FromUntypedFinds(SlotTaken(u), 0);
      assert forall j: nat :: Granted(SlotTaken(u), j) == Granted(u, j);
    }
  }

  // ---------- pages ----------

  /** mapPage at an address that lacks a structure of the given level. */
  function PageFate(u: Stock, missing: nat): (Option<Cause>, Stock) {
    var (given, u') := Alloc(u);
    (if !given then Some(NoFrame)
     else if missing == 3 then None
     else if missing == 0 then Some(NoTable)
     else Some(NotImplemented), u')
  }

  /** Pages one after the other, up to the first that cannot be had. */
  function PagesFate(u: Stock, st: Structures, vaddr: nat, pages: nat): (Option<Cause>, Stock)
    decreases pages
  {
    if pages == 0 then (None, u)
    else
      var (cause, u') := PageFate(u, Missing(st, vaddr));
      if cause.Some? then (cause, u') else PagesFate(u', st, vaddr + PAGE_SIZE, pages - 1)
  }

  lemma NextPage(u: Stock, st: Structures, vaddr: nat, pages: nat)
    requires pages > 0
    ensures var (cause, u') := PageFate(u, Missing(st, vaddr));
      PagesFate(u, st, vaddr, pages) ==
        if cause.Some? then (cause, u') else PagesFate(u', st, vaddr + PAGE_SIZE, pages - 1)
  {
  }

  lemma NoMorePages(u: Stock, st: Structures, vaddr: nat)
    ensures PagesFate(u, st, vaddr, 0) == (None, u)
  {
  }

  /** PageTable::init at an address that lacks a structure of the given level: whether its asserts hold. */
  function InitFate(u: Stock, missing: nat): (bool, Stock) {
    var (pdpt, u1) := Alloc(u);
    var (pd, u2) := Alloc(u1);
    var (pt, u3) := Alloc(u2);
    (pd && pt && (missing == 1 || (missing == 2 && pdpt)), u3)
  }

  // ---------- threads ----------

  /** How createThread ends; `moved` says whether the addresses of the pages are used up all the same. */
  datatype Fate = Built | Refused(error: Error, moved: bool) | Fatal(cause: Cause)

  /** A row of requests that stops at the first one refused. */
  function AllGranted(u: Stock, requests: nat): (bool, Stock)
    decreases requests
  {
    if requests == 0 then (true, u)
    else if Granted(u, 0) then AllGranted(Asked(u), requests - 1)
    else (false, Asked(u))
  }

  /** A capability made in a free slot, with an assert on the slot: the endpoint of a thread, and the COM1 port. */
  function MintFate(u: Stock): (Fate, Stock) {
    if u.slots == 0 then (Fatal(NoSlot), u)
    else
      var u' := SlotTaken(u);
      (if Granted(u', 0) then Built else Refused(OtherError, true), Asked(u'))
  }

  /** createThread once it has its pages: three requests on the TCB, the endpoint, and `new` for the shared pointer. */
  function FinishFate(u: Stock): (Fate, Stock) {
    var (granted, u1) := AllGranted(u, 3);
    if !granted then (Refused(OtherError, true), u1)
    else
      var (fate, u2) := MintFate(u1);
      if fate != Built then (fate, u2)
      else (if Granted(u2, 0) then Built else Fatal(NoMemory), Asked(u2))
  }

  /** createThread up to its pages: a TCB, `new`, and a request on the TCB. None: it goes on. */
  function BeginFate(u: Stock): (Option<Fate>, Stock) {
    var (given, u1) := Alloc(u);
    if !given then (Some(Refused(NotEnoughMemory, false)), u1)
    else if !Granted(u1, 0) then (Some(Fatal(NoMemory)), Asked(u1))
    else
      var u2 := Asked(u1);
      (if Granted(u2, 0) then None else Some(Refused(OtherError, false)), Asked(u2))
  }

  /** createThread. */
  function CreateFate(u: Stock, st: Structures, vaddr: nat): (Fate, Stock) {
    var (early, u1) := BeginFate(u);
    if early.Some? then (early.value, u1)
    else
      var (cause, u2) := PagesFate(u1, st, vaddr, 3);
      if cause.Some? then (Fatal(cause.value), u2) else FinishFate(u2)
  }

  // ---------- the thread table ----------

  /** A vector of shared pointers: how many it holds, for how many it thinks it has room, and the bytes it has. */
  datatype Table = Table(size: nat, reservation: nat, bytes: Option<nat>)

  const EMPTY_TABLE: Table := Table(0, 0, None)

  /** sizeof(std::shared_ptr<Thread>). */
  const SHARED_POINTER: nat := 16

  /** The first reservation of a vector. */
  const TABLE_ROOM: nat := 10

  predicate Full(t: Table) {
    t.bytes.None? || t.size >= t.reservation
  }

  /** The reservation that doRealloc asks for. */
  function Wanted(t: Table): nat {
    if t.reservation == 0 then TABLE_ROOM else t.size * 2 % WORD_MOD
  }

  /** push_back: what ends it if it does not return, what is left, and the table afterwards. */
  function AddFate(u: Stock, t: Table): (Option<Cause>, Stock, Table) {
    var one := (t.size + 1) % WORD_MOD;
    if !Full(t) then (None, u, t.(size := one))
    else
      var bytes := Wanted(t) * SHARED_POINTER % WORD_MOD;
      match ReallocRoute(t.bytes, bytes)
      case Waits => (Some(LockTakenTwice), u, t)
      case Null => (Some(NoMemory), u, t)
      case Allocates =>
        (if Granted(u, 0) then None else Some(NoMemory), Asked(u), Table(one, Wanted(t), Some(bytes)))
  }

  // ---------- the root server's address space ----------

  const ADDRESS_TABLES: nat := 0x80_0000_0000
  const RESERVED_VADDR: nat := 0x80_0000_1000
  const RESERVED_PAGES: nat := 10

  /** Where the pages of the k-th attempt to create a thread go, when all attempts before it got as far. */
  function ThreadVaddr(k: nat): nat {
    RESERVED_VADDR + RESERVED_PAGES * PAGE_SIZE + k * 3 * PAGE_SIZE
  }

  /** The threads for which the one page table of the boot code has room. */
  const MAX_THREADS: nat := 167

  /** The paging structures of PageTable::init at ADDRESS_TABLES, and no other page table. */
  ghost predicate Booted(st: Structures) {
    Missing(st, ADDRESS_TABLES) == 3 && st.tables == {TableOf(ADDRESS_TABLES)}
  }

  /** In the gigabyte of the boot code's page directory nothing but a page table is ever missing. */
  lemma OnlyTablesAreMissing(st: Structures, vaddr: nat)
    requires Booted(st) && ADDRESS_TABLES <= vaddr < 0x80_4000_0000
    ensures Missing(st, vaddr) == if vaddr < ADDRESS_TABLES + REGION then 3 else 0
  {
    assert PdptOf(vaddr) == PdptOf(ADDRESS_TABLES) && DirectoryOf(vaddr) == DirectoryOf(ADDRESS_TABLES);
  }

  predicate HasRoom(st: Structures, vaddr: nat) {
    Missing(st, vaddr) == 3 && Missing(st, vaddr + PAGE_SIZE) == 3 && Missing(st, vaddr + 2 * PAGE_SIZE) == 3
  }

  /** The page table holds the reserved pages and the pages of 167 threads, to the last entry. */
  lemma RoomFor167Threads(st: Structures, k: nat)
    requires Booted(st)
    ensures HasRoom(st, ThreadVaddr(k)) <==> k < MAX_THREADS
    ensures k == MAX_THREADS ==> Missing(st, ThreadVaddr(k)) == 0
  {
    var v := ThreadVaddr(k);
    assert TableOf(ADDRESS_TABLES) == 0x4_0000;
    assert TableOf(v) == 0x4_0000 <==> v < ADDRESS_TABLES + REGION;
    if k <= MAX_THREADS {
      OnlyTablesAreMissing(st, v);
    }
    if k < MAX_THREADS {
      OnlyTablesAreMissing(st, v + PAGE_SIZE);
      OnlyTablesAreMissing(st, v + 2 * PAGE_SIZE);
    }
  }

  // ---------- runs ----------

  /** What a number of attempts come to: calls that gave a thread, rows of addresses used, and what ended the run. */
  datatype Tally = Tally(created: nat, used: nat, cause: Option<Cause>)

  /** Calls of ObjectFactory::createThread, after others that have used up the addresses of k threads. */
  function Attempts(u: Stock, st: Structures, k: nat, attempts: nat): Tally
    decreases attempts
  {
    if attempts == 0 then Tally(0, k, None)
    else
      var (fate, u') := CreateFate(u, st, ThreadVaddr(k));
      match fate
      case Fatal(cause) => Tally(0, k, Some(cause))
      case Refused(_, moved) => Attempts(u', st, if moved then k + 1 else k, attempts - 1)
      case Built =>
        var rest := Attempts(u', st, k + 1, attempts - 1);
        rest.(created := rest.created + 1)
  }

  lemma NextAttempt(u: Stock, st: Structures, k: nat, attempts: nat)
    requires attempts > 0
    ensures var (fate, u') := CreateFate(u, st, ThreadVaddr(k));
      && (fate.Fatal? ==> Attempts(u, st, k, attempts) == Tally(0, k, Some(fate.cause)))
      && (fate.Refused? ==>
           Attempts(u, st, k, attempts) == Attempts(u', st, if fate.moved then k + 1 else k, attempts - 1))
      && (fate.Built? ==>
           var rest := Attempts(u', st, k + 1, attempts - 1);
           Attempts(u, st, k, attempts) == rest.(created := rest.created + 1))
  {
  }

  lemma NoMoreAttempts(u: Stock, st: Structures, k: nat)
    ensures Attempts(u, st, k, 0) == Tally(0, k, None)
  {
  }

  /** RootServer::createThread, which puts every thread into the table. */
  function ServerFate(u: Stock, st: Structures, vaddr: nat, t: Table): (Fate, Stock, Table) {
    var (fate, u') := CreateFate(u, st, vaddr);
    if fate != Built then (fate, u', t)
    else
      var (cause, u'', t') := AddFate(u', t);
      (if cause.Some? then Fatal(cause.value) else Built, u'', t')
  }

  /** Calls of RootServer::createThread. */
  function ServerAttempts(u: Stock, st: Structures, k: nat, t: Table, attempts: nat): Tally
    decreases attempts
  {
    if attempts == 0 then Tally(0, k, None)
    else
      var (fate, u', t') := ServerFate(u, st, ThreadVaddr(k), t);
      match fate
      case Fatal(cause) => Tally(0, k, Some(cause))
      case Refused(_, moved) => ServerAttempts(u', st, if moved then k + 1 else k, t', attempts - 1)
      case Built =>
        var rest := ServerAttempts(u', st, k + 1, t', attempts - 1);
        rest.(created := rest.created + 1)
  }

  lemma NextServerAttempt(u: Stock, st: Structures, k: nat, t: Table, attempts: nat)
    requires attempts > 0
    ensures var (fate, u', t') := ServerFate(u, st, ThreadVaddr(k), t);
      var all := ServerAttempts(u, st, k, t, attempts);
      && (fate.Fatal? ==> all == Tally(0, k, Some(fate.cause)))
      && (fate.Refused? ==> all == ServerAttempts(u', st, if fate.moved then k + 1 else k, t', attempts - 1))
      && (fate.Built? ==>
           var rest := ServerAttempts(u', st, k + 1, t', attempts - 1);
           all == rest.(created := rest.created + 1))
  {
  }

  lemma NoMoreServerAttempts(u: Stock, st: Structures, k: nat, t: Table)
    ensures ServerAttempts(u, st, k, t, 0) == Tally(0, k, None)
  {
  }

  /** lateInit: the endpoint for system calls, the COM1 port in a slot, a slot for its interrupt, the shell's buffer. */
  function LateInitFate(u: Stock): (Option<Cause>, Stock) {
    var (endpoint, u1) := Alloc(u);
    if !endpoint then (Some(NoEndpoint), u1)
    else
      var (port, u2) := MintFate(u1);
      match port
      case Fatal(cause) => (Some(cause), u2)
      case Refused(_, _) => (Some(NoIoPort), u2)
      case Built =>
        if u2.slots == 0 then (Some(NoSlot), u2)
        else
          var u3 := SlotTaken(u2);
          (if Granted(u3, 0) then None else Some(NoBuffer), Asked(u3))
  }

  /** earlyInit: the reserved pages, and a notification that may be missing. */
  function EarlyInitFate(u: Stock, st: Structures): (Option<Cause>, Stock) {
    var (cause, u') := PagesFate(u, st, RESERVED_VADDR, RESERVED_PAGES);
    (cause, if cause.Some? then u' else Alloc(u').1)
  }

  /** The structures that init leaves at boot. */
  const BOOT_STRUCTURES: Structures :=
    Structures({PdptOf(ADDRESS_TABLES)}, {DirectoryOf(ADDRESS_TABLES)}, {TableOf(ADDRESS_TABLES)})

  /** The root server from its constructor on: init, the reserved pages, the lock's notification, lateInit, threads. */
  function BootFate(u: Stock, attempts: nat): Tally {
    var (initialised, u1) := InitFate(u, 2);
    if !initialised then Tally(0, 0, Some(NotInitialised))
    else
      var (early, u2) := EarlyInitFate(u1, BOOT_STRUCTURES);
      if early.Some? then Tally(0, 0, early)
      else
        var (late, u3) := LateInitFate(u2);
        if late.Some? then Tally(0, 0, late)
        else ServerAttempts(u3, BOOT_STRUCTURES, 0, EMPTY_TABLE, attempts)
  }

  // ---------- for every pattern of refusals ----------

  /** Pages in the boot code's gigabyte never run into the branch that is not implemented. */
  lemma {:induction false} PagesFateCause(u: Stock, st: Structures, vaddr: nat, pages: nat)
    requires Booted(st) && ADDRESS_TABLES <= vaddr && vaddr + pages * PAGE_SIZE <= 0x80_4000_0000
    ensures var (cause, _) := PagesFate(u, st, vaddr, pages);
      && (cause.Some? ==> cause.value == NoFrame || cause.value == NoTable)
      && (vaddr + pages * PAGE_SIZE <= ADDRESS_TABLES + REGION ==> cause != Some(NoTable))
    decreases pages
  {
    if pages > 0 {
      OnlyTablesAreMissing(st, vaddr);
      var (cause, u') := PageFate(u, Missing(st, vaddr));
      if cause.None? {
        PagesFateCause(u', st, vaddr + PAGE_SIZE, pages - 1);
      }
    }
  }

  /** The k-th attempt builds a thread or uses up addresses only when there is room for it in the page table. */
  lemma CreateFateCause(u: Stock, st: Structures, k: nat)
    requires Booted(st) && k <= MAX_THREADS
    ensures var fate := CreateFate(u, st, ThreadVaddr(k)).0;
      && (fate.Fatal? ==> fate.cause in {NoFrame, NoTable, NoSlot, NoMemory})
      && (fate == Fatal(NoTable) ==> k == MAX_THREADS)
      && (fate.Built? || (fate.Refused? && fate.moved) ==> k < MAX_THREADS)
  {
    BeginFateCause(u);
    hide Booted, FinishFate, BeginFate;
    var u1 := BeginFate(u).1;
    FinishFateCause(PagesFate(u1, st, ThreadVaddr(k), 3).1);
    PagesFateCause(u1, st, ThreadVaddr(k), 3);
    RoomFor167Threads(st, k);
  }

  lemma BeginFateCause(u: Stock)
    ensures match BeginFate(u).0
      case None => true
      case Some(fate) => fate == Fatal(NoMemory) || (fate.Refused? && !fate.moved)
  {
  }

  lemma FinishFateCause(u: Stock)
    ensures var fate := FinishFate(u).0;
      (fate.Fatal? ==> fate.cause == NoSlot || fate.cause == NoMemory) && (fate.Refused? ==> fate.moved)
  {
  }

  /** However many attempts: at most 167 threads, and the missing table ends it only when all 167 rows are used up. */
  lemma {:induction false} AttemptsAreBounded(u: Stock, st: Structures, k: nat, attempts: nat)
    requires Booted(st) && k <= MAX_THREADS
    ensures var t := Attempts(u, st, k, attempts);
      && t.created <= attempts && k + t.created <= t.used <= MAX_THREADS
      && (t.cause.Some? ==> t.cause.value in {NoFrame, NoTable, NoSlot, NoMemory})
      && (t.cause == Some(NoTable) ==> t.used == MAX_THREADS)
    decreases attempts
  {
    hide CreateFate, Attempts, Booted, ThreadVaddr;
    if attempts == 0 {
      NoMoreAttempts(u, st, k);
    } else {
      NextAttempt(u, st, k, attempts);
      CreateFateCause(u, st, k);
      var (fate, u') := CreateFate(u, st, ThreadVaddr(k));
      match fate
      case Fatal(_) =>
      case Refused(_, moved) => AttemptsAreBounded(u', st, if moved then k + 1 else k, attempts - 1);
      case Built => AttemptsAreBounded(u', st, k + 1, attempts - 1);
    }
  }

  /** A table that has never grown a second time. */
  predicate Young(t: Table) {
    || t == EMPTY_TABLE
    || (t.bytes == Some(TABLE_ROOM * SHARED_POINTER) && t.reservation == TABLE_ROOM && t.size <= TABLE_ROOM)
  }

  /** A young table takes ten threads; with the eleventh its krealloc waits for its own lock. */
  lemma AddToYoung(u: Stock, t: Table)
    requires Young(t)
    ensures var (cause, u', t') := AddFate(u, t);
      && (cause == Some(LockTakenTwice) <==> t.size == TABLE_ROOM)
      && (cause.Some? ==> cause.value == LockTakenTwice || (cause.value == NoMemory && t.size == 0))
      && (cause.None? ==> Young(t') && t'.size == t.size + 1)
  {
  }

  lemma ServerFateCause(u: Stock, st: Structures, k: nat, t: Table)
    requires Booted(st) && k <= MAX_THREADS && Young(t)
    ensures var (fate, u', t') := ServerFate(u, st, ThreadVaddr(k), t);
      && (!fate.Fatal? ==> Young(t') && t'.size == t.size + if fate.Built? then 1 else 0)
      && (fate.Fatal? ==> fate.cause in {NoFrame, NoTable, NoSlot, NoMemory, LockTakenTwice})
      && (fate == Fatal(LockTakenTwice) ==> t.size == TABLE_ROOM)
      && (fate == Fatal(NoTable) ==> k == MAX_THREADS)
      && (fate.Built? || (fate.Refused? && fate.moved) ==> k < MAX_THREADS)
  {
    hide CreateFate, Booted, ThreadVaddr, AddFate, Young;
    CreateFateCause(u, st, k);
    AddToYoung(CreateFate(u, st, ThreadVaddr(k)).1, t);
  }

  /**
   However many calls of RootServer::createThread and whatever is refused: at most ten give a thread. The lock is
   taken twice only after ten, and a missing page table needs all 167 rows used up.
   */
  lemma {:induction false} ServerAttemptsAreBounded(u: Stock, st: Structures, k: nat, t: Table, attempts: nat)
    requires Booted(st) && k <= MAX_THREADS && Young(t)
    ensures var all := ServerAttempts(u, st, k, t, attempts);
      && all.created <= attempts && t.size + all.created <= TABLE_ROOM && k + all.created <= all.used <= MAX_THREADS
      && (all.cause.Some? ==> all.cause.value in {NoFrame, NoTable, NoSlot, NoMemory, LockTakenTwice})
      && (all.cause == Some(LockTakenTwice) ==> t.size + all.created == TABLE_ROOM)
      && (all.cause == Some(NoTable) ==> all.used == MAX_THREADS)
    decreases attempts
  {
    hide ServerFate, ServerAttempts, Booted, ThreadVaddr, Young;
    YoungIsSmall(t);
    if attempts == 0 {
      NoMoreServerAttempts(u, st, k, t);
    } else {
      NextServerAttempt(u, st, k, t, attempts);
      ServerFateCause(u, st, k, t);
      var (fate, u', t') := ServerFate(u, st, ThreadVaddr(k), t);
      match fate
      case Fatal(_) =>
      case Refused(_, moved) => ServerAttemptsAreBounded(u', st, if moved then k + 1 else k, t', attempts - 1);
      case Built => ServerAttemptsAreBounded(u', st, k + 1, t', attempts - 1);
    }
  }

  lemma YoungIsSmall(t: Table)
    requires Young(t)
    ensures t.size <= TABLE_ROOM
  {
  }

  /** From the constructor on, the branch not implemented is never taken, and at most ten calls give a thread. */
  lemma BootNeverMeetsNotImplemented(u: Stock, attempts: nat)
    ensures var t := BootFate(u, attempts);
      && t.cause != Some(NotImplemented) && t.created <= TABLE_ROOM
      && (t.cause == Some(LockTakenTwice) ==> t.created == TABLE_ROOM)
      && (t.cause == Some(NoTable) ==> t.used == MAX_THREADS)
  {
    hide Alloc, ServerAttempts, PagesFate, InitFate;
    assert Booted(BOOT_STRUCTURES);
    var (initialised, u1) := InitFate(u, 2);
    PagesFateCause(u1, BOOT_STRUCTURES, RESERVED_VADDR, RESERVED_PAGES);
    var (early, u2) := EarlyInitFate(u1, BOOT_STRUCTURES);
    ServerAttemptsAreBounded(LateInitFate(u2).1, BOOT_STRUCTURES, 0, EMPTY_TABLE, attempts);
  }

  // ---------- when nothing is refused ----------

  /** No request will be refused, there is memory that is no device, and n slots are left. */
  ghost predicate Plentiful(u: Stock, n: nat) {
    (forall j: nat :: Granted(u, j)) && Ordinary(u.isDevice, 0) > 0 && u.slots >= n
  }

  lemma PlentifulRequest(u: Stock, n: nat)
    requires Plentiful(u, n)
    ensures Granted(u, 0) && Plentiful(Asked(u), n)
    ensures n > 0 ==> Plentiful(SlotTaken(u), n - 1)
  {
    forall j: nat ensures Granted(Asked(u), j) {
      assert Granted(u, j + 1);
    }
    if n > 0 {
      forall j: nat ensures Granted(SlotTaken(u), j) {
        assert Granted(u, j);
      }
    }
  }

  lemma PlentifulAlloc(u: Stock, n: nat)
    requires Plentiful(u, n) && n > 0
    ensures Alloc(u).0 && Plentiful(Alloc(u).1, n - 1)
  {
    AllocSucceeds(u);
    assert Granted(u, 0);
    var u' := Alloc(u).1;
    RequestsGoForward(SlotTaken(u), 0);
    forall j: nat ensures Granted(u', j) {
      assert Granted(u, u'.request + j - u.request);
    }
  }

  lemma {:induction false} RequestsGoForward(u: Stock, i: nat)
    requires i <= |u.isDevice|
    ensures FromUntyped(u, i).1.request >= u.request
    decreases |u.isDevice| - i
  {
    if i < |u.isDevice| {
      RequestsGoForward(u, i + 1);
      RequestsGoForward(Asked(u), i + 1);
    }
  }

  lemma {:induction false} PlentifulPages(u: Stock, st: Structures, vaddr: nat, pages: nat, n: nat)
    requires Booted(st) && ADDRESS_TABLES <= vaddr && vaddr + pages * PAGE_SIZE <= ADDRESS_TABLES + REGION
    requires Plentiful(u, n) && pages <= n
    ensures var (cause, u') := PagesFate(u, st, vaddr, pages); cause.None? && Plentiful(u', n - pages)
    decreases pages
  {
    if pages > 0 {
      hide Alloc, Plentiful;
      PlentifulAlloc(u, n);
      OnlyTablesAreMissing(st, vaddr);
      PlentifulPages(Alloc(u).1, st, vaddr + PAGE_SIZE, pages - 1, n - 1);
    }
  }

  lemma {:induction false} PlentifulRequests(u: Stock, n: nat, requests: nat)
    requires Plentiful(u, n)
    ensures AllGranted(u, requests).0 && Plentiful(AllGranted(u, requests).1, n)
    decreases requests
  {
    if requests > 0 {
      PlentifulRequest(u, n);
      PlentifulRequests(Asked(u), n, requests - 1);
    }
  }

  lemma PlentifulFinish(u: Stock, n: nat)
    requires Plentiful(u, n) && n > 0
    ensures FinishFate(u).0 == Built && Plentiful(FinishFate(u).1, n - 1)
  {
    hide Plentiful;
    PlentifulRequests(u, n, 3);
    var u' := AllGranted(u, 3).1;
    assert u'.slots > 0 by {
      PlentifulSlots(u', n);
    }
    PlentifulRequest(u', n);
    PlentifulRequest(SlotTaken(u'), n - 1);
    PlentifulRequest(Asked(SlotTaken(u')), n - 1);
  }

  lemma PlentifulSlots(u: Stock, n: nat)
    requires Plentiful(u, n)
    ensures u.slots >= n
  {
  }

  /** With nothing refused, an attempt builds a thread as long as there is room, and the next one is fatal. */
  lemma PlentifulAttempt(u: Stock, st: Structures, k: nat, n: nat)
    requires Booted(st) && k <= MAX_THREADS && Plentiful(u, n + 5)
    ensures var (fate, u') := CreateFate(u, st, ThreadVaddr(k));
      if k < MAX_THREADS then fate == Built && Plentiful(u', n) else fate == Fatal(NoTable)
  {
    hide Plentiful, Booted, Alloc, FinishFate, PagesFate;
    PlentifulAlloc(u, n + 5);
    var u1 := Alloc(u).1;
    PlentifulRequest(u1, n + 4);
    PlentifulRequest(Asked(u1), n + 4);
    var u3 := Asked(Asked(u1));
    if k < MAX_THREADS {
      PlentifulPages(u3, st, ThreadVaddr(k), 3, n + 4);
      PlentifulFinish(PagesFate(u3, st, ThreadVaddr(k), 3).1, n + 1);
    } else {
      NoTableFor168th(u3, st, n + 4);
    }
  }

  lemma NoTableFor168th(u: Stock, st: Structures, n: nat)
    requires Booted(st) && Plentiful(u, n) && n > 0
    ensures PagesFate(u, st, ThreadVaddr(MAX_THREADS), 3).0 == Some(NoTable)
  {
    hide Plentiful, Booted, Alloc;
    RoomFor167Threads(st, MAX_THREADS);
    PlentifulAlloc(u, n);
  }

  /** With nothing refused, all attempts succeed while there is room; the run ends exactly at the one after that. */
  lemma {:induction false} PlentifulAttempts(u: Stock, st: Structures, k: nat, attempts: nat)
    requires Booted(st) && k <= MAX_THREADS && Plentiful(u, 5 * attempts)
    ensures var t := Attempts(u, st, k, attempts);
      && t.created == Min(attempts, MAX_THREADS - k)
      && t.cause == if attempts <= MAX_THREADS - k then None else Some(NoTable)
    decreases attempts
  {
    hide Plentiful, Booted, CreateFate, Attempts, ThreadVaddr;
    if attempts == 0 {
      NoMoreAttempts(u, st, k);
    } else {
      NextAttempt(u, st, k, attempts);
      var n := 5 * (attempts - 1);
      assert n + 5 == 5 * attempts;
      PlentifulAttempt(u, st, k, n);
      if k < MAX_THREADS {
        PlentifulAttempts(CreateFate(u, st, ThreadVaddr(k)).1, st, k + 1, attempts - 1);
      }
    }
  }

  lemma PlentifulAdd(u: Stock, t: Table, n: nat)
    requires Plentiful(u, n) && Young(t)
    ensures var (cause, u', t') := AddFate(u, t);
      if t.size == TABLE_ROOM then cause == Some(LockTakenTwice)
      else cause == None && Plentiful(u', n) && Young(t') && t'.size == t.size + 1
  {
    AddToYoung(u, t);
    PlentifulRequest(u, n);
    hide Plentiful;
  }

  /** With nothing refused, RootServer::createThread returns while the table has room; the next call never does. */
  lemma {:induction false} PlentifulServerAttempts(u: Stock, st: Structures, k: nat, t: Table, attempts: nat)
    requires Booted(st) && Young(t) && k == t.size && Plentiful(u, 5 * attempts)
    ensures var all := ServerAttempts(u, st, k, t, attempts);
      && all.created == Min(attempts, TABLE_ROOM - t.size)
      && all.cause == if attempts <= TABLE_ROOM - t.size then None else Some(LockTakenTwice)
    decreases attempts
  {
    hide Plentiful, Booted, ServerFate, ServerAttempts, ThreadVaddr, Young;
    YoungIsSmall(t);
    if attempts == 0 {
      NoMoreServerAttempts(u, st, k, t);
    } else {
      NextServerAttempt(u, st, k, t, attempts);
      var n := 5 * (attempts - 1);
      assert n + 5 == 5 * attempts;
      PlentifulServerAttempt(u, st, t, n);
      if t.size < TABLE_ROOM {
        var (_, u', t') := ServerFate(u, st, ThreadVaddr(k), t);
        PlentifulServerAttempts(u', st, k + 1, t', attempts - 1);
      }
    }
  }

  lemma PlentifulServerAttempt(u: Stock, st: Structures, t: Table, n: nat)
    requires Booted(st) && Young(t) && Plentiful(u, n + 5)
    ensures var (fate, u', t') := ServerFate(u, st, ThreadVaddr(t.size), t);
      if t.size == TABLE_ROOM then fate == Fatal(LockTakenTwice)
      else fate == Built && Plentiful(u', n) && Young(t') && t'.size == t.size + 1
  {
    hide Plentiful, Booted, CreateFate, ThreadVaddr, Young, AddFate;
    YoungIsSmall(t);
    PlentifulAttempt(u, st, t.size, n);
    PlentifulAdd(CreateFate(u, st, ThreadVaddr(t.size)).1, t, n);
  }

  /** The slots that boot takes before the first thread. */
  const BOOT_SLOTS: nat := 17

  /**
   From the constructor on, with nothing refused and slots enough: the first ten calls of RootServer::createThread
   give a thread each, and the run gets no further if and only if there is an eleventh.
   */
  lemma PlentifulBoot(u: Stock, attempts: nat)
    requires Plentiful(u, BOOT_SLOTS + 5 * attempts)
    ensures var t := BootFate(u, attempts);
      && t.created == Min(attempts, TABLE_ROOM)
      && t.cause == if attempts <= TABLE_ROOM then None else Some(LockTakenTwice)
  {
    hide Plentiful, Alloc, PagesFate, ServerAttempts, LateInitFate;
    var n := BOOT_SLOTS + 5 * attempts;
    PlentifulAlloc(u, n);
    PlentifulAlloc(Alloc(u).1, n - 1);
    PlentifulAlloc(Alloc(Alloc(u).1).1, n - 2);
    var u1 := InitFate(u, 2).1;
    assert Booted(BOOT_STRUCTURES);
    PlentifulPages(u1, BOOT_STRUCTURES, RESERVED_VADDR, RESERVED_PAGES, n - 3);
    var u2 := PagesFate(u1, BOOT_STRUCTURES, RESERVED_VADDR, RESERVED_PAGES).1;
    PlentifulAlloc(u2, n - 13);
    PlentifulLateInit(Alloc(u2).1, n - 14);
    PlentifulServerAttempts(LateInitFate(Alloc(u2).1).1, BOOT_STRUCTURES, 0, EMPTY_TABLE, attempts);
  }

  lemma PlentifulLateInit(u: Stock, n: nat)
    requires Plentiful(u, n) && n >= 3
    ensures LateInitFate(u).0.None? && Plentiful(LateInitFate(u).1, n - 3)
  {
    hide Plentiful, Alloc;
    PlentifulAlloc(u, n);
    var u1 := Alloc(u).1;
    PlentifulSlots(u1, n - 1);
    PlentifulRequest(u1, n - 1);
    PlentifulSlots(SlotTaken(u1), n - 2);
    PlentifulRequest(SlotTaken(u1), n - 2);
    PlentifulSlots(Asked(SlotTaken(u1)), n - 2);
    PlentifulRequest(Asked(SlotTaken(u1)), n - 2);
    PlentifulRequest(SlotTaken(Asked(SlotTaken(u1))), n - 3);
  }

  // ---------- when one request is refused ----------

  /** The stock after a number of requests and slots. */
  function Later(u: Stock, requests: nat, slots: nat): Stock
    requires slots <= u.slots
  {
    u.(request := u.request + requests, slots := u.slots - slots)
  }

  lemma OneUntyped(u: Stock, requests: nat, slots: nat)
    requires u.isDevice == [false] && slots < u.slots
    ensures Alloc(Later(u, requests, slots)) == (Granted(u, requests), Later(u, requests + 1, slots + 1))
  {
    var v := SlotTaken(Later(u, requests, slots));
    assert FromUntyped(Asked(v), 1) == (false, Asked(v));
  }

  /** What the refusal of request r, all before it being granted, makes of createThread. */
  function FateOfRefusal(r: nat): Fate {
    if r == 0 then Refused(NotEnoughMemory, false)        // the TCB
    else if r == 1 then Fatal(NoMemory)                   // new Thread
    else if r == 2 then Refused(OtherError, false)        // seL4_TCB_SetSpace
    else if r <= 5 then Fatal(NoFrame)                    // stack, thread-local storage, IPC buffer
    else if r <= 8 then Refused(OtherError, true)         // seL4_TCB_SetTLSBase, seL4_TCB_SetIPCBuffer, setPriority
    else if r == 9 then Refused(OtherError, true)         // seL4_CNode_Mint
    else Fatal(NoMemory)                                  // the count of the shared pointer
  }

  lemma PagesByRefusal(u: Stock, st: Structures, vaddr: nat)
    requires u.isDevice == [false] && u.slots >= 5 && HasRoom(st, vaddr)
    ensures var (cause, u') := PagesFate(Later(u, 3, 1), st, vaddr, 3);
      && (Granted(u, 3) && Granted(u, 4) && Granted(u, 5) ==> cause == None && u' == Later(u, 6, 4))
      && (!(Granted(u, 3) && Granted(u, 4) && Granted(u, 5)) ==> cause == Some(NoFrame))
  {
    hide Alloc, Granted, Missing, PagesFate;
    OneUntyped(u, 3, 1);
    OneUntyped(u, 4, 2);
    OneUntyped(u, 5, 3);
    NextPage(Later(u, 3, 1), st, vaddr, 3);
    NextPage(Later(u, 4, 2), st, vaddr + PAGE_SIZE, 2);
    NextPage(Later(u, 5, 3), st, vaddr + 2 * PAGE_SIZE, 1);
    NoMorePages(Later(u, 6, 4), st, vaddr + 3 * PAGE_SIZE);
  }

  lemma FinishByRefusal(u: Stock, r: nat)
    requires u.slots >= 5 && 6 <= r <= 11
    requires (forall j :: 6 <= j < r ==> Granted(u, j)) && (r < 11 ==> !Granted(u, r))
    ensures FinishFate(Later(u, 6, 4)).0 == if r == 11 then Built else FateOfRefusal(r)
  {
    hide Granted;
    var v := Later(u, 6, 4);
    LaterGrants(u, 6, 4, 0);
    LaterGrants(u, 7, 4, 0);
    LaterGrants(u, 8, 4, 0);
    LaterGrants(u, 9, 5, 0);
    LaterGrants(u, 10, 5, 0);
    assert AllGranted(v, 3) ==
      if !Granted(u, 6) then (false, Later(u, 7, 4))
      else if !Granted(u, 7) then (false, Later(u, 8, 4))
      else if !Granted(u, 8) then (false, Later(u, 9, 4))
      else (true, Later(u, 9, 4));
  }

  lemma LaterGrants(u: Stock, requests: nat, slots: nat, j: nat)
    requires slots <= u.slots
    ensures Granted(Later(u, requests, slots), j) == Granted(u, requests + j)
  {
  }

  /**
   With one untyped, room for the pages and slots enough, createThread makes eleven requests, and builds the thread if
   and only if all are granted; otherwise the first one refused decides how it ends.
   */
  lemma CreateByRefusal(u: Stock, st: Structures, vaddr: nat, r: nat)
    requires u.isDevice == [false] && u.slots >= 5 && HasRoom(st, vaddr) && r <= 11
    requires (forall j :: 0 <= j < r ==> Granted(u, j)) && (r < 11 ==> !Granted(u, r))
    ensures CreateFate(u, st, vaddr).0 == if r == 11 then Built else FateOfRefusal(r)
  {
    hide Granted, Alloc, PagesFate, FinishFate, HasRoom;
    assert Later(u, 0, 0) == u;
    OneUntyped(u, 0, 0);
    LaterGrants(u, 1, 1, 0);
    LaterGrants(u, 2, 1, 0);
    PagesByRefusal(u, st, vaddr);
    if r >= 6 {
      FinishByRefusal(u, r);
    }
  }
}
