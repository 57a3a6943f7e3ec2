/**
 The address space of the root server as the kernel keeps it: capabilities, paging structures and mapped frames,
 and when the kernel's mapping calls succeed.
 */
module AddressSpace {
  import opened Prelude

  const PAGE_SIZE: nat := 4096
  const REGION: nat := 0x20_0000        // what one page table maps
  const DIRECTORY: nat := 0x4000_0000   // what one page directory maps
  const PDPT: nat := 0x80_0000_0000     // what one page directory pointer table maps

  const INIT_THREAD_TCB: nat := 1       // seL4_CapInitThreadTCB

  datatype Kind =
    | Tcb | Frame | PageTableObject | DirectoryObject | PdptObject | EndpointObject | NotificationObject | IoPort

  datatype Error = NoError | NotEnoughMemory | FailedLookup | OtherError

  // ---------- paging structures ----------

  /** The regions that have each of the three structures. */
  datatype Structures = Structures(pdpts: set<nat>, directories: set<nat>, tables: set<nat>)

  const NO_STRUCTURES: Structures := Structures({}, {}, {})

  function TableOf(vaddr: nat): nat {
    vaddr / REGION
  }

  function DirectoryOf(vaddr: nat): nat {
    vaddr / DIRECTORY
  }

  function PdptOf(vaddr: nat): nat {
    vaddr / PDPT
  }

  /** Which paging structure an address lacks, as getLevel numbers them; 3 when it lacks none. */
  function Missing(st: Structures, vaddr: nat): (level: nat)
    ensures level <= 3
  {
    if PdptOf(vaddr) !in st.pdpts then 2
    else if DirectoryOf(vaddr) !in st.directories then 1
    else if TableOf(vaddr) !in st.tables then 0
    else 3
  }

  /** The level at which a paging structure goes. */
  function LevelOf(kind: Kind): nat {
    if kind == PdptObject then 2 else if kind == DirectoryObject then 1 else 0
  }

  function WithStructure(st: Structures, kind: Kind, vaddr: nat): Structures {
    if kind == PdptObject then st.(pdpts := st.pdpts + {PdptOf(vaddr)})
    else if kind == DirectoryObject then st.(directories := st.directories + {DirectoryOf(vaddr)})
    else st.(tables := st.tables + {TableOf(vaddr)})
  }

  /** Structures hang in those of the level above. */
  ghost predicate Nested(st: Structures) {
    && (forall v: nat :: TableOf(v) in st.tables ==> DirectoryOf(v) in st.directories)
    && (forall v: nat :: DirectoryOf(v) in st.directories ==> PdptOf(v) in st.pdpts)
  }

  lemma SameTableSameDirectory(v: nat, w: nat)
    ensures TableOf(v) == TableOf(w) ==> DirectoryOf(v) == DirectoryOf(w)
    ensures DirectoryOf(v) == DirectoryOf(w) ==> PdptOf(v) == PdptOf(w)
  {
    assert forall x: nat :: DirectoryOf(x) == TableOf(x) / 512 && PdptOf(x) == DirectoryOf(x) / 512;
  }

  /** A structure that goes where the address lacks one: the address then lacks only lower ones, and all stay nested. */
  lemma StructureFits(st: Structures, kind: Kind, vaddr: nat)
    requires Nested(st) && kind in {PdptObject, DirectoryObject, PageTableObject} && Missing(st, vaddr) == LevelOf(kind)
    ensures var st' := WithStructure(st, kind, vaddr);
      && Nested(st')
      && Missing(st', vaddr) == (if kind == PageTableObject then 3 else LevelOf(kind) - 1)
      && forall v: nat :: Missing(st, v) == 3 ==> Missing(st', v) == 3
  {
    var st' := WithStructure(st, kind, vaddr);
    forall v: nat ensures TableOf(v) in st'.tables ==> DirectoryOf(v) in st'.directories {
      SameTableSameDirectory(v, vaddr);
    }
    forall v: nat ensures DirectoryOf(v) in st'.directories ==> PdptOf(v) in st'.pdpts {
      SameTableSameDirectory(v, vaddr);
    }
  }

  // ---------- the space ----------

  datatype Space = Space(
    caps: map<nat, Kind>,      // the capability slots in use
    mapped: map<nat, nat>,     // frame capability -> the address it is mapped at
    structures: Structures
  )

  /** seL4_X86_Page_Map: a frame at an address that has its paging structures, neither of them in use. */
  function PageMapError(s: Space, frame: nat, vaddr: nat): Error {
    if frame !in s.caps || s.caps[frame] != Frame then OtherError
    else if Missing(s.structures, vaddr) != 3 then FailedLookup
    else if frame in s.mapped || vaddr in s.mapped.Values then OtherError
    else NoError
  }

  /** The three structure mapping calls: from the top down, each structure once. */
  function StructureMapError(s: Space, cap: nat, kind: Kind, vaddr: nat): Error {
    if cap in s.caps && s.caps[cap] == kind && Missing(s.structures, vaddr) == LevelOf(kind) then NoError
    else OtherError
  }

  /** Mapped frames are frames, each at an address of its own that has all its paging structures. */
  ghost predicate Sound(s: Space) {
    && Nested(s.structures)
    && (forall f :: f in s.mapped ==> f in s.caps && s.caps[f] == Frame && Missing(s.structures, s.mapped[f]) == 3)
    && (forall f, g :: f in s.mapped && g in s.mapped && f != g ==> s.mapped[f] != s.mapped[g])
  }

  /** The caps of t are those of s and more; the paging structures are the same. */
  ghost predicate Grown(s: Space, t: Space) {
    && (forall c :: c in s.caps ==> c in t.caps && t.caps[c] == s.caps[c])
    && t.structures == s.structures
  }

  lemma NewCapIsGrowth(s: Space, cap: nat, kind: Kind)
    requires cap !in s.caps
    ensures var t := s.(caps := s.caps[cap := kind]); Grown(s, t) && (Sound(s) ==> Sound(t))
  {
  }

  lemma MappingIsSound(s: Space, frame: nat, vaddr: nat)
    requires Sound(s) && PageMapError(s, frame, vaddr) == NoError
    ensures var t := s.(mapped := s.mapped[frame := vaddr]);
      Sound(t) && Grown(s, t) && |t.mapped| == |s.mapped| + 1
  {
    var t := s.(mapped := s.mapped[frame := vaddr]);
    assert forall f :: f in s.mapped ==> s.mapped[f] in s.mapped.Values;
    assert t.mapped.Keys == s.mapped.Keys + {frame};
  }

  lemma UnmappingIsSound(s: Space, frame: nat)
    requires Sound(s)
    ensures var t := s.(mapped := s.mapped - {frame});
      Sound(t) && Grown(s, t) && |t.mapped| == |s.mapped| - (if frame in s.mapped then 1 else 0)
  {
    var t := s.(mapped := s.mapped - {frame});
    if frame in s.mapped {
      assert s.mapped.Keys == t.mapped.Keys + {frame};
    } else {
      assert t.mapped == s.mapped;
    }
  }

  lemma GrowthIsTransitive(s: Space, t: Space, u: Space)
    requires Grown(s, t) && Grown(t, u)
    ensures Grown(s, u)
  {
  }

  lemma GrowthIsReflexive(s: Space)
    ensures Grown(s, s)
  {
  }

  lemma GrowthKeepsCaps(s: Space, t: Space)
    requires Grown(s, t)
    ensures t.structures == s.structures
    ensures forall c: nat :: c in s.caps ==> c in t.caps
  {
  }

  lemma FrameIsUnused(s: Space, frame: nat)
    requires Sound(s) && frame !in s.caps
    ensures frame !in s.mapped
  {
  }

  // ---------- pages in order of address ----------

  /** Every mapped page lies, page-aligned, below the address that will be used next. */
  ghost predicate Below(mapped: map<nat, nat>, limit: nat) {
    && limit % PAGE_SIZE == 0
    && forall f :: f in mapped ==> mapped[f] % PAGE_SIZE == 0 && mapped[f] + PAGE_SIZE <= limit
  }

  /** The page at the limit is not in use, and mapping it leaves all pages below the next one. */
  lemma NextPageIsFree(mapped: map<nat, nat>, limit: nat)
    requires Below(mapped, limit)
    ensures limit !in mapped.Values
    ensures forall f: nat {:trigger mapped[f := limit]} :: Below(mapped[f := limit], limit + PAGE_SIZE)
  {
  }

  /** No byte lies in two mapped pages, whichever threads or reservations they are for. */
  lemma MappedPagesAreDisjoint(s: Space, limit: nat, f: nat, g: nat, x: nat)
    requires Sound(s) && Below(s.mapped, limit) && f in s.mapped && g in s.mapped && f != g
    ensures !(s.mapped[f] <= x < s.mapped[f] + PAGE_SIZE && s.mapped[g] <= x < s.mapped[g] + PAGE_SIZE)
  {
  }

  // ---------- the pages of a thread ----------

  /** Three different capabilities that were not there before. */
  predicate Fresh(s: Space, frames: (nat, nat, nat)) {
    && frames.0 !in s.caps && frames.1 !in s.caps && frames.2 !in s.caps
    && frames.0 != frames.1 && frames.0 != frames.2 && frames.1 != frames.2
  }

  lemma OneAfterTheOther(s: Space, t: Space, u: Space, a: nat, b: nat, c: nat)
    requires Grown(s, t) && Grown(t, u) && a !in s.caps && a in t.caps && b !in t.caps && b in u.caps && c !in u.caps
    ensures Fresh(s, (a, b, c))
  {
  }

  /** What createThread maps for a thread. */
  function WithThreadPages(mapped: map<nat, nat>, frames: (nat, nat, nat), vaddr: nat): map<nat, nat> {
    mapped[frames.0 := vaddr][frames.1 := vaddr + PAGE_SIZE][frames.2 := vaddr + 2 * PAGE_SIZE]
  }

  lemma ThreadPagesAreApart(before: Space, frames: (nat, nat, nat), vaddr: nat)
    requires Sound(before) && Fresh(before, frames)
    ensures var m := WithThreadPages(before.mapped, frames, vaddr);
      && frames.0 in m && frames.1 in m && frames.2 in m
      && frames.0 !in before.mapped && frames.1 !in before.mapped && frames.2 !in before.mapped
      && m - {frames.0} - {frames.1} - {frames.2} == before.mapped
      && |m| == |before.mapped| + 3
  {
    assert frames.0 !in before.mapped && frames.1 !in before.mapped && frames.2 !in before.mapped;
    var m := WithThreadPages(before.mapped, frames, vaddr);
    assert m.Keys == before.mapped.Keys + {frames.0} + {frames.1} + {frames.2};
  }

  lemma FewerPagesBelow(m: map<nat, nat>, m': map<nat, nat>, limit: nat, frames: (nat, nat, nat))
    requires Below(m, limit) && m' == m - {frames.0} - {frames.1} - {frames.2}
    ensures Below(m', limit)
  {
  }
}
