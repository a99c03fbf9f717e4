/** The whole system over runs: clients take and give back pages and heap blocks, create and destroy spaces, map their
pages into them and unmap them, and the kernel maps pages of its own in between. Pages and heap blocks are conserved. */
module Lifecycle {
  import opened Words
  import opened PhysicalMemory
  import opened PhysicalMemoryProofs
  import opened PageTables
  import opened TableForest
  import opened Mapping
  import opened Unmapping
  import opened Spaces
  import HeapList
  import HeapProofs

  /** A `vmm_space_t`: the heap block that holds it, and the frame of its PML4. */
  datatype Space = Space(block: HeapList.Block, root: nat)

  /** Page tables, heap, and the spaces handed out, by pointer. */
  datatype Sys = Sys(vm: Vm, heap: seq<HeapList.Block>, spaces: map<nat, Space>)

  // ---------------------------------------------------------------- the operations

  /** `sizeof(vmm_space_t)`. */
  const SPACE_SIZE: u64 := 16

  /** `vmm_create_space`: the system and the pointer, 0 for failure. */
  ghost function Create(s: Sys): (Sys, nat)
    requires s.vm.pmm.Valid() && s.vm.kernel in s.vm.ram
  {
    var (pmm, address) := s.vm.pmm.AllocPages(1);
    if address == 0 then (s, 0)
    else
      var (heap, p) := HeapList.Malloc(s.heap, SPACE_SIZE);
      if p == 0 then (s.(vm := s.vm.(pmm := pmm.FreePages(address, 1))), 0)
      else
        var b := if HeapList.Live(heap, p) then heap[HeapList.Index(heap, p)] else HeapList.Block(0, 0, true);
        var spaces := s.spaces[p := Space(b, Frame(address))];
        (Sys(AddSpace(s.vm.(pmm := pmm), Frame(address)), heap, spaces), p)
  }

  /** `vmm_map_page` on space `p`. */
  ghost function MapInto(s: Sys, p: nat, virtual: u64, physical: u64, flags: u64): (Sys, bool)
    requires s.vm.pmm.Valid() && p in s.spaces
  {
    var (vm, ok) := MapPage(s.vm, s.spaces[p].root, Page(virtual), Entry(physical, flags), SpaceLink(flags));
    (s.(vm := vm), ok)
  }

  /** `vmm_destroy_space` of space `p`. */
  ghost function Destroy(s: Sys, p: nat): Sys
    requires p in s.spaces
  {
    Sys(DestroySpace(s.vm, s.spaces[p].root), HeapList.Free(s.heap, p), s.spaces - {p})
  }

  // ---------------------------------------------------------------- the invariant

  ghost predicate SpaceOk(s: Sys, p: nat)
    requires p in s.spaces
  {
    var space := s.spaces[p];
    && space.block in HeapList.Used(s.heap) && space.block.Payload() == p
    && IsRoot(s.vm, space.root) && space.root != s.vm.kernel
  }

  ghost predicate IsSpaceRoot(s: Sys, q: nat) {
    exists p :: p in s.spaces && s.spaces[p].root == q
  }

  /** Spaces and live roots correspond, one to one. */
  ghost predicate SpacesOk(s: Sys) {
    && (forall p :: p in s.spaces ==> SpaceOk(s, p))
    && (forall p, q :: p in s.spaces && q in s.spaces && s.spaces[p].root == s.spaces[q].root ==> p == q)
    && (forall q :: IsRoot(s.vm, q) && q != s.vm.kernel ==> IsSpaceRoot(s, q))
  }

  ghost predicate SysInv(s: Sys) {
    Forest(s.vm) && HeapList.Valid(s.heap) && SpacesOk(s)
  }

  /** Where every run may begin: the kernel's tables, the heap as `heap_init` leaves it, no space. */
  lemma NoSpaces(m: Vm)
    requires Forest(m) && forall q :: IsRoot(m, q) ==> q == m.kernel
    ensures SysInv(Sys(m, HeapProofs.InitialBlocks(), map[]))
  {
    HeapProofs.InitialIsValid();
  }

  /** Nothing about roots has changed. */
  ghost predicate RootsSame(m: Vm, m': Vm) {
    m'.kernel == m.kernel && forall q :: IsRoot(m', q) <==> IsRoot(m, q)
  }

  lemma OtherVm(s: Sys, vm: Vm)
    requires SysInv(s) && Forest(vm) && RootsSame(s.vm, vm)
    ensures SysInv(s.(vm := vm))
  {
    var s' := s.(vm := vm);
    forall p | p in s'.spaces ensures SpaceOk(s', p) {
      assert SpaceOk(s, p);
    }
    forall q | IsRoot(s'.vm, q) && q != s'.vm.kernel ensures IsSpaceRoot(s', q) {
      assert IsSpaceRoot(s, q);
    }
  }

  // ---------------------------------------------------------------- mapping keeps the books

  /** What the processor finds mapped at a page, as a set of frames. */
  function MappedFrame(m: Vm, root: nat, page: nat): set<nat> {
    match Walk(m.ram, root, page, 4)
    case None => {}
    case Some(e) => {Frame(e)}
  }

  /** The frames with a place after a mapping: new tables, the leaf in place of what was mapped before. */
  ghost predicate MapBooks(m: Vm, m': Vm, root: nat, page: nat, leaf: u64, ok: bool) {
    var added := m'.pmm.taken - m.pmm.taken;
    && m.pmm.taken <= m'.pmm.taken && Drift(m'.pmm) == Drift(m.pmm) && m'.pmm.total == m.pmm.total
    && m'.own.Keys == if ok && root != m.kernel
                      then m.own.Keys + added - MappedFrame(m, root, page) + {Frame(leaf)}
                      else m.own.Keys + added
  }

  lemma LocatedEntry(m: Vm, m1: Vm, root: nat, page: nat, pt: nat)
    requires AllLead(m1) && AllPlaced(m1) && SameWalks(m, m1)
    requires IsRoot(m, root) && IsRoot(m1, root) && Found(m1, root, page, 4, pt)
    ensures Present(m1.ram[pt][Index(page, 1)]) ==> Walk(m.ram, root, page, 4) == Some(m1.ram[pt][Index(page, 1)])
    ensures !Present(m1.ram[pt][Index(page, 1)]) ==> Walk(m.ram, root, page, 4) == None
  {
    FoundIsClear(m1, root, page, 4);
    FollowIsLeafTable(m1, root, page, 4);
  }

  lemma {:induction false} FoundIsClear(m: Vm, t: nat, page: nat, level: nat)
    requires LeafTable(m.ram, t, page, level).Some?
    ensures PathClear(m.ram, t, page, level)
    decreases level
  {
    if 2 <= level {
      FoundIsClear(m, Frame(m.ram[t][Index(page, level)]), page, level - 1);
    }
  }

  /** The walk before the leaf is written. */
  ghost predicate WalkBooks(m: Vm, m': Vm) {
    && m.pmm.taken <= m'.pmm.taken && Drift(m'.pmm) == Drift(m.pmm) && m'.pmm.total == m.pmm.total
    && m'.own.Keys == m.own.Keys + (m'.pmm.taken - m.pmm.taken)
    && RootsSame(m, m')
  }

  lemma LocateBooks(m: Vm, root: nat, page: nat, link: nat)
    requires CanMap(m, root, page) && LinkFlags(link)
    ensures WalkBooks(m, Locate(m, root, page, 4, link).0)
  {
    RootIs(m, root);
    LocateTakes(m, root, page, 4, link);
    LocateLocal(m, root, page, 4, link);
    LocateKeeps(m, root, page, 4, link);
    var m1 := Locate(m, root, page, 4, link).0;
    if n: nat :| Took(m, m1, n) {
      TookBooks(m, m1, n);
    }
  }

  lemma TookBooks(m: Vm, m1: Vm, n: nat)
    requires Took(m, m1, n) && m.own.Keys <= m1.own.Keys
    ensures m1.own.Keys == m.own.Keys + (m1.pmm.taken - m.pmm.taken) && Drift(m1.pmm) == Drift(m.pmm)
  {
    assert m1.own.Keys == m.own.Keys + (m1.own.Keys - m.own.Keys);
  }

  lemma PutLeafBooks(m: Vm, m1: Vm, root: nat, page: nat, leaf: u64, pt: nat)
    requires AllLead(m1) && AllPlaced(m1) && SameWalks(m, m1) && WalkBooks(m, m1)
    requires IsRoot(m, root) && IsRoot(m1, root)
    requires Found(m1, root, page, 4, pt) && m1.own[pt].root == root
    requires root != m.kernel ==> LeafFree(m1, pt, Index(page, 1), leaf)
    ensures MapBooks(m, PutLeaf(m1, pt, Index(page, 1), leaf), root, page, leaf, true)
    ensures RootsSame(m, PutLeaf(m1, pt, Index(page, 1), leaf))
  {
    LocatedEntry(m, m1, root, page, pt);
    LeafBooks(m, m1, root, page, leaf, pt);
  }

  lemma LeafBooks(m: Vm, m1: Vm, root: nat, page: nat, leaf: u64, pt: nat)
    requires WalkBooks(m, m1) && AllPlaced(m1) && AllLead(m1)
    requires IsTable(m1, pt) && m1.own[pt].level == 1 && m1.own[pt].root == root
    requires root != m.kernel ==> LeafFree(m1, pt, Index(page, 1), leaf)
    requires var e := m1.ram[pt][Index(page, 1)]; MappedFrame(m, root, page) == if Present(e) then {Frame(e)} else {}
    ensures MapBooks(m, PutLeaf(m1, pt, Index(page, 1), leaf), root, page, leaf, true)
    ensures RootsSame(m, PutLeaf(m1, pt, Index(page, 1), leaf))
  {
    PutLeafRoots(m1, pt, Index(page, 1), leaf);
    DropPlaced(m1, pt, Index(page, 1));
    PutLeafOwns(m1, pt, Index(page, 1), leaf);
  }

  lemma PutLeafOwns(m: Vm, t: nat, i: nat, leaf: u64)
    requires IsTable(m, t) && m.own[t].level == 1 && i < 512 && t in DropLeaf(m, t, i).own
    ensures PutLeaf(m, t, i, leaf).own.Keys == if !IsSpaceLeaf(m, t) then m.own.Keys
      else m.own.Keys - (if Present(m.ram[t][i]) then {Frame(m.ram[t][i])} else {}) + {Frame(leaf)}
  {
  }

  lemma MapPageBooks(m: Vm, root: nat, page: nat, leaf: u64, link: nat)
    requires CanMap(m, root, page) && CanOwn(m, root, page, leaf) && LinkFlags(link) && Present(leaf)
    ensures var (m', ok) := MapPage(m, root, page, leaf, link);
      MapBooks(m, m', root, page, leaf, ok) && RootsSame(m, m')
  {
    LocateBooks(m, root, page, link);
    LocatedWalk(m, root, page, link);
    var (m1, pt) := Locate(m, root, page, 4, link);
    if pt.Some? {
      if root != m.kernel {
        LocatedLeaf(m, root, page, leaf, link);
      }
      PutLeafBooks(m, m1, root, page, leaf, pt.value);
    }
  }

  lemma PutLeafRoots(m: Vm, t: nat, i: nat, leaf: u64)
    requires AllPlaced(m) && AllLead(m) && IsTable(m, t) && m.own[t].level == 1 && i < 512
    requires m.own[t].root != m.kernel ==> LeafFree(m, t, i, leaf)
    ensures RootsSame(m, PutLeaf(m, t, i, leaf))
  {
    RootsSurvive(m, t, i, leaf);
  }

  lemma MapIntoCan(s: Sys, p: nat, virtual: u64)
    requires SysInv(s) && p in s.spaces && LowerHalf(Page(virtual))
    ensures CanMap(s.vm, s.spaces[p].root, Page(virtual)) && s.spaces[p].root != s.vm.kernel
  {
    assert SpaceOk(s, p);
    SpaceCanMap(s.vm, s.spaces[p].root, virtual);
  }

  lemma MapIntoKeeps(s: Sys, p: nat, virtual: u64, physical: u64, flags: u64)
    requires SysInv(s) && p in s.spaces && LowerHalf(Page(virtual))
    requires CanOwn(s.vm, s.spaces[p].root, Page(virtual), Entry(physical, flags))
    ensures SysInv(MapInto(s, p, virtual, physical, flags).0)
  {
    var root := s.spaces[p].root;
    MapIntoCan(s, p, virtual);
    EntryIs(physical, flags);
    MapPageKeeps(s.vm, root, Page(virtual), Entry(physical, flags), SpaceLink(flags));
    MapPageBooks(s.vm, root, Page(virtual), Entry(physical, flags), SpaceLink(flags));
    OtherVm(s, MapPage(s.vm, root, Page(virtual), Entry(physical, flags), SpaceLink(flags)).0);
  }

  // ---------------------------------------------------------------- what stays with its owner

  /** Frames placed outside the space of `root` keep their places, and no others are placed outside it. */
  ghost predicate SamePlacesOutside(m: Vm, m': Vm, root: nat) {
    forall q :: q != root ==> OwnedBy(m', q) == OwnedBy(m, q)
  }

  lemma LocatePlaces(m: Vm, m': Vm, root: nat)
    requires Local(m, m', root)
    ensures SamePlacesOutside(m, m', root)
  {
    forall q | q != root ensures OwnedBy(m', q) == OwnedBy(m, q) {
      forall f ensures f in OwnedBy(m', q) <==> f in OwnedBy(m, q) {
      }
    }
  }

  lemma PutLeafPlaces(m: Vm, t: nat, i: nat, leaf: u64, root: nat)
    requires AllLead(m) && IsTable(m, t) && m.own[t].level == 1 && i < 512 && m.own[t].root == root
    requires root != m.kernel ==> LeafFree(m, t, i, leaf)
    ensures SamePlacesOutside(m, PutLeaf(m, t, i, leaf), root)
  {
    assert Leads(m, t, i);
    var m' := PutLeaf(m, t, i, leaf);
    forall q | q != root ensures OwnedBy(m', q) == OwnedBy(m, q) {
      forall f ensures f in OwnedBy(m', q) <==> f in OwnedBy(m, q) {
      }
    }
  }

  lemma MapPagePlaces(m: Vm, root: nat, page: nat, leaf: u64, link: nat)
    requires CanMap(m, root, page) && CanOwn(m, root, page, leaf) && LinkFlags(link) && Present(leaf)
    ensures SamePlacesOutside(m, MapPage(m, root, page, leaf, link).0, root)
  {
    LocatedWalk(m, root, page, link);
    var (m1, pt) := Locate(m, root, page, 4, link);
    LocatePlaces(m, m1, root);
    if pt.Some? {
      if root != m.kernel {
        LocatedLeaf(m, root, page, leaf, link);
      }
      PutLeafPlaces(m1, pt.value, Index(page, 1), leaf, root);
    }
  }

  // ---------------------------------------------------------------- calls

  /** What clients do, all of them taken together: take and give back pages, take and give back heap blocks, create and
  destroy spaces, map pages they hold into spaces and unmap them, and map kernel pages. */
  datatype Call =
    | AllocCall
    | FreeCall(frame: nat)
    | KmallocCall(size: u64)
    | KfreeCall(block: HeapList.Block)
    | CreateCall
    | DestroyCall(p: nat)
    | MapCall(p: nat, virtual: u64, frame: nat, flags: u64)
    | UnmapCall(p: nat, virtual: u64)
    | KernelMapCall(virtual: u64, physical: u64, flags: u64)

  /** The system, and what clients hold: the pages they have and no space owns, and the heap blocks that are no
  `vmm_space_t`. A page mapped into a space passes to the space; one whose mapping failed stays with the client, and one
  that a later mapping of the same page replaced comes back to it. */
  datatype State = State(sys: Sys, held: set<nat>, blocks: set<HeapList.Block>)

  /** Clients give back and map only what they hold, name spaces that exist, stay in the lower half with flags in the
  low twelve bits, and map kernel pages, to any memory, only where the kernel translates nothing yet: remapping a page
  the kernel uses, of the heap for one, would put other memory under it. Kernel mappings below a huge entry are
  excluded.
  Calls that break the rules are no part of a run. */
  ghost predicate Legal(st: State, call: Call) {
    match call
    case AllocCall => true
    case FreeCall(f) => f in st.held
    case KmallocCall(_) => true
    case KfreeCall(b) => b in st.blocks
    case CreateCall => true
    case DestroyCall(p) => p in st.sys.spaces
    case MapCall(p, virtual, f, flags) =>
      p in st.sys.spaces && LowerHalf(Page(virtual)) && f in st.held && flags < 0x1000
    case UnmapCall(p, virtual) => p in st.sys.spaces && LowerHalf(Page(virtual))
    case KernelMapCall(virtual, _, _) => Unmapped(st.sys.vm, Page(virtual))
  }

  /** The kernel does not translate the page, and no huge entry is in the way of it. */
  ghost predicate Unmapped(m: Vm, page: nat) {
    PathClear(m.ram, m.kernel, page, 4) && Walk(m.ram, m.kernel, page, 4) == None
  }

  /** Clients hold pages that are allocated and have no place, and blocks in use that hold no space. */
  ghost predicate StateInv(st: State) {
    && SysInv(st.sys)
    && st.held <= st.sys.vm.pmm.taken && st.held !! st.sys.vm.own.Keys && 0 !in st.held
    && st.blocks <= HeapList.Used(st.sys.heap) && st.blocks !! SpaceBlocks(st.sys.spaces)
  }

  ghost function Alloc(st: State): State {
    var (pmm, address) := st.sys.vm.pmm.AllocPages(1);
    if address == 0 then st
    else st.(sys := st.sys.(vm := st.sys.vm.(pmm := pmm)), held := st.held + {Frame(address)})
  }

  /** `pmm_free_page`. */
  ghost function Release(st: State, f: nat): State {
    st.(sys := st.sys.(vm := st.sys.vm.(pmm := st.sys.vm.pmm.FreePages(f * 0x1000, 1))), held := st.held - {f})
  }

  ghost function Take(st: State, size: u64): State {
    var heap := HeapList.Malloc(st.sys.heap, size).0;
    st.(sys := st.sys.(heap := heap), blocks := st.blocks + (HeapList.Used(heap) - HeapList.Used(st.sys.heap)))
  }

  ghost function Give(st: State, b: HeapList.Block): State {
    st.(sys := st.sys.(heap := HeapList.Free(st.sys.heap, b.Payload())), blocks := st.blocks - {b})
  }

  ghost function MapHeld(st: State, p: nat, virtual: u64, f: nat, flags: u64): State
    requires st.sys.vm.pmm.Valid() && p in st.sys.spaces && f * 0x1000 < 0x1_0000_0000_0000_0000
  {
    var (s, ok) := MapInto(st.sys, p, virtual, f * 0x1000, flags);
    var was := MappedFrame(st.sys.vm, st.sys.spaces[p].root, Page(virtual));
    st.(sys := s, held := if ok then st.held - {f} + was else st.held)
  }

  /** `paging_unmap_page` while the tables of space `p` are loaded. */
  ghost function UnmapFrom(s: Sys, p: nat, virtual: u64): Sys
    requires p in s.spaces
  {
    s.(vm := UnmapPage(s.vm, s.spaces[p].root, Page(virtual)).0)
  }

  ghost function MapKernel(s: Sys, virtual: u64, physical: u64, flags: u64): Sys
    requires s.vm.pmm.Valid()
  {
    s.(vm := MapPage(s.vm, s.vm.kernel, Page(virtual), Entry(physical, flags), KERNEL_LINK).0)
  }

  lemma HeldFits(m: Vm, f: nat)
    requires m.pmm.Valid() && f in m.pmm.taken
    ensures f < m.pmm.total && f * 0x1000 < 0x1_0000_0000_0000_0000 && Frame(f * 0x1000) == f
  {
  }

  ghost function Step(st: State, call: Call): State
    requires StateInv(st)
  {
    if !Legal(st, call) then st
    else
      match call
      case AllocCall => Alloc(st)
      case FreeCall(f) => Release(st, f)
      case KmallocCall(size) => Take(st, size)
      case KfreeCall(b) => Give(st, b)
      case CreateCall => KernelIsTable(st.sys.vm); st.(sys := Create(st.sys).0)
      case DestroyCall(p) => st.(sys := Destroy(st.sys, p))
      case MapCall(p, virtual, f, flags) => HeldFits(st.sys.vm, f); MapHeld(st, p, virtual, f, flags)
      case UnmapCall(p, virtual) => st.(sys := UnmapFrom(st.sys, p, virtual))
      case KernelMapCall(virtual, physical, flags) => st.(sys := MapKernel(st.sys, virtual, physical, flags))
  }

  lemma KernelIsTable(m: Vm)
    requires Forest(m)
    ensures IsRoot(m, m.kernel) && m.kernel in m.ram
  {
    assert Placed(m, m.kernel);
  }

  /** Outside the kernel's tree no path has a huge entry. */
  lemma {:induction false} SpaceClear(m: Vm, t: nat, page: nat, level: nat)
    requires AllLead(m) && AllPlaced(m) && IsTable(m, t) && m.own[t].root != m.kernel && m.own[t].level == level
    requires LowerHalf(page)
    ensures PathClear(m.ram, t, page, level)
    decreases level
  {
    if 2 <= level {
      assert Leads(m, t, Index(page, level));
      TopIndex(page);
      if Present(m.ram[t][Index(page, level)]) {
        assert Placed(m, Frame(m.ram[t][Index(page, level)]));
        SpaceClear(m, Frame(m.ram[t][Index(page, level)]), page, level - 1);
      }
    }
  }

  lemma SpaceCanMap(m: Vm, root: nat, virtual: u64)
    requires Forest(m) && IsRoot(m, root) && root != m.kernel && LowerHalf(Page(virtual))
    ensures CanMap(m, root, Page(virtual))
  {
    RootIs(m, root);
    SpaceClear(m, root, Page(virtual), 4);
  }

  /** The entry of an aligned page and low flags names the page. */
  lemma LowEntry(physical: u64, flags: u64)
    requires flags < 0x1000
    ensures Present(Entry(physical, flags)) && Frame(Entry(physical, flags)) == Frame(physical)
  {
    EntryIs(physical, flags);
    assert Frame(flags) == 0;
  }

  // ---------------------------------------------------------------- the books

  /** `all` falls into three parts. */
  ghost predicate Parts<T(!new)>(base: set<T>, own: set<T>, held: set<T>, all: set<T>) {
    all == base + own + held && base !! own && base !! held && own !! held
  }

  lemma OwnOne<T(!new)>(base: set<T>, own: set<T>, held: set<T>, all: set<T>, x: T)
    requires Parts(base, own, held, all) && x !in all
    ensures Parts(base, own + {x}, held, all + {x})
  {
  }

  lemma HoldOne<T(!new)>(base: set<T>, own: set<T>, held: set<T>, all: set<T>, x: T)
    requires Parts(base, own, held, all) && x !in all
    ensures Parts(base, own, held + {x}, all + {x})
  {
  }

  lemma OwnFewer<T(!new)>(base: set<T>, own: set<T>, held: set<T>, all: set<T>, gone: set<T>)
    requires Parts(base, own, held, all) && gone <= own
    ensures Parts(base, own - gone, held, all - gone)
  {
  }

  lemma HoldOneLess<T(!new)>(base: set<T>, own: set<T>, held: set<T>, all: set<T>, x: T)
    requires Parts(base, own, held, all) && x in held
    ensures Parts(base, own, held - {x}, all - {x})
  {
  }

  /** The heap blocks of the spaces. */
  function SpaceBlocks(spaces: map<nat, Space>): set<HeapList.Block> {
    set p | p in spaces :: spaces[p].block
  }

  /** What a run cannot change: the pages and heap blocks that belong neither to the tables nor to clients, and how far
  the page counter is from the bitmap. */
  datatype Base = Base(pages: set<nat>, blocks: set<HeapList.Block>, drift: int, kernel: nat, total: nat)

  ghost predicate VmBooks(b: Base, m: Vm, held: set<nat>) {
    && m.kernel == b.kernel && m.pmm.total == b.total && Drift(m.pmm) == b.drift
    && Parts(b.pages, OwnedPages(m), held, m.pmm.taken) && 0 !in held
  }

  ghost predicate HeapBooks(b: Base, heap: seq<HeapList.Block>, spaces: map<nat, Space>, blocks: set<HeapList.Block>) {
    Parts(b.blocks, SpaceBlocks(spaces), blocks, HeapList.Used(heap))
  }

  /** Every page taken is one of the base, one with a place in some tree, or held by a client; every heap block in use
  is one of the base, a space, or held by a client. */
  ghost predicate Conserved(b: Base, st: State) {
    SysInv(st.sys) && VmBooks(b, st.sys.vm, st.held) && HeapBooks(b, st.sys.heap, st.sys.spaces, st.blocks)
  }

  ghost function BaseOf(st: State): Base {
    Base(st.sys.vm.pmm.taken - OwnedPages(st.sys.vm) - st.held,
         HeapList.Used(st.sys.heap) - SpaceBlocks(st.sys.spaces) - st.blocks,
         Drift(st.sys.vm.pmm), st.sys.vm.kernel, st.sys.vm.pmm.total)
  }

  lemma StartConserved(st: State)
    requires StateInv(st)
    ensures Conserved(BaseOf(st), st)
  {
    OwnedAreTaken(st.sys.vm);
    SpacesInUse(st.sys);
  }

  lemma SpacesInUse(s: Sys)
    requires SysInv(s)
    ensures SpaceBlocks(s.spaces) <= HeapList.Used(s.heap)
  {
    forall b | b in SpaceBlocks(s.spaces) ensures b in HeapList.Used(s.heap) {
      var p :| p in s.spaces && s.spaces[p].block == b;
      assert SpaceOk(s, p);
    }
  }

  lemma ConservedIs(b: Base, st: State)
    requires Conserved(b, st)
    ensures StateInv(st)
  {
  }

  /** The page tables or the allocator change. */
  lemma VmChange(b: Base, st: State, vm: Vm, held: set<nat>)
    requires Conserved(b, st) && Forest(vm) && RootsSame(st.sys.vm, vm) && VmBooks(b, vm, held)
    ensures Conserved(b, State(st.sys.(vm := vm), held, st.blocks))
  {
    OtherVm(st.sys, vm);
  }

  /** The heap changes, but for the spaces in it. */
  lemma HeapChange(b: Base, st: State, heap: seq<HeapList.Block>, blocks: set<HeapList.Block>)
    requires Conserved(b, st) && HeapList.Valid(heap) && HeapBooks(b, heap, st.sys.spaces, blocks)
    ensures Conserved(b, State(st.sys.(heap := heap), st.held, blocks))
  {
    var s' := st.sys.(heap := heap);
    forall p | p in s'.spaces ensures SpaceOk(s', p) {
      assert SpaceOk(st.sys, p);
      assert s'.spaces[p].block in SpaceBlocks(s'.spaces);
    }
    forall q | IsRoot(s'.vm, q) && q != s'.vm.kernel ensures IsSpaceRoot(s', q) {
      assert IsSpaceRoot(st.sys, q);
    }
  }

  // ---------------------------------------------------------------- pages

  lemma AllocKeeps(b: Base, st: State)
    requires Conserved(b, st)
    ensures Conserved(b, Alloc(st))
  {
    var m := st.sys.vm;
    AllocatedPage(m.pmm);
    var (pmm, address) := m.pmm.AllocPages(1);
    if address != 0 {
      TakingKeeps(m, pmm);
      OneMore(m.pmm.taken, Frame(address));
      HoldOne(b.pages, OwnedPages(m), st.held, m.pmm.taken, Frame(address));
      VmChange(b, st, m.(pmm := pmm), st.held + {Frame(address)});
    }
  }

  /** Giving back one page that is taken. */
  lemma ReleaseOne(s: PmmState, f: nat)
    requires s.Valid() && f in s.taken
    ensures s.FreePages(f * 0x1000, 1) == s.(taken := s.taken - {f}, used := s.used - 1)
    ensures Drift(s.FreePages(f * 0x1000, 1)) == Drift(s)
  {
    assert Frame(f * 0x1000) == f;
    assert PhysicalMemory.Run(f, 1) == {f};
  }

  lemma ReleaseKeepsBooks(b: Base, st: State, f: nat)
    requires Conserved(b, st) && f in st.held
    ensures Conserved(b, Release(st, f))
  {
    var m := st.sys.vm;
    HeldFits(m, f);
    ReleaseOne(m.pmm, f);
    ReleaseKeeps(m, f * 0x1000);
    HoldOneLess(b.pages, OwnedPages(m), st.held, m.pmm.taken, f);
    VmChange(b, st, Release(st, f).sys.vm, st.held - {f});
  }

  // ---------------------------------------------------------------- heap blocks

  lemma TakeKeeps(b: Base, st: State, size: u64)
    requires Conserved(b, st)
    ensures Conserved(b, Take(st, size))
  {
    var (heap, q) := HeapList.Malloc(st.sys.heap, size);
    HeapProofs.MallocIsBestFit(st.sys.heap, size);
    if q == 0 {
      assert Take(st, size) == st;
    } else {
      var c := HeapProofs.NewBlock(st.sys.heap, size, heap, q);
      HoldOne(b.blocks, SpaceBlocks(st.sys.spaces), st.blocks, HeapList.Used(st.sys.heap), c);
      assert HeapList.Used(heap) - HeapList.Used(st.sys.heap) == {c};
      HeapChange(b, st, heap, st.blocks + {c});
    }
  }

  lemma GiveKeeps(b: Base, st: State, c: HeapList.Block)
    requires Conserved(b, st) && c in st.blocks
    ensures Conserved(b, Give(st, c))
  {
    HeapProofs.UsedLive(st.sys.heap, c);
    HeapProofs.FreeAtKeeps(st.sys.heap, HeapList.Index(st.sys.heap, c.Payload()));
    HoldOneLess(b.blocks, SpaceBlocks(st.sys.spaces), st.blocks, HeapList.Used(st.sys.heap), c);
    HeapChange(b, st, HeapList.Free(st.sys.heap, c.Payload()), st.blocks - {c});
  }

  // ---------------------------------------------------------------- mapping and unmapping

  /** The frame mapped at a page of a space has a place there. */
  lemma MappedIsOwned(m: Vm, root: nat, page: nat)
    requires CanMap(m, root, page) && root != m.kernel
    ensures MappedFrame(m, root, page) <= OwnedPages(m)
  {
    FollowIsLeafTable(m, root, page, 4);
    if Walk(m.ram, root, page, 4).Some? {
      LeafTableRoot(m, root, page);
      assert Leads(m, LeafTable(m.ram, root, page, 4).value, Index(page, 1));
      PlacedIfOwned(m, Frame(Walk(m.ram, root, page, 4).value));
    }
  }

  /** A page the client holds may become a leaf. */
  lemma HeldLeaf(m: Vm, root: nat, virtual: u64, f: nat, flags: u64)
    requires Forest(m) && IsRoot(m, root) && root != m.kernel && LowerHalf(Page(virtual)) && flags < 0x1000
    requires f in m.pmm.taken && f !in m.own && f != 0 && f * 0x1000 < 0x1_0000_0000_0000_0000
    ensures CanMap(m, root, Page(virtual)) && CanOwn(m, root, Page(virtual), Entry(f * 0x1000, flags))
    ensures LinkFlags(SpaceLink(flags)) && Present(Entry(f * 0x1000, flags)) && Frame(Entry(f * 0x1000, flags)) == f
  {
    HeldFits(m, f);
    LowEntry(f * 0x1000, flags);
    SpaceCanMap(m, root, virtual);
  }

  lemma MapHeldKeeps(b: Base, st: State, p: nat, virtual: u64, f: nat, flags: u64)
    requires Conserved(b, st) && Legal(st, MapCall(p, virtual, f, flags)) && f * 0x1000 < 0x1_0000_0000_0000_0000
    ensures Conserved(b, MapHeld(st, p, virtual, f, flags))
  {
    assert SpaceOk(st.sys, p);
    var root := st.sys.spaces[p].root;
    MapHeldVm(b, st.sys.vm, root, virtual, f, flags, st.held);
    VmChange(b, st, MapHeld(st, p, virtual, f, flags).sys.vm, MapHeld(st, p, virtual, f, flags).held);
  }

  lemma MapHeldVm(b: Base, m: Vm, root: nat, virtual: u64, f: nat, flags: u64, held: set<nat>)
    requires Forest(m) && IsRoot(m, root) && root != m.kernel && LowerHalf(Page(virtual)) && flags < 0x1000
    requires VmBooks(b, m, held) && f in held && f * 0x1000 < 0x1_0000_0000_0000_0000
    ensures var (m', ok) := MapPage(m, root, Page(virtual), Entry(f * 0x1000, flags), SpaceLink(flags));
      && Forest(m') && RootsSame(m, m')
      && VmBooks(b, m', if ok then held - {f} + MappedFrame(m, root, Page(virtual)) else held)
  {
    var page, leaf, link := Page(virtual), Entry(f * 0x1000, flags), SpaceLink(flags);
    HeldLeaf(m, root, virtual, f, flags);
    MapPageKeeps(m, root, page, leaf, link);
    MapPageBooks(m, root, page, leaf, link);
    MappedIsOwned(m, root, page);
    var (m', ok) := MapPage(m, root, page, leaf, link);
    MappedBooks(b, m, m', root, page, leaf, held, ok);
  }

  lemma MappedBooks(b: Base, m: Vm, m': Vm, root: nat, page: nat, leaf: u64, held: set<nat>, ok: bool)
    requires VmBooks(b, m, held) && MapBooks(m, m', root, page, leaf, ok) && root != m.kernel && m'.kernel == m.kernel
    requires m.pmm.Valid() && m'.pmm.Valid() && 0 !in m.own
    requires Frame(leaf) in held && MappedFrame(m, root, page) <= OwnedPages(m)
    ensures VmBooks(b, m', if ok then held - {Frame(leaf)} + MappedFrame(m, root, page) else held)
  {
    var was := MappedFrame(m, root, page);
    PagesGrow(m, m', was, {Frame(leaf)}, ok);
    MapParts(b.pages, OwnedPages(m), held, m.pmm.taken, Frame(leaf), m'.pmm.taken, was, OwnedPages(m'), ok);
  }

  /** Of the frames with a place, those the allocator manages. */
  lemma PagesGrow(m: Vm, m': Vm, was: set<nat>, leaf: set<nat>, ok: bool)
    requires m'.pmm.total == m.pmm.total && m'.pmm.Valid() && leaf <= m'.pmm.taken
    requires var added := m'.pmm.taken - m.pmm.taken;
      m'.own.Keys == if ok then m.own.Keys + added - was + leaf else m.own.Keys + added
    ensures var added := m'.pmm.taken - m.pmm.taken;
      OwnedPages(m') == if ok then OwnedPages(m) + added - was + leaf else OwnedPages(m) + added
  {
    var added := m'.pmm.taken - m.pmm.taken;
    var now := if ok then OwnedPages(m) + added - was + leaf else OwnedPages(m) + added;
    forall f ensures f in OwnedPages(m') <==> f in now {
      assert f in OwnedPages(m') <==> f in m'.own && f < m.pmm.total;
    }
  }

  lemma MapParts(base: set<nat>, own: set<nat>, held: set<nat>, all: set<nat>, x: nat,
                 all2: set<nat>, was: set<nat>, own2: set<nat>, ok: bool)
    requires Parts(base, own, held, all) && x in held && was <= own && all <= all2
    requires own2 == if ok then own + (all2 - all) - was + {x} else own + (all2 - all)
    ensures Parts(base, own2, if ok then held - {x} + was else held, all2)
  {
    OwnMore(base, own, held, all, all2);
    if ok {
      PassOn(base, own + (all2 - all), held, all2, x, was);
    }
  }

  lemma OwnMore(base: set<nat>, own: set<nat>, held: set<nat>, all: set<nat>, all2: set<nat>)
    requires Parts(base, own, held, all) && all <= all2
    ensures Parts(base, own + (all2 - all), held, all2)
  {
  }

  /** A held page takes the place of owned ones. */
  lemma PassOn(base: set<nat>, own: set<nat>, held: set<nat>, all: set<nat>, x: nat, was: set<nat>)
    requires Parts(base, own, held, all) && x in held && was <= own
    ensures Parts(base, own - was + {x}, held - {x} + was, all)
  {
    forall y ensures y in base + (own - was + {x}) + (held - {x} + was) <==> y in all {
    }
  }

  lemma UnmapFromKeeps(b: Base, st: State, p: nat, virtual: u64)
    requires Conserved(b, st) && Legal(st, UnmapCall(p, virtual))
    ensures Conserved(b, st.(sys := UnmapFrom(st.sys, p, virtual)))
  {
    var m, root, page := st.sys.vm, st.sys.spaces[p].root, Page(virtual);
    MapIntoCan(st.sys, p, virtual);
    UnmapPageKeeps(m, root, page);
    UnmapBooks(m, root, page);
    OwnFewer(b.pages, OwnedPages(m), st.held, m.pmm.taken, MappedFrame(m, root, page));
    VmChange(b, st, UnmapPage(m, root, page).0, st.held);
  }

  /** Unmapping takes the mapped frame from its space and from the allocator's marked pages. */
  lemma UnmapBooks(m: Vm, root: nat, page: nat)
    requires CanMap(m, root, page) && root != m.kernel
    ensures MappedFrame(m, root, page) <= OwnedPages(m)
    ensures var m' := UnmapPage(m, root, page).0;
      && RootsSame(m, m') && Drift(m'.pmm) == Drift(m.pmm) && m'.pmm.total == m.pmm.total
      && m'.own.Keys == m.own.Keys - MappedFrame(m, root, page)
      && OwnedPages(m') == OwnedPages(m) - MappedFrame(m, root, page)
      && m'.pmm.taken == m.pmm.taken - MappedFrame(m, root, page)
  {
    UnmapPageRefines(m, root, page);
    MappedIsOwned(m, root, page);
    OwnedAreTaken(m);
    if LeafEntry(m.ram, root, page).Some? {
      FollowIsLeafTable(m, root, page, 4);
      LeafTableRoot(m, root, page);
      var e := LeafEntry(m.ram, root, page).value;
      assert PageBase(e) == Frame(e) * 0x1000;
      ReleaseOne(m.pmm, Frame(e));
    }
  }

  lemma KernelMapKeeps(b: Base, st: State, virtual: u64, physical: u64, flags: u64)
    requires Conserved(b, st) && Unmapped(st.sys.vm, Page(virtual))
    ensures Conserved(b, st.(sys := MapKernel(st.sys, virtual, physical, flags)))
  {
    KernelMapForest(st.sys.vm, Page(virtual), physical, flags);
    KernelMapGrows(st.sys.vm, Page(virtual), physical, flags);
    KernelGrown(b, st, MapKernel(st.sys, virtual, physical, flags).vm);
  }

  /** The kernel's tree has grown by the pages taken. */
  ghost predicate KernelGrowth(m: Vm, m': Vm) {
    && RootsSame(m, m') && m'.pmm.total == m.pmm.total && Drift(m'.pmm) == Drift(m.pmm) && m.pmm.taken <= m'.pmm.taken
    && m'.own.Keys == m.own.Keys + (m'.pmm.taken - m.pmm.taken)
  }

  lemma KernelGrown(b: Base, st: State, vm: Vm)
    requires Conserved(b, st) && Forest(vm) && KernelGrowth(st.sys.vm, vm)
    ensures Conserved(b, st.(sys := st.sys.(vm := vm)))
  {
    KernelBooks(b, st.sys.vm, vm, st.held);
    VmChange(b, st, vm, st.held);
  }

  lemma KernelMapForest(m: Vm, page: nat, physical: u64, flags: u64)
    requires Forest(m) && IsPage(page) && Unmapped(m, page)
    ensures Forest(MapPage(m, m.kernel, page, Entry(physical, flags), KERNEL_LINK).0)
  {
    KernelIsTable(m);
    EntryIs(physical, flags);
    MapPageKeeps(m, m.kernel, page, Entry(physical, flags), KERNEL_LINK);
  }

  lemma KernelMapGrows(m: Vm, page: nat, physical: u64, flags: u64)
    requires Forest(m) && IsPage(page) && Unmapped(m, page)
    ensures KernelGrowth(m, MapPage(m, m.kernel, page, Entry(physical, flags), KERNEL_LINK).0)
  {
    KernelIsTable(m);
    EntryIs(physical, flags);
    MapPageBooks(m, m.kernel, page, Entry(physical, flags), KERNEL_LINK);
  }

  lemma KernelBooks(b: Base, m: Vm, m': Vm, held: set<nat>)
    requires VmBooks(b, m, held) && KernelGrowth(m, m') && m'.pmm.Valid()
    ensures VmBooks(b, m', held)
  {
    PagesMore(m, m');
    OwnMore(b.pages, OwnedPages(m), held, m.pmm.taken, m'.pmm.taken);
  }

  lemma PagesMore(m: Vm, m': Vm)
    requires m'.pmm.total == m.pmm.total && m'.pmm.Valid()
    requires m'.own.Keys == m.own.Keys + (m'.pmm.taken - m.pmm.taken)
    ensures OwnedPages(m') == OwnedPages(m) + (m'.pmm.taken - m.pmm.taken)
  {
    forall f ensures f in OwnedPages(m') <==> f in OwnedPages(m) + (m'.pmm.taken - m.pmm.taken) {
      assert f in OwnedPages(m') <==> f in m'.own && f < m.pmm.total;
    }
  }

  // ---------------------------------------------------------------- creating

  lemma TakeAndAdd(m: Vm, pmm: PmmState, f: nat)
    requires Forest(m) && pmm.Valid() && 1 <= f < pmm.total == m.pmm.total && f !in m.own
    requires pmm == m.pmm.(taken := m.pmm.taken + {f}, used := m.pmm.used + 1) && m.kernel in m.ram
    ensures Forest(AddSpace(m.(pmm := pmm), f))
  {
    TakingKeeps(m, pmm);
    AddSpaceKeeps(m.(pmm := pmm), f);
  }

  lemma AddSpaceIs(m: Vm, pmm: PmmState, f: nat)
    requires m.kernel in m.ram
    ensures var m' := AddSpace(m.(pmm := pmm), f);
      && m'.kernel == m.kernel && m'.pmm == pmm && m'.own == m.own[f := Tag(f, 4, 0)]
      && m'.own.Keys == m.own.Keys + {f} && m'.ram.Keys == m.ram.Keys + {f}
  {
  }

  lemma RootIsAdded(m: Vm, m': Vm, f: nat)
    requires m'.kernel == m.kernel && f !in m.own && m'.own == m.own[f := Tag(f, 4, 0)]
    requires m'.ram.Keys == m.ram.Keys + {f}
    ensures RootAdded(m, m', f)
  {
  }

  lemma PageMore(m: Vm, m': Vm, f: nat)
    requires m'.pmm.total == m.pmm.total && f < m.pmm.total && m'.own.Keys == m.own.Keys + {f}
    ensures OwnedPages(m') == OwnedPages(m) + {f}
  {
  }

  lemma CreateBooks(b: Base, m: Vm, m': Vm, f: nat, held: set<nat>)
    requires VmBooks(b, m, held) && f !in m.pmm.taken && m'.kernel == m.kernel
    requires m'.own.Keys == m.own.Keys + {f} && f < m.pmm.total
    requires m'.pmm == m.pmm.(taken := m.pmm.taken + {f}, used := m.pmm.used + 1)
    ensures VmBooks(b, m', held)
  {
    OneMore(m.pmm.taken, f);
    PageMore(m, m', f);
    OwnOne(b.pages, OwnedPages(m), held, m.pmm.taken, f);
  }

  /** One root more. */
  ghost predicate RootAdded(m: Vm, m': Vm, f: nat) {
    m'.kernel == m.kernel && !IsRoot(m, f) && forall q :: IsRoot(m', q) <==> IsRoot(m, q) || q == f
  }

  ghost predicate RootRemoved(m: Vm, m': Vm, r: nat) {
    m'.kernel == m.kernel && forall q :: IsRoot(m', q) <==> IsRoot(m, q) && q != r
  }

  /** A new space: its heap block and its root are nobody else's. */
  lemma AddToSpaces(s: Sys, vm: Vm, heap: seq<HeapList.Block>, p: nat, c: HeapList.Block, f: nat)
    requires SysInv(s) && Forest(vm) && RootAdded(s.vm, vm, f)
    requires HeapList.Valid(heap) && HeapList.Used(heap) == HeapList.Used(s.heap) + {c} && c !in HeapList.Used(s.heap)
    requires c in HeapList.Used(heap) && c.Payload() == p
    ensures SysInv(Sys(vm, heap, s.spaces[p := Space(c, f)])) && p !in s.spaces
    ensures SpaceBlocks(s.spaces[p := Space(c, f)]) == SpaceBlocks(s.spaces) + {c}
  {
    NewPointer(s, heap, p, c);
    KernelIsTable(s.vm);
    AddedSpace(s, vm, heap, p, c, f);
    AddBlocks(s.spaces, p, Space(c, f));
  }

  lemma AddedSpace(s: Sys, vm: Vm, heap: seq<HeapList.Block>, p: nat, c: HeapList.Block, f: nat)
    requires SpacesOk(s) && RootAdded(s.vm, vm, f) && IsRoot(s.vm, s.vm.kernel) && p !in s.spaces
    requires HeapList.Used(heap) == HeapList.Used(s.heap) + {c} && c.Payload() == p
    ensures SpacesOk(Sys(vm, heap, s.spaces[p := Space(c, f)]))
  {
    var s' := Sys(vm, heap, s.spaces[p := Space(c, f)]);
    forall q | q in s'.spaces ensures SpaceOk(s', q) && (q != p ==> s'.spaces[q].root != f) {
      if q != p {
        assert SpaceOk(s, q);
      }
    }
    forall q | IsRoot(vm, q) && q != vm.kernel ensures IsSpaceRoot(s', q) {
      if q == f {
        assert s'.spaces[p].root == q;
      } else {
        assert IsSpaceRoot(s, q);
        var x :| x in s.spaces && s.spaces[x].root == q;
        assert s'.spaces[x].root == q;
      }
    }
  }

  lemma AddBlocks(spaces: map<nat, Space>, p: nat, space: Space)
    requires p !in spaces
    ensures SpaceBlocks(spaces[p := space]) == SpaceBlocks(spaces) + {space.block}
  {
    var after := spaces[p := space];
    forall b ensures b in SpaceBlocks(after) <==> b in SpaceBlocks(spaces) + {space.block} {
      if b in SpaceBlocks(spaces) {
        var q :| q in spaces && spaces[q].block == b;
        assert after[q].block == b;
      }
      if b == space.block {
        assert after[p].block == b;
      }
    }
  }

  lemma NewPointer(s: Sys, heap: seq<HeapList.Block>, p: nat, c: HeapList.Block)
    requires SysInv(s) && HeapList.Valid(heap) && HeapList.Used(heap) == HeapList.Used(s.heap) + {c}
    requires c !in HeapList.Used(s.heap) && c in HeapList.Used(heap) && c.Payload() == p
    ensures p !in s.spaces
  {
    if p in s.spaces {
      assert SpaceOk(s, p);
      HeapProofs.UsedApart(heap, s.spaces[p].block, c);
    }
  }

  lemma CreateKeeps(b: Base, st: State)
    requires Conserved(b, st) && st.sys.vm.kernel in st.sys.vm.ram
    ensures Conserved(b, st.(sys := Create(st.sys).0))
  {
    var m := st.sys.vm;
    AllocatedPage(m.pmm);
    var (pmm, address) := m.pmm.AllocPages(1);
    var (heap, p) := HeapList.Malloc(st.sys.heap, SPACE_SIZE);
    if address != 0 {
      if p == 0 {
        AllocThenFree(m.pmm, 1);
        assert Create(st.sys).0 == st.sys;
      } else {
        CreateSucceeds(b, st, pmm, address, heap, p);
      }
    }
  }

  lemma CreateSucceeds(b: Base, st: State, pmm: PmmState, address: nat, heap: seq<HeapList.Block>, p: nat)
    requires Conserved(b, st) && st.sys.vm.kernel in st.sys.vm.ram
    requires (pmm, address) == st.sys.vm.pmm.AllocPages(1) && address != 0
    requires (heap, p) == HeapList.Malloc(st.sys.heap, SPACE_SIZE) && p != 0
    ensures Conserved(b, st.(sys := Create(st.sys).0))
  {
    HeapProofs.MallocIsBestFit(st.sys.heap, SPACE_SIZE);
    var c := HeapProofs.NewBlock(st.sys.heap, SPACE_SIZE, heap, p);
    HeapProofs.UsedLive(heap, c);
    var f := Frame(address);
    var vm := AddSpace(st.sys.vm.(pmm := pmm), f);
    assert Create(st.sys).0 == Sys(vm, heap, st.sys.spaces[p := Space(c, f)]);
    NewSpaceVm(st.sys.vm, pmm, address, vm);
    NewSpaceBooks(b, st.sys.vm, pmm, address, vm, st.held);
    Created(b, st, vm, heap, p, c, f);
  }

  lemma NewSpaceVm(m: Vm, pmm: PmmState, address: nat, m': Vm)
    requires Forest(m) && m.kernel in m.ram && (pmm, address) == m.pmm.AllocPages(1) && address != 0
    requires m' == AddSpace(m.(pmm := pmm), Frame(address))
    ensures Forest(m')
  {
    AllocatedPage(m.pmm);
    PlacedIfOwned(m, Frame(address));
    TakeAndAdd(m, pmm, Frame(address));
  }

  lemma NewSpaceBooks(b: Base, m: Vm, pmm: PmmState, address: nat, m': Vm, held: set<nat>)
    requires m.pmm.Valid() && AllPlaced(m) && m.kernel in m.ram && (pmm, address) == m.pmm.AllocPages(1) && address != 0
    requires VmBooks(b, m, held) && m' == AddSpace(m.(pmm := pmm), Frame(address))
    ensures VmBooks(b, m', held) && RootAdded(m, m', Frame(address))
  {
    AllocatedPage(m.pmm);
    PlacedIfOwned(m, Frame(address));
    AddSpaceIs(m, pmm, Frame(address));
    CreateBooks(b, m, m', Frame(address), held);
    RootIsAdded(m, m', Frame(address));
  }

  lemma Created(b: Base, st: State, vm: Vm, heap: seq<HeapList.Block>, p: nat, c: HeapList.Block, f: nat)
    requires Conserved(b, st) && Forest(vm) && VmBooks(b, vm, st.held) && RootAdded(st.sys.vm, vm, f)
    requires HeapList.Valid(heap) && HeapList.Used(heap) == HeapList.Used(st.sys.heap) + {c}
    requires c !in HeapList.Used(st.sys.heap) && c in HeapList.Used(heap) && c.Payload() == p
    ensures Conserved(b, st.(sys := Sys(vm, heap, st.sys.spaces[p := Space(c, f)])))
  {
    AddToSpaces(st.sys, vm, heap, p, c, f);
    OwnOne(b.blocks, SpaceBlocks(st.sys.spaces), st.blocks, HeapList.Used(st.sys.heap), c);
  }

  // ---------------------------------------------------------------- destroying

  lemma DestroyVm(b: Base, m: Vm, r: nat, held: set<nat>)
    requires Forest(m) && IsRoot(m, r) && r != m.kernel && VmBooks(b, m, held)
    ensures var m' := DestroySpace(m, r);
      Forest(m') && RootRemoved(m, m', r) && VmBooks(b, m', held)
  {
    DestroySpaceKeeps(m, r);
    OwnedAreTaken(m);
    SpaceIsOwned(m, r);
    DestroyBooks(b, m, DestroySpace(m, r), held, OwnedBy(m, r));
    RootGone(m, r);
  }

  lemma SpaceIsOwned(m: Vm, r: nat)
    requires AllPlaced(m) && m.pmm.Valid() && r != m.kernel
    ensures OwnedBy(m, r) <= OwnedPages(m)
  {
    forall f | f in OwnedBy(m, r) ensures f < m.pmm.total {
      assert Placed(m, f);
    }
  }

  lemma DestroyBooks(b: Base, m: Vm, m': Vm, held: set<nat>, gone: set<nat>)
    requires VmBooks(b, m, held) && gone <= OwnedPages(m) <= m.pmm.taken && m'.own.Keys == m.own.Keys - gone
    requires m'.kernel == m.kernel && m'.pmm == m.pmm.(taken := m.pmm.taken - gone, used := m.pmm.used - |gone|)
    ensures VmBooks(b, m', held)
  {
    CardinalityOfDifference(m.pmm.taken, gone);
    assert m.pmm.taken * gone == gone;
    assert OwnedPages(m') == OwnedPages(m) - gone;
    OwnFewer(b.pages, OwnedPages(m), held, m.pmm.taken, gone);
  }

  lemma RootGone(m: Vm, r: nat)
    requires AllPlaced(m) && IsRoot(m, r)
    ensures RootRemoved(m, DestroySpace(m, r), r)
  {
    forall q ensures IsRoot(DestroySpace(m, r), q) <==> IsRoot(m, q) && q != r {
      if IsRoot(m, q) {
        RootIs(m, q);
      }
    }
  }

  lemma RemoveFromSpaces(s: Sys, vm: Vm, heap: seq<HeapList.Block>, p: nat)
    requires SysInv(s) && p in s.spaces && Forest(vm) && RootRemoved(s.vm, vm, s.spaces[p].root)
    requires HeapList.Valid(heap) && HeapList.Used(heap) == HeapList.Used(s.heap) - {s.spaces[p].block}
    ensures SysInv(Sys(vm, heap, s.spaces - {p}))
    ensures SpaceBlocks(s.spaces - {p}) == SpaceBlocks(s.spaces) - {s.spaces[p].block}
  {
    var s' := Sys(vm, heap, s.spaces - {p});
    assert SpaceOk(s, p);
    forall q | q in s'.spaces ensures SpaceOk(s', q) && s.spaces[q].block != s.spaces[p].block {
      assert SpaceOk(s, q);
    }
    forall q | IsRoot(vm, q) && q != vm.kernel ensures IsSpaceRoot(s', q) {
      assert IsSpaceRoot(s, q);
      var x :| x in s.spaces && s.spaces[x].root == q;
      assert s'.spaces[x].root == q;
    }
    BlocksLess(s.spaces, p);
  }

  lemma BlocksLess(spaces: map<nat, Space>, p: nat)
    requires p in spaces && forall q :: q in spaces && q != p ==> spaces[q].block != spaces[p].block
    ensures SpaceBlocks(spaces - {p}) == SpaceBlocks(spaces) - {spaces[p].block}
  {
    forall b ensures b in SpaceBlocks(spaces - {p}) <==> b in SpaceBlocks(spaces) - {spaces[p].block} {
      if b in SpaceBlocks(spaces) && b != spaces[p].block {
        var q :| q in spaces && spaces[q].block == b;
        assert (spaces - {p})[q].block == b;
      }
    }
  }

  lemma DestroyKeeps(b: Base, st: State, p: nat)
    requires Conserved(b, st) && p in st.sys.spaces
    ensures Conserved(b, st.(sys := Destroy(st.sys, p)))
  {
    assert SpaceOk(st.sys, p);
    var space := st.sys.spaces[p];
    HeapProofs.UsedLive(st.sys.heap, space.block);
    HeapProofs.FreeAtKeeps(st.sys.heap, HeapList.Index(st.sys.heap, p));
    Destroyed(b, st, p, HeapList.Free(st.sys.heap, p));
  }

  lemma Destroyed(b: Base, st: State, p: nat, heap: seq<HeapList.Block>)
    requires Conserved(b, st) && p in st.sys.spaces && SpaceOk(st.sys, p) && HeapList.Valid(heap)
    requires HeapList.Used(heap) == HeapList.Used(st.sys.heap) - {st.sys.spaces[p].block}
    ensures Conserved(b, st.(sys := Sys(DestroySpace(st.sys.vm, st.sys.spaces[p].root), heap, st.sys.spaces - {p})))
  {
    var space := st.sys.spaces[p];
    DestroyVm(b, st.sys.vm, space.root, st.held);
    RemoveFromSpaces(st.sys, DestroySpace(st.sys.vm, space.root), heap, p);
    assert space.block in SpaceBlocks(st.sys.spaces);
    OwnFewer(b.blocks, SpaceBlocks(st.sys.spaces), st.blocks, HeapList.Used(st.sys.heap), {space.block});
  }

  // ---------------------------------------------------------------- runs

  lemma StepKeeps(b: Base, st: State, call: Call)
    requires Conserved(b, st)
    ensures Conserved(b, Step(st, call))
  {
    if Legal(st, call) {
      match call
      case AllocCall => AllocKeeps(b, st);
      case FreeCall(f) => ReleaseKeepsBooks(b, st, f);
      case KmallocCall(size) => TakeKeeps(b, st, size);
      case KfreeCall(c) => GiveKeeps(b, st, c);
      case CreateCall =>
        KernelIsTable(st.sys.vm);
        CreateKeeps(b, st);
      case DestroyCall(p) => DestroyKeeps(b, st, p);
      case _ => MappingKeeps(b, st, call);
    }
  }

  lemma MappingKeeps(b: Base, st: State, call: Call)
    requires Conserved(b, st) && Legal(st, call) && (call.MapCall? || call.UnmapCall? || call.KernelMapCall?)
    ensures Conserved(b, Step(st, call))
  {
    match call
    case MapCall(p, virtual, f, flags) =>
      HeldFits(st.sys.vm, f);
      MapHeldKeeps(b, st, p, virtual, f, flags);
    case UnmapCall(p, virtual) => UnmapFromKeeps(b, st, p, virtual);
    case KernelMapCall(virtual, physical, flags) => KernelMapKeeps(b, st, virtual, physical, flags);
  }

  lemma StepKeepsInv(st: State, call: Call)
    requires StateInv(st)
    ensures StateInv(Step(st, call))
  {
    StartConserved(st);
    StepKeeps(BaseOf(st), st, call);
    ConservedIs(BaseOf(st), Step(st, call));
  }

  lemma CreateKeepsInv(s: Sys)
    requires SysInv(s)
    ensures s.vm.kernel in s.vm.ram && SysInv(Create(s).0)
  {
    var st := State(s, {}, {});
    KernelIsTable(s.vm);
    StartConserved(st);
    CreateKeeps(BaseOf(st), st);
  }

  lemma DestroyKeepsInv(s: Sys, p: nat)
    requires SysInv(s) && p in s.spaces
    ensures SysInv(Destroy(s, p))
  {
    var st := State(s, {}, {});
    StartConserved(st);
    DestroyKeeps(BaseOf(st), st, p);
  }

  ghost function Run(st: State, calls: seq<Call>): State
    requires StateInv(st)
    decreases |calls|
  {
    if calls == [] then st
    else
      StepKeepsInv(st, calls[0]);
      Run(Step(st, calls[0]), calls[1..])
  }

  /** In a run of any calls every page taken stays accounted for: the base is untouched, the rest is in some tree or
  with a client, each page in one place only; the same goes for heap blocks; and the page counter keeps its distance
  from the bitmap. */
  lemma {:induction false} RunAccounts(b: Base, st: State, calls: seq<Call>)
    requires Conserved(b, st)
    ensures StateInv(st) && Conserved(b, Run(st, calls))
    decreases |calls|
  {
    ConservedIs(b, st);
    if calls != [] {
      StepKeeps(b, st, calls[0]);
      RunAccounts(b, Step(st, calls[0]), calls[1..]);
    }
  }
}
