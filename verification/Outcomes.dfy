/** What each call brings about, said without the steps that bring it about: when it succeeds, what is taken, given back
and translated afterwards, and that nothing else is. */
module Outcomes {
  import opened Words
  import opened PhysicalMemory
  import opened PhysicalMemoryProofs
  import opened PageTables
  import opened TableForest
  import opened Mapping
  import opened Unmapping
  import opened Spaces
  import opened Lifecycle
  import HeapList
  import HeapProofs

  /** Every space translates every page as before. */
  ghost predicate Unchanged(m: Vm, m': Vm) {
    forall q, p: nat :: IsRoot(m, q) && IsPage(p) ==> Walk(m'.ram, q, p, 4) == Walk(m.ram, q, p, 4)
  }

  lemma SameWalksUnchanged(m: Vm, m': Vm)
    requires SameWalks(m, m')
    ensures Unchanged(m, m')
  {
    forall q, p: nat | IsRoot(m, q) && IsPage(p) ensures Walk(m'.ram, q, p, 4) == Walk(m.ram, q, p, 4) {
      assert IsTable(m, q);
    }
  }

  // ---------------------------------------------------------------- creating

  /** There is no page for the root, or no free block with 32 bytes, the least payload there is, for the structure. */
  ghost predicate NoRoom(s: Sys) {
    OutOfPages(s.vm.pmm) || forall b :: b in s.heap && !b.used ==> b.size < 32
  }

  /** There is one space more, at `p`. Its root is a page that was free, and the only one taken; it translates no page
  of the lower half and every other as the kernel does, and no other space sees a difference. Its structure is a new
  block, and the only one. */
  ghost predicate SpaceMade(s: Sys, s': Sys, p: nat) {
    && p !in s.spaces && s'.spaces.Keys == s.spaces.Keys + {p}
    && (forall q :: q in s.spaces ==> s'.spaces[q] == s.spaces[q])
    && RootMade(s.vm, s'.vm, s'.spaces[p].root)
    && BlockMade(s.heap, s'.heap, p, s'.spaces[p].block)
  }

  ghost predicate RootMade(m: Vm, m': Vm, r: nat) {
    && m.pmm.Free(r) && m'.pmm == m.pmm.(taken := m.pmm.taken + {r}, used := m.pmm.used + 1)
    && RootAdded(m, m', r) && NewTranslations(m, m', r) && Unchanged(m, m')
  }

  ghost predicate BlockMade(heap: seq<HeapList.Block>, heap': seq<HeapList.Block>, p: nat, b: HeapList.Block) {
    && b.Payload() == p && 32 <= b.size < 72
    && b !in HeapList.Used(heap) && HeapList.Used(heap') == HeapList.Used(heap) + {b}
  }

  /** `vmm_create_space` fails, changing nothing, exactly when there is no room; else there is a new space. */
  lemma CreateMakes(s: Sys)
    requires SysInv(s)
    ensures s.vm.kernel in s.vm.ram
    ensures var (s', p) := Create(s);
      && (p == 0 <==> NoRoom(s))
      && if p == 0 then s' == s else SpaceMade(s, s', p)
  {
    KernelIsTable(s.vm);
    AllocFailure(s.vm.pmm);
    NoBlock(s.heap);
    HeapProofs.MallocIsBestFit(s.heap, SPACE_SIZE);
    var (pmm, address) := s.vm.pmm.AllocPages(1);
    var (heap, p) := HeapList.Malloc(s.heap, SPACE_SIZE);
    if address != 0 {
      if p == 0 {
        AllocThenFree(s.vm.pmm, 1);
      } else {
        CreatedSpace(s, pmm, address, heap, p);
      }
    }
  }

  lemma NoBlock(heap: seq<HeapList.Block>)
    ensures HeapProofs.NoneFits(heap, SPACE_SIZE) <==> forall b :: b in heap && !b.used ==> b.size < 32
  {
    assert HeapList.Round(SPACE_SIZE) == 32;
    if HeapProofs.NoneFits(heap, SPACE_SIZE) {
      forall b | b in heap && !b.used ensures b.size < 32 {
        var i :| 0 <= i < |heap| && heap[i] == b;
        assert !HeapList.Fits(heap[i], 32);
      }
    }
  }

  lemma CreatedSpace(s: Sys, pmm: PmmState, address: nat, heap: seq<HeapList.Block>, p: nat)
    requires SysInv(s) && s.vm.kernel in s.vm.ram
    requires (pmm, address) == s.vm.pmm.AllocPages(1) && address != 0
    requires (heap, p) == HeapList.Malloc(s.heap, SPACE_SIZE) && p != 0
    ensures Create(s).1 == p && SpaceMade(s, Create(s).0, p)
  {
    var c := NewStructBlock(s, heap, p);
    CreateIs(s, pmm, address, heap, p, c);
    NewRootMade(s.vm, pmm, address);
  }

  lemma NewStructBlock(s: Sys, heap: seq<HeapList.Block>, p: nat) returns (c: HeapList.Block)
    requires SysInv(s) && (heap, p) == HeapList.Malloc(s.heap, SPACE_SIZE) && p != 0
    ensures BlockMade(s.heap, heap, p, c) && p !in s.spaces && HeapList.Tiles(heap) && c in HeapList.Used(heap)
  {
    HeapProofs.MallocIsBestFit(s.heap, SPACE_SIZE);
    c := HeapProofs.NewBlock(s.heap, SPACE_SIZE, heap, p);
    NewPointer(s, heap, p, c);
    assert HeapList.Round(SPACE_SIZE) == 32;
  }

  lemma CreateIs(s: Sys, pmm: PmmState, address: nat, heap: seq<HeapList.Block>, p: nat, c: HeapList.Block)
    requires s.vm.pmm.Valid() && s.vm.kernel in s.vm.ram
    requires (pmm, address) == s.vm.pmm.AllocPages(1) && address != 0
    requires (heap, p) == HeapList.Malloc(s.heap, SPACE_SIZE) && p != 0
    requires HeapList.Tiles(heap) && c in HeapList.Used(heap) && c.Payload() == p
    ensures var vm := AddSpace(s.vm.(pmm := pmm), Frame(address));
      Create(s) == (Sys(vm, heap, s.spaces[p := Space(c, Frame(address))]), p)
  {
    HeapProofs.UsedLive(heap, c);
  }

  lemma NewRootMade(m: Vm, pmm: PmmState, address: nat)
    requires Forest(m) && m.kernel in m.ram && (pmm, address) == m.pmm.AllocPages(1) && address != 0
    ensures RootMade(m, AddSpace(m.(pmm := pmm), Frame(address)), Frame(address))
  {
    var r, m1 := Frame(address), m.(pmm := pmm);
    AllocatedPage(m.pmm);
    AllocatedIsFree(m.pmm);
    PlacedIfOwned(m, r);
    TakingKeeps(m, pmm);
    AddSpaceKeeps(m1, r);
    AddSpaceIs(m, pmm, r);
    RootIsAdded(m, AddSpace(m1, r), r);
    SameWalksUnchanged(m1, AddSpace(m1, r));
  }

  // ---------------------------------------------------------------- destroying

  /** Space `p` is gone, its pages and its structure are given back, and nothing else; what the others translate
  stays. */
  ghost predicate SpaceGone(s: Sys, s': Sys, p: nat)
    requires p in s.spaces
  {
    var m, m', space := s.vm, s'.vm, s.spaces[p];
    && s'.spaces == s.spaces - {p} && RootRemoved(m, m', space.root) && Unchanged(m, m')
    && m'.pmm == m.pmm.(taken := m.pmm.taken - OwnedBy(m, space.root), used := m.pmm.used - |OwnedBy(m, space.root)|)
    && OwnedBy(m, space.root) <= m.pmm.taken && space.root in OwnedBy(m, space.root)
    && HeapList.Used(s'.heap) == HeapList.Used(s.heap) - {space.block} && space.block in HeapList.Used(s.heap)
  }

  lemma DestroyUnmakes(s: Sys, p: nat)
    requires SysInv(s) && p in s.spaces
    ensures SpaceGone(s, Destroy(s, p), p)
  {
    assert SpaceOk(s, p);
    var space := s.spaces[p];
    DestroySpaceKeeps(s.vm, space.root);
    RootGone(s.vm, space.root);
    RootIs(s.vm, space.root);
    SpaceIsOwned(s.vm, space.root);
    OwnedAreTaken(s.vm);
    HeapProofs.UsedLive(s.heap, space.block);
    HeapProofs.FreeAtKeeps(s.heap, HeapList.Index(s.heap, p));
  }

  // ---------------------------------------------------------------- mapping and unmapping

  /** After a mapping through `root`: where there are pages for the missing tables, the page is translated to the leaf,
  in exactly the spaces that see it, and no translation else has changed; where there are not, none has. As many pages
  have been taken as tables were missing, or all there were. */
  ghost predicate MapDone(m: Vm, m': Vm, root: nat, page: nat, leaf: u64) {
    && m'.kernel == m.kernel && DrewUpTo(m.pmm, m'.pmm, Missing(m.ram, root, page, 4))
    && if HasPages(m, root, page) then ChangedAt(m, m', root, page, Some(leaf)) else Unchanged(m, m')
  }

  /** There are pages for the tables that are missing. */
  ghost predicate HasPages(m: Vm, root: nat, page: nat) {
    Missing(m.ram, root, page, 4) <= FreeCount(m.pmm)
  }

  lemma MapPageMaps(m: Vm, root: nat, page: nat, leaf: u64, link: nat)
    requires CanMap(m, root, page) && LinkFlags(link) && Present(leaf)
    ensures var (m', ok) := MapPage(m, root, page, leaf, link);
      ok == HasPages(m, root, page) && MapDone(m, m', root, page, leaf)
  {
    MapPageSucceedsIff(m, root, page, leaf, link);
    MapPageRefines(m, root, page, leaf, link);
    var (m', ok) := MapPage(m, root, page, leaf, link);
    if !ok {
      SameWalksUnchanged(m, m');
    }
  }

  /** The same in space `p`, with the answer. */
  ghost predicate IntoSpace(s: Sys, s': Sys, p: nat, virtual: u64, leaf: u64, ok: bool)
    requires p in s.spaces
  {
    var root, page := s.spaces[p].root, Page(virtual);
    && s'.heap == s.heap && s'.spaces == s.spaces && IsRoot(s.vm, root)
    && ok == HasPages(s.vm, root, page) && MapDone(s.vm, s'.vm, root, page, leaf)
  }

  /** `vmm_map_page` on a space, of any frame. */
  lemma MapIntoMaps(s: Sys, p: nat, virtual: u64, physical: u64, flags: u64)
    requires SysInv(s) && p in s.spaces && LowerHalf(Page(virtual))
    ensures var (s', ok) := MapInto(s, p, virtual, physical, flags);
      IntoSpace(s, s', p, virtual, Entry(physical, flags), ok)
  {
    MapIntoCan(s, p, virtual);
    EntryIs(physical, flags);
    MapPageMaps(s.vm, s.spaces[p].root, Page(virtual), Entry(physical, flags), SpaceLink(flags));
  }

  /** `vmm_map_page` or `paging_map_page` for the kernel. */
  lemma MapKernelMaps(s: Sys, virtual: u64, physical: u64, flags: u64)
    requires SysInv(s) && PathClear(s.vm.ram, s.vm.kernel, Page(virtual), 4)
    ensures var s' := MapKernel(s, virtual, physical, flags);
      && s'.heap == s.heap && s'.spaces == s.spaces && IsRoot(s.vm, s.vm.kernel)
      && MapDone(s.vm, s'.vm, s.vm.kernel, Page(virtual), Entry(physical, flags))
  {
    KernelIsTable(s.vm);
    EntryIs(physical, flags);
    MapPageMaps(s.vm, s.vm.kernel, Page(virtual), Entry(physical, flags), KERNEL_LINK);
  }

  /** After unmapping the page is translated no more, everything else is as before, and the frame is given back. */
  ghost predicate UnmapDone(m: Vm, m': Vm, root: nat, page: nat) {
    && m'.kernel == m.kernel && m'.pmm.entries == m.pmm.entries && m'.pmm.total == m.pmm.total
    && MappedFrame(m, root, page) <= m.pmm.taken && m'.pmm.taken == m.pmm.taken - MappedFrame(m, root, page)
    && Drift(m'.pmm) == Drift(m.pmm) && ChangedAt(m, m', root, page, None)
  }

  lemma UnmapFromUnmaps(s: Sys, p: nat, virtual: u64)
    requires SysInv(s) && p in s.spaces && LowerHalf(Page(virtual))
    ensures var s' := UnmapFrom(s, p, virtual);
      && s'.heap == s.heap && s'.spaces == s.spaces && IsRoot(s.vm, s.spaces[p].root)
      && UnmapDone(s.vm, s'.vm, s.spaces[p].root, Page(virtual))
  {
    var root, page := s.spaces[p].root, Page(virtual);
    MapIntoCan(s, p, virtual);
    UnmapPageRefines(s.vm, root, page);
    UnmapBooks(s.vm, root, page);
    OwnedAreTaken(s.vm);
  }

  // ---------------------------------------------------------------- one call of a run

  /** A page more is held, if there is one. */
  ghost predicate PageGot(st: State, st': State) {
    var s, s' := st.sys.vm.pmm, st'.sys.vm.pmm;
    if OutOfPages(s) then st' == st
    else
      exists f: nat ::
        && s.Free(f) && f !in st.held && st'.held == st.held + {f}
        && s' == s.(taken := s.taken + {f}, used := s.used + 1)
        && st' == st.(held := st'.held, sys := st.sys.(vm := st.sys.vm.(pmm := s')))
  }

  /** Page `f` is given back. */
  ghost predicate PageGiven(st: State, st': State, f: nat) {
    var s, s' := st.sys.vm.pmm, st'.sys.vm.pmm;
    && st'.held == st.held - {f} && s' == s.(taken := s.taken - {f}, used := s.used - 1)
    && st' == st.(held := st'.held, sys := st.sys.(vm := st.sys.vm.(pmm := s')))
  }

  /** A block more is held, if there is one for the size. */
  ghost predicate BlockGot(st: State, st': State, size: u64) {
    if size == 0 || HeapProofs.NoneFits(st.sys.heap, size) then st' == st
    else
      exists c: HeapList.Block ::
        && c !in HeapList.Used(st.sys.heap) && HeapList.Used(st'.sys.heap) == HeapList.Used(st.sys.heap) + {c}
        && HeapList.Round(size) <= c.size < HeapList.Round(size) + 40
        && st' == st.(blocks := st.blocks + {c}, sys := st.sys.(heap := st'.sys.heap))
  }

  ghost predicate BlockGiven(st: State, st': State, c: HeapList.Block) {
    && HeapList.Used(st'.sys.heap) == HeapList.Used(st.sys.heap) - {c}
    && st' == st.(blocks := st.blocks - {c}, sys := st.sys.(heap := st'.sys.heap))
  }

  /** The held page `f` is mapped into a space and passes to it; what was mapped there before comes back. */
  ghost predicate HeldMapped(st: State, st': State, root: nat, page: nat, f: nat, flags: u64)
    requires f * 0x1000 < 0x1_0000_0000_0000_0000
  {
    && MapDone(st.sys.vm, st'.sys.vm, root, page, Entry(f * 0x1000, flags))
    && st'.held == (if HasPages(st.sys.vm, root, page)
                    then st.held - {f} + MappedFrame(st.sys.vm, root, page) else st.held)
    && st' == st.(held := st'.held, sys := st.sys.(vm := st'.sys.vm))
  }

  ghost predicate Served(st: State, call: Call, st': State)
    requires StateInv(st) && Legal(st, call)
  {
    match call
    case AllocCall => PageGot(st, st')
    case FreeCall(f) => PageGiven(st, st', f)
    case KmallocCall(size) => BlockGot(st, st', size)
    case KfreeCall(c) => BlockGiven(st, st', c)
    case CreateCall =>
      if NoRoom(st.sys) then st' == st
      else st' == st.(sys := st'.sys) && exists p: nat :: SpaceMade(st.sys, st'.sys, p)
    case DestroyCall(p) => st' == st.(sys := st'.sys) && SpaceGone(st.sys, st'.sys, p)
    case MapCall(p, virtual, f, flags) =>
      HeldFits(st.sys.vm, f);
      HeldMapped(st, st', st.sys.spaces[p].root, Page(virtual), f, flags)
    case UnmapCall(p, virtual) =>
      && st' == st.(sys := st.sys.(vm := st'.sys.vm))
      && UnmapDone(st.sys.vm, st'.sys.vm, st.sys.spaces[p].root, Page(virtual))
    case KernelMapCall(virtual, physical, flags) =>
      && st' == st.(sys := st.sys.(vm := st'.sys.vm))
      && MapDone(st.sys.vm, st'.sys.vm, st.sys.vm.kernel, Page(virtual), Entry(physical, flags))
  }

  /** Every legal call does what it is for, and every other nothing. */
  lemma StepServes(st: State, call: Call)
    requires StateInv(st)
    ensures if Legal(st, call) then Served(st, call, Step(st, call)) else Step(st, call) == st
  {
    if Legal(st, call) {
      match call
      case AllocCall => AllocGets(st);
      case FreeCall(f) => ReleaseOne(st.sys.vm.pmm, f);
      case KmallocCall(size) => TakeGets(st, size);
      case KfreeCall(c) => GiveGives(st, c);
      case CreateCall => CreateMakes(st.sys);
      case DestroyCall(p) => DestroyUnmakes(st.sys, p);
      case MapCall(p, virtual, f, flags) =>
        HeldFits(st.sys.vm, f);
        MapIntoMaps(st.sys, p, virtual, f * 0x1000, flags);
      case UnmapCall(p, virtual) => UnmapFromUnmaps(st.sys, p, virtual);
      case KernelMapCall(virtual, physical, flags) => MapKernelMaps(st.sys, virtual, physical, flags);
    }
  }

  /** A run takes one step after the other. */
  lemma {:induction false} RunSteps(st: State, calls: seq<Call>, k: nat)
    requires StateInv(st) && k < |calls|
    ensures StateInv(Lifecycle.Run(st, calls[..k]))
    ensures Lifecycle.Run(st, calls[..k + 1]) == Step(Lifecycle.Run(st, calls[..k]), calls[k])
    decreases k
  {
    StepKeepsInv(st, calls[0]);
    if k == 0 {
      assert calls[..1][1..] == [];
    } else {
      var st1, rest := Step(st, calls[0]), calls[1..];
      assert calls[..k][1..] == rest[..k - 1] && calls[..k + 1][1..] == rest[..k];
      assert Lifecycle.Run(st, calls[..k]) == Lifecycle.Run(st1, rest[..k - 1]);
      assert Lifecycle.Run(st, calls[..k + 1]) == Lifecycle.Run(st1, rest[..k]);
      RunSteps(st1, rest, k - 1);
    }
  }

  /** In every run each legal call is served, in the state that those before it left, and every other ignored. */
  lemma RunServes(st: State, calls: seq<Call>, k: nat)
    requires StateInv(st) && k < |calls|
    ensures var before, after := Lifecycle.Run(st, calls[..k]), Lifecycle.Run(st, calls[..k + 1]);
      && StateInv(before)
      && if Legal(before, calls[k]) then Served(before, calls[k], after) else after == before
  {
    RunSteps(st, calls, k);
    StepServes(Lifecycle.Run(st, calls[..k]), calls[k]);
  }

  lemma AllocGets(st: State)
    requires StateInv(st)
    ensures PageGot(st, Alloc(st))
  {
    var s := st.sys.vm.pmm;
    AllocFailure(s);
    AllocatedPage(s);
    AllocatedIsFree(s);
    var f := Frame(s.AllocPages(1).1);
    if s.AllocPages(1).1 != 0 {
      assert s.Free(f) && Alloc(st).held == st.held + {f};
    }
  }

  lemma TakeGets(st: State, size: u64)
    requires StateInv(st)
    ensures BlockGot(st, Take(st, size), size)
  {
    var heap := st.sys.heap;
    HeapProofs.MallocIsBestFit(heap, size);
    var (heap', q) := HeapList.Malloc(heap, size);
    if q != 0 {
      var c := HeapProofs.NewBlock(heap, size, heap', q);
      assert HeapList.Used(heap') - HeapList.Used(heap) == {c};
      assert Take(st, size).blocks == st.blocks + {c};
    } else {
      assert Take(st, size) == st;
    }
  }

  lemma GiveGives(st: State, c: HeapList.Block)
    requires StateInv(st) && c in st.blocks
    ensures BlockGiven(st, Give(st, c), c)
  {
    HeapProofs.UsedLive(st.sys.heap, c);
    HeapProofs.FreeAtKeeps(st.sys.heap, HeapList.Index(st.sys.heap, c.Payload()));
  }
}
