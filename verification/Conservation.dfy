/** What whole runs leave behind: once every space that was created is destroyed, the pages and heap blocks in use are
those that were in use, whatever other spaces live meanwhile and whatever clients hold. */
module Conservation {
  import opened Words
  import opened PhysicalMemoryProofs
  import opened PageTables
  import opened TableForest
  import opened Mapping
  import opened Unmapping
  import opened Spaces
  import opened Lifecycle
  import opened Isolation
  import HeapList

  // ---------------------------------------------------------------- one call

  /** A call leaves the frames of every root it is not about: those of other spaces, and, unless it maps a kernel page,
  those of the kernel. */
  lemma StepPlaces(st: State, call: Call, q: nat)
    requires StateInv(st) && IsRoot(st.sys.vm, q) && (call.KernelMapCall? ==> q != st.sys.vm.kernel)
    requires forall p :: p in st.sys.spaces && About(call, p) ==> st.sys.spaces[p].root != q
    ensures OwnedBy(Step(st, call).sys.vm, q) == OwnedBy(st.sys.vm, q)
  {
    var m := st.sys.vm;
    if Legal(st, call) {
      match call
      case CreateCall => CreatePlaces(st.sys, q);
      case DestroyCall(p) =>
        assert About(call, p);
        assert OwnedBy(DestroySpace(m, st.sys.spaces[p].root), q) == OwnedBy(m, q);
      case MapCall(p, virtual, f, flags) => MappingPlaces(st, call, q);
      case UnmapCall(p, virtual) => MappingPlaces(st, call, q);
      case KernelMapCall(virtual, physical, flags) => KernelMapPlaces(m, Page(virtual), physical, flags, q);
      case _ =>
    }
  }

  lemma MappingPlaces(st: State, call: Call, q: nat)
    requires StateInv(st) && Legal(st, call) && (call.MapCall? || call.UnmapCall?)
    requires forall p :: p in st.sys.spaces && About(call, p) ==> st.sys.spaces[p].root != q
    ensures OwnedBy(Step(st, call).sys.vm, q) == OwnedBy(st.sys.vm, q)
  {
    assert About(call, call.p);
    if call.MapCall? {
      MapHeldPlaces(st, call.p, call.virtual, call.frame, call.flags, q);
    } else {
      MapIntoCan(st.sys, call.p, call.virtual);
      UnmapPlaces(st.sys.vm, st.sys.spaces[call.p].root, Page(call.virtual), q);
    }
  }

  lemma CreatePlaces(s: Sys, q: nat)
    requires SysInv(s) && IsRoot(s.vm, q)
    ensures s.vm.kernel in s.vm.ram && OwnedBy(Create(s).0.vm, q) == OwnedBy(s.vm, q)
  {
    var m := s.vm;
    KernelIsTable(m);
    AllocatedPage(m.pmm);
    var (pmm, address) := m.pmm.AllocPages(1);
    PlacedIfOwned(m, Frame(address));
    if address != 0 {
      AddSpaceIs(m, pmm, Frame(address));
      assert OwnedBy(AddSpace(m.(pmm := pmm), Frame(address)), q) == OwnedBy(m, q);
    }
  }

  lemma MapHeldPlaces(st: State, p: nat, virtual: u64, f: nat, flags: u64, q: nat)
    requires StateInv(st) && Legal(st, MapCall(p, virtual, f, flags)) && f * 0x1000 < 0x1_0000_0000_0000_0000
    requires st.sys.spaces[p].root != q
    ensures OwnedBy(MapHeld(st, p, virtual, f, flags).sys.vm, q) == OwnedBy(st.sys.vm, q)
  {
    var m, root := st.sys.vm, st.sys.spaces[p].root;
    MapIntoCan(st.sys, p, virtual);
    assert SpaceOk(st.sys, p);
    HeldLeaf(m, root, virtual, f, flags);
    MapPagePlaces(m, root, Page(virtual), Entry(f * 0x1000, flags), SpaceLink(flags));
  }

  lemma UnmapPlaces(m: Vm, root: nat, page: nat, q: nat)
    requires CanMap(m, root, page) && root != m.kernel && q != root
    ensures OwnedBy(UnmapPage(m, root, page).0, q) == OwnedBy(m, q)
  {
    if LeafEntry(m.ram, root, page).Some? {
      FollowIsLeafTable(m, root, page, 4);
      LeafTableRoot(m, root, page);
      var t, i := LeafTable(m.ram, root, page, 4).value, Index(page, 1);
      assert Leads(m, t, i);
      assert OwnedBy(DropLeaf(m, t, i), q) == OwnedBy(m, q);
    }
  }

  lemma KernelMapPlaces(m: Vm, page: nat, physical: u64, flags: u64, q: nat)
    requires Forest(m) && IsPage(page) && Unmapped(m, page) && q != m.kernel
    ensures OwnedBy(MapPage(m, m.kernel, page, Entry(physical, flags), KERNEL_LINK).0, q) == OwnedBy(m, q)
  {
    KernelIsTable(m);
    EntryIs(physical, flags);
    MapPagePlaces(m, m.kernel, page, Entry(physical, flags), KERNEL_LINK);
  }

  // ---------------------------------------------------------------- runs

  /** Calls about no space that was there at the start. */
  ghost predicate Elsewhere(calls: seq<Call>, spaces: map<nat, Space>) {
    forall c, p :: c in calls && p in spaces ==> !About(c, p)
  }

  /** A space keeps its frames through a run that is not about it. */
  lemma {:induction false} RunSpacePlaces(st: State, calls: seq<Call>, p: nat)
    requires StateInv(st) && p in st.sys.spaces && forall c :: c in calls ==> !About(c, p)
    ensures var st' := Lifecycle.Run(st, calls);
      && p in st'.sys.spaces && st'.sys.spaces[p] == st.sys.spaces[p] && st'.sys.vm.kernel == st.sys.vm.kernel
      && OwnedBy(st'.sys.vm, st.sys.spaces[p].root) == OwnedBy(st.sys.vm, st.sys.spaces[p].root)
    decreases |calls|
  {
    if calls != [] {
      OtherRoots(st, calls[0], p);
      StepStays(st, calls[0], p);
      StepPlaces(st, calls[0], st.sys.spaces[p].root);
      StepKernel(st, calls[0]);
      StepKeepsInv(st, calls[0]);
      RunSpacePlaces(Step(st, calls[0]), calls[1..], p);
    }
  }

  /** The kernel keeps its own, and without kernel mappings gets nothing new. */
  lemma {:induction false} RunKernelPlaces(st: State, calls: seq<Call>)
    requires StateInv(st)
    ensures Lifecycle.Run(st, calls).sys.vm.kernel == st.sys.vm.kernel
    ensures !KernelMaps(calls) ==>
      OwnedBy(Lifecycle.Run(st, calls).sys.vm, st.sys.vm.kernel) == OwnedBy(st.sys.vm, st.sys.vm.kernel)
    decreases |calls|
  {
    if calls != [] {
      StepKernel(st, calls[0]);
      StepKeepsInv(st, calls[0]);
      RunKernelPlaces(Step(st, calls[0]), calls[1..]);
      if !KernelMaps(calls) {
        assert !calls[0].KernelMapCall? && !KernelMaps(calls[1..]);
        KernelIsTable(st.sys.vm);
        SpacesAreNotKernel(st.sys);
        StepPlaces(st, calls[0], st.sys.vm.kernel);
      }
    }
  }

  /** The frames that belong to spaces. */
  function SpacesOwn(m: Vm): set<nat> {
    set f | f in m.own && m.own[f].root != m.kernel
  }

  lemma OwnerIsSpace(s: Sys, f: nat)
    requires SysInv(s) && f in SpacesOwn(s.vm)
    ensures exists p :: p in s.spaces && s.spaces[p].root == s.vm.own[f].root
  {
    assert Placed(s.vm, f);
    assert IsSpaceRoot(s, s.vm.own[f].root);
  }

  /** With the same spaces at the end, spaces own the same frames. */
  lemma SameOwners(s: Sys, s': Sys)
    requires SysInv(s) && SysInv(s') && s'.spaces == s.spaces && s'.vm.kernel == s.vm.kernel
    requires forall p :: p in s.spaces ==> OwnedBy(s'.vm, s.spaces[p].root) == OwnedBy(s.vm, s.spaces[p].root)
    ensures SpacesOwn(s'.vm) == SpacesOwn(s.vm)
  {
    forall f | f in SpacesOwn(s.vm) ensures f in SpacesOwn(s'.vm) {
      OwnerIsSpace(s, f);
      var p :| p in s.spaces && s.spaces[p].root == s.vm.own[f].root;
      assert f in OwnedBy(s'.vm, s.spaces[p].root);
    }
    forall f | f in SpacesOwn(s'.vm) ensures f in SpacesOwn(s.vm) {
      OwnerIsSpace(s', f);
      var p :| p in s'.spaces && s'.spaces[p].root == s'.vm.own[f].root;
      assert f in OwnedBy(s.vm, s.spaces[p].root);
    }
  }

  lemma RunOwners(st: State, calls: seq<Call>)
    requires StateInv(st) && Elsewhere(calls, st.sys.spaces)
    requires Lifecycle.Run(st, calls).sys.spaces.Keys == st.sys.spaces.Keys && StateInv(Lifecycle.Run(st, calls))
    ensures Lifecycle.Run(st, calls).sys.spaces == st.sys.spaces
    ensures SpacesOwn(Lifecycle.Run(st, calls).sys.vm) == SpacesOwn(st.sys.vm)
  {
    var st' := Lifecycle.Run(st, calls);
    forall p | p in st.sys.spaces
      ensures st'.sys.spaces[p] == st.sys.spaces[p]
      ensures OwnedBy(st'.sys.vm, st.sys.spaces[p].root) == OwnedBy(st.sys.vm, st.sys.spaces[p].root)
    {
      RunSpacePlaces(st, calls, p);
    }
    RunKernelPlaces(st, calls);
    SameOwners(st.sys, st'.sys);
  }

  // ---------------------------------------------------------------- the books at the end

  /** What is taken, without what clients hold and the kernel's tables: the base and the frames of the spaces. */
  lemma OutsideKernel(b: Base, m: Vm, held: set<nat>)
    requires VmBooks(b, m, held) && m.pmm.Valid() && AllPlaced(m)
    ensures m.pmm.taken - held - OwnedBy(m, m.kernel) == b.pages + SpacesOwn(m)
  {
    SpacesArePages(m);
    WithoutSome(b.pages, OwnedPages(m), held, m.pmm.taken, OwnedBy(m, m.kernel));
  }

  lemma SpacesArePages(m: Vm)
    requires m.pmm.Valid() && AllPlaced(m)
    ensures SpacesOwn(m) == OwnedPages(m) - OwnedBy(m, m.kernel)
    ensures OwnedBy(m, m.kernel) * m.pmm.taken <= OwnedPages(m)
  {
    forall f: nat | f in SpacesOwn(m) ensures f in OwnedPages(m) {
      assert Placed(m, f);
    }
  }

  lemma WithoutSome(base: set<nat>, own: set<nat>, held: set<nat>, all: set<nat>, some: set<nat>)
    requires Parts(base, own, held, all) && some * all <= own
    ensures all - held - some == base + (own - some)
  {
    forall f: nat ensures f in all - held - some <==> f in base + (own - some) {
      assert f in some && f in all ==> f in some * all;
    }
  }

  /** With the kernel's tables: the base and everything with a place. */
  lemma WithKernel(b: Base, m: Vm, held: set<nat>)
    requires VmBooks(b, m, held)
    ensures m.pmm.taken - held == b.pages + OwnedPages(m)
    ensures |m.pmm.taken| == |m.pmm.taken - held| + |held|
  {
    CardinalityOfDifference(m.pmm.taken, held);
    assert m.pmm.taken * held == held;
  }

  lemma SameOwned(m: Vm, m': Vm)
    requires SpacesOwn(m') == SpacesOwn(m) && m'.kernel == m.kernel && m'.pmm.total == m.pmm.total
    requires OwnedBy(m', m.kernel) == OwnedBy(m, m.kernel)
    ensures OwnedPages(m') == OwnedPages(m)
  {
    forall f ensures f in m'.own <==> f in m.own {
      assert f in m.own <==> f in SpacesOwn(m) || f in OwnedBy(m, m.kernel);
      assert f in m'.own <==> f in SpacesOwn(m') || f in OwnedBy(m', m.kernel);
    }
  }

  /** The heap's blocks in use, without those clients hold. */
  lemma SameBlocks(b: Base, st: State, st': State)
    requires Conserved(b, st) && Conserved(b, st') && st'.sys.spaces == st.sys.spaces
    ensures HeapList.Used(st'.sys.heap) - st'.blocks == HeapList.Used(st.sys.heap) - st.blocks
    ensures st'.blocks == st.blocks ==> st'.sys.heap == st.sys.heap
  {
    assert HeapList.Used(st.sys.heap) - st.blocks == b.blocks + SpaceBlocks(st.sys.spaces);
    assert HeapList.Used(st'.sys.heap) - st'.blocks == b.blocks + SpaceBlocks(st.sys.spaces);
    if st'.blocks == st.blocks {
      HeapList.Canonical(st'.sys.heap, st.sys.heap);
    }
  }

  /** Pages: without kernel mappings nothing but what clients hold has changed; with them, the kernel's tables too. */
  ghost predicate PagesBack(st: State, st': State, kernelMaps: bool) {
    var m, m' := st.sys.vm, st'.sys.vm;
    && m'.pmm.taken - st'.held - OwnedBy(m', m'.kernel) == m.pmm.taken - st.held - OwnedBy(m, m.kernel)
    && (!kernelMaps ==>
          && m'.pmm.taken - st'.held == m.pmm.taken - st.held
          && m'.pmm.used - |st'.held| == m.pmm.used - |st.held|)
  }

  lemma SamePages(b: Base, st: State, st': State, kernelMaps: bool)
    requires Conserved(b, st) && Conserved(b, st') && SpacesOwn(st'.sys.vm) == SpacesOwn(st.sys.vm)
    requires !kernelMaps ==> OwnedBy(st'.sys.vm, st.sys.vm.kernel) == OwnedBy(st.sys.vm, st.sys.vm.kernel)
    ensures PagesBack(st, st', kernelMaps)
  {
    var m, m' := st.sys.vm, st'.sys.vm;
    OutsideKernel(b, m, st.held);
    OutsideKernel(b, m', st'.held);
    if !kernelMaps {
      SameOwned(m, m');
      WithKernel(b, m, st.held);
      WithKernel(b, m', st'.held);
    }
  }

  /** Conservation. From any state, with any spaces alive and anything held by clients, a run that is not about those
  spaces and at the end of which there are no others: whatever spaces were created, mapped into, successfully or not,
  unmapped from and destroyed in between, the pages taken are those that were, but for what clients hold; and so are the
  heap blocks. Where clients hold the same blocks, the block list is the same list. */
  lemma RunConserves(st: State, calls: seq<Call>)
    requires StateInv(st) && Elsewhere(calls, st.sys.spaces)
    requires Lifecycle.Run(st, calls).sys.spaces.Keys == st.sys.spaces.Keys
    ensures var st' := Lifecycle.Run(st, calls);
      && PagesBack(st, st', KernelMaps(calls))
      && HeapList.Used(st'.sys.heap) - st'.blocks == HeapList.Used(st.sys.heap) - st.blocks
      && (st'.blocks == st.blocks ==> st'.sys.heap == st.sys.heap)
  {
    var b, st' := BaseOf(st), Lifecycle.Run(st, calls);
    StartConserved(st);
    RunAccounts(b, st, calls);
    ConservedIs(b, st');
    RunOwners(st, calls);
    RunKernelPlaces(st, calls);
    SamePages(b, st, st', KernelMaps(calls));
    SameBlocks(b, st, st');
  }

  /** In particular: from a system without spaces, through any run without kernel mappings that ends without spaces, the
  pages taken are those at the start and those clients still hold, the counter says so, and likewise the heap blocks;
  with no block held the block list is what it was. */
  lemma RunRestores(s: Sys, calls: seq<Call>)
    requires SysInv(s) && s.spaces == map[] && !KernelMaps(calls)
    requires Lifecycle.Run(State(s, {}, {}), calls).sys.spaces == map[]
    ensures var st' := Lifecycle.Run(State(s, {}, {}), calls);
      && st'.sys.vm.pmm.taken == s.vm.pmm.taken + st'.held && s.vm.pmm.taken !! st'.held
      && st'.sys.vm.pmm.used == s.vm.pmm.used + |st'.held|
      && HeapList.Used(st'.sys.heap) == HeapList.Used(s.heap) + st'.blocks && HeapList.Used(s.heap) !! st'.blocks
      && (st'.blocks == {} ==> st'.sys.heap == s.heap)
  {
    var st := State(s, {}, {});
    var st' := Lifecycle.Run(st, calls);
    RunConserves(st, calls);
    StartConserved(st);
    RunAccounts(BaseOf(st), st, calls);
    ConservedIs(BaseOf(st), st');
    Without(s.vm.pmm.taken, st'.sys.vm.pmm.taken, st'.held);
    Without(HeapList.Used(s.heap), HeapList.Used(st'.sys.heap), st'.blocks);
  }

  lemma Without<T(!new)>(before: set<T>, after: set<T>, held: set<T>)
    requires after - held == before - {} && held <= after
    ensures after == before + held && before !! held
  {
    assert before - {} == before;
  }
}
