/** Spaces do not see each other, and they all see the kernel's half. */
module Isolation {
  import opened Words
  import opened PhysicalMemory
  import opened PageTables
  import opened TableForest
  import opened Mapping
  import opened Unmapping
  import opened Spaces
  import opened Lifecycle
  import HeapList
  import HeapProofs

  /** The upper half of a PML4. */
  ghost predicate SameSlots(m: Vm, m': Vm, r: nat) {
    r in m.ram && r in m'.ram && forall i: nat :: HighSlot(i) && i < 512 ==> m'.ram[r][i] == m.ram[r][i]
  }

  /** The translations of the lower half. */
  ghost predicate SameLower(m: Vm, m': Vm, r: nat) {
    forall page: nat :: LowerHalf(page) ==> Walk(m'.ram, r, page, 4) == Walk(m.ram, r, page, 4)
  }

  /** In every state a space translates a page of the upper half as the kernel does, where its PML4 slot is present, and
  not at all where it is not. */
  lemma UpperHalfCoherent(m: Vm, r: nat, page: nat)
    requires Forest(m) && IsRoot(m, r) && IsPage(page) && !LowerHalf(page)
    ensures Walk(m.ram, r, page, 4) ==
      if Present(m.ram[r][Index(page, 4)]) then Walk(m.ram, m.kernel, page, 4) else None
  {
    TopIndex(page);
    KernelIsTable(m);
    if Present(m.ram[r][Index(page, 4)]) {
      assert m.ram[r][Index(page, 4)] == m.ram[m.kernel][Index(page, 4)];
    }
  }

  // ---------------------------------------------------------------- PML4 slots

  lemma {:induction false} LocateKeepsRoots(m: Vm, t: nat, page: nat, level: nat, link: nat)
    requires Forest(m) && Starts(m, t, page, level) && level <= 3 && LinkFlags(link)
    ensures SameRoots(m, Locate(m, t, page, level, link).0)
    decreases level
  {
    if 2 <= level {
      var i := Index(page, level);
      DescendStarts(m, t, page, level, link);
      DescendKeepsRoots(m, t, i, link);
      var (m1, next) := Descend(m, t, i, link);
      if next.Some? {
        LocateKeepsRoots(m1, next.value, page, level - 1, link);
      }
    }
  }

  lemma DescendKeepsRoots(m: Vm, t: nat, i: nat, link: nat)
    requires Forest(m) && MayFollow(m, t, i) && m.own[t].level <= 3 && LinkFlags(link)
    ensures SameRoots(m, Descend(m, t, i, link).0)
  {
    var m' := Descend(m, t, i, link).0;
    var (pmm, address) := m.pmm.AllocPages(1);
    AllocatedPage(m.pmm);
    if Present(m.ram[t][i]) || address == 0 {
      assert m' == m;
    } else {
      assert m' == Link(m.(pmm := pmm), t, i, address + link);
      FlagsOfSum(address, link);
      PlacedIfOwned(m, Frame(address));
      LinkKeepsRoots(m.(pmm := pmm), t, i, address + link);
    }
  }

  lemma LinkKeepsRoots(m: Vm, t: nat, i: nat, e: u64)
    requires IsTable(m, t) && m.own[t].level <= 3 && i < 512 && Frame(e) !in m.own
    ensures SameRoots(m, Link(m, t, i, e))
  {
  }

  /** A walk for a lower-half page leaves the upper slots of its own PML4 alone. */
  lemma LocateKeepsSlots(m: Vm, r: nat, page: nat, link: nat)
    requires CanMap(m, r, page) && r != m.kernel && LinkFlags(link)
    ensures SameSlots(m, Locate(m, r, page, 4, link).0, r)
  {
    RootIs(m, r);
    TopIndex(page);
    var i := Index(page, 4);
    DescendStarts(m, r, page, 4, link);
    DescendKeepsSlots(m, r, i, link);
    var (m1, next) := Descend(m, r, i, link);
    if next.Some? {
      LocateKeepsRoots(m1, next.value, page, 3, link);
    }
  }

  lemma DescendKeepsSlots(m: Vm, r: nat, i: nat, link: nat)
    requires Forest(m) && MayFollow(m, r, i) && IsRoot(m, r) && !HighSlot(i) && LinkFlags(link)
    ensures SameSlots(m, Descend(m, r, i, link).0, r)
  {
    AllocatedPage(m.pmm);
    var (pmm, address) := m.pmm.AllocPages(1);
    if !Present(m.ram[r][i]) && address != 0 {
      FlagsOfSum(address, link);
      PlacedIfOwned(m, Frame(address));
    }
  }

  lemma MapPageKeepsSlots(m: Vm, root: nat, page: nat, leaf: u64, link: nat, r: nat)
    requires CanMap(m, root, page) && LinkFlags(link) && IsRoot(m, r) && r != m.kernel
    ensures SameSlots(m, MapPage(m, root, page, leaf, link).0, r)
  {
    RootIs(m, r);
    if r == root {
      LocateKeepsSlots(m, r, page, link);
      LocatedWalk(m, root, page, link);
    } else {
      MapPageLocal(m, root, page, leaf, link);
    }
  }

  // ---------------------------------------------------------------- translations

  /** Every page is translated as before. */
  ghost predicate SameAll(m: Vm, m': Vm, r: nat) {
    forall page: nat :: IsPage(page) ==> Walk(m'.ram, r, page, 4) == Walk(m.ram, r, page, 4)
  }

  /** Every page that was translated still is, to the same entry. */
  ghost predicate Keeps(m: Vm, m': Vm, r: nat) {
    forall page: nat :: IsPage(page) && Walk(m.ram, r, page, 4).Some? ==>
      Walk(m'.ram, r, page, 4) == Walk(m.ram, r, page, 4)
  }

  /** Mapping through a space other than the kernel's, or unmapping there, changes no translation of another root. */
  lemma MapElsewhere(m: Vm, root: nat, page: nat, leaf: u64, link: nat, r: nat)
    requires CanMap(m, root, page) && LinkFlags(link) && Present(leaf) && root != m.kernel && IsRoot(m, r) && r != root
    ensures SameAll(m, MapPage(m, root, page, leaf, link).0, r)
  {
    MapPageRefines(m, root, page, leaf, link);
    assert IsTable(m, r) && m.own[r].level == 4;
  }

  lemma UnmapElsewhere(m: Vm, root: nat, page: nat, r: nat)
    requires CanMap(m, root, page) && root != m.kernel && IsRoot(m, r) && r != root
    ensures SameAll(m, UnmapPage(m, root, page).0, r) && SameSlots(m, UnmapPage(m, root, page).0, r)
  {
    UnmapPageRefines(m, root, page);
  }

  /** A kernel mapping of a page the kernel did not translate replaces no translation of any space, and is not seen in
  the lower half of other spaces. */
  lemma KernelMapAdds(m: Vm, page: nat, leaf: u64, r: nat)
    requires CanMap(m, m.kernel, page) && Present(leaf) && Walk(m.ram, m.kernel, page, 4) == None && IsRoot(m, r)
    ensures var m' := MapPage(m, m.kernel, page, leaf, KERNEL_LINK).0;
      Keeps(m, m', r) && (r != m.kernel ==> SameLower(m, m', r))
  {
    MapPageRefines(m, m.kernel, page, leaf, KERNEL_LINK);
    TopIndex(page);
    assert IsTable(m, r) && m.own[r].level == 4;
    KernelIsTable(m);
    if Sees(m, r, m.kernel, page) {
      SeersAgree(m, r, m.kernel, page);
    }
  }

  lemma CreatedUntouched(m: Vm, pmm: PmmState, address: nat, r: nat)
    requires Forest(m) && m.kernel in m.ram && IsRoot(m, r) && (pmm, address) == m.pmm.AllocPages(1) && address != 0
    ensures var m' := AddSpace(m.(pmm := pmm), Frame(address)); SameSlots(m, m', r) && SameAll(m, m', r)
  {
    AllocatedPage(m.pmm);
    PlacedIfOwned(m, Frame(address));
    TakingKeeps(m, pmm);
    AddWalks(m.(pmm := pmm), Frame(address));
    RootIs(m, r);
    var m' := AddSpace(m.(pmm := pmm), Frame(address));
    forall page: nat | IsPage(page) ensures Walk(m'.ram, r, page, 4) == Walk(m.ram, r, page, 4) {
      assert IsTable(m.(pmm := pmm), r);
    }
  }

  // ---------------------------------------------------------------- one call

  /** The call is about space `p`. */
  predicate About(call: Call, p: nat) {
    (call.MapCall? || call.UnmapCall? || call.DestroyCall?) && call.p == p
  }

  /** What a root keeps through a call that is not about it. */
  ghost predicate Undisturbed(m: Vm, m': Vm, r: nat, kernelMaps: bool) {
    && Keeps(m, m', r)
    && (r != m.kernel ==> SameSlots(m, m', r) && SameLower(m, m', r))
    && (!kernelMaps ==> SameAll(m, m', r))
  }

  lemma StepUndisturbed(st: State, call: Call, r: nat)
    requires StateInv(st) && IsRoot(st.sys.vm, r)
    requires forall p :: p in st.sys.spaces && About(call, p) ==> st.sys.spaces[p].root != r
    ensures Undisturbed(st.sys.vm, Step(st, call).sys.vm, r, call.KernelMapCall?)
  {
    var m := st.sys.vm;
    if Legal(st, call) {
      match call
      case CreateCall => CreateUndisturbed(st.sys, r);
      case MapCall(p, virtual, f, flags) =>
        assert About(call, p);
        MapUndisturbed(st, p, virtual, f, flags, r);
      case UnmapCall(p, virtual) =>
        assert About(call, p);
        MapIntoCan(st.sys, p, virtual);
        UnmapElsewhere(m, st.sys.spaces[p].root, Page(virtual), r);
        AllIsMost(m, Step(st, call).sys.vm, r);
      case KernelMapCall(virtual, physical, flags) =>
        KernelUndisturbed(m, Page(virtual), physical, flags, r);
      case _ =>
        AllIsMost(m, Step(st, call).sys.vm, r);
    }
  }

  lemma AllIsMost(m: Vm, m': Vm, r: nat)
    requires SameAll(m, m', r) && SameSlots(m, m', r)
    ensures Undisturbed(m, m', r, false)
  {
  }

  lemma CreateUndisturbed(s: Sys, r: nat)
    requires SysInv(s) && IsRoot(s.vm, r)
    ensures s.vm.kernel in s.vm.ram && Undisturbed(s.vm, Create(s).0.vm, r, false)
  {
    var m := s.vm;
    KernelIsTable(m);
    AllocatedPage(m.pmm);
    var (pmm, address) := m.pmm.AllocPages(1);
    var (heap, x) := HeapList.Malloc(s.heap, SPACE_SIZE);
    if address != 0 && x != 0 {
      CreatedUntouched(m, pmm, address, r);
    }
    AllIsMost(m, Create(s).0.vm, r);
  }

  lemma MapUndisturbed(st: State, p: nat, virtual: u64, f: nat, flags: u64, r: nat)
    requires StateInv(st) && Legal(st, MapCall(p, virtual, f, flags)) && f * 0x1000 < 0x1_0000_0000_0000_0000
    requires IsRoot(st.sys.vm, r) && st.sys.spaces[p].root != r
    ensures Undisturbed(st.sys.vm, MapHeld(st, p, virtual, f, flags).sys.vm, r, false)
  {
    var m, root, leaf, link := st.sys.vm, st.sys.spaces[p].root, Entry(f * 0x1000, flags), SpaceLink(flags);
    MapIntoCan(st.sys, p, virtual);
    EntryIs(f * 0x1000, flags);
    MapElsewhere(m, root, Page(virtual), leaf, link, r);
    if r != m.kernel {
      MapPageKeepsSlots(m, root, Page(virtual), leaf, link, r);
    }
  }

  lemma KernelUndisturbed(m: Vm, page: nat, physical: u64, flags: u64, r: nat)
    requires Forest(m) && IsPage(page) && Unmapped(m, page) && IsRoot(m, r)
    ensures Undisturbed(m, MapPage(m, m.kernel, page, Entry(physical, flags), KERNEL_LINK).0, r, true)
  {
    KernelIsTable(m);
    EntryIs(physical, flags);
    KernelMapAdds(m, page, Entry(physical, flags), r);
    if r != m.kernel {
      MapPageKeepsSlots(m, m.kernel, page, Entry(physical, flags), KERNEL_LINK, r);
    }
  }

  /** A space stays, with its root, through calls that are not about it. */
  lemma StepStays(st: State, call: Call, p: nat)
    requires StateInv(st) && p in st.sys.spaces && !About(call, p)
    ensures p in Step(st, call).sys.spaces && Step(st, call).sys.spaces[p] == st.sys.spaces[p]
  {
    if Legal(st, call) {
      match call
      case CreateCall => CreateStays(st.sys, p);
      case _ =>
    }
  }

  lemma CreateStays(s: Sys, p: nat)
    requires SysInv(s) && p in s.spaces
    ensures s.vm.kernel in s.vm.ram && p in Create(s).0.spaces && Create(s).0.spaces[p] == s.spaces[p]
  {
    KernelIsTable(s.vm);
    var (heap, x) := HeapList.Malloc(s.heap, SPACE_SIZE);
    if x != 0 {
      NewPointerFresh(s, heap, x);
    }
  }

  lemma NewPointerFresh(s: Sys, heap: seq<HeapList.Block>, x: nat)
    requires SysInv(s) && (heap, x) == HeapList.Malloc(s.heap, SPACE_SIZE) && x != 0
    ensures x !in s.spaces
  {
    HeapProofs.MallocIsBestFit(s.heap, SPACE_SIZE);
    var c := HeapProofs.NewBlock(s.heap, SPACE_SIZE, heap, x);
    NewPointer(s, heap, x, c);
  }

  /** The spaces a call is about have other roots. */
  lemma OtherRoots(st: State, call: Call, p: nat)
    requires StateInv(st) && p in st.sys.spaces && !About(call, p)
    ensures forall q :: q in st.sys.spaces && About(call, q) ==> st.sys.spaces[q].root != st.sys.spaces[p].root
    ensures IsRoot(st.sys.vm, st.sys.spaces[p].root) && st.sys.spaces[p].root != st.sys.vm.kernel
  {
    assert SpaceOk(st.sys, p);
  }

  /** A call about another space changes no translation of this one; a kernel mapping replaces none, and adds only in
  the upper half. The PML4 slots of the upper half stay. */
  lemma StepIsolates(st: State, call: Call, p: nat)
    requires StateInv(st) && p in st.sys.spaces && !About(call, p)
    ensures p in Step(st, call).sys.spaces && Step(st, call).sys.spaces[p] == st.sys.spaces[p]
    ensures Undisturbed(st.sys.vm, Step(st, call).sys.vm, st.sys.spaces[p].root, call.KernelMapCall?)
  {
    OtherRoots(st, call, p);
    StepStays(st, call, p);
    StepUndisturbed(st, call, st.sys.spaces[p].root);
  }

  /** A new kernel mapping shows in a space exactly when the space has the PML4 slot, which it has or lacks since its
  creation: slots the kernel adds later are not copied. */
  lemma KernelMappingShows(m: Vm, page: nat, leaf: u64, r: nat)
    requires CanMap(m, m.kernel, page) && !LowerHalf(page) && Present(leaf) && IsRoot(m, r) && r != m.kernel
    requires MapPage(m, m.kernel, page, leaf, KERNEL_LINK).1
    ensures Walk(MapPage(m, m.kernel, page, leaf, KERNEL_LINK).0.ram, r, page, 4) == Some(leaf)
       <==> Present(m.ram[r][Index(page, 4)])
  {
    TopIndex(page);
    UpperHalfCoherent(m, r, page);
    MapPageRefines(m, m.kernel, page, leaf, KERNEL_LINK);
  }

  // ---------------------------------------------------------------- runs

  lemma Onwards(m: Vm, m1: Vm, m2: Vm, r: nat, first: bool, rest: bool)
    requires Undisturbed(m, m1, r, first) && Undisturbed(m1, m2, r, rest) && m1.kernel == m.kernel
    ensures Undisturbed(m, m2, r, first || rest)
  {
    forall page: nat | IsPage(page) && Walk(m.ram, r, page, 4).Some?
      ensures Walk(m2.ram, r, page, 4) == Walk(m.ram, r, page, 4)
    {
      assert Walk(m1.ram, r, page, 4) == Walk(m.ram, r, page, 4);
    }
  }

  ghost predicate KernelMaps(calls: seq<Call>) {
    exists c: Call :: c in calls && c.KernelMapCall?
  }

  lemma StepKernel(st: State, call: Call)
    requires StateInv(st)
    ensures Step(st, call).sys.vm.kernel == st.sys.vm.kernel
  {
    StartConserved(st);
    StepKeeps(BaseOf(st), st, call);
  }

  /** Over any run of calls about other spaces a space keeps every translation, lower half and upper half; if the kernel
  maps pages meanwhile, it still keeps every translation it had, everything in the lower half, and every slot of the
  upper half. */
  lemma {:induction false} RunIsolates(st: State, calls: seq<Call>, p: nat)
    requires StateInv(st) && p in st.sys.spaces && forall c :: c in calls ==> !About(c, p)
    ensures var st' := Lifecycle.Run(st, calls);
      && p in st'.sys.spaces && st'.sys.spaces[p] == st.sys.spaces[p]
      && Undisturbed(st.sys.vm, st'.sys.vm, st.sys.spaces[p].root, KernelMaps(calls))
    decreases |calls|
  {
    if calls != [] {
      StepIsolates(st, calls[0], p);
      StepKeepsInv(st, calls[0]);
      StepKernel(st, calls[0]);
      RunIsolates(Step(st, calls[0]), calls[1..], p);
      Onwards(st.sys.vm, Step(st, calls[0]).sys.vm, Lifecycle.Run(st, calls).sys.vm, st.sys.spaces[p].root,
              calls[0].KernelMapCall?, KernelMaps(calls[1..]));
    } else {
      OtherRoots(st, AllocCall, p);
    }
  }

  /** Over any run of calls whatever the kernel keeps every translation it had: its heap stays where it was mapped. */
  lemma {:induction false} RunKeepsKernel(st: State, calls: seq<Call>)
    requires StateInv(st)
    ensures Keeps(st.sys.vm, Lifecycle.Run(st, calls).sys.vm, st.sys.vm.kernel)
    decreases |calls|
  {
    if calls != [] {
      KernelIsTable(st.sys.vm);
      SpacesAreNotKernel(st.sys);
      StepUndisturbed(st, calls[0], st.sys.vm.kernel);
      StepKeepsInv(st, calls[0]);
      StepKernel(st, calls[0]);
      RunKeepsKernel(Step(st, calls[0]), calls[1..]);
    }
  }

  lemma SpacesAreNotKernel(s: Sys)
    requires SysInv(s)
    ensures forall p :: p in s.spaces ==> s.spaces[p].root != s.vm.kernel
  {
    forall p | p in s.spaces ensures s.spaces[p].root != s.vm.kernel {
      assert SpaceOk(s, p);
    }
  }
}
