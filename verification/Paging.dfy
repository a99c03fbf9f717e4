/** kernel/src/memory/paging.c and the walk of kernel/src/memory/vmm.c: page tables updated in place.

A pointer to a table is the number of the frame the table is in: the kernel reaches frame `f` through the direct map at
`f * 0x1000 + hhdm_offset`, and the offset cancels wherever a pointer is made and used. */
module Paging {
  import opened Words
  import opened PhysicalMemory
  import opened PageTables
  import opened TableForest
  import opened Mapping
  import opened Unmapping
  import opened Spaces

  class Mmu {
    const pmm: PageAllocator
    var ram: map<nat, Table>      // the frames that hold page tables, and the others
    var cr3: u64
    var hhdm: Option<u64>         // the boot loader's response, missing before paging_init
    ghost var own: map<nat, Tag>
    ghost const kernel: nat

    ghost function State(): Vm
      reads this, pmm
    {
      Vm(ram, pmm.State(), own, kernel)
    }

    ghost predicate Valid()
      reads this, pmm, pmm.bitmap
    {
      pmm.Valid() && Forest(State())
    }

    /** The machine as the boot loader hands it over. */
    constructor (pmm: PageAllocator, ram: map<nat, Table>, cr3: u64, ghost own: map<nat, Tag>)
      requires pmm.Valid() && Forest(Vm(ram, pmm.State(), own, Frame(cr3)))
      ensures Valid() && hhdm == None && this.pmm == pmm && this.cr3 == cr3 && kernel == Frame(cr3)
      ensures State() == Vm(ram, pmm.State(), own, Frame(cr3))
    {
      this.pmm, this.ram, this.cr3, this.hhdm, this.own, this.kernel := pmm, ram, cr3, None, own, Frame(cr3);
    }

    /** `get_next_table` without creating. */
    method NextTable(current: nat, index: nat) returns (next: Option<nat>)
      requires current in ram && index < 512
      ensures next == if Present(ram[current][index]) then Some(Frame(ram[current][index])) else None
    {
      var entry := ram[current][index];
      next := if Present(entry) then Some(PageBase(entry) / 0x1000) else None;
    }

    /** Clearing a new table, then writing the entry that names it. */
    method LinkTable(table: nat, index: nat, physical: u64, entry: u64)
      requires table in ram && index < 512 && Frame(entry) == Frame(physical)
      modifies this`ram, this`own
      ensures State() == Link(old(State()), table, index, entry)
    {
      own := Link(State(), table, index, entry).own;
      ram := ram[Frame(physical) := Zeros()];
      ram := SetEntry(ram, table, index, entry);
    }

    /** `get_next_table`, creating what is missing. */
    method GetNextTable(current: nat, index: nat) returns (next: Option<nat>)
      requires pmm.Valid() && current in ram && index < 512
      modifies this`ram, this`own, pmm`usedPages, pmm`taken, pmm.bitmap
      ensures pmm.Valid() && pmm.bitmap == old(pmm.bitmap)
      ensures (State(), next) == Descend(old(State()), current, index, 3)
    {
      next := NextTable(current, index);
      if next.Some? {
        return;
      }
      AllocatedPage(pmm.State());
      var physical := pmm.AllocPages(1);
      if physical == 0 {
        return None;
      }
      LinkEntry(physical, false);
      LinkTable(current, index, physical, Or(Or(physical, 1), 2));
      return Some(Frame(physical));
    }

    /** `paging_map_page`, of any frame. The tables stay a forest where the frame is the space's to own. */
    method MapKernelPage(virtual: u64, physical: u64, flags: u64) returns (ok: bool)
      requires Valid() && (hhdm.Some? ==> CanMap(State(), Frame(cr3), Page(virtual)))
      modifies this`ram, this`own, pmm`usedPages, pmm`taken, pmm.bitmap
      ensures pmm.Valid() && pmm.bitmap == old(pmm.bitmap)
      ensures hhdm.None? || old(CanOwn(State(), Frame(cr3), Page(virtual), Entry(physical, flags))) ==> Valid()
      ensures hhdm.None? ==> !ok && State() == old(State())
      ensures hhdm.Some? ==>
        (State(), ok) == MapPage(old(State()), Frame(cr3), Page(virtual), Entry(physical, flags), 3)
    {
      if hhdm.None? {
        return false;
      }
      EntryIs(physical, flags);
      if CanOwn(State(), Frame(cr3), Page(virtual), Entry(physical, flags)) {
        MapPageKeeps(State(), Frame(cr3), Page(virtual), Entry(physical, flags), 3);
      }
      ok := MapThrough(virtual, physical, flags);
    }

    /** `paging_map_page`, once there is a direct map. */
    method MapThrough(virtual: u64, physical: u64, flags: u64) returns (ok: bool)
      requires Valid() && CanMap(State(), Frame(cr3), Page(virtual))
      modifies this`ram, this`own, pmm`usedPages, pmm`taken, pmm.bitmap
      ensures pmm.Valid() && pmm.bitmap == old(pmm.bitmap)
      ensures (State(), ok) == MapPage(old(State()), Frame(cr3), Page(virtual), Entry(physical, flags), 3)
    {
      var pt := FindTable(virtual);
      if pt.None? {
        return false;
      }
      IndexShifts(virtual);
      WriteLeaf(pt.value, virtual / 0x1000 % 512, physical, flags);
      return true;
    }

    /** The three steps of the functions that look a page up; none when a table is missing. */
    method FollowTables(virtual: u64) returns (pt: Option<nat>)
      requires Valid() && CanLookUp(State(), Frame(cr3), Page(virtual))
      ensures pt == Follow(ram, Frame(cr3), Page(virtual), 4)
      ensures pt.Some? ==> pt.value in ram
    {
      ghost var page := Page(virtual);
      IndexShifts(virtual);
      FollowOn(State(), Frame(cr3), page, 4);
      var pdp := NextTable(Frame(cr3), virtual / 0x80_0000_0000 % 512);
      if pdp.None? {
        return None;
      }
      FollowOn(State(), pdp.value, page, 3);
      var pd := NextTable(pdp.value, virtual / 0x4000_0000 % 512);
      if pd.None? {
        return None;
      }
      FollowOn(State(), pd.value, page, 2);
      pt := NextTable(pd.value, virtual / 0x20_0000 % 512);
    }

    /** `paging_unmap_page`. The tables stay a forest where the frame may be given back. */
    method UnmapKernelPage(virtual: u64) returns (ok: bool)
      requires Valid() && (hhdm.Some? ==> CanMap(State(), Frame(cr3), Page(virtual)))
      modifies this`ram, this`own, pmm`usedPages, pmm`taken, pmm.bitmap
      ensures pmm.Valid() && pmm.bitmap == old(pmm.bitmap)
      ensures hhdm.None? || old(CanRelease(State(), Frame(cr3), Page(virtual))) ==> Valid()
      ensures hhdm.None? ==> !ok && State() == old(State())
      ensures hhdm.Some? ==> (State(), ok) == UnmapPage(old(State()), Frame(cr3), Page(virtual))
    {
      if hhdm.None? {
        return false;
      }
      if CanRelease(State(), Frame(cr3), Page(virtual)) {
        UnmapPageKeeps(State(), Frame(cr3), Page(virtual));
      }
      ok := UnmapThrough(virtual);
    }

    /** `paging_unmap_page`, once there is a direct map. */
    method UnmapThrough(virtual: u64) returns (ok: bool)
      requires Valid() && CanMap(State(), Frame(cr3), Page(virtual))
      modifies this`ram, this`own, pmm`usedPages, pmm`taken, pmm.bitmap
      ensures pmm.Valid() && pmm.bitmap == old(pmm.bitmap)
      ensures (State(), ok) == UnmapPage(old(State()), Frame(cr3), Page(virtual))
    {
      var pt := FollowTables(virtual);
      IndexShifts(virtual);
      var index := virtual / 0x1000 % 512;
      if pt.None? || !Present(ram[pt.value][index]) {
        return false;
      }
      EmptyLeaf(pt.value, index);
      return true;
    }

    /** Giving the frame back and clearing the entry. */
    method EmptyLeaf(pt: nat, index: nat)
      requires pmm.Valid() && pt in ram && index < 512
      modifies this`ram, this`own, pmm`usedPages, pmm`taken, pmm.bitmap
      ensures pmm.Valid() && pmm.bitmap == old(pmm.bitmap)
      ensures var pages := old(pmm.State()).FreePages(PageBase(old(ram)[pt][index]), 1);
        State() == DropLeaf(old(State()), pt, index).(pmm := pages)
    {
      pmm.FreePages(PageBase(ram[pt][index]), 1);
      own := DropLeaf(State(), pt, index).own;
      ram := SetEntry(ram, pt, index, 0);
    }

    /** One level of `vmm_map_page`: the next table, created if its entry is not present. */
    method EnsureTable(table: nat, index: nat, flags: u64, ghost page: nat, ghost level: nat, ghost link: nat)
      returns (next: Option<nat>)
      requires link == SpaceLink(flags)
      requires Valid() && 2 <= level <= 4 && Starts(State(), table, page, level) && index == Index(page, level)
      modifies this`ram, this`own, pmm`usedPages, pmm`taken, pmm.bitmap
      ensures Valid() && pmm.bitmap == old(pmm.bitmap)
      ensures next.Some? ==> Starts(State(), next.value, page, level - 1)
      ensures Locate(old(State()), table, page, level, link) ==
        if next.None? then (State(), None) else Locate(State(), next.value, page, level - 1, link)
    {
      WalkOn(State(), table, page, level, link);
      if !Present(ram[table][index]) {
        next := NewTable(table, index, flags);
      } else {
        next := Some(PageBase(ram[table][index]) / 0x1000);
      }
    }

    /** The branch that allocates, clears and links a table. */
    method NewTable(table: nat, index: nat, flags: u64) returns (next: Option<nat>)
      requires pmm.Valid() && table in ram && index < 512 && !Present(ram[table][index])
      modifies this`ram, this`own, pmm`usedPages, pmm`taken, pmm.bitmap
      ensures pmm.Valid() && pmm.bitmap == old(pmm.bitmap)
      ensures (State(), next) == Descend(old(State()), table, index, SpaceLink(flags))
    {
      AllocatedPage(pmm.State());
      var physical := pmm.AllocPages(1);
      if physical == 0 {
        return None;
      }
      LinkEntry(physical, User(flags));
      LinkTable(table, index, physical, Or(Or(Or(physical, 1), 2), if User(flags) then 4 else 0));
      return Some(Frame(physical));
    }

    /** The three levels of `vmm_map_page`. */
    method EnsureTables(root: nat, virtual: u64, flags: u64) returns (pt: Option<nat>)
      requires Valid() && CanMap(State(), root, Page(virtual))
      modifies this`ram, this`own, pmm`usedPages, pmm`taken, pmm.bitmap
      ensures Valid() && pmm.bitmap == old(pmm.bitmap)
      ensures (State(), pt) == Locate(old(State()), root, Page(virtual), 4, SpaceLink(flags))
      ensures pt.Some? ==> pt.value in ram
    {
      ghost var page, link := Page(virtual), SpaceLink(flags);
      IndexShifts(virtual);
      RootIs(State(), root);
      var pdp := EnsureTable(root, virtual / 0x80_0000_0000 % 512, flags, page, 4, link);
      if pdp.None? {
        return None;
      }
      pt := EnsureLower(pdp.value, virtual, flags, page, link);
    }

    /** Its second and third level. */
    method EnsureLower(pdp: nat, virtual: u64, flags: u64, ghost page: nat, ghost link: nat) returns (pt: Option<nat>)
      requires page == Page(virtual) && link == SpaceLink(flags) && Valid() && Starts(State(), pdp, page, 3)
      modifies this`ram, this`own, pmm`usedPages, pmm`taken, pmm.bitmap
      ensures Valid() && pmm.bitmap == old(pmm.bitmap)
      ensures (State(), pt) == Locate(old(State()), pdp, page, 3, link)
      ensures pt.Some? ==> pt.value in ram
    {
      IndexShifts(virtual);
      var pd := EnsureTable(pdp, virtual / 0x4000_0000 % 512, flags, page, 3, link);
      if pd.None? {
        return None;
      }
      pt := EnsureTable(pd.value, virtual / 0x20_0000 % 512, flags, page, 2, link);
    }

    /** `vmm_map_page` below a root. */
    method MapRoot(root: nat, virtual: u64, physical: u64, flags: u64) returns (ok: bool)
      requires Valid() && CanMap(State(), root, Page(virtual))
      modifies this`ram, this`own, pmm`usedPages, pmm`taken, pmm.bitmap
      ensures pmm.Valid() && pmm.bitmap == old(pmm.bitmap)
      ensures (State(), ok) == MapPage(old(State()), root, Page(virtual), Entry(physical, flags), SpaceLink(flags))
    {
      var pt := EnsureTables(root, virtual, flags);
      if pt.None? {
        return false;
      }
      IndexShifts(virtual);
      WriteLeaf(pt.value, virtual / 0x1000 % 512, physical, flags);
      return true;
    }

    /** The loops of `vmm_destroy_space`, one level of nesting at a time: free what the first `n` entries of a table
    lead to, then the frames they name. */
    method FreeBelow(t: nat, level: nat, n: nat)
      requires pmm.Valid() && InRam(ram, t, level, n)
      modifies pmm`usedPages, pmm`taken, pmm.bitmap
      ensures pmm.Valid() && pmm.bitmap == old(pmm.bitmap)
      ensures pmm.State() == FreeAll(old(pmm.State()), Reclaim(ram, t, level, n))
      decreases level
    {
      var i := 0;
      ghost var s := pmm.State();
      while i < n
        invariant 0 <= i <= n && pmm.Valid() && pmm.bitmap == old(pmm.bitmap)
        invariant pmm.State() == FreeAll(s, Reclaim(ram, t, level, i))
      {
        var e := ram[t][i];
        if Present(e) {
          FreeAllJoins(s, ram, t, level, i);
          if level != 1 {
            FreeBelow(PageBase(e) / 0x1000, level - 1, 512);
          }
          pmm.FreePages(PageBase(e), 1);
        } else {
          ReclaimAbsent(ram, t, level, i);
        }
        i := i + 1;
      }
    }

    /** `vmm_create_space`'s clearing of the root, and `vmm_map_kernel`. */
    method NewRoot(root: nat, kernelRoot: nat)
      requires kernelRoot in ram && kernelRoot == kernel && root != kernelRoot
      modifies this`ram, this`own
      ensures State() == AddSpace(old(State()), root)
    {
      own := own[root := Tag(root, 4, 0)];
      ram := ram[root := Zeros()];
      var i := 256;
      while i < 512
        invariant 256 <= i <= 512 && root in ram
        invariant ram == old(ram)[root := ram[root]] && own == old(own)[root := Tag(root, 4, 0)]
        invariant forall j :: 0 <= j < 512 ==> ram[root][j] == if 256 <= j < i then old(ram)[kernelRoot][j] else 0
      {
        ram := SetEntry(ram, root, i, ram[kernelRoot][i]);
        i := i + 1;
      }
      assert ram[root] == FreshRoot(old(ram)[kernelRoot]);
    }

    /** `vmm_destroy_space`: the loops, then the root. */
    method FreeTree(root: nat)
      requires pmm.Valid() && InRam(ram, root, 4, 256)
      modifies this`own, pmm`usedPages, pmm`taken, pmm.bitmap
      ensures pmm.Valid() && pmm.bitmap == old(pmm.bitmap)
      ensures State() == DestroySpace(old(State()), root)
    {
      DestroyIs(State(), root);
      own := own - OwnedBy(State(), root);
      FreeBelow(root, 4, 256);
      pmm.FreePages(root * 0x1000, 1);
    }

    /** `paging_is_mapped`. */
    method IsMapped(virtual: u64) returns (mapped: bool)
      requires Valid() && (hhdm.Some? ==> CanLookUp(State(), Frame(cr3), Page(virtual)))
      ensures mapped <==> hhdm.Some? && Walk(ram, Frame(cr3), Page(virtual), 4).Some?
    {
      if hhdm.None? {
        return false;
      }
      QueriesReadTranslation(State(), Frame(cr3), Page(virtual));
      IndexShifts(virtual);
      var pt := FollowTables(virtual);
      return pt.Some? && Present(ram[pt.value][virtual / 0x1000 % 512]);
    }

    /** `paging_get_physical_address`: from the direct map's offset upwards by subtraction, below it by the tables, and
    then the page's address rather than the byte's. 0 for unmapped. */
    method GetPhysicalAddress(virtual: u64) returns (physical: u64)
      requires Valid() && (hhdm.Some? && virtual < hhdm.value ==> CanLookUp(State(), Frame(cr3), Page(virtual)))
      ensures hhdm.None? ==> physical == 0
      ensures hhdm.Some? && hhdm.value <= virtual ==> physical == virtual - hhdm.value
      ensures hhdm.Some? && virtual < hhdm.value ==>
        physical == match Walk(ram, Frame(cr3), Page(virtual), 4) case None => 0 case Some(e) => PageBase(e)
    {
      if hhdm.None? {
        return 0;
      }
      if virtual >= hhdm.value {
        return virtual - hhdm.value;
      }
      QueriesReadTranslation(State(), Frame(cr3), Page(virtual));
      IndexShifts(virtual);
      var pt := FollowTables(virtual);
      if pt.None? || !Present(ram[pt.value][virtual / 0x1000 % 512]) {
        return 0;
      }
      return PageBase(ram[pt.value][virtual / 0x1000 % 512]);
    }

    /** `pt->entries[pt_index] = physical_addr | flags | PAGING_PRESENT`. */
    method WriteLeaf(pt: nat, index: nat, physical: u64, flags: u64)
      requires pmm.Valid() && pt in ram && index < 512
      modifies this`ram, this`own
      ensures State() == PutLeaf(old(State()), pt, index, Entry(physical, flags))
    {
      own := PutLeaf(State(), pt, index, Entry(physical, flags)).own;
      ram := SetEntry(ram, pt, index, Or(Or(physical, flags), 1));
    }

    /** The three creating steps of `paging_map_page`. */
    method FindTable(virtual: u64) returns (pt: Option<nat>)
      requires Valid() && CanMap(State(), Frame(cr3), Page(virtual))
      modifies this`ram, this`own, pmm`usedPages, pmm`taken, pmm.bitmap
      ensures Valid() && pmm.bitmap == old(pmm.bitmap)
      ensures (State(), pt) == Locate(old(State()), Frame(cr3), Page(virtual), 4, 3)
      ensures pt.Some? ==> pt.value in ram
    {
      ghost var page := Page(virtual);
      IndexShifts(virtual);
      RootIs(State(), Frame(cr3));
      var pdp := Continue(Frame(cr3), virtual / 0x80_0000_0000 % 512, page, 4);
      if pdp.None? {
        return None;
      }
      pt := FindLower(pdp.value, virtual, page);
    }

    /** The second and the third. */
    method FindLower(pdp: nat, virtual: u64, ghost page: nat) returns (pt: Option<nat>)
      requires page == Page(virtual) && Valid() && Starts(State(), pdp, page, 3)
      modifies this`ram, this`own, pmm`usedPages, pmm`taken, pmm.bitmap
      ensures Valid() && pmm.bitmap == old(pmm.bitmap)
      ensures (State(), pt) == Locate(old(State()), pdp, page, 3, 3)
      ensures pt.Some? ==> pt.value in ram
    {
      IndexShifts(virtual);
      var pd := Continue(pdp, virtual / 0x4000_0000 % 512, page, 3);
      if pd.None? {
        return None;
      }
      pt := Continue(pd.value, virtual / 0x20_0000 % 512, page, 2);
    }

    /** A creating step of a walk for `page`, from its table of the given level. */
    method Continue(current: nat, index: nat, ghost page: nat, ghost level: nat) returns (next: Option<nat>)
      requires Valid() && 2 <= level <= 4 && Starts(State(), current, page, level) && index == Index(page, level)
      modifies this`ram, this`own, pmm`usedPages, pmm`taken, pmm.bitmap
      ensures Valid() && pmm.bitmap == old(pmm.bitmap)
      ensures next.Some? ==> Starts(State(), next.value, page, level - 1)
      ensures Locate(old(State()), current, page, level, 3) ==
        if next.None? then (State(), None) else Locate(State(), next.value, page, level - 1, 3)
    {
      WalkOn(State(), current, page, level, 3);
      next := GetNextTable(current, index);
    }
  }

  /** Every table the loops read is in memory. */
  ghost predicate InRam(ram: map<nat, Table>, t: nat, level: nat, n: nat)
    decreases level
  {
    && 1 <= level && t in ram && n <= 512
    && (level != 1 ==> forall i: nat :: i < n && Present(ram[t][i]) ==> InRam(ram, Frame(ram[t][i]), level - 1, 512))
  }

  lemma {:induction false} SpaceInRam(m: Vm, t: nat, n: nat)
    requires SpaceTable(m, t) && n <= if m.own[t].level == 4 then 256 else 512
    ensures InRam(m.ram, t, m.own[t].level, n)
    decreases m.own[t].level
  {
    if m.own[t].level != 1 {
      forall i: nat | i < n && Present(m.ram[t][i]) ensures InRam(m.ram, Frame(m.ram[t][i]), m.own[t].level - 1, 512) {
        EntryTable(m, t, i);
        SpaceInRam(m, Frame(m.ram[t][i]), 512);
      }
    }
  }

  lemma {:induction false} FreeAllConcat(s: PmmState, a: seq<nat>, b: seq<nat>)
    ensures FreeAll(s, a + b) == FreeAll(FreeAll(s, a), b)
    decreases |b|
  {
    if b == [] {
      assert a + b == a;
    } else {
      assert (a + b)[..|a + b| - 1] == a + b[..|b| - 1];
      FreeAllConcat(s, a, b[..|b| - 1]);
    }
  }

  lemma DestroyIs(m: Vm, r: nat)
    ensures DestroySpace(m, r) ==
      m.(pmm := FreeAll(m.pmm, Reclaim(m.ram, r, 4, 256)).FreePages(r * 0x1000, 1), own := m.own - OwnedBy(m, r))
  {
    var below := Reclaim(m.ram, r, 4, 256);
    assert (below + [r])[..|below|] == below;
  }

  lemma ReclaimAbsent(ram: map<nat, Table>, t: nat, level: nat, i: nat)
    requires t in ram && i < 512 && 1 <= level && !Present(ram[t][i])
    ensures Reclaim(ram, t, level, i + 1) == Reclaim(ram, t, level, i)
  {
  }

  /** One more present entry. */
  lemma FreeAllJoins(s: PmmState, ram: map<nat, Table>, t: nat, level: nat, i: nat)
    requires t in ram && i < 512 && 1 <= level && Present(ram[t][i])
    ensures var e := ram[t][i];
      FreeAll(s, Reclaim(ram, t, level, i + 1)) ==
      FreeAll(FreeAll(s, Reclaim(ram, t, level, i)), if level == 1 then [] else Reclaim(ram, Frame(e), level - 1, 512))
        .FreePages(PageBase(e), 1)
  {
    var e := ram[t][i];
    var before := Reclaim(ram, t, level, i);
    var below := if level == 1 then [] else Reclaim(ram, Frame(e), level - 1, 512);
    assert Reclaim(ram, t, level, i + 1) == before + (below + [Frame(e)]);
    FreeAllConcat(s, before, below + [Frame(e)]);
    assert (below + [Frame(e)])[..|below|] == below;
    assert PageBase(e) == Frame(e) * 0x1000;
  }

  /** `t` is a table at the given level from which `page` may be looked up. */
  ghost predicate Reads(m: Vm, t: nat, page: nat, level: nat) {
    IsTable(m, t) && m.own[t].level == level && PathClear(m.ram, t, page, level)
  }

  /** One step of a walk that creates nothing. */
  lemma FollowOn(m: Vm, t: nat, page: nat, level: nat)
    requires AllLead(m) && AllPlaced(m) && Reads(m, t, page, level) && 2 <= level <= 4
    ensures var e := m.ram[t][Index(page, level)];
      && Follow(m.ram, t, page, level) == (if Present(e) then Follow(m.ram, Frame(e), page, level - 1) else None)
      && (Present(e) ==> Reads(m, Frame(e), page, level - 1))
  {
    assert Leads(m, t, Index(page, level));
    PlacedIfOwned(m, Frame(m.ram[t][Index(page, level)]));
  }

  /** One step of a mapping walk. */
  lemma WalkOn(m: Vm, t: nat, page: nat, level: nat, link: nat)
    requires Forest(m) && Starts(m, t, page, level) && 2 <= level <= 4 && LinkFlags(link)
    ensures t in m.ram
    ensures var (m', next) := Descend(m, t, Index(page, level), link);
      && (next.None? ==> Locate(m, t, page, level, link) == (m', None))
      && (next.Some? ==> Locate(m, t, page, level, link) == Locate(m', next.value, page, level - 1, link))
      && Forest(m') && (next.Some? ==> Starts(m', next.value, page, level - 1))
  {
    StartMayFollow(m, t, page, level);
    DescendStarts(m, t, page, level, link);
  }

  /** `phys | PAGING_PRESENT | PAGING_WRITABLE | (PAGING_USER or 0)`. */
  lemma LinkEntry(physical: u64, user: bool)
    requires physical % 0x1000 == 0 && physical + 0x1000 <= 0x1_0000_0000_0000_0000
    ensures Or(Or(Or(physical, 1), 2), if user then 4 else 0) == physical + if user then 7 else 3
  {
    OrLow(physical, 1, 0, 1);
    OrLow(physical, 2, 1, 3);
    OrLow(physical, if user then 4 else 0, 3, if user then 7 else 3);
  }

  /** Setting low bits of an aligned address that has some set already. */
  lemma OrLow(physical: u64, bit: nat, before: nat, after: nat)
    requires physical % 0x1000 == 0 && physical + 0x1000 <= 0x1_0000_0000_0000_0000
    requires bit < 0x1000 && before < 0x1000 && after == BitOr(before, bit) && after < 0x1000
    ensures Or(physical + before, bit) == physical + after
  {
    OrOffset(physical, before);
    OrOffset(physical, after);
    OrAssociates(physical, before, bit);
  }

  lemma {:induction false} OrAssociates(a: nat, b: nat, c: nat)
    ensures BitOr(BitOr(a, b), c) == BitOr(a, BitOr(b, c))
    decreases a + b + c
  {
    if a != 0 && b != 0 && c != 0 {
      OrUnfold(a, b);
      OrUnfold(b, c);
      OrUnfold(BitOr(a, b), c);
      OrUnfold(a, BitOr(b, c));
      OrAssociates(a / 2, b / 2, c / 2);
    }
  }
}
