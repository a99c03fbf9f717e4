/** Unmapping, queries, the map/unmap round trip, and when the address in an entry can be read back. */
module Unmapping {
  import opened Words
  import opened PhysicalMemory
  import opened PageTables
  import opened TableForest
  import opened Mapping

  /** Where no huge entry lies on the path, the kernel's walk and the processor's agree. */
  lemma {:induction false} FollowIsLeafTable(m: Vm, t: nat, page: nat, level: nat)
    requires AllLead(m) && AllPlaced(m) && IsTable(m, t) && m.own[t].level == level && PathClear(m.ram, t, page, level)
    ensures Follow(m.ram, t, page, level) == LeafTable(m.ram, t, page, level)
    ensures Walk(m.ram, t, page, level) ==
      match LeafTable(m.ram, t, page, level)
      case None => None
      case Some(pt) =>
        if pt in m.ram && Present(m.ram[pt][Index(page, 1)]) then Some(m.ram[pt][Index(page, 1)]) else None
    decreases level
  {
    var i := Index(page, level);
    if level != 1 {
      assert Leads(m, t, i);
      if Present(m.ram[t][i]) {
        assert Placed(m, Frame(m.ram[t][i]));
        FollowIsLeafTable(m, Frame(m.ram[t][i]), page, level - 1);
      }
    }
  }

  /** What looking a page up needs: no huge entry on its path. The page may be in either half of any space. */
  ghost predicate CanLookUp(m: Vm, root: nat, page: nat) {
    Forest(m) && IsRoot(m, root) && PathClear(m.ram, root, page, 4)
  }

  /** `paging_is_mapped` and `paging_get_physical_address` read the processor's translation. */
  lemma QueriesReadTranslation(m: Vm, root: nat, page: nat)
    requires CanLookUp(m, root, page)
    ensures LeafEntry(m.ram, root, page) == Walk(m.ram, root, page, 4)
  {
    FollowIsLeafTable(m, root, page, 4);
  }

  /** The frame that unmapping gives back must not be a table or a page of some other place. Outside the kernel's space
  the invariant sees to that. */
  ghost predicate CanRelease(m: Vm, root: nat, page: nat) {
    root == m.kernel && Walk(m.ram, root, page, 4).Some? ==> Frame(Walk(m.ram, root, page, 4).value) !in m.own
  }

  lemma ReleaseKeeps(m: Vm, address: nat)
    requires Forest(m) && Frame(address) !in m.own
    ensures Forest(m.(pmm := m.pmm.FreePages(address, 1)))
  {
    ReleasedPlaced(m, address);
    SameTables(m, m.(pmm := m.pmm.FreePages(address, 1)));
  }

  lemma ReleasedPlaced(m: Vm, address: nat)
    requires AllPlaced(m) && m.pmm.Valid() && Frame(address) !in m.own
    ensures AllPlaced(m.(pmm := m.pmm.FreePages(address, 1))) && m.pmm.FreePages(address, 1).Valid()
  {
    var m' := m.(pmm := m.pmm.FreePages(address, 1));
    forall f | f in m.own ensures Placed(m', f) {
      assert Placed(m, f);
    }
  }

  /** Once its cell is emptied, the frame of a leaf has no place. */
  lemma DroppedIsFree(m: Vm, t: nat, i: nat)
    requires Forest(m) && IsTable(m, t) && m.own[t].level == 1 && i < 512 && Present(m.ram[t][i])
    requires m.own[t].root == m.kernel ==> Frame(m.ram[t][i]) !in m.own
    ensures Frame(m.ram[t][i]) !in DropLeaf(m, t, i).own
  {
  }

  lemma PageBaseFrame(e: nat)
    ensures Frame(PageBase(e)) == Frame(e)
  {
  }

  /** Unmapping succeeds exactly when the page is mapped; then exactly that page loses its translation, in every space
  that sees it, and exactly the page named by the entry is given back. */
  lemma UnmapPageRefines(m: Vm, root: nat, page: nat)
    requires CanMap(m, root, page)
    ensures var (m', ok) := UnmapPage(m, root, page);
      && ok == Walk(m.ram, root, page, 4).Some? && m'.kernel == m.kernel
      && if ok then
           && ChangedAt(m, m', root, page, None) && SameRoots(m, m')
           && m'.pmm == m.pmm.FreePages(PageBase(Walk(m.ram, root, page, 4).value), 1)
         else m' == m
  {
    FollowIsLeafTable(m, root, page, 4);
    if LeafEntry(m.ram, root, page).Some? {
      LeafTableRoot(m, root, page);
      EmptiedCell(m, root, page, LeafTable(m.ram, root, page, 4).value);
    }
  }

  lemma EmptiedCell(m: Vm, root: nat, page: nat, pt: nat)
    requires CanMap(m, root, page) && Found(m, root, page, 4, pt) && m.own[pt].root == root
    ensures var m' := DropLeaf(m, pt, Index(page, 1)); ChangedAt(m, m', root, page, None) && SameRoots(m, m')
  {
    DropRoots(m, pt, Index(page, 1));
    CellChanges(m, root, page, pt, 0, DropLeaf(m, pt, Index(page, 1)));
  }

  /** Where the frame may be given back, the tables of all spaces stay a forest. */
  lemma UnmapPageKeeps(m: Vm, root: nat, page: nat)
    requires CanMap(m, root, page) && CanRelease(m, root, page)
    ensures Forest(UnmapPage(m, root, page).0)
  {
    FollowIsLeafTable(m, root, page, 4);
    if LeafEntry(m.ram, root, page).Some? {
      LeafTableRoot(m, root, page);
      ReleasedCell(m, LeafTable(m.ram, root, page, 4).value, Index(page, 1));
    }
  }

  lemma ReleasedCell(m: Vm, t: nat, i: nat)
    requires Forest(m) && IsTable(m, t) && m.own[t].level == 1 && i < 512 && Present(m.ram[t][i])
    requires m.own[t].root == m.kernel ==> Frame(m.ram[t][i]) !in m.own
    ensures Forest(DropLeaf(m, t, i).(pmm := m.pmm.FreePages(PageBase(m.ram[t][i]), 1)))
  {
    DropKeeps(m, t, i);
    DroppedIsFree(m, t, i);
    PageBaseFrame(m.ram[t][i]);
    ReleaseKeeps(DropLeaf(m, t, i), PageBase(m.ram[t][i]));
  }

  lemma DropRoots(m: Vm, t: nat, i: nat)
    requires Forest(m) && IsTable(m, t) && m.own[t].level == 1 && i < 512
    ensures SameRoots(m, DropLeaf(m, t, i))
  {
    DropPlaced(m, t, i);
    forall q | IsRoot(m, q) ensures IsRoot(DropLeaf(m, t, i), q) && DropLeaf(m, t, i).ram[q] == m.ram[q] {
      assert IsTable(m, q) && q != t;
    }
  }

  /** Every root is a root still, with the same entries. */
  ghost predicate SameRoots(m: Vm, m': Vm) {
    m'.kernel == m.kernel && forall q :: IsRoot(m, q) ==> IsRoot(m', q) && m'.ram[q] == m.ram[q]
  }

  lemma LeafTableRoot(m: Vm, root: nat, page: nat)
    requires CanMap(m, root, page) && LeafTable(m.ram, root, page, 4).Some?
    ensures var pt := LeafTable(m.ram, root, page, 4).value; Found(m, root, page, 4, pt) && m.own[pt].root == root
  {
    RootIs(m, root);
    LeafTableServes(m, root, page, 4);
    if root != m.kernel {
      TopIndex(page);
    }
  }

  // ---------------------------------------------------------------- reading an address back

  /** The flags leave the address alone: every bit of them above the low 12 is already set in the address. */
  predicate FlagsSpareAddress(physical: u64, flags: u64) {
    BitOr(Frame(physical), Frame(flags)) == Frame(physical)
  }

  /** Masking the entry with `~0xFFF` gives the page-aligned address back exactly when the flags spare it. */
  lemma AddressReadBack(physical: u64, flags: u64)
    requires physical % 0x1000 == 0
    ensures PageBase(Entry(physical, flags)) == physical <==> FlagsSpareAddress(physical, flags)
    ensures flags < 0x1000 ==> FlagsSpareAddress(physical, flags)
  {
    EntryIs(physical, flags);
    assert PageBase(Entry(physical, flags)) == 0x1000 * Frame(Entry(physical, flags));
  }

  /** PAGING_NO_EXECUTE, bit 63, never spares a physical address: the mask keeps it. */
  lemma NoExecuteIsKept(physical: u64)
    requires physical % 0x1000 == 0 && physical < 0x8000_0000_0000_0000
    ensures !FlagsSpareAddress(physical, 0x8000_0000_0000_0000)
    ensures Frame(Entry(physical, 0x8000_0000_0000_0000)) >= 0x8_0000_0000_0000
  {
    var flags := 0x8000_0000_0000_0000;
    assert flags <= Or(physical, flags) <= Entry(physical, flags);
    EntryIs(physical, flags);
  }

  /** Unmapping a page gives its frame back exactly when the flags it was mapped with spare the address. */
  lemma UnmapReturnsFrame(m: Vm, root: nat, page: nat, physical: u64, flags: u64)
    requires CanMap(m, root, page)
    requires Walk(m.ram, root, page, 4) == Some(Entry(physical, flags)) && Frame(physical) in m.pmm.taken
    ensures var m' := UnmapPage(m, root, page).0;
      Frame(physical) !in m'.pmm.taken <==> FlagsSpareAddress(physical, flags)
  {
    UnmapPageRefines(m, root, page);
    EntryIs(physical, flags);
    PageBaseFrame(Entry(physical, flags));
  }

  // ---------------------------------------------------------------- the round trip

  ghost predicate SameOutside(m: Vm, m': Vm, root: nat) {
    forall f :: IsTable(m, f) && m.own[f].root != root ==> f in m'.ram && m'.ram[f] == m.ram[f]
  }

  /** Mapping through one space leaves every table of every other space as it was. */
  lemma MapPageLocal(m: Vm, root: nat, page: nat, leaf: u64, link: nat)
    requires CanMap(m, root, page) && LinkFlags(link)
    ensures SameOutside(m, MapPage(m, root, page, leaf, link).0, root)
  {
    LocatedWalk(m, root, page, link);
    var (m1, pt) := Locate(m, root, page, 4, link);
    LocalOutside(m, m1, root);
    if pt.Some? {
      LeafOutside(m, m1, root, pt.value, Index(page, 1), leaf);
    }
  }

  lemma LocalOutside(m: Vm, m1: Vm, root: nat)
    requires Local(m, m1, root)
    ensures SameOutside(m, m1, root)
  {
  }

  lemma LeafOutside(m: Vm, m1: Vm, root: nat, t: nat, i: nat, leaf: u64)
    requires SameOutside(m, m1, root) && t in m1.ram && i < 512 && t in m1.own && m1.own[t].root == root
    requires forall f :: f in m.own ==> f in m1.own && m1.own[f] == m.own[f]
    ensures SameOutside(m, PutLeaf(m1, t, i, leaf), root)
  {
  }

  /** Spaces that see a kernel page translate it alike. */
  lemma SeersAgree(m: Vm, q: nat, root: nat, page: nat)
    requires Forest(m) && IsRoot(m, root) && IsRoot(m, q) && Sees(m, q, root, page)
    ensures Walk(m.ram, q, page, 4) == Walk(m.ram, root, page, 4)
  {
    if q != root {
      assert m.ram[q][Index(page, 4)] == m.ram[m.kernel][Index(page, 4)];
    }
  }

  /** A mapped page is seen after the mapping only by spaces that would have seen it before. */
  lemma SeesBefore(m: Vm, q: nat, root: nat, page: nat, leaf: u64, link: nat)
    requires CanMap(m, root, page) && CanOwn(m, root, page, leaf) && LinkFlags(link) && Present(leaf)
    requires IsRoot(m, q)
    ensures var m' := MapPage(m, root, page, leaf, link).0;
      IsRoot(m', q) && (Sees(m', q, root, page) <==> Sees(m, q, root, page))
  {
    LocatedWalk(m, root, page, link);
    var (m1, pt) := Locate(m, root, page, 4, link);
    SeesStill(m, m1, root, page, q);
    if pt.Some? {
      if root != m.kernel {
        LocatedLeaf(m, root, page, leaf, link);
      }
      RootsSurvive(m1, pt.value, Index(page, 1), leaf);
    }
  }

  lemma {:induction false} CellLeafTable(m: Vm, t: nat, i: nat, leaf: u64, u: nat, page: nat, level: nat)
    requires AllLead(m) && AllPlaced(m) && IsTable(m, t) && m.own[t].level == 1 && i < 512
    requires IsTable(m, u) && m.own[u].level == level && LeafTable(m.ram, u, page, level).Some?
    ensures PathClear(SetEntry(m.ram, t, i, leaf), u, page, level)
    decreases level
  {
    var j := Index(page, level);
    if level != 1 {
      assert Leads(m, u, j);
      assert u != t && SetEntry(m.ram, t, i, leaf)[u] == m.ram[u];
      assert Placed(m, Frame(m.ram[u][j]));
      CellLeafTable(m, t, i, leaf, Frame(m.ram[u][j]), page, level - 1);
    }
  }

  /** A page that has just been mapped can be looked up and unmapped. */
  lemma MappedIsClear(m: Vm, root: nat, page: nat, leaf: u64, link: nat)
    requires CanMap(m, root, page) && CanOwn(m, root, page, leaf) && LinkFlags(link) && Present(leaf)
    requires MapPage(m, root, page, leaf, link).1
    requires Frame(leaf) !in m.own && Frame(leaf) in m.pmm.taken
    ensures var m' := MapPage(m, root, page, leaf, link).0;
      CanMap(m', root, page) && (root == m.kernel ==> Frame(leaf) !in m'.own)
  {
    LocatedWalk(m, root, page, link);
    MapPageKeeps(m, root, page, leaf, link);
    SeesBefore(m, root, root, page, leaf, link);
    var (m1, pt) := Locate(m, root, page, 4, link);
    CellLeafTable(m1, pt.value, Index(page, 1), leaf, root, page, 4);
  }

  /** Mapping a page-aligned frame at an unmapped address and unmapping it again: in between the page is mapped and its
  frame can be read back; afterwards every translation of every space is as it was, and of what the mapping left
  taken exactly the frame has been given back. */
  lemma MapThenUnmap(m: Vm, root: nat, page: nat, physical: u64, flags: u64, link: nat, m1: Vm, m2: Vm, ok: bool)
    requires CanMap(m, root, page) && CanOwn(m, root, page, Entry(physical, flags)) && LinkFlags(link)
    requires physical % 0x1000 == 0 && flags < 0x1000 && Frame(physical) !in m.own && Frame(physical) in m.pmm.taken
    requires Walk(m.ram, root, page, 4) == None
    requires MapPage(m, root, page, Entry(physical, flags), link) == (m1, true)
    requires UnmapPage(m1, root, page) == (m2, ok)
    ensures ok && LeafEntry(m1.ram, root, page) == Some(Entry(physical, flags))
    ensures PageBase(Entry(physical, flags)) == physical
    ensures Forest(m2) && m2.pmm == m1.pmm.FreePages(physical, 1)
    ensures forall q, p: nat :: IsRoot(m, q) && IsPage(p) ==> Walk(m2.ram, q, p, 4) == Walk(m.ram, q, p, 4)
  {
    var leaf := Entry(physical, flags);
    AddressReadBack(physical, flags);
    EntryIs(physical, flags);
    MappedReadsBack(m, root, page, leaf, link);
    UnmapPageRefines(m1, root, page);
    UnmapPageKeeps(m1, root, page);
    forall q, p: nat | IsRoot(m, q) && IsPage(p) ensures Walk(m2.ram, q, p, 4) == Walk(m.ram, q, p, 4) {
      Restored(m, m1, m2, root, page, leaf, link, q, p);
    }
  }

  lemma MappedReadsBack(m: Vm, root: nat, page: nat, leaf: u64, link: nat)
    requires CanMap(m, root, page) && CanOwn(m, root, page, leaf) && LinkFlags(link) && Present(leaf)
    requires MapPage(m, root, page, leaf, link).1
    requires Frame(leaf) !in m.own && Frame(leaf) in m.pmm.taken
    ensures var m' := MapPage(m, root, page, leaf, link).0;
      && CanMap(m', root, page) && CanRelease(m', root, page)
      && LeafEntry(m'.ram, root, page) == Some(leaf) == Walk(m'.ram, root, page, 4)
  {
    MapPageRefines(m, root, page, leaf, link);
    SeesBefore(m, root, root, page, leaf, link);
    MappedIsClear(m, root, page, leaf, link);
    QueriesReadTranslation(MapPage(m, root, page, leaf, link).0, root, page);
  }

  lemma Restored(m: Vm, m1: Vm, m2: Vm, root: nat, page: nat, leaf: u64, link: nat, q: nat, p: nat)
    requires CanMap(m, root, page) && CanOwn(m, root, page, leaf) && LinkFlags(link) && Present(leaf)
    requires (m1, true) == MapPage(m, root, page, leaf, link) && Walk(m.ram, root, page, 4) == None
    requires ChangedAt(m1, m2, root, page, None) && SameRoots(m1, m2)
    requires IsRoot(m, q) && IsPage(p)
    ensures Walk(m2.ram, q, p, 4) == Walk(m.ram, q, p, 4)
  {
    MapPageRefines(m, root, page, leaf, link);
    SeesBefore(m, q, root, page, leaf, link);
    if Sees(m, q, root, page) {
      SeersAgree(m, q, root, page);
    }
  }
}
