/** `paging_map_page` and `vmm_map_page` are two copies of one walk. Where do they agree? */
module Agreement {
  import opened Words
  import opened PhysicalMemory
  import opened PageTables
  import opened TableForest
  import opened Mapping

  /** The same entry, or a new intermediate entry with and without PAGING_USER. */
  predicate Twin(x: u64, y: u64) {
    x == y || (x % 0x1000 == 3 && y == x + 4)
  }

  /** The same machine, but for PAGING_USER in intermediate entries. */
  ghost predicate Alike(a: Vm, b: Vm) {
    && a.pmm == b.pmm && a.own == b.own && a.kernel == b.kernel && a.ram.Keys == b.ram.Keys
    && forall t, i: nat :: t in a.ram && i < 512 ==> Twin(a.ram[t][i], b.ram[t][i])
  }

  lemma TwinsMean(x: u64, y: u64)
    requires Twin(x, y)
    ensures Present(x) == Present(y) && Frame(x) == Frame(y)
  {
    if x != y {
      LowBits(x / 0x1000);
    }
  }

  /** Three low bits more or less. */
  lemma LowBits(q: nat)
    ensures (0x1000 * q + 3) / 0x1000 == q && (0x1000 * q + 7) / 0x1000 == q
    ensures (0x1000 * q + 3) % 2 == 1 && (0x1000 * q + 7) % 2 == 1 && (0x1000 * q + 3) % 0x1000 == 3
  {
    Divided(q, 3, 0x1000);
    Divided(q, 7, 0x1000);
    EvenPlus(0x800 * q, 3);
    EvenPlus(0x800 * q, 7);
  }

  lemma DescendAlike(a: Vm, b: Vm, t: nat, i: nat)
    requires Alike(a, b) && t in a.ram && i < 512 && a.pmm.Valid()
    ensures var (a', x), (b', y) := Descend(a, t, i, 3), Descend(b, t, i, 7); x == y && Alike(a', b')
  {
    assert Twin(a.ram[t][i], b.ram[t][i]);
    TwinsMean(a.ram[t][i], b.ram[t][i]);
    AllocatedPage(a.pmm);
    var (pmm, address) := a.pmm.AllocPages(1);
    if !Present(a.ram[t][i]) && address != 0 {
      LinkAlike(a.(pmm := pmm), b.(pmm := pmm), t, i, address);
    }
  }

  lemma LinkAlike(a: Vm, b: Vm, t: nat, i: nat, address: u64)
    requires Alike(a, b) && t in a.ram && i < 512
    requires address % 0x1000 == 0 && address + 0x1000 <= 0x1_0000_0000_0000_0000
    ensures Alike(Link(a, t, i, address + 3), Link(b, t, i, address + 7))
  {
    LowBits(address / 0x1000);
    var a', b' := Link(a, t, i, address + 3), Link(b, t, i, address + 7);
    forall u, j: nat | u in a'.ram && j < 512 ensures Twin(a'.ram[u][j], b'.ram[u][j]) {
      if u in a.ram {
        assert Twin(a.ram[u][j], b.ram[u][j]);
      }
    }
  }

  lemma {:induction false} LocateAlike(a: Vm, b: Vm, t: nat, page: nat, level: nat)
    requires Alike(a, b) && a.pmm.Valid()
    ensures var (a', x), (b', y) := Locate(a, t, page, level, 3), Locate(b, t, page, level, 7); x == y && Alike(a', b')
    decreases level
  {
    if 2 <= level && t in a.ram {
      DescendAlike(a, b, t, Index(page, level));
      var (a1, x) := Descend(a, t, Index(page, level), 3);
      var b1 := Descend(b, t, Index(page, level), 7).0;
      if x.Some? {
        LocateAlike(a1, b1, x.value, page, level - 1);
      }
    }
  }

  lemma PutLeafAlike(a: Vm, b: Vm, t: nat, i: nat, leaf: u64)
    requires Alike(a, b) && t in a.ram && i < 512
    ensures Alike(PutLeaf(a, t, i, leaf), PutLeaf(b, t, i, leaf))
  {
    assert Twin(a.ram[t][i], b.ram[t][i]);
    TwinsMean(a.ram[t][i], b.ram[t][i]);
    var a', b' := PutLeaf(a, t, i, leaf), PutLeaf(b, t, i, leaf);
    forall u, j: nat | u in a'.ram && j < 512 ensures Twin(a'.ram[u][j], b'.ram[u][j]) {
      assert Twin(a.ram[u][j], b.ram[u][j]);
    }
  }

  /** An intermediate entry the two walks have made differently. */
  predicate Apart(a: Vm, b: Vm, u: nat, i: nat) {
    IsTable(a, u) && 2 <= a.own[u].level && u in b.ram && i < 512 && a.ram[u][i] != b.ram[u][i]
  }

  ghost predicate SomewhereApart(a: Vm, b: Vm) {
    exists u, i: nat :: Apart(a, b, u, i)
  }

  /** A walk that takes a page leaves an entry that shows which of the two it was; one that takes none does nothing. */
  lemma {:induction false} LocateShows(m: Vm, t: nat, page: nat, level: nat)
    requires Forest(m) && Starts(m, t, page, level)
    ensures var a, b := Locate(m, t, page, level, 3).0, Locate(m, t, page, level, 7).0;
      && m.pmm.taken <= a.pmm.taken
      && if a.pmm.taken == m.pmm.taken then a == m && b == m else SomewhereApart(a, b)
    decreases level
  {
    if 2 <= level {
      var i := Index(page, level);
      StartMayFollow(m, t, page, level);
      if Present(m.ram[t][i]) {
        DescendStarts(m, t, page, level, 3);
        LocateShows(m, Frame(m.ram[t][i]), page, level - 1);
      } else {
        MissingShows(m, t, page, level);
      }
    }
  }

  lemma MissingShows(m: Vm, t: nat, page: nat, level: nat)
    requires Forest(m) && Starts(m, t, page, level) && 2 <= level && !Present(m.ram[t][Index(page, level)])
    ensures var a, b := Locate(m, t, page, level, 3).0, Locate(m, t, page, level, 7).0;
      && m.pmm.taken <= a.pmm.taken
      && if a.pmm.taken == m.pmm.taken then a == m && b == m else SomewhereApart(a, b)
  {
    var (pmm, address) := m.pmm.AllocPages(1);
    if address == 0 {
      NothingLinked(m, t, page, level, 3);
      NothingLinked(m, t, page, level, 7);
    } else {
      LinkStays(m, t, page, level, 3, pmm, address);
      LinkStays(m, t, page, level, 7, pmm, address);
      var a, b := Locate(m, t, page, level, 3).0, Locate(m, t, page, level, 7).0;
      assert Apart(a, b, t, Index(page, level));
    }
  }

  lemma NothingLinked(m: Vm, t: nat, page: nat, level: nat, link: nat)
    requires m.pmm.Valid() && Starts(m, t, page, level) && 2 <= level && LinkFlags(link)
    requires !Present(m.ram[t][Index(page, level)]) && m.pmm.AllocPages(1).1 == 0
    ensures Locate(m, t, page, level, link) == (m, None)
  {
    var (pmm, address) := m.pmm.AllocPages(1);
    assert Descend(m, t, Index(page, level), link) == (m, None);
  }

  /** The rest of the walk leaves the entry just linked alone. */
  lemma LinkStays(m: Vm, t: nat, page: nat, level: nat, link: nat, pmm: PmmState, address: nat)
    requires Forest(m) && Starts(m, t, page, level) && 2 <= level && LinkFlags(link)
    requires !Present(m.ram[t][Index(page, level)]) && (pmm, address) == m.pmm.AllocPages(1) && address != 0
    ensures var a := Locate(m, t, page, level, link).0;
      && IsTable(a, t) && a.own[t].level == level && a.ram[t][Index(page, level)] == address + link
      && Frame(address) in a.pmm.taken && Frame(address) !in m.pmm.taken && m.pmm.taken <= a.pmm.taken
  {
    var i := Index(page, level);
    DescendStarts(m, t, page, level, link);
    AllocatedPage(m.pmm);
    FlagsOfSum(address, link);
    var (m1, next) := Descend(m, t, i, link);
    assert Locate(m, t, page, level, link) == Locate(m1, next.value, page, level - 1, link);
    RestStays(m1, next.value, page, level - 1, link, t, i);
  }

  /** The rest of a walk leaves an entry there is alone, and only takes pages. */
  lemma RestStays(m: Vm, t: nat, page: nat, level: nat, link: nat, u: nat, i: nat)
    requires Forest(m) && Starts(m, t, page, level) && LinkFlags(link)
    requires IsTable(m, u) && i < 512 && Present(m.ram[u][i])
    ensures var a := Locate(m, t, page, level, link).0;
      && IsTable(a, u) && a.own[u].level == m.own[u].level && a.ram[u][i] == m.ram[u][i]
      && m.pmm.taken <= a.pmm.taken
  {
    LocateKeeps(m, t, page, level, link);
    LocateLocal(m, t, page, level, link);
  }

  /** When a mapping takes no page: no table is missing, or there is no page to take. */
  ghost predicate NothingToTake(m: Vm, root: nat, page: nat) {
    Missing(m.ram, root, page, 4) == 0 || OutOfPages(m.pmm)
  }

  lemma {:induction false} LocateWithoutPages(m: Vm, t: nat, page: nat, level: nat, link: nat)
    requires m.pmm.Valid() && OutOfPages(m.pmm) && link < 0x1000
    ensures Locate(m, t, page, level, link).0 == m
    decreases level
  {
    if 2 <= level && t in m.ram {
      AllocFailure(m.pmm);
      var next := Descend(m, t, Index(page, level), link).1;
      if next.Some? {
        LocateWithoutPages(m, next.value, page, level - 1, link);
      }
    }
  }

  lemma SameSize(a: set<nat>, b: set<nat>)
    requires a <= b && |a| == |b|
    ensures a == b
  {
    assert b == a + (b - a);
  }

  lemma TakesNothingIff(m: Vm, root: nat, page: nat)
    requires CanMap(m, root, page)
    ensures Locate(m, root, page, 4, 3).0.pmm.taken == m.pmm.taken <==> NothingToTake(m, root, page)
  {
    var (a, pt) := Locate(m, root, page, 4, 3);
    RootIs(m, root);
    LocateTakes(m, root, page, 4, 3);
    LocateShows(m, root, page, 4);
    if OutOfPages(m.pmm) {
      LocateWithoutPages(m, root, page, 4, 3);
    } else if pt.Some? && Missing(m.ram, root, page, 4) == 0 {
      SameSize(m.pmm.taken, a.pmm.taken);
    }
  }

  /** The two mappers, on the same root and the same machine, with any frame: the same answer, the same pages taken, the
  same translations in every space, and tables equal but for PAGING_USER in new intermediate entries. The tables are
  equal outright exactly when the flags lack PAGING_USER or there is no table to make or no page to make it from. */
  lemma MappersAgree(m: Vm, root: nat, virtual: u64, physical: u64, flags: u64)
    requires CanMap(m, root, Page(virtual))
    ensures var (a, x) := MapPage(m, root, Page(virtual), Entry(physical, flags), KERNEL_LINK);
      var (b, y) := MapPage(m, root, Page(virtual), Entry(physical, flags), SpaceLink(flags));
      && x == y && Alike(a, b) && SameTranslations(m, a, b)
      && (a == b <==> !User(flags) || NothingToTake(m, root, Page(virtual)))
  {
    EntryIs(physical, flags);
    if User(flags) {
      UserMappersAgree(m, root, Page(virtual), Entry(physical, flags));
    }
  }

  lemma UserMappersAgree(m: Vm, root: nat, page: nat, leaf: u64)
    requires CanMap(m, root, page) && Present(leaf)
    ensures var (a, x), (b, y) := MapPage(m, root, page, leaf, 3), MapPage(m, root, page, leaf, 7);
      && x == y && Alike(a, b) && SameTranslations(m, a, b) && (a == b <==> NothingToTake(m, root, page))
  {
    TranslateAlike(m, root, page, leaf);
    LocateAlike(m, m, root, page, 4);
    LocatesTable(m, root, page, 3);
    MappersDiffer(m, root, page, leaf);
    TakesNothingIff(m, root, page);
    var (a, pt) := Locate(m, root, page, 4, 3);
    if pt.Some? {
      PutLeafAlike(a, Locate(m, root, page, 4, 7).0, pt.value, Index(page, 1), leaf);
    }
  }

  /** The spaces there were translate alike in two later states. */
  ghost predicate SameTranslations(m: Vm, a: Vm, b: Vm) {
    forall q, p: nat :: IsRoot(m, q) && IsPage(p) ==> Walk(a.ram, q, p, 4) == Walk(b.ram, q, p, 4)
  }

  lemma TranslateAlike(m: Vm, root: nat, page: nat, leaf: u64)
    requires CanMap(m, root, page) && Present(leaf)
    ensures var (a, x), (b, y) := MapPage(m, root, page, leaf, 3), MapPage(m, root, page, leaf, 7);
      x == y ==> SameTranslations(m, a, b)
  {
    var (a, x) := MapPage(m, root, page, leaf, 3);
    var (b, y) := MapPage(m, root, page, leaf, 7);
    if x == y {
      forall q, p: nat | IsRoot(m, q) && IsPage(p) ensures Walk(a.ram, q, p, 4) == Walk(b.ram, q, p, 4) {
        TranslatesTo(m, root, page, leaf, 3, q, p);
        TranslatesTo(m, root, page, leaf, 7, q, p);
      }
    }
  }

  lemma TranslatesTo(m: Vm, root: nat, page: nat, leaf: u64, link: nat, q: nat, p: nat)
    requires CanMap(m, root, page) && LinkFlags(link) && Present(leaf) && IsRoot(m, q) && IsPage(p)
    ensures var (m', ok) := MapPage(m, root, page, leaf, link);
      Walk(m'.ram, q, p, 4) == if ok && p == page && Sees(m, q, root, page) then Some(leaf) else Walk(m.ram, q, p, 4)
  {
    MapPageRefines(m, root, page, leaf, link);
    assert IsTable(m, q);
  }

  lemma MappersDiffer(m: Vm, root: nat, page: nat, leaf: u64)
    requires CanMap(m, root, page)
    requires Locate(m, root, page, 4, 3).1 == Locate(m, root, page, 4, 7).1
    ensures var a, b := MapPage(m, root, page, leaf, 3).0, MapPage(m, root, page, leaf, 7).0;
      a == b <==> a.pmm.taken == m.pmm.taken
  {
    WalkShows(m, root, page);
    LocatesTable(m, root, page, 7);
    var (a, pt) := Locate(m, root, page, 4, 3);
    var b := Locate(m, root, page, 4, 7).0;
    if pt.Some? {
      LeafHidesNothing(a, b, pt.value, Index(page, 1), leaf);
    }
  }

  lemma WalkShows(m: Vm, root: nat, page: nat)
    requires CanMap(m, root, page)
    ensures var (a, pt) := Locate(m, root, page, 4, 3);
      var b := Locate(m, root, page, 4, 7).0;
      && (pt.Some? ==> IsTable(a, pt.value) && a.own[pt.value].level == 1)
      && if a.pmm.taken == m.pmm.taken then a == m && b == m else SomewhereApart(a, b)
  {
    RootIs(m, root);
    LocateShows(m, root, page, 4);
    LocateKeeps(m, root, page, 4, 3);
  }

  /** Leaves are written in page tables; intermediate entries are not there. */
  lemma LeafHidesNothing(a: Vm, b: Vm, t: nat, i: nat, leaf: u64)
    requires IsTable(a, t) && a.own[t].level == 1 && t in b.ram && i < 512
    ensures SomewhereApart(a, b) ==> PutLeaf(a, t, i, leaf) != PutLeaf(b, t, i, leaf)
  {
    if SomewhereApart(a, b) {
      var u, j: nat :| Apart(a, b, u, j);
      assert PutLeaf(a, t, i, leaf).ram[u] == a.ram[u] && PutLeaf(b, t, i, leaf).ram[u] == b.ram[u];
    }
  }
}
