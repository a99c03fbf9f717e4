/** Who may use a mapped page. In user mode the processor asks every entry on the way to a page for PAGING_USER (Intel
SDM, Volume 3A, section 4.6); the mapping functions set it in the entries they make, and leave those they find alone. */
module Access {
  import opened Words
  import opened PhysicalMemory
  import opened PageTables
  import opened TableForest
  import opened Mapping

  /** User mode may use the page: every entry from `t` down to the one that maps it is present and has PAGING_USER. */
  predicate UserMay(ram: map<nat, Table>, t: nat, page: nat, level: nat)
    decreases level
  {
    level != 0 && t in ram &&
    var e := ram[t][Index(page, level)];
    Present(e) && User(e) && (level == 1 || (level <= 3 && Huge(e)) || UserMay(ram, Frame(e), page, level - 1))
  }

  /** The intermediate entries there are on the way to a page all have PAGING_USER. */
  predicate UserSoFar(ram: map<nat, Table>, t: nat, page: nat, level: nat)
    decreases level
  {
    level <= 1 || t !in ram ||
    var e := ram[t][Index(page, level)];
    Present(e) ==> User(e) && UserSoFar(ram, Frame(e), page, level - 1)
  }

  /** The way to the page table is there, and has PAGING_USER throughout. */
  predicate UserWay(ram: map<nat, Table>, t: nat, page: nat, level: nat)
    decreases level
  {
    level <= 1 || (
      t in ram &&
      var e := ram[t][Index(page, level)];
      Present(e) && User(e) && UserWay(ram, Frame(e), page, level - 1))
  }

  lemma UserOfSum(address: u64, link: nat)
    requires address % 0x1000 == 0 && link < 0x1000 && address + link < 0x1_0000_0000_0000_0000
    ensures User(address + link) == User(link)
  {
    var q := address / 0x1000;
    assert (4 * (0x400 * q) + link) / 4 == 0x400 * q + link / 4;
    EvenPlus(0x200 * q, link / 4);
  }

  /** After the walk the way has PAGING_USER exactly when what was there of it had, and what was missing gets it. */
  lemma {:induction false} LocateUserWay(m: Vm, t: nat, page: nat, level: nat, link: nat)
    requires Forest(m) && Starts(m, t, page, level) && LinkFlags(link) && Locate(m, t, page, level, link).1.Some?
    ensures UserWay(Locate(m, t, page, level, link).0.ram, t, page, level)
       <==> UserSoFar(m.ram, t, page, level) && (Missing(m.ram, t, page, level) == 0 || User(link))
    decreases level, 1
  {
    if 2 <= level {
      StartMayFollow(m, t, page, level);
      if Present(m.ram[t][Index(page, level)]) {
        FollowedUserWay(m, t, page, level, link);
      } else {
        MadeUserWay(m, t, page, level, link);
      }
    }
  }

  lemma {:induction false} FollowedUserWay(m: Vm, t: nat, page: nat, level: nat, link: nat)
    requires Forest(m) && Starts(m, t, page, level) && LinkFlags(link) && Locate(m, t, page, level, link).1.Some?
    requires 2 <= level && t in m.ram && Present(m.ram[t][Index(page, level)])
    ensures UserWay(Locate(m, t, page, level, link).0.ram, t, page, level)
       <==> UserSoFar(m.ram, t, page, level) && (Missing(m.ram, t, page, level) == 0 || User(link))
    decreases level, 0
  {
    var next := Frame(m.ram[t][Index(page, level)]);
    assert Descend(m, t, Index(page, level), link) == (m, Some(next));
    DescendStarts(m, t, page, level, link);
    LocateUserWay(m, next, page, level - 1, link);
    DescendedEntry(m, t, page, level, link);
    WayFollowed(m.ram, Locate(m, next, page, level - 1, link).0.ram, t, page, level, User(link));
  }

  lemma {:induction false} MadeUserWay(m: Vm, t: nat, page: nat, level: nat, link: nat)
    requires Forest(m) && Starts(m, t, page, level) && LinkFlags(link) && Locate(m, t, page, level, link).1.Some?
    requires 2 <= level && t in m.ram && !Present(m.ram[t][Index(page, level)])
    ensures UserWay(Locate(m, t, page, level, link).0.ram, t, page, level)
       <==> UserSoFar(m.ram, t, page, level) && (Missing(m.ram, t, page, level) == 0 || User(link))
    decreases level, 0
  {
    DescendStarts(m, t, page, level, link);
    DescendedEntry(m, t, page, level, link);
    var (m1, next) := Descend(m, t, Index(page, level), link);
    FreshUserWay(m1, next.value, page, level - 1, link);
    WayMade(m.ram, Locate(m1, next.value, page, level - 1, link).0.ram, t, page, level, User(link));
  }

  /** Below a cleared table everything is made. */
  lemma {:induction false} FreshUserWay(m: Vm, t: nat, page: nat, level: nat, link: nat)
    requires Forest(m) && Starts(m, t, page, level) && LinkFlags(link) && Locate(m, t, page, level, link).1.Some?
    requires t in m.ram && m.ram[t] == Zeros()
    ensures User(link) ==> UserWay(Locate(m, t, page, level, link).0.ram, t, page, level)
    decreases level, 2
  {
    FreshWay(m.ram, t, page, level);
    LocateUserWay(m, t, page, level, link);
  }

  /** One entry more that was there already: tables before the walk and at its end. */
  lemma WayFollowed(ram: map<nat, Table>, ram2: map<nat, Table>, t: nat, page: nat, level: nat, user: bool)
    requires 2 <= level && t in ram && t in ram2 && ram2[t][Index(page, level)] == ram[t][Index(page, level)]
    requires var e := ram[t][Index(page, level)];
      && Present(e)
      && UserWay(ram2, Frame(e), page, level - 1)
         == (UserSoFar(ram, Frame(e), page, level - 1) && (Missing(ram, Frame(e), page, level - 1) == 0 || user))
    ensures UserWay(ram2, t, page, level)
       <==> UserSoFar(ram, t, page, level) && (Missing(ram, t, page, level) == 0 || user)
  {
  }

  /** One that was made. */
  lemma WayMade(ram: map<nat, Table>, ram2: map<nat, Table>, t: nat, page: nat, level: nat, user: bool)
    requires 2 <= level && t in ram && t in ram2 && !Present(ram[t][Index(page, level)])
    requires var e2 := ram2[t][Index(page, level)];
      Present(e2) && User(e2) == user && (user ==> UserWay(ram2, Frame(e2), page, level - 1))
    ensures UserWay(ram2, t, page, level)
       <==> UserSoFar(ram, t, page, level) && (Missing(ram, t, page, level) == 0 || user)
  {
  }

  /** Below a cleared table nothing is there, and everything is missing. */
  lemma FreshWay(ram: map<nat, Table>, t: nat, page: nat, level: nat)
    requires t in ram && ram[t] == Zeros()
    ensures UserSoFar(ram, t, page, level)
  {
  }

  /** The entry a walk has passed is in place at its end: as it was, or new, with the flags of the walk. */
  lemma DescendedEntry(m: Vm, t: nat, page: nat, level: nat, link: nat)
    requires Forest(m) && Starts(m, t, page, level) && 2 <= level && LinkFlags(link)
    requires Locate(m, t, page, level, link).1.Some?
    ensures var (m1, next) := Descend(m, t, Index(page, level), link);
      var m2 := Locate(m, t, page, level, link).0;
      && next.Some? && t in m.ram && t in m2.ram && m2.ram[t][Index(page, level)] == m1.ram[t][Index(page, level)]
      && Frame(m2.ram[t][Index(page, level)]) == next.value && Present(m2.ram[t][Index(page, level)])
      && if Present(m.ram[t][Index(page, level)]) then m1 == m
         else next.value in m1.ram && m1.ram[next.value] == Zeros() && User(m1.ram[t][Index(page, level)]) == User(link)
  {
    var i := Index(page, level);
    StartMayFollow(m, t, page, level);
    DescendStarts(m, t, page, level, link);
    DescendKeeps(m, t, i, link);
    var (m1, next) := Descend(m, t, i, link);
    LocateKeeps(m1, next.value, page, level - 1, link);
    if !Present(m.ram[t][i]) {
      NewEntry(m, t, i, link);
    }
  }

  lemma NewEntry(m: Vm, t: nat, i: nat, link: nat)
    requires Forest(m) && MayFollow(m, t, i) && LinkFlags(link) && !Present(m.ram[t][i])
    requires Descend(m, t, i, link).1.Some?
    ensures var (m1, next) := Descend(m, t, i, link);
      next.value in m1.ram && m1.ram[next.value] == Zeros() && t in m1.ram && User(m1.ram[t][i]) == User(link)
  {
    AllocatedPage(m.pmm);
    var (pmm, address) := m.pmm.AllocPages(1);
    PlacedIfOwned(m, Frame(address));
    FlagsOfSum(address, link);
    UserOfSum(address, link);
  }

  /** Writing a leaf leaves the way to it alone, and completes it. */
  lemma {:induction false} LeafUserWay(m: Vm, pt: nat, i: nat, leaf: u64, t: nat, page: nat, level: nat)
    requires AllLead(m) && AllPlaced(m) && IsTable(m, pt) && m.own[pt].level == 1
    requires i == Index(page, 1) && Present(leaf)
    requires IsTable(m, t) && m.own[t].level == level && LeafTable(m.ram, t, page, level) == Some(pt)
    ensures UserMay(SetEntry(m.ram, pt, i, leaf), t, page, level) <==> UserWay(m.ram, t, page, level) && User(leaf)
    decreases level
  {
    if level != 1 {
      assert Leads(m, t, Index(page, level));
      assert t != pt && SetEntry(m.ram, pt, i, leaf)[t] == m.ram[t];
      PlacedIfOwned(m, Frame(m.ram[t][Index(page, level)]));
      LeafUserWay(m, pt, i, leaf, Frame(m.ram[t][Index(page, level)]), page, level - 1);
    }
  }

  /** User mode may use a page that has just been mapped exactly when the leaf has PAGING_USER, every intermediate entry
  that was there before had it, and, where tables were missing, the mapping function gives it to new entries. */
  lemma MappedUserMay(m: Vm, root: nat, page: nat, leaf: u64, link: nat)
    requires CanMap(m, root, page) && LinkFlags(link) && Present(leaf) && MapPage(m, root, page, leaf, link).1
    ensures UserMay(MapPage(m, root, page, leaf, link).0.ram, root, page, 4)
       <==> User(leaf) && UserSoFar(m.ram, root, page, 4) && (Missing(m.ram, root, page, 4) == 0 || User(link))
  {
    RootIs(m, root);
    LocatedWalk(m, root, page, link);
    LocateUserWay(m, root, page, 4, link);
    var (m1, pt) := Locate(m, root, page, 4, link);
    LeafUserWay(m1, pt.value, Index(page, 1), leaf, root, page, 4);
  }

  /** PAGING_USER among the flags of a mapping is in its leaf. */
  lemma UserLeaf(physical: u64, flags: u64)
    requires User(flags)
    ensures User(Entry(physical, flags))
  {
    OrBitTwo(physical, flags);
    OrBitTwo(Or(physical, flags), 1);
  }

  lemma OrBitTwo(a: u64, b: u64)
    ensures User(Or(a, b)) <==> User(a) || User(b)
  {
    OrUnfold(a, b);
    OrUnfold(a / 2, b / 2);
    OrUnfold(a / 2 / 2, b / 2 / 2);
    assert Or(a, b) / 2 / 2 == BitOr(a / 2 / 2, b / 2 / 2);
    Quarter(a);
    Quarter(b);
    Quarter(Or(a, b));
  }

  lemma Quarter(x: nat)
    ensures x / 2 / 2 == x / 4
  {
  }

  /** `vmm_map_page` with PAGING_USER: user mode may use the page exactly when every intermediate entry that was there
  had PAGING_USER. One made earlier for a page without it shuts user mode out. */
  lemma UserMappingIsUsable(m: Vm, root: nat, virtual: u64, physical: u64, flags: u64)
    requires CanMap(m, root, Page(virtual)) && User(flags)
    requires MapPage(m, root, Page(virtual), Entry(physical, flags), SpaceLink(flags)).1
    ensures var m' := MapPage(m, root, Page(virtual), Entry(physical, flags), SpaceLink(flags)).0;
      UserMay(m'.ram, root, Page(virtual), 4) <==> UserSoFar(m.ram, root, Page(virtual), 4)
  {
    EntryIs(physical, flags);
    UserLeaf(physical, flags);
    MappedUserMay(m, root, Page(virtual), Entry(physical, flags), SpaceLink(flags));
  }

  /** `paging_map_page` with PAGING_USER gives it to no table it makes: user mode may use the page exactly when all the
  tables were there already, for user mode. */
  lemma KernelMapperSeldomUsable(m: Vm, root: nat, virtual: u64, physical: u64, flags: u64)
    requires CanMap(m, root, Page(virtual)) && User(flags)
    requires MapPage(m, root, Page(virtual), Entry(physical, flags), KERNEL_LINK).1
    ensures var m' := MapPage(m, root, Page(virtual), Entry(physical, flags), KERNEL_LINK).0;
      UserMay(m'.ram, root, Page(virtual), 4)
      <==> UserSoFar(m.ram, root, Page(virtual), 4) && Missing(m.ram, root, Page(virtual), 4) == 0
  {
    assert !User(KERNEL_LINK) && LinkFlags(KERNEL_LINK);
    EntryIs(physical, flags);
    UserLeaf(physical, flags);
    MappedUserMay(m, root, Page(virtual), Entry(physical, flags), KERNEL_LINK);
  }
}
