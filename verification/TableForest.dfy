/** The invariant of the page tables of all address spaces, and what mapping a page does to it and to translations. */
module TableForest {
  import opened Words
  import opened PhysicalMemory
  import opened PageTables

  /** One more than the greatest prefix of the lower half at a level. */
  function Limit(level: nat): nat {
    match level
    case 0 => 0x8_0000_0000
    case 1 => 0x400_0000
    case 2 => 0x2_0000
    case 3 => 256
    case _ => 1
  }

  predicate LowerHalf(page: nat) {
    page < Limit(0)
  }

  /** `f` has a place: it is an allocated frame, or one of the kernel's that lies beyond the allocator's pages; its root
  is a live PML4, and outside the kernel's tree it serves the lower half. Leaves are recorded only outside the kernel's
  tree. */
  ghost predicate Placed(m: Vm, f: nat)
    requires f in m.own
  {
    var tag := m.own[f];
    && f in m.ram && 1 <= f && tag.level <= 4
    && (f in m.pmm.taken || (tag.root == m.kernel && m.pmm.total <= f))
    && tag.root in m.own && m.own[tag.root] == Tag(tag.root, 4, 0)
    && (tag.level == 4 ==> tag == Tag(f, 4, 0))
    && if tag.root == m.kernel then 1 <= tag.level else tag.prefix < Limit(tag.level)
  }

  predicate IsTable(m: Vm, t: nat) {
    t in m.own && 1 <= m.own[t].level && t in m.ram
  }

  /** Entry `i` of `t`, if present, leads to the frame whose place is the entry's. */
  predicate Leads(m: Vm, t: nat, i: nat)
    requires IsTable(m, t) && i < 512
  {
    var e, tag := m.ram[t][i], m.own[t];
    Present(e) ==>
      if tag.root == m.kernel && (tag.level == 1 || (tag.level <= 3 && Huge(e))) then true
      else !(2 <= tag.level <= 3 && Huge(e)) && Frame(e) in m.own && m.own[Frame(e)] == Child(m.kernel, tag, i)
  }

  ghost predicate AllPlaced(m: Vm) {
    forall f :: f in m.own ==> Placed(m, f)
  }

  ghost predicate AllLead(m: Vm) {
    forall t, i: nat :: IsTable(m, t) && i < 512 ==> Leads(m, t, i)
  }

  /** A high slot present in a space is the kernel's. */
  ghost predicate Shared(m: Vm) {
    forall r, i: nat :: IsTable(m, r) && m.own[r].level == 4 && HighSlot(i) && i < 512 && Present(m.ram[r][i]) ==>
      IsTable(m, m.kernel) && m.ram[r][i] == m.ram[m.kernel][i]
  }

  predicate ParentOf(m: Vm, t: nat, f: nat) {
    IsTable(m, t) && f in m.own &&
    var tag := m.own[f];
    && m.own[t] == Tag(tag.root, tag.level + 1, tag.prefix / 512)
    && Present(m.ram[t][tag.prefix % 512]) && Frame(m.ram[t][tag.prefix % 512]) == f
  }

  ghost predicate Reached(m: Vm, f: nat) {
    exists t :: ParentOf(m, t, f)
  }

  /** Outside the kernel's tree nothing has a place that its space does not reach. */
  ghost predicate AllReached(m: Vm) {
    forall f :: f in m.own && m.own[f].root != m.kernel && m.own[f].level < 4 ==> Reached(m, f)
  }

  ghost predicate Forest(m: Vm) {
    && m.pmm.Valid()
    && (forall p: nat :: p < m.pmm.total ==> p in m.ram)
    && m.kernel in m.own && m.own[m.kernel] == Tag(m.kernel, 4, 0)
    && AllPlaced(m) && AllLead(m) && Shared(m) && AllReached(m)
  }

  /** The least machine: a root for the kernel that the allocator will not hand out, nothing mapped. */
  lemma BareKernel(m: Vm)
    requires m.pmm.Valid() && forall p: nat :: p < m.pmm.total ==> p in m.ram
    requires m.kernel in m.ram && m.ram[m.kernel] == Zeros() && 1 <= m.kernel
    requires m.kernel in m.pmm.taken || m.pmm.total <= m.kernel
    requires m.own == map[m.kernel := Tag(m.kernel, 4, 0)]
    ensures Forest(m)
  {
  }

  // ---------------------------------------------------------------- linking a fresh table

  ghost predicate CanLink(m: Vm, t: nat, i: nat, e: u64) {
    && IsTable(m, t) && 2 <= m.own[t].level && i < 512 && !Present(m.ram[t][i])
    && Frame(e) !in m.own && Frame(e) in m.ram && Frame(e) in m.pmm.taken && 1 <= Frame(e)
    && Present(e) && !Huge(e)
    && (m.own[t].level == 4 && m.own[t].root != m.kernel ==> !HighSlot(i))
  }

  lemma LinkPlaced(m: Vm, t: nat, i: nat, e: u64)
    requires AllPlaced(m) && CanLink(m, t, i, e)
    ensures AllPlaced(Link(m, t, i, e))
  {
    var m' := Link(m, t, i, e);
    assert Placed(m, t);
    forall f | f in m'.own ensures Placed(m', f) {
      if f != Frame(e) {
        assert Placed(m, f);
      }
    }
  }

  lemma LinkLeads(m: Vm, t: nat, i: nat, e: u64)
    requires AllLead(m) && CanLink(m, t, i, e)
    ensures AllLead(Link(m, t, i, e))
  {
    var m' := Link(m, t, i, e);
    forall u, j: nat | IsTable(m', u) && j < 512 ensures Leads(m', u, j) {
      if u != Frame(e) {
        assert Leads(m, u, j);
      }
    }
  }

  lemma LinkShared(m: Vm, t: nat, i: nat, e: u64)
    requires Shared(m) && AllPlaced(m) && CanLink(m, t, i, e) && IsTable(m, m.kernel)
    ensures Shared(Link(m, t, i, e))
  {
    var m' := Link(m, t, i, e);
    assert Placed(m, t);
    forall r, j: nat | IsTable(m', r) && m'.own[r].level == 4 && HighSlot(j) && j < 512 && Present(m'.ram[r][j])
      ensures m'.ram[r][j] == m'.ram[m.kernel][j]
    {
      assert r != Frame(e) && IsTable(m, r);
    }
  }

  lemma LinkReached(m: Vm, t: nat, i: nat, e: u64)
    requires AllReached(m) && AllPlaced(m) && CanLink(m, t, i, e)
    ensures AllReached(Link(m, t, i, e))
  {
    var m' := Link(m, t, i, e);
    forall f | f in m'.own && m'.own[f].root != m'.kernel && m'.own[f].level < 4 ensures Reached(m', f) {
      if f == Frame(e) {
        LinkParent(m, t, i, e);
      } else {
        ReachedStill(m, m', f);
      }
    }
  }

  lemma LinkParent(m: Vm, t: nat, i: nat, e: u64)
    requires AllPlaced(m) && CanLink(m, t, i, e)
    requires Link(m, t, i, e).own[Frame(e)].root != m.kernel
    ensures Reached(Link(m, t, i, e), Frame(e))
  {
    assert Placed(m, t);
    assert ParentOf(Link(m, t, i, e), t, Frame(e));
  }

  lemma ReachedStill(m: Vm, m': Vm, f: nat)
    requires Reached(m, f) && f in m'.own && m'.own[f] == m.own[f]
    requires forall u :: ParentOf(m, u, f) ==> ParentOf(m', u, f)
    ensures Reached(m', f)
  {
  }

  /** Linking a cleared frame changes no translation. */
  lemma {:induction false} LinkWalk(m: Vm, t: nat, i: nat, e: u64, u: nat, page: nat, level: nat)
    requires AllLead(m) && AllPlaced(m) && CanLink(m, t, i, e) && IsTable(m, u) && m.own[u].level == level
    ensures Walk(Link(m, t, i, e).ram, u, page, level) == Walk(m.ram, u, page, level)
    decreases level
  {
    var m' := Link(m, t, i, e);
    var j := Index(page, level);
    assert Leads(m, u, j);
    if u == t && j == i {
      assert Walk(m'.ram, Frame(e), page, level - 1) == None;
    } else if Present(m.ram[u][j]) && level != 1 && !(level <= 3 && Huge(m.ram[u][j])) {
      assert Placed(m, Frame(m.ram[u][j]));
      LinkWalk(m, t, i, e, Frame(m.ram[u][j]), page, level - 1);
    }
  }

  // ---------------------------------------------------------------- descending

  /** A later state keeps every place, every present entry of a table, and every translation. */
  ghost predicate Extends(m: Vm, m': Vm) {
    && m'.kernel == m.kernel && m'.ram.Keys == m.ram.Keys && m'.pmm.total == m.pmm.total
    && (forall f :: f in m.own ==> f in m'.own && m'.own[f] == m.own[f])
    && (forall u, j: nat :: IsTable(m, u) && j < 512 && Present(m.ram[u][j]) ==> m'.ram[u][j] == m.ram[u][j])
    && SameWalks(m, m')
  }

  ghost predicate SameWalks(m: Vm, m': Vm) {
    forall u, page: nat :: IsTable(m, u) ==>
      Walk(m'.ram, u, page, m.own[u].level) == Walk(m.ram, u, page, m.own[u].level)
  }

  lemma ExtendsAll(m: Vm, m': Vm, m'': Vm)
    requires Extends(m, m') && Extends(m', m'')
    ensures Extends(m, m'')
  {
    forall u, j: nat | IsTable(m, u) && j < 512 && Present(m.ram[u][j]) ensures m''.ram[u][j] == m.ram[u][j] {
      assert IsTable(m', u) && m'.ram[u][j] == m.ram[u][j];
    }
    forall u, page: nat | IsTable(m, u)
      ensures Walk(m''.ram, u, page, m.own[u].level) == Walk(m.ram, u, page, m.own[u].level)
    {
      assert IsTable(m', u);
    }
  }

  lemma LinkKeeps(m: Vm, t: nat, i: nat, e: u64)
    requires Forest(m) && CanLink(m, t, i, e)
    ensures Forest(Link(m, t, i, e)) && Extends(m, Link(m, t, i, e))
  {
    LinkPlaced(m, t, i, e);
    LinkLeads(m, t, i, e);
    assert Placed(m, m.kernel);
    LinkShared(m, t, i, e);
    LinkReached(m, t, i, e);
    LinkExtends(m, t, i, e);
  }

  lemma LinkExtends(m: Vm, t: nat, i: nat, e: u64)
    requires AllLead(m) && AllPlaced(m) && CanLink(m, t, i, e)
    ensures Extends(m, Link(m, t, i, e))
  {
    var m' := Link(m, t, i, e);
    assert m'.ram.Keys == m.ram.Keys;
    forall u, page: nat | IsTable(m, u)
      ensures Walk(m'.ram, u, page, m.own[u].level) == Walk(m.ram, u, page, m.own[u].level)
    {
      LinkWalk(m, t, i, e, u, page, m.own[u].level);
    }
  }

  /** Taking pages from the allocator disturbs no table. */
  lemma TakingKeeps(m: Vm, pmm: PmmState)
    requires Forest(m) && pmm.Valid() && pmm.total == m.pmm.total && m.pmm.taken <= pmm.taken
    ensures Forest(m.(pmm := pmm)) && Extends(m, m.(pmm := pmm))
  {
    SameTables(m, m.(pmm := pmm));
    forall f | f in m.own ensures Placed(m.(pmm := pmm), f) {
      assert Placed(m, f);
    }
  }

  /** What is said of tables alone does not depend on the allocator. */
  lemma SameTables(m: Vm, m': Vm)
    requires AllLead(m) && Shared(m) && AllReached(m)
    requires m'.ram == m.ram && m'.own == m.own && m'.kernel == m.kernel
    ensures AllLead(m') && Shared(m') && AllReached(m')
  {
    forall t, i: nat | IsTable(m', t) && i < 512 ensures Leads(m', t, i) {
      assert IsTable(m, t) && Leads(m, t, i);
    }
    forall r, i: nat | IsTable(m', r) && m'.own[r].level == 4 && HighSlot(i) && i < 512 && Present(m'.ram[r][i])
      ensures IsTable(m', m'.kernel) && m'.ram[r][i] == m'.ram[m'.kernel][i]
    {
      assert IsTable(m, r) && IsTable(m, m.kernel);
    }
    forall f | f in m'.own && m'.own[f].root != m'.kernel && m'.own[f].level < 4 ensures Reached(m', f) {
      ReachedStill(m, m', f);
    }
  }

  /** The flags of a new intermediate entry: present, not huge. */
  predicate LinkFlags(link: nat) {
    link < 0x1000 && Present(link) && !Huge(link)
  }

  lemma FlagsOfSum(address: u64, link: nat)
    requires address % 0x1000 == 0 && link < 0x1000 && address + link < 0x1_0000_0000_0000_0000
    ensures Present(address + link) == Present(link) && Huge(address + link) == Huge(link)
    ensures Frame(address + link) == Frame(address)
  {
    var q := address / 0x1000;
    Divided(q, link, 0x1000);
    Divided(32 * q, link, 128);
    EvenPlus(16 * q, link / 128);
    EvenPlus(0x800 * q, link);
  }

  lemma EvenPlus(k: nat, x: nat)
    ensures (2 * k + x) % 2 == x % 2
  {
  }

  lemma Divided(q: nat, r: nat, d: nat)
    requires d == 128 || d == 0x1000
    ensures (d * q + r) / d == q + r / d
  {
  }

  /** The entry `i` of `t` may be followed: not huge, and not from another space into the kernel's tree. */
  predicate MayFollow(m: Vm, t: nat, i: nat) {
    && IsTable(m, t) && 2 <= m.own[t].level && i < 512
    && (Present(m.ram[t][i]) && m.own[t].level <= 3 ==> !Huge(m.ram[t][i]))
    && (m.own[t].level == 4 && m.own[t].root != m.kernel ==> !HighSlot(i))
  }

  /** A followed entry leads to the table whose place is the entry's. */
  ghost predicate Arrives(m: Vm, m': Vm, t: nat, i: nat, next: nat)
    requires MayFollow(m, t, i)
  {
    && IsTable(m', t) && IsTable(m', next) && m'.own[next] == Child(m.kernel, m.own[t], i)
    && Present(m'.ram[t][i]) && Frame(m'.ram[t][i]) == next && (m.own[t].level <= 3 ==> !Huge(m'.ram[t][i]))
  }

  lemma DescendKeeps(m: Vm, t: nat, i: nat, link: nat)
    requires Forest(m) && MayFollow(m, t, i) && LinkFlags(link)
    ensures var (m', next) := Descend(m, t, i, link);
      Forest(m') && Extends(m, m') && if next.None? then m' == m else Arrives(m, m', t, i, next.value)
  {
    var (m', next) := Descend(m, t, i, link);
    if Present(m.ram[t][i]) {
      assert (m', next) == (m, Some(Frame(m.ram[t][i])));
      DescendFollows(m, t, i);
    } else {
      AllocatedPage(m.pmm);
      var (pmm, address) := m.pmm.AllocPages(1);
      if address == 0 {
        assert (m', next) == (m, None);
      } else {
        assert (m', next) == (Link(m.(pmm := pmm), t, i, address + link), Some(Frame(address)));
        DescendLinks(m, t, i, link, pmm, address);
      }
    }
  }

  lemma DescendFollows(m: Vm, t: nat, i: nat)
    requires AllLead(m) && AllPlaced(m) && MayFollow(m, t, i) && Present(m.ram[t][i])
    ensures Arrives(m, m, t, i, Frame(m.ram[t][i]))
  {
    assert Leads(m, t, i);
    assert Placed(m, Frame(m.ram[t][i]));
  }

  lemma PlacedIfOwned(m: Vm, f: nat)
    requires AllPlaced(m)
    ensures f in m.own ==> Placed(m, f)
  {
  }

  lemma DescendLinks(m: Vm, t: nat, i: nat, link: nat, pmm: PmmState, address: nat)
    requires Forest(m) && MayFollow(m, t, i) && LinkFlags(link) && !Present(m.ram[t][i])
    requires address % 0x1000 == 0 && address + 0x1000 <= 0x1_0000_0000_0000_0000
    requires 1 <= Frame(address) < pmm.total && Frame(address) !in m.pmm.taken
    requires pmm == m.pmm.(taken := m.pmm.taken + {Frame(address)}, used := m.pmm.used + 1) && pmm.Valid()
    ensures var m' := Link(m.(pmm := pmm), t, i, address + link);
      Forest(m') && Extends(m, m') && Arrives(m, m', t, i, Frame(address))
  {
    var m1 := m.(pmm := pmm);
    TakingKeeps(m, pmm);
    PlacedIfOwned(m, Frame(address));
    FreshLinks(m1, t, i, link, address);
    ExtendsAll(m, m1, Link(m1, t, i, address + link));
  }

  lemma FreshLinks(m: Vm, t: nat, i: nat, link: nat, address: nat)
    requires Forest(m) && MayFollow(m, t, i) && LinkFlags(link) && !Present(m.ram[t][i])
    requires address % 0x1000 == 0 && address + 0x1000 <= 0x1_0000_0000_0000_0000
    requires 1 <= Frame(address) && Frame(address) in m.ram && Frame(address) in m.pmm.taken && Frame(address) !in m.own
    ensures var m' := Link(m, t, i, address + link);
      Forest(m') && Extends(m, m') && Arrives(m, m', t, i, Frame(address))
  {
    FlagsOfSum(address, link);
    LinkKeeps(m, t, i, address + link);
  }

  // ---------------------------------------------------------------- finding the page table

  /** A walk for `page` may start at `t`: it is the page's table at its level, and outside the kernel's tree the page
  is in the lower half. */
  ghost predicate Starts(m: Vm, t: nat, page: nat, level: nat) {
    && IsTable(m, t) && m.own[t].level == level && Serves(m.own[t], page)
    && (m.own[t].root != m.kernel ==> LowerHalf(page))
    && PathClear(m.ram, t, page, level)
  }

  lemma StartMayFollow(m: Vm, t: nat, page: nat, level: nat)
    requires Starts(m, t, page, level) && 2 <= level
    ensures MayFollow(m, t, Index(page, level))
  {
    if level == 4 {
      TopIndex(page);
    }
  }

  lemma TopIndex(page: nat)
    ensures Prefix(page, 3) < 256 <==> LowerHalf(page)
    ensures LowerHalf(page) ==> !HighSlot(Index(page, 4))
    ensures page < 0x10_0000_0000 && !LowerHalf(page) ==> HighSlot(Index(page, 4))
    ensures page < 0x10_0000_0000 ==> Prefix(page, 4) == 0
  {
    Prefixes(page);
    assert page / 512 / 512 / 512 == page / 0x800_0000;
    assert Prefix(page, 4) == Prefix(page, 3) / 512;
  }

  lemma DescendStarts(m: Vm, t: nat, page: nat, level: nat, link: nat)
    requires Forest(m) && Starts(m, t, page, level) && 2 <= level && LinkFlags(link)
    ensures MayFollow(m, t, Index(page, level))
    ensures var (m', next) := Descend(m, t, Index(page, level), link);
      && Forest(m') && Extends(m, m')
      && (next.Some? ==> Starts(m', next.value, page, level - 1) && m'.own[next.value].root == m.own[t].root)
  {
    var i := Index(page, level);
    StartMayFollow(m, t, page, level);
    DescendClear(m, t, page, level, link);
    ChildServes(m.kernel, m.own[t], i, page);
    DescendKeeps(m, t, i, link);
  }

  /** The path goes on without huge entries: as it did, or through a cleared table. */
  lemma DescendClear(m: Vm, t: nat, page: nat, level: nat, link: nat)
    requires m.pmm.Valid() && AllPlaced(m) && Starts(m, t, page, level) && 2 <= level && LinkFlags(link)
    ensures var (m', next) := Descend(m, t, Index(page, level), link);
      next.Some? ==> PathClear(m'.ram, next.value, page, level - 1)
  {
    var i := Index(page, level);
    if Present(m.ram[t][i]) {
      assert Descend(m, t, i, link) == (m, Some(Frame(m.ram[t][i])));
    } else {
      AllocatedPage(m.pmm);
      var (pmm, address) := m.pmm.AllocPages(1);
      if address != 0 {
        assert Descend(m, t, i, link) == (Link(m.(pmm := pmm), t, i, address + link), Some(Frame(address)));
        PlacedIfOwned(m, t);
        FlagsOfSum(address, link);
      }
    }
  }

  /** The three steps of every mapping walk: they find the page table of the page, changing no translation. */
  lemma {:induction false} LocateKeeps(m: Vm, t: nat, page: nat, level: nat, link: nat)
    requires Forest(m) && Starts(m, t, page, level) && LinkFlags(link)
    ensures var (m', pt) := Locate(m, t, page, level, link);
      && Forest(m') && Extends(m, m')
      && (pt.Some? ==> Found(m', t, page, level, pt.value) && m'.own[pt.value].root == m.own[t].root)
    decreases level
  {
    if 2 <= level {
      var i := Index(page, level);
      DescendStarts(m, t, page, level, link);
      DescendKeeps(m, t, i, link);
      var (m1, next) := Descend(m, t, i, link);
      if next.Some? {
        LocateKeeps(m1, next.value, page, level - 1, link);
        var (m2, pt) := Locate(m1, next.value, page, level - 1, link);
        ExtendsAll(m, m1, m2);
        assert m2.ram[t][i] == m1.ram[t][i];
      }
    }
  }

  /** `pt` is the page table of `page`, and the processor reaches it from `t`. */
  ghost predicate Found(m: Vm, t: nat, page: nat, level: nat, pt: nat) {
    && IsTable(m, pt) && m.own[pt].level == 1 && Serves(m.own[pt], page)
    && LeafTable(m.ram, t, page, level) == Some(pt)
  }

  // ---------------------------------------------------------------- writing a leaf

  /** Writing one cell of a page table changes the translation of exactly the pages that are looked up there. */
  lemma {:induction false} CellWalk(m: Vm, t: nat, i: nat, leaf: u64, u: nat, page: nat, level: nat)
    requires AllLead(m) && AllPlaced(m) && IsTable(m, t) && m.own[t].level == 1 && i < 512
    requires IsTable(m, u) && m.own[u].level == level
    ensures Walk(SetEntry(m.ram, t, i, leaf), u, page, level)
         == if LeafTable(m.ram, u, page, level) == Some(t) && Index(page, 1) == i
            then if Present(leaf) then Some(leaf) else None
            else Walk(m.ram, u, page, level)
    decreases level
  {
    var j := Index(page, level);
    if level != 1 {
      assert Leads(m, u, j);
      assert u != t && SetEntry(m.ram, t, i, leaf)[u] == m.ram[u];
      if Present(m.ram[u][j]) && !(level <= 3 && Huge(m.ram[u][j])) {
        assert Placed(m, Frame(m.ram[u][j]));
        CellWalk(m, t, i, leaf, Frame(m.ram[u][j]), page, level - 1);
      }
    }
  }

  /** The page table reached for a page is the page's, in the kernel's tree for the upper half. */
  lemma {:induction false} LeafTableServes(m: Vm, u: nat, page: nat, level: nat)
    requires AllLead(m) && AllPlaced(m) && IsTable(m, u) && m.own[u].level == level && Serves(m.own[u], page)
    ensures var pt := LeafTable(m.ram, u, page, level); pt.Some? ==>
      && Found(m, u, page, level, pt.value)
      && m.own[pt.value].root == if level == 4 && HighSlot(Index(page, 4)) then m.kernel else m.own[u].root
    decreases level
  {
    var j := Index(page, level);
    if level != 1 {
      assert Leads(m, u, j);
      ChildServes(m.kernel, m.own[u], j, page);
      if Present(m.ram[u][j]) && !(level <= 3 && Huge(m.ram[u][j])) {
        assert Placed(m, Frame(m.ram[u][j]));
        LeafTableServes(m, Frame(m.ram[u][j]), page, level - 1);
      }
    }
  }

  /** Outside the kernel's tree no two frames have the same place. */
  lemma {:induction false} PlacesUnique(m: Vm, f: nat, g: nat)
    requires AllPlaced(m) && AllReached(m)
    requires f in m.own && g in m.own && m.own[f] == m.own[g] && m.own[f].root != m.kernel
    ensures f == g
    decreases 4 - m.own[f].level
  {
    assert Placed(m, f) && Placed(m, g);
    if m.own[f].level < 4 {
      assert Reached(m, f) && Reached(m, g);
      var t :| ParentOf(m, t, f);
      var u :| ParentOf(m, u, g);
      PlacesUnique(m, t, u);
    }
  }

  /** Only one cell leads to a frame placed outside the kernel's tree. */
  lemma CellsDistinct(m: Vm, t: nat, i: nat, u: nat, j: nat)
    requires AllPlaced(m) && AllReached(m) && IsTable(m, t) && IsTable(m, u) && i < 512 && j < 512
    requires m.own[t].level == 1 && m.own[t].root != m.kernel
    requires Child(m.kernel, m.own[t], i) == Child(m.kernel, m.own[u], j)
    ensures t == u && i == j
  {
    PlacesUnique(m, t, u);
  }

  lemma DropLeads(m: Vm, t: nat, i: nat)
    requires AllPlaced(m) && AllReached(m) && AllLead(m) && IsTable(m, t) && m.own[t].level == 1 && i < 512
    ensures AllLead(DropLeaf(m, t, i))
  {
    var m' := DropLeaf(m, t, i);
    assert Leads(m, t, i);
    forall u, j: nat | IsTable(m', u) && j < 512 ensures Leads(m', u, j) {
      assert IsTable(m, u) && Leads(m, u, j);
      var e, was := m.ram[u][j], m.ram[t][i];
      if (u != t || j != i) && IsSpaceLeaf(m, t) && Present(was) && Present(e) && Frame(e) == Frame(was) {
        if Child(m.kernel, m.own[t], i) == Child(m.kernel, m.own[u], j) {
          CellsDistinct(m, t, i, u, j);
        }
      }
    }
  }

  lemma DropPlaced(m: Vm, t: nat, i: nat)
    requires AllPlaced(m) && AllLead(m) && IsTable(m, t) && m.own[t].level == 1 && i < 512
    ensures AllPlaced(DropLeaf(m, t, i)) && forall u :: IsTable(m, u) ==> IsTable(DropLeaf(m, t, i), u)
  {
    var m' := DropLeaf(m, t, i);
    assert Leads(m, t, i);
    assert IsSpaceLeaf(m, t) && Present(m.ram[t][i]) ==> m.own[Frame(m.ram[t][i])].level == 0;
    forall f | f in m'.own ensures Placed(m', f) {
      assert Placed(m, f);
    }
  }

  lemma DropReached(m: Vm, t: nat, i: nat)
    requires AllPlaced(m) && AllReached(m) && AllLead(m) && IsTable(m, t) && m.own[t].level == 1 && i < 512
    ensures AllReached(DropLeaf(m, t, i))
  {
    var m' := DropLeaf(m, t, i);
    DropPlaced(m, t, i);
    forall f | f in m'.own && m'.own[f].root != m'.kernel && m'.own[f].level < 4 ensures Reached(m', f) {
      DropParents(m, t, i, f);
      ReachedStill(m, m', f);
    }
  }

  lemma DropParents(m: Vm, t: nat, i: nat, f: nat)
    requires IsTable(m, t) && i < 512 && forall u :: IsTable(m, u) ==> IsTable(DropLeaf(m, t, i), u)
    requires f in DropLeaf(m, t, i).own && m.own[f].root != m.kernel
    requires m.own[t].level == 1
    ensures forall u :: ParentOf(m, u, f) ==> ParentOf(DropLeaf(m, t, i), u, f)
  {
  }

  lemma DropKeeps(m: Vm, t: nat, i: nat)
    requires Forest(m) && IsTable(m, t) && m.own[t].level == 1 && i < 512
    ensures Forest(DropLeaf(m, t, i))
  {
    DropPlaced(m, t, i);
    DropLeads(m, t, i);
    DropReached(m, t, i);
    assert Placed(m, m.kernel) && IsTable(m, m.kernel);
    CellShared(m, t, i, 0, DropLeaf(m, t, i).own);
  }

  /** Page tables are not PML4s. */
  lemma CellShared(m: Vm, t: nat, i: nat, e: u64, own: map<nat, Tag>)
    requires Shared(m) && IsTable(m, t) && m.own[t].level == 1 && i < 512
    requires m.kernel in own && m.kernel in m.own && m.own[m.kernel].level == 4 && own[m.kernel] == m.own[m.kernel]
    requires forall r :: r in own && own[r].level == 4 ==> r in m.own && m.own[r] == own[r]
    ensures Shared(m.(ram := SetEntry(m.ram, t, i, e), own := own))
  {
    var m' := m.(ram := SetEntry(m.ram, t, i, e), own := own);
    forall r, j: nat | IsTable(m', r) && m'.own[r].level == 4 && HighSlot(j) && j < 512 && Present(m'.ram[r][j])
      ensures IsTable(m', m'.kernel) && m'.ram[r][j] == m'.ram[m'.kernel][j]
    {
      assert IsTable(m, r);
    }
  }

  /** A frame that may become a leaf of `t`: allocated, and without a place unless it is the one the entry names. */
  ghost predicate LeafFree(m: Vm, t: nat, i: nat, leaf: u64)
    requires IsTable(m, t) && i < 512
  {
    && Present(leaf) && Frame(leaf) in m.ram && Frame(leaf) in m.pmm.taken && 1 <= Frame(leaf)
    && (Frame(leaf) in m.own ==> Present(m.ram[t][i]) && Frame(m.ram[t][i]) == Frame(leaf))
  }

  /** Writing the leaf of an emptied entry. */
  lemma AddKeeps(m: Vm, t: nat, i: nat, leaf: u64)
    requires Forest(m) && IsTable(m, t) && IsSpaceLeaf(m, t) && i < 512 && !Present(m.ram[t][i])
    requires Present(leaf) && Frame(leaf) in m.ram && Frame(leaf) in m.pmm.taken && 1 <= Frame(leaf)
    requires Frame(leaf) !in m.own
    ensures Forest(PutLeaf(m, t, i, leaf))
  {
    assert PutLeaf(m, t, i, leaf).own == m.own[Frame(leaf) := Child(m.kernel, m.own[t], i)];
    assert Placed(m, m.kernel);
    AddPlaced(m, t, i, leaf);
    AddLeads(m, t, i, leaf);
    CellShared(m, t, i, leaf, PutLeaf(m, t, i, leaf).own);
    AddReached(m, t, i, leaf);
  }

  lemma AddPlaced(m: Vm, t: nat, i: nat, leaf: u64)
    requires AllPlaced(m) && IsTable(m, t) && IsSpaceLeaf(m, t) && i < 512 && !Present(m.ram[t][i])
    requires Frame(leaf) in m.ram && Frame(leaf) in m.pmm.taken && 1 <= Frame(leaf) && Frame(leaf) !in m.own
    ensures AllPlaced(PutLeaf(m, t, i, leaf))
  {
    var m' := PutLeaf(m, t, i, leaf);
    assert Placed(m, t);
    forall f | f in m'.own ensures Placed(m', f) {
      PlacedIfOwned(m, f);
    }
  }

  lemma AddLeads(m: Vm, t: nat, i: nat, leaf: u64)
    requires AllLead(m) && IsTable(m, t) && IsSpaceLeaf(m, t) && i < 512 && !Present(m.ram[t][i])
    requires Present(leaf) && Frame(leaf) !in m.own
    ensures AllLead(PutLeaf(m, t, i, leaf))
  {
    var m' := PutLeaf(m, t, i, leaf);
    forall u, j: nat | IsTable(m', u) && j < 512 ensures Leads(m', u, j) {
      assert IsTable(m, u) && Leads(m, u, j);
    }
  }

  lemma AddReached(m: Vm, t: nat, i: nat, leaf: u64)
    requires AllReached(m) && AllPlaced(m) && IsTable(m, t) && IsSpaceLeaf(m, t) && i < 512 && !Present(m.ram[t][i])
    requires Present(leaf) && Frame(leaf) !in m.own
    ensures AllReached(PutLeaf(m, t, i, leaf))
  {
    var m' := PutLeaf(m, t, i, leaf);
    forall f | f in m'.own && m'.own[f].root != m'.kernel && m'.own[f].level < 4 ensures Reached(m', f) {
      if f == Frame(leaf) {
        assert ParentOf(m', t, f);
      } else {
        ReachedStill(m, m', f);
      }
    }
  }

  lemma PutLeafKeeps(m: Vm, t: nat, i: nat, leaf: u64)
    requires Forest(m) && IsTable(m, t) && m.own[t].level == 1 && i < 512
    requires m.own[t].root != m.kernel ==> LeafFree(m, t, i, leaf)
    ensures Forest(PutLeaf(m, t, i, leaf))
  {
    var m' := DropLeaf(m, t, i);
    DropKeeps(m, t, i);
    DropPlaced(m, t, i);
    assert m.ram[t][i := 0][i := leaf] == m.ram[t][i := leaf];
    assert SetEntry(m'.ram, t, i, leaf) == SetEntry(m.ram, t, i, leaf);
    if IsSpaceLeaf(m, t) {
      AddKeeps(m', t, i, leaf);
    } else {
      KernelLeafKeeps(m, t, i, leaf);
    }
  }

  lemma KernelLeafKeeps(m: Vm, t: nat, i: nat, leaf: u64)
    requires Forest(m) && IsTable(m, t) && m.own[t].level == 1 && m.own[t].root == m.kernel && i < 512
    ensures Forest(PutLeaf(m, t, i, leaf))
  {
    var m' := PutLeaf(m, t, i, leaf);
    forall f | f in m'.own ensures Placed(m', f) {
      assert Placed(m, f);
    }
    forall u, j: nat | IsTable(m', u) && j < 512 ensures Leads(m', u, j) {
      assert IsTable(m, u) && Leads(m, u, j);
    }
    CellShared(m, t, i, leaf, m'.own);
    forall f | f in m'.own && m'.own[f].root != m'.kernel && m'.own[f].level < 4 ensures Reached(m', f) {
      assert Reached(m, f);
      ReachedStill(m, m', f);
    }
  }
}
