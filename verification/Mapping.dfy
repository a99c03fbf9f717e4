/** What mapping and unmapping a page do to translations, to the allocator and to other address spaces. */
module Mapping {
  import opened Words
  import opened PhysicalMemory
  import opened PageTables
  import opened TableForest

  predicate IsRoot(m: Vm, r: nat) {
    IsTable(m, r) && m.own[r].level == 4
  }

  predicate IsPage(page: nat) {
    page < 0x10_0000_0000
  }

  /** A mapping of `page` made through `root` shows in the space of `q`: its own space, or, for a kernel page, one whose
  PML4 slot is the kernel's. */
  predicate Sees(m: Vm, q: nat, root: nat, page: nat)
    requires IsRoot(m, q)
  {
    q == root || (root == m.kernel && HighSlot(Index(page, 4)) && Present(m.ram[q][Index(page, 4)]))
  }

  lemma RootIs(m: Vm, r: nat)
    requires AllPlaced(m) && IsRoot(m, r)
    ensures m.own[r] == Tag(r, 4, 0) && forall page :: IsPage(page) ==> Serves(m.own[r], page)
  {
    assert Placed(m, r);
    forall page | IsPage(page) ensures Serves(m.own[r], page) {
      TopIndex(page);
    }
  }

  lemma PageSplit(p: nat, page: nat)
    ensures p == page <==> Prefix(p, 1) == Prefix(page, 1) && Index(p, 1) == Index(page, 1)
  {
    Prefixes(p);
    Prefixes(page);
  }

  /** The processor looks `page` up in the page table found for it exactly from the spaces that see it. */
  lemma SeesIff(m: Vm, root: nat, page: nat, pt: nat, q: nat, p: nat)
    requires Forest(m) && IsRoot(m, root) && IsRoot(m, q) && IsPage(page) && IsPage(p)
    requires Found(m, root, page, 4, pt) && m.own[pt].root == root
    ensures LeafTable(m.ram, q, p, 4) == Some(pt) && Index(p, 1) == Index(page, 1)
       <==> p == page && Sees(m, q, root, page)
  {
    PageSplit(p, page);
    RootIs(m, q);
    LeafTableServes(m, q, p, 4);
    if p == page && q != root && Sees(m, q, root, page) {
      assert m.ram[q][Index(page, 4)] == m.ram[m.kernel][Index(page, 4)];
    }
  }

  /** Every translation is as in `before`, except that the spaces that see `page` translate it to `entry`. */
  ghost predicate ChangedAt(before: Vm, m: Vm, root: nat, page: nat, entry: Option<u64>) {
    forall q, p: nat :: IsRoot(before, q) && IsPage(p) ==>
      Walk(m.ram, q, p, 4) ==
      if p == page && Sees(before, q, root, page) then entry else Walk(before.ram, q, p, 4)
  }

  /** One cell of the page table found for `page` is written. */
  lemma CellChanges(m: Vm, root: nat, page: nat, pt: nat, leaf: u64, m': Vm)
    requires Forest(m) && IsRoot(m, root) && IsPage(page) && Found(m, root, page, 4, pt) && m.own[pt].root == root
    requires m'.ram == SetEntry(m.ram, pt, Index(page, 1), leaf)
    ensures ChangedAt(m, m', root, page, if Present(leaf) then Some(leaf) else None)
  {
    forall q, p: nat | IsRoot(m, q) && IsPage(p)
      ensures Walk(m'.ram, q, p, 4) ==
        if p == page && Sees(m, q, root, page)
        then if Present(leaf) then Some(leaf) else None
        else Walk(m.ram, q, p, 4)
    {
      CellWalk(m, pt, Index(page, 1), leaf, q, p, 4);
      SeesIff(m, root, page, pt, q, p);
    }
  }

  // ---------------------------------------------------------------- mapping

  /** What a caller of the mapping functions owes: the path of the page has no huge entry; outside the kernel's space
  the page is in the lower half. */
  ghost predicate CanMap(m: Vm, root: nat, page: nat) {
    && Forest(m) && IsRoot(m, root) && IsPage(page)
    && PathClear(m.ram, root, page, 4) && (root != m.kernel ==> LowerHalf(page))
  }

  /** ... and there it hands over an allocated frame no table or other page of a space uses. */
  ghost predicate CanOwn(m: Vm, root: nat, page: nat, leaf: u64) {
    root != m.kernel ==>
      && Frame(leaf) in m.pmm.taken && Frame(leaf) < m.pmm.total && 1 <= Frame(leaf)
      && (Frame(leaf) in m.own ==> m.own[Frame(leaf)] == Tag(root, 0, page))
  }

  /** Where the leaf frame already has the page's place, the entry about to be overwritten names it. */
  lemma LeafIsFree(m: Vm, root: nat, page: nat, leaf: u64, pt: nat)
    requires Forest(m) && IsRoot(m, root) && root != m.kernel && IsPage(page) && Present(leaf)
    requires Found(m, root, page, 4, pt) && m.own[pt].root == root && CanOwn(m, root, page, leaf)
    ensures LeafFree(m, pt, Index(page, 1), leaf)
  {
    var f := Frame(leaf);
    if f in m.own {
      assert Reached(m, f);
      var t :| ParentOf(m, t, f);
      Prefixes(page);
      PlacesUnique(m, t, pt);
    }
  }

  /** Frames handed over for a leaf are not taken by the walk that creates tables. */
  lemma StillCanOwn(m: Vm, m': Vm, root: nat, page: nat, leaf: u64)
    requires Forest(m) && Forest(m') && Extends(m, m') && CanOwn(m, root, page, leaf)
    requires forall f :: f in m'.own && f !in m.own ==> f !in m.pmm.taken
    requires m.pmm.taken <= m'.pmm.taken
    ensures CanOwn(m', root, page, leaf)
  {
  }

  /** New tables are pages that were not allocated before, and only tables of the space of `root` are written. */
  ghost predicate Local(m: Vm, m': Vm, root: nat) {
    && m.pmm.taken <= m'.pmm.taken && m'.pmm.total == m.pmm.total
    && (forall f :: f in m.own ==> f in m'.own && m'.own[f] == m.own[f])
    && (forall f :: f in m'.own && f !in m.own ==>
          f !in m.pmm.taken && m'.own[f].level < 4 && m'.own[f].root == root)
    && (forall f :: f in m.own && m.own[f].root != root && f in m.ram ==> f in m'.ram && m'.ram[f] == m.ram[f])
  }

  lemma LocalAll(m: Vm, m': Vm, m'': Vm, root: nat)
    requires Local(m, m', root) && Local(m', m'', root) && m.ram.Keys == m'.ram.Keys
    ensures Local(m, m'', root)
  {
  }

  lemma DescendLocal(m: Vm, t: nat, i: nat, link: nat)
    requires Forest(m) && MayFollow(m, t, i) && LinkFlags(link)
    ensures Local(m, Descend(m, t, i, link).0, m.own[t].root)
  {
    var m' := Descend(m, t, i, link).0;
    var (pmm, address) := m.pmm.AllocPages(1);
    AllocatedPage(m.pmm);
    if Present(m.ram[t][i]) || address == 0 {
      assert m' == m;
    } else {
      assert m' == Link(m.(pmm := pmm), t, i, address + link);
      FreshLocal(m, t, i, link, pmm, address);
    }
  }

  lemma FreshLocal(m: Vm, t: nat, i: nat, link: nat, pmm: PmmState, address: nat)
    requires AllPlaced(m) && AllLead(m) && MayFollow(m, t, i) && link < 0x1000
    requires address % 0x1000 == 0 && address + 0x1000 <= 0x1_0000_0000_0000_0000
    requires Frame(address) < m.pmm.total && Frame(address) !in m.pmm.taken
    requires pmm == m.pmm.(taken := m.pmm.taken + {Frame(address)}, used := m.pmm.used + 1)
    ensures Local(m, Link(m.(pmm := pmm), t, i, address + link), m.own[t].root)
  {
    PlacedIfOwned(m, Frame(address));
    PlacedIfOwned(m, t);
    FlagsOfSum(address, link);
  }

  /** The tables a walk creates are fresh pages, and it writes only tables of the space it walks. */
  lemma {:induction false} LocateLocal(m: Vm, t: nat, page: nat, level: nat, link: nat)
    requires Forest(m) && Starts(m, t, page, level) && LinkFlags(link)
    ensures Local(m, Locate(m, t, page, level, link).0, m.own[t].root)
    decreases level, 1
  {
    if 2 <= level {
      DescendStartsLocal(m, t, page, level, link);
      var (m1, next) := Descend(m, t, Index(page, level), link);
      if next.None? {
        assert Locate(m, t, page, level, link) == (m1, None);
      } else {
        assert Locate(m, t, page, level, link) == Locate(m1, next.value, page, level - 1, link);
        LocateLocalOn(m, m1, next.value, page, level, link, m.own[t].root);
      }
    }
  }

  lemma {:induction false} LocateLocalOn(m: Vm, m1: Vm, next: nat, page: nat, level: nat, link: nat, root: nat)
    requires Forest(m1) && 2 <= level && Starts(m1, next, page, level - 1) && LinkFlags(link)
    requires m1.own[next].root == root && Local(m, m1, root) && m.ram.Keys == m1.ram.Keys
    ensures Local(m, Locate(m1, next, page, level - 1, link).0, root)
    decreases level, 0
  {
    LocateLocal(m1, next, page, level - 1, link);
    LocalAll(m, m1, Locate(m1, next, page, level - 1, link).0, root);
  }

  lemma DescendStartsLocal(m: Vm, t: nat, page: nat, level: nat, link: nat)
    requires Forest(m) && Starts(m, t, page, level) && 2 <= level && LinkFlags(link)
    ensures MayFollow(m, t, Index(page, level))
    ensures var (m', next) := Descend(m, t, Index(page, level), link);
      && Forest(m') && Local(m, m', m.own[t].root) && m'.ram.Keys == m.ram.Keys
      && (next.Some? ==> Starts(m', next.value, page, level - 1) && m'.own[next.value].root == m.own[t].root)
  {
    StartMayFollow(m, t, page, level);
    DescendLocal(m, t, Index(page, level), link);
    DescendStarts(m, t, page, level, link);
  }

  /** What `MapPage` did before it wrote the leaf: nothing any processor can see. */
  lemma LocatedWalk(m: Vm, root: nat, page: nat, link: nat)
    requires CanMap(m, root, page) && LinkFlags(link)
    ensures var (m', pt) := Locate(m, root, page, 4, link);
      && Forest(m') && Extends(m, m') && Local(m, m', root)
      && (pt.Some? ==> Found(m', root, page, 4, pt.value) && m'.own[pt.value].root == root)
  {
    RootIs(m, root);
    LocateKeeps(m, root, page, 4, link);
    LocateLocal(m, root, page, 4, link);
  }

  lemma LocatedLeaf(m: Vm, root: nat, page: nat, leaf: u64, link: nat)
    requires CanMap(m, root, page) && CanOwn(m, root, page, leaf)
    requires LinkFlags(link) && Present(leaf) && root != m.kernel
    ensures var (m', pt) := Locate(m, root, page, 4, link);
      pt.Some? ==> IsTable(m', pt.value) && LeafFree(m', pt.value, Index(page, 1), leaf)
  {
    LocatedWalk(m, root, page, link);
    var (m', pt) := Locate(m, root, page, 4, link);
    if pt.Some? {
      StillCanOwn(m, m', root, page, leaf);
      LeafIsFree(m', root, page, leaf, pt.value);
    }
  }

  /** Mapping refines a flat map, whatever frame is mapped: allocated or not, shared, or device memory. Success makes
  exactly the spaces that see the page translate exactly that page to the new entry; failure changes no translation of
  any space. */
  lemma MapPageRefines(m: Vm, root: nat, page: nat, leaf: u64, link: nat)
    requires CanMap(m, root, page) && LinkFlags(link) && Present(leaf)
    ensures var (m', ok) := MapPage(m, root, page, leaf, link);
      m'.kernel == m.kernel && if ok then ChangedAt(m, m', root, page, Some(leaf)) else Forest(m') && Extends(m, m')
  {
    LocatedWalk(m, root, page, link);
    var (m1, pt) := Locate(m, root, page, 4, link);
    if pt.Some? {
      var m2 := PutLeaf(m1, pt.value, Index(page, 1), leaf);
      CellChanges(m1, root, page, pt.value, leaf, m2);
      ChangedFrom(m, m1, m2, root, page, Some(leaf));
    }
  }

  /** Where the frame is the space's to own, the tables of all spaces stay a forest. */
  lemma MapPageKeeps(m: Vm, root: nat, page: nat, leaf: u64, link: nat)
    requires CanMap(m, root, page) && CanOwn(m, root, page, leaf) && LinkFlags(link) && Present(leaf)
    ensures Forest(MapPage(m, root, page, leaf, link).0)
  {
    LocatedWalk(m, root, page, link);
    var (m1, pt) := Locate(m, root, page, 4, link);
    if pt.Some? {
      if root != m.kernel {
        LocatedLeaf(m, root, page, leaf, link);
      }
      PutLeafKeeps(m1, pt.value, Index(page, 1), leaf);
    }
  }

  /** The walk that creates tables leaves the view of every space as it is. */
  lemma SeesStill(m: Vm, m1: Vm, root: nat, page: nat, q: nat)
    requires AllPlaced(m) && Extends(m, m1) && Local(m, m1, root) && IsRoot(m, q)
    ensures IsRoot(m1, q) && (Sees(m1, q, root, page) <==> Sees(m, q, root, page))
  {
    RootIs(m, q);
  }

  lemma RootsSurvive(m: Vm, t: nat, i: nat, leaf: u64)
    requires AllPlaced(m) && AllLead(m) && IsTable(m, t) && m.own[t].level == 1 && i < 512
    requires m.own[t].root != m.kernel ==> LeafFree(m, t, i, leaf)
    ensures forall q :: IsRoot(m, q) ==> IsRoot(PutLeaf(m, t, i, leaf), q)
  {
    DropPlaced(m, t, i);
    assert Leads(m, t, i);
  }

  lemma ChangedFrom(m: Vm, m1: Vm, m2: Vm, root: nat, page: nat, entry: Option<u64>)
    requires AllPlaced(m) && Extends(m, m1) && Local(m, m1, root) && ChangedAt(m1, m2, root, page, entry)
    ensures ChangedAt(m, m2, root, page, entry)
  {
    forall q, p: nat | IsRoot(m, q) && IsPage(p)
      ensures Walk(m2.ram, q, p, 4) == if p == page && Sees(m, q, root, page) then entry else Walk(m.ram, q, p, 4)
    {
      SeesStill(m, m1, root, page, q);
      assert IsTable(m, q);
    }
  }

  // ---------------------------------------------------------------- pages taken

  ghost predicate OutOfPages(s: PmmState) {
    forall p: nat :: !s.Free(p)
  }

  lemma AllocFailure(s: PmmState)
    requires s.Valid()
    ensures s.AllocPages(1).1 == 0 <==> OutOfPages(s)
  {
    if p: nat :| s.Free(p) {
      assert s.FreeRun(p, 1);
      FirstFitIs(s, p, 1);
      AllocatedPage(s);
      RunsExist(s, s.FirstFit(1).value, 1);
    } else {
      forall start: nat ensures !s.FreeRun(start, 1) {
        assert !s.Free(start);
      }
    }
  }

  /** The pages an allocation may take. */
  ghost function FreePagesOf(s: PmmState): set<nat> {
    set p: nat | p < s.total && s.Free(p)
  }

  /** How many single pages can be had. */
  ghost function FreeCount(s: PmmState): nat {
    |FreePagesOf(s)|
  }

  lemma OutIff(s: PmmState)
    ensures OutOfPages(s) <==> FreeCount(s) == 0
  {
    if p: nat :| s.Free(p) {
      assert p in FreePagesOf(s);
    } else {
      assert FreePagesOf(s) == {};
    }
  }

  /** Free pages, and no others, have been taken. */
  ghost predicate Drew(s: PmmState, s': PmmState) {
    && s'.entries == s.entries && s'.total == s.total
    && s.taken <= s'.taken && s'.taken - s.taken <= FreePagesOf(s)
  }

  lemma DrewCounts(s: PmmState, s': PmmState)
    requires Drew(s, s')
    ensures FreeCount(s) == FreeCount(s') + (|s'.taken| - |s.taken|)
  {
    var drawn := s'.taken - s.taken;
    assert FreePagesOf(s) == FreePagesOf(s') + drawn;
    assert s'.taken == s.taken + drawn;
  }

  lemma DrewBoth(s: PmmState, s1: PmmState, s2: PmmState)
    requires Drew(s, s1) && Drew(s1, s2)
    ensures Drew(s, s2)
  {
    forall p | p in s2.taken - s.taken ensures p in FreePagesOf(s) {
      assert p in s1.taken - s.taken || p in FreePagesOf(s1);
    }
  }

  /** A single page handed out was free. */
  lemma AllocatedIsFree(s: PmmState)
    requires s.Valid()
    ensures var (s', address) := s.AllocPages(1);
      address != 0 ==> s.Free(Frame(address)) && Drew(s, s') && FreeCount(s) == FreeCount(s') + 1
  {
    AllocatedPage(s);
    var (s', address) := s.AllocPages(1);
    if address != 0 {
      var start := s.FirstFit(1).value;
      assert s.FreeRun(start, 1);
      assert s.Free(start) && Frame(address) == start;
      assert s'.taken - s.taken == {start};
      OneMore(s.taken, start);
      DrewCounts(s, s');
    }
  }

  /** `n` pages, all of them now tables, were taken. */
  ghost predicate Took(m: Vm, m': Vm, n: nat) {
    && m'.pmm.used == m.pmm.used + n && |m'.pmm.taken| == |m.pmm.taken| + n
    && m'.pmm.taken - m.pmm.taken == m'.own.Keys - m.own.Keys && Drew(m.pmm, m'.pmm)
  }

  lemma DescendTakes(m: Vm, t: nat, page: nat, level: nat, link: nat)
    requires m.pmm.Valid() && AllPlaced(m) && IsTable(m, t) && 2 <= level && link < 0x1000
    ensures var (m', next) := Descend(m, t, Index(page, level), link);
      if next.None? then m' == m && OutOfPages(m.pmm) && Missing(m.ram, t, page, level) == level - 1
      else if Present(m.ram[t][Index(page, level)]) then
        m' == m && Missing(m.ram, t, page, level) == Missing(m.ram, next.value, page, level - 1)
      else TookOne(m, m', t, page, level, next.value)
  {
    var i := Index(page, level);
    var d := Descend(m, t, i, link);
    if !Present(m.ram[t][i]) {
      var (pmm, address) := m.pmm.AllocPages(1);
      AllocatedPage(m.pmm);
      if address == 0 {
        AllocFailure(m.pmm);
        assert d == (m, None);
      } else {
        assert d == (Link(m.(pmm := pmm), t, i, address + link), Some(Frame(address)));
        AllocatedIsFree(m.pmm);
        DescendTakesOne(m, t, page, level, link, pmm, address);
      }
    } else {
      assert d == (m, Some(Frame(m.ram[t][i])));
    }
  }

  ghost predicate TookOne(m: Vm, m': Vm, t: nat, page: nat, level: nat, next: nat)
    requires 2 <= level
  {
    && Took(m, m', 1) && m'.own.Keys == m.own.Keys + {next}
    && Missing(m.ram, t, page, level) == 1 + Missing(m'.ram, next, page, level - 1)
  }

  lemma DescendTakesOne(m: Vm, t: nat, page: nat, level: nat, link: nat, pmm: PmmState, address: nat)
    requires AllPlaced(m) && IsTable(m, t) && 1 <= m.own[t].level && 2 <= level && link < 0x1000
    requires !Present(m.ram[t][Index(page, level)])
    requires address % 0x1000 == 0 && address + 0x1000 <= 0x1_0000_0000_0000_0000
    requires Frame(address) < m.pmm.total && Frame(address) !in m.pmm.taken && Drew(m.pmm, pmm)
    requires pmm == m.pmm.(taken := m.pmm.taken + {Frame(address)}, used := m.pmm.used + 1)
    ensures TookOne(m, Link(m.(pmm := pmm), t, Index(page, level), address + link), t, page, level, Frame(address))
  {
    var f := Frame(address);
    FlagsOfSum(address, link);
    PlacedIfOwned(m, f);
    PlacedIfOwned(m, t);
    OneMore(m.pmm.taken, f);
    OneMore(m.own.Keys, f);
    var m1 := m.(pmm := pmm);
    LinkMissing(m1, t, page, level, address + link);
    assert Link(m1, t, Index(page, level), address + link).own.Keys == m.own.Keys + {f};
  }

  lemma LinkMissing(m: Vm, t: nat, page: nat, level: nat, e: u64)
    requires IsTable(m, t) && 2 <= level && !Present(m.ram[t][Index(page, level)]) && Frame(e) != t
    ensures var m' := Link(m, t, Index(page, level), e);
      Missing(m.ram, t, page, level) == 1 + Missing(m'.ram, Frame(e), page, level - 1)
  {
    assert Link(m, t, Index(page, level), e).ram[Frame(e)] == Zeros();
  }

  lemma OneMore(a: set<nat>, f: nat)
    requires f !in a
    ensures |a + {f}| == |a| + 1 && a + {f} - a == {f}
  {
  }

  /** The frames with a place that the allocator manages: all but tables of the kernel beyond its pages. */
  function OwnedPages(m: Vm): set<nat> {
    set f | f in m.own && f < m.pmm.total
  }

  lemma OwnedAreTaken(m: Vm)
    requires AllPlaced(m)
    ensures OwnedPages(m) <= m.pmm.taken
  {
    forall f | f in OwnedPages(m) ensures f in m.pmm.taken {
      assert Placed(m, f);
    }
  }

  lemma TookBoth(m: Vm, m1: Vm, m2: Vm, f: nat, n: nat)
    requires Took(m, m1, 1) && Took(m1, m2, n) && m1.own.Keys == m.own.Keys + {f}
    requires m1.own.Keys <= m2.own.Keys
    ensures Took(m, m2, n + 1)
  {
    DrewBoth(m.pmm, m1.pmm, m2.pmm);
    assert m2.pmm.taken - m.pmm.taken == (m2.pmm.taken - m1.pmm.taken) + (m1.pmm.taken - m.pmm.taken);
    assert f in m1.own.Keys && m1.own.Keys - m.own.Keys <= {f};
    assert m2.own.Keys - m.own.Keys == (m2.own.Keys - m1.own.Keys) + (m1.own.Keys - m.own.Keys);
  }

  /** How a walk that has `missing` tables to create ends: it takes as many pages, or runs out after fewer. */
  ghost predicate TakesUpTo(m: Vm, m': Vm, ok: bool, missing: nat) {
    if ok then Took(m, m', missing)
    else OutOfPages(m'.pmm) && exists n: nat :: n < missing && Took(m, m', n)
  }

  lemma TakesNext(m: Vm, m1: Vm, m2: Vm, f: nat, ok: bool, missing: nat)
    requires Took(m, m1, 1) && m1.own.Keys == m.own.Keys + {f} && m1.own.Keys <= m2.own.Keys
    requires TakesUpTo(m1, m2, ok, missing)
    ensures TakesUpTo(m, m2, ok, missing + 1)
  {
    if ok {
      TookBoth(m, m1, m2, f, missing);
    } else {
      var n: nat :| n < missing && Took(m1, m2, n);
      TookBoth(m, m1, m2, f, n);
    }
  }

  /** A walk that succeeds takes one page for each level that was missing. One that fails ran out of pages after
  taking fewer; nothing but tables of the walk was taken. */
  lemma {:induction false} LocateTakes(m: Vm, t: nat, page: nat, level: nat, link: nat)
    requires Forest(m) && Starts(m, t, page, level) && LinkFlags(link)
    ensures Missing(m.ram, t, page, level) < if level == 0 then 1 else level
    ensures var (m', pt) := Locate(m, t, page, level, link);
      TakesUpTo(m, m', pt.Some?, Missing(m.ram, t, page, level)) && m.own.Keys <= m'.own.Keys
    decreases level, 1
  {
    if 2 <= level {
      DescendTakes(m, t, page, level, link);
      var (m1, next) := Descend(m, t, Index(page, level), link);
      if next.None? {
        assert Took(m, m, 0);
      } else {
        LocateTakesOn(m, t, page, level, link, m1, next.value);
      }
    } else {
      assert Took(m, m, 0);
    }
  }

  lemma {:induction false} LocateTakesOn(m: Vm, t: nat, page: nat, level: nat, link: nat, m1: Vm, next: nat)
    requires Forest(m) && Starts(m, t, page, level) && LinkFlags(link) && 2 <= level
    requires Descend(m, t, Index(page, level), link) == (m1, Some(next))
    requires Present(m.ram[t][Index(page, level)]) ==> m1 == m
    requires Present(m.ram[t][Index(page, level)]) ==>
      Missing(m.ram, t, page, level) == Missing(m.ram, next, page, level - 1)
    requires !Present(m.ram[t][Index(page, level)]) ==> TookOne(m, m1, t, page, level, next)
    ensures Missing(m.ram, t, page, level) < level
    ensures var (m', pt) := Locate(m, t, page, level, link);
      TakesUpTo(m, m', pt.Some?, Missing(m.ram, t, page, level)) && m.own.Keys <= m'.own.Keys
    decreases level, 0
  {
    DescendStarts(m, t, page, level, link);
    LocateTakes(m1, next, page, level - 1, link);
    var (m2, pt) := Locate(m1, next, page, level - 1, link);
    if !Present(m.ram[t][Index(page, level)]) {
      TakesNext(m, m1, m2, next, pt.Some?, Missing(m1.ram, next, page, level - 1));
    }
  }

  /** Running out of memory in the middle of a mapping: at most two new tables stay linked, no processor sees a
  difference. Success takes exactly as many pages as levels were missing, at most three. */
  lemma MapPageTakes(m: Vm, root: nat, page: nat, leaf: u64, link: nat)
    requires CanMap(m, root, page) && LinkFlags(link)
    ensures Missing(m.ram, root, page, 4) <= 3
    ensures var (m', ok) := MapPage(m, root, page, leaf, link);
      if ok then
        && m'.pmm.used == m.pmm.used + Missing(m.ram, root, page, 4)
        && |m'.pmm.taken| == |m.pmm.taken| + Missing(m.ram, root, page, 4)
      else
        OutOfPages(m'.pmm) && exists n: nat :: n < Missing(m.ram, root, page, 4) && n <= 2 && Took(m, m', n)
  {
    RootIs(m, root);
    LocateTakes(m, root, page, 4, link);
    LocatesTable(m, root, page, link);
  }

  /** Of the free pages, `n` have been taken, or all if there are fewer, and counted. */
  ghost predicate DrewUpTo(s: PmmState, s': PmmState, n: nat) {
    && Drew(s, s') && s'.used - s.used == |s'.taken| - |s.taken|
    && FreeCount(s') == if n <= FreeCount(s) then FreeCount(s) - n else 0
  }

  /** A mapping succeeds exactly when there are as many free pages as levels are missing. It takes that many; or, where
  there are fewer, all of them. */
  lemma MapPageSucceedsIff(m: Vm, root: nat, page: nat, leaf: u64, link: nat)
    requires CanMap(m, root, page) && LinkFlags(link)
    ensures var (m', ok) := MapPage(m, root, page, leaf, link);
      && (ok <==> Missing(m.ram, root, page, 4) <= FreeCount(m.pmm))
      && DrewUpTo(m.pmm, m'.pmm, Missing(m.ram, root, page, 4))
  {
    RootIs(m, root);
    LocateTakes(m, root, page, 4, link);
    LocatesTable(m, root, page, link);
    var (m1, pt) := Locate(m, root, page, 4, link);
    WalkDraws(m, m1, pt.Some?, Missing(m.ram, root, page, 4));
  }

  lemma WalkDraws(m: Vm, m': Vm, ok: bool, missing: nat)
    requires TakesUpTo(m, m', ok, missing)
    ensures (ok <==> missing <= FreeCount(m.pmm)) && DrewUpTo(m.pmm, m'.pmm, missing)
  {
    if ok {
      DrewCounts(m.pmm, m'.pmm);
    } else {
      var n: nat :| n < missing && Took(m, m', n);
      DrewCounts(m.pmm, m'.pmm);
      OutIff(m'.pmm);
    }
  }

  lemma LocatesTable(m: Vm, root: nat, page: nat, link: nat)
    requires CanMap(m, root, page) && LinkFlags(link)
    ensures var (m', pt) := Locate(m, root, page, 4, link); pt.Some? ==> pt.value in m'.ram
  {
    RootIs(m, root);
    LocateKeeps(m, root, page, 4, link);
  }
}
