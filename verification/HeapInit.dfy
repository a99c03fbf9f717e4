/** The mapping loop of `heap_init` (kernel/src/memory/heap.c): the pages of the heap, one by one. */
module HeapInit {
  import opened Words
  import opened PhysicalMemory
  import opened PageTables
  import opened TableForest
  import opened Mapping
  import opened Unmapping
  import opened Spaces
  import opened Lifecycle
  import Conservation
  import Isolation
  import opened Paging
  import opened HeapMemory
  import opened HeapProofs
  import opened KernelHeap

  // ---------------------------------------------------------------- paths without huge entries stay so

  lemma {:induction false} LinkKeepsClear(m: Vm, t: nat, i: nat, e: u64, u: nat, page: nat, level: nat)
    requires AllLead(m) && AllPlaced(m) && CanLink(m, t, i, e) && IsTable(m, u) && m.own[u].level == level
    requires PathClear(m.ram, u, page, level)
    ensures PathClear(Link(m, t, i, e).ram, u, page, level)
    decreases level
  {
    var m' := Link(m, t, i, e);
    var j := Index(page, level);
    if 2 <= level {
      assert Leads(m, u, j);
      if u == t && j == i {
        assert m'.ram[Frame(e)] == Zeros();
        assert PathClear(m'.ram, Frame(e), page, level - 1);
      } else if Present(m.ram[u][j]) {
        assert Placed(m, Frame(m.ram[u][j]));
        LinkKeepsClear(m, t, i, e, Frame(m.ram[u][j]), page, level - 1);
      }
    }
  }

  lemma DescendKeepsClear(m: Vm, t: nat, i: nat, link: nat, u: nat, page: nat)
    requires Forest(m) && MayFollow(m, t, i) && LinkFlags(link) && IsRoot(m, u) && PathClear(m.ram, u, page, 4)
    ensures PathClear(Descend(m, t, i, link).0.ram, u, page, 4)
  {
    var (pmm, address) := m.pmm.AllocPages(1);
    if Present(m.ram[t][i]) || address == 0 {
      assert Descend(m, t, i, link).0 == m;
    } else {
      AllocatedPage(m.pmm);
      assert Descend(m, t, i, link).0 == Link(m.(pmm := pmm), t, i, address + link);
      if address != 0 {
        FreshLinkKeepsClear(m, t, i, link, u, page, pmm, address);
      }
    }
  }

  lemma FreshLinkKeepsClear(m: Vm, t: nat, i: nat, link: nat, u: nat, page: nat, pmm: PmmState, address: nat)
    requires Forest(m) && MayFollow(m, t, i) && LinkFlags(link) && !Present(m.ram[t][i])
    requires address % 0x1000 == 0 && address + 0x1000 <= 0x1_0000_0000_0000_0000
    requires 1 <= Frame(address) < pmm.total && Frame(address) !in m.pmm.taken
    requires pmm == m.pmm.(taken := m.pmm.taken + {Frame(address)}, used := m.pmm.used + 1) && pmm.Valid()
    requires IsRoot(m, u) && PathClear(m.ram, u, page, 4)
    ensures PathClear(Link(m.(pmm := pmm), t, i, address + link).ram, u, page, 4)
  {
    FlagsOfSum(address, link);
    TakingKeeps(m, pmm);
    PlacedIfOwned(m, Frame(address));
    LinkKeepsClear(m.(pmm := pmm), t, i, address + link, u, page, 4);
  }

  lemma {:induction false} LocateKeepsClear(m: Vm, t: nat, page: nat, level: nat, link: nat, u: nat, other: nat)
    requires Forest(m) && Starts(m, t, page, level) && LinkFlags(link) && IsRoot(m, u) && PathClear(m.ram, u, other, 4)
    ensures PathClear(Locate(m, t, page, level, link).0.ram, u, other, 4)
    decreases level
  {
    if 2 <= level {
      var i := Index(page, level);
      DescendStartsClear(m, t, page, level, link, u, other);
      var (m1, next) := Descend(m, t, i, link);
      if next.None? {
        assert Locate(m, t, page, level, link) == (m1, None);
      } else {
        assert Locate(m, t, page, level, link) == Locate(m1, next.value, page, level - 1, link);
        LocateKeepsClear(m1, next.value, page, level - 1, link, u, other);
      }
    }
  }

  lemma DescendStartsClear(m: Vm, t: nat, page: nat, level: nat, link: nat, u: nat, other: nat)
    requires Forest(m) && Starts(m, t, page, level) && 2 <= level && LinkFlags(link)
    requires IsRoot(m, u) && PathClear(m.ram, u, other, 4)
    ensures MayFollow(m, t, Index(page, level))
    ensures var (m', next) := Descend(m, t, Index(page, level), link);
      && Forest(m') && (next.Some? ==> Starts(m', next.value, page, level - 1))
      && IsRoot(m', u) && PathClear(m'.ram, u, other, 4)
  {
    StartMayFollow(m, t, page, level);
    DescendKeepsClear(m, t, Index(page, level), link, u, other);
    DescendStarts(m, t, page, level, link);
  }

  lemma {:induction false} CellKeepsClear(m: Vm, t: nat, i: nat, leaf: u64, u: nat, page: nat, level: nat)
    requires AllLead(m) && AllPlaced(m) && IsTable(m, t) && m.own[t].level == 1 && i < 512
    requires IsTable(m, u) && m.own[u].level == level && PathClear(m.ram, u, page, level)
    ensures PathClear(SetEntry(m.ram, t, i, leaf), u, page, level)
    decreases level
  {
    var j := Index(page, level);
    if 2 <= level {
      assert Leads(m, u, j);
      assert u != t && SetEntry(m.ram, t, i, leaf)[u] == m.ram[u];
      if Present(m.ram[u][j]) {
        assert Placed(m, Frame(m.ram[u][j]));
        CellKeepsClear(m, t, i, leaf, Frame(m.ram[u][j]), page, level - 1);
      }
    }
  }

  /** Mapping a page puts no huge entry on any path. */
  lemma MapPageKeepsClear(m: Vm, root: nat, page: nat, leaf: u64, link: nat, other: nat)
    requires CanMap(m, root, page) && LinkFlags(link) && PathClear(m.ram, root, other, 4)
    ensures PathClear(MapPage(m, root, page, leaf, link).0.ram, root, other, 4)
  {
    RootIs(m, root);
    LocatedWalk(m, root, page, link);
    LocateKeepsClear(m, root, page, 4, link, root, other);
    var (m1, pt) := Locate(m, root, page, 4, link);
    if pt.Some? {
      CellKeepsClear(m1, pt.value, Index(page, 1), leaf, root, other, 4);
    }
  }

  // ---------------------------------------------------------------- the loop

  /** HEAP_START + i * PAGE_SIZE_4K. */
  function HeapAddress(i: nat): u64
    requires i < 256
  {
    0xFFFF_FFFF_9000_0000 + i * 0x1000
  }

  function HeapPage(i: nat): nat
    requires i < 256
  {
    Page(HeapAddress(i))
  }

  lemma HeapPagesDiffer(i: nat, j: nat)
    requires i < 256 && j < 256
    ensures HeapPage(i) == HeapPage(j) ==> i == j
    ensures IsPage(HeapPage(i))
  {
    HeapPageIs(i);
    HeapPageIs(j);
  }

  lemma HeapPageIs(i: nat)
    requires i < 256
    ensures HeapPage(i) == 0xF_FFF9_0000 + i
  {
    assert (0xFFFF_FFFF_9000_0000 + i * 0x1000) / 0x1000 == 0xF_FFFF_FFF9_0000 + i;
    assert (0xF_FFFF_FFF9_0000 + i) % 0x10_0000_0000 == 0xF_FFF9_0000 + i;
  }

  /** The entry of a heap page: its frame, PAGING_PRESENT and PAGING_WRITABLE. */
  function HeapEntry(frame: nat): nat {
    frame * 0x1000 + 3
  }

  /** The first heap pages are mapped, present and writable, to the given frames. */
  ghost predicate HeapMapped(m: Vm, frames: seq<nat>) {
    && |frames| <= 256
    && forall i: nat :: i < |frames| ==> Walk(m.ram, m.kernel, HeapPage(i), 4) == Some(HeapEntry(frames[i]))
  }

  function Frames(frames: seq<nat>): set<nat> {
    set f | f in frames
  }

  /** Besides page tables, the pages allocated since `s` are exactly those in `held`, none of them allocated in `s`. */
  ghost predicate PagesHeld(s: Vm, m: Vm, held: set<nat>) {
    && s.pmm.taken <= m.pmm.taken && held !! s.pmm.taken
    && m.pmm.taken - m.own.Keys == s.pmm.taken - s.own.Keys + held
  }

  /** The kernel's path to every heap page is free of huge entries. */
  ghost predicate HeapClear(m: Vm) {
    forall i: nat :: i < 256 ==> PathClear(m.ram, m.kernel, HeapPage(i), 4)
  }

  /** Nothing is mapped differently outside the heap, and no space has come or gone. */
  ghost predicate SameElsewhere(m: Vm, m': Vm) {
    && RootsSame(m, m')
    && forall p: nat :: IsPage(p) && (forall i: nat :: i < 256 ==> p != HeapPage(i)) ==>
         Walk(m'.ram, m.kernel, p, 4) == Walk(m.ram, m.kernel, p, 4)
  }

  /** What holds between iterations, `s` being the state before the first: the pages so far are mapped to distinct
  frames of their own, and nothing else is taken or mapped differently. */
  ghost predicate HeapProgress(s: Vm, m: Vm, frames: seq<nat>) {
    && HeapClear(m) && HeapMapped(m, frames) && SameElsewhere(s, m)
    && NoDuplicates(frames) && PagesHeld(s, m, Frames(frames))
  }

  /** The same in the middle of an iteration, when page `f` has been taken. */
  ghost predicate HeapHolding(s: Vm, m: Vm, frames: seq<nat>, f: nat) {
    && HeapClear(m) && HeapMapped(m, frames) && SameElsewhere(s, m)
    && NoDuplicates(frames + [f]) && PagesHeld(s, m, Frames(frames) + {f})
  }

  lemma TakenPage(m: Vm, pmm: PmmState, address: nat)
    requires Forest(m) && (pmm, address) == m.pmm.AllocPages(1) && address != 0
    ensures Forest(m.(pmm := pmm)) && Frame(address) !in m.pmm.taken && Frame(address) !in m.own
    ensures pmm.taken == m.pmm.taken + {Frame(address)}
    ensures address == Frame(address) * 0x1000 && address + 0x1000 <= 0x1_0000_0000_0000_0000
  {
    AllocatedPage(m.pmm);
    TakingKeeps(m, pmm);
    PlacedIfOwned(m, Frame(address));
  }

  lemma HeapEntryIs(address: nat)
    requires address % 0x1000 == 0 && address + 0x1000 <= 0x1_0000_0000_0000_0000
    ensures Enters(Frame(address)) && Entry(address, 3) == HeapEntry(Frame(address))
  {
    EntryIs(address, 3);
    OrLow(address, 3, 0, 3);
    OrLow(address, 1, 3, 3);
  }

  lemma HoldsPage(s: Vm, m: Vm, frames: seq<nat>, pmm: PmmState, f: nat)
    requires HeapProgress(s, m, frames) && f !in m.pmm.taken && f !in m.own && pmm.taken == m.pmm.taken + {f}
    ensures HeapHolding(s, m.(pmm := pmm), frames, f)
  {
    var m' := m.(pmm := pmm);
    forall g ensures g in m'.pmm.taken - m'.own.Keys <==> g in s.pmm.taken - s.own.Keys + (Frames(frames) + {f}) {
      assert g in m.pmm.taken - m.own.Keys <==> g in s.pmm.taken - s.own.Keys + Frames(frames);
    }
    forall i | 0 <= i < |frames| ensures frames[i] != f {
      assert frames[i] in Frames(frames);
    }
  }

  lemma HeapCanMap(m: Vm, i: nat)
    requires Forest(m) && HeapClear(m) && i < 256
    ensures CanMap(m, m.kernel, HeapPage(i))
  {
    HeapPagesDiffer(i, i);
    assert Placed(m, m.kernel);
  }

  /** The frame has an entry. */
  predicate Enters(f: nat) {
    HeapEntry(f) < 0x1_0000_0000_0000_0000 && Present(HeapEntry(f))
  }

  /** Mapping the page that is held as the next heap page. */
  lemma HeapPageMaps(s: Vm, m: Vm, frames: seq<nat>, f: nat)
    requires Forest(m) && |frames| < 256 && HeapHolding(s, m, frames, f) && Enters(f)
    ensures var (m', ok) := MapPage(m, m.kernel, HeapPage(|frames|), HeapEntry(f), 3);
      f !in m'.own && if ok then HeapProgress(s, m', frames + [f]) else HeapHolding(s, m', frames, f)
  {
    var (m', ok) := MapPage(m, m.kernel, HeapPage(|frames|), HeapEntry(f), 3);
    HeapCanMap(m, |frames|);
    HeapStaysClear(m, HeapPage(|frames|), HeapEntry(f));
    HeapEntriesStay(s, m, frames, f);
    HeapBooksStay(s, m, HeapPage(|frames|), HeapEntry(f), Frames(frames) + {f});
    HeapPageIn(s, m', frames, f, ok);
  }

  lemma HeapPageIn(s: Vm, m: Vm, frames: seq<nat>, f: nat, ok: bool)
    requires HeapClear(m) && HeapMapped(m, if ok then frames + [f] else frames) && SameElsewhere(s, m)
    requires NoDuplicates(frames + [f]) && PagesHeld(s, m, Frames(frames) + {f})
    ensures if ok then HeapProgress(s, m, frames + [f]) else HeapHolding(s, m, frames, f)
  {
    assert Frames(frames + [f]) == Frames(frames) + {f};
  }

  lemma HeapBooksStay(s: Vm, m: Vm, page: nat, leaf: u64, held: set<nat>)
    requires CanMap(m, m.kernel, page) && Present(leaf) && PagesHeld(s, m, held)
    ensures PagesHeld(s, MapPage(m, m.kernel, page, leaf, 3).0, held)
    ensures forall f :: f in held ==> f !in MapPage(m, m.kernel, page, leaf, 3).0.own
  {
    var m' := MapPage(m, m.kernel, page, leaf, 3).0;
    MapPageBooks(m, m.kernel, page, leaf, 3);
    assert m'.pmm.taken - m'.own.Keys == m.pmm.taken - m.own.Keys;
    forall f | f in held ensures f !in m'.own {
      assert f in s.pmm.taken - s.own.Keys + held;
      assert f in m'.pmm.taken - m'.own.Keys;
    }
  }

  lemma HeapStaysClear(m: Vm, page: nat, leaf: u64)
    requires CanMap(m, m.kernel, page) && HeapClear(m) && Present(leaf)
    ensures var m' := MapPage(m, m.kernel, page, leaf, 3).0; m'.kernel == m.kernel ==> HeapClear(m')
  {
    var m' := MapPage(m, m.kernel, page, leaf, 3).0;
    forall i: nat | i < 256 ensures PathClear(m'.ram, m.kernel, HeapPage(i), 4) {
      MapPageKeepsClear(m, m.kernel, page, leaf, 3, HeapPage(i));
    }
  }

  lemma HeapEntriesStay(s: Vm, m: Vm, frames: seq<nat>, f: nat)
    requires |frames| < 256 && CanMap(m, m.kernel, HeapPage(|frames|)) && HeapMapped(m, frames) && SameElsewhere(s, m)
    requires Enters(f)
    ensures var (m', ok) := MapPage(m, m.kernel, HeapPage(|frames|), HeapEntry(f), 3);
      HeapMapped(m', if ok then frames + [f] else frames) && SameElsewhere(s, m')
  {
    var (m', ok) := MapPage(m, m.kernel, HeapPage(|frames|), HeapEntry(f), 3);
    HeapPagesDiffer(|frames|, |frames|);
    KernelWalks(m, HeapPage(|frames|), HeapEntry(f));
    HeapMappedNext(m, m', frames, f, ok);
    StillElsewhere(s, m, m', |frames|);
  }

  /** Outside the heap nothing changes. */
  lemma StillElsewhere(s: Vm, m: Vm, m': Vm, i: nat)
    requires i < 256 && SameElsewhere(s, m) && RootsSame(m, m')
    requires forall p: nat :: IsPage(p) && p != HeapPage(i) ==>
      Walk(m'.ram, m.kernel, p, 4) == Walk(m.ram, m.kernel, p, 4)
    ensures SameElsewhere(s, m')
  {
  }

  /** The mappings of earlier iterations survive. */
  lemma HeapMappedNext(m: Vm, m': Vm, frames: seq<nat>, f: nat, ok: bool)
    requires |frames| < 256 && HeapMapped(m, frames) && m'.kernel == m.kernel && Enters(f)
    requires forall p: nat :: IsPage(p) ==>
      Walk(m'.ram, m.kernel, p, 4) ==
      if ok && p == HeapPage(|frames|) then Some(HeapEntry(f)) else Walk(m.ram, m.kernel, p, 4)
    ensures HeapMapped(m', if ok then frames + [f] else frames)
  {
    HeapPagesDiffer(|frames|, |frames|);
    forall i: nat | i < |frames| ensures Walk(m'.ram, m.kernel, HeapPage(i), 4) == Some(HeapEntry(frames[i])) {
      HeapPagesDiffer(i, |frames|);
    }
    if ok {
      OneMoreMapped(m', frames, f);
    }
  }

  lemma OneMoreMapped(m: Vm, frames: seq<nat>, f: nat)
    requires |frames| < 256 && HeapMapped(m, frames) && Enters(f)
    requires Walk(m.ram, m.kernel, HeapPage(|frames|), 4) == Some(HeapEntry(f))
    ensures HeapMapped(m, frames + [f])
  {
  }

  /** What a kernel mapping does to the kernel's own translations. */
  lemma KernelWalks(m: Vm, page: nat, leaf: u64)
    requires CanMap(m, m.kernel, page) && Present(leaf)
    ensures var (m', ok) := MapPage(m, m.kernel, page, leaf, 3);
      && RootsSame(m, m')
      && forall p: nat :: IsPage(p) ==>
           Walk(m'.ram, m.kernel, p, 4) == if ok && p == page then Some(leaf) else Walk(m.ram, m.kernel, p, 4)
  {
    MapPageRefines(m, m.kernel, page, leaf, 3);
    MapPageBooks(m, m.kernel, page, leaf, 3);
    assert IsTable(m, m.kernel) && m.own[m.kernel].level == 4;
  }

  /** Giving back a page that was not mapped. */
  lemma GivenBack(s: Vm, m: Vm, frames: seq<nat>, address: nat)
    requires Forest(m) && HeapHolding(s, m, frames, Frame(address)) && Frame(address) !in m.own
    ensures var m' := m.(pmm := m.pmm.FreePages(address, 1)); Forest(m') && HeapProgress(s, m', frames)
  {
    ReleaseKeeps(m, address);
    HeldIsTaken(s, m, Frames(frames), Frame(address));
    var m' := m.(pmm := m.pmm.FreePages(address, 1));
    assert PhysicalMemory.Run(Frame(address), 1) == {Frame(address)};
    assert m'.pmm.taken == m.pmm.taken - {Frame(address)};
    NotHeld(frames, Frame(address));
    ReleasedBooks(s, m, m', Frames(frames), Frame(address));
  }

  lemma HeldIsTaken(s: Vm, m: Vm, held: set<nat>, f: nat)
    requires PagesHeld(s, m, held + {f}) && m.pmm.Valid()
    ensures f in m.pmm.taken && f < m.pmm.total
  {
    assert f in s.pmm.taken - s.own.Keys + (held + {f});
  }

  lemma NotHeld(frames: seq<nat>, f: nat)
    requires NoDuplicates(frames + [f])
    ensures f !in Frames(frames) && NoDuplicates(frames)
  {
    forall i | 0 <= i < |frames| ensures frames[i] != f {
      assert (frames + [f])[i] != (frames + [f])[|frames|];
    }
    forall i, j | 0 <= i < j < |frames| ensures frames[i] != frames[j] {
      assert (frames + [f])[i] != (frames + [f])[j];
    }
  }

  lemma ReleasedBooks(s: Vm, m: Vm, m': Vm, held: set<nat>, f: nat)
    requires PagesHeld(s, m, held + {f}) && f !in held && f !in s.pmm.taken
    requires m'.pmm.taken == m.pmm.taken - {f} && m'.own == m.own
    ensures PagesHeld(s, m', held)
  {
    forall g ensures g in m'.pmm.taken - m'.own.Keys <==> g in s.pmm.taken - s.own.Keys + held {
      assert g in m.pmm.taken - m.own.Keys <==> g in s.pmm.taken - s.own.Keys + (held + {f});
    }
  }

  // ---------------------------------------------------------------- how many pages it takes

  /** The pages one iteration needs: its own and one for each missing table. */
  ghost function Needs(m: Vm, i: nat): nat
    requires i < 256
  {
    1 + Missing(m.ram, m.kernel, HeapPage(i), 4)
  }

  /** The pages the first `i` iterations need: only the first of them meets missing tables, as all pages of the heap
  have the same. */
  ghost function NeedsUpTo(s: Vm, i: nat): nat {
    if i == 0 then 0 else i + Missing(s.ram, s.kernel, HeapPage(0), 4)
  }

  /** Where a page is translated through tables, none of its tables is missing. */
  lemma {:induction false} TranslatedHasTables(ram: map<nat, Table>, t: nat, page: nat, level: nat)
    requires PathClear(ram, t, page, level) && Walk(ram, t, page, level).Some?
    ensures Missing(ram, t, page, level) == 0
    decreases level
  {
    if 2 <= level {
      TranslatedHasTables(ram, Frame(ram[t][Index(page, level)]), page, level - 1);
    }
  }

  /** Pages of one page table need the same tables. */
  lemma {:induction false} SameTables(ram: map<nat, Table>, t: nat, p: nat, q: nat, level: nat)
    requires Prefix(p, 1) == Prefix(q, 1)
    ensures Missing(ram, t, p, level) == Missing(ram, t, q, level)
    decreases level
  {
    if 2 <= level {
      SamePrefix(p, q, level - 1);
      if t in ram && Present(ram[t][Index(p, level)]) {
        SameTables(ram, Frame(ram[t][Index(p, level)]), p, q, level - 1);
      }
    }
  }

  lemma {:induction false} SamePrefix(p: nat, q: nat, level: nat)
    requires Prefix(p, 1) == Prefix(q, 1) && 1 <= level
    ensures Prefix(p, level) == Prefix(q, level)
    decreases level
  {
    if level != 1 {
      SamePrefix(p, q, level - 1);
    }
  }

  lemma HeapPrefix(i: nat)
    requires i < 256
    ensures Prefix(HeapPage(i), 1) == 0x7FF_FC80
  {
    HeapPageIs(i);
    Prefixes(HeapPage(i));
  }

  lemma HeapTables(ram: map<nat, Table>, t: nat, i: nat)
    requires i < 256
    ensures Missing(ram, t, HeapPage(i), 4) == Missing(ram, t, HeapPage(0), 4)
  {
    HeapPrefix(i);
    HeapPrefix(0);
    SameTables(ram, t, HeapPage(i), HeapPage(0), 4);
  }

  /** An iteration is done exactly when paging knows the direct map and there are the pages it needs. It takes them; if
  there are fewer at most one is left. */
  ghost predicate PagesSpent(m: Vm, m': Vm, ok: bool, i: nat, direct: bool)
    requires i < 256
  {
    && (ok <==> direct && Needs(m, i) <= FreeCount(m.pmm))
    && (ok ==> FreeCount(m.pmm) == FreeCount(m'.pmm) + Needs(m, i))
    && (direct && !ok ==> FreeCount(m'.pmm) <= 1)
  }

  /** So far as many pages have been spent as `i` iterations need. */
  ghost predicate Spent(s: Vm, m: Vm, i: nat) {
    FreeCount(s.pmm) == FreeCount(m.pmm) + NeedsUpTo(s, i) && (i == 0 ==> Needs(m, 0) == Needs(s, 0))
  }

  lemma SpendsNext(s: Vm, m: Vm, m': Vm, frames: seq<nat>, ok: bool, direct: bool)
    requires HeapClear(m) && HeapMapped(m, frames) && |frames| < 256
    requires Spent(s, m, |frames|) && PagesSpent(m, m', ok, |frames|, direct)
    ensures ok ==> direct && Spent(s, m', |frames| + 1)
    ensures direct && !ok ==> FreeCount(s.pmm) < NeedsUpTo(s, 256) && FreeCount(m'.pmm) <= 1
  {
    HeapTables(m.ram, m.kernel, |frames|);
    if frames != [] {
      TranslatedHasTables(m.ram, m.kernel, HeapPage(0), 4);
    }
  }

  /** Giving back one page makes at most one more free. */
  lemma ReleasedFree(s: PmmState, address: nat)
    ensures FreeCount(s.FreePages(address, 1)) <= FreeCount(s) + 1
  {
    var f, s' := Frame(address), s.FreePages(address, 1);
    assert FreePagesOf(s') <= FreePagesOf(s) + {f};
    AtMostOneMore(FreePagesOf(s'), FreePagesOf(s), f);
  }

  lemma AtMostOneMore(a: set<nat>, b: set<nat>, f: nat)
    requires a <= b + {f}
    ensures |a| <= |b| + 1
  {
    assert a - {f} <= b && a <= (a - {f}) + {f};
    assert b == (a - {f}) + (b - (a - {f}));
    assert a == (a - {f}) + (a * {f});
    assert a * {f} == if f in a then {f} else {};
  }

  /** One iteration of the loop: take a page and map it; give it back if that fails. */
  method MapHeapPage(mmu: Mmu, ghost s: Vm, ghost frames: seq<nat>, i: nat) returns (mapped: Option<nat>)
    requires mmu.Valid() && Frame(mmu.cr3) == mmu.kernel
    requires i == |frames| < 256 && HeapProgress(s, mmu.State(), frames)
    modifies mmu`ram, mmu`own, mmu.pmm`usedPages, mmu.pmm`taken, mmu.pmm.bitmap
    ensures mmu.Valid() && mmu.pmm.bitmap == old(mmu.pmm.bitmap)
    ensures HeapProgress(s, mmu.State(), if mapped.Some? then frames + [mapped.value] else frames)
    ensures PagesSpent(old(mmu.State()), mmu.State(), mapped.Some?, i, mmu.hhdm.Some?)
  {
    ghost var m := mmu.State();
    AllocFailure(m.pmm);
    OutIff(m.pmm);
    AllocatedIsFree(m.pmm);
    var physical := mmu.pmm.AllocPages(1);
    if physical == 0 {
      AllocatedPage(m.pmm);
      return None;
    }
    TakenPage(m, mmu.pmm.State(), physical);
    HoldsPage(s, m, frames, mmu.pmm.State(), Frame(physical));
    var ok := MapHeldPage(mmu, s, frames, i, physical);
    if ok {
      return Some(Frame(physical));
    }
    GivenBack(s, mmu.State(), frames, physical);
    ReleasedFree(mmu.pmm.State(), physical);
    mmu.pmm.FreePages(physical, 1);
    return None;
  }

  lemma HeldPageMaps(s: Vm, m: Vm, root: nat, frames: seq<nat>, physical: u64)
    requires Forest(m) && root == m.kernel && |frames| < 256 && HeapHolding(s, m, frames, Frame(physical))
    requires physical % 0x1000 == 0 && physical + 0x1000 <= 0x1_0000_0000_0000_0000
    ensures var page, leaf := Page(HeapAddress(|frames|)), Entry(physical, 3);
      && CanMap(m, root, page) && CanOwn(m, root, page, leaf)
      && HeapPageDone(s, MapPage(m, root, page, leaf, 3), frames, Frame(physical))
      && TablesDrawn(m, MapPage(m, root, page, leaf, 3).0, MapPage(m, root, page, leaf, 3).1, |frames|)
  {
    HeapCanMap(m, |frames|);
    MapPageSucceedsIff(m, root, HeapPage(|frames|), Entry(physical, 3), 3);
    HeapEntryIs(physical);
    HeapPageMaps(s, m, frames, Frame(physical));
  }

  /** The mapping of heap page `i` takes the pages it needs, or all there are if they are fewer. */
  ghost predicate TablesDrawn(m: Vm, m': Vm, ok: bool, i: nat)
    requires i < 256
  {
    var missing := Missing(m.ram, m.kernel, HeapPage(i), 4);
    (ok <==> missing <= FreeCount(m.pmm)) && DrewUpTo(m.pmm, m'.pmm, missing)
  }

  /** After the mapping: one more page, or the page still held. */
  ghost predicate HeapPageDone(s: Vm, r: (Vm, bool), frames: seq<nat>, f: nat) {
    f !in r.0.own && if r.1 then HeapProgress(s, r.0, frames + [f]) else HeapHolding(s, r.0, frames, f)
  }

  /** Mapping the page just taken. */
  method MapHeldPage(mmu: Mmu, ghost s: Vm, ghost frames: seq<nat>, i: nat, physical: u64) returns (ok: bool)
    requires mmu.Valid() && Frame(mmu.cr3) == mmu.kernel && i == |frames| < 256
    requires physical % 0x1000 == 0 && physical + 0x1000 <= 0x1_0000_0000_0000_0000
    requires Frame(physical) !in mmu.own && HeapHolding(s, mmu.State(), frames, Frame(physical))
    modifies mmu`ram, mmu`own, mmu.pmm`usedPages, mmu.pmm`taken, mmu.pmm.bitmap
    ensures mmu.Valid() && mmu.pmm.bitmap == old(mmu.pmm.bitmap)
    ensures HeapPageDone(s, (mmu.State(), ok), frames, Frame(physical))
    ensures if mmu.hhdm.Some? then TablesDrawn(old(mmu.State()), mmu.State(), ok, i) else !ok
  {
    HeldPageMaps(s, mmu.State(), Frame(mmu.cr3), frames, physical);
    ok := mmu.MapKernelPage(HeapAddress(i), physical, 3);
  }

  lemma NothingYet(s: Vm)
    requires HeapClear(s)
    ensures HeapProgress(s, s, []) && Spent(s, s, 0)
  {
    assert PagesHeld(s, s, {});
  }

  /** One iteration, with what all of them so far have spent. */
  method MapNextPage(mmu: Mmu, ghost s: Vm, ghost frames: seq<nat>, i: nat) returns (mapped: Option<nat>)
    requires mmu.Valid() && Frame(mmu.cr3) == mmu.kernel
    requires i == |frames| < 256 && HeapProgress(s, mmu.State(), frames) && Spent(s, mmu.State(), i)
    modifies mmu`ram, mmu`own, mmu.pmm`usedPages, mmu.pmm`taken, mmu.pmm.bitmap
    ensures mmu.Valid() && mmu.pmm.bitmap == old(mmu.pmm.bitmap)
    ensures HeapProgress(s, mmu.State(), if mapped.Some? then frames + [mapped.value] else frames)
    ensures mapped.Some? ==> mmu.hhdm.Some? && Spent(s, mmu.State(), i + 1)
    ensures mapped.None? && mmu.hhdm.Some? ==> FreeCount(s.pmm) < NeedsUpTo(s, 256) && FreeCount(mmu.State().pmm) <= 1
  {
    ghost var m := mmu.State();
    mapped := MapHeapPage(mmu, s, frames, i);
    SpendsNext(s, m, mmu.State(), frames, mapped.Some?, mmu.hhdm.Some?);
  }

  /** The loop. */
  method MapHeapPages(mmu: Mmu, ghost s: Vm) returns (done: bool, ghost frames: seq<nat>)
    requires mmu.Valid() && Frame(mmu.cr3) == mmu.kernel
    requires HeapProgress(s, mmu.State(), []) && Spent(s, mmu.State(), 0)
    modifies mmu`ram, mmu`own, mmu.pmm`usedPages, mmu.pmm`taken, mmu.pmm.bitmap
    ensures mmu.Valid() && mmu.pmm.bitmap == old(mmu.pmm.bitmap)
    ensures HeapProgress(s, mmu.State(), frames)
    ensures if done then |frames| == 256 && mmu.hhdm.Some? && Spent(s, mmu.State(), 256) else |frames| < 256
    ensures !done && mmu.hhdm.Some? ==> FreeCount(s.pmm) < NeedsUpTo(s, 256) && FreeCount(mmu.State().pmm) <= 1
  {
    frames := [];
    var i := 0;
    while i < 256
      invariant 0 <= i <= 256 && i == |frames| && mmu.Valid() && mmu.pmm.bitmap == old(mmu.pmm.bitmap)
      invariant HeapProgress(s, mmu.State(), frames) && Spent(s, mmu.State(), i) && (i != 0 ==> mmu.hhdm.Some?)
    {
      var mapped := MapNextPage(mmu, s, frames, i);
      if mapped.None? {
        return false, frames;
      }
      frames := frames + [mapped.value];
      i := i + 1;
    }
    done := true;
  }

  /** `heap_init`. If it reaches the end, all 256 pages of the heap are mapped, present and writable, to distinct pages
  that were free before and are no tables, and the heap is one free block. If it stops early, the pages it has mapped
  stay mapped, the page it could not map is given back, and there is no heap. It reaches the end exactly when
  paging has been given the direct map's offset and there are 256 free pages and one for each table missing above the
  first; when it stops for want of pages at most one is left free. */
  method InitHeap(mmu: Mmu, words: Memory) returns (heap: Heap?, ghost frames: seq<nat>)
    requires mmu.Valid() && Frame(mmu.cr3) == mmu.kernel && HeapClear(mmu.State()) && Mapped(words)
    modifies mmu`ram, mmu`own, mmu.pmm`usedPages, mmu.pmm`taken, mmu.pmm.bitmap
    ensures mmu.Valid() && mmu.pmm.bitmap == old(mmu.pmm.bitmap)
    ensures HeapProgress(old(mmu.State()), mmu.State(), frames)
    ensures heap != null <==> |frames| == 256
    ensures heap != null ==> fresh(heap) && heap.Valid() && heap.blocks == InitialBlocks()
    ensures heap != null <==> mmu.hhdm.Some? && NeedsUpTo(old(mmu.State()), 256) <= FreeCount(old(mmu.State()).pmm)
    ensures heap == null && mmu.hhdm.Some? ==> FreeCount(mmu.State().pmm) <= 1
  {
    var done: bool;
    ghost var s := mmu.State();
    NothingYet(s);
    done, frames := MapHeapPages(mmu, s);
    heap := null;
    if done {
      heap := new Heap(words);
    }
  }

  /** Once the heap is mapped, no run of calls moves it: its pages stay mapped to their frames, and no space, table or
  client is ever given one of those. */
  lemma HeapStays(s: Vm, st: State, frames: seq<nat>, calls: seq<Call>)
    requires HeapProgress(s, st.sys.vm, frames) && |frames| == 256
    requires StateInv(st) && Frames(frames) !! st.held
    ensures var m := Lifecycle.Run(st, calls).sys.vm;
      && HeapMapped(m, frames)
      && forall f :: f in frames ==> f in m.pmm.taken && f !in m.own && f !in Lifecycle.Run(st, calls).held
  {
    HeapStaysMapped(st, frames, calls);
    HeapStaysTaken(s, st, frames, calls);
  }

  lemma HeapStaysMapped(st: State, frames: seq<nat>, calls: seq<Call>)
    requires StateInv(st) && HeapMapped(st.sys.vm, frames)
    ensures HeapMapped(Lifecycle.Run(st, calls).sys.vm, frames)
  {
    var m' := Lifecycle.Run(st, calls).sys.vm;
    Conservation.RunKernelPlaces(st, calls);
    Isolation.RunKeepsKernel(st, calls);
    forall i: nat | i < |frames| ensures Walk(m'.ram, m'.kernel, HeapPage(i), 4) == Some(HeapEntry(frames[i])) {
      HeapPagesDiffer(i, i);
    }
  }

  lemma HeapStaysTaken(s: Vm, st: State, frames: seq<nat>, calls: seq<Call>)
    requires PagesHeld(s, st.sys.vm, Frames(frames)) && StateInv(st) && Frames(frames) !! st.held
    ensures var st' := Lifecycle.Run(st, calls);
      forall f :: f in frames ==> f in st'.sys.vm.pmm.taken && f !in st'.sys.vm.own && f !in st'.held
  {
    StartConserved(st);
    RunAccounts(BaseOf(st), st, calls);
    forall f | f in frames ensures f in BaseOf(st).pages {
      assert f in Frames(frames);
      assert f in s.pmm.taken - s.own.Keys + Frames(frames);
    }
  }
}
