/** Four-level page tables (Intel SDM, Volume 3A, section 4.5) as the kernel keeps them in physical frames.

`Walk` is the processor's translation of one page. `Descend`, `MapPage` and `UnmapPage` say what the kernel's
walks do to the tables and to the page allocator. */
module PageTables {
  import opened Words
  import opened PhysicalMemory

  // ---------------------------------------------------------------- entries and virtual addresses

  predicate Present(e: u64) { e % 2 == 1 }

  /** PAGING_USER. */
  predicate User(e: u64) { e / 4 % 2 == 1 }

  /** PAGING_HUGE_PAGE: an entry of a level-3 or level-2 table that maps memory itself. */
  predicate Huge(e: u64) { e / 128 % 2 == 1 }

  /** The page number of a virtual address: bits 12 to 47. */
  function Page(virtual: u64): nat {
    virtual / 0x1000 % 0x10_0000_0000
  }

  /** What is left of a page number above the `level` lowest table indices. */
  function Prefix(page: nat, level: nat): nat {
    if level == 0 then page else Prefix(page, level - 1) / 512
  }

  /** The index a page selects in a table of the given level (4 is the PML4, 1 the page table). */
  function Index(page: nat, level: nat): (i: nat)
    requires 1 <= level
    ensures i < 512
  {
    Prefix(page, level - 1) % 512
  }

  /** The indices as the C code extracts them. */
  lemma IndexShifts(virtual: u64)
    ensures Index(Page(virtual), 4) == virtual / 0x80_0000_0000 % 512
    ensures Index(Page(virtual), 3) == virtual / 0x4000_0000 % 512
    ensures Index(Page(virtual), 2) == virtual / 0x20_0000 % 512
    ensures Index(Page(virtual), 1) == virtual / 0x1000 % 512
  {
    var page := Page(virtual);
    Prefixes(page);
    var high := virtual / 0x1_0000_0000_0000;
    var x0 := virtual / 0x1000;
    assert x0 == 0x10_0000_0000 * high + page;
    Shift512(x0, high, page, 0x800_0000);
    Shift512(x0 / 512, high, page / 512, 0x4_0000);
    Shift512(x0 / 512 / 512, high, page / 512 / 512, 512);
    NestedDivision(virtual);
  }

  lemma Prefixes(page: nat)
    ensures Prefix(page, 0) == page && Prefix(page, 1) == page / 512
    ensures Prefix(page, 2) == page / 512 / 512 && Prefix(page, 3) == page / 512 / 512 / 512
  {
    assert Prefix(page, 3) == Prefix(page, 2) / 512;
    assert Prefix(page, 2) == Prefix(page, 1) / 512;
  }

  lemma NestedDivision(x: nat)
    ensures x / 0x1000 / 512 == x / 0x20_0000
    ensures x / 0x1000 / 512 / 512 == x / 0x4000_0000
    ensures x / 0x1000 / 512 / 512 / 512 == x / 0x80_0000_0000
  {
  }

  /** Dropping nine low bits of `n * high + low`, where `n` is 512 times `m`. */
  lemma Shift512(x: nat, high: nat, low: nat, m: nat)
    requires m == 0x800_0000 || m == 0x4_0000 || m == 512
    requires x == (512 * m) * high + low
    ensures x % 512 == low % 512 && x / 512 == m * high + low / 512
  {
  }

  lemma {:induction false} PageIsItsIndices(page: nat, page': nat, level: nat)
    requires Prefix(page, level) == Prefix(page', level)
    requires forall l :: 1 <= l <= level ==> Index(page, l) == Index(page', l)
    ensures page == page'
    decreases level
  {
    if level != 0 {
      assert Index(page, level) == Index(page', level);
      PageIsItsIndices(page, page', level - 1);
    }
  }

  /** The entry the mapping functions build: `physical_addr | flags | PAGING_PRESENT`. */
  function Entry(physical: u64, flags: u64): u64 {
    Or(Or(physical, flags), 1)
  }

  lemma EntryIs(physical: u64, flags: u64)
    ensures Present(Entry(physical, flags))
    ensures Frame(Entry(physical, flags)) == BitOr(Frame(physical), Frame(flags))
  {
    OrUnfold(Or(physical, flags), 1);
    OrFrame(Or(physical, flags), 1);
    OrFrame(physical, flags);
    assert Frame(1) == 0;
  }

  /** The flags are the bits the processor looks at. */
  lemma FlagBits(e: u64)
    ensures (Present(e) <==> Bit(e, 0)) && (User(e) <==> Bit(e, 2)) && (Huge(e) <==> Bit(e, 7))
  {
    UserBit(e, 2);
    HugeBit(e, 7);
  }

  lemma UserBit(e: u64, k: nat)
    requires k == 2
    ensures User(e) <==> Bit(e, k)
  {
    TwoBits(e, k - 2);
  }

  lemma HugeBit(e: u64, k: nat)
    requires k == 7
    ensures Huge(e) <==> Bit(e, k)
  {
    TwoBits(e, k - 2);
    TwoBits(e / 4, k - 4);
    TwoBits(e / 16, k - 6);
    assert Bit(e / 64, k - 6) == Bit(e / 64 / 2, k - 7);
  }

  lemma TwoBits(x: nat, k: nat)
    ensures Bit(x, k + 2) == Bit(x / 4, k) && x / 4 / 4 == x / 16 && x / 16 / 4 == x / 64
  {
    assert Bit(x, k + 2) == Bit(x / 2, k + 1) == Bit(x / 2 / 2, k);
  }

  /** Each bit of the entry is set exactly when it is set in the address or in the flags, or is PAGING_PRESENT. */
  lemma EntryBits(physical: u64, flags: u64, k: nat)
    ensures Bit(Entry(physical, flags), k) <==> k == 0 || Bit(physical, k) || Bit(flags, k)
  {
    OrIsBitwise(Or(physical, flags), 1, k);
    OrIsBitwise(physical, flags, k);
    BitOfOne(k);
  }

  lemma {:induction false} BitOfOne(k: nat)
    ensures Bit(1, k) <==> k == 0
    ensures !Bit(0, k)
  {
    if k != 0 {
      BitOfOne(k - 1);
    }
  }

  /** Of a page address and flags of twelve bits the entry is the sum, with PAGING_PRESENT added if it is missing. */
  lemma EntrySum(physical: u64, flags: u64)
    requires physical % 0x1000 == 0 && flags < 0x1000
    ensures Entry(physical, flags) == physical + flags + (if Present(flags) then 0 else 1)
    ensures PageBase(Entry(physical, flags)) == physical
    ensures Entry(physical, flags) % 0x1000 == flags + (if Present(flags) then 0 else 1)
  {
    OrOffset(physical, flags);
    OrOne(physical + flags);
    assert Present(physical + flags) == Present(flags);
  }

  lemma OrOne(x: nat)
    ensures BitOr(x, 1) == x + 1 - x % 2
  {
    OrUnfold(x, 1);
    assert BitOr(x / 2, 0) == x / 2;
  }

  // ---------------------------------------------------------------- the machine

  type Table = s: seq<u64> | |s| == 512 witness seq(512, _ => 0)

  /** A table's place: the root of the space it belongs to, its level, and the prefix common to the pages it serves.
  A mapped frame of a space has level 0 and its page number as prefix. */
  datatype Tag = Tag(root: nat, level: nat, prefix: nat)

  /** Physical frames by number, the page allocator, the kernel's root table, and the places in use. The places are
  bookkeeping of this model: no operation looks at them to decide what it does. */
  datatype Vm = Vm(ram: map<nat, Table>, pmm: PmmState, own: map<nat, Tag>, kernel: nat)

  predicate HighSlot(i: nat) { 256 <= i }

  /** The place of what entry `i` of a table points to. The upper half of every PML4 leads into the kernel's tree. */
  function Child(kernel: nat, tag: Tag, i: nat): Tag
    requires 1 <= tag.level
  {
    Tag(if tag.level == 4 && HighSlot(i) then kernel else tag.root, tag.level - 1, tag.prefix * 512 + i)
  }

  predicate Serves(tag: Tag, page: nat) {
    Prefix(page, tag.level) == tag.prefix
  }

  lemma ChildServes(kernel: nat, tag: Tag, i: nat, page: nat)
    requires 1 <= tag.level && i < 512
    ensures Serves(Child(kernel, tag, i), page) <==> Serves(tag, page) && Index(page, tag.level) == i
  {
  }

  /** The processor's translation: the entry that maps `page`, looked up from table `t` of the given level. */
  function Walk(ram: map<nat, Table>, t: nat, page: nat, level: nat): Option<u64>
    decreases level
  {
    if level == 0 || t !in ram then None
    else
      var e := ram[t][Index(page, level)];
      if !Present(e) then None
      else if level == 1 || (level <= 3 && Huge(e)) then Some(e)
      else Walk(ram, Frame(e), page, level - 1)
  }

  /** No huge entry lies on the part of the path that exists. */
  predicate PathClear(ram: map<nat, Table>, t: nat, page: nat, level: nat)
    decreases level
  {
    level <= 1 || t !in ram ||
    var e := ram[t][Index(page, level)];
    Present(e) ==> !(level <= 3 && Huge(e)) && PathClear(ram, Frame(e), page, level - 1)
  }

  function Zeros(): Table {
    seq(512, _ => 0)
  }

  function SetEntry(ram: map<nat, Table>, t: nat, i: nat, e: u64): map<nat, Table>
    requires t in ram && i < 512
  {
    ram[t := ram[t][i := e]]
  }

  // ---------------------------------------------------------------- what the kernel's walks do

  /** One level of a walk that creates what is missing: the next table, or none when memory has run out. `link` is
  the flags of a new intermediate entry. */
  ghost function Descend(m: Vm, t: nat, i: nat, link: nat): (r: (Vm, Option<nat>))
    requires t in m.ram && i < 512 && link < 0x1000 && m.pmm.Valid()
    ensures r.0.pmm.Valid()
  {
    var e := m.ram[t][i];
    if Present(e) then (m, Some(Frame(e)))
    else
      AllocatedPage(m.pmm);
      var (pmm, address) := m.pmm.AllocPages(1);
      if address == 0 then (m, None)
      else (Link(m.(pmm := pmm), t, i, address + link), Some(Frame(address)))
  }

  /** Clear the frame a new entry names, then write the entry. */
  function Link(m: Vm, t: nat, i: nat, e: u64): Vm
    requires t in m.ram && i < 512
  {
    var own := if t in m.own && 1 <= m.own[t].level then m.own[Frame(e) := Child(m.kernel, m.own[t], i)] else m.own;
    m.(ram := SetEntry(m.ram[Frame(e) := Zeros()], t, i, e), own := own)
  }

  /** The page table a page belongs to, creating the tables above it. */
  ghost function Locate(m: Vm, t: nat, page: nat, level: nat, link: nat): (r: (Vm, Option<nat>))
    requires link < 0x1000 && m.pmm.Valid()
    ensures r.0.pmm.Valid()
    decreases level
  {
    if level <= 1 then (m, Some(t))
    else if t !in m.ram then (m, None)
    else
      var (m', next) := Descend(m, t, Index(page, level), link);
      if next.None? then (m', None) else Locate(m', next.value, page, level - 1, link)
  }

  /** Empty a leaf entry. In a space other than the kernel's the frame it named loses its place. */
  function DropLeaf(m: Vm, t: nat, i: nat): Vm
    requires t in m.ram && i < 512
  {
    var e := m.ram[t][i];
    var own := if IsSpaceLeaf(m, t) && Present(e) then m.own - {Frame(e)} else m.own;
    m.(ram := SetEntry(m.ram, t, i, 0), own := own)
  }

  /** Write a leaf entry. In a space other than the kernel's the frame it names takes the page's place. */
  function PutLeaf(m: Vm, t: nat, i: nat, leaf: u64): Vm
    requires t in m.ram && i < 512
  {
    var m' := DropLeaf(m, t, i);
    var own := if IsSpaceLeaf(m', t) then m'.own[Frame(leaf) := Child(m.kernel, m'.own[t], i)] else m'.own;
    m'.(ram := SetEntry(m.ram, t, i, leaf), own := own)
  }

  /** `t` is a last-level table outside the kernel's tree. */
  predicate IsSpaceLeaf(m: Vm, t: nat) {
    t in m.own && m.own[t].level == 1 && m.own[t].root != m.kernel
  }

  /** The flags `vmm_map_page` gives new intermediate entries: present, writable, and user if the page is. */
  function SpaceLink(flags: u64): nat {
    if User(flags) then 7 else 3
  }

  /** The flags `paging_map_page` gives them. */
  const KERNEL_LINK: nat := 3

  /** `vmm_map_page` and `paging_map_page`. */
  ghost function MapPage(m: Vm, root: nat, page: nat, leaf: u64, link: nat): (Vm, bool)
    requires link < 0x1000 && m.pmm.Valid()
  {
    var (m', t) := Locate(m, root, page, 4, link);
    if t.None? || t.value !in m'.ram then (m', false)
    else (PutLeaf(m', t.value, Index(page, 1), leaf), true)
  }

  /** The page table the kernel's non-creating walk reaches; it takes a huge entry for a table. */
  function Follow(ram: map<nat, Table>, t: nat, page: nat, level: nat): Option<nat>
    decreases level
  {
    if level <= 1 then Some(t)
    else if t !in ram || !Present(ram[t][Index(page, level)]) then None
    else Follow(ram, Frame(ram[t][Index(page, level)]), page, level - 1)
  }

  /** The entry the kernel's non-creating walk ends at. */
  function LeafEntry(ram: map<nat, Table>, root: nat, page: nat): Option<u64> {
    var t := Follow(ram, root, page, 4);
    if t.None? || t.value !in ram || !Present(ram[t.value][Index(page, 1)]) then None
    else Some(ram[t.value][Index(page, 1)])
  }

  /** `paging_unmap_page`. */
  function UnmapPage(m: Vm, root: nat, page: nat): (Vm, bool) {
    var e := LeafEntry(m.ram, root, page);
    if e.None? then (m, false)
    else
      var t := Follow(m.ram, root, page, 4).value;
      (DropLeaf(m, t, Index(page, 1)).(pmm := m.pmm.FreePages(PageBase(e.value), 1)), true)
  }

  /** How many tables a walk for `page` still has to create below `t`. */
  function Missing(ram: map<nat, Table>, t: nat, page: nat, level: nat): nat
    decreases level
  {
    if level <= 1 || t !in ram then 0
    else
      var e := ram[t][Index(page, level)];
      if Present(e) then Missing(ram, Frame(e), page, level - 1) else level - 1
  }

  /** The page table the processor reaches for a page. */
  function LeafTable(ram: map<nat, Table>, t: nat, page: nat, level: nat): Option<nat>
    decreases level
  {
    if level == 0 || t !in ram then None
    else if level == 1 then Some(t)
    else
      var e := ram[t][Index(page, level)];
      if Present(e) && !(level <= 3 && Huge(e)) then LeafTable(ram, Frame(e), page, level - 1) else None
  }

  lemma AllocatedPage(s: PmmState)
    requires s.Valid()
    ensures var (s', address) := s.AllocPages(1); if address == 0 then s' == s else
      && address % 0x1000 == 0 && address + 0x1000 <= 0x1_0000_0000_0000_0000
      && 1 <= Frame(address) < s.total && Frame(address) !in s.taken
      && s' == s.(taken := s.taken + {Frame(address)}, used := s.used + 1) && s'.Valid()
  {
    if s.FirstFit(1).Some? {
      var start := s.FirstFit(1).value;
      assert s.FreeRun(start, 1);
      assert s.Free(start);
      assert Run(start, 1) == {start};
    }
  }
}
