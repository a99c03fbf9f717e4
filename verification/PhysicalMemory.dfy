/** The physical page allocator of kernel/src/memory/pmm.c.

`PmmState` is what the allocator knows, with the bitmap read as the set of pages it marks; `AllocPages` and
`FreePages` say what the two entry points do to it. `PageAllocator` is the allocator itself: a byte bitmap, a
counter, and the search and marking loops. Addresses are byte addresses, pages are numbered from 0. */
module PhysicalMemory {
  import opened Words

  datatype Option<+T> = None | Some(value: T)

  /** A region of the boot loader's memory map; only the usable type matters to the allocator. */
  datatype MemEntry = MemEntry(base: u64, length: u64, usable: bool) {
    /** The region, rounded out to whole pages, ends below 2^64. */
    predicate Sane() {
      base + length + 0x1000 <= 0x1_0000_0000_0000_0000
    }

    predicate HoldsPage(page: nat) {
      base <= page * 0x1000 < base + length
    }

    predicate Overlaps(page: nat) {
      page * 0x1000 < base + length && base < (page + 1) * 0x1000
    }
  }

  /** Address `a` is a byte of the region. */
  predicate HasByte(e: MemEntry, a: nat) {
    e.base <= a < e.base + e.length
  }

  /** A page meets a region exactly when the region has a byte in it; an empty region between two page boundaries meets
  the page it is in, as rounding its ends outwards leaves one page. */
  lemma OverlapsIff(e: MemEntry, page: nat)
    ensures e.Overlaps(page)
       <==> (exists a: nat :: HasByte(e, a) && Frame(a) == page)
            || (e.length == 0 && e.base % 0x1000 != 0 && Frame(e.base) == page)
  {
    if e.Overlaps(page) && e.length != 0 {
      var a := if e.base <= page * 0x1000 then page * 0x1000 else e.base;
      assert HasByte(e, a) && Frame(a) == page;
    }
  }

  /** A page may be handed out for a region that has its first byte. In a region of whole pages it then has all of them,
  and those are the pages it meets. */
  lemma HoldsPageIff(e: MemEntry, page: nat)
    ensures e.HoldsPage(page) <==> HasByte(e, page * 0x1000)
    ensures e.base % 0x1000 == 0 && e.length % 0x1000 == 0 ==>
      && (e.HoldsPage(page) <==> e.Overlaps(page))
      && (e.HoldsPage(page) <==> forall a: nat :: Frame(a) == page ==> HasByte(e, a))
  {
    if e.base % 0x1000 == 0 && e.length % 0x1000 == 0 {
      assert (e.base + e.length) % 0x1000 == 0;
      assert Frame(page * 0x1000) == page;
    }
  }

  /** `used` is the C counter before reduction modulo 2^64. */
  datatype PmmState = PmmState(entries: seq<MemEntry>, total: nat, taken: set<nat>, used: int) {
    ghost predicate Valid() {
      && total * 0x1000 < 0x1_0000_0000_0000_0000
      && (forall p :: p in taken ==> p < total)
      && (forall e :: e in entries ==> e.Sane())
    }

    predicate Usable(page: nat) {
      exists e :: e in entries && e.usable && e.HoldsPage(page)
    }

    predicate Free(page: nat) {
      1 <= page < total && page !in taken && Usable(page)
    }

    predicate FreeRun(start: nat, count: nat) {
      forall p :: start <= p < start + count ==> Free(p)
    }

    ghost predicate IsFirstRun(start: nat, count: nat) {
      FreeRun(start, count) && forall q: nat :: FreeRun(q, count) ==> start <= q
    }

    /** The least start of `count` free usable pages. The search never answers a request for 0 pages. */
    ghost function FirstFit(count: nat): Option<nat> {
      if count != 0 && exists start: nat :: IsFirstRun(start, count) then
        var start: nat :| IsFirstRun(start, count);
        Some(start)
      else
        None
    }

    /** `pmm_alloc_pages`: address 0 means failure. */
    ghost function AllocPages(count: nat): (PmmState, nat) {
      match FirstFit(count)
      case None => (this, 0)
      case Some(start) => (this.(taken := taken + Run(start, count), used := used + count), start * 0x1000)
    }

    /** How many pages of a run exist. */
    function Existing(start: nat, count: nat): nat {
      if start + count <= total then count else if start <= total then total - start else 0
    }

    /** `pmm_free_pages`: the counter goes down for every page of the run that exists, marked or not. */
    function FreePages(address: nat, count: nat): PmmState {
      var n := Existing(Frame(address), count);
      this.(taken := taken - Run(Frame(address), n), used := used - n)
    }
  }

  /** A range of pages as `pmm_init` claims it: every page from `first` up to `last` that exists is set and counted. */
  function MarkRange(s: PmmState, first: nat, last: nat): PmmState {
    var n := s.Existing(first, if first <= last then last - first else 0);
    s.(taken := s.taken + Run(first, n), used := s.used + n)
  }

  // ---------------------------------------------------------------- pmm_init

  /** The first usable region of the greatest length; region 0..0 when no usable region has any. */
  function Largest(entries: seq<MemEntry>): MemEntry {
    if entries == [] then MemEntry(0, 0, true)
    else
      var before, e := Largest(entries[..|entries| - 1]), entries[|entries| - 1];
      if e.usable && e.length > before.length then e else before
  }

  function HighestEnd(entries: seq<MemEntry>): nat {
    if entries == [] then 0
    else
      var before, e := HighestEnd(entries[..|entries| - 1]), entries[|entries| - 1];
      if e.usable && e.base + e.length > before then e.base + e.length else before
  }

  /** The highest end of a usable region, 0 if there is none. */
  lemma {:induction false} HighestEndIs(entries: seq<MemEntry>)
    ensures forall e :: e in entries && e.usable ==> e.base + e.length <= HighestEnd(entries)
    ensures HighestEnd(entries) == 0
         || exists e :: e in entries && e.usable && e.base + e.length == HighestEnd(entries)
    decreases |entries|
  {
    if entries != [] {
      var before, last := entries[..|entries| - 1], entries[|entries| - 1];
      assert entries == before + [last];
      HighestEndIs(before);
      if HighestEnd(entries) == HighestEnd(before) != 0 {
        var e :| e in before && e.usable && e.base + e.length == HighestEnd(before);
        assert e in entries;
      } else {
        assert last in entries;
      }
    }
  }

  /** Region `i` is the first usable one of the greatest length. */
  ghost predicate IsLargest(entries: seq<MemEntry>, i: nat) {
    && i < |entries| && entries[i].usable
    && (forall e :: e in entries && e.usable ==> e.length <= entries[i].length)
    && forall j :: 0 <= j < i && entries[j].usable ==> entries[j].length < entries[i].length
  }

  /** Unless every usable region is empty, the one chosen is the first of the greatest length. */
  lemma {:induction false} LargestIs(entries: seq<MemEntry>)
    ensures forall e :: e in entries && e.usable ==> e.length <= Largest(entries).length
    ensures if Largest(entries).length == 0 then Largest(entries) == MemEntry(0, 0, true)
            else exists i: nat :: IsLargest(entries, i) && entries[i] == Largest(entries)
    decreases |entries|
  {
    if entries != [] {
      var before, last := entries[..|entries| - 1], entries[|entries| - 1];
      assert entries == before + [last];
      LargestIs(before);
      if last.usable && last.length > Largest(before).length {
        assert forall j :: 0 <= j < |before| ==> entries[j] in before;
        assert IsLargest(entries, |before|);
      } else if Largest(before).length != 0 {
        var i: nat :| IsLargest(before, i) && before[i] == Largest(before);
        assert entries[i] == before[i] && IsLargest(entries, i);
      }
    }
  }

  function TotalPages(entries: seq<MemEntry>): nat {
    HighestEnd(entries) / 0x1000
  }

  function BitmapSize(entries: seq<MemEntry>): nat {
    (TotalPages(entries) + 7) / 8
  }

  /** The allocator manages the pages that end at or below the highest usable end, among them every page that lies
  wholly in a usable region. */
  lemma PagesManaged(entries: seq<MemEntry>, p: nat)
    ensures p < TotalPages(entries) <==> (p + 1) * 0x1000 <= HighestEnd(entries)
    ensures forall e :: e in entries && e.usable && (p + 1) * 0x1000 <= e.base + e.length ==> p < TotalPages(entries)
  {
    HighestEndIs(entries);
  }

  /** What the boot loader owes: no region wraps, and the largest usable one has room for the bitmap. */
  predicate Bootable(entries: seq<MemEntry>) {
    && (forall e :: e in entries ==> e.Sane())
    && HighestEnd(entries) < 0x1_0000_0000_0000_0000
    && Largest(entries).Sane()
    && BitmapSize(entries) <= Largest(entries).length
  }

  /** The bytes the bitmap itself occupies. */
  function BitmapRegion(entries: seq<MemEntry>): MemEntry
    requires Bootable(entries)
  {
    MemEntry(Largest(entries).base, BitmapSize(entries), false)
  }

  /** The bitmap lies in the first usable region of the greatest length, at its beginning, and is as short as a bit for
  each page allows. */
  lemma BitmapFits(entries: seq<MemEntry>)
    requires Bootable(entries)
    ensures var b := BitmapRegion(entries);
      && TotalPages(entries) <= 8 * b.length < TotalPages(entries) + 8
      && (b.length != 0 ==>
            exists i: nat :: IsLargest(entries, i) && b.base == entries[i].base && b.length <= entries[i].length)
  {
    LargestIs(entries);
  }

  function Unusable(entries: seq<MemEntry>): seq<MemEntry> {
    if entries == [] then []
    else
      var before, e := Unusable(entries[..|entries| - 1]), entries[|entries| - 1];
      if e.usable then before else before + [e]
  }

  /** The page range of a region, rounded outwards. */
  function FirstPage(e: MemEntry): nat {
    e.base / 0x1000
  }

  function LastPage(e: MemEntry): nat {
    (e.base + e.length + 0x1000 - 1) / 0x1000
  }

  function MarkRegions(s: PmmState, regions: seq<MemEntry>): PmmState {
    if regions == [] then s
    else
      var e := regions[|regions| - 1];
      MarkRange(MarkRegions(s, regions[..|regions| - 1]), FirstPage(e), LastPage(e))
  }

  lemma MarkRegionsAppend(s: PmmState, regions: seq<MemEntry>, e: MemEntry)
    ensures MarkRegions(s, regions + [e]) == MarkRange(MarkRegions(s, regions), FirstPage(e), LastPage(e))
  {
    assert (regions + [e])[..|regions|] == regions;
  }

  lemma UnusableAppend(entries: seq<MemEntry>, i: nat)
    requires i < |entries|
    ensures entries[i].usable ==> Unusable(entries[..i + 1]) == Unusable(entries[..i])
    ensures !entries[i].usable ==> Unusable(entries[..i + 1]) == Unusable(entries[..i]) + [entries[i]]
  {
    assert entries[..i + 1][..i] == entries[..i];
  }

  /** The allocator's state when `pmm_init` returns. */
  function Boot(entries: seq<MemEntry>): PmmState
    requires Bootable(entries)
  {
    MarkRegions(PmmState(entries, TotalPages(entries), {}, 0), Unusable(entries) + [BitmapRegion(entries)])
  }

  predicate InRun(p: nat, start: nat, count: nat) {
    start <= p < start + count
  }

  /** The pages of a run. */
  function Run(start: nat, count: nat): set<nat> {
    set p: nat | p < start + count && InRun(p, start, count)
  }

  lemma {:induction false} RunSize(start: nat, count: nat)
    ensures |Run(start, count)| == count
  {
    if count == 0 {
      assert Run(start, count) == {};
    } else {
      RunSize(start, count - 1);
      assert Run(start, count) == Run(start, count - 1) + {start + count - 1};
    }
  }

  /** First fit is determined, and exists as soon as any run does. */
  lemma FirstFitIs(s: PmmState, start: nat, count: nat)
    requires s.FreeRun(start, count) && 0 < count
    ensures s.FirstFit(count).Some? && s.IsFirstRun(s.FirstFit(count).value, count)
    ensures s.IsFirstRun(start, count) ==> s.FirstFit(count) == Some(start)
  {
    LeastRun(s, start, count);
  }

  lemma {:induction false} LeastRun(s: PmmState, start: nat, count: nat)
    requires s.FreeRun(start, count)
    ensures exists first: nat :: s.IsFirstRun(first, count)
    decreases start
  {
    if q: nat :| q < start && s.FreeRun(q, count) {
      LeastRun(s, q, count);
    } else {
      assert s.IsFirstRun(start, count);
    }
  }

  // ---------------------------------------------------------------- one byte of the bitmap

  function Mask(k: nat): bv8
    requires k < 8
  {
    match k
    case 0 => 1 case 1 => 2 case 2 => 4 case 3 => 8
    case 4 => 16 case 5 => 32 case 6 => 64 case 7 => 128
  }

  lemma MaskIsShift(k: nat)
    requires k < 8
    ensures Mask(k) == (1 as bv8) << k
  {
    assert k == 0 || k == 1 || k == 2 || k == 3 || k == 4 || k == 5 || k == 6 || k == 7;
  }

  predicate TestBit(b: bv8, k: nat)
    requires k < 8
  {
    b & Mask(k) != 0
  }

  lemma SetBit(b: bv8, k: nat, j: nat)
    requires k < 8 && j < 8
    ensures TestBit(b | Mask(k), j) <==> j == k || TestBit(b, j)
    ensures TestBit(b & !Mask(k), j) <==> j != k && TestBit(b, j)
  {
    if j == k {
      OwnBit(b, k);
    } else {
      OtherBitAdded(b, k, j);
      OtherBitTaken(b, k, j);
    }
  }

  lemma OwnBit(b: bv8, k: nat)
    requires k < 8
    ensures TestBit(b | Mask(k), k) && !TestBit(b & !Mask(k), k)
  {
    MaskNonzero(k);
    OneMask(b, Mask(k));
  }

  lemma OtherBitAdded(b: bv8, k: nat, j: nat)
    requires k < 8 && j < 8 && k != j
    ensures TestBit(b | Mask(k), j) == TestBit(b, j)
  {
    MasksDisjoint(k, j);
    TwoMasks(b, Mask(k), Mask(j));
  }

  lemma OtherBitTaken(b: bv8, k: nat, j: nat)
    requires k < 8 && j < 8 && k != j
    ensures TestBit(b & !Mask(k), j) == TestBit(b, j)
  {
    MasksDisjoint(k, j);
    TwoMasks(b, Mask(k), Mask(j));
  }

  lemma OneMask(b: bv8, m: bv8)
    ensures (b | m) & m == m && b & !m & m == 0
  {
  }

  lemma TwoMasks(b: bv8, m: bv8, n: bv8)
    requires m & n == 0
    ensures (b | m) & n == b & n && b & !m & n == b & n
  {
  }

  lemma MaskNonzero(k: nat)
    requires k < 8
    ensures Mask(k) != 0
  {
    assert k == 0 || k == 1 || k == 2 || k == 3 || k == 4 || k == 5 || k == 6 || k == 7;
  }

  lemma MasksDisjoint(k: nat, j: nat)
    requires k < 8 && j < 8 && k != j
    ensures Mask(k) & Mask(j) == 0
  {
    assert k == 0 || k == 1 || k == 2 || k == 3 || k == 4 || k == 5 || k == 6 || k == 7;
    assert j == 0 || j == 1 || j == 2 || j == 3 || j == 4 || j == 5 || j == 6 || j == 7;
  }

  lemma BootIs(entries: seq<MemEntry>, base: nat, size: nat)
    requires Bootable(entries) && base == Largest(entries).base && size == BitmapSize(entries)
    ensures var unusable := MarkRegions(PmmState(entries, TotalPages(entries), {}, 0), Unusable(entries));
      Boot(entries) == MarkRange(unusable, base / 0x1000, (base + size + 0x1000 - 1) / 0x1000)
  {
    var s, b := PmmState(entries, TotalPages(entries), {}, 0), BitmapRegion(entries);
    assert FirstPage(b) == base / 0x1000 && LastPage(b) == (base + size + 0x1000 - 1) / 0x1000;
    MarkRegionsAppend(s, Unusable(entries), b);
  }

  class PageAllocator {
    var bitmap: array?<bv8>
    var totalPages: nat
    var usedPages: int
    var memmap: seq<MemEntry>
    ghost var taken: set<nat>  // the pages whose bit is set

    ghost predicate Valid()
      reads this, bitmap
    {
      && (bitmap == null ==> totalPages == 0)
      && (bitmap != null ==> bitmap.Length == (totalPages + 7) / 8)
      && (bitmap != null ==> forall p: nat {:trigger Test(p)} :: p < totalPages ==> (p in taken <==> Test(p)))
      && State().Valid()
    }

    /** `bitmap_test`. */
    predicate Test(bit: nat)
      requires bitmap != null && bit / 8 < bitmap.Length
      reads this, bitmap
    {
      TestBit(bitmap[bit / 8], bit % 8)
    }

    ghost function State(): PmmState
      reads this
    {
      PmmState(memmap, totalPages, taken, usedPages)
    }

    /** The zeroed statics, before `pmm_init`. */
    constructor ()
      ensures Valid() && State() == PmmState([], 0, {}, 0) && bitmap == null
    {
      bitmap, totalPages, usedPages, memmap, taken := null, 0, 0, [], {};
    }

    /** `pmm_init`, on the zeroed statics. `memory` is the boot loader's memory map, `hhdm` its offset; either may
    be missing. The bitmap's own bytes become an array. */
    method Init(memory: Option<seq<MemEntry>>, hhdm: Option<u64>)
      requires Valid() && bitmap == null && State() == PmmState([], 0, {}, 0)
      requires memory.Some? ==> Bootable(memory.value)
      modifies this
      ensures Valid()
      ensures memory.Some? && hhdm.Some? ==> fresh(bitmap) && State() == Boot(memory.value)
      ensures memory.None? || hhdm.None? ==> bitmap == null && totalPages == 0 && usedPages == 0 && taken == {}
    {
      if memory.None? || hhdm.None? {
        memmap := if memory.Some? then memory.value else [];
        return;
      }
      SetUp(memory.value);
    }

    method SetUp(entries: seq<MemEntry>)
      requires bitmap == null && usedPages == 0 && Bootable(entries)
      modifies this
      ensures Valid() && fresh(bitmap) && State() == Boot(entries)
    {
      var highestAddr, largestBase, largestSize := Survey(entries);
      memmap := entries;
      totalPages := highestAddr / 0x1000;
      var bitmapSize := (totalPages + 7) / 8;
      ClearBitmap(bitmapSize);
      MarkUnusable();
      var start := largestBase / 0x1000;
      var end := (largestBase + bitmapSize + 0x1000 - 1) / 0x1000;
      BootIs(entries, largestBase, bitmapSize);
      MarkPages(start, end);
    }

    /** The first loop of `pmm_init`. */
    method Survey(entries: seq<MemEntry>) returns (highestAddr: nat, largestBase: nat, largestSize: nat)
      ensures highestAddr == HighestEnd(entries)
      ensures largestBase == Largest(entries).base && largestSize == Largest(entries).length
      ensures forall e :: e in entries && e.usable ==> e.base + e.length <= highestAddr && e.length <= largestSize
      ensures highestAddr != 0 ==> exists e :: e in entries && e.usable && e.base + e.length == highestAddr
      ensures largestSize != 0 ==> exists i: nat ::
        IsLargest(entries, i) && entries[i].base == largestBase && entries[i].length == largestSize
    {
      highestAddr, largestBase, largestSize := 0, 0, 0;
      var i := 0;
      while i < |entries|
        invariant 0 <= i <= |entries|
        invariant highestAddr == HighestEnd(entries[..i])
        invariant largestBase == Largest(entries[..i]).base && largestSize == Largest(entries[..i]).length
      {
        var entry := entries[i];
        if entry.usable {
          var end := entry.base + entry.length;
          if end > highestAddr {
            highestAddr := end;
          }
          if entry.length > largestSize {
            largestSize, largestBase := entry.length, entry.base;
          }
        }
        assert entries[..i + 1][..i] == entries[..i];
        i := i + 1;
      }
      assert entries[..|entries|] == entries;
      HighestEndIs(entries);
      LargestIs(entries);
    }

    /** Placing the bitmap and clearing it. */
    method ClearBitmap(bitmapSize: nat)
      requires bitmap == null && bitmapSize == (totalPages + 7) / 8
      requires totalPages * 0x1000 < 0x1_0000_0000_0000_0000 && forall e :: e in memmap ==> e.Sane()
      modifies this`bitmap, this`taken
      ensures Valid() && bitmap != null && fresh(bitmap)
      ensures State() == old(State()).(taken := {})
    {
      bitmap := new bv8[bitmapSize](_ => 0);
      taken := {};
    }

    /** The second loop of `pmm_init`. */
    method MarkUnusable()
      requires Valid() && bitmap != null
      modifies this`usedPages, this`taken, bitmap
      ensures Valid() && bitmap == old(bitmap)
      ensures State() == MarkRegions(old(State()), Unusable(memmap))
    {
      ghost var s := State();
      var entries := memmap;
      var i := 0;
      assert Unusable(entries[..0]) == [];
      while i < |entries|
        invariant 0 <= i <= |entries| && entries == memmap
        invariant Valid() && bitmap == old(bitmap)
        invariant State() == MarkRegions(s, Unusable(entries[..i]))
      {
        UnusableAppend(entries, i);
        if !entries[i].usable {
          MarkRegionsAppend(s, Unusable(entries[..i]), entries[i]);
          MarkPages(FirstPage(entries[i]), LastPage(entries[i]));
        }
        i := i + 1;
      }
      assert entries[..|entries|] == entries;
    }

    /** The marking loop that occurs twice in `pmm_init`. */
    method MarkPages(start: nat, end: nat)
      requires Valid() && bitmap != null
      modifies this`usedPages, this`taken, bitmap
      ensures Valid() && bitmap == old(bitmap)
      ensures State() == MarkRange(old(State()), start, end)
    {
      var page := start;
      while page < end
        invariant start <= page && (page <= end || page == start)
        invariant Valid() && bitmap == old(bitmap)
        invariant State() == MarkRange(old(State()), start, page)
      {
        if page < totalPages {
          Set(page);
        }
        page := page + 1;
      }
    }

    /** `bitmap_set`. */
    method Set(bit: nat)
      requires Valid() && bit < totalPages
      modifies this`usedPages, this`taken, bitmap
      ensures Valid() && bitmap == old(bitmap)
      ensures State() == old(State()).(taken := old(taken) + {bit}, used := old(usedPages) + 1)
    {
      bitmap[bit / 8] := bitmap[bit / 8] | Mask(bit % 8);
      usedPages := usedPages + 1;
      taken := taken + {bit};
      forall p: nat | p < totalPages ensures p in taken <==> Test(p) {
        assert p in old(taken) <==> old(Test(p));
        if p / 8 == bit / 8 {
          SetBit(old(bitmap[bit / 8]), bit % 8, p % 8);
        }
      }
    }

    /** `bitmap_clear`. */
    method Clear(bit: nat)
      requires Valid() && bit < totalPages
      modifies this`usedPages, this`taken, bitmap
      ensures Valid() && bitmap == old(bitmap)
      ensures State() == old(State()).(taken := old(taken) - {bit}, used := old(usedPages) - 1)
    {
      bitmap[bit / 8] := bitmap[bit / 8] & !Mask(bit % 8);
      usedPages := usedPages - 1;
      taken := taken - {bit};
      forall p: nat | p < totalPages ensures p in taken <==> Test(p) {
        assert p in old(taken) <==> old(Test(p));
        if p / 8 == bit / 8 {
          SetBit(old(bitmap[bit / 8]), bit % 8, p % 8);
        }
      }
    }

    /** `find_free_pages`: none where the C code answers (uint64_t)-1. */
    method FindFreePages(count: nat) returns (r: Option<nat>)
      requires Valid() && bitmap != null
      ensures r == State().FirstFit(count)
      ensures r.Some? ==> 0 < count && State().IsFirstRun(r.value, count)
      ensures r.None? && 0 < count ==> forall start: nat :: !State().FreeRun(start, count)
    {
      ghost var s := State();
      var consecutive := 0;
      var startPage := 0;
      var i := 1;
      while i < totalPages
        invariant 1 <= i && (i <= totalPages || i == 1)
        invariant 0 <= consecutive < i && (0 < count ==> consecutive < count)
        invariant consecutive != 0 ==> startPage == i - consecutive
        invariant s.FreeRun(i - consecutive, consecutive)
        invariant !s.Free(i - consecutive - 1)
        invariant 0 < count ==> forall q: nat :: q + count <= i ==> !s.FreeRun(q, count)
      {
        if !Test(i) {
          var usable := false;
          var j := 0;
          while j < |memmap|
            invariant 0 <= j <= |memmap|
            invariant !usable ==> forall k :: 0 <= k < j ==> !(memmap[k].usable && memmap[k].HoldsPage(i))
            invariant usable ==> s.Usable(i)
          {
            var entry := memmap[j];
            if entry.usable {
              var pageAddr := i * 0x1000;
              if pageAddr >= entry.base && pageAddr < entry.base + entry.length {
                usable := true;
                break;
              }
            }
            j := j + 1;
          }
          if usable {
            if consecutive == 0 {
              startPage := i;
            }
            consecutive := consecutive + 1;
            if consecutive == count {
              FirstRunFound(s, startPage, count);
              FirstFitIs(s, startPage, count);
              return Some(startPage);
            }
            RunsStopped(s, i + 1, consecutive, count);
          } else {
            consecutive := 0;
            RunsStopped(s, i + 1, 0, count);
          }
        } else {
          consecutive := 0;
          RunsStopped(s, i + 1, 0, count);
        }
        i := i + 1;
      }
      if 0 < count {
        forall q: nat ensures !s.FreeRun(q, count) {
          RunsExist(s, q, count);
        }
      }
      return None;
    }

    /** `pmm_alloc_pages`. */
    method AllocPages(count: nat) returns (address: nat)
      requires Valid()
      modifies this`usedPages, this`taken, bitmap
      ensures Valid() && bitmap == old(bitmap)
      ensures (State(), address) == old(State()).AllocPages(count)
    {
      if bitmap == null {
        NothingWithoutPages(State(), count);
        return 0;
      }
      var found := FindFreePages(count);
      if found.None? {
        return 0;
      }
      RunsExist(State(), found.value, count);
      MarkRun(found.value, count);
      return found.value * 0x1000;
    }

    /** The marking loop of `pmm_alloc_pages`. */
    method MarkRun(start: nat, count: nat)
      requires Valid() && start + count <= totalPages && (count == 0 || bitmap != null)
      modifies this`usedPages, this`taken, bitmap
      ensures Valid() && bitmap == old(bitmap)
      ensures State() == old(State()).(taken := old(taken) + Run(start, count), used := old(usedPages) + count)
    {
      var i := 0;
      while i < count
        invariant 0 <= i <= count
        invariant Valid() && bitmap == old(bitmap)
        invariant State() == old(State()).(taken := old(taken) + Run(start, i), used := old(usedPages) + i)
      {
        Set(start + i);
        i := i + 1;
      }
    }

    /** `pmm_free_pages`. */
    method FreePages(address: nat, count: nat)
      requires Valid()
      modifies this`usedPages, this`taken, bitmap
      ensures Valid() && bitmap == old(bitmap)
      ensures State() == old(State()).FreePages(address, count)
    {
      if bitmap == null {
        return;
      }
      var start := address / 0x1000;
      var i := 0;
      while i < count
        invariant 0 <= i <= count
        invariant Valid() && bitmap == old(bitmap)
        invariant State() == old(State()).FreePages(address, i)
      {
        if start + i < totalPages {
          Clear(start + i);
        }
        i := i + 1;
      }
    }
  }

  lemma NothingWithoutPages(s: PmmState, count: nat)
    requires s.total == 0
    ensures s.FirstFit(count) == None
  {
    if count != 0 {
      forall start: nat ensures !s.FreeRun(start, count) {
        assert !s.Free(start);
      }
    }
  }

  lemma RunsExist(s: PmmState, start: nat, count: nat)
    requires 0 < count
    ensures s.FreeRun(start, count) ==> 1 <= start && start + count <= s.total
  {
    if s.FreeRun(start, count) {
      assert s.Free(start) && s.Free(start + count - 1);
    }
  }

  /** The first run to reach length `count` is the first run. */
  lemma FirstRunFound(s: PmmState, start: nat, count: nat)
    requires 0 < count && s.FreeRun(start, count)
    requires forall q: nat :: q + count < start + count ==> !s.FreeRun(q, count)
    ensures s.IsFirstRun(start, count)
  {
  }

  /** A free stretch shorter than `count` that begins after a page that is not free holds no run ending at its end. */
  lemma RunsStopped(s: PmmState, end: nat, stretch: nat, count: nat)
    requires 0 < count ==> stretch < count
    requires stretch < end && !s.Free(end - stretch - 1)
    requires 0 < count ==> forall q: nat :: q + count < end ==> !s.FreeRun(q, count)
    ensures 0 < count ==> forall q: nat :: q + count <= end ==> !s.FreeRun(q, count)
  {
    if 0 < count {
      forall q: nat | q + count == end ensures !s.FreeRun(q, count) {
        assert q <= end - stretch - 1 < q + count;
      }
    }
  }
}
