/** What the page allocator promises: accounting, runs of allocations and releases, and the state it boots into. */
module PhysicalMemoryProofs {
  import opened Words
  import opened PhysicalMemory

  /** How far the counter is from the number of pages marked in the bitmap. */
  function Drift(s: PmmState): int {
    s.used - |s.taken|
  }

  // ---------------------------------------------------------------- one call

  /** An allocation takes the least run of free usable pages and marks exactly it; it fails, changing nothing,
  exactly when there is no such run. */
  lemma AllocIsFirstFit(s: PmmState, count: nat)
    requires s.Valid()
    ensures var (s', address) := s.AllocPages(count);
      && (address == 0 <==> count == 0 || forall start: nat :: !s.FreeRun(start, count))
      && if address == 0 then s' == s else Granted(s, count, s', address)
  {
    if start: nat :| 0 < count && s.FreeRun(start, count) {
      FirstFitIs(s, start, count);
      GrantFirstRun(s, s.FirstFit(count).value, count);
    }
  }

  /** What a successful allocation is: the first run of free pages, none of it marked before, all of it after. */
  ghost predicate Granted(s: PmmState, count: nat, s': PmmState, address: nat) {
    var run := Run(Frame(address), count);
    && address % 0x1000 == 0 && 1 <= Frame(address) && Frame(address) + count <= s.total
    && s.IsFirstRun(Frame(address), count)
    && s.taken !! run
    && s' == s.(taken := s.taken + run, used := s.used + count)
    && s'.Valid() && Drift(s') == Drift(s)
  }

  lemma GrantFirstRun(s: PmmState, first: nat, count: nat)
    requires s.Valid() && 0 < count && s.IsFirstRun(first, count)
    ensures Granted(s, count, s.(taken := s.taken + Run(first, count), used := s.used + count), first * 0x1000)
  {
    RunsExist(s, first, count);
    forall p: nat | p in Run(first, count) ensures p !in s.taken {
      assert s.Free(p);
    }
    MarkedOnce(s.taken, first, count);
    assert Frame(first * 0x1000) == first;
  }

  lemma MarkedOnce(taken: set<nat>, start: nat, count: nat)
    requires taken !! Run(start, count)
    ensures |taken + Run(start, count)| == |taken| + count
  {
    RunSize(start, count);
  }

  /** Giving an allocation straight back restores bitmap and counter. */
  lemma AllocThenFree(s: PmmState, count: nat)
    requires s.Valid() && s.AllocPages(count).1 != 0
    ensures var (s', address) := s.AllocPages(count); s'.FreePages(address, count) == s
  {
    AllocIsFirstFit(s, count);
    var start := Frame(s.AllocPages(count).1);
    assert s.taken + Run(start, count) - Run(start, count) == s.taken;
  }

  /** Releasing keeps the counter in step with the bitmap exactly when every page released was marked. */
  lemma FreeKeepsDrift(s: PmmState, address: nat, count: nat)
    requires s.Valid()
    ensures s.FreePages(address, count).Valid()
    ensures Drift(s.FreePages(address, count)) == Drift(s)
       <==> forall p: nat :: Frame(address) <= p < Frame(address) + count && p < s.total ==> p in s.taken
  {
    var start, n := Frame(address), s.Existing(Frame(address), count);
    var run := Run(start, n);
    RunSize(start, n);
    CardinalityOfDifference(s.taken, run);
    if run <= s.taken {
      assert s.taken * run == run;
      forall p: nat | start <= p < start + count && p < s.total ensures p in s.taken {
        assert p in run;
      }
    } else {
      var p :| p in run && p !in s.taken;
      assert s.taken * run <= run - {p};
      SubsetSize(s.taken * run, run - {p});
    }
  }

  lemma CardinalityOfDifference(a: set<nat>, b: set<nat>)
    ensures |a - b| + |a * b| == |a|
  {
    assert (a - b) + (a * b) == a;
  }

  lemma {:induction false} SubsetSize(a: set<nat>, b: set<nat>)
    requires a <= b
    ensures |a| <= |b|
  {
    assert a + (b - a) == b;
  }

  // ---------------------------------------------------------------- runs

  /** A client's call, and the pages it holds. It may give back any run of pages it holds: a whole allocation, a part of
  one, or neighbours from several. */
  datatype PmmCall = Allocate(count: nat) | Release(start: nat, count: nat)

  datatype PmmClient = PmmClient(pmm: PmmState, held: set<nat>)

  ghost function PmmStep(c: PmmClient, call: PmmCall): PmmClient {
    match call
    case Allocate(count) =>
      var (pmm, address) := c.pmm.AllocPages(count);
      PmmClient(pmm, if address == 0 then c.held else c.held + Run(Frame(address), count))
    case Release(start, count) =>
      if Run(start, count) <= c.held then
        PmmClient(c.pmm.FreePages(start * 0x1000, count), c.held - Run(start, count))
      else
        c  // not a legal call: a client gives back only what it holds
  }

  ghost function PmmRun(c: PmmClient, calls: seq<PmmCall>): PmmClient {
    if calls == [] then c else PmmStep(PmmRun(c, calls[..|calls| - 1]), calls[|calls| - 1])
  }

  /** Relative to the state `s` in which the client held nothing: the pages marked are those marked then and, apart from
  them, those held; page 0 is never held. */
  ghost predicate PmmInv(s: PmmState, c: PmmClient) {
    && c.pmm.Valid() && c.pmm.entries == s.entries && c.pmm.total == s.total
    && Drift(c.pmm) == Drift(s)
    && c.pmm.taken == s.taken + c.held && s.taken !! c.held && 0 !in c.held
  }

  /** What a call does for the client: it gets `count` neighbouring pages that were free and that it did not hold,
  unless there are none; and it is rid of exactly the pages it gives back. */
  ghost predicate PmmServed(c: PmmClient, call: PmmCall, c': PmmClient) {
    match call
    case Allocate(count) =>
      if count == 0 || forall start: nat :: !c.pmm.FreeRun(start, count) then c' == c
      else exists start: nat :: c.pmm.FreeRun(start, count) && c'.held == c.held + Run(start, count)
                                && c.held !! Run(start, count) && |c'.held| == |c.held| + count
    case Release(start, count) =>
      if Run(start, count) <= c.held then
        c'.held == c.held - Run(start, count) && c'.pmm.taken == c.pmm.taken - Run(start, count)
      else
        c' == c
  }

  lemma PmmStepKeeps(s: PmmState, c: PmmClient, call: PmmCall)
    requires PmmInv(s, c)
    ensures PmmInv(s, PmmStep(c, call)) && PmmServed(c, call, PmmStep(c, call))
  {
    match call
    case Allocate(count) =>
      AllocIsFirstFit(c.pmm, count);
      var (pmm, address) := c.pmm.AllocPages(count);
      if address != 0 {
        HeldGrows(s, c, count, pmm, address);
      }
    case Release(start, count) =>
      if Run(start, count) <= c.held {
        HeldShrinks(s, c, start, count);
      }
  }

  lemma HeldGrows(s: PmmState, c: PmmClient, count: nat, pmm: PmmState, address: nat)
    requires PmmInv(s, c) && 0 < count && Granted(c.pmm, count, pmm, address)
    ensures PmmInv(s, PmmClient(pmm, c.held + Run(Frame(address), count)))
    ensures |c.held + Run(Frame(address), count)| == |c.held| + count
  {
    MarkedOnce(c.held, Frame(address), count);
  }

  lemma HeldShrinks(s: PmmState, c: PmmClient, start: nat, count: nat)
    requires PmmInv(s, c) && Run(start, count) <= c.held
    ensures PmmInv(s, PmmStep(c, Release(start, count)))
  {
    assert Frame(start * 0x1000) == start;
    FreeKeepsDrift(c.pmm, start * 0x1000, count);
    HeldExists(c.pmm, c.held, start, count);
  }

  /** The pages released exist, so all of them are cleared. */
  lemma HeldExists(s: PmmState, held: set<nat>, start: nat, count: nat)
    requires s.Valid() && held <= s.taken && Run(start, count) <= held
    ensures Run(start, s.Existing(start, count)) == Run(start, count)
  {
    if count != 0 {
      assert start + count - 1 in Run(start, count);
    }
  }

  /** Over any run of calls: what the client holds lies between page 1 and the end of memory, touches no page that was
  marked before (the bitmap's own pages and reserved regions among them), and the counter keeps its distance from the
  bitmap. Once everything is given back, in whatever pieces, the allocator is as it was. */
  lemma {:induction false} PmmRunSafe(s: PmmState, calls: seq<PmmCall>)
    requires s.Valid()
    ensures PmmInv(s, PmmRun(PmmClient(s, {}), calls))
    ensures var c := PmmRun(PmmClient(s, {}), calls); c.held == {} ==> c.pmm == s
    decreases |calls|
  {
    if calls != [] {
      var calls' := calls[..|calls| - 1];
      PmmRunSafe(s, calls');
      PmmStepKeeps(s, PmmRun(PmmClient(s, {}), calls'), calls[|calls| - 1]);
    }
    NothingHeld(s, PmmRun(PmmClient(s, {}), calls));
  }

  /** In every run each call is served, in the state that those before it left. */
  lemma PmmRunServes(s: PmmState, calls: seq<PmmCall>, k: nat)
    requires s.Valid() && k < |calls|
    ensures PmmServed(PmmRun(PmmClient(s, {}), calls[..k]), calls[k], PmmRun(PmmClient(s, {}), calls[..k + 1]))
  {
    PmmRunSafe(s, calls[..k]);
    PmmStepKeeps(s, PmmRun(PmmClient(s, {}), calls[..k]), calls[k]);
    assert calls[..k + 1][..k] == calls[..k];
  }

  lemma NothingHeld(s: PmmState, c: PmmClient)
    ensures PmmInv(s, c) && c.held == {} ==> c.pmm == s
  {
  }

  // ---------------------------------------------------------------- pmm_init

  /** The pages there are that a region meets. */
  function PagesOf(e: MemEntry, total: nat): set<nat> {
    set p: nat | p < total && e.Overlaps(p)
  }

  /** Marking a region counts each of those pages, marked before or not. */
  lemma MarkRangeCounts(s: PmmState, e: MemEntry)
    ensures MarkRange(s, FirstPage(e), LastPage(e)).used == s.used + |PagesOf(e, s.total)|
  {
    var first, last := FirstPage(e), LastPage(e);
    var n := s.Existing(first, if first <= last then last - first else 0);
    RunSize(first, n);
    assert Run(first, n) == PagesOf(e, s.total);
  }

  lemma MarkRangeMarks(s: PmmState, e: MemEntry, p: nat)
    requires p < s.total
    ensures p in MarkRange(s, FirstPage(e), LastPage(e)).taken <==> p in s.taken || e.Overlaps(p)
  {
  }

  ghost predicate Covered(regions: seq<MemEntry>, p: nat) {
    exists e :: e in regions && e.Overlaps(p)
  }

  /** No page that exists belongs, even in part, to two of the regions. */
  ghost predicate NoPageTwice(regions: seq<MemEntry>, total: nat) {
    forall i, j, p: nat :: 0 <= i < j < |regions| && p < total ==> !(regions[i].Overlaps(p) && regions[j].Overlaps(p))
  }

  lemma {:induction false} MarkRegionsMarks(s: PmmState, regions: seq<MemEntry>)
    requires s.taken == {}
    ensures MarkRegions(s, regions).(taken := {}, used := 0) == s.(used := 0)
    ensures forall p: nat :: p in MarkRegions(s, regions).taken <==> p < s.total && Covered(regions, p)
    decreases |regions|
  {
    if regions != [] {
      var before, e := regions[..|regions| - 1], regions[|regions| - 1];
      assert regions == before + [e];
      MarkRegionsMarks(s, before);
      forall p: nat ensures p in MarkRegions(s, regions).taken <==> p < s.total && Covered(regions, p) {
        if p < s.total {
          MarkRangeMarks(MarkRegions(s, before), e, p);
          if Covered(before, p) {
            var b :| b in before && b.Overlaps(p);
            assert b in regions;
          }
        }
      }
    }
  }

  lemma {:induction false} MarkRegionsDrift(s: PmmState, regions: seq<MemEntry>)
    requires s.taken == {} && s.used == 0
    ensures Drift(MarkRegions(s, regions)) >= 0
    ensures Drift(MarkRegions(s, regions)) == 0 <==> NoPageTwice(regions, s.total)
    decreases |regions|
  {
    if regions != [] {
      var before, e := regions[..|regions| - 1], regions[|regions| - 1];
      MarkRegionsDrift(s, before);
      OneRegionDrift(s, before, e);
      assert regions == before + [e];
    }
  }

  lemma OneRegionDrift(s: PmmState, before: seq<MemEntry>, e: MemEntry)
    requires s.taken == {}
    ensures Drift(MarkRegions(s, before + [e])) >= Drift(MarkRegions(s, before))
    ensures NoPageTwice(before + [e], s.total) <==>
      NoPageTwice(before, s.total) && Drift(MarkRegions(s, before + [e])) == Drift(MarkRegions(s, before))
  {
    var mid := MarkRegions(s, before);
    MarkRegionsAppend(s, before, e);
    MarkRegionsMarks(s, before);
    MarkRangeDrift(mid, e);
    NoPageTwiceAppend(before, e, s.total, mid.taken);
  }

  ghost predicate Misses(e: MemEntry, total: nat, marked: set<nat>) {
    forall p: nat :: p < total && e.Overlaps(p) ==> p !in marked
  }

  lemma NoPageTwiceAppend(before: seq<MemEntry>, e: MemEntry, total: nat, marked: set<nat>)
    requires forall p: nat :: p in marked <==> p < total && Covered(before, p)
    ensures NoPageTwice(before + [e], total) <==> NoPageTwice(before, total) && Misses(e, total, marked)
  {
    var regions := before + [e];
    if NoPageTwice(regions, total) {
      forall i, j, p: nat | 0 <= i < j < |before| && p < total
        ensures !(before[i].Overlaps(p) && before[j].Overlaps(p))
      {
        assert regions[i] == before[i] && regions[j] == before[j];
      }
      forall p: nat | p < total && e.Overlaps(p) ensures p !in marked {
        if b :| b in before && b.Overlaps(p) {
          var i :| 0 <= i < |before| && before[i] == b;
          assert regions[i].Overlaps(p) && regions[|before|].Overlaps(p);
        }
      }
    }
  }

  lemma MarkRangeDrift(s: PmmState, e: MemEntry)
    ensures Drift(MarkRange(s, FirstPage(e), LastPage(e))) >= Drift(s)
    ensures Drift(MarkRange(s, FirstPage(e), LastPage(e))) == Drift(s) <==> Misses(e, s.total, s.taken)
  {
    var first, last := FirstPage(e), LastPage(e);
    var n := s.Existing(first, if first <= last then last - first else 0);
    MarkedAgain(s.taken, first, n);
    forall p: nat ensures p in Run(first, n) <==> p < s.total && e.Overlaps(p) {
    }
  }

  lemma MarkedAgain(taken: set<nat>, start: nat, count: nat)
    ensures |taken + Run(start, count)| <= |taken| + count
    ensures |taken + Run(start, count)| == |taken| + count <==> forall p: nat :: p in Run(start, count) ==> p !in taken
  {
    var run := Run(start, count);
    RunSize(start, count);
    CardinalityOfDifference(run, taken);
    assert taken + run == taken + (run - taken);
    if p :| p in run && p in taken {
      assert p in run * taken;
    } else {
      assert run * taken == {};
    }
  }

  /** After boot a page is marked exactly when it meets an unusable region or the bitmap, and the counter equals the
  number of marked pages exactly when those regions share no page. */
  lemma BootClassifies(entries: seq<MemEntry>)
    requires Bootable(entries)
    ensures Boot(entries).Valid()
    ensures Boot(entries).entries == entries && Boot(entries).total == TotalPages(entries)
    ensures forall p: nat :: (p in Boot(entries).taken <==>
              p < TotalPages(entries) && (Covered(Unusable(entries), p) || BitmapRegion(entries).Overlaps(p)))
    ensures Drift(Boot(entries)) >= 0
    ensures Drift(Boot(entries)) == 0 <==> NoPageTwice(Unusable(entries) + [BitmapRegion(entries)], TotalPages(entries))
  {
    var regions := Unusable(entries) + [BitmapRegion(entries)];
    var s := PmmState(entries, TotalPages(entries), {}, 0);
    MarkRegionsMarks(s, regions);
    MarkRegionsDrift(s, regions);
    forall p: nat ensures Covered(regions, p) <==> Covered(Unusable(entries), p) || BitmapRegion(entries).Overlaps(p) {
      if Covered(Unusable(entries), p) {
        var e :| e in Unusable(entries) && e.Overlaps(p);
        assert e in regions;
      } else if BitmapRegion(entries).Overlaps(p) {
        assert BitmapRegion(entries) in regions;
      }
    }
  }

  lemma {:induction false} UnusableAre(entries: seq<MemEntry>, e: MemEntry)
    ensures e in Unusable(entries) <==> e in entries && !e.usable
    decreases |entries|
  {
    if entries != [] {
      var before, last := entries[..|entries| - 1], entries[|entries| - 1];
      assert entries == before + [last];
      UnusableAre(before, e);
    }
  }

  /** No page that can be handed out after boot has a byte of the bitmap or of an unusable region in it. */
  lemma BootReserves(entries: seq<MemEntry>, a: nat)
    requires Bootable(entries) && Boot(entries).Free(Frame(a))
    ensures !HasByte(BitmapRegion(entries), a)
    ensures forall u :: u in entries && !u.usable ==> !HasByte(u, a)
  {
    BootClassifies(entries);
    OverlapsIff(BitmapRegion(entries), Frame(a));
    forall u | u in entries && !u.usable ensures !HasByte(u, a) {
      UnusableAre(entries, u);
      OverlapsIff(u, Frame(a));
    }
  }

  /** Usable regions are made of whole pages and share no byte with an unusable one. */
  predicate PageAlignedMap(entries: seq<MemEntry>) {
    && (forall e :: e in entries && e.usable ==> e.base % 0x1000 == 0 && e.length % 0x1000 == 0)
    && (forall e, u :: e in entries && e.usable && u in entries && !u.usable ==>
          u.base + u.length <= e.base || e.base + e.length <= u.base)
  }

  /** Rounding reserved regions outwards never costs a usable page: outside the bitmap they all start free. */
  lemma UsablePagesStartFree(entries: seq<MemEntry>, p: nat)
    requires Bootable(entries) && PageAlignedMap(entries)
    requires 1 <= p && Boot(entries).Usable(p)
    ensures Boot(entries).Free(p) <==> !BitmapRegion(entries).Overlaps(p)
  {
    BootClassifies(entries);
    var e :| e in entries && e.usable && e.HoldsPage(p);
    UsablePage(entries, e, p);
  }

  /** A page of a usable region is managed and meets no unusable one. */
  lemma UsablePage(entries: seq<MemEntry>, e: MemEntry, p: nat)
    requires PageAlignedMap(entries) && e in entries && e.usable && e.HoldsPage(p)
    ensures p < TotalPages(entries) && !Covered(Unusable(entries), p)
  {
    EndsInPages(e, p);
    PagesManaged(entries, p);
    forall u | u in Unusable(entries) ensures !u.Overlaps(p) {
      UnusableAre(entries, u);
      ApartInPages(e, u, p);
    }
  }

  lemma EndsInPages(e: MemEntry, p: nat)
    requires e.base % 0x1000 == 0 && e.length % 0x1000 == 0 && e.HoldsPage(p)
    ensures (p + 1) * 0x1000 <= e.base + e.length
  {
    assert (e.base + e.length) % 0x1000 == 0;
  }

  lemma ApartInPages(e: MemEntry, u: MemEntry, p: nat)
    requires e.base % 0x1000 == 0 && e.length % 0x1000 == 0 && e.HoldsPage(p)
    requires u.base + u.length <= e.base || e.base + e.length <= u.base
    ensures !u.Overlaps(p)
  {
    assert (e.base + e.length) % 0x1000 == 0;
  }
}
