/** The heap's invariant, its accounting, and what whole runs of allocations and releases leave behind. */
module HeapProofs {
  import opened Words
  import opened HeapList

  // ---------------------------------------------------------------- rounding

  /** The payload handed out is at least what was asked for exactly when rounding up does not wrap around. */
  lemma RoundCovers(size: u64)
    ensures Round(size) % 8 == 0 && 32 <= Round(size)
    ensures size <= Round(size) <==> size <= 0xFFFF_FFFF_FFFF_FFF8
    ensures size <= 0xFFFF_FFFF_FFFF_FFF8 ==> Round(size) < size + 8 || Round(size) == 32
  {
    var up := Wrap(size + 7);
    assert (up - up % 8) % 8 == 0;
  }

  /** A request close to 2^64 wraps around and is granted 32 bytes. */
  lemma HugeRequestIsTiny()
    ensures Round(0xFFFF_FFFF_FFFF_FFF9) == 32
  {
  }

  // ---------------------------------------------------------------- allocation

  lemma TakeTiles(bs: seq<Block>, i: nat, n: nat)
    requires Tiles(bs) && i < |bs| && Fits(bs[i], n) && n % 8 == 0 && 32 <= n
    ensures Tiles(Take(bs, i, n))
  {
    var bs' := Take(bs, i, n);
    forall j | 0 <= j < |bs'| ensures BlockOk(bs', j) {
      assert BlockOk(bs, i);
      if j < i {
        assert BlockOk(bs, j);
      } else if |bs'| == |bs| {
        assert BlockOk(bs, j);
      } else if j > i + 1 {
        assert BlockOk(bs, j - 1);
      }
    }
  }

  /** No free block was next to the one taken, so the rest split off has none beside it either. */
  lemma TakeCoalesced(bs: seq<Block>, i: nat, n: nat)
    requires Coalesced(bs) && i < |bs| && Fits(bs[i], n)
    ensures Coalesced(Take(bs, i, n))
  {
    var bs' := Take(bs, i, n);
    assert !BothFree(bs, i);
    forall j: nat ensures !BothFree(bs', j) {
      if |bs'| == |bs| || j < i {
        assert !BothFree(bs, j);
      } else if j > i + 1 {
        assert !BothFree(bs, j - 1);
      }
    }
  }

  /** The block that `Take` puts in use. */
  function Taken(b: Block, n: nat): Block {
    Block(b.addr, if n + 40 <= b.size then n else b.size, true)
  }

  lemma TakeUses(bs: seq<Block>, i: nat, n: nat)
    requires i < |bs| && Fits(bs[i], n)
    ensures Used(Take(bs, i, n)) == Used(bs) + {Taken(bs[i], n)}
  {
    var bs' := Take(bs, i, n);
    assert bs'[i] == Taken(bs[i], n);
    forall b ensures b in Used(bs') <==> b in Used(bs) + {Taken(bs[i], n)} {
      if b in Used(bs) {
        var j :| 0 <= j < |bs| && bs[j] == b;
        assert b == if j < i || |bs'| == |bs| then bs'[j] else bs'[j + 1];
      }
      if b in Used(bs') {
        var j :| 0 <= j < |bs'| && bs'[j] == b;
        if j < i || (j > i && |bs'| == |bs|) {
          assert bs[j] == b;
        } else if j > i + 1 {
          assert bs[j - 1] == b;
        }
      }
    }
  }

  /** No free block reaches the size a request is rounded to. */
  ghost predicate NoneFits(bs: seq<Block>, size: u64) {
    forall i :: 0 <= i < |bs| ==> !Fits(bs[i], Round(size))
  }

  /** `kmalloc` fails, changing nothing, exactly when it is asked for 0 bytes or no free block reaches the rounded size.
  Otherwise it puts to use the first of the smallest blocks that do, and nothing else changes hands. */
  ghost predicate Allocated(bs: seq<Block>, size: u64, bs': seq<Block>, p: nat) {
    if p == 0 then bs' == bs && (size == 0 || NoneFits(bs, size))
    else
      exists i: nat ::
        && size != 0 && IsBest(bs, Round(size), i) && IsAt(bs, p, i)
        && Used(bs') == Used(bs) + {Taken(bs[i], Round(size))} && Taken(bs[i], Round(size)) !in Used(bs)
        && Cut(bs[i], Round(size), Taken(bs[i], Round(size)))
  }

  /** `c` is what a request for `n` bytes takes of the free block `b`: the whole block, or the beginning of it, with
  fewer than 40 bytes, which is a header and a payload, more than was asked for. */
  predicate Cut(b: Block, n: nat, c: Block) {
    c.used && c.addr == b.addr && (c.size == n || c.size == b.size) && n <= c.size < n + 40
  }

  lemma MallocIsBestFit(bs: seq<Block>, size: u64)
    requires Valid(bs)
    ensures var (bs', p) := Malloc(bs, size); Valid(bs') && Allocated(bs, size, bs', p)
  {
    var n := Round(size);
    RoundCovers(size);
    if size != 0 {
      if i: nat :| IsBest(bs, n, i) {
        BestFitIs(bs, n, i);
        TakeTiles(bs, i, n);
        TakeCoalesced(bs, i, n);
        TakeUses(bs, i, n);
        InHeap(bs, i);
        FreshlyUsed(bs, i, Taken(bs[i], n));
      } else {
        forall i | 0 <= i < |bs| ensures !Fits(bs[i], n) {
          if Fits(bs[i], n) {
            BestExists(bs, n, i);
          }
        }
      }
    }
  }

  lemma FreshlyUsed(bs: seq<Block>, i: nat, b: Block)
    requires Tiles(bs) && i < |bs| && !bs[i].used && b.used && b.addr == bs[i].addr
    ensures b !in Used(bs)
  {
    if j :| 0 <= j < |bs| && bs[j] == b {
      AddrUnique(bs, i, j);
    }
  }

  /** If some free block fits there is a best one. */
  lemma {:induction false} BestExists(bs: seq<Block>, n: nat, i: nat)
    requires i < |bs| && Fits(bs[i], n)
    ensures exists j: nat :: IsBest(bs, n, j)
    decreases bs[i].size, i
  {
    if j :| 0 <= j < |bs| && Fits(bs[j], n) && (bs[j].size < bs[i].size || (bs[j].size == bs[i].size && j < i)) {
      BestExists(bs, n, j);
    } else {
      assert IsBest(bs, n, i);
    }
  }

  // ---------------------------------------------------------------- release

  lemma MergeTiles(bs: seq<Block>, i: nat)
    requires Tiles(bs) && i + 1 < |bs| && !bs[i].used
    ensures Tiles(Merge(bs, i))
  {
    var bs' := Merge(bs, i);
    assert BlockOk(bs, i) && BlockOk(bs, i + 1);
    forall j | 0 <= j < |bs'| ensures BlockOk(bs', j) {
      if j < i {
        assert BlockOk(bs, j);
      } else if j > i {
        assert BlockOk(bs, j + 1);
      }
    }
  }

  /** Only block `i` may have a free neighbour without being in use itself. */
  ghost predicate CoalescedBut(bs: seq<Block>, i: nat) {
    forall j: nat :: j + 1 != i && j != i ==> !BothFree(bs, j)
  }

  lemma MergeUses(bs: seq<Block>, i: nat)
    requires i + 1 < |bs| && !bs[i].used && !bs[i + 1].used
    ensures Used(Merge(bs, i)) == Used(bs)
  {
    var bs' := Merge(bs, i);
    forall b ensures b in Used(bs') <==> b in Used(bs) {
      if b in Used(bs) {
        var j :| 0 <= j < |bs| && bs[j] == b;
        assert b == if j < i then bs'[j] else bs'[j - 1];
      }
      if b in Used(bs') {
        var j :| 0 <= j < |bs'| && bs'[j] == b;
        assert b == if j < i then bs[j] else bs[j + 1];
      }
    }
  }

  lemma MergeBack(bs: seq<Block>, i: nat)
    requires CoalescedBut(bs, i) && 0 < i < |bs| && !bs[i - 1].used && !bs[i].used
    ensures CoalescedBut(Merge(bs, i - 1), i - 1) && (i - 1 != 0 ==> Merge(bs, i - 1)[i - 2].used)
  {
    var bs' := Merge(bs, i - 1);
    forall j: nat | j + 1 != i - 1 && j != i - 1 ensures !BothFree(bs', j) {
      assert !BothFree(bs, if j < i then j else j + 1);
    }
    if i - 1 != 0 {
      assert !BothFree(bs, i - 2);
    }
  }

  lemma MergeForth(bs: seq<Block>, i: nat)
    requires CoalescedBut(bs, i) && i < |bs| && !bs[i].used && (i != 0 ==> bs[i - 1].used)
    ensures Coalesced(MergeNext(bs, i))
  {
    var bs' := MergeNext(bs, i);
    forall j: nat ensures !BothFree(bs', j) {
      if |bs'| == |bs| {
        assert j + 1 != i && j != i ==> !BothFree(bs, j);
      } else if j + 1 != i {
        assert !BothFree(bs, if j < i then j else j + 1);
      }
    }
  }

  lemma MergeNextKeeps(bs: seq<Block>, i: nat)
    requires Tiles(bs) && i < |bs| && !bs[i].used
    ensures Tiles(MergeNext(bs, i)) && Used(MergeNext(bs, i)) == Used(bs)
  {
    if i + 1 < |bs| && !bs[i + 1].used {
      MergeTiles(bs, i);
      MergeUses(bs, i);
    }
  }

  lemma UnmarkKeeps(bs: seq<Block>, i: nat)
    requires Valid(bs) && i < |bs| && bs[i].used
    ensures Tiles(Unmark(bs, i)) && CoalescedBut(Unmark(bs, i), i)
    ensures Used(Unmark(bs, i)) == Used(bs) - {bs[i]}
  {
    var bs' := Unmark(bs, i);
    forall j | 0 <= j < |bs'| ensures BlockOk(bs', j) {
      assert BlockOk(bs, j);
    }
    forall j: nat | j + 1 != i && j != i ensures !BothFree(bs', j) {
      assert !BothFree(bs, j);
    }
    forall b ensures b in Used(bs') <==> b in Used(bs) - {bs[i]} {
      if b in Used(bs) && b != bs[i] {
        var j :| 0 <= j < |bs| && bs[j] == b;
        assert bs'[j] == b;
      }
      if b in Used(bs') {
        var j :| 0 <= j < |bs'| && bs'[j] == b;
        assert bs[j] == b;
        if b == bs[i] {
          AddrUnique(bs, i, j);
        }
      }
    }
  }

  /** `kfree` of a block in use takes exactly that block out of use and keeps the heap coalesced. */
  lemma FreeAtKeeps(bs: seq<Block>, i: nat)
    requires Valid(bs) && i < |bs| && bs[i].used
    ensures Valid(FreeAt(bs, i)) && Used(FreeAt(bs, i)) == Used(bs) - {bs[i]}
  {
    var bs1 := Unmark(bs, i);
    UnmarkKeeps(bs, i);
    if i != 0 && !bs1[i - 1].used {
      MergeTiles(bs1, i - 1);
      MergeUses(bs1, i - 1);
      MergeBack(bs1, i);
      MergeNextKeeps(Merge(bs1, i - 1), i - 1);
      MergeForth(Merge(bs1, i - 1), i - 1);
    } else {
      MergeNextKeeps(bs1, i);
      MergeForth(bs1, i);
    }
  }

  /** Giving a block straight back restores the list exactly. */
  lemma MallocThenFree(bs: seq<Block>, size: u64)
    requires Valid(bs) && Malloc(bs, size).1 != 0
    ensures var (bs', p) := Malloc(bs, size); Live(bs', p) && Free(bs', p) == bs
  {
    MallocIsBestFit(bs, size);
    var (bs', p) := Malloc(bs, size);
    var i: nat :| IsBest(bs, Round(size), i) && IsAt(bs, p, i);
    BestFitIs(bs, Round(size), i);
    assert IsAt(bs', p, i) && bs'[i] == Taken(bs[i], Round(size));
    IndexIs(bs', p, i);
    FreeAtKeeps(bs', i);
    FreshlyUsed(bs, i, bs'[i]);
    assert Used(FreeAt(bs', i)) == Used(bs);
    Canonical(FreeAt(bs', i), bs);
  }

  // ---------------------------------------------------------------- accounting

  /** The payload bytes of the blocks in use, or of the free ones. */
  function Bytes(bs: seq<Block>, used: bool): nat {
    if bs == [] then 0
    else
      var b := bs[|bs| - 1];
      Bytes(bs[..|bs| - 1], used) + if b.used == used then b.size else 0
  }

  lemma {:induction false} BytesConcat(a: seq<Block>, b: seq<Block>, used: bool)
    ensures Bytes(a + b, used) == Bytes(a, used) + Bytes(b, used)
    decreases |b|
  {
    if b == [] {
      assert a + b == a;
    } else {
      assert (a + b)[..|a + b| - 1] == a + b[..|b| - 1];
      BytesConcat(a, b[..|b| - 1], used);
    }
  }

  lemma BytesAround(bs: seq<Block>, i: nat, k: nat, mid: seq<Block>, used: bool)
    requires i <= k <= |bs|
    ensures Bytes(bs[..i] + mid + bs[k..], used) == Bytes(bs, used) - Bytes(bs[i..k], used) + Bytes(mid, used)
  {
    BytesConcat(bs[..i] + mid, bs[k..], used);
    BytesConcat(bs[..i], mid, used);
    BytesConcat(bs[..i] + bs[i..k], bs[k..], used);
    BytesConcat(bs[..i], bs[i..k], used);
    assert bs == bs[..i] + bs[i..k] + bs[k..];
  }

  lemma BytesOne(b: Block, used: bool)
    ensures Bytes([b], used) == if b.used == used then b.size else 0
  {
    assert [b][..0] == [];
  }

  lemma BytesTwo(b: Block, c: Block, used: bool)
    ensures Bytes([b, c], used) == Bytes([b], used) + Bytes([c], used)
  {
    assert [b, c] == [b] + [c];
    BytesConcat([b], [c], used);
  }

  /** Headers and payloads add up to the heap. */
  lemma {:induction false} Accounted(bs: seq<Block>, k: nat)
    requires Tiles(bs) && 0 < k <= |bs|
    ensures Bytes(bs[..k], true) + Bytes(bs[..k], false) + 32 * k == NextAddr(bs, k - 1) - HEAP_START
    decreases k
  {
    assert BlockOk(bs, k - 1);
    assert bs[..k][..k - 1] == bs[..k - 1];
    if k == 1 {
      assert bs[..0] == [];
    } else {
      assert BlockOk(bs, k - 2);
      Accounted(bs, k - 1);
    }
  }

  lemma HeapAccounted(bs: seq<Block>)
    requires Tiles(bs)
    ensures Bytes(bs, true) + Bytes(bs, false) + 32 * |bs| == 0x10_0000
  {
    Accounted(bs, |bs|);
    assert bs[..|bs|] == bs;
  }

  lemma TakeBytes(bs: seq<Block>, i: nat, n: nat)
    requires i < |bs| && Fits(bs[i], n)
    ensures Bytes(Take(bs, i, n), true) == Bytes(bs, true) + Taken(bs[i], n).size
  {
    assert bs[i..i + 1] == [bs[i]];
    BytesOne(bs[i], true);
    BytesOne(Taken(bs[i], n), true);
    if n + 40 <= bs[i].size {
      SplitBytes(bs, i, n);
    } else {
      BytesAround(bs, i, i + 1, [Taken(bs[i], n)], true);
      assert Take(bs, i, n) == bs[..i] + [Taken(bs[i], n)] + bs[i + 1..];
    }
  }

  lemma SplitBytes(bs: seq<Block>, i: nat, n: nat)
    requires i < |bs| && !bs[i].used && n + 40 <= bs[i].size
    ensures Bytes(Take(bs, i, n), true) == Bytes(bs, true) + n
  {
    var t := Block(bs[i].addr, n, true);
    var rest := Block(bs[i].addr + 32 + n, bs[i].size - n - 32, false);
    assert bs[i..i + 1] == [bs[i]];
    BytesOne(bs[i], true);
    BytesOne(t, true);
    BytesOne(rest, true);
    BytesTwo(t, rest, true);
    BytesAround(bs, i, i + 1, [t, rest], true);
  }

  lemma MergeBytes(bs: seq<Block>, i: nat)
    requires i + 1 < |bs| && !bs[i].used && !bs[i + 1].used
    ensures Bytes(Merge(bs, i), true) == Bytes(bs, true)
  {
    var b := bs[i].(size := bs[i].size + bs[i + 1].size + 32);
    assert bs[i..i + 2] == [bs[i], bs[i + 1]];
    BytesTwo(bs[i], bs[i + 1], true);
    BytesOne(bs[i], true);
    BytesOne(bs[i + 1], true);
    BytesOne(b, true);
    BytesAround(bs, i, i + 2, [b], true);
  }

  lemma UnmarkBytes(bs: seq<Block>, i: nat)
    requires i < |bs| && bs[i].used
    ensures Bytes(Unmark(bs, i), true) == Bytes(bs, true) - bs[i].size
  {
    assert bs[i..i + 1] == [bs[i]];
    BytesOne(bs[i], true);
    BytesOne(bs[i].(used := false), true);
    BytesAround(bs, i, i + 1, [bs[i].(used := false)], true);
    assert Unmark(bs, i) == bs[..i] + [bs[i].(used := false)] + bs[i + 1..];
  }

  lemma FreeAtBytes(bs: seq<Block>, i: nat)
    requires i < |bs| && bs[i].used
    ensures Bytes(FreeAt(bs, i), true) == Bytes(bs, true) - bs[i].size
  {
    var bs1 := Unmark(bs, i);
    UnmarkBytes(bs, i);
    var back := i != 0 && !bs1[i - 1].used;
    var bs2, j := if back then Merge(bs1, i - 1) else bs1, if back then i - 1 else i;
    if back {
      MergeBytes(bs1, i - 1);
    }
    if j + 1 < |bs2| && !bs2[j + 1].used {
      MergeBytes(bs2, j);
    }
  }

  // ---------------------------------------------------------------- payloads

  /** Every payload in use is 8-aligned, inside the heap, and clear of every other block, header and payload. */
  lemma PayloadsApart(bs: seq<Block>, b: Block, i: nat)
    requires Tiles(bs) && b in Used(bs) && i < |bs|
    ensures HEAP_START + 32 <= b.Payload() && b.End() <= HEAP_END && b.Payload() % 8 == 0
    ensures bs[i] == b || bs[i].End() <= b.addr || b.End() <= bs[i].addr
  {
    var j :| 0 <= j < |bs| && bs[j] == b;
    InHeap(bs, j);
    if i < j {
      Ordered(bs, i, j);
    } else if j < i {
      Ordered(bs, j, i);
    }
  }

  lemma UsedApart(bs: seq<Block>, b: Block, c: Block)
    requires Tiles(bs) && b in Used(bs) && c in Used(bs) && b != c
    ensures b.End() <= c.addr || c.End() <= b.addr
  {
    var i :| 0 <= i < |bs| && bs[i] == c;
    PayloadsApart(bs, b, i);
  }

  /** The block comes from the best one there was. */
  ghost predicate TakenFrom(bs: seq<Block>, size: u64, c: Block) {
    exists i: nat :: IsBest(bs, Round(size), i) && c == Taken(bs[i], Round(size))
  }

  /** The block a successful allocation put in use. */
  lemma NewBlock(bs: seq<Block>, size: u64, bs': seq<Block>, q: nat) returns (c: Block)
    requires Valid(bs) && (bs', q) == Malloc(bs, size) && q != 0
    ensures c in Used(bs') && c !in Used(bs) && Used(bs') == Used(bs) + {c} && c.Payload() == q
    ensures Round(size) <= c.size < Round(size) + 40
    ensures TakenFrom(bs, size, c)
  {
    MallocIsBestFit(bs, size);
    var i: nat :| && size != 0 && IsBest(bs, Round(size), i) && IsAt(bs, q, i)
      && Used(bs') == Used(bs) + {Taken(bs[i], Round(size))} && Taken(bs[i], Round(size)) !in Used(bs)
      && Cut(bs[i], Round(size), Taken(bs[i], Round(size)));
    c := Taken(bs[i], Round(size));
  }

  lemma UsedLive(bs: seq<Block>, b: Block)
    requires Tiles(bs) && b in Used(bs)
    ensures Live(bs, b.Payload()) && bs[Index(bs, b.Payload())] == b
  {
    var i :| 0 <= i < |bs| && bs[i] == b;
    IndexIs(bs, b.Payload(), i);
  }

  // ---------------------------------------------------------------- reallocation

  /** The old payload of `b`, which `krealloc` copies whole, fits the block that a request of `size` bytes would be
  granted: rounding does not wrap around, or what is left of the best block is large enough all the same. */
  ghost predicate CopyFits(bs: seq<Block>, b: Block, size: u64) {
    || size <= 0xFFFF_FFFF_FFFF_FFF8
    || forall i: nat :: IsBest(bs, Round(size), i) ==> b.size <= Taken(bs[i], Round(size)).size
  }

  /** What a caller of `krealloc` owes: a null pointer or a live one, and a copy that does not overrun the new block. */
  ghost predicate CanRealloc(bs: seq<Block>, p: nat, size: u64) {
    p == 0 || (Live(bs, p) && CopyFits(bs, bs[Index(bs, p)], size))
  }

  /** What `krealloc` does with a live block: keeps it if it is large enough, else, unless no free block is, replaces it
  by one with room for its payload and for the request; then everything stays as it was. */
  ghost predicate Reallocated(bs: seq<Block>, p: nat, size: u64, bs': seq<Block>, q: nat)
    requires Live(bs, p)
  {
    var b := bs[Index(bs, p)];
    if size == 0 then q == 0 && Used(bs') == Used(bs) - {b}
    else if size <= b.size then q == p && bs' == bs
    else if NoneFits(bs, size) then q == 0 && bs' == bs
    else exists c: Block :: Replaced(bs, b, bs', c) && c.Payload() == q != 0 && HasRoom(b, size, c)
  }

  predicate Replaced(bs: seq<Block>, b: Block, bs': seq<Block>, c: Block) {
    c !in Used(bs) && c.used && Used(bs') == Used(bs) + {c} - {b}
  }

  /** Room for the old payload, and for the request unless rounding it wraps around. */
  predicate HasRoom(b: Block, size: u64, c: Block) {
    b.size <= c.size && (size <= 0xFFFF_FFFF_FFFF_FFF8 ==> size <= c.size)
  }

  lemma RoomToCopy(bs: seq<Block>, b: Block, size: u64, c: Block)
    requires b.size < size && CopyFits(bs, b, size) && TakenFrom(bs, size, c) && Round(size) <= c.size
    ensures HasRoom(b, size, c)
  {
    RoundCovers(size);
  }

  lemma StillLive(bs: seq<Block>, bs': seq<Block>, p: nat)
    requires Tiles(bs') && Live(bs, p) && bs[Index(bs, p)] in Used(bs')
    ensures Live(bs', p) && bs'[Index(bs', p)] == bs[Index(bs, p)]
  {
    var b := bs[Index(bs, p)];
    var j :| 0 <= j < |bs'| && bs'[j] == b;
    IndexIs(bs', p, j);
  }

  lemma ReallocKeeps(bs: seq<Block>, p: nat, size: u64)
    requires Valid(bs) && Live(bs, p) && CopyFits(bs, bs[Index(bs, p)], size)
    ensures var (bs', q) := Realloc(bs, p, size); Valid(bs') && Reallocated(bs, p, size, bs', q)
  {
    var i := Index(bs, p);
    InHeap(bs, i);
    if size == 0 {
      FreeAtKeeps(bs, i);
    } else if bs[i].size < size {
      MallocIsBestFit(bs, size);
      var (bs1, q) := Malloc(bs, size);
      if q != 0 {
        ReallocMoves(bs, p, size, bs1, q);
      }
    }
  }

  lemma ReallocMoves(bs: seq<Block>, p: nat, size: u64, bs1: seq<Block>, q: nat)
    requires Valid(bs) && Live(bs, p) && (bs1, q) == Malloc(bs, size) && q != 0
    requires bs[Index(bs, p)].size < size && CopyFits(bs, bs[Index(bs, p)], size)
    ensures Live(bs1, p) && Valid(Free(bs1, p))
    ensures var b := bs[Index(bs, p)];
      exists c: Block :: Replaced(bs, b, Free(bs1, p), c) && c.Payload() == q && HasRoom(b, size, c)
  {
    var b := bs[Index(bs, p)];
    MallocIsBestFit(bs, size);
    var c := NewBlock(bs, size, bs1, q);
    RoomToCopy(bs, b, size, c);
    StillLive(bs, bs1, p);
    FreeAtKeeps(bs1, Index(bs1, p));
    assert Replaced(bs, b, Free(bs1, p), c);
  }

  // ---------------------------------------------------------------- runs

  datatype HeapCall = MallocCall(size: u64) | FreeCall(p: nat) | ReallocCall(p: nat, size: u64)

  /** Releasing and reallocating take a null pointer or a live one; growing must not overrun the block it grows into. */
  ghost predicate HeapLegal(bs: seq<Block>, call: HeapCall) {
    match call
    case MallocCall(_) => true
    case FreeCall(p) => p == 0 || Live(bs, p)
    case ReallocCall(p, size) => CanRealloc(bs, p, size)
  }

  /** Calls that are not legal are no part of a run. */
  ghost function HeapStep(bs: seq<Block>, call: HeapCall): seq<Block> {
    if !HeapLegal(bs, call) then bs
    else
      match call
      case MallocCall(size) => Malloc(bs, size).0
      case FreeCall(p) => Free(bs, p)
      case ReallocCall(p, size) => Realloc(bs, p, size).0
  }

  ghost function HeapRun(bs: seq<Block>, calls: seq<HeapCall>): seq<Block> {
    if calls == [] then bs else HeapStep(HeapRun(bs, calls[..|calls| - 1]), calls[|calls| - 1])
  }

  /** The heap as `heap_init` leaves it: one free block. */
  function InitialBlocks(): seq<Block> {
    [Block(HEAP_START, 0x10_0000 - 32, false)]
  }

  lemma InitialIsValid()
    ensures Valid(InitialBlocks()) && Used(InitialBlocks()) == {}
  {
    assert BlockOk(InitialBlocks(), 0);
  }

  /** What a call does: it puts a block in use where there is one to be had, takes a block out of use, or replaces
  it. */
  ghost predicate HeapServed(bs: seq<Block>, call: HeapCall, bs': seq<Block>) {
    match call
    case MallocCall(size) => exists q: nat :: Allocated(bs, size, bs', q)
    case FreeCall(p) => if p == 0 then bs' == bs else Live(bs, p) && Used(bs') == Used(bs) - {bs[Index(bs, p)]}
    case ReallocCall(p, size) =>
      if p == 0 then exists q: nat :: Allocated(bs, size, bs', q)
      else Live(bs, p) && exists q: nat :: Reallocated(bs, p, size, bs', q)
  }

  lemma HeapStepKeeps(bs: seq<Block>, call: HeapCall)
    requires Valid(bs)
    ensures Valid(HeapStep(bs, call))
    ensures if HeapLegal(bs, call) then HeapServed(bs, call, HeapStep(bs, call)) else HeapStep(bs, call) == bs
  {
    match call
    case MallocCall(size) =>
      MallocIsBestFit(bs, size);
      assert Allocated(bs, size, Malloc(bs, size).0, Malloc(bs, size).1);
    case FreeCall(p) =>
      if Live(bs, p) {
        FreeAtKeeps(bs, Index(bs, p));
      }
    case ReallocCall(p, size) =>
      if p == 0 {
        MallocIsBestFit(bs, size);
        assert Allocated(bs, size, Malloc(bs, size).0, Malloc(bs, size).1);
      } else if CanRealloc(bs, p, size) {
        ReallocKeeps(bs, p, size);
        assert Reallocated(bs, p, size, Realloc(bs, p, size).0, Realloc(bs, p, size).1);
      }
  }

  /** Over any run of legal calls the blocks tile the heap, aligned and coalesced. Whenever the blocks in use are those
  there were at some earlier point, the whole list is what it was then; with nothing in use it is one free block
  again. */
  lemma {:induction false} HeapRunSafe(calls: seq<HeapCall>)
    ensures Valid(HeapRun(InitialBlocks(), calls))
    ensures forall k :: 0 <= k <= |calls| ==>
      Used(HeapRun(InitialBlocks(), calls)) == Used(HeapRun(InitialBlocks(), calls[..k])) ==>
        HeapRun(InitialBlocks(), calls) == HeapRun(InitialBlocks(), calls[..k])
    ensures Used(HeapRun(InitialBlocks(), calls)) == {} ==> HeapRun(InitialBlocks(), calls) == InitialBlocks()
  {
    InitialIsValid();
    HeapRunValid(calls);
    var bs := HeapRun(InitialBlocks(), calls);
    forall k | 0 <= k <= |calls| && Used(bs) == Used(HeapRun(InitialBlocks(), calls[..k]))
      ensures bs == HeapRun(InitialBlocks(), calls[..k])
    {
      HeapRunValid(calls[..k]);
      Canonical(bs, HeapRun(InitialBlocks(), calls[..k]));
    }
    if Used(bs) == {} {
      Canonical(bs, InitialBlocks());
    }
  }

  lemma {:induction false} HeapRunValid(calls: seq<HeapCall>)
    ensures Valid(HeapRun(InitialBlocks(), calls))
    decreases |calls|
  {
    if calls == [] {
      InitialIsValid();
    } else {
      HeapRunValid(calls[..|calls| - 1]);
      HeapStepKeeps(HeapRun(InitialBlocks(), calls[..|calls| - 1]), calls[|calls| - 1]);
    }
  }

  /** In every run each legal call is served, in the state that those before it left, and every other ignored. */
  lemma HeapRunServes(calls: seq<HeapCall>, k: nat)
    requires k < |calls|
    ensures var bs, bs' := HeapRun(InitialBlocks(), calls[..k]), HeapRun(InitialBlocks(), calls[..k + 1]);
      if HeapLegal(bs, calls[k]) then HeapServed(bs, calls[k], bs') else bs' == bs
  {
    HeapRunValid(calls[..k]);
    HeapStepKeeps(HeapRun(InitialBlocks(), calls[..k]), calls[k]);
    assert calls[..k + 1][..k] == calls[..k];
  }
}
