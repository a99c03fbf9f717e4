/** The kernel heap of kernel/src/memory/heap.c seen as the list of its blocks in address order.

`Malloc`, `FreeAt` and `Realloc` say what `kmalloc`, `kfree` and `krealloc` do to the list; `Valid` is the invariant,
and `Canonical` the fact that makes coalescing complete: the blocks in use determine the whole list. */
module HeapList {
  import opened Words
  import opened PhysicalMemory

  const HEAP_START: nat := 0xFFFF_FFFF_9000_0000
  const HEAP_END: nat := 0xFFFF_FFFF_9010_0000  // HEAP_START + HEAP_INITIAL_SIZE

  /** A block header at `addr`, 32 bytes, followed by a payload of `size` bytes. */
  datatype Block = Block(addr: nat, size: nat, used: bool) {
    function End(): nat { addr + 32 + size }
    function Payload(): nat { addr + 32 }
  }

  /** Where the block after block `i` begins, or the heap ends. */
  function NextAddr(bs: seq<Block>, i: nat): nat {
    if i + 1 < |bs| then bs[i + 1].addr else HEAP_END
  }

  predicate BlockOk(bs: seq<Block>, i: nat)
    requires i < |bs|
  {
    bs[i].End() == NextAddr(bs, i) && bs[i].size % 8 == 0 && 8 <= bs[i].size && (bs[i].used ==> 32 <= bs[i].size)
  }

  /** The blocks tile the heap. */
  ghost predicate Tiles(bs: seq<Block>) {
    && 0 < |bs| && bs[0].addr == HEAP_START
    && forall i :: 0 <= i < |bs| ==> BlockOk(bs, i)
  }

  predicate BothFree(bs: seq<Block>, i: nat) {
    i + 1 < |bs| && !bs[i].used && !bs[i + 1].used
  }

  ghost predicate Coalesced(bs: seq<Block>) {
    forall i: nat :: !BothFree(bs, i)
  }

  ghost predicate Valid(bs: seq<Block>) {
    Tiles(bs) && Coalesced(bs)
  }

  function Used(bs: seq<Block>): set<Block> {
    set b | b in bs && b.used
  }

  /** Later blocks lie behind earlier ones. */
  lemma {:induction false} Ordered(bs: seq<Block>, i: nat, j: nat)
    requires Tiles(bs) && i < j < |bs|
    ensures bs[i].End() <= bs[j].addr && bs[j].End() <= HEAP_END && HEAP_START <= bs[i].addr && bs[i].addr % 8 == 0
    decreases j
  {
    assert BlockOk(bs, j - 1) && BlockOk(bs, i) && BlockOk(bs, j);
    InHeap(bs, i);
    InHeap(bs, j);
    if i < j - 1 {
      Ordered(bs, i, j - 1);
    }
  }

  lemma {:induction false} InHeap(bs: seq<Block>, i: nat)
    requires Tiles(bs) && i < |bs|
    ensures HEAP_START <= bs[i].addr && bs[i].End() <= HEAP_END && bs[i].addr % 8 == 0
    decreases i
  {
    assert BlockOk(bs, i);
    if i != 0 {
      assert BlockOk(bs, i - 1);
      InHeap(bs, i - 1);
    }
    EndInHeap(bs, i);
  }

  lemma {:induction false} EndInHeap(bs: seq<Block>, i: nat)
    requires Tiles(bs) && i < |bs|
    ensures bs[i].End() <= HEAP_END
    decreases |bs| - i
  {
    assert BlockOk(bs, i);
    if i + 1 < |bs| {
      EndInHeap(bs, i + 1);
    }
  }

  /** Blocks are told apart by their addresses. */
  lemma AddrUnique(bs: seq<Block>, i: nat, j: nat)
    requires Tiles(bs) && i < |bs| && j < |bs| && bs[i].addr == bs[j].addr
    ensures i == j
  {
    if i < j {
      Ordered(bs, i, j);
    } else if j < i {
      Ordered(bs, j, i);
    }
  }

  // ---------------------------------------------------------------- the canonical form

  /** A block of `b` in use that begins inside the first `k + 1` blocks' extent is one of them. */
  lemma FoundAt(bs: seq<Block>, x: Block, k: nat)
    requires Tiles(bs) && k < |bs| && x in bs && bs[k].addr <= x.addr < bs[k].End()
    ensures x == bs[k]
  {
    var j :| 0 <= j < |bs| && bs[j] == x;
    if j < k {
      Ordered(bs, j, k);
    } else if k < j {
      Ordered(bs, k, j);
    }
  }

  lemma NotShorter(a: seq<Block>, b: seq<Block>, k: nat)
    requires Valid(a) && Valid(b) && Used(a) == Used(b)
    requires k < |a| && k < |b| && a[k].addr == b[k].addr && !a[k].used && !b[k].used
    ensures b[k].size <= a[k].size
  {
    if a[k].size < b[k].size {
      assert BlockOk(a, k);
      InHeap(b, k);
      assert !BothFree(a, k);
      assert a[k + 1] in Used(a);
      FoundAt(b, a[k + 1], k);
      assert false;
    }
  }

  lemma SameBlock(a: seq<Block>, b: seq<Block>, k: nat)
    requires Valid(a) && Valid(b) && Used(a) == Used(b)
    requires k < |a| && k < |b| && a[k].addr == b[k].addr
    ensures a[k] == b[k]
  {
    if a[k].used {
      assert a[k] in Used(a);
      FoundAt(b, a[k], k);
    } else if b[k].used {
      assert b[k] in Used(b);
      FoundAt(a, b[k], k);
    } else {
      NotShorter(a, b, k);
      NotShorter(b, a, k);
    }
  }

  lemma {:induction false} SamePrefix(a: seq<Block>, b: seq<Block>, k: nat)
    requires Valid(a) && Valid(b) && Used(a) == Used(b) && k <= |a| && k <= |b|
    ensures a[..k] == b[..k]
    decreases k
  {
    if k != 0 {
      SamePrefix(a, b, k - 1);
      if k != 1 {
        assert BlockOk(a, k - 2) && BlockOk(b, k - 2);
        assert a[..k - 1][k - 2] == b[..k - 1][k - 2];
      }
      SameBlock(a, b, k - 1);
      assert a[..k] == a[..k - 1] + [a[k - 1]] && b[..k] == b[..k - 1] + [b[k - 1]];
    }
  }

  lemma SameLength(a: seq<Block>, b: seq<Block>)
    requires Valid(a) && Valid(b) && Used(a) == Used(b)
    ensures |a| <= |b|
  {
    if |b| < |a| {
      var k := |b|;
      SamePrefix(a, b, k);
      assert a[..k][k - 1] == b[..k][k - 1];
      assert BlockOk(a, k - 1) && BlockOk(b, k - 1);
      InHeap(a, k);
      assert false;
    }
  }

  /** The blocks in use determine the whole list: the heap keeps no trace of how it came about. */
  lemma Canonical(a: seq<Block>, b: seq<Block>)
    requires Valid(a) && Valid(b) && Used(a) == Used(b)
    ensures a == b
  {
    SameLength(a, b);
    SameLength(b, a);
    SamePrefix(a, b, |a|);
    assert a[..|a|] == a && b[..|b|] == b;
  }

  // ---------------------------------------------------------------- allocation

  /** `(size + 7) & ~7`, at least a header, in 64-bit arithmetic. */
  function Round(size: u64): nat {
    var up := Wrap(size + 7);
    var aligned := up - up % 8;
    if aligned < 32 then 32 else aligned
  }

  predicate Fits(b: Block, n: nat) {
    !b.used && n <= b.size
  }

  /** Block `i` is the first of the smallest free blocks that fit. */
  ghost predicate IsBest(bs: seq<Block>, n: nat, i: nat) {
    && i < |bs| && Fits(bs[i], n)
    && forall j :: 0 <= j < |bs| && Fits(bs[j], n) ==>
         bs[i].size < bs[j].size || (bs[i].size == bs[j].size && i <= j)
  }

  ghost function BestFit(bs: seq<Block>, n: nat): Option<nat> {
    if exists i: nat :: IsBest(bs, n, i) then
      var i: nat :| IsBest(bs, n, i);
      Some(i)
    else
      None
  }

  lemma BestFitIs(bs: seq<Block>, n: nat, i: nat)
    requires IsBest(bs, n, i)
    ensures BestFit(bs, n) == Some(i)
  {
    var j := BestFit(bs, n).value;
    assert IsBest(bs, n, j);
  }

  /** Turn free block `i` into one in use of `n` bytes, splitting off the rest if it can hold a block. */
  function Take(bs: seq<Block>, i: nat, n: nat): seq<Block>
    requires i < |bs| && n <= bs[i].size
  {
    var b := bs[i];
    if n + 40 <= b.size then
      bs[..i] + [Block(b.addr, n, true), Block(b.addr + 32 + n, b.size - n - 32, false)] + bs[i + 1..]
    else
      bs[i := b.(used := true)]
  }

  /** `kmalloc`: the list and the pointer, 0 for failure. */
  ghost function Malloc(bs: seq<Block>, size: u64): (seq<Block>, nat) {
    if size == 0 then (bs, 0)
    else
      match BestFit(bs, Round(size))
      case None => (bs, 0)
      case Some(i) => (Take(bs, i, Round(size)), bs[i].Payload())
  }

  // ---------------------------------------------------------------- release

  /** Block `i` absorbs block `i + 1`. */
  function Merge(bs: seq<Block>, i: nat): seq<Block>
    requires i + 1 < |bs|
  {
    bs[..i] + [bs[i].(size := bs[i].size + bs[i + 1].size + 32)] + bs[i + 2..]
  }

  /** Mark block `i` free. */
  function Unmark(bs: seq<Block>, i: nat): seq<Block>
    requires i < |bs|
  {
    bs[i := bs[i].(used := false)]
  }

  /** `kfree` of block `i` in use: merge backwards, then forwards. */
  function FreeAt(bs: seq<Block>, i: nat): seq<Block>
    requires i < |bs|
  {
    var bs1 := Unmark(bs, i);
    if i != 0 && !bs1[i - 1].used then MergeNext(Merge(bs1, i - 1), i - 1) else MergeNext(bs1, i)
  }

  function MergeNext(bs: seq<Block>, i: nat): seq<Block> {
    if i + 1 < |bs| && !bs[i + 1].used then Merge(bs, i) else bs
  }

  /** Block `i` is the one whose payload `p` points to. */
  predicate IsAt(bs: seq<Block>, p: nat, i: nat) {
    i < |bs| && bs[i].Payload() == p
  }

  /** `p` was handed out and not given back. */
  ghost predicate Live(bs: seq<Block>, p: nat) {
    exists i: nat :: IsAt(bs, p, i) && bs[i].used
  }

  ghost function Index(bs: seq<Block>, p: nat): (i: nat)
    requires Live(bs, p)
    ensures IsAt(bs, p, i) && bs[i].used
  {
    var i: nat :| IsAt(bs, p, i) && bs[i].used; i
  }

  lemma IndexIs(bs: seq<Block>, p: nat, i: nat)
    requires Tiles(bs) && IsAt(bs, p, i) && bs[i].used
    ensures Live(bs, p) && Index(bs, p) == i
  {
    AddrUnique(bs, Index(bs, p), i);
  }

  /** `kfree`. A pointer to no block in use is reported, if at all, and ignored. */
  ghost function Free(bs: seq<Block>, p: nat): seq<Block> {
    if Live(bs, p) then FreeAt(bs, Index(bs, p)) else bs
  }

  /** `krealloc` of a null or live pointer. */
  ghost function Realloc(bs: seq<Block>, p: nat, size: u64): (seq<Block>, nat) {
    if p == 0 then Malloc(bs, size)
    else if size == 0 then (Free(bs, p), 0)
    else if !Live(bs, p) || size <= bs[Index(bs, p)].size then (bs, p)
    else
      var (bs', q) := Malloc(bs, size);
      if q == 0 then (bs', 0) else (Free(bs', p), q)
  }
}
