/** The heap of kernel/src/memory/heap.c: its counters, and the functions that walk and relink the block headers. */
module KernelHeap {
  import opened Words
  import opened HeapList
  import opened HeapProofs
  import opened HeapMemory

  class Heap {
    var memory: Memory      // the words of the mapped heap pages
    var firstBlock: nat
    var totalSize: nat
    var usedSize: nat
    var blockCount: nat
    ghost var blocks: seq<Block>

    /** The headers in memory are the list, and the counters count it. */
    ghost predicate Linked()
      reads this
    {
      && Mapped(memory) && Tiles(blocks) && Represents(memory, blocks)
      && firstBlock == HEAP_START && totalSize == 0x10_0000
      && usedSize == Bytes(blocks, true) && blockCount == |blocks|
    }

    ghost predicate Valid()
      reads this
    {
      Linked() && Coalesced(blocks)
    }

    /** The end of `heap_init`, once the heap's pages are mapped. */
    constructor (words: Memory)
      requires Mapped(words)
      ensures Valid() && blocks == InitialBlocks()
    {
      var a := HEAP_START;
      assert InHeapWords(a + 8);
      memory := words[a := 0x10_0000 - 32][a + 8 := WithFlag(words[a + 8], false)][a + 16 := 0][a + 24 := 0];
      firstBlock, totalSize, usedSize, blockCount := a, 0x10_0000, 0, 1;
      blocks := InitialBlocks();
      new;
      InitialIsValid();
      BytesOne(blocks[0], true);
    }

    /** The words of a header in the heap can be read and written. */
    lemma HeaderInMemory(i: nat)
      requires HeapList.Tiles(blocks) && Represents(memory, blocks) && i < |blocks|
      ensures var a := blocks[i].addr;
        HEAP_START <= a && {a, a + 8, a + 16, a + 24} <= memory.Keys && HeaderOk(memory, blocks, i)
      ensures (NextPtr(blocks, i) == 0 <==> i + 1 == |blocks|) && (PrevPtr(blocks, i) == 0 <==> i == 0)
    {
      InHeap(blocks, i);
      assert HeaderOk(memory, blocks, i);
      if i + 1 < |blocks| {
        InHeap(blocks, i + 1);
      }
      if i != 0 {
        InHeap(blocks, i - 1);
      }
    }

    /** `find_free_block`: the address of the best block, 0 for none. */
    method FindFreeBlock(size: nat) returns (best: nat)
      requires Valid()
      ensures match BestFit(blocks, size)
        case None => best == 0
        case Some(i) => IsBest(blocks, size, i) && best == blocks[i].addr && best != 0
    {
      var current := firstBlock;
      best := 0;
      ghost var k: nat, b: nat := 0, 0;
      while current != 0
        invariant k <= |blocks| && current == if k < |blocks| then blocks[k].addr else 0
        invariant current == 0 <==> k == |blocks|
        invariant best == 0 ==> forall j :: 0 <= j < k ==> !Fits(blocks[j], size)
        invariant best != 0 ==> b < k && IsBest(blocks[..k], size, b) && best == blocks[b].addr
        decreases |blocks| - k
      {
        HeaderInMemory(k);
        if !FlagSet(memory[current + 8]) && memory[current] >= size {
          if best != 0 {
            HeaderInMemory(b);
          }
          if best == 0 || memory[current] < memory[best] {
            best, b := current, k;
          }
        }
        current, k := memory[current + 16], k + 1;
        if k < |blocks| {
          HeaderInMemory(k);
        }
      }
      if best != 0 {
        assert blocks[..k] == blocks;
        BestFitIs(blocks, size, b);
      }
    }

    /** `kmalloc`. */
    method Kmalloc(size: u64) returns (p: nat)
      requires Valid()
      modifies this
      ensures Valid() && (blocks, p) == Malloc(old(blocks), size)
      ensures KeepsPayloads(Used(old(blocks)), old(memory), memory)
    {
      if size == 0 {
        return 0;
      }
      var n := Wrap(size + 7);
      n := n - n % 8;
      if n < 32 {
        n := 32;
      }
      var block := FindFreeBlock(n);
      if block == 0 {
        return 0;
      }
      ghost var i := BestFit(blocks, n).value;
      RoundCovers(size);
      TakeBlock(i, block, n);
      return block + 32;
    }

    /** What a caller of `kfree` owes: a null pointer, a live one, or one whose header reads as not in use, as that of
    a block just released does. */
    ghost predicate MayFree(p: nat)
      reads this
    {
      p == 0 || (32 <= p && p - 24 in memory && (FlagSet(memory[p - 24]) ==> Live(blocks, p)))
    }

    /** `kfree`. What is released reads as not in use, so releasing it once more at once does nothing. */
    method Kfree(p: nat)
      requires Valid() && MayFree(p)
      modifies this
      ensures Valid() && blocks == Free(old(blocks), p)
      ensures KeepsPayloads(Used(blocks), old(memory), memory)
      ensures !old(Live(blocks, p)) ==> memory == old(memory)
      ensures old(Live(blocks, p)) ==> MayFree(p) && !Live(blocks, p)
    {
      DeadUnlessUsed(memory, blocks, p);
      if p == 0 || !FlagSet(memory[p - 24]) {
        return;
      }
      Release(Index(blocks, p), p - 32);
      DeadUnlessUsed(memory, blocks, p);
    }

    /** The rest of `kfree`, once the header turns out to be in use. */
    method Release(ghost i: nat, a: nat)
      requires Valid() && i < |blocks| && a == blocks[i].addr && blocks[i].used
      modifies this
      ensures Valid() && blocks == FreeAt(old(blocks), i)
      ensures KeepsPayloads(Used(blocks), old(memory), memory)
      ensures a + 8 in memory && !FlagSet(memory[a + 8])
    {
      FreeAtKeeps(blocks, i);
      ghost var bs1 := Unmark(blocks, i);
      Unuse(i, a);
      assert Used(blocks) <= Used(old(blocks)) by { UnmarkKeeps(old(blocks), i); }
      KeepsFewer(Used(old(blocks)), Used(blocks), old(memory), memory);
      HeaderInMemory(i);
      var prev: nat := memory[a + 24];
      if prev != 0 {
        HeaderInMemory(i - 1);
      }
      if prev != 0 && !FlagSet(memory[prev + 8]) {
        MergedAfter(blocks, i - 1);
        Absorb(i - 1, prev, a);
        AbsorbNext(i - 1, prev);
      } else {
        AbsorbNext(i, a);
      }
    }

    /** The forward merge of `kfree`. */
    method AbsorbNext(ghost i: nat, block: nat)
      requires Linked() && i < |blocks| && block == blocks[i].addr && !blocks[i].used
      modifies this
      ensures Linked() && blocks == MergeNext(old(blocks), i)
      ensures KeepsPayloads(Used(old(blocks)), old(memory), memory) && Used(blocks) == Used(old(blocks))
      ensures SameBefore(old(memory), memory, block, old(blocks[i].End()))
    {
      HeaderInMemory(i);
      var next: nat := memory[block + 16];
      if next != 0 {
        HeaderInMemory(i + 1);
        if !FlagSet(memory[next + 8]) {
          assert BlockOk(blocks, i);
          Absorb(i, block, next);
        }
      }
    }

    /** The header's flag and the counter. */
    method Unuse(ghost i: nat, block: nat)
      requires Valid() && i < |blocks| && block == blocks[i].addr && blocks[i].used
      modifies this
      ensures Linked() && blocks == Unmark(old(blocks), i)
      ensures KeepsPayloads(Used(old(blocks)), old(memory), memory)
      ensures block + 8 in memory && !FlagSet(memory[block + 8])
    {
      UnmarkStored(memory, blocks, i);
      UnmarkKeeps(blocks, i);
      UnmarkBytes(blocks, i);
      memory := memory[block + 8 := WithFlag(memory[block + 8], false)];
      usedSize := usedSize - memory[block];
      blocks := Unmark(blocks, i);
    }

    /** Block `i` at `a` absorbs the next one, at `b`. */
    method Absorb(ghost i: nat, a: nat, b: nat)
      requires Linked() && i + 1 < |blocks| && a == blocks[i].addr && b == blocks[i + 1].addr
      requires !blocks[i].used && !blocks[i + 1].used
      modifies this
      ensures Linked() && blocks == Merge(old(blocks), i)
      ensures KeepsPayloads(Used(old(blocks)), old(memory), memory) && Used(blocks) == Used(old(blocks))
      ensures SameBefore(old(memory), memory, a, b)
    {
      MergeStored(memory, blocks, i);
      MergeStaysBefore(memory, blocks, i);
      MergeTiles(blocks, i);
      MergeBytes(blocks, i);
      MergeUses(blocks, i);
      memory := MergeHeaders(memory, a, b);
      blockCount := blockCount - 1;
      blocks := Merge(blocks, i);
    }

    /** A store into a payload in use: by `memcpy`, `memset`, or the owner of the payload. It cannot touch the list. */
    method Store(a: nat, v: u64, ghost b: Block)
      requires Valid() && b in Used(blocks) && b.Payload() <= a < b.End() && a in memory
      modifies this`memory
      ensures Valid() && memory == old(memory)[a := v]
    {
      StoreRepresents(memory, blocks, b, a, v);
      memory := memory[a := v];
    }

    /** `memcpy` of `n` bytes, a multiple of 8, between payloads in use. */
    method CopyPayload(dst: nat, src: nat, n: nat, ghost b: Block, ghost c: Block)
      requires Valid() && b in Used(blocks) && c in Used(blocks) && b != c
      requires dst == c.Payload() && src == b.Payload() && n == b.size && n <= c.size
      modifies this`memory
      ensures Valid() && memory.Keys == old(memory.Keys)
      ensures Copied(old(memory), memory, dst, src, n)
      ensures forall a :: a in memory && !(c.Payload() <= a < c.End()) ==> memory[a] == old(memory)[a]
    {
      PayloadAligned(blocks, b);
      PayloadAligned(blocks, c);
      UsedApart(blocks, b, c);
      var i := 0;
      while i < n
        invariant 0 <= i <= n && i % 8 == 0
        invariant Valid() && memory.Keys == old(memory.Keys)
        invariant Copied(old(memory), memory, dst, src, i)
        invariant forall a :: a in memory && !(c.Payload() <= a < c.End()) ==> memory[a] == old(memory)[a]
      {
        CopyWord(dst, src, i, b, c, old(memory));
        i := i + 8;
      }
    }

    /** One word of it. */
    method CopyWord(dst: nat, src: nat, i: nat, ghost b: Block, ghost c: Block, ghost w: Memory)
      requires Valid() && c in Used(blocks) && dst == c.Payload() && dst % 8 == 0 && i < c.size && i % 8 == 0
      requires HEAP_START <= dst && c.End() <= HEAP_END
      requires src == b.Payload() && src % 8 == 0 && i + 8 <= b.size && HEAP_START <= src && b.End() <= HEAP_END
      requires b.End() <= dst || c.End() <= src
      requires memory.Keys == w.Keys && Copied(w, memory, dst, src, i)
      requires forall a :: a in memory && !(c.Payload() <= a < c.End()) ==> memory[a] == w[a]
      modifies this`memory
      ensures Valid() && memory.Keys == w.Keys && Copied(w, memory, dst, src, i + 8)
      ensures forall a :: a in memory && !(c.Payload() <= a < c.End()) ==> memory[a] == w[a]
    {
      assert InHeapWords(src + i) && InHeapWords(dst + i);
      CopiedFurther(w, memory, dst, src, i, memory[src + i]);
      Store(dst + i, memory[src + i], c);
    }

    /** `krealloc` of a null or live pointer. Growing copies the old payload, so the block it grows into must have room
    for it; it always has, but for requests that rounding makes small (see `ReallocFits`). */
    method Krealloc(p: nat, size: u64) returns (q: nat)
      requires Valid() && CanRealloc(blocks, p, size)
      modifies this
      ensures Valid() && (blocks, q) == Realloc(old(blocks), p, size)
      ensures KeepsPayloads(Used(old(blocks)) * Used(blocks), old(memory), memory)
      ensures p != 0 && q != 0 ==> Copied(old(memory), memory, q, p, old(blocks[Index(blocks, p)].size))
    {
      if p == 0 {
        q := Kmalloc(size);
        KeepsFewer(Used(old(blocks)), Used(old(blocks)) * Used(blocks), old(memory), memory);
        return;
      }
      ghost var b := blocks[Index(blocks, p)];
      BlockOfLive(memory, blocks, p);
      if size == 0 {
        Kfree(p);
        KeepsFewer(Used(blocks), Used(old(blocks)) * Used(blocks), old(memory), memory);
        return 0;
      }
      if size <= memory[p - 32] {
        return p;
      }
      q := Grow(p, size);
    }

    /** `kcalloc`: the product wraps as C's does (see `CallocCovers`). Where rounding it wraps around as well, the block
    must not be had, since clearing it would overrun it. */
    method Kcalloc(num: u64, size: u64) returns (p: nat)
      requires Valid() && CanClear(blocks, Wrap(num * size))
      modifies this
      ensures Valid() && (blocks, p) == Malloc(old(blocks), Wrap(num * size))
      ensures KeepsPayloads(Used(old(blocks)), old(memory), memory)
      ensures p != 0 ==> Zeroed(memory, p, Wrap(num * size))
    {
      ghost var bs, w := blocks, memory;
      var total := Wrap(num * size);
      p := Kmalloc(total);
      if p != 0 {
        ghost var c := NewBlock(bs, total, blocks, p);
        RoundCovers(total);
        ghost var w1 := memory;
        ClearPayload(p, total, c);
        ClearKeeps(bs, blocks, w, w1, memory, c);
      }
    }

    /** `memset` of the first `n` bytes of a payload to zero. The last word keeps the bytes beyond. */
    method ClearPayload(p: nat, n: nat, ghost c: Block)
      requires Valid() && c in Used(blocks) && p == c.Payload() && n <= c.size
      modifies this`memory
      ensures Valid() && memory.Keys == old(memory.Keys) && Zeroed(memory, p, n)
      ensures forall a :: a in memory && !(c.Payload() <= a < c.End()) ==> memory[a] == old(memory)[a]
    {
      PayloadAligned(blocks, c);
      var i := 0;
      while i < n
        invariant 0 <= i && i % 8 == 0 && (i <= n || (i < n + 8 && n <= i))
        invariant Valid() && memory.Keys == old(memory.Keys)
        invariant ClearedTo(memory, p, i, n)
        invariant forall a :: a in memory && !(c.Payload() <= a < c.End()) ==> memory[a] == old(memory)[a]
      {
        ClearWord(p, n, i, c);
        i := i + 8;
      }
    }

    /** One word of it. */
    method ClearWord(p: nat, n: nat, i: nat, ghost c: Block)
      requires Valid() && c in Used(blocks) && p == c.Payload() && i < n <= c.size && i % 8 == 0
      requires c.Payload() % 8 == 0 && ClearedTo(memory, p, i, n)
      modifies this`memory
      ensures Valid() && memory.Keys == old(memory.Keys) && ClearedTo(memory, p, i + 8, n)
      ensures forall a :: a in memory && !(c.Payload() <= a < c.End()) ==> memory[a] == old(memory)[a]
    {
      PayloadAligned(blocks, c);
      assert InHeapWords(p + i);
      ClearedFurther(memory, p, i, n, memory[p + i]);
      Store(p + i, Kept(memory[p + i], n - i), c);
    }

    /** `heap_get_free_size` counts the block headers as free. */
    method GetFreeSize() returns (n: nat)
      requires Valid()
      ensures n == Bytes(blocks, false) + 32 * |blocks|
    {
      HeapAccounted(blocks);
      n := totalSize - usedSize;
    }

    /** `krealloc` of a block that is too small. */
    method Grow(p: nat, size: u64) returns (q: nat)
      requires Valid() && Live(blocks, p) && blocks[Index(blocks, p)].size < size
      requires CopyFits(blocks, blocks[Index(blocks, p)], size)
      modifies this
      ensures Valid() && (blocks, q) == Realloc(old(blocks), p, size)
      ensures KeepsPayloads(Used(old(blocks)) * Used(blocks), old(memory), memory)
      ensures q != 0 ==> Copied(old(memory), memory, q, p, old(blocks[Index(blocks, p)].size))
    {
      ghost var bs, w := blocks, memory;
      ghost var b := blocks[Index(blocks, p)];
      BlockOfLive(memory, blocks, p);
      q := Kmalloc(size);
      if q != 0 {
        ghost var c := NewBlock(bs, size, blocks, q);
        RoomToCopy(bs, b, size, c);
        ghost var bs1, w1 := blocks, memory;
        Move(p, q, b, c);
        GrowKeeps(bs, bs1, blocks, w, w1, memory, p, b, c);
      } else {
        KeepsFewer(Used(bs), Used(bs) * Used(blocks), w, memory);
      }
    }

    /** The rest of `krealloc`, once there is a new block. */
    method Move(p: nat, q: nat, ghost b: Block, ghost c: Block)
      requires Valid() && b in Used(blocks) && c in Used(blocks) && b != c && b.size <= c.size
      requires p == b.Payload() && q == c.Payload()
      modifies this
      ensures Valid() && blocks == Free(old(blocks), p)
      ensures KeepsPayloads(Used(blocks) - {c}, old(memory), memory)
      ensures Copied(old(memory), memory, q, p, b.size)
    {
      UsedIsLive(memory, blocks, b);
      UsedIsLive(memory, blocks, c);
      ghost var w := memory;
      CopyPayload(q, p, memory[p - 32], b, c);
      ghost var w1 := memory;
      FreeAtKeeps(blocks, Index(blocks, p));
      Kfree(p);
      MoveKeeps(old(blocks), blocks, w, w1, memory, b, c);
    }

    /** The rest of `kmalloc`, once a block is found. */
    method TakeBlock(ghost i: nat, block: nat, n: nat)
      requires Valid() && i < |blocks| && block == blocks[i].addr && Fits(blocks[i], n) && n % 8 == 0 && 32 <= n
      modifies this
      ensures Valid() && blocks == Take(old(blocks), i, n)
      ensures KeepsPayloads(Used(old(blocks)), old(memory), memory)
    {
      TakeStored(memory, blocks, i, n);
      TakeTiles(blocks, i, n);
      TakeCoalesced(blocks, i, n);
      TakeBytes(blocks, i, n);
      var split := memory[block] >= n + 40;
      memory := TakeHeader(memory, block, n);
      if split {
        blockCount := blockCount + 1;
      }
      usedSize := usedSize + memory[block];
      blocks := Take(blocks, i, n);
    }
  }

  /** Relinking the headers when `kmalloc` splits the block at `block` after `size` bytes. */
  method SplitHeaders(memory: Memory, block: u64, size: u64) returns (w: Memory)
    requires {block, block + 8, block + 16} <= memory.Keys && block + 64 + size < 0x1_0000_0000_0000_0000
    requires {block + 32 + size, block + 40 + size} <= memory.Keys && size + 32 <= memory[block]
    ensures w == SplitStores(memory, block, block + 32 + size, memory[block + 16], size, memory[block] - size - 32)
  {
    var rest := block + 32 + size;
    w := memory[rest := memory[block] - size - 32];
    w := w[rest + 8 := WithFlag(w[rest + 8], false)];
    w := w[rest + 16 := w[block + 16]];
    w := w[rest + 24 := block];
    if w[block + 16] != 0 {
      var next: nat := w[block + 16];
      w := w[next + 24 := rest];
    }
    w := w[block + 16 := rest];
    w := w[block := size];
  }

  /** Splitting the block at `block` if what is left can hold a block, and marking it used. */
  method TakeHeader(memory: Memory, block: u64, n: u64) returns (w: Memory)
    requires CanTake(memory, block, n)
    ensures w == TakeStores(memory, block, n)
  {
    w := memory;
    if w[block] >= n + 40 {
      w := SplitHeaders(w, block, n);
    }
    w := w[block + 8 := WithFlag(w[block + 8], true)];
  }

  predicate CanTake(w: Memory, a: nat, n: nat) {
    && {a, a + 8, a + 16} <= w.Keys && a < 0x1_0000_0000_0000_0000
    && (n + 40 <= w[a] ==> {a + 32 + n, a + 40 + n} <= w.Keys && a + 64 + n < 0x1_0000_0000_0000_0000)
  }

  /** What `TakeHeader` stores. */
  function TakeStores(w: Memory, a: u64, n: u64): Memory
    requires CanTake(w, a, n)
  {
    Marked(if n + 40 <= w[a] then SplitStores(w, a, a + 32 + n, w[a + 16], n, w[a] - n - 32) else w, a, true)
  }

  /** The words a split reads and writes are in the heap. */
  lemma RestInMemory(w: Memory, bs: seq<Block>, i: nat, size: nat)
    requires Mapped(w) && Tiles(bs) && Represents(w, bs) && i < |bs|
    requires size % 8 == 0 && size + 40 <= bs[i].size
    ensures var a, rest, next := bs[i].addr, bs[i].addr + 32 + size, NextPtr(bs, i);
      && {a, a + 8, a + 16, a + 24, rest, rest + 8, rest + 16, rest + 24} <= w.Keys
      && a < rest < 0x1_0000_0000_0000_0000 && w[a] == bs[i].size && w[a + 16] == next && (next == 0 <==> i + 1 == |bs|)
      && (next != 0 ==> rest + 32 <= next < 0x1_0000_0000_0000_0000 && next + 24 in w)
  {
    InHeap(bs, i);
    assert HeaderOk(w, bs, i) && BlockOk(bs, i);
    var rest := bs[i].addr + 32 + size;
    assert InHeapWords(rest) && InHeapWords(rest + 8) && InHeapWords(rest + 16) && InHeapWords(rest + 24);
    if i + 1 < |bs| {
      assert HeaderOk(w, bs, i + 1);
    }
  }

  lemma SplitOffTiles(bs: seq<Block>, i: nat, n: nat)
    requires HeapList.Valid(bs) && i < |bs| && !bs[i].used && n % 8 == 0 && 32 <= n && n + 40 <= bs[i].size
    ensures Tiles(SplitOff(bs, i, n)) && Take(bs, i, n) == SplitOff(bs, i, n)[i := SplitOff(bs, i, n)[i].(used := true)]
  {
    TakeTiles(bs, i, n);
    TakeCoalesced(bs, i, n);
    UnmarkKeeps(Take(bs, i, n), i);
    assert Unmark(Take(bs, i, n), i) == SplitOff(bs, i, n);
  }

  function Marked(w: Memory, a: nat, flag: bool): Memory
    requires a + 8 in w
  {
    w[a + 8 := WithFlag(w[a + 8], flag)]
  }

  /** Memory after taking block `i`, as the list after taking it. */
  ghost predicate TakenInMemory(w: Memory, w': Memory, bs: seq<Block>, i: nat, n: nat)
    requires i < |bs| && n <= bs[i].size
  {
    && bs[i].addr in w' && w'[bs[i].addr] == Taken(bs[i], n).size
    && Mapped(w') && Represents(w', Take(bs, i, n)) && KeepsPayloads(Used(bs), w, w')
  }

  lemma TakeStored(w: Memory, bs: seq<Block>, i: nat, n: nat)
    requires Mapped(w) && HeapList.Valid(bs) && Represents(w, bs) && i < |bs| && Fits(bs[i], n) && n % 8 == 0 && 32 <= n
    ensures bs[i].addr < 0x1_0000_0000_0000_0000 && n < 0x1_0000_0000_0000_0000
    ensures CanTake(w, bs[i].addr, n) && w[bs[i].addr] == bs[i].size
    ensures TakenInMemory(w, TakeStores(w, bs[i].addr, n), bs, i, n)
  {
    InHeap(bs, i);
    if n + 40 <= bs[i].size {
      SplitReady(w, bs, i, n);
      TakeSplit(w, bs, i, n);
    } else {
      TakeWhole(w, bs, i, n);
    }
    assert HeaderOk(w, bs, i);
  }

  lemma TakeWhole(w: Memory, bs: seq<Block>, i: nat, n: nat)
    requires Mapped(w) && Tiles(bs) && Represents(w, bs) && i < |bs| && Fits(bs[i], n) && bs[i].size < n + 40
    ensures bs[i].addr + 8 in w && TakenInMemory(w, Marked(w, bs[i].addr, true), bs, i, n)
  {
    assert HeaderOk(w, bs, i);
    var w' := Marked(w, bs[i].addr, true);
    assert w'.Keys == w.Keys;
    FlagRepresents(w, w', bs, i, true);
    FlagKeepsPayloads(w, w', bs, i);
  }

  /** The words the split of the block at `a` needs, and the block's size. */
  predicate CanSplit(w: Memory, a: nat, n: nat, size: nat) {
    && {a, a + 8, a + 16, a + 32 + n, a + 40 + n} <= w.Keys && a + 64 + n < 0x1_0000_0000_0000_0000
    && w[a] == size < 0x1_0000_0000_0000_0000 && n + 32 <= size
  }

  lemma SplitReady(w: Memory, bs: seq<Block>, i: nat, n: nat)
    requires Mapped(w) && Tiles(bs) && Represents(w, bs) && i < |bs|
    requires n % 8 == 0 && n + 40 <= bs[i].size
    ensures CanSplit(w, bs[i].addr, n, bs[i].size)
  {
    RestInMemory(w, bs, i, n);
    InHeap(bs, i);
  }

  /** Memory after the block of `size` bytes at `a` is split. */
  function SplitAt(w: Memory, a: nat, n: nat, size: nat): Memory
    requires CanSplit(w, a, n, size)
  {
    SplitStores(w, a, a + 32 + n, w[a + 16], n, size - n - 32)
  }

  lemma SplitAtWrites(w: Memory, bs: seq<Block>, i: nat, n: nat)
    requires Mapped(w) && Tiles(bs) && Represents(w, bs) && i < |bs|
    requires n % 8 == 0 && n + 40 <= bs[i].size && CanSplit(w, bs[i].addr, n, bs[i].size)
    ensures SplitWords(w, SplitAt(w, bs[i].addr, n, bs[i].size), bs, i, n)
  {
    RestInMemory(w, bs, i, n);
    SplitAtIs(w, bs, i, n, NextPtr(bs, i));
  }

  lemma SplitAtIs(w: Memory, bs: seq<Block>, i: nat, n: nat, next: nat)
    requires i < |bs| && n % 8 == 0 && n + 40 <= bs[i].size && CanSplit(w, bs[i].addr, n, bs[i].size)
    requires next == NextPtr(bs, i) && w[bs[i].addr + 16] == next && (next == 0 <==> i + 1 == |bs|)
    requires bs[i].addr + 48 + n in w && bs[i].addr + 56 + n in w
    requires next != 0 ==> bs[i].addr + 64 + n <= next < 0x1_0000_0000_0000_0000 && next + 24 in w
    ensures SplitWords(w, SplitAt(w, bs[i].addr, n, bs[i].size), bs, i, n)
  {
    SplitStored(w, bs[i].addr, bs[i].addr + 32 + n, next, n, bs[i].size - n - 32);
    SplitWordsFrom(w, SplitAt(w, bs[i].addr, n, bs[i].size), bs, i, n);
  }

  lemma TakeSplit(w: Memory, bs: seq<Block>, i: nat, n: nat)
    requires Mapped(w) && HeapList.Valid(bs) && Represents(w, bs) && i < |bs| && Fits(bs[i], n)
    requires n % 8 == 0 && 32 <= n && n + 40 <= bs[i].size && CanSplit(w, bs[i].addr, n, bs[i].size)
    ensures bs[i].addr + 8 in SplitAt(w, bs[i].addr, n, bs[i].size)
    ensures TakenInMemory(w, Marked(SplitAt(w, bs[i].addr, n, bs[i].size), bs[i].addr, true), bs, i, n)
  {
    var w1 := SplitAt(w, bs[i].addr, n, bs[i].size);
    SplitAtWrites(w, bs, i, n);
    SplitDone(w, w1, bs, i, n);
    SplitOffTiles(bs, i, n);
    MarkSplit(w, w1, bs, i, n);
  }

  /** The stores of a split represent the split list and write no payload. */
  lemma SplitDone(w: Memory, w1: Memory, bs: seq<Block>, i: nat, n: nat)
    requires Tiles(bs) && Represents(w, bs) && i < |bs| && !bs[i].used && SplitWords(w, w1, bs, i, n)
    ensures Represents(w1, SplitOff(bs, i, n)) && KeepsPayloads(Used(bs), w, w1)
    ensures w1.Keys == w.Keys && bs[i].addr in w1 && w1[bs[i].addr] == n
  {
    SplitRepresents(w, w1, bs, i, n);
    SplitKeepsPayloads(w, w1, bs, i, n);
  }

  lemma MarkSplit(w: Memory, w1: Memory, bs: seq<Block>, i: nat, n: nat)
    requires Mapped(w) && w1.Keys == w.Keys && Tiles(bs) && i < |bs| && n + 40 <= bs[i].size && bs[i].addr + 8 in w
    requires Tiles(SplitOff(bs, i, n)) && Represents(w1, SplitOff(bs, i, n)) && KeepsPayloads(Used(bs), w, w1)
    ensures var w2 := Marked(w1, bs[i].addr, true);
      Mapped(w2) && Represents(w2, SplitOff(bs, i, n)[i := SplitOff(bs, i, n)[i].(used := true)])
      && KeepsPayloads(Used(bs), w, w2)
  {
    var w2 := Marked(w1, bs[i].addr, true);
    assert w2.Keys == w1.Keys;
    FlagRepresents(w1, w2, SplitOff(bs, i, n), i, true);
    FlagKeepsPayloads(w1, w2, bs, i);
    KeepsBoth(Used(bs), w, w1, w2);
  }

  // ---------------------------------------------------------------- kfree

  lemma DeadUnlessUsed(w: Memory, bs: seq<Block>, p: nat)
    requires Tiles(bs) && Represents(w, bs)
    ensures Live(bs, p) ==> 32 <= p && p - 24 in w && FlagSet(w[p - 24])
  {
    if Live(bs, p) {
      var i := Index(bs, p);
      assert HeaderOk(w, bs, i);
    }
  }

  lemma UnmarkStored(w: Memory, bs: seq<Block>, i: nat)
    requires Mapped(w) && HeapList.Valid(bs) && Represents(w, bs) && i < |bs| && bs[i].used
    ensures var a := bs[i].addr;
      && {a, a + 8} <= w.Keys && Marked(w, a, false)[a] == bs[i].size
      && Mapped(Marked(w, a, false)) && Represents(Marked(w, a, false), Unmark(bs, i))
      && KeepsPayloads(Used(bs), w, Marked(w, a, false))
  {
    assert HeaderOk(w, bs, i);
    var w' := Marked(w, bs[i].addr, false);
    assert w'.Keys == w.Keys;
    FlagRepresents(w, w', bs, i, false);
    FlagKeepsPayloads(w, w', bs, i);
  }

  predicate CanMerge(w: Memory, a: nat, b: nat) {
    && {a, a + 16, b, b + 16} <= w.Keys && w[a] as int + w[b] as int + 32 < 0x1_0000_0000_0000_0000
    && a < 0x1_0000_0000_0000_0000
  }

  /** The stores by which the block at `a` absorbs the one at `b`. */
  function MergeStores(w: Memory, a: nat, b: nat): Memory
    requires CanMerge(w, a, b)
  {
    var beyond: nat := w[b + 16];
    var w1 := w[a := w[a] + w[b] + 32][a + 16 := beyond];
    if beyond != 0 then w1[beyond + 24 := a] else w1
  }

  method MergeHeaders(memory: Memory, a: nat, b: nat) returns (w: Memory)
    requires CanMerge(memory, a, b) && a != b && b != a + 16 && a != b + 16
    ensures w == MergeStores(memory, a, b)
  {
    w := memory[a := memory[a] + memory[b] + 32];
    w := w[a + 16 := w[b + 16]];
    var beyond: nat := w[b + 16];
    if beyond != 0 {
      w := w[beyond + 24 := a];
    }
  }

  lemma MergeStored(w: Memory, bs: seq<Block>, i: nat)
    requires Mapped(w) && Tiles(bs) && Represents(w, bs) && i + 1 < |bs| && !bs[i].used && !bs[i + 1].used
    ensures var a, b := bs[i].addr, bs[i + 1].addr;
      && CanMerge(w, a, b) && a + 32 <= b
      && var w' := MergeStores(w, a, b);
        Mapped(w') && Represents(w', Merge(bs, i)) && KeepsPayloads(Used(bs), w, w')
  {
    assert HeaderOk(w, bs, i) && HeaderOk(w, bs, i + 1) && BlockOk(bs, i) && BlockOk(bs, i + 1);
    InHeap(bs, i);
    InHeap(bs, i + 1);
    if i + 2 < |bs| {
      assert HeaderOk(w, bs, i + 2);
      InHeap(bs, i + 2);
    }
    var w' := MergeStores(w, bs[i].addr, bs[i + 1].addr);
    MergeStoresAre(w, bs, i);
    MergeRepresents(w, w', bs, i);
    MergeKeepsPayloads(w, w', bs, i);
  }

  lemma MergeStoresAre(w: Memory, bs: seq<Block>, i: nat)
    requires i + 1 < |bs| && CanMerge(w, bs[i].addr, bs[i + 1].addr) && bs[i].addr + 32 <= bs[i + 1].addr
    requires HeaderOk(w, bs, i) && HeaderOk(w, bs, i + 1)
    requires i + 2 < |bs| ==> bs[i + 2].addr + 24 in w && bs[i + 1].addr < bs[i + 2].addr
    ensures MergeWords(w, MergeStores(w, bs[i].addr, bs[i + 1].addr), bs, i)
  {
  }

  /** Up to and including the header at `b`, at most the size and the next pointer of the one at `a` differ. */
  ghost predicate SameBefore(w: Memory, w': Memory, a: nat, b: nat) {
    w'.Keys == w.Keys && forall x :: x in w && x <= b + 32 && x != a && x != a + 16 ==> w'[x] == w[x]
  }

  lemma MergeStaysBefore(w: Memory, bs: seq<Block>, i: nat)
    requires Mapped(w) && Tiles(bs) && Represents(w, bs) && i + 1 < |bs| && CanMerge(w, bs[i].addr, bs[i + 1].addr)
    ensures SameBefore(w, MergeStores(w, bs[i].addr, bs[i + 1].addr), bs[i].addr, bs[i + 1].addr)
  {
    assert HeaderOk(w, bs, i + 1);
    if i + 2 < |bs| {
      Ordered(bs, i + 1, i + 2);
      assert HeaderOk(w, bs, i + 2) && BlockOk(bs, i + 1);
    }
  }

  /** Where the block behind lies once it is absorbed. */
  lemma MergedAfter(bs: seq<Block>, i: nat)
    requires Tiles(bs) && i + 1 < |bs|
    ensures bs[i].addr + 40 <= bs[i + 1].addr
    ensures Merge(bs, i)[i].addr == bs[i].addr && bs[i + 1].End() == Merge(bs, i)[i].End()
  {
    assert BlockOk(bs, i) && BlockOk(bs, i + 1);
  }

  // ---------------------------------------------------------------- stores into payloads

  predicate WordCopied(w: Memory, w': Memory, dst: nat, src: nat, k: nat) {
    src + k in w && dst + k in w' && w'[dst + k] == w[src + k]
  }

  /** `n` bytes at `dst` are what the bytes at `src` were. */
  ghost predicate Copied(w: Memory, w': Memory, dst: nat, src: nat, n: nat) {
    forall k: nat :: k < n && k % 8 == 0 ==> WordCopied(w, w', dst, src, k)
  }

  /** One word more. */
  lemma CopiedFurther(w: Memory, w1: Memory, dst: nat, src: nat, i: nat, v: u64)
    requires Copied(w, w1, dst, src, i) && i % 8 == 0 && src + i in w && w[src + i] == v && dst + i in w1
    ensures Copied(w, w1[dst + i := v], dst, src, i + 8)
  {
    forall k: nat | k < i + 8 && k % 8 == 0 ensures WordCopied(w, w1[dst + i := v], dst, src, k) {
      assert k < i ==> WordCopied(w, w1, dst, src, k);
    }
  }

  lemma StoreRepresents(w: Memory, bs: seq<Block>, b: Block, a: nat, v: u64)
    requires Mapped(w) && Tiles(bs) && Represents(w, bs) && b in Used(bs) && b.Payload() <= a < b.End() && a in w
    ensures Mapped(w[a := v]) && Represents(w[a := v], bs)
  {
    assert w[a := v].Keys == w.Keys;
    var w' := w[a := v];
    forall i | 0 <= i < |bs| ensures HeaderOk(w', bs, i) {
      assert HeaderOk(w, bs, i);
      PayloadsApart(bs, b, i);
      InHeap(bs, i);
    }
  }

  lemma PayloadAligned(bs: seq<Block>, b: Block)
    requires Tiles(bs) && b in Used(bs)
    ensures HEAP_START <= b.Payload() && b.End() <= HEAP_END && b.Payload() % 8 == 0 && b.size % 8 == 0
  {
    var i :| 0 <= i < |bs| && bs[i] == b;
    PayloadsApart(bs, b, i);
    assert BlockOk(bs, i);
  }

  // ---------------------------------------------------------------- krealloc

  lemma BlockOfLive(w: Memory, bs: seq<Block>, p: nat)
    requires Mapped(w) && Tiles(bs) && Represents(w, bs) && Live(bs, p)
    ensures 32 <= p && p - 32 in w && w[p - 32] == bs[Index(bs, p)].size && p != 0
    ensures p - 24 in w && bs[Index(bs, p)] in Used(bs)
    ensures Copied(w, w, p, p, bs[Index(bs, p)].size)
  {
    var i := Index(bs, p);
    assert HeaderOk(w, bs, i) && BlockOk(bs, i);
    InHeap(bs, i);
    forall k: nat | k < bs[i].size && k % 8 == 0 ensures WordCopied(w, w, p, p, k) {
      assert InHeapWords(p + k);
    }
  }

  lemma UsedIsLive(w: Memory, bs: seq<Block>, b: Block)
    requires Mapped(w) && Tiles(bs) && Represents(w, bs) && b in Used(bs)
    ensures Live(bs, b.Payload()) && bs[Index(bs, b.Payload())] == b
    ensures b.Payload() - 32 in w && w[b.Payload() - 32] == b.size && b.Payload() - 24 in w
  {
    var i :| 0 <= i < |bs| && bs[i] == b;
    IndexIs(bs, b.Payload(), i);
    BlockOfLive(w, bs, b.Payload());
  }

  lemma MoveKeeps(bs: seq<Block>, bs': seq<Block>, w: Memory, w1: Memory, w2: Memory, b: Block, c: Block)
    requires Tiles(bs) && b in Used(bs) && c in Used(bs) && b != c && b.size <= c.size && Used(bs') == Used(bs) - {b}
    requires w1.Keys == w.Keys && Copied(w, w1, c.Payload(), b.Payload(), b.size)
    requires forall a :: a in w1 && !(c.Payload() <= a < c.End()) ==> w1[a] == w[a]
    requires KeepsPayloads(Used(bs'), w1, w2)
    ensures KeepsPayloads(Used(bs') - {c}, w, w2) && Copied(w, w2, c.Payload(), b.Payload(), b.size)
  {
    forall a | a in w && InPayload(Used(bs') - {c}, a) ensures a in w2 && w2[a] == w[a] {
      var x :| x in Used(bs') - {c} && x.Payload() <= a < x.End();
      UsedApart(bs, x, c);
      assert InPayload(Used(bs'), a);
    }
    forall k: nat | k < b.size && k % 8 == 0 ensures WordCopied(w, w2, c.Payload(), b.Payload(), k) {
      assert WordCopied(w, w1, c.Payload(), b.Payload(), k);
      assert InPayload(Used(bs'), c.Payload() + k);
    }
  }

  lemma GrowKeeps(bs: seq<Block>, bs1: seq<Block>, bs2: seq<Block>, w: Memory, w1: Memory, w2: Memory, p: nat,
    b: Block, c: Block)
    requires Mapped(w) && Tiles(bs) && Represents(w, bs) && b in Used(bs) && p == b.Payload()
    requires c !in Used(bs) && Used(bs1) == Used(bs) + {c}
    requires KeepsPayloads(Used(bs), w, w1) && KeepsPayloads(Used(bs2) - {c}, w1, w2)
    requires Copied(w1, w2, c.Payload(), p, b.size)
    ensures KeepsPayloads(Used(bs) * Used(bs2), w, w2) && Copied(w, w2, c.Payload(), p, b.size)
  {
    KeepsFewer(Used(bs), Used(bs) * Used(bs2), w, w1);
    KeepsFewer(Used(bs2) - {c}, Used(bs) * Used(bs2), w1, w2);
    KeepsBoth(Used(bs) * Used(bs2), w, w1, w2);
    PayloadAligned(bs, b);
    forall k: nat | k < b.size && k % 8 == 0 ensures WordCopied(w, w2, c.Payload(), p, k) {
      assert WordCopied(w1, w2, c.Payload(), p, k);
      assert InHeapWords(p + k) && InPayload(Used(bs), p + k);
    }
  }

  // ---------------------------------------------------------------- kcalloc

  /** 256 to the power `r`. */
  function Bytes256(r: nat): nat
    requires r <= 8
    ensures 0 < Bytes256(r)
  {
    match r
    case 0 => 1
    case 1 => 0x100
    case 2 => 0x1_0000
    case 3 => 0x100_0000
    case 4 => 0x1_0000_0000
    case 5 => 0x100_0000_0000
    case 6 => 0x1_0000_0000_0000
    case 7 => 0x100_0000_0000_0000
    case 8 => 0x1_0000_0000_0000_0000
  }

  /** The bytes of the word at `p + k` that lie in the first `n` bytes at `p` are zero. */
  predicate WordCleared(w: Memory, p: nat, k: nat, n: nat) {
    p + k in w && if k + 8 <= n then w[p + k] == 0 else k <= n && w[p + k] % Bytes256(n - k) == 0
  }

  /** The first `n` bytes at `p` are zero. */
  ghost predicate Zeroed(w: Memory, p: nat, n: nat) {
    forall k: nat :: k < n && k % 8 == 0 ==> WordCleared(w, p, k, n)
  }

  /** The words before `p + i` are cleared as far as they belong to the first `n` bytes. */
  ghost predicate ClearedTo(w: Memory, p: nat, i: nat, n: nat) {
    forall k: nat :: k < i && k % 8 == 0 ==> WordCleared(w, p, k, n)
  }

  /** What is left of a word when its first `n` bytes are cleared. */
  function Kept(word: u64, n: nat): u64 {
    if 8 <= n then 0
    else
      ModDiff(word, n);
      word - word % Bytes256(n)
  }

  lemma ClearedFurther(w: Memory, p: nat, i: nat, n: nat, word: u64)
    requires ClearedTo(w, p, i, n) && i < n && i % 8 == 0
    ensures ClearedTo(w[p + i := Kept(word, n - i)], p, i + 8, n)
  {
    ModDiff(word, if i + 8 <= n then 8 else n - i);
    forall k: nat | k < i + 8 && k % 8 == 0 ensures WordCleared(w[p + i := Kept(word, n - i)], p, k, n) {
      assert k < i ==> WordCleared(w, p, k, n);
    }
  }

  lemma ModDiff(x: nat, r: nat)
    requires r <= 8
    ensures x % Bytes256(r) <= x && (x - x % Bytes256(r)) % Bytes256(r) == 0
  {
    WithoutRemainder(x, Bytes256(r));
  }

  lemma WithoutRemainder(x: nat, d: nat)
    requires 0 < d
    ensures x % d <= x && (x - x % d) % d == 0
  {
    assert x == d * (x / d) + x % d;
    QuotientRemainder(x / d, 0, d);
  }

  lemma ClearKeeps(bs: seq<Block>, bs': seq<Block>, w: Memory, w1: Memory, w2: Memory, c: Block)
    requires Tiles(bs') && c !in Used(bs) && Used(bs') == Used(bs) + {c} && KeepsPayloads(Used(bs), w, w1)
    requires w2.Keys == w1.Keys && forall a :: a in w2 && !(c.Payload() <= a < c.End()) ==> w2[a] == w1[a]
    ensures KeepsPayloads(Used(bs), w, w2)
  {
    forall a | a in w && InPayload(Used(bs), a) ensures a in w2 && w2[a] == w[a] {
      var x :| x in Used(bs) && x.Payload() <= a < x.End();
      UsedApart(bs', x, c);
    }
  }

  // ---------------------------------------------------------------- sizes that wrap around

  /** A request of `total` bytes is granted enough, or not at all. */
  ghost predicate CanClear(bs: seq<Block>, total: u64) {
    total <= 0xFFFF_FFFF_FFFF_FFF8 || BestFit(bs, Round(total)).None?
  }

  /** The block `kcalloc` hands out holds `num * size` bytes exactly when neither the product nor rounding it wraps
  around. */
  lemma CallocCovers(bs: seq<Block>, num: u64, size: u64)
    requires HeapList.Valid(bs) && Malloc(bs, Wrap(num * size)).1 != 0
    ensures var (bs', p) := Malloc(bs, Wrap(num * size));
      Live(bs', p) && (num * size <= bs'[Index(bs', p)].size <==> num * size <= 0xFFFF_FFFF_FFFF_FFF8)
  {
    ProductCovered(bs, num * size);
  }

  lemma ProductCovered(bs: seq<Block>, product: nat)
    requires HeapList.Valid(bs) && Malloc(bs, Wrap(product)).1 != 0
    ensures var (bs', p) := Malloc(bs, Wrap(product));
      Live(bs', p) && (product <= bs'[Index(bs', p)].size <==> product <= 0xFFFF_FFFF_FFFF_FFF8)
  {
    var total := Wrap(product);
    var (bs', p) := Malloc(bs, total);
    MallocIsBestFit(bs, total);
    var c := NewBlock(bs, total, bs', p);
    UsedLive(bs', c);
    PayloadAligned(bs', c);
    GrantedSize(bs, total, c);
  }

  /** A request is granted at least what it asks for, or at most 64 bytes where rounding it wraps around. */
  lemma GrantedSize(bs: seq<Block>, size: u64, c: Block)
    requires Tiles(bs) && TakenFrom(bs, size, c)
    ensures if size <= 0xFFFF_FFFF_FFFF_FFF8 then size <= c.size else c.size <= 64
  {
    var i: nat :| IsBest(bs, Round(size), i) && c == Taken(bs[i], Round(size));
    assert BlockOk(bs, i);
    TakenSize(bs[i], size);
  }

  /** When `krealloc` moves a live block, the new block has room for the old payload it copies exactly when rounding the
  request does not wrap around or what the best free block is cut down to is large enough. */
  lemma ReallocFits(bs: seq<Block>, p: nat, size: u64)
    requires HeapList.Valid(bs) && Live(bs, p) && bs[Index(bs, p)].size < size && Malloc(bs, size).1 != 0
    ensures var (bs', q) := Malloc(bs, size);
      Live(bs', q) && (bs[Index(bs, p)].size <= bs'[Index(bs', q)].size <==> CopyFits(bs, bs[Index(bs, p)], size))
  {
    var (bs', q) := Malloc(bs, size);
    MallocIsBestFit(bs, size);
    var c := NewBlock(bs, size, bs', q);
    UsedLive(bs', c);
    RoundCovers(size);
    forall i: nat | IsBest(bs, Round(size), i) ensures c == Taken(bs[i], Round(size)) {
      BestFitIs(bs, Round(size), i);
      var j: nat :| IsBest(bs, Round(size), j) && c == Taken(bs[j], Round(size));
      BestFitIs(bs, Round(size), j);
    }
  }

  lemma TakenSize(b: Block, size: u64)
    requires Fits(b, Round(size)) && b.size % 8 == 0
    ensures var taken := Taken(b, Round(size)).size;
      if size <= 0xFFFF_FFFF_FFFF_FFF8 then size <= taken else taken <= 64
  {
    RoundCovers(size);
  }

  /** For instance: a heap whose first block is a live one of 96 bytes, asked to grow it to 2^64 - 7 bytes. The new
  block has 32. */
  lemma ReallocMisfit()
    ensures var bs := [Block(HEAP_START, 96, true), Block(HEAP_START + 128, 0x10_0000 - 160, false)];
      var (bs', q) := Malloc(bs, 0xFFFF_FFFF_FFFF_FFF9);
      && HeapList.Valid(bs) && Live(bs, HEAP_START + 32)
      && q != 0 && Live(bs', q) && bs'[Index(bs', q)].size < 96
  {
    var bs := [Block(HEAP_START, 96, true), Block(HEAP_START + 128, 0x10_0000 - 160, false)];
    assert BlockOk(bs, 0) && BlockOk(bs, 1);
    assert IsAt(bs, HEAP_START + 32, 0) && bs[0].used;
    HugeRequestIsTiny();
    assert IsBest(bs, 32, 1);
    BestFitIs(bs, 32, 1);
    IndexIs(bs, HEAP_START + 32, 0);
    ReallocFits(bs, HEAP_START + 32, 0xFFFF_FFFF_FFFF_FFF9);
  }
}
