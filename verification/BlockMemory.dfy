/** Copying and filling memory: kernel/src/simd/simd.c and kernel/src/libc/string/memmove.c.

Memory is an array of bytes indexed by address, so that alignment is a property of the index. */
module BlockMemory {

  type Bytes = seq<bv8>

  /** What copying promises (C11, sections 7.24.2.1 and 7.24.2.2): `n` bytes at `dst` become the old bytes at `src`. */
  function Copied(m: Bytes, dst: nat, src: nat, n: nat): Bytes
    requires dst + n <= |m| && src + n <= |m|
  {
    m[..dst] + m[src..src + n] + m[dst + n..]
  }

  /** What filling promises (C11, section 7.24.6.1). */
  function Filled(m: Bytes, dst: nat, value: bv8, n: nat): Bytes
    requires dst + n <= |m|
  {
    m[..dst] + seq(n, _ => value) + m[dst + n..]
  }

  /** The simple loop, one byte after the other from the lowest address up. */
  function ByteLoop(m: Bytes, dst: nat, src: nat, n: nat): (r: Bytes)
    requires dst + n <= |m| && src + n <= |m|
    ensures |r| == |m|
  {
    if n == 0 then m
    else
      var r := ByteLoop(m, dst, src, n - 1);
      r[dst + n - 1 := r[src + n - 1]]
  }

  // ---------------------------------------------------------------- the simple loop against the promise

  /** One more byte of a copy. */
  lemma CopyFurther(m: Bytes, dst: nat, src: nat, n: nat)
    requires dst + n < |m| && src + n < |m| && !(src < dst <= src + n)
    ensures var r := Copied(m, dst, src, n); r[dst + n := r[src + n]] == Copied(m, dst, src, n + 1)
  {
    var r := Copied(m, dst, src, n);
    assert r[src + n] == m[src + n];
    TakeOneMore(m, src, n);
  }

  lemma TakeOneMore(m: Bytes, src: nat, n: nat)
    requires src + n < |m|
    ensures m[src..src + (n + 1)] == m[src..src + n] + [m[src + n]]
  {
  }

  lemma {:induction false} LoopBytes(m: Bytes, dst: nat, src: nat, n: nat)
    requires dst + n <= |m| && src + n <= |m| && !(src < dst < src + n)
    ensures ByteLoop(m, dst, src, n) == Copied(m, dst, src, n)
  {
    if n != 0 {
      LoopBytes(m, dst, src, n - 1);
      CopyFurther(m, dst, src, n - 1);
    }
  }

  /** Memory holding a single one, at `src`. */
  function OneAt(src: nat, size: nat): (m: Bytes)
    ensures |m| == size && forall i :: 0 <= i < size ==> m[i] == if i == src then 1 else 0
  {
    seq(size, i => if i == src then 1 else 0)
  }

  /** Bytes below the target of the loop keep their values; the target's own bytes follow the source's new ones. */
  lemma {:induction false} LoopFollows(m: Bytes, dst: nat, src: nat, n: nat, k: nat)
    requires dst + n <= |m| && src < dst && k < n
    ensures ByteLoop(m, dst, src, n)[dst + k] == ByteLoop(m, dst, src, n)[src + k]
    ensures ByteLoop(m, dst, src, n)[src] == m[src]
  {
    if k < n - 1 {
      LoopFollows(m, dst, src, n - 1, k);
    } else if n != 1 {
      LoopFollows(m, dst, src, n - 1, 0);
    }
  }

  /** The simple loop copies, whatever memory holds, exactly when the target does not begin inside the source. */
  lemma LoopCopiesIff(size: nat, dst: nat, src: nat, n: nat)
    requires dst + n <= size && src + n <= size
    ensures (forall m: Bytes :: |m| == size ==> ByteLoop(m, dst, src, n) == Copied(m, dst, src, n))
       <==> !(src < dst < src + n)
  {
    if src < dst < src + n {
      var m := OneAt(src, size);
      LoopFollows(m, dst, src, n, 0);
      LoopFollows(m, dst, src, n, dst - src);
      var copied := Copied(m, dst, src, n);
      assert copied[dst + (dst - src)] == m[dst];
      assert ByteLoop(m, dst, src, n) != copied;
    } else {
      forall m: Bytes | |m| == size ensures ByteLoop(m, dst, src, n) == Copied(m, dst, src, n) {
        LoopBytes(m, dst, src, n);
      }
    }
  }

  // ---------------------------------------------------------------- sixteen bytes at a time

  /** The loop can be interrupted. */
  lemma {:induction false} LoopSplits(m: Bytes, dst: nat, src: nat, k: nat, j: nat)
    requires dst + k + j <= |m| && src + k + j <= |m|
    ensures ByteLoop(m, dst, src, k + j) == ByteLoop(ByteLoop(m, dst, src, k), dst + k, src + k, j)
  {
    if j != 0 {
      LoopSplits(m, dst, src, k, j - 1);
    }
  }

  /** Sixteen bytes read before any is written do what as many steps of the loop do, unless a step reads what one of
  them wrote. */
  lemma ChunkThenLoop(m: Bytes, dst: nat, src: nat, j: nat)
    requires dst + 16 + j <= |m| && src + 16 + j <= |m| && !(src < dst < src + 16)
    ensures ByteLoop(Copied(m, dst, src, 16), dst + 16, src + 16, j) == ByteLoop(m, dst, src, 16 + j)
  {
    LoopBytes(m, dst, src, 16);
    LoopSplits(m, dst, src, 16, j);
  }

  // ---------------------------------------------------------------- memcpy_simd as a function of memory

  /** The number of bytes before the next multiple of sixteen. */
  function Head(dst: nat): (h: nat)
    ensures h < 16 && (dst + h) % 16 == 0
  {
    (16 - dst % 16) % 16
  }

  /** No earlier address is aligned. */
  lemma HeadIsLeast(dst: nat, k: nat)
    requires k <= Head(dst) && (dst + k) % 16 == 0
    ensures k == Head(dst)
  {
    var q := (dst + k) / 16;
    var t := (dst + Head(dst)) / 16;
    assert Head(dst) - k == 16 * (t - q);
  }

  /** `c` blocks of sixteen bytes, each read before it is written. */
  function Chunks(m: Bytes, dst: nat, src: nat, c: nat): (r: Bytes)
    requires dst + 16 * c <= |m| && src + 16 * c <= |m|
    ensures |r| == |m|
    decreases c
  {
    if c == 0 then m
    else Chunks(Copied(m, dst, src, 16), dst + 16, src + 16, c - 1)
  }

  /** `h` bytes one by one, then `c` blocks, then the last bytes one by one. */
  function InThree(m: Bytes, dst: nat, src: nat, n: nat, h: nat, c: nat): (r: Bytes)
    requires dst + n <= |m| && src + n <= |m| && h + 16 * c <= n
    ensures |r| == |m|
  {
    var k := h + 16 * c;
    ByteLoop(Chunks(ByteLoop(m, dst, src, h), dst + h, src + h, c), dst + k, src + k, n - k)
  }

  /** The bytes up to an aligned address one by one, then as many blocks as fit; few bytes are copied one by one. */
  function SimdCopy(m: Bytes, dst: nat, src: nat, n: nat): Bytes
    requires dst + n <= |m| && src + n <= |m|
  {
    if n < 32 then ByteLoop(m, dst, src, n)
    else InThree(m, dst, src, n, Head(dst), (n - Head(dst)) / 16)
  }

  /** Blocks do what the loop does. */
  lemma {:induction false} ChunksAreLoop(m: Bytes, dst: nat, src: nat, c: nat)
    requires dst + 16 * c <= |m| && src + 16 * c <= |m| && !(src < dst < src + 16)
    ensures Chunks(m, dst, src, c) == ByteLoop(m, dst, src, 16 * c)
    decreases c
  {
    if c != 0 {
      ChunksAreLoop(Copied(m, dst, src, 16), dst + 16, src + 16, c - 1);
      ChunkThenLoop(m, dst, src, 16 * (c - 1));
    }
  }

  lemma ThreeAreLoop(m: Bytes, dst: nat, src: nat, n: nat, h: nat, c: nat)
    requires dst + n <= |m| && src + n <= |m| && h + 16 * c <= n && !(src < dst < src + 16)
    ensures InThree(m, dst, src, n, h, c) == ByteLoop(m, dst, src, n)
  {
    ChunksAreLoop(ByteLoop(m, dst, src, h), dst + h, src + h, c);
    LoopSplits(m, dst, src, h, 16 * c);
    LoopSplits(m, dst, src, h + 16 * c, n - h - 16 * c);
  }

  lemma SimdIsLoop(m: Bytes, dst: nat, src: nat, n: nat)
    requires dst + n <= |m| && src + n <= |m| && (n < 32 || !(src < dst < src + 16))
    ensures SimdCopy(m, dst, src, n) == ByteLoop(m, dst, src, n)
  {
    if n >= 32 {
      ThreeAreLoop(m, dst, src, n, Head(dst), (n - Head(dst)) / 16);
    }
  }

  /** The loop writes nothing below its target. */
  lemma {:induction false} LoopBelow(m: Bytes, dst: nat, src: nat, n: nat, i: nat)
    requires dst + n <= |m| && src + n <= |m| && (i < dst || dst + n <= i < |m|)
    ensures ByteLoop(m, dst, src, n)[i] == m[i]
  {
    if n != 0 {
      LoopBelow(m, dst, src, n - 1, i);
    }
  }

  /** Its first byte is the source's. */
  lemma {:induction false} LoopFirst(m: Bytes, dst: nat, src: nat, n: nat)
    requires dst + n <= |m| && src + n <= |m| && n > 0
    ensures ByteLoop(m, dst, src, n)[dst] == m[src]
  {
    if n == 1 {
      assert ByteLoop(m, dst, src, 0) == m;
    } else {
      LoopFirst(m, dst, src, n - 1);
    }
  }

  /** Blocks write nothing below the first. */
  lemma {:induction false} ChunksBelow(m: Bytes, dst: nat, src: nat, c: nat, i: nat)
    requires dst + 16 * c <= |m| && src + 16 * c <= |m| && i < dst
    ensures Chunks(m, dst, src, c)[i] == m[i]
    decreases c
  {
    if c != 0 {
      ChunksBelow(Copied(m, dst, src, 16), dst + 16, src + 16, c - 1, i);
    }
  }

  /** What the first block wrote stays. */
  lemma FirstOfChunks(m: Bytes, dst: nat, src: nat, c: nat, i: nat)
    requires dst + 16 * c <= |m| && src + 16 * c <= |m| && c > 0 && i < dst + 16
    ensures Chunks(m, dst, src, c)[i] == Copied(m, dst, src, 16)[i]
  {
    ChunksBelow(Copied(m, dst, src, 16), dst + 16, src + 16, c - 1, i);
  }

  /** What the head and the first block wrote stays. */
  lemma FirstOfThree(m: Bytes, dst: nat, src: nat, n: nat, h: nat, c: nat, i: nat)
    requires dst + n <= |m| && src + n <= |m| && h + 16 * c <= n && c > 0 && i < dst + h + 16
    ensures InThree(m, dst, src, n, h, c)[i] == Copied(ByteLoop(m, dst, src, h), dst + h, src + h, 16)[i]
  {
    var r, k := ByteLoop(m, dst, src, h), h + 16 * c;
    FirstOfChunks(r, dst + h, src + h, c, i);
    LoopBelow(Chunks(r, dst + h, src + h, c), dst + k, src + k, n - k, i);
  }

  /** The byte behind the first block is read after that block was written. */
  lemma SecondOfThree(m: Bytes, dst: nat, src: nat, n: nat, c: nat)
    requires dst + n <= |m| && src + n <= |m| && 16 * c <= n && c > 1
    ensures InThree(m, dst, src, n, 0, c)[dst + 16] == Copied(m, dst, src, 16)[src + 16]
  {
    var r, k := Copied(m, dst, src, 16), 16 * c;
    assert ByteLoop(m, dst, src, 0) == m;
    FirstOfChunks(r, dst + 16, src + 16, c - 1, dst + 16);
    LoopBelow(Chunks(m, dst, src, c), dst + k, src + k, n - k, dst + 16);
  }

  /** What the loop reads below an address that holds zeros only, it leaves zero. */
  lemma {:induction false} LoopKeepsZeros(m: Bytes, dst: nat, src: nat, k: nat, top: nat)
    requires src < dst && dst + k <= top <= |m| && forall i :: 0 <= i < top ==> m[i] == 0
    ensures forall i :: 0 <= i < top ==> ByteLoop(m, dst, src, k)[i] == 0
  {
    if k != 0 {
      LoopKeepsZeros(m, dst, src, k - 1, top);
    }
  }

  /** A single one where the blocks begin: it is carried on by the blocks, while the loop has overwritten it. */
  lemma ThreeAreNotLoop(m: Bytes, dst: nat, src: nat, n: nat, h: nat, c: nat)
    requires dst + n <= |m| && h + 16 * c <= n && c > 0 && h < 16 && 32 <= n && src < dst < src + 16
    requires m == OneAt(dst + h, |m|)
    ensures InThree(m, dst, src, n, h, c) != ByteLoop(m, dst, src, n)
  {
    var g := dst - src;
    var r := ByteLoop(m, dst, src, h);
    LoopKeepsZeros(m, dst, src, h, dst + h);
    LoopBelow(m, dst, src, h, dst + h);
    assert r[src + h] == 0 && r[src + h + g] == 1;
    FirstOfThree(m, dst, src, n, h, c, dst + h);
    FirstOfThree(m, dst, src, n, h, c, dst + h + g);
    LoopFollows(m, dst, src, n, h + g);
  }

  /** A target less than sixteen bytes behind the source: memory the block moves and the loop leave different. */
  lemma SimdIsNotLoop(size: nat, dst: nat, src: nat, n: nat) returns (m: Bytes)
    requires dst + n <= size && n >= 32 && src < dst < src + 16
    ensures |m| == size && SimdCopy(m, dst, src, n) != ByteLoop(m, dst, src, n)
  {
    m := OneAt(dst + Head(dst), size);
    ThreeAreNotLoop(m, dst, src, n, Head(dst), (n - Head(dst)) / 16);
  }

  /** `memcpy_simd` does what the simple loop does, whatever memory holds, exactly when it is short or the target does
  not begin within the first sixteen bytes behind the beginning of the source. */
  lemma SimdIsLoopIff(size: nat, dst: nat, src: nat, n: nat)
    requires dst + n <= size && src + n <= size
    ensures (forall m: Bytes :: |m| == size ==> SimdCopy(m, dst, src, n) == ByteLoop(m, dst, src, n))
       <==> n < 32 || !(src < dst < src + 16)
  {
    if n < 32 || !(src < dst < src + 16) {
      forall m: Bytes | |m| == size ensures SimdCopy(m, dst, src, n) == ByteLoop(m, dst, src, n) {
        SimdIsLoop(m, dst, src, n);
      }
    } else {
      var m := SimdIsNotLoop(size, dst, src, n);
    }
  }

  /** A single one at the source, behind a head: the byte at which the source meets the target becomes a one too. */
  lemma HeadMiscopies(m: Bytes, dst: nat, src: nat, n: nat, h: nat, c: nat)
    requires dst + n <= |m| && h + 16 * c <= n && c > 0 && 0 < h < 16 && src < dst < src + 16
    requires m == OneAt(src, |m|)
    ensures InThree(m, dst, src, n, h, c) != Copied(m, dst, src, n)
  {
    var g := dst - src;
    FirstOfThree(m, dst, src, n, h, c, dst + g);
    LoopFirst(m, dst, src, h);
    if g < h {
      LoopFollows(m, dst, src, h, g);
    }
    assert Copied(m, dst, src, n)[dst + g] == m[dst];
  }

  /** A single one in the first block: the byte behind the block becomes a one too. */
  lemma BlockMiscopies(m: Bytes, dst: nat, src: nat, n: nat, c: nat)
    requires dst + n <= |m| && 16 * c <= n && c > 1 && src < dst < src + 16
    requires m == OneAt(2 * src + 16 - dst, |m|)
    ensures InThree(m, dst, src, n, 0, c) != Copied(m, dst, src, n)
  {
    SecondOfThree(m, dst, src, n, c);
    assert Copied(m, dst, src, n)[dst + 16] == m[src + 16];
  }

  /** Nor do the blocks copy then: one of them reads what the head or the block before it wrote. */
  lemma SimdMiscopies(size: nat, dst: nat, src: nat, n: nat) returns (m: Bytes)
    requires dst + n <= size && n >= 32 && src < dst < src + 16
    ensures |m| == size && SimdCopy(m, dst, src, n) != Copied(m, dst, src, n)
  {
    if Head(dst) == 0 {
      m := OneAt(2 * src + 16 - dst, size);
      BlockMiscopies(m, dst, src, n, n / 16);
    } else {
      m := OneAt(src, size);
      HeadMiscopies(m, dst, src, n, Head(dst), (n - Head(dst)) / 16);
    }
  }

  /** `memcpy_simd` copies, whatever memory holds, exactly when the target does not begin inside the source. */
  lemma SimdCopiesIff(size: nat, dst: nat, src: nat, n: nat)
    requires dst + n <= size && src + n <= size
    ensures (forall m: Bytes :: |m| == size ==> SimdCopy(m, dst, src, n) == Copied(m, dst, src, n))
       <==> !(src < dst < src + n)
  {
    if n < 32 || !(src < dst < src + 16) {
      forall m: Bytes | |m| == size ensures SimdCopy(m, dst, src, n) == ByteLoop(m, dst, src, n) {
        SimdIsLoop(m, dst, src, n);
      }
      LoopCopiesIff(size, dst, src, n);
    } else {
      var m := SimdMiscopies(size, dst, src, n);
    }
  }

  // ---------------------------------------------------------------- memcpy_simd in place

  /** One byte after the other. */
  method CopyBytes(mem: array<bv8>, dst: nat, src: nat, n: nat)
    requires dst + n <= mem.Length && src + n <= mem.Length
    modifies mem
    ensures mem[..] == ByteLoop(old(mem[..]), dst, src, n)
  {
    var i := 0;
    while i < n
      invariant 0 <= i <= n && mem[..] == ByteLoop(old(mem[..]), dst, src, i)
    {
      mem[dst + i] := mem[src + i];
      assert mem[..] == ByteLoop(old(mem[..]), dst, src, i + 1);
      i := i + 1;
    }
  }

  /** The two `movdqu` instructions: sixteen bytes read, then sixteen written. */
  method MoveChunk(mem: array<bv8>, d: nat, s: nat)
    requires d + 16 <= mem.Length && s + 16 <= mem.Length
    modifies mem
    ensures mem[..] == Copied(old(mem[..]), d, s, 16)
  {
    ghost var was := mem[..];
    var register := mem[s..s + 16];
    forall i | 0 <= i < 16 {
      mem[d + i] := register[i];
    }
    assert mem[..] == Copied(was, d, s, 16);
  }

  /** The head of `memcpy_simd`, up to an aligned address. */
  method CopyHead(mem: array<bv8>, dst: nat, src: nat, n: nat) returns (k: nat)
    requires dst + n <= mem.Length && src + n <= mem.Length && n >= 32
    modifies mem
    ensures k == Head(dst) && mem[..] == ByteLoop(old(mem[..]), dst, src, k)
  {
    k := 0;
    while k < n && (dst + k) % 16 != 0
      invariant 0 <= k <= Head(dst) && mem[..] == ByteLoop(old(mem[..]), dst, src, k)
    {
      mem[dst + k] := mem[src + k];
      assert mem[..] == ByteLoop(old(mem[..]), dst, src, k + 1);
      k := k + 1;
    }
    HeadIsLeast(dst, k);
  }

  /** One turn of its loop. */
  method MoveNext(mem: array<bv8>, d: nat, s: nat, ghost c: nat)
    requires c > 0 && d + 16 * c <= mem.Length && s + 16 * c <= mem.Length
    modifies mem
    ensures Chunks(mem[..], d + 16, s + 16, c - 1) == Chunks(old(mem[..]), d, s, c)
  {
    MoveChunk(mem, d, s);
  }

  /** The sixteen-byte loop of `memcpy_simd`. */
  method CopyChunks(mem: array<bv8>, dst: nat, src: nat, chunks: nat)
    requires dst + 16 * chunks <= mem.Length && src + 16 * chunks <= mem.Length
    modifies mem
    ensures mem[..] == Chunks(old(mem[..]), dst, src, chunks)
  {
    var d: nat, s: nat, i := dst, src, 0;
    ghost var left: nat, all := chunks, Chunks(mem[..], dst, src, chunks);
    while i < chunks
      invariant i + left == chunks && d + 16 * left <= mem.Length && s + 16 * left <= mem.Length
      invariant Chunks(mem[..], d, s, left) == all
    {
      MoveNext(mem, d, s, left);
      d, s, i, left := d + 16, s + 16, i + 1, left - 1;
    }
  }

  /** The blocks and the tail behind a head of `h` bytes. */
  method CopyBehind(mem: array<bv8>, dst: nat, src: nat, n: nat, h: nat, chunks: nat, ghost m: Bytes)
    requires |m| == mem.Length && dst + n <= mem.Length && src + n <= mem.Length && h + 16 * chunks <= n
    requires mem[..] == ByteLoop(m, dst, src, h)
    modifies mem
    ensures mem[..] == InThree(m, dst, src, n, h, chunks)
  {
    CopyChunks(mem, dst + h, src + h, chunks);
    var k := h + 16 * chunks;
    CopyBytes(mem, dst + k, src + k, n - k);
  }

  lemma SimdCopies(m: Bytes, dst: nat, src: nat, n: nat)
    requires dst + n <= |m| && src + n <= |m|
    ensures !(src < dst < src + n) ==> SimdCopy(m, dst, src, n) == Copied(m, dst, src, n)
  {
    SimdCopiesIff(|m|, dst, src, n);
  }

  /** Its long case. */
  method CopyInThree(mem: array<bv8>, dst: nat, src: nat, n: nat)
    requires dst + n <= mem.Length && src + n <= mem.Length && n >= 32
    modifies mem
    ensures mem[..] == InThree(old(mem[..]), dst, src, n, Head(dst), (n - Head(dst)) / 16)
  {
    ghost var m := mem[..];
    var k := CopyHead(mem, dst, src, n);
    CopyBehind(mem, dst, src, n, k, (n - k) / 16, m);
  }

  /** `memcpy_simd`; where the two areas are apart, as `restrict` asks, it copies. */
  method MemcpySimd(mem: array<bv8>, dst: nat, src: nat, n: nat) returns (r: nat)
    requires dst + n <= mem.Length && src + n <= mem.Length
    modifies mem
    ensures r == dst && mem[..] == SimdCopy(old(mem[..]), dst, src, n)
    ensures !(src < dst < src + n) ==> mem[..] == Copied(old(mem[..]), dst, src, n)
  {
    SimdCopies(mem[..], dst, src, n);
    if n < 32 {
      CopyBytes(mem, dst, src, n);
    } else {
      CopyInThree(mem, dst, src, n);
    }
    return dst;
  }

  /** `memset_simd`: head up to an aligned address, sixteen bytes at a time, tail. */
  method MemsetSimd(mem: array<bv8>, dst: nat, c: int, n: nat) returns (r: nat)
    requires dst + n <= mem.Length
    modifies mem
    ensures r == dst && mem[..] == Filled(old(mem[..]), dst, (c % 256) as bv8, n)
  {
    ghost var m := mem[..];
    var value := (c % 256) as bv8;
    FilledNothing(m, dst, value);
    if n == 0 {
      return dst;
    }
    if n < 32 {
      FillRest(mem, dst, value, 0, n, m);
      return dst;
    }
    var k := FillHead(mem, dst, value, n);
    k := FillChunks(mem, dst, value, k, (n - k) / 16, m);
    FillRest(mem, dst, value, k, n, m);
    return dst;
  }

  /** One turn of its loop. */
  method StoreNext(mem: array<bv8>, dst: nat, value: bv8, k: nat, ghost m: Bytes)
    requires |m| == mem.Length && dst + k + 16 <= mem.Length && mem[..] == Filled(m, dst, value, k)
    modifies mem
    ensures mem[..] == Filled(m, dst, value, k + 16)
  {
    FilledFurther(m, dst, value, k, 16);
    StoreChunk(mem, dst + k, value);
  }

  /** The sixteen-byte loop of `memset_simd`. */
  method FillChunks(mem: array<bv8>, dst: nat, value: bv8, head: nat, chunks: nat, ghost m: Bytes) returns (k: nat)
    requires |m| == mem.Length && dst + head + 16 * chunks <= mem.Length && mem[..] == Filled(m, dst, value, head)
    modifies mem
    ensures k == head + 16 * chunks && mem[..] == Filled(m, dst, value, k)
  {
    k := head;
    var i := 0;
    while i < chunks
      invariant 0 <= i <= chunks && k == head + 16 * i
      invariant mem[..] == Filled(m, dst, value, k)
    {
      StoreNext(mem, dst, value, k, m);
      k := k + 16;
      i := i + 1;
    }
  }

  lemma FilledNothing(m: Bytes, dst: nat, value: bv8)
    requires dst <= |m|
    ensures Filled(m, dst, value, 0) == m
  {
  }

  /** The head of `memset_simd`. */
  method FillHead(mem: array<bv8>, dst: nat, value: bv8, n: nat) returns (k: nat)
    requires dst + n <= mem.Length
    modifies mem
    ensures k <= n && mem[..] == Filled(old(mem[..]), dst, value, k)
    ensures k == n || (dst + k) % 16 == 0
  {
    k := 0;
    while k < n && (dst + k) % 16 != 0
      invariant 0 <= k <= n && mem[..] == Filled(old(mem[..]), dst, value, k)
    {
      mem[dst + k] := value;
      assert mem[..] == Filled(old(mem[..]), dst, value, k + 1);
      k := k + 1;
    }
  }

  method StoreChunk(mem: array<bv8>, d: nat, value: bv8)
    requires d + 16 <= mem.Length
    modifies mem
    ensures mem[..] == Filled(old(mem[..]), d, value, 16)
  {
    ghost var was := mem[..];
    forall i | 0 <= i < 16 {
      mem[d + i] := value;
    }
    assert mem[..] == Filled(was, d, value, 16);
  }

  lemma FilledFurther(m: Bytes, dst: nat, value: bv8, k: nat, j: nat)
    requires dst + k + j <= |m|
    ensures Filled(Filled(m, dst, value, k), dst + k, value, j) == Filled(m, dst, value, k + j)
  {
  }

  /** Its short case and its tail. */
  method FillRest(mem: array<bv8>, dst: nat, value: bv8, start: nat, n: nat, ghost m: Bytes)
    requires start <= n && |m| == mem.Length && dst + n <= mem.Length && mem[..] == Filled(m, dst, value, start)
    modifies mem
    ensures mem[..] == Filled(m, dst, value, n)
  {
    var k := start;
    while k < n
      invariant start <= k <= n && mem[..] == Filled(m, dst, value, k)
    {
      mem[dst + k] := value;
      assert mem[..] == Filled(m, dst, value, k + 1);
      k := k + 1;
    }
  }

  // ---------------------------------------------------------------- memmove

  /** `memmove` copies for every overlap: forward when the source lies above the target, backward when below. */
  method Memmove(mem: array<bv8>, dst: nat, src: nat, n: nat) returns (r: nat)
    requires dst + n <= mem.Length && src + n <= mem.Length
    modifies mem
    ensures r == dst && mem[..] == Copied(old(mem[..]), dst, src, n)
  {
    if src > dst {
      LoopBytes(mem[..], dst, src, n);
      CopyBytes(mem, dst, src, n);
    } else if src < dst {
      MoveBackward(mem, dst, src, n);
    } else {
      assert mem[..] == Copied(mem[..], dst, src, n);
    }
    return dst;
  }

  method MoveBackward(mem: array<bv8>, dst: nat, src: nat, n: nat)
    requires dst + n <= mem.Length && src + n <= mem.Length && src < dst
    modifies mem
    ensures mem[..] == Copied(old(mem[..]), dst, src, n)
  {
    ghost var m := mem[..];
    var i := n;
    MovedNothing(m, dst, src, n);
    while i > 0
      invariant 0 <= i <= n && Moved(mem[..], m, dst, src, i, n)
    {
      i := i - 1;
      MoveByteBack(mem, dst, src, i, n, m);
    }
    MovedIsCopied(mem[..], m, dst, src, n);
  }

  method MoveByteBack(mem: array<bv8>, dst: nat, src: nat, i: nat, ghost n: nat, ghost m: Bytes)
    requires i < n && src < dst && Moved(mem[..], m, dst, src, i + 1, n)
    modifies mem
    ensures Moved(mem[..], m, dst, src, i, n)
  {
    MovedFurther(mem[..], m, dst, src, i, n);
    mem[dst + i] := mem[src + i];
  }

  lemma MovedNothing(m: Bytes, dst: nat, src: nat, n: nat)
    requires dst + n <= |m| && src + n <= |m|
    ensures Moved(m, m, dst, src, n, n)
  {
  }

  /** Bytes `i` to `n` have been copied. */
  ghost predicate Moved(now: Bytes, m: Bytes, dst: nat, src: nat, i: nat, n: nat) {
    && |now| == |m| && dst + n <= |m| && src + n <= |m|
    && forall k {:trigger now[k]} :: 0 <= k < |m| ==>
      now[k] == if dst + i <= k < dst + n then m[src + (k - dst)] else m[k]
  }

  lemma MovedFurther(now: Bytes, m: Bytes, dst: nat, src: nat, i: nat, n: nat)
    requires i < n && src < dst && Moved(now, m, dst, src, i + 1, n)
    ensures Moved(now[dst + i := now[src + i]], m, dst, src, i, n)
  {
  }

  lemma MovedIsCopied(now: Bytes, m: Bytes, dst: nat, src: nat, n: nat)
    requires Moved(now, m, dst, src, 0, n)
    ensures now == Copied(m, dst, src, n)
  {
  }
}
