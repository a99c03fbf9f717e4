/** The kernel heap in memory: 32-byte headers linked both ways, and the payloads between them.

Memory is addressed in 8-byte words. A header at `a` keeps its size at `a`, the used flag in the low byte at `a + 8`,
and the addresses of its neighbours at `a + 16` (next) and `a + 24` (previous), 0 for none. */
module HeapMemory {
  import opened Words
  import opened HeapList
  import opened HeapProofs

  type Memory = map<nat, u64>

  predicate InHeapWords(a: nat) {
    HEAP_START <= a < HEAP_END && a % 8 == 0
  }

  ghost predicate Mapped(w: Memory) {
    forall a: nat {:trigger InHeapWords(a)} :: InHeapWords(a) ==> a in w
  }

  function NextPtr(bs: seq<Block>, i: nat): nat {
    if i + 1 < |bs| then bs[i + 1].addr else 0
  }

  function PrevPtr(bs: seq<Block>, i: nat): nat {
    if 0 < i <= |bs| then bs[i - 1].addr else 0
  }

  predicate FlagSet(word: u64) { word % 256 != 0 }

  /** Storing a `bool` writes one byte. */
  function WithFlag(word: u64, flag: bool): (r: u64)
    ensures FlagSet(r) == flag
  {
    word - word % 256 + if flag then 1 else 0
  }

  predicate Header(w: Memory, a: nat, size: nat, used: bool, next: nat, prev: nat) {
    && a in w && a + 8 in w && a + 16 in w && a + 24 in w
    && w[a] == size && FlagSet(w[a + 8]) == used && w[a + 16] == next && w[a + 24] == prev
  }

  predicate HeaderOk(w: Memory, bs: seq<Block>, i: nat)
    requires i < |bs|
  {
    Header(w, bs[i].addr, bs[i].size, bs[i].used, NextPtr(bs, i), PrevPtr(bs, i))
  }

  /** The linked headers in memory are the list. */
  ghost predicate Represents(w: Memory, bs: seq<Block>) {
    forall i :: 0 <= i < |bs| ==> HeaderOk(w, bs, i)
  }

  /** Two memories differ at most in the given words. */
  ghost predicate SameBut(w: Memory, w': Memory, changed: set<nat>) {
    w'.Keys == w.Keys && forall a :: a in w && a !in changed ==> w'[a] == w[a]
  }

  // ---------------------------------------------------------------- what header updates mean for the list

  /** A header untouched by an update, whose neighbours stay where they were. */
  lemma HeaderKept(w: Memory, w': Memory, changed: set<nat>, bs: seq<Block>, i: nat, bs': seq<Block>, j: nat)
    requires SameBut(w, w', changed) && i < |bs| && j < |bs'| && HeaderOk(w, bs, i)
    requires bs'[j] == bs[i] && NextPtr(bs', j) == NextPtr(bs, i) && PrevPtr(bs', j) == PrevPtr(bs, i)
    requires forall a :: a in changed ==> a < bs[i].addr || bs[i].addr + 32 <= a
    ensures HeaderOk(w', bs', j)
  {
  }

  lemma FlagRepresents(w: Memory, w': Memory, bs: seq<Block>, i: nat, used: bool)
    requires Tiles(bs) && Represents(w, bs) && i < |bs|
    requires SameBut(w, w', {bs[i].addr + 8}) && bs[i].addr + 8 in w' && FlagSet(w'[bs[i].addr + 8]) == used
    ensures Represents(w', bs[i := bs[i].(used := used)])
  {
    var bs' := bs[i := bs[i].(used := used)];
    forall j | 0 <= j < |bs'| ensures HeaderOk(w', bs', j) {
      assert HeaderOk(w, bs, j);
      if j < i {
        Ordered(bs, j, i);
      } else if i < j {
        Ordered(bs, i, j);
      }
    }
  }

  /** The words `kmalloc` writes when it splits block `i`, the flag of the block itself excepted. */
  ghost predicate SplitWords(w: Memory, w': Memory, bs: seq<Block>, i: nat, n: nat)
    requires i < |bs|
  {
    var a, rest := bs[i].addr, bs[i].addr + 32 + n;
    && n + 40 <= bs[i].size && n % 8 == 0
    && SameBut(w, w', {a, a + 16, rest, rest + 8, rest + 16, rest + 24, NextPtr(bs, i) + 24})
    && Header(w', rest, bs[i].size - n - 32, false, NextPtr(bs, i), a)
    && a in w' && a + 16 in w' && w'[a] == n && w'[a + 16] == rest
    && (i + 1 < |bs| ==> NextPtr(bs, i) + 24 in w' && w'[NextPtr(bs, i) + 24] == rest)
  }

  /** The stores of a split, in order. */
  function SplitStores(w: Memory, a: u64, rest: u64, next: u64, size: u64, left: u64): Memory
    requires rest + 8 in w
  {
    var w1 := w[rest := left][rest + 8 := WithFlag(w[rest + 8], false)][rest + 16 := next][rest + 24 := a];
    var w2 := if next != 0 then w1[next + 24 := rest] else w1;
    w2[a + 16 := rest][a := size]
  }

  lemma SplitStored(w: Memory, a: u64, rest: u64, next: u64, size: u64, left: u64)
    requires {a, a + 16, rest, rest + 8, rest + 16, rest + 24} <= w.Keys && a + 32 <= rest
    requires next != 0 ==> rest + 32 <= next && next + 24 in w
    ensures StoredSplit(w, SplitStores(w, a, rest, next, size, left), a, rest, next, size, left)
  {
  }

  /** What those stores leave. */
  ghost predicate StoredSplit(w: Memory, w': Memory, a: nat, rest: nat, next: nat, size: nat, left: nat) {
    && SameBut(w, w', {a, a + 16, rest, rest + 8, rest + 16, rest + 24, next + 24})
    && Header(w', rest, left, false, next, a) && a in w' && a + 16 in w' && w'[a] == size && w'[a + 16] == rest
    && (next != 0 ==> next + 24 in w' && w'[next + 24] == rest)
  }

  lemma SplitWordsFrom(w: Memory, w': Memory, bs: seq<Block>, i: nat, n: nat)
    requires i < |bs| && n + 40 <= bs[i].size && n % 8 == 0 && (i + 1 < |bs| ==> NextPtr(bs, i) != 0)
    requires StoredSplit(w, w', bs[i].addr, bs[i].addr + 32 + n, NextPtr(bs, i), n, bs[i].size - n - 32)
    ensures SplitWords(w, w', bs, i, n)
  {
  }

  /** The list after a split and before the block is marked. */
  function SplitOff(bs: seq<Block>, i: nat, n: nat): seq<Block>
    requires i < |bs| && n + 40 <= bs[i].size
  {
    var b := bs[i];
    bs[..i] + [b.(size := n), Block(b.addr + 32 + n, b.size - n - 32, false)] + bs[i + 1..]
  }

  lemma SplitRepresents(w: Memory, w': Memory, bs: seq<Block>, i: nat, n: nat)
    requires Tiles(bs) && Represents(w, bs) && i < |bs| && SplitWords(w, w', bs, i, n)
    ensures Represents(w', SplitOff(bs, i, n))
  {
    var bs' := SplitOff(bs, i, n);
    forall j | 0 <= j < |bs'| ensures HeaderOk(w', bs', j) {
      if j < i {
        SplitBefore(w, w', bs, i, n, j);
      } else if j == i {
        SplitFront(w, w', bs, i, n);
      } else if j == i + 1 {
        SplitRest(w, w', bs, i, n);
      } else if j == i + 2 {
        SplitNext(w, w', bs, i, n);
      } else {
        SplitBehind(w, w', bs, i, n, j);
      }
    }
  }

  lemma SplitFront(w: Memory, w': Memory, bs: seq<Block>, i: nat, n: nat)
    requires Tiles(bs) && Represents(w, bs) && i < |bs| && SplitWords(w, w', bs, i, n)
    ensures HeaderOk(w', SplitOff(bs, i, n), i)
  {
    assert BlockOk(bs, i) && HeaderOk(w, bs, i);
    InHeap(bs, i);
  }

  lemma SplitRest(w: Memory, w': Memory, bs: seq<Block>, i: nat, n: nat)
    requires Tiles(bs) && Represents(w, bs) && i < |bs| && SplitWords(w, w', bs, i, n)
    ensures HeaderOk(w', SplitOff(bs, i, n), i + 1)
  {
    assert BlockOk(bs, i);
  }

  lemma SplitNext(w: Memory, w': Memory, bs: seq<Block>, i: nat, n: nat)
    requires Tiles(bs) && Represents(w, bs) && i + 1 < |bs| && SplitWords(w, w', bs, i, n)
    ensures HeaderOk(w', SplitOff(bs, i, n), i + 2)
  {
    assert BlockOk(bs, i) && HeaderOk(w, bs, i + 1);
    InHeap(bs, i);
  }

  lemma SplitBefore(w: Memory, w': Memory, bs: seq<Block>, i: nat, n: nat, j: nat)
    requires Tiles(bs) && Represents(w, bs) && j < i < |bs| && SplitWords(w, w', bs, i, n)
    ensures HeaderOk(w', SplitOff(bs, i, n), j)
  {
    var a, rest := bs[i].addr, bs[i].addr + 32 + n;
    var changed := {a, a + 16, rest, rest + 8, rest + 16, rest + 24, NextPtr(bs, i) + 24};
    Ordered(bs, j, i);
    if i + 1 < |bs| {
      assert BlockOk(bs, i);
    } else {
      InHeap(bs, j);
    }
    HeaderKept(w, w', changed, bs, j, SplitOff(bs, i, n), j);
  }

  lemma SplitBehind(w: Memory, w': Memory, bs: seq<Block>, i: nat, n: nat, j: nat)
    requires Tiles(bs) && Represents(w, bs) && i + 2 < j <= |bs| && i < |bs| && SplitWords(w, w', bs, i, n)
    ensures HeaderOk(w', SplitOff(bs, i, n), j)
  {
    var a, rest := bs[i].addr, bs[i].addr + 32 + n;
    var changed := {a, a + 16, rest, rest + 8, rest + 16, rest + 24, NextPtr(bs, i) + 24};
    Ordered(bs, i + 1, j - 1);
    assert BlockOk(bs, i);
    HeaderKept(w, w', changed, bs, j - 1, SplitOff(bs, i, n), j);
  }

  /** The words written when block `i` absorbs block `i + 1`. */
  ghost predicate MergeWords(w: Memory, w': Memory, bs: seq<Block>, i: nat)
    requires i + 1 < |bs|
  {
    var a, beyond := bs[i].addr, NextPtr(bs, i + 1);
    && SameBut(w, w', {a, a + 16, beyond + 24})
    && a in w' && a + 16 in w' && w'[a] == bs[i].size + bs[i + 1].size + 32 && w'[a + 16] == beyond
    && (i + 2 < |bs| ==> beyond + 24 in w' && w'[beyond + 24] == a)
  }

  lemma MergeRepresents(w: Memory, w': Memory, bs: seq<Block>, i: nat)
    requires Tiles(bs) && Represents(w, bs) && i + 1 < |bs| && MergeWords(w, w', bs, i)
    ensures Represents(w', Merge(bs, i))
  {
    var bs' := Merge(bs, i);
    var changed := {bs[i].addr, bs[i].addr + 16, NextPtr(bs, i + 1) + 24};
    assert BlockOk(bs, i) && BlockOk(bs, i + 1);
    InHeap(bs, i);
    forall j | 0 <= j < |bs'| ensures HeaderOk(w', bs', j) {
      if j < i {
        assert HeaderOk(w, bs, j);
        Ordered(bs, j, i);
        HeaderKept(w, w', changed, bs, j, bs', j);
      } else if j == i {
        assert HeaderOk(w, bs, i);
      } else if j == i + 1 {
        assert HeaderOk(w, bs, i + 2);
      } else {
        assert HeaderOk(w, bs, j + 1);
        Ordered(bs, i + 2, j + 1);
        HeaderKept(w, w', changed, bs, j + 1, bs', j);
      }
    }
  }

  // ---------------------------------------------------------------- payloads

  ghost predicate InPayload(used: set<Block>, a: nat) {
    exists b :: b in used && b.Payload() <= a < b.End()
  }

  /** No word of a payload in use has changed. */
  ghost predicate KeepsPayloads(used: set<Block>, w: Memory, w': Memory) {
    forall a :: a in w && InPayload(used, a) ==> a in w' && w'[a] == w[a]
  }

  /** Headers, and whatever lies in a free block, are outside all payloads in use. */
  lemma OutsidePayloads(bs: seq<Block>, k: nat, a: nat)
    requires Tiles(bs) && k < |bs|
    requires bs[k].addr <= a < bs[k].addr + 32 || (!bs[k].used && bs[k].addr <= a < bs[k].End())
    ensures !InPayload(Used(bs), a)
  {
    forall b | b in Used(bs) ensures !(b.Payload() <= a < b.End()) {
      PayloadsApart(bs, b, k);
      InHeap(bs, k);
    }
  }

  lemma NullOutsidePayloads(bs: seq<Block>)
    requires Tiles(bs)
    ensures !InPayload(Used(bs), 24)
  {
    forall b | b in Used(bs) ensures HEAP_START <= b.Payload() {
      PayloadsApart(bs, b, 0);
    }
  }

  lemma NextOutside(bs: seq<Block>, i: nat)
    requires Tiles(bs) && i < |bs|
    ensures !InPayload(Used(bs), NextPtr(bs, i) + 24)
  {
    if i + 1 < |bs| {
      OutsidePayloads(bs, i + 1, NextPtr(bs, i) + 24);
    } else {
      NullOutsidePayloads(bs);
    }
  }

  lemma SplitKeepsPayloads(w: Memory, w': Memory, bs: seq<Block>, i: nat, n: nat)
    requires Tiles(bs) && i < |bs| && !bs[i].used && SplitWords(w, w', bs, i, n)
    ensures KeepsPayloads(Used(bs), w, w')
  {
    var rest := bs[i].addr + 32 + n;
    OutsidePayloads(bs, i, bs[i].addr);
    OutsidePayloads(bs, i, bs[i].addr + 16);
    OutsidePayloads(bs, i, rest);
    OutsidePayloads(bs, i, rest + 8);
    OutsidePayloads(bs, i, rest + 16);
    OutsidePayloads(bs, i, rest + 24);
    NextOutside(bs, i);
  }

  lemma MergeKeepsPayloads(w: Memory, w': Memory, bs: seq<Block>, i: nat)
    requires Tiles(bs) && i + 1 < |bs| && MergeWords(w, w', bs, i)
    ensures KeepsPayloads(Used(bs), w, w')
  {
    OutsidePayloads(bs, i, bs[i].addr);
    OutsidePayloads(bs, i, bs[i].addr + 16);
    NextOutside(bs, i + 1);
  }

  lemma FlagKeepsPayloads(w: Memory, w': Memory, bs: seq<Block>, i: nat)
    requires Tiles(bs) && i < |bs| && SameBut(w, w', {bs[i].addr + 8})
    ensures KeepsPayloads(Used(bs), w, w')
  {
    OutsidePayloads(bs, i, bs[i].addr + 8);
  }

  lemma KeepsBoth(used: set<Block>, w: Memory, w': Memory, w'': Memory)
    requires KeepsPayloads(used, w, w') && KeepsPayloads(used, w', w'')
    ensures KeepsPayloads(used, w, w'')
  {
  }

  lemma KeepsFewer(used: set<Block>, fewer: set<Block>, w: Memory, w': Memory)
    requires KeepsPayloads(used, w, w') && fewer <= used
    ensures KeepsPayloads(fewer, w, w')
  {
  }
}
