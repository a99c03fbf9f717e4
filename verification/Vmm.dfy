/** kernel/src/memory/vmm.c: address spaces, each a `vmm_space_t` in the kernel heap that points to its PML4. */
module Vmm {
  import opened Words
  import opened PageTables
  import opened TableForest
  import opened Mapping
  import opened Spaces
  import opened Lifecycle
  import opened Outcomes
  import opened Paging
  import opened KernelHeap
  import opened HeapMemory
  import HeapList
  import HeapProofs

  /** `(page_table_t*)(phys + hhdm_offset)`, in 64-bit arithmetic. */
  function Pointer(frame: nat, offset: u64): u64 {
    Wrap(frame * 0x1000 + offset)
  }

  /** The frame such a pointer leads to: `((uint64_t)pointer - hhdm_offset) / PAGE_SIZE`. */
  function Pointee(pointer: u64, offset: u64): nat {
    Frame(Wrap(pointer - offset))
  }

  /** The direct map is a bijection between frames and page-aligned pointers. */
  lemma PointerRoundTrip(frame: nat, offset: u64)
    requires frame * 0x1000 < 0x1_0000_0000_0000_0000
    ensures Wrap(Pointer(frame, offset) - offset) == frame * 0x1000 && Pointee(Pointer(frame, offset), offset) == frame
  {
    var x := frame * 0x1000;
    WrapCases(x + offset);
    WrapCases(Pointer(frame, offset) - offset);
    FrameOfPage(frame);
  }

  lemma WrapCases(x: int)
    ensures 0 <= x < 0x1_0000_0000_0000_0000 ==> Wrap(x) == x
    ensures 0x1_0000_0000_0000_0000 <= x < 0x2_0000_0000_0000_0000 ==> Wrap(x) == x - 0x1_0000_0000_0000_0000
    ensures -0x1_0000_0000_0000_0000 <= x < 0 ==> Wrap(x) == x + 0x1_0000_0000_0000_0000
  {
  }

  lemma FrameOfPage(frame: nat)
    ensures Frame(frame * 0x1000) == frame
  {
  }

  /** A `vmm_space_t` in memory: `pml4` and `hhdm_offset`. */
  predicate HoldsStruct(w: Memory, p: nat, root: nat, offset: u64) {
    p in w && p + 8 in w && w[p] == Pointer(root, offset) && w[p + 8] == offset
  }

  ghost predicate AllStructs(w: Memory, spaces: map<nat, Space>, offset: u64) {
    forall p :: p in spaces ==> HoldsStruct(w, p, spaces[p].root, offset)
  }

  class Kernel {
    const mmu: Mmu
    const heap: Heap
    const kernelRoot: nat  // kernel_space.pml4
    const hhdmOffset: u64
    ghost var spaces: map<nat, Space>

    ghost function System(): Sys
      reads this, mmu, mmu.pmm, heap
    {
      Sys(mmu.State(), heap.blocks, spaces)
    }

    /** The `vmm_space_t` at `p` holds the pointer to the root and the offset. */
    ghost predicate Valid()
      reads this, mmu, mmu.pmm, mmu.pmm.bitmap, heap
    {
      && mmu.pmm.Valid() && heap.Valid() && SysInv(System()) && kernelRoot == mmu.kernel
      && AllStructs(heap.memory, spaces, hhdmOffset)
    }

    /** After `vmm_init` and `heap_init`: no space but the kernel's. */
    constructor (mmu: Mmu, heap: Heap, offset: u64)
      requires mmu.Valid() && heap.Valid() && SysInv(Sys(mmu.State(), heap.blocks, map[]))
      requires Frame(mmu.cr3) == mmu.kernel
      ensures Valid() && this.mmu == mmu && this.heap == heap && hhdmOffset == offset && spaces == map[]
    {
      this.mmu, this.heap, this.hhdmOffset, this.spaces := mmu, heap, offset, map[];
      this.kernelRoot := Frame(mmu.cr3);
    }

    /** The root of a space, read through the heap as `space->pml4`. */
    method Root(p: nat) returns (root: nat)
      requires Valid() && p in spaces
      ensures root == spaces[p].root && root in mmu.ram
    {
      assert SpaceOk(System(), p) && HoldsStruct(heap.memory, p, spaces[p].root, hhdmOffset);
      RootFits(mmu.State(), spaces[p].root);
      PointerRoundTrip(spaces[p].root, hhdmOffset);
      root := Pointee(heap.memory[p], hhdmOffset);
    }

    /** `vmm_map_page`, of any frame. The invariant is kept where the frame is the space's to own. */
    method MapIn(p: nat, virtual: u64, physical: u64, flags: u64) returns (ok: bool)
      requires Valid() && (p == 0 || p in spaces)
      requires p in spaces ==> LowerHalf(Page(virtual))
      modifies mmu`ram, mmu`own, mmu.pmm`usedPages, mmu.pmm`taken, mmu.pmm.bitmap
      ensures mmu.pmm.Valid() && heap.Valid() && AllStructs(heap.memory, spaces, hhdmOffset)
      ensures (p != 0 ==> old(CanOwn(mmu.State(), spaces[p].root, Page(virtual), Entry(physical, flags)))) ==> Valid()
      ensures p == 0 ==> !ok && System() == old(System())
      ensures p != 0 ==> (System(), ok) == MapInto(old(System()), p, virtual, physical, flags)
      ensures p != 0 ==> IntoSpace(old(System()), System(), p, virtual, Entry(physical, flags), ok)
    {
      if p == 0 {
        return false;
      }
      MapIntoCan(System(), p, virtual);
      MapIntoMaps(System(), p, virtual, physical, flags);
      if CanOwn(mmu.State(), spaces[p].root, Page(virtual), Entry(physical, flags)) {
        MapIntoKeeps(System(), p, virtual, physical, flags);
      }
      ok := MapSpace(p, virtual, physical, flags);
    }

    method MapSpace(p: nat, virtual: u64, physical: u64, flags: u64) returns (ok: bool)
      requires Valid() && p in spaces && CanMap(mmu.State(), spaces[p].root, Page(virtual))
      modifies mmu`ram, mmu`own, mmu.pmm`usedPages, mmu.pmm`taken, mmu.pmm.bitmap
      ensures mmu.pmm.Valid()
      ensures (System(), ok) == MapInto(old(System()), p, virtual, physical, flags)
    {
      var root := Root(p);
      ok := mmu.MapRoot(root, virtual, physical, flags);
    }

    /** `vmm_create_space`. */
    method CreateSpace() returns (p: nat)
      requires Valid()
      modifies mmu`ram, mmu`own, mmu.pmm`usedPages, mmu.pmm`taken, mmu.pmm.bitmap, heap, this`spaces
      ensures Valid()
      ensures (System(), p) == Create(old(System()))
      ensures p == 0 <==> old(NoRoom(System()))
      ensures if p == 0 then System() == old(System()) else SpaceMade(old(System()), System(), p)
    {
      CreateKeepsInv(System());
      CreateMakes(System());
      p := MakeSpace();
    }

    method MakeSpace() returns (p: nat)
      requires Valid() && kernelRoot in mmu.ram
      modifies mmu`ram, mmu`own, mmu.pmm`usedPages, mmu.pmm`taken, mmu.pmm.bitmap, heap, this`spaces
      ensures mmu.pmm.Valid() && heap.Valid() && AllStructs(heap.memory, spaces, hhdmOffset)
      ensures (System(), p) == Create(old(System()))
    {
      ghost var s := System();
      AllocatedPage(mmu.pmm.State());
      var physical := mmu.pmm.AllocPages(1);
      if physical == 0 {
        return 0;
      }
      NotTheKernel(s.vm, Frame(physical));
      p := FillSpace(physical, s);
    }

    /** `vmm_create_space`, once there is a page for the root. */
    method FillSpace(physical: nat, ghost s: Sys) returns (p: nat)
      requires mmu.pmm.Valid() && kernelRoot in mmu.ram && kernelRoot == mmu.kernel && Frame(physical) != kernelRoot
      requires heap.Valid() && SysInv(s) && s.heap == heap.blocks && s.spaces == spaces
      requires AllStructs(heap.memory, spaces, hhdmOffset)
      requires physical != 0 && (mmu.pmm.State(), physical) == s.vm.pmm.AllocPages(1)
      requires mmu.State() == s.vm.(pmm := mmu.pmm.State())
      modifies mmu`ram, mmu`own, mmu.pmm`usedPages, mmu.pmm`taken, mmu.pmm.bitmap, heap, this`spaces
      ensures mmu.pmm.Valid() && heap.Valid() && AllStructs(heap.memory, spaces, hhdmOffset)
      ensures (System(), p) == Create(s)
    {
      p := NewStruct(Frame(physical), s);
      if p == 0 {
        mmu.pmm.FreePages(physical, 1);
        return 0;
      }
      Enter(Frame(physical), p);
    }

    /** The root of a new space, and its entry in the book of spaces. */
    method Enter(root: nat, p: nat)
      requires mmu.pmm.Valid() && heap.Valid()
      requires kernelRoot in mmu.ram && kernelRoot == mmu.kernel && root != kernelRoot
      requires AllStructs(heap.memory, spaces, hhdmOffset) && HeapList.Live(heap.blocks, p)
      requires HoldsStruct(heap.memory, p, root, hhdmOffset)
      modifies mmu`ram, mmu`own, this`spaces
      ensures mmu.State() == AddSpace(old(mmu.State()), root)
      ensures spaces == old(spaces)[p := Space(heap.blocks[HeapList.Index(heap.blocks, p)], root)]
      ensures AllStructs(heap.memory, spaces, hhdmOffset)
    {
      mmu.NewRoot(root, kernelRoot);
      spaces := spaces[p := Space(heap.blocks[HeapList.Index(heap.blocks, p)], root)];
    }

    /** The heap's part: the structure with its two fields. */
    method NewStruct(root: nat, ghost s: Sys) returns (p: nat)
      requires heap.Valid() && SysInv(s) && s.heap == heap.blocks && AllStructs(heap.memory, s.spaces, hhdmOffset)
      modifies heap
      ensures heap.Valid() && (heap.blocks, p) == HeapList.Malloc(s.heap, SPACE_SIZE)
      ensures AllStructs(heap.memory, s.spaces, hhdmOffset)
      ensures p != 0 ==> HeapList.Live(heap.blocks, p) && HoldsStruct(heap.memory, p, root, hhdmOffset)
    {
      ghost var w := heap.memory;
      p := heap.Kmalloc(SPACE_SIZE);
      if p != 0 {
        ghost var c := HeapProofs.NewBlock(s.heap, SPACE_SIZE, heap.blocks, p);
        ghost var w1 := heap.memory;
        WriteStruct(p, root, c);
        ClearKeeps(s.heap, heap.blocks, w, w1, heap.memory, c);
        HeapProofs.UsedLive(heap.blocks, c);
      }
      StructsKept(s, w, heap.memory, hhdmOffset);
    }

    /** `space->pml4 = ...; space->hhdm_offset = hhdm_offset`. */
    method WriteStruct(p: nat, root: nat, ghost c: HeapList.Block)
      requires heap.Valid() && c in HeapList.Used(heap.blocks) && p == c.Payload()
      modifies heap`memory
      ensures heap.Valid() && HoldsStruct(heap.memory, p, root, hhdmOffset) && heap.memory.Keys == old(heap.memory.Keys)
      ensures forall a :: a in heap.memory && !(c.Payload() <= a < c.End()) ==> heap.memory[a] == old(heap.memory[a])
    {
      StructFits(heap.memory, heap.blocks, c);
      heap.Store(p, Pointer(root, hhdmOffset), c);
      heap.Store(p + 8, hhdmOffset, c);
    }

    /** `vmm_destroy_space`. */
    method DestroySpaceAt(p: nat)
      requires Valid() && (p == 0 || p in spaces)
      modifies mmu`own, mmu.pmm`usedPages, mmu.pmm`taken, mmu.pmm.bitmap, heap, this`spaces
      ensures Valid()
      ensures System() == if p == 0 then old(System()) else Destroy(old(System()), p)
      ensures p != 0 ==> SpaceGone(old(System()), System(), p)
    {
      if p != 0 {
        DestroyKeepsInv(System(), p);
        DestroyUnmakes(System(), p);
        DropSpace(p);
      }
    }

    method DropSpace(p: nat)
      requires Valid() && p in spaces
      modifies mmu`own, mmu.pmm`usedPages, mmu.pmm`taken, mmu.pmm.bitmap, heap, this`spaces
      ensures mmu.pmm.Valid() && heap.Valid() && AllStructs(heap.memory, spaces, hhdmOffset)
      ensures System() == Destroy(old(System()), p)
    {
      ghost var s := System();
      assert SpaceOk(s, p);
      var root := Root(p);
      RootInRam(s.vm, root);
      mmu.FreeTree(root);
      FreeStruct(p, s);
      spaces := spaces - {p};
    }

    /** The heap's part. */
    method FreeStruct(p: nat, ghost s: Sys)
      requires heap.Valid() && SysInv(s) && s.heap == heap.blocks && s.spaces == spaces && p in spaces
      requires AllStructs(heap.memory, spaces, hhdmOffset)
      modifies heap
      ensures heap.Valid() && heap.blocks == HeapList.Free(old(heap.blocks), p)
      ensures AllStructs(heap.memory, spaces - {p}, hhdmOffset)
    {
      ghost var w := heap.memory;
      assert SpaceOk(s, p);
      SpacePointer(heap.memory, heap.blocks, spaces[p].block);
      FreeUses(s, p);
      heap.Kfree(p);
      StructsLeft(s, w, heap.memory, hhdmOffset, p);
    }
  }

  lemma RootFits(m: Vm, r: nat)
    requires m.pmm.Valid() && AllPlaced(m) && IsRoot(m, r) && r != m.kernel
    ensures r * 0x1000 < 0x1_0000_0000_0000_0000 && r < m.pmm.total
  {
    assert Placed(m, r);
  }

  lemma RootInRam(m: Vm, r: nat)
    requires Forest(m) && IsRoot(m, r) && r != m.kernel
    ensures InRam(m.ram, r, 4, 256)
  {
    RootIs(m, r);
    SpaceInRam(m, r, 256);
  }

  lemma StructFits(w: Memory, bs: seq<HeapList.Block>, c: HeapList.Block)
    requires Mapped(w) && HeapList.Tiles(bs) && c in HeapList.Used(bs)
    ensures c.Payload() in w && c.Payload() + 8 in w && c.Payload() + 16 <= c.End()
  {
    PayloadAligned(bs, c);
    var i :| 0 <= i < |bs| && bs[i] == c;
    assert HeapList.BlockOk(bs, i);
    assert InHeapWords(c.Payload()) && InHeapWords(c.Payload() + 8);
  }

  lemma SpacePointer(w: Memory, bs: seq<HeapList.Block>, b: HeapList.Block)
    requires Mapped(w) && HeapList.Tiles(bs) && Represents(w, bs) && b in HeapList.Used(bs)
    ensures 32 <= b.Payload() && b.Payload() - 24 in w && HeapList.Live(bs, b.Payload())
  {
    UsedIsLive(w, bs, b);
    PayloadAligned(bs, b);
  }

  /** The structures of the spaces survive what keeps the payloads of their blocks. */
  lemma StructKept(s: Sys, w: Memory, w': Memory, used: set<HeapList.Block>, offset: u64, p: nat)
    requires Mapped(w) && HeapList.Valid(s.heap) && p in s.spaces && SpaceOk(s, p) && s.spaces[p].block in used
    requires KeepsPayloads(used, w, w') && HoldsStruct(w, p, s.spaces[p].root, offset)
    ensures HoldsStruct(w', p, s.spaces[p].root, offset)
  {
    StructFits(w, s.heap, s.spaces[p].block);
    assert InPayload(used, p) && InPayload(used, p + 8);
  }

  lemma StructsKept(s: Sys, w: Memory, w': Memory, offset: u64)
    requires Mapped(w) && SysInv(s) && AllStructs(w, s.spaces, offset) && KeepsPayloads(HeapList.Used(s.heap), w, w')
    ensures AllStructs(w', s.spaces, offset)
  {
    forall p | p in s.spaces ensures HoldsStruct(w', p, s.spaces[p].root, offset) {
      assert SpaceOk(s, p);
      StructKept(s, w, w', HeapList.Used(s.heap), offset, p);
    }
  }

  lemma StructsLeft(s: Sys, w: Memory, w': Memory, offset: u64, p: nat)
    requires Mapped(w) && SysInv(s) && AllStructs(w, s.spaces, offset) && p in s.spaces
    requires KeepsPayloads(HeapList.Used(s.heap) - {s.spaces[p].block}, w, w')
    ensures AllStructs(w', s.spaces - {p}, offset)
  {
    assert SpaceOk(s, p);
    forall q | q in s.spaces - {p} ensures HoldsStruct(w', q, s.spaces[q].root, offset) {
      assert SpaceOk(s, q);
      StructKept(s, w, w', HeapList.Used(s.heap) - {s.spaces[p].block}, offset, q);
    }
  }

  lemma FreeUses(s: Sys, p: nat)
    requires SysInv(s) && p in s.spaces
    ensures HeapList.Used(HeapList.Free(s.heap, p)) == HeapList.Used(s.heap) - {s.spaces[p].block}
  {
    assert SpaceOk(s, p);
    HeapProofs.UsedLive(s.heap, s.spaces[p].block);
    HeapProofs.FreeAtKeeps(s.heap, HeapList.Index(s.heap, p));
  }

  lemma NotTheKernel(m: Vm, f: nat)
    requires AllPlaced(m) && m.kernel in m.own && f < m.pmm.total && f !in m.pmm.taken
    ensures f != m.kernel
  {
    PlacedIfOwned(m, m.kernel);
  }
}
