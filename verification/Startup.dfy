/** The order in which kernel/src/kernel.c brings memory management up: the heap's pages are mapped through the boot
loader's tables, and then the kernel's space is what CR3 holds. */
module Startup {
  import opened Words
  import opened Mapping
  import opened Lifecycle
  import opened Paging
  import opened HeapMemory
  import opened HeapInit
  import opened Vmm
  import KernelHeap

  /** `heap_init` and `vmm_init`. If the heap comes up, the kernel is in a state from which every run may begin. */
  method Start(mmu: Mmu, words: Memory, offset: u64) returns (kernel: Kernel?, ghost frames: seq<nat>)
    requires mmu.Valid() && Frame(mmu.cr3) == mmu.kernel && HeapClear(mmu.State()) && Mapped(words)
    requires forall q :: IsRoot(mmu.State(), q) ==> q == mmu.kernel
    modifies mmu`ram, mmu`own, mmu.pmm`usedPages, mmu.pmm`taken, mmu.pmm.bitmap
    ensures mmu.Valid() && HeapProgress(old(mmu.State()), mmu.State(), frames)
    ensures kernel != null <==> |frames| == 256
    ensures kernel != null <==> mmu.hhdm.Some? && NeedsUpTo(old(mmu.State()), 256) <= FreeCount(old(mmu.State()).pmm)
    ensures kernel != null ==>
      && fresh(kernel) && kernel.Valid() && kernel.mmu == mmu && kernel.spaces == map[]
      && StateInv(State(kernel.System(), {}, {}))
  {
    var heap: KernelHeap.Heap?;
    heap, frames := InitHeap(mmu, words);
    if heap == null {
      return null, frames;
    }
    NoSpaces(mmu.State());
    kernel := new Kernel(mmu, heap, offset);
  }
}
