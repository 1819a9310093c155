/** Physical memory layout seen by the frame allocator: the frame size, the
    managed address range and the arithmetic that maps a physical address to
    its slot in the reference-count table (kernel/kalloc.c:12, 66, 101, 115).
    KERNBASE, PHYSTOP and the end of the kernel image come from headers and
    the linker script, so they are parameters here. */
module Memlayout {

  /** Size in bytes of one physical frame. */
  const PGSIZE: nat := 4096

  /** KERNBASE, PHYSTOP and `end`, the first address after the kernel image. */
  datatype Layout = Layout(kernbase: nat, phystop: nat, kernelEnd: nat) {
    /** What the kernel's memory layout guarantees: both ends of the table are
        frame aligned, the kernel image ends inside the table, and no frame
        lives at address 0, so that 0 can stand for "no frame". */
    predicate Valid() {
      0 < kernbase && kernbase % PGSIZE == 0 && phystop % PGSIZE == 0
      && kernbase <= kernelEnd <= phystop
    }
  }

  /** PGROUNDUP: the smallest multiple of PGSIZE that is at least x. */
  function PgRoundUp(x: nat): (r: nat)
    ensures r % PGSIZE == 0
    ensures x <= r < x + PGSIZE
  {
    (x + PGSIZE - 1) / PGSIZE * PGSIZE
  }

  /** NUM_PYS_PAGES: one table slot per frame of [KERNBASE, PHYSTOP). */
  function NumPages(l: Layout): (n: nat)
    requires l.Valid()
    ensures l.kernbase + n * PGSIZE == l.phystop
  {
    (l.phystop - l.kernbase) / PGSIZE
  }

  /** Physical address of the first byte of frame i. */
  function FrameAddress(l: Layout, i: nat): nat {
    l.kernbase + i * PGSIZE
  }

  /** `(pa - KERNBASE) / PGSIZE`: the slot of the frame that holds pa. */
  function FrameIndex(l: Layout, pa: nat): (i: nat)
    requires l.Valid() && l.kernbase <= pa
    ensures FrameAddress(l, i) <= pa < FrameAddress(l, i) + PGSIZE
    ensures pa < l.phystop ==> i < NumPages(l)
  {
    (pa - l.kernbase) / PGSIZE
  }

  /** Slot of the first frame handed to the free list, PGROUNDUP(end). */
  function FirstFrame(l: Layout): (i: nat)
    requires l.Valid()
    ensures FrameAddress(l, i) == PgRoundUp(l.kernelEnd)
    ensures i <= NumPages(l)
  {
    var r := PgRoundUp(l.kernelEnd);
    assert (r - l.kernbase) % PGSIZE == 0;
    assert r <= l.phystop;
    FrameIndex(l, r)
  }

  /** Frames the allocator manages: from PGROUNDUP(end) up to PHYSTOP. */
  predicate Managed(l: Layout, i: nat)
    requires l.Valid()
  {
    FirstFrame(l) <= i < NumPages(l)
  }

  /** The addresses kfree lets through: the negation of its panic test. */
  predicate KfreeAccepts(l: Layout, pa: nat): (ok: bool)
    ensures ok ==> PgRoundUp(l.kernelEnd) <= pa
  {
    pa % PGSIZE == 0 && l.kernelEnd <= pa < l.phystop
  }

  /** Every address kfree accepts names a managed frame, inside the table,
      and is that frame's own first byte. */
  lemma AcceptedFrameInTable(l: Layout, pa: nat)
    requires l.Valid() && KfreeAccepts(l, pa)
    ensures l.kernbase <= pa
    ensures FrameIndex(l, pa) < NumPages(l) && Managed(l, FrameIndex(l, pa))
    ensures FrameAddress(l, FrameIndex(l, pa)) == pa
  {
    var i := FrameIndex(l, pa);
    assert (pa - l.kernbase) % PGSIZE == 0;
    assert FrameAddress(l, i) == pa;
    assert FrameAddress(l, FirstFrame(l)) <= pa;
  }

  /** kfree accepts the address of a slot exactly when that slot is managed. */
  lemma ManagedIffAccepted(l: Layout, i: nat)
    requires l.Valid()
    ensures Managed(l, i) <==> KfreeAccepts(l, FrameAddress(l, i))
  {
  }
}
