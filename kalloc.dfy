/** The allocator of kernel/kalloc.c as the kernel runs it: a reference-count
    array updated in place and a free-list head that kfree pushes onto and
    kalloc pops from. Each method is proved to do what the matching function
    of KallocSpec says, so the lemmas of KallocLemmas apply to it. */
module Kalloc {
  import opened Memlayout
  import opened KallocSpec
  import opened KallocLemmas

  /** The global state of kernel/kalloc.c: `pageReferences` (line 14) and
      `kmem.freelist` (lines 26-29), the latter as a stack of frame slots,
      head first. `fill` records the junk the allocator last wrote over each
      frame; it stands for the frames' contents and is ghost. */
  class Kmem {
    const layout: Layout
    const pageReferences: array<int>
    var freelist: seq<nat>
    ghost var fill: seq<Fill>

    ghost function Abs(): State
      reads this, pageReferences
    {
      State(pageReferences[..], freelist, fill)
    }

    ghost predicate Valid()
      reads this, pageReferences
    {
      WellFormed(layout, Abs())
    }

    /** The reference-counting invariant on the current state. */
    ghost predicate Consistent()
      reads this, pageReferences
    {
      KallocSpec.Consistent(layout, Abs())
    }

    /** The static storage before kinit: a zeroed table and an empty list. */
    constructor (l: Layout)
      requires l.Valid()
      ensures Valid() && layout == l && fresh(pageReferences)
      ensures Abs() == State(seq(NumPages(l), _ => 0), [], seq(NumPages(l), _ => Untouched))
    {
      layout := l;
      pageReferences := new int[NumPages(l)](_ => 0);
      freelist := [];
      fill := seq(NumPages(l), _ => Untouched);
    }

    /** kinit (kernel/kalloc.c:31-37). Called once at boot, while the free
        list is still empty; afterwards every managed frame is free. */
    method Kinit()
      requires Valid() && freelist == []
      modifies this, pageReferences
      ensures Valid()
      ensures KallocSpec.Kinit(layout, old(Abs())) == Ok(Abs())
      ensures Consistent() && freelist == Descending(FirstFrame(layout), NumPages(layout))
      ensures forall i :: 0 <= i < pageReferences.Length ==> pageReferences[i] == 0
    {
      KinitEstablishesConsistent(layout, Abs());
      forall i | 0 <= i < pageReferences.Length {
        pageReferences[i] := 0;
      }
      assert pageReferences[..] == seq(NumPages(layout), _ => 0);
      var ok := Freerange(layout.kernelEnd, layout.phystop);
      assert ok;
    }

    /** freerange (kernel/kalloc.c:39-49). `ok` is false when a kfree inside
        panicked, which halts the machine; the state is then not specified. */
    method Freerange(paStart: nat, paEnd: nat) returns (ok: bool)
      requires Valid() && layout.kernbase <= paStart && paEnd <= layout.phystop
      modifies this, pageReferences
      ensures Valid()
      ensures KallocSpec.Freerange(layout, old(Abs()), paStart, paEnd) ==
        if ok then Ok(Abs()) else Panic("kfree")
    {
      var p := PgRoundUp(paStart);
      ok := true;
      while p + PGSIZE <= paEnd
        invariant Valid() && layout.kernbase <= p
        invariant KallocSpec.Freerange(layout, old(Abs()), paStart, paEnd) ==
          FreeFrom(layout, Abs(), p, paEnd)
        decreases paEnd - p
      {
        ghost var before := Abs();
        pageReferences[FrameIndex(layout, p)] := 1;
        assert Abs() == before.(refs := before.refs[FrameIndex(layout, p) := 1]);
        ok := Kfree(p);
        if !ok {
          return;
        }
        p := p + PGSIZE;
      }
    }

    /** kfree (kernel/kalloc.c:55-87). `ok` is false for the addresses the
        source panics on; nothing changes then. The compare-and-swap loop of
        lines 70-74 is one atomic decrement; the locked push is one step. */
    method Kfree(pa: nat) returns (ok: bool)
      requires Valid()
      modifies this, pageReferences
      ensures Valid()
      ensures KallocSpec.Kfree(layout, old(Abs()), pa) == if ok then Ok(Abs()) else Panic("kfree")
      ensures !ok ==> Abs() == old(Abs())
      ensures old(Consistent()) && ok && old(pageReferences[FrameIndex(layout, pa)]) >= 1 ==> Consistent()
    {
      if pa % PGSIZE != 0 || pa < layout.kernelEnd || pa >= layout.phystop {
        return false;
      }
      AcceptedFrameInTable(layout, pa);
      if Consistent() && pageReferences[FrameIndex(layout, pa)] >= 1 {
        KfreePreservesConsistent(layout, Abs(), pa);
      }
      var indexInList := FrameIndex(layout, pa);
      var destCounter := pageReferences[indexInList] - 1;
      pageReferences[indexInList] := destCounter;
      if destCounter > 0 {
        return true;
      }
      fill := fill[indexInList := Junk(FREE_JUNK)];
      freelist := [indexInList] + freelist;
      return true;
    }

    /** kalloc (kernel/kalloc.c:92-110): 0 when the pool is empty. */
    method Kalloc() returns (pa: nat)
      requires Valid()
      modifies this, pageReferences
      ensures Valid()
      ensures KallocSpec.Kalloc(layout, old(Abs())) == Allocation(Abs(), pa)
      ensures old(Consistent()) ==> Consistent()
    {
      if Consistent() {
        KallocPreservesConsistent(layout, Abs());
      }
      if freelist == [] {
        return 0;
      }
      var indexInList := freelist[0];
      pageReferences[indexInList] := 1;
      freelist := freelist[1..];
      fill := fill[indexInList := Junk(ALLOC_JUNK)];
      pa := FrameAddress(layout, indexInList);
    }

    /** increaseCounter (kernel/kalloc.c:112-125): the compare-and-swap loop
        of lines 119-123 is one atomic increment. */
    method IncreaseCounter(pa: nat)
      requires Valid() && layout.kernbase <= pa < layout.phystop
      modifies pageReferences
      ensures Valid()
      ensures Abs() == KallocSpec.IncreaseCounter(layout, old(Abs()), pa)
      ensures old(Consistent()) && old(pageReferences[FrameIndex(layout, pa)]) >= 1 ==> Consistent()
    {
      var indexInList := FrameIndex(layout, pa);
      if Consistent() && pageReferences[indexInList] >= 1 {
        IncreaseCounterPreservesConsistent(layout, Abs(), pa);
      }
      pageReferences[indexInList] := pageReferences[indexInList] + 1;
    }
  }
}
