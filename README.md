# Reference-counted physical frame allocator (xv6 `kalloc.c`, copy-on-write variant)

This project models the kernel's physical page-frame allocator. It hands out
4096-byte frames to page tables, kernel stacks, pipe buffers and user pages.
It keeps one reference count per frame, so a frame shared by several mappings
after copy-on-write goes back to the pool only when its last owner frees it.

The allocator's state has two parts:

- `pageReferences`: one `int` per frame of `[KERNBASE, PHYSTOP)`. The slot of
  address `pa` is `(pa - KERNBASE) / PGSIZE`.
- `kmem.freelist`: a LIFO stack of free frames.

Four operations act on that state:

- `kinit` and `freerange` zero the table. Then, for each frame from
  `PGROUNDUP(end)` up to `PHYSTOP`, they set the count to 1 and call `kfree`
  on it.
- `kfree` panics on a bad address. Otherwise it decrements the count and, once
  the count is no longer positive, pushes the frame onto the free list.
- `kalloc` pops the head of the free list and sets its count to 1. On an empty
  list it returns 0.
- `increaseCounter` adds one to a frame's count. Copy-on-write sharing uses it.

Layout of the Dafny project:

- `memlayout.dfy`, module `Memlayout`. The layout (`KERNBASE`, `PHYSTOP`, `end`)
  is a parameter. `PGSIZE = 4096`. It defines `PGROUNDUP`, `NUM_PYS_PAGES`,
  the address-to-slot arithmetic and the address test of `kfree`.
- `kalloc_spec.dfy`, module `KallocSpec`. The state is a value
  (`State(refs, freelist, fill)`). Each operation is a function from the old
  state to the new one. It also defines the reference-counting invariant
  `Consistent`.
- `kalloc_lemmas.dfy`, module `KallocLemmas`. It proves:
  - each operation preserves `Consistent` when callers follow the discipline;
  - `kinit` establishes `Consistent`;
  - a double free breaks it;
  - the pool never exceeds the managed range;
  - the exhaustion boundary;
  - two round trips: kalloc then kfree, and kalloc, increaseCounter, kfree,
    kfree.
- `kalloc.dfy`, module `Kalloc`. Class `Kmem` holds the table as an
  `array<int>` updated in place and the free list as a `seq<nat>` of frame
  slots, head first. Each method is proved to take the state to exactly what
  the matching `KallocSpec` function gives. `Freerange` keeps the source's
  loop and has a loop invariant.

Panics are outcomes, not halts. `KallocSpec.Kfree` returns `Panic("kfree")`,
and the method `Kmem.Kfree` returns `ok == false` without changing anything.
Each compare-and-swap retry loop is modelled as one atomic read-modify-write.
Each spin-locked critical section is modelled as one step.

The layout must satisfy `Layout.Valid()`:

- `KERNBASE` and `PHYSTOP` are multiples of `PGSIZE`;
- `KERNBASE <= end <= PHYSTOP`;
- `KERNBASE > 0`.

The xv6 headers satisfy all three (`KERNBASE = 0x80000000`, `PHYSTOP` 128 MiB
above it). The alignment of `PHYSTOP` matters. If `PHYSTOP - KERNBASE` were not
a multiple of `PGSIZE`, an aligned address just below `PHYSTOP` would pass the
test of `kfree` and still index one slot past `pageReferences`.
`KERNBASE > 0` keeps the returned 0 of `kalloc` distinct from every frame
address.

Two behaviours of the code shape the contracts:

- kfree pushes a frame whenever its new count is not positive
  (kernel/kalloc.c:75), so also at -1. A double free is therefore not caught.
  `KallocLemmas.DoubleFreeBreaksConsistent` shows that the frame then goes on
  the list twice.
- increaseCounter (kernel/kalloc.c:112-125) checks neither the address nor the
  count. The model requires only what its array access needs, an address in
  `[KERNBASE, PHYSTOP)`. The count `>= 1` discipline appears only where the
  invariant needs it.

## Model

| member | source | states |
|---|---|---|
| Memlayout.PgRoundUp | kernel/kalloc.c:43 | PGROUNDUP(x) is a multiple of PGSIZE in `[x, x + PGSIZE)`, that is, the smallest such multiple |
| Memlayout.NumPages | kernel/kalloc.c:12 | NUM_PYS_PAGES slots cover `[KERNBASE, PHYSTOP)` exactly: `KERNBASE + n*PGSIZE == PHYSTOP` |
| Memlayout.FrameIndex | kernel/kalloc.c:66 | `(pa - KERNBASE)/PGSIZE` names the frame whose bytes contain `pa`, and it lies inside the table whenever `pa < PHYSTOP` |
| Memlayout.FirstFrame | kernel/kalloc.c:43 | the first frame freerange releases starts at PGROUNDUP(end) and is at most NUM_PYS_PAGES |
| Memlayout.AcceptedFrameInTable | kernel/kalloc.c:60-66 | every address kfree does not panic on is at least KERNBASE, has a slot inside the table that is a managed frame, and is that frame's first byte |
| Memlayout.ManagedIffAccepted | kernel/kalloc.c:60-61 | kfree accepts the first address of slot `i` if and only if `i` is a managed frame (from PGROUNDUP(end) up to PHYSTOP) |
| Memlayout.KfreeAccepts | kernel/kalloc.c:60-61 | the negation of kfree's panic test: aligned, at least `end`, below PHYSTOP. Any address it accepts is at least PGROUNDUP(end), where freerange starts |
| KallocSpec.Kfree | kernel/kalloc.c:55-87 | panics with "kfree" exactly on a misaligned address, one below `end` or one `>= PHYSTOP`. Otherwise it lowers only that frame's count by one. The list is unchanged while the count stays positive. Otherwise the frame is pushed on the head of the list |
| KallocSpec.Kalloc | kernel/kalloc.c:92-110 | returns 0 exactly when the free list is empty, and then changes nothing. Otherwise it returns the aligned in-table address of the old head, sets that slot to 1, leaves the old tail as the list and changes no other slot |
| KallocSpec.IncreaseCounter | kernel/kalloc.c:112-125 | raises exactly the addressed slot by one and leaves the free list, the other slots and the frame contents untouched |
| KallocSpec.FreeFrom | kernel/kalloc.c:44-48 | the freerange loop from an aligned frame `p` panics (with "kfree") exactly when it runs at least once and `p` lies below `end`. Once the first frame passes, no later frame panics. Without a panic, the table and list stay well formed |
| KallocSpec.Freerange | kernel/kalloc.c:39-49 | freerange(paStart, paEnd) panics exactly when PGROUNDUP(paStart) is below `end` and a whole frame fits before paEnd. Otherwise the resulting state is well formed |
| KallocSpec.Kinit | kernel/kalloc.c:31-37 | kinit zeroes the table and runs freerange(end, PHYSTOP). It never panics, whatever state it starts from, and leaves a well-formed state |
| KallocLemmas.KfreePreservesConsistent | kernel/kalloc.c:70-86 | kfree of a frame with count >= 1 does not panic and keeps the invariant: no negative count; a frame is on the list iff it is managed with count 0, at most once, carrying the free-time junk. The frame ends on the list iff that was its last reference |
| KallocLemmas.KallocPreservesConsistent | kernel/kalloc.c:97-108 | kalloc keeps the invariant. A returned frame was free with count 0, is one kfree accepts, now has count 1, is off the list and carries the allocation-time junk byte 5 |
| KallocLemmas.IncreaseCounterPreservesConsistent | kernel/kalloc.c:115-123 | increaseCounter on a frame with count >= 1 keeps the invariant and leaves that frame shared (count >= 2) |
| KallocLemmas.DoubleFreeBreaksConsistent | kernel/kalloc.c:70-85 | kfree of a frame already on the free list is not caught. Its count goes to -1 and it is pushed a second time, so the list has a duplicate and the invariant fails |
| KallocLemmas.FreeFromManaged | kernel/kalloc.c:44-48 | freerange over frames k..NUM_PYS_PAGES-1, with k managed, never panics. It sets each of those counts to 0, fills each frame with byte 1 and pushes them in order, so the highest frame ends on top |
| KallocLemmas.KinitEstablishesConsistent | kernel/kalloc.c:31-48 | kinit on an empty list never panics and zeroes every count. It leaves exactly the managed frames on the list, each once, from the highest down, and the invariant holds |
| KallocLemmas.FreeListBounded | kernel/kalloc.c:84-85 | under the invariant the pool never holds more frames than the managed range has |
| KallocLemmas.AllocThenFreeRoundTrip | kernel/kalloc.c:75-104 | kalloc followed by kfree of the returned address restores the original state: the frame is back on top with count 0 |
| KallocLemmas.SharedFrameSurvivesPartialRelease | kernel/kalloc.c:70-123 | the sequence kalloc, increaseCounter, kfree leaves the frame allocated with count 1 and off the list, with the invariant intact. A second kfree restores the original state |
| KallocLemmas.DrainPool | kernel/kalloc.c:97-109 | as many kallocs as there are free frames return distinct, non-zero, kfree-acceptable addresses and empty the pool. The next kalloc returns 0 and changes nothing |
| Kalloc.Kmem.constructor | kernel/kalloc.c:14-29 | the static storage starts as a zeroed table with one slot per frame and an empty free list |
| Kalloc.Kmem.Kinit | kernel/kalloc.c:31-37 | zeroes the array in place and runs freerange(end, PHYSTOP). The result is the state of `KallocSpec.Kinit`: the invariant holds, every count is 0, and the free list holds all managed frames from the highest down |
| Kalloc.Kmem.Freerange | kernel/kalloc.c:39-49 | the loop from PGROUNDUP(paStart) produces the state of `KallocSpec.Freerange`, or reports the panic the spec function reports |
| Kalloc.Kmem.Kfree | kernel/kalloc.c:55-87 | updates the array and list in place to `KallocSpec.Kfree`'s state. On a panic nothing changes. It keeps the invariant for a frame with count >= 1 |
| Kalloc.Kmem.Kalloc | kernel/kalloc.c:92-110 | pops in place to `KallocSpec.Kalloc`'s state and returns its address (0 when the pool is empty). It keeps the invariant |
| Kalloc.Kmem.IncreaseCounter | kernel/kalloc.c:112-125 | increments one array slot in place, as `KallocSpec.IncreaseCounter` does, and keeps the invariant for a frame with count >= 1 |

## Left out

- Concurrency is not modelled. The spinlock (`initlock`, `acquire`, `release`,
  kernel/kalloc.c:34, 83, 86, 97, 105) is left out, and so are the
  compare-and-swap retry loops (kernel/kalloc.c:70-74, 119-123). Each critical
  section is one step, and each retry loop is one atomic decrement or
  increment. The `cas` routine (kernel/kalloc.c:18) is assembly that is not
  part of this model, and its return convention is not visible. So the model
  says nothing about the loop condition `while(cas(...))`, about lost updates
  or about interleavings.
- Frame contents are not modelled. The `memset` junk fills (byte 1 in kfree,
  byte 5 in kalloc, kernel/kalloc.c:80, 108) appear only as a per-frame
  `Fill` tag.
- The intrusive `struct run` links stored inside free frames
  (kernel/kalloc.c:22-24, 63, 84) are replaced by a sequence of frame slots.
  Aliasing between a free frame's bytes and its link is not modelled.
- `panic` is an outcome (`Panic("kfree")`, or `ok == false`), not a halt of
  the machine.
- `KERNBASE`, `PHYSTOP`, `PGROUNDUP` and `end` come from headers and the linker
  script. These are not part of this model. The layout values are parameters
  under the assumptions listed above.
- Kalloc.Kmem.Freerange: after a panic inside the loop, the contract does not
  describe the partly updated state, because the machine halts there.
- KallocSpec.IncreaseCounter: counts are unbounded integers. The wrap-around of
  the 32-bit `int` slots after 2^31 - 1 increments is not modelled, because no
  frame has that many mappings.
- Kalloc.Kmem.Kinit: requires an empty free list. The source relies on kinit
  running once, on the zero-initialised `kmem`, before any other call.
