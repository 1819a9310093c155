/** The allocator's bookkeeping as a value: the reference-count table
    `pageReferences`, the free list `kmem.freelist` (as frame slots instead of
    the intrusive `struct run` links) and, per frame, the junk byte the
    allocator last filled it with. Each operation of kernel/kalloc.c is a
    function from the old state to the new one; the class in Kalloc runs
    the same steps in place and is proved equal to these functions. */
module KallocSpec {
  import opened Memlayout

  /** Byte kfree fills a released frame with (kernel/kalloc.c:80). */
  const FREE_JUNK: int := 1
  /** Byte kalloc fills a handed-out frame with (kernel/kalloc.c:108). */
  const ALLOC_JUNK: int := 5

  /** What the allocator last wrote over a frame's contents. */
  datatype Fill = Untouched | Junk(byte: int)

  datatype State = State(refs: seq<int>, freelist: seq<nat>, fill: seq<Fill>)

  /** Result of a call that can panic. */
  datatype Outcome = Ok(st: State) | Panic(msg: string)

  /** Result of kalloc: the new state and the returned address (0 if none). */
  datatype Allocation = Allocation(st: State, pa: nat)

  /** Shape every reachable state has, whatever the callers do: one slot and
      one fill tag per frame, and only table slots on the free list. */
  predicate WellFormed(l: Layout, st: State) {
    l.Valid() && |st.refs| == NumPages(l) && |st.fill| == NumPages(l)
    && forall k :: 0 <= k < |st.freelist| ==> st.freelist[k] < NumPages(l)
  }

  predicate NoDuplicates(s: seq<nat>) {
    forall j, k :: 0 <= j < k < |s| ==> s[j] != s[k]
  }

  /** The reference-counting invariant: no count is negative, a frame is on
      the free list exactly when it is managed and its count is 0, it is there
      at most once and carries the free-time junk, and frames outside the
      managed range (the kernel image) keep count 0. */
  predicate Consistent(l: Layout, st: State) {
    WellFormed(l, st) && NoDuplicates(st.freelist)
    && (forall i :: 0 <= i < NumPages(l) ==> st.refs[i] >= 0)
    && (forall i :: 0 <= i < NumPages(l) ==> (i in st.freelist <==> Managed(l, i) && st.refs[i] == 0))
    && (forall i :: 0 <= i < NumPages(l) && !Managed(l, i) ==> st.refs[i] == 0)
    && (forall k :: 0 <= k < |st.freelist| ==> st.fill[st.freelist[k]] == Junk(FREE_JUNK))
  }

  /** kfree (kernel/kalloc.c:55-87). The compare-and-swap retry loop is one
      atomic decrement; the spin-locked push is one step. */
  function Kfree(l: Layout, st: State, pa: nat): (r: Outcome)
    requires WellFormed(l, st)
    ensures r.Panic? <==> !KfreeAccepts(l, pa)
    ensures r.Panic? ==> r.msg == "kfree"
    ensures r.Ok? ==> WellFormed(l, r.st)
    ensures r.Ok? ==>
      var i := FrameIndex(l, pa);
      && |r.st.refs| == |st.refs| && r.st.refs[i] == st.refs[i] - 1
      && (forall j :: 0 <= j < |st.refs| && j != i ==> r.st.refs[j] == st.refs[j])
      && (r.st.refs[i] > 0 ==> r.st.freelist == st.freelist && r.st.fill == st.fill)
      && (r.st.refs[i] <= 0 ==> r.st.freelist == [i] + st.freelist)
  {
    if !KfreeAccepts(l, pa) then Panic("kfree")
    else
      AcceptedFrameInTable(l, pa);
      var i := FrameIndex(l, pa);
      var count := st.refs[i] - 1;
      if count > 0 then Ok(st.(refs := st.refs[i := count]))
      else Ok(State(st.refs[i := count], [i] + st.freelist, st.fill[i := Junk(FREE_JUNK)]))
  }

  /** kalloc (kernel/kalloc.c:92-110): pop the head of the free list, if any,
      and give it count 1. */
  function Kalloc(l: Layout, st: State): (r: Allocation)
    requires WellFormed(l, st)
    ensures WellFormed(l, r.st)
    ensures r.pa == 0 <==> st.freelist == []
    ensures st.freelist == [] ==> r.st == st
    ensures r.pa != 0 ==>
      && l.kernbase <= r.pa < l.phystop && r.pa % PGSIZE == 0
      && FrameIndex(l, r.pa) == st.freelist[0]
      && r.st.freelist == st.freelist[1..]
      && r.st.refs[st.freelist[0]] == 1
      && (forall j :: 0 <= j < |st.refs| && j != st.freelist[0] ==> r.st.refs[j] == st.refs[j])
  {
    if st.freelist == [] then Allocation(st, 0)
    else
      var i := st.freelist[0];
      Allocation(State(st.refs[i := 1], st.freelist[1..], st.fill[i := Junk(ALLOC_JUNK)]),
                 FrameAddress(l, i))
  }

  /** increaseCounter (kernel/kalloc.c:112-125): no check of the address; the
      caller must pass one inside the table. */
  function IncreaseCounter(l: Layout, st: State, pa: nat): (r: State)
    requires WellFormed(l, st) && l.kernbase <= pa < l.phystop
    ensures WellFormed(l, r)
    ensures r.freelist == st.freelist && r.fill == st.fill
    ensures r.refs[FrameIndex(l, pa)] == st.refs[FrameIndex(l, pa)] + 1
    ensures forall j :: 0 <= j < |st.refs| && j != FrameIndex(l, pa) ==> r.refs[j] == st.refs[j]
  {
    var i := FrameIndex(l, pa);
    st.(refs := st.refs[i := st.refs[i] + 1])
  }

  /** The loop of freerange from frame address p on (kernel/kalloc.c:44-48):
      set the frame's count to 1, then kfree it; a panic stops everything. */
  function FreeFrom(l: Layout, st: State, p: nat, paEnd: nat): (r: Outcome)
    requires WellFormed(l, st) && l.kernbase <= p && paEnd <= l.phystop
    ensures r.Ok? ==> WellFormed(l, r.st)
    ensures r.Panic? ==> r.msg == "kfree"
    ensures p % PGSIZE == 0 ==> (r.Panic? <==> p + PGSIZE <= paEnd && p < l.kernelEnd)
    decreases paEnd - p
  {
    if p + PGSIZE <= paEnd then
      var i := FrameIndex(l, p);
      match Kfree(l, st.(refs := st.refs[i := 1]), p)
      case Panic(msg) => Panic(msg)
      case Ok(next) => FreeFrom(l, next, p + PGSIZE, paEnd)
    else Ok(st)
  }

  /** freerange (kernel/kalloc.c:39-49). Below KERNBASE or above PHYSTOP the
      count write at line 46 would fall outside the table, so callers keep
      the range inside it. */
  function Freerange(l: Layout, st: State, paStart: nat, paEnd: nat): (r: Outcome)
    requires WellFormed(l, st) && l.kernbase <= paStart && paEnd <= l.phystop
    ensures r.Ok? ==> WellFormed(l, r.st)
    ensures r.Panic? <==> PgRoundUp(paStart) + PGSIZE <= paEnd && PgRoundUp(paStart) < l.kernelEnd
  {
    FreeFrom(l, st, PgRoundUp(paStart), paEnd)
  }

  /** kinit (kernel/kalloc.c:31-37): zero the table, then release every frame
      from PGROUNDUP(end) up to PHYSTOP. */
  function Kinit(l: Layout, st: State): (r: Outcome)
    requires WellFormed(l, st)
    ensures r.Ok? && WellFormed(l, r.st)
  {
    Freerange(l, st.(refs := seq(NumPages(l), _ => 0)), l.kernelEnd, l.phystop)
  }

  /** Frame slots hi-1, hi-2, ..., lo: the order in which a run of frees
      from lo up to hi-1 leaves them on the LIFO free list. */
  function Descending(lo: nat, hi: nat): (s: seq<nat>)
    ensures |s| == if lo <= hi then hi - lo else 0
    ensures forall k :: 0 <= k < |s| ==> s[k] == hi - 1 - k
  {
    if lo <= hi then seq(hi - lo, k requires 0 <= k < hi - lo => hi - 1 - k) else []
  }
}
