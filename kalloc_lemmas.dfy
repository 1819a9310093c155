/** What the allocator promises its callers, proved about the functions of
    KallocSpec: each operation keeps the reference-counting invariant under
    the callers' discipline, kinit establishes it, and a frame's
    lifecycle (free, allocated, shared, free again) round-trips. */
module KallocLemmas {
  import opened Memlayout
  import opened KallocSpec

  /** kfree of a frame the caller holds (count >= 1) keeps the invariant;
      the last release puts the frame on the free list with count 0. */
  lemma KfreePreservesConsistent(l: Layout, st: State, pa: nat)
    requires Consistent(l, st) && KfreeAccepts(l, pa)
    requires st.refs[FrameIndex(l, pa)] >= 1
    ensures Kfree(l, st, pa).Ok? && Consistent(l, Kfree(l, st, pa).st)
    ensures var i := FrameIndex(l, pa); var s := Kfree(l, st, pa).st;
      (i in s.freelist <==> st.refs[i] == 1)
  {
  }

  /** kalloc keeps the invariant; a frame it hands out was free, is in the
      managed range, now has count 1, is off the free list and carries the
      allocation-time junk. */
  lemma KallocPreservesConsistent(l: Layout, st: State)
    requires Consistent(l, st)
    ensures Consistent(l, Kalloc(l, st).st)
    ensures var a := Kalloc(l, st);
      a.pa != 0 ==>
        && KfreeAccepts(l, a.pa)
        && st.refs[FrameIndex(l, a.pa)] == 0
        && a.st.refs[FrameIndex(l, a.pa)] == 1
        && FrameIndex(l, a.pa) !in a.st.freelist
        && a.st.fill[FrameIndex(l, a.pa)] == Junk(ALLOC_JUNK)
  {
  }

  /** increaseCounter on a frame the caller already holds keeps the
      invariant and leaves the frame shared, off the free list. */
  lemma IncreaseCounterPreservesConsistent(l: Layout, st: State, pa: nat)
    requires Consistent(l, st) && l.kernbase <= pa < l.phystop
    requires st.refs[FrameIndex(l, pa)] >= 1
    ensures Consistent(l, IncreaseCounter(l, st, pa))
    ensures IncreaseCounter(l, st, pa).refs[FrameIndex(l, pa)] >= 2
  {
  }

  /** A double free is not caught: kfree on a frame that is already free
      drives its count to -1 and puts it on the free list a second time. */
  lemma DoubleFreeBreaksConsistent(l: Layout, st: State, pa: nat)
    requires Consistent(l, st) && KfreeAccepts(l, pa)
    requires st.refs[FrameIndex(l, pa)] == 0
    ensures Kfree(l, st, pa).Ok?
    ensures Kfree(l, st, pa).st.refs[FrameIndex(l, pa)] == -1
    ensures !NoDuplicates(Kfree(l, st, pa).st.freelist)
    ensures !Consistent(l, Kfree(l, st, pa).st)
  {
    AcceptedFrameInTable(l, pa);
    var i := FrameIndex(l, pa);
    var s := Kfree(l, st, pa).st;
    assert i in st.freelist;
    var k :| 0 <= k < |st.freelist| && st.freelist[k] == i;
    assert s.freelist[0] == s.freelist[k + 1];
  }

  /** State after the freerange loop has released frames k .. NumPages-1
      of st, in order. */
  function ReleasedFrom(l: Layout, st: State, k: nat): (r: State)
    requires WellFormed(l, st) && k <= NumPages(l)
    ensures WellFormed(l, r)
  {
    var n := NumPages(l);
    State(seq(n, j requires 0 <= j < n => if k <= j then 0 else st.refs[j]),
          Descending(k, n) + st.freelist,
          seq(n, j requires 0 <= j < n => if k <= j then Junk(FREE_JUNK) else st.fill[j]))
  }

  /** The freerange loop over frames k, k+1, ..., NumPages-1 never panics
      once k is managed: it leaves those frames with count 0 and free-time
      junk and pushes them on the free list, highest on top. */
  lemma {:induction false} FreeFromManaged(l: Layout, st: State, k: nat)
    requires WellFormed(l, st) && FirstFrame(l) <= k <= NumPages(l)
    ensures FrameAddress(l, k) <= l.phystop
    ensures FreeFrom(l, st, FrameAddress(l, k), l.phystop) == Ok(ReleasedFrom(l, st, k))
    decreases NumPages(l) - k
  {
    var n := NumPages(l);
    var p := FrameAddress(l, k);
    if k < n {
      assert FrameIndex(l, p) == k;
      ManagedIffAccepted(l, k);
      var next := State(st.refs[k := 0], [k] + st.freelist, st.fill[k := Junk(FREE_JUNK)]);
      assert Kfree(l, st.(refs := st.refs[k := 1]), p) == Ok(next);
      assert FreeFrom(l, st, p, l.phystop) == FreeFrom(l, next, p + PGSIZE, l.phystop);
      FreeFromManaged(l, next, k + 1);
      assert FrameAddress(l, k + 1) == p + PGSIZE;
      ReleasedFromStep(l, st, next, k);
    } else {
      assert Descending(k, n) == [];
      assert ReleasedFrom(l, st, k).refs == st.refs;
      assert ReleasedFrom(l, st, k).fill == st.fill;
    }
  }

  lemma ReleasedFromStep(l: Layout, st: State, next: State, k: nat)
    requires WellFormed(l, st) && k < NumPages(l)
    requires next == State(st.refs[k := 0], [k] + st.freelist, st.fill[k := Junk(FREE_JUNK)])
    ensures WellFormed(l, next) && ReleasedFrom(l, next, k + 1) == ReleasedFrom(l, st, k)
  {
  }

  /** kinit leaves every count at 0 and every managed frame on the free list
      exactly once (PHYSTOP's frame on top), and the invariant holds. */
  lemma KinitEstablishesConsistent(l: Layout, st: State)
    requires WellFormed(l, st) && st.freelist == []
    ensures Kinit(l, st).Ok?
    ensures var s := Kinit(l, st).st;
      && Consistent(l, s)
      && s.freelist == Descending(FirstFrame(l), NumPages(l))
      && |s.freelist| == NumPages(l) - FirstFrame(l)
      && (forall i :: 0 <= i < NumPages(l) ==> s.refs[i] == 0)
  {
    var n := NumPages(l);
    var first := FirstFrame(l);
    var zeroed := st.(refs := seq(n, _ => 0));
    FreeFromManaged(l, zeroed, first);
    var s := ReleasedFrom(l, zeroed, first);
    assert Kinit(l, st) == Ok(s);
    assert s.freelist == Descending(first, n);
    assert forall i :: 0 <= i < n ==> s.refs[i] == 0;
    DescendingMembers(first, n);
  }

  /** A descending run of slots holds each slot of its range exactly once. */
  lemma DescendingMembers(lo: nat, hi: nat)
    requires lo <= hi
    ensures NoDuplicates(Descending(lo, hi))
    ensures forall i :: i in Descending(lo, hi) <==> lo <= i < hi
  {
    var d := Descending(lo, hi);
    forall i | lo <= i < hi ensures i in d {
      assert d[hi - 1 - i] == i;
    }
  }

  /** The number of distinct values drawn from a set bounds a sequence
      without duplicates. */
  lemma {:induction false} NoDuplicatesBounded(s: seq<nat>, pool: set<nat>)
    requires NoDuplicates(s) && forall k :: 0 <= k < |s| ==> s[k] in pool
    ensures |s| <= |pool|
  {
    if s != [] {
      assert forall k :: 0 <= k < |s[1..]| ==> s[1..][k] == s[k + 1];
      NoDuplicatesBounded(s[1..], pool - {s[0]});
    }
  }

  /** The slots lo .. hi-1 as a set. */
  function Range(lo: nat, hi: nat): (r: set<nat>)
    ensures forall i :: i in r <==> lo <= i < hi
    ensures |r| == if lo <= hi then hi - lo else 0
    decreases hi
  {
    if lo < hi then Range(lo, hi - 1) + {hi - 1} else {}
  }

  /** The pool never holds more frames than the managed range. */
  lemma FreeListBounded(l: Layout, st: State)
    requires Consistent(l, st)
    ensures |st.freelist| <= NumPages(l) - FirstFrame(l)
  {
    var pool := Range(FirstFrame(l), NumPages(l));
    forall k | 0 <= k < |st.freelist| ensures st.freelist[k] in pool {
      assert st.freelist[k] in st.freelist;
    }
    NoDuplicatesBounded(st.freelist, pool);
  }

  /** kalloc followed by kfree of its result gives back the state it started
      from: the frame is back on top of the pool with count 0. */
  lemma AllocThenFreeRoundTrip(l: Layout, st: State)
    requires Consistent(l, st) && st.freelist != []
    ensures var a := Kalloc(l, st); Kfree(l, a.st, a.pa) == Ok(st)
  {
    var a := Kalloc(l, st);
    KallocPreservesConsistent(l, st);
    var i := st.freelist[0];
    assert Kfree(l, a.st, a.pa).st.freelist == st.freelist;
    assert Kfree(l, a.st, a.pa).st.refs == st.refs;
    assert Kfree(l, a.st, a.pa).st.fill == st.fill;
  }

  /** kalloc, increaseCounter, kfree leaves the frame allocated with count 1;
      a second kfree gives back the state it started from. */
  lemma SharedFrameSurvivesPartialRelease(l: Layout, st: State)
    requires Consistent(l, st) && st.freelist != []
    ensures var a := Kalloc(l, st);
      var shared := IncreaseCounter(l, a.st, a.pa);
      var once := Kfree(l, shared, a.pa);
      && once.Ok? && Consistent(l, once.st)
      && once.st.refs[FrameIndex(l, a.pa)] == 1
      && FrameIndex(l, a.pa) !in once.st.freelist
      && Kfree(l, once.st, a.pa) == Ok(st)
  {
    var a := Kalloc(l, st);
    KallocPreservesConsistent(l, st);
    IncreaseCounterPreservesConsistent(l, a.st, a.pa);
    var shared := IncreaseCounter(l, a.st, a.pa);
    KfreePreservesConsistent(l, shared, a.pa);
    var once := Kfree(l, shared, a.pa);
    assert once.st.refs == a.st.refs;
    AllocThenFreeRoundTrip(l, st);
    assert Kfree(l, once.st, a.pa).st.refs == st.refs;
    assert Kfree(l, once.st, a.pa).st.fill == st.fill;
  }

  /** k calls of kalloc in a row: the final state and the addresses returned. */
  function AllocMany(l: Layout, st: State, k: nat): (r: (State, seq<nat>))
    requires WellFormed(l, st)
    ensures WellFormed(l, r.0) && |r.1| == k
    decreases k
  {
    if k == 0 then (st, [])
    else
      var a := Kalloc(l, st);
      var rest := AllocMany(l, a.st, k - 1);
      (rest.0, [a.pa] + rest.1)
  }

  lemma {:induction false} AllocManyTakesHeads(l: Layout, st: State, k: nat)
    requires Consistent(l, st) && k <= |st.freelist|
    ensures var r := AllocMany(l, st, k);
      && Consistent(l, r.0) && r.0.freelist == st.freelist[k..]
      && forall j :: 0 <= j < k ==> r.1[j] == FrameAddress(l, st.freelist[j])
    decreases k
  {
    if k > 0 {
      var a := Kalloc(l, st);
      KallocPreservesConsistent(l, st);
      AllocManyTakesHeads(l, a.st, k - 1);
      assert a.st.freelist[k - 1..] == st.freelist[k..];
      var r := AllocMany(l, st, k);
      forall j | 0 <= j < k ensures r.1[j] == FrameAddress(l, st.freelist[j]) {
        if j > 0 { assert st.freelist[j] == a.st.freelist[j - 1]; }
        else { AcceptedFrameInTable(l, a.pa); }
      }
    }
  }

  /** Exhaustion: as many kallocs as there are free frames each return a
      distinct frame kfree would accept; the next kalloc returns 0 and
      changes nothing. */
  lemma DrainPool(l: Layout, st: State)
    requires Consistent(l, st)
    ensures var r := AllocMany(l, st, |st.freelist|);
      && Consistent(l, r.0) && r.0.freelist == []
      && (forall j :: 0 <= j < |r.1| ==> r.1[j] != 0 && KfreeAccepts(l, r.1[j]))
      && NoDuplicates(r.1)
      && Kalloc(l, r.0) == Allocation(r.0, 0)
  {
    var n := |st.freelist|;
    AllocManyTakesHeads(l, st, n);
    var r := AllocMany(l, st, n);
    forall j | 0 <= j < n ensures r.1[j] != 0 && KfreeAccepts(l, r.1[j]) {
      assert st.freelist[j] in st.freelist;
      ManagedIffAccepted(l, st.freelist[j]);
    }
  }
}
