/** The state of the buddy allocator of src/mm/buddy.c and what each update does to it.

    Blocks are named by the index of their first page, counted from BUDDY_SYSTEM_BASE, which is
    aligned to the largest block.  A page is the head of a block when its order is at most
    BUDDY_MAX_ORDER; the head is free when its `private` pointer is set, and then it is on the free
    list of its order.  All other pages carry BUDDY_MAX_ORDER + 1.
 */
module BuddyState {
  import opened Bits
  import opened Lists

  const MAX_ORDER: nat := 11
  const INTERIOR: nat := 12

  datatype State = State(lists: seq<seq<nat>>, order: seq<nat>, held: seq<bool>)

  // ---------- Blocks ----------

  ghost predicate Head(s: State, p: nat) { p < |s.order| && s.order[p] <= MAX_ORDER }

  ghost predicate Covers(s: State, p: nat, q: nat) {
    Head(s, p) && p <= q < p + Pow2(s.order[p])
  }

  ghost predicate Covered(s: State, q: nat) { exists p: nat :: Covers(s, p, q) }

  ghost predicate FreeHead(s: State, p: nat) { Head(s, p) && p < |s.held| && s.held[p] }

  /** Blocks are aligned, do not overlap and leave no page out. */
  ghost predicate Partition(s: State) {
    && |s.held| == |s.order| && Aligned(|s.order|, MAX_ORDER)
    && (forall p: nat :: p < |s.held| && s.held[p] ==> Head(s, p))
    && (forall p: nat :: Head(s, p) ==> Aligned(p, s.order[p]))
    && (forall p: nat :: p < |s.order| ==> s.order[p] <= INTERIOR)
    && (forall p: nat, q: nat :: Covers(s, p, q) && p != q ==> !Head(s, q))
    && (forall q: nat :: q < |s.order| ==> Covered(s, q))
  }

  /** l holds exactly the free blocks of order o, each once. */
  ghost predicate ListIs(s: State, l: seq<nat>, o: nat) {
    NoDup(l) && forall p: nat :: p in l <==> FreeHead(s, p) && s.order[p] == o
  }

  ghost predicate ListsAgree(s: State) {
    |s.lists| == MAX_ORDER + 1 && forall o: nat :: o <= MAX_ORDER ==> ListIs(s, s.lists[o], o)
  }

  ghost predicate FreeCovers(s: State, p: nat, q: nat) { Covers(s, p, q) && FreeHead(s, p) }

  ghost predicate FreePage(s: State, q: nat) { exists p: nat :: FreeCovers(s, p, q) }

  /** The pages inside free blocks. */
  ghost function Free(s: State): set<nat> {
    set q: nat | q < |s.order| && FreePage(s, q)
  }

  /** The allocated blocks and their orders. */
  ghost function Live(s: State): map<nat, nat> {
    map p: nat | p < |s.order| && Head(s, p) && !FreeHead(s, p) :: s.order[p]
  }

  ghost predicate InBlock(p: nat, o: nat, q: nat) { p <= q < p + Pow2(o) }

  ghost function Pages(p: nat, o: nat): set<nat> {
    set q: nat | p <= q < p + Pow2(o) && InBlock(p, o, q)
  }

  // ---------- Consequences ----------

  lemma CoverUnique(s: State, p: nat, p': nat, q: nat)
    requires Partition(s) && Covers(s, p, q) && Covers(s, p', q)
    ensures p == p'
  {
    if p < p' {
      assert Covers(s, p, p');
    } else if p' < p {
      assert Covers(s, p', p);
    }
  }

  lemma BlockFits(s: State, p: nat)
    requires Partition(s) && Head(s, p)
    ensures p + Pow2(s.order[p]) <= |s.order|
  {
    AlignedWeaken(|s.order|, s.order[p], MAX_ORDER);
    NextMultiple(p, |s.order|, Pow2(s.order[p]));
  }

  /** Any two allocated blocks are disjoint, and no allocated page is free. */
  lemma LiveDisjoint(s: State, p: nat, p': nat)
    requires Partition(s) && p in Live(s)
    ensures p' in Live(s) && p != p' ==> Pages(p, Live(s)[p]) !! Pages(p', Live(s)[p'])
    ensures Pages(p, Live(s)[p]) !! Free(s)
    ensures Aligned(p, Live(s)[p])
  {
    forall q | q in Pages(p, s.order[p])
      ensures q !in Free(s)
      ensures p' in Live(s) && p != p' ==> q !in Pages(p', s.order[p'])
    {
      assert Covers(s, p, q);
      if p' in Live(s) && q in Pages(p', s.order[p']) {
        CoverUnique(s, p, p', q);
      }
      if q in Free(s) {
        var r: nat :| FreeCovers(s, r, q);
        CoverUnique(s, p, r, q);
      }
    }
  }

  /** Every page is free or belongs to an allocated block. */
  lemma NothingLost(s: State, q: nat)
    requires Partition(s) && q < |s.order|
    ensures q in Free(s) || exists p: nat :: p in Live(s) && q in Pages(p, Live(s)[p])
  {
    assert Covered(s, q);
    var p: nat :| Covers(s, p, q);
    if FreeHead(s, p) {
      assert FreeCovers(s, p, q);
    } else {
      assert p in Live(s) && q in Pages(p, Live(s)[p]);
    }
  }

  // ---------- Completeness: a free run is one block, or holds two free buddies ----------

  /** Two free blocks of order o that could be merged. */
  ghost predicate FreePair(s: State, o: nat, lo: nat) {
    && FreeHead(s, lo) && s.order[lo] == o && Aligned(lo, o + 1)
    && FreeHead(s, lo + Pow2(o)) && s.order[lo + Pow2(o)] == o
  }

  ghost predicate NoPairsBelow(s: State, k: nat) {
    forall o: nat, lo: nat :: o < k ==> !FreePair(s, o, lo)
  }

  ghost predicate FreeRun(free: set<nat>, r: nat, k: nat) {
    Aligned(r, k) && Pages(r, k) <= free
  }

  lemma HalvesOfRun(free: set<nat>, r: nat, k: nat)
    requires k > 0 && FreeRun(free, r, k)
    ensures FreeRun(free, r, k - 1) && FreeRun(free, r + Pow2(k - 1), k - 1)
  {
    AlignedWeaken(r, k - 1, k);
    assert Aligned(Pow2(k - 1), k - 1) by { DivUnique(Pow2(k - 1), Pow2(k - 1), 1, 0); }
    MultipleSum(r, Pow2(k - 1), Pow2(k - 1));
    assert Pages(r, k - 1) <= Pages(r, k) && Pages(r + Pow2(k - 1), k - 1) <= Pages(r, k);
  }

  lemma AlignedCoverIsStart(p: nat, r: nat, o: nat)
    requires Aligned(p, o) && Aligned(r, o) && p <= r < p + Pow2(o)
    ensures p == r
  {
    if p < r { NextMultiple(p, r, Pow2(o)); }
  }

  /** A large block that covers a page of an aligned run covers its first page too. */
  lemma CoversStart(p: nat, o: nat, r: nat, k: nat, m: nat)
    requires k <= o && Aligned(p, o) && Aligned(r, k) && r <= m < r + Pow2(k) && p <= m < p + Pow2(o)
    ensures p <= r < p + Pow2(o)
  {
    AlignedWeaken(p, k, o);
    if p > r { NextMultiple(r, p, Pow2(k)); }
  }

  lemma HeadAligned(s: State, p: nat)
    requires Partition(s) && Head(s, p)
    ensures Aligned(p, s.order[p])
  {
  }

  lemma RunStart(s: State, r: nat, k: nat) returns (p: nat)
    requires FreeRun(Free(s), r, k)
    ensures FreeCovers(s, p, r)
  {
    assert r in Pages(r, k);
    assert FreePage(s, r);
    p :| FreeCovers(s, p, r);
  }

  /** When no two buddies of a lower order are both free, a wholly free aligned run lies inside a
      single free block. */
  lemma {:induction false} RunIsOneBlock(s: State, r: nat, k: nat) returns (p: nat)
    requires Partition(s) && NoPairsBelow(s, k) && FreeRun(Free(s), r, k)
    ensures FreeCovers(s, p, r) && s.order[p] >= k
    decreases k
  {
    hide Partition, Aligned, Free, Pow2;
    if k == 0 {
      p := RunStart(s, r, k);
    } else {
      var m := r + Pow2(k - 1);
      HalvesOfRun(Free(s), r, k);
      p := RunIsOneBlock(s, r, k - 1);
      var p' := RunIsOneBlock(s, m, k - 1);
      HeadAligned(s, p);
      HeadAligned(s, p');
      assert !FreePair(s, k - 1, r);
      if s.order[p'] >= k {
        assert m < r + Pow2(k) by { Pow2Add(1, k - 1); Pow2One(); }
        CoversStart(p', s.order[p'], r, k, m);
        p := p';
      } else if s.order[p] == k - 1 {
        AlignedCoverIsStart(p, r, k - 1);
        AlignedCoverIsStart(p', m, k - 1);
      }
    }
  }

  // ---------- Merging and splitting ----------

  /** t is s with the free buddies lo and lo + 2^o made one block; s is t with that block split. */
  ghost predicate Twins(s: State, t: State, lo: nat, o: nat) {
    var hi := lo + Pow2(o);
    && o < MAX_ORDER && Aligned(lo, o + 1) && hi < |s.order| == |s.held|
    && s.order[lo] == o && s.order[hi] == o && s.held[lo] && s.held[hi]
    && t.order == s.order[lo := o + 1][hi := INTERIOR] && t.held == s.held[hi := false]
  }

  lemma TwinsCovers(s: State, t: State, lo: nat, o: nat, p: nat, q: nat)
    requires Twins(s, t, lo, o)
    ensures var hi := lo + Pow2(o);
            Covers(t, p, q) <==>
            if p == lo then Covers(s, lo, q) || Covers(s, hi, q) else p != hi && Covers(s, p, q)
  {
  }

  lemma TwinsFree(s: State, t: State, lo: nat, o: nat)
    requires Twins(s, t, lo, o)
    ensures Free(s) == Free(t)
  {
    hide Covers, Twins;
    var hi := lo + Pow2(o);
    assert |s.order| == |t.order| by { TwinsShape(s, t, lo, o, lo); }
    forall q: nat ensures FreePage(s, q) <==> FreePage(t, q) {
      if FreePage(s, q) {
        var p: nat :| FreeCovers(s, p, q);
        var p' := if p == hi then lo else p;
        TwinsCovers(s, t, lo, o, p', q);
        TwinsShape(s, t, lo, o, p');
        assert FreeCovers(t, p', q);
      }
      if FreePage(t, q) {
        var p: nat :| FreeCovers(t, p, q);
        TwinsCovers(s, t, lo, o, p, q);
        TwinsShape(s, t, lo, o, p);
        TwinsShape(s, t, lo, o, hi);
        assert FreeCovers(s, if p == lo && !Covers(s, lo, q) then hi else p, q);
      }
    }
  }

  lemma TwinsShape(s: State, t: State, lo: nat, o: nat, p: nat)
    requires Twins(s, t, lo, o)
    ensures var hi := lo + Pow2(o);
            && |s.order| == |t.order| == |s.held| == |t.held| && hi != lo && hi < |s.order|
            && (Head(t, p) <==> Head(s, p) && p != hi)
            && (FreeHead(t, p) <==> FreeHead(s, p) && p != hi)
            && (p < |s.held| ==> (t.held[p] <==> s.held[p] && p != hi))
            && (p < |s.order| ==> (t.order[p] <= INTERIOR <==> s.order[p] <= INTERIOR))
            && (p < |s.order| && p != lo && p != hi ==> s.order[p] == t.order[p])
            && s.order[lo] == s.order[hi] == o && t.order[lo] == o + 1 && FreeHead(s, hi) && FreeHead(s, lo)
            && Aligned(lo, o + 1) && Aligned(lo, o) && Aligned(hi, o)
  {
    AlignedWeaken(lo, o, o + 1);
    assert Aligned(Pow2(o), o) by { DivUnique(Pow2(o), Pow2(o), 1, 0); }
    MultipleSum(lo, Pow2(o), Pow2(o));
  }

  lemma TwinsLive(s: State, t: State, lo: nat, o: nat)
    requires Twins(s, t, lo, o)
    ensures Live(s) == Live(t)
  {
    hide Twins, Head, FreeHead;
    TwinsShape(s, t, lo, o, lo);
    forall p: nat | p < |s.order|
      ensures p in Live(s) <==> p in Live(t)
      ensures p in Live(s) ==> Live(s)[p] == Live(t)[p]
    {
      TwinsShape(s, t, lo, o, p);
    }
  }

  lemma MergePartition(s: State, t: State, lo: nat, o: nat)
    requires Twins(s, t, lo, o) && Partition(s)
    ensures Partition(t)
  {
    hide Covers, Twins, Aligned;
    var hi := lo + Pow2(o);
    TwinsShape(s, t, lo, o, lo);
    forall p: nat, q: nat | Covers(t, p, q) && p != q ensures !Head(t, q) {
      TwinsCovers(s, t, lo, o, p, q);
      TwinsShape(s, t, lo, o, q);
    }
    forall q: nat | q < |t.order| ensures Covered(t, q) {
      assert Covered(s, q);
      var p: nat :| Covers(s, p, q);
      var p' := if p == hi then lo else p;
      TwinsCovers(s, t, lo, o, p', q);
    }
    forall p: nat | Head(t, p) ensures Aligned(p, t.order[p]) {
      TwinsShape(s, t, lo, o, p);
    }
    forall p: nat | p < |t.order|
      ensures t.held[p] ==> Head(t, p)
      ensures t.order[p] <= INTERIOR
    {
      TwinsShape(s, t, lo, o, p);
    }
  }

  lemma SplitNoOverlap(s: State, t: State, lo: nat, o: nat, p: nat, q: nat)
    requires Twins(s, t, lo, o) && Partition(t) && Covers(s, p, q) && p != q
    ensures !Head(s, q)
  {
    hide Covers, Twins, Aligned;
    var hi := lo + Pow2(o);
    TwinsShape(s, t, lo, o, q);
    CoversIsRange(s, p, q);
    TwinsCovers(s, t, lo, o, if p == hi then lo else p, q);
    if q == hi && p != lo {
      HeadCoversItself(s, hi);
      TwinsCovers(s, t, lo, o, lo, hi);
      CoverUnique(t, p, lo, hi);
    }
  }

  lemma SplitPartition(s: State, t: State, lo: nat, o: nat)
    requires Twins(s, t, lo, o) && Partition(t)
    ensures Partition(s)
  {
    hide Covers, Twins, Aligned;
    var hi := lo + Pow2(o);
    TwinsShape(s, t, lo, o, lo);
    forall p: nat, q: nat | Covers(s, p, q) && p != q ensures !Head(s, q) {
      SplitNoOverlap(s, t, lo, o, p, q);
    }
    forall q: nat | q < |s.order| ensures Covered(s, q) {
      assert Covered(t, q);
      var p: nat :| Covers(t, p, q);
      TwinsCovers(s, t, lo, o, p, q);
    }
    forall p: nat | Head(s, p) ensures Aligned(p, s.order[p]) {
      TwinsShape(s, t, lo, o, p);
    }
    forall p: nat | p < |s.order|
      ensures s.held[p] ==> Head(s, p)
      ensures s.order[p] <= INTERIOR
    {
      TwinsShape(s, t, lo, o, p);
    }
  }

  lemma CoversIsRange(s: State, p: nat, q: nat)
    ensures Covers(s, p, q) <==> Head(s, p) && p <= q < p + Pow2(s.order[p])
  {
  }

  lemma HeadCoversItself(s: State, p: nat)
    requires Head(s, p)
    ensures Covers(s, p, p)
  {
  }

  lemma MergeNoPairs(s: State, t: State, lo: nat, o: nat, k: nat)
    requires Twins(s, t, lo, o) && k <= o && NoPairsBelow(s, k)
    ensures NoPairsBelow(t, k)
  {
    hide Twins, Aligned;
    forall j: nat, x: nat | j < k ensures !FreePair(t, j, x) {
      assert !FreePair(s, j, x);
      if FreePair(t, j, x) {
        TwinsShape(s, t, lo, o, x);
        TwinsShape(s, t, lo, o, x + Pow2(j));
      }
    }
  }

  // ---------- Handing out and taking back ----------

  /** s and t differ in block p, free in s and allocated in t. */
  ghost predicate Handed(s: State, t: State, p: nat) {
    FreeHead(s, p) && |s.held| == |s.order| && t.order == s.order && t.held == s.held[p := false]
  }

  lemma HandedCovers(s: State, t: State, p: nat, r: nat, q: nat)
    requires Handed(s, t, p)
    ensures Covers(s, r, q) <==> Covers(t, r, q)
    ensures FreeHead(t, r) <==> FreeHead(s, r) && r != p
  {
  }

  lemma HandedPartition(s: State, t: State, p: nat)
    requires Handed(s, t, p)
    ensures Partition(s) <==> Partition(t)
  {
    hide Covers, Handed;
    assert forall r: nat, q: nat :: Covers(s, r, q) <==> Covers(t, r, q) by {
      forall r: nat, q: nat ensures Covers(s, r, q) <==> Covers(t, r, q) { HandedCovers(s, t, p, r, q); }
    }
    assert forall q: nat :: Covered(s, q) <==> Covered(t, q);
    HandedShape(s, t, p);
  }

  lemma HandedShape(s: State, t: State, p: nat)
    requires Handed(s, t, p)
    ensures t.order == s.order && |t.held| == |s.held| == |s.order| && FreeHead(s, p)
    ensures forall r: nat :: r < |s.held| ==> (t.held[r] <==> s.held[r] && r != p)
    ensures forall r: nat :: FreeHead(t, r) <==> FreeHead(s, r) && r != p
  {
  }

  lemma HandedFree(s: State, t: State, p: nat)
    requires Handed(s, t, p) && Partition(s)
    ensures Pages(p, s.order[p]) <= Free(s) && Free(t) == Free(s) - Pages(p, s.order[p])
  {
    hide Covers, Handed, Partition;
    HandedShape(s, t, p);
    var o := s.order[p];
    BlockFits(s, p);
    forall q: nat | q < |s.order|
      ensures FreePage(t, q) <==> FreePage(s, q) && q !in Pages(p, o)
      ensures q in Pages(p, o) ==> FreePage(s, q)
    {
      CoversIsRange(s, p, q);
      if q in Pages(p, o) { assert FreeCovers(s, p, q); }
      if FreePage(t, q) {
        var r: nat :| FreeCovers(t, r, q);
        HandedCovers(s, t, p, r, q);
        assert FreeCovers(s, r, q);
        if q in Pages(p, o) { CoverUnique(s, r, p, q); }
      }
      if FreePage(s, q) && q !in Pages(p, o) {
        var r: nat :| FreeCovers(s, r, q);
        HandedCovers(s, t, p, r, q);
        assert r != p;
        assert FreeCovers(t, r, q);
      }
    }
  }

  lemma HandedLive(s: State, t: State, p: nat)
    requires Handed(s, t, p)
    ensures p !in Live(s) && Live(t) == Live(s)[p := s.order[p]] && Live(s) == Live(t) - {p}
  {
  }

  ghost predicate InRange(p: nat, n: nat, q: nat) { p <= q < p + n }

  ghost function Range(p: nat, n: nat): set<nat> { set q: nat | p <= q < p + n && InRange(p, n, q) }

  lemma {:induction false} RangeSize(p: nat, n: nat)
    ensures |Range(p, n)| == n
    decreases n
  {
    if n > 0 {
      RangeSize(p, n - 1);
      assert Range(p, n) == Range(p, n - 1) + {p + n - 1};
    } else {
      assert Range(p, n) == {};
    }
  }

  lemma PagesSize(p: nat, o: nat)
    ensures |Pages(p, o)| == Pow2(o)
  {
    RangeSize(p, Pow2(o));
    assert Pages(p, o) == Range(p, Pow2(o));
  }

  // ---------- Lists ----------

  /** merge_blocks: both buddies leave list o, the lower one heads list o + 1. */
  lemma MergeLists(s: State, t: State, lo: nat, o: nat)
    requires Twins(s, t, lo, o) && ListsAgree(s)
    requires t.lists == s.lists[o := Remove(Remove(s.lists[o], lo), lo + Pow2(o))][o + 1 := [lo] + s.lists[o + 1]]
    ensures ListsAgree(t)
    ensures lo in s.lists[o] && |t.lists[o]| == |s.lists[o]| - 2
  {
    hide Twins, NoDup;
    var hi := lo + Pow2(o);
    TwinsShape(s, t, lo, o, lo);
    TwinsOrders(s, t, lo, o);
    assert ListIs(s, s.lists[o], o) && ListIs(s, s.lists[o + 1], o + 1);
    RemoveParts(s.lists[o], lo);
    RemoveParts(Remove(s.lists[o], lo), hi);
    PushNoDup(s.lists[o + 1], lo);
    forall j: nat | j <= MAX_ORDER ensures ListIs(t, t.lists[j], j) {
      assert ListIs(s, s.lists[j], j);
    }
  }

  lemma TwinsOrders(s: State, t: State, lo: nat, o: nat)
    requires Twins(s, t, lo, o)
    ensures var hi := lo + Pow2(o);
            && o < MAX_ORDER && |s.order| == |t.order|
            && (forall p: nat :: FreeHead(t, p) <==> FreeHead(s, p) && p != hi)
            && (forall p: nat :: p < |s.order| && p != lo && p != hi ==> t.order[p] == s.order[p])
  {
  }

  /** split_blocks: the block leaves list o + 1, both halves join list o at its end. */
  lemma SplitLists(s: State, t: State, lo: nat, o: nat)
    requires Twins(s, t, lo, o) && ListsAgree(t) && t.lists[o + 1] != [] && t.lists[o + 1][0] == lo
    requires s.lists == t.lists[o + 1 := t.lists[o + 1][1..]][o := t.lists[o] + [lo, lo + Pow2(o)]]
    ensures ListsAgree(s)
  {
    hide Twins, NoDup;
    var hi := lo + Pow2(o);
    TwinsShape(s, t, lo, o, lo);
    TwinsOrders(s, t, lo, o);
    assert ListIs(t, t.lists[o], o) && ListIs(t, t.lists[o + 1], o + 1);
    assert Remove(t.lists[o + 1], lo) == t.lists[o + 1][1..];
    RemoveParts(t.lists[o + 1], lo);
    AppendNoDup(t.lists[o], lo);
    AppendNoDup(t.lists[o] + [lo], hi);
    assert t.lists[o] + [lo] + [hi] == t.lists[o] + [lo, hi];
    forall j: nat | j <= MAX_ORDER ensures ListIs(s, s.lists[j], j) {
      assert ListIs(t, t.lists[j], j);
    }
  }

  /** buddy_alloc_inner and buddy_free: the block leaves, or heads, its list. */
  lemma HandedLists(s: State, t: State, p: nat)
    requires Handed(s, t, p)
    ensures var o := s.order[p];
            ListsAgree(s) && t.lists == s.lists[o := Remove(s.lists[o], p)] ==> ListsAgree(t)
    ensures var o := s.order[p];
            ListsAgree(t) && s.lists == t.lists[o := [p] + t.lists[o]] ==> ListsAgree(s)
  {
    hide Handed, NoDup;
    HandedShape(s, t, p);
    var o := s.order[p];
    if ListsAgree(s) && t.lists == s.lists[o := Remove(s.lists[o], p)] {
      assert ListIs(s, s.lists[o], o);
      RemoveParts(s.lists[o], p);
      forall j: nat | j <= MAX_ORDER ensures ListIs(t, t.lists[j], j) { assert ListIs(s, s.lists[j], j); }
    }
    if ListsAgree(t) && s.lists == t.lists[o := [p] + t.lists[o]] {
      assert ListIs(t, t.lists[o], o);
      PushNoDup(t.lists[o], p);
      forall j: nat | j <= MAX_ORDER ensures ListIs(s, s.lists[j], j) { assert ListIs(t, t.lists[j], j); }
    }
  }

  // ---------- Finding mergeable pairs ----------

  /** p's buddy at order o is a free block of the same order. */
  ghost predicate HasFreeBuddy(s: State, p: nat, o: nat) {
    Flip(p, o) >= 0 && FreeHead(s, Flip(p, o)) && s.order[Flip(p, o)] == o
  }

  lemma FlipOfLow(lo: nat, o: nat)
    requires Aligned(lo, o + 1)
    ensures Flip(lo, o) == lo + Pow2(o)
  {
    var m := Pow2(o);
    AlignedWeaken(lo, o, o + 1);
    var q := lo / (2 * m);
    assert lo == q * (2 * m) == (2 * q) * m;
    DivUnique(lo, m, 2 * q, 0);
  }

  lemma PairOfBuddies(s: State, p: nat, o: nat)
    requires Partition(s) && FreeHead(s, p) && s.order[p] == o && o < MAX_ORDER && HasFreeBuddy(s, p, o)
    ensures var b := Flip(p, o);
            b != p && (if p < b then FreePair(s, o, p) && b == p + Pow2(o) else FreePair(s, o, b) && p == b + Pow2(o))
  {
    HeadAligned(s, p);
    FlipIsSibling(p, o);
  }

  /** A buddy below the largest order is a page of the region. */
  lemma BuddyInRegion(s: State, p: nat, o: nat)
    requires Partition(s) && FreeHead(s, p) && s.order[p] == o && o < MAX_ORDER
    ensures 0 <= Flip(p, o) < |s.order|
  {
    HeadAligned(s, p);
    FlipIsSibling(p, o);
    var lo := if p < Flip(p, o) then p else Flip(p, o);
    AlignedWeaken(|s.order|, o + 1, MAX_ORDER);
    NextMultiple(lo, |s.order|, Pow2(o + 1));
  }

  lemma NoBuddiesNoPairs(s: State, o: nat)
    requires o < MAX_ORDER && ListsAgree(s) && forall i :: 0 <= i < |s.lists[o]| ==> !HasFreeBuddy(s, s.lists[o][i], o)
    ensures forall lo: nat :: !FreePair(s, o, lo)
  {
    hide Aligned, NoDup;
    forall lo: nat ensures !FreePair(s, o, lo) {
      if FreePair(s, o, lo) {
        assert ListIs(s, s.lists[o], o);
        var i :| 0 <= i < |s.lists[o]| && s.lists[o][i] == lo;
        FlipOfLow(lo, o);
      }
    }
  }

  /** A merge changes neither the free pages nor the allocated blocks, and makes no new pair at or
      below its own order's predecessors. */
  lemma MergeEffects(s: State, t: State, lo: nat, o: nat)
    requires Partition(s) && ListsAgree(s) && Twins(s, t, lo, o)
    requires t.lists == s.lists[o := Remove(Remove(s.lists[o], lo), lo + Pow2(o))][o + 1 := [lo] + s.lists[o + 1]]
    ensures Partition(t) && ListsAgree(t) && Free(t) == Free(s) && Live(t) == Live(s)
    ensures |t.lists| == MAX_ORDER + 1 && |t.lists[o]| < |s.lists[o]|
    ensures forall k: nat :: k <= o && NoPairsBelow(s, k) ==> NoPairsBelow(t, k)
  {
    hide Partition, Free, Live, Twins, NoPairsBelow;
    MergePartition(s, t, lo, o);
    MergeLists(s, t, lo, o);
    TwinsFree(s, t, lo, o);
    TwinsLive(s, t, lo, o);
    forall k: nat | k <= o && NoPairsBelow(s, k) ensures NoPairsBelow(t, k) {
      MergeNoPairs(s, t, lo, o, k);
    }
  }

  lemma SplitEffects(s: State, t: State, lo: nat, o: nat)
    requires Partition(t) && ListsAgree(t) && Twins(s, t, lo, o)
    requires t.lists[o + 1] != [] && t.lists[o + 1][0] == lo
    requires s.lists == t.lists[o + 1 := t.lists[o + 1][1..]][o := t.lists[o] + [lo, lo + Pow2(o)]]
    ensures Partition(s) && ListsAgree(s) && Free(s) == Free(t) && Live(s) == Live(t)
  {
    hide Partition, Free, Live, Twins, ListsAgree;
    SplitPartition(s, t, lo, o);
    SplitLists(s, t, lo, o);
    TwinsFree(s, t, lo, o);
    TwinsLive(s, t, lo, o);
  }

  /** The second half of a free block: inside the region, and not a head. */
  lemma SplitPoint(t: State, lo: nat, o: nat)
    requires Partition(t) && FreeHead(t, lo) && t.order[lo] == o + 1
    ensures lo + Pow2(o) < |t.order| && !Head(t, lo + Pow2(o)) && Aligned(lo, o + 1)
  {
    BlockFits(t, lo);
    HeadAligned(t, lo);
    assert Covers(t, lo, lo + Pow2(o));
  }

  lemma NonHead(s: State, p: nat)
    requires Partition(s) && p < |s.order| && !Head(s, p)
    ensures |s.held| == |s.order| && s.order[p] == INTERIOR && !s.held[p]
  {
  }

  /** When no list from k up holds a block and no buddies below k are both free, there is no free
      aligned run of 2^k pages at all. */
  lemma NoRun(s: State, k: nat)
    requires Partition(s) && ListsAgree(s) && NoPairsBelow(s, k) && k <= MAX_ORDER
    requires forall j: nat :: k <= j <= MAX_ORDER ==> s.lists[j] == []
    ensures forall r: nat :: !FreeRun(Free(s), r, k)
  {
    hide Partition, Free, NoPairsBelow, NoDup;
    forall p: nat | FreeHead(s, p) ensures s.order[p] < k {
      assert ListIs(s, s.lists[s.order[p]], s.order[p]);
    }
    forall r: nat ensures !FreeRun(Free(s), r, k) {
      if FreeRun(Free(s), r, k) {
        var p := RunIsOneBlock(s, r, k);
      }
    }
  }

  // ---------- The initial state ----------

  /** The first `done` largest-order blocks have been entered; nothing else is a head. */
  ghost predicate Entered(s: State, done: nat) {
    var m := Pow2(MAX_ORDER);
    && |s.held| == |s.order| && |s.lists| == MAX_ORDER + 1 && done * m <= |s.order|
    && (forall p: nat :: p < |s.order| ==> s.order[p] == if p % m == 0 && p < done * m then MAX_ORDER else INTERIOR)
    && (forall p: nat :: p < |s.order| ==> (s.held[p] <==> p % m == 0 && p < done * m))
    && (forall o: nat :: o < MAX_ORDER ==> s.lists[o] == [])
    && |s.lists[MAX_ORDER]| == done
    && (forall i :: 0 <= i < done ==> s.lists[MAX_ORDER][i] == i * m)
  }

  /** After the k-th block, the k+1-st. */
  lemma EnterNext(s: State, t: State, k: nat)
    requires Entered(s, k) && (k + 1) * Pow2(MAX_ORDER) <= |s.order|
    requires t.order == s.order[k * Pow2(MAX_ORDER) := MAX_ORDER] && t.held == s.held[k * Pow2(MAX_ORDER) := true]
    requires t.lists == s.lists[MAX_ORDER := s.lists[MAX_ORDER] + [k * Pow2(MAX_ORDER)]]
    ensures Entered(t, k + 1)
  {
    var m := Pow2(MAX_ORDER);
    hide Pow2;
    MultipleMod(k, m);
    forall p: nat | p < |s.order|
      ensures p % m == 0 && p < (k + 1) * m <==> p == k * m || (p % m == 0 && p < k * m)
    {
      if p % m == 0 && p > k * m { NextMultiple(k * m, p, m); }
    }
  }

  lemma MultipleOrder(i: nat, j: nat, m: nat)
    requires m > 0 && i < j
    ensures i * m < j * m
  {
  }

  lemma EnteredPartition(s: State, n: nat)
    requires Entered(s, n) && |s.order| == n * Pow2(MAX_ORDER)
    ensures Partition(s) && Live(s) == map[] && Free(s) == Range(0, |s.order|)
  {
    var m := Pow2(MAX_ORDER);
    hide Pow2;
    MultipleMod(n, m);
    forall q: nat | q < |s.order| ensures Covered(s, q) && FreePage(s, q) {
      var p := q - q % m;
      assert p == (q / m) * m;
      MultipleMod(q / m, m);
      assert FreeCovers(s, p, q);
    }
    forall p: nat, q: nat | Covers(s, p, q) && p != q ensures !Head(s, q) {
      if q < |s.order| && q % m == 0 { NextMultiple(p, q, m); }
    }
  }

  lemma EnteredLists(s: State, n: nat)
    requires Entered(s, n) && |s.order| == n * Pow2(MAX_ORDER)
    ensures ListsAgree(s)
  {
    var m := Pow2(MAX_ORDER);
    hide Pow2;
    var l := s.lists[MAX_ORDER];
    forall i, j | 0 <= i < j < |l| ensures l[i] != l[j] { MultipleOrder(i, j, m); }
    forall p: nat ensures p in l <==> FreeHead(s, p) && s.order[p] == MAX_ORDER {
      if p in l {
        var i :| 0 <= i < |l| && l[i] == p;
        MultipleMod(i, m);
        MultipleOrder(i, n, m);
      }
      if FreeHead(s, p) {
        assert p == (p / m) * m;
        if p / m >= n { MulLe(n, p / m, m); }
        assert l[p / m] == p;
      }
    }
  }
}
