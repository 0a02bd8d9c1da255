/** The buddy allocator of src/mm/buddy.c: lazy merging, splitting, allocation and release.

    The free list heads, the `order` and `private` fields of the page descriptors and the page
    counter are fields of one class.  The pool that list nodes come from never runs dry here, and is
    not itself served by this allocator.
 */
module Buddy {
  import opened Bits
  import opened BuddyState
  import opened Lists

  const PAGE_SHIFT: nat := 12

  lemma FlipAddress(base: nat, p: nat, o: nat, shift: nat)
    requires Aligned(base, shift + o + 1) && Aligned(p, o)
    ensures Xor(base + Pow2(shift) * p, Pow2(shift + o)) == base + Pow2(shift) * Flip(p, o)
  {
    hide Pow2, Xor;
    var page, m := Pow2(shift), Pow2(o);
    XorOfPow2(base + page * p, shift + o);
    Pow2Add(shift, o);
    Pow2Add(shift + o, 1);
    Pow2One();
    var d := Pow2(shift + o + 1);
    assert base == (base / d) * d;
    ShiftedToggle(base / d, page, p, m, d);
  }

  /** get_buddy_addr on addresses is Flip on page indices. */
  lemma BuddyAddress(base: nat, p: nat, o: nat)
    requires Aligned(base, PAGE_SHIFT + MAX_ORDER) && o < MAX_ORDER && Aligned(p, o)
    ensures Xor(base + Pow2(PAGE_SHIFT) * p, Pow2(PAGE_SHIFT + o)) == base + Pow2(PAGE_SHIFT) * Flip(p, o)
  {
    hide Pow2, Xor;
    AlignedWeaken(base, PAGE_SHIFT + o + 1, PAGE_SHIFT + MAX_ORDER);
    FlipAddress(base, p, o, PAGE_SHIFT);
  }

  lemma ShiftedToggle(b: nat, page: nat, p: nat, m: nat, d: nat)
    requires page > 0 && m > 0 && p % m == 0 && d == 2 * (page * m)
    ensures Toggle(b * d + page * p, page * m) == b * d + page * Toggle(p, m)
  {
    var q := p / m;
    var a := b * d + page * p;
    assert p == q * m;
    assert a == (2 * b + q) * (page * m) by {
      assert page * (q * m) == q * (page * m);
      assert b * d == (2 * b) * (page * m);
    }
    DivUnique(a, page * m, 2 * b + q, 0);
    assert (2 * b + q) % 2 == q % 2;
    assert page * (p + m) == page * p + page * m && page * (p - m) == page * p - page * m;
  }

  /** The order a request of `size` bytes is served from (size2order). */
  method SizeToOrder(size: nat) returns (o: nat)
    requires Pow2(PAGE_SHIFT) <= size <= Pow2(PAGE_SHIFT + MAX_ORDER)
    ensures o <= MAX_ORDER && size <= Pow2(PAGE_SHIFT + o)
    ensures o > 0 ==> Pow2(PAGE_SHIFT + o - 1) < size
  {
    hide Pow2;
    Pow2Values();
    Pow2Monotone(PAGE_SHIFT + MAX_ORDER, 32);
    var r := Log2Ceil(size);
    if r < PAGE_SHIFT {
      Pow2Monotone(r, PAGE_SHIFT - 1);
      Pow2Add(PAGE_SHIFT - 1, 1);
    }
    if r > PAGE_SHIFT + MAX_ORDER { Pow2Monotone(PAGE_SHIFT + MAX_ORDER, r - 1); }
    o := r - PAGE_SHIFT;
  }

  lemma {:induction false} WithoutCommutes(l: seq<nat>, x: nat, y: nat)
    ensures Remove(Remove(l, x), y) == Remove(Remove(l, y), x)
    decreases |l|
  {
    if l != [] && l[0] != x && l[0] != y {
      WithoutCommutes(l[1..], x, y);
    }
  }

  class System {
    var lists: seq<seq<nat>>
    var order: array<nat>
    var held: array<bool>
    var freePages: nat

    ghost function St(): State
      reads this, order, held
    {
      State(lists, order[..], held[..])
    }

    ghost predicate Consistent()
      reads this, order, held
    {
      && order.Length == held.Length && |lists| == MAX_ORDER + 1
      && Partition(St()) && ListsAgree(St())
    }

    ghost predicate Valid()
      reads this, order, held
    {
      Consistent() && freePages == |Free(St())|
    }

    /** buddy_init: the region becomes free blocks of the largest order. */
    constructor (blobs: nat)
      ensures Valid() && fresh(order) && fresh(held)
      ensures order.Length == blobs * Pow2(MAX_ORDER)
      ensures Live(St()) == map[] && Free(St()) == Range(0, order.Length) && freePages == order.Length
    {
      lists := seq(MAX_ORDER + 1, _ => []);
      order := new nat[blobs * Pow2(MAX_ORDER)](_ => INTERIOR);
      held := new bool[blobs * Pow2(MAX_ORDER)](_ => false);
      freePages := 0;
      new;
      hide Pow2;
      assert Entered(St(), 0);
      for k := 0 to blobs
        invariant fresh(order) && fresh(held) && order.Length == held.Length == blobs * Pow2(MAX_ORDER)
        invariant Entered(St(), k) && freePages == k * Pow2(MAX_ORDER)
      {
        ghost var s := St();
        MultipleOrder(k, blobs, Pow2(MAX_ORDER));
        MulLe(k + 1, blobs, Pow2(MAX_ORDER));
        var p := k * Pow2(MAX_ORDER);
        held[p] := true;
        order[p] := MAX_ORDER;
        freePages := freePages + Pow2(MAX_ORDER);
        lists := lists[MAX_ORDER := lists[MAX_ORDER] + [p]];
        EnterNext(s, St(), k);
        assert (k + 1) * Pow2(MAX_ORDER) == k * Pow2(MAX_ORDER) + Pow2(MAX_ORDER);
      }
      EnteredPartition(St(), blobs);
      EnteredLists(St(), blobs);
      RangeSize(0, order.Length);
    }

    /** buddy_alloc_inner: take the first block of list o. */
    method AllocInner(o: nat) returns (p: nat)
      requires Valid() && o <= MAX_ORDER && lists[o] != []
      modifies this, held
      ensures Valid() && order == old(order) && held == old(held)
      ensures p == old(lists[o][0]) && Aligned(p, o)
      ensures Pages(p, o) <= old(Free(St())) && Free(St()) == old(Free(St())) - Pages(p, o)
      ensures p !in old(Live(St())) && Live(St()) == old(Live(St()))[p := o]
      ensures freePages + Pow2(o) == old(freePages)
    {
      hide Partition, Free, Live, Aligned;
      ghost var s := St();
      p := lists[o][0];
      assert ListIs(s, s.lists[o], o) && p in s.lists[o];
      HeadAligned(s, p);
      held[p] := false;
      lists := lists[o := lists[o][1..]];
      ghost var t := St();
      assert Handed(s, t, p);
      assert Remove(s.lists[o], p) == s.lists[o][1..];
      HandedPartition(s, t, p);
      HandedFree(s, t, p);
      HandedLive(s, t, p);
      HandedLists(s, t, p);
      PagesSize(p, o);
      assert Free(s) == Free(t) + Pages(p, o) && Free(t) !! Pages(p, o);
      freePages := freePages - Pow2(o);
    }

    /** buddy_free: the block, whatever its order field says, goes back to the head of that list. */
    method Release(p: nat)
      requires Valid() && p in Live(St())
      modifies this, held
      ensures Valid() && order == old(order) && held == old(held)
      ensures Live(St()) == old(Live(St())) - {p}
      ensures Free(St()) == old(Free(St())) + Pages(p, old(Live(St()))[p])
      ensures freePages == old(freePages) + Pow2(old(Live(St()))[p])
    {
      hide Partition, Free, Aligned;
      ghost var t := St();
      var o := order[p];
      LiveDisjoint(t, p, p);
      held[p] := true;
      freePages := freePages + Pow2(o);
      lists := lists[o := [p] + lists[o]];
      ghost var s := St();
      assert s.held[p := false] == t.held;
      assert Handed(s, t, p);
      HandedPartition(s, t, p);
      HandedFree(s, t, p);
      HandedLive(s, t, p);
      HandedLists(s, t, p);
      PagesSize(p, o);
      assert Free(s) == Free(t) + Pages(p, o);
    }

    /** The scan of merge_blocks: the first block of list i whose buddy is free with the same order. */
    method FindMergeable(i: nat) returns (found: bool, block: nat, buddy: nat)
      requires Consistent() && i < MAX_ORDER
      ensures found ==> && FreeHead(St(), block) && order[block] == i
                        && buddy == Flip(block, i) && HasFreeBuddy(St(), block, i)
      ensures !found ==> forall lo: nat :: !FreePair(St(), i, lo)
    {
      hide Partition, Pow2, Flip, Xor;
      ghost var s := St();
      assert ListIs(s, s.lists[i], i);
      for k := 0 to |lists[i]|
        invariant forall j :: 0 <= j < k ==> !HasFreeBuddy(s, lists[i][j], i)
      {
        block := lists[i][k];
        assert block in s.lists[i];
        XorOfPow2(block, i);
        BuddyInRegion(s, block, i);
        buddy := Xor(block, Pow2(order[block]));
        if held[buddy] && order[buddy] == i {
          return true, block, buddy;
        }
      }
      NoBuddiesNoPairs(s, i);
      found, block, buddy := false, 0, 0;
    }

    /** Merge a block with its free buddy: the higher one is absorbed. */
    method MergePair(i: nat, block: nat, buddy: nat)
      requires Consistent() && i < MAX_ORDER && FreeHead(St(), block) && order[block] == i
      requires buddy == Flip(block, i) && HasFreeBuddy(St(), block, i)
      modifies this`lists, order, held
      ensures Consistent() && order == old(order) && held == old(held)
      ensures Free(St()) == old(Free(St())) && Live(St()) == old(Live(St()))
      ensures |lists[i]| < |old(lists[i])|
      ensures forall k: nat :: k <= i && old(NoPairsBelow(St(), k)) ==> NoPairsBelow(St(), k)
    {
      hide Partition, Free, Live, Aligned, Flip, Pow2, ListsAgree;
      ghost var s := St();
      PairOfBuddies(s, block, i);
      ghost var lo := if block < buddy then block else buddy;
      ghost var hi := if block < buddy then buddy else block;
      WithoutCommutes(lists[i], block, buddy);
      lists := lists[i := Remove(Remove(lists[i], block), buddy)];
      if block > buddy {
        held[block] := false;
        order[block] := MAX_ORDER + 1;
        order[buddy] := order[buddy] + 1;
        lists := lists[order[buddy] := [buddy] + lists[order[buddy]]];
      } else {
        held[buddy] := false;
        order[buddy] := MAX_ORDER + 1;
        order[block] := order[block] + 1;
        lists := lists[order[block] := [block] + lists[order[block]]];
      }
      ghost var t := St();
      assert t.order == s.order[lo := i + 1][hi := INTERIOR];
      assert Twins(s, t, lo, i);
      MergeEffects(s, t, lo, i);
    }

    /** One order of merge_blocks: scan and merge until a scan finds nothing. */
    method MergeLevel(i: nat)
      requires Consistent() && i < MAX_ORDER && NoPairsBelow(St(), i)
      modifies this`lists, order, held
      ensures Consistent() && order == old(order) && held == old(held)
      ensures Free(St()) == old(Free(St())) && Live(St()) == old(Live(St()))
      ensures NoPairsBelow(St(), i + 1)
    {
      hide Partition, ListsAgree, Free, Live, FreePair, FreeHead, HasFreeBuddy;
      var done := false;
      while !done
        invariant Consistent() && order == old(order) && held == old(held)
        invariant Free(St()) == old(Free(St())) && Live(St()) == old(Live(St()))
        invariant NoPairsBelow(St(), i)
        invariant done ==> NoPairsBelow(St(), i + 1)
        decreases !done, |lists[i]|
      {
        var found, block, buddy := FindMergeable(i);
        if found {
          MergePair(i, block, buddy);
        } else {
          done := true;
        }
      }
    }

    /** merge_blocks: afterwards no two buddies of an order below `target` are both free. */
    method MergeBlocks(target: nat)
      requires Consistent() && target <= MAX_ORDER
      modifies this`lists, order, held
      ensures Consistent() && order == old(order) && held == old(held)
      ensures Free(St()) == old(Free(St())) && Live(St()) == old(Live(St()))
      ensures NoPairsBelow(St(), target)
    {
      hide Partition, ListsAgree, Free, Live;
      for i := 0 to target
        invariant Consistent() && order == old(order) && held == old(held)
        invariant Free(St()) == old(Free(St())) && Live(St()) == old(Live(St()))
        invariant NoPairsBelow(St(), i)
      {
        MergeLevel(i);
      }
    }

    /** Split the first block of list o + 1 into two blocks of order o. */
    method SplitOne(o: nat)
      requires Consistent() && o < MAX_ORDER && lists[o + 1] != []
      modifies this`lists, order, held
      ensures Consistent() && order == old(order) && held == old(held)
      ensures Free(St()) == old(Free(St())) && Live(St()) == old(Live(St()))
      ensures lists[o] != []
    {
      hide Partition, Free, Live, Aligned, Pow2;
      ghost var t := St();
      var block := lists[o + 1][0];
      assert ListIs(t, t.lists[o + 1], o + 1) && block in t.lists[o + 1];
      SplitPoint(t, block, o);
      assert order[block] == o + 1;  // the panic of split_blocks is unreachable
      XorOfPow2(block, o);
      FlipOfLow(block, o);
      var buddy := Xor(block, Pow2(o));
      assert t.order[buddy] == INTERIOR && !t.held[buddy] by { NonHead(t, buddy); }
      lists := lists[o + 1 := lists[o + 1][1..]];
      order[block] := o;
      order[buddy] := o;
      held[buddy] := true;
      lists := lists[o := lists[o] + [block]];
      lists := lists[o := lists[o] + [buddy]];
      ghost var s := St();
      assert lists[o] == t.lists[o] + [block, buddy];
      assert t.order == s.order[block := o + 1][buddy := INTERIOR];
      assert t.held == s.held[buddy := false];
      SplitEffects(s, t, block, o);
    }

    /** split_blocks: take the smallest larger block there is and halve it down to `target`. */
    method SplitBlocks(target: nat)
      requires Consistent() && target <= MAX_ORDER && lists[target] == []
      modifies this`lists, order, held
      ensures Consistent() && order == old(order) && held == old(held)
      ensures Free(St()) == old(Free(St())) && Live(St()) == old(Live(St()))
      ensures lists[target] == [] ==> St() == old(St()) && forall j :: target <= j <= MAX_ORDER ==> lists[j] == []
    {
      hide Partition, ListsAgree, Free, Live;
      var source := target + 1;
      while source <= MAX_ORDER && lists[source] == []
        invariant target < source <= MAX_ORDER + 1
        invariant forall j :: target <= j < source ==> lists[j] == []
      {
        source := source + 1;
      }
      if source > MAX_ORDER { return; }
      var o := source;
      while o > target
        invariant target <= o <= source && Consistent() && order == old(order) && held == old(held)
        invariant Free(St()) == old(Free(St())) && Live(St()) == old(Live(St()))
        invariant lists[o] != []
      {
        SplitOne(o - 1);
        o := o - 1;
      }
    }

    /** buddy_alloc_nolock: an aligned run of 2^o pages that was wholly free, if there is one. */
    method AllocOrder(o: nat) returns (found: bool, p: nat)
      requires Valid() && o <= MAX_ORDER
      modifies this, order, held
      ensures Valid() && order == old(order) && held == old(held)
      ensures found <==> exists r: nat :: FreeRun(old(Free(St())), r, o)
      ensures found ==> FreeRun(old(Free(St())), p, o) && p !in old(Live(St()))
      ensures found ==> Free(St()) == old(Free(St())) - Pages(p, o) && Live(St()) == old(Live(St()))[p := o]
      ensures found ==> freePages + Pow2(o) == old(freePages)
      ensures !found ==> Free(St()) == old(Free(St())) && Live(St()) == old(Live(St())) && freePages == old(freePages)
    {
      hide Partition, ListsAgree, Free, Live, Aligned, Pages, NoPairsBelow;
      if lists[o] == [] {
        MergeBlocks(o);
        if lists[o] == [] {
          ghost var s := St();
          SplitBlocks(o);
          if lists[o] == [] {
            NoRun(s, o);
            return false, 0;
          }
        }
      }
      p := AllocInner(o);
      assert FreeRun(old(Free(St())), p, o);
      found := true;
    }

    /** buddy_alloc */
    method Alloc(size: nat) returns (found: bool, p: nat, ghost o: nat)
      requires Valid()
      modifies this, order, held
      ensures Valid() && order == old(order) && held == old(held)
      ensures size < Pow2(PAGE_SHIFT) || size > Pow2(PAGE_SHIFT + MAX_ORDER) ==>
                !found && unchanged(this) && unchanged(order) && unchanged(held)
      ensures Pow2(PAGE_SHIFT) <= size <= Pow2(PAGE_SHIFT + MAX_ORDER) ==>
                && o <= MAX_ORDER && size <= Pow2(PAGE_SHIFT + o) && (o > 0 ==> Pow2(PAGE_SHIFT + o - 1) < size)
                && (found <==> exists r: nat :: FreeRun(old(Free(St())), r, o))
      ensures found ==> FreeRun(old(Free(St())), p, o) && p !in old(Live(St()))
      ensures found ==> Free(St()) == old(Free(St())) - Pages(p, o) && Live(St()) == old(Live(St()))[p := o]
      ensures !found ==> Free(St()) == old(Free(St())) && Live(St()) == old(Live(St()))
    {
      hide Partition, ListsAgree, Free, Live, Aligned, Pages, NoPairsBelow, Pow2;
      var pageSize, blobSize := Pow2(PAGE_SHIFT), Pow2(PAGE_SHIFT + MAX_ORDER);
      o := 0;
      if size < pageSize || size > blobSize {
        return false, 0, 0;
      }
      var order_ := SizeToOrder(size);
      o := order_;
      found, p := AllocOrder(order_);
    }

    /** Allocating a block and releasing it restores the free pages, the allocated blocks and the
        counter, however the blocks were merged and split on the way. */
    method AllocThenRelease(o: nat)
      requires Valid() && o <= MAX_ORDER
      modifies this, order, held
      ensures Valid() && order == old(order) && held == old(held)
      ensures Free(St()) == old(Free(St())) && Live(St()) == old(Live(St())) && freePages == old(freePages)
    {
      hide Partition, ListsAgree, Free, Live, Pow2;
      var found, p := AllocOrder(o);
      if found {
        Release(p);
        assert Live(St()) == old(Live(St()));
      }
    }
  }
}
