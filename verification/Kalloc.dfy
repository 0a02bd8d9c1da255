/** src/mm/slab.c and src/mm/kalloc.c on top of the buddy system.

    Addresses are bytes from the base of the buddy region.  The buddy system's own bookkeeping comes from
    a pool of its own, so that an allocation does not re-enter itself. */
module Kalloc {
  import opened Bits
  import opened Lists
  import opened KallocState
  import BuddyState
  import Buddy

  /** Some aligned run of 2^o pages is wholly free. */
  ghost predicate Room(free: set<nat>, o: nat) { exists r: nat :: BuddyState.FreeRun(free, r, o) }

  /** c is the first pool whose objects hold size bytes. */
  ghost predicate IsPool(size: nat, c: nat) {
    c < POOLS == |SIZES| && size <= SIZES[c] && forall j :: 0 <= j < c ==> SIZES[j] < size
  }

  /** 2^o pages are the smallest block that holds size bytes. */
  ghost predicate IsOrder(size: nat, o: nat) { size <= Pow2(o) * PAGE && (o > 0 ==> Pow2(o - 1) * PAGE < size) }

  lemma OneOrder(size: nat, o: nat, o': nat)
    requires IsOrder(size, o) && IsOrder(size, o')
    ensures o == o'
  {
    if o < o' { Pow2Monotone(o, o' - 1); } else if o' < o { Pow2Monotone(o', o - 1); }
  }

  /** size2index: the smallest pool whose objects are large enough. */
  method SizeToIndex(size: nat) returns (i: nat)
    ensures i < POOLS == |SIZES| && (size <= PAGE ==> size <= SIZES[i])
    ensures forall j :: 0 <= j < i ==> SIZES[j] < size
  {
    SizeTable();
    i := 0;
    while i < POOLS - 1
      invariant i < POOLS && forall j :: 0 <= j < i ==> SIZES[j] < size
    {
      if size <= SIZES[i] { return; }
      i := i + 1;
    }
    assert SIZES[17] == PAGE;
  }

  /** Where t objects start: behind the header and a bit for each, rounded up as ALIGN_UP does. */
  function Start(size: nat, t: nat): nat
    requires size > 0
  {
    AlignUp(HEADER + (t + 7) / 8, size)
  }

  /** The most objects, up to object_num, that fit into the block behind what precedes them. */
  ghost predicate IsLayout(size: nat, total: nat, offset: nat)
    requires size > 0
  {
    && 1 <= total <= ObjectNum(size) && offset == Start(size, total) && offset + total * size <= BLOB
    && forall t: nat :: total < t <= ObjectNum(size) ==> Start(size, t) + t * size > BLOB
  }

  /** The layout loop of slab_init: header, bitmap and as many objects as fit into the block. */
  method Layout(size: nat) returns (total: nat, offset: nat)
    requires 8 <= size <= PAGE
    ensures total >= 1 && HEADER + (total + 7) / 8 <= offset && offset + total * size <= BLOB
    ensures IsLayout(size, total, offset)
  {
    total := ObjectNum(size);
    EnoughObjects(size);
    offset := AlignUp(HEADER + AlignUp(total, 8) / 8, size);
    AlignEight(total);
    while offset + total * size > BLOB
      invariant total >= 1 && HEADER + (total + 7) / 8 <= offset < HEADER + (total + 7) / 8 + 1 + size
      invariant total <= ObjectNum(size) && offset == Start(size, total)
      invariant forall t: nat :: total < t <= ObjectNum(size) ==> Start(size, t) + t * size > BLOB
      decreases total
    {
      assert 1 * size == size;
      assert total > 1;
      total := total - 1;
      AlignEight(total);
      offset := AlignUp(HEADER + AlignUp(total, 8) / 8, size);
    }
  }

  lemma OneMoreAfter(k0: K, live0: map<nat, nat>, k: K, live: map<nat, nat>, k': K, live': map<nat, nat>, a: nat, n: nat)
    requires SamePieces(k0, live0, k, live) && OneMore(k, live, k', live', a, n)
    ensures OneMore(k0, live0, k', live', a, n)
  {
    hide Piece;
  }

  lemma AddrIs(b: nat, s: Slab, i: nat)
    ensures Addr(b, s, i) == 4096 * b + s.offset + i * SizeOf(s.cache)
  {
  }

  lemma EnoughObjects(size: nat)
    requires 8 <= size <= PAGE
    ensures ObjectNum(size) >= 1
  {
    var n, d := 8 * (BLOB - HEADER) - 7, 8 * size + 1;
    assert n >= d && n == n / d * d + n % d;
    assert n / d != 0;
  }

  lemma AlignEight(x: nat)
    ensures AlignUp(x, 8) / 8 == (x + 7) / 8
  {
    AndSeven(x + 7);
    assert AlignUp(x, 8) == x + 7 - (x + 7) % 8;
  }

  lemma AndSeven(a: nat)
    ensures And(a, 7) == a % 8
  {
    var b, c := a / 2, a / 4;
    assert c == b / 2;
    assert And(c, 1) == c % 2 by { assert And(c / 2, 0) == 0; }
    assert And(b, 3) == b % 2 + 2 * And(c, 1);
    assert And(a, 7) == a % 2 + 2 * And(b, 3);
  }

  class Allocator {
    const buddy: Buddy.System
    var slabs: map<nat, Slab>
    var caches: seq<Cache>
    var flags: set<nat>

    ghost function Kt(): K
      reads this
    {
      K(slabs, caches, flags)
    }

    ghost function Blocks(): map<nat, nat>
      reads buddy, buddy.order, buddy.held
    {
      BuddyState.Live(buddy.St())
    }

    ghost function FreePages(): set<nat>
      reads buddy, buddy.order, buddy.held
    {
      BuddyState.Free(buddy.St())
    }

    ghost predicate Valid()
      reads this, buddy, buddy.order, buddy.held
    {
      buddy.Valid() && Inv(Kt(), Blocks())
    }

    /** kalloc_init over a fresh buddy system: a first slab for every pool that can have one. */
    constructor (blobs: nat)
      ensures Valid() && fresh(buddy) && fresh(buddy.order) && fresh(buddy.held)
      ensures forall a: nat, n: nat :: !Piece(Kt(), Blocks(), a, n)
    {
      buddy := new Buddy.System(blobs);
      slabs, caches, flags := map[], seq(POOLS, _ => Cache(0, [], [])), {};
      new;
      StartKeeps(Kt(), Blocks());
      hide Inv, Piece, BuddyState.Live, BuddyState.Partition;
      var j := 0;
      while j < POOLS
        invariant j <= POOLS && Valid() && fresh(buddy.order) && fresh(buddy.held)
        invariant forall a: nat, n: nat :: !Piece(Kt(), Blocks(), a, n)
      {
        var _, _ := Expand(j);
        j := j + 1;
      }
    }

    /** A new slab for pool c, if the buddy system has a block; nothing more is allocated by it. */
    method Expand(c: nat) returns (found: bool, ghost total: nat)
      requires Valid() && c < POOLS
      modifies this, buddy, buddy.order, buddy.held
      ensures Valid() && buddy.order == old(buddy.order) && buddy.held == old(buddy.held)
      ensures SamePieces(old(Kt()), old(Blocks()), Kt(), Blocks())
      ensures if found then total >= 1 && caches[c].free == old(caches)[c].free + total
              else Kt() == old(Kt()) && Blocks() == old(Blocks())
      ensures found ==> SizeOf(c) > 0 && exists offset: nat :: IsLayout(SizeOf(c), total, offset)
      ensures found <==> Room(old(FreePages()), BLOB_ORDER)
    {
      hide Inv, Room, BuddyState.Free, BuddyState.Live, BuddyState.Partition, BuddyState.ListsAgree, Piece, Pow2, Apart;
      total := 0;
      KSizes(Kt(), Blocks());
      var b;
      ghost var o;
      found, b, o := BuddyAlloc(BLOB);
      assert o == BLOB_ORDER by { BlobOrder(o); }
      if !found { return; }
      SizeFacts(c);
      var objects, offset := Layout(SizeOf(c));
      total := objects;
      AddKeeps(Kt(), old(Blocks()), c, b, total, offset);
      // slab_init
      slabs := slabs[b := NewSlab(c, objects, offset)];
      flags := flags + BlobPages(b);
      caches := caches[c := Cache(caches[c].free + objects, caches[c].partial + [b], caches[c].full)];
    }

    /** The beginning of kmem_cache_alloc: a pool with fewer free objects than object_num says a slab has
        grows by a slab, if there is a run of pages for it. */
    method Replenish(c: nat) returns (ghost grown: nat)
      requires Valid() && c < POOLS
      modifies this, buddy, buddy.order, buddy.held
      ensures Valid() && buddy.order == old(buddy.order) && buddy.held == old(buddy.held)
      ensures SamePieces(old(Kt()), old(Blocks()), Kt(), Blocks()) && caches[c].free == old(caches)[c].free + grown
      ensures grown == 0 ==> Kt() == old(Kt()) && Blocks() == old(Blocks())
      ensures grown > 0 <==> old(caches)[c].free < ObjectNum(SizeOf(c)) && Room(old(FreePages()), BLOB_ORDER)
      ensures grown > 0 ==> SizeOf(c) > 0 && exists offset: nat :: IsLayout(SizeOf(c), grown, offset)
    {
      hide ObjectNum, IsLayout, SizeOf, Room, BuddyState.Free, Inv, BuddyState.Live, BuddyState.Partition, BuddyState.ListsAgree,
           Piece, Addr;
      KSizes(Kt(), Blocks());
      grown := 0;
      if caches[c].free < ObjectNum(SizeOf(c)) {
        ghost var total;
        var more;
        more, total := Expand(c);
        KSizes(Kt(), Blocks());
        if more { grown := total; }
      }
    }

    /** kmem_cache_alloc: an object of pool c; none exactly when the pool is empty and there is no run of
        pages for a slab. */
    method CacheAlloc(c: nat) returns (found: bool, a: nat, ghost grown: nat)
      requires Valid() && c < POOLS
      modifies this, buddy, buddy.order, buddy.held
      ensures Valid() && buddy.order == old(buddy.order) && buddy.held == old(buddy.held)
      ensures found ==> OneMore(old(Kt()), old(Blocks()), Kt(), Blocks(), a, SizeOf(c))
      ensures !found ==> Kt() == old(Kt()) && Blocks() == old(Blocks())
      ensures found <==> old(caches)[c].free > 0 || Room(old(FreePages()), BLOB_ORDER)
      ensures grown > 0 <==> old(caches)[c].free < ObjectNum(SizeOf(c)) && Room(old(FreePages()), BLOB_ORDER)
      ensures grown > 0 ==> SizeOf(c) > 0 && exists offset: nat :: IsLayout(SizeOf(c), grown, offset)
      ensures found ==> caches[c].free == old(caches)[c].free + grown - 1
    {
      SizeFacts(c);
      EnoughObjects(SizeOf(c));
      hide ObjectNum, IsLayout, SizeOf, Room, BuddyState.Free, Inv, BuddyState.Live, BuddyState.Partition, BuddyState.ListsAgree,
           OneMore, SamePieces, Addr;
      KSizes(Kt(), Blocks());
      grown := Replenish(c);
      KSizes(Kt(), Blocks());
      if caches[c].free == 0 { return false, 0, grown; }
      ghost var k, live := Kt(), Blocks();
      a := SlabAlloc(c);
      OneMoreAfter(old(Kt()), old(Blocks()), k, live, Kt(), Blocks(), a, SizeOf(c));
      found := true;
    }

    /** slab_alloc on the first slab with a free object, and the pool's count. */
    method SlabAlloc(c: nat) returns (a: nat)
      requires Valid() && c < POOLS && c < |caches| && caches[c].free > 0
      modifies this
      ensures Valid() && OneMore(old(Kt()), Blocks(), Kt(), Blocks(), a, SizeOf(c))
      ensures c < |caches| && caches[c].free == old(caches)[c].free - 1
      ensures old(caches)[c].partial != [] && old(caches)[c].partial[0] in old(slabs)
      ensures var b := old(caches)[c].partial[0];
              var s := old(slabs)[b];
              exists i: nat :: && i < |s.bits| && !s.bits[i] && (forall j :: 0 <= j < i ==> s.bits[j])
                               && a == 4096 * b + s.offset + i * SizeOf(s.cache)
    {
      hide Inv, BuddyState.Live, BuddyState.Partition, BuddyState.ListsAgree, Piece, Addr;
      ghost var k := Kt();
      FirstPartial(k, Blocks(), c);
      var b := caches[c].partial[0];
      var s := slabs[b];
      var i := FindClear(s.bits);
      TakeKeeps(k, Blocks(), c, i);
      slabs := slabs[b := s.(free := s.free - 1, bits := s.bits[i := true])];
      var x := caches[c];
      if slabs[b].free == 0 {
        caches := caches[c := Cache(x.free - 1, x.partial[1..], [b] + x.full)];
      } else {
        caches := caches[c := Cache(x.free - 1, x.partial, x.full)];
      }
      a := Addr(b, s, i);
      AddrIs(b, s, i);
    }

    /** kmalloc: bytes that nobody else has, at least as many as asked for.  Small requests fail exactly when
        their pool is empty and cannot grow, large ones exactly when there is no free run of their order. */
    method Kmalloc(size: nat) returns (found: bool, a: nat, ghost n: nat)
      requires Valid()
      modifies this, buddy, buddy.order, buddy.held
      ensures Valid() && buddy.order == old(buddy.order) && buddy.held == old(buddy.held)
      ensures found ==> n >= size && OneMore(old(Kt()), old(Blocks()), Kt(), Blocks(), a, n)
      ensures !found ==> SamePieces(old(Kt()), old(Blocks()), Kt(), Blocks())
      ensures size == 0 || size > 2048 * PAGE ==> !found
      ensures 0 < size < PAGE ==> forall c: nat :: IsPool(size, c) && c < |old(caches)| ==>
                (found <==> old(caches)[c].free > 0 || Room(old(FreePages()), BLOB_ORDER))
      ensures PAGE <= size <= 2048 * PAGE ==> forall o: nat :: IsOrder(size, o) ==> (found <==> Room(old(FreePages()), o))
    {
      hide Room, BuddyState.Free, Inv, BuddyState.Live, BuddyState.Partition, BuddyState.ListsAgree, Piece, Pow2, Apart;
      n := 0;
      if size == 0 { return false, 0, n; }
      if size < PAGE {
        var c := SizeToIndex(size);
        ghost var grown;
        found, a, grown := CacheAlloc(c);
        n := SizeOf(c);
        assert forall c': nat :: IsPool(size, c') ==> c' == c;
        return;
      }
      if size <= 2048 * PAGE {
        var p;
        ghost var o;
        found, p, o := BuddyAlloc(size);
        forall o': nat | IsOrder(size, o') ensures o' == o { OneOrder(size, o, o'); }
        if found {
          BigKeeps(Kt(), old(Blocks()), p, o);
          return true, p * PAGE, Pow2(o) * PAGE;
        }
      }
      return false, 0, n;
    }

    /** slab_free and kmem_cache_free; a slot that is already clear is left alone. */
    method SlabFree(a: nat)
      requires Valid() && SlabAt(a) in slabs && a >= SlabAt(a) * PAGE + slabs[SlabAt(a)].offset
      requires IndexOf(slabs[SlabAt(a)], SlabAt(a), a) < |slabs[SlabAt(a)].bits|
      modifies this
      ensures Valid()
      ensures var b := SlabAt(a); var i := IndexOf(old(slabs)[b], b, a);
              if old(slabs)[b].bits[i] then
                OneMore(Kt(), Blocks(), old(Kt()), Blocks(), Addr(b, old(slabs)[b], i), SizeOf(old(slabs)[b].cache))
              else Kt() == old(Kt())
    {
      hide Inv, BuddyState.Live, BuddyState.Partition, BuddyState.ListsAgree, Piece, Addr, SlabOk;
      var b := SlabAt(a);
      var s := slabs[b];
      InvSlab(Kt(), Blocks(), b);
      var i := IndexOf(s, b, a);
      if !s.bits[i] { return; }
      GiveKeeps(Kt(), Blocks(), b, i);
      var x := caches[s.cache];
      if s.free == 0 {
        caches := caches[s.cache := Cache(x.free + 1, [b] + x.partial, Remove(x.full, b))];
      } else {
        caches := caches[s.cache := Cache(x.free + 1, x.partial, x.full)];
      }
      slabs := slabs[b := s.(free := s.free + 1, bits := s.bits[i := false])];
    }

    /** kfree: the allocation goes back to the allocator it came from. */
    method Kfree(a: nat, ghost n: nat)
      requires Valid() && Piece(Kt(), Blocks(), a, n)
      modifies this, buddy, buddy.order, buddy.held
      ensures Valid() && buddy.order == old(buddy.order) && buddy.held == old(buddy.held)
      ensures OneMore(Kt(), Blocks(), old(Kt()), old(Blocks()), a, n)
    {
      hide Inv, BuddyState.Live, BuddyState.Partition, BuddyState.ListsAgree, BuddyState.Free, BuddyState.Pages, Piece, OneMore,
           Pow2, Addr, SizeOf, IndexOf, SlabAt;
      Routes(Kt(), Blocks(), a, n);
      if a / PAGE in flags {
        SlabFree(a);
      } else {
        BigGone(Kt(), Blocks(), a / PAGE);
        buddy.Release(a / PAGE);
      }
    }

    /** buddy_alloc: a block apart from all others, of at least the size asked for; none exactly when there
        is no free run of that order. */
    method BuddyAlloc(size: nat) returns (found: bool, p: nat, ghost o: nat)
      requires buddy.Valid() && PAGE <= size <= 2048 * PAGE
      modifies buddy, buddy.order, buddy.held
      ensures buddy.Valid() && buddy.order == old(buddy.order) && buddy.held == old(buddy.held) && Apart(Blocks())
      ensures found ==> p !in old(Blocks()) && Blocks() == old(Blocks())[p := o]
      ensures !found ==> Blocks() == old(Blocks())
      ensures IsOrder(size, o) && (found <==> Room(old(FreePages()), o))
    {
      Orders();
      hide Pow2, BuddyState.Live, BuddyState.Free, BuddyState.FreeRun, BuddyState.Partition, BuddyState.ListsAgree;
      found, p, o := buddy.Alloc(size);
      Pow2Add(12, o);
      if o > 0 { Pow2Add(12, o - 1); }
      LiveApart(buddy.St());
    }
  }

  lemma KSizes(k: K, live: map<nat, nat>)
    requires Inv(k, live)
    ensures |k.caches| == POOLS
  {
  }

  lemma BlobOrder(o: nat)
    requires IsOrder(BLOB, o)
    ensures o == BLOB_ORDER
  {
    SixteenPages();
    assert Pow2(3) == 8;
    if o < 4 { Pow2Monotone(o, 3); }
    if o > 4 { Pow2Monotone(4, o - 1); }
  }

  lemma StartKeeps(k: K, live: map<nat, nat>)
    requires k == K(map[], seq(POOLS, _ => Cache(0, [], [])), {}) && live == map[]
    ensures Inv(k, live) && forall a: nat, n: nat :: !Piece(k, live, a, n)
  {
    forall c | 0 <= c < POOLS ensures CacheOk(k, c) {}
  }

  lemma Orders()
    ensures Pow2(12) == PAGE && Pow2(11) == 2048 && Pow2(23) == 2048 * PAGE
  {
    Pow2Values();
    assert Pow2(9) == 512 && Pow2(10) == 1024 && Pow2(11) == 2048 && Pow2(12) == 4096;
    Pow2Add(12, 11);
  }
}
