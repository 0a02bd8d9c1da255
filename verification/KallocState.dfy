/** kmalloc as values: slabs of equal objects on blocks of the buddy system, and the caches that own them.

    Memory is counted from the base of the buddy region, in pages or in bytes; `live` is the map of the
    buddy system's allocated blocks, from first page to order. */
module KallocState {
  import opened Bits
  import opened Lists
  import BuddyState

  const PAGE: nat := 4096
  const BLOB: nat := 65536              // SLAB_BLOB_SIZE
  const BLOB_PAGES: nat := 16
  const BLOB_ORDER: nat := 4
  const HEADER: nat := 56               // sizeof(struct slab)

  const SIZES: seq<nat> := [8, 16, 24, 32, 48, 64, 96, 128, 192, 256, 384, 512, 768, 1024, 1536, 2048, 3072, 4096]
  const POOLS: nat := 18

  lemma SizeTable()
    ensures |SIZES| == POOLS && forall i :: 0 <= i < POOLS ==> 8 <= SIZES[i] <= PAGE && SIZES[i] % 8 == 0
    ensures forall i, j :: 0 <= i < j < POOLS ==> SIZES[i] < SIZES[j]
  {
  }

  /** A slab: its cache, the start of its objects, one bit per object. */
  datatype Slab = Slab(cache: nat, free: nat, offset: nat, bits: seq<bool>)

  datatype Cache = Cache(free: nat, partial: seq<nat>, full: seq<nat>)

  /** Slabs by first page; `flags` are the pages marked PM_SLAB. */
  datatype K = K(slabs: map<nat, Slab>, caches: seq<Cache>, flags: set<nat>)

  function SizeOf(c: nat): nat { if c < |SIZES| then SIZES[c] else 0 }

  lemma SizeFacts(c: nat)
    requires c < POOLS
    ensures 8 <= SizeOf(c) <= PAGE && SizeOf(c) % 8 == 0
  {
    SizeTable();
  }

  // ---------- Well-formed states ----------

  ghost predicate SlabOk(s: Slab) {
    && s.cache < POOLS && |s.bits| >= 1 && s.free == Unset(s.bits)
    && HEADER + (|s.bits| + 7) / 8 <= s.offset && s.offset + |s.bits| * SizeOf(s.cache) <= BLOB
  }

  /** Allocated blocks are aligned to their size and do not overlap. */
  ghost predicate Apart(live: map<nat, nat>) {
    && (forall p :: p in live ==> p % Pow2(live[p]) == 0)
    && forall p, q :: p in live && q in live && p < q ==> p + Pow2(live[p]) <= q
  }

  function SumFree(slabs: map<nat, Slab>, l: seq<nat>): nat {
    if l == [] then 0 else (if l[0] in slabs then slabs[l[0]].free else 0) + SumFree(slabs, l[1..])
  }

  ghost predicate OnList(k: K, c: nat, b: nat, full: bool) { b in k.slabs && k.slabs[b].cache == c && (k.slabs[b].free == 0) == full }

  /** A cache's lists hold exactly its slabs, and its count is the number of clear bits in them. */
  ghost predicate CacheOk(k: K, c: nat)
    requires c < |k.caches|
  {
    var x := k.caches[c];
    && NoDup(x.partial) && NoDup(x.full)
    && (forall b :: b in x.partial <==> OnList(k, c, b, false)) && (forall b :: b in x.full <==> OnList(k, c, b, true))
    && x.free == SumFree(k.slabs, x.partial)
  }

  ghost predicate Inv(k: K, live: map<nat, nat>) {
    && |k.caches| == POOLS && Apart(live)
    && (forall b :: b in k.slabs ==> SlabOk(k.slabs[b]) && b in live && live[b] == BLOB_ORDER)
    && (forall p: nat :: p in k.flags <==> p / BLOB_PAGES * BLOB_PAGES in k.slabs)
    && (forall c :: 0 <= c < POOLS ==> CacheOk(k, c))
  }

  // ---------- What is allocated ----------

  function Addr(b: nat, s: Slab, i: nat): nat { b * PAGE + s.offset + i * SizeOf(s.cache) }

  /** Object i of slab b is allocated, at address a with size n. */
  ghost predicate ObjAt(k: K, b: nat, i: nat, a: nat, n: nat) {
    b in k.slabs && i < |k.slabs[b].bits| && k.slabs[b].bits[i] && a == Addr(b, k.slabs[b], i) && n == SizeOf(k.slabs[b].cache)
  }

  /** Block p of the buddy system was handed out as it is. */
  ghost predicate BigAt(k: K, live: map<nat, nat>, p: nat, a: nat, n: nat) {
    p in live && p !in k.slabs && a == p * PAGE && n == Pow2(live[p]) * PAGE
  }

  /** The n bytes at a are an allocation. */
  ghost predicate Piece(k: K, live: map<nat, nat>, a: nat, n: nat) {
    (exists b, i :: ObjAt(k, b, i, a, n)) || exists p :: BigAt(k, live, p, a, n)
  }

  lemma SixteenPages()
    ensures Pow2(BLOB_ORDER) == BLOB_PAGES
  {
    assert Pow2(1) == 2 && Pow2(2) == 4 && Pow2(3) == 8;
  }

  /** An object lies inside its slab, behind the header and the bitmap. */
  lemma ObjInside(k: K, live: map<nat, nat>, b: nat, i: nat, a: nat, n: nat)
    requires Inv(k, live) && ObjAt(k, b, i, a, n)
    ensures b * PAGE + HEADER <= a && a + n <= (b + BLOB_PAGES) * PAGE && n > 0
  {
    var s := k.slabs[b];
    assert SlabOk(s);
    hide SizeOf, Inv;
    SizeFacts(s.cache);
    InsideBlob(b, s.offset, |s.bits|, i, n);
  }

  lemma InsideBlob(b: nat, offset: nat, total: nat, i: nat, n: nat)
    requires HEADER <= offset && offset + total * n <= BLOB && i < total
    ensures b * PAGE + HEADER <= b * PAGE + offset + i * n && b * PAGE + offset + i * n + n <= (b + BLOB_PAGES) * PAGE
  {
    ObjFits(total, i, n);
  }

  lemma ObjFits(total: nat, i: nat, n: nat)
    requires i < total
    ensures i * n + n <= total * n
  {
    MulLe(i + 1, total, n);
    assert (i + 1) * n == i * n + n;
  }

  /** Two live blocks do not overlap in bytes. */
  lemma BlocksApart(live: map<nat, nat>, p: nat, q: nat)
    requires Apart(live) && p in live && q in live && p != q
    ensures p * PAGE + Pow2(live[p]) * PAGE <= q * PAGE || q * PAGE + Pow2(live[q]) * PAGE <= p * PAGE
  {
  }

  /** No two allocations share a byte, whichever allocator made them. */
  lemma PiecesApart(k: K, live: map<nat, nat>, a: nat, n: nat, a': nat, n': nat)
    requires Inv(k, live) && Piece(k, live, a, n) && Piece(k, live, a', n') && a <= a' && (a, n) != (a', n')
    ensures a + n <= a'
  {
    hide Inv, ObjAt, BigAt, Apart;
    if b, i :| ObjAt(k, b, i, a, n) {
      if b', i' :| ObjAt(k, b', i', a', n') {
        TwoObjects(k, live, b, i, a, n, b', i', a', n');
      } else {
        var p :| BigAt(k, live, p, a', n');
        ObjAndBlock(k, live, b, i, a, n, p, a', n');
      }
    } else {
      var p :| BigAt(k, live, p, a, n);
      if b', i' :| ObjAt(k, b', i', a', n') {
        ObjAndBlock(k, live, b', i', a', n', p, a, n);
      } else {
        var p' :| BigAt(k, live, p', a', n');
        TwoBlocks(k, live, p, a, n, p', a', n');
      }
    }
  }

  lemma TwoObjects(k: K, live: map<nat, nat>, b: nat, i: nat, a: nat, n: nat, b': nat, i': nat, a': nat, n': nat)
    requires Inv(k, live) && ObjAt(k, b, i, a, n) && ObjAt(k, b', i', a', n') && a <= a' && (a, n) != (a', n')
    ensures a + n <= a'
  {
    ObjInside(k, live, b, i, a, n);
    ObjInside(k, live, b', i', a', n');
    if b == b' {
      hide Inv;
      if i < i' { ObjFits(i', i, n); } else if i' < i { ObjFits(i, i', n); }
    } else {
      SixteenPages();
      BlocksApart(live, b, b');
    }
  }

  lemma ObjAndBlock(k: K, live: map<nat, nat>, b: nat, i: nat, a: nat, n: nat, p: nat, a': nat, n': nat)
    requires Inv(k, live) && ObjAt(k, b, i, a, n) && BigAt(k, live, p, a', n')
    ensures a + n <= a' || a' + n' <= a
    ensures n > 0 && a != a'
  {
    ObjInside(k, live, b, i, a, n);
    SixteenPages();
    BlocksApart(live, b, p);
    BlockSize(live[p]);
  }

  lemma BlockSize(o: nat)
    ensures Pow2(o) * PAGE >= PAGE
  {
  }

  lemma TwoBlocks(k: K, live: map<nat, nat>, p: nat, a: nat, n: nat, p': nat, a': nat, n': nat)
    requires Inv(k, live) && BigAt(k, live, p, a, n) && BigAt(k, live, p', a', n') && a <= a' && (a, n) != (a', n')
    ensures a + n <= a'
  {
    if p != p' { BlocksApart(live, p, p'); }
    BlockSize(live[p']);
  }

  // ---------- Counting ----------

  /** The counts of the other slabs do not matter. */
  lemma {:induction false} SumSame(slabs: map<nat, Slab>, b: nat, s: Slab, l: seq<nat>)
    requires b !in l
    ensures SumFree(slabs[b := s], l) == SumFree(slabs, l)
  {
    if l != [] { SumSame(slabs, b, s, l[1..]); }
  }

  lemma {:induction false} SumChange(slabs: map<nat, Slab>, b: nat, s: Slab, l: seq<nat>)
    requires NoDup(l) && b in l && b in slabs
    ensures SumFree(slabs[b := s], l) + slabs[b].free == SumFree(slabs, l) + s.free
  {
    assert l == [l[0]] + l[1..];
    NoDupParts([l[0]], l[1..]);
    if l[0] == b { SumSame(slabs, b, s, l[1..]); } else { SumChange(slabs, b, s, l[1..]); }
  }

  lemma {:induction false} SumAppend(slabs: map<nat, Slab>, l: seq<nat>, b: nat)
    requires b in slabs
    ensures SumFree(slabs, l + [b]) == SumFree(slabs, l) + slabs[b].free
  {
    if l == [] {
      assert [] + [b] == [b] && [b][1..] == [];
    } else {
      assert (l + [b])[1..] == l[1..] + [b];
      SumAppend(slabs, l[1..], b);
    }
  }

  lemma {:induction false} SumSome(slabs: map<nat, Slab>, l: seq<nat>)
    requires SumFree(slabs, l) > 0
    ensures l != []
  {
  }

  /** Caches other than c do not notice a change in one of c's slabs. */
  lemma OtherCache(k: K, k': K, c: nat, b: nat, s: Slab, d: nat)
    requires c < |k.caches| == |k'.caches| && d < |k.caches| && d != c && CacheOk(k, d)
    requires k'.slabs == k.slabs[b := s] && s.cache == c && (b in k.slabs ==> k.slabs[b].cache == c) && k'.caches[d] == k.caches[d]
    ensures CacheOk(k', d)
  {
    hide NoDup;
    var x := k.caches[d];
    assert b !in x.partial && b !in x.full;
    SumSame(k.slabs, b, s, x.partial);
    forall y, f ensures OnList(k', d, y, f) <==> OnList(k, d, y, f) {}
  }

  // ---------- Taking an object ----------

  function Taken(k: K, c: nat, b: nat, i: nat): K
    requires c < |k.caches| && b in k.slabs && i < |k.slabs[b].bits| && k.slabs[b].free > 0
    requires k.caches[c].free > 0 && k.caches[c].partial != []
  {
    var s, x := k.slabs[b], k.caches[c];
    var s' := s.(free := s.free - 1, bits := s.bits[i := true]);
    var x' := if s'.free == 0 then Cache(x.free - 1, x.partial[1..], [b] + x.full) else Cache(x.free - 1, x.partial, x.full);
    k.(slabs := k.slabs[b := s'], caches := k.caches[c := x'])
  }

  predicate ClearSlot(k: K, c: nat, b: nat, i: nat) {
    b in k.slabs && k.slabs[b].cache == c && k.slabs[b].free > 0 && i < |k.slabs[b].bits| && !k.slabs[b].bits[i]
  }

  /** The first slab on the list is there, and has a clear bit. */
  lemma FirstPartial(k: K, live: map<nat, nat>, c: nat)
    requires Inv(k, live) && c < POOLS && k.caches[c].free > 0
    ensures k.caches[c].partial != []
    ensures var b := k.caches[c].partial[0];
            b in k.slabs && k.slabs[b].cache == c && k.slabs[b].free > 0 && Unset(k.slabs[b].bits) > 0
  {
    assert CacheOk(k, c);
    SumSome(k.slabs, k.caches[c].partial);
    var b := k.caches[c].partial[0];
    assert b in k.caches[c].partial;
    assert OnList(k, c, b, false);
    assert SlabOk(k.slabs[b]);
  }

  lemma TakeCache(k: K, live: map<nat, nat>, c: nat, i: nat)
    requires Inv(k, live) && c < POOLS && k.caches[c].free > 0 && k.caches[c].partial != []
    requires ClearSlot(k, c, k.caches[c].partial[0], i)
    ensures CacheOk(Taken(k, c, k.caches[c].partial[0], i), c)
  {
    var x := k.caches[c];
    var b := x.partial[0];
    var k' := Taken(k, c, b, i);
    assert CacheOk(k, c);
    hide Inv;
    assert OnList(k, c, b, false) && b !in x.full by { assert !OnList(k, c, b, true); }
    SumChange(k.slabs, b, k'.slabs[b], x.partial);
    assert x.partial == [b] + x.partial[1..];
    NoDupParts([b], x.partial[1..]);
    assert NoDup([b]);
    NoDupParts([b], x.full);
    hide NoDup;
    forall y, f | y != b ensures OnList(k', c, y, f) <==> OnList(k, c, y, f) {}
    if k'.slabs[b].free == 0 {
      assert k'.caches[c].partial == x.partial[1..];
      assert forall y :: y in x.partial <==> y == b || y in x.partial[1..];
    }
  }

  /** One slab of cache c changed, and its cache with it. */
  lemma SlabChanged(k: K, k': K, live: map<nat, nat>, c: nat, b: nat)
    requires Inv(k, live) && c < POOLS && b in k.slabs && k.slabs[b].cache == c && b in k'.slabs && k'.slabs[b].cache == c
    requires k'.slabs == k.slabs[b := k'.slabs[b]] && SlabOk(k'.slabs[b]) && k'.flags == k.flags
    requires |k'.caches| == POOLS && (forall d :: 0 <= d < POOLS && d != c ==> k'.caches[d] == k.caches[d]) && CacheOk(k', c)
    ensures Inv(k', live)
  {
    forall d | 0 <= d < POOLS ensures CacheOk(k', d) {
      if d != c { assert CacheOk(k, d); OtherCache(k, k', c, b, k'.slabs[b], d); }
    }
    hide CacheOk, SlabOk;
  }

  lemma InvSlab(k: K, live: map<nat, nat>, b: nat)
    requires Inv(k, live) && b in k.slabs
    ensures SlabOk(k.slabs[b]) && k.slabs[b].cache < POOLS == |k.caches|
  {
  }

  lemma SlabTaken(s: Slab, i: nat)
    requires SlabOk(s) && i < |s.bits| && !s.bits[i]
    ensures s.free > 0 && SlabOk(s.(free := s.free - 1, bits := s.bits[i := true]))
  {
    hide SizeOf;
    UnsetSet(s.bits, i);
  }

  lemma SlabGiven(s: Slab, i: nat)
    requires SlabOk(s) && i < |s.bits| && s.bits[i]
    ensures s.free < |s.bits| && SlabOk(s.(free := s.free + 1, bits := s.bits[i := false]))
  {
    hide SizeOf;
    UnsetClear(s.bits, i);
  }

  /** One more allocation, where nothing was allocated before. */
  lemma TakeKeeps(k: K, live: map<nat, nat>, c: nat, i: nat)
    requires Inv(k, live) && c < POOLS && k.caches[c].free > 0 && k.caches[c].partial != []
    requires ClearSlot(k, c, k.caches[c].partial[0], i)
    ensures var b := k.caches[c].partial[0];
            Inv(Taken(k, c, b, i), live) && OneMore(k, live, Taken(k, c, b, i), live, Addr(b, k.slabs[b], i), SizeOf(c))
  {
    var b := k.caches[c].partial[0];
    var s := k.slabs[b];
    var k' := Taken(k, c, b, i);
    hide Inv, CacheOk, SlabOk, OneMore;
    InvSlab(k, live, b);
    SlabTaken(s, i);
    TakeCache(k, live, c, i);
    SlabChanged(k, k', live, c, b);
    TakePieces(k, k', live, c, b, i, s.free - 1);
  }

  /** The allocations are those before and (a, n). */
  ghost predicate OneMore(k: K, live: map<nat, nat>, k': K, live': map<nat, nat>, a: nat, n: nat) {
    && (forall x: nat, m: nat :: Piece(k', live', x, m) <==> Piece(k, live, x, m) || (x == a && m == n))
    && !Piece(k, live, a, n)
  }

  ghost predicate SamePieces(k: K, live: map<nat, nat>, k': K, live': map<nat, nat>) {
    forall x: nat, m: nat :: Piece(k', live', x, m) <==> Piece(k, live, x, m)
  }

  lemma TakePieces(k: K, k': K, live: map<nat, nat>, c: nat, b: nat, i: nat, f: nat)
    requires Inv(k, live) && b in k.slabs && k.slabs[b].cache == c && i < |k.slabs[b].bits| && !k.slabs[b].bits[i]
    requires k'.slabs == k.slabs[b := k.slabs[b].(free := f, bits := k.slabs[b].bits[i := true])]
    ensures OneMore(k, live, k', live, Addr(b, k.slabs[b], i), SizeOf(c))
  {
    var a, n := Addr(b, k.slabs[b], i), SizeOf(c);
    assert !Piece(k, live, a, n) by { NotYet(k, live, b, i); }
    hide Inv, Addr;
    forall x: nat, m: nat ensures Piece(k', live, x, m) <==> Piece(k, live, x, m) || (x == a && m == n) {
      if y, j :| ObjAt(k', y, j, x, m) { assert !(y == b && j == i) ==> ObjAt(k, y, j, x, m); }
      if y, j :| ObjAt(k, y, j, x, m) { assert ObjAt(k', y, j, x, m); }
      if x == a && m == n { assert ObjAt(k', b, i, x, m); }
      if p :| BigAt(k', live, p, x, m) { assert BigAt(k, live, p, x, m); }
      if p :| BigAt(k, live, p, x, m) { assert BigAt(k', live, p, x, m); }
    }
  }

  /** A clear bit is no allocation. */
  lemma NotYet(k: K, live: map<nat, nat>, b: nat, i: nat)
    requires Inv(k, live) && b in k.slabs && i < |k.slabs[b].bits| && !k.slabs[b].bits[i]
    ensures !Piece(k, live, Addr(b, k.slabs[b], i), SizeOf(k.slabs[b].cache))
  {
    var s := k.slabs[b];
    var a, n := Addr(b, s, i), SizeOf(s.cache);
    if y, j :| ObjAt(k, y, j, a, n) {
      SameSlot(k, live, b, i, y, j);
      assert false;
    }
    if p :| BigAt(k, live, p, a, n) {
      SlotAndBlock(k, live, b, i, p);
      assert false;
    }
  }

  /** Different slots have different addresses. */
  lemma SameSlot(k: K, live: map<nat, nat>, b: nat, i: nat, y: nat, j: nat)
    requires Inv(k, live) && b in k.slabs && i < |k.slabs[b].bits| && y in k.slabs && j < |k.slabs[y].bits|
    requires Addr(b, k.slabs[b], i) == Addr(y, k.slabs[y], j)
    ensures b == y && i == j
  {
    hide SizeOf;
    SlotInside(k, live, b, i);
    SlotInside(k, live, y, j);
    if b != y {
      SixteenPages();
      BlocksApart(live, b, y);
    } else {
      hide Inv;
      var n := SizeOf(k.slabs[b].cache);
      if i < j { ObjFits(j, i, n); } else if j < i { ObjFits(i, j, n); }
    }
  }

  lemma SlotInside(k: K, live: map<nat, nat>, b: nat, i: nat)
    requires Inv(k, live) && b in k.slabs && i < |k.slabs[b].bits|
    ensures var a, n := Addr(b, k.slabs[b], i), SizeOf(k.slabs[b].cache);
            b * PAGE + HEADER <= a && a + n <= (b + BLOB_PAGES) * PAGE && n > 0
  {
    var s := k.slabs[b];
    assert SlabOk(s);
    hide SizeOf, Inv;
    SizeFacts(s.cache);
    InsideBlob(b, s.offset, |s.bits|, i, SizeOf(s.cache));
  }

  lemma SlotAndBlock(k: K, live: map<nat, nat>, b: nat, i: nat, p: nat)
    requires Inv(k, live) && b in k.slabs && i < |k.slabs[b].bits| && p in live && p !in k.slabs
    ensures Addr(b, k.slabs[b], i) != p * PAGE
  {
    SlotInside(k, live, b, i);
    SixteenPages();
    BlocksApart(live, b, p);
    BlockSize(live[p]);
  }

  // ---------- Giving an object back ----------

  function Given(k: K, b: nat, i: nat): K
    requires b in k.slabs && i < |k.slabs[b].bits| && k.slabs[b].cache < |k.caches|
  {
    var s := k.slabs[b];
    var x := k.caches[s.cache];
    var s' := s.(free := s.free + 1, bits := s.bits[i := false]);
    var x' := if s.free == 0 then Cache(x.free + 1, [b] + x.partial, Remove(x.full, b)) else Cache(x.free + 1, x.partial, x.full);
    k.(slabs := k.slabs[b := s'], caches := k.caches[s.cache := x'])
  }

  lemma GiveCache(k: K, live: map<nat, nat>, b: nat, i: nat)
    requires Inv(k, live) && b in k.slabs && i < |k.slabs[b].bits| && k.slabs[b].bits[i]
    ensures k.slabs[b].cache < POOLS && CacheOk(Given(k, b, i), k.slabs[b].cache)
  {
    var s := k.slabs[b];
    var c := s.cache;
    assert SlabOk(s) && CacheOk(k, c);
    var x := k.caches[c];
    var k' := Given(k, b, i);
    hide Inv;
    assert OnList(k, c, b, s.free == 0);
    forall y, f | y != b ensures OnList(k', c, y, f) <==> OnList(k, c, y, f) {}
    if s.free == 0 {
      assert b !in x.partial by { assert !OnList(k, c, b, false); }
      SumSame(k.slabs, b, k'.slabs[b], x.partial);
      assert ([b] + x.partial)[1..] == x.partial;
      RemoveParts(x.full, b);
      assert NoDup([b]);
      NoDupParts([b], x.partial);
    } else {
      SumChange(k.slabs, b, k'.slabs[b], x.partial);
    }
    hide NoDup, SumFree;
  }

  /** One allocation less: the one given back. */
  lemma GiveKeeps(k: K, live: map<nat, nat>, b: nat, i: nat)
    requires Inv(k, live) && b in k.slabs && i < |k.slabs[b].bits| && k.slabs[b].bits[i]
    ensures k.slabs[b].cache < POOLS && k.slabs[b].free < |k.slabs[b].bits|
    ensures var k' := Given(k, b, i);
            Inv(k', live) && OneMore(k', live, k, live, Addr(b, k.slabs[b], i), SizeOf(k.slabs[b].cache))
  {
    var s := k.slabs[b];
    hide Inv, CacheOk, SlabOk, OneMore;
    InvSlab(k, live, b);
    SlabGiven(s, i);
    var c, k' := s.cache, Given(k, b, i);
    GiveCache(k, live, b, i);
    SlabChanged(k, k', live, c, b);
    assert s.bits[i := false][i := true] == s.bits;
    assert k.slabs == k'.slabs[b := k'.slabs[b].(free := s.free, bits := k'.slabs[b].bits[i := true])];
    TakePieces(k', k, live, c, b, i, s.free);
  }

  // ---------- Adding a slab ----------

  function NewSlab(c: nat, total: nat, offset: nat): Slab { Slab(c, total, offset, seq(total, _ => false)) }

  ghost function Added(k: K, c: nat, b: nat, total: nat, offset: nat): K
    requires c < |k.caches|
  {
    var x := k.caches[c];
    K(k.slabs[b := NewSlab(c, total, offset)], k.caches[c := Cache(x.free + total, x.partial + [b], x.full)],
      k.flags + BlobPages(b))
  }

  function BlobPages(b: nat): set<nat> { set p: nat | b <= p < b + BLOB_PAGES && InBlob(b, p) }

  predicate InBlob(b: nat, p: nat) { b <= p < b + BLOB_PAGES }

  /** A block from the buddy system becomes an empty slab: nothing more is allocated. */
  lemma AddKeeps(k: K, live: map<nat, nat>, c: nat, b: nat, total: nat, offset: nat)
    requires Inv(k, live) && c < POOLS && b !in live && Apart(live[b := BLOB_ORDER])
    requires total >= 1 && HEADER + (total + 7) / 8 <= offset && offset + total * SizeOf(c) <= BLOB
    ensures var k', live' := Added(k, c, b, total, offset), live[b := BLOB_ORDER];
            Inv(k', live') && SamePieces(k, live, k', live')
  {
    var k', live' := Added(k, c, b, total, offset), live[b := BLOB_ORDER];
    UnsetFresh(total);
    assert SlabOk(k'.slabs[b]);
    assert b !in k.slabs;
    AddCache(k, live, c, b, total, offset);
    forall d | 0 <= d < POOLS ensures CacheOk(k', d) {
      if d != c { assert CacheOk(k, d); OtherCache(k, k', c, b, k'.slabs[b], d); }
    }
    hide CacheOk, SlabOk;
    AddFlags(k, live, b, k'.slabs[b]);
    assert Inv(k', live');
    hide Inv;
    AddPieces(k, live, k', live', b);
  }

  lemma AddPieces(k: K, live: map<nat, nat>, k': K, live': map<nat, nat>, b: nat)
    requires b !in live && b !in k.slabs && live' == live[b := BLOB_ORDER] && b in k'.slabs
    requires k'.slabs == k.slabs[b := k'.slabs[b]] && forall i :: 0 <= i < |k'.slabs[b].bits| ==> !k'.slabs[b].bits[i]
    ensures SamePieces(k, live, k', live')
  {
    hide Addr;
    forall x: nat, m: nat ensures Piece(k', live', x, m) <==> Piece(k, live, x, m) {
      if y, j :| ObjAt(k', y, j, x, m) { assert ObjAt(k, y, j, x, m); }
      if y, j :| ObjAt(k, y, j, x, m) { assert ObjAt(k', y, j, x, m); }
      if p :| BigAt(k', live', p, x, m) { assert BigAt(k, live, p, x, m); }
      if p :| BigAt(k, live, p, x, m) { assert BigAt(k', live', p, x, m); }
    }
  }

  lemma AddCache(k: K, live: map<nat, nat>, c: nat, b: nat, total: nat, offset: nat)
    requires Inv(k, live) && c < POOLS && b !in k.slabs && total >= 1
    ensures CacheOk(Added(k, c, b, total, offset), c)
  {
    var k' := Added(k, c, b, total, offset);
    assert CacheOk(k, c);
    var x := k.caches[c];
    hide Inv;
    assert b !in x.partial && b !in x.full by { assert !OnList(k, c, b, false) && !OnList(k, c, b, true); }
    SumSame(k.slabs, b, k'.slabs[b], x.partial);
    SumAppend(k'.slabs, x.partial, b);
    assert NoDup([b]);
    NoDupParts(x.partial, [b]);
    hide NoDup, SumFree;
    forall y, f | y != b ensures OnList(k', c, y, f) <==> OnList(k, c, y, f) {}
  }

  lemma AddFlags(k: K, live: map<nat, nat>, b: nat, s: Slab)
    requires Inv(k, live) && Apart(live[b := BLOB_ORDER])
    ensures forall p: nat :: p in k.flags + BlobPages(b) <==> p / BLOB_PAGES * BLOB_PAGES in k.slabs[b := s]
  {
    SixteenPages();
    assert b % BLOB_PAGES == 0 by { assert b in live[b := BLOB_ORDER]; }
    hide Inv;
    forall p: nat ensures p in k.flags + BlobPages(b) <==> p / BLOB_PAGES * BLOB_PAGES in k.slabs[b := s] {
      assert p in k.flags <==> p / BLOB_PAGES * BLOB_PAGES in k.slabs by { InvFlags(k, live); }
      assert InBlob(b, p) <==> p / BLOB_PAGES * BLOB_PAGES == b;
    }
  }

  lemma InvFlags(k: K, live: map<nat, nat>)
    requires Inv(k, live)
    ensures forall p: nat :: p in k.flags <==> p / BLOB_PAGES * BLOB_PAGES in k.slabs
  {
  }

  // ---------- Whole blocks ----------

  /** A block handed out whole. */
  lemma BigKeeps(k: K, live: map<nat, nat>, p: nat, o: nat)
    requires Inv(k, live) && p !in live && Apart(live[p := o])
    ensures Inv(k, live[p := o]) && OneMore(k, live, k, live[p := o], p * PAGE, Pow2(o) * PAGE)
  {
    var live' := live[p := o];
    assert p !in k.slabs;
    assert Inv(k, live');
    hide Inv, Apart;
    BigNew(k, live, p, o);
    assert BigAt(k, live', p, p * PAGE, Pow2(o) * PAGE);
    hide ObjAt;
    forall x: nat, m: nat ensures Piece(k, live', x, m) <==> Piece(k, live, x, m) || (x == p * PAGE && m == Pow2(o) * PAGE) {
      if q :| BigAt(k, live', q, x, m) { assert q != p ==> BigAt(k, live, q, x, m); }
      if q :| BigAt(k, live, q, x, m) { assert BigAt(k, live', q, x, m); }
    }
  }

  lemma BigNew(k: K, live: map<nat, nat>, p: nat, o: nat)
    requires Inv(k, live[p := o]) && p !in live && p !in k.slabs
    ensures !Piece(k, live, p * PAGE, Pow2(o) * PAGE)
  {
    hide Inv, Pow2;
    var a, n := p * PAGE, Pow2(o) * PAGE;
    forall y, j ensures !ObjAt(k, y, j, a, n) {
      if ObjAt(k, y, j, a, n) { ObjAndBlock(k, live[p := o], y, j, a, n, p, a, n); }
    }
    forall q ensures !BigAt(k, live, q, a, n) {}
  }

  /** A whole block given back. */
  lemma BigGone(k: K, live: map<nat, nat>, p: nat)
    requires Inv(k, live) && p in live && p !in k.slabs
    ensures Inv(k, live - {p}) && OneMore(k, live - {p}, k, live, p * PAGE, Pow2(live[p]) * PAGE)
  {
    var live' := live - {p};
    assert Inv(k, live');
    assert live'[p := live[p]] == live;
    hide Inv;
    BigKeeps(k, live', p, live[p]);
  }

  // ---------- Which allocator ----------

  /** slab_free's index of an address. */
  function IndexOf(s: Slab, b: nat, a: nat): nat {
    var n := SizeOf(s.cache);
    if n > 0 && a >= b * PAGE + s.offset then (a - b * PAGE - s.offset) / n else 0
  }

  function SlabAt(a: nat): nat { a / PAGE / BLOB_PAGES * BLOB_PAGES }

  /** The page flag tells objects from whole blocks, and the address tells the slab and the index. */
  lemma Routes(k: K, live: map<nat, nat>, a: nat, n: nat)
    requires Inv(k, live) && Piece(k, live, a, n)
    ensures a / PAGE !in k.flags ==> BigAt(k, live, a / PAGE, a, n)
    ensures a / PAGE in k.flags ==>
              var b := SlabAt(a);
              b in k.slabs && a >= b * PAGE + k.slabs[b].offset && ObjAt(k, b, IndexOf(k.slabs[b], b, a), a, n)
  {
    InvFlags(k, live);
    if b, i :| ObjAt(k, b, i, a, n) {
      RouteObj(k, live, b, i, a, n);
    } else {
      var p :| BigAt(k, live, p, a, n);
      NotFlagged(k, live, p);
      hide Inv;
      assert a / PAGE == p;
    }
  }

  lemma RouteObj(k: K, live: map<nat, nat>, b: nat, i: nat, a: nat, n: nat)
    requires Inv(k, live) && ObjAt(k, b, i, a, n)
    ensures SlabAt(a) == b && a >= b * PAGE + k.slabs[b].offset && IndexOf(k.slabs[b], b, a) == i && a / PAGE in k.flags
  {
    hide Inv, SizeOf;
    SlotInside(k, live, b, i);
    SlabAligned(k, live, b);
    SlabOf(b, a);
    assert a / PAGE in k.flags by { InvFlags(k, live); }
    DivUnique(i * n, n, i, 0);
  }

  lemma SlabAligned(k: K, live: map<nat, nat>, b: nat)
    requires Inv(k, live) && b in k.slabs
    ensures b % BLOB_PAGES == 0
  {
    SixteenPages();
  }

  lemma SlabOf(b: nat, a: nat)
    requires b % BLOB_PAGES == 0 && b * PAGE <= a < (b + BLOB_PAGES) * PAGE
    ensures a / PAGE / BLOB_PAGES * BLOB_PAGES == b
  {
    assert b <= a / PAGE < b + BLOB_PAGES;
  }

  lemma NotFlagged(k: K, live: map<nat, nat>, p: nat)
    requires Inv(k, live) && p in live && p !in k.slabs
    ensures p / BLOB_PAGES * BLOB_PAGES !in k.slabs
  {
    var b := p / BLOB_PAGES * BLOB_PAGES;
    SixteenPages();
    assert b in k.slabs && b < p ==> b + BLOB_PAGES <= p;
  }

  /** Live blocks of the buddy system are apart, aligned to their sizes. */
  lemma LiveApart(s: BuddyState.State)
    requires BuddyState.Partition(s)
    ensures Apart(BuddyState.Live(s))
  {
    var live := BuddyState.Live(s);
    hide BuddyState.Partition, BuddyState.Live;
    forall p | p in live ensures p % Pow2(live[p]) == 0 { BuddyState.LiveDisjoint(s, p, p); }
    forall p, q | p in live && q in live && p < q ensures p + Pow2(live[p]) <= q {
      BuddyState.LiveDisjoint(s, p, q);
      assert BuddyState.InBlock(q, live[q], q) && q in BuddyState.Pages(q, live[q]);
      assert q in BuddyState.Pages(p, live[p]) <==> BuddyState.InBlock(p, live[p], q);
    }
  }

  // ---------- Layout of a slab ----------

  /** ALIGN_UP as the header defines it, also for sizes that are no powers of two. */
  function AlignUp(x: nat, a: nat): (r: nat)
    requires a > 0
    ensures x <= r < x + a
  {
    AndAtMost(x + a - 1, a - 1);
    x + a - 1 - And(x + a - 1, a - 1)
  }

  lemma {:induction false} AndAtMost(a: nat, b: nat)
    ensures And(a, b) <= b && And(a, b) <= a
    decreases a + b
  {
    if a != 0 && b != 0 { AndAtMost(a / 2, b / 2); }
  }

  function ObjectNum(size: nat): nat { (8 * (BLOB - HEADER) - 7) / (8 * size + 1) }
}
