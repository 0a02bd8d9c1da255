/** src/mm/pagetable.c: walking, mapping, unmapping and destroying Sv39 page tables.

    Addresses are 64-bit and wrap; a walk looks only at the 27 bits of the virtual page number.
    The physical allocator hands out zeroed pages that nothing else uses, or fails.
 */
module PageTable {
  import opened PageTableState
  import opened PageTree
  import Bits

  const EINVAL: int := 22
  const ENOMEM: int := 12
  const ERANGE: int := 34
  const EADDRINUSE: int := 98

  const PAGE_SIZE: nat := 4096
  const TWO64: nat := 0x1_0000_0000_0000_0000

  /** What a walk sees of an address. */
  function Vpn(addr: nat): (v: nat)
    ensures v < VPNS
  {
    addr / PAGE_SIZE % VPNS
  }

  class Machine {
    var mem: Mem

    /** kzalloc(PAGE_SIZE) */
    method Kzalloc() returns (p: nat)
      modifies this
      ensures p == 0 ==> mem == old(mem)
      ensures p != 0 ==> p !in old(mem) && p < PM_PAGES && mem == old(mem)[p := ZeroPage()]
    {
      var refuse: bool := *;
      p := 0;
      if !refuse {
        if q: nat :| 0 < q < PM_PAGES && q !in mem {
          p := q;
          mem := mem[p := ZeroPage()];
        }
      }
    }

    /** va2pte: the leaf table and index of a virtual page number; with alloc, missing tables are
        created, unless memory runs out on the way. */
    method Walk(root: nat, v: nat, alloc: bool, ghost pt: PT) returns (ok: bool, table: nat, ghost pt': PT)
      requires Ok(mem, pt) && root == pt.root && v < VPNS
      modifies this
      ensures Extends(old(mem), pt, mem, pt')
      ensures !alloc ==> mem == old(mem) && pt' == pt && (ok <==> Up(v) in pt.l0)
      ensures ok ==> Up(v) in pt'.l0 && table == pt'.l0[Up(v)] && IsPage(mem, table)
    {
      hide Ok, Extends, Up, At, Pte;
      ExtendsRefl(mem, pt);
      pt' := pt;
      table := root;
      var level := 2;
      while level > 0
        invariant 0 <= level <= 2 && Ok(mem, pt') && Extends(old(mem), pt, mem, pt')
        invariant !alloc ==> mem == old(mem) && pt' == pt
        invariant level == 2 ==> table == pt'.root
        invariant level == 1 ==> Up(Up(v)) in pt'.l1 && table == pt'.l1[Up(Up(v))]
        invariant level == 0 ==> Up(v) in pt'.l0 && table == pt'.l0[Up(v)]
      {
        DirectoryWord(mem, pt', v, level);
        var idx := if level == 2 then Up(Up(v)) else At(Up(v));
        var word := mem[table][idx];
        if HasV(word) {
          table := Ppn(word);
        } else {
          if !alloc { return false, 0, pt'; }
          ghost var mem0 := mem;
          var p := Kzalloc();
          if p == 0 { return false, 0, pt'; }
          ghost var next := if level == 2 then pt'.(l1 := pt'.l1[Up(Up(v)) := p]) else pt'.(l0 := pt'.l0[Up(v) := p]);
          mem := Poke(mem, table, idx, Pte(p, 1));
          Grown(old(mem), pt, mem0, pt', v, level, p, mem, next);
          ExtendsOk(old(mem), pt, mem, next);
          pt', table := next, p;
        }
        level := level - 1;
      }
      ok := true;
      LeafTable(mem, pt', v);
    }

    /** mappages.  `done` pages were mapped before it returned. */
    method MapPages(root: nat, va: nat, pa: nat, npages: nat, perm: nat, ghost pt: PT)
      returns (ret: int, ghost pt': PT, ghost done: nat)
      requires Ok(mem, pt) && (root == 0 || root == pt.root) && va < TWO64 && pa < TWO64 && npages < TWO64
      modifies this
      ensures Grows(old(mem), pt, mem, pt') && Mapped(old(mem), pt, mem, pt', va, pa, done, perm) && pt'.root == pt.root
      ensures forall i: nat :: i < done ==> Seen(mem, pt.root, PageAt(va, i), FrameAt(pa, i), perm)
      ensures ret in {0, -EINVAL, -ERANGE, -ENOMEM, -EADDRINUSE}
      ensures ret == 0 ==> done == npages
      ensures ret == -EINVAL <==> root == 0 || va % PAGE_SIZE != 0 || pa % PAGE_SIZE != 0
      ensures ret == -ERANGE <==> ret != -EINVAL && npages != 0 && OutOfRange(va, pa, npages)
      ensures ret == -EINVAL || ret == -ERANGE ==> done == 0 && mem == old(mem) && pt' == pt
      ensures ret == -ENOMEM || ret == -EADDRINUSE ==> done < npages
      ensures ret == -EADDRINUSE ==> HasV(Entry(mem, pt', PageAt(va, done)))
    {
      hide Ok, Grows, Entry, Seen, Up, At, Pte, HasV, WrapSum, LeafFlags, PageAt, FrameAt;
      ExtendsRefl(mem, pt);
      pt', done := pt, 0;
      if root == 0 { return -EINVAL, pt', done; }
      if va % PAGE_SIZE != 0 || pa % PAGE_SIZE != 0 { return -EINVAL, pt', done; }
      if npages == 0 { return 0, pt', done; }
      if WrapSum(va, npages) > VM_PAGES * PAGE_SIZE { return -ERANGE, pt', done; }
      if WrapSum(pa, npages) > PM_PAGES * PAGE_SIZE { return -ERANGE, pt', done; }
      var i := 0;
      while i < npages
        invariant i <= npages && done == i && pt'.root == root
        invariant Ok(mem, pt') && Grows(old(mem), pt, mem, pt') && Mapped(old(mem), pt, mem, pt', va, pa, i, perm)
      {
        WrapSumPages(va, i);
        WrapSumPages(pa, i);
        var v := Vpn(WrapSum(va, i));
        ghost var mem1, pt1 := mem, pt';
        var ok, table;
        ok, table, pt' := Walk(root, v, true, pt1);
        ExtendsOk(mem1, pt1, mem, pt');
        GrowsTrans(old(mem), pt, mem1, pt1, mem, pt');
        SameMapped(old(mem), pt, mem1, pt1, mem, pt', va, pa, i, perm);
        MappedSeen(old(mem), pt, mem, pt', va, pa, i, perm);
        if !ok { return -ENOMEM, pt', done; }
        EntryInTable(mem, pt', v);
        if HasV(mem[table][At(v)]) { return -EADDRINUSE, pt', done; }
        ghost var mem2 := mem;
        PokeLeaf(mem, pt', v, Pte(WrapSum(pa, i) / PAGE_SIZE, LeafFlags(perm)));
        mem := Poke(mem, table, At(v), Pte(WrapSum(pa, i) / PAGE_SIZE, LeafFlags(perm)));
        GrowsTrans(old(mem), pt, mem2, pt', mem, pt');
        MappedStep(old(mem), pt, mem1, pt1, mem2, pt', mem, va, pa, i, perm);
        i, done := i + 1, done + 1;
      }
      MappedSeen(old(mem), pt, mem, pt', va, pa, i, perm);
      ret := 0;
    }

    /** walkaddr */
    method WalkAddr(root: nat, va: nat, ghost pt: PT) returns (pa: nat)
      requires Ok(mem, pt) && root == pt.root && va < TWO64
      modifies this
      ensures mem == old(mem)
      ensures pa == if va < VM_PAGES * PAGE_SIZE then UserFrame(Entry(mem, pt, va / PAGE_SIZE)) else 0
    {
      hide Ok, Extends, Up, At, HasV, HasU, IsLeaf;
      if va >= VM_PAGES * PAGE_SIZE { return 0; }
      var ok, table, _ := Walk(root, Vpn(va), false, pt);
      assert Vpn(va) == va / PAGE_SIZE;
      ZeroNotValid();
      if !ok { return 0; }
      EntryInTable(mem, pt, Vpn(va));
      var word := mem[table][At(Vpn(va))];
      if !HasV(word) { return 0; }
      if !HasU(word) { return 0; }
      if !IsLeaf(word) { return 0; }
      pa := Ppn(word) * PAGE_SIZE;
    }

    /** unmappages.  `done` counts the pages its loop visits: none at all when the end wraps. */
    method UnmapPages(root: nat, vm: nat, npages: nat, ghost pt: PT) returns (ghost done: nat)
      requires Ok(mem, pt) && root == pt.root && vm < TWO64 && npages < TWO64
      modifies this
      ensures Grows(old(mem), pt, mem, pt) && Unmapped(old(mem), pt, mem, pt, vm, done)
      ensures vm / PAGE_SIZE + npages < TWO64 / PAGE_SIZE ==> done == npages
    {
      hide Ok, Grows, Entry, Up, At, HasV, PageAt, Extends;
      var start := vm / PAGE_SIZE * PAGE_SIZE;
      var end := WrapSum(start, npages);
      EndOfRange(vm, npages);
      var a := start;
      done := 0;
      ExtendsRefl(mem, pt);
      ExtendsParts(mem, pt, mem, pt);
      while a < end
        invariant a == start + done * PAGE_SIZE && (a <= end || done == 0)
        invariant Ok(mem, pt) && Grows(old(mem), pt, mem, pt) && Unmapped(old(mem), pt, mem, pt, vm, done)
      {
        var v := Vpn(a);
        assert v == PageAt(vm, done) by { VpnAt(vm, done); }
        var ok, table, _ := Walk(root, v, false, pt);
        ghost var mem1 := mem;
        if ok {
          EntryInTable(mem, pt, v);
          if HasV(mem[table][At(v)]) {
            PokeLeaf(mem, pt, v, 0);
            mem := Poke(mem, table, At(v), 0);
            GrowsTrans(old(mem), pt, mem1, pt, mem, pt);
          }
        } else {
          EntryMissing(mem, pt, v);
        }
        UnmappedStep(old(mem), mem1, mem, pt, vm, done);
        a, done := a + PAGE_SIZE, done + 1;
      }
    }

    /** kfree of a page: it must be allocated, so no page is freed twice. */
    method Kfree(p: nat)
      requires p in mem
      modifies this
      ensures mem == old(mem) - {p}
    {
      mem := mem - {p};
    }

    /** pagetable_destroy_level: the tables of one subtree are freed, each exactly once, and nothing
        else is.  `mem0` is the memory in which the whole tree still stood. */
    method DestroyLevel(table: nat, level: nat, ghost mem0: Mem, ghost pt: PT, ghost base: nat)
      requires Ok(mem0, pt) && level <= 2 && Node(pt, level, base, table) && 0 !in mem0
      requires Intact(mem0, mem, Under(pt, level, base, table))
      modifies this
      ensures mem == old(mem) - Under(pt, level, base, table)
      decreases level
    {
      hide Ok, Node, Below, HasV, Ppn, IsLeaf;
      assert table != 0 by { NodeInTree(mem0, pt, level, base, table); }
      if table == 0 { return; }
      if level > 0 {
        var i := 0;
        assert Below(pt, level, base, base) == {} by { BelowNone(pt, level, base); }
        while i < WORDS
          invariant 0 <= i <= WORDS && mem == old(mem) - Below(pt, level, base, base + i * Span(level))
          invariant table !in Below(pt, level, base, base + i * Span(level))
        {
          ghost var c := base + i * Span(level);
          ChildOf(mem0, pt, level, base, table, i);
          BelowStep(mem0, pt, level, base, table, i);
          var pte := mem[table][i];
          if HasV(pte) {
            ChildInUnder(mem0, pt, level, base, table, i);
            DestroyLevel(Ppn(pte), level - 1, mem0, pt, c);
          }
          i := i + 1;
          assert base + i * Span(level) == c + Span(level);
        }
      } else {
        assert Below(pt, level, base, base + Span(level + 1)) == {} by { BelowNone(pt, 0, base); }
      }
      Kfree(table);
    }

    /** pagetable_destroy */
    method Destroy(root: nat, ghost pt: PT)
      requires root != 0 ==> Ok(mem, pt) && root == pt.root && 0 !in mem
      modifies this
      ensures mem == if root == 0 then old(mem) else old(mem) - Tables(pt)
    {
      if root == 0 { return; }
      UnderRoot(mem, pt);
      forall p | p in Tables(pt) ensures p in mem { TablesArePages(mem, pt, p); }
      DestroyLevel(root, 2, mem, pt, 0);
    }
  }

  /** The pages of s are still as they were. */
  ghost predicate Intact(mem0: Mem, mem: Mem, s: set<nat>) {
    forall p :: p in s ==> p in mem0 && p in mem && mem[p] == mem0[p]
  }

  lemma ExtendsParts(mem: Mem, pt: PT, mem': Mem, pt': PT)
    requires Extends(mem, pt, mem', pt')
    ensures Grows(mem, pt, mem', pt') && Ok(mem, pt) && Ok(mem', pt') && SameEntries(mem, pt, mem', pt')
  {
  }

  /** The first n pages of a range are not mapped any more; nothing else changed. */
  ghost predicate Unmapped(mem: Mem, pt: PT, mem': Mem, pt': PT, va: nat, n: nat)
    requires Ok(mem, pt) && Ok(mem', pt')
  {
    && (forall u: nat :: !Covered(va, n, u) ==> Entry(mem', pt', u) == Entry(mem, pt, u))
    && (forall i: nat :: i < n ==> Entry(mem', pt', PageAt(va, i)) == Cleared(Entry(mem, pt, PageAt(va, i))))
  }

  function Cleared(w: Word): Word { if HasV(w) then 0 else w }

  lemma UnmappedStep(m0: Mem, m1: Mem, m2: Mem, pt: PT, va: nat, i: nat)
    requires Ok(m0, pt) && Ok(m1, pt) && Ok(m2, pt) && Unmapped(m0, pt, m1, pt, va, i)
    requires var v := PageAt(va, i);
             if HasV(Entry(m1, pt, v)) then SetsEntry(m1, pt, m2, pt, v, 0) else m2 == m1
    ensures Unmapped(m0, pt, m2, pt, va, i + 1)
  {
    hide Ok, Entry, PageAt, HasV;
    ZeroNotValid();
    var v := PageAt(va, i);
    forall u: nat | !Covered(va, i + 1, u) ensures Entry(m2, pt, u) == Entry(m0, pt, u) {
      assert u != v;
      assert !Covered(va, i, u);
    }
    forall j: nat | j < i + 1 ensures Entry(m2, pt, PageAt(va, j)) == Cleared(Entry(m0, pt, PageAt(va, j))) {
      assert j < i ==> Entry(m1, pt, PageAt(va, j)) == Cleared(Entry(m0, pt, PageAt(va, j)));
      if j == i && !Covered(va, i, v) { assert Entry(m1, pt, v) == Entry(m0, pt, v); }
    }
  }

  lemma EndOfRange(vm: nat, npages: nat)
    requires vm < TWO64
    ensures var start := vm / PAGE_SIZE * PAGE_SIZE;
            && WrapSum(start, npages) % PAGE_SIZE == 0
            && (vm / PAGE_SIZE + npages < TWO64 / PAGE_SIZE ==> WrapSum(start, npages) == start + npages * PAGE_SIZE)
  {
    var x := vm / PAGE_SIZE + npages;
    assert vm / PAGE_SIZE * PAGE_SIZE + npages * PAGE_SIZE == 4096 * x;
    WrapMul(x / 0x10_0000_0000_0000, x % 0x10_0000_0000_0000);
  }

  lemma VpnAt(vm: nat, i: nat)
    ensures Vpn(vm / PAGE_SIZE * PAGE_SIZE + i * PAGE_SIZE) == PageAt(vm, i)
  {
    assert vm / PAGE_SIZE * PAGE_SIZE + i * PAGE_SIZE == 4096 * (vm / PAGE_SIZE + i);
  }

  /** What walkaddr tells of an entry: the frame address of a valid user leaf, 0 for anything else. */
  function UserFrame(w: Word): nat { if HasV(w) && HasU(w) && IsLeaf(w) then Ppn(w) * PAGE_SIZE else 0 }

  // ---------- Ranges ----------

  /** The i-th page of a range of page-aligned 64-bit addresses, as a walk sees it; and its frame. */
  function PageAt(va: nat, i: nat): (v: nat)
    ensures v < VPNS
  {
    (va / PAGE_SIZE + i) % VPNS
  }

  function FrameAt(pa: nat, i: nat): nat { (pa / PAGE_SIZE + i) % 0x10_0000_0000_0000 }

  function WrapSum(addr: nat, npages: nat): nat { (addr + npages * PAGE_SIZE) % TWO64 }

  predicate OutOfRange(va: nat, pa: nat, npages: nat) {
    WrapSum(va, npages) > VM_PAGES * PAGE_SIZE || WrapSum(pa, npages) > PM_PAGES * PAGE_SIZE
  }

  /** The range ends within virtual and physical memory. */
  predicate Within(va: nat, pa: nat, npages: nat) {
    va + npages * PAGE_SIZE <= VM_PAGES * PAGE_SIZE && pa + npages * PAGE_SIZE <= PM_PAGES * PAGE_SIZE
  }

  /** The range test of mappages is right if and only if it refuses the range or neither sum wraps. */
  lemma RangeTest(va: nat, pa: nat, npages: nat)
    ensures (!OutOfRange(va, pa, npages) <==> Within(va, pa, npages))
       <==> OutOfRange(va, pa, npages) || (va + npages * PAGE_SIZE < TWO64 && pa + npages * PAGE_SIZE < TWO64)
  {
    var n := npages * PAGE_SIZE;
    assert va + n < TWO64 ==> (va + n) % TWO64 == va + n;
    assert pa + n < TWO64 ==> (pa + n) % TWO64 == pa + n;
  }

  /** Two pages at the very top of the address space pass the test. */
  lemma WrappingRange()
    ensures !OutOfRange(TWO64 - PAGE_SIZE, 0, 2) && !Within(TWO64 - PAGE_SIZE, 0, 2)
  {
    assert (TWO64 - PAGE_SIZE + 2 * PAGE_SIZE) % TWO64 == PAGE_SIZE;
  }

  lemma WrapSumPages(addr: nat, i: nat)
    requires addr % PAGE_SIZE == 0
    ensures Vpn(WrapSum(addr, i)) == PageAt(addr, i) && WrapSum(addr, i) / PAGE_SIZE == FrameAt(addr, i)
  {
    var x := addr / PAGE_SIZE + i;
    assert addr + i * PAGE_SIZE == 4096 * x;
    WrapPages(x);
  }

  lemma WrapPages(x: nat)
    ensures 4096 * x % TWO64 / 4096 == x % 0x10_0000_0000_0000
    ensures x % 0x10_0000_0000_0000 % VPNS == x % VPNS
  {
    var q, r := x / 0x10_0000_0000_0000, x % 0x10_0000_0000_0000;
    WrapMul(q, r);
    WrapVpn(q, r);
  }

  lemma WrapMul(q: nat, r: nat)
    requires r < 0x10_0000_0000_0000
    ensures 4096 * (0x10_0000_0000_0000 * q + r) % TWO64 == 4096 * r
  {
    assert 4096 * (0x10_0000_0000_0000 * q + r) == TWO64 * q + 4096 * r;
  }

  lemma WrapVpn(q: nat, r: nat)
    ensures (0x10_0000_0000_0000 * q + r) % VPNS == r % VPNS
  {
    Bits.DivUnique(0x10_0000_0000_0000 * q + r, VPNS, 33554432 * q + r / VPNS, r % VPNS);
  }

  ghost predicate Covered(va: nat, n: nat, u: nat) { exists i: nat :: i < n && PageAt(va, i) == u }

  /** The first n pages of a range have been mapped, each once and each free before; nothing else changed. */
  ghost predicate Mapped(mem: Mem, pt: PT, mem': Mem, pt': PT, va: nat, pa: nat, n: nat, perm: nat)
    requires Ok(mem, pt) && Ok(mem', pt')
  {
    && (forall u: nat :: !Covered(va, n, u) ==> Entry(mem', pt', u) == Entry(mem, pt, u))
    && (forall i: nat :: i < n ==> !HasV(Entry(mem, pt, PageAt(va, i))))
    && (forall i: nat :: i < n ==> Entry(mem', pt', PageAt(va, i)) == Pte(FrameAt(pa, i), LeafFlags(perm)))
    && (forall i: nat, j: nat :: i < j < n ==> PageAt(va, i) != PageAt(va, j))
  }

  /** The hardware finds frame f at page v, with the permissions asked for. */
  ghost predicate Seen(mem: Mem, root: nat, v: nat, f: nat, perm: nat) {
    var w := Hardware(mem, root, v);
    w / 1024 == f && Grants(w, perm)
  }

  lemma MappedSeen(mem0: Mem, pt0: PT, mem: Mem, pt: PT, va: nat, pa: nat, n: nat, perm: nat)
    requires Ok(mem0, pt0) && Ok(mem, pt) && Mapped(mem0, pt0, mem, pt, va, pa, n, perm)
    ensures forall i: nat :: i < n ==> Seen(mem, pt.root, PageAt(va, i), FrameAt(pa, i), perm)
  {
    hide Ok, Entry, Hardware, LeafFlags, Grants, PageAt, FrameAt, HasV;
    forall i: nat | i < n ensures Seen(mem, pt.root, PageAt(va, i), FrameAt(pa, i), perm) {
      HardwareSees(mem, pt, PageAt(va, i));
      LeafGrants(FrameAt(pa, i), perm);
      assert Entry(mem, pt, PageAt(va, i)) == Pte(FrameAt(pa, i), LeafFlags(perm));
    }
  }

  lemma MappedStep(m0: Mem, p0: PT, m1: Mem, p1: PT, m2: Mem, p2: PT, m3: Mem,
                   va: nat, pa: nat, i: nat, perm: nat)
    requires Ok(m0, p0) && Ok(m1, p1) && Ok(m3, p2) && Mapped(m0, p0, m1, p1, va, pa, i, perm)
    requires Extends(m1, p1, m2, p2) && !HasV(Entry(m2, p2, PageAt(va, i)))
    requires SetsEntry(m2, p2, m3, p2, PageAt(va, i), Pte(FrameAt(pa, i), LeafFlags(perm)))
    ensures Mapped(m0, p0, m3, p2, va, pa, i + 1, perm)
  {
    hide Ok, Entry, LeafFlags, FrameAt, PageAt, Grows, Pte, HasV;
    var v := PageAt(va, i);
    ExtendsOk(m1, p1, m2, p2);
    assert SameEntries(m1, p1, m2, p2);
    if j: nat :| j < i && PageAt(va, j) == v {
      assert Entry(m2, p2, v) == Entry(m1, p1, v);
      MappedValid(m0, p0, m1, p1, va, pa, i, perm, j);
      assert false;
    }
    forall u: nat | !Covered(va, i + 1, u) ensures Entry(m3, p2, u) == Entry(m0, p0, u) {
      assert u != v;
      assert !Covered(va, i, u);
      assert Entry(m2, p2, u) == Entry(m1, p1, u);
    }
    forall j: nat | j < i + 1
      ensures !HasV(Entry(m0, p0, PageAt(va, j))) && Entry(m3, p2, PageAt(va, j)) == Pte(FrameAt(pa, j), LeafFlags(perm))
    {
      assert Entry(m2, p2, PageAt(va, j)) == Entry(m1, p1, PageAt(va, j));
      if j == i { assert !Covered(va, i, v); }
    }
  }

  lemma MappedValid(m0: Mem, p0: PT, m1: Mem, p1: PT, va: nat, pa: nat, n: nat, perm: nat, j: nat)
    requires Ok(m0, p0) && Ok(m1, p1) && Mapped(m0, p0, m1, p1, va, pa, n, perm) && j < n
    ensures HasV(Entry(m1, p1, PageAt(va, j)))
  {
    hide Ok, Entry, PageAt, FrameAt, LeafFlags;
    LeafFlagsBits(perm);
    FlagBits(Pte(FrameAt(pa, j), LeafFlags(perm)));
    assert Entry(m1, p1, PageAt(va, j)) == Pte(FrameAt(pa, j), LeafFlags(perm));
  }

  lemma LeafTable(mem: Mem, pt: PT, v: nat)
    requires Ok(mem, pt) && Up(v) in pt.l0
    ensures IsPage(mem, pt.l0[Up(v)])
  {
  }

  lemma EntryInTable(mem: Mem, pt: PT, v: nat)
    requires Ok(mem, pt) && Up(v) in pt.l0
    ensures IsPage(mem, pt.l0[Up(v)]) && Entry(mem, pt, v) == mem[pt.l0[Up(v)]][At(v)]
  {
  }

  lemma EntryMissing(mem: Mem, pt: PT, v: nat)
    requires Ok(mem, pt) && Up(v) !in pt.l0
    ensures Entry(mem, pt, v) == 0 && !HasV(Entry(mem, pt, v))
  {
  }

  lemma SameMapped(m0: Mem, p0: PT, m1: Mem, p1: PT, m2: Mem, p2: PT, va: nat, pa: nat, n: nat, perm: nat)
    requires Ok(m0, p0) && Ok(m1, p1) && Mapped(m0, p0, m1, p1, va, pa, n, perm) && Extends(m1, p1, m2, p2)
    ensures Ok(m2, p2) && Mapped(m0, p0, m2, p2, va, pa, n, perm)
  {
    hide Ok, Entry, PageAt, FrameAt, LeafFlags, Covered, HasV;
    ExtendsOk(m1, p1, m2, p2);
  }

  lemma ExtendsOk(mem: Mem, pt: PT, mem': Mem, pt': PT)
    requires Extends(mem, pt, mem', pt')
    ensures Ok(mem', pt') && pt'.root == pt.root
  {
  }

  /** One more table on the way down. */
  lemma Grown(mem0: Mem, pt0: PT, mem: Mem, pt: PT, v: nat, level: nat, p: nat, mem': Mem, pt': PT)
    requires Extends(mem0, pt0, mem, pt) && Ok(mem, pt) && v < VPNS && p !in mem && p != 0
    requires level == 2 ==> && Up(Up(v)) !in pt.l1 && pt' == pt.(l1 := pt.l1[Up(Up(v)) := p])
                            && IsPage(mem, pt.root) && Up(Up(v)) < WORDS
                            && mem' == Poke(mem[p := ZeroPage()], pt.root, Up(Up(v)), Pte(p, 1))
    requires level == 1 ==> && Up(Up(v)) in pt.l1 && Up(v) !in pt.l0 && pt' == pt.(l0 := pt.l0[Up(v) := p])
                            && IsPage(mem, pt.l1[Up(Up(v))])
                            && mem' == Poke(mem[p := ZeroPage()], pt.l1[Up(Up(v))], At(Up(v)), Pte(p, 1))
    requires 1 <= level <= 2
    ensures Extends(mem0, pt0, mem', pt')
  {
    hide Ok, Extends, Up, At, Pte;
    if level == 2 {
      AddL1(mem, pt, Up(Up(v)), p);
    } else {
      AddL0(mem, pt, Up(v), p);
    }
    ExtendsTrans(mem0, pt0, mem, pt, mem', pt');
  }

  /** What the walk finds in the directory word at `level`. */
  lemma DirectoryWord(mem: Mem, pt: PT, v: nat, level: nat)
    requires Ok(mem, pt) && v < VPNS && 1 <= level <= 2 && (level == 1 ==> Up(Up(v)) in pt.l1)
    ensures IsPage(mem, pt.root) && Up(Up(v)) < WORDS
    ensures level == 2 ==> var w := mem[pt.root][Up(Up(v))];
              (HasV(w) <==> Up(Up(v)) in pt.l1) && (HasV(w) ==> Ppn(w) == pt.l1[Up(Up(v))])
    ensures level == 2 && Up(Up(v)) !in pt.l1 ==> Up(v) !in pt.l0
    ensures level == 1 ==> && IsPage(mem, pt.l1[Up(Up(v))])
                           && var w := mem[pt.l1[Up(Up(v))]][At(Up(v))];
                              (HasV(w) <==> Up(v) in pt.l0) && (HasV(w) ==> Ppn(w) == pt.l0[Up(v)])
  {
    VpnDigits(v);
    hide Pte, HasV, Ppn, Up, At, Distinct;
    if level == 2 {
      assert RootOk(mem, pt, Up(Up(v)));
      if Up(Up(v)) in pt.l1 { PointerWord(pt.l1[Up(Up(v))]); }
    } else {
      assert MidOk(mem, pt, Up(v));
      if Up(v) in pt.l0 { PointerWord(pt.l0[Up(v)]); }
    }
  }

  lemma VpnDigits(v: nat)
    requires v < VPNS
    ensures Up(Up(v)) < WORDS
  {
  }
}
