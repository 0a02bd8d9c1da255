/** src/mm/uvm.c: copying, growing, shrinking and freeing user address spaces. */
module Uvm {
  import opened PageTableState
  import opened PageTree
  import opened PageTable
  import opened UvmState

  /** The copying of one page in uvmcopy_tree: the child's entry is written without looking at it. */
  method CopyPage(m: Machine, w: Word, v: nat, dstRoot: nat,
                  ghost mem0: Mem, ghost src: PT, ghost dst0: PT, ghost dst: PT, ghost got: map<nat, nat>)
    returns (ok: bool, ghost dst': PT, ghost got': map<nat, nat>)
    requires CopyReady(mem0, src, dst0) && Copied(mem0, src, dst0, m.mem, dst, true, got, {})
    requires v < VPNS && v !in got && dstRoot == dst0.root
    requires w == Entry(mem0, src, v) && HasV(w) && !Special(v)
    modifies m
    ensures Copied(mem0, src, dst0, m.mem, dst', true, got', {})
    ensures if ok then got'.Keys == got.Keys + {v} else got' == got
  {
    hide Ok, Entry, Tables, HasV, Special, Ppn, Pte, Flags, Injective, CopyOf;
    SourceKept(mem0, src, dst0, m.mem, dst);
    got', dst' := got, dst;
    ghost var mem1 := m.mem;
    var page := m.Kzalloc();
    if page == 0 { return false, dst', got'; }
    m.mem := m.mem[page := m.mem[Ppn(w)]];
    ghost var mem2 := m.mem;
    assert mem2 == mem1[page := mem0[Ppn(w)]];
    CopiedSpare(mem0, src, dst0, mem1, dst, true, got, page, mem0[Ppn(w)]);
    var table;
    ok, table, dst' := m.Walk(dstRoot, v, true, dst);
    CopiedGrows(mem0, src, dst0, mem2, dst, true, got, {page}, m.mem, dst');
    if !ok {
      CopiedGiveBack(mem0, src, dst0, m.mem, dst', true, got, page);
      m.Kfree(page);
      return false, dst', got';
    }
    ghost var mem3 := m.mem;
    PokeLeaf(m.mem, dst', v, Pte(page, Flags(w)));
    m.mem := Poke(m.mem, table, At(v), Pte(page, Flags(w)));
    CopiedMap(mem0, src, dst0, mem3, dst', true, got, page, v, m.mem, dst');
    got' := got[v := page];
  }

  /** uvmcopy_tree_level.  When it succeeds the child has every page the walk picks up to the end of
      this table's range; when memory runs out, a part of them. */
  method CopyTreeLevel(m: Machine, table: nat, dstRoot: nat, level: nat, base: nat,
                       ghost mem0: Mem, ghost src: PT, ghost dst0: PT, ghost dst: PT, ghost got: map<nat, nat>)
    returns (ret: int, ghost dst': PT, ghost got': map<nat, nat>)
    requires CopyReady(mem0, src, dst0) && Copied(mem0, src, dst0, m.mem, dst, true, got, {})
    requires level <= 2 && Node(src, level, base, table) && dstRoot == dst0.root
    requires got.Keys == Picked(mem0, src, true, 0, base)
    modifies m
    ensures ret == 0 || ret == -ENOMEM
    ensures Copied(mem0, src, dst0, m.mem, dst', true, got', {})
    ensures ret == 0 ==> got'.Keys == Picked(mem0, src, true, 0, base + Span(level + 1))
    ensures got'.Keys <= Picked(mem0, src, true, 0, base + Span(level + 1))
    decreases level
  {
    hide Ok, Entry, Tables, HasV, Special, Ppn, Pte, Flags, Injective, CopyOf, Node, IsLeaf;
    hide Copied, CopyReady, Picked;
    assert Ok(mem0, src) by { ReadyOk(mem0, src, dst0); }
    NodeBound(mem0, src, level, base, table);
    dst', got' := dst, got;
    var i := 0;
    while i < WORDS
      invariant 0 <= i <= WORDS && Copied(mem0, src, dst0, m.mem, dst', true, got', {})
      invariant got'.Keys == Picked(mem0, src, true, 0, base + i * Span(level))
    {
      var va := base + i * Span(level);
      SourceTable(mem0, src, dst0, m.mem, dst', true, got', level, base, table);
      PickedMono(mem0, src, true, 0, va, base + Span(level + 1));
      PickedMono(mem0, src, true, 0, va + Span(level), base + Span(level + 1));
      var pte := m.mem[table][i];
      if level == 0 { LeafWord(mem0, src, base, table, i); PickedNext(mem0, src, true, 0, va); }
      else { ChildOf(mem0, src, level, base, table, i); }
      if HasV(pte) {
        if IsLeaf(pte) {
          if !Special(va) {
            var ok;
            ok, dst', got' := CopyPage(m, pte, va, dstRoot, mem0, src, dst0, dst', got');
            if !ok { return -ENOMEM, dst', got'; }
          }
        } else if level > 0 {
          ret, dst', got' := CopyTreeLevel(m, Ppn(pte), dstRoot, level - 1, va, mem0, src, dst0, dst', got');
          if ret != 0 { return -ENOMEM, dst', got'; }
        }
      } else if level > 0 {
        PickedSkip(mem0, src, true, 0, va, va + Span(level));
      }
      i := i + 1;
      assert base + i * Span(level) == va + Span(level);
    }
    ret := 0;
  }

  /** uvmcopy_tree */
  method CopyTree(m: Machine, srcRoot: nat, dstRoot: nat, ghost src: PT, ghost dst0: PT)
    returns (ret: int, ghost dst: PT, ghost got: map<nat, nat>)
    requires srcRoot != 0 && dstRoot != 0 ==> CopyReady(m.mem, src, dst0) && srcRoot == src.root && dstRoot == dst0.root
    modifies m
    ensures srcRoot == 0 || dstRoot == 0 ==> ret == -EINVAL && m.mem == old(m.mem)
    ensures srcRoot != 0 && dstRoot != 0 ==>
              && ret in {0, -ENOMEM} && Copied(old(m.mem), src, dst0, m.mem, dst, true, got, {})
              && got.Keys <= Picked(old(m.mem), src, true, 0, VPNS)
              && (ret == 0 ==> got.Keys == Picked(old(m.mem), src, true, 0, VPNS))
              && (ret == 0 && Empty(old(m.mem), dst0) ==> View(m.mem, dst) == PickedView(old(m.mem), src, true, 0))
  {
    hide Ok, Copied, Picked, Entry, View, PickedView;
    dst, got := dst0, map[];
    if srcRoot == 0 || dstRoot == 0 { return -EINVAL, dst, got; }
    CopiedNone(m.mem, src, dst0, true);
    PickedNone(m.mem, src, true);
    ret, dst, got := CopyTreeLevel(m, srcRoot, dstRoot, 2, 0, m.mem, src, dst0, dst, got);
    if ret == 0 && Empty(old(m.mem), dst0) {
      ChildView(old(m.mem), src, dst0, m.mem, dst, true, 0, got);
    }
  }

  lemma PickedNone(mem: Mem, pt: PT, tree: bool)
    requires Ok(mem, pt)
    ensures Picked(mem, pt, tree, 0, 0) == {}
  {
  }

  lemma ReadyOk(mem: Mem, src: PT, dst: PT)
    requires CopyReady(mem, src, dst)
    ensures Ok(mem, src) && Ok(mem, dst)
  {
  }

  // ---------- Freeing ----------

  /** uvm_free_user_pages_level: every user page mapped through this table is freed, exactly once,
      and its entry cleared; TRAMPOLINE and TRAPFRAME stay. */
  method FreeLevel(m: Machine, table: nat, level: nat, base: nat, ghost mem0: Mem, ghost pt: PT, ghost gone: map<nat, nat>)
    returns (ghost gone': map<nat, nat>)
    requires Ok(mem0, pt) && FreeReady(mem0, pt, Picked(mem0, pt, true, 0, VPNS)) && Freed(mem0, pt, m.mem, gone)
    requires level <= 2 && Node(pt, level, base, table)
    requires gone.Keys == Picked(mem0, pt, true, 0, base)
    modifies m
    ensures Freed(mem0, pt, m.mem, gone') && gone'.Keys == Picked(mem0, pt, true, 0, base + Span(level + 1))
    decreases level
  {
    hide Ok, Entry, Tables, HasV, Special, Ppn, Node, IsLeaf, Freed, FreeReady, Picked, Up, At;
    NodeBound(mem0, pt, level, base, table);
    gone' := gone;
    var i := 0;
    while i < WORDS
      invariant 0 <= i <= WORDS && Freed(mem0, pt, m.mem, gone')
      invariant gone'.Keys == Picked(mem0, pt, true, 0, base + i * Span(level))
    {
      var va := base + i * Span(level);
      FreedOk(mem0, pt, m.mem, gone');
      PickedMono(mem0, pt, true, 0, va, VPNS);
      PickedMono(mem0, pt, true, 0, va + Span(level), VPNS);
      if level == 0 {
        LeafWord(m.mem, pt, base, table, i);
        PickedNext(mem0, pt, true, 0, va);
        LeafNode(m.mem, pt, base, table);
      } else {
        ChildOf(m.mem, pt, level, base, table, i);
        FreedBarren(mem0, pt, m.mem, gone', va, va + Span(level));
      }
      var pte := m.mem[table][i];
      if HasV(pte) {
        if IsLeaf(pte) {
          if !Special(va) {
            StillThere(mem0, pt, m.mem, gone', Picked(mem0, pt, true, 0, VPNS), va);
            FreeStep(mem0, pt, m.mem, gone', va, Ppn(pte));
            gone' := gone'[va := Ppn(pte)];
            m.Kfree(Ppn(pte));
            m.mem := Poke(m.mem, table, i, 0);
          }
        } else if level > 0 {
          gone' := FreeLevel(m, Ppn(pte), level - 1, va, mem0, pt, gone');
        }
      } else if level > 0 {
        PickedSkip(mem0, pt, true, 0, va, va + Span(level));
      }
      i := i + 1;
      assert base + i * Span(level) == va + Span(level);
    }
  }

  lemma LeafNode(mem: Mem, pt: PT, base: nat, table: nat)
    requires Ok(mem, pt) && Node(pt, 0, base, table)
    ensures Up(base) in pt.l0 && table == pt.l0[Up(base)] && IsPage(mem, table)
  {
  }

  lemma FreedOk(mem0: Mem, pt: PT, mem: Mem, gone: map<nat, nat>)
    requires Ok(mem0, pt) && Freed(mem0, pt, mem, gone)
    ensures Ok(mem, pt) && forall v: nat :: v !in gone ==> Entry(mem, pt, v) == Entry(mem0, pt, v)
  {
  }

  lemma FreedBarren(mem0: Mem, pt: PT, mem: Mem, gone: map<nat, nat>, lo: nat, hi: nat)
    requires Ok(mem0, pt) && Freed(mem0, pt, mem, gone) && forall v :: v in gone ==> v < lo
    ensures Ok(mem, pt) && (Barren(mem, pt, lo, hi) ==> Barren(mem0, pt, lo, hi))
  {
    hide Ok, Entry;
    forall v: nat | lo <= v < hi ensures Entry(mem, pt, v) == Entry(mem0, pt, v) {}
  }

  /** uvm_free_user_pages and pagetable_destroy, as free_proc uses them: all of the user's pages and
      all of the tables are freed, each exactly once. */
  method FreeAddressSpace(m: Machine, root: nat, ghost pt: PT) returns (ghost gone: map<nat, nat>)
    requires Ok(m.mem, pt) && root == pt.root && root != 0 && 0 !in m.mem
    requires FreeReady(m.mem, pt, Picked(m.mem, pt, true, 0, VPNS))
    modifies m
    ensures gone.Keys == Picked(old(m.mem), pt, true, 0, VPNS)
    ensures forall v :: v in gone ==> gone[v] == Ppn(Entry(old(m.mem), pt, v))
    ensures m.mem == old(m.mem) - gone.Values - Tables(pt)
  {
    hide Ok, Entry, FreeReady, Picked, Tables, Freed;
    PickedNone(m.mem, pt, true);
    FreedNone(m.mem, pt);
    gone := FreeLevel(m, root, 2, 0, m.mem, pt, map[]);
    FreedRest(old(m.mem), pt, m.mem, gone);
    m.Destroy(root, pt);
  }

  lemma FreedRest(mem0: Mem, pt: PT, mem: Mem, gone: map<nat, nat>)
    requires Ok(mem0, pt) && Freed(mem0, pt, mem, gone)
    ensures Ok(mem, pt) && mem.Keys <= mem0.Keys && mem - Tables(pt) == mem0 - gone.Values - Tables(pt)
    ensures forall v :: v in gone ==> gone[v] == Ppn(Entry(mem0, pt, v))
  {
    hide Ok, Entry, Tables;
  }

  // ---------- The linear copy ----------

  /** The copying of one page in uvmcopy: mapped with mappages, which refuses an entry in use. */
  method CopyMapped(m: Machine, w: Word, va: nat, dstRoot: nat,
                    ghost mem0: Mem, ghost src: PT, ghost dst0: PT, ghost dst: PT, ghost got: map<nat, nat>)
    returns (ok: bool, ghost dst': PT, ghost got': map<nat, nat>)
    requires CopyReady(mem0, src, dst0) && Copied(mem0, src, dst0, m.mem, dst, false, got, {})
    requires va % PAGE_SIZE == 0 && va < VM_PAGES * PAGE_SIZE && dstRoot == dst0.root && dstRoot != 0
    requires var v := va / PAGE_SIZE; v !in got && w == Entry(mem0, src, v) && HasV(w) && !Special(v)
    modifies m
    ensures Copied(mem0, src, dst0, m.mem, dst', false, got', {})
    ensures if ok then got'.Keys == got.Keys + {va / PAGE_SIZE} else got' == got
    ensures ok ==> !HasV(Entry(mem0, dst0, va / PAGE_SIZE))
  {
    hide Ok, Entry, Tables, HasV, Special, Ppn, Pte, Flags, LeafFlags, Injective, CopyOf, WrapSum, FrameAt, PageAt;
    ghost var v := va / PAGE_SIZE;
    SourceKept(mem0, src, dst0, m.mem, dst);
    got', dst' := got, dst;
    ghost var mem1 := m.mem;
    var page := m.Kzalloc();
    if page == 0 { return false, dst', got'; }
    m.mem := m.mem[page := m.mem[Ppn(w)]];
    ghost var mem2 := m.mem;
    assert mem2 == mem1[page := mem0[Ppn(w)]];
    CopiedSpare(mem0, src, dst0, mem1, dst, false, got, page, mem0[Ppn(w)]);
    var ret;
    ghost var done;
    ret, dst', done := m.MapPages(dstRoot, va, page * PAGE_SIZE, 1, Flags(w), dst);
    MappedOne(mem2, dst, m.mem, dst', va, page, done, Flags(w));
    if ret != 0 {
      InRange(va, page);
      CopiedGrows(mem0, src, dst0, mem2, dst, false, got, {page}, m.mem, dst');
      CopiedGiveBack(mem0, src, dst0, m.mem, dst', false, got, page);
      m.Kfree(page);
      return false, dst', got';
    }
    CopiedMap(mem0, src, dst0, mem2, dst, false, got, page, v, m.mem, dst');
    return true, dst', got[v := page];
  }

  /** The same for a page beyond what mappages accepts: it is refused, and nothing has changed. */
  method CopyBeyond(m: Machine, w: Word, va: nat, dstRoot: nat,
                    ghost mem0: Mem, ghost src: PT, ghost dst0: PT, ghost dst: PT, ghost got: map<nat, nat>)
    requires CopyReady(mem0, src, dst0) && Copied(mem0, src, dst0, m.mem, dst, false, got, {})
    requires va % PAGE_SIZE == 0 && VM_PAGES * PAGE_SIZE <= va < TWO64 - PAGE_SIZE && dstRoot == dst0.root
    modifies m
    ensures m.mem == old(m.mem)
  {
    hide Ok, Entry, Tables, HasV, Special, Ppn, Pte, Flags, LeafFlags, Injective, CopyOf, WrapSum, FrameAt, PageAt;
    ghost var mem1 := m.mem;
    var page := m.Kzalloc();
    if page == 0 { return; }
    if Ppn(w) in m.mem { m.mem := m.mem[page := m.mem[Ppn(w)]]; }
    assert m.mem == mem1[page := m.mem[page]];
    CopiedSpare(mem0, src, dst0, mem1, dst, false, got, page, m.mem[page]);
    var ret;
    ghost var dst', done;
    ret, dst', done := m.MapPages(dstRoot, va, page * PAGE_SIZE, 1, Flags(w), dst);
    Beyond(va, page);
    assert dstRoot == 0 ==> ret == -EINVAL;
    m.Kfree(page);
    assert m.mem == mem1;
  }

  lemma Beyond(va: nat, page: nat)
    requires va % PAGE_SIZE == 0 && VM_PAGES * PAGE_SIZE <= va < TWO64 - PAGE_SIZE
    ensures OutOfRange(va, page * PAGE_SIZE, 1)
  {
  }

  lemma InRange(va: nat, page: nat)
    requires va % PAGE_SIZE == 0 && va < VM_PAGES * PAGE_SIZE && page < PM_PAGES
    ensures !OutOfRange(va, page * PAGE_SIZE, 1)
  {
  }

  /** mappages of one page sets one entry, or none. */
  lemma MappedOne(mem: Mem, pt: PT, mem': Mem, pt': PT, va: nat, page: nat, done: nat, perm: nat)
    requires va % PAGE_SIZE == 0 && va < VM_PAGES * PAGE_SIZE && page < PM_PAGES && done <= 1
    requires Grows(mem, pt, mem', pt') && Mapped(mem, pt, mem', pt', va, page * PAGE_SIZE, done, perm)
    ensures if done == 1 then SetsEntry(mem, pt, mem', pt', va / PAGE_SIZE, Pte(page, LeafFlags(perm)))
            else Extends(mem, pt, mem', pt')
    ensures done == 1 ==> !HasV(Entry(mem, pt, va / PAGE_SIZE))
  {
    hide Ok, Entry, LeafFlags, Tables;
    assert PageAt(va, 0) == va / PAGE_SIZE && FrameAt(page * PAGE_SIZE, 0) == page;
    hide PageAt, FrameAt, Pte, HasV;
    if done == 1 {
      assert Entry(mem', pt', va / PAGE_SIZE) == Pte(page, LeafFlags(perm));
      forall u: nat | u != va / PAGE_SIZE ensures !Covered(va, 1, u) {}
    } else {
      forall u: nat ensures !Covered(va, 0, u) {}
    }
  }

  // ---------- Shrinking ----------

  /** PAGE_ALIGN_UP in 64 bits, counted in pages. */
  function UpPages(size: nat): nat { (size + PAGE_SIZE - 1) % TWO64 / PAGE_SIZE }

  function Least(a: nat, b: nat): nat { if a < b then a else b }

  /** The entries from lo up to hi for which walkaddr finds a frame. */
  ghost function UserIn(mem: Mem, pt: PT, lo: nat, hi: nat): set<nat>
    requires Ok(mem, pt)
  {
    set v: nat | lo <= v < hi && UserFrame(Entry(mem, pt, v)) != 0
  }

  lemma UserNext(mem: Mem, pt: PT, lo: nat, v: nat)
    requires Ok(mem, pt) && lo <= v
    ensures UserIn(mem, pt, lo, v + 1)
         == UserIn(mem, pt, lo, v) + (if UserFrame(Entry(mem, pt, v)) != 0 then {v} else {})
    ensures forall u :: u in UserIn(mem, pt, lo, v) ==> u < v
  {
    hide Ok, Entry, UserFrame;
  }

  lemma UserMono(mem: Mem, pt: PT, lo: nat, v: nat, hi: nat)
    requires Ok(mem, pt) && v <= hi
    ensures UserIn(mem, pt, lo, v) <= UserIn(mem, pt, lo, hi)
  {
    hide Ok, Entry, UserFrame;
  }

  /** The pages uvmdealloc works on. */
  ghost function DeallocSet(mem: Mem, pt: PT, oldsz: nat, newsz: nat): set<nat>
    requires Ok(mem, pt)
  {
    if newsz >= oldsz then {} else UserIn(mem, pt, UpPages(newsz), Least(UpPages(oldsz), VM_PAGES))
  }

  /** uvmdealloc: the user pages from newsz up to oldsz are unmapped and freed, each exactly once. */
  method UvmDealloc(m: Machine, root: nat, oldsz: nat, newsz: nat, ghost pt: PT)
    returns (ret: nat, ghost gone: map<nat, nat>)
    requires Ok(m.mem, pt) && root == pt.root && oldsz < TWO64 && newsz < TWO64
    requires FreeReady(m.mem, pt, DeallocSet(m.mem, pt, oldsz, newsz))
    modifies m
    ensures Freed(old(m.mem), pt, m.mem, gone) && gone.Keys == DeallocSet(old(m.mem), pt, oldsz, newsz)
    ensures ret == if newsz >= oldsz then oldsz else UpPages(newsz) * PAGE_SIZE
  {
    hide Ok, Entry, Tables, HasV, Ppn, Freed, FreeReady, UserIn, UserFrame, UpPages;
    gone := map[];
    ghost var mem0 := m.mem;
    FreedNone(mem0, pt);
    if newsz >= oldsz { return oldsz, gone; }
    var start, end := UpPages(newsz) * PAGE_SIZE, UpPages(oldsz) * PAGE_SIZE;
    ghost var lo, hi := UpPages(newsz), Least(UpPages(oldsz), VM_PAGES);
    UserNone(mem0, pt, lo, hi);
    var a := start;
    while a < end
      invariant a % PAGE_SIZE == 0 && lo <= a / PAGE_SIZE && (a <= end || a == start)
      invariant Freed(mem0, pt, m.mem, gone)
      invariant gone.Keys == UserIn(mem0, pt, lo, Least(a / PAGE_SIZE, VM_PAGES))
    {
      ghost var v := a / PAGE_SIZE;
      FreedOk(mem0, pt, m.mem, gone);
      assert a < TWO64 by { EndFits(oldsz); }
      var pa := m.WalkAddr(root, a, pt);
      if v < VM_PAGES {
        UserNext(mem0, pt, lo, v);
        UserMono(mem0, pt, lo, v + 1, hi);
      }
      if pa != 0 {
        ghost var mem1 := m.mem;
        UserFrameOf(Entry(mem0, pt, v));
        StillThere(mem0, pt, mem1, gone, UserIn(mem0, pt, lo, hi), v);
        ghost var done := m.UnmapPages(root, a, 1, pt);
        UnmappedOne(mem1, pt, m.mem, a);
        FreeStepUnmap(mem0, pt, mem1, m.mem, gone, v, pa / PAGE_SIZE);
        m.Kfree(pa / PAGE_SIZE);
        gone := gone[v := pa / PAGE_SIZE];
      }
      a := a + PAGE_SIZE;
    }
    UserSame(mem0, pt, lo, hi, Least(a / PAGE_SIZE, VM_PAGES));
    ret := start;
  }

  lemma EndFits(size: nat)
    ensures UpPages(size) * PAGE_SIZE < TWO64
  {
  }

  lemma UserNone(mem: Mem, pt: PT, lo: nat, hi: nat)
    requires Ok(mem, pt)
    ensures UserIn(mem, pt, lo, Least(lo, VM_PAGES)) == {}
  {
  }

  lemma UserSame(mem: Mem, pt: PT, lo: nat, hi: nat, hi': nat)
    requires Ok(mem, pt) && (hi == hi' || (hi <= lo && hi' <= lo))
    ensures UserIn(mem, pt, lo, hi) == UserIn(mem, pt, lo, hi')
  {
  }

  lemma UserFrameOf(w: Word)
    requires UserFrame(w) != 0
    ensures HasV(w) && UserFrame(w) / PAGE_SIZE == Ppn(w)
  {
  }

  lemma UnmappedOne(mem: Mem, pt: PT, mem': Mem, va: nat)
    requires Ok(mem, pt) && Ok(mem', pt) && va % PAGE_SIZE == 0 && va < VM_PAGES * PAGE_SIZE
    requires Unmapped(mem, pt, mem', pt, va, 1) && HasV(Entry(mem, pt, va / PAGE_SIZE))
    ensures SetsEntry(mem, pt, mem', pt, va / PAGE_SIZE, 0)
  {
    hide Ok, Entry, HasV;
    assert PageAt(va, 0) == va / PAGE_SIZE;
    hide PageAt;
    forall u: nat | u != va / PAGE_SIZE ensures !Covered(va, 1, u) {}
  }

  /** uvmfree: nothing for no table or the kernel's own. */
  method UvmFree(m: Machine, root: nat, sz: nat, kernel: nat, ghost pt: PT) returns (ghost gone: map<nat, nat>)
    requires root != 0 && root != kernel ==>
               && Ok(m.mem, pt) && root == pt.root && 0 !in m.mem && sz < TWO64
               && FreeReady(m.mem, pt, DeallocSet(m.mem, pt, sz, 0))
    modifies m
    ensures root == 0 || root == kernel ==> m.mem == old(m.mem)
    ensures root != 0 && root != kernel ==>
              && gone.Keys == DeallocSet(old(m.mem), pt, sz, 0)
              && (forall v :: v in gone ==> gone[v] == Ppn(Entry(old(m.mem), pt, v)))
              && m.mem == old(m.mem) - gone.Values - Tables(pt)
  {
    hide Ok, Entry, FreeReady, DeallocSet, Tables, Freed;
    gone := map[];
    if root == 0 || root == kernel { return; }
    var unused;
    unused, gone := UvmDealloc(m, root, sz, 0, pt);
    FreedRest(old(m.mem), pt, m.mem, gone);
    m.Destroy(root, pt);
  }

  /** A source page that walkaddr would find in the child: user, and readable, writable or executable. */
  predicate UserPage(w: Word) { HasU(w) && IsLeaf(w) }

  /** The frames that freeing the pages of pt below sz gives back. */
  ghost function OwnFrames(mem: Mem, pt: PT, sz: nat): set<nat>
    requires Ok(mem, pt)
  {
    set v | v in DeallocSet(mem, pt, sz, 0) :: Ppn(Entry(mem, pt, v))
  }

  /** The frames of the copies that are not user pages. */
  ghost function NotUser(mem0: Mem, src: PT, got: map<nat, nat>): set<nat>
    requires Ok(mem0, src)
  {
    set v | v in got && !UserPage(Entry(mem0, src, v)) :: got[v]
  }

  /** uvmcopy.  When it fails, the child's tables, its own user pages and the copied ones are gone; what
      stays behind (`left`) are exactly the copies of pages that are not user pages, so nothing if and
      only if all pages copied so far are.  A page that the child maps already, or one that lies at VM_END
      or beyond, makes it fail. */
  method UvmCopy(m: Machine, srcRoot: nat, dstRoot: nat, sz: nat, kernel: nat, ghost src: PT, ghost dst0: PT)
    returns (ret: int, ghost dst: PT, ghost got: map<nat, nat>, ghost left: set<nat>)
    requires CopyReady(m.mem, src, dst0) && srcRoot == src.root && dstRoot == dst0.root
    requires FreeReady(m.mem, dst0, DeallocSet(m.mem, dst0, sz, 0))
    requires sz <= TWO64 - PAGE_SIZE && dstRoot != kernel && dstRoot != 0 && 0 !in m.mem
    modifies m
    ensures ret == 0 || ret == -1
    ensures ret == 0 ==> && Copied(old(m.mem), src, dst0, m.mem, dst, false, got, {})
                         && got.Keys == Picked(old(m.mem), src, false, sz, VPNS)
                         && (forall v :: v in got ==> v < VM_PAGES && !HasV(Entry(old(m.mem), dst0, v)))
                         && (Empty(old(m.mem), dst0) ==> View(m.mem, dst) == PickedView(old(m.mem), src, false, sz))
    ensures ret == -1 ==> && (exists n: nat :: got.Keys == Picked(old(m.mem), src, false, sz, n))
                          && left == NotUser(old(m.mem), src, got)
                          && (left == {} <==> forall v :: v in got ==> UserPage(Entry(old(m.mem), src, v)))
                          && left !! old(m.mem).Keys && left <= m.mem.Keys
                          && m.mem - left == old(m.mem) - Tables(dst0) - OwnFrames(old(m.mem), dst0, sz)
  {
    hide Ok, Copied, CopyReady, Picked, Entry, View, PickedView, Tables, HasV, Special, UserPage, FreeReady, DeallocSet,
         OwnFrames, NotUser, Empty, Ppn, WereFree;
    ghost var mem0 := m.mem;
    ReadyOk(mem0, src, dst0);
    dst, got, left := dst0, map[], {};
    CopiedNone(mem0, src, dst0, false);
    PickedZero(mem0, src, sz);
    FreeNone(mem0, dst0);
    var va := 0;
    while va < sz
      invariant va % PAGE_SIZE == 0 && va < TWO64 && WereFree(mem0, dst0, got)
      invariant Copied(mem0, src, dst0, m.mem, dst, false, got, {})
      invariant got.Keys == Picked(mem0, src, false, sz, Least(va / PAGE_SIZE, VPNS))
    {
      ghost var v := va / PAGE_SIZE;
      PickedNext(mem0, src, false, sz, v);
      PickedMono(mem0, src, false, sz, Least(v, VPNS), VPNS);
      if !Special(va / PAGE_SIZE) {
        SourceNow(mem0, src, dst0, m.mem, dst, got);
        var ok, table, _ := m.Walk(srcRoot, Vpn(va), false, src);
        if ok {
          EntryInTable(m.mem, src, Vpn(va));
          var w := m.mem[table][At(Vpn(va))];
          if HasV(w) {
            var copied := false;
            if va < VM_PAGES * PAGE_SIZE {
              ghost var got1 := got;
              copied, dst, got := CopyMapped(m, w, va, dstRoot, mem0, src, dst0, dst, got);
              FreeMore(mem0, dst0, got1, got, v, copied);
            } else {
              CopyBeyond(m, w, va, dstRoot, mem0, src, dst0, dst, got);
            }
            if !copied {
              ghost var mem1 := m.mem;
              UndoReady(mem0, src, dst0, m.mem, dst, got, sz);
              ghost var gone := UvmFree(m, dstRoot, sz, kernel, dst);
              left := NotUser(mem0, src, got);
              Undone(mem0, src, dst0, mem1, dst, got, sz, m.mem, gone, left);
              NothingLeft(mem0, src, got);
              return -1, dst, got, left;
            }
          }
        } else {
          EntryMissing(m.mem, src, Vpn(va));
        }
      }
      va := va + PAGE_SIZE;
    }
    if va / PAGE_SIZE <= VPNS { PickedEnd(mem0, src, sz, va / PAGE_SIZE); }
    FreeFacts(mem0, dst0, got);
    if Empty(mem0, dst0) { ChildView(mem0, src, dst0, m.mem, dst, false, sz, got); }
    ret := 0;
  }

  lemma PickedZero(mem: Mem, pt: PT, sz: nat)
    requires Ok(mem, pt)
    ensures Picked(mem, pt, false, sz, 0) == {}
  {
  }

  lemma SourceNow(mem0: Mem, src: PT, dst0: PT, mem: Mem, dst: PT, got: map<nat, nat>)
    requires CopyReady(mem0, src, dst0) && Copied(mem0, src, dst0, mem, dst, false, got, {})
    ensures Ok(mem, src) && forall v: nat :: Entry(mem, src, v) == Entry(mem0, src, v)
  {
    hide Ok, Entry, HasV, Tables;
    SourceKept(mem0, src, dst0, mem, dst);
  }

  /** The pages in `got` lie where pages can be mapped, and the child did not map them before. */
  ghost predicate WereFree(mem0: Mem, dst0: PT, got: map<nat, nat>)
    requires Ok(mem0, dst0)
  {
    forall v :: v in got ==> v < VM_PAGES && !HasV(Entry(mem0, dst0, v))
  }

  lemma FreeNone(mem0: Mem, dst0: PT)
    requires Ok(mem0, dst0)
    ensures WereFree(mem0, dst0, map[])
  {
  }

  lemma FreeMore(mem0: Mem, dst0: PT, got: map<nat, nat>, got': map<nat, nat>, v: nat, more: bool)
    requires Ok(mem0, dst0) && WereFree(mem0, dst0, got)
    requires if more then got'.Keys == got.Keys + {v} && v < VM_PAGES && !HasV(Entry(mem0, dst0, v)) else got' == got
    ensures WereFree(mem0, dst0, got')
  {
    hide Ok, Entry, HasV;
  }

  lemma FreeFacts(mem0: Mem, dst0: PT, got: map<nat, nat>)
    requires Ok(mem0, dst0) && WereFree(mem0, dst0, got)
    ensures forall v :: v in got ==> v < VM_PAGES && !HasV(Entry(mem0, dst0, v))
  {
  }

  lemma NothingLeft(mem0: Mem, src: PT, got: map<nat, nat>)
    requires Ok(mem0, src)
    ensures NotUser(mem0, src, got) == {} <==> forall v :: v in got ==> UserPage(Entry(mem0, src, v))
  {
    hide Ok, Entry, UserPage;
    if v :| v in got && !UserPage(Entry(mem0, src, v)) { assert got[v] in NotUser(mem0, src, got); }
  }

  /** What a caller can look at beforehand: a copy leaves nothing behind, wherever it fails, if and only if
      all the pages to be copied are user pages. */
  lemma LeavesNothingIff(mem: Mem, src: PT, sz: nat)
    requires Ok(mem, src)
    ensures (forall n: nat, got: map<nat, nat> :: got.Keys == Picked(mem, src, false, sz, n) ==> NotUser(mem, src, got) == {})
            <==> forall v :: v in Picked(mem, src, false, sz, VPNS) ==> UserPage(Entry(mem, src, v))
  {
    hide Ok, UserPage, Entry, HasV;
    var all := Picked(mem, src, false, sz, VPNS);
    var whole: map<nat, nat> := map v | v in all :: 0;
    assert whole.Keys == all;
    NothingLeft(mem, src, whole);
    if forall v :: v in all ==> UserPage(Entry(mem, src, v)) {
      forall n: nat, got: map<nat, nat> | got.Keys == Picked(mem, src, false, sz, n) ensures NotUser(mem, src, got) == {} {
        forall v | v in got ensures UserPage(Entry(mem, src, v)) { BelowVpns(mem, src, sz, n, v); }
        NothingLeft(mem, src, got);
      }
    }
  }

  lemma BelowVpns(mem: Mem, src: PT, sz: nat, n: nat, v: nat)
    requires Ok(mem, src) && v in Picked(mem, src, false, sz, n)
    ensures v in Picked(mem, src, false, sz, VPNS)
  {
    ZeroNotValid();
  }

  /** An entry below sz that the child had before the copy, or has from it. */
  lemma UndoneAt(mem0: Mem, src: PT, dst0: PT, mem: Mem, dst: PT, got: map<nat, nat>, sz: nat, v: nat)
    requires CopyReady(mem0, src, dst0) && Copied(mem0, src, dst0, mem, dst, false, got, {}) && 0 !in mem0
    requires sz <= TWO64 - PAGE_SIZE && WereFree(mem0, dst0, got)
    requires v in got ==> v in Picked(mem0, src, false, sz, VPNS)
    ensures Ok(mem, dst)
    ensures v !in got ==> Entry(mem, dst, v) == Entry(mem0, dst0, v)
    ensures v !in got ==> (v in DeallocSet(mem, dst, sz, 0) <==> v in DeallocSet(mem0, dst0, sz, 0))
    ensures v in got ==> v !in DeallocSet(mem0, dst0, sz, 0) && Ppn(Entry(mem, dst, v)) == got[v]
    ensures v in got ==> (v in DeallocSet(mem, dst, sz, 0) <==> UserPage(Entry(mem0, src, v)))
  {
    hide Ok, Entry, Tables, Injective, UserPage, HasV, CopyOf, Flags, LeafFlags, Ppn, UserFrame;
    CopiedApart(mem0, src, dst0, mem, dst, false, got);
    if v in got {
      var w := Entry(mem0, src, v);
      CopySees(mem0, src, mem, dst, v, got[v], false, sz);
      UserCopy(w, Entry(mem, dst, v));
      BelowSize(v, sz);
      assert UpPages(0) == 0;
      assert got[v] in got.Values;
      NotUserFrame(Entry(mem0, dst0, v));
      hide Copied, CopyReady, UpPages;
    }
  }

  lemma NotUserFrame(w: Word)
    requires !HasV(w)
    ensures UserFrame(w) == 0
  {
  }

  /** What the child maps below sz can be freed: one frame per entry, none of them a table. */
  lemma UndoReady(mem0: Mem, src: PT, dst0: PT, mem: Mem, dst: PT, got: map<nat, nat>, sz: nat)
    requires CopyReady(mem0, src, dst0) && Copied(mem0, src, dst0, mem, dst, false, got, {}) && 0 !in mem0
    requires sz <= TWO64 - PAGE_SIZE && WereFree(mem0, dst0, got)
    requires got.Keys <= Picked(mem0, src, false, sz, VPNS)
    requires FreeReady(mem0, dst0, DeallocSet(mem0, dst0, sz, 0))
    ensures Ok(mem, dst) && dst.root == dst0.root && FreeReady(mem, dst, DeallocSet(mem, dst, sz, 0)) && 0 !in mem
  {
    hide Ok, Entry, Tables, Ppn, DeallocSet, Picked, UserPage, WereFree, HasV;
    CopiedApart(mem0, src, dst0, mem, dst, false, got);
    var all := DeallocSet(mem, dst, sz, 0);
    forall v | v in all
      ensures FrameOk(mem, dst, Entry(mem, dst, v))
      ensures if v in got then Ppn(Entry(mem, dst, v)) == got[v] else Ppn(Entry(mem, dst, v)) in mem0
    {
      UndoneAt(mem0, src, dst0, mem, dst, got, sz, v);
      if v in got {
        assert got[v] in got.Values;
      } else {
        OwnKept(mem0, src, dst0, mem, dst, got, Ppn(Entry(mem0, dst0, v)));
      }
    }
    forall u, v | u in all && v in all && Ppn(Entry(mem, dst, u)) == Ppn(Entry(mem, dst, v)) ensures u == v {
      UndoneAt(mem0, src, dst0, mem, dst, got, sz, u);
      UndoneAt(mem0, src, dst0, mem, dst, got, sz, v);
      assert u in got ==> got[u] in got.Values;
      assert v in got ==> got[v] in got.Values;
    }
  }

  /** A page of the child's own from before is still there, and is no table of the child's. */
  lemma OwnKept(mem0: Mem, src: PT, dst0: PT, mem: Mem, dst: PT, got: map<nat, nat>, p: nat)
    requires Ok(mem0, src) && Ok(mem0, dst0) && Copied(mem0, src, dst0, mem, dst, false, got, {}) && p in mem0 && p !in Tables(dst0)
    ensures p in mem && p !in Tables(dst)
  {
    hide Ok, Entry, Tables, CopyOf, Injective;
    assert p !in Tables(dst) - Tables(dst0);
  }

  /** After the failed copy has been undone, of the copies only those of pages that are not user pages
      remain, and of the child nothing. */
  lemma Undone(mem0: Mem, src: PT, dst0: PT, mem: Mem, dst: PT, got: map<nat, nat>, sz: nat,
               mem': Mem, gone: map<nat, nat>, left: set<nat>)
    requires CopyReady(mem0, src, dst0) && Copied(mem0, src, dst0, mem, dst, false, got, {}) && 0 !in mem0
    requires sz <= TWO64 - PAGE_SIZE && WereFree(mem0, dst0, got)
    requires got.Keys <= Picked(mem0, src, false, sz, VPNS)
    requires FreeReady(mem0, dst0, DeallocSet(mem0, dst0, sz, 0)) && Ok(mem, dst)
    requires gone.Keys == DeallocSet(mem, dst, sz, 0) && forall v :: v in gone ==> gone[v] == Ppn(Entry(mem, dst, v))
    requires mem' == mem - gone.Values - Tables(dst)
    requires left == NotUser(mem0, src, got)
    ensures left !! mem0.Keys && left <= mem'.Keys
    ensures mem' - left == mem0 - Tables(dst0) - OwnFrames(mem0, dst0, sz)
  {
    hide Ok, Entry, Tables, UserPage, Injective, Picked, DeallocSet, Copied, CopyReady, WereFree, Ppn, HasV, FreeReady,
         NotUser, OwnFrames;
    ReadyOk(mem0, src, dst0);
    CopiedApart(mem0, src, dst0, mem, dst, false, got);
    var before := DeallocSet(mem0, dst0, sz, 0);
    forall v: nat
      ensures v in got ==> v !in before && (v in gone <==> UserPage(Entry(mem0, src, v))) && (v in gone ==> gone[v] == got[v])
      ensures v !in got ==> (v in gone <==> v in before) && (v in gone ==> gone[v] == Ppn(Entry(mem0, dst0, v)))
    {
      UndoneAt(mem0, src, dst0, mem, dst, got, sz, v);
    }
    var own := OwnFrames(mem0, dst0, sz);
    OwnThere(mem0, dst0, sz);
    LeftAre(mem0, src, got, gone);
    FrameSplit(got, gone, before, map v | v in before :: Ppn(Entry(mem0, dst0, v)), left, own);
    CopiedRest(mem0, src, dst0, mem, dst, false, got);
    TakeAway(mem, gone.Values, Tables(dst), left, own, got.Values);
  }

  lemma OwnThere(mem: Mem, pt: PT, sz: nat)
    requires Ok(mem, pt) && FreeReady(mem, pt, DeallocSet(mem, pt, sz, 0))
    ensures OwnFrames(mem, pt, sz) <= mem.Keys
    ensures OwnFrames(mem, pt, sz) == set v | v in DeallocSet(mem, pt, sz, 0) :: Ppn(Entry(mem, pt, v))
  {
    hide Ok, Entry, Ppn, DeallocSet, Tables;
  }

  lemma LeftAre(mem0: Mem, src: PT, got: map<nat, nat>, gone: map<nat, nat>)
    requires Ok(mem0, src) && forall v :: v in got ==> (v in gone <==> UserPage(Entry(mem0, src, v)))
    ensures NotUser(mem0, src, got) == set v | v in got && v !in gone :: got[v]
  {
    hide Ok, Entry, UserPage;
  }

  lemma TakeAway(mem: Mem, gone: set<nat>, tables: set<nat>, left: set<nat>, own: set<nat>, got: set<nat>)
    requires gone + left == own + got && left <= got && gone !! left && got !! tables && got <= mem.Keys
    ensures left <= (mem - gone - tables).Keys
    ensures mem - gone - tables - left == mem - got - tables - own
  {
    var a, b := mem - gone - tables - left, mem - got - tables - own;
    forall p ensures p in a <==> p in b { assert p in gone + left <==> p in own + got; }
  }

  /** Freed are the child's own frames and the copies that are not left. */
  lemma FrameSplit(got: map<nat, nat>, gone: map<nat, nat>, before: set<nat>, mine: map<nat, nat>, left: set<nat>, own: set<nat>)
    requires Injective(got) && mine.Keys == before && own == (set v | v in before :: mine[v])
    requires forall v :: v in got ==> v !in before && (v in gone ==> gone[v] == got[v])
    requires forall v :: v !in got ==> (v in gone <==> v in before) && (v in gone ==> gone[v] == mine[v])
    requires left == (set v | v in got && v !in gone :: got[v]) && own !! got.Values
    ensures gone.Values + left == own + got.Values && left <= got.Values && gone.Values !! left
  {
    forall p ensures p in gone.Values + left <==> p in own + got.Values {
      if p in got.Values {
        var v :| v in got && got[v] == p;
        if v in gone { assert gone[v] == p; }
      }
      if p in own {
        var v :| v in before && mine[v] == p;
        assert gone[v] == p;
      }
    }
  }

  lemma BelowSize(v: nat, sz: nat)
    requires v * 4096 < sz && sz <= TWO64 - PAGE_SIZE
    ensures v < UpPages(sz)
  {
  }

  lemma UserCopy(w: Word, w': Word)
    requires HasV(w') && Flags(w') == LeafFlags(Flags(w))
    ensures UserFrame(w') != 0 <==> UserPage(w) && Ppn(w') != 0
  {
    hide LeafFlags;
    FlagBits(w);
    FlagBits(w');
    LeafFlagsBits(Flags(w));
    hide HasV, HasU, IsLeaf, Flags;
  }

  // ---------- Both copies of the same parent ----------

  /** The tree copy does not look at the size. */
  lemma TreeIgnoresSize(mem: Mem, src: PT, sz: nat)
    requires Ok(mem, src)
    ensures PickedView(mem, src, true, sz) == PickedView(mem, src, true, 0)
  {
    hide Ok, Entry;
    assert forall v: nat :: Picks(true, sz, Entry(mem, src, v), v) == Picks(true, 0, Entry(mem, src, v), v);
  }

  lemma EmptyFrees(mem: Mem, pt: PT, sz: nat)
    requires Ok(mem, pt) && Empty(mem, pt)
    ensures DeallocSet(mem, pt, sz, 0) == {}
  {
    hide Ok, Entry, HasV, UserFrame;
    forall v: nat ensures UserFrame(Entry(mem, pt, v)) == 0 { NotUserFrame(Entry(mem, pt, v)); }
  }

  /** uvmcopy_tree and uvmcopy of the same parent into an empty child: when both succeed, the two children
      see the same memory if and only if every page the parent maps is readable, writable or executable. */
  method BothCopies(m1: Machine, m2: Machine, srcRoot: nat, dstRoot: nat, sz: nat, kernel: nat, ghost src: PT, ghost dst0: PT)
    returns (ret1: int, ret2: int, ghost dst1: PT, ghost dst2: PT)
    requires m1 != m2 && m1.mem == m2.mem && CopyReady(m1.mem, src, dst0) && Mappages(m1.mem, src, sz) && Empty(m1.mem, dst0)
    requires srcRoot == src.root && srcRoot != 0 && dstRoot == dst0.root && dstRoot != 0 && dstRoot != kernel && 0 !in m1.mem
    requires sz <= TWO64 - PAGE_SIZE
    modifies m1, m2
    ensures ret1 == 0 && ret2 == 0 ==> && Ok(m1.mem, dst1) && Ok(m2.mem, dst2)
                                       && (View(m1.mem, dst1) == View(m2.mem, dst2)
                                           <==> forall v: nat :: HasV(Entry(old(m1.mem), src, v)) && !Special(v)
                                                  ==> IsLeaf(Entry(old(m1.mem), src, v)))
  {
    hide Ok, Entry, Copied, CopyReady, Mappages, Empty, Picked, PickedView, View, DeallocSet, Tables, HasV, IsLeaf, Special,
         NotUser, OwnFrames, UserPage;
    ghost var mem0 := m1.mem;
    ReadyOk(mem0, src, dst0);
    EmptyFrees(mem0, dst0, sz);
    CopiesAgree(mem0, src, dst0, sz);
    TreeIgnoresSize(mem0, src, sz);
    ghost var got1, got2, left;
    ret1, dst1, got1 := CopyTree(m1, srcRoot, dstRoot, src, dst0);
    ret2, dst2, got2, left := UvmCopy(m2, srcRoot, dstRoot, sz, kernel, src, dst0);
    if ret1 == 0 && ret2 == 0 {
      CopiedApart(mem0, src, dst0, m1.mem, dst1, true, got1);
      CopiedApart(mem0, src, dst0, m2.mem, dst2, false, got2);
    }
  }

  /** A parent with two readable pages that are not user pages.  A copy that fails at the second leaves the
      frame of the first behind. */
  lemma LeavesBehind() returns (mem: Mem, src: PT, dst: PT)
    ensures CopyReady(mem, src, dst) && Empty(mem, dst) && dst.root != 0 && 0 !in mem
    ensures FreeReady(mem, dst, DeallocSet(mem, dst, 8192, 0))
    ensures Picked(mem, src, false, 8192, 1) == {0} && Picked(mem, src, false, 8192, VPNS) == {0, 1}
    ensures forall got: map<nat, nat> :: got.Keys == Picked(mem, src, false, 8192, 1) ==> NotUser(mem, src, got) == {got[0]}
  {
    hide Ok, Pte, Entry, HasV, Tables, Flags, IsLeaf, HasU;
    var w := Pte(4, 3);
    ReadableWord();
    ZeroNotValid();
    mem, src, dst := TwoPages(w);
    EmptyFrees(mem, dst, 8192);
    assert Entry(mem, src, 0) == w && Entry(mem, src, 1) == w && Ppn(w) == 4;
    forall got: map<nat, nat> | got.Keys == {0} ensures NotUser(mem, src, got) == {got[0]} {
      assert 0 in got && !UserPage(Entry(mem, src, 0));
    }
  }

  lemma TwoPages(w: Word) returns (mem: Mem, src: PT, dst: PT)
    ensures Ok(mem, src) && Ok(mem, dst) && Empty(mem, dst) && Tables(src) !! Tables(dst)
    ensures 4 in mem && 4 !in Tables(dst) && forall v: nat :: Entry(mem, src, v) == if v < 2 then w else 0
    ensures dst.root == 5 && mem.Keys == {1, 2, 3, 4, 5}
  {
    hide Ok, Entry, Pte;
    var m1: Mem;
    m1, src, dst := OnePage(w);
    assert Up(1) == 0 && At(1) == 1;
    PokeLeaf(m1, src, 1, w);
    mem := Poke(m1, 3, 1, w);
    OkEmpty(mem, 5);
  }

  lemma ReadableWord()
    ensures var w := Pte(4, 3); HasV(w) && IsLeaf(w) && !HasU(w)
  {
    assert HasV(3) && IsLeaf(3) && !HasU(3);
    FlagBits(Pte(4, 3));
  }
}
