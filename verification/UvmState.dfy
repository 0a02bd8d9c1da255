/** What copying and freeing a user address space mean for the page tables and the pages they map. */
module UvmState {
  import opened PageTableState
  import opened PageTree

  /** TRAMPOLINE and TRAPFRAME are never copied or freed with the user's pages. */
  predicate Special(v: nat) { v == TRAMPOLINE || v == TRAPFRAME }

  // ---------- Framing ----------

  /** A tree none of whose tables is in s does not change with s. */
  lemma OkKept(mem: Mem, pt: PT, mem': Mem, s: set<nat>)
    requires Ok(mem, pt) && Kept(mem, mem', s) && Tables(pt) !! s
    ensures Ok(mem', pt) && SameEntries(mem, pt, mem', pt)
  {
    forall p | p in Tables(pt) ensures p in mem && p in mem' && mem'[p] == mem[p] { TablesArePages(mem, pt, p); }
    KeptTables(pt);
    hide Up, At, Pte, HasV;
    forall i: nat | i < WORDS ensures RootOk(mem', pt, i) { assert RootOk(mem, pt, i); }
    forall k: nat | Up(k) in pt.l1 ensures MidOk(mem', pt, k) { assert MidOk(mem, pt, k); }
  }

  lemma KeptTables(pt: PT)
    ensures pt.root in Tables(pt)
    ensures forall i :: i in pt.l1 ==> pt.l1[i] in Tables(pt)
    ensures forall k :: k in pt.l0 ==> pt.l0[k] in Tables(pt)
  {
  }

  /** pt' grew out of pt, possibly while other pages were being allocated. */
  ghost predicate Spreads(mem: Mem, pt: PT, mem': Mem, pt': PT) {
    && Ok(mem, pt) && Ok(mem', pt') && pt'.root == pt.root
    && Kept(mem, mem', Tables(pt)) && Tables(pt) <= Tables(pt') && (Tables(pt') - Tables(pt)) !! mem.Keys
  }

  lemma SpreadsThenGrows(m0: Mem, p0: PT, m1: Mem, p1: PT, m2: Mem, p2: PT)
    requires Spreads(m0, p0, m1, p1) && Grows(m1, p1, m2, p2) && m0.Keys <= m1.Keys
    ensures Spreads(m0, p0, m2, p2)
  {
    TablesGrow(m1, p1, m2, p2);
    hide Ok;
    forall p | p in m0 && p !in Tables(p0) ensures p in m2 && m2[p] == m0[p] {
      assert p !in Tables(p1) - Tables(p0);
    }
  }

  /** A page outside the tree, and new since m0, may come and go. */
  lemma SpreadsBeside(m0: Mem, p0: PT, m1: Mem, p1: PT, m2: Mem, p: nat)
    requires Spreads(m0, p0, m1, p1) && p !in m0 && p !in Tables(p1) && Kept(m1, m2, {p})
    ensures Spreads(m0, p0, m2, p1) && SameEntries(m1, p1, m2, p1)
  {
    OkKept(m1, p1, m2, {p});
    hide Ok, Tables;
  }

  // ---------- Copying ----------

  /** The parent's tree, and the pages it maps, are apart from the child's tables. */
  ghost predicate CopyReady(mem: Mem, src: PT, dst: PT) {
    && Ok(mem, src) && Ok(mem, dst) && Tables(src) !! Tables(dst)
    && forall v: nat :: HasV(Entry(mem, src, v)) && !Special(v) ==> FrameOk(mem, dst, Entry(mem, src, v))
  }

  ghost predicate FrameOk(mem: Mem, dst: PT, w: Word) { Ppn(w) in mem && Ppn(w) !in Tables(dst) }

  /** The flags a copy is given: as they are by the tree walk, as mappages stores them by the linear one. */
  function CopyFlags(tree: bool, w: Word): (f: nat)
    ensures f < 1024
  {
    if tree then Flags(w) else LeafFlags(Flags(w))
  }

  /** The child's entry v maps page p, which is new and holds what the parent's page held. */
  ghost predicate CopyOf(mem0: Mem, src: PT, mem: Mem, dst: PT, v: nat, p: nat, tree: bool)
    requires Ok(mem0, src) && Ok(mem, dst)
  {
    var w := Entry(mem0, src, v);
    && Entry(mem, dst, v) == Pte(p, CopyFlags(tree, w)) && p !in mem0 && p !in Tables(dst)
    && p in mem && Ppn(w) in mem0 && mem[p] == mem0[Ppn(w)]
  }

  /** The child has received exactly the pages in `got` (page number to frame): each a frame of its
      own with the parent's contents.  Its other entries are as they were, every other page is kept,
      and the only new pages are its tables, the copies, and those in `spare`. */
  ghost predicate Copied(mem0: Mem, src: PT, dst0: PT, mem: Mem, dst: PT, tree: bool, got: map<nat, nat>, spare: set<nat>)
    requires Ok(mem0, src)
  {
    && Spreads(mem0, dst0, mem, dst) && Injective(got)
    && (forall v: nat :: v !in got ==> Entry(mem, dst, v) == Entry(mem0, dst0, v))
    && (forall v :: v in got ==> CopyOf(mem0, src, mem, dst, v, got[v], tree))
    && mem.Keys == mem0.Keys + Tables(dst) + got.Values + spare
    && spare !! mem0.Keys + Tables(dst) + got.Values && (0 in mem ==> 0 in mem0)
  }

  lemma CopiedNone(mem: Mem, src: PT, dst: PT, tree: bool)
    requires CopyReady(mem, src, dst)
    ensures Copied(mem, src, dst, mem, dst, tree, map[], {})
  {
    forall p | p in Tables(dst) ensures p in mem { TablesArePages(mem, dst, p); }
    hide Ok;
  }

  /** The parent's tree is untouched so far, and so are the pages it maps. */
  lemma SourceKept(mem0: Mem, src: PT, dst0: PT, mem: Mem, dst: PT)
    requires CopyReady(mem0, src, dst0) && Spreads(mem0, dst0, mem, dst)
    ensures Ok(mem, src) && SameEntries(mem0, src, mem, src)
    ensures forall v: nat :: HasV(Entry(mem0, src, v)) && !Special(v) ==>
              var p := Ppn(Entry(mem0, src, v)); p in mem0 && p in mem && mem[p] == mem0[p]
  {
    OkKept(mem0, src, mem, Tables(dst0));
    hide Ok, Entry, HasV, Ppn;
  }

  lemma CopyOfKept(mem0: Mem, src: PT, mem: Mem, dst: PT, mem': Mem, dst': PT, got: map<nat, nat>, tree: bool)
    requires Ok(mem0, src) && Ok(mem, dst) && Ok(mem', dst')
    requires forall v :: v in got ==> CopyOf(mem0, src, mem, dst, v, got[v], tree)
    requires forall v :: v in got ==> Entry(mem', dst', v) == Entry(mem, dst, v)
    requires forall p :: p in got.Values ==> p !in Tables(dst') && p in mem && p in mem' && mem'[p] == mem[p]
    ensures forall v :: v in got ==> CopyOf(mem0, src, mem', dst', v, got[v], tree)
  {
    hide Ok, Entry, Ppn, CopyFlags, Pte, Tables;
    forall v | v in got ensures CopyOf(mem0, src, mem', dst', v, got[v], tree) {
      assert got[v] in got.Values;
      assert CopyOf(mem0, src, mem, dst, v, got[v], tree);
    }
  }

  lemma SourceTable(mem0: Mem, src: PT, dst0: PT, mem: Mem, dst: PT, tree: bool, got: map<nat, nat>,
                    level: nat, base: nat, table: nat)
    requires CopyReady(mem0, src, dst0) && Copied(mem0, src, dst0, mem, dst, tree, got, {}) && Node(src, level, base, table)
    ensures IsPage(mem0, table) && table in mem && mem[table] == mem0[table]
  {
    hide Ok, Entry, HasV;
    NodeInTree(mem0, src, level, base, table);
    KeptTables(src);
  }

  /** A page is allocated for the next copy, and filled. */
  lemma CopiedSpare(mem0: Mem, src: PT, dst0: PT, mem: Mem, dst: PT, tree: bool, got: map<nat, nat>,
                    p: nat, words: seq<Word>)
    requires Ok(mem0, src) && Copied(mem0, src, dst0, mem, dst, tree, got, {}) && p !in mem && p != 0
    ensures Copied(mem0, src, dst0, mem[p := words], dst, tree, got, {p})
  {
    var mem' := mem[p := words];
    hide Ok, Entry, CopyOf, Tables, Injective;
    FreshTable(mem, dst, p);
    SpreadsBeside(mem0, dst0, mem, dst, mem', p);
    hide Spreads;
    CopyOfApart(mem0, src, mem, dst, got, tree);
    CopyOfKept(mem0, src, mem, dst, mem', dst, got, tree);
  }

  lemma CopyOfApart(mem0: Mem, src: PT, mem: Mem, dst: PT, got: map<nat, nat>, tree: bool)
    requires Ok(mem0, src) && Ok(mem, dst)
    requires forall v :: v in got ==> CopyOf(mem0, src, mem, dst, v, got[v], tree)
    ensures forall p :: p in got.Values ==> p !in Tables(dst) && p in mem && p !in mem0
  {
    hide Ok, Entry, Tables;
  }

  /** The child's tree grows to reach the next entry. */
  lemma CopiedGrows(mem0: Mem, src: PT, dst0: PT, mem: Mem, dst: PT, tree: bool, got: map<nat, nat>, spare: set<nat>,
                    mem': Mem, dst': PT)
    requires Ok(mem0, src) && Copied(mem0, src, dst0, mem, dst, tree, got, spare)
    requires Extends(mem, dst, mem', dst')
    ensures Copied(mem0, src, dst0, mem', dst', tree, got, spare)
    ensures forall p :: p in spare ==> p in mem' && mem'[p] == mem[p]
  {
    hide Ok, Entry, CopyOf, Tables, Injective;
    SpreadsThenGrows(mem0, dst0, mem, dst, mem', dst');
    TablesGrow(mem, dst, mem', dst');
    UnionGrows(mem0.Keys, Tables(dst), Tables(dst'), got.Values, spare);
    hide Spreads;
    CopyOfApart(mem0, src, mem, dst, got, tree);
    GrowsBeside(mem, dst, mem', dst', got.Values);
    GrowsBeside(mem, dst, mem', dst', spare);
    assert mem'.Keys == mem.Keys + Tables(dst') && SameEntries(mem, dst, mem', dst');
    hide Grows, Extends;
    CopyOfKept(mem0, src, mem, dst, mem', dst', got, tree);
  }

  lemma UnionGrows(a: set<nat>, t: set<nat>, t': set<nat>, b: set<nat>, c: set<nat>)
    requires t <= t'
    ensures a + t + b + c + t' == a + t' + b + c
  {
  }

  /** Pages beside a tree stay as they are, and stay beside it, when it grows. */
  lemma GrowsBeside(mem: Mem, pt: PT, mem': Mem, pt': PT, s: set<nat>)
    requires Grows(mem, pt, mem', pt') && s !! Tables(pt) && s <= mem.Keys
    ensures s !! Tables(pt') && forall p :: p in s ==> p in mem && p in mem' && mem'[p] == mem[p]
  {
    hide Ok, Tables;
    forall p | p in s ensures p !in Tables(pt') {
      assert p !in Tables(pt') - Tables(pt);
    }
  }

  /** The spare page is mapped as entry v. */
  lemma CopiedMap(mem0: Mem, src: PT, dst0: PT, mem: Mem, dst: PT, tree: bool, got: map<nat, nat>,
                  p: nat, v: nat, mem': Mem, dst': PT)
    requires Ok(mem0, src) && Copied(mem0, src, dst0, mem, dst, tree, got, {p}) && v !in got
    requires Ppn(Entry(mem0, src, v)) in mem0 && p in mem && mem[p] == mem0[Ppn(Entry(mem0, src, v))]
    requires Grows(mem, dst, mem', dst')
    requires SetsEntry(mem, dst, mem', dst', v, Pte(p, CopyFlags(tree, Entry(mem0, src, v))))
    ensures Copied(mem0, src, dst0, mem', dst', tree, got[v := p], {})
  {
    hide Ok, Entry, CopyOf, Tables, Pte, Ppn, CopyFlags;
    SpreadsThenGrows(mem0, dst0, mem, dst, mem', dst');
    TablesGrow(mem, dst, mem', dst');
    UnionGrows(mem0.Keys, Tables(dst), Tables(dst'), got.Values, {p});
    hide Spreads;
    CopyOfApart(mem0, src, mem, dst, got, tree);
    GrowsBeside(mem, dst, mem', dst', got.Values);
    GrowsBeside(mem, dst, mem', dst', {p});
    assert mem'.Keys == mem.Keys + Tables(dst');
    hide Grows;
    CopyOfKept(mem0, src, mem, dst, mem', dst', got, tree);
    ValuesAdd(got, v, p);
    CopyOfThis(mem0, src, mem', dst', v, p, tree);
    InjectiveAdd(got, v, p);
    hide Injective;
  }

  lemma CopyOfThis(mem0: Mem, src: PT, mem: Mem, dst: PT, v: nat, p: nat, tree: bool)
    requires Ok(mem0, src) && Ok(mem, dst) && p !in mem0 && p !in Tables(dst)
    requires Entry(mem, dst, v) == Pte(p, CopyFlags(tree, Entry(mem0, src, v)))
    requires Ppn(Entry(mem0, src, v)) in mem0 && p in mem && mem[p] == mem0[Ppn(Entry(mem0, src, v))]
    ensures CopyOf(mem0, src, mem, dst, v, p, tree)
  {
    hide Ok, Entry, Tables;
  }

  lemma InjectiveAdd(m: map<nat, nat>, k: nat, p: nat)
    requires Injective(m) && k !in m && p !in m.Values
    ensures Injective(m[k := p])
  {
  }

  /** The spare page is given back when the entry cannot be reached. */
  lemma CopiedGiveBack(mem0: Mem, src: PT, dst0: PT, mem: Mem, dst: PT, tree: bool, got: map<nat, nat>, p: nat)
    requires Ok(mem0, src) && Copied(mem0, src, dst0, mem, dst, tree, got, {p})
    ensures Copied(mem0, src, dst0, mem - {p}, dst, tree, got, {})
  {
    hide Ok, Entry, CopyOf, Tables, Injective;
    var mem' := mem - {p};
    SpreadsBeside(mem0, dst0, mem, dst, mem', p);
    hide Spreads;
    CopyOfApart(mem0, src, mem, dst, got, tree);
    CopyOfKept(mem0, src, mem, dst, mem', dst, got, tree);
    assert mem'.Keys == mem.Keys - {p};
  }

  // ---------- Which pages a copy takes ----------

  /** The tree walk takes the valid leaves with some of R, W, X; the linear one every valid entry below sz. */
  predicate Picks(tree: bool, sz: nat, w: Word, v: nat) {
    HasV(w) && !Special(v) && if tree then IsLeaf(w) else v * 4096 < sz
  }

  ghost function Picked(mem: Mem, pt: PT, tree: bool, sz: nat, hi: nat): set<nat>
    requires Ok(mem, pt)
  {
    set v: nat | v < hi && Picks(tree, sz, Entry(mem, pt, v), v)
  }

  lemma PickedNext(mem: Mem, pt: PT, tree: bool, sz: nat, v: nat)
    requires Ok(mem, pt)
    ensures Picked(mem, pt, tree, sz, v + 1)
         == Picked(mem, pt, tree, sz, v) + (if Picks(tree, sz, Entry(mem, pt, v), v) then {v} else {})
  {
    hide Ok, Entry, Picks;
  }

  lemma PickedMono(mem: Mem, pt: PT, tree: bool, sz: nat, lo: nat, hi: nat)
    requires Ok(mem, pt) && lo <= hi
    ensures Picked(mem, pt, tree, sz, lo) <= Picked(mem, pt, tree, sz, hi)
    ensures forall v :: v in Picked(mem, pt, tree, sz, lo) ==> v < lo
  {
    hide Ok, Entry, Picks;
  }

  lemma PickedSkip(mem: Mem, pt: PT, tree: bool, sz: nat, lo: nat, hi: nat)
    requires Ok(mem, pt) && lo <= hi && Barren(mem, pt, lo, hi)
    ensures Picked(mem, pt, tree, sz, hi) == Picked(mem, pt, tree, sz, lo)
  {
    hide Ok, Entry;
    ZeroNotValid();
    hide HasV;
    forall v: nat | lo <= v < hi ensures !Picks(tree, sz, Entry(mem, pt, v), v) {}
  }

  /** What an address space looks like from inside: flags and contents by page number. */
  datatype Page = Page(flags: nat, words: seq<Word>)

  ghost function View(mem: Mem, pt: PT): map<nat, Page>
    requires Ok(mem, pt)
  {
    map v: nat | v < VPNS && HasV(Entry(mem, pt, v)) && Ppn(Entry(mem, pt, v)) in mem
      :: Page(Flags(Entry(mem, pt, v)), mem[Ppn(Entry(mem, pt, v))])
  }

  ghost function PickedView(mem: Mem, pt: PT, tree: bool, sz: nat): map<nat, Page>
    requires Ok(mem, pt)
  {
    map v: nat | v < VPNS && Picks(tree, sz, Entry(mem, pt, v), v) && Ppn(Entry(mem, pt, v)) in mem
      :: Page(CopyFlags(tree, Entry(mem, pt, v)), mem[Ppn(Entry(mem, pt, v))])
  }

  ghost predicate Empty(mem: Mem, pt: PT)
    requires Ok(mem, pt)
  {
    forall v: nat :: !HasV(Entry(mem, pt, v))
  }

  /** A child that started empty sees exactly the pages that were picked, with the parent's contents. */
  lemma ChildView(mem0: Mem, src: PT, dst0: PT, mem: Mem, dst: PT, tree: bool, sz: nat, got: map<nat, nat>)
    requires CopyReady(mem0, src, dst0) && Empty(mem0, dst0) && Copied(mem0, src, dst0, mem, dst, tree, got, {})
    requires got.Keys == Picked(mem0, src, tree, sz, VPNS)
    ensures View(mem, dst) == PickedView(mem0, src, tree, sz)
  {
    hide Ok, Entry, Tables, Injective, Ppn, Flags, Special, FrameOk, HasV, IsLeaf;
    assert Ok(mem, dst);
    hide Spreads, CopyReady, CopyOf;
    var view, want := View(mem, dst), PickedView(mem0, src, tree, sz);
    forall v: nat
      ensures v in view <==> v in want
      ensures v in view ==> view[v] == want[v]
    {
      if v in got {
        assert CopyOf(mem0, src, mem, dst, v, got[v], tree);
        CopySees(mem0, src, mem, dst, v, got[v], tree, sz);
      } else {
        assert v < VPNS ==> v !in Picked(mem0, src, tree, sz, VPNS);
      }
    }
  }

  lemma CopySees(mem0: Mem, src: PT, mem: Mem, dst: PT, v: nat, p: nat, tree: bool, sz: nat)
    requires Ok(mem0, src) && Ok(mem, dst) && CopyOf(mem0, src, mem, dst, v, p, tree)
    requires Picks(tree, sz, Entry(mem0, src, v), v)
    ensures var w := Entry(mem, dst, v);
            HasV(w) && Ppn(w) == p && Flags(w) == CopyFlags(tree, Entry(mem0, src, v))
  {
    hide Ok, Entry, Tables, IsLeaf, LeafFlags;
    var w := Entry(mem0, src, v);
    FlagBits(w);
    LeafFlagsBits(Flags(w));
    FlagBits(Pte(p, CopyFlags(tree, w)));
    hide HasV;
  }

  /** The parent's leaves were all put there by mappages, and those below the top of user memory end below sz. */
  ghost predicate Mappages(mem: Mem, pt: PT, sz: nat)
    requires Ok(mem, pt)
  {
    forall v: nat :: HasV(Entry(mem, pt, v)) && !Special(v) ==>
      v < VPNS && v * 4096 < sz && exists perm: nat :: Flags(Entry(mem, pt, v)) == LeafFlags(perm)
  }

  /** The two copies give the child the same view of memory exactly when every mapped page is
      readable, writable or executable. */
  lemma CopiesAgree(mem: Mem, src: PT, dst: PT, sz: nat)
    requires CopyReady(mem, src, dst) && Mappages(mem, src, sz)
    ensures PickedView(mem, src, true, sz) == PickedView(mem, src, false, sz)
       <==> forall v: nat :: HasV(Entry(mem, src, v)) && !Special(v) ==> IsLeaf(Entry(mem, src, v))
  {
    hide Ok, Entry, Tables, Ppn, Flags, HasV, IsLeaf, LeafFlags, Special;
    var t, l := PickedView(mem, src, true, sz), PickedView(mem, src, false, sz);
    forall v: nat
      ensures HasV(Entry(mem, src, v)) && !Special(v) ==> v in l && (v in t <==> IsLeaf(Entry(mem, src, v)))
      ensures v in l || v in t ==> HasV(Entry(mem, src, v)) && !Special(v)
      ensures v in l && v in t ==> l[v] == t[v]
    {
      var w := Entry(mem, src, v);
      if HasV(w) && !Special(v) {
        assert FrameOk(mem, dst, w);
        var perm: nat :| Flags(w) == LeafFlags(perm);
        LeafFlagsStable(perm);
      }
    }
    if v: nat :| HasV(Entry(mem, src, v)) && !Special(v) && !IsLeaf(Entry(mem, src, v)) {
      assert v in l && v !in t;
    } else {
      assert forall v :: v in t <==> v in l;
    }
  }

  // ---------- Freeing ----------

  /** The frames of the entries in `all` are allocated pages outside the tree, one frame per entry. */
  ghost predicate FreeReady(mem: Mem, pt: PT, all: set<nat>)
    requires Ok(mem, pt)
  {
    && (forall v :: v in all ==> FrameOk(mem, pt, Entry(mem, pt, v)))
    && (forall u, v :: u in all && v in all && Ppn(Entry(mem, pt, u)) == Ppn(Entry(mem, pt, v)) ==> u == v)
  }

  /** The entries in `gone` were cleared and their frames freed; everything else is as it was. */
  ghost predicate Freed(mem0: Mem, pt: PT, mem: Mem, gone: map<nat, nat>)
    requires Ok(mem0, pt)
  {
    && Ok(mem, pt) && mem.Keys == mem0.Keys - gone.Values
    && (forall v: nat :: Entry(mem, pt, v) == if v in gone then 0 else Entry(mem0, pt, v))
    && (forall v :: v in gone ==> gone[v] == Ppn(Entry(mem0, pt, v)))
    && (forall p :: p in mem && p !in Tables(pt) ==> mem[p] == mem0[p])
  }

  lemma FreedNone(mem: Mem, pt: PT)
    requires Ok(mem, pt)
    ensures Freed(mem, pt, mem, map[])
  {
  }

  /** The next frame is still allocated: no frame is ever freed twice. */
  lemma StillThere(mem0: Mem, pt: PT, mem: Mem, gone: map<nat, nat>, all: set<nat>, v: nat)
    requires Ok(mem0, pt) && FreeReady(mem0, pt, all) && Freed(mem0, pt, mem, gone)
    requires gone.Keys <= all && v in all && v !in gone
    ensures var p := Ppn(Entry(mem0, pt, v));
            p in mem && p !in Tables(pt) && p !in gone.Values && Entry(mem, pt, v) == Entry(mem0, pt, v)
  {
    hide Ok, Entry, Tables, Ppn;
    assert FrameOk(mem0, pt, Entry(mem0, pt, v));
    forall u | u in gone ensures gone[u] != Ppn(Entry(mem0, pt, v)) { assert u in all; }
  }

  /** Clearing entry v and freeing its frame, in either order. */
  lemma FreeStep(mem0: Mem, pt: PT, mem: Mem, gone: map<nat, nat>, v: nat, p: nat)
    requires Ok(mem0, pt) && Freed(mem0, pt, mem, gone) && v !in gone && Up(v) in pt.l0 && IsPage(mem, pt.l0[Up(v)])
    requires p == Ppn(Entry(mem0, pt, v)) && p in mem && p !in Tables(pt) && p !in gone.Values
    ensures var table := pt.l0[Up(v)];
            && IsPage(mem - {p}, table)
            && Poke(mem - {p}, table, At(v), 0) == Poke(mem, table, At(v), 0) - {p}
            && Freed(mem0, pt, Poke(mem, table, At(v), 0) - {p}, gone[v := p])
  {
    hide Ok, Entry, Ppn, Up, At;
    var table := pt.l0[Up(v)];
    assert table in Tables(pt);
    hide Tables;
    var mem1 := Poke(mem, table, At(v), 0);
    PokeLeaf(mem, pt, v, 0);
    OkKept(mem1, pt, mem1 - {p}, {p});
    ValuesAdd(gone, v, p);
    hide Grows;
    assert Poke(mem - {p}, table, At(v), 0) == mem1 - {p};
    FreedPoked(mem0, pt, mem, mem1, gone, v, p);
  }

  lemma FreedPoked(mem0: Mem, pt: PT, mem: Mem, mem1: Mem, gone: map<nat, nat>, v: nat, p: nat)
    requires Ok(mem0, pt) && Freed(mem0, pt, mem, gone) && v !in gone
    requires p == Ppn(Entry(mem0, pt, v)) && p in mem && p !in Tables(pt)
    requires gone[v := p].Values == gone.Values + {p}
    requires Ok(mem1, pt) && mem1.Keys == mem.Keys && Kept(mem, mem1, Tables(pt)) && SetsEntry(mem, pt, mem1, pt, v, 0)
    requires Ok(mem1 - {p}, pt) && SameEntries(mem1, pt, mem1 - {p}, pt)
    ensures Freed(mem0, pt, mem1 - {p}, gone[v := p])
  {
    hide Ok, Entry, Ppn, Tables;
  }

  /** The same step when the entry is cleared through the walk. */
  lemma FreeStepUnmap(mem0: Mem, pt: PT, mem: Mem, mem1: Mem, gone: map<nat, nat>, v: nat, p: nat)
    requires Ok(mem0, pt) && Freed(mem0, pt, mem, gone) && v !in gone
    requires p == Ppn(Entry(mem0, pt, v)) && p in mem && p !in Tables(pt) && p !in gone.Values
    requires Grows(mem, pt, mem1, pt) && SetsEntry(mem, pt, mem1, pt, v, 0)
    ensures p in mem1 && Freed(mem0, pt, mem1 - {p}, gone[v := p])
  {
    hide Ok, Entry, Ppn, Tables;
    ValuesAdd(gone, v, p);
    TablesInMem(mem, pt);
    assert mem1.Keys == mem.Keys;
    OkKept(mem1, pt, mem1 - {p}, {p});
    FreedPoked(mem0, pt, mem, mem1, gone, v, p);
  }

  lemma TablesInMem(mem: Mem, pt: PT)
    requires Ok(mem, pt)
    ensures Tables(pt) <= mem.Keys
  {
    hide Ok, Tables;
    forall q | q in Tables(pt) ensures q in mem { TablesArePages(mem, pt, q); }
  }

  lemma PickedEnd(mem: Mem, pt: PT, sz: nat, n: nat)
    requires Ok(mem, pt) && n * 4096 >= sz && n <= VPNS
    ensures Picked(mem, pt, false, sz, n) == Picked(mem, pt, false, sz, VPNS)
  {
    hide Ok, Entry;
    forall v: nat | n <= v ensures !Picks(false, sz, Entry(mem, pt, v), v) {}
  }

  /** A child that started empty and received `got` maps exactly those frames, so freeing what the
      tree walk finds, and then the tables, leaves nothing of the child. */
  lemma CopyThenFree(mem0: Mem, src: PT, dst0: PT, mem: Mem, dst: PT, got: map<nat, nat>, mem': Mem, gone: map<nat, nat>)
    requires CopyReady(mem0, src, dst0) && Empty(mem0, dst0) && Copied(mem0, src, dst0, mem, dst, true, got, {})
    requires got.Keys <= Picked(mem0, src, true, 0, VPNS)
    requires Freed(mem, dst, mem', gone) && gone.Keys == Picked(mem, dst, true, 0, VPNS)
    ensures gone == got && mem' - Tables(dst) == mem0 - Tables(dst0)
  {
    hide Ok, Entry, Tables, Injective, Special, HasV, IsLeaf, Flags, Ppn, FrameOk, CopyOf;
    forall v: nat
      ensures v in got <==> v in gone
      ensures v in got ==> gone[v] == got[v]
    {
      if v in got {
        assert CopyOf(mem0, src, mem, dst, v, got[v], true);
        CopySees(mem0, src, mem, dst, v, got[v], true, 0);
        SameLeaf(Entry(mem, dst, v), Entry(mem0, src, v));
      } else {
        assert Entry(mem, dst, v) == Entry(mem0, dst0, v);
      }
    }
    assert gone == got;
    CopiedRest(mem0, src, dst0, mem, dst, true, got);
    assert mem' - Tables(dst) == mem - got.Values - Tables(dst);
  }

  /** Without the copies and the child's tables, memory is what it was without the child's first tables. */
  lemma CopiedRest(mem0: Mem, src: PT, dst0: PT, mem: Mem, dst: PT, tree: bool, got: map<nat, nat>)
    requires Ok(mem0, src) && Copied(mem0, src, dst0, mem, dst, tree, got, {})
    ensures mem - got.Values - Tables(dst) == mem0 - Tables(dst0)
  {
    hide Ok, Entry, Tables, Injective, CopyOf;
    CopyOfApart(mem0, src, mem, dst, got, tree);
    var a, b := mem - got.Values - Tables(dst), mem0 - Tables(dst0);
    forall p ensures p in a <==> p in b {
      assert p in Tables(dst) - Tables(dst0) ==> p !in mem0;
    }
  }

  lemma CopiedApart(mem0: Mem, src: PT, dst0: PT, mem: Mem, dst: PT, tree: bool, got: map<nat, nat>)
    requires Ok(mem0, src) && Copied(mem0, src, dst0, mem, dst, tree, got, {})
    ensures Injective(got) && Ok(mem, dst) && (0 in mem ==> 0 in mem0)
    ensures forall p :: p in got.Values ==> p !in Tables(dst) && p in mem && p !in mem0
  {
    hide Ok, Entry, Tables, CopyOf;
    CopyOfApart(mem0, src, mem, dst, got, tree);
  }

  lemma SameLeaf(w: Word, w': Word)
    requires Flags(w) == Flags(w')
    ensures IsLeaf(w) == IsLeaf(w') && HasV(w) == HasV(w')
  {
    FlagBits(w);
    FlagBits(w');
    hide IsLeaf, HasV;
  }

  // ---------- A page without R, W, X ----------

  /** A zeroed root is a tree with no entries (pagetable_create). */
  lemma OkEmpty(mem: Mem, root: nat)
    requires root in mem && mem[root] == ZeroPage()
    ensures Ok(mem, PT(root, map[], map[])) && Empty(mem, PT(root, map[], map[]))
  {
    ZeroNotValid();
    hide HasV;
  }

  /** A tree that maps page 0 with the word w and nothing else, beside an empty one. */
  lemma OnePage(w: Word) returns (mem: Mem, src: PT, dst: PT)
    ensures Ok(mem, src) && Ok(mem, dst) && Empty(mem, dst) && Tables(src) !! Tables(dst)
    ensures 4 in mem && 4 !in Tables(dst) && forall v: nat :: Entry(mem, src, v) == if v == 0 then w else 0
    ensures dst == PT(5, map[], map[]) && src == PT(1, map[0 := 2], map[0 := 3]) && mem.Keys == {1, 2, 3, 4, 5} && mem[5] == ZeroPage()
  {
    var m0: Mem := map[1 := ZeroPage(), 4 := ZeroPage(), 5 := ZeroPage()];
    dst := PT(5, map[], map[]);
    OkEmpty(m0, 1);
    hide Ok, Pte, Up, At, Entry;
    var m1, p1 := OneL1(m0);
    var m2, p2 := OneL0(m1, p1);
    assert Up(0) == 0 && At(0) == 0 by { Digits0(); }
    PokeLeaf(m2, p2, 0, w);
    mem, src := Poke(m2, 3, 0, w), p2;
    OkEmpty(mem, 5);
  }

  lemma Digits0()
    ensures Up(0) == 0 && At(0) == 0
  {
  }

  lemma OneL1(m0: Mem) returns (m1: Mem, p1: PT)
    requires m0 == map[1 := ZeroPage(), 4 := ZeroPage(), 5 := ZeroPage()]
    ensures p1 == PT(1, map[0 := 2], map[]) && Ok(m1, p1) && m1.Keys == {1, 2, 4, 5} && m1[5] == ZeroPage()
    ensures forall v: nat :: Entry(m1, p1, v) == 0
  {
    var p0 := PT(1, map[], map[]);
    OkEmpty(m0, 1);
    AddL1(m0, p0, 0, 2);
    m1, p1 := Poke(m0[2 := ZeroPage()], 1, 0, Pte(2, 1)), p0.(l1 := p0.l1[0 := 2]);
    assert forall v: nat :: Entry(m0, p0, v) == 0;
    hide Ok, Entry, Pte;
  }

  lemma OneL0(m1: Mem, p1: PT) returns (m2: Mem, p2: PT)
    requires p1 == PT(1, map[0 := 2], map[]) && Ok(m1, p1) && m1.Keys == {1, 2, 4, 5} && m1[5] == ZeroPage()
    requires forall v: nat :: Entry(m1, p1, v) == 0
    ensures p2 == PT(1, map[0 := 2], map[0 := 3]) && Ok(m2, p2) && m2.Keys == {1, 2, 3, 4, 5} && m2[5] == ZeroPage()
    ensures forall v: nat :: Entry(m2, p2, v) == 0
  {
    hide Ok, Entry, Pte, Up, At;
    Digits0();
    AddL0(m1, p1, 0, 3);
    m2, p2 := Poke(m1[3 := ZeroPage()], 2, 0, Pte(3, 1)), p1.(l0 := p1.l0[0 := 3]);
  }

  /** One user page mapped with no access bits: the linear copy takes it, the tree copy does not. */
  lemma CopiesDiffer() returns (mem: Mem, src: PT, dst: PT)
    ensures CopyReady(mem, src, dst) && Mappages(mem, src, 4096) && Empty(mem, dst)
    ensures 0 in PickedView(mem, src, false, 4096) && 0 !in PickedView(mem, src, true, 4096)
  {
    hide Ok, Pte, Entry, LeafFlags, HasV, IsLeaf, Tables, Flags;
    var w := Pte(4, LeafFlags(16));
    BareWord();
    ZeroNotValid();
    mem, src, dst := OnePage(w);
    assert Flags(w) == LeafFlags(16) && Ppn(w) == 4;
    assert Entry(mem, src, 0) == w;
  }

  lemma BareWord()
    ensures var w := Pte(4, LeafFlags(16)); HasV(w) && !IsLeaf(w)
  {
    assert LeafFlags(16) == 81 && !IsLeaf(81) && HasV(81);
    FlagBits(Pte(4, 81));
  }
}