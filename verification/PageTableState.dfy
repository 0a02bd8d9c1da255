/** Sv39 page tables in physical memory, and the flat map they stand for.

    Memory is a map from page numbers to their 512 words.  A table tree is named by its root and by
    the pages its two lower levels occupy: `l1` by the top nine bits of a virtual page number, `l0`
    by the top eighteen.  `Entry` is the leaf word a virtual page number selects, zero where the
    tree does not reach; the flat map of the tree is its valid entries.
 */
module PageTableState {
  import Bits

  const WORDS: nat := 512
  const VPNS: nat := 134217728            // 2^27
  const VM_PAGES: nat := 67108864         // VM_END in pages
  const PM_PAGES: nat := 0x88000          // PM_END in pages
  const TRAMPOLINE: nat := VM_PAGES - 1
  const TRAPFRAME: nat := VM_PAGES - 2

  type Word = nat
  type Mem = map<nat, seq<Word>>

  datatype PT = PT(root: nat, l1: map<nat, nat>, l0: map<nat, nat>)

  /** The table a number's entry is in, and the entry's place there: nine bits at a time. */
  function Up(v: nat): nat { v / WORDS }

  function At(v: nat): (i: nat)
    ensures i < WORDS
  {
    v % WORDS
  }

  lemma UpAt(u: nat, v: nat)
    ensures Up(u) == Up(v) && At(u) == At(v) ==> u == v
  {
  }

  // ---------- Words ----------

  /** PTE_V, PTE_R, PTE_W, PTE_X, PTE_U, PTE_G, PTE_A, PTE_D */
  predicate HasV(w: Word) { w % 2 == 1 }
  predicate HasR(w: Word) { w / 2 % 2 == 1 }
  predicate HasW(w: Word) { w / 4 % 2 == 1 }
  predicate HasX(w: Word) { w / 8 % 2 == 1 }
  predicate HasU(w: Word) { w / 16 % 2 == 1 }
  predicate HasG(w: Word) { w / 32 % 2 == 1 }
  predicate HasA(w: Word) { w / 64 % 2 == 1 }
  predicate HasD(w: Word) { w / 128 % 2 == 1 }

  function Ppn(w: Word): nat { w / 1024 }
  function Flags(w: Word): (f: nat)
    ensures f < 1024
  {
    w % 1024
  }
  function Pte(ppn: nat, flags: nat): (w: Word)
    requires flags < 1024
    ensures Ppn(w) == ppn && Flags(w) == flags
  {
    ppn * 1024 + flags
  }

  /** Any of R, W, X: section 4.4 of the privileged specification tells leaves by these. */
  predicate IsLeaf(w: Word) { HasR(w) || HasW(w) || HasX(w) }

  /** The permission bits of a word are those of its flags. */
  lemma FlagBits(w: Word)
    ensures HasV(w) == HasV(Flags(w)) && HasU(w) == HasU(Flags(w)) && IsLeaf(w) == IsLeaf(Flags(w))
  {
    FlagBit(w / 1024, w % 1024);
  }

  lemma FlagBit(q: nat, f: nat)
    ensures var w := q * 1024 + f;
            HasV(w) == HasV(f) && HasR(w) == HasR(f) && HasW(w) == HasW(f) && HasX(w) == HasX(f) && HasU(w) == HasU(f)
  {
    Parity(512 * q, f);
    Shift(q, f);
    Parity(256 * q, f / 2);
    Parity(128 * q, f / 4);
    Parity(64 * q, f / 8);
    Parity(32 * q, f / 16);
  }

  lemma Parity(k: nat, m: nat)
    ensures (2 * k + m) % 2 == m % 2
  {
  }

  lemma Shift(q: nat, f: nat)
    ensures (q * 1024 + f) / 2 == 2 * (256 * q) + f / 2 && (q * 1024 + f) / 4 == 2 * (128 * q) + f / 4
    ensures (q * 1024 + f) / 8 == 2 * (64 * q) + f / 8 && (q * 1024 + f) / 16 == 2 * (32 * q) + f / 16
  {
  }

  /** The flags mappages stores for a requested permission: V and A always, D with W. */
  function LeafFlags(perm: nat): (f: nat)
    ensures f < 256
  {
    var p := perm % 256;
    var v := if HasV(p) then p else p + 1;
    var a := if HasA(v) then v else v + 64;
    if HasW(a) && !HasD(a) then a + 128 else a
  }

  type Bin = b: nat | b < 2

  /** The low eight flags as a number. */
  function Low(v: Bin, r: Bin, w: Bin, x: Bin, u: Bin, g: Bin, a: Bin, d: Bin): (n: nat)
    ensures n < 256
  {
    v + 2 * r + 4 * w + 8 * x + 16 * u + 32 * g + 64 * a + 128 * d
  }

  lemma Peel(n: nat, b: Bin, m: nat)
    requires n == 2 * m + b
    ensures n % 2 == b && n / 2 == m
  {
  }

  lemma Halvings(n: nat)
    ensures n / 4 == n / 2 / 2 && n / 8 == n / 4 / 2 && n / 16 == n / 8 / 2 && n / 32 == n / 16 / 2
    ensures n / 64 == n / 32 / 2 && n / 128 == n / 64 / 2 && n / 256 == n / 128 / 2
  {
    Halving(n, 2);
    Halving(n, 4);
    Halving(n, 8);
    Halving(n, 16);
    Halving(n, 32);
    Halving(n, 64);
    Halving(n, 128);
  }

  lemma Halving(n: nat, k: nat)
    requires k > 0
    ensures n / (2 * k) == n / k / 2
  {
    Bits.QuotientHalf(n, k);
  }

  lemma LowFlags(q: nat, v: Bin, r: Bin, w: Bin, x: Bin, u: Bin, g: Bin, a: Bin, d: Bin)
    ensures var n := 256 * q + Low(v, r, w, x, u, g, a, d);
            && (HasV(n) <==> v == 1) && (HasR(n) <==> r == 1) && (HasW(n) <==> w == 1) && (HasX(n) <==> x == 1)
            && (HasU(n) <==> u == 1) && (HasG(n) <==> g == 1) && (HasA(n) <==> a == 1) && (HasD(n) <==> d == 1)
  {
    var n := 256 * q + Low(v, r, w, x, u, g, a, d);
    var n7 := 2 * q + d;
    var n6 := 2 * n7 + a;
    var n5 := 2 * n6 + g;
    var n4 := 2 * n5 + u;
    var n3 := 2 * n4 + x;
    var n2 := 2 * n3 + w;
    var n1 := 2 * n2 + r;
    assert n == 2 * n1 + v;
    hide Low;
    Halvings(n);
    Peel(n, v, n1);
    Peel(n1, r, n2);
    Peel(n2, w, n3);
    Peel(n3, x, n4);
    Peel(n4, u, n5);
    Peel(n5, g, n6);
    Peel(n6, a, n7);
    Peel(n7, d, q);
  }

  /** What mappages stores, bit by bit, whatever stands above the eight flags. */
  lemma LeafFlagsAre(q: nat, v: Bin, r: Bin, w: Bin, x: Bin, u: Bin, g: Bin, a: Bin, d: Bin)
    ensures LeafFlags(256 * q + Low(v, r, w, x, u, g, a, d)) == Low(1, r, w, x, u, g, 1, if w == 1 then 1 else d)
  {
    hide HasV, HasR, HasW, HasX, HasU, HasG, HasA, HasD, Low;
    var p := Low(v, r, w, x, u, g, a, d);
    Bits.DivUnique(256 * q + p, 256, q, p);
    LowFlags(0, v, r, w, x, u, g, a, d);
    LowFlags(0, 1, r, w, x, u, g, a, d);
    LowFlags(0, 1, r, w, x, u, g, 1, d);
    LowSet(v, r, w, x, u, g, a, d);
    LowSet(1, r, w, x, u, g, a, d);
    LowSet(1, r, w, x, u, g, 1, d);
  }

  lemma LowSet(v: Bin, r: Bin, w: Bin, x: Bin, u: Bin, g: Bin, a: Bin, d: Bin)
    ensures Low(1, r, w, x, u, g, a, d) == Low(v, r, w, x, u, g, a, d) + if v == 1 then 0 else 1
    ensures Low(v, r, w, x, u, g, 1, d) == Low(v, r, w, x, u, g, a, d) + if a == 1 then 0 else 64
    ensures Low(v, r, w, x, u, g, a, 1) == Low(v, r, w, x, u, g, a, d) + if d == 1 then 0 else 128
  {
  }

  /** The word grants what was asked for: R, W, X, U and G as in perm; it is valid and accessed, and dirty if
      that was asked for or if it is writable. */
  ghost predicate Grants(w: Word, perm: nat) {
    && HasV(w) && HasA(w) && (HasD(w) <==> HasD(perm) || HasW(perm))
    && (HasR(w) <==> HasR(perm)) && (HasW(w) <==> HasW(perm)) && (HasX(w) <==> HasX(perm))
    && (HasU(w) <==> HasU(perm)) && (HasG(w) <==> HasG(perm))
  }

  /** So is every leaf that mappages stores, of whatever frame. */
  lemma LeafGrants(ppn: nat, perm: nat)
    ensures Grants(Pte(ppn, LeafFlags(perm)), perm)
  {
    hide HasV, HasR, HasW, HasX, HasU, HasG, HasA, HasD, LeafFlags, Low;
    var q, v, r, w, x, u, g, a, d := Binary(perm);
    var d' := if w == 1 then 1 else d;
    LeafFlagsAre(q, v, r, w, x, u, g, a, d);
    LowFlags(q, v, r, w, x, u, g, a, d);
    LowFlags(4 * ppn, 1, r, w, x, u, g, 1, d');
  }

  /** Every number has eight low bits. */
  lemma Binary(n: nat) returns (q: nat, v: Bin, r: Bin, w: Bin, x: Bin, u: Bin, g: Bin, a: Bin, d: Bin)
    ensures n == 256 * q + Low(v, r, w, x, u, g, a, d)
  {
    var n1, n2, n3, n4, n5, n6, n7;
    v, n1 := Last(n);
    r, n2 := Last(n1);
    w, n3 := Last(n2);
    x, n4 := Last(n3);
    u, n5 := Last(n4);
    g, n6 := Last(n5);
    a, n7 := Last(n6);
    d, q := Last(n7);
  }

  lemma Last(n: nat) returns (b: Bin, m: nat)
    ensures n == 2 * m + b
  {
    b, m := n % 2, n / 2;
  }

  /** The stored flags are valid, and a leaf's or a user's exactly when the requested ones are. */
  lemma LeafFlagsBits(perm: nat)
    ensures HasV(LeafFlags(perm)) && (IsLeaf(LeafFlags(perm)) <==> IsLeaf(perm)) && (HasU(LeafFlags(perm)) <==> HasU(perm))
  {
    LeafGrants(0, perm);
    assert Pte(0, LeafFlags(perm)) == LeafFlags(perm);
    hide HasV, HasR, HasW, HasX, HasU, HasG, HasA, HasD;
  }

  /** Flags that mappages stored are stored again unchanged. */
  lemma LeafFlagsStable(perm: nat)
    ensures LeafFlags(LeafFlags(perm)) == LeafFlags(perm)
  {
    hide HasV, HasR, HasW, HasX, HasU, HasG, HasA, HasD, LeafFlags, Low;
    var q, v, r, w, x, u, g, a, d := Binary(perm);
    LeafFlagsAre(q, v, r, w, x, u, g, a, d);
    LeafFlagsAre(0, 1, r, w, x, u, g, 1, if w == 1 then 1 else d);
  }

  // ---------- Trees ----------

  ghost predicate IsPage(mem: Mem, p: nat) { p in mem && |mem[p]| == WORDS }

  ghost function Tables(pt: PT): set<nat> { {pt.root} + pt.l1.Values + pt.l0.Values }

  ghost predicate Injective(m: map<nat, nat>) { forall a, b :: a in m && b in m && m[a] == m[b] ==> a == b }

  ghost predicate Distinct(pt: PT) {
    && Injective(pt.l1) && Injective(pt.l0)
    && (forall i :: i in pt.l1 ==> pt.l1[i] != pt.root)
    && (forall k :: k in pt.l0 ==> pt.l0[k] != pt.root)
    && (forall i, k :: i in pt.l1 && k in pt.l0 ==> pt.l1[i] != pt.l0[k])
  }

  /** A directory word: a plain pointer to the next table, or not valid. */
  ghost predicate Points(w: Word, there: bool, p: nat) {
    if there then w == Pte(p, 1) else !HasV(w)
  }

  ghost predicate RootOk(mem: Mem, pt: PT, i: nat)
    requires IsPage(mem, pt.root) && i < WORDS
  {
    Points(mem[pt.root][i], i in pt.l1, if i in pt.l1 then pt.l1[i] else 0)
  }

  ghost predicate MidOk(mem: Mem, pt: PT, k: nat)
    requires Up(k) in pt.l1 && IsPage(mem, pt.l1[Up(k)])
  {
    Points(mem[pt.l1[Up(k)]][At(k)], k in pt.l0, if k in pt.l0 then pt.l0[k] else 0)
  }

  ghost predicate TreePages(mem: Mem, pt: PT) {
    && Distinct(pt) && IsPage(mem, pt.root)
    && (forall i :: i in pt.l1 ==> i < WORDS && IsPage(mem, pt.l1[i]))
    && (forall k :: k in pt.l0 ==> Up(k) in pt.l1 && IsPage(mem, pt.l0[k]))
  }

  ghost predicate AllRoot(mem: Mem, pt: PT)
    requires TreePages(mem, pt)
  {
    forall i: nat :: i < WORDS ==> RootOk(mem, pt, i)
  }

  ghost predicate AllMid(mem: Mem, pt: PT)
    requires TreePages(mem, pt)
  {
    forall k: nat :: Up(k) in pt.l1 ==> MidOk(mem, pt, k)
  }

  ghost predicate Ok(mem: Mem, pt: PT) { TreePages(mem, pt) && AllRoot(mem, pt) && AllMid(mem, pt) }

  ghost function Entry(mem: Mem, pt: PT, v: nat): Word
    requires Ok(mem, pt)
  {
    if Up(v) in pt.l0 then mem[pt.l0[Up(v)]][At(v)] else 0
  }

  lemma TablesArePages(mem: Mem, pt: PT, p: nat)
    requires Ok(mem, pt) && p in Tables(pt)
    ensures IsPage(mem, p)
  {
  }

  // ---------- Writing a leaf word ----------

  /** mem with word `idx` of page p replaced. */
  function Poke(mem: Mem, p: nat, idx: nat, w: Word): Mem
    requires p in mem && idx < |mem[p]|
  {
    var words: seq<Word> := mem[p][idx := w];
    mem[p := words]
  }

  /** Entry v is now w; every other entry is as before. */
  ghost predicate SetsEntry(mem: Mem, pt: PT, mem': Mem, pt': PT, v: nat, w: Word)
    requires Ok(mem, pt) && Ok(mem', pt')
  {
    forall u: nat :: Entry(mem', pt', u) == if u == v then w else Entry(mem, pt, u)
  }

  /** A leaf write changes the entry it is meant for and no other: page numbers never share a PTE. */
  lemma PokeLeaf(mem: Mem, pt: PT, v: nat, w: Word)
    requires Ok(mem, pt) && Up(v) in pt.l0
    ensures IsPage(mem, pt.l0[Up(v)])
    ensures var mem' := Poke(mem, pt.l0[Up(v)], At(v), w);
            Ok(mem', pt) && Grows(mem, pt, mem', pt) && SetsEntry(mem, pt, mem', pt, v, w)
  {
    hide Up, At;
    var p := pt.l0[Up(v)];
    var mem' := Poke(mem, p, At(v), w);
    forall i: nat | i < WORDS ensures RootOk(mem', pt, i) { assert RootOk(mem, pt, i); }
    forall k: nat | Up(k) in pt.l1 ensures MidOk(mem', pt, k) { assert MidOk(mem, pt, k); }
    assert p in Tables(pt);
    forall q | q in Tables(pt) ensures q in mem { TablesArePages(mem, pt, q); }
    forall u: nat ensures Ok(mem', pt) && Entry(mem', pt, u) == if u == v then w else Entry(mem, pt, u) {
      UpAt(u, v);
    }
  }

  // ---------- Growing the tree ----------

  function ZeroPage(): (z: seq<Word>)
    ensures |z| == WORDS && forall i :: 0 <= i < WORDS ==> z[i] == 0
  {
    seq(WORDS, _ => 0)
  }

  /** Pages outside `s` are still there with the same contents. */
  ghost predicate Kept(mem: Mem, mem': Mem, s: set<nat>) {
    forall p :: p in mem && p !in s ==> p in mem' && mem'[p] == mem[p]
  }

  /** pt' is pt with, possibly, more tables, all of them new pages; pages outside the tree are kept. */
  ghost predicate Grows(mem: Mem, pt: PT, mem': Mem, pt': PT) {
    && Ok(mem, pt) && Ok(mem', pt') && pt'.root == pt.root
    && (forall i :: i in pt.l1 ==> i in pt'.l1 && pt'.l1[i] == pt.l1[i])
    && (forall k :: k in pt.l0 ==> k in pt'.l0 && pt'.l0[k] == pt.l0[k])
    && Kept(mem, mem', Tables(pt))
    && mem'.Keys == mem.Keys + Tables(pt') && (Tables(pt') - Tables(pt)) !! mem.Keys
    && (0 in mem' ==> 0 in mem)
  }

  ghost predicate SameEntries(mem: Mem, pt: PT, mem': Mem, pt': PT)
    requires Ok(mem, pt) && Ok(mem', pt')
  {
    forall v: nat :: Entry(mem', pt', v) == Entry(mem, pt, v)
  }

  ghost predicate Extends(mem: Mem, pt: PT, mem': Mem, pt': PT) {
    Grows(mem, pt, mem', pt') && SameEntries(mem, pt, mem', pt')
  }

  lemma ExtendsRefl(mem: Mem, pt: PT)
    requires Ok(mem, pt)
    ensures Extends(mem, pt, mem, pt)
  {
    forall p | p in Tables(pt) ensures p in mem { TablesArePages(mem, pt, p); }
  }

  lemma GrowsTrans(m1: Mem, p1: PT, m2: Mem, p2: PT, m3: Mem, p3: PT)
    requires Grows(m1, p1, m2, p2) && Grows(m2, p2, m3, p3)
    ensures Grows(m1, p1, m3, p3)
  {
    TablesGrow(m1, p1, m2, p2);
    TablesGrow(m2, p2, m3, p3);
    forall p | p in m1 && p !in Tables(p1) ensures p in m3 && m3[p] == m1[p] {
      assert p !in Tables(p2) - Tables(p1);
    }
  }

  lemma ExtendsTrans(m1: Mem, p1: PT, m2: Mem, p2: PT, m3: Mem, p3: PT)
    requires Extends(m1, p1, m2, p2) && Extends(m2, p2, m3, p3)
    ensures Extends(m1, p1, m3, p3)
  {
    GrowsTrans(m1, p1, m2, p2, m3, p3);
    hide Ok, Entry;
  }

  lemma TablesGrow(mem: Mem, pt: PT, mem': Mem, pt': PT)
    requires Grows(mem, pt, mem', pt')
    ensures Tables(pt) <= Tables(pt')
  {
    forall p | p in Tables(pt) ensures p in Tables(pt') {
      if p in pt.l1.Values {
        var i :| i in pt.l1 && pt.l1[i] == p;
        assert pt'.l1[i] == p;
      } else if p in pt.l0.Values {
        var k :| k in pt.l0 && pt.l0[k] == p;
        assert pt'.l0[k] == p;
      }
    }
  }

  lemma ValuesAdd(m: map<nat, nat>, k: nat, p: nat)
    requires k !in m
    ensures m[k := p].Values == m.Values + {p}
  {
    forall q ensures q in m[k := p].Values <==> q in m.Values || q == p {
      if q in m.Values {
        var j :| j in m && m[j] == q;
        assert m[k := p][j] == q;
      }
      assert m[k := p][k] == p;
    }
  }

  /** A page that is nowhere in memory is none of the tables. */
  lemma FreshTable(mem: Mem, pt: PT, p: nat)
    requires Ok(mem, pt) && p !in mem
    ensures p != pt.root && (forall i :: i in pt.l1 ==> pt.l1[i] != p) && (forall k :: k in pt.l0 ==> pt.l0[k] != p)
    ensures forall q :: q in Tables(pt) ==> q in mem
  {
    forall q | q in Tables(pt) ensures q in mem { TablesArePages(mem, pt, q); }
  }

  /** Hang a new, zeroed level-1 table under the root. */
  lemma AddL1(mem: Mem, pt: PT, i: nat, p: nat)
    requires Ok(mem, pt) && i < WORDS && i !in pt.l1 && p !in mem && p != 0
    ensures var mem' := Poke(mem[p := ZeroPage()], pt.root, i, Pte(p, 1));
            Extends(mem, pt, mem', pt.(l1 := pt.l1[i := p]))
  {
    var mem' := Poke(mem[p := ZeroPage()], pt.root, i, Pte(p, 1));
    var pt' := pt.(l1 := pt.l1[i := p]);
    FreshTable(mem, pt, p);
    AddL1Ok(mem, pt, i, p);
    hide Ok;
    ValuesAdd(pt.l1, i, p);
    assert Tables(pt') == Tables(pt) + {p};
  }

  lemma AddL1Ok(mem: Mem, pt: PT, i: nat, p: nat)
    requires Ok(mem, pt) && i < WORDS && i !in pt.l1 && p !in mem
    ensures var mem' := Poke(mem[p := ZeroPage()], pt.root, i, Pte(p, 1));
            var pt' := pt.(l1 := pt.l1[i := p]);
            Ok(mem', pt') && forall v: nat :: Entry(mem', pt', v) == Entry(mem, pt, v)
  {
    hide Pte, HasV, Up, At;
    var mem' := Poke(mem[p := ZeroPage()], pt.root, i, Pte(p, 1));
    var pt' := pt.(l1 := pt.l1[i := p]);
    FreshTable(mem, pt, p);
    AddL1Pages(mem, pt, i, p);
    ZeroNotValid();
    hide Distinct;
    forall j: nat | j < WORDS ensures RootOk(mem', pt', j) { assert RootOk(mem, pt, j); }
    forall k: nat | Up(k) in pt'.l1 ensures MidOk(mem', pt', k) {
      if Up(k) in pt.l1 { assert MidOk(mem, pt, k); }
    }
  }

  lemma AddL1Pages(mem: Mem, pt: PT, i: nat, p: nat)
    requires Ok(mem, pt) && i < WORDS && i !in pt.l1 && p !in mem
    ensures var mem' := Poke(mem[p := ZeroPage()], pt.root, i, Pte(p, 1));
            TreePages(mem', pt.(l1 := pt.l1[i := p]))
            && forall j :: j in pt.l1 ==> pt.l1[j] != pt.root && mem'[pt.l1[j]] == mem[pt.l1[j]]
  {
    hide Pte, HasV, Up, At;
    FreshTable(mem, pt, p);
    DistinctAdd(pt, i, p);
    assert forall j :: j in pt.l1 ==> pt.l1[j] != pt.root;
    hide AllRoot, AllMid, Distinct;
  }

  lemma DistinctAdd(pt: PT, i: nat, p: nat)
    requires Distinct(pt) && p != pt.root
    requires (forall j :: j in pt.l1 ==> pt.l1[j] != p) && (forall k :: k in pt.l0 ==> pt.l0[k] != p)
    ensures Distinct(pt.(l1 := pt.l1[i := p])) && Distinct(pt.(l0 := pt.l0[i := p]))
  {
  }

  lemma ZeroNotValid()
    ensures !HasV(0)
  {
  }

  /** Hang a new, zeroed leaf table under its level-1 table. */
  lemma AddL0(mem: Mem, pt: PT, k: nat, p: nat)
    requires Ok(mem, pt) && Up(k) in pt.l1 && k !in pt.l0 && p !in mem && p != 0
    ensures IsPage(mem, pt.l1[Up(k)])
    ensures var mem' := Poke(mem[p := ZeroPage()], pt.l1[Up(k)], At(k), Pte(p, 1));
            Extends(mem, pt, mem', pt.(l0 := pt.l0[k := p]))
  {
    hide Ok, Pte, Up, At, Entry;
    AddL0Ok(mem, pt, k, p);
    AddL0Entries(mem, pt, k, p);
    var t := pt.l1[Up(k)];
    var pt' := pt.(l0 := pt.l0[k := p]);
    FreshTable(mem, pt, p);
    ValuesAdd(pt.l0, k, p);
    assert Tables(pt') == Tables(pt) + {p};
    assert t in pt.l1.Values;
  }

  lemma AddL0Ok(mem: Mem, pt: PT, k: nat, p: nat)
    requires Ok(mem, pt) && Up(k) in pt.l1 && k !in pt.l0 && p !in mem
    ensures IsPage(mem, pt.l1[Up(k)])
    ensures var mem' := Poke(mem[p := ZeroPage()], pt.l1[Up(k)], At(k), Pte(p, 1));
            Ok(mem', pt.(l0 := pt.l0[k := p]))
  {
    hide Pte, HasV, Up, At;
    var t := pt.l1[Up(k)];
    var mem' := Poke(mem[p := ZeroPage()], t, At(k), Pte(p, 1));
    var pt' := pt.(l0 := pt.l0[k := p]);
    AddL0Pages(mem, pt, k, p);
    forall j: nat | j < WORDS ensures RootOk(mem', pt', j) { assert RootOk(mem, pt, j); }
    forall n: nat | Up(n) in pt'.l1 ensures MidOk(mem', pt', n) {
      assert MidOk(mem, pt, n);
      UpAt(n, k);
    }
  }

  lemma AddL0Pages(mem: Mem, pt: PT, k: nat, p: nat)
    requires Ok(mem, pt) && Up(k) in pt.l1 && k !in pt.l0 && p !in mem
    ensures IsPage(mem, pt.l1[Up(k)])
    ensures var mem' := Poke(mem[p := ZeroPage()], pt.l1[Up(k)], At(k), Pte(p, 1));
            TreePages(mem', pt.(l0 := pt.l0[k := p]))
  {
    hide Pte, HasV, Up, At;
    FreshTable(mem, pt, p);
    DistinctAdd(pt, k, p);
    hide AllRoot, AllMid, Distinct;
  }

  lemma AddL0Entries(mem: Mem, pt: PT, k: nat, p: nat)
    requires Ok(mem, pt) && Up(k) in pt.l1 && k !in pt.l0 && p !in mem && IsPage(mem, pt.l1[Up(k)])
    requires Ok(Poke(mem[p := ZeroPage()], pt.l1[Up(k)], At(k), Pte(p, 1)), pt.(l0 := pt.l0[k := p]))
    ensures var mem' := Poke(mem[p := ZeroPage()], pt.l1[Up(k)], At(k), Pte(p, 1));
            forall v: nat :: Entry(mem', pt.(l0 := pt.l0[k := p]), v) == Entry(mem, pt, v)
  {
    hide Pte, Up, At;
    FreshTable(mem, pt, p);
  }

  // ---------- What the hardware sees ----------

  /** The word that the walk of section 4.3.2 of the RISC-V privileged specification ends at, for Sv39:
      three tables, each indexed by nine bits of the page number, the highest first.  A word that is not
      valid ends it, and here also one with R, W or X above the last level, which would map a large page. */
  ghost function Hardware(mem: Mem, root: nat, v: nat): Word {
    if !IsPage(mem, root) then 0
    else
      var w2 := mem[root][v / 262144 % 512];
      if w2 % 2 == 0 || w2 / 2 % 8 != 0 || !IsPage(mem, w2 / 1024) then 0
      else
        var w1 := mem[w2 / 1024][v / 512 % 512];
        if w1 % 2 == 0 || w1 / 2 % 8 != 0 || !IsPage(mem, w1 / 1024) then 0 else mem[w1 / 1024][v % 512]
  }

  /** The entries of a tree are what the hardware finds. */
  lemma HardwareSees(mem: Mem, pt: PT, v: nat)
    requires Ok(mem, pt) && v < VPNS
    ensures Hardware(mem, pt.root, v) == Entry(mem, pt, v)
  {
    var k, i := v / 512, v / 262144;
    assert i == k / 512 && i < 512;
    assert Up(v) == k && Up(k) == i && At(v) == v % 512 && At(k) == k % 512;
    assert RootOk(mem, pt, i);
    if i in pt.l1 {
      DirectoryIs(mem[pt.root][i], pt.l1[i]);
      MidSeen(mem, pt, k);
    }
  }

  lemma MidSeen(mem: Mem, pt: PT, k: nat)
    requires Ok(mem, pt) && Up(k) in pt.l1
    ensures IsPage(mem, pt.l1[Up(k)])
    ensures var w := mem[pt.l1[Up(k)]][At(k)];
            if k in pt.l0 then w % 2 == 1 && w / 2 % 8 == 0 && w / 1024 == pt.l0[k] && IsPage(mem, pt.l0[k]) else w % 2 == 0
  {
    assert MidOk(mem, pt, k);
    if k in pt.l0 { DirectoryIs(mem[pt.l1[Up(k)]][At(k)], pt.l0[k]); }
  }

  lemma DirectoryIs(w: Word, p: nat)
    requires w == Pte(p, 1)
    ensures w % 2 == 1 && w / 2 % 8 == 0 && w / 1024 == p
  {
    assert w / 2 == 8 * (64 * p);
  }
}
