/** Depth-first traversals of a page-table tree.

    A node is a table together with its level and the first virtual page number it translates; its
    children cover consecutive stretches of `Span(level)` page numbers.  The traversals therefore
    visit leaf entries in increasing order of page number.
 */
module PageTree {
  import opened PageTableState

  /** How many page numbers one entry of a level-`level` table covers. */
  function Span(level: nat): nat
    requires level <= 3
  {
    if level == 0 then 1 else if level == 1 then 512 else if level == 2 then 262144 else VPNS
  }

  ghost predicate Node(pt: PT, level: nat, base: nat, table: nat) {
    match level
    case 0 => base % 512 == 0 && Up(base) in pt.l0 && table == pt.l0[Up(base)]
    case 1 => base % 262144 == 0 && Up(Up(base)) in pt.l1 && table == pt.l1[Up(Up(base))]
    case _ => level == 2 && base == 0 && table == pt.root
  }

  /** No leaf entry is valid from lo up to hi. */
  ghost predicate Barren(mem: Mem, pt: PT, lo: nat, hi: nat)
    requires Ok(mem, pt)
  {
    forall v: nat :: lo <= v < hi ==> Entry(mem, pt, v) == 0
  }

  /** The words of a leaf table are the entries it covers. */
  lemma LeafWord(mem: Mem, pt: PT, base: nat, table: nat, i: nat)
    requires Ok(mem, pt) && Node(pt, 0, base, table) && i < WORDS
    ensures IsPage(mem, table) && mem[table][i] == Entry(mem, pt, base + i)
    ensures Up(base + i) == Up(base) && At(base + i) == i
  {
    DigitsOfSum(base, i);
  }

  lemma DigitsOfSum(base: nat, i: nat)
    requires base % 512 == 0 && i < WORDS
    ensures Up(base + i) == Up(base) && At(base + i) == i
  {
  }

  /** A directory word is never a leaf: it points to the child there, or the child's stretch is empty. */
  lemma ChildOf(mem: Mem, pt: PT, level: nat, base: nat, table: nat, i: nat)
    requires Ok(mem, pt) && 1 <= level <= 2 && Node(pt, level, base, table) && i < WORDS
    ensures IsPage(mem, table)
    ensures var w, c := mem[table][i], base + i * Span(level);
            if HasV(w) then !IsLeaf(w) && Node(pt, level - 1, c, Ppn(w)) else Barren(mem, pt, c, c + Span(level))
  {
    if level == 2 { ChildOfRoot(mem, pt, i); } else { ChildOfMid(mem, pt, base, i); }
  }

  lemma ChildOfRoot(mem: Mem, pt: PT, i: nat)
    requires Ok(mem, pt) && i < WORDS
    ensures var w, c := mem[pt.root][i], i * 262144;
            && c % 262144 == 0 && Up(Up(c)) == i
            && if HasV(w) then i in pt.l1 && !IsLeaf(w) && Ppn(w) == pt.l1[i]
               else i !in pt.l1 && Barren(mem, pt, c, c + 262144)
  {
    assert RootOk(mem, pt, i);
    RootDigits(i);
    hide Up, HasV, IsLeaf, Ppn, Pte, AllRoot, AllMid, RootOk, At;
    if i in pt.l1 {
      PointerWord(pt.l1[i]);
      assert mem[pt.root][i] == Pte(pt.l1[i], 1) by { assert RootOk(mem, pt, i); RootWord(mem, pt, i); }
    } else {
      assert !HasV(mem[pt.root][i]) by { RootWord(mem, pt, i); }
    }
  }

  lemma RootWord(mem: Mem, pt: PT, i: nat)
    requires Ok(mem, pt) && i < WORDS
    ensures if i in pt.l1 then mem[pt.root][i] == Pte(pt.l1[i], 1) else !HasV(mem[pt.root][i])
  {
    assert RootOk(mem, pt, i);
  }

  lemma MidWord(mem: Mem, pt: PT, k: nat)
    requires Ok(mem, pt) && Up(k) in pt.l1
    ensures IsPage(mem, pt.l1[Up(k)])
    ensures var w := mem[pt.l1[Up(k)]][At(k)];
            if k in pt.l0 then w == Pte(pt.l0[k], 1) else !HasV(w)
  {
    assert MidOk(mem, pt, k);
  }

  lemma RootDigits(i: nat)
    ensures Up(Up(i * 262144)) == i && i * 262144 % 262144 == 0
    ensures forall v: nat :: i * 262144 <= v < i * 262144 + 262144 ==> Up(Up(v)) == i
  {
  }

  lemma ChildOfMid(mem: Mem, pt: PT, base: nat, i: nat)
    requires Ok(mem, pt) && base % 262144 == 0 && Up(Up(base)) in pt.l1 && i < WORDS
    ensures IsPage(mem, pt.l1[Up(Up(base))])
    ensures var w, c := mem[pt.l1[Up(Up(base))]][i], base + i * 512;
            && c % 512 == 0
            && if HasV(w) then Up(c) in pt.l0 && !IsLeaf(w) && Ppn(w) == pt.l0[Up(c)]
               else Up(c) !in pt.l0 && Barren(mem, pt, c, c + 512)
  {
    var c := base + i * 512;
    MidDigits(base, i);
    hide HasV, IsLeaf, Ppn, Pte, Up, At, AllRoot, AllMid, Distinct;
    MidWord(mem, pt, Up(c));
    if Up(c) in pt.l0 { PointerWord(pt.l0[Up(c)]); }
  }

  lemma MidDigits(base: nat, i: nat)
    requires base % 262144 == 0 && i < WORDS
    ensures var c := base + i * 512;
            && c % 512 == 0 && Up(Up(c)) == Up(Up(base)) && At(Up(c)) == i
            && forall v: nat :: c <= v < c + 512 ==> Up(v) == Up(c)
  {
    var n := base / 262144;
    assert base == 512 * (512 * n);
    assert base + i * 512 == 512 * (512 * n + i);
  }

  lemma PointerWord(p: nat)
    ensures HasV(Pte(p, 1)) && !IsLeaf(Pte(p, 1)) && Ppn(Pte(p, 1)) == p
  {
    FlagBits(Pte(p, 1));
    assert !IsLeaf(1);
  }

  // ---------- The tables below a node ----------

  /** Leaf tables, and level-1 tables, whose first page number is in [lo, hi). */
  ghost function L0In(pt: PT, lo: nat, hi: nat): set<nat> { set k | k in pt.l0 && lo <= k * 512 < hi :: pt.l0[k] }

  ghost function L1In(pt: PT, lo: nat, hi: nat): set<nat> { set i | i in pt.l1 && lo <= i * 262144 < hi :: pt.l1[i] }

  ghost function Below(pt: PT, level: nat, lo: nat, hi: nat): set<nat> {
    if level == 0 then {} else if level == 1 then L0In(pt, lo, hi) else L0In(pt, lo, hi) + L1In(pt, lo, hi)
  }

  /** A node's subtree, root included. */
  ghost function Under(pt: PT, level: nat, base: nat, table: nat): set<nat>
    requires level <= 2
  {
    {table} + Below(pt, level, base, base + Span(level + 1))
  }

  /** One more child done: exactly its subtree is added, and none of it was there before. */
  lemma BelowStep(mem: Mem, pt: PT, level: nat, base: nat, table: nat, i: nat)
    requires Ok(mem, pt) && 1 <= level <= 2 && Node(pt, level, base, table) && i < WORDS && IsPage(mem, table)
    ensures var w, c := mem[table][i], base + i * Span(level);
            var child := if HasV(w) then Under(pt, level - 1, c, Ppn(w)) else {};
            && Below(pt, level, base, c + Span(level)) == Below(pt, level, base, c) + child
            && Below(pt, level, base, c) !! child && table !in child
  {
    hide Ok, HasV, Ppn, Below;
    if level == 2 { BelowRoot(mem, pt, i); } else { BelowMid(mem, pt, base, i); }
  }

  lemma BelowRoot(mem: Mem, pt: PT, i: nat)
    requires Ok(mem, pt) && i < WORDS
    ensures var w, c := mem[pt.root][i], i * 262144;
            var child := if HasV(w) then Under(pt, 1, c, Ppn(w)) else {};
            && Below(pt, 2, 0, c + 262144) == Below(pt, 2, 0, c) + child
            && Below(pt, 2, 0, c) !! child && pt.root !in child
  {
    assert Distinct(pt);
    ChildOfRoot(mem, pt, i);
    if HasV(mem[pt.root][i]) { RootChildren(pt, i); } else { RootNoChild(mem, pt, i); }
  }

  lemma BelowMid(mem: Mem, pt: PT, base: nat, i: nat)
    requires Ok(mem, pt) && base % 262144 == 0 && Up(Up(base)) in pt.l1 && i < WORDS
    ensures IsPage(mem, pt.l1[Up(Up(base))])
    ensures var table := pt.l1[Up(Up(base))];
            var w, c := mem[table][i], base + i * 512;
            var child := if HasV(w) then Under(pt, 0, c, Ppn(w)) else {};
            && Below(pt, 1, base, c + 512) == Below(pt, 1, base, c) + child
            && Below(pt, 1, base, c) !! child && table !in child
  {
    assert Distinct(pt);
    ChildOfMid(mem, pt, base, i);
    MidChildren(pt, base, i);
    hide Ok, HasV, Ppn, L0In, Up, Distinct;
  }

  lemma BelowNone(pt: PT, level: nat, base: nat)
    ensures Below(pt, level, base, base) == {} && Below(pt, 0, base, base + 512) == {}
  {
  }

  lemma NodeInTree(mem: Mem, pt: PT, level: nat, base: nat, table: nat)
    requires Ok(mem, pt) && Node(pt, level, base, table)
    ensures IsPage(mem, table)
  {
  }

  lemma NodeBound(mem: Mem, pt: PT, level: nat, base: nat, table: nat)
    requires Ok(mem, pt) && Node(pt, level, base, table)
    ensures level <= 2 && base + Span(level + 1) <= VPNS
  {
  }

  /** A child's subtree is part of its parent's. */
  lemma ChildInUnder(mem: Mem, pt: PT, level: nat, base: nat, table: nat, i: nat)
    requires Ok(mem, pt) && 1 <= level <= 2 && Node(pt, level, base, table) && i < WORDS && IsPage(mem, table)
    requires HasV(mem[table][i])
    ensures Under(pt, level - 1, base + i * Span(level), Ppn(mem[table][i])) <= Under(pt, level, base, table)
  {
    var c := base + i * Span(level);
    BelowStep(mem, pt, level, base, table, i);
    hide Ok, Node, HasV, Ppn, Up;
    assert c + Span(level) <= base + Span(level + 1);
  }

  lemma MidChildren(pt: PT, base: nat, i: nat)
    requires base % 262144 == 0 && i < WORDS && Distinct(pt)
    ensures var c := base + i * 512;
            && L0In(pt, base, c + 512) == L0In(pt, base, c) + (if Up(c) in pt.l0 then {pt.l0[Up(c)]} else {})
            && (Up(c) in pt.l0 ==> pt.l0[Up(c)] !in L0In(pt, base, c))
            && (Up(c) in pt.l0 && Up(Up(base)) in pt.l1 ==> pt.l0[Up(c)] != pt.l1[Up(Up(base))])
  {
    var c := base + i * 512;
    MidDigits(base, i);
    assert Up(c) * 512 == c;
    hide Up;
    forall k | k in pt.l0 && base <= k * 512 < c + 512 ensures k * 512 < c || k == Up(c) {}
  }

  lemma RootChildren(pt: PT, i: nat)
    requires i in pt.l1 && Distinct(pt)
    ensures var c := i * 262144;
            && Below(pt, 2, 0, c + 262144) == Below(pt, 2, 0, c) + Under(pt, 1, c, pt.l1[i])
            && Below(pt, 2, 0, c) !! Under(pt, 1, c, pt.l1[i]) && pt.root !in Under(pt, 1, c, pt.l1[i])
  {
    var c := i * 262144;
    assert L0In(pt, 0, c + 262144) == L0In(pt, 0, c) + L0In(pt, c, c + 262144);
    forall j | j in pt.l1 && 0 <= j * 262144 < c + 262144 ensures j * 262144 < c || j == i {}
    assert L1In(pt, 0, c + 262144) == L1In(pt, 0, c) + {pt.l1[i]};
  }

  lemma RootNoChild(mem: Mem, pt: PT, i: nat)
    requires Ok(mem, pt) && i !in pt.l1 && i < WORDS
    ensures var c := i * 262144; Below(pt, 2, 0, c + 262144) == Below(pt, 2, 0, c)
  {
    var c := i * 262144;
    forall j | j in pt.l1 && 0 <= j * 262144 < c + 262144 ensures j * 262144 < c {}
    assert L1In(pt, 0, c + 262144) == L1In(pt, 0, c);
    forall k | k in pt.l0 && 0 <= k * 512 < c + 262144 ensures k * 512 < c {
      assert Up(k) in pt.l1;
    }
    assert L0In(pt, 0, c + 262144) == L0In(pt, 0, c);
  }

  lemma UnderRoot(mem: Mem, pt: PT)
    requires Ok(mem, pt)
    ensures Under(pt, 2, 0, pt.root) == Tables(pt)
  {
    forall k | k in pt.l0 ensures k * 512 < VPNS { assert Up(k) in pt.l1; }
    assert L0In(pt, 0, VPNS) == pt.l0.Values;
    assert L1In(pt, 0, VPNS) == pt.l1.Values;
  }
}
