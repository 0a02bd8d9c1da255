/** Where ext4 keeps its own records on the device: the superblock, the group descriptors and the block
    bitmaps; and what ext4_alloc_block of src/fs/ext4/ext4.c does to them. */
module Ext4Records {
  import Bits
  import opened Bytes
  import opened Lists

  const SB_OFFSET: nat := 1024                  // EXT4_SUPERBLOCK_OFFSET
  const SB_SIZE: nat := 284                     // sizeof(struct ext4_superblock)
  const SB_FREE: nat := 12                      // s_free_blocks_count_lo
  const GD_SIZE: nat := 32                      // sizeof(struct ext4_group_desc)
  const GD_FREE: nat := 12                      // bg_free_blocks_count_lo; bg_block_bitmap_lo is at 0
  const DIRECT: nat := 12                       // EXT4_DIRECT_BLOCKS, and the slot of the indirect block

  type Disk = map<nat, seq<Byte>>

  /** Block size, blocks per group, first data block, size of a group descriptor on the device, and the
      bitmap block of each group. */
  datatype Geo = Geo(bs: nat, perGroup: nat, first: nat, ds: nat, bitmaps: seq<nat>) {
    /** The block size is 1024 << s_log_block_size with at most 5. */
    ghost predicate Ok() {
      && (bs == 1024 || bs == 2048 || bs == 4096 || bs == 8192 || bs == 16384 || bs == 32768)
      && perGroup > 0 && (ds == 32 || ds == 64)
    }
    function Entries(): nat { bs / 4 }
    /** How many bits of a bitmap block are searched. */
    function Search(): nat { if perGroup < bs * 8 then perGroup else bs * 8 }
    function Block(g: nat, i: nat): nat { g * perGroup + i + first }
    /** Data slots a file can have. */
    function Limit(): nat { DIRECT + Entries() }
    /** The block with the superblock, and where it starts there. */
    function Super(): nat { if bs > 1024 then 0 else 1 }
    function SuperOff(): nat { if bs > 1024 then SB_OFFSET else 0 }
    /** The block with the descriptor of group g, and where it starts there. */
    function Desc(g: nat): nat
      requires bs > 0
    {
      (if bs > 1024 then 1 else 2) + g * ds / bs
    }
    function DescOff(g: nat): nat
      requires bs > 0
    {
      g * ds % bs
    }
  }

  /** The block holds records of the file system itself. */
  ghost predicate Record(geo: Geo, b: nat) {
    geo.bs > 0 && (b == geo.Super() || exists g :: 0 <= g < |geo.bitmaps| && (b == geo.Desc(g) || b == geo.bitmaps[g]))
  }

  /** The bitmaps have blocks of their own. */
  ghost predicate Apart(geo: Geo)
    requires geo.bs > 0
  {
    && NoDup(geo.bitmaps)
    && forall g, h :: 0 <= g < |geo.bitmaps| && 0 <= h < |geo.bitmaps| ==>
         geo.bitmaps[g] != geo.Desc(h) && geo.bitmaps[g] != geo.Super()
  }

  function Sum(s: seq<nat>): nat { if s == [] then 0 else Sum(s[..|s| - 1]) + s[|s| - 1] }

  lemma {:induction false} SumLess(s: seq<nat>, g: nat)
    requires g < |s| && s[g] > 0
    ensures Sum(s) > 0 && Sum(s[g := s[g] - 1]) == Sum(s) - 1
  {
    var n := |s| - 1;
    if g < n {
      SumLess(s[..n], g);
      assert s[g := s[g] - 1][..n] == s[..n][g := s[g] - 1];
    } else {
      assert s[g := s[g] - 1][..n] == s[..n];
    }
  }

  /** The descriptor of group g names its bitmap and counts its clear bits; the bitmap holds `bits`. */
  ghost predicate GroupOk(geo: Geo, disk: Disk, g: nat, bits: seq<bool>, free: nat)
    requires geo.bs > 0 && g < |geo.bitmaps|
  {
    && geo.Desc(g) in disk && geo.DescOff(g) + GD_SIZE <= |disk[geo.Desc(g)]|
    && Word(disk[geo.Desc(g)], geo.DescOff(g)) == geo.bitmaps[g]
    && Half(disk[geo.Desc(g)], geo.DescOff(g) + GD_FREE) == free
    && geo.bitmaps[g] in disk && |bits| == 8 * |disk[geo.bitmaps[g]]|
    && forall i :: 0 <= i < |bits| ==> (Bit(disk[geo.bitmaps[g]], i) <==> bits[i])
  }

  /** sb is the superblock in memory and on the device; it counts the free blocks of all groups. */
  ghost predicate SuperOk(geo: Geo, disk: Disk, free: seq<nat>, sb: seq<Byte>) {
    && geo.Super() in disk && geo.SuperOff() + SB_SIZE <= |disk[geo.Super()]| && |sb| == SB_SIZE
    && disk[geo.Super()][geo.SuperOff()..geo.SuperOff() + SB_SIZE] == sb && Word(sb, SB_FREE) == Sum(free)
  }

  /** The records on the device say what `bits` and `free` say. */
  ghost predicate RecordsOk(geo: Geo, disk: Disk, bits: seq<seq<bool>>, free: seq<nat>, sb: seq<Byte>) {
    && geo.bs > 0 && Apart(geo) && |bits| == |free| == |geo.bitmaps| && SuperOk(geo, disk, free, sb)
    && forall g :: 0 <= g < |geo.bitmaps| ==> GroupOk(geo, disk, g, bits[g], free[g])
  }

  // ---------- Layout ----------

  /** A descriptor lies within its block. */
  lemma DescFits(geo: Geo, g: nat)
    requires geo.Ok()
    ensures geo.DescOff(g) + GD_SIZE <= geo.bs
  {
    var c := geo.bs / geo.ds;
    assert geo.bs == c * geo.ds;
    Within(g, geo.ds, c);
  }

  lemma Within(g: nat, d: nat, c: nat)
    requires d > 0 && c > 0 && c * d > 0
    ensures g * d % (c * d) + d <= c * d && g * d / (c * d) == g / c && g * d % (c * d) == g % c * d
  {
    var q, r := g / c, g % c;
    assert g == q * c + r;
    assert g * d == q * (c * d) + r * d by { assert (q * c + r) * d == q * c * d + r * d; Bits.MulAssoc(q, c, d); }
    Bits.MulLe(r + 1, c, d);
    assert (r + 1) * d == r * d + d;
    Bits.DivUnique(g * d, c * d, q, r * d);
  }

  /** Two descriptors in one block do not overlap. */
  lemma DescsApart(geo: Geo, g: nat, h: nat)
    requires geo.Ok() && g != h && geo.Desc(g) == geo.Desc(h)
    ensures geo.DescOff(g) + GD_SIZE <= geo.DescOff(h) || geo.DescOff(h) + GD_SIZE <= geo.DescOff(g)
  {
    var c := geo.bs / geo.ds;
    assert geo.bs == c * geo.ds;
    WithinApart(g, h, geo.ds, c);
  }

  lemma WithinApart(g: nat, h: nat, d: nat, c: nat)
    requires d > 0 && c > 0 && c * d > 0 && g != h && g * d / (c * d) == h * d / (c * d)
    ensures g * d % (c * d) + d <= h * d % (c * d) || h * d % (c * d) + d <= g * d % (c * d)
  {
    Within(g, d, c);
    Within(h, d, c);
    SameQuotient(g, h, c);
    MultiplesApart(g % c, h % c, d);
  }

  lemma SameQuotient(g: nat, h: nat, c: nat)
    requires c > 0 && g != h && g / c == h / c
    ensures g % c != h % c
  {
  }

  lemma MultiplesApart(a: nat, b: nat, d: nat)
    requires a != b
    ensures a * d + d <= b * d || b * d + d <= a * d
  {
    if a < b { Bits.MulLe(a + 1, b, d); } else { Bits.MulLe(b + 1, a, d); }
    assert (a + 1) * d == a * d + d && (b + 1) * d == b * d + d;
  }

  lemma DescNotSuper(geo: Geo, g: nat)
    requires geo.bs > 0
    ensures geo.Desc(g) != geo.Super()
  {
  }

  // ---------- Taking a block ----------

  /** The superblock with one free block fewer. */
  function OneLess(sb: seq<Byte>): (r: seq<Byte>)
    requires |sb| == SB_SIZE
    ensures |r| == SB_SIZE
  {
    SetWord(sb, SB_FREE, (Word(sb, SB_FREE) + U32 - 1) % U32)
  }

  /** The records that taking block i of group g changes are there. */
  predicate Markable(geo: Geo, disk: Disk, sb: seq<Byte>, g: nat, i: nat) {
    && geo.bs > 0 && g < |geo.bitmaps| && |sb| == SB_SIZE
    && geo.bitmaps[g] in disk && i / 8 < |disk[geo.bitmaps[g]]|
    && geo.Desc(g) in disk && geo.DescOff(g) + GD_SIZE <= |disk[geo.Desc(g)]|
    && geo.Super() in disk && geo.SuperOff() + SB_SIZE <= |disk[geo.Super()]|
  }

  lemma CanMark(geo: Geo, disk: Disk, bits: seq<seq<bool>>, free: seq<nat>, sb: seq<Byte>, g: nat, i: nat)
    requires RecordsOk(geo, disk, bits, free, sb) && g < |bits| && i < |bits[g]|
    ensures Markable(geo, disk, sb, g, i)
  {
    hide Bit, NoDup, Word, Half, Sum, Geo.Desc, Geo.DescOff, Geo.Super, Geo.SuperOff;
    assert GroupOk(geo, disk, g, bits[g], free[g]);
  }

  /** The device after block i of group g has been marked as taken: one bit, and two counters. */
  function Marked(geo: Geo, disk: Disk, sb: seq<Byte>, g: nat, i: nat): Disk
    requires Markable(geo, disk, sb, g, i)
  {
    var bm, gd, su := geo.bitmaps[g], geo.Desc(g), geo.Super();
    var o := geo.DescOff(g) + GD_FREE;
    disk + map[bm := SetBit(disk[bm], i), gd := SetHalf(disk[gd], o, (Half(disk[gd], o) + 65535) % 65536),
               su := Patch(disk[su], geo.SuperOff(), OneLess(sb))]
  }

  lemma MarkGroup(geo: Geo, disk: Disk, bits: seq<seq<bool>>, free: seq<nat>, sb: seq<Byte>, g: nat, i: nat)
    requires geo.Ok() && RecordsOk(geo, disk, bits, free, sb) && g < |bits| && i < |bits[g]| && free[g] > 0
    ensures Markable(geo, disk, sb, g, i)
    ensures GroupOk(geo, Marked(geo, disk, sb, g, i), g, bits[g][i := true], free[g] - 1)
  {
    hide Bit, SetBit, OneLess, NoDup, SuperOk, Geo.Desc, Geo.DescOff, Geo.Super, Geo.SuperOff;
    DescNotSuper(geo, g);
    CanMark(geo, disk, bits, free, sb, g, i);
    assert GroupOk(geo, disk, g, bits[g], free[g]);
    assert geo.bitmaps[g] != geo.Desc(g) && geo.bitmaps[g] != geo.Super();
    var bm := geo.bitmaps[g];
    forall j | 0 <= j < |bits[g]| ensures Bit(SetBit(disk[bm], i), j) <==> bits[g][i := true][j] { BitSet(disk[bm], i, j); }
  }

  lemma MarkOther(geo: Geo, disk: Disk, bits: seq<seq<bool>>, free: seq<nat>, sb: seq<Byte>, g: nat, i: nat, h: nat)
    requires geo.Ok() && RecordsOk(geo, disk, bits, free, sb) && g < |bits| && i < |bits[g]| && h < |bits| && h != g
    ensures Markable(geo, disk, sb, g, i)
    ensures GroupOk(geo, Marked(geo, disk, sb, g, i), h, bits[h], free[h])
  {
    hide Bit, SetBit, OneLess, SuperOk, Geo.Desc, Geo.DescOff, Geo.Super, Geo.SuperOff;
    assert geo.bitmaps[g] != geo.bitmaps[h];
    hide NoDup;
    DescNotSuper(geo, g);
    DescNotSuper(geo, h);
    CanMark(geo, disk, bits, free, sb, g, i);
    assert GroupOk(geo, disk, g, bits[g], free[g]) && GroupOk(geo, disk, h, bits[h], free[h]);
    assert geo.bitmaps[h] != geo.Desc(g) && geo.bitmaps[g] != geo.Desc(h);
    assert geo.bitmaps[h] != geo.Super() && geo.bitmaps[g] != geo.Super();
    if geo.Desc(g) == geo.Desc(h) { DescsApart(geo, g, h); }
  }

  lemma MarkSuper(geo: Geo, disk: Disk, bits: seq<seq<bool>>, free: seq<nat>, sb: seq<Byte>, g: nat, i: nat)
    requires geo.Ok() && RecordsOk(geo, disk, bits, free, sb) && g < |bits| && i < |bits[g]| && free[g] > 0
    ensures Markable(geo, disk, sb, g, i)
    ensures SuperOk(geo, Marked(geo, disk, sb, g, i), free[g := free[g] - 1], OneLess(sb))
  {
    hide Bit, SetBit, NoDup, Word, SetWord, Half, SetHalf, Sum, Geo.Desc, Geo.DescOff, Geo.Super, Geo.SuperOff;
    CanMark(geo, disk, bits, free, sb, g, i);
    assert GroupOk(geo, disk, g, bits[g], free[g]);
    hide GroupOk;
    SumLess(free, g);
    WordSet(sb, SB_FREE, Sum(free) - 1, SB_FREE);
    DescNotSuper(geo, g);
    assert geo.bitmaps[g] != geo.Super();
  }

  /** After a block is marked the records agree again. */
  lemma MarkKeeps(geo: Geo, disk: Disk, bits: seq<seq<bool>>, free: seq<nat>, sb: seq<Byte>, g: nat, i: nat)
    requires geo.Ok() && RecordsOk(geo, disk, bits, free, sb) && g < |bits| && i < |bits[g]| && free[g] > 0
    ensures Markable(geo, disk, sb, g, i)
    ensures RecordsOk(geo, Marked(geo, disk, sb, g, i), bits[g := bits[g][i := true]], free[g := free[g] - 1], OneLess(sb))
  {
    hide GroupOk, SuperOk, Marked, Markable, Apart, OneLess, Geo.Desc, Geo.DescOff, Geo.Super, Geo.SuperOff;
    MarkSuper(geo, disk, bits, free, sb, g, i);
    MarkGroup(geo, disk, bits, free, sb, g, i);
    forall h: nat | h < |bits| && h != g ensures GroupOk(geo, Marked(geo, disk, sb, g, i), h, bits[h], free[h]) {
      MarkOther(geo, disk, bits, free, sb, g, i, h);
    }
  }

  /** Records stay good as long as their blocks do. */
  lemma RecordsFrame(geo: Geo, disk: Disk, disk': Disk, bits: seq<seq<bool>>, free: seq<nat>, sb: seq<Byte>)
    requires RecordsOk(geo, disk, bits, free, sb)
    requires forall b :: b in disk && Record(geo, b) ==> b in disk' && disk'[b] == disk[b]
    ensures RecordsOk(geo, disk', bits, free, sb)
  {
    hide Bit;
    forall g: nat | g < |bits| ensures GroupOk(geo, disk', g, bits[g], free[g]) {
      assert GroupOk(geo, disk, g, bits[g], free[g]);
      assert Record(geo, geo.Desc(g)) && Record(geo, geo.bitmaps[g]);
    }
    assert Record(geo, geo.Super());
  }

  // ---------- What changes in the records ----------

  /** Byte x of block b belongs to a count of free blocks. */
  ghost predicate Counter(geo: Geo, b: nat, x: nat)
    requires geo.bs > 0
  {
    || (b == geo.Super() && geo.SuperOff() + SB_FREE <= x < geo.SuperOff() + SB_FREE + 4)
    || exists g :: 0 <= g < |geo.bitmaps| && b == geo.Desc(g) && geo.DescOff(g) + GD_FREE <= x < geo.DescOff(g) + GD_FREE + 2
  }

  /** Byte x of a record block that is no bitmap is kept, unless it counts free blocks. */
  ghost predicate FieldKept(geo: Geo, disk: Disk, disk': Disk, b: nat, x: nat)
    requires geo.bs > 0
  {
    b in disk && x < |disk[b]| && Record(geo, b) && b !in geo.bitmaps && !Counter(geo, b, x) ==>
      b in disk' && x < |disk'[b]| && disk'[b][x] == disk[b][x]
  }

  /** Group descriptors and superblock changed in their counts of free blocks at most. */
  ghost predicate FieldsKept(geo: Geo, disk: Disk, disk': Disk)
    requires geo.bs > 0
  {
    forall b: nat, x: nat :: FieldKept(geo, disk, disk', b, x)
  }

  lemma MarkFields(geo: Geo, disk: Disk, bits: seq<seq<bool>>, free: seq<nat>, sb: seq<Byte>, g: nat, i: nat)
    requires geo.Ok() && RecordsOk(geo, disk, bits, free, sb) && g < |bits| && i < |bits[g]|
    ensures Markable(geo, disk, sb, g, i)
    ensures FieldsKept(geo, disk, Marked(geo, disk, sb, g, i))
  {
    hide Bit, SetBit, NoDup, Word, SetWord, Half, SetHalf, Sum, Geo.Desc, Geo.DescOff, Geo.Super, Geo.SuperOff, Record, OneLess, Patch;
    CanMark(geo, disk, bits, free, sb, g, i);
    assert GroupOk(geo, disk, g, bits[g], free[g]);
    hide GroupOk;
    DescNotSuper(geo, g);
    var disk' := Marked(geo, disk, sb, g, i);
    assert geo.bitmaps[g] in geo.bitmaps;
    forall b: nat, x: nat ensures FieldKept(geo, disk, disk', b, x) {
      if b in disk && x < |disk[b]| && b == geo.Super() && !Counter(geo, b, x) { SuperField(geo, disk, sb, x); }
    }
  }

  lemma SuperField(geo: Geo, disk: Disk, sb: seq<Byte>, x: nat)
    requires geo.Super() in disk && geo.SuperOff() + SB_SIZE <= |disk[geo.Super()]| && |sb| == SB_SIZE
    requires disk[geo.Super()][geo.SuperOff()..geo.SuperOff() + SB_SIZE] == sb
    requires x < |disk[geo.Super()]| && !(geo.SuperOff() + SB_FREE <= x < geo.SuperOff() + SB_FREE + 4)
    ensures Patch(disk[geo.Super()], geo.SuperOff(), OneLess(sb))[x] == disk[geo.Super()][x]
  {
    var o := geo.SuperOff();
    if o <= x < o + SB_SIZE { assert sb[x - o] == disk[geo.Super()][x]; }
  }

  lemma FieldsTrans(geo: Geo, disk: Disk, disk1: Disk, disk2: Disk)
    requires geo.bs > 0 && FieldsKept(geo, disk, disk1) && FieldsKept(geo, disk1, disk2)
    ensures FieldsKept(geo, disk, disk2)
  {
    hide Counter, Record;
    forall b: nat, x: nat ensures FieldKept(geo, disk, disk2, b, x) {
      assert FieldKept(geo, disk, disk1, b, x) && FieldKept(geo, disk1, disk2, b, x);
    }
  }

  lemma FieldsFrame(geo: Geo, disk: Disk, disk': Disk)
    requires geo.bs > 0 && forall b :: b in disk && Record(geo, b) ==> b in disk' && disk'[b] == disk[b]
    ensures FieldsKept(geo, disk, disk')
  {
  }
}
