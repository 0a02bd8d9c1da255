/** Where things are on an ext4 device, in numbers: the block map of a file and the records that
    ext4_alloc_block of src/fs/ext4/ext4.c changes. */
module Ext4Layout {
  import Bits
  import opened Bytes
  import opened Ext4Records
  import opened Ext4State
  import opened Ext4File

  /** Little endian numbers of two and four bytes. */
  function Le16(b: seq<Byte>, o: nat): nat
    requires o + 2 <= |b|
  {
    b[o] as nat + 256 * b[o + 1] as nat
  }

  function Le32(b: seq<Byte>, o: nat): nat
    requires o + 4 <= |b|
  {
    Le16(b, o) + 65536 * Le16(b, o + 2)
  }

  // ---------- The block map ----------

  /** Twelve blocks are named in the inode; the next bs / 4 in the block that its thirteenth word names, four
      bytes each. */
  ghost function RawBlock(disk: Disk, bs: nat, iblock: seq<nat>, lb: nat): nat {
    if |iblock| < 13 || lb >= 12 + bs / 4 then 0
    else if lb < 12 then iblock[lb]
    else if iblock[12] == 0 || iblock[12] !in disk || 4 * (lb - 12) + 4 > |disk[iblock[12]]| then 0
    else Le32(disk[iblock[12]], 4 * (lb - 12))
  }

  lemma MapIs(fs: Fs, ino: nat, lb: nat)
    requires Inv(fs) && ino in fs.files && lb < 12 + fs.geo.bs / 4
    ensures Ref(fs, ino, SlotOf(lb)) == RawBlock(fs.disk, fs.geo.bs, fs.files[ino].iblock, lb)
  {
    hide Recorded, BitsOk, Record;
  }

  /** Byte k of a write is on the device: in the block that the map gives for its position, at the offset
      there. */
  lemma BytesOnDisk(fs0: Fs, fs: Fs, ino: nat, w: nat, data: seq<Byte>, k: nat)
    requires Inv(fs0) && FileWritten(fs0, fs, ino, w, data) && ino in fs.files && k < |data|
    requires fs0.geo.bs > 0 && w + k < (12 + fs0.geo.bs / 4) * fs0.geo.bs
    ensures var bs, x := fs0.geo.bs, w + k;
            var b := RawBlock(fs.disk, bs, fs.files[ino].iblock, x / bs);
            b != 0 && b in fs.disk && |fs.disk[b]| == bs && fs.disk[b][x % bs] == data[k]
  {
    hide Inv, Ref, RefsOk, BitsOk, Recorded, Record, FileWritten;
    var bs, x := fs0.geo.bs, w + k;
    Positions(bs, x);
    Quotient(x, bs, 12 + bs / 4);
    ReadBack(fs0, fs, ino, w, data, x / bs, x % bs);
    WrittenFacts(fs0, fs, ino, w, data);
    MapIs(fs, ino, x / bs);
  }

  // ---------- Taking a block ----------

  /** The number of the block, and where its group is recorded. */
  lemma TakenAt(fs: Fs, g: nat, i: nat)
    requires Inv(fs) && Clear(fs, g, i) && Takable(fs, g, i)
    ensures var geo := fs.geo;
            && geo.Block(g, i) == g * geo.perGroup + i + geo.first
            && geo.Desc(g) == (if geo.bs > 1024 then 1 else 2) + g * geo.ds / geo.bs && geo.DescOff(g) == g * geo.ds % geo.bs
            && geo.Super() == (if geo.bs > 1024 then 0 else 1) && geo.SuperOff() == if geo.bs > 1024 then 1024 else 0
  {
  }

  /** Bit i % 8 of byte i / 8 has been set, and no other bit. */
  ghost predicate BitAdded(b: seq<Byte>, r: seq<Byte>, i: nat) {
    && |r| == |b| && i / 8 < |b| && r[i / 8] as nat == b[i / 8] as nat + Bits.Pow2(i % 8)
    && forall x :: 0 <= x < |b| && x != i / 8 ==> r[x] == b[x]
  }

  /** The number at o, of two or of four bytes, is one less; no other byte has changed. */
  ghost predicate Less16(b: seq<Byte>, r: seq<Byte>, o: nat) {
    && |r| == |b| && o + 2 <= |b| && Le16(r, o) == Le16(b, o) - 1
    && forall x :: 0 <= x < |b| && !(o <= x < o + 2) ==> r[x] == b[x]
  }

  ghost predicate Less32(b: seq<Byte>, r: seq<Byte>, o: nat) {
    && |r| == |b| && o + 4 <= |b| && Le32(r, o) == Le32(b, o) - 1
    && forall x :: 0 <= x < |b| && !(o <= x < o + 4) ==> r[x] == b[x]
  }

  /** What ext4_alloc_block leaves on the device, byte by byte: a bit of the group's bitmap is set, the numbers
      at 12 in the group descriptor and in the superblock are one less, the block itself is zero, and every
      other byte is as before. */
  ghost predicate TakenBytes(geo: Geo, disk: Disk, disk': Disk, g: nat, i: nat) {
    && geo.bs > 0 && g < |geo.bitmaps|
    && var bm, gd, su, b := geo.bitmaps[g], geo.Desc(g), geo.Super(), geo.Block(g, i);
       && bm in disk && gd in disk && su in disk && b in disk && disk'.Keys == disk.Keys
       && BitAdded(disk[bm], disk'[bm], i)
       && Less16(disk[gd], disk'[gd], geo.DescOff(g) + 12) && Less32(disk[su], disk'[su], geo.SuperOff() + 12)
       && disk'[b] == Zeros(geo.bs) && forall c :: c in disk && c != bm && c != gd && c != su && c != b ==> disk'[c] == disk[c]
  }

  lemma TakesBytes(fs: Fs, g: nat, i: nat)
    requires Inv(fs) && Clear(fs, g, i) && Takable(fs, g, i)
    ensures TakenBytes(fs.geo, fs.disk, Taken(fs, g, i).disk, g, i)
  {
    hide Inv, Clear, Geo.Desc, Geo.DescOff, Geo.Super, Geo.SuperOff, Geo.Block, Half, SetHalf, Word, SetWord, Bit, SetBit, Record,
         BitAdded, Less16, Less32, OneLess, Patch, Zeros, Marked;
    var geo, disk, disk' := fs.geo, fs.disk, Taken(fs, g, i).disk;
    var bm, gd, su := geo.bitmaps[g], geo.Desc(g), geo.Super();
    TakenApart(fs, g, i);
    MarkedBlocks(geo, disk, fs.sb, g, i);
    TakenBit(disk[bm], i);
    TakenHalf(disk[gd], disk'[gd], geo.DescOff(g) + 12);
    TakenWord(disk[su], disk'[su], geo.SuperOff(), fs.sb);
  }

  lemma MarkedBlocks(geo: Geo, disk: Disk, sb: seq<Byte>, g: nat, i: nat)
    requires Markable(geo, disk, sb, g, i)
    requires var bm, gd, su := geo.bitmaps[g], geo.Desc(g), geo.Super(); bm != gd && bm != su && gd != su
    ensures var bm, gd, su := geo.bitmaps[g], geo.Desc(g), geo.Super();
            var disk', o := Marked(geo, disk, sb, g, i), geo.DescOff(g) + 12;
            && disk'.Keys == disk.Keys && disk'[bm] == SetBit(disk[bm], i)
            && disk'[gd] == SetHalf(disk[gd], o, (Half(disk[gd], o) + 65535) % 65536)
            && disk'[su] == Patch(disk[su], geo.SuperOff(), OneLess(sb))
            && forall c :: c in disk && c != bm && c != gd && c != su ==> disk'[c] == disk[c]
  {
    hide Geo.Desc, Geo.DescOff, Geo.Super, Geo.SuperOff, Half, SetHalf, SetBit, OneLess, Patch;
  }

  lemma TakenApart(fs: Fs, g: nat, i: nat)
    requires Inv(fs) && Clear(fs, g, i) && Takable(fs, g, i)
    ensures var bm, gd, su, b := fs.geo.bitmaps[g], fs.geo.Desc(g), fs.geo.Super(), fs.geo.Block(g, i);
            && bm != gd && bm != su && gd != su && b != bm && b != gd && b != su && b in fs.disk
            && !Bit(fs.disk[bm], i) && Half(fs.disk[gd], fs.geo.DescOff(g) + 12) > 0 && Word(fs.sb, 12) > 0
            && fs.disk[su][fs.geo.SuperOff()..fs.geo.SuperOff() + SB_SIZE] == fs.sb
  {
    hide RefsOk, Bit, Word, Half, Sum;
    DescNotSuper(fs.geo, g);
    assert GroupOk(fs.geo, fs.disk, g, fs.bits[g], fs.free[g]);
    assert Record(fs.geo, fs.geo.bitmaps[g]) && Record(fs.geo, fs.geo.Desc(g)) && Record(fs.geo, fs.geo.Super());
    SumLess(fs.free, g);
  }

  lemma TakenBit(b: seq<Byte>, i: nat)
    requires i / 8 < |b| && !Bit(b, i)
    ensures BitAdded(b, SetBit(b, i), i)
  {
    OnIs(b[i / 8] as nat, i % 8);
  }

  lemma TakenHalf(b: seq<Byte>, r: seq<Byte>, o: nat)
    requires o + 2 <= |b| && Half(b, o) > 0 && r == SetHalf(b, o, (Half(b, o) + 65535) % 65536)
    ensures Less16(b, r, o)
  {
  }

  lemma TakenWord(b: seq<Byte>, r: seq<Byte>, o: nat, sb: seq<Byte>)
    requires o + SB_SIZE <= |b| && |sb| == SB_SIZE && b[o..o + SB_SIZE] == sb && Word(sb, 12) > 0 && r == Patch(b, o, OneLess(sb))
    ensures Less32(b, r, o + 12)
  {
    hide Word, Le32, SetWord, Patch;
    var s' := OneLess(sb);
    assert s' == SetWord(sb, 12, Word(sb, 12) - 1);
    WordSet(sb, 12, Word(sb, 12) - 1, 12);
    hide OneLess;
    assert r[o..o + SB_SIZE] == s';
    PartWord(b, o, sb);
    PartWord(r, o, s');
    forall x | 0 <= x < |b| && !(o + 12 <= x < o + 16) ensures r[x] == b[x] {
      if o <= x < o + SB_SIZE { assert s'[x - o] == sb[x - o] == b[x]; }
    }
  }

  lemma PartWord(b: seq<Byte>, o: nat, s: seq<Byte>)
    requires o + |s| <= |b| && b[o..o + |s|] == s && |s| >= 16
    ensures Le32(b, o + 12) == Word(s, 12)
  {
    assert b[o + 12] == s[12] && b[o + 13] == s[13] && b[o + 14] == s[14] && b[o + 15] == s[15];
  }
}
