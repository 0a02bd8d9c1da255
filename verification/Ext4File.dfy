/** src/fs/ext4/ext4.c: allocating blocks, and reading and writing files with direct and single-indirect
    block maps.  Device access is by whole filesystem blocks. */
module Ext4File {
  import Bits
  import opened Bytes
  import opened Ext4Records
  import opened Ext4State
  import opened Lists

  const ENOSPC: int := 28
  const ENOSYS: int := 38
  const U64: nat := 0x1_0000_0000_0000_0000

  /** No group has a free block. */
  ghost predicate Full(fs: Fs) { forall g: nat, i: nat :: !Clear(fs, g, i) }

  /** Byte x of a file as a read finds it: through block 0 of the device where the file has no block. */
  function ReadByte(fs: Fs, ino: nat, x: nat): Byte
    requires fs.geo.bs > 0
  {
    var d := Data(fs, ino, x / fs.geo.bs);
    if x % fs.geo.bs < |d| then d[x % fs.geo.bs] else 0
  }

  /** How many bytes a read at pos asks for: up to the end of the file, unless pos + len wraps. */
  function Asked(size: nat, pos: nat, len: nat): nat {
    if pos >= size then 0 else if (pos + len) % U64 > size then size - pos else len
  }

  /** A read asks for no byte beyond the end if and only if its end has 64 bits or wraps to beyond the end. */
  lemma AsksWithin(size: nat, pos: nat, len: nat)
    requires pos < size < U64 && len < U64
    ensures pos + Asked(size, pos, len) <= size <==> pos + len < U64 || (pos + len) % U64 > size
  {
  }

  /** In a file of 16 bytes, a read at 8 whose end wraps asks for far more than there is. */
  lemma AsksBeyond()
    ensures Asked(16, 8, U64 - 1) == U64 - 1
  {
  }

  function Sized(fs: Fs, ino: nat, size: nat): Fs
    requires ino in fs.files
  {
    fs.(files := fs.files[ino := fs.files[ino].(size := size)])
  }

  /** The block after the last one of a file of whole blocks. */
  function EndBlock(geo: Geo, f: Inode): nat { if geo.bs == 0 then 0 else f.size / geo.bs % U32 }

  /** The file has grown by the block lb. */
  ghost predicate Appended(fs0: Fs, fs: Fs, ino: nat, lb: nat, block: seq<Byte>) {
    && ino in fs0.files && ino in fs.files && fs.files[ino].size == fs0.files[ino].size + fs0.geo.bs
    && FileWritten(fs0, Sized(fs, ino, fs0.files[ino].size), ino, lb * fs0.geo.bs, block)
  }

  /** The file can map the n bytes from x on, and there are as many free blocks as that takes. */
  ghost predicate Completes(fs: Fs, ino: nat, x: nat, n: nat) {
    n == 0 || (x + n <= fs.geo.Limit() * fs.geo.bs && Remaining(fs, ino, x, n) >= 0)
  }

  /** The blocks that writing the n bytes from x on takes. */
  ghost function Takes(fs: Fs, ino: nat, x: nat, n: nat): nat {
    if n == 0 || fs.geo.bs == 0 then 0
    else Need(fs, ino, x / fs.geo.bs, EndOf(fs.geo.bs, x + n), HasTable(fs, ino))
  }

  /** The free blocks that it leaves; negative if there are too few. */
  ghost function Remaining(fs: Fs, ino: nat, x: nat, n: nat): int { Sum(fs.free) - Takes(fs, ino, x, n) }

  /** The number of blocks before the end of byte y - 1. */
  function EndOf(bs: nat, y: nat): nat { if bs == 0 then 0 else (y + bs - 1) / bs }

  class Ext4 {
    var geo: Geo
    var disk: Disk
    var sb: seq<Byte>                   // the superblock, as read when mounting
    var files: map<nat, Inode>
    ghost var bits: seq<seq<bool>>      // what the bitmaps on the disk say
    ghost var free: seq<nat>            // what the group descriptors on the disk say

    ghost function S(): Fs
      reads this
    {
      Fs(geo, disk, bits, free, sb, files)
    }

    /** A mounted device, with the inodes that have been read from it. */
    constructor (fs: Fs)
      ensures S() == fs
    {
      geo, disk, sb, files, bits, free := fs.geo, fs.disk, fs.sb, fs.files, fs.bits, fs.free;
    }

    /** ext4_alloc_block: the first free block, zeroed; 0 exactly when no group has one.  On the disk one
        bit and two counters change besides. */
    method AllocBlock() returns (b: nat, ghost g: nat, ghost i: nat)
      requires Inv(S())
      modifies this`disk, this`bits, this`free, this`sb
      ensures b == 0 ==> S() == old(S()) && forall h: nat, j: nat :: !Clear(S(), h, j)
      ensures b != 0 ==> && Clear(old(S()), g, i) && Takable(old(S()), g, i) && S() == Taken(old(S()), g, i) && b == geo.Block(g, i)
                         && forall h: nat, j: nat :: Clear(old(S()), h, j) ==> g < h || (g == h && i <= j)
      ensures b != 0 <==> Sum(old(free)) > 0
      ensures b != 0 ==> Sum(free) == Sum(old(free)) - 1
      ensures b != 0 ==> Spare(S(), b) && b in disk && disk[b] == Zeros(geo.bs) && b < NO_BLOCK && !InUse(old(S()), b)
      ensures AllSame(old(S()), S()) && AllKept(old(S()), S())
    {
      hide Inv, Ref, AllKept, InUse, SameFile, Record, Takable, Spare, Marked, Sum, Geo.Desc, Geo.DescOff, Geo.Super, Geo.SuperOff,
           Bit, SetBit, Patch, Half, SetHalf, Word, SetWord;
      SameRefl(S());
      BlockSize(S());
      AllKeptRefl(S());
      Groups(S());
      FreeSum(S());
      g, i := 0, 0;
      var bg := 0;
      while bg < |geo.bitmaps|
        invariant 0 <= bg <= |geo.bitmaps| && S() == old(S())
        invariant forall h: nat, j: nat :: h < bg ==> !Clear(S(), h, j)
      {
        GroupThere(S(), bg);
        var gd, off := geo.Desc(bg), geo.DescOff(bg);
        var bgd := disk[gd][off..off + GD_SIZE];
        if Half(bgd, GD_FREE) != 0 {
          var bm := Word(bgd, 0);
          var bitmap := disk[bm];
          var count := geo.Search();
          var k := 0;
          while k < count
            invariant 0 <= k <= count && S() == old(S())
            invariant forall j: nat :: j < k ==> !Clear(S(), bg, j)
          {
            BitThere(S(), bg, k);
            if !Bit(bitmap, k) {
              g, i, b := bg, k, geo.Block(bg, k);
              TakeAll(S(), g, i);
              TakeSum(S(), g, i);
              Mark(bg, k, bgd, bm, bitmap);
              disk := disk[b := Zeros(geo.bs)];
              bits, free := bits[bg := bits[bg][k := true]], free[bg := free[bg] - 1];
              return;
            }
            k := k + 1;
          }
        } else {
          FullGroup(S(), bg);
        }
        bg := bg + 1;
      }
      b := 0;
    }

    /** The part of ext4_alloc_block that records bit k of group bg as taken, in the bitmap, in the group
        descriptor and in the superblock. */
    method Mark(bg: nat, k: nat, bgd: seq<Byte>, bm: nat, bitmap: seq<Byte>)
      requires Inv(S()) && Takable(S(), bg, k) && bm == geo.bitmaps[bg] && bitmap == disk[bm]
      requires bgd == disk[geo.Desc(bg)][geo.DescOff(bg)..geo.DescOff(bg) + GD_SIZE]
      modifies this`disk, this`sb
      ensures disk == Marked(geo, old(disk), old(sb), bg, k) && sb == OneLess(old(sb))
    {
      hide Inv, Marked, Geo.Desc, Geo.DescOff, Geo.Super, Geo.SuperOff, Bit, SetBit, Patch, Half, SetHalf, Word, SetWord;
      MarkSteps(S(), bg, k, bgd);
      var gd, off := geo.Desc(bg), geo.DescOff(bg);
      disk := disk[bm := SetBit(bitmap, k)];
      disk := disk[gd := Patch(disk[gd], off, SetHalf(bgd, GD_FREE, (Half(bgd, GD_FREE) + 65535) % 65536))];
      sb := SetWord(sb, SB_FREE, (Word(sb, SB_FREE) + U32 - 1) % U32);
      disk := disk[geo.Super() := Patch(disk[geo.Super()], geo.SuperOff(), sb)];
    }

    /** ext4_get_indirect_block_entry */
    method GetBlock(ino: nat, lb: nat) returns (pb: nat)
      requires Inv(S()) && ino in files
      ensures pb == if lb < geo.Limit() then Ref(S(), ino, SlotOf(lb)) else NO_BLOCK
      ensures pb == NO_BLOCK <==> lb >= geo.Limit()
    {
      if lb < DIRECT { RefSmall(S(), ino, lb); return files[ino].iblock[lb]; }
      var j := lb - DIRECT;
      if j >= geo.Entries() { return NO_BLOCK; }
      RefSmall(S(), ino, lb + 1);
      var t := files[ino].iblock[DIRECT];
      if t == 0 { return 0; }
      TableThere(S(), ino);
      pb := Word(disk[t], j * 4);
    }

    /** ext4_set_indirect_block_entry: the spare block becomes block lb of the file. */
    method SetBlock(ino: nat, lb: nat, pb: nat) returns (ok: bool)
      requires Inv(S()) && ino in files && Spare(S(), pb) && disk[pb] == Zeros(geo.bs) && !Mapped(S(), ino, lb)
      modifies this`disk, this`bits, this`free, this`sb, this`files
      ensures ok ==> Opened(old(S()), S(), ino, lb) && Ref(S(), ino, SlotOf(lb)) == pb && KeptBut(old(S()), S(), ino, pb)
      ensures !ok ==> AllSame(old(S()), S()) && AllKept(old(S()), S()) && (lb >= geo.Limit() || Full(S()))
      ensures ok <==> lb < geo.Limit() && (lb < DIRECT || HasTable(old(S()), ino) || Sum(old(free)) > 0)
      ensures ok ==> Sum(free) == Sum(old(free)) - if lb >= DIRECT && !HasTable(old(S()), ino) then 1 else 0
      ensures ok ==> (HasTable(S(), ino) <==> HasTable(old(S()), ino) || lb >= DIRECT)
    {
      hide Inv, Ref, RefsOk, BitsOk, DiskOk, KeptBut, AllKept, Sum;
      ghost var fs := S();
      SameRefl(fs);
      BlockSize(fs);
      SparePb(fs, pb);
      IblockSize(fs, ino);
      AllKeptRefl(fs);
      KeptRefl(fs, ino);
      if lb < DIRECT {
        LinkedOpens(fs, ino, lb, pb);
        files := files[ino := files[ino].(iblock := files[ino].iblock[lb := pb])];
        return true;
      }
      var j := lb - DIRECT;
      if j >= geo.Entries() { return false; }
      if files[ino].iblock[DIRECT] == 0 {
        var t, g, i := AllocBlock();
        if t == 0 { return false; }
        ghost var fs1 := S();
        StillSpare(fs, fs1, g, i, pb);
        LinkedTable(fs, fs1, ino, t, pb);
        assert SameFile(fs, fs1, ino);
        KeptAfterTake(fs, fs1, Linked(fs1, ino, DIRECT, t), ino, t);
        files := files[ino := files[ino].(iblock := files[ino].iblock[DIRECT := t])];
      } else {
        NoTable(fs, ino, pb);
      }
      EnteredOpens(fs, S(), ino, lb, pb);
      ghost var fs2 := S();
      TabledSlot(fs, fs2, ino, lb, pb);
      EnteredKept(fs2, ino, j, pb);
      var t := files[ino].iblock[DIRECT];
      disk := disk[t := SetWord(disk[t], j * 4, pb)];
      KeptTrans(fs, fs2, S(), ino, pb);
      ok := true;
    }

    /** The part of ext4_write_file that finds or adds block lb of the file; 0 when it cannot. */
    method OpenBlock(ino: nat, lb: nat) returns (pb: nat)
      requires Inv(S()) && ino in files
      modifies this`disk, this`bits, this`free, this`sb, this`files
      ensures Kept(old(S()), S(), ino)
      ensures pb != 0 ==> Opened(old(S()), S(), ino, lb) && Ref(S(), ino, SlotOf(lb)) == pb
      ensures pb == 0 ==> AllSame(old(S()), S()) && (lb >= geo.Limit() || Full(S()))
      ensures pb != 0 <==> lb < geo.Limit() && Cost(old(S()), ino, lb) <= Sum(old(free))
      ensures pb != 0 ==> Sum(free) == Sum(old(free)) - Cost(old(S()), ino, lb)
      ensures pb != 0 ==> (HasTable(S(), ino) <==> HasTable(old(S()), ino) || lb >= DIRECT)
    {
      hide Inv, Ref, RefsOk, BitsOk, DiskOk, Spare, KeptBut, AllKept, InUse, Sum;
      ghost var fs := S();
      SameRefl(fs);
      BlockSize(fs);
      KeptRefl(fs, ino);
      pb := GetBlock(ino, lb);
      if pb == NO_BLOCK { return 0; }
      if pb == 0 {
        ghost var g, i;
        pb, g, i := AllocBlock();
        if pb == 0 { return 0; }
        ghost var fs1 := S();
        StillUnmapped(fs, fs1, ino, lb);
        assert SameFile(fs, fs1, ino);
        var ok := SetBlock(ino, lb, pb);
        if !ok {
          SameTrans(fs, fs1, S());
          AllKeptTrans(fs, fs1, S());
          assert SameFile(fs, S(), ino);
          AllKeptKept(fs, S(), ino);
          return 0;
        }
        KeptAfterTake(fs, fs1, S(), ino, pb);
        OpenedAfter(fs, fs1, S(), ino, lb);
      } else {
        OpenedAlready(fs, ino, lb);
        if lb >= DIRECT { MappedByTable(fs, ino, lb); }
      }
    }

    /** ext4_write_file.  With n the number of bytes written, exactly the first n bytes of data stand at
        the (32-bit block) position pos; the rest of the file and all other files are as before.  All bytes
        are written if and only if the file can map them and enough blocks are free beforehand. */
    method WriteFile(ino: nat, pos: nat, data: seq<Byte>) returns (ret: int, ghost n: nat)
      requires Inv(S()) && ino in files
      modifies this`disk, this`bits, this`free, this`sb, this`files
      ensures Inv(S()) && geo == old(geo) && ino in files
      ensures n <= |data| && ret == if n > 0 || data == [] then n else -ENOSPC
      ensures FileWritten(old(S()), Sized(S(), ino, old(files)[ino].size), ino, Wrapped(geo, pos), data[..n])
      ensures Kept(old(S()), S(), ino)
      ensures Wrapped(geo, pos) + n <= geo.Limit() * geo.bs || n == 0
      ensures n < |data| ==> (Wrapped(geo, pos) + n) / geo.bs >= geo.Limit() || Full(S())
      ensures n == |data| <==> Completes(old(S()), ino, Wrapped(geo, pos), |data|)
      ensures n == |data| ==> Sum(free) == Sum(old(free)) - old(Takes(S(), ino, Wrapped(geo, pos), |data|))
      ensures files[ino].size == if n > 0 && pos + n > old(files)[ino].size then pos + n else old(files)[ino].size
    {
      hide Inv, FileWritten, Wrapped, Full, Geo.Limit, KeptBut, Completes, Takes, Sum;
      ghost var fs0 := S();
      GeoFacts(fs0, pos);
      KeptRefl(fs0, ino);
      ghost var w := Wrapped(geo, pos);
      FileStart(fs0, ino, w);
      n := 0;
      var total, m := 0, 1;
      assert data[..0] == [];
      while total < |data| && m > 0
        invariant 0 <= total <= |data| && n == total && geo == fs0.geo && ino in files
        invariant FileWritten(fs0, S(), ino, w, data[..total]) && Kept(fs0, S(), ino)
        invariant total == 0 || w + total <= geo.Limit() * geo.bs
        invariant m == 0 ==> (w + total) / geo.bs >= geo.Limit() || Full(S())
        invariant if m == 0 then !Completes(fs0, ino, w, |data|) && total < |data|
                  else Resumes(fs0, S(), ino, w, |data|, total)
        decreases |data| - total, m
      {
        m := WriteChunk(ino, pos, data, total, fs0);
        total := total + m;
        n := total;
      }
      ret := if total > 0 || data == [] then total else -ENOSPC;
      NothingMore(S(), ino, w + total);
      SizedFacts(fs0, S(), ino, w, data[..total], pos + total);
      FullSized(S(), ino, pos + total);
      SizedKept(fs0, S(), ino, pos + total);
      if total > 0 && pos + total > files[ino].size {
        files := files[ino := files[ino].(size := pos + total)];
      }
    }

    /** The growth of a directory in ext4_add_dir_entry: a block is taken, hung in at the end of the file by
        ext4_append_block_to_inode, and written.  It succeeds exactly when a block is free and the end is
        among the direct blocks; a block taken for a later place stays taken. */
    method AppendBlock(ino: nat, block: seq<Byte>) returns (ret: int)
      requires Inv(S()) && ino in files && |block| == geo.bs && !Mapped(S(), ino, EndBlock(geo, files[ino]))
      modifies this`disk, this`bits, this`free, this`sb, this`files
      ensures Inv(S()) && geo == old(geo) && ino in files && (ret == 0 || ret == -ENOSPC) && Kept(old(S()), S(), ino)
      ensures ret == 0 <==> !Full(old(S())) && EndBlock(geo, old(files)[ino]) < DIRECT
      ensures ret == 0 ==> Appended(old(S()), S(), ino, EndBlock(geo, old(files)[ino]), block)
      ensures ret != 0 ==> AllSame(old(S()), S())
    {
      hide Inv, Ref, RefsOk, BitsOk, DiskOk, Spare, KeptBut, AllKept, InUse, Full, EndBlock, Appended, Takable, Taken;
      ghost var fs := S();
      SameRefl(fs);
      BlockSize(fs);
      KeptRefl(fs, ino);
      var lb := EndBlock(geo, files[ino]);
      var pb, g, i := AllocBlock();
      if pb == 0 {
        FullIs(fs);
        return -ENOSPC;
      }
      NotFull(fs, g, i);
      ghost var fs1 := S();
      SameInv(fs, fs1);
      assert SameFile(fs, fs1, ino);
      if lb >= DIRECT {
        AllKeptKept(fs, fs1, ino);
        return -ENOSPC;
      }
      Hang(ino, lb, pb, block, fs);
      ret := 0;
    }

    /** The block pb, just taken, becomes block lb of the file, with the given contents; the file grows by it. */
    method Hang(ino: nat, lb: nat, pb: nat, block: seq<Byte>, ghost fs: Fs)
      requires Inv(fs) && Inv(S()) && AllSame(fs, S()) && AllKept(fs, S()) && ino in fs.files && ino in files && geo.bs > 0
      requires Spare(S(), pb) && pb in disk && disk[pb] == Zeros(geo.bs) && !InUse(fs, pb)
      requires |block| == geo.bs && lb < DIRECT && !Mapped(fs, ino, lb)
      modifies this`disk, this`files
      ensures Inv(S()) && geo == old(geo) && ino in files && Kept(fs, S(), ino) && Appended(fs, S(), ino, lb, block)
    {
      hide Inv, Ref, RefsOk, BitsOk, DiskOk, Spare, KeptBut, AllKept, InUse, FileWritten, Opened;
      ghost var fs1 := S();
      assert SameFile(fs, fs1, ino);
      SparePb(fs1, pb);
      IblockSize(fs1, ino);
      assert lb < geo.Limit();
      ghost var fs2 := Linked(fs1, ino, lb, pb);
      NotMapped(fs, fs1, ino, lb);
      LinkedOpens(fs1, ino, lb, pb);
      files := files[ino := files[ino].(iblock := files[ino].iblock[lb := pb])];
      KeptAfterTake(fs, fs1, fs2, ino, pb);
      OpenedAfter(fs, fs1, fs2, ino, lb);
      OpenedFacts(fs, fs2, ino, lb);
      BlockFilled(fs, fs2, ino, lb, block);
      WriteKept(fs2, ino, SlotOf(lb), block);
      disk := disk[pb := block];
      ghost var fs3 := S();
      KeptTrans(fs, fs2, fs3, ino, 0);
      SizedFacts(fs, fs3, ino, lb * geo.bs, block, files[ino].size + geo.bs);
      SizedKept(fs, fs3, ino, files[ino].size + geo.bs);
      files := files[ino := files[ino].(size := files[ino].size + geo.bs)];
    }

    /** ext4_read_data: the bytes from pos on, as many as asked for and mapped. */
    method ReadData(ino: nat, pos: nat, len: nat) returns (ret: int, out: seq<Byte>)
      requires Inv(S()) && ino in files && geo.bs > 0 && pos < U64 && len < U64
      ensures ret == if out == [] && pos < files[ino].size && len > 0 then -ENOSYS else |out|
      ensures var most := Asked(files[ino].size, pos, len);
              |out| <= most && (|out| < most ==> (Wrapped(geo, pos) + |out|) / geo.bs >= geo.Limit())
      ensures forall k: nat :: k < |out| ==> out[k] == ReadByte(S(), ino, Wrapped(geo, pos) + k)
    {
      hide Inv, Ref, Wrapped, Data, Geo.Limit, ReadByte;
      out := [];
      var size := files[ino].size;
      if pos >= size { return 0, out; }
      var left := len;
      if (pos + left) % U64 > size { left := size - pos; }
      ghost var w, most := Wrapped(geo, pos), left;
      GeoFacts(S(), pos);
      while left > 0
        invariant 0 <= left <= most && |out| == most - left && (out == [] || w + |out| <= geo.Limit() * geo.bs)
        invariant forall k: nat :: k < |out| ==> out[k] == ReadByte(S(), ino, w + k)
      {
        WrapPos(geo, pos, |out|);
        var p := (pos + |out|) % U64;
        Cut64(S(), pos + |out|);
        var lb, off := p / geo.bs % U32, p % geo.bs;
        var m := geo.bs - off;
        if m > left { m := left; }
        var pb := GetBlock(ino, lb);
        if pb == NO_BLOCK { return if out == [] then -ENOSYS else |out|, out; }
        ReadBlock(S(), ino, lb);
        Positions(geo.bs, w + |out|);
        ChunkEnd(geo, lb, off, m);
        ReadMore(S(), ino, w, out, lb, off, m);
        out := out + disk[pb][off..off + m];
        left := left - m;
      }
      ret := |out|;
    }

    /** One round of the loop in ext4_write_file: the next bytes, up to the end of their block.  No
        bytes when the block cannot be had. */
    method WriteChunk(ino: nat, pos: nat, data: seq<Byte>, total: nat, ghost fs0: Fs) returns (m: nat)
      requires Inv(fs0) && geo == fs0.geo && geo.bs > 0 && ino in files && total < |data|
      requires Wrapped(geo, pos) + total < U32 * geo.bs
      requires FileWritten(fs0, S(), ino, Wrapped(geo, pos), data[..total]) && Kept(fs0, S(), ino)
      modifies this`disk, this`bits, this`free, this`sb, this`files
      ensures geo == old(geo) && ino in files && total + m <= |data|
      ensures FileWritten(fs0, S(), ino, Wrapped(geo, pos), data[..total + m]) && Kept(fs0, S(), ino)
      ensures m > 0 ==> Wrapped(geo, pos) + total + m <= geo.Limit() * geo.bs
      ensures m == 0 ==> (Wrapped(geo, pos) + total) / geo.bs >= geo.Limit() || Full(S())
      ensures if m == 0 then !Completes(old(S()), ino, Wrapped(geo, pos) + total, |data| - total)
              else Resumes(old(S()), S(), ino, Wrapped(geo, pos) + total, |data| - total, m)
    {
      hide Inv, Ref, RefsOk, FileWritten, Opened, Wrapped, Full, KeptBut, InUse, Completes, Resumes, Sum, Cost, HasTable, Geo.Limit;
      ghost var fs, w := S(), Wrapped(geo, pos);
      WrittenFacts(fs0, fs, ino, w, data[..total]);
      WrapPos(geo, pos, total);
      var p := pos + total;
      var lb, off := p / geo.bs % U32, p % geo.bs;
      m := geo.bs - off;
      if m > |data| - total { m := |data| - total; }
      var pb := OpenBlock(ino, lb);
      KeptTrans(fs0, fs, S(), ino, 0);
      Positions(geo.bs, w + total);
      if pb == 0 {
        CannotComplete(fs, ino, w + total, |data| - total);
        SameFacts(fs, S(), ino);
        FileSame(fs0, fs, S(), ino, w, data[..total]);
        return 0;
      }
      ghost var fs1 := S();
      OpenedFacts(fs, fs1, ino, lb);
      ChunkEnd(geo, lb, off, m);
      ChunkDone(fs0, fs, fs1, ino, w, data, total, m, lb, off);
      PutBytes(pb, off, data[total..total + m]);
    }

    /** The block is written whole, or read, changed and written. */
    method PutBytes(pb: nat, off: nat, chunk: seq<Byte>)
      requires pb in disk && |disk[pb]| == geo.bs && off + |chunk| <= |disk[pb]|
      modifies this`disk
      ensures disk == old(disk)[pb := old(disk)[pb][..off] + chunk + old(disk)[pb][off + |chunk|..]]
    {
      if off == 0 && |chunk| == geo.bs {
        WholeBlock(disk[pb], chunk);
        disk := disk[pb := chunk];
      } else {
        var tmp := disk[pb];
        disk := disk[pb := tmp[..off] + chunk + tmp[off + |chunk|..]];
      }
    }
  }

  /** What writing one chunk into its opened block means for the file, the other blocks and the rest of the
      write. */
  lemma ChunkDone(fs0: Fs, fs: Fs, fs1: Fs, ino: nat, w: nat, data: seq<Byte>, total: nat, m: nat, lb: nat, off: nat)
    requires fs.geo == fs0.geo && fs1.geo == fs0.geo && fs0.geo.bs > 0 && total + m <= |data| && m > 0
    requires Inv(fs0) && FileWritten(fs0, fs, ino, w, data[..total]) && Kept(fs0, fs1, ino) && Opened(fs, fs1, ino, lb)
    requires Chunk(fs0.geo.bs, w, total, m, lb, off) && (total + m == |data| || off + m == fs0.geo.bs)
    requires lb < fs.geo.Limit() && Cost(fs, ino, lb) <= Sum(fs.free) && Sum(fs1.free) == Sum(fs.free) - Cost(fs, ino, lb)
    requires HasTable(fs1, ino) <==> HasTable(fs, ino) || lb >= DIRECT
    requires var b := Ref(fs1, ino, SlotOf(lb)); b in fs1.disk && |fs1.disk[b]| == fs0.geo.bs && Data(fs1, ino, lb) == fs1.disk[b]
    ensures var b := Ref(fs1, ino, SlotOf(lb));
            var d := fs1.disk[b];
            var fs2 := Written(fs1, b, d[..off] + data[total..total + m] + d[off + m..]);
            && FileWritten(fs0, fs2, ino, w, data[..total + m]) && Kept(fs0, fs2, ino)
            && Resumes(fs, fs2, ino, w + total, |data| - total, m)
  {
    hide Inv, Ref, FileWritten, Opened, KeptBut, Completes, Remaining, Sum, Cost, HasTable, Geo.Limit, Data;
    var b := Ref(fs1, ino, SlotOf(lb));
    var d := fs1.disk[b];
    var d' := d[..off] + data[total..total + m] + d[off + m..];
    OpenedMapped(fs, fs1, ino, lb);
    Bits.DivUnique(w + total, fs0.geo.bs, lb, off);
    assert (lb + 1) * fs0.geo.bs == lb * fs0.geo.bs + fs0.geo.bs;
    FileStep(fs0, fs, fs1, ino, w, data, total, m, lb, off);
    CompletesNext(fs, fs1, ino, w + total, |data| - total, m);
    CompletesWritten(fs1, ino, lb, d', w + total + m, |data| - total - m);
    WriteKept(fs1, ino, SlotOf(lb), d');
    KeptTrans(fs0, fs1, Written(fs1, b, d'), ino, 0);
  }

  lemma OpenedMapped(fs: Fs, fs1: Fs, ino: nat, lb: nat)
    requires Opened(fs, fs1, ino, lb)
    ensures Inv(fs1) && Mapped(fs1, ino, lb) && Ref(fs1, ino, SlotOf(lb)) != 0 && SlotOf(lb) != DIRECT
  {
    hide Inv, Ref;
  }

  lemma NothingMore(fs: Fs, ino: nat, x: nat)
    ensures Completes(fs, ino, x, 0) && Remaining(fs, ino, x, 0) == Sum(fs.free)
  {
  }

  /** A block that cannot be had stops the write. */
  lemma CannotComplete(fs: Fs, ino: nat, x: nat, n: nat)
    requires fs.geo.bs > 0 && n > 0
    requires var lb := x / fs.geo.bs; !(lb < fs.geo.Limit() && Cost(fs, ino, lb) <= Sum(fs.free))
    ensures !Completes(fs, ino, x, n)
  {
    hide Mapped, Geo.Limit, Sum;
    var bs, lb := fs.geo.bs, x / fs.geo.bs;
    Positions(bs, x);
    if x + n <= fs.geo.Limit() * bs {
      Quotient(x, bs, fs.geo.Limit());
      EndAfter(bs, x, n);
    }
  }

  lemma EndAfter(bs: nat, x: nat, n: nat)
    requires bs > 0 && n > 0
    ensures EndOf(bs, x + n) > x / bs
  {
    DivMod(x, bs);
    DivMod(x + n + bs - 1, bs);
    if EndOf(bs, x + n) <= x / bs { Bits.MulLe(EndOf(bs, x + n), x / bs, bs); }
  }

  lemma EndInBlock(bs: nat, lb: nat, off: nat, n: nat)
    requires 0 < n && off + n <= bs
    ensures EndOf(bs, lb * bs + off + n) == lb + 1
  {
    assert lb * bs + off + n + bs - 1 == (lb + 1) * bs + (off + n - 1);
    Bits.DivUnique(lb * bs + off + n + bs - 1, bs, lb + 1, off + n - 1);
  }

  /** After m bytes the rest completes exactly when all would have, and leaves as many blocks free. */
  ghost predicate Resumes(fs: Fs, fs': Fs, ino: nat, x: nat, n: nat, m: nat) {
    && m <= n && (Completes(fs, ino, x, n) <==> Completes(fs', ino, x + m, n - m))
    && Remaining(fs, ino, x, n) == Remaining(fs', ino, x + m, n - m)
  }

  /** After the block of byte x has been opened. */
  lemma CompletesNext(fs: Fs, fs': Fs, ino: nat, x: nat, n: nat, m: nat)
    requires fs.geo.bs > 0 && fs'.geo == fs.geo && 0 < m <= n
    requires var lb := x / fs.geo.bs;
             && lb < fs.geo.Limit() && Cost(fs, ino, lb) <= Sum(fs.free) && Sum(fs'.free) == Sum(fs.free) - Cost(fs, ino, lb)
             && (HasTable(fs', ino) <==> HasTable(fs, ino) || lb >= DIRECT) && Opened(fs, fs', ino, lb)
             && (m == n || x + m == (lb + 1) * fs.geo.bs) && x % fs.geo.bs + m <= fs.geo.bs
    ensures Resumes(fs, fs', ino, x, n, m)
  {
    hide Mapped, Sum, HasTable, Geo.Limit, Opened, Need, Cost;
    var bs, lb := fs.geo.bs, x / fs.geo.bs;
    Positions(bs, x);
    ChunkEnd(fs.geo, lb, x % bs, m);
    var hi, table := EndOf(bs, x + n), HasTable(fs, ino) || lb >= DIRECT;
    EndAfter(bs, x, n);
    SameAbove(fs, fs', ino, lb);
    NeedSame(fs, fs', ino, lb + 1, hi, table);
    NeedStep(fs, ino, lb, hi);
    if m == n {
      EndInBlock(bs, lb, x % bs, n);
      NeedNone(fs', ino, lb + 1, table);
    } else {
      Bits.DivUnique(x + m, bs, lb + 1, 0);
      hide EndOf;
    }
  }

  lemma SameAbove(fs: Fs, fs': Fs, ino: nat, lb: nat)
    requires Opened(fs, fs', ino, lb)
    ensures forall l: nat :: l > lb ==> (Mapped(fs', ino, l) <==> Mapped(fs, ino, l))
  {
    hide Mapped, Inv;
    forall l: nat | l > lb ensures Mapped(fs', ino, l) <==> Mapped(fs, ino, l) { assert BlockSame(fs, fs', ino, l); }
  }

  lemma NeedStep(fs: Fs, ino: nat, lb: nat, hi: nat)
    requires lb < hi
    ensures Need(fs, ino, lb, hi, HasTable(fs, ino))
         == Cost(fs, ino, lb) + Need(fs, ino, lb + 1, hi, HasTable(fs, ino) || lb >= DIRECT)
  {
    if Mapped(fs, ino, lb) && lb >= DIRECT { MappedByTable(fs, ino, lb); }
    hide Mapped, HasTable;
  }

  lemma NeedNone(fs: Fs, ino: nat, hi: nat, table: bool)
    ensures Need(fs, ino, hi, hi, table) == 0
  {
  }

  /** Writing a data block changes nothing about that. */
  lemma CompletesWritten(fs: Fs, ino: nat, lb: nat, data: seq<Byte>, x: nat, n: nat)
    requires Inv(fs) && Mapped(fs, ino, lb) && |data| == fs.geo.bs
    ensures var fs' := Written(fs, Ref(fs, ino, SlotOf(lb)), data);
            (Completes(fs', ino, x, n) <==> Completes(fs, ino, x, n)) && Remaining(fs', ino, x, n) == Remaining(fs, ino, x, n)
  {
    hide Inv, Ref, Sum;
    var fs' := Written(fs, Ref(fs, ino, SlotOf(lb)), data);
    WriteKeeps(fs, ino, SlotOf(lb), data);
    if fs.geo.bs > 0 {
      NeedSame(fs, fs', ino, x / fs.geo.bs, EndOf(fs.geo.bs, x + n), HasTable(fs, ino));
    }
  }

  /** There is a bitmap for each group of bits. */
  lemma Groups(fs: Fs)
    requires Inv(fs)
    ensures |fs.geo.bitmaps| == |fs.bits| == |fs.free|
  {
    hide RefsOk, BitsOk;
  }

  /** What the descriptor of group g says. */
  lemma GroupThere(fs: Fs, g: nat)
    requires Inv(fs) && g < |fs.bits|
    ensures fs.geo.bs > 0 && |fs.free| == |fs.bits|
    ensures var gd, off := fs.geo.Desc(g), fs.geo.DescOff(g);
            && gd in fs.disk && off + GD_SIZE <= |fs.disk[gd]|
            && var bgd := fs.disk[gd][off..off + GD_SIZE];
               Half(bgd, GD_FREE) == fs.free[g] && Word(bgd, 0) == fs.geo.bitmaps[g] && fs.geo.bitmaps[g] in fs.disk
  {
    hide RefsOk, BitsOk, Geo.Desc, Geo.DescOff, Bit;
    assert GroupOk(fs.geo, fs.disk, g, fs.bits[g], fs.free[g]);
  }

  /** What the bitmap of group g says. */
  lemma BitThere(fs: Fs, g: nat, k: nat)
    requires Inv(fs) && g < |fs.bits| && k < fs.geo.Search()
    ensures g < |fs.geo.bitmaps| && fs.geo.bitmaps[g] in fs.disk && k / 8 < |fs.disk[fs.geo.bitmaps[g]]|
    ensures k < |fs.bits[g]| && (Bit(fs.disk[fs.geo.bitmaps[g]], k) <==> fs.bits[g][k])
    ensures Bit(fs.disk[fs.geo.bitmaps[g]], k) <==> !Clear(fs, g, k)
  {
    assert |fs.bits[g]| == fs.geo.bs * 8;
    hide RefsOk, BitsOk, Geo.Desc, Geo.DescOff, Bit;
    assert GroupOk(fs.geo, fs.disk, g, fs.bits[g], fs.free[g]);
  }

  /** A group that counts no free block has none. */
  lemma FullGroup(fs: Fs, g: nat)
    requires Inv(fs) && g < |fs.bits| && |fs.free| == |fs.bits| && fs.free[g] == 0
    ensures forall j: nat :: !Clear(fs, g, j)
  {
    hide RefsOk, Recorded;
    var n := fs.geo.Search();
    UnsetNone(fs.bits[g][..n]);
    forall j: nat ensures !Clear(fs, g, j) { assert j < n ==> fs.bits[g][..n][j]; }
  }

  lemma FullIs(fs: Fs)
    requires forall g: nat, i: nat :: !Clear(fs, g, i)
    ensures Full(fs)
  {
  }

  lemma NotFull(fs: Fs, g: nat, i: nat)
    requires Clear(fs, g, i)
    ensures !Full(fs)
  {
  }

  lemma SameInv(fs: Fs, fs': Fs)
    requires AllSame(fs, fs')
    ensures Inv(fs') && fs'.geo == fs.geo
  {
  }

  lemma NotMapped(fs: Fs, fs1: Fs, ino: nat, lb: nat)
    requires SameFile(fs, fs1, ino) && fs1.geo == fs.geo && !Mapped(fs, ino, lb)
    ensures !Mapped(fs1, ino, lb)
  {
    hide Ref;
  }

  /** A block written whole. */
  lemma BlockFilled(fs: Fs, fs2: Fs, ino: nat, lb: nat, block: seq<Byte>)
    requires Inv(fs) && ino in fs.files && Opened(fs, fs2, ino, lb) && |block| == fs.geo.bs > 0
    ensures FileWritten(fs, Written(fs2, Ref(fs2, ino, SlotOf(lb)), block), ino, lb * fs.geo.bs, block)
  {
    hide Inv, Ref, FileWritten, Opened, Data;
    OpenedFacts(fs, fs2, ino, lb);
    FileStart(fs, ino, lb * fs.geo.bs);
    assert block[..0] == [] && block[0..|block|] == block && block[..|block|] == block;
    WholeBlock(Data(fs2, ino, lb), block);
    FileStep(fs, fs, fs2, ino, lb * fs.geo.bs, block, 0, fs.geo.bs, lb, 0);
  }

  lemma TakeSum(fs: Fs, g: nat, i: nat)
    requires Inv(fs) && Clear(fs, g, i)
    ensures |fs.free| == |fs.bits| && fs.free[g] > 0 && Sum(fs.free) > 0 && Sum(fs.free[g := fs.free[g] - 1]) == Sum(fs.free) - 1
  {
    hide Inv, Sum, Markable;
    CanTake(fs, g, i);
    SumLess(fs.free, g);
  }

  /** Everything about taking a clear block at once. */
  lemma TakeAll(fs: Fs, g: nat, i: nat)
    requires Inv(fs) && Clear(fs, g, i)
    ensures Takable(fs, g, i) && AllSame(fs, Taken(fs, g, i)) && AllKept(fs, Taken(fs, g, i))
    ensures var b := fs.geo.Block(g, i);
            Spare(Taken(fs, g, i), b) && !InUse(fs, b) && 0 < b < NO_BLOCK && b in Taken(fs, g, i).disk
  {
    hide RefsOk, DiskOk, AllKept, InUse, SameFile, Recorded, BitsOk, Record, Spare, Markable, Marked;
    TakeKeeps(fs, g, i);
    TakeKept(fs, g, i);
    FreeOnDevice(fs, g, i);
  }

  /** The three writes of ext4_alloc_block to the records are Marked. */
  lemma MarkSteps(fs: Fs, g: nat, i: nat, bgd: seq<Byte>)
    requires Inv(fs) && Takable(fs, g, i)
    requires bgd == fs.disk[fs.geo.Desc(g)][fs.geo.DescOff(g)..fs.geo.DescOff(g) + GD_SIZE]
    ensures var gd, su, off := fs.geo.Desc(g), fs.geo.Super(), fs.geo.DescOff(g);
            var d1 := fs.disk[fs.geo.bitmaps[g] := SetBit(fs.disk[fs.geo.bitmaps[g]], i)];
            && |bgd| == GD_SIZE && off + GD_SIZE <= |d1[gd]|
            && var d2 := d1[gd := Patch(d1[gd], off, SetHalf(bgd, GD_FREE, (Half(bgd, GD_FREE) + 65535) % 65536))];
               && su in d2 && fs.geo.SuperOff() + SB_SIZE <= |d2[su]|
               && d2[su := Patch(d2[su], fs.geo.SuperOff(), OneLess(fs.sb))] == Marked(fs.geo, fs.disk, fs.sb, g, i)
  {
    hide RefsOk, BitsOk, Geo.Desc, Geo.DescOff, Geo.Super, Geo.SuperOff, SetBit, OneLess, SuperOk, GroupOk, NoDup;
    DescNotSuper(fs.geo, g);
    var gd, off := fs.geo.Desc(g), fs.geo.DescOff(g);
    assert fs.geo.bitmaps[g] != gd && fs.geo.bitmaps[g] != fs.geo.Super();
    HalfInside(fs.disk[gd], off);
  }

  /** Setting a count in a copy of the descriptor and putting it back is setting it in place. */
  lemma HalfInside(b: seq<Byte>, off: nat)
    requires off + GD_SIZE <= |b|
    ensures var d := b[off..off + GD_SIZE];
            Half(d, GD_FREE) == Half(b, off + GD_FREE) &&
            forall w: nat :: w < 65536 ==> Patch(b, off, SetHalf(d, GD_FREE, w)) == SetHalf(b, off + GD_FREE, w)
  {
  }

  /** Cutting a position to 64 bits does not change its 32-bit block number or its offset. */
  lemma Cut64(fs: Fs, x: nat)
    requires Inv(fs)
    ensures var bs := fs.geo.bs; x % U64 / bs % U32 == x / bs % U32 && x % U64 % bs == x % bs
  {
    BlockSize(fs);
    hide Inv;
    CutBy(x, fs.geo.bs, U32 / fs.geo.bs);
  }

  lemma CutBy(x: nat, bs: nat, c: nat)
    requires bs > 0 && U64 == c * (U32 * bs)
    ensures x % U64 / bs % U32 == x / bs % U32 && x % U64 % bs == x % bs
  {
    var m := U32 * bs;
    var q, y := x / U64, x % U64;
    var p, w := y / m, y % m;
    DivMod(x, U64);
    DivMod(y, m);
    WrapSum(y, bs, p, w, 0);
    Bits.MulAssoc(q, c, m);
    assert x == (q * c + p) * m + w;
    WrapSum(x, bs, q * c + p, w, 0);
  }

  lemma {:induction false} Positions(bs: nat, x: nat)
    requires bs > 0
    ensures x == x / bs * bs + x % bs
  {
    DivMod(x, bs);
  }

  lemma SameRefl(fs: Fs)
    requires Inv(fs)
    ensures AllSame(fs, fs)
  {
  }

  lemma SparePb(fs: Fs, pb: nat)
    requires Spare(fs, pb)
    ensures pb in fs.disk && 0 < pb < NO_BLOCK
  {
  }

  lemma IblockSize(fs: Fs, ino: nat)
    requires Inv(fs) && ino in fs.files
    ensures |fs.files[ino].iblock| == DIRECT + 1
  {
  }

  lemma RefSmall(fs: Fs, ino: nat, k: nat)
    requires Inv(fs) && ino in fs.files
    ensures |fs.files[ino].iblock| == DIRECT + 1 && Ref(fs, ino, k) != NO_BLOCK
  {
    if Ref(fs, ino, k) != 0 { assert InUse(fs, Ref(fs, ino, k)); }
  }

  /** A spare block hung straight into the inode. */
  lemma LinkedOpens(fs: Fs, ino: nat, lb: nat, pb: nat)
    requires Inv(fs) && ino in fs.files && lb < DIRECT && Spare(fs, pb) && !Mapped(fs, ino, lb)
    requires fs.disk[pb] == Zeros(fs.geo.bs) && |fs.files[ino].iblock| == DIRECT + 1
    ensures var fs' := Linked(fs, ino, lb, pb);
            Opened(fs, fs', ino, lb) && Ref(fs', ino, SlotOf(lb)) == pb && KeptBut(fs, fs', ino, pb)
  {
    hide Recorded, Record, BitsOk, DiskOk;
    var fs' := Linked(fs, ino, lb, pb);
    BlockSize(fs);
    assert Ref(fs, ino, lb) == fs.files[ino].iblock[lb] == 0;
    LinkKeeps(fs, ino, lb, pb);
    hide Inv, Ref;
    KeptOneMore(fs, fs', ino, lb, pb);
    forall l: nat | l != lb ensures BlockSame(fs, fs', ino, l) { assert SlotOf(l) != lb; }
    assert SlotOf(lb) == lb;
  }

  /** Taking another block leaves a spare one spare. */
  lemma StillSpare(fs: Fs, fs1: Fs, g: nat, i: nat, pb: nat)
    requires Inv(fs) && Spare(fs, pb) && Clear(fs, g, i) && Takable(fs, g, i) && fs1 == Taken(fs, g, i) && AllSame(fs, fs1)
    ensures Spare(fs1, pb) && pb != fs.geo.Block(g, i) && fs1.disk[pb] == fs.disk[pb]
  {
    hide Inv, Ref, BitsOk, DiskOk, Record, Marked, Markable;
    TakeBits(fs, g, i);
    MarkedSizes(fs.geo, fs.disk, fs.sb, g, i);
    assert pb != fs.geo.Block(g, i);
    TakenElsewhere(fs, g, i, pb);
    forall ino: nat, k: nat ensures Ref(fs1, ino, k) != pb { assert SameFile(fs, fs1, ino); }
  }

  /** The file has an indirect block, its data blocks are those it had, and pb is ready to be entered. */
  ghost predicate Tabled(fs: Fs, fs2: Fs, ino: nat, pb: nat) {
    && OthersSame(fs, fs2, ino) && (forall l: nat :: BlockSame(fs, fs2, ino, l))
    && |fs2.files[ino].iblock| == DIRECT + 1 && fs2.files[ino].iblock[DIRECT] != 0
    && Spare(fs2, pb) && fs2.disk[pb] == Zeros(fs.geo.bs)
  }

  lemma NoTable(fs: Fs, ino: nat, pb: nat)
    requires Inv(fs) && ino in fs.files && |fs.files[ino].iblock| == DIRECT + 1 && fs.files[ino].iblock[DIRECT] != 0
    requires Spare(fs, pb) && fs.disk[pb] == Zeros(fs.geo.bs)
    ensures Tabled(fs, fs, ino, pb)
  {
    hide Inv, Ref;
  }

  lemma LinkedTable(fs: Fs, fs1: Fs, ino: nat, t: nat, pb: nat)
    requires Inv(fs) && AllSame(fs, fs1) && ino in fs.files && |fs.files[ino].iblock| == DIRECT + 1
    requires fs.files[ino].iblock[DIRECT] == 0 && Spare(fs1, t) && fs1.disk[t] == Zeros(fs.geo.bs)
    requires Spare(fs1, pb) && pb != t && fs1.disk[pb] == Zeros(fs.geo.bs)
    ensures ino in fs1.files && fs1.files[ino] == fs.files[ino] && Tabled(fs, Linked(fs1, ino, DIRECT, t), ino, pb)
    ensures KeptBut(fs1, Linked(fs1, ino, DIRECT, t), ino, t)
  {
    hide Recorded, Record, BitsOk;
    assert SameFile(fs, fs1, ino);
    BlockSize(fs1);
    var fs2 := Linked(fs1, ino, DIRECT, t);
    LinkKeeps(fs1, ino, DIRECT, t);
    forall l: nat ensures BlockSame(fs, fs2, ino, l) {
      assert SlotOf(l) != DIRECT;
      if Mapped(fs, ino, l) { RefThere(fs, ino, SlotOf(l)); }
    }
    hide Inv, Ref;
    KeptOneMore(fs1, fs2, ino, DIRECT, t);
    forall a: nat | a != ino ensures SameFile(fs, fs2, a) { assert SameFile(fs, fs1, a); }
    forall b | InUse(fs1, b) ensures InUse(fs2, b) {}
  }

  /** The spare block entered into the table. */
  lemma EnteredOpens(fs: Fs, fs2: Fs, ino: nat, lb: nat, pb: nat)
    requires Inv(fs) && Tabled(fs, fs2, ino, pb) && DIRECT <= lb < fs.geo.Limit() && !Mapped(fs, ino, lb)
    ensures var t := fs2.files[ino].iblock[DIRECT];
            && pb < U32 && t in fs2.disk && (lb - DIRECT) * 4 + 4 <= |fs2.disk[t]|
            && var fs' := fs2.(disk := fs2.disk[t := SetWord(fs2.disk[t], (lb - DIRECT) * 4, pb)]);
               Opened(fs, fs', ino, lb) && Ref(fs', ino, SlotOf(lb)) == pb
  {
    hide Recorded, Record, BitsOk, DiskOk, Word, SetWord;
    var j := lb - DIRECT;
    assert BlockSame(fs, fs2, ino, lb);
    SparePb(fs2, pb);
    TableThere(fs2, ino);
    EnterKeeps(fs2, ino, j, pb);
    var t := fs2.files[ino].iblock[DIRECT];
    var fs' := Entered(fs2, ino, j, pb);
    assert forall a: nat, k: nat :: Ref(fs2, a, k) == t ==> a == ino && k == DIRECT by { TableOnly(fs2, ino); }
    assert Ref(fs2, ino, DIRECT) == t;
    hide Inv, Ref, SetWord, InUse;
    forall l: nat | l != lb ensures BlockSame(fs, fs', ino, l) {
      assert BlockSame(fs, fs2, ino, l);
      assert SlotOf(l) != DIRECT && SlotOf(l) != DIRECT + 1 + j;
    }
    forall a: nat | a != ino ensures SameFile(fs, fs', a) { assert SameFile(fs, fs2, a); }
  }

  lemma EnteredKept(fs: Fs, ino: nat, j: nat, pb: nat)
    requires Inv(fs) && ino in fs.files && fs.files[ino].iblock[DIRECT] != 0 && j < fs.geo.Entries()
    requires Ref(fs, ino, DIRECT + 1 + j) == 0 && Spare(fs, pb)
    ensures var t := fs.files[ino].iblock[DIRECT];
            && pb < U32 && t in fs.disk && j * 4 + 4 <= |fs.disk[t]|
            && KeptBut(fs, fs.(disk := fs.disk[t := SetWord(fs.disk[t], j * 4, pb)]), ino, pb)
  {
    hide Recorded, Record, BitsOk, DiskOk, Word, SetWord;
    BlockSize(fs);
    SparePb(fs, pb);
    TableThere(fs, ino);
    EnterKeeps(fs, ino, j, pb);
    var t := fs.files[ino].iblock[DIRECT];
    assert Ref(fs, ino, DIRECT) == t && !Record(fs.geo, t);
    hide Inv, Ref, InUse;
    assert Owns(fs, ino, t);
    KeptOneMore(fs, Entered(fs, ino, j, pb), ino, DIRECT + 1 + j, pb);
  }

  lemma TabledSlot(fs: Fs, fs2: Fs, ino: nat, lb: nat, pb: nat)
    requires Tabled(fs, fs2, ino, pb) && DIRECT <= lb < fs.geo.Limit() && !Mapped(fs, ino, lb)
    ensures Inv(fs2) && ino in fs2.files && Ref(fs2, ino, lb + 1) == 0 && Spare(fs2, pb) && fs2.geo == fs.geo
  {
    hide Inv, Ref, InUse;
    assert BlockSame(fs, fs2, ino, lb);
  }

  lemma TableOnly(fs: Fs, ino: nat)
    requires Inv(fs) && ino in fs.files && fs.files[ino].iblock[DIRECT] != 0
    ensures forall a: nat, k: nat :: Ref(fs, a, k) == fs.files[ino].iblock[DIRECT] ==> a == ino && k == DIRECT
  {
    assert Ref(fs, ino, DIRECT) == fs.files[ino].iblock[DIRECT];
    hide Ref;
  }

  lemma SameTrans(fs: Fs, fs1: Fs, fs2: Fs)
    requires Inv(fs) && AllSame(fs, fs1) && AllSame(fs1, fs2)
    ensures AllSame(fs, fs2)
  {
    hide Inv, Ref;
    forall a: nat ensures SameFile(fs, fs2, a) { assert SameFile(fs, fs1, a) && SameFile(fs1, fs2, a); }
  }

  lemma StillUnmapped(fs: Fs, fs1: Fs, ino: nat, lb: nat)
    requires Inv(fs) && AllSame(fs, fs1) && ino in fs.files && lb < fs.geo.Limit() && Ref(fs, ino, SlotOf(lb)) == 0
    ensures ino in fs1.files && !Mapped(fs1, ino, lb)
  {
    hide Inv, Ref;
    assert SameFile(fs, fs1, ino);
  }

  lemma OpenedAlready(fs: Fs, ino: nat, lb: nat)
    requires Inv(fs) && ino in fs.files && Mapped(fs, ino, lb)
    ensures Opened(fs, fs, ino, lb)
  {
    hide Inv, Ref;
  }

  lemma OpenedAfter(fs: Fs, fs1: Fs, fs2: Fs, ino: nat, lb: nat)
    requires Inv(fs) && AllSame(fs, fs1) && Opened(fs1, fs2, ino, lb) && !Mapped(fs, ino, lb)
    ensures Opened(fs, fs2, ino, lb)
  {
    assert SameFile(fs, fs1, ino);
    forall l: nat ensures BlockSame(fs, fs1, ino, l) {
      if Mapped(fs, ino, l) { RefThere(fs, ino, SlotOf(l)); }
    }
    hide Inv, Ref;
    forall a: nat | a != ino ensures SameFile(fs, fs2, a) { assert SameFile(fs, fs1, a) && SameFile(fs1, fs2, a); }
    forall l: nat | l != lb ensures BlockSame(fs, fs2, ino, l) { assert BlockSame(fs1, fs2, ino, l); }
  }

  lemma GeoFacts(fs: Fs, pos: nat)
    requires Inv(fs)
    ensures fs.geo.bs > 0 && Wrapped(fs.geo, pos) < U32 * fs.geo.bs && fs.geo.Limit() * fs.geo.bs < U32 * fs.geo.bs
  {
    var bs := fs.geo.bs;
    assert fs.geo.Limit() < U32;
    Bits.MulLe(fs.geo.Limit() + 1, U32, bs);
    assert (fs.geo.Limit() + 1) * bs == fs.geo.Limit() * bs + bs;
  }

  lemma OpenedFacts(fs: Fs, fs1: Fs, ino: nat, lb: nat)
    requires Opened(fs, fs1, ino, lb)
    ensures Inv(fs1) && fs1.geo == fs.geo && ino in fs1.files && lb < fs.geo.Limit()
    ensures var b := Ref(fs1, ino, SlotOf(lb));
            b in fs1.disk && |fs1.disk[b]| == fs.geo.bs && Data(fs1, ino, lb) == fs1.disk[b]
  {
    RefThere(fs1, ino, SlotOf(lb));
  }

  lemma ChunkEnd(geo: Geo, lb: nat, off: nat, m: nat)
    requires lb < geo.Limit() && off + m <= geo.bs
    ensures lb * geo.bs + off + m <= geo.Limit() * geo.bs
  {
    Bits.MulLe(lb + 1, geo.Limit(), geo.bs);
    assert (lb + 1) * geo.bs == lb * geo.bs + geo.bs;
  }

  lemma WholeBlock(d: seq<Byte>, e: seq<Byte>)
    requires |e| == |d|
    ensures d[..0] + e + d[0 + |e|..] == e
  {
  }

  lemma WrittenFacts(fs0: Fs, fs: Fs, ino: nat, w: nat, data: seq<Byte>)
    requires FileWritten(fs0, fs, ino, w, data)
    ensures Inv(fs) && fs.geo == fs0.geo && ino in fs.files && ino in fs0.files && fs.files[ino].size == fs0.files[ino].size
  {
  }

  lemma SizedFacts(fs0: Fs, fs: Fs, ino: nat, w: nat, data: seq<Byte>, size: nat)
    requires FileWritten(fs0, fs, ino, w, data)
    ensures ino in fs.files && ino in fs0.files && Inv(fs) && Inv(Sized(fs, ino, size))
    ensures fs.files[ino].size == fs0.files[ino].size
    ensures Sized(fs, ino, fs0.files[ino].size) == fs && Sized(Sized(fs, ino, size), ino, fs0.files[ino].size) == fs
  {
    hide Recorded, Record, BitsOk;
    var fs' := Sized(fs, ino, size);
    assert Inv(fs);
    assert Recorded(fs') by { RecordedSame(fs, fs'); }
    forall a: nat, k: nat ensures Ref(fs', a, k) == Ref(fs, a, k) {}
    hide Ref;
    BitsSame(fs, fs');
    forall b | InUse(fs, b) ensures InUse(fs', b) {}
  }

  lemma SizedKept(fs0: Fs, fs: Fs, ino: nat, size: nat)
    requires ino in fs.files && Kept(fs0, fs, ino)
    ensures Kept(fs0, Sized(fs, ino, size), ino)
  {
    var fs' := Sized(fs, ino, size);
    forall k: nat ensures Ref(fs', ino, k) == Ref(fs, ino, k) {}
    hide Ref;
    KeptSized(fs0, fs, fs', ino);
  }

  lemma AllKeptRefl(fs: Fs)
    requires fs.geo.bs > 0
    ensures AllKept(fs, fs)
  {
    hide RecordsMoved, Record;
    MovedRefl(fs);
  }

  lemma AllKeptTrans(fs: Fs, fs1: Fs, fs2: Fs)
    requires AllKept(fs, fs1) && AllKept(fs1, fs2)
    ensures AllKept(fs, fs2)
  {
    hide RecordsMoved, Record;
    MovedTrans(fs, fs1, fs2);
    SameGeo(fs, fs1);
  }

  lemma SameFacts(fs: Fs, fs': Fs, ino: nat)
    requires AllSame(fs, fs') && ino in fs.files
    ensures ino in fs'.files && fs'.geo == fs.geo
  {
    assert SameFile(fs, fs', ino);
  }

  lemma FullSized(fs: Fs, ino: nat, size: nat)
    requires ino in fs.files
    ensures Full(fs) ==> Full(Sized(fs, ino, size))
  {
    if Full(fs) {
      forall g: nat, i: nat ensures !Clear(Sized(fs, ino, size), g, i) { assert !Clear(fs, g, i); }
    }
  }

  lemma ReadBlock(fs: Fs, ino: nat, lb: nat)
    requires Inv(fs) && ino in fs.files && lb < fs.geo.Limit()
    ensures var pb := Ref(fs, ino, SlotOf(lb));
            pb in fs.disk && |fs.disk[pb]| == fs.geo.bs && Data(fs, ino, lb) == fs.disk[pb]
  {
    var pb := Ref(fs, ino, SlotOf(lb));
    if pb != 0 { RefThere(fs, ino, SlotOf(lb)); }
  }

  /** m bytes of block lb continue what was read from w on. */
  lemma ReadMore(fs: Fs, ino: nat, w: nat, out: seq<Byte>, lb: nat, off: nat, m: nat)
    requires fs.geo.bs > 0 && off + m <= fs.geo.bs && |Data(fs, ino, lb)| == fs.geo.bs && w + |out| == lb * fs.geo.bs + off
    requires forall k: nat :: k < |out| ==> out[k] == ReadByte(fs, ino, w + k)
    ensures var more := out + Data(fs, ino, lb)[off..off + m]; forall k: nat :: k < |more| ==> more[k] == ReadByte(fs, ino, w + k)
  {
    hide ReadByte, Data;
    var more := out + Data(fs, ino, lb)[off..off + m];
    forall k: nat | |out| <= k < |more| ensures more[k] == ReadByte(fs, ino, w + k) {
      ReadByteAt(fs, ino, w + k, lb, off + (k - |out|));
    }
  }

  lemma ReadByteAt(fs: Fs, ino: nat, x: nat, lb: nat, off: nat)
    requires fs.geo.bs > 0 && x == lb * fs.geo.bs + off && off < fs.geo.bs && |Data(fs, ino, lb)| == fs.geo.bs
    ensures ReadByte(fs, ino, x) == Data(fs, ino, lb)[off]
  {
    hide Data;
    Bits.DivUnique(x, fs.geo.bs, lb, off);
  }

  /** What was written stands in the file's blocks. */
  lemma ReadBack(fs0: Fs, fs: Fs, ino: nat, w: nat, data: seq<Byte>, lb: nat, off: nat)
    requires Inv(fs0) && FileWritten(fs0, fs, ino, w, data) && lb < fs0.geo.Limit() && off < fs0.geo.bs
    requires w <= lb * fs0.geo.bs + off < w + |data|
    ensures Mapped(fs, ino, lb) && |Data(fs, ino, lb)| == fs.geo.bs == fs0.geo.bs
    ensures Data(fs, ino, lb)[off] == data[lb * fs0.geo.bs + off - w]
  {
    hide Recorded, Record, BitsOk, DiskOk, RefsOk;
    var bs := fs0.geo.bs;
    assert BlockWritten(fs0, fs, ino, lb, w, data);
    assert (lb + 1) * bs == lb * bs + bs;
    assert Touches(bs, lb, w, |data|);
    assert Inv(fs) && Mapped(fs, ino, lb);
    assert |Data(fs, ino, lb)| == bs by { hide Ref; RefThere(fs, ino, SlotOf(lb)); }
    hide Ref, Inv;
  }

  /** A byte of the file outside what was written, in a block the file had, is what it was. */
  lemma ReadRest(fs0: Fs, fs: Fs, ino: nat, w: nat, data: seq<Byte>, lb: nat, off: nat)
    requires Inv(fs0) && FileWritten(fs0, fs, ino, w, data) && Mapped(fs0, ino, lb) && off < fs0.geo.bs
    requires lb * fs0.geo.bs + off < w || w + |data| <= lb * fs0.geo.bs + off
    ensures Mapped(fs, ino, lb) && |Data(fs, ino, lb)| == |Data(fs0, ino, lb)| == fs0.geo.bs
    ensures Data(fs, ino, lb)[off] == Data(fs0, ino, lb)[off]
  {
    assert BlockWritten(fs0, fs, ino, lb, w, data);
    RefThere(fs0, ino, SlotOf(lb));
    hide Ref, Inv;
  }

  /** Every block of every other file is what it was. */
  lemma ReadOther(fs0: Fs, fs: Fs, ino: nat, w: nat, data: seq<Byte>, other: nat, lb: nat)
    requires Inv(fs0) && FileWritten(fs0, fs, ino, w, data) && other != ino && Mapped(fs0, other, lb)
    ensures Mapped(fs, other, lb) && Data(fs, other, lb) == Data(fs0, other, lb)
  {
    assert SameFile(fs0, fs, other);
    RefThere(fs0, other, SlotOf(lb));
    hide Ref, Inv;
  }

  lemma BackAt(fs0: Fs, fs: Fs, ino: nat, w: nat, data: seq<Byte>, k: nat)
    requires Inv(fs0) && ino in fs0.files && ino in fs.files && fs.geo == fs0.geo && fs.geo.bs > 0
    requires FileWritten(fs0, Sized(fs, ino, fs0.files[ino].size), ino, w, data)
    requires w + |data| <= fs.geo.Limit() * fs.geo.bs && k < |data|
    ensures ReadByte(fs, ino, w + k) == data[k]
  {
    hide Inv, FileWritten, Geo.Limit, ReadByte, Data, Mapped;
    var bs := fs.geo.bs;
    var lb, off := (w + k) / bs, (w + k) % bs;
    DivMod(w + k, bs);
    Quotient(w + k, bs, fs.geo.Limit());
    ReadBack(fs0, Sized(fs, ino, fs0.files[ino].size), ino, w, data, lb, off);
    SizedData(fs, ino, fs0.files[ino].size, lb);
    ReadByteAt(fs, ino, w + k, lb, off);
  }

  /** A write that returns n > 0, then a read of n bytes at a position with the same 32-bit block
      number: the bytes written come back. */
  method WriteThenReadAt(e: Ext4, ino: nat, pos: nat, at: nat, data: seq<Byte>) returns (n: int, got: seq<Byte>)
    requires Inv(e.S()) && ino in e.files && pos + |data| < U64
    requires e.geo.bs > 0 && at <= pos && Wrapped(e.geo, at) == Wrapped(e.geo, pos)
    modifies e
    ensures n > 0 ==> n <= |data| && got == data[..n]
    ensures n > 0 ==> ino in e.files && e.files[ino].size >= pos + n
  {
    hide Inv, FileWritten, Wrapped, Geo.Limit, Full, ReadByte, KeptBut;
    ghost var fs0 := e.S();
    GeoFacts(fs0, pos);
    ghost var m;
    n, m := e.WriteFile(ino, pos, data);
    got := [];
    if n > 0 {
      ghost var w, fs := Wrapped(e.geo, pos), e.S();
      var ret;
      ret, got := e.ReadData(ino, at, n);
      if |got| < n { Quotient(w + |got|, e.geo.bs, e.geo.Limit()); }
      forall k: nat | k < n ensures got[k] == data[k] { BackAt(fs0, fs, ino, w, data[..n], k); }
    }
  }

  /** A write that returns n > 0, then a read of those n bytes: they come back. */
  method WriteThenRead(e: Ext4, ino: nat, pos: nat, data: seq<Byte>) returns (n: int, got: seq<Byte>)
    requires Inv(e.S()) && ino in e.files && pos + |data| < U64
    modifies e
    ensures n > 0 ==> n <= |data| && got == data[..n]
  {
    hide Inv, Wrapped;
    BlockSize(e.S());
    n, got := WriteThenReadAt(e, ino, pos, pos, data);
  }

  /** A write at position 2^32 blocks is read back at position 0, and the file claims to reach to where
      the write was asked for. */
  method FarWriteReadsNear(e: Ext4, ino: nat, data: seq<Byte>) returns (n: int, got: seq<Byte>)
    requires Inv(e.S()) && ino in e.files && U32 * e.geo.bs + |data| < U64
    modifies e
    ensures n > 0 ==> n <= |data| && got == data[..n]
    ensures n > 0 ==> ino in e.files && e.files[ino].size >= U32 * old(e.geo).bs + n
  {
    hide Inv, Wrapped;
    BlockSize(e.S());
    AliasOfZero(e.geo);
    n, got := WriteThenReadAt(e, ino, U32 * e.geo.bs, 0, data);
  }

  lemma AliasOfZero(geo: Geo)
    requires geo.bs > 0
    ensures Wrapped(geo, U32 * geo.bs) == 0 == Wrapped(geo, 0)
  {
    Bits.DivUnique(U32 * geo.bs, U32 * geo.bs, 1, 0);
  }

  lemma SizedData(fs: Fs, ino: nat, size: nat, lb: nat)
    requires ino in fs.files
    ensures Data(Sized(fs, ino, size), ino, lb) == Data(fs, ino, lb)
  {
  }

  /** An image without files is well formed when its bitmaps are; and a new file starts with no blocks. */
  lemma NoFiles(fs: Fs)
    requires fs.geo.Ok() && DiskOk(fs.geo, fs.disk) && Recorded(fs) && BitsOk(fs) && fs.files == map[]
    ensures Inv(fs)
  {
    hide Recorded, Record, BitsOk;
  }

  lemma NewFile(fs: Fs, ino: nat)
    requires Inv(fs) && ino !in fs.files
    ensures Inv(fs.(files := fs.files[ino := Inode(0, seq(DIRECT + 1, _ => 0))]))
  {
    hide Recorded, Record, BitsOk;
    var fs' := fs.(files := fs.files[ino := Inode(0, seq(DIRECT + 1, _ => 0))]);
    assert Recorded(fs') by { RecordedSame(fs, fs'); }
    forall a: nat, k: nat ensures Ref(fs', a, k) == Ref(fs, a, k) {}
    hide Ref;
    BitsSame(fs, fs');
    forall b | InUse(fs, b) ensures InUse(fs', b) {}
  }

  // ---------- A device ----------

  /** One group of 1 KiB blocks: superblock in block 1, descriptor in block 2, bitmap in block 3, and
      block 4, the only free one. */
  ghost function SmallImage(): Fs {
    var super := SetWord(Zeros(1024), SB_FREE, 1);
    var desc := SetHalf(SetWord(Zeros(1024), 0, 3), GD_FREE, 1);
    var disk := map[0 := Zeros(1024), 1 := super, 2 := desc, 3 := SmallBitmap(), 4 := Zeros(1024)];
    Fs(Geo(1024, 8192, 1, 32, [3]), disk, [seq(8192, i => i != 3)], [1], super[..SB_SIZE], map[])
  }

  /** All bits but bit 3. */
  ghost function SmallBitmap(): (b: seq<Byte>)
    ensures |b| == 1024 && b[0] == 247 && forall j :: 0 < j < 1024 ==> b[j] == 255
  {
    [247] + seq(1023, _ => 255)
  }

  lemma {:induction false} AllOn(n: nat, k: nat)
    requires k < n
    ensures On(Bits.Pow2(n) - 1, k)
  {
    assert Bits.Pow2(n) == 2 * Bits.Pow2(n - 1);
    if k > 0 { AllOn(n - 1, k - 1); }
  }

  lemma SmallBits(i: nat)
    requires i < 8192
    ensures Bit(SmallBitmap(), i) <==> i != 3
  {
    assert Bits.Pow2(8) == 256 && Bits.Pow2(4) == 16;
    if i >= 8 {
      AllOn(8, i % 8);
    } else if i >= 4 {
      AllOn(4, i - 4);
      assert On(247, i) == On(123, i - 1) == On(61, i - 2) == On(30, i - 3) == On(15, i - 4);
    } else {
      assert On(247, 1) == On(123, 0) && On(247, 2) == On(123, 1) == On(61, 0);
      assert On(247, 3) == On(123, 2) == On(61, 1) == On(30, 0);
    }
  }

  lemma SmallRecords()
    ensures Recorded(SmallImage())
  {
    hide Bit, Word, SetWord;
    var fs := SmallImage();
    var geo := fs.geo;
    assert geo.Desc(0) == 2 && geo.DescOff(0) == 0 && geo.Super() == 1 && geo.SuperOff() == 0;
    assert Sum([1][..0]) == 0 && Sum([1]) == 1;
    forall i: nat | i < 8192 ensures Bit(SmallBitmap(), i) <==> i != 3 { SmallBits(i); }
    WordSet(Zeros(1024), SB_FREE, 1, SB_FREE);
    WordSet(Zeros(1024), 0, 3, 0);
    WordTake(fs.disk[1]);
    WordKept(SetWord(Zeros(1024), 0, 3), fs.disk[2]);
    assert GroupOk(geo, fs.disk, 0, fs.bits[0], fs.free[0]);
  }

  lemma WordTake(b: seq<Byte>)
    requires SB_SIZE <= |b|
    ensures Word(b[..SB_SIZE], SB_FREE) == Word(b, SB_FREE)
  {
  }

  lemma WordKept(b: seq<Byte>, c: seq<Byte>)
    requires |b| == |c| >= 4 && forall i :: 0 <= i < 4 ==> b[i] == c[i]
    ensures Word(b, 0) == Word(c, 0)
  {
  }

  /** The image is well formed: the invariant can be met. */
  lemma SmallImageOk()
    ensures Inv(SmallImage())
  {
    var fs := SmallImage();
    SmallRecords();
    hide Recorded;
    var bits := fs.bits[0];
    assert bits[3 := true] == seq(8192, _ => true);
    UnsetAll(seq(8192, _ => true));
    UnsetSet(bits, 3);
    assert bits[..8192] == bits;
    var geo := fs.geo;
    assert geo.Desc(0) == 2 && geo.Super() == 1;
    assert forall b :: Record(geo, b) ==> b < 4;
    NoFiles(fs);
  }
}
