/** ext4 files with direct and single-indirect block maps, as values: the device in filesystem blocks,
    the block bitmap of each group, and the in-memory inodes. */
module Ext4State {
  import Bits
  import opened Bytes
  import opened Ext4Records
  import opened Lists

  const NO_BLOCK: nat := 0xffff_ffff            // ~0U

  /** The size and the first thirteen words of i_block. */
  datatype Inode = Inode(size: nat, iblock: seq<nat>)

  /** `bits` and `free` are what the bitmaps and group descriptors on the disk say; `sb` is the
      superblock as it is held in memory. */
  datatype Fs = Fs(geo: Geo, disk: Disk, bits: seq<seq<bool>>, free: seq<nat>, sb: seq<Byte>, files: map<nat, Inode>)

  // ---------- Slots ----------

  /** A file's slots: 0 to 11 direct blocks, 12 the indirect block, 13 on the entries of its table. */
  function Slots(geo: Geo): nat { DIRECT + 1 + geo.Entries() }

  function SlotOf(lb: nat): nat { if lb < DIRECT then lb else lb + 1 }

  function Ref(fs: Fs, ino: nat, k: nat): nat {
    if ino !in fs.files then 0 else RefIn(fs.geo, fs.disk, fs.files[ino].iblock, k)
  }

  function RefIn(geo: Geo, disk: Disk, iblock: seq<nat>, k: nat): nat {
    if k <= DIRECT then (if k < |iblock| then iblock[k] else 0)
    else if DIRECT < |iblock| && iblock[DIRECT] != 0 && iblock[DIRECT] in disk && k < Slots(geo)
            && (k - DIRECT - 1) * 4 + 4 <= |disk[iblock[DIRECT]]|
      then Word(disk[iblock[DIRECT]], (k - DIRECT - 1) * 4)
    else 0
  }

  // ---------- Well-formed file systems ----------

  predicate Clear(fs: Fs, g: nat, i: nat) { g < |fs.bits| && i < fs.geo.Search() && i < |fs.bits[g]| && !fs.bits[g][i] }

  /** A block in use: on the device, not free, not block 0. */
  ghost predicate InUse(fs: Fs, b: nat) {
    b in fs.disk && 0 < b < NO_BLOCK && forall g: nat, i: nat :: Clear(fs, g, i) ==> fs.geo.Block(g, i) != b
  }

  ghost predicate DiskOk(geo: Geo, disk: Disk) { 0 in disk && forall b :: b in disk ==> |disk[b]| == geo.bs }

  ghost predicate BitsOk(fs: Fs) {
    && |fs.free| == |fs.bits|
    && (forall g :: 0 <= g < |fs.bits| ==> |fs.bits[g]| == fs.geo.bs * 8)
    && (forall g :: 0 <= g < |fs.bits| ==> fs.free[g] == Unset(fs.bits[g][..fs.geo.Search()]))
    && (forall g: nat, i: nat :: Clear(fs, g, i) ==>
          fs.geo.Block(g, i) in fs.disk && 0 < fs.geo.Block(g, i) < NO_BLOCK && !Record(fs.geo, fs.geo.Block(g, i)))
  }

  /** Every referenced block is in use and holds no records of the file system, and no block is referenced
      twice, by any file in any role. */
  ghost predicate RefsOk(fs: Fs) {
    && (forall ino :: ino in fs.files ==> |fs.files[ino].iblock| == DIRECT + 1)
    && (forall ino: nat, k: nat :: Ref(fs, ino, k) != 0 ==> InUse(fs, Ref(fs, ino, k)) && !Record(fs.geo, Ref(fs, ino, k)))
    && (forall a: nat, k: nat, b: nat, l: nat :: Ref(fs, a, k) != 0 && Ref(fs, a, k) == Ref(fs, b, l) ==> a == b && k == l)
  }

  /** The records on the disk say what the fields say. */
  ghost predicate Recorded(fs: Fs) { RecordsOk(fs.geo, fs.disk, fs.bits, fs.free, fs.sb) }

  ghost predicate Inv(fs: Fs) { fs.geo.Ok() && DiskOk(fs.geo, fs.disk) && Recorded(fs) && BitsOk(fs) && RefsOk(fs) }

  /** A block in use that nobody refers to yet. */
  ghost predicate Spare(fs: Fs, b: nat) { InUse(fs, b) && !Record(fs.geo, b) && forall ino: nat, k: nat :: Ref(fs, ino, k) != b }

  // ---------- Contents ----------

  predicate Mapped(fs: Fs, ino: nat, lb: nat) { lb < fs.geo.Limit() && Ref(fs, ino, SlotOf(lb)) != 0 }

  /** What a mapped block of a file holds. */
  function Data(fs: Fs, ino: nat, lb: nat): seq<Byte> {
    if Ref(fs, ino, SlotOf(lb)) in fs.disk then fs.disk[Ref(fs, ino, SlotOf(lb))] else []
  }

  /** Everything about file `ino` is as before. */
  ghost predicate SameFile(fs: Fs, fs': Fs, ino: nat) {
    && (ino in fs.files <==> ino in fs'.files) && (ino in fs.files ==> fs'.files[ino] == fs.files[ino])
    && (forall k: nat :: Ref(fs', ino, k) == Ref(fs, ino, k))
    && (forall k: nat :: Ref(fs, ino, k) != 0 && Ref(fs, ino, k) in fs.disk ==>
          Ref(fs, ino, k) in fs'.disk && fs'.disk[Ref(fs, ino, k)] == fs.disk[Ref(fs, ino, k)])
  }

  // ---------- Taking a free block ----------

  /** Bit i of group g and the records about it are there. */
  predicate Takable(fs: Fs, g: nat, i: nat) {
    && g < |fs.bits| && i < |fs.bits[g]| && |fs.free| == |fs.bits| && fs.free[g] > 0
    && Markable(fs.geo, fs.disk, fs.sb, g, i)
  }

  /** Block i of group g marked as taken, and zeroed. */
  function Taken(fs: Fs, g: nat, i: nat): Fs
    requires Takable(fs, g, i)
  {
    fs.(bits := fs.bits[g := fs.bits[g][i := true]], free := fs.free[g := fs.free[g] - 1], sb := OneLess(fs.sb),
        disk := Marked(fs.geo, fs.disk, fs.sb, g, i)[fs.geo.Block(g, i) := Zeros(fs.geo.bs)])
  }

  /** Every clear bit can be taken: the count of its group is not zero. */
  lemma CanTake(fs: Fs, g: nat, i: nat)
    requires Inv(fs) && Clear(fs, g, i)
    ensures Takable(fs, g, i)
  {
    hide RefsOk, RecordsOk, Markable;
    UnsetSet(fs.bits[g][..fs.geo.Search()], i);
    CanMark(fs.geo, fs.disk, fs.bits, fs.free, fs.sb, g, i);
  }

  /** Blocks other than the one taken and those with records stay as they are. */
  lemma TakenElsewhere(fs: Fs, g: nat, i: nat, b: nat)
    requires Takable(fs, g, i) && b != fs.geo.Block(g, i) && !Record(fs.geo, b)
    ensures b in Taken(fs, g, i).disk <==> b in fs.disk
    ensures b in fs.disk ==> Taken(fs, g, i).disk[b] == fs.disk[b]
  {
    hide Geo.Desc, Geo.DescOff, Geo.Super, Geo.SuperOff, SetBit, SetHalf, Patch, OneLess;
    var geo := fs.geo;
    assert geo.bitmaps[g] != b && geo.Desc(g) != b && geo.Super() != b;
  }

  lemma BlocksDiffer(geo: Geo, g: nat, i: nat, h: nat, j: nat)
    requires i < geo.Search() && j < geo.Search() && geo.Block(g, i) == geo.Block(h, j)
    ensures g == h && i == j
  {
    assert i < geo.perGroup && j < geo.perGroup;
    hide Geo.Search;
    if g != h { MultiplesApart(g, h, geo.perGroup); }
  }

  /** A block that is nobody's table can change without moving any file's blocks. */
  lemma RefFrame(fs: Fs, disk': Disk, b: nat, ino: nat, k: nat)
    requires ino in fs.files ==> Ref(fs, ino, DIRECT) != b || b == 0
    requires forall x :: x in fs.disk && x != b ==> x in disk' && disk'[x] == fs.disk[x]
    requires forall x :: x in disk' && x != b ==> x in fs.disk
    requires forall x :: x in fs.files ==> |fs.files[x].iblock| == DIRECT + 1
    ensures Ref(fs.(disk := disk'), ino, k) == Ref(fs, ino, k)
  {
  }

  lemma TakeBits(fs: Fs, g: nat, i: nat)
    requires Inv(fs) && Clear(fs, g, i)
    ensures Takable(fs, g, i) && BitsOk(Taken(fs, g, i)) && DiskOk(fs.geo, Taken(fs, g, i).disk)
    ensures forall h: nat, j: nat :: Clear(Taken(fs, g, i), h, j) <==> Clear(fs, h, j) && !(h == g && j == i)
  {
    hide RefsOk, Recorded, RecordsOk, Markable, Marked, Record;
    CanTake(fs, g, i);
    var n := fs.geo.Search();
    UnsetSet(fs.bits[g][..n], i);
    var fs' := Taken(fs, g, i);
    assert fs'.bits[g][..n] == fs.bits[g][..n][i := true];
    MarkedSizes(fs.geo, fs.disk, fs.sb, g, i);
  }

  lemma MarkedSizes(geo: Geo, disk: Disk, sb: seq<Byte>, g: nat, i: nat)
    requires Markable(geo, disk, sb, g, i)
    ensures Marked(geo, disk, sb, g, i).Keys == disk.Keys
    ensures forall b :: b in disk ==> |Marked(geo, disk, sb, g, i)[b]| == |disk[b]|
  {
    hide Geo.Desc, Geo.DescOff, Geo.Super, Geo.SuperOff, SetBit, SetHalf, Patch, OneLess;
  }

  /** The records agree with the fields again. */
  lemma TakeRecords(fs: Fs, g: nat, i: nat)
    requires Inv(fs) && Clear(fs, g, i)
    ensures Takable(fs, g, i) && Recorded(Taken(fs, g, i))
    ensures FieldsKept(fs.geo, fs.disk, Taken(fs, g, i).disk)
  {
    hide RefsOk, BitsOk, DiskOk, RecordsOk, Marked, Markable, OneLess, FieldsKept, Record;
    CanTake(fs, g, i);
    FreeOnDevice(fs, g, i);
    var disk, fs' := Marked(fs.geo, fs.disk, fs.sb, g, i), Taken(fs, g, i);
    MarkKeeps(fs.geo, fs.disk, fs.bits, fs.free, fs.sb, g, i);
    RecordsFrame(fs.geo, disk, fs'.disk, fs'.bits, fs'.free, fs'.sb);
    MarkFields(fs.geo, fs.disk, fs.bits, fs.free, fs.sb, g, i);
    FieldsFrame(fs.geo, disk, fs'.disk);
    FieldsTrans(fs.geo, fs.disk, disk, fs'.disk);
  }

  /** Taking a free block: it becomes a zeroed block that nobody refers to; no file changes. */
  lemma TakeKeeps(fs: Fs, g: nat, i: nat)
    requires Inv(fs) && Clear(fs, g, i)
    ensures Takable(fs, g, i) && Inv(Taken(fs, g, i)) && Spare(Taken(fs, g, i), fs.geo.Block(g, i))
    ensures forall ino: nat :: SameFile(fs, Taken(fs, g, i), ino)
  {
    hide Recorded, Marked, Record, Markable, FieldsKept, BitsOk, DiskOk, Ref;
    TakeBits(fs, g, i);
    TakeRecords(fs, g, i);
    FreeOnDevice(fs, g, i);
    var fs', b := Taken(fs, g, i), fs.geo.Block(g, i);
    assert forall ino: nat, k: nat :: Ref(fs, ino, k) != b by {
      forall ino: nat, k: nat ensures Ref(fs, ino, k) != b {
        assert Ref(fs, ino, k) != 0 ==> InUse(fs, Ref(fs, ino, k));
      }
    }
    forall ino: nat, k: nat ensures Ref(fs', ino, k) == Ref(fs, ino, k) { RefTaken(fs, g, i, ino, k); }
    forall h: nat, j: nat | Clear(fs', h, j) ensures fs'.geo.Block(h, j) != b {
      if fs.geo.Block(h, j) == b { BlocksDiffer(fs.geo, h, j, g, i); }
    }
    MarkedSizes(fs.geo, fs.disk, fs.sb, g, i);
    assert InUse(fs', b);
    forall x | InUse(fs, x) ensures InUse(fs', x) {}
    forall ino: nat ensures SameFile(fs, fs', ino) {
      forall k: nat | Ref(fs, ino, k) != 0 && Ref(fs, ino, k) in fs.disk
        ensures Ref(fs, ino, k) in fs'.disk && fs'.disk[Ref(fs, ino, k)] == fs.disk[Ref(fs, ino, k)]
      {
        TakenElsewhere(fs, g, i, Ref(fs, ino, k));
      }
    }
  }

  lemma FreeOnDevice(fs: Fs, g: nat, i: nat)
    requires BitsOk(fs) && Clear(fs, g, i)
    ensures fs.geo.Block(g, i) in fs.disk && 0 < fs.geo.Block(g, i) < NO_BLOCK && !Record(fs.geo, fs.geo.Block(g, i))
  {
  }

  lemma RefTaken(fs: Fs, g: nat, i: nat, ino: nat, k: nat)
    requires Inv(fs) && Takable(fs, g, i) && Ref(fs, ino, DIRECT) != fs.geo.Block(g, i)
    ensures Ref(Taken(fs, g, i), ino, k) == Ref(fs, ino, k)
  {
    hide BitsOk, RecordsOk, Record, Marked, Markable, InUse;
    var t := Ref(fs, ino, DIRECT);
    if t != 0 {
      assert !Record(fs.geo, t);
      TakenElsewhere(fs, g, i, t);
    }
  }

  /** One slot that was empty now refers to a block nobody referred to. */
  lemma RefsOneMore(fs: Fs, fs': Fs, ino: nat, k: nat, b: nat)
    requires RefsOk(fs) && Spare(fs, b)
    requires fs'.geo == fs.geo && fs'.bits == fs.bits && fs'.disk.Keys == fs.disk.Keys
    requires forall x :: x in fs'.files ==> |fs'.files[x].iblock| == DIRECT + 1
    requires forall a: nat, l: nat :: Ref(fs', a, l) == if a == ino && l == k then b else Ref(fs, a, l)
    ensures RefsOk(fs')
  {
    hide Ref, Record;
    forall x | InUse(fs, x) ensures InUse(fs', x) {}
  }

  lemma BitsSame(fs: Fs, fs': Fs)
    requires BitsOk(fs) && fs'.geo == fs.geo && fs'.bits == fs.bits && fs'.free == fs.free && fs'.disk.Keys == fs.disk.Keys
    ensures BitsOk(fs')
  {
    hide Record;
    forall g: nat, i: nat | Clear(fs', g, i)
      ensures fs'.geo.Block(g, i) in fs'.disk && 0 < fs'.geo.Block(g, i) < NO_BLOCK && !Record(fs'.geo, fs'.geo.Block(g, i))
    {
      assert Clear(fs, g, i);
    }
  }

  /** fs with word k of the inode's own block list set. */
  function Linked(fs: Fs, ino: nat, k: nat, b: nat): Fs
    requires ino in fs.files && k < |fs.files[ino].iblock|
  {
    fs.(files := fs.files[ino := fs.files[ino].(iblock := fs.files[ino].iblock[k := b])])
  }

  /** Hanging a spare block into an empty slot of the inode; an indirect block must be all zeros. */
  lemma LinkKeeps(fs: Fs, ino: nat, k: nat, b: nat)
    requires Inv(fs) && ino in fs.files && k <= DIRECT && fs.files[ino].iblock[k] == 0 && Spare(fs, b)
    requires k == DIRECT ==> fs.disk[b] == Zeros(fs.geo.bs)
    ensures var fs' := Linked(fs, ino, k, b);
            && Inv(fs') && Ref(fs', ino, k) == b
            && (forall a: nat, l: nat :: !(a == ino && l == k) ==> Ref(fs', a, l) == Ref(fs, a, l))
  {
    hide Recorded, Record, BitsOk;
    var fs' := Linked(fs, ino, k, b);
    assert Recorded(fs') by { RecordedSame(fs, fs'); }
    forall a: nat, l: nat ensures Ref(fs', a, l) == if a == ino && l == k then b else Ref(fs, a, l) {
      RefLinked(fs, ino, k, b, a, l);
    }
    RefsOneMore(fs, fs', ino, k, b);
    BitsSame(fs, fs');
  }

  lemma RefLinked(fs: Fs, ino: nat, k: nat, b: nat, a: nat, l: nat)
    requires Inv(fs) && ino in fs.files && k <= DIRECT && fs.files[ino].iblock[k] == 0 && b in fs.disk
    requires k == DIRECT ==> fs.disk[b] == Zeros(fs.geo.bs)
    ensures Ref(Linked(fs, ino, k, b), a, l) == if a == ino && l == k then b else Ref(fs, a, l)
  {
    assert |fs.files[ino].iblock| == DIRECT + 1;
    hide RefsOk, BitsOk, InUse, Recorded, Record;
    if a == ino && k == DIRECT && l > DIRECT && l < Slots(fs.geo) {
      var j := l - DIRECT - 1;
      ZeroWord(fs.geo.bs, j);
    }
  }

  lemma ZeroWord(n: nat, j: nat)
    requires j * 4 + 4 <= n
    ensures Word(Zeros(n), j * 4) == 0
  {
  }

  /** fs with entry j of the inode's indirect table set. */
  function Entered(fs: Fs, ino: nat, j: nat, b: nat): Fs
    requires ino in fs.files && DIRECT < |fs.files[ino].iblock|
    requires var t := fs.files[ino].iblock[DIRECT]; t in fs.disk && j * 4 + 4 <= |fs.disk[t]| && b < U32
  {
    var t := fs.files[ino].iblock[DIRECT];
    fs.(disk := fs.disk[t := SetWord(fs.disk[t], j * 4, b)])
  }

  /** The indirect block of a file is on the device. */
  lemma TableThere(fs: Fs, ino: nat)
    requires Inv(fs) && ino in fs.files && fs.files[ino].iblock[DIRECT] != 0
    ensures var t := fs.files[ino].iblock[DIRECT]; t in fs.disk && |fs.disk[t]| == fs.geo.bs && fs.geo.Entries() * 4 <= fs.geo.bs
  {
    hide Recorded, Record, BitsOk;
    assert Ref(fs, ino, DIRECT) == fs.files[ino].iblock[DIRECT];
    assert InUse(fs, Ref(fs, ino, DIRECT));
  }

  lemma RecordedSame(fs: Fs, fs': Fs)
    requires Recorded(fs) && fs'.geo == fs.geo && fs'.bits == fs.bits && fs'.free == fs.free && fs'.sb == fs.sb
    requires forall b :: b in fs.disk && Record(fs.geo, b) ==> b in fs'.disk && fs'.disk[b] == fs.disk[b]
    ensures Recorded(fs')
  {
    hide RecordsOk, Record;
    RecordsFrame(fs.geo, fs.disk, fs'.disk, fs.bits, fs.free, fs.sb);
  }

  lemma EnterKeeps(fs: Fs, ino: nat, j: nat, b: nat)
    requires Inv(fs) && ino in fs.files && fs.files[ino].iblock[DIRECT] != 0 && j < fs.geo.Entries()
    requires Ref(fs, ino, DIRECT + 1 + j) == 0 && Spare(fs, b)
    ensures fs.files[ino].iblock[DIRECT] in fs.disk && |fs.disk[fs.files[ino].iblock[DIRECT]]| == fs.geo.bs
    ensures var fs' := Entered(fs, ino, j, b);
            && Inv(fs') && Ref(fs', ino, DIRECT + 1 + j) == b
            && (forall a: nat, l: nat :: !(a == ino && l == DIRECT + 1 + j) ==> Ref(fs', a, l) == Ref(fs, a, l))
  {
    hide Recorded, Record, BitsOk, SetWord;
    TableThere(fs, ino);
    var fs' := Entered(fs, ino, j, b);
    assert Ref(fs, ino, DIRECT) == fs.files[ino].iblock[DIRECT];
    assert !Record(fs.geo, Ref(fs, ino, DIRECT));
    assert Recorded(fs') by { RecordedSame(fs, fs'); }
    forall a: nat, l: nat ensures Ref(fs', a, l) == if a == ino && l == DIRECT + 1 + j then b else Ref(fs, a, l) {
      RefEntered(fs, ino, j, b, a, l);
    }
    hide Ref;
    RefsOneMore(fs, fs', ino, DIRECT + 1 + j, b);
    BitsSame(fs, fs');
  }

  lemma RefEntered(fs: Fs, ino: nat, j: nat, b: nat, a: nat, l: nat)
    requires Inv(fs) && ino in fs.files && fs.files[ino].iblock[DIRECT] != 0 && j < fs.geo.Entries() && b < U32
    requires fs.files[ino].iblock[DIRECT] in fs.disk && |fs.disk[fs.files[ino].iblock[DIRECT]]| == fs.geo.bs
    ensures Ref(Entered(fs, ino, j, b), a, l) == if a == ino && l == DIRECT + 1 + j then b else Ref(fs, a, l)
  {
    hide BitsOk, InUse, Word, SetWord, Recorded, Record;
    var t := fs.files[ino].iblock[DIRECT];
    assert Ref(fs, ino, DIRECT) == t;
    assert Ref(fs, a, DIRECT) == t ==> a == ino;
    hide RefsOk;
    if a == ino && DIRECT < l < Slots(fs.geo) { WordSet(fs.disk[t], j * 4, b, (l - DIRECT - 1) * 4); }
  }

  /** fs with the contents of block b replaced. */
  function Written(fs: Fs, b: nat, data: seq<Byte>): Fs { fs.(disk := fs.disk[b := data]) }

  /** Writing a data block of a file moves no block and touches no other block. */
  lemma WriteKeeps(fs: Fs, ino: nat, k: nat, data: seq<Byte>)
    requires Inv(fs) && k != DIRECT && Ref(fs, ino, k) != 0 && |data| == fs.geo.bs
    ensures var fs' := Written(fs, Ref(fs, ino, k), data);
            Inv(fs') && forall a: nat, l: nat :: Ref(fs', a, l) == Ref(fs, a, l)
  {
    hide Recorded, Record, BitsOk;
    var b := Ref(fs, ino, k);
    var fs' := Written(fs, b, data);
    assert InUse(fs, b) && !Record(fs.geo, b);
    assert Recorded(fs') by { RecordedSame(fs, fs'); }
    forall a: nat ensures Ref(fs, a, DIRECT) != b {}
    forall a: nat, l: nat ensures Ref(fs', a, l) == Ref(fs, a, l) { RefFrame(fs, fs'.disk, b, a, l); }
    hide Ref;
    BitsSame(fs, fs');
    forall x | InUse(fs, x) ensures InUse(fs', x) {}
  }

  // ---------- What a write does to a file ----------

  /** No file changed. */
  ghost predicate AllSame(fs: Fs, fs': Fs) {
    Inv(fs') && fs'.geo == fs.geo && forall a: nat :: SameFile(fs, fs', a)
  }

  ghost predicate OthersSame(fs: Fs, fs': Fs, ino: nat) {
    && Inv(fs') && fs'.geo == fs.geo && ino in fs.files && ino in fs'.files && fs'.files[ino].size == fs.files[ino].size
    && forall a: nat :: a != ino ==> SameFile(fs, fs', a)
  }

  /** Block lb of the file is what it was. */
  ghost predicate BlockSame(fs: Fs, fs': Fs, ino: nat, lb: nat) {
    && (Mapped(fs', ino, lb) <==> Mapped(fs, ino, lb))
    && (Mapped(fs, ino, lb) ==> Ref(fs', ino, SlotOf(lb)) == Ref(fs, ino, SlotOf(lb)) && Data(fs', ino, lb) == Data(fs, ino, lb))
  }

  /** Block lb of the file is there now, zeroed if it was not before; nothing else changed for any file. */
  ghost predicate Opened(fs: Fs, fs': Fs, ino: nat, lb: nat) {
    && OthersSame(fs, fs', ino) && lb < fs.geo.Limit() && Mapped(fs', ino, lb)
    && (forall l: nat :: l != lb || Mapped(fs, ino, lb) ==> BlockSame(fs, fs', ino, l))
    && (!Mapped(fs, ino, lb) ==> Data(fs', ino, lb) == Zeros(fs.geo.bs))
  }

  /** The bytes of block lb after `data` was written at byte w of the file. */
  function Patched(d: seq<Byte>, lb: nat, w: nat, data: seq<Byte>): (r: seq<Byte>)
    ensures |r| == |d|
    ensures forall i :: 0 <= i < |d| ==>
      r[i] == if w <= lb * |d| + i < w + |data| then data[lb * |d| + i - w] else d[i]
  {
    seq(|d|, i requires 0 <= i < |d| => if w <= lb * |d| + i < w + |data| then data[lb * |d| + i - w] else d[i])
  }

  /** Some byte of block lb is among the n bytes from w. */
  predicate Touches(bs: nat, lb: nat, w: nat, n: nat) { n > 0 && w < (lb + 1) * bs && lb * bs < w + n }

  ghost predicate BlockWritten(fs0: Fs, fs: Fs, ino: nat, lb: nat, w: nat, data: seq<Byte>) {
    && (Touches(fs0.geo.bs, lb, w, |data|) || Mapped(fs0, ino, lb) ==> Mapped(fs, ino, lb))
    && (Mapped(fs0, ino, lb) ==> Ref(fs, ino, SlotOf(lb)) == Ref(fs0, ino, SlotOf(lb)))
    && (Mapped(fs, ino, lb) ==>
          Data(fs, ino, lb) == Patched(if Mapped(fs0, ino, lb) then Data(fs0, ino, lb) else Zeros(fs0.geo.bs), lb, w, data))
    && (Mapped(fs, ino, lb) ==> Mapped(fs0, ino, lb) || Touches(fs0.geo.bs, lb, w, |data|))
  }

  /** `data` stands at byte w of file ino; the rest of the file and every other file are as before. */
  ghost predicate FileWritten(fs0: Fs, fs: Fs, ino: nat, w: nat, data: seq<Byte>) {
    OthersSame(fs0, fs, ino) && forall lb: nat :: lb < fs0.geo.Limit() ==> BlockWritten(fs0, fs, ino, lb, w, data)
  }

  /** The m bytes after the first n lie in block lb, from offset off on. */
  ghost predicate Chunk(bs: nat, w: nat, n: nat, m: nat, lb: nat, off: nat) {
    bs > 0 && m > 0 && w + n == lb * bs + off && off + m <= bs
  }

  /** A chunk leaves the other blocks alone. */
  lemma ChunkElsewhere(bs: nat, w: nat, n: nat, m: nat, lb: nat, off: nat, l: nat)
    requires Chunk(bs, w, n, m, lb, off) && l != lb
    ensures (l + 1) * bs <= w + n || w + n + m <= l * bs
    ensures Touches(bs, l, w, n + m) == Touches(bs, l, w, n)
  {
    if l < lb { Bits.MulLe(l + 1, lb, bs); } else { Bits.MulLe(lb + 1, l, bs); }
    assert (lb + 1) * bs == lb * bs + bs && (l + 1) * bs == l * bs + bs;
  }

  lemma PatchedElsewhere(d: seq<Byte>, w: nat, data: seq<Byte>, n: nat, m: nat, lb: nat, off: nat, l: nat)
    requires Chunk(|d|, w, n, m, lb, off) && l != lb && n + m <= |data|
    ensures Patched(d, l, w, data[..n + m]) == Patched(d, l, w, data[..n])
  {
    ChunkElsewhere(|d|, w, n, m, lb, off, l);
    assert (l + 1) * |d| == l * |d| + |d|;
  }

  lemma PatchedHere(d: seq<Byte>, w: nat, data: seq<Byte>, n: nat, m: nat, lb: nat, off: nat)
    requires Chunk(|d|, w, n, m, lb, off) && n + m <= |data|
    ensures var e := Patched(d, lb, w, data[..n]);
            Patched(d, lb, w, data[..n + m]) == e[..off] + data[n..n + m] + e[off + m..]
  {
    var x := lb * |d|;
    var e := Patched(d, lb, w, data[..n]);
    var a, b := Patched(d, lb, w, data[..n + m]), e[..off] + data[n..n + m] + e[off + m..];
    forall i | 0 <= i < |d| ensures a[i] == b[i] {
      assert x + i == w + n - off + i;
    }
  }

  /** Nothing has been written to a block that is not there, so a fresh one starts out right. */
  lemma PatchedFresh(bs: nat, w: nat, data: seq<Byte>, lb: nat)
    requires !Touches(bs, lb, w, |data|)
    ensures Patched(Zeros(bs), lb, w, data) == Zeros(bs)
  {
    assert (lb + 1) * bs == lb * bs + bs;
  }

  /** One round of the write loop: open block lb, put the next chunk into it. */
  lemma FileStep(fs0: Fs, fs: Fs, fs1: Fs, ino: nat, w: nat, data: seq<Byte>, n: nat, m: nat, lb: nat, off: nat)
    requires Inv(fs0) && n + m <= |data| && FileWritten(fs0, fs, ino, w, data[..n]) && Opened(fs, fs1, ino, lb)
    requires Chunk(fs0.geo.bs, w, n, m, lb, off) && |Data(fs1, ino, lb)| == fs0.geo.bs
    ensures var b, d := Ref(fs1, ino, SlotOf(lb)), Data(fs1, ino, lb);
            var fs2 := Written(fs1, b, d[..off] + data[n..n + m] + d[off + m..]);
            FileWritten(fs0, fs2, ino, w, data[..n + m])
  {
    var b, d := Ref(fs1, ino, SlotOf(lb)), Data(fs1, ino, lb);
    var d' := d[..off] + data[n..n + m] + d[off + m..];
    var fs2 := Written(fs1, b, d');
    hide Inv, Ref, Patched, Touches, Slots;
    assert SlotOf(lb) != DIRECT;
    WriteKeeps(fs1, ino, SlotOf(lb), d');
    assert fs2.files == fs1.files && Data(fs2, ino, lb) == d' by { RefThere(fs1, ino, SlotOf(lb)); }
    assert OthersSame(fs0, fs2, ino) by {
      forall a: nat | a != ino ensures SameFile(fs0, fs2, a) { OtherStep(fs0, fs, fs1, ino, lb, d', a); }
    }
    var upTo := data[..n + m];
    forall l: nat | l < fs0.geo.Limit() ensures BlockWritten(fs0, fs2, ino, l, w, upTo) {
      assert BlockWritten(fs0, fs, ino, l, w, data[..n]);
      if l == lb {
        StepHere(fs0, fs, fs1, fs2, ino, w, data, n, m, lb, off);
      } else {
        assert BlockSame(fs, fs1, ino, l);
        StepElsewhere(fs0, fs, fs1, fs2, ino, w, data, n, m, lb, off, l);
      }
    }
  }

  lemma RefThere(fs: Fs, ino: nat, k: nat)
    requires Inv(fs) && Ref(fs, ino, k) != 0
    ensures Ref(fs, ino, k) in fs.disk && |fs.disk[Ref(fs, ino, k)]| == fs.geo.bs
  {
    hide Recorded, Record, BitsOk;
    assert InUse(fs, Ref(fs, ino, k));
  }

  lemma OtherStep(fs0: Fs, fs: Fs, fs1: Fs, ino: nat, lb: nat, d': seq<Byte>, a: nat)
    requires Inv(fs0) && OthersSame(fs0, fs, ino) && Opened(fs, fs1, ino, lb) && a != ino
    requires var b := Ref(fs1, ino, SlotOf(lb));
             forall x: nat, l: nat :: Ref(Written(fs1, b, d'), x, l) == Ref(fs1, x, l)
    ensures SameFile(fs0, Written(fs1, Ref(fs1, ino, SlotOf(lb)), d'), a)
  {
    var b := Ref(fs1, ino, SlotOf(lb));
    assert SameFile(fs0, fs, a) && SameFile(fs, fs1, a);
    assert RefsOk(fs1);
    hide Inv, Ref, Slots;
    forall k: nat | Ref(fs0, a, k) != 0 && Ref(fs0, a, k) in fs0.disk
      ensures Ref(fs0, a, k) != b && Ref(fs0, a, k) in fs1.disk && fs1.disk[Ref(fs0, a, k)] == fs0.disk[Ref(fs0, a, k)]
    {
      assert Ref(fs1, a, k) == Ref(fs0, a, k);
    }
  }

  lemma StepHere(fs0: Fs, fs: Fs, fs1: Fs, fs2: Fs, ino: nat, w: nat, data: seq<Byte>, n: nat, m: nat, lb: nat, off: nat)
    requires Inv(fs0) && n + m <= |data| && BlockWritten(fs0, fs, ino, lb, w, data[..n]) && lb < fs0.geo.Limit()
    requires fs.geo == fs0.geo && fs2.geo == fs0.geo && fs1.geo == fs0.geo
    requires Opened(fs, fs1, ino, lb) && Chunk(fs0.geo.bs, w, n, m, lb, off)
    requires Ref(fs2, ino, SlotOf(lb)) == Ref(fs1, ino, SlotOf(lb))
    requires var d := Data(fs1, ino, lb); |d| == fs0.geo.bs && Data(fs2, ino, lb) == d[..off] + data[n..n + m] + d[off + m..]
    ensures BlockWritten(fs0, fs2, ino, lb, w, data[..n + m])
  {
    var bs := fs0.geo.bs;
    assert (lb + 1) * bs == lb * bs + bs;
    assert Touches(bs, lb, w, n + m);
    var was := if Mapped(fs0, ino, lb) then Data(fs0, ino, lb) else Zeros(bs);
    assert |was| == bs by { if Mapped(fs0, ino, lb) { RefThere(fs0, ino, SlotOf(lb)); } }
    hide Inv, Ref, Slots, Touches;
    if !Mapped(fs, ino, lb) { PatchedFresh(bs, w, data[..n], lb); } else { assert BlockSame(fs, fs1, ino, lb); }
    assert Data(fs1, ino, lb) == Patched(was, lb, w, data[..n]);
    PatchedHere(was, w, data, n, m, lb, off);
  }

  lemma StepElsewhere(fs0: Fs, fs: Fs, fs1: Fs, fs2: Fs, ino: nat, w: nat, data: seq<Byte>, n: nat, m: nat, lb: nat, off: nat, l: nat)
    requires Inv(fs0) && n + m <= |data| && BlockWritten(fs0, fs, ino, l, w, data[..n]) && l < fs0.geo.Limit() && l != lb
    requires fs.geo == fs0.geo && fs2.geo == fs0.geo && fs1.geo == fs0.geo && Chunk(fs0.geo.bs, w, n, m, lb, off)
    requires BlockSame(fs, fs1, ino, l) && Inv(fs1) && Mapped(fs1, ino, lb)
    requires fs2.disk == fs1.disk[Ref(fs1, ino, SlotOf(lb)) := Data(fs2, ino, lb)]
    requires forall k: nat :: Ref(fs2, ino, k) == Ref(fs1, ino, k)
    ensures BlockWritten(fs0, fs2, ino, l, w, data[..n + m])
  {
    var bs := fs0.geo.bs;
    assert Mapped(fs0, ino, l) ==> |Data(fs0, ino, l)| == bs by { if Mapped(fs0, ino, l) { RefThere(fs0, ino, SlotOf(l)); } }
    if Mapped(fs1, ino, l) { assert Ref(fs1, ino, SlotOf(l)) != Ref(fs1, ino, SlotOf(lb)); }
    hide Inv, Ref, Slots, Patched;
    ChunkElsewhere(bs, w, n, m, lb, off, l);
    var was := if Mapped(fs0, ino, l) then Data(fs0, ino, l) else Zeros(bs);
    PatchedElsewhere(was, w, data, n, m, lb, off, l);
    hide Touches;
    assert Mapped(fs2, ino, l) == Mapped(fs1, ino, l);
    assert Mapped(fs1, ino, l) ==> Data(fs2, ino, l) == Data(fs1, ino, l);
  }

  lemma FileStart(fs: Fs, ino: nat, w: nat)
    requires Inv(fs) && ino in fs.files
    ensures FileWritten(fs, fs, ino, w, [])
  {
    hide Ref, Slots, Inv;
    forall lb: nat | lb < fs.geo.Limit() ensures BlockWritten(fs, fs, ino, lb, w, []) {
      assert Patched(Data(fs, ino, lb), lb, w, []) == Data(fs, ino, lb);
    }
  }

  /** Blocks taken for nothing change no file. */
  lemma FileSame(fs0: Fs, fs: Fs, fs': Fs, ino: nat, w: nat, data: seq<Byte>)
    requires Inv(fs0) && Inv(fs) && FileWritten(fs0, fs, ino, w, data) && AllSame(fs, fs')
    ensures FileWritten(fs0, fs', ino, w, data)
  {
    hide Slots, Patched, Touches;
    forall a: nat | a != ino ensures SameFile(fs0, fs', a) {
      assert SameFile(fs0, fs, a) && SameFile(fs, fs', a);
    }
    assert SameFile(fs, fs', ino);
    forall lb: nat | lb < fs0.geo.Limit() ensures BlockWritten(fs0, fs', ino, lb, w, data) {
      assert BlockWritten(fs0, fs, ino, lb, w, data);
      if Mapped(fs, ino, lb) { RefThere(fs, ino, SlotOf(lb)); }
    }
  }

  // ---------- Positions ----------

  /** File positions are cut to 32-bit block numbers. */
  function Wrapped(geo: Geo, pos: nat): nat
    requires geo.bs > 0
  {
    pos % (U32 * geo.bs)
  }

  /** A position is kept exactly as long as its block number has 32 bits. */
  lemma WrappedIs(geo: Geo, pos: nat)
    requires geo.bs > 0
    ensures Wrapped(geo, pos) == pos <==> pos < U32 * geo.bs
  {
    var m := U32 * geo.bs;
    DivMod(pos, m);
    if pos < m { Bits.DivUnique(pos, m, 0, pos); }
  }

  /** A write is where it was asked for if and only if the position is below 2^32 blocks, or the file's
      blocks are as they were before. */
  lemma LandsWhereAsked(fs0: Fs, fs: Fs, ino: nat, pos: nat, data: seq<Byte>)
    requires Inv(fs0) && FileWritten(fs0, fs, ino, Wrapped(fs0.geo, pos), data)
    ensures FileWritten(fs0, fs, ino, pos, data) <==> pos < U32 * fs0.geo.bs || FileWritten(fs0, fs, ino, 0, [])
  {
    hide Inv, OthersSame, BlockWritten;
    assert fs0.geo.Ok() by { BlockSize(fs0); }
    WrappedIs(fs0.geo, pos);
    if pos >= U32 * fs0.geo.bs {
      forall lb: nat | lb < fs0.geo.Limit()
        ensures BlockWritten(fs0, fs, ino, lb, pos, data) <==> BlockWritten(fs0, fs, ino, lb, 0, [])
      {
        BeyondLimit(fs0, fs, ino, lb, pos, data);
      }
    }
  }

  lemma BeyondLimit(fs0: Fs, fs: Fs, ino: nat, lb: nat, pos: nat, data: seq<Byte>)
    requires Inv(fs0) && lb < fs0.geo.Limit() && pos >= U32 * fs0.geo.bs
    ensures BlockWritten(fs0, fs, ino, lb, pos, data) <==> BlockWritten(fs0, fs, ino, lb, 0, [])
  {
    var bs := fs0.geo.bs;
    assert fs0.geo.Ok() by { BlockSize(fs0); }
    hide Ref, Recorded, Record, BitsOk, RefsOk;
    assert Mapped(fs0, ino, lb) ==> |Data(fs0, ino, lb)| == bs by { if Mapped(fs0, ino, lb) { RefThere(fs0, ino, SlotOf(lb)); } }
    hide Inv;
    var was := if Mapped(fs0, ino, lb) then Data(fs0, ino, lb) else Zeros(bs);
    assert lb + 1 <= U32;
    Bits.MulLe(lb + 1, U32, bs);
    assert (lb + 1) * bs == lb * bs + bs;
    assert Patched(was, lb, pos, data) == was == Patched(was, lb, 0, []);
  }

  lemma WrapPos(geo: Geo, pos: nat, n: nat)
    requires geo.bs > 0 && Wrapped(geo, pos) + n < U32 * geo.bs
    ensures (pos + n) / geo.bs % U32 == (Wrapped(geo, pos) + n) / geo.bs
    ensures (pos + n) % geo.bs == (Wrapped(geo, pos) + n) % geo.bs
  {
    var m := U32 * geo.bs;
    DivMod(pos, m);
    WrapSum(pos, geo.bs, pos / m, pos % m, n);
  }

  lemma DivMod(a: nat, m: nat)
    requires m > 0
    ensures a == a / m * m + a % m
  {
  }

  lemma WrapSum(pos: nat, bs: nat, q: nat, w: nat, n: nat)
    requires bs > 0 && pos == q * (U32 * bs) + w && w + n < U32 * bs
    ensures (pos + n) / bs % U32 == (w + n) / bs && (pos + n) % bs == (w + n) % bs
  {
    var x, r := (w + n) / bs, (w + n) % bs;
    DivMod(w + n, bs);
    assert x < U32 by { Quotient(w + n, bs, U32); }
    Regroup(q, bs, x);
    Bits.DivUnique(pos + n, bs, q * U32 + x, r);
    Bits.DivUnique(q * U32 + x, U32, q, x);
  }

  lemma Quotient(a: nat, m: nat, k: nat)
    requires m > 0 && a < k * m
    ensures a / m < k
  {
    DivMod(a, m);
    if a / m >= k { Bits.MulLe(k, a / m, m); }
  }

  lemma Regroup(q: nat, bs: nat, x: nat)
    ensures q * (U32 * bs) + x * bs == (q * U32 + x) * bs
  {
    assert q * (U32 * bs) == (q * U32) * bs;
  }

  // ---------- Blocks of nobody, and of others ----------

  ghost predicate Owns(fs: Fs, ino: nat, b: nat) { exists k: nat :: Ref(fs, ino, k) == b }

  /** A bit of a bitmap is only ever set, and only where the bitmap is searched for clear bits. */
  ghost predicate BitMoved(fs: Fs, fs': Fs, g: nat, i: nat) {
    g < |fs.bits| && i < |fs.bits[g]| ==>
      && g < |fs'.bits| && i < |fs'.bits[g]| && (fs.bits[g][i] ==> fs'.bits[g][i])
      && (fs'.bits[g][i] && !fs.bits[g][i] ==> Clear(fs, g, i))
  }

  /** What happens to the blocks with records: bits of the bitmaps are set, and in the descriptors and
      the superblock nothing but the counts of free blocks changes.  How many is what Inv says: each
      count is the number of clear bits, and the superblock holds their sum. */
  ghost predicate RecordsMoved(fs: Fs, fs': Fs) {
    && fs'.geo == fs.geo && fs.geo.bs > 0 && FieldsKept(fs.geo, fs.disk, fs'.disk)
    && forall g: nat, i: nat :: BitMoved(fs, fs', g, i)
  }

  /** Every block in use stays in use; if it does not hold records, it stays as it is. */
  ghost predicate AllKept(fs: Fs, fs': Fs) {
    && RecordsMoved(fs, fs') && (forall b :: InUse(fs, b) ==> InUse(fs', b))
    && (forall b :: InUse(fs, b) && !Record(fs.geo, b) ==> b in fs'.disk && fs'.disk[b] == fs.disk[b])
  }

  /** Blocks in use that are neither this file's nor records stay as they are; the records change in
      bits and counts only; blocks the file gained were free before, except for `spare`. */
  ghost predicate KeptBut(fs: Fs, fs': Fs, ino: nat, spare: nat) {
    && RecordsMoved(fs, fs') && (forall b :: InUse(fs, b) ==> InUse(fs', b))
    && (forall b :: InUse(fs, b) && !Record(fs.geo, b) && !Owns(fs, ino, b) && b != spare ==>
          b in fs'.disk && fs'.disk[b] == fs.disk[b])
    && (forall k: nat :: Gained(fs, fs', ino, k, spare))
  }

  ghost predicate Gained(fs: Fs, fs': Fs, ino: nat, k: nat, spare: nat) {
    var b := Ref(fs', ino, k);
    b == 0 || b == spare || Owns(fs, ino, b) || !InUse(fs, b)
  }

  ghost predicate Kept(fs: Fs, fs': Fs, ino: nat) { KeptBut(fs, fs', ino, 0) }

  lemma MovedRefl(fs: Fs)
    requires fs.geo.bs > 0
    ensures RecordsMoved(fs, fs)
  {
    hide Record, Counter;
  }

  lemma MovedTrans(fs: Fs, fs1: Fs, fs2: Fs)
    requires RecordsMoved(fs, fs1) && RecordsMoved(fs1, fs2)
    ensures RecordsMoved(fs, fs2)
  {
    hide FieldsKept;
    FieldsTrans(fs.geo, fs.disk, fs1.disk, fs2.disk);
    forall g: nat, i: nat ensures BitMoved(fs, fs2, g, i) { assert BitMoved(fs, fs1, g, i) && BitMoved(fs1, fs2, g, i); }
  }

  /** Nothing moves in the records when neither bits nor record blocks change. */
  lemma MovedFrame(fs: Fs, fs': Fs)
    requires fs'.geo == fs.geo && fs.geo.bs > 0 && fs'.bits == fs.bits
    requires forall b :: b in fs.disk && Record(fs.geo, b) ==> b in fs'.disk && fs'.disk[b] == fs.disk[b]
    ensures RecordsMoved(fs, fs')
  {
    hide Record, FieldsKept;
    FieldsFrame(fs.geo, fs.disk, fs'.disk);
  }

  lemma KeptRefl(fs: Fs, ino: nat)
    requires fs.geo.bs > 0
    ensures Kept(fs, fs, ino)
  {
    hide Ref, Record, RecordsMoved;
    MovedRefl(fs);
    forall k: nat ensures Gained(fs, fs, ino, k, 0) { assert Owns(fs, ino, Ref(fs, ino, k)); }
  }

  lemma TakeKept(fs: Fs, g: nat, i: nat)
    requires Inv(fs) && Clear(fs, g, i)
    ensures Takable(fs, g, i) && AllKept(fs, Taken(fs, g, i)) && !InUse(fs, fs.geo.Block(g, i))
  {
    hide Inv, BitsOk, DiskOk, Recorded, Record, Marked, Markable, FieldsKept;
    TakeBits(fs, g, i);
    TakeRecords(fs, g, i);
    MarkedSizes(fs.geo, fs.disk, fs.sb, g, i);
    var fs' := Taken(fs, g, i);
    BlockSize(fs);
    forall h: nat, j: nat ensures BitMoved(fs, fs', h, j) {}
    forall b | InUse(fs, b) ensures InUse(fs', b) && (!Record(fs.geo, b) ==> b in fs'.disk && fs'.disk[b] == fs.disk[b]) {
      assert b != fs.geo.Block(g, i);
      if !Record(fs.geo, b) { TakenElsewhere(fs, g, i, b); }
    }
  }

  lemma BlockSize(fs: Fs)
    requires Inv(fs)
    ensures fs.geo.Ok() && fs.geo.bs > 0
  {
  }

  /** Bits, keys, records and all but one slot's block are the same. */
  lemma KeptOneMore(fs: Fs, fs': Fs, ino: nat, k: nat, b: nat)
    requires fs'.geo == fs.geo && fs.geo.bs > 0 && fs'.bits == fs.bits && fs'.disk.Keys == fs.disk.Keys
    requires forall l: nat :: Ref(fs', ino, l) == if l == k then b else Ref(fs, ino, l)
    requires forall x :: x in fs.disk && !Owns(fs, ino, x) && x != b ==> fs'.disk[x] == fs.disk[x]
    requires forall x :: x in fs.disk && Record(fs.geo, x) ==> fs'.disk[x] == fs.disk[x]
    ensures KeptBut(fs, fs', ino, b)
  {
    hide Ref, Record, RecordsMoved;
    MovedFrame(fs, fs');
    forall x | InUse(fs, x) ensures InUse(fs', x) {}
    forall l: nat ensures Gained(fs, fs', ino, l, b) {
      if l != k { assert Owns(fs, ino, Ref(fs, ino, l)); }
    }
  }

  lemma WriteKept(fs: Fs, ino: nat, k: nat, data: seq<Byte>)
    requires Inv(fs) && k != DIRECT && Ref(fs, ino, k) != 0 && |data| == fs.geo.bs
    ensures Kept(fs, Written(fs, Ref(fs, ino, k), data), ino)
  {
    hide Ref, Recorded, Record, BitsOk, DiskOk, RecordsMoved;
    var b := Ref(fs, ino, k);
    var fs' := Written(fs, b, data);
    WriteKeeps(fs, ino, k, data);
    RefThere(fs, ino, k);
    assert !Record(fs.geo, b);
    MovedFrame(fs, fs');
    hide Inv;
    assert Owns(fs, ino, b);
    forall x | InUse(fs, x) ensures InUse(fs', x) {}
    forall l: nat ensures Gained(fs, fs', ino, l, 0) { assert Owns(fs, ino, Ref(fs, ino, l)); }
  }

  lemma KeptTrans(fs: Fs, fs1: Fs, fs2: Fs, ino: nat, spare: nat)
    requires Kept(fs, fs1, ino) && KeptBut(fs1, fs2, ino, spare)
    ensures KeptBut(fs, fs2, ino, spare)
  {
    hide Ref, Record, RecordsMoved;
    MovedTrans(fs, fs1, fs2);
    SameGeo(fs, fs1);
    forall b | InUse(fs, b) && !Record(fs.geo, b) && !Owns(fs, ino, b) && b != spare
      ensures b in fs2.disk && fs2.disk[b] == fs.disk[b]
    {
      NotGained(fs, fs1, ino, b);
    }
    forall k: nat ensures Gained(fs, fs2, ino, k, spare) {
      assert Gained(fs1, fs2, ino, k, spare);
      var b := Ref(fs2, ino, k);
      if b != 0 && b != spare && InUse(fs, b) && !Owns(fs, ino, b) { NotGained(fs, fs1, ino, b); }
    }
  }

  lemma SameGeo(fs: Fs, fs': Fs)
    requires RecordsMoved(fs, fs')
    ensures fs'.geo == fs.geo
  {
  }

  lemma NotGained(fs: Fs, fs1: Fs, ino: nat, b: nat)
    requires Kept(fs, fs1, ino) && InUse(fs, b) && !Owns(fs, ino, b)
    ensures !Owns(fs1, ino, b) && (!Record(fs.geo, b) ==> b in fs1.disk && fs1.disk[b] == fs.disk[b])
  {
    hide Ref, Record, RecordsMoved;
    assert b != 0;
    hide InUse;
    forall k: nat ensures Ref(fs1, ino, k) != b { assert Gained(fs, fs1, ino, k, 0); }
  }

  /** A block just taken, and then given to the file. */
  lemma KeptAfterTake(fs: Fs, fs1: Fs, fs2: Fs, ino: nat, t: nat)
    requires AllKept(fs, fs1) && SameFile(fs, fs1, ino) && KeptBut(fs1, fs2, ino, t) && !InUse(fs, t)
    ensures Kept(fs, fs2, ino)
  {
    hide Ref, InUse, Record, RecordsMoved;
    MovedTrans(fs, fs1, fs2);
    SameGeo(fs, fs1);
    forall b ensures Owns(fs1, ino, b) <==> Owns(fs, ino, b) {
      if k: nat :| Ref(fs, ino, k) == b { assert Ref(fs1, ino, k) == b; }
      if k: nat :| Ref(fs1, ino, k) == b { assert Ref(fs, ino, k) == b; }
    }
    forall k: nat ensures Gained(fs, fs2, ino, k, 0) { assert Gained(fs1, fs2, ino, k, t); }
  }

  lemma AllKeptKept(fs: Fs, fs': Fs, ino: nat)
    requires AllKept(fs, fs') && SameFile(fs, fs', ino)
    ensures Kept(fs, fs', ino)
  {
    hide Ref, InUse, Record, RecordsMoved;
    forall k: nat ensures Gained(fs, fs', ino, k, 0) { assert Owns(fs, ino, Ref(fs, ino, k)); }
  }

  /** The size of a file does not matter here. */
  lemma KeptSized(fs: Fs, fs': Fs, fs'': Fs, ino: nat)
    requires Kept(fs, fs', ino) && fs''.geo == fs'.geo && fs''.bits == fs'.bits && fs''.disk == fs'.disk
    requires forall k: nat :: Ref(fs'', ino, k) == Ref(fs', ino, k)
    ensures Kept(fs, fs'', ino)
  {
    hide Ref, Record, RecordsMoved;
    assert RecordsMoved(fs, fs'') by { MovedSame(fs, fs', fs''); }
    forall b | InUse(fs', b) ensures InUse(fs'', b) {}
    forall k: nat ensures Gained(fs, fs'', ino, k, 0) { assert Gained(fs, fs', ino, k, 0); }
  }

  lemma MovedSame(fs: Fs, fs': Fs, fs'': Fs)
    requires RecordsMoved(fs, fs') && fs''.geo == fs'.geo && fs''.bits == fs'.bits && fs''.disk == fs'.disk
    ensures RecordsMoved(fs, fs'')
  {
    hide FieldsKept;
    forall g: nat, i: nat ensures BitMoved(fs, fs'', g, i) { assert BitMoved(fs, fs', g, i); }
  }

  // ---------- How many blocks a write takes ----------

  /** The file has an indirect block. */
  predicate HasTable(fs: Fs, ino: nat) {
    ino in fs.files && DIRECT < |fs.files[ino].iblock| && fs.files[ino].iblock[DIRECT] != 0
  }

  /** The blocks that opening block lb takes: itself, and the indirect block if it needs one. */
  function Cost(fs: Fs, ino: nat, lb: nat): nat {
    if Mapped(fs, ino, lb) then 0 else if lb >= DIRECT && !HasTable(fs, ino) then 2 else 1
  }

  /** The blocks that opening all blocks from lo up to hi takes; `table` tells whether there is an
      indirect block. */
  function Need(fs: Fs, ino: nat, lo: nat, hi: nat, table: bool): nat
    decreases hi - lo
  {
    if lo >= hi then 0
    else if Mapped(fs, ino, lo) then Need(fs, ino, lo + 1, hi, table)
    else (if lo >= DIRECT && !table then 2 else 1) + Need(fs, ino, lo + 1, hi, table || lo >= DIRECT)
  }

  /** How many blocks from lo up to hi the file does not have. */
  function Holes(fs: Fs, ino: nat, lo: nat, hi: nat): nat
    decreases hi - lo
  {
    if lo >= hi then 0 else Holes(fs, ino, lo + 1, hi) + if Mapped(fs, ino, lo) then 0 else 1
  }

  /** The missing blocks, and one for the indirect block if it is missing and one of them goes there. */
  lemma {:induction false} NeedIs(fs: Fs, ino: nat, lo: nat, hi: nat, table: bool)
    ensures var far := Holes(fs, ino, if lo < DIRECT then DIRECT else lo, hi);
            Need(fs, ino, lo, hi, table) == Holes(fs, ino, lo, hi) + if far > 0 && !table then 1 else 0
    decreases hi - lo
  {
    hide Mapped;
    if lo < hi {
      NeedIs(fs, ino, lo + 1, hi, table);
      NeedIs(fs, ino, lo + 1, hi, true);
    }
  }

  lemma {:induction false} NeedSame(fs: Fs, fs': Fs, ino: nat, lo: nat, hi: nat, table: bool)
    requires forall l: nat :: lo <= l < hi ==> (Mapped(fs', ino, l) <==> Mapped(fs, ino, l))
    ensures Need(fs', ino, lo, hi, table) == Need(fs, ino, lo, hi, table)
    decreases hi - lo
  {
    hide Mapped;
    if lo < hi {
      NeedSame(fs, fs', ino, lo + 1, hi, table);
      NeedSame(fs, fs', ino, lo + 1, hi, table || lo >= DIRECT);
    }
  }

  /** A mapped block past the direct ones is mapped by the indirect block. */
  lemma MappedByTable(fs: Fs, ino: nat, lb: nat)
    requires Mapped(fs, ino, lb) && lb >= DIRECT
    ensures HasTable(fs, ino)
  {
  }

  lemma {:induction false} SumZero(s: seq<nat>)
    ensures Sum(s) == 0 <==> forall g :: 0 <= g < |s| ==> s[g] == 0
  {
    if s != [] {
      var n := |s| - 1;
      SumZero(s[..n]);
      assert forall g :: 0 <= g < n ==> s[..n][g] == s[g];
    }
  }

  /** The counts add up to zero exactly when no bit is clear. */
  lemma FreeSum(fs: Fs)
    requires Inv(fs)
    ensures Sum(fs.free) == 0 <==> forall g: nat, i: nat :: !Clear(fs, g, i)
  {
    hide RefsOk, Recorded, Record, Sum, DiskOk;
    SumZero(fs.free);
    if Sum(fs.free) != 0 {
      var g :| 0 <= g < |fs.free| && fs.free[g] != 0;
      var n := fs.geo.Search();
      ClearIn(fs.bits[g][..n]);
      var i :| 0 <= i < n && !fs.bits[g][..n][i];
      assert Clear(fs, g, i);
    } else {
      forall g: nat, i: nat ensures !Clear(fs, g, i) {
        if g < |fs.bits| && i < fs.geo.Search() {
          assert fs.free[g] == 0;
          UnsetNone(fs.bits[g][..fs.geo.Search()]);
          assert fs.bits[g][..fs.geo.Search()][i];
        }
      }
    }
  }

  lemma {:induction false} ClearIn(s: seq<bool>)
    requires Unset(s) > 0
    ensures exists i :: 0 <= i < |s| && !s[i]
  {
    if forall i :: 0 <= i < |s| ==> s[i] { UnsetAll(s); }
  }
}
