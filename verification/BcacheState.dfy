/** The block cache of src/mm/bcache.c as values: buffers, hash chains and the LRU list over a disk,
    and the flat store of blocks they stand for. */
module BcacheState {
  import opened Bytes
  import opened Lists
  import Bits

  const BLOCK_SIZE: nat := 512
  const BCACHE_SIZE: nat := 512
  const BCACHE_HASH_SIZE: nat := 64

  type Key = (nat, nat)                 // device, block number
  type Store = map<Key, seq<Byte>>

  datatype Buf = Buf(data: seq<Byte>, dev: nat, blockno: nat, refcnt: nat, dirty: bool, valid: bool) {
    function Key(): Key { (dev, blockno) }
  }

  datatype Cache = Cache(bufs: seq<Buf>, hash: seq<seq<nat>>, lru: seq<nat>)

  function Hash(key: Key): (h: nat)
    ensures h < BCACHE_HASH_SIZE
  {
    (key.0 + key.1) % BCACHE_HASH_SIZE
  }

  // ---------- Shape ----------

  /** The buffers in `live` hold a block each, no two the same block, and are found on their block's
      hash chain; every buffer is on the LRU list. */
  ghost predicate Shape(c: Cache, live: set<nat>) {
    && |c.bufs| == BCACHE_SIZE && |c.hash| == BCACHE_HASH_SIZE && NoDup(c.lru)
    && (forall i: nat :: i in c.lru <==> i < BCACHE_SIZE)
    && (forall i :: i in live ==> i < BCACHE_SIZE)
    && (forall h :: 0 <= h < BCACHE_HASH_SIZE ==> NoDup(c.hash[h]))
    && (forall h, i :: 0 <= h < BCACHE_HASH_SIZE ==> (i in c.hash[h] <==> OnChain(c, live, i, h)))
    && (forall i, j :: i in live && j in live && c.bufs[i].Key() == c.bufs[j].Key() ==> i == j)
    && (forall i :: 0 <= i < BCACHE_SIZE && i !in live ==> c.bufs[i].refcnt == 0 && !c.bufs[i].dirty)
  }

  ghost predicate OnChain(c: Cache, live: set<nat>, i: nat, h: nat) {
    i in live && i < |c.bufs| && Hash(c.bufs[i].Key()) == h
  }

  lemma Sizes(c: Cache, live: set<nat>)
    requires Shape(c, live)
    ensures |c.bufs| == BCACHE_SIZE && |c.hash| == BCACHE_HASH_SIZE && NoDup(c.lru)
    ensures (forall i: nat :: i in c.lru <==> i < BCACHE_SIZE) && forall i :: i in live ==> i < BCACHE_SIZE
  {
  }

  /** A buffer that is in use by somebody changed nothing but its own contents and counters. */
  lemma ShapeBuf(c: Cache, live: set<nat>, i: nat, b: Buf)
    requires Shape(c, live) && i in live && b.Key() == c.bufs[i].Key()
    ensures Shape(c.(bufs := c.bufs[i := b]), live)
  {
    hide NoDup, Hash;
    var c' := c.(bufs := c.bufs[i := b]);
    forall h, k | 0 <= h < BCACHE_HASH_SIZE ensures k in c'.hash[h] <==> OnChain(c', live, k, h) {
      assert k in c.hash[h] <==> OnChain(c, live, k, h);
    }
  }

  lemma ShapeLru(c: Cache, live: set<nat>, lru: seq<nat>)
    requires Shape(c, live) && NoDup(lru) && forall i :: i in lru <==> i in c.lru
    ensures Shape(c.(lru := lru), live)
  {
    hide NoDup, Hash;
    var c' := c.(lru := lru);
    forall h, k | 0 <= h < BCACHE_HASH_SIZE ensures k in c'.hash[h] <==> OnChain(c', live, k, h) {
      assert k in c.hash[h] <==> OnChain(c, live, k, h);
    }
  }

  /** The cache after buffer i, which nobody uses, has been given to another block. */
  function Reassign(c: Cache, i: nat, key: Key): Cache
    requires |c.hash| == BCACHE_HASH_SIZE && i < |c.bufs|
  {
    var h0, h1 := Hash(c.bufs[i].Key()), Hash(key);
    var hash := c.hash[h0 := Remove(c.hash[h0], i)];
    Cache(c.bufs[i := Buf(c.bufs[i].data, key.0, key.1, 1, false, false)],
          hash[h1 := [i] + hash[h1]], [i] + Remove(c.lru, i))
  }

  lemma ShapeReassign(c: Cache, live: set<nat>, i: nat, key: Key)
    requires Shape(c, live) && i < BCACHE_SIZE && forall j :: j in live ==> c.bufs[j].Key() != key
    ensures Shape(Reassign(c, i, key), live + {i})
  {
    var c', live' := Reassign(c, i, key), live + {i};
    var h0, h1 := Hash(c.bufs[i].Key()), Hash(key);
    MoveToFront(c.lru, i);
    var hash := c.hash[h0 := Remove(c.hash[h0], i)];
    ChainWithout(c, live, i);
    assert NoDup([i]);
    hide NoDup, Hash;
    NoDupParts([i], hash[h1]);
    forall h, k | 0 <= h < BCACHE_HASH_SIZE ensures k in c'.hash[h] <==> OnChain(c', live', k, h) {
      assert k in hash[h] <==> k != i && OnChain(c, live, k, h);
    }
  }

  /** Taken off its chain, a buffer is on no chain. */
  lemma ChainWithout(c: Cache, live: set<nat>, i: nat)
    requires Shape(c, live) && i < BCACHE_SIZE
    ensures var h0 := Hash(c.bufs[i].Key());
            var hash := c.hash[h0 := Remove(c.hash[h0], i)];
            && (forall h :: 0 <= h < BCACHE_HASH_SIZE ==> NoDup(hash[h]))
            && (forall h, k :: 0 <= h < BCACHE_HASH_SIZE ==> (k in hash[h] <==> k != i && OnChain(c, live, k, h)))
  {
    var h0 := Hash(c.bufs[i].Key());
    RemoveParts(c.hash[h0], i);
    hide NoDup, Hash, Remove;
    var hash := c.hash[h0 := Remove(c.hash[h0], i)];
    forall h, k | 0 <= h < BCACHE_HASH_SIZE ensures k in hash[h] <==> k != i && OnChain(c, live, k, h) {
      assert k in c.hash[h] <==> OnChain(c, live, k, h);
    }
  }

  // ---------- The flat store ----------

  /** The cache and the disk together hold `view`.  Buffers in `touched` are being modified by their
      user; a dirty buffer is newer than the disk. */
  ghost predicate Refines(c: Cache, live: set<nat>, touched: set<nat>, disk: Store, view: Store) {
    && view.Keys == disk.Keys && (forall k :: k in disk ==> |disk[k]| == BLOCK_SIZE && |view[k]| == BLOCK_SIZE)
    && (forall i :: i in touched ==> i in live && i < |c.bufs| && c.bufs[i].valid && c.bufs[i].refcnt > 0)
    && (forall i :: i in live && i < |c.bufs| ==> BufOk(c.bufs[i], i in touched, view))
    && (forall k :: k in disk ==> disk[k] == view[k] || HasDirty(c, live, k))
  }

  ghost predicate BufOk(b: Buf, touched: bool, view: Store) {
    && b.Key() in view && (b.dirty ==> b.valid)
    && (b.valid ==> |b.data| == BLOCK_SIZE && (touched || b.data == view[b.Key()]))
  }

  ghost predicate HasDirty(c: Cache, live: set<nat>, k: Key) {
    exists i :: i in live && i < |c.bufs| && c.bufs[i].dirty && c.bufs[i].Key() == k
  }

  /** With nothing dirty, every completed write is on the disk. */
  lemma AtRest(c: Cache, live: set<nat>, disk: Store, view: Store)
    requires Refines(c, live, {}, disk, view) && forall i :: 0 <= i < |c.bufs| ==> !c.bufs[i].dirty
    ensures disk == view
  {
    forall k | k in disk ensures disk[k] == view[k] {
      assert !HasDirty(c, live, k);
    }
  }

  /** The disk after a victim has been written back, if it has to be. */
  function WrittenBack(b: Buf, disk: Store): Store { if b.dirty then disk[b.Key() := b.data] else disk }

  /** What was up to date on the disk still is. */
  ghost predicate Settles(disk0: Store, disk: Store, view: Store) {
    forall k :: k in view && k in disk0 && disk0[k] == view[k] ==> k in disk && disk[k] == view[k]
  }

  lemma WriteBackSettles(c: Cache, live: set<nat>, touched: set<nat>, disk: Store, view: Store, i: nat)
    requires Shape(c, live) && Refines(c, live, touched, disk, view) && i < |c.bufs| && c.bufs[i].refcnt == 0
    ensures Settles(disk, WrittenBack(c.bufs[i], disk), view)
  {
    hide NoDup, Hash;
    if c.bufs[i].dirty { assert i in live && BufOk(c.bufs[i], i in touched, view); }
  }

  /** The block of byte n is up to date on the disk. */
  ghost predicate OnDisk(disk: Store, view: Store, dev: nat, n: nat) {
    (dev, n / 512) in disk && (dev, n / 512) in view && disk[(dev, n / 512)] == view[(dev, n / 512)]
  }

  /** The bytes written before stay on the disk, and those of the block written now join them. */
  lemma StaysOnDisk(disk0: Store, disk: Store, view0: Store, view: Store, dev: nat, lo: nat, at: nat, m: nat)
    requires forall n: nat :: lo <= n < at ==> OnDisk(disk0, view0, dev, n)
    requires var key := (dev, at / 512);
             && key in disk && key in view && disk[key] == view[key]
             && (forall k :: k != key && k in view0 ==> k in view && view[k] == view0[k])
             && forall k :: k != key && k in view && k in disk0 && disk0[k] == view[k] ==> k in disk && disk[k] == view[k]
    requires at % 512 + m <= 512
    ensures forall n: nat :: lo <= n < at + m ==> OnDisk(disk, view, dev, n)
  {
    forall n: nat | lo <= n < at + m ensures OnDisk(disk, view, dev, n) {
      if n >= at {
        assert n / 512 == at / 512;
      } else {
        assert OnDisk(disk0, view0, dev, n);
      }
    }
  }

  /** The bytes of a device are those of its blocks of 512, in order. */
  lemma SliceIs(view: Store, dev: nat, lo: nat, size: nat, k: nat)
    requires WellSized(view) && OnDevice(view, dev, lo, lo + size) && k < size
    ensures var n := lo + k;
            && (dev, n / 512) in view && n % 512 < |view[(dev, n / 512)]|
            && Slice(view, dev, lo, size)[k] == view[(dev, n / 512)][n % 512]
  {
    assert Has(view, dev, lo + k);
    assert Slice(view, dev, lo, size)[k] == ByteAt(view, dev, lo + k);
  }

  /** After a write the bytes written are there, and every other byte of every block is as before. */
  lemma WroteIs(view: Store, view': Store, dev: nat, lo: nat, data: seq<Byte>, d: nat, b: nat, o: nat)
    requires WellSized(view) && WellSized(view') && Wrote(view, view', dev, lo, data) && (d, b) in view && o < 512
    ensures (d, b) in view'
    ensures var n := 512 * b + o;
            view'[(d, b)][o] == if d == dev && lo <= n < lo + |data| then data[n - lo] else view[(d, b)][o]
  {
    var n := 512 * b + o;
    assert n / BLOCK_SIZE == b && n % BLOCK_SIZE == o;
    assert Has(view, d, n);
  }

  /** Giving an unused buffer to another block loses nothing, dirty or not. */
  lemma RefinesReassign(c: Cache, live: set<nat>, touched: set<nat>, disk: Store, view: Store, i: nat, key: Key)
    requires Shape(c, live) && Refines(c, live, touched, disk, view) && i < BCACHE_SIZE && c.bufs[i].refcnt == 0
    requires key in disk
    ensures Refines(Reassign(c, i, key), live + {i}, touched, WrittenBack(c.bufs[i], disk), view)
  {
    hide NoDup, Hash;
    var c', live', disk' := Reassign(c, i, key), live + {i}, WrittenBack(c.bufs[i], disk);
    assert c.bufs[i].dirty ==> i in live;
    assert i !in touched;
    if i in live { assert BufOk(c.bufs[i], false, view); }
    forall j | j in live' && j < |c'.bufs| ensures BufOk(c'.bufs[j], j in touched, view) {
      assert j != i ==> BufOk(c.bufs[j], j in touched, view);
    }
    forall k | k in disk' ensures disk'[k] == view[k] || HasDirty(c', live', k) {
      if k in disk && disk[k] != view[k] {
        var j :| j in live && j < |c.bufs| && c.bufs[j].dirty && c.bufs[j].Key() == k;
        assert j != i ==> c'.bufs[j] == c.bufs[j];
      }
    }
  }

  /** Filling a buffer from the disk: it then holds the view of its block. */
  lemma RefinesFill(c: Cache, live: set<nat>, touched: set<nat>, disk: Store, view: Store, i: nat)
    requires Shape(c, live) && Refines(c, live, touched, disk, view) && i in live && !c.bufs[i].valid
    ensures c.bufs[i].Key() in disk
    ensures var b := c.bufs[i].(data := disk[c.bufs[i].Key()], valid := true);
            Refines(c.(bufs := c.bufs[i := b]), live, touched, disk, view)
  {
    hide NoDup, Hash;
    var key := c.bufs[i].Key();
    assert BufOk(c.bufs[i], i in touched, view);
    assert !HasDirty(c, live, key);
    var c' := c.(bufs := c.bufs[i := c.bufs[i].(data := disk[key], valid := true)]);
    forall j | j in live && j < |c'.bufs| ensures BufOk(c'.bufs[j], j in touched, view) {
      assert j != i ==> BufOk(c.bufs[j], j in touched, view);
    }
    DirtySame(c, c', live, i);
  }

  lemma DirtySame(c: Cache, c': Cache, live: set<nat>, i: nat)
    requires i < |c.bufs| && |c'.bufs| == |c.bufs| && forall j :: 0 <= j < |c.bufs| && j != i ==> c'.bufs[j] == c.bufs[j]
    requires c'.bufs[i].Key() == c.bufs[i].Key() && c'.bufs[i].dirty == c.bufs[i].dirty
    ensures forall k :: HasDirty(c, live, k) ==> HasDirty(c', live, k)
  {
    forall k | HasDirty(c, live, k) ensures HasDirty(c', live, k) {
      var j :| j in live && j < |c.bufs| && c.bufs[j].dirty && c.bufs[j].Key() == k;
      assert c'.bufs[j].dirty && c'.bufs[j].Key() == k;
    }
  }

  /** Counting a user of a buffer in or out. */
  lemma RefinesCount(c: Cache, live: set<nat>, touched: set<nat>, disk: Store, view: Store, i: nat, n: nat)
    requires Shape(c, live) && Refines(c, live, touched, disk, view) && i in live && (i in touched ==> n > 0)
    ensures Refines(c.(bufs := c.bufs[i := c.bufs[i].(refcnt := n)]), live, touched, disk, view)
  {
    hide NoDup, Hash;
    var c' := c.(bufs := c.bufs[i := c.bufs[i].(refcnt := n)]);
    forall j | j in live && j < |c'.bufs| ensures BufOk(c'.bufs[j], j in touched, view) {
      assert BufOk(c.bufs[j], j in touched, view);
    }
    DirtySame(c, c', live, i);
  }

  /** A user changes the contents of a buffer it holds. */
  lemma RefinesTouch(c: Cache, live: set<nat>, touched: set<nat>, disk: Store, view: Store, i: nat, data: seq<Byte>)
    requires Shape(c, live) && Refines(c, live, touched, disk, view)
    requires i in live && c.bufs[i].valid && c.bufs[i].refcnt > 0 && |data| == BLOCK_SIZE
    ensures Refines(c.(bufs := c.bufs[i := c.bufs[i].(data := data)]), live, touched + {i}, disk, view)
  {
    hide NoDup, Hash;
    var c' := c.(bufs := c.bufs[i := c.bufs[i].(data := data)]);
    forall j | j in live && j < |c'.bufs| ensures BufOk(c'.bufs[j], j in touched + {i}, view) {
      assert BufOk(c.bufs[j], j in touched, view);
    }
    DirtySame(c, c', live, i);
  }

  /** bwrite makes the buffer's contents the view of its block, on the disk as well. */
  lemma RefinesWrite(c: Cache, live: set<nat>, touched: set<nat>, disk: Store, view: Store, i: nat)
    requires Shape(c, live) && Refines(c, live, touched, disk, view) && i in live && c.bufs[i].valid
    ensures var b := c.bufs[i];
            Refines(c.(bufs := c.bufs[i := b.(dirty := false)]), live, touched - {i}, disk[b.Key() := b.data], view[b.Key() := b.data])
  {
    hide NoDup, Hash;
    var b := c.bufs[i];
    var c', disk', view' := c.(bufs := c.bufs[i := b.(dirty := false)]), disk[b.Key() := b.data], view[b.Key() := b.data];
    assert BufOk(b, i in touched, view);
    forall j | j in live && j < |c'.bufs| ensures BufOk(c'.bufs[j], j in touched - {i}, view') {
      assert BufOk(c.bufs[j], j in touched, view);
    }
    forall k | k in disk' && k != b.Key() ensures disk'[k] == view'[k] || HasDirty(c', live, k) {
      if disk[k] != view[k] {
        var j :| j in live && j < |c.bufs| && c.bufs[j].dirty && c.bufs[j].Key() == k;
        assert c'.bufs[j].dirty && c'.bufs[j].Key() == k;
      }
    }
  }

  // ---------- Bytes ----------

  /** Byte n of a device. */
  function ByteAt(view: Store, dev: nat, n: nat): Byte
    requires (dev, n / BLOCK_SIZE) in view && |view[(dev, n / BLOCK_SIZE)]| == BLOCK_SIZE
  {
    view[(dev, n / BLOCK_SIZE)][n % BLOCK_SIZE]
  }

  ghost predicate WellSized(view: Store) { forall k :: k in view ==> |view[k]| == BLOCK_SIZE }

  /** The bytes from lo up to hi are on the device. */
  ghost predicate OnDevice(view: Store, dev: nat, lo: nat, hi: nat) {
    forall n: nat :: lo <= n < hi ==> Has(view, dev, n)
  }

  ghost predicate Has(view: Store, dev: nat, n: nat) { (dev, n / BLOCK_SIZE) in view }

  /** The bytes of a device from lo on. */
  ghost function Slice(view: Store, dev: nat, lo: nat, size: nat): (s: seq<Byte>)
    requires WellSized(view) && OnDevice(view, dev, lo, lo + size)
    ensures |s| == size
  {
    seq<Byte>(size, k requires 0 <= k < size => assert Has(view, dev, lo + k); ByteAt(view, dev, lo + k))
  }

  /** What is read from one block continues what was read before. */
  lemma SliceMore(view: Store, dev: nat, lo: nat, done: nat, n: nat)
    requires WellSized(view) && OnDevice(view, dev, lo, lo + done + n)
    requires (lo + done) % BLOCK_SIZE + n <= BLOCK_SIZE && n > 0
    ensures OnDevice(view, dev, lo, lo + done) && (dev, (lo + done) / BLOCK_SIZE) in view
    ensures var off := (lo + done) % BLOCK_SIZE;
            Slice(view, dev, lo, done + n) == Slice(view, dev, lo, done) + view[(dev, (lo + done) / BLOCK_SIZE)][off..off + n]
  {
    assert Has(view, dev, lo + done);
    assert OnDevice(view, dev, lo, lo + done) by {
      forall m: nat | lo <= m < lo + done ensures Has(view, dev, m) {}
    }
    var off, blk := (lo + done) % BLOCK_SIZE, (lo + done) / BLOCK_SIZE;
    var a, b := Slice(view, dev, lo, done + n), Slice(view, dev, lo, done) + view[(dev, blk)][off..off + n];
    forall k: nat | k < done + n ensures a[k] == b[k] {
      assert Has(view, dev, lo + k);
      if k >= done { SameBlock(lo + done, k - done, blk, off); }
    }
  }

  lemma SameBlock(m: nat, d: nat, blk: nat, off: nat)
    requires blk == m / BLOCK_SIZE && off == m % BLOCK_SIZE && off + d < BLOCK_SIZE
    ensures (m + d) / BLOCK_SIZE == blk && (m + d) % BLOCK_SIZE == off + d
  {
  }

  /** view' is view with `data` written at byte lo of a device, and nothing else changed on any device. */
  ghost predicate Wrote(view: Store, view': Store, dev: nat, lo: nat, data: seq<Byte>)
    requires WellSized(view) && WellSized(view')
  {
    && view'.Keys == view.Keys
    && forall d: nat, n: nat :: Has(view, d, n) ==>
         ByteAt(view', d, n) == if d == dev && lo <= n < lo + |data| then data[n - lo] else ByteAt(view, d, n)
  }

  /** One block's worth of data more. */
  lemma WroteMore(view: Store, view1: Store, dev: nat, lo: nat, data: seq<Byte>, done: nat, n: nat)
    requires WellSized(view) && WellSized(view1) && done + n <= |data| && Wrote(view, view1, dev, lo, data[..done])
    requires (lo + done) % BLOCK_SIZE + n <= BLOCK_SIZE && (dev, (lo + done) / BLOCK_SIZE) in view1
    ensures var key, off := (dev, (lo + done) / BLOCK_SIZE), (lo + done) % BLOCK_SIZE;
            var view2 := view1[key := view1[key][..off] + data[done..done + n] + view1[key][off + n..]];
            WellSized(view2) && Wrote(view, view2, dev, lo, data[..done + n])
  {
    var key, off := (dev, (lo + done) / BLOCK_SIZE), (lo + done) % BLOCK_SIZE;
    var view2 := view1[key := view1[key][..off] + data[done..done + n] + view1[key][off + n..]];
    forall d: nat, m: nat | Has(view, d, m)
      ensures ByteAt(view2, d, m) == if d == dev && lo <= m < lo + done + n then data[m - lo] else ByteAt(view, d, m)
    {
      WroteByte(view1, dev, lo, data, done, n, d, m);
    }
  }

  lemma WroteByte(view1: Store, dev: nat, lo: nat, data: seq<Byte>, done: nat, n: nat, d: nat, m: nat)
    requires WellSized(view1) && done + n <= |data| && Has(view1, d, m)
    requires (lo + done) % BLOCK_SIZE + n <= BLOCK_SIZE && (dev, (lo + done) / BLOCK_SIZE) in view1
    ensures var key, off := (dev, (lo + done) / BLOCK_SIZE), (lo + done) % BLOCK_SIZE;
            var view2 := view1[key := view1[key][..off] + data[done..done + n] + view1[key][off + n..]];
            ByteAt(view2, d, m) == if d == dev && lo + done <= m < lo + done + n then data[m - lo] else ByteAt(view1, d, m)
  {
    var base := (lo + done) / BLOCK_SIZE * BLOCK_SIZE;
    if d == dev && m / BLOCK_SIZE == (lo + done) / BLOCK_SIZE {
      assert m % BLOCK_SIZE == m - base && (lo + done) % BLOCK_SIZE == lo + done - base;
    }
  }

  /** Reading what was just written gives it back; reading anywhere else gives what was there. */
  lemma WriteThenRead(view: Store, view': Store, dev: nat, lo: nat, data: seq<Byte>)
    requires WellSized(view) && WellSized(view') && Wrote(view, view', dev, lo, data)
    requires OnDevice(view, dev, lo, lo + |data|)
    ensures OnDevice(view', dev, lo, lo + |data|) && Slice(view', dev, lo, |data|) == data
    ensures forall d: nat, from: nat, size: nat :: OnDevice(view, d, from, from + size) && Apart(dev, lo, |data|, d, from, size)
              ==> OnDevice(view', d, from, from + size) && Slice(view', d, from, size) == Slice(view, d, from, size)
  {
    assert OnDevice(view', dev, lo, lo + |data|) by {
      forall m: nat | lo <= m < lo + |data| ensures Has(view', dev, m) { assert Has(view, dev, m); }
    }
    forall k: nat | k < |data| ensures Slice(view', dev, lo, |data|)[k] == data[k] {
      assert Has(view, dev, lo + k) && Has(view', dev, lo + k);
    }
    forall d: nat, from: nat, size: nat | OnDevice(view, d, from, from + size) && Apart(dev, lo, |data|, d, from, size)
      ensures OnDevice(view', d, from, from + size) && Slice(view', d, from, size) == Slice(view, d, from, size)
    {
      ReadElsewhere(view, view', dev, lo, data, d, from, size);
    }
  }

  predicate Apart(dev: nat, lo: nat, n: nat, d: nat, from: nat, size: nat) { d != dev || from + size <= lo || lo + n <= from }

  lemma ReadElsewhere(view: Store, view': Store, dev: nat, lo: nat, data: seq<Byte>, d: nat, from: nat, size: nat)
    requires WellSized(view) && WellSized(view') && Wrote(view, view', dev, lo, data)
    requires OnDevice(view, d, from, from + size) && Apart(dev, lo, |data|, d, from, size)
    ensures OnDevice(view', d, from, from + size) && Slice(view', d, from, size) == Slice(view, d, from, size)
  {
    assert OnDevice(view', d, from, from + size) by {
      forall m: nat | from <= m < from + size ensures Has(view', d, m) { assert Has(view, d, m); }
    }
    forall k: nat | k < size ensures Slice(view', d, from, size)[k] == Slice(view, d, from, size)[k] {
      assert Has(view, d, from + k) && Has(view', d, from + k);
    }
  }

  /** Seen in filesystem blocks of bs bytes, writing inside one block changes those bytes of it, and no
      other block. */
  lemma BlockWrites(view: Store, view': Store, dev: nat, bs: nat, pb: nat, off: nat, data: seq<Byte>, other: nat)
    requires WellSized(view) && WellSized(view') && off + |data| <= bs && Wrote(view, view', dev, pb * bs + off, data)
    requires OnDevice(view, dev, other * bs, other * bs + bs)
    ensures OnDevice(view', dev, other * bs, other * bs + bs)
    ensures Slice(view', dev, other * bs, bs)
         == if other == pb then Patch(Slice(view, dev, pb * bs, bs), off, data) else Slice(view, dev, other * bs, bs)
  {
    hide Wrote, OnDevice, Slice, WellSized, Patch;
    if other == pb {
      PatchSlice(view, view', dev, pb * bs, bs, off, data);
    } else {
      BlocksApart(bs, pb, other);
      ReadElsewhere(view, view', dev, pb * bs + off, data, dev, other * bs, bs);
    }
  }

  lemma PatchSlice(view: Store, view': Store, dev: nat, lo: nat, n: nat, off: nat, data: seq<Byte>)
    requires WellSized(view) && WellSized(view') && off + |data| <= n && Wrote(view, view', dev, lo + off, data)
    requires OnDevice(view, dev, lo, lo + n)
    ensures OnDevice(view', dev, lo, lo + n) && Slice(view', dev, lo, n) == Patch(Slice(view, dev, lo, n), off, data)
  {
    assert OnDevice(view', dev, lo, lo + n) by {
      forall m: nat | lo <= m < lo + n ensures Has(view', dev, m) { assert Has(view, dev, m); }
    }
    var s, p := Slice(view', dev, lo, n), Patch(Slice(view, dev, lo, n), off, data);
    forall k: nat | k < n ensures s[k] == p[k] { assert Has(view, dev, lo + k) && Has(view', dev, lo + k); }
  }

  lemma BlocksApart(bs: nat, pb: nat, other: nat)
    requires pb != other
    ensures other * bs + bs <= pb * bs || pb * bs + bs <= other * bs
  {
    if other < pb { Bits.MulLe(other + 1, pb, bs); } else { Bits.MulLe(pb + 1, other, bs); }
    assert (other + 1) * bs == other * bs + bs && (pb + 1) * bs == pb * bs + bs;
  }

  // ---------- Which buffer is replaced ----------

  /** How many users each buffer has. */
  ghost function Users(bufs: seq<Buf>): (u: seq<nat>)
    ensures |u| == |bufs| && forall j :: 0 <= j < |u| ==> u[j] == bufs[j].refcnt
  {
    seq(|bufs|, j requires 0 <= j < |bufs| => bufs[j].refcnt)
  }

  /** A buffer that can be taken without writing it back. */
  predicate Spare(b: Buf) { b.refcnt == 0 && !b.dirty }

  /** The spare buffers of s, in the order of s. */
  ghost function Spares(bufs: seq<Buf>, s: seq<nat>): seq<nat> {
    if s == [] then []
    else if s[0] < |bufs| && Spare(bufs[s[0]]) then [s[0]] + Spares(bufs, s[1..])
    else Spares(bufs, s[1..])
  }

  /** The buffers of s that nobody uses, in the order of s. */
  ghost function Idle(users: seq<nat>, s: seq<nat>): seq<nat> {
    if s == [] then []
    else if s[0] < |users| && users[s[0]] == 0 then [s[0]] + Idle(users, s[1..])
    else Idle(users, s[1..])
  }

  /** `used` holds the buffers in the order in which they were last given up, the longest ago first
      and those never used before all others.  The idle buffers stand on the list in that order. */
  ghost predicate InOrder(users: seq<nat>, lru: seq<nat>, used: seq<nat>) {
    NoDup(used) && (forall i :: i in used <==> i in lru) && Idle(users, lru) == Idle(users, used)
  }

  /** The buffer that Evict takes while there is a spare one: the spare buffer nearest the end. */
  ghost predicate Victim(bufs: seq<Buf>, lru: seq<nat>, i: nat) {
    var s := Spares(bufs, lru);
    s != [] && s[|s| - 1] == i
  }

  /** Of the spare buffers, the one given up the longest ago. */
  ghost function LeastRecentlyUsed(bufs: seq<Buf>, used: seq<nat>): nat
    requires Spares(bufs, used) != []
  {
    Spares(bufs, used)[0]
  }

  lemma {:induction false} SparesSplit(bufs: seq<Buf>, a: seq<nat>, b: seq<nat>)
    ensures Spares(bufs, a + b) == Spares(bufs, a) + Spares(bufs, b)
  {
    if a == [] {
      assert a + b == b;
    } else {
      assert (a + b)[0] == a[0] && (a + b)[1..] == a[1..] + b;
      SparesSplit(bufs, a[1..], b);
      Assoc([a[0]], Spares(bufs, a[1..]), Spares(bufs, b));
    }
  }

  lemma {:induction false} SparesMembers(bufs: seq<Buf>, s: seq<nat>)
    requires NoDup(s)
    ensures NoDup(Spares(bufs, s)) && forall i :: i in Spares(bufs, s) <==> i in s && i < |bufs| && Spare(bufs[i])
  {
    if s != [] {
      assert NoDup([s[0]]);
      hide NoDup;
      assert s == [s[0]] + s[1..];
      NoDupParts([s[0]], s[1..]);
      SparesMembers(bufs, s[1..]);
      NoDupParts([s[0]], Spares(bufs, s[1..]));
    }
  }

  /** A spare buffer is an idle one. */
  lemma {:induction false} SparesOfIdle(bufs: seq<Buf>, s: seq<nat>)
    ensures Spares(bufs, Idle(Users(bufs), s)) == Spares(bufs, s)
  {
    if s != [] {
      SparesOfIdle(bufs, s[1..]);
      var rest := Idle(Users(bufs), s[1..]);
      assert ([s[0]] + rest)[1..] == rest;
    }
  }

  lemma {:induction false} IdleSplit(users: seq<nat>, a: seq<nat>, b: seq<nat>)
    ensures Idle(users, a + b) == Idle(users, a) + Idle(users, b)
  {
    if a == [] {
      assert a + b == b;
    } else {
      assert (a + b)[0] == a[0] && (a + b)[1..] == a[1..] + b;
      IdleSplit(users, a[1..], b);
      Assoc([a[0]], Idle(users, a[1..]), Idle(users, b));
    }
  }

  lemma {:induction false} IdleAgree(users: seq<nat>, users': seq<nat>, s: seq<nat>)
    requires |users| == |users'| && forall i :: i in s && i < |users| ==> (users[i] == 0 <==> users'[i] == 0)
    ensures Idle(users, s) == Idle(users', s) && forall i :: i in Idle(users, s) ==> i in s
  {
    if s != [] { IdleAgree(users, users', s[1..]); }
  }

  /** A buffer that is taken leaves the idle ones and the others keep their order. */
  lemma {:induction false} IdleTake(users: seq<nat>, s: seq<nat>, i: nat, n: nat)
    requires NoDup(s) && i < |users| && n > 0
    ensures Idle(users[i := n], s) == Remove(Idle(users, s), i)
  {
    if s != [] {
      assert NoDup([s[0]]) && s == [s[0]] + s[1..];
      NoDupParts([s[0]], s[1..]);
      if s[0] == i {
        IdleAgree(users, users[i := n], s[1..]);
        RemoveAbsent(Idle(users, s[1..]), i);
        RemoveCons(i, Idle(users, s[1..]), i);
      } else {
        IdleTake(users, s[1..], i, n);
        RemoveCons(s[0], Idle(users, s[1..]), i);
      }
    }
  }

  lemma {:induction false} RemoveAbsent(s: seq<nat>, x: nat)
    requires x !in s
    ensures Remove(s, x) == s
  {
    if s != [] { RemoveAbsent(s[1..], x); }
  }

  lemma RemoveCons(x: nat, s: seq<nat>, y: nat)
    ensures Remove([x] + s, y) == if x == y then s else [x] + Remove(s, y)
  {
    assert ([x] + s)[1..] == s;
  }

  lemma {:induction false} IdleRemove(users: seq<nat>, s: seq<nat>, i: nat)
    requires NoDup(s)
    ensures Idle(users, Remove(s, i)) == Remove(Idle(users, s), i)
  {
    if s != [] {
      assert NoDup([s[0]]) && s == [s[0]] + s[1..];
      NoDupParts([s[0]], s[1..]);
      if s[0] == i {
        IdleAgree(users, users, s[1..]);
        RemoveAbsent(Idle(users, s[1..]), i);
        RemoveCons(i, Idle(users, s[1..]), i);
      } else {
        IdleRemove(users, s[1..], i);
        RemoveCons(s[0], Idle(users, s[1..]), i);
        assert ([s[0]] + Remove(s[1..], i))[1..] == Remove(s[1..], i);
      }
    }
  }

  lemma IdleOne(users: seq<nat>, i: nat)
    requires i < |users|
    ensures Idle(users, [i]) == if users[i] == 0 then [i] else []
  {
    assert [i][1..] == [];
  }

  /** bcache_get puts the buffer at the head of the list, where its place does not matter. */
  lemma OrderTake(users: seq<nat>, lru: seq<nat>, used: seq<nat>, i: nat, n: nat)
    requires NoDup(lru) && InOrder(users, lru, used) && i in lru && i < |users| && n > 0
    ensures InOrder(users[i := n], [i] + Remove(lru, i), used)
  {
    hide NoDup, Remove, Idle;
    var u, rest := users[i := n], Remove(lru, i);
    MoveToFront(lru, i);
    RemoveParts(lru, i);
    IdleTake(users, used, i, n);
    IdleRemove(users, lru, i);
    IdleAgree(users, u, rest);
    IdleSplit(u, [i], rest);
    IdleOne(u, i);
  }

  /** A user who is not the last leaves everything in its place. */
  lemma OrderCount(users: seq<nat>, lru: seq<nat>, used: seq<nat>, i: nat, n: nat)
    requires NoDup(lru) && InOrder(users, lru, used) && i < |users| && n > 0
    ensures InOrder(users[i := n], lru, used)
  {
    IdleTake(users, lru, i, n);
    IdleTake(users, used, i, n);
  }

  /** brelse by the last user puts the buffer at the end of both orders. */
  lemma OrderGive(users: seq<nat>, lru: seq<nat>, used: seq<nat>, i: nat)
    requires NoDup(lru) && InOrder(users, lru, used) && i in lru && i < |users|
    ensures InOrder(users[i := 0], Remove(lru, i) + [i], Remove(used, i) + [i])
  {
    hide NoDup, Remove, Idle;
    var u := users[i := 0];
    MoveToBack(lru, i);
    MoveToBack(used, i);
    RemoveParts(lru, i);
    RemoveParts(used, i);
    IdleRemove(users, lru, i);
    IdleRemove(users, used, i);
    IdleAgree(users, u, Remove(lru, i));
    IdleAgree(users, u, Remove(used, i));
    IdleSplit(u, Remove(lru, i), [i]);
    IdleSplit(u, Remove(used, i), [i]);
  }

  /** Victims are sought from the end to which buffers are released.  So the buffer replaced is the
      spare one given up last, and it is the least recently used one if and only if no two buffers
      are spare. */
  lemma ReplacesLeastRecent(bufs: seq<Buf>, lru: seq<nat>, used: seq<nat>, v: nat)
    requires NoDup(lru) && InOrder(Users(bufs), lru, used) && Victim(bufs, lru, v)
    ensures Victim(bufs, used, v)
    ensures v == LeastRecentlyUsed(bufs, used)
       <==> forall i, j :: i in lru && j in lru && i < |bufs| && j < |bufs| && Spare(bufs[i]) && Spare(bufs[j]) ==> i == j
  {
    SparesOfIdle(bufs, lru);
    SparesOfIdle(bufs, used);
    SparesMembers(bufs, lru);
    var s := Spares(bufs, lru);
    assert s[0] in s && s[|s| - 1] in s;
    if v == s[0] { assert |s| == 1; }
  }
}
