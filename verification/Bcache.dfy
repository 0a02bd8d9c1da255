/** src/mm/bcache.c, and the sector-split access of src/fs/ext4/ext4.c on top of it.

    Work is sequential and device I/O succeeds.  `disk` is the device; `view` is the flat store that
    the cache and the disk together stand for.
 */
module Bcache {
  import opened BcacheState
  import opened Bytes
  import opened Lists

  class BlockCache {
    var bufs: seq<Buf>
    var hash: seq<seq<nat>>
    var lru: seq<nat>
    var disk: Store
    ghost var live: set<nat>
    ghost var touched: set<nat>
    ghost var view: Store
    ghost var used: seq<nat>            // the buffers in the order in which they were last given up

    ghost function C(): Cache
      reads this
    {
      Cache(bufs, hash, lru)
    }

    ghost predicate Valid()
      reads this
    {
      Shape(C(), live) && Refines(C(), live, touched, disk, view) && InOrder(Users(bufs), lru, used)
    }

    /** bcache_init over a device whose blocks are all of the right size */
    constructor (device: Store)
      requires WellSized(device)
      ensures Valid() && view == device && disk == device && touched == {} && live == {} && used == lru
      ensures forall j :: 0 <= j < |bufs| ==> bufs[j].refcnt == 0 && !bufs[j].dirty
    {
      bufs := seq(BCACHE_SIZE, _ => Buf([], 0, 0, 0, false, false));
      hash := seq(BCACHE_HASH_SIZE, _ => []);
      lru := [];
      disk, view, live, touched, used := device, device, {}, {}, [];
      new;
      var i := 0;
      while i < BCACHE_SIZE
        invariant 0 <= i <= BCACHE_SIZE && NoDup(lru) && forall j: nat :: j in lru <==> j < i
        invariant bufs == seq(BCACHE_SIZE, _ => Buf([], 0, 0, 0, false, false))
        invariant hash == seq(BCACHE_HASH_SIZE, _ => [])
        invariant disk == device && view == device && live == {} && touched == {}
      {
        assert NoDup([i]);
        NoDupParts([i], lru);
        lru := [i] + lru;
        i := i + 1;
      }
      used := lru;
    }

    /** bcache_lookup: the one buffer of a block, or none. */
    method Lookup(key: Key) returns (found: bool, i: nat)
      requires Shape(C(), live)
      ensures if found then i in live && bufs[i].Key() == key else forall j :: j in live ==> bufs[j].Key() != key
    {
      hide NoDup, Hash;
      var chain := hash[Hash(key)];
      var n := 0;
      while n < |chain|
        invariant n <= |chain| && forall m :: 0 <= m < n ==> chain[m] < |bufs| && bufs[chain[m]].Key() != key
      {
        i := chain[n];
        assert i in hash[Hash(key)];
        assert OnChain(C(), live, i, Hash(key));
        if bufs[i].Key() == key { return true, i; }
        n := n + 1;
      }
      forall j | j in live && bufs[j].Key() == key ensures j in chain { assert OnChain(C(), live, j, Hash(key)); }
      return false, 0;
    }

    /** bcache_evict: the last unused clean buffer of the list, or else the last unused dirty one,
        which is written back first; fails exactly when every buffer is in use. */
    method Evict() returns (found: bool, i: nat)
      requires Valid()
      modifies this`bufs, this`hash, this`lru, this`disk
      ensures !found ==> C() == old(C()) && disk == old(disk) && forall j :: 0 <= j < |bufs| ==> bufs[j].refcnt > 0
      ensures found ==> i < BCACHE_SIZE && old(bufs)[i].refcnt == 0
      ensures found && !old(bufs)[i].dirty ==> Victim(old(bufs), old(lru), i)
      ensures found && old(bufs)[i].dirty ==> forall j :: 0 <= j < |old(bufs)| ==> !Spare(old(bufs)[j])
      ensures found ==> var h := Hash(old(bufs)[i].Key());
                && bufs == old(bufs)[i := old(bufs)[i].(valid := false, dirty := false)]
                && hash == old(hash)[h := Remove(old(hash)[h], i)]
                && disk == WrittenBack(old(bufs)[i], old(disk))
                && lru == if old(bufs)[i].dirty then Remove(old(lru), i) else old(lru)
    {
      hide NoDup, Hash, Refines, InOrder, Remove, Shape, Spares;
      Sizes(C(), live);
      var dirty;
      found, dirty, i := Scan();
      if !found { return; }
      var h := Hash(bufs[i].Key());
      hash := hash[h := Remove(hash[h], i)];
      if dirty {
        lru := Remove(lru, i);
        disk := disk[bufs[i].Key() := bufs[i].data];
      }
      bufs := bufs[i := bufs[i].(valid := false, dirty := false)];
    }

    /** The scan of bcache_evict: the first unused clean buffer from the end of the list, or else the
        first unused dirty one. */
    method Scan() returns (found: bool, dirty: bool, i: nat)
      requires Shape(C(), live)
      ensures !found ==> forall j :: 0 <= j < |bufs| ==> bufs[j].refcnt > 0
      ensures found ==> i < |bufs| && bufs[i].refcnt == 0 && bufs[i].dirty == dirty
      ensures found && !dirty ==> Victim(bufs, lru, i)
      ensures found && dirty ==> forall j :: 0 <= j < |bufs| ==> !Spare(bufs[j])
    {
      hide NoDup, Hash, Shape;
      Sizes(C(), live);
      assert lru[|lru|..] == [];
      var n := |lru|;
      found, dirty, i := false, false, 0;
      while n > 0
        invariant 0 <= n <= |lru| && dirty == found && Spares(bufs, lru[n..]) == []
        invariant forall m :: n <= m < |lru| ==> lru[m] < |bufs| && (bufs[lru[m]].refcnt > 0 || found) && !Spare(bufs[lru[m]])
        invariant found ==> i < |bufs| && bufs[i].refcnt == 0 && bufs[i].dirty
      {
        n := n - 1;
        var b := lru[n];
        assert b in lru && lru[n..][1..] == lru[n + 1..];
        if bufs[b].refcnt == 0 {
          if !bufs[b].dirty {
            assert lru == lru[..n] + lru[n..];
            SparesSplit(bufs, lru[..n], lru[n..]);
            return true, false, b;
          }
          if !found { found, dirty, i := true, true, b; }
        }
      }
      forall j | 0 <= j < |bufs| ensures !Spare(bufs[j]) && (!found ==> bufs[j].refcnt > 0) { assert j in lru; }
    }

    /** The block is in a buffer. */
    ghost predicate Cached(key: Key)
      reads this
    {
      exists j :: j in live && j < |bufs| && bufs[j].Key() == key
    }

    /** bcache_get: the block's buffer, one user more.  With a buffer to spare it does not panic.  A
        block that is not cached gets the spare buffer given up last. */
    method Get(key: Key) returns (i: nat)
      requires Valid() && key in view && 0 in Users(bufs)
      modifies this`bufs, this`hash, this`lru, this`disk, this`live
      ensures Valid() && i in live && i < |bufs| == |old(bufs)| && bufs[i].Key() == key && bufs[i].refcnt > 0
      ensures Users(bufs) == old(Users(bufs))[i := old(Users(bufs))[i] + 1]
      ensures lru == [i] + Remove(old(lru), i) && live == old(live) + {i}
      ensures if old(Cached(key)) then hash == old(hash) && bufs == old(bufs)[i := old(bufs)[i].(refcnt := old(bufs)[i].refcnt + 1)]
              else |old(hash)| == BCACHE_HASH_SIZE && C() == Reassign(old(C()), i, key)
      ensures !old(Cached(key)) && Spares(old(bufs), old(lru)) != [] ==> Victim(old(bufs), old(lru), i)
      ensures Settles(old(disk), disk, view)
    {
      hide NoDup, Hash, Remove, Shape, Refines, InOrder, Spares;
      Sizes(C(), live);
      var found;
      found, i := Lookup(key);
      ghost var c := C();
      if found {
        HitKeeps(c, live, touched, disk, view, used, i);
        bufs := bufs[i := bufs[i].(refcnt := bufs[i].refcnt + 1)];
        lru := [i] + Remove(lru, i);
        return;
      }
      found, i := Evict();
      if !found {
        assert false; // "no free buffers"
      }
      WriteBackSettles(c, live, touched, old(disk), view, i);
      MissKeeps(c, live, touched, old(disk), view, used, i, key);
      bufs := bufs[i := bufs[i].(dev := key.0, blockno := key.1, refcnt := 1, valid := false, dirty := false)];
      hash := hash[Hash(key) := [i] + hash[Hash(key)]];
      lru := [i] + Remove(lru, i);
      live := live + {i};
      assert C() == Reassign(c, i, key);
    }

    /** bread: the buffer holds what the store holds for the block. */
    method Bread(key: Key) returns (i: nat)
      requires Valid() && key in view && touched == {} && 0 in Users(bufs)
      modifies this`bufs, this`hash, this`lru, this`disk, this`live
      ensures Valid() && i in live && i < |bufs| == |old(bufs)| && bufs[i].Key() == key && bufs[i].refcnt > 0
      ensures bufs[i].valid && |bufs[i].data| == BLOCK_SIZE && bufs[i].data == view[key]
      ensures Users(bufs) == old(Users(bufs))[i := old(Users(bufs))[i] + 1]
      ensures lru == [i] + Remove(old(lru), i) && live == old(live) + {i}
      ensures forall j :: 0 <= j < |bufs| && j != i ==> bufs[j] == old(bufs)[j]
      ensures !old(Cached(key)) ==> !bufs[i].dirty
      ensures !old(Cached(key)) && Spares(old(bufs), old(lru)) != [] ==> Victim(old(bufs), old(lru), i)
      ensures Settles(old(disk), disk, view)
    {
      hide NoDup, Hash, Shape, Remove, Spares, Idle;
      i := Get(key);
      if !bufs[i].valid {
        RefinesFill(C(), live, touched, disk, view, i);
        ShapeBuf(C(), live, i, bufs[i].(data := disk[key], valid := true));
        OneBuf(bufs, i, bufs[i].(data := disk[key], valid := true));
        bufs := bufs[i := bufs[i].(data := disk[key], valid := true)];
      }
      assert BufOk(bufs[i], false, view);
    }

    /** bwrite: through to the disk. */
    method Bwrite(i: nat)
      requires Valid() && i in live
      modifies this`bufs, this`disk, this`touched, this`view
      ensures Valid() && Users(bufs) == old(Users(bufs))
      ensures old(bufs)[i].valid ==> var b := old(bufs)[i];
                && view == old(view)[b.Key() := b.data] && disk == old(disk)[b.Key() := b.data]
                && touched == old(touched) - {i} && bufs == old(bufs)[i := b.(dirty := false)]
      ensures !old(bufs)[i].valid ==> C() == old(C()) && view == old(view) && disk == old(disk) && touched == old(touched)
    {
      hide Shape, Refines, InOrder;
      Sizes(C(), live);
      if !bufs[i].valid { return; }
      OneBuf(bufs, i, bufs[i].(dirty := false));
      RefinesWrite(C(), live, touched, disk, view, i);
      ShapeBuf(C(), live, i, bufs[i].(dirty := false));
      bufs := bufs[i := bufs[i].(dirty := true)];
      disk := disk[bufs[i].Key() := bufs[i].data];
      bufs := bufs[i := bufs[i].(dirty := false)];
      view, touched := view[bufs[i].Key() := bufs[i].data], touched - {i};
      assert bufs == old(bufs)[i := old(bufs)[i].(dirty := false)];
    }

    /** brelse: the last user puts the buffer at the end of the list, where Evict looks first. */
    method Brelse(i: nat)
      requires Valid() && i in live && bufs[i].refcnt > 0 && i !in touched
      modifies this`bufs, this`lru, this`used
      ensures Valid() && Users(bufs) == old(Users(bufs))[i := old(Users(bufs))[i] - 1]
      ensures bufs == old(bufs)[i := old(bufs)[i].(refcnt := old(bufs)[i].refcnt - 1)]
      ensures if bufs[i].refcnt == 0 then lru == Remove(old(lru), i) + [i] && used == Remove(old(used), i) + [i]
              else lru == old(lru) && used == old(used)
    {
      hide NoDup, Hash, Remove, InOrder, Shape, Refines;
      Sizes(C(), live);
      ghost var users := Users(bufs);
      if bufs[i].refcnt == 1 {
        OrderGive(users, lru, used, i);
      } else {
        OrderCount(users, lru, used, i, bufs[i].refcnt - 1);
      }
      ghost var c := C();
      RefinesCount(c, live, touched, disk, view, i, bufs[i].refcnt - 1);
      ShapeBuf(c, live, i, bufs[i].(refcnt := bufs[i].refcnt - 1));
      MoveToBack(lru, i);
      bufs := bufs[i := bufs[i].(refcnt := bufs[i].refcnt - 1)];
      if bufs[i].refcnt == 0 {
        ShapeLru(C(), live, Remove(lru, i) + [i]);
        RefinesLru(C(), live, touched, disk, view, Remove(lru, i) + [i]);
        lru, used := Remove(lru, i) + [i], Remove(used, i) + [i];
      }
      assert Users(bufs) == users[i := old(bufs)[i].refcnt - 1];
    }

    /** ext4_read_at: the bytes the flat store holds, at any offset and length. */
    method ReadAt(dev: nat, offset: nat, size: nat) returns (out: seq<Byte>)
      requires Valid() && touched == {} && OnDevice(view, dev, offset, offset + size)
      requires 0 in Users(bufs)
      modifies this`bufs, this`hash, this`lru, this`disk, this`live, this`used
      ensures Valid() && Users(bufs) == old(Users(bufs)) && Settles(old(disk), disk, view)
      ensures WellSized(view) && out == Slice(view, dev, offset, size)
    {
      hide Shape, Refines, Remove, InOrder, Victim, Reassign;
      SizedView(C(), live, touched, disk, view);
      out := [];
      var at, left := offset, size;
      while left > 0
        invariant 0 <= left <= size && at == offset + (size - left) && OnDevice(view, dev, offset, at)
        invariant Valid() && Users(bufs) == old(Users(bufs)) && out == Slice(view, dev, offset, size - left)
        invariant Settles(old(disk), disk, view)
      {
        var blockno, off := at / BLOCK_SIZE, at % BLOCK_SIZE;
        var n := BLOCK_SIZE - off;
        if n > left { n := left; }
        assert OnDevice(view, dev, offset, offset + (size - left) + n) by { Shorter(view, dev, offset, size, size - left + n); }
        SliceMore(view, dev, offset, size - left, n);
        var b := Bread((dev, blockno));
        OneMoreOneLess(old(Users(bufs)), b);
        out := out + bufs[b].data[off..off + n];
        Brelse(b);
        at, left := at + n, left - n;
      }
    }

    /** ext4_write_at: exactly those bytes change, in the store and on the disk. */
    method WriteAt(dev: nat, offset: nat, data: seq<Byte>)
      requires Valid() && touched == {} && OnDevice(view, dev, offset, offset + |data|)
      requires 0 in Users(bufs)
      modifies this
      ensures Valid() && touched == {} && Users(bufs) == old(Users(bufs))
      ensures WellSized(old(view)) && WellSized(view) && Wrote(old(view), view, dev, offset, data)
      ensures forall n: nat :: offset <= n < offset + |data| ==> OnDisk(disk, view, dev, n)
    {
      hide Shape, Refines, Remove, InOrder, Victim, Reassign;
      SizedView(C(), live, touched, disk, view);
      var at, done := offset, 0;
      assert data[..0] == [];
      while done < |data|
        invariant done <= |data| && at == offset + done && touched == {}
        invariant Valid() && Users(bufs) == old(Users(bufs))
        invariant WellSized(view) && Wrote(old(view), view, dev, offset, data[..done])
        invariant forall n: nat :: offset <= n < at ==> OnDisk(disk, view, dev, n)
      {
        var blockno, off := at / BLOCK_SIZE, at % BLOCK_SIZE;
        var n := BLOCK_SIZE - off;
        if n > |data| - done { n := |data| - done; }
        assert (dev, blockno) in view by { assert Has(old(view), dev, at); }
        ghost var view1, disk1 := view, disk;
        WriteBlock((dev, blockno), off, data[done..done + n]);
        WroteMore(old(view), view1, dev, offset, data, done, n);
        StaysOnDisk(disk1, disk, view1, view, dev, offset, at, n);
        at, done := at + n, done + n;
      }
      assert data[..|data|] == data;
    }

    /** One round of ext4_write_at: read the block, change part of it, write it. */
    method WriteBlock(key: Key, off: nat, chunk: seq<Byte>)
      requires Valid() && touched == {} && key in view && |view[key]| == BLOCK_SIZE && off + |chunk| <= BLOCK_SIZE
      requires 0 in Users(bufs)
      modifies this
      ensures Valid() && touched == {} && Users(bufs) == old(Users(bufs))
      ensures view == old(view)[key := old(view)[key][..off] + chunk + old(view)[key][off + |chunk|..]]
      ensures key in disk && disk[key] == view[key]
      ensures forall k :: k != key && k in view && k in old(disk) && old(disk)[k] == view[k] ==> k in disk && disk[k] == view[k]
    {
      hide Shape, Refines, Remove, InOrder, Victim, Reassign;
      var b := Bread(key);
      OneMoreOneLess(old(Users(bufs)), b);
      Patch(b, off, chunk);
      Bwrite(b);
      Brelse(b);
    }

    /** memcpy into a held buffer. */
    method Patch(i: nat, off: nat, chunk: seq<Byte>)
      requires Valid() && i in live && bufs[i].valid && bufs[i].refcnt > 0
      requires |bufs[i].data| == BLOCK_SIZE && off + |chunk| <= BLOCK_SIZE
      modifies this`bufs, this`touched
      ensures Valid() && touched == old(touched) + {i} && Users(bufs) == old(Users(bufs))
      ensures var d := old(bufs)[i].data;
              bufs == old(bufs)[i := old(bufs)[i].(data := d[..off] + chunk + d[off + |chunk|..])]
    {
      hide Shape, Refines, InOrder;
      Sizes(C(), live);
      var d := bufs[i].data;
      OneBuf(bufs, i, bufs[i].(data := d[..off] + chunk + d[off + |chunk|..]));
      RefinesTouch(C(), live, touched, disk, view, i, d[..off] + chunk + d[off + |chunk|..]);
      ShapeBuf(C(), live, i, bufs[i].(data := d[..off] + chunk + d[off + |chunk|..]));
      bufs := bufs[i := bufs[i].(data := d[..off] + chunk + d[off + |chunk|..])];
      touched := touched + {i};
    }
  }

  /** Buffer i, found on its chain, gets a user more and goes to the head of the list. */
  lemma HitKeeps(c: Cache, live: set<nat>, touched: set<nat>, disk: Store, view: Store, used: seq<nat>, i: nat)
    requires Shape(c, live) && Refines(c, live, touched, disk, view) && InOrder(Users(c.bufs), c.lru, used) && i in live
    ensures i < |c.bufs|
    ensures var b := c.bufs[i].(refcnt := c.bufs[i].refcnt + 1);
            var c' := Cache(c.bufs[i := b], c.hash, [i] + Remove(c.lru, i));
            && Shape(c', live) && Refines(c', live, touched, disk, view) && InOrder(Users(c'.bufs), c'.lru, used)
            && Users(c'.bufs) == Users(c.bufs)[i := Users(c.bufs)[i] + 1]
  {
    hide NoDup, Hash, Remove, Shape, Refines, InOrder;
    Sizes(c, live);
    var b := c.bufs[i].(refcnt := c.bufs[i].refcnt + 1);
    OrderTake(Users(c.bufs), c.lru, used, i, b.refcnt);
    assert Users(c.bufs[i := b]) == Users(c.bufs)[i := b.refcnt];
    RefinesCount(c, live, touched, disk, view, i, b.refcnt);
    ShapeBuf(c, live, i, b);
    MoveToFront(c.lru, i);
    ShapeLru(c.(bufs := c.bufs[i := b]), live, [i] + Remove(c.lru, i));
    RefinesLru(c.(bufs := c.bufs[i := b]), live, touched, disk, view, [i] + Remove(c.lru, i));
  }

  /** Buffer i, which nobody used, is given to a block that was not cached. */
  lemma MissKeeps(c: Cache, live: set<nat>, touched: set<nat>, disk: Store, view: Store, used: seq<nat>, i: nat, key: Key)
    requires Shape(c, live) && Refines(c, live, touched, disk, view) && InOrder(Users(c.bufs), c.lru, used) && key in view
    requires i < BCACHE_SIZE && i < |c.bufs| && |c.hash| == BCACHE_HASH_SIZE && c.bufs[i].refcnt == 0
    requires forall j :: j in live ==> j < |c.bufs| && c.bufs[j].Key() != key
    ensures var c' := Reassign(c, i, key);
            && Shape(c', live + {i}) && Refines(c', live + {i}, touched, WrittenBack(c.bufs[i], disk), view)
            && InOrder(Users(c'.bufs), c'.lru, used) && Users(c'.bufs) == Users(c.bufs)[i := Users(c.bufs)[i] + 1]
    ensures Remove(Remove(c.lru, i), i) == Remove(c.lru, i)
    ensures (forall j :: 0 <= j < |c.bufs| ==> !Spare(c.bufs[j])) ==> Spares(c.bufs, c.lru) == []
  {
    hide NoDup, Hash, Remove, Shape, Refines, InOrder, Spares;
    Sizes(c, live);
    OrderTake(Users(c.bufs), c.lru, used, i, 1);
    NoSpares(c.bufs, c.lru);
    KeyOnDisk(c, live, touched, disk, view, key);
    ShapeReassign(c, live, i, key);
    RefinesReassign(c, live, touched, disk, view, i, key);
    RemoveTwice(c.lru, i);
    assert Users(Reassign(c, i, key).bufs) == Users(c.bufs)[i := 1];
  }

  /** On a cache that has never been used, two blocks read one after the other get the same buffer:
      the first is thrown out although every other buffer is empty.  `bufs` and `used` are the cache
      between the two reads; its least recently used buffer is another one. */
  method TwoColdReads(device: Store, a: Key, b: Key)
    returns (c: BlockCache, i: nat, j: nat, ghost bufs: seq<Buf>, ghost used: seq<nat>)
    requires WellSized(device) && a in device && b in device && a != b
    ensures fresh(c) && c.Valid() && i == j && c.live == {i} && !c.Cached(a) && c.Cached(b)
    ensures |c.bufs| == BCACHE_SIZE && forall k :: 0 <= k < |c.bufs| && k != i ==> Spare(c.bufs[k])
    ensures Spares(bufs, used) != [] && LeastRecentlyUsed(bufs, used) != j
  {
    hide Settles, Shape, Refines, InOrder, Remove;
    c := new BlockCache(device);
    Sizes(c.C(), c.live);
    assert c.Valid() && Users(c.bufs)[0] == 0;
    ghost var was := c.lru;
    i := c.Bread(a);
    c.Brelse(i);
    SparesSplit(c.bufs, Remove([i] + Remove(was, i), i), [i]);
    assert Users(c.bufs)[i] == 0;
    bufs, used := c.bufs, c.used;
    Sizes(c.C(), c.live);
    ReplacesLeastRecent(bufs, c.lru, used, i);
    ghost var k: nat := if i == 0 then 1 else 0;
    assert k in c.lru && Spare(bufs[k]) && Spare(bufs[i]);
    j := c.Bread(b);
  }

  lemma NoSpares(bufs: seq<Buf>, lru: seq<nat>)
    requires NoDup(lru)
    ensures (forall j :: 0 <= j < |bufs| ==> !Spare(bufs[j])) ==> Spares(bufs, lru) == []
  {
    SparesMembers(bufs, lru);
    var s := Spares(bufs, lru);
    if s != [] { assert s[0] in s; }
  }

  lemma OneBuf(bufs: seq<Buf>, i: nat, b: Buf)
    requires i < |bufs| && b.refcnt == bufs[i].refcnt
    ensures Users(bufs[i := b]) == Users(bufs)
  {
  }

  lemma RefinesLru(c: Cache, live: set<nat>, touched: set<nat>, disk: Store, view: Store, lru: seq<nat>)
    requires Refines(c, live, touched, disk, view)
    ensures Refines(c.(lru := lru), live, touched, disk, view)
  {
    forall k | HasDirty(c, live, k) ensures HasDirty(c.(lru := lru), live, k) {}
  }

  lemma OneMoreOneLess(u: seq<nat>, i: nat)
    requires i < |u|
    ensures var v := u[i := u[i] + 1]; v[i := v[i] - 1] == u
  {
  }

  lemma KeyOnDisk(c: Cache, live: set<nat>, touched: set<nat>, disk: Store, view: Store, key: Key)
    requires Refines(c, live, touched, disk, view) && key in view
    ensures key in disk
  {
  }

  lemma SizedView(c: Cache, live: set<nat>, touched: set<nat>, disk: Store, view: Store)
    requires Refines(c, live, touched, disk, view)
    ensures WellSized(view)
  {
  }

  lemma RemoveTwice(s: seq<nat>, x: nat)
    requires NoDup(s)
    ensures Remove(Remove(s, x), x) == Remove(s, x)
  {
    RemoveParts(s, x);
    RemoveAbsent(Remove(s, x), x);
  }

  lemma Shorter(view: Store, dev: nat, lo: nat, size: nat, size': nat)
    requires OnDevice(view, dev, lo, lo + size) && size' <= size
    ensures OnDevice(view, dev, lo, lo + size')
  {
  }
}
