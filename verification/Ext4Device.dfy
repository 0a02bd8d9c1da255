/** The disk that the ext4 model works on, in filesystem blocks, is the block cache's store seen through
    ext4_read_at and ext4_write_at of src/fs/ext4/ext4.c. */
module Ext4Device {
  import opened Bcache
  import opened BcacheState
  import opened Bytes
  import Ext4Records

  /** The first n blocks of bs bytes of a device are there. */
  ghost predicate Holds(view: Store, dev: nat, bs: nat, n: nat) {
    WellSized(view) && forall b: nat :: b < n ==> OnDevice(view, dev, b * bs, b * bs + bs)
  }

  /** A device of n blocks of bs bytes. */
  ghost function DiskOf(view: Store, dev: nat, bs: nat, n: nat): (d: Ext4Records.Disk)
    requires Holds(view, dev, bs, n)
    ensures forall b: nat :: b in d <==> b < n
    ensures forall b: nat :: b < n ==> d[b] == Slice(view, dev, b * bs, bs)
  {
    map b: nat | b < n :: Slice(view, dev, b * bs, bs)
  }

  /** A write inside a block is an update of the disk at that block. */
  lemma WriteIsUpdate(view: Store, view': Store, dev: nat, bs: nat, n: nat, b: nat, off: nat, data: seq<Byte>)
    requires Holds(view, dev, bs, n) && WellSized(view') && b < n && off + |data| <= bs
    requires Wrote(view, view', dev, b * bs + off, data)
    ensures Holds(view', dev, bs, n)
    ensures var d := DiskOf(view, dev, bs, n); DiskOf(view', dev, bs, n) == d[b := Patch(d[b], off, data)]
  {
    hide Wrote, OnDevice, Slice, WellSized, Patch;
    forall other: nat | other < n
      ensures OnDevice(view', dev, other * bs, other * bs + bs)
      ensures Slice(view', dev, other * bs, bs)
           == if other == b then Patch(Slice(view, dev, b * bs, bs), off, data) else Slice(view, dev, other * bs, bs)
    {
      BlockWrites(view, view', dev, bs, b, off, data, other);
    }
  }

  /** A read inside a block is a part of the disk's block. */
  lemma ReadIsPart(view: Store, dev: nat, bs: nat, n: nat, b: nat, off: nat, len: nat)
    requires Holds(view, dev, bs, n) && b < n && off + len <= bs
    ensures OnDevice(view, dev, b * bs + off, b * bs + off + len)
    ensures Slice(view, dev, b * bs + off, len) == DiskOf(view, dev, bs, n)[b][off..off + len]
  {
    var lo := b * bs;
    assert OnDevice(view, dev, lo, lo + bs);
    assert OnDevice(view, dev, lo + off, lo + off + len) by {
      forall m: nat | lo + off <= m < lo + off + len ensures Has(view, dev, m) {}
    }
  }

  /** ext4_write_at inside block b, as the ext4 model has it. */
  method WriteInBlock(c: BlockCache, dev: nat, bs: nat, ghost n: nat, b: nat, off: nat, data: seq<Byte>)
    requires c.Valid() && c.touched == {} && 0 in Users(c.bufs) && Holds(c.view, dev, bs, n) && b < n && off + |data| <= bs
    modifies c
    ensures c.Valid() && c.touched == {} && Users(c.bufs) == old(Users(c.bufs)) && Holds(c.view, dev, bs, n)
    ensures var d := DiskOf(old(c.view), dev, bs, n); DiskOf(c.view, dev, bs, n) == d[b := Patch(d[b], off, data)]
  {
    hide Wrote, OnDevice, Slice, Patch, Shape, Refines, InOrder;
    ReadIsPart(c.view, dev, bs, n, b, off, |data|);
    ghost var view := c.view;
    c.WriteAt(dev, b * bs + off, data);
    WriteIsUpdate(view, c.view, dev, bs, n, b, off, data);
  }

  /** ext4_read_at inside block b, as the ext4 model has it. */
  method ReadInBlock(c: BlockCache, dev: nat, bs: nat, ghost n: nat, b: nat, off: nat, len: nat) returns (out: seq<Byte>)
    requires c.Valid() && c.touched == {} && 0 in Users(c.bufs) && Holds(c.view, dev, bs, n) && b < n && off + len <= bs
    modifies c
    ensures c.Valid() && c.view == old(c.view) && c.touched == {} && Users(c.bufs) == old(Users(c.bufs))
    ensures out == DiskOf(c.view, dev, bs, n)[b][off..off + len]
  {
    hide OnDevice, Slice, Shape, Refines, InOrder;
    ReadIsPart(c.view, dev, bs, n, b, off, len);
    out := c.ReadAt(dev, b * bs + off, len);
  }
}
