/** The split virtqueue of src/hal/virtio/virtq.c, its rings in shared memory, and a device that
    fetches requests in order and completes them in any order.

    One class holds both sides.  Every method is one step; since each keeps `Valid`, every
    interleaving of driver and device steps does.  Ring indices are 16-bit and wrap.
 */
module Virtq {
  import opened Lists
  import opened VirtqState

  datatype RawBuf = RawBuf(addr: nat, len: nat)

  ghost function Tag(bufs: seq<RawBuf>, write: bool): seq<Buf> {
    seq(|bufs|, i requires 0 <= i < |bufs| => Buf(bufs[i].addr, bufs[i].len, write))
  }

  lemma TagLength(bufs: seq<RawBuf>, write: bool)
    ensures |Tag(bufs, write)| == |bufs|
  {
  }

  /** Only descriptors in c have changed. */
  ghost predicate Untouched(descs: seq<Desc>, descs': seq<Desc>, c: seq<nat>) {
    |descs'| == |descs| && forall d: nat :: d < |descs| && d !in c ==> descs'[d] == descs[d]
  }

  /** What a request for these buffers describes to the device.  A descriptor is taken even for none, and is
      blank, as every free one. */
  ghost function Described(ins: seq<RawBuf>, outs: seq<RawBuf>): (bufs: seq<Buf>)
    ensures |bufs| > 0
  {
    TagLength(ins, false);
    TagLength(outs, true);
    if |ins| + |outs| > 0 then Tag(ins, false) + Tag(outs, true) else [Buf(0, 0, false)]
  }

  /** What is published are the buffers asked for if and only if there is one. */
  lemma DescribesThem(ins: seq<RawBuf>, outs: seq<RawBuf>)
    ensures Described(ins, outs) == Tag(ins, false) + Tag(outs, true) <==> |ins| + |outs| > 0
    ensures |Described(ins, outs)| == if |ins| + |outs| > 0 then |ins| + |outs| else 1
  {
    TagLength(ins, false);
    TagLength(outs, true);
  }

  /** Free descriptors describe nothing: virtq_create and virtq_free_desc clear them. */
  ghost predicate Blank(descs: seq<Desc>, free: seq<nat>) {
    forall d :: d in free && d < |descs| ==> Describes(descs[d], Buf(0, 0, false))
  }

  /** Building a chain from the front of the free list leaves the rest blank. */
  lemma BlankRest(descs: seq<Desc>, descs': seq<Desc>, free: seq<nat>, n: nat)
    requires n <= |free| && NoDup(free) && Blank(descs, free) && Untouched(descs, descs', free[..n])
    ensures Blank(descs', free[n..])
  {
    forall d | d in free[n..] && d < |descs'| ensures Describes(descs'[d], Buf(0, 0, false)) {
      var j :| n <= j < |free| && free[j] == d;
      assert d in free && d !in free[..n];
    }
  }

  /** A chain under construction: `c` has left the front of the free list, its first `done`
      descriptors describe their buffers, and all but the last are linked; others are as before. */
  ghost predicate Building(descs0: seq<Desc>, descs: seq<Desc>, free0: seq<nat>, c: seq<nat>, bufs: seq<Buf>, done: nat) {
    && |descs| == |descs0| && 0 < |c| <= |free0| && c == free0[..|c|] && done <= |c| && done <= |bufs|
    && (forall i :: 0 <= i < |free0| ==> free0[i] < |descs|)
    && Untouched(descs0, descs, c)
    && (forall i :: 0 <= i < done ==> Describes(descs[c[i]], bufs[i]))
    && (forall i :: 0 <= i < |c| - 1 ==> descs[c[i]].hasNext)
    && (forall i: nat :: i + 1 < |c| ==> LinkTo(descs, c, i))
  }

  lemma FreeListTail(descs: seq<Desc>, head: nat, free: seq<nat>)
    requires FreeList(descs, head, free) && free != []
    ensures FreeList(descs, descs[head].next, free[1..])
  {
    assert free[0] < |descs|;
    forall i: nat | i + 1 < |free[1..]| ensures LinkTo(descs, free[1..], i) {
      assert LinkTo(descs, free, i + 1);
    }
    if |free| > 1 { assert LinkTo(descs, free, 0); }
  }

  /** The free list does not see changes to descriptors that are not on it. */
  lemma FreeListFrame(descs: seq<Desc>, descs': seq<Desc>, head: nat, free: seq<nat>)
    requires FreeList(descs, head, free) && |descs'| == |descs|
    requires forall i :: 0 <= i < |free| ==> descs'[free[i]] == descs[free[i]]
    ensures FreeList(descs', head, free)
  {
    forall i: nat | i + 1 < |free| ensures LinkTo(descs', free, i) {
      assert LinkTo(descs, free, i);
    }
  }

  lemma BuildingChain(descs0: seq<Desc>, descs: seq<Desc>, free0: seq<nat>, c: seq<nat>, bufs: seq<Buf>, done: nat)
    requires Building(descs0, descs, free0, c, bufs, done)
    ensures 0 < |c| <= |free0| && c == free0[..|c|] && |descs| == |descs0|
    ensures c[|c| - 1] in free0[..|c|] && c[|c| - 1] == free0[|c| - 1] < |descs|
  {
  }

  lemma BuildFill(descs0: seq<Desc>, descs: seq<Desc>, free0: seq<nat>, c: seq<nat>, bufs: seq<Buf>, d: Desc)
    requires 0 < |c| <= |bufs| && Building(descs0, descs, free0, c, bufs, |c| - 1) && NoDup(free0)
    requires Describes(d, bufs[|c| - 1])
    ensures c[|c| - 1] < |descs| && Building(descs0, descs[c[|c| - 1] := d], free0, c, bufs, |c|)
  {
    var x := c[|c| - 1];
    assert forall i :: 0 <= i < |c| ==> c[i] == free0[i];
    var descs' := descs[x := d];
    forall i: nat | i + 1 < |c| ensures LinkTo(descs', c, i) { assert LinkTo(descs, c, i); }
  }

  lemma BuildLink(descs0: seq<Desc>, descs: seq<Desc>, free0: seq<nat>, c: seq<nat>, bufs: seq<Buf>)
    requires |c| <= |bufs| && Building(descs0, descs, free0, c, bufs, |c|) && NoDup(free0) && |c| < |free0|
    ensures var prev, next := c[|c| - 1], free0[|c|];
            && prev < |descs|
            && Building(descs0, descs[prev := descs[prev].(hasNext := true, next := next)], free0, c + [next], bufs, |c|)
  {
    var prev, next := c[|c| - 1], free0[|c|];
    assert forall i :: 0 <= i < |c| ==> c[i] == free0[i];
    assert free0[..|c| + 1] == c + [next];
    var descs', c' := descs[prev := descs[prev].(hasNext := true, next := next)], c + [next];
    forall i: nat | i + 1 < |c'| ensures LinkTo(descs', c', i) {
      if i + 1 < |c| { assert LinkTo(descs, c, i); }
    }
  }

  lemma BuildFrees(descs: seq<Desc>, head: nat, free0: seq<nat>, n: nat, x: nat, d: Desc)
    requires n <= |free0| && NoDup(free0) && x in free0[..n] && x < |descs|
    requires FreeList(descs, head, free0[n..])
    ensures FreeList(descs[x := d], head, free0[n..])
  {
    var free := free0[n..];
    forall i | 0 <= i < |free| ensures free[i] != x { assert free[i] == free0[n + i]; }
    FreeListFrame(descs, descs[x := d], head, free);
  }

  lemma FreeListBounds(descs: seq<Desc>, head: nat, free: seq<nat>)
    requires FreeList(descs, head, free)
    ensures forall i :: 0 <= i < |free| ==> free[i] < |descs|
    ensures free != [] ==> head == free[0]
  {
  }

  lemma BuildStart(descs: seq<Desc>, free0: seq<nat>, bufs: seq<Buf>)
    requires free0 != [] && bufs != [] && forall i :: 0 <= i < |free0| ==> free0[i] < |descs|
    ensures Building(descs, descs, free0, [free0[0]], bufs, 0)
  {
  }

  /** Clearing the last descriptor's link finishes the chain. */
  lemma BuildEnd(descs0: seq<Desc>, descs: seq<Desc>, free0: seq<nat>, c: seq<nat>, bufs: seq<Buf>)
    requires Building(descs0, descs, free0, c, bufs, |bufs|) && |c| == |bufs| && NoDup(free0)
    ensures var last := c[|c| - 1];
            && last < |descs| && c == free0[..|c|]
            && var descs' := descs[last := descs[last].(hasNext := false, next := 0)];
               && Linked(descs', c, bufs)
               && Untouched(descs0, descs', c)
  {
    var last := c[|c| - 1];
    assert forall i :: 0 <= i < |c| ==> c[i] == free0[i];
    var descs' := descs[last := descs[last].(hasNext := false, next := 0)];
    forall i: nat | i + 1 < |c| ensures LinkTo(descs', c, i) { assert LinkTo(descs, c, i); }
  }

  class Virtqueue {
    const num: nat
    var descs: seq<Desc>
    var freeHead: nat
    var numFree: nat
    var availIdx: nat
    var usedIdx: nat
    var data: seq<Token>
    // shared with the device
    var availRing: seq<nat>
    var availShared: nat
    var usedRing: seq<UsedElem>
    var usedShared: nat
    // the device
    var lastAvail: nat
    var inFlight: set<nat>

    ghost var hist: seq<Request>
    ghost var completed: seq<nat>
    ghost var lens: seq<nat>
    ghost var reaped: nat
    ghost var fetched: nat
    ghost var free: seq<nat>
    ghost var owner: seq<int>

    ghost predicate Counters()
      reads this
    {
      && 0 < num <= VIRTQ_SIZE && SlotsFit(num)
      && |descs| == num && |data| == VIRTQ_SIZE && |availRing| == num && |usedRing| == num && |owner| == num
      && fetched <= |hist| && reaped <= |completed|
      && availIdx == availShared == |hist| % U16 && lastAvail == fetched % U16
      && usedShared == |completed| % U16 && usedIdx == reaped % U16
      && NoDup(completed) && (forall i :: 0 <= i < |completed| ==> completed[i] < fetched)
      && NonEmpty(hist)
      && numFree == |free|
    }

    ghost function Returned(): seq<nat>
      requires reaped <= |completed|
      reads this
    {
      completed[..reaped]
    }

    /** Descriptors are free or in one outstanding request, whose chain and token are in place. */
    ghost predicate Requests()
      requires Counters()
      reads this
    {
      && Owned(owner, free, hist, Returned()) && FreeList(descs, freeHead, free)
      && AllInPlace(descs, data, hist, Returned()) && Blank(descs, free)
    }

    /** Entries not read yet are still in their slots. */
    ghost predicate Rings()
      requires Counters()
      reads this
    {
      AvailOk(availRing, hist, fetched, num) && UsedOk(usedRing, hist, completed, lens, reaped, num)
    }

    ghost predicate Device()
      requires Counters()
      reads this
    {
      inFlight == InFlight(hist, fetched, completed)
    }

    ghost predicate Valid()
      reads this
    {
      Counters() && Requests() && Rings() && Device()
    }

    /** virtq_create: all descriptors linked in a row, both rings empty. */
    constructor (num: nat)
      requires 0 < num <= VIRTQ_SIZE && U16 % num == 0
      ensures Valid() && this.num == num && numFree == num && hist == [] && completed == [] && lens == [] && reaped == 0 && fetched == 0
    {
      this.num := num;
      descs := seq(num, i requires 0 <= i < num => Desc(0, 0, i < num - 1, false, if i < num - 1 then i + 1 else 0));
      freeHead, numFree, availIdx, usedIdx := 0, num, 0, 0;
      data := seq(VIRTQ_SIZE, _ => 0);
      availRing, availShared := seq(num, _ => 0), 0;
      usedRing, usedShared := seq(num, _ => UsedElem(0, 0)), 0;
      lastAvail, inFlight := 0, {};
      hist, completed, lens, reaped, fetched := [], [], [], 0, 0;
      free := seq(num, i => i);
      owner := seq(num, _ => FREE);
      new;
      InitialOwned(owner, free);
      assert forall i: nat :: i + 1 < |free| ==> LinkTo(descs, free, i);
    }

    /** virtq_alloc_desc: unlink the first free descriptor; 65535 when there is none. */
    method AllocDesc() returns (idx: nat)
      requires |free| == numFree && FreeList(descs, freeHead, free)
      modifies this`freeHead, this`numFree, this`free
      ensures old(numFree) == 0 ==> idx == U16 - 1 && freeHead == old(freeHead) && numFree == 0 && free == old(free)
      ensures old(numFree) > 0 ==> idx == old(free)[0] && free == old(free)[1..] && numFree == |free|
      ensures FreeList(descs, freeHead, free)
    {
      if numFree == 0 { return U16 - 1; }
      FreeListTail(descs, freeHead, free);
      idx := freeHead;
      freeHead := descs[idx].next;
      numFree := numFree - 1;
      free := free[1..];
    }

    /** virtq_add_buf after `done` buffers: prev is the descriptor to fill next. */
    ghost predicate Stage(descs0: seq<Desc>, free0: seq<nat>, c: seq<nat>, bufs: seq<Buf>, done: nat, prev: nat)
      reads this
    {
      && |bufs| <= |free0| && NoDup(free0)
      && |c| == (if done < |bufs| then done + 1 else done) && 0 < |c| <= |free0| && prev == c[|c| - 1]
      && Building(descs0, descs, free0, c, bufs, done)
      && free == free0[|c|..] && FreeList(descs, freeHead, free) && numFree == |free|
    }

    /** One turn of the loops of virtq_add_buf: fill descriptor prev and, if more follow, link the
        next free one behind it. */
    method FillDesc(prev: nat, b: RawBuf, write: bool, more: bool,
                    ghost descs0: seq<Desc>, ghost free0: seq<nat>, ghost c: seq<nat>, ghost bufs: seq<Buf>, ghost done: nat)
      returns (last: nat, ghost c': seq<nat>)
      requires Stage(descs0, free0, c, bufs, done, prev) && done < |bufs|
      requires bufs[done] == Buf(b.addr, b.len, write) && (more <==> done + 1 < |bufs|)
      modifies this`descs, this`freeHead, this`numFree, this`free
      ensures Stage(descs0, free0, c', bufs, done + 1, last) && c <= c'
    {
      hide Building, FreeList, NoDup;
      BuildingChain(descs0, descs, free0, c, bufs, |c| - 1);
      var d := Desc(b.addr, b.len, false, write, descs[prev].next);
      BuildFill(descs0, descs, free0, c, bufs, d);
      BuildFrees(descs, freeHead, free0, |c|, prev, d);
      descs := descs[prev := d];
      last, c' := prev, c;
      if more {
        last := AllocDesc();
        BuildLink(descs0, descs, free0, c, bufs);
        assert free0[|c|..][1..] == free0[|c| + 1..] && last == free0[|c|];
        var d' := descs[prev].(hasNext := true, next := last);
        assert prev in free0[..|c| + 1] by { assert free0[..|c| + 1][|c| - 1] == prev; }
        BuildFrees(descs, freeHead, free0, |c| + 1, prev, d');
        descs := descs[prev := d'];
        c' := c + [last];
      }
    }

    method BeginChain(token: Token, ghost bufs: seq<Buf>) returns (head: nat)
      requires 0 < |bufs| <= numFree && |free| == numFree && FreeList(descs, freeHead, free) && NoDup(free)
      requires |data| == VIRTQ_SIZE && |descs| <= VIRTQ_SIZE
      modifies this`freeHead, this`numFree, this`free, this`data
      ensures Stage(old(descs), old(free), [head], bufs, 0, head) && head == old(free)[0]
      ensures head < |data| && data == old(data)[head := token]
    {
      FreeListBounds(descs, freeHead, free);
      BuildStart(descs, free, bufs);
      head := AllocDesc();
      data := data[head := token];
    }

    /** One of the two loops of virtq_add_buf; `follows` tells whether other buffers come after. */
    method FillRun(prev0: nat, raws: seq<RawBuf>, write: bool, follows: bool,
                   ghost descs0: seq<Desc>, ghost free0: seq<nat>, ghost c0: seq<nat>, ghost bufs: seq<Buf>, ghost done: nat)
      returns (prev: nat, ghost c: seq<nat>)
      requires Stage(descs0, free0, c0, bufs, done, prev0) && done + |raws| <= |bufs|
      requires bufs[done..done + |raws|] == Tag(raws, write) && (follows <==> done + |raws| < |bufs|)
      modifies this`descs, this`freeHead, this`numFree, this`free
      ensures Stage(descs0, free0, c, bufs, done + |raws|, prev) && c0 <= c
    {
      hide Stage;
      prev, c := prev0, c0;
      for i := 0 to |raws|
        invariant Stage(descs0, free0, c, bufs, done + i, prev) && c0 <= c
      {
        assert bufs[done + i] == bufs[done..done + |raws|][i] == Buf(raws[i].addr, raws[i].len, write);
        prev, c := FillDesc(prev, raws[i], write, i < |raws| - 1 || follows, descs0, free0, c, bufs, done + i);
      }
    }

    /** The two loops of virtq_add_buf, and the end mark on the last descriptor. */
    method BuildChain(ins: seq<RawBuf>, outs: seq<RawBuf>, token: Token) returns (head: nat, ghost c: seq<nat>)
      requires |Described(ins, outs)| <= numFree == |free| && FreeList(descs, freeHead, free) && NoDup(free) && Blank(descs, free)
      requires |data| == VIRTQ_SIZE && |descs| <= VIRTQ_SIZE
      modifies this`descs, this`freeHead, this`numFree, this`free, this`data
      ensures var n := |Described(ins, outs)|; c == old(free)[..n] && free == old(free)[n..] && numFree == |free|
      ensures FreeList(descs, freeHead, free) && c != [] && head == c[0] && |descs| == old(|descs|)
      ensures Linked(descs, c, Described(ins, outs))
      ensures Untouched(old(descs), descs, c) && Blank(descs, free)
      ensures head < |data| && data == old(data)[head := token]
    {
      ghost var descs0, free0 := descs, free;
      ghost var bufs := Described(ins, outs);
      DescribesThem(ins, outs);
      TagLength(ins, false);
      TagLength(outs, true);
      hide Stage, FreeList, NoDup, Linked, Tag, Untouched;
      HeadFits();
      head := BeginChain(token, bufs);
      var prev := head;
      c := [head];
      if |ins| + |outs| > 0 {
        assert bufs[..|ins|] == Tag(ins, false) && bufs[|ins|..] == Tag(outs, true);
        prev, c := FillRun(prev, ins, false, |outs| > 0, descs0, free0, c, bufs, 0);
        prev, c := FillRun(prev, outs, true, false, descs0, free0, c, bufs, |ins|);
      } else {
        // no buffer: the descriptor stays as it is
        prev, c := FillDesc(prev, RawBuf(descs[prev].addr, descs[prev].len), descs[prev].write, false, descs0, free0, c, bufs, 0);
      }
      StageDone(descs0, free0, c, bufs, prev);
      descs := descs[prev := descs[prev].(hasNext := false, next := 0)];
      BlankRest(descs0, descs, free0, |bufs|);
    }

    lemma HeadFits()
      requires FreeList(descs, freeHead, free) && free != []
      ensures freeHead == free[0] && freeHead < |descs| && freeHead in free
    {
    }

    lemma StageDone(descs0: seq<Desc>, free0: seq<nat>, c: seq<nat>, bufs: seq<Buf>, prev: nat)
      requires Stage(descs0, free0, c, bufs, |bufs|, prev)
      ensures c == free0[..|bufs|] && c != [] && free == free0[|bufs|..] && numFree == |free| && prev < |descs| == |descs0|
      ensures var descs' := descs[prev := descs[prev].(hasNext := false, next := 0)];
              && FreeList(descs', freeHead, free) && Linked(descs', c, bufs)
              && Untouched(descs0, descs', c)
    {
      hide Building, FreeList, NoDup, Linked;
      BuildingChain(descs0, descs, free0, c, bufs, |bufs|);
      BuildEnd(descs0, descs, free0, c, bufs);
      BuildFrees(descs, freeHead, free0, |c|, prev, descs[prev].(hasNext := false, next := 0));
    }

    lemma Bounds()
      requires Counters() && Owned(owner, free, hist, Returned())
      ensures |completed| <= fetched && |hist| - reaped + |free| <= num
    {
      Pigeonhole(completed, 0, fetched);
      OutstandingBound(owner, free, hist, Returned());
    }

    /** virtq_add_buf: refused exactly when there are fewer free descriptors than buffers.  Without buffers
        a descriptor must be free. */
    method AddBuf(ins: seq<RawBuf>, outs: seq<RawBuf>, token: Token) returns (r: int)
      requires Valid() && (|ins| + |outs| > 0 || numFree > 0)
      modifies this
      ensures Valid() && completed == old(completed) && lens == old(lens) && reaped == old(reaped) && fetched == old(fetched)
      ensures r == -1 <==> |ins| + |outs| > old(numFree)
      ensures r == -1 ==> hist == old(hist) && numFree == old(numFree)
      ensures r != -1 ==> |hist| == |old(hist)| + 1 && hist[..|old(hist)|] == old(hist)
      ensures r != -1 ==> hist[|old(hist)|].bufs == Described(ins, outs) && hist[|old(hist)|].token == token
      ensures r != -1 ==> numFree == old(numFree) - if |ins| + |outs| > 0 then |ins| + |outs| else 1
      ensures r != -1 ==> |hist[|old(hist)|].ds| == |hist[|old(hist)|].bufs| && r == hist[|old(hist)|].ds[0]
    {
      DescribesThem(ins, outs);
      if |ins| + |outs| > numFree { return -1; }
      ghost var q;
      r, q := Submit(ins, outs, token);
    }

    method Submit(ins: seq<RawBuf>, outs: seq<RawBuf>, token: Token) returns (head: nat, ghost q: Request)
      requires Valid() && |Described(ins, outs)| <= numFree
      modifies this
      ensures Valid() && completed == old(completed) && lens == old(lens) && reaped == old(reaped) && fetched == old(fetched)
      ensures hist == old(hist) + [q] && q.bufs == Described(ins, outs) && q.token == token
      ensures numFree == old(numFree) - |q.bufs| && |q.ds| == |q.bufs| && q.ds != [] && head == q.ds[0]
    {
      hide Owned, FreeList, Linked, NoDup, Tag, AvailOk, UsedOk, InFlight, NonEmpty, AllInPlace, Slot, SlotsFit, Untouched, Described,
           Blank;
      ghost var bufs := Described(ins, outs);
      OwnedFree(owner, free, hist, Returned());
      ghost var descs0, data0, free0, owner0, n := descs, data, free, owner, |hist|;
      assert |hist| < fetched + num by { Bounds(); }
      ghost var c;
      head, c := BuildChain(ins, outs, token);
      q := Request(c, bufs, token);
      RingsAfterAdd(availRing, availIdx, usedRing, hist, q, fetched, completed, lens, reaped, num);
      owner := seq(num, d requires 0 <= d < |owner0| => if d in c then n else owner0[d]);
      AddRequest(owner0, owner, free0, hist, Returned(), descs0, descs, data0, data, q, |bufs|);
      Publish(head, q);
      assert Counters();
      assert Requests();
    }

    /** The ring entry, then the index that makes it visible. */
    method Publish(head: nat, ghost q: Request)
      requires 0 < num == |availRing| && availIdx == |hist| % U16
      modifies this`availRing, this`availIdx, this`availShared, this`hist
      ensures availRing == old(availRing)[Slot(old(availIdx), num) := head] && hist == old(hist) + [q]
      ensures availIdx == availShared == |hist| % U16
    {
      NextIndex(|hist|);
      availRing := availRing[Slot(availIdx, num) := head];
      availIdx := (availIdx + 1) % U16;
      availShared := availIdx;
      hist := hist + [q];
    }

    /** The device reads the next available entry. */
    method DeviceFetch() returns (got: bool, head: nat)
      requires Valid()
      modifies this
      ensures Valid() && hist == old(hist) && completed == old(completed) && lens == old(lens)
      ensures reaped == old(reaped) && numFree == old(numFree)
      ensures got <==> old(fetched) < |hist|
      ensures got ==> fetched == old(fetched) + 1 && head == hist[old(fetched)].ds[0] && inFlight == old(inFlight) + {head}
      ensures !got ==> fetched == old(fetched)
    {
      hide Owned, FreeList, NoDup, UsedOk, InFlight, NonEmpty, AllInPlace, Slot, SlotsFit;
      Bounds();
      if lastAvail == availShared { return false, 0; }
      SlotOfIndex(fetched, num);
      head := availRing[Slot(lastAvail, num)];
      InFlightFetch(hist, fetched, completed);
      inFlight := inFlight + {head};
      lastAvail := (lastAvail + 1) % U16;
      NextIndex(fetched);
      fetched := fetched + 1;
      assert Counters();
      got := true;
    }

    /** The request behind a head in flight. */
    lemma Flight(head: nat) returns (id: nat)
      requires Valid() && head in inFlight
      ensures id < fetched && id !in completed && hist[id].ds != [] && hist[id].ds[0] == head
      ensures InFlight(hist, fetched, completed + [id]) == inFlight - {head}
    {
      hide Owned, FreeList, AllInPlace, AvailOk, UsedOk, NoDup, Slot, SlotsFit;
      id :| 0 <= id < fetched && id !in completed && hist[id].ds[0] == head;
      forall j: nat | j < fetched && j !in completed && hist[j].ds[0] == head ensures j == id {
        OwnersApart(owner, free, hist, Returned(), id, j, head);
      }
      InFlightComplete(hist, fetched, completed, id);
    }

    /** What the device finds when it follows the chain from a head in flight: the buffers of the request. */
    method DeviceRead(head: nat) returns (bufs: seq<Buf>, ghost id: nat)
      requires Valid() && head in inFlight
      ensures id < |hist| && hist[id].ds[0] == head && id !in completed && bufs == hist[id].bufs
    {
      hide Owned, FreeList, AvailOk, UsedOk, NoDup, Slot, SlotsFit, InFlight;
      id := Flight(head);
      assert Outstanding(hist, Returned(), id);
      assert InPlace(descs, data, hist[id]);
      ghost var ds := hist[id].ds;
      bufs := [];
      var h := head;
      while true
        invariant |bufs| < |ds| && h == ds[|bufs|] && bufs == hist[id].bufs[..|bufs|]
        decreases |ds| - |bufs|
      {
        var d := descs[h];
        ghost var k := |bufs|;
        bufs := bufs + [Buf(d.addr, d.len, d.write)];
        if !d.hasNext { break; }
        assert LinkTo(descs, ds, k);
        h := d.next;
      }
      assert |bufs| == |ds|;
    }

    lemma RoomForUsed(id: nat)
      requires Valid() && id < fetched && id !in completed
      ensures |completed| < reaped + num && Slot(usedShared, num) == Slot(|completed|, num)
    {
      hide FreeList, AllInPlace, AvailOk, UsedOk, InFlight;
      Bounds();
      Pigeonhole(completed + [id], 0, fetched);
      SlotOfIndex(|completed|, num);
    }

    /** The device completes any request it has fetched. */
    method DeviceComplete(head: nat, len: nat) returns (ghost id: nat)
      requires Valid() && head in inFlight
      modifies this
      ensures Valid() && hist == old(hist) && fetched == old(fetched) && reaped == old(reaped) && numFree == old(numFree)
      ensures id < |hist| && hist[id].ds[0] == head && id !in old(completed)
      ensures completed == old(completed) + [id] && lens == old(lens) + [len]
    {
      hide Owned, FreeList, AllInPlace, AvailOk, UsedOk, NonEmpty, NoDup, Slot, SlotsFit, InFlight;
      id := Flight(head);
      RoomForUsed(id);
      UsedAdd(usedRing, hist, completed, lens, reaped, num, id, len);
      CompleteMore(completed, id, fetched, reaped);
      NextIndex(|completed|);
      usedRing := usedRing[Slot(usedShared, num) := UsedElem(head, len)];
      usedShared := (usedShared + 1) % U16;
      inFlight := inFlight - {head};
      completed, lens := completed + [id], lens + [len];
      assert Counters();
      assert Requests();
    }

    /** virtq_free_desc */
    method FreeDesc(idx: nat)
      requires idx < |descs| && idx !in free && FreeList(descs, freeHead, free) && numFree == |free|
      modifies this`descs, this`freeHead, this`numFree, this`free
      ensures descs == old(descs)[idx := Desc(0, 0, true, false, old(freeHead))]
      ensures free == [idx] + old(free) && numFree == |free| && FreeList(descs, freeHead, free)
      ensures Blank(old(descs), old(free)) ==> Blank(descs, free)
    {
      FreeListPush(descs, freeHead, free, idx);
      descs := descs[idx := Desc(0, 0, true, false, freeHead)];
      freeHead := idx;
      numFree := numFree + 1;
      free := [idx] + free;
    }

    /** The loop of virtq_get_buf that walks a chain and frees it. */
    method FreeChain(head: nat, ghost ds: seq<nat>, ghost bufs: seq<Buf>)
      requires Linked(descs, ds, bufs) && ds != [] && head == ds[0] && NoDup(ds) && NoDup(free)
      requires (forall d :: d in ds ==> d !in free) && FreeList(descs, freeHead, free) && numFree == |free|
      modifies this`descs, this`freeHead, this`numFree, this`free
      ensures free == Reversed(ds) + old(free) && numFree == |free| && FreeList(descs, freeHead, free)
      ensures Untouched(old(descs), descs, ds) && |descs| == old(|descs|)
      ensures Blank(old(descs), old(free)) ==> Blank(descs, free)
    {
      hide FreeList, NoDup, Blank;
      ghost var free0, descs0 := free, descs;
      ghost var k := 0;
      var h := head;
      assert Reversed(ds[..0]) + free0 == free0;
      ReversedStep(ds, 0, free0);
      while descs[h].hasNext
        invariant 0 <= k < |ds| && h == ds[k] && |descs| == |descs0| && h < |descs|
        invariant free == Reversed(ds[..k]) + free0 && numFree == |free| && FreeList(descs, freeHead, free)
        invariant forall j :: k <= j < |ds| ==> ds[j] < |descs| && descs[ds[j]] == descs0[ds[j]]
        invariant Untouched(descs0, descs, ds) && ds[k] !in free && (Blank(descs0, free0) ==> Blank(descs, free))
        decreases |ds| - k
      {
        assert LinkTo(descs0, ds, k);
        var next := descs[h].next;
        ReversedStep(ds, k, free0);
        LaterDiffer(ds, k);
        FreeDesc(h);
        ReversedStep(ds, k + 1, free0);
        h, k := next, k + 1;
      }
      ReversedStep(ds, k, free0);
      FreeDesc(h);
      assert ds[..k + 1] == ds;
    }

    /** The oldest completed request that has not been returned. */
    lemma Oldest() returns (id: nat)
      requires Valid() && reaped < |completed|
      ensures id == completed[reaped] && Outstanding(hist, Returned(), id)
      ensures hist[id].ds != [] && reaped < |lens| && usedRing[Slot(usedIdx, num)] == UsedElem(hist[id].ds[0], lens[reaped])
      ensures Linked(descs, hist[id].ds, hist[id].bufs) && NoDup(hist[id].ds) && NoDup(free)
      ensures forall d :: d in hist[id].ds ==> d !in free
      ensures completed[..reaped + 1] == Returned() + [id]
      ensures hist[id].ds[0] < |data| && data[hist[id].ds[0]] == hist[id].token
    {
      id := completed[reaped];
      SlotOfIndex(reaped, num);
      assert Outstanding(hist, Returned(), id);
      assert Holds(owner, hist[id].ds, id);
      forall d: nat | d in hist[id].ds ensures d !in free {
        NotFree(owner, free, hist, Returned(), id, d);
      }
    }

    /** virtq_get_buf: the token of the oldest completion not returned yet, if any; its descriptors
        are free again. */
    method GetBuf() returns (found: bool, token: Token, len: nat)
      requires Valid()
      modifies this
      ensures Valid() && hist == old(hist) && completed == old(completed) && lens == old(lens) && fetched == old(fetched)
      ensures found <==> old(reaped) < |completed|
      ensures !found ==> reaped == old(reaped) && numFree == old(numFree)
      ensures found ==> reaped == old(reaped) + 1 && token == hist[completed[old(reaped)]].token
      ensures found ==> old(reaped) < |lens| && len == lens[old(reaped)]
      ensures found ==> numFree == old(numFree) + |hist[completed[old(reaped)]].ds|
    {
      var any := HasBuf();
      if !any { return false, 0, 0; }
      token, len := TakeOldest();
      found := true;
    }

    method TakeOldest() returns (token: Token, len: nat)
      requires Valid() && reaped < |completed|
      modifies this
      ensures Valid() && hist == old(hist) && completed == old(completed) && lens == old(lens) && fetched == old(fetched)
      ensures reaped == old(reaped) + 1 && token == hist[completed[old(reaped)]].token
      ensures numFree == old(numFree) + |hist[completed[old(reaped)]].ds| && old(reaped) < |lens| && len == lens[old(reaped)]
    {
      hide Owned, FreeList, Linked, NoDup, AvailOk, UsedOk, InFlight, NonEmpty, Slot, SlotsFit, AllInPlace;
      ghost var id := Oldest();
      var elem := usedRing[Slot(usedIdx, num)];
      len := elem.len;
      token := data[elem.id];
      UsedTaken(usedRing, hist, completed, lens, reaped, num);
      NextIndex(reaped);
      ReleaseRequest(elem.id, id, Returned());
      usedIdx := (usedIdx + 1) % U16;
      reaped := reaped + 1;
      assert Counters();
      assert Requests();
    }

    /** Forget the token and free the chain. */
    method ReleaseRequest(head: nat, ghost id: nat, ghost returned: seq<nat>)
      requires Owned(owner, free, hist, returned) && Outstanding(hist, returned, id) && AllInPlace(descs, data, hist, returned)
      requires |descs| == |owner| == num && FreeList(descs, freeHead, free) && numFree == |free|
      requires Linked(descs, hist[id].ds, hist[id].bufs) && NoDup(hist[id].ds) && NoDup(free)
      requires hist[id].ds != [] && head == hist[id].ds[0] < |data| && forall d :: d in hist[id].ds ==> d !in free
      modifies this`data, this`descs, this`freeHead, this`numFree, this`free, this`owner
      ensures Owned(owner, free, hist, returned + [id]) && AllInPlace(descs, data, hist, returned + [id])
      ensures |descs| == |owner| == num && |data| == old(|data|) && FreeList(descs, freeHead, free) && numFree == |free|
      ensures |free| == old(|free|) + |hist[id].ds| && (Blank(old(descs), old(free)) ==> Blank(descs, free))
    {
      hide Owned, FreeList, Linked, NoDup, Untouched, InPlace, Blank;
      ghost var ds := hist[id].ds;
      ghost var descs0, data0, free0, owner0 := descs, data, free, owner;
      data := data[head := 0];
      FreeChain(head, ds, hist[id].bufs);
      owner := seq(num, d requires 0 <= d < |owner0| => if d in ds then FREE else owner0[d]);
      RemoveRequest(owner0, owner, free0, free, hist, returned, id, descs0, descs, data0, data);
    }

    /** virtq_has_buf */
    method HasBuf() returns (b: bool)
      requires Valid()
      ensures b <==> reaped < |completed|
    {
      hide FreeList, AvailOk, UsedOk, InFlight, NonEmpty, SlotsFit;
      Bounds();
      b := usedIdx != usedShared;
    }

    /** Each descriptor is on the free list, which is numFree long, or in exactly one request that has
        been submitted and not returned. */
    lemma OneOwner()
      requires Valid()
      ensures |free| == numFree && NoDup(free)
      ensures forall d: nat :: d < num ==> (d in free <==> forall id: nat :: Outstanding(hist, Returned(), id) ==> d !in hist[id].ds)
      ensures forall d: nat, id: nat, id': nat ::
                Outstanding(hist, Returned(), id) && Outstanding(hist, Returned(), id') ==>
                  d in hist[id].ds && d in hist[id'].ds ==> id == id'
    {
      hide FreeList, AllInPlace, AvailOk, UsedOk;
      forall d: nat, id: nat | Outstanding(hist, Returned(), id) && d in hist[id].ds
        ensures d < |owner| && owner[d] == id && d !in free
      {
        assert Holds(owner, hist[id].ds, id);
      }
      forall d: nat | d < num && d !in free
        ensures !forall id: nat :: Outstanding(hist, Returned(), id) ==> d !in hist[id].ds
      {
        assert owner[d] != FREE;
        assert Outstanding(hist, Returned(), owner[d]) && d in hist[owner[d]].ds;
      }
    }

    /** No request is returned twice, nor waits to be returned again; none is returned that the device
        has not fetched; when all descriptors are free, all have been returned. */
    lemma ExactlyOnce()
      requires Valid()
      ensures NoDup(Returned())
      ensures forall id: nat :: id in Returned() ==> id < fetched && id !in completed[reaped..]
      ensures numFree == num ==> reaped == |hist| && forall id: nat :: id < |hist| ==> id in Returned()
    {
      if numFree == num {
        Bounds();
        forall id: nat | id < |hist| ensures id in Returned() {
          if Outstanding(hist, Returned(), id) {
            assert Holds(owner, hist[id].ds, id);
            NotFree(owner, free, hist, Returned(), id, hist[id].ds[0]);
            AllFree(owner, free);
          }
        }
        AllReturned(Returned(), |hist|);
      }
    }
  }

  ghost predicate AllInPlace(descs: seq<Desc>, data: seq<Token>, hist: seq<Request>, returned: seq<nat>) {
    forall id: nat :: Outstanding(hist, returned, id) ==> InPlace(descs, data, hist[id])
  }

  lemma InitialOwned(owner: seq<int>, free: seq<nat>)
    requires |free| == |owner| && (forall d: nat :: d < |free| ==> free[d] == d && owner[d] == FREE)
    ensures Owned(owner, free, [], [])
  {
    forall d: nat ensures d in free <==> d < |owner| && owner[d] == FREE {
      if d < |owner| { assert free[d] == d; }
    }
  }

  ghost predicate InPlace(descs: seq<Desc>, data: seq<Token>, q: Request) {
    Linked(descs, q.ds, q.bufs) && q.ds != [] && q.ds[0] < |data| && data[q.ds[0]] == q.token
  }

  lemma OwnedFree(owner: seq<int>, free: seq<nat>, hist: seq<Request>, returned: seq<nat>)
    requires Owned(owner, free, hist, returned)
    ensures NoDup(free) && forall i :: 0 <= i < |free| ==> free[i] < |owner|
  {
    forall i | 0 <= i < |free| ensures free[i] < |owner| { assert free[i] in free; }
  }

  /** A request is in place as long as its descriptors and its token are untouched. */
  lemma InPlaceFrame(descs: seq<Desc>, descs': seq<Desc>, data: seq<Token>, data': seq<Token>, q: Request)
    requires InPlace(descs, data, q) && |descs'| == |descs| && |data'| == |data|
    requires forall d: nat :: d in q.ds ==> d < |descs| && descs'[d] == descs[d]
    requires data'[q.ds[0]] == data[q.ds[0]]
    ensures InPlace(descs', data', q)
  {
    forall i: nat | i + 1 < |q.ds| ensures LinkTo(descs', q.ds, i) {
      assert LinkTo(descs, q.ds, i);
    }
  }

  /** The new request takes the front of the free list; the other requests stay in place. */
  lemma AddRequest(owner: seq<int>, owner': seq<int>, free: seq<nat>, hist: seq<Request>, returned: seq<nat>,
                   descs: seq<Desc>, descs': seq<Desc>, data: seq<Token>, data': seq<Token>, q: Request, n: nat)
    requires Owned(owner, free, hist, returned) && 1 <= n <= |free| && q.ds == free[..n]
    requires Reassigned(owner, owner', q.ds, |hist|) && forall i :: 0 <= i < |returned| ==> returned[i] < |hist|
    requires |descs| == |descs'| && Linked(descs', q.ds, q.bufs) && |data| == |data'|
    requires Untouched(descs, descs', q.ds)
    requires q.ds[0] < |data| && data' == data[q.ds[0] := q.token]
    requires AllInPlace(descs, data, hist, returned)
    ensures Owned(owner', free[n..], hist + [q], returned)
    ensures AllInPlace(descs', data', hist + [q], returned)
  {
    hide Owned, Linked;
    TakeOwned(owner, owner', free, hist, returned, n, q);
    forall id: nat | Outstanding(hist + [q], returned, id) ensures InPlace(descs', data', (hist + [q])[id]) {
      if id < |hist| {
        assert Outstanding(hist, returned, id);
        forall d: nat | d in hist[id].ds ensures d !in q.ds && d < |descs| {
          NotFree(owner, free, hist, returned, id, d);
          LinkedBounds(descs, hist[id].ds, hist[id].bufs);
        }
        assert hist[id].ds[0] in hist[id].ds && q.ds[0] in q.ds;
        InPlaceFrame(descs, descs', data, data', hist[id]);
      }
    }
  }

  lemma LinkedBounds(descs: seq<Desc>, ds: seq<nat>, bufs: seq<Buf>)
    requires Linked(descs, ds, bufs)
    ensures forall d :: d in ds ==> d < |descs|
  {
  }

  lemma CompleteMore(completed: seq<nat>, id: nat, fetched: nat, reaped: nat)
    requires NoDup(completed) && id !in completed && id < fetched && reaped <= |completed|
    requires forall i :: 0 <= i < |completed| ==> completed[i] < fetched
    ensures NoDup(completed + [id]) && (completed + [id])[..reaped] == completed[..reaped]
    ensures forall i :: 0 <= i < |completed + [id]| ==> (completed + [id])[i] < fetched
  {
  }

  lemma RingsAfterAdd(availRing: seq<nat>, availIdx: nat, usedRing: seq<UsedElem>, hist: seq<Request>, q: Request,
                      fetched: nat, completed: seq<nat>, lens: seq<nat>, reaped: nat, num: nat)
    requires SlotsFit(num) && |availRing| == |usedRing| == num && NonEmpty(hist) && q.ds != []
    requires (forall i :: 0 <= i < |completed| ==> completed[i] < |hist|) && fetched <= |hist| < fetched + num
    requires AvailOk(availRing, hist, fetched, num) && UsedOk(usedRing, hist, completed, lens, reaped, num)
    requires availIdx == |hist| % U16
    ensures NonEmpty(hist + [q]) && AvailOk(availRing[Slot(availIdx, num) := q.ds[0]], hist + [q], fetched, num)
    ensures UsedOk(usedRing, hist + [q], completed, lens, reaped, num)
    ensures InFlight(hist + [q], fetched, completed) == InFlight(hist, fetched, completed)
  {
    hide AvailOk, UsedOk, InFlight, NonEmpty, Slot;
    SlotOfIndex(|hist|, num);
    AvailAdd(availRing, hist, fetched, num, q);
    HistGrows(usedRing, hist, q, fetched, completed, lens, reaped, num);
  }

  lemma FreeListPush(descs: seq<Desc>, head: nat, free: seq<nat>, idx: nat)
    requires FreeList(descs, head, free) && idx < |descs| && idx !in free
    ensures FreeList(descs[idx := Desc(0, 0, true, false, head)], idx, [idx] + free)
  {
    var descs', free' := descs[idx := Desc(0, 0, true, false, head)], [idx] + free;
    forall i: nat | i + 1 < |free'| ensures LinkTo(descs', free', i) {
      if i > 0 { assert LinkTo(descs, free, i - 1); }
    }
  }

  lemma LaterDiffer(ds: seq<nat>, k: nat)
    requires NoDup(ds) && k < |ds|
    ensures forall j :: k < j < |ds| ==> ds[j] != ds[k]
  {
  }

  /** The k-th descriptor is not on the list yet; pushing it extends the reversed prefix. */
  lemma ReversedStep(ds: seq<nat>, k: nat, free: seq<nat>)
    requires NoDup(ds) && NoDup(free) && k < |ds| && forall d :: d in ds ==> d !in free
    ensures ds[k] !in Reversed(ds[..k]) + free
    ensures [ds[k]] + (Reversed(ds[..k]) + free) == Reversed(ds[..k + 1]) + free
  {
    PushedContents(ds[..k], free);
    assert ds[..k + 1][..k] == ds[..k];
  }

  lemma UsedTaken(ring: seq<UsedElem>, hist: seq<Request>, completed: seq<nat>, lens: seq<nat>, reaped: nat, num: nat)
    requires 0 < num == |ring| && NonEmpty(hist) && forall i :: 0 <= i < |completed| ==> completed[i] < |hist|
    requires UsedOk(ring, hist, completed, lens, reaped, num)
    ensures UsedOk(ring, hist, completed, lens, reaped + 1, num)
  {
  }

  /** The request's descriptors join the free list; the other requests stay in place. */
  lemma RemoveRequest(owner: seq<int>, owner': seq<int>, free: seq<nat>, free': seq<nat>,
                      hist: seq<Request>, returned: seq<nat>, id: nat,
                      descs: seq<Desc>, descs': seq<Desc>, data: seq<Token>, data': seq<Token>)
    requires Owned(owner, free, hist, returned) && Outstanding(hist, returned, id)
    requires Reassigned(owner, owner', hist[id].ds, FREE) && free' == Reversed(hist[id].ds) + free
    requires Untouched(descs, descs', hist[id].ds)
    requires AllInPlace(descs, data, hist, returned)
    requires hist[id].ds != [] && hist[id].ds[0] < |data| && data' == data[hist[id].ds[0] := 0]
    ensures Owned(owner', free', hist, returned + [id]) && |free'| == |free| + |hist[id].ds|
    ensures AllInPlace(descs', data', hist, returned + [id])
  {
    assert Holds(owner, hist[id].ds, id);
    forall d: nat | d in hist[id].ds ensures d !in free { NotFree(owner, free, hist, returned, id, d); }
    PushedContents(hist[id].ds, free);
    hide Owned, Linked;
    GiveOwned(owner, owner', free, free', hist, returned, id);
    forall j: nat | Outstanding(hist, returned + [id], j) ensures InPlace(descs', data', hist[j]) {
      assert Outstanding(hist, returned, j);
      assert hist[j].ds[0] in hist[j].ds && hist[id].ds[0] in hist[id].ds;
      forall d: nat | d in hist[j].ds ensures d !in hist[id].ds && d < |descs| {
        if d in hist[id].ds { OwnersApart(owner, free, hist, returned, id, j, d); }
        LinkedBounds(descs, hist[j].ds, hist[j].bufs);
      }
      InPlaceFrame(descs, descs', data, data', hist[j]);
    }
  }

  /** A free list as long as the table holds every descriptor. */
  lemma AllFree(owner: seq<int>, free: seq<nat>)
    requires NoDup(free) && |free| == |owner| && forall d :: d in free ==> d < |owner|
    ensures forall d: nat :: d < |owner| ==> d in free
  {
    forall d: nat | d < |owner| ensures d in free {
      if d !in free {
        forall i | 0 <= i < |free + [d]| ensures (free + [d])[i] < |owner| {
          if i < |free| { assert free[i] in free; }
        }
        Pigeonhole(free + [d], 0, |owner|);
      }
    }
  }

  lemma AllReturned(returned: seq<nat>, n: nat)
    requires NoDup(returned) && |returned| <= n && forall id: nat :: id < n ==> id in returned
    ensures |returned| == n
  {
    ElementsSize(returned);
    UpToSize(n);
    SubsetSize(UpTo(n), Elements(returned));
  }

  /** On a queue of four, one request is submitted, completed and taken back; a request without buffers then
      takes a descriptor and publishes an empty buffer at address 0. */
  method NoBuffers(b: RawBuf, token: Token) returns (q: Virtqueue, r: int)
    ensures fresh(q) && q.Valid() && r >= 0 && q.numFree == 3 && |q.hist| == 2 && q.fetched == q.reaped == 1
    ensures q.hist[1].bufs == [Buf(0, 0, false)] && q.hist[1].token == token
  {
    hide Owned, FreeList, AllInPlace, AvailOk, UsedOk, InFlight, Blank, NoDup, Slot, SlotsFit;
    DescribesThem([b], []);
    assert Described([], []) == [Buf(0, 0, false)];
    hide Described, Tag;
    q := new Virtqueue(4);
    r := q.AddBuf([b], [], 0);
    var got, head := q.DeviceFetch();
    ghost var id := q.DeviceComplete(head, 0);
    var found, back, len := q.GetBuf();
    r := q.AddBuf([], [], token);
  }

  /** One request on a new queue, from end to end: the device finds the buffers in order, the first ones to
      read and the others to write; the driver gets back the token and the length the device gave. */
  method EndToEnd(ins: seq<RawBuf>, outs: seq<RawBuf>, token: Token, len: nat)
    returns (bufs: seq<Buf>, found: bool, token': Token, len': nat)
    requires 0 < |ins| + |outs| <= 4
    ensures |bufs| == |ins| + |outs| && found && token' == token && len' == len
    ensures forall i :: 0 <= i < |ins| ==> bufs[i] == Buf(ins[i].addr, ins[i].len, false)
    ensures forall i :: 0 <= i < |outs| ==> bufs[|ins| + i] == Buf(outs[i].addr, outs[i].len, true)
  {
    hide Owned, FreeList, AllInPlace, AvailOk, UsedOk, InFlight, Blank, NoDup, Slot, SlotsFit;
    var q := new Virtqueue(4);
    var r := q.AddBuf(ins, outs, token);
    var got, head := q.DeviceFetch();
    ghost var id;
    bufs, id := q.DeviceRead(head);
    id := q.DeviceComplete(head, len);
    found, token', len' := q.GetBuf();
  }
}
