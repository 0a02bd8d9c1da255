/** What the split virtqueue of src/hal/virtio/virtq.c means: which descriptors are free, which
    requests are outstanding, and what the two rings hold.

    Every request ever submitted is kept in `hist`; its number there is its identity.  `completed`
    lists, in order, the requests the device has put into the used ring, and `returned` those the
    driver has taken out of it.
 */
module VirtqState {
  import opened Bits
  import opened Lists

  const U16: nat := 65536
  const VIRTQ_SIZE: nat := 32

  type Token = nat

  datatype Desc = Desc(addr: nat, len: nat, hasNext: bool, write: bool, next: nat)

  /** A buffer as given to virtq_add_buf; `write` tells the device to write it. */
  datatype Buf = Buf(addr: nat, len: nat, write: bool)

  datatype Request = Request(ds: seq<nat>, bufs: seq<Buf>, token: Token)

  ghost predicate Outstanding(hist: seq<Request>, returned: seq<nat>, id: nat) {
    id < |hist| && id !in returned
  }

  ghost predicate LinkTo(descs: seq<Desc>, c: seq<nat>, i: nat)
    requires i + 1 < |c|
  {
    c[i] < |descs| && descs[c[i]].next == c[i + 1]
  }

  /** The free list, linked through `next` from freeHead. */
  ghost predicate FreeList(descs: seq<Desc>, freeHead: nat, free: seq<nat>) {
    && (forall i :: 0 <= i < |free| ==> free[i] < |descs|)
    && (free != [] ==> freeHead == free[0])
    && (forall i: nat :: i + 1 < |free| ==> LinkTo(descs, free, i))
  }

  /** Descriptors ds are linked in order and describe bufs; only the last has no successor. */
  ghost predicate Linked(descs: seq<Desc>, ds: seq<nat>, bufs: seq<Buf>) {
    && |ds| == |bufs|
    && (forall i :: 0 <= i < |ds| ==> ds[i] < |descs|)
    && (forall i :: 0 <= i < |ds| ==> Describes(descs[ds[i]], bufs[i]))
    && (forall i :: 0 <= i < |ds| ==> (descs[ds[i]].hasNext <==> i < |ds| - 1))
    && (forall i: nat :: i + 1 < |ds| ==> LinkTo(descs, ds, i))
  }

  ghost predicate Describes(d: Desc, b: Buf) { d.addr == b.addr && d.len == b.len && d.write == b.write }

  const FREE: int := -1

  /** owner[d] is the request that holds descriptor d, or FREE: each descriptor is in one place. */
  ghost predicate Owned(owner: seq<int>, free: seq<nat>, hist: seq<Request>, returned: seq<nat>) {
    && NoDup(free)
    && (forall d: nat :: d in free <==> d < |owner| && owner[d] == FREE)
    && (forall d: nat :: d < |owner| && owner[d] != FREE ==>
          owner[d] >= 0 && Outstanding(hist, returned, owner[d]) && d in hist[owner[d]].ds)
    && (forall id: nat :: Outstanding(hist, returned, id) ==> Holds(owner, hist[id].ds, id))
  }

  ghost predicate Holds(owner: seq<int>, ds: seq<nat>, id: nat) {
    ds != [] && NoDup(ds) && forall i :: 0 <= i < |ds| ==> ds[i] < |owner| && owner[ds[i]] == id
  }

  /** Ring entry i, counted from the start of time, lives in this slot. */
  function Slot(i: nat, num: nat): (s: nat)
    requires num > 0
    ensures s < num
  {
    i % num
  }

  lemma SlotsDiffer(i: nat, j: nat, num: nat)
    requires 0 < num && i < j < i + num
    ensures Slot(i, num) != Slot(j, num)
  {
    var a, r, k := i / num, i % num, j - i;
    assert i == a * num + r;
    if r + k < num {
      DivUnique(j, num, a, r + k);
    } else {
      assert (a + 1) * num == a * num + num;
      DivUnique(j, num, a + 1, r + k - num);
    }
  }

  ghost predicate SlotsFit(num: nat) { 0 < num && U16 % num == 0 }

  /** A 16-bit index picks the slot of the unbounded count it abbreviates, since num divides 2^16. */
  lemma SlotOfIndex(i: nat, num: nat)
    requires SlotsFit(num)
    ensures Slot(i % U16, num) == Slot(i, num)
  {
    SlotIs(i, num);
  }

  /** A 16-bit index always picks the right slot if and only if num divides 2^16. */
  lemma SlotsNeedDivisor(num: nat)
    requires num > 0
    ensures (forall i: nat :: Slot(i % U16, num) == Slot(i, num)) <==> U16 % num == 0
  {
    hide Slot;
    if U16 % num == 0 {
      forall i: nat ensures Slot(i % U16, num) == Slot(i, num) { SlotIs(i, num); }
    } else {
      SlotWrong(num);
      assert Slot(U16 % U16, num) != Slot(U16, num);
    }
  }

  lemma SlotIs(i: nat, num: nat)
    requires num > 0 && U16 % num == 0
    ensures Slot(i % U16, num) == Slot(i, num)
  {
    var q, r, m := i / U16, i % U16, U16 / num;
    assert i == q * U16 + r && U16 == m * num;
    var a, b := r / num, r % num;
    assert r == a * num + b;
    assert i == (q * m + a) * num + b by { assert q * (m * num) == (q * m) * num; }
    DivUnique(i, num, q * m + a, b);
  }

  lemma SlotWrong(num: nat)
    requires num > 0 && U16 % num != 0
    ensures Slot(U16 % U16, num) != Slot(U16, num)
  {
    DivUnique(0, num, 0, 0);
  }

  lemma NextIndex(i: nat)
    ensures (i % U16 + 1) % U16 == (i + 1) % U16
  {
  }

  // ---------- Counting ----------

  ghost function Elements(s: seq<nat>): set<nat> { set x | x in s }

  lemma {:induction false} ElementsSize(s: seq<nat>)
    requires NoDup(s)
    ensures |Elements(s)| == |s|
    decreases |s|
  {
    if s == [] {
      assert Elements(s) == {};
    } else {
      var n := |s| - 1;
      ElementsSize(s[..n]);
      assert s == s[..n] + [s[n]];
      assert Elements(s) == Elements(s[..n]) + {s[n]};
    }
  }

  ghost predicate Below(n: nat, x: nat) { x < n }

  ghost function UpTo(n: nat): set<nat> { set x: nat | 0 <= x < n && Below(n, x) }

  lemma {:induction false} UpToSize(n: nat)
    ensures |UpTo(n)| == n
    decreases n
  {
    if n == 0 {
      assert UpTo(n) == {};
    } else {
      UpToSize(n - 1);
      assert UpTo(n) == UpTo(n - 1) + {n - 1};
    }
  }

  lemma {:induction false} InjectiveSize(m: map<nat, nat>)
    requires forall a, b :: a in m && b in m && a != b ==> m[a] != m[b]
    ensures |m.Values| == |m|
    decreases |m|
  {
    if m.Keys == {} {
      assert m.Values == {};
    } else {
      var k :| k in m.Keys;
      var r := m - {k};
      InjectiveSize(r);
      assert m.Keys == r.Keys + {k};
      assert |m| == |r| + 1 by { assert |m.Keys| == |r.Keys| + 1; }
      assert m[k] !in r.Values;
      forall v ensures v in m.Values <==> v in r.Values || v == m[k] {
        if v in m.Values && v != m[k] {
          var a :| a in m && m[a] == v;
          assert a in r && r[a] == v;
        }
      }
      assert m.Values == r.Values + {m[k]};
    }
  }

  lemma SubsetSize(a: set<nat>, b: set<nat>)
    requires a <= b
    ensures |a| <= |b|
  {
    assert b == a + (b - a);
  }

  /** Every outstanding request holds a descriptor of its own, so there are at most as many as there
      are descriptors off the free list. */
  lemma OutstandingBound(owner: seq<int>, free: seq<nat>, hist: seq<Request>, returned: seq<nat>)
    requires Owned(owner, free, hist, returned) && NoDup(returned)
    requires forall i :: 0 <= i < |returned| ==> returned[i] < |hist|
    ensures |hist| - |returned| + |free| <= |owner|
  {
    var m := map id: nat | id < |hist| && Outstanding(hist, returned, id) :: hist[id].ds[0];
    assert m.Keys == UpTo(|hist|) - Elements(returned);
    assert Elements(returned) <= UpTo(|hist|);
    UpToSize(|hist|);
    ElementsSize(returned);
    assert UpTo(|hist|) == m.Keys + Elements(returned);
    assert |m| == |hist| - |returned| by { assert |m.Keys| == |m|; }
    forall a, b | a in m && b in m && a != b ensures m[a] != m[b] {
      assert Holds(owner, hist[a].ds, a) && Holds(owner, hist[b].ds, b);
    }
    InjectiveSize(m);
    HeadsApart(owner, free, hist, returned, m);
    ElementsSize(free);
    UpToSize(|owner|);
    SubsetSize(m.Values + Elements(free), UpTo(|owner|));
  }

  lemma HeadsApart(owner: seq<int>, free: seq<nat>, hist: seq<Request>, returned: seq<nat>, m: map<nat, nat>)
    requires Owned(owner, free, hist, returned)
    requires forall id :: id in m ==> Outstanding(hist, returned, id) && hist[id].ds != [] && m[id] == hist[id].ds[0]
    ensures m.Values !! Elements(free) && m.Values + Elements(free) <= UpTo(|owner|)
  {
    forall v | v in m.Values ensures v !in Elements(free) && v in UpTo(|owner|) {
      var id :| id in m && m[id] == v;
      assert Holds(owner, hist[id].ds, id);
    }
  }

  // ---------- Handing descriptors over ----------

  ghost predicate Reassigned(owner: seq<int>, owner': seq<int>, ds: seq<nat>, to: int) {
    && |owner'| == |owner|
    && forall d: nat :: d < |owner| ==> owner'[d] == if d in ds then to else owner[d]
  }

  lemma TakeOwned(owner: seq<int>, owner': seq<int>, free: seq<nat>, hist: seq<Request>, returned: seq<nat>, n: nat, q: Request)
    requires Owned(owner, free, hist, returned) && 1 <= n <= |free| && q.ds == free[..n]
    requires Reassigned(owner, owner', q.ds, |hist|) && forall i :: 0 <= i < |returned| ==> returned[i] < |hist|
    ensures Owned(owner', free[n..], hist + [q], returned)
  {
    var hist' := hist + [q];
    assert free == q.ds + free[n..];
    assert forall d: nat :: d in free <==> d in q.ds || d in free[n..];
    assert forall d: nat :: d in q.ds ==> d !in free[n..];
    forall d: nat ensures d in free[n..] <==> d < |owner'| && owner'[d] == FREE {
    }
    forall id: nat | Outstanding(hist', returned, id) ensures Holds(owner', hist'[id].ds, id) {
      if id < |hist| {
        assert Outstanding(hist, returned, id);
        assert Holds(owner, hist[id].ds, id);
      } else {
        assert forall i :: 0 <= i < n ==> free[i] in free && q.ds[i] == free[i];
      }
    }
    forall d: nat | d < |owner'| && owner'[d] != FREE
      ensures owner'[d] >= 0 && Outstanding(hist', returned, owner'[d]) && d in hist'[owner'[d]].ds
    {
    }
  }

  lemma GiveOwned(owner: seq<int>, owner': seq<int>, free: seq<nat>, free': seq<nat>, hist: seq<Request>, returned: seq<nat>, id: nat)
    requires Owned(owner, free, hist, returned) && Outstanding(hist, returned, id)
    requires Reassigned(owner, owner', hist[id].ds, FREE)
    requires NoDup(free') && forall d: nat :: d in free' <==> d in free || d in hist[id].ds
    ensures Owned(owner', free', hist, returned + [id])
  {
    var returned' := returned + [id];
    assert Holds(owner, hist[id].ds, id);
    forall j: nat | Outstanding(hist, returned', j) ensures Holds(owner', hist[j].ds, j) {
      assert Outstanding(hist, returned, j);
      assert Holds(owner, hist[j].ds, j);
    }
    forall d: nat | d < |owner'| && owner'[d] != FREE
      ensures owner'[d] >= 0 && Outstanding(hist, returned', owner'[d]) && d in hist[owner'[d]].ds
    {
      assert owner[d] == owner'[d] && d !in hist[id].ds;
    }
    forall d: nat ensures d in free' <==> d < |owner'| && owner'[d] == FREE {
    }
  }

  /** Two outstanding requests share no descriptor. */
  lemma OwnersApart(owner: seq<int>, free: seq<nat>, hist: seq<Request>, returned: seq<nat>, a: nat, b: nat, d: nat)
    requires Owned(owner, free, hist, returned) && Outstanding(hist, returned, a) && Outstanding(hist, returned, b)
    requires d in hist[a].ds && d in hist[b].ds
    ensures a == b
  {
    assert Holds(owner, hist[a].ds, a) && Holds(owner, hist[b].ds, b);
  }

  lemma NotFree(owner: seq<int>, free: seq<nat>, hist: seq<Request>, returned: seq<nat>, id: nat, d: nat)
    requires Owned(owner, free, hist, returned) && Outstanding(hist, returned, id) && d in hist[id].ds
    ensures d !in free && d < |owner|
  {
    assert Holds(owner, hist[id].ds, id);
  }

  ghost function Reversed(s: seq<nat>): seq<nat> {
    if s == [] then [] else [s[|s| - 1]] + Reversed(s[..|s| - 1])
  }

  /** A chain pushed on the free list one descriptor at a time. */
  lemma {:induction false} PushedContents(ds: seq<nat>, free: seq<nat>)
    requires NoDup(ds) && NoDup(free) && forall d :: d in ds ==> d !in free
    ensures NoDup(Reversed(ds) + free) && |Reversed(ds)| == |ds|
    ensures forall d: nat :: d in Reversed(ds) + free <==> d in ds || d in free
    decreases |ds|
  {
    if ds != [] {
      var n := |ds| - 1;
      assert ds == ds[..n] + [ds[n]];
      PushedContents(ds[..n], free);
      var rest := Reversed(ds[..n]) + free;
      assert Reversed(ds) + free == [ds[n]] + rest;
      assert ds[n] !in ds[..n];
    } else {
      assert Reversed(ds) + free == free;
    }
  }

  // ---------- Rings ----------

  datatype UsedElem = UsedElem(id: nat, len: nat)

  ghost predicate NonEmpty(hist: seq<Request>) { forall id :: 0 <= id < |hist| ==> hist[id].ds != [] }

  /** The entries the device has not read are in their slots. */
  ghost predicate AvailOk(ring: seq<nat>, hist: seq<Request>, fetched: nat, num: nat)
    requires 0 < num == |ring| && NonEmpty(hist)
  {
    forall i: nat :: fetched <= i < |hist| ==> ring[Slot(i, num)] == hist[i].ds[0]
  }

  /** The entries the driver has not read are in their slots, with the lengths the device gave. */
  ghost predicate UsedOk(ring: seq<UsedElem>, hist: seq<Request>, completed: seq<nat>, lens: seq<nat>, reaped: nat, num: nat)
    requires 0 < num == |ring| && NonEmpty(hist) && forall i :: 0 <= i < |completed| ==> completed[i] < |hist|
  {
    |lens| == |completed| &&
    forall i: nat :: reaped <= i < |completed| ==> ring[Slot(i, num)] == UsedElem(hist[completed[i]].ds[0], lens[i])
  }

  /** The heads of the requests the device has read and not completed. */
  ghost function InFlight(hist: seq<Request>, fetched: nat, completed: seq<nat>): set<nat>
    requires fetched <= |hist| && NonEmpty(hist)
  {
    set id: nat | id < fetched && id !in completed :: hist[id].ds[0]
  }

  lemma AvailAdd(ring: seq<nat>, hist: seq<Request>, fetched: nat, num: nat, q: Request)
    requires 0 < num == |ring| && NonEmpty(hist) && q.ds != [] && AvailOk(ring, hist, fetched, num) && |hist| < fetched + num
    ensures NonEmpty(hist + [q]) && AvailOk(ring[Slot(|hist|, num) := q.ds[0]], hist + [q], fetched, num)
  {
    forall i: nat | fetched <= i < |hist| ensures Slot(i, num) != Slot(|hist|, num) {
      SlotsDiffer(i, |hist|, num);
    }
  }

  lemma UsedAdd(ring: seq<UsedElem>, hist: seq<Request>, completed: seq<nat>, lens: seq<nat>, reaped: nat, num: nat, id: nat, len: nat)
    requires 0 < num == |ring| && NonEmpty(hist) && forall i :: 0 <= i < |completed| ==> completed[i] < |hist|
    requires UsedOk(ring, hist, completed, lens, reaped, num) && |completed| < reaped + num && id < |hist|
    ensures UsedOk(ring[Slot(|completed|, num) := UsedElem(hist[id].ds[0], len)], hist, completed + [id], lens + [len], reaped, num)
  {
    forall i: nat | reaped <= i < |completed| ensures Slot(i, num) != Slot(|completed|, num) {
      SlotsDiffer(i, |completed|, num);
    }
  }

  lemma InFlightFetch(hist: seq<Request>, fetched: nat, completed: seq<nat>)
    requires fetched < |hist| && NonEmpty(hist) && fetched !in completed
    ensures InFlight(hist, fetched + 1, completed) == InFlight(hist, fetched, completed) + {hist[fetched].ds[0]}
  {
  }

  lemma InFlightComplete(hist: seq<Request>, fetched: nat, completed: seq<nat>, id: nat)
    requires fetched <= |hist| && NonEmpty(hist) && id < fetched && id !in completed
    requires forall j: nat :: j < fetched && j !in completed && hist[j].ds[0] == hist[id].ds[0] ==> j == id
    ensures InFlight(hist, fetched, completed + [id]) == InFlight(hist, fetched, completed) - {hist[id].ds[0]}
  {
  }

  lemma HistGrows(ring: seq<UsedElem>, hist: seq<Request>, q: Request, fetched: nat, completed: seq<nat>, lens: seq<nat>,
                  reaped: nat, num: nat)
    requires 0 < num == |ring| && NonEmpty(hist) && q.ds != [] && forall i :: 0 <= i < |completed| ==> completed[i] < |hist|
    requires fetched <= |hist| && UsedOk(ring, hist, completed, lens, reaped, num)
    ensures NonEmpty(hist + [q]) && UsedOk(ring, hist + [q], completed, lens, reaped, num)
    ensures InFlight(hist + [q], fetched, completed) == InFlight(hist, fetched, completed)
  {
    forall x ensures x in InFlight(hist + [q], fetched, completed) <==> x in InFlight(hist, fetched, completed) {
      if x in InFlight(hist, fetched, completed) {
        var id: nat :| id < fetched && id !in completed && hist[id].ds[0] == x;
        assert (hist + [q])[id] == hist[id];
      }
      if x in InFlight(hist + [q], fetched, completed) {
        var id: nat :| id < fetched && id !in completed && (hist + [q])[id].ds[0] == x;
        assert (hist + [q])[id] == hist[id];
      }
    }
  }
}
