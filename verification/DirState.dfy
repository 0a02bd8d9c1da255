/** ext4 directories as bytes: records that tile the blocks, and the names they hold. */
module DirState {
  import Bits
  import opened Bytes

  type Name = seq<Byte>

  // ---------- Fields of a record ----------

  /** The inode number of the record at o (four bytes, little endian). */
  function Ino(d: seq<Byte>, o: nat): (n: nat)
    requires o + 8 <= |d|
    ensures n < U32
  {
    d[o] as nat + 256 * d[o + 1] as nat + 65536 * d[o + 2] as nat + 16777216 * d[o + 3] as nat
  }

  function RecLen(d: seq<Byte>, o: nat): (n: nat)
    requires o + 8 <= |d|
    ensures n < 65536
  {
    d[o + 4] as nat + 256 * d[o + 5] as nat
  }

  function NameLen(d: seq<Byte>, o: nat): (n: nat)
    requires o + 8 <= |d|
    ensures n < 256
  {
    d[o + 6] as nat
  }

  function Kind(d: seq<Byte>, o: nat): Byte
    requires o + 8 <= |d|
  {
    d[o + 7]
  }

  function NameAt(d: seq<Byte>, o: nat): Name
    requires o + 8 <= |d|
  {
    if o + 8 + NameLen(d, o) <= |d| then d[o + 8..o + 8 + NameLen(d, o)] else []
  }

  /** sizeof(struct ext4_dirent) plus the name, rounded up to four, and at least twelve. */
  function Need(n: nat): (r: nat)
    ensures r % 4 == 0 && r >= 12 && r >= 8 + n && r <= 12 + n + 3
  {
    var r := (8 + n + 3) / 4 * 4;
    if r < 12 then 12 else r
  }

  // ---------- Tiling ----------

  /** A record that keeps its name inside itself and itself inside its block. */
  ghost predicate RecOk(d: seq<Byte>, bs: nat, o: nat) {
    && bs > 0 && o + 8 <= |d|
    && var l := RecLen(d, o);
       l % 4 == 0 && Need(NameLen(d, o)) <= l && o % bs + l <= bs && o + l <= |d|
  }

  ghost predicate Tiled(d: seq<Byte>, bs: nat, lo: nat, hi: nat)
    decreases hi - lo
  {
    lo == hi || (lo < hi && RecOk(d, bs, lo) && lo + RecLen(d, lo) <= hi && Tiled(d, bs, lo + RecLen(d, lo), hi))
  }

  /** A directory: whole blocks, tiled by records. */
  ghost predicate DirOk(d: seq<Byte>, bs: nat) {
    1024 <= bs <= 32768 && bs % 4 == 0 && |d| % bs == 0 && Tiled(d, bs, 0, |d|)
  }

  // ---------- Names ----------

  predicate Live(d: seq<Byte>, o: nat, name: Name)
    requires o + 8 <= |d|
  {
    Ino(d, o) != 0 && NameAt(d, o) == name
  }

  /** What a name stands for: an inode and its file type. */
  datatype Entry = Absent | Present(ino: nat, kind: Byte) {
    /** The inode number, 0 for none. */
    function Num(): nat { if Absent? then 0 else ino }
  }

  /** What the record at o says of the name. */
  function Here(d: seq<Byte>, o: nat, name: Name): Entry
    requires o + 8 <= |d|
  {
    if Live(d, o, name) then Present(Ino(d, o), Kind(d, o)) else Absent
  }

  /** Inode and type in the first live record of that name from lo on. */
  ghost function Find(d: seq<Byte>, bs: nat, lo: nat, hi: nat, name: Name): (e: Entry)
    requires Tiled(d, bs, lo, hi)
    ensures e.Present? ==> 0 < e.ino < U32
    decreases hi - lo
  {
    if lo == hi then Absent
    else if Live(d, lo, name) then Here(d, lo, name)
    else Find(d, bs, lo + RecLen(d, lo), hi, name)
  }

  lemma {:induction false} TiledSplit(d: seq<Byte>, bs: nat, lo: nat, mid: nat, hi: nat, name: Name)
    requires Tiled(d, bs, lo, mid) && Tiled(d, bs, mid, hi)
    ensures Tiled(d, bs, lo, hi)
    ensures Find(d, bs, lo, hi, name)
         == if Find(d, bs, lo, mid, name) != Absent then Find(d, bs, lo, mid, name) else Find(d, bs, mid, hi, name)
    decreases mid - lo
  {
    hide NameAt, Ino, RecLen;
    if lo != mid { TiledSplit(d, bs, lo + RecLen(d, lo), mid, hi, name); }
    TiledOrder(d, bs, mid, hi);
  }

  lemma TiledOrder(d: seq<Byte>, bs: nat, lo: nat, hi: nat)
    requires Tiled(d, bs, lo, hi)
    ensures lo <= hi
  {
  }

  ghost predicate Agree(d: seq<Byte>, d': seq<Byte>, lo: nat, hi: nat) {
    |d| <= |d'| && hi <= |d| && forall i :: lo <= i < hi ==> d'[i] == d[i]
  }

  /** Records whose bytes are the same are the same records. */
  lemma {:induction false} TiledAgree(d: seq<Byte>, d': seq<Byte>, bs: nat, lo: nat, hi: nat, name: Name)
    requires Tiled(d, bs, lo, hi) && Agree(d, d', lo, hi)
    ensures Tiled(d', bs, lo, hi) && Find(d', bs, lo, hi, name) == Find(d, bs, lo, hi, name)
    decreases hi - lo
  {
    if lo != hi {
      RecAgree(d, d', bs, lo, hi);
      hide RecOk, NameAt, Ino, RecLen;
      TiledAgree(d, d', bs, lo + RecLen(d, lo), hi, name);
    }
  }

  lemma RecAgree(d: seq<Byte>, d': seq<Byte>, bs: nat, lo: nat, hi: nat)
    requires lo < hi && RecOk(d, bs, lo) && lo + RecLen(d, lo) <= hi && Agree(d, d', lo, hi)
    ensures RecOk(d', bs, lo) && RecLen(d', lo) == RecLen(d, lo) && Ino(d', lo) == Ino(d, lo)
    ensures NameAt(d', lo) == NameAt(d, lo) && NameLen(d', lo) == NameLen(d, lo) && Kind(d', lo) == Kind(d, lo)
  {
    assert Need(NameLen(d, lo)) <= RecLen(d, lo);
  }

  /** Taking one step along the tiles. */
  lemma TiledNext(d: seq<Byte>, bs: nat, lo: nat, o: nat, name: Name)
    requires Tiled(d, bs, lo, o) && RecOk(d, bs, o)
    ensures var next := o + RecLen(d, o);
            && o < next && Tiled(d, bs, o, next) && Tiled(d, bs, lo, next)
            && Find(d, bs, o, next, name) == Here(d, o, name)
            && Find(d, bs, lo, next, name) == if Find(d, bs, lo, o, name) != Absent then Find(d, bs, lo, o, name)
                                              else Here(d, o, name)
  {
    var next := o + RecLen(d, o);
    assert Tiled(d, bs, next, next);
    TiledSplit(d, bs, lo, o, next, name);
  }

  // ---------- Editing a record ----------

  /** d with the record fields at o set; the length and whatever follows the name stay. */
  function SetRec(d: seq<Byte>, o: nat, ino: nat, len: nat, kind: Byte, name: Name): (r: seq<Byte>)
    requires o + 8 + |name| <= |d| && ino < U32 && len < 65536 && |name| < 256
    ensures |r| == |d|
  {
    var head: seq<Byte> := [(ino % 256) as Byte, (ino / 256 % 256) as Byte, (ino / 65536 % 256) as Byte, (ino / 16777216) as Byte,
                            (len % 256) as Byte, (len / 256) as Byte, |name| as Byte, kind];
    d[..o] + head + name + d[o + 8 + |name|..]
  }

  lemma SetRecFields(d: seq<Byte>, o: nat, ino: nat, len: nat, kind: Byte, name: Name)
    requires o + 8 + |name| <= |d| && ino < U32 && len < 65536 && |name| < 256
    ensures var r := SetRec(d, o, ino, len, kind, name);
            && Ino(r, o) == ino && RecLen(r, o) == len && NameLen(r, o) == |name| && Kind(r, o) == kind && NameAt(r, o) == name
            && Agree(d, r, 0, o) && Agree(d, r, o + 8 + |name|, |d|)
  {
    var r := SetRec(d, o, ino, len, kind, name);
    Digits(ino);
    assert r[o] == (ino % 256) as Byte && r[o + 1] == (ino / 256 % 256) as Byte;
    assert r[o + 2] == (ino / 65536 % 256) as Byte && r[o + 3] == (ino / 16777216) as Byte;
    assert r[o + 4] == (len % 256) as Byte && r[o + 5] == (len / 256) as Byte;
    assert r[o + 6] == |name| as Byte && r[o + 7] == kind;
    assert r[o + 8..o + 8 + |name|] == name;
  }

  /** d with the inode field at o cleared. */
  function ClearIno(d: seq<Byte>, o: nat): (r: seq<Byte>)
    requires o + 8 <= |d|
    ensures |r| == |d|
  {
    d[o := 0][o + 1 := 0][o + 2 := 0][o + 3 := 0]
  }

  // ---------- The four edits ----------

  /** The name stands for the new entry, or for what it stood for before if it did; every other name for
      the same as before. */
  ghost predicate Adds(d: seq<Byte>, d': seq<Byte>, bs: nat, e: Entry, name: Name)
    requires DirOk(d, bs) && DirOk(d', bs)
  {
    forall n: Name :: AddsFor(Find(d, bs, 0, |d|, n), Find(d', bs, 0, |d'|, n), e, n == name)
  }

  predicate AddsFor(was: Entry, now: Entry, e: Entry, added: bool) {
    if added then now == e || (was != Absent && now == was) else now == was
  }

  /** Nothing is found under `name` any more; every other name is found as before. */
  ghost predicate Removes(d: seq<Byte>, d': seq<Byte>, bs: nat, name: Name)
    requires DirOk(d, bs) && DirOk(d', bs)
  {
    && Find(d', bs, 0, |d'|, name) == Absent
    && forall n: Name :: n != name ==> Find(d', bs, 0, |d'|, n) == Find(d, bs, 0, |d|, n)
  }

  /** Replacing the tiles of [o, e) by others that hold `extra` names. */
  lemma Splice(d: seq<Byte>, d': seq<Byte>, bs: nat, o: nat, e: nat, name: Name)
    requires |d'| == |d| && Tiled(d, bs, 0, o) && Tiled(d, bs, o, e) && Tiled(d, bs, e, |d|) && Tiled(d', bs, o, e)
    requires Agree(d, d', 0, o) && Agree(d, d', e, |d|)
    ensures Tiled(d, bs, 0, |d|) && Tiled(d', bs, 0, |d|)
    ensures var before, after := Find(d, bs, 0, o, name), Find(d, bs, e, |d|, name);
            && Find(d, bs, 0, |d|, name)
                 == (if before != Absent then before else if Find(d, bs, o, e, name) != Absent then Find(d, bs, o, e, name) else after)
            && Find(d', bs, 0, |d|, name)
                 == (if before != Absent then before
                     else if Find(d', bs, o, e, name) != Absent then Find(d', bs, o, e, name) else after)
  {
    hide Find;
    TiledAgree(d, d', bs, 0, o, name);
    TiledAgree(d, d', bs, e, |d|, name);
    TiledSplit(d, bs, 0, o, e, name);
    TiledSplit(d', bs, 0, o, e, name);
    TiledSplit(d, bs, 0, e, |d|, name);
    TiledSplit(d', bs, 0, e, |d|, name);
  }

  /** Clearing the inode of a record takes its name away and nothing else. */
  lemma Clears(d: seq<Byte>, bs: nat, o: nat)
    requires RecOk(d, bs, o)
    ensures var d' := ClearIno(d, o);
            && RecOk(d', bs, o) && RecLen(d', o) == RecLen(d, o) && Ino(d', o) == 0
            && Agree(d, d', 0, o) && Agree(d, d', o + RecLen(d, o), |d|) && NameAt(d', o) == NameAt(d, o)
  {
    assert Need(NameLen(d, o)) <= RecLen(d, o);
  }

  /** A record that is not live is given to a name that fits. */
  lemma Reuses(d: seq<Byte>, bs: nat, o: nat, ino: nat, kind: Byte, name: Name)
    requires DirOk(d, bs) && Tiled(d, bs, 0, o) && o < |d| && Tiled(d, bs, o, |d|)
    requires Ino(d, o) == 0 && 0 < ino < U32 && |name| < 256 && Need(|name|) <= RecLen(d, o)
    ensures var d' := SetRec(d, o, ino, RecLen(d, o), kind, name);
            DirOk(d', bs) && Adds(d, d', bs, Present(ino, kind), name)
  {
    var l := RecLen(d, o);
    var d' := SetRec(d, o, ino, l, kind, name);
    SetRecFields(d, o, ino, l, kind, name);
    hide Find, SetRec, Adds;
    ReusesCore(d, d', bs, o, l, Present(ino, kind), name);
  }

  lemma ReusesCore(d: seq<Byte>, d': seq<Byte>, bs: nat, o: nat, l: nat, e: Entry, name: Name)
    requires DirOk(d, bs) && |d'| == |d| && RecOk(d, bs, o) && RecOk(d', bs, o) && RecLen(d, o) == l == RecLen(d', o)
    requires e.Present? && e.ino != 0 && Tiled(d, bs, 0, o) && o < |d| && Tiled(d, bs, o, |d|)
    requires Agree(d, d', 0, o) && Agree(d, d', o + l, |d|) && Ino(d, o) == 0 && Here(d', o, name) == e && NameAt(d', o) == name
    ensures DirOk(d', bs) && Adds(d, d', bs, e, name)
  {
    hide Ino, NameAt, Find, Tiled, RecLen, NameLen, RecOk, Agree;
    OneTile(d, bs, o);
    OneTile(d', bs, o);
    Splice(d, d', bs, o, o + l, name);
    forall n: Name ensures AddsFor(Find(d, bs, 0, |d|, n), Find(d', bs, 0, |d|, n), e, n == name) {
      ReusesFor(d, d', bs, o, l, e, name, n);
    }
  }

  lemma ReusesFor(d: seq<Byte>, d': seq<Byte>, bs: nat, o: nat, l: nat, e: Entry, name: Name, n: Name)
    requires |d'| == |d| && RecOk(d, bs, o) && RecOk(d', bs, o) && RecLen(d, o) == l == RecLen(d', o) && e.Present? && e.ino != 0
    requires Tiled(d, bs, 0, o) && Tiled(d, bs, o, o + l) && Tiled(d, bs, o + l, |d|) && Tiled(d', bs, o, o + l)
    requires Agree(d, d', 0, o) && Agree(d, d', o + l, |d|) && Ino(d, o) == 0 && Here(d', o, name) == e && NameAt(d', o) == name
    ensures Tiled(d, bs, 0, |d|) && Tiled(d', bs, 0, |d|)
    ensures AddsFor(Find(d, bs, 0, |d|, n), Find(d', bs, 0, |d|, n), e, n == name)
  {
    hide Ino, NameAt, Find, Tiled, RecLen, NameLen, RecOk, Agree;
    Splice(d, d', bs, o, o + l, n);
    TileFind(d, bs, o, n);
    TileFind(d', bs, o, n);
  }

  lemma OneTile(d: seq<Byte>, bs: nat, o: nat)
    requires RecOk(d, bs, o)
    ensures Tiled(d, bs, o, o + RecLen(d, o))
    ensures forall hi: nat :: o < hi && Tiled(d, bs, o, hi) ==> o + RecLen(d, o) <= hi && Tiled(d, bs, o + RecLen(d, o), hi)
  {
    assert Tiled(d, bs, o + RecLen(d, o), o + RecLen(d, o));
  }

  lemma TileFind(d: seq<Byte>, bs: nat, o: nat, name: Name)
    requires RecOk(d, bs, o) && Tiled(d, bs, o, o + RecLen(d, o))
    ensures Find(d, bs, o, o + RecLen(d, o), name) == Here(d, o, name)
  {
  }

  /** The last record is shortened to what it needs and a new one takes the rest. */
  function SplitRec(d: seq<Byte>, o: nat, ino: nat, kind: Byte, name: Name): (r: seq<Byte>)
    requires o + 8 <= |d| && ino < U32 && |name| < 256
    requires var l, a := RecLen(d, o), Need(NameLen(d, o)); a + Need(|name|) <= l && o + l <= |d|
    ensures |r| == |d|
  {
    var l, a := RecLen(d, o), Need(NameLen(d, o));
    var d1 := d[o + 4 := (a % 256) as Byte][o + 5 := (a / 256) as Byte];
    SetRec(d1, o + a, ino, l - a, kind, name)
  }

  lemma SplitFields(d: seq<Byte>, bs: nat, o: nat, ino: nat, kind: Byte, name: Name)
    requires RecOk(d, bs, o) && ino < U32 && |name| < 256
    requires Need(NameLen(d, o)) + Need(|name|) <= RecLen(d, o)
    ensures var l, a := RecLen(d, o), Need(NameLen(d, o));
            var r := SplitRec(d, o, ino, kind, name);
            && Agree(d, r, 0, o) && Agree(d, r, o + l, |d|)
            && Ino(r, o) == Ino(d, o) && NameLen(r, o) == NameLen(d, o) && NameAt(r, o) == NameAt(d, o) && RecLen(r, o) == a
            && Kind(r, o) == Kind(d, o) && Kind(r, o + a) == kind
            && Ino(r, o + a) == ino && RecLen(r, o + a) == l - a && NameLen(r, o + a) == |name| && NameAt(r, o + a) == name
  {
    var l, a := RecLen(d, o), Need(NameLen(d, o));
    var d1 := d[o + 4 := (a % 256) as Byte][o + 5 := (a / 256) as Byte];
    hide Need;
    SetRecFields(d1, o + a, ino, l - a, kind, name);
    var r := SplitRec(d, o, ino, kind, name);
    hide SetRec, SplitRec;
    assert forall i :: o <= i < o + a ==> r[i] == d1[i];
    ShortRec(d, r, o, a);
  }

  /** A record whose length alone was changed, to a. */
  lemma ShortRec(d: seq<Byte>, r: seq<Byte>, o: nat, a: nat)
    requires o + 8 <= |d| && 8 + NameLen(d, o) <= a < 65536 && o + a <= |d| == |r| && r[o + 4] == a % 256 && r[o + 5] == a / 256
    requires forall i :: o <= i < o + a && i != o + 4 && i != o + 5 ==> r[i] == d[i]
    ensures Ino(r, o) == Ino(d, o) && NameLen(r, o) == NameLen(d, o) && NameAt(r, o) == NameAt(d, o) && RecLen(r, o) == a
    ensures Kind(r, o) == Kind(d, o)
  {
    var n := NameLen(d, o);
    assert r[o + 8..o + 8 + n] == d[o + 8..o + 8 + n];
  }

  lemma Splits(d: seq<Byte>, bs: nat, o: nat, ino: nat, kind: Byte, name: Name)
    requires DirOk(d, bs) && Tiled(d, bs, 0, o) && o < |d| && Tiled(d, bs, o, |d|)
    requires 0 < ino < U32 && |name| < 256 && Need(NameLen(d, o)) + Need(|name|) <= RecLen(d, o)
    ensures var d' := SplitRec(d, o, ino, kind, name);
            DirOk(d', bs) && Adds(d, d', bs, Present(ino, kind), name)
  {
    hide Find, SplitRec, Adds, Ino, NameAt, Kind, RecLen, NameLen, Need, Agree, Tiled, RecOk;
    NamedNext(d, bs, o, |d|, name);
    var l, a := RecLen(d, o), Need(NameLen(d, o));
    var d' := SplitRec(d, o, ino, kind, name);
    SplitFields(d, bs, o, ino, kind, name);
    SplitsCore(d, d', bs, o, a, l, Present(ino, kind), name);
  }

  lemma SplitsCore(d: seq<Byte>, d': seq<Byte>, bs: nat, o: nat, a: nat, l: nat, e: Entry, name: Name)
    requires DirOk(d, bs) && |d'| == |d| && RecOk(d, bs, o) && RecLen(d, o) == l && e.Present? && e.ino != 0
    requires a == Need(NameLen(d, o)) && a + Need(|name|) <= l && NameLen(d', o) == NameLen(d, o) && RecLen(d', o) == a
    requires RecLen(d', o + a) == l - a && NameLen(d', o + a) == |name|
    requires Tiled(d, bs, 0, o) && o < |d| && Tiled(d, bs, o, |d|)
    requires Agree(d, d', 0, o) && Agree(d, d', o + l, |d|) && Ino(d', o) == Ino(d, o) && NameAt(d', o) == NameAt(d, o)
    requires Kind(d', o) == Kind(d, o)
    requires Here(d', o + a, name) == e && NameAt(d', o + a) == name
    ensures DirOk(d', bs) && Adds(d, d', bs, e, name)
  {
    hide Ino, NameAt, Find, Tiled, RecLen, NameLen, Agree, Need;
    OneTile(d, bs, o);
    SplitTiles(d', bs, o, a, l);
    hide RecOk;
    Splice(d, d', bs, o, o + l, name);
    forall n: Name ensures AddsFor(Find(d, bs, 0, |d|, n), Find(d', bs, 0, |d|, n), e, n == name) {
      SplitsFor(d, d', bs, o, a, l, e, name, n);
    }
  }

  lemma SplitsFor(d: seq<Byte>, d': seq<Byte>, bs: nat, o: nat, a: nat, l: nat, e: Entry, name: Name, n: Name)
    requires |d'| == |d| && RecOk(d, bs, o) && RecOk(d', bs, o) && RecOk(d', bs, o + a) && e.Present? && e.ino != 0
    requires RecLen(d, o) == l && RecLen(d', o) == a && RecLen(d', o + a) == l - a
    requires Tiled(d, bs, 0, o) && Tiled(d, bs, o, o + l) && Tiled(d, bs, o + l, |d|)
    requires Tiled(d', bs, o, o + a) && Tiled(d', bs, o + a, o + l) && Tiled(d', bs, o, o + l)
    requires Agree(d, d', 0, o) && Agree(d, d', o + l, |d|) && Ino(d', o) == Ino(d, o) && NameAt(d', o) == NameAt(d, o)
    requires Kind(d', o) == Kind(d, o)
    requires Here(d', o + a, name) == e && NameAt(d', o + a) == name
    ensures Tiled(d, bs, 0, |d|) && Tiled(d', bs, 0, |d|)
    ensures AddsFor(Find(d, bs, 0, |d|, n), Find(d', bs, 0, |d|, n), e, n == name)
  {
    hide Ino, NameAt, Find, Tiled, RecLen, NameLen, RecOk, Agree;
    Splice(d, d', bs, o, o + l, n);
    TileFind(d, bs, o, n);
    TileFind(d', bs, o, n);
    TileFind(d', bs, o + a, n);
    TiledSplit(d', bs, o, o + a, o + l, n);
  }

  lemma SplitTiles(d: seq<Byte>, bs: nat, o: nat, a: nat, l: nat)
    requires bs > 0 && o % bs + l <= bs && o + l <= |d| && a + 12 <= l && a >= 12 && a % 4 == 0 && l % 4 == 0
    requires RecLen(d, o) == a && Need(NameLen(d, o)) <= a
    requires RecLen(d, o + a) == l - a && Need(NameLen(d, o + a)) <= l - a
    ensures RecOk(d, bs, o) && RecOk(d, bs, o + a)
    ensures Tiled(d, bs, o, o + a) && Tiled(d, bs, o + a, o + l) && Tiled(d, bs, o, o + l)
  {
    ModAdd(o, a, bs);
    hide Need, RecLen, NameLen;
    assert Tiled(d, bs, o + a, o + a) && Tiled(d, bs, o + l, o + l);
    assert Tiled(d, bs, o + a, o + l);
  }

  lemma ModAdd(o: nat, a: nat, bs: nat)
    requires bs > 0 && o % bs + a < bs
    ensures (o + a) % bs == o % bs + a
  {
    Bits.DivUnique(o + a, bs, o / bs, o % bs + a);
  }

  /** A block that is one record. */
  function NewBlock(bs: nat, ino: nat, kind: Byte, name: Name): (r: seq<Byte>)
    requires 1024 <= bs < 65536 && ino < U32 && |name| < 256
    ensures |r| == bs
  {
    SetRec(seq(bs, _ => 0 as Byte), 0, ino, bs, kind, name)
  }

  /** A directory grows by a block that holds the new record. */
  lemma Appends(d: seq<Byte>, bs: nat, ino: nat, kind: Byte, name: Name)
    requires DirOk(d, bs) && 0 < ino < U32 && |name| < 256
    ensures var d' := d + NewBlock(bs, ino, kind, name);
            DirOk(d', bs) && Adds(d, d', bs, Present(ino, kind), name)
  {
    var d' := d + NewBlock(bs, ino, kind, name);
    NewRec(d, bs, ino, kind, name);
    hide NewBlock, Ino, NameAt, Find, Tiled, RecOk, RecLen;
    OneTile(d', bs, |d|);
    WholeBlocks(|d|, bs);
    assert Agree(d, d', 0, |d|);
    hide Agree;
    forall n: Name
      ensures Tiled(d', bs, 0, |d'|)
      ensures AddsFor(Find(d, bs, 0, |d|, n), Find(d', bs, 0, |d'|, n), Present(ino, kind), n == name)
    {
      TiledAgree(d, d', bs, 0, |d|, n);
      TileFind(d', bs, |d|, n);
      TiledSplit(d', bs, 0, |d|, |d'|, n);
    }
    assert Tiled(d', bs, 0, |d'|) by {
      TiledAgree(d, d', bs, 0, |d|, name);
      TiledSplit(d', bs, 0, |d|, |d'|, name);
    }
  }

  lemma WholeBlocks(n: nat, bs: nat)
    requires bs > 0 && n % bs == 0
    ensures (n + bs) % bs == 0
  {
    Bits.DivUnique(n + bs, bs, n / bs + 1, 0);
  }

  lemma NewRec(d: seq<Byte>, bs: nat, ino: nat, kind: Byte, name: Name)
    requires 1024 <= bs <= 32768 && bs % 4 == 0 && |d| % bs == 0 && ino < U32 && |name| < 256
    ensures var d' := d + NewBlock(bs, ino, kind, name);
            RecOk(d', bs, |d|) && RecLen(d', |d|) == bs && Ino(d', |d|) == ino && NameAt(d', |d|) == name && Kind(d', |d|) == kind
  {
    var z := seq(bs, _ => 0 as Byte);
    SetRecFields(z, 0, ino, bs, kind, name);
    var b := NewBlock(bs, ino, kind, name);
    var d' := d + b;
    assert forall i :: 0 <= i < bs ==> d'[|d| + i] == b[i];
    assert NameAt(d', |d|) == NameAt(b, 0);
  }

  // ---------- Records by name, live or not ----------

  /** Some record from lo on carries the name, whether live or cleared. */
  ghost predicate Named(d: seq<Byte>, bs: nat, lo: nat, hi: nat, name: Name)
    requires Tiled(d, bs, lo, hi)
    decreases hi - lo
  {
    lo != hi && (NameAt(d, lo) == name || Named(d, bs, lo + RecLen(d, lo), hi, name))
  }

  lemma NamedNext(d: seq<Byte>, bs: nat, o: nat, hi: nat, name: Name)
    requires Tiled(d, bs, o, hi) && o < hi
    ensures RecOk(d, bs, o) && o + 8 <= |d| && o + RecLen(d, o) <= hi && Tiled(d, bs, o + RecLen(d, o), hi)
    ensures Named(d, bs, o, hi, name) <==> NameAt(d, o) == name || Named(d, bs, o + RecLen(d, o), hi, name)
  {
  }

  lemma NamedEnd(d: seq<Byte>, bs: nat, o: nat, name: Name)
    ensures Tiled(d, bs, o, o) && !Named(d, bs, o, o, name)
  {
  }

  /** One step of unlink along the tiles. */
  ghost predicate Unlinking(d0: seq<Byte>, d: seq<Byte>, bs: nat, o: nat, name: Name)
    requires DirOk(d0, bs)
  {
    && |d| == |d0| && o <= |d| && Tiled(d0, bs, 0, o) && Tiled(d, bs, 0, o) && Tiled(d0, bs, o, |d|) && Agree(d0, d, o, |d|)
    && forall n: Name :: UnlinkedFor(Find(d0, bs, 0, o, n), Find(d, bs, 0, o, n), n == name)
  }

  predicate UnlinkedFor(was: Entry, now: Entry, removed: bool) { now == if removed then Absent else was }

  lemma UnlinkStart(d: seq<Byte>, bs: nat, name: Name)
    requires DirOk(d, bs)
    ensures Unlinking(d, d, bs, 0, name)
  {
  }

  lemma UnlinkRec(d0: seq<Byte>, d: seq<Byte>, bs: nat, o: nat, name: Name)
    requires DirOk(d0, bs) && Unlinking(d0, d, bs, o, name) && o < |d|
    ensures RecOk(d0, bs, o) && RecOk(d, bs, o) && RecLen(d, o) == RecLen(d0, o) && Ino(d, o) == Ino(d0, o)
    ensures NameLen(d, o) == NameLen(d0, o) && NameAt(d, o) == NameAt(d0, o) && 12 <= RecLen(d, o) && o + RecLen(d, o) <= |d|
    ensures o + 8 <= |d| && |d| == |d0| && Kind(d, o) == Kind(d0, o)
  {
    hide Find;
    RecAgree(d0, d, bs, o, |d|);
  }

  /** The record at o is passed over, or its inode cleared if it carries the name. */
  lemma UnlinkStep(d0: seq<Byte>, d: seq<Byte>, bs: nat, o: nat, name: Name)
    requires DirOk(d0, bs) && Unlinking(d0, d, bs, o, name) && o < |d| && RecOk(d, bs, o)
    ensures var d' := if NameAt(d, o) == name then ClearIno(d, o) else d;
            Unlinking(d0, d', bs, o + RecLen(d, o), name)
  {
    UnlinkRec(d0, d, bs, o, name);
    var e := o + RecLen(d, o);
    var d' := if NameAt(d, o) == name then ClearIno(d, o) else d;
    Clears(d, bs, o);
    assert Agree(d0, d', e, |d|) && Agree(d, d', 0, o);
    assert Tiled(d0, bs, e, |d|);
    hide Ino, NameAt, Tiled, Find, RecLen, ClearIno, RecOk, Agree;
    UnlinkTiles(d0, d, d', bs, o, e);
    forall n: Name ensures UnlinkedFor(Find(d0, bs, 0, e, n), Find(d', bs, 0, e, n), n == name) {
      assert UnlinkedFor(Find(d0, bs, 0, o, n), Find(d, bs, 0, o, n), n == name);
      TiledAgree(d, d', bs, 0, o, n);
      TiledNext(d0, bs, 0, o, n);
      TiledNext(d', bs, 0, o, n);
    }
  }

  lemma UnlinkTiles(d0: seq<Byte>, d: seq<Byte>, d': seq<Byte>, bs: nat, o: nat, e: nat)
    requires Tiled(d0, bs, 0, o) && Tiled(d, bs, 0, o) && RecOk(d0, bs, o) && RecOk(d', bs, o) && Agree(d, d', 0, o)
    requires e == o + RecLen(d0, o) == o + RecLen(d', o)
    ensures Tiled(d0, bs, 0, e) && Tiled(d', bs, 0, e)
  {
    hide Tiled, Find, RecLen, RecOk, Agree;
    TiledAgree(d, d', bs, 0, o, []);
    TiledNext(d0, bs, 0, o, []);
    TiledNext(d', bs, 0, o, []);
  }

  lemma UnlinkEnd(d0: seq<Byte>, d: seq<Byte>, bs: nat, name: Name)
    requires DirOk(d0, bs) && Unlinking(d0, d, bs, |d|, name)
    ensures DirOk(d, bs) && Removes(d0, d, bs, name) && |d| == |d0|
  {
    hide Find, Tiled;
    assert UnlinkedFor(Find(d0, bs, 0, |d|, name), Find(d, bs, 0, |d|, name), true);
    forall n: Name | n != name ensures Find(d, bs, 0, |d|, n) == Find(d0, bs, 0, |d|, n) {
      assert UnlinkedFor(Find(d0, bs, 0, |d|, n), Find(d, bs, 0, |d|, n), n == name);
    }
  }

  /** A name that no record carries is not found. */
  lemma {:induction false} FoundIsNamed(d: seq<Byte>, bs: nat, lo: nat, hi: nat, name: Name)
    requires Tiled(d, bs, lo, hi) && Find(d, bs, lo, hi, name) != Absent
    ensures Named(d, bs, lo, hi, name)
    decreases hi - lo
  {
    if !Live(d, lo, name) { FoundIsNamed(d, bs, lo + RecLen(d, lo), hi, name); }
  }

  lemma {:induction false} NamedSplit(d: seq<Byte>, bs: nat, lo: nat, mid: nat, hi: nat, name: Name)
    requires Tiled(d, bs, lo, mid) && Tiled(d, bs, mid, hi)
    ensures Tiled(d, bs, lo, hi)
    ensures Named(d, bs, lo, hi, name) <==> Named(d, bs, lo, mid, name) || Named(d, bs, mid, hi, name)
    decreases mid - lo
  {
    hide NameAt, RecLen;
    if lo != mid { NamedSplit(d, bs, lo + RecLen(d, lo), mid, hi, name); }
    TiledOrder(d, bs, mid, hi);
  }

  lemma {:induction false} NamedAgree(d: seq<Byte>, d': seq<Byte>, bs: nat, lo: nat, hi: nat, name: Name)
    requires Tiled(d, bs, lo, hi) && Agree(d, d', lo, hi)
    ensures Tiled(d', bs, lo, hi) && (Named(d', bs, lo, hi, name) <==> Named(d, bs, lo, hi, name))
    decreases hi - lo
  {
    hide RecOk, NameAt, RecLen, Agree, NameLen, Ino;
    if lo != hi {
      RecIn(d, bs, lo);
      RecAgree(d, d', bs, lo, hi);
      RecIn(d', bs, lo);
      AgreeFrom(d, d', lo, lo + RecLen(d, lo), hi);
      NamedAgree(d, d', bs, lo + RecLen(d, lo), hi, name);
    }
  }

  /** Up to o, the two directories carry the same names, live or cleared. */
  ghost predicate SameNames(d0: seq<Byte>, d: seq<Byte>, bs: nat, o: nat) {
    && Tiled(d0, bs, 0, o) && Tiled(d, bs, 0, o)
    && forall n: Name :: Named(d0, bs, 0, o, n) <==> Named(d, bs, 0, o, n)
  }

  /** Clearing an inode number leaves the name in its record. */
  lemma SameNamesStep(d0: seq<Byte>, d: seq<Byte>, bs: nat, o: nat, name: Name)
    requires DirOk(d0, bs) && Unlinking(d0, d, bs, o, name) && o < |d| && RecOk(d, bs, o) && SameNames(d0, d, bs, o)
    ensures var d' := if NameAt(d, o) == name then ClearIno(d, o) else d;
            SameNames(d0, d', bs, o + RecLen(d, o))
  {
    hide NameAt, Tiled, Find, RecLen, ClearIno, RecOk, Agree, Unlinking, Named;
    UnlinkRec(d0, d, bs, o, name);
    var e := o + RecLen(d, o);
    var d' := if NameAt(d, o) == name then ClearIno(d, o) else d;
    Clears(d, bs, o);
    AgreeSelf(d, o);
    NamedOneMore(d0, d, d', bs, o, name);
    forall n: Name
      ensures Tiled(d0, bs, 0, e) && Tiled(d', bs, 0, e) && (Named(d0, bs, 0, e, n) <==> Named(d', bs, 0, e, n))
    {
      NamedOneMore(d0, d, d', bs, o, n);
    }
  }

  lemma NamedOneMore(d0: seq<Byte>, d: seq<Byte>, d': seq<Byte>, bs: nat, o: nat, name: Name)
    requires RecOk(d0, bs, o) && RecOk(d', bs, o) && RecLen(d', o) == RecLen(d0, o) && NameAt(d', o) == NameAt(d0, o)
    requires Agree(d, d', 0, o) && SameNames(d0, d, bs, o)
    ensures var e := o + RecLen(d0, o);
            Tiled(d0, bs, 0, e) && Tiled(d', bs, 0, e) && (Named(d0, bs, 0, e, name) <==> Named(d', bs, 0, e, name))
  {
    hide NameAt, Tiled, RecLen, RecOk, Agree, Named;
    RecIn(d0, bs, o);
    RecIn(d', bs, o);
    var e := o + RecLen(d0, o);
    NamedAgree(d, d', bs, 0, o, name);
    OneName(d0, bs, o, name);
    OneName(d', bs, o, name);
    NamedSplit(d0, bs, 0, o, e, name);
    NamedSplit(d', bs, 0, o, e, name);
  }

  lemma RecIn(d: seq<Byte>, bs: nat, o: nat)
    requires RecOk(d, bs, o)
    ensures o + 8 <= |d| && 0 < RecLen(d, o) && o + RecLen(d, o) <= |d|
  {
    assert RecLen(d, o) >= 12;
  }

  lemma AgreeFrom(d: seq<Byte>, d': seq<Byte>, lo: nat, mid: nat, hi: nat)
    requires Agree(d, d', lo, hi) && lo <= mid
    ensures Agree(d, d', mid, hi)
  {
  }

  lemma AgreeSelf(d: seq<Byte>, o: nat)
    requires o <= |d|
    ensures Agree(d, d, 0, o)
  {
  }

  lemma SameNamesStart(d: seq<Byte>, bs: nat)
    ensures SameNames(d, d, bs, 0)
  {
    assert Tiled(d, bs, 0, 0);
  }

  lemma OneName(d: seq<Byte>, bs: nat, o: nat, name: Name)
    requires RecOk(d, bs, o)
    ensures Tiled(d, bs, o, o + RecLen(d, o)) && (Named(d, bs, o, o + RecLen(d, o), name) <==> NameAt(d, o) == name)
  {
    NamedEnd(d, bs, o + RecLen(d, o), name);
  }

  // ---------- Room ----------

  /** Some cleared record from lo on is at least `need` long. */
  ghost predicate HasRoom(d: seq<Byte>, bs: nat, lo: nat, hi: nat, need: nat)
    requires Tiled(d, bs, lo, hi)
    decreases hi - lo
  {
    lo != hi && ((Ino(d, lo) == 0 && RecLen(d, lo) >= need) || HasRoom(d, bs, lo + RecLen(d, lo), hi, need))
  }

  /** A name that records carry and no lookup finds has left room for itself. */
  lemma {:induction false} GoneLeavesRoom(d: seq<Byte>, bs: nat, lo: nat, hi: nat, name: Name)
    requires Tiled(d, bs, lo, hi) && Named(d, bs, lo, hi, name) && Find(d, bs, lo, hi, name) == Absent
    ensures HasRoom(d, bs, lo, hi, Need(|name|))
    decreases hi - lo
  {
    hide Need, Ino, RecLen, NameAt;
    RecIn(d, bs, lo);
    if NameAt(d, lo) == name {
      NameFits(d, bs, lo);
    } else {
      GoneLeavesRoom(d, bs, lo + RecLen(d, lo), hi, name);
    }
  }

  lemma NameFits(d: seq<Byte>, bs: nat, o: nat)
    requires RecOk(d, bs, o)
    ensures o + 8 <= |d| && Need(|NameAt(d, o)|) <= RecLen(d, o)
  {
    assert |NameAt(d, o)| == NameLen(d, o);
  }

  lemma RoomNext(d: seq<Byte>, bs: nat, o: nat, hi: nat, need: nat)
    requires Tiled(d, bs, o, hi) && o < hi
    ensures o + 8 <= |d| && o + RecLen(d, o) <= hi && Tiled(d, bs, o + RecLen(d, o), hi)
    ensures HasRoom(d, bs, o, hi, need) <==> (Ino(d, o) == 0 && RecLen(d, o) >= need) || HasRoom(d, bs, o + RecLen(d, o), hi, need)
  {
  }

  lemma RoomEnd(d: seq<Byte>, bs: nat, o: nat, need: nat)
    ensures Tiled(d, bs, o, o) && !HasRoom(d, bs, o, o, need)
  {
  }

  /** The last record. */
  ghost function Last(d: seq<Byte>, bs: nat, lo: nat, hi: nat): (o: nat)
    requires Tiled(d, bs, lo, hi) && lo < hi
    ensures o + 8 <= |d|
    decreases hi - lo
  {
    if lo + RecLen(d, lo) == hi then lo else Last(d, bs, lo + RecLen(d, lo), hi)
  }

  /** Behind its name the last record has room for a record of `need` bytes. */
  ghost predicate HasSlack(d: seq<Byte>, bs: nat, need: nat)
    requires Tiled(d, bs, 0, |d|)
  {
    d != [] && var o := Last(d, bs, 0, |d|); RecLen(d, o) >= Need(NameLen(d, o)) + need
  }

  lemma {:induction false} LastIs(d: seq<Byte>, bs: nat, lo: nat, o: nat, hi: nat)
    requires Tiled(d, bs, lo, hi) && lo < hi && Tiled(d, bs, lo, o) && RecOk(d, bs, o) && o + RecLen(d, o) == hi
    ensures Last(d, bs, lo, hi) == o
    decreases o - lo
  {
    hide RecOk, RecLen;
    RecIn(d, bs, o);
    if lo != o {
      RecIn(d, bs, lo);
      TiledOrder(d, bs, lo + RecLen(d, lo), o);
      LastIs(d, bs, lo + RecLen(d, lo), o, hi);
    }
  }

  // ---------- Records in bytes ----------

  /** Inode, record length, name length, file type and name of a record, as the bytes they are. */
  function Raw(i0: Byte, i1: Byte, i2: Byte, i3: Byte, l0: Byte, l1: Byte, kind: Byte, name: Name): seq<Byte>
    requires |name| < 256
  {
    [i0, i1, i2, i3, l0, l1, |name| as Byte, kind] + name
  }

  /** What the bytes of a record say. */
  lemma RawReads(d: seq<Byte>, o: nat, i0: Byte, i1: Byte, i2: Byte, i3: Byte, l0: Byte, l1: Byte, kind: Byte, name: Name)
    requires |name| < 256 && o + 8 + |name| <= |d| && d[o..o + 8 + |name|] == Raw(i0, i1, i2, i3, l0, l1, kind, name)
    ensures RecLen(d, o) == l0 as nat + 256 * l1 as nat && NameLen(d, o) == |name| && NameAt(d, o) == name
    ensures var ino := i0 as nat + 256 * i1 as nat + 65536 * i2 as nat + 16777216 * i3 as nat;
            Here(d, o, name) == if ino != 0 then Present(ino, kind) else Absent
  {
    var r := Raw(i0, i1, i2, i3, l0, l1, kind, name);
    assert forall i :: 0 <= i < 8 + |name| ==> d[o + i] == r[i];
    assert d[o + 8..o + 8 + |name|] == name;
  }

  /** What is written for an entry. */
  lemma RawWrites(d: seq<Byte>, o: nat, ino: nat, len: nat, kind: Byte, name: Name)
    requires o + 8 + |name| <= |d| && ino < U32 && len < 65536 && |name| < 256
    ensures var r := SetRec(d, o, ino, len, kind, name);
            && r[o..o + 8 + |name|]
                 == Raw((ino % 256) as Byte, (ino / 256 % 256) as Byte, (ino / 65536 % 256) as Byte, (ino / 16777216) as Byte,
                        (len % 256) as Byte, (len / 256) as Byte, kind, name)
            && r[..o] == d[..o] && r[o + 8 + |name|..] == d[o + 8 + |name|..]
  {
  }
}
