/** Listing a directory: ext4_readdir of src/fs/ext4/ext4.c and the conversion to variable-length
    records in sys_getdents of src/syscall/syscall.c. */
module Getdents {
  import Bits
  import opened Bytes
  import opened Lists
  import opened DirState
  import opened Ext4Dir

  const DIRENT: nat := 280              // sizeof(struct dirent)
  const KBUF: nat := 4096

  /** A live entry: its inode, where the next record starts, its type and its name. */
  datatype Ent = Ent(ino: nat, next: nat, kind: Byte, name: Name)

  /** The live, named entries from lo up to hi, in order. */
  ghost function Listing(d: seq<Byte>, bs: nat, lo: nat, hi: nat): seq<Ent>
    requires Tiled(d, bs, lo, hi)
    decreases hi - lo
  {
    if lo == hi then []
    else if Ino(d, lo) != 0 && NameLen(d, lo) > 0 then
      [Ent(Ino(d, lo), lo + RecLen(d, lo), Kind(d, lo), NameAt(d, lo))] + Listing(d, bs, lo + RecLen(d, lo), hi)
    else Listing(d, bs, lo + RecLen(d, lo), hi)
  }

  /** What the first entry of a name in a list says. */
  function FirstOf(es: seq<Ent>, name: Name): Entry {
    if es == [] then Absent else if es[0].name == name then Present(es[0].ino, es[0].kind) else FirstOf(es[1..], name)
  }

  /** What the listing shows under a name is what the name stands for. */
  lemma {:induction false} ListingFinds(d: seq<Byte>, bs: nat, lo: nat, hi: nat, name: Name)
    requires Tiled(d, bs, lo, hi) && name != []
    ensures FirstOf(Listing(d, bs, lo, hi), name) == Find(d, bs, lo, hi, name)
    decreases hi - lo
  {
    if lo != hi {
      assert RecOk(d, bs, lo);
      var rest := Listing(d, bs, lo + RecLen(d, lo), hi);
      ListingFinds(d, bs, lo + RecLen(d, lo), hi, name);
      assert |NameAt(d, lo)| == NameLen(d, lo);
      if Ino(d, lo) != 0 && NameLen(d, lo) > 0 {
        var e := Ent(Ino(d, lo), lo + RecLen(d, lo), Kind(d, lo), NameAt(d, lo));
        assert ([e] + rest)[1..] == rest;
      }
    }
  }

  lemma ListingNext(d: seq<Byte>, bs: nat, o: nat, hi: nat)
    requires Tiled(d, bs, o, hi) && o < hi
    ensures RecOk(d, bs, o) && o + 8 <= |d| && 0 < RecLen(d, o) && o + RecLen(d, o) <= hi && Tiled(d, bs, o + RecLen(d, o), hi)
    ensures |NameAt(d, o)| == NameLen(d, o)
    ensures Listing(d, bs, o, hi)
         == (if Ino(d, o) != 0 && NameLen(d, o) > 0 then [Ent(Ino(d, o), o + RecLen(d, o), Kind(d, o), NameAt(d, o))] else [])
            + Listing(d, bs, o + RecLen(d, o), hi)
  {
    assert RecOk(d, bs, o);
  }

  // ---------- Records ----------

  /** n in k bytes, little endian, and back. */
  function Le(n: nat, k: nat): (s: seq<Byte>)
    ensures |s| == k
    decreases k
  {
    if k == 0 then [] else [(n % 256) as Byte] + Le(n / 256, k - 1)
  }

  function UnLe(s: seq<Byte>): nat { if s == [] then 0 else s[0] as nat + 256 * UnLe(s[1..]) }

  lemma {:induction false} LeRoundTrip(n: nat, k: nat)
    requires n < Pow256(k)
    ensures UnLe(Le(n, k)) == n
    decreases k
  {
    if k > 0 {
      LeRoundTrip(n / 256, k - 1);
      assert Le(n, k)[1..] == Le(n / 256, k - 1);
    }
  }

  /** EXT4_FT_* to DT_* */
  function LinuxType(kind: Byte): Byte { if kind == 1 then 8 else if kind == 2 then 4 else if kind == 7 then 10 else 0 }

  /** Nineteen bytes of header, the name and its NUL, rounded up to eight. */
  function RecSize(n: nat): (r: nat)
    ensures r % 8 == 0 && r >= n + 20 && (n < 256 ==> r <= DIRENT)
  {
    (19 + n + 1 + 7) / 8 * 8
  }

  ghost predicate EntOk(e: Ent) {
    e.ino < Pow256(8) && e.next < Pow256(8) && 0 < |e.name| < 256
  }

  /** What the user is shown of a name: the bytes before the first NUL. */
  function CStr(s: seq<Byte>): (r: seq<Byte>)
    ensures |r| <= |s| && r == s[..|r|] && (forall i :: 0 <= i < |r| ==> r[i] != 0) && (|r| < |s| ==> s[|r|] == 0)
  {
    if s == [] || s[0] == 0 then [] else [s[0]] + CStr(s[1..])
  }

  /** A name is shown whole if and only if it has no NUL. */
  lemma ShownWhole(s: seq<Byte>)
    ensures CStr(s) == s <==> 0 !in s
  {
    hide CStr;
    var r := CStr(s);
    assert |r| < |s| ==> s[|r|] in s;
    assert |r| == |s| ==> r == s;
  }

  function Encode(e: Ent): (r: seq<Byte>)
    ensures |r| == RecSize(|CStr(e.name)|)
  {
    var s := CStr(e.name);
    Le(e.ino, 8) + Le(e.next, 8) + Le(RecSize(|s|), 2) + [LinuxType(e.kind)] + s + Zeros(RecSize(|s|) - 19 - |s|)
  }

  function EncodeAll(es: seq<Ent>): seq<Byte> { if es == [] then [] else EncodeAll(es[..|es| - 1]) + Encode(es[|es| - 1]) }

  /** What a reader of a record sees. */
  datatype Seen = Seen(ino: nat, next: nat, kind: Byte, name: Name)

  function View(e: Ent): Seen { Seen(e.ino, e.next, LinuxType(e.kind), CStr(e.name)) }

  /** Walking a buffer of records by their lengths. */
  function Walk(b: seq<Byte>): seq<Seen>
    decreases |b|
  {
    if |b| < 20 then []
    else
      var l := UnLe(b[16..18]);
      if l < 20 || l > |b| then []
      else [Seen(UnLe(b[0..8]), UnLe(b[8..16]), b[18], CStr(b[19..l]))] + Walk(b[l..])
  }

  lemma {:induction false} CStrName(s: seq<Byte>, n: nat)
    requires n > 0 && forall i :: 0 <= i < |s| ==> s[i] != 0
    ensures CStr(s + Zeros(n)) == s
  {
    var t := s + Zeros(n);
    if s != [] {
      assert t[1..] == s[1..] + Zeros(n);
      CStrName(s[1..], n);
    }
  }

  lemma TwoBytes()
    ensures Pow256(0) == 1 && Pow256(1) == 256 && Pow256(2) == 65536
  {
    assert Pow256(1) == 256;
  }

  lemma EncodeFields(e: Ent)
    requires EntOk(e)
    ensures var b, l := Encode(e), RecSize(|CStr(e.name)|);
            && 20 <= l && UnLe(b[16..18]) == l && UnLe(b[0..8]) == e.ino && UnLe(b[8..16]) == e.next && b[18] == LinuxType(e.kind)
            && CStr(b[19..l]) == CStr(e.name)
  {
    hide Le, UnLe, CStr, RecSize, LinuxType, Pow256;
    var s := CStr(e.name);
    var l := RecSize(|s|);
    LeRoundTrip(e.ino, 8);
    LeRoundTrip(e.next, 8);
    TwoBytes();
    LeRoundTrip(l, 2);
    CStrName(s, l - 19 - |s|);
    Fields(Le(e.ino, 8), Le(e.next, 8), Le(l, 2), LinuxType(e.kind), s + Zeros(l - 19 - |s|));
    Assoc(Le(e.ino, 8) + Le(e.next, 8) + Le(l, 2) + [LinuxType(e.kind)], s, Zeros(l - 19 - |s|));
  }

  lemma {:induction false} LeAt(n: nat, k: nat, i: nat)
    requires i < k
    ensures Le(n, k)[i] as nat == n / Pow256(i) % 256
    decreases k
  {
    if i > 0 {
      LeAt(n / 256, k - 1, i - 1);
      Bits.ByteDiv(n, Pow256(i - 1));
    }
  }

  /** The bytes of a record of struct linux_dirent64: inode and offset in eight bytes each, the length of the
      record in two, low bytes first, the type in one, the name up to its first NUL, and NULs up to the next
      multiple of eight, at least one. */
  lemma RecordBytes(e: Ent)
    ensures var b, s := Encode(e), CStr(e.name);
            && |b| % 8 == 0 && |s| + 20 <= |b| < |s| + 28
            && Digits256(b[0..8], e.ino) && Digits256(b[8..16], e.next) && Digits256(b[16..18], |b|)
            && b[18] == (if e.kind == 1 then 8 else if e.kind == 2 then 4 else if e.kind == 7 then 10 else 0)
            && b[19..19 + |s|] == s && forall i :: 19 + |s| <= i < |b| ==> b[i] == 0
  {
    hide CStr, Le, Digits256;
    var s := CStr(e.name);
    var l := RecSize(|s|);
    assert l == (|s| + 27) / 8 * 8;
    hide RecSize;
    var a, b, c, k, z := Le(e.ino, 8), Le(e.next, 8), Le(l, 2), LinuxType(e.kind), Zeros(l - 19 - |s|);
    LeDigits(e.ino, 8);
    LeDigits(e.next, 8);
    LeDigits(l, 2);
    Assoc(a + b + c + [k], s, z);
    Fields(a, b, c, k, s + z);
    var r := Encode(e);
    hide Encode;
    assert r[19..] == s + z;
    assert forall i :: 19 <= i < |r| ==> r[i] == (s + z)[i - 19];
  }

  /** The bytes are the digits of n to base 256, the lowest first. */
  ghost predicate Digits256(b: seq<Byte>, n: nat) { forall i :: 0 <= i < |b| ==> b[i] as nat == n / Pow256(i) % 256 }

  lemma LeDigits(n: nat, k: nat)
    ensures Digits256(Le(n, k), n)
  {
    hide Le, Pow256;
    forall i | 0 <= i < k ensures Le(n, k)[i] as nat == n / Pow256(i) % 256 { LeAt(n, k, i); }
  }

  lemma Fields(a: seq<Byte>, b: seq<Byte>, c: seq<Byte>, k: Byte, s: seq<Byte>)
    requires |a| == 8 && |b| == 8 && |c| == 2
    ensures var r := a + b + c + [k] + s;
            r[0..8] == a && r[8..16] == b && r[16..18] == c && r[18] == k && r[19..] == s && r[19..|r|] == s
  {
  }

  lemma WalkOne(e: Ent, rest: seq<Byte>)
    requires EntOk(e)
    ensures Walk(Encode(e) + rest) == [View(e)] + Walk(rest)
  {
    var b, l := Encode(e), RecSize(|CStr(e.name)|);
    EncodeFields(e);
    hide Encode, Le, UnLe, CStr, RecSize;
    SliceLeft(b, rest, 16, 18);
    SliceLeft(b, rest, 0, 8);
    SliceLeft(b, rest, 8, 16);
    SliceLeft(b, rest, 19, l);
    assert (b + rest)[l..] == rest;
  }

  lemma SliceLeft(b: seq<Byte>, rest: seq<Byte>, i: nat, j: nat)
    requires i <= j <= |b|
    ensures (b + rest)[i..j] == b[i..j]
  {
  }

  function Views(es: seq<Ent>): seq<Seen> { if es == [] then [] else Views(es[..|es| - 1]) + [View(es[|es| - 1])] }

  /** Walking by record length recovers every inode, type and name, in order. */
  lemma {:induction false} WalkAll(es: seq<Ent>, rest: seq<Byte>)
    requires forall i :: 0 <= i < |es| ==> EntOk(es[i])
    ensures Walk(EncodeAll(es) + rest) == Views(es) + Walk(rest)
    decreases |es|
  {
    if es == [] {
      assert EncodeAll(es) + rest == rest;
    } else {
      var init, e := es[..|es| - 1], es[|es| - 1];
      hide Walk, Encode, View;
      Assoc(EncodeAll(init), Encode(e), rest);
      WalkAll(init, Encode(e) + rest);
      WalkOne(e, rest);
      Assoc(Views(init), [View(e)], Walk(rest));
    }
  }

  lemma {:induction false} ViewsAppend(a: seq<Ent>, b: seq<Ent>)
    ensures Views(a + b) == Views(a) + Views(b)
    decreases |b|
  {
    if b == [] {
      assert a + b == a;
    } else {
      var n := |b| - 1;
      hide View;
      assert (a + b)[..|a + b| - 1] == a + b[..n] && (a + b)[|a + b| - 1] == b[n];
      ViewsAppend(a, b[..n]);
      Assoc(Views(a), Views(b[..n]), [View(b[n])]);
    }
  }

  // ---------- The calls ----------

  /** strlen of a NUL-terminated string. */
  method StrLen(s: seq<Byte>) returns (n: nat)
    requires 0 in s
    ensures n < |s| && s[n] == 0 && forall i :: 0 <= i < n ==> s[i] != 0
  {
    n := 0;
    while s[n] != 0
      invariant n < |s| && forall i :: 0 <= i < n ==> s[i] != 0
      decreases |s| - n
    {
      n := n + 1;
    }
  }

  /** The conversion loop of sys_getdents: every entry becomes one record; none is dropped for want of
      room, since a record is never longer than a struct dirent. */
  method Convert(es: seq<Ent>, count: nat) returns (out: seq<Byte>)
    requires |es| * DIRENT <= count && forall i :: 0 <= i < |es| ==> EntOk(es[i])
    ensures out == EncodeAll(es) && |out| <= count
  {
    hide Encode, RecSize, CStr;
    out := [];
    var i := 0;
    while i < |es|
      invariant 0 <= i <= |es| && |out| <= i * DIRENT && out == EncodeAll(es[..i])
    {
      var e := es[i];
      assert EntOk(e) && es[..i + 1] == es[..i] + [e];
      var nlen := StrLen(e.name + [0]);
      assert nlen == |CStr(e.name)| by { NameEnds(e.name, nlen); }
      var reclen := RecSize(nlen);
      assert (i + 1) * DIRENT <= |es| * DIRENT && (i + 1) * DIRENT == i * DIRENT + DIRENT;
      if |out| + reclen > count {
        assert false;
        break;
      }
      out := out + Encode(e);
      i := i + 1;
    }
    assert es[..i] == es;
  }

  lemma NameEnds(name: Name, n: nat)
    requires n < |name| + 1 && (name + [0])[n] == 0 && forall i :: 0 <= i < n ==> (name + [0])[i] != 0
    ensures n == |CStr(name)|
  {
    var s := CStr(name);
    assert |s| < |name| ==> (name + [0])[|s|] == 0;
    assert forall i :: 0 <= i < |s| ==> s[i] == name[i] == (name + [0])[i];
  }

  /** An open directory that does not change. */
  class DirStream {
    const data: seq<Byte>
    const bs: nat
    var pos: nat

    /** Opened at the start; the size has 64 bits. */
    constructor (data: seq<Byte>, bs: nat)
      requires DirOk(data, bs) && |data| < Pow256(8)
      ensures this.data == data && this.bs == bs && Valid() && Rest() == Listing(data, bs, 0, |data|)
    {
      this.data, this.bs, pos := data, bs, 0;
    }

    /** What is still to be listed. */
    ghost predicate Valid()
      reads this
    {
      pos <= |data| < Pow256(8) && Tiled(data, bs, pos, |data|)
    }

    ghost function Rest(): seq<Ent>
      requires Valid()
      reads this
    {
      Listing(data, bs, pos, |data|)
    }

    /** ext4_readdir: the next entries, as many as fit; fewer only when they are all. */
    method Readdir(count: nat) returns (out: seq<Ent>)
      requires Valid()
      modifies this
      ensures Valid() && old(Rest()) == out + Rest() && |out| * DIRENT <= count && old(pos) <= pos
      ensures |out| * DIRENT + DIRENT > count || Rest() == []
      ensures forall i :: 0 <= i < |out| ==> EntOk(out[i])
    {
      hide Ino, RecLen, NameLen, NameAt, Kind, EntOk, Tiled, Listing;
      ghost var all := Rest();
      out := [];
      ListingEnd(data, bs, |data|);
      if pos >= |data| { return; }
      var off := pos;
      while off < |data| && |out| * DIRENT + DIRENT <= count
        invariant pos == old(pos) && pos <= off <= |data| && Tiled(data, bs, off, |data|)
        invariant |out| * DIRENT <= count && all == out + Listing(data, bs, off, |data|)
        decreases |data| - off
      {
        ListingNext(data, bs, off, |data|);
        if Ino(data, off) != 0 {
          if NameLen(data, off) > 0 {
            ghost var before := out;
            var e := Ent(Ino(data, off), off + RecLen(data, off), Kind(data, off), NameAt(data, off));
            out := out + [e];
            Assoc(before, [e], Listing(data, bs, off + RecLen(data, off), |data|));
          }
        }
        off := off + RecLen(data, off);
      }
      ListingOk(data, bs, pos, |data|);
      pos := off;
      forall i | 0 <= i < |out| ensures EntOk(out[i]) { assert out[i] == all[i]; }
    }

    /** sys_getdents: the records of the next entries.  With room for one struct dirent it returns
        nothing only at the end of the directory. */
    method Getdents(count: nat) returns (out: seq<Byte>, ghost es: seq<Ent>)
      requires Valid()
      modifies this
      ensures Valid() && old(Rest()) == es + Rest() && old(pos) <= pos
      ensures out == EncodeAll(es) && Walk(out) == Views(es) && |out| <= count
      ensures count >= DIRENT && es == [] ==> Rest() == []
      ensures out == [] <==> es == []
    {
      var kcount := if count < KBUF then count else KBUF;
      hide Walk, EncodeAll, Views, EntOk, Listing, Tiled;
      var ents := Readdir(kcount);
      es := ents;
      out := Convert(ents, count);
      WalkBack(es);
    }
  }

  /** What is written for the entries is read back as them. */
  lemma WalkBack(es: seq<Ent>)
    requires forall i :: 0 <= i < |es| ==> EntOk(es[i])
    ensures Walk(EncodeAll(es)) == Views(es) && (EncodeAll(es) == [] <==> es == [])
  {
    WalkAll(es, []);
    assert EncodeAll(es) + [] == EncodeAll(es) && Views(es) + Walk([]) == Views(es);
    if es != [] { assert |Encode(es[|es| - 1])| > 0; }
  }

  /** The fields of every entry fit their records. */
  lemma {:induction false} ListingOk(d: seq<Byte>, bs: nat, lo: nat, hi: nat)
    requires Tiled(d, bs, lo, hi) && hi < Pow256(8)
    ensures forall i :: 0 <= i < |Listing(d, bs, lo, hi)| ==> EntOk(Listing(d, bs, lo, hi)[i])
    decreases hi - lo
  {
    if lo != hi {
      TiledOrder(d, bs, lo, hi);
      ListingNext(d, bs, lo, hi);
      ListingOk(d, bs, lo + RecLen(d, lo), hi);
      assert U32 < Pow256(8) by { assert Pow256(4) == U32 && Pow256(8) == 256 * (256 * (256 * (256 * Pow256(4)))); }
    }
  }

  lemma ListingEnd(d: seq<Byte>, bs: nat, o: nat)
    ensures Tiled(d, bs, o, o) && Listing(d, bs, o, o) == []
  {
  }

  /** Calling getdents until it returns nothing lists every live entry exactly once, in order. */
  method ListAll(s: DirStream, count: nat) returns (all: seq<Seen>)
    requires s.Valid() && count >= DIRENT
    modifies s
    ensures all == Views(old(s.Rest()))
  {
    hide Views, Walk, EncodeAll, Listing, Tiled, EntOk;
    all := [];
    ghost var was := s.Rest();
    ghost var seen: seq<Ent> := [];
    ViewsNone();
    var more := true;
    while more
      invariant s.Valid() && was == seen + s.Rest() && all == Views(seen) && (!more ==> s.Rest() == [])
      decreases |s.Rest()|, more
    {
      ghost var rest := s.Rest();
      ghost var es;
      var out;
      out, es := s.Getdents(count);
      ViewsAppend(seen, es);
      Assoc(seen, es, s.Rest());
      all := all + Walk(out);
      seen := seen + es;
      more := out != [];
    }
    assert seen == was;
  }

  lemma ViewsNone()
    ensures Views([]) == []
  {
  }

  // ---------- From an entry to the listing ----------

  lemma {:induction false} ViewsAt(es: seq<Ent>, i: nat)
    requires i < |es|
    ensures |Views(es)| == |es| && Views(es)[i] == View(es[i])
    decreases |es|
  {
    hide View;
    if |es| > 1 { ViewsAt(es[..|es| - 1], if i < |es| - 1 then i else 0); }
  }

  lemma {:induction false} FirstOfAt(es: seq<Ent>, name: Name) returns (i: nat)
    requires FirstOf(es, name).Present?
    ensures i < |es| && es[i].name == name && Present(es[i].ino, es[i].kind) == FirstOf(es, name)
  {
    if es[0].name == name {
      i := 0;
    } else {
      i := FirstOfAt(es[1..], name);
      i := i + 1;
    }
  }

  /** A new directory with one entry: the listing shows its inode, its type as Linux numbers it, and the
      name up to its first NUL.  That name is found if and only if it is the whole name. */
  method AddThenList(bs: nat, ino: nat, name: Name, kind: Byte) returns (all: seq<Seen>, found: nat)
    requires 1024 <= bs <= 32768 && bs % 4 == 0 && 0 < ino < U32 && 0 < |name| < 256
    ensures exists e :: e in all && e.ino == ino && e.name == CStr(name)
              && e.kind == if kind == 1 then 8 else if kind == 2 then 4 else if kind == 7 then 10 else 0
    ensures found == if 0 in name then 0 else ino
  {
    hide DirOk, Find, Named, Tiled, CStr, Listing, Views, HasRoom, Need;
    var d := new Directory(bs);
    var ret := d.AddEntry(ino, name, kind, true);
    AddedIsFound(d.data, bs, Present(ino, kind), name);
    ShownWhole(name);
    found := d.Lookup(CStr(name));
    SizeFits(bs);
    DirTiled(d.data, bs);
    var s := new DirStream(d.data, bs);
    ghost var es := s.Rest();
    ListingFinds(d.data, bs, 0, |d.data|, name);
    ghost var i := FirstOfAt(es, name);
    ViewsAt(es, i);
    all := ListAll(s, KBUF);
    assert all[i] in all;
  }

  lemma SizeFits(n: nat)
    requires n <= 32768
    ensures n < Pow256(8)
  {
    assert Pow256(2) == 256 * (256 * Pow256(0)) && Pow256(8) >= Pow256(2);
  }
}
