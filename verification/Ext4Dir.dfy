/** src/fs/ext4/ext4.c: looking up, adding, unlinking and renaming directory entries.

    The directory's data is taken as its blocks in order; ReadData and WriteFile of the file model give
    and take them.  `grow` says whether a block could be appended to the directory: AppendBlock of the
    file model does it, and says exactly when it can. */
module Ext4Dir {
  import opened Bytes
  import opened DirState
  import Bits

  const ENOENT: int := 2
  const ENOSPC: int := 28
  const FT_REG_FILE: Byte := 1
  const FT_DIR: Byte := 2

  class Directory {
    var data: seq<Byte>
    var bs: nat

    ghost predicate Valid()
      reads this
    {
      DirOk(data, bs)
    }

    /** A directory without blocks. */
    constructor (bs: nat)
      requires 1024 <= bs <= 32768 && bs % 4 == 0
      ensures Valid() && data == [] && this.bs == bs && forall n: Name :: View(n) == Absent
    {
      EmptyDir(bs);
      hide DirOk, Find;
      data, this.bs := [], bs;
    }

    /** What the name stands for. */
    ghost function View(name: Name): Entry
      requires Valid()
      reads this
    {
      Find(data, bs, 0, |data|, name)
    }

    /** Some record carries the name, live or cleared. */
    ghost predicate Carried(name: Name)
      requires Valid()
      reads this
    {
      Named(data, bs, 0, |data|, name)
    }

    /** Some cleared record is at least `need` long. */
    ghost predicate Room(need: nat)
      requires Valid()
      reads this
    {
      HasRoom(data, bs, 0, |data|, need)
    }

    /** The last record has room for `need` bytes behind its name. */
    ghost predicate Slack(need: nat)
      requires Valid()
      reads this
    {
      HasSlack(data, bs, need)
    }

    /** ext4_dir_lookup: the inode number, 0 for none. */
    method Lookup(name: Name) returns (ino: nat)
      requires Valid()
      ensures ino == View(name).Num()
    {
      hide Ino, NameAt;
      var offset := 0;
      while offset < |data|
        invariant 0 <= offset <= |data| && Tiled(data, bs, offset, |data|)
        invariant Find(data, bs, 0, |data|, name) == Find(data, bs, offset, |data|, name)
        decreases |data| - offset
      {
        if Ino(data, offset) != 0 && NameAt(data, offset) == name { return Ino(data, offset); }
        offset := offset + RecLen(data, offset);
      }
      ino := 0;
    }

    /** ext4_unlink: every record of the name is cleared, and keeps the name.  It fails only if no record,
        not even a cleared one, carries the name. */
    method Unlink(name: Name) returns (ret: int)
      requires Valid()
      modifies this`data
      ensures Valid() && (ret == 0 || ret == -ENOENT)
      ensures ret == 0 <==> Named(old(data), bs, 0, |old(data)|, name)
      ensures Removes(old(data), data, bs, name)
      ensures ret == -ENOENT ==> data == old(data)
      ensures forall n: Name :: Carried(n) <==> old(Carried(n))
    {
      hide Ino, NameAt, Unlinking, Removes, ClearIno, NameLen, Tiled, Named, Find, RecOk, RecLen, DirOk, SameNames;
      DirTiled(data, bs);
      ghost var d0 := data;
      UnlinkStart(d0, bs, name);
      NamedEnd(d0, bs, |d0|, name);
      SameNamesStart(d0, bs);
      var buf, offset, found, modified := data, 0, false, false;
      while offset < |buf|
        invariant data == d0 && |buf| == |d0| && 0 <= offset <= |buf| && Tiled(d0, bs, offset, |d0|)
        invariant Unlinking(d0, buf, bs, offset, name) && (!modified ==> buf == d0) && (modified ==> found)
        invariant SameNames(d0, buf, bs, offset)
        invariant Named(d0, bs, 0, |d0|, name) <==> found || Named(d0, bs, offset, |d0|, name)
        decreases |buf| - offset
      {
        NamedNext(d0, bs, offset, |d0|, name);
        UnlinkRec(d0, buf, bs, offset, name);
        UnlinkStep(d0, buf, bs, offset, name);
        SameNamesStep(d0, buf, bs, offset, name);
        var next := offset + RecLen(buf, offset);
        var hit, changed;
        buf, hit, changed := ClearMatch(buf, offset, name);
        found, modified, offset := found || hit, modified || changed, next;
      }
      UnlinkEnd(d0, buf, bs, name);
      SameNamesEnd(d0, buf, bs);
      if !found { return -ENOENT; }
      if modified { data := buf; }
      ret := 0;
    }

    /** ext4_add_dir_entry: into the first cleared record that is large enough, else into the room
        behind the last record, else into a new block; with the inode and the type given.  It fails exactly if
        none of these is to be had. */
    method AddEntry(ino: nat, name: Name, kind: Byte, grow: bool) returns (ret: int)
      requires Valid() && 0 < ino < U32 && |name| < 256
      modifies this`data
      ensures Valid() && (ret == 0 || ret == -ENOSPC)
      ensures ret == 0 ==> Adds(old(data), data, bs, Present(ino, kind), name)
      ensures ret != 0 <==> !grow && !old(Room(Need(|name|))) && !old(Slack(Need(|name|)))
      ensures ret != 0 ==> data == old(data)
      ensures ret == 0 ==> |data| == |old(data)| + if old(Room(Need(|name|))) || old(Slack(Need(|name|))) then 0 else bs
    {
      hide Ino, NameAt, Adds, SetRec, SplitRec, NewBlock, Tiled, Find, RecOk, RecLen, NameLen, Need, DirOk, OffIn, Scanned, HasRoom,
           HasSlack;
      ghost var d0 := data;
      DirTiled(d0, bs);
      RoomEnd(d0, bs, |d0|, Need(|name|));
      var need := Need(|name|);
      var offset: nat, lastOff: nat := 0, 0;
      AddStart(data, bs);
      while offset < |data|
        invariant data == d0 && 0 <= offset <= |data| && Scanned(data, bs, offset, lastOff)
        invariant Tiled(d0, bs, offset, |d0|) && (HasRoom(d0, bs, 0, |d0|, need) <==> HasRoom(d0, bs, offset, |d0|, need))
        decreases |data| - offset
      {
        ghost var start := offset;
        var blockOff := OffIn(offset, bs);
        while blockOff < bs && offset < |data|
          invariant data == d0 && start <= offset <= |data| && Scanned(data, bs, offset, lastOff)
          invariant Tiled(d0, bs, offset, |d0|) && (HasRoom(d0, bs, 0, |d0|, need) <==> HasRoom(d0, bs, offset, |d0|, need))
          invariant offset == start ==> blockOff < bs
          invariant blockOff < bs ==> blockOff == OffIn(offset, bs)
          decreases |data| - offset
        {
          AddHere(data, bs, offset, lastOff, name);
          RoomNext(d0, bs, offset, |d0|, need);
          if Ino(data, offset) == 0 && RecLen(data, offset) >= need {
            Reuses(data, bs, offset, ino, kind, name);
            data := SetRec(data, offset, ino, RecLen(data, offset), kind, name);
            return 0;
          }
          var l := RecLen(data, offset);
          lastOff, blockOff, offset := offset, blockOff + l, offset + l;
        }
      }
      if offset > 0 {
        AddLast(data, bs, offset, lastOff);
        SlackIs(data, bs, lastOff, need);
        var actual := Need(NameLen(data, lastOff));
        var remain := RecLen(data, lastOff) - actual;
        if remain >= need {
          Splits(data, bs, lastOff, ino, kind, name);
          data := SplitRec(data, lastOff, ino, kind, name);
          return 0;
        }
      }
      NoSlack(data, bs, need);
      if !grow { return -ENOSPC; }
      Appends(data, bs, ino, kind, name);
      data := data + NewBlock(bs, ino, kind, name);
      ret := 0;
    }

    /** ext4_rename within a directory.  Renaming a name to itself loses it; otherwise the inode moves
        from the old name to the new one, as a directory or as a regular file.  A rename that fails has
        changed nothing: what the new name stood for leaves room for the new entry when it is removed. */
    method Rename(oldName: Name, newName: Name, ino: nat, isDir: bool, grow: bool) returns (ret: int)
      requires Valid() && 0 < ino < U32 && |newName| < 256 && View(oldName).Num() == ino
      modifies this`data
      ensures Valid() && (ret == 0 || ret == -ENOSPC)
      ensures grow ==> ret == 0
      ensures ret == 0 ==> View(oldName) == Absent
      ensures ret == 0 && newName != oldName ==> View(newName) == Present(ino, if isDir then 2 else 1)
      ensures ret != 0 <==> && !grow && old(View(newName)) == Absent
                            && !old(Room(Need(|newName|))) && !old(Slack(Need(|newName|)))
      ensures ret != 0 ==> data == old(data)
      ensures forall n: Name :: n != oldName && n != newName ==> View(n) == old(View(n))
    {
      hide DirOk, Find, Named, Tiled, HasRoom, HasSlack, Need;
      ghost var d0 := data;
      var kind: Byte := if isDir then FT_DIR else FT_REG_FILE;
      var existing := Lookup(newName);
      if existing != 0 {
        FoundHere(data, bs, newName);
        assert Carried(newName);
        var r := Unlink(newName);
        assert Carried(newName);
        LeavesRoom(data, bs, newName);
      }
      ghost var d1 := data;
      ret := AddEntry(ino, newName, kind, grow);
      if ret < 0 { return; }
      ghost var d2 := data;
      RenameAdded(d0, d1, d2, bs, Present(ino, kind), oldName, newName);
      FoundHere(data, bs, oldName);
      ret := Unlink(oldName);
    }
  }

  /** An entry that is added and unlinked is gone, and unlinking it once more is reported as a success. */
  method UnlinkTwice(bs: nat, ino: nat, name: Name, kind: Byte) returns (d: Directory, first: int, second: int)
    requires 1024 <= bs <= 32768 && bs % 4 == 0 && 0 < ino < U32 && |name| < 256
    ensures fresh(d) && d.Valid() && d.View(name) == Absent && first == 0 && second == 0
  {
    hide DirOk, Find, Named, Tiled;
    d := new Directory(bs);
    var ret := d.AddEntry(ino, name, kind, true);
    AddedIsFound(d.data, bs, Present(ino, kind), name);
    FoundHere(d.data, bs, name);
    assert d.Carried(name);
    first := d.Unlink(name);
    assert d.Carried(name);
    second := d.Unlink(name);
  }

  lemma AddedIsFound(d: seq<Byte>, bs: nat, e: Entry, name: Name)
    requires DirOk([], bs) && DirOk(d, bs) && Adds([], d, bs, e, name) && e.Present?
    ensures Find(d, bs, 0, |d|, name) == e && forall n: Name :: n != name ==> Find(d, bs, 0, |d|, n) == Absent
  {
    forall n: Name ensures AddsFor(Find([], bs, 0, 0, n), Find(d, bs, 0, |d|, n), e, n == name) {}
  }

  lemma SameNamesEnd(d0: seq<Byte>, d: seq<Byte>, bs: nat)
    requires DirOk(d0, bs) && DirOk(d, bs) && |d| == |d0| && SameNames(d0, d, bs, |d|)
    ensures forall n: Name :: Named(d, bs, 0, |d|, n) <==> Named(d0, bs, 0, |d0|, n)
  {
    hide Tiled, Named;
  }

  lemma LeavesRoom(d: seq<Byte>, bs: nat, name: Name)
    requires DirOk(d, bs) && Named(d, bs, 0, |d|, name) && Find(d, bs, 0, |d|, name) == Absent
    ensures HasRoom(d, bs, 0, |d|, Need(|name|))
  {
    GoneLeavesRoom(d, bs, 0, |d|, name);
  }

  /** A name renamed to itself is gone. */
  method RenameToItself(bs: nat, ino: nat, name: Name, kind: Byte) returns (d: Directory, ret: int)
    requires 1024 <= bs <= 32768 && bs % 4 == 0 && 0 < ino < U32 && |name| < 256
    ensures fresh(d) && d.Valid() && ret == 0 && d.View(name) == Absent
  {
    hide DirOk, Find, Named, Tiled, HasRoom, Need;
    d := new Directory(bs);
    ret := d.AddEntry(ino, name, kind, true);
    AddedIsFound(d.data, bs, Present(ino, kind), name);
    ret := d.Rename(name, name, ino, kind == FT_DIR, true);
  }

  /** An entry renamed to another name has the inode it had; its type, too, if and only if it was that of a
      directory or of a regular file, as its inode says it is.  A symbolic link comes out as a regular file. */
  method RenameKind(bs: nat, ino: nat, name: Name, kind: Byte, isDir: bool, newName: Name) returns (d: Directory, ret: int)
    requires 1024 <= bs <= 32768 && bs % 4 == 0 && 0 < ino < U32 && |name| < 256 && |newName| < 256 && newName != name
    ensures fresh(d) && d.Valid() && ret == 0 && d.View(newName).Present? && d.View(newName).ino == ino
    ensures d.View(newName).kind == kind <==> kind == if isDir then 2 else 1
    ensures kind == 7 ==> d.View(newName).kind in {1, 2}
  {
    hide DirOk, Find, Named, Tiled, HasRoom, Need;
    d := new Directory(bs);
    ret := d.AddEntry(ino, name, kind, true);
    AddedIsFound(d.data, bs, Present(ino, kind), name);
    ret := d.Rename(name, newName, ino, isDir, true);
  }

  /** Unlink's look at one record. */
  method ClearMatch(buf: seq<Byte>, offset: nat, name: Name) returns (buf': seq<Byte>, hit: bool, changed: bool)
    requires offset + 8 <= |buf|
    ensures hit == (NameAt(buf, offset) == name) && buf' == (if hit then ClearIno(buf, offset) else buf)
    ensures (changed ==> hit) && (!changed ==> buf' == buf)
  {
    buf', hit, changed := buf, false, false;
    if NameAt(buf, offset) == name {
      hit := true;
      if Ino(buf, offset) != 0 {
        buf', changed := ClearIno(buf, offset), true;
      } else {
        ClearCleared(buf, offset);
      }
    }
  }

  /** Where the scan for room stands: before `offset`, after the record at lastOff (if any). */
  ghost predicate Scanned(d: seq<Byte>, bs: nat, offset: nat, lastOff: nat) {
    && DirOk(d, bs) && offset <= |d| && Tiled(d, bs, 0, offset) && Tiled(d, bs, offset, |d|)
    && (offset > 0 ==> lastOff < offset && Tiled(d, bs, 0, lastOff) && RecOk(d, bs, lastOff) && lastOff + RecLen(d, lastOff) == offset)
  }

  lemma AddStart(d: seq<Byte>, bs: nat)
    requires DirOk(d, bs)
    ensures Scanned(d, bs, 0, 0) && 1024 <= bs <= 32768
  {
    assert Tiled(d, bs, 0, 0);
  }

  /** Where in its block an offset is. */
  function OffIn(o: nat, bs: nat): (r: nat)
    ensures bs > 0 ==> r < bs
  {
    if bs == 0 then 0 else o % bs
  }

  lemma EmptyDir(bs: nat)
    requires 1024 <= bs <= 32768 && bs % 4 == 0
    ensures DirOk([], bs) && forall n: Name :: Find([], bs, 0, 0, n) == Absent
  {
    Bits.DivUnique(0, bs, 0, 0);
    assert Tiled([], bs, 0, 0);
  }

  lemma AddHere(d: seq<Byte>, bs: nat, o: nat, lastOff: nat, name: Name)
    requires Scanned(d, bs, o, lastOff) && o < |d|
    ensures o + 8 <= |d| && RecLen(d, o) > 0 && o + RecLen(d, o) <= |d| && Tiled(d, bs, 0, o) && Tiled(d, bs, o, |d|)
    ensures DirOk(d, bs) && Scanned(d, bs, o + RecLen(d, o), o) && OffIn(o, bs) + RecLen(d, o) <= bs
    ensures OffIn(o, bs) + RecLen(d, o) < bs ==> OffIn(o + RecLen(d, o), bs) == OffIn(o, bs) + RecLen(d, o)
    ensures Need(|name|) <= RecLen(d, o) ==> o + 8 + |name| <= |d|
  {
    assert RecOk(d, bs, o);
    hide Find;
    TiledNext(d, bs, 0, o, name);
    assert RecLen(d, o) >= 12;
    if o % bs + RecLen(d, o) < bs { ModAdd(o, RecLen(d, o), bs); }
  }

  lemma AddLast(d: seq<Byte>, bs: nat, o: nat, lastOff: nat)
    requires Scanned(d, bs, o, lastOff) && o > 0 && o == |d|
    ensures DirOk(d, bs)
    ensures lastOff + 8 <= |d| && Tiled(d, bs, 0, lastOff) && lastOff < |d| && Tiled(d, bs, lastOff, |d|)
    ensures Need(NameLen(d, lastOff)) <= RecLen(d, lastOff) && lastOff + RecLen(d, lastOff) <= |d|
  {
    OneTile(d, bs, lastOff);
  }

  lemma SlackIs(d: seq<Byte>, bs: nat, lastOff: nat, need: nat)
    requires Scanned(d, bs, |d|, lastOff) && |d| > 0
    ensures Tiled(d, bs, 0, |d|) && lastOff + 8 <= |d|
    ensures HasSlack(d, bs, need) <==> RecLen(d, lastOff) >= Need(NameLen(d, lastOff)) + need
  {
    LastIs(d, bs, 0, lastOff, |d|);
  }

  lemma NoSlack(d: seq<Byte>, bs: nat, need: nat)
    requires DirOk(d, bs)
    ensures d == [] ==> !HasSlack(d, bs, need)
  {
  }

  lemma FoundHere(d: seq<Byte>, bs: nat, name: Name)
    requires DirOk(d, bs)
    ensures Find(d, bs, 0, |d|, name) != Absent ==> Named(d, bs, 0, |d|, name)
  {
    if Find(d, bs, 0, |d|, name) != Absent { FoundIsNamed(d, bs, 0, |d|, name); }
  }

  lemma RenameAdded(d0: seq<Byte>, d1: seq<Byte>, d2: seq<Byte>, bs: nat, e: Entry, oldName: Name, newName: Name)
    requires DirOk(d0, bs) && DirOk(d1, bs) && DirOk(d2, bs) && Find(d0, bs, 0, |d0|, oldName) != Absent
    requires Removes(d0, d1, bs, newName) && Adds(d1, d2, bs, e, newName) && e.Present?
    ensures Find(d2, bs, 0, |d2|, newName) == e && Find(d2, bs, 0, |d2|, oldName) != Absent
    ensures forall n: Name :: n != newName ==> Find(d2, bs, 0, |d2|, n) == Find(d0, bs, 0, |d0|, n)
  {
    hide Find, Tiled;
    forall n: Name ensures n != newName ==> Find(d2, bs, 0, |d2|, n) == Find(d0, bs, 0, |d0|, n) {
      assert AddsFor(Find(d1, bs, 0, |d1|, n), Find(d2, bs, 0, |d2|, n), e, n == newName);
    }
    assert AddsFor(Find(d1, bs, 0, |d1|, newName), Find(d2, bs, 0, |d2|, newName), e, true);
  }

  lemma DirTiled(d: seq<Byte>, bs: nat)
    requires DirOk(d, bs)
    ensures Tiled(d, bs, 0, |d|)
  {
  }

  lemma ClearCleared(d: seq<Byte>, o: nat)
    requires o + 8 <= |d| && Ino(d, o) == 0
    ensures ClearIno(d, o) == d
  {
    assert d[o] == 0 && d[o + 1] == 0 && d[o + 2] == 0 && d[o + 3] == 0;
  }
}
