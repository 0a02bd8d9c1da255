/** src/fs/fd_table.c, the reference counting of src/fs/file.c, and dup, dup3 and F_DUPFD of
    src/syscall/syscall.c.

    A table that was freed has no slots; passing it stands for passing NULL.  `room` says whether kmalloc
    succeeds. */
module FdTable {
  import opened FdState

  const EBADF: int := 9
  const ENOMEM: int := 12
  const EINVAL: int := 22
  const EMFILE: int := 24

  /** fds with empty slots up to n. */
  function Padded(fds: seq<Slot>, n: nat): seq<Slot>
    requires |fds| <= n
  {
    fds + seq(n - |fds|, _ => Empty)
  }

  /** fd is a descriptor with a file. */
  predicate IsOpen(fds: seq<Slot>, fd: int) { 0 <= fd < |fds| && fds[fd].Ref? }

  /** A new descriptor can be had: a slot is empty, or the table can grow. */
  predicate CanAlloc(fds: seq<Slot>, room: bool) { Empty in fds || (0 < |fds| < NR_OPEN_MAX && room) }

  /** Everything open in fds is open as the same file in fds'. */
  ghost predicate Whole(fds: seq<Slot>, fds': seq<Slot>) {
    forall i :: 0 <= i < |fds| && fds[i].Ref? ==> i < |fds'| && fds'[i] == fds[i]
  }

  class Files {
    var files: map<nat, nat>
    var tables: seq<Table>
    var next: nat
    ghost var borrowed: multiset<nat>
    ghost var released: multiset<nat>

    ghost function St(): V
      reads this
    {
      V(files, tables, borrowed, released, next)
    }

    ghost predicate Valid()
      reads this
    {
      Inv(St())
    }

    constructor ()
      ensures Valid() && files == map[] && tables == [] && borrowed == multiset{} && released == multiset{}
    {
      files, tables, next, borrowed, released := map[], [], 0, multiset{}, multiset{};
    }

    /** file_alloc: a new file, its one reference with the caller. */
    method FileAlloc() returns (f: nat)
      requires Valid()
      modifies this
      ensures Valid() && St() == Opened(old(St())) && f == old(next)
    {
      OpenKeeps(St());
      f := next;
      files, next, borrowed := files[f := 1], next + 1, borrowed + multiset{f};
    }

    /** file_get */
    method FileGet(f: nat)
      requires Valid() && f in files
      modifies this`files, this`borrowed
      ensures Valid() && St() == Got(old(St()), f)
    {
      hide Inv, Counts;
      InvParts(St());
      GotKeeps(St(), f);
      SameTablesKeep(St(), Got(St(), f));
      files, borrowed := files[f := files[f] + 1], borrowed + multiset{f};
    }

    /** file_put of a reference the caller holds: the last one releases the file. */
    method FilePut(f: nat)
      requires Valid() && borrowed[f] > 0
      modifies this`files, this`borrowed, this`released
      ensures f in old(files) && old(files)[f] > 0 && Valid() && St() == Put(old(St()), f)
    {
      hide Inv, Counts;
      InvParts(St());
      PutKeeps(St(), f);
      SameTablesKeep(St(), Put(St(), f));
      borrowed := borrowed - multiset{f};
      if files[f] == 1 {
        released := released + multiset{f};
        files := files - {f};
      } else {
        files := files[f := files[f] - 1];
      }
    }

    predicate SlotAt(t: nat, fd: int)
      reads this
    {
      t < |tables| && 0 <= fd < |tables[t].fds|
    }

    /** fd_get: the file of a slot, with a reference for the caller. */
    method FdGet(t: nat, fd: int) returns (found: bool, f: nat)
      requires Valid() && t < |tables|
      modifies this`files, this`borrowed
      ensures Valid() && (found <==> SlotAt(t, fd) && tables[t].fds[fd].Ref?)
      ensures found ==> f == tables[t].fds[fd].file && f in old(files) && St() == Got(old(St()), f)
      ensures !found ==> St() == old(St())
    {
      if fd < 0 || fd >= |tables[t].fds| { return false, 0; }
      var s := tables[t].fds[fd];
      if s.Ref? {
        SlotHeld(St(), t, fd);
        FileGet(s.file);
        return true, s.file;
      }
      return false, 0;
    }

    /** fd_alloc: the lowest empty slot is reserved; a full table is doubled, up to its limit. */
    method FdAlloc(t: nat, room: bool) returns (fd: int)
      requires Valid() && t < |tables|
      modifies this`tables
      ensures Valid() && |tables| == |old(tables)|
      ensures fd >= 0 <==> CanAlloc(old(tables)[t].fds, room)
      ensures fd < 0 ==> tables == old(tables) && fd == if tables[t].fds == [] then -EINVAL else -EMFILE
      ensures fd >= 0 ==> Reserves(old(tables), tables, t, fd)
    {
      hide Inv;
      if |tables[t].fds| == 0 { return -EINVAL; }
      var x := tables[t];
      TableFacts(St(), t);
      var i := 0;
      while i < |x.fds|
        invariant 0 <= i <= |x.fds| && tables == old(tables) && forall j :: 0 <= j < i ==> x.fds[j] != Empty
      {
        if x.fds[i] == Empty {
          ReserveKeeps(St(), t, i);
          PaddedSame(x.fds);
          tables := tables[t := x.(fds := x.fds[i := Reserved])];
          return i;
        }
        i := i + 1;
      }
      if |x.fds| < NR_OPEN_MAX {
        var newMax := |x.fds| * 2;
        if newMax > NR_OPEN_MAX { newMax := NR_OPEN_MAX; }
        if room {
          GrowKeeps(St(), t, newMax);
          tables := tables[t := x.(fds := Padded(x.fds, newMax))];
          fd := newMax / 2;
          ReserveKeeps(St(), t, fd);
          tables := tables[t := tables[t].(fds := tables[t].fds[fd := Reserved])];
          return;
        }
      }
      return -EMFILE;
    }

    /** fd_free: the slot is emptied, and its reference given up. */
    method FdFree(t: nat, fd: int)
      requires Valid() && t < |tables|
      modifies this`files, this`tables, this`borrowed, this`released
      ensures Valid() && borrowed == old(borrowed) && |tables| == |old(tables)|
      ensures !old(SlotAt(t, fd)) ==> St() == old(St())
      ensures old(SlotAt(t, fd)) ==> Clears(old(tables), tables, t, fd)
      ensures old(SlotAt(t, fd)) && old(tables)[t].fds[fd].Ref? ==>
                var f := old(tables)[t].fds[fd].file;
                f in old(files) && old(files)[f] > 0 && files == Put(old(St()), f).files && released == Put(old(St()), f).released
      ensures old(SlotAt(t, fd)) && !old(tables)[t].fds[fd].Ref? ==> files == old(files) && released == old(released)
    {
      hide Inv, Counts;
      InvParts(St());
      if fd < 0 || fd >= |tables[t].fds| { return; }
      var x := tables[t];
      var s := x.fds[fd];
      if s.Ref? {
        EmptyKeeps(St(), t, fd);
        SlotHeld(St(), t, fd);
        tables := tables[t := Table(x.fds[fd := Empty], x.open - 1)];
        borrowed := borrowed + multiset{s.file};
        FilePut(s.file);
        assert borrowed == old(borrowed);
      } else {
        UnmarkKeeps(St(), t, fd);
        tables := tables[t := x.(fds := x.fds[fd := Empty])];
      }
    }

    /** fd_install: the caller's reference goes into the slot, unless a file is there already. */
    method FdInstall(t: nat, fd: int, f: nat) returns (ret: int)
      requires Valid() && t < |tables| && borrowed[f] > 0
      modifies this`tables, this`borrowed
      ensures Valid() && ret in {0, -EINVAL, -EBADF}
      ensures ret == -EINVAL <==> !old(SlotAt(t, fd))
      ensures ret == -EBADF <==> old(SlotAt(t, fd)) && old(tables)[t].fds[fd].Ref?
      ensures ret != 0 ==> St() == old(St())
      ensures ret == 0 ==> borrowed == old(borrowed) - multiset{f} && Fills(old(tables), tables, t, fd, f)
    {
      hide Inv, Counts;
      if fd < 0 || fd >= |tables[t].fds| { return -EINVAL; }
      var x := tables[t];
      if x.fds[fd].Ref? { return -EBADF; }
      FillKeeps(St(), t, fd, f);
      tables := tables[t := Table(x.fds[fd := Ref(f)], x.open + 1)];
      borrowed := borrowed - multiset{f};
      ret := 0;
    }

    /** sys_dup: the lowest free slot now holds the same file; nothing else changed.  It fails exactly when
        oldfd is not open, with EBADF, or no slot can be had, with EMFILE. */
    method Dup(t: nat, oldfd: int, room: bool) returns (ret: int)
      requires Valid() && t < |tables|
      modifies this
      ensures Valid() && borrowed == old(borrowed) && released == old(released)
      ensures ret >= 0 <==> IsOpen(old(tables)[t].fds, oldfd) && CanAlloc(old(tables)[t].fds, room)
      ensures ret < 0 ==> && tables == old(tables) && files == old(files)
                          && ret == if IsOpen(old(tables)[t].fds, oldfd) then -EMFILE else -EBADF
      ensures ret >= 0 ==> old(SlotAt(t, oldfd)) && old(tables)[t].fds[oldfd].Ref?
                           && Duplicates(old(tables), tables, t, ret, old(tables)[t].fds[oldfd].file)
    {
      hide Inv;
      var found, f := FdGet(t, oldfd);
      if !found { return -EBADF; }
      InvParts(old(St()));
      GotThenPut(old(St()), f);
      var newfd := FdAlloc(t, room);
      if newfd < 0 {
        FilePut(f);
        return -EMFILE;
      }
      ghost var mid := tables;
      ret := Attach(t, newfd, f);
      DupTables(old(tables), mid, tables, t, newfd, f);
    }

    /** The doubling in sys_dup3: it fails when newfd is past what a table can have, or for want of memory. */
    method GrowFor(t: nat, newfd: nat, room: bool) returns (ret: int)
      requires Valid() && t < |tables| && tables[t].fds != []
      modifies this`tables
      ensures Valid() && ret in {0, -EBADF, -ENOMEM} && |tables| == |old(tables)| && |old(tables)[t].fds| <= |tables[t].fds|
      ensures tables == old(tables)[t := old(tables)[t].(fds := Padded(old(tables)[t].fds, |tables[t].fds|))]
      ensures ret == 0 <==> newfd < |tables[t].fds|
      ensures ret == -EBADF <==> newfd >= NR_OPEN_MAX
      ensures ret == -ENOMEM <==> |old(tables)[t].fds| <= newfd < NR_OPEN_MAX && !room
    {
      hide Inv;
      var x := tables[t];
      PaddedSame(x.fds);
      TableFacts(St(), t);
      if newfd < |x.fds| { return 0; }
      var newMax := |x.fds| * 2;
      while newMax <= newfd && newMax < NR_OPEN_MAX
        invariant newMax in {64, 128, 256, 512, 1024, 2048} && newMax > |x.fds| && tables == old(tables)
        decreases 2048 - newMax
      {
        newMax := newMax * 2;
      }
      if newMax > NR_OPEN_MAX { newMax := NR_OPEN_MAX; }
      if newfd >= newMax { return -EBADF; }
      if !room { return -ENOMEM; }
      GrowKeeps(St(), t, newMax);
      tables := tables[t := x.(fds := Padded(x.fds, newMax))];
      ret := 0;
    }

    /** sys_dup3: newfd gives up what it held and holds oldfd's file.  A table that was too small has
        grown, even if the call then fails.  The failures, in the order in which they are noticed: newfd
        out of range (EBADF), no memory to grow (ENOMEM), newfd the same as oldfd (EINVAL), oldfd not open
        (EBADF). */
    method Dup3(t: nat, oldfd: int, newfd: int, room: bool) returns (ret: int)
      requires Valid() && t < |tables| && tables[t].fds != []
      modifies this
      ensures Valid() && borrowed == old(borrowed)
      ensures |tables| == |old(tables)| && |old(tables)[t].fds| <= |tables[t].fds|
      ensures ret >= 0 <==> && 0 <= newfd < NR_OPEN_MAX && (newfd < |old(tables)[t].fds| || room) && newfd != oldfd
                            && IsOpen(old(tables)[t].fds, oldfd)
      ensures ret == -ENOMEM <==> |old(tables)[t].fds| <= newfd < NR_OPEN_MAX && !room
      ensures ret == -EINVAL <==> 0 <= newfd < NR_OPEN_MAX && (newfd < |old(tables)[t].fds| || room) && newfd == oldfd
      ensures ret < 0 ==> ret in {-EBADF, -ENOMEM, -EINVAL}
      ensures ret < 0 ==> && files == old(files) && released == old(released)
                          && tables == old(tables)[t := old(tables)[t].(fds := Padded(old(tables)[t].fds, |tables[t].fds|))]
      ensures ret >= 0 ==> && ret == newfd != oldfd && old(SlotAt(t, oldfd)) && old(tables)[t].fds[oldfd].Ref?
                           && newfd < |tables[t].fds|
                           && tables[t].fds == Padded(old(tables)[t].fds, |tables[t].fds|)[newfd := old(tables)[t].fds[oldfd]]
                           && forall u :: 0 <= u < |tables| && u != t ==> tables[u] == old(tables)[u]
    {
      hide Inv, Padded, Counts;
      PaddedSame(tables[t].fds);
      if newfd < 0 { return -EBADF; }
      ret := GrowFor(t, newfd, room);
      if ret < 0 { return; }
      PaddedSlots(old(tables)[t].fds, |tables[t].fds|);
      if oldfd == newfd { return -EINVAL; }
      ret := Redirect(t, oldfd, newfd);
    }

    /** The end of sys_dup3, with newfd in the table: it gives up what it held and holds oldfd's file. */
    method Redirect(t: nat, oldfd: int, newfd: nat) returns (ret: int)
      requires Valid() && SlotAt(t, newfd) && newfd != oldfd
      modifies this
      ensures Valid() && borrowed == old(borrowed) && |tables| == |old(tables)|
      ensures ret == if IsOpen(old(tables)[t].fds, oldfd) then newfd else -EBADF
      ensures ret < 0 ==> files == old(files) && released == old(released) && tables == old(tables)
      ensures ret >= 0 ==> && tables[t].fds == old(tables)[t].fds[newfd := old(tables)[t].fds[oldfd]]
                           && forall u :: 0 <= u < |tables| && u != t ==> tables[u] == old(tables)[u]
    {
      hide Inv, Counts, Put, Clears, Fills;
      var found, f := FdGet(t, oldfd);
      if !found { return -EBADF; }
      BorrowBack(old(borrowed), f);
      FdFree(t, newfd);
      InvParts(St());
      ghost var mid := tables;
      ClearsFacts(old(tables), mid, t, newfd);
      ManyRefs(St(), t, oldfd, f);
      ret := Attach(t, newfd, f);
      Redirected(old(tables), mid, tables, t, newfd, f);
    }

    /** F_DUPFD: the lowest free slot from `arg` on, without growing the table.  It fails exactly when fd is
        not open, with EBADF, or there is no such slot, with EMFILE. */
    method DupFrom(t: nat, fd: int, arg: int) returns (ret: int)
      requires Valid() && t < |tables|
      modifies this
      ensures Valid() && borrowed == old(borrowed) && released == old(released)
      ensures ret >= 0 <==> && IsOpen(old(tables)[t].fds, fd)
                            && exists j :: arg <= j && 0 <= j < |old(tables)[t].fds| && old(tables)[t].fds[j] == Empty
      ensures ret < 0 ==> && tables == old(tables) && files == old(files)
                          && ret == if IsOpen(old(tables)[t].fds, fd) then -EMFILE else -EBADF
      ensures ret >= 0 ==> && old(SlotAt(t, fd)) && old(tables)[t].fds[fd].Ref? && arg <= ret < |old(tables)[t].fds|
                           && old(tables)[t].fds[ret] == Empty
                           && (forall j :: arg <= j < ret && 0 <= j ==> old(tables)[t].fds[j] != Empty)
                           && Fills(old(tables), tables, t, ret, old(tables)[t].fds[fd].file)
    {
      hide Inv, Counts, Fills;
      var minfd := if arg < 0 then 0 else arg;
      var found, f := FdGet(t, fd);
      if !found { return -EBADF; }
      InvParts(old(St()));
      GotThenPut(old(St()), f);
      BorrowBack(old(borrowed), f);
      var i := EmptyFrom(t, minfd);
      if i < |tables[t].fds| {
        ret := Settle(t, i, f);
        return;
      }
      FilePut(f);
      return -EMFILE;
    }

    /** The end of F_DUPFD: the empty slot is reserved, and then filled. */
    method Settle(t: nat, i: nat, f: nat) returns (ret: int)
      requires Valid() && SlotAt(t, i) && tables[t].fds[i] == Empty && borrowed[f] > 0 && f in files && files[f] > 1
      modifies this`files, this`tables, this`borrowed, this`released
      ensures Valid() && ret == i && borrowed == old(borrowed) - multiset{f} && released == old(released)
      ensures Fills(old(tables), tables, t, i, f) && files == old(files)
    {
      hide Inv, Counts;
      var x := tables[t];
      ReserveKeeps(St(), t, i);
      tables := tables[t := x.(fds := x.fds[i := Reserved])];
      ret := Attach(t, i, f);
      assert x.fds[i := Reserved][i := Ref(f)] == x.fds[i := Ref(f)];
    }

    /** The search of F_DUPFD: the first empty slot from minfd on. */
    method EmptyFrom(t: nat, minfd: nat) returns (i: nat)
      requires t < |tables|
      ensures minfd <= i && (i < |tables[t].fds| ==> tables[t].fds[i] == Empty)
      ensures forall j :: minfd <= j < i && j < |tables[t].fds| ==> tables[t].fds[j] != Empty
    {
      i := minfd;
      while i < |tables[t].fds| && tables[t].fds[i] != Empty
        invariant minfd <= i && forall j :: minfd <= j < i && j < |tables[t].fds| ==> tables[t].fds[j] != Empty
      {
        i := i + 1;
      }
    }

    /** fd_table_alloc */
    method TableAlloc() returns (t: nat)
      requires Valid()
      modifies this`tables
      ensures Valid() && t == |old(tables)| && tables == old(tables) + [Table(seq(NR_OPEN_DEFAULT, _ => Empty), 0)]
    {
      var x := Table(seq(NR_OPEN_DEFAULT, _ => Empty), 0);
      forall f: nat ensures Cnt(x.fds, f) == 0 { NoRefs(x.fds, f); }
      NoRefs(x.fds, 0);
      NewTableKeeps(St(), x);
      hide Counts, Cnt, Opens;
      t := |tables|;
      tables := tables + [x];
    }

    /** fd_table_dup: the first 32 descriptors are shared with the new table; later ones are not, so the
        copy is whole if and only if nothing is open from 32 on. */
    method TableDup(t: nat) returns (t': nat)
      requires Valid() && t < |tables|
      modifies this
      ensures Valid() && borrowed == old(borrowed) && released == old(released)
      ensures t' == |old(tables)| && |tables| == t' + 1 && tables[..t'] == old(tables) && |tables[t'].fds| == NR_OPEN_DEFAULT
      ensures forall i :: 0 <= i < NR_OPEN_DEFAULT ==> tables[t'].fds[i] == Copied(old(tables)[t].fds, i)
      ensures Whole(old(tables)[t].fds, tables[t'].fds)
         <==> forall i :: NR_OPEN_DEFAULT <= i < |old(tables)[t].fds| ==> !old(tables)[t].fds[i].Ref?
    {
      hide Inv;
      t' := TableAlloc();
      assert tables[..t'] == old(tables);
      var i := 0;
      while i < |tables[t].fds| && i < |tables[t'].fds|
        invariant t < t' == |old(tables)| && |tables| == t' + 1
        invariant 0 <= i <= NR_OPEN_DEFAULT && i <= |tables[t].fds| && Valid() && borrowed == old(borrowed) && released == old(released)
        invariant tables[..t'] == old(tables) && tables[t] == old(tables)[t] && |tables[t'].fds| == NR_OPEN_DEFAULT
        invariant forall j :: 0 <= j < NR_OPEN_DEFAULT ==> tables[t'].fds[j] == if j < i then Copied(old(tables)[t].fds, j) else Empty
      {
        if tables[t].fds[i].Ref? { ShareSlot(t, t', i); }
        i := i + 1;
      }
    }

    /** One round of the loop in fd_table_dup. */
    method ShareSlot(t: nat, t': nat, i: nat)
      requires Valid() && SlotAt(t, i) && tables[t].fds[i].Ref? && SlotAt(t', i) && tables[t'].fds[i] == Empty
      modifies this`files, this`tables, this`borrowed
      ensures Valid() && borrowed == old(borrowed) && Fills(old(tables), tables, t', i, old(tables)[t].fds[i].file)
    {
      hide Inv, Counts;
      var f := tables[t].fds[i].file;
      InvParts(St());
      SlotHeld(St(), t, i);
      FileGet(f);
      var x := tables[t'];
      FillKeeps(St(), t', i, f);
      BorrowBack(old(borrowed), f);
      tables := tables[t' := Table(x.fds[i := Ref(f)], x.open + 1)];
      borrowed := borrowed - multiset{f};
    }

    /** fd_table_free: every reference the table held is given up; the table is gone. */
    method TableFree(t: nat)
      requires Valid() && t < |tables|
      modifies this
      ensures Valid() && borrowed == old(borrowed) && tables == old(tables)[t := Table([], 0)]
    {
      hide Inv, Clears;
      var i := 0;
      while i < |tables[t].fds|
        invariant |tables| == |old(tables)| && 0 <= i <= |tables[t].fds| && Valid() && borrowed == old(borrowed)
        invariant forall u :: 0 <= u < |tables| && u != t ==> tables[u] == old(tables)[u]
        invariant forall j :: 0 <= j < i ==> tables[t].fds[j] == Empty
        decreases |tables[t].fds| - i
      {
        ghost var mid := tables;
        FdFree(t, i);
        ClearsFacts(mid, tables, t, i);
        i := i + 1;
      }
      GoneKeeps(St(), t);
      tables := tables[t := Table([], 0)];
    }

    /** The end of dup, dup3 and F_DUPFD: a further reference goes into the slot, the caller's is put. */
    method Attach(t: nat, newfd: nat, f: nat) returns (ret: int)
      requires Valid() && SlotAt(t, newfd) && !tables[t].fds[newfd].Ref? && borrowed[f] > 0 && f in files && files[f] > 1
      modifies this`files, this`tables, this`borrowed, this`released
      ensures Valid() && ret == newfd && borrowed == old(borrowed) - multiset{f} && released == old(released)
      ensures Fills(old(tables), tables, t, newfd, f) && files == old(files)
    {
      hide Inv;
      FileGet(f);
      ret := FdInstall(t, newfd, f);
      if ret < 0 {
        assert false;
        return;
      }
      FilePut(f);
      assert borrowed == old(borrowed) - multiset{f};
      ret := newfd;
    }
  }

  /** Descriptor 32 does not survive fork: after opening a file, dup3 to 32 and a copy of the table, the
      table has the descriptor and the copy has not. */
  method LosesDescriptor() returns (v: Files, t: nat, t': nat)
    ensures fresh(v) && v.Valid() && t < |v.tables| && t' < |v.tables|
    ensures IsOpen(v.tables[t].fds, 0) && IsOpen(v.tables[t].fds, 32) && v.tables[t].fds[32] == v.tables[t].fds[0]
    ensures IsOpen(v.tables[t'].fds, 0) && !IsOpen(v.tables[t'].fds, 32) && !Whole(v.tables[t].fds, v.tables[t'].fds)
  {
    hide Inv, Padded, Counts;
    v, t := OneOpen();
    ghost var was := v.tables[t].fds;
    var ret := v.Dup3(t, 0, 32, true);
    PaddedSlots(was, |v.tables[t].fds|);
    ghost var tables := v.tables;
    t' := v.TableDup(t);
    assert v.tables[t] == v.tables[..t'][t] == tables[t];
  }

  /** A table with one open file. */
  method OneOpen() returns (v: Files, t: nat)
    ensures fresh(v) && v.Valid() && t < |v.tables| && |v.tables[t].fds| == NR_OPEN_DEFAULT && IsOpen(v.tables[t].fds, 0)
  {
    hide Inv, Padded, Counts;
    v := new Files();
    t := v.TableAlloc();
    var f := v.FileAlloc();
    ghost var was := v.tables[t].fds;
    assert was[0] == Empty;
    var fd := v.FdAlloc(t, true);
    assert fd == 0;
    PaddedSame(was);
    var ret := v.FdInstall(t, fd, f);
  }

  // ---------- What the calls do to the tables ----------

  /** The size of a table in which slot fd was found: doubled when there was none. */
  function NewSize(fds: seq<Slot>, fd: nat): (n: nat)
    ensures n >= |fds|
  {
    if fd < |fds| then |fds| else 2 * |fds|
  }

  /** fd is the lowest free slot of the table, or the first one past its end. */
  ghost predicate Lowest(fds: seq<Slot>, fd: nat) {
    && fds != [] && fd <= |fds| && (fd < |fds| ==> fds[fd] == Empty) && forall j :: 0 <= j < fd ==> fds[j] != Empty
  }

  ghost predicate Reserves(tabs: seq<Table>, tabs': seq<Table>, t: nat, fd: nat) {
    && t < |tabs| && Lowest(tabs[t].fds, fd)
    && tabs' == tabs[t := tabs[t].(fds := Padded(tabs[t].fds, NewSize(tabs[t].fds, fd))[fd := Reserved])]
  }

  ghost predicate Duplicates(tabs: seq<Table>, tabs': seq<Table>, t: nat, fd: nat, f: nat) {
    && t < |tabs| && Lowest(tabs[t].fds, fd)
    && tabs' == tabs[t := Table(Padded(tabs[t].fds, NewSize(tabs[t].fds, fd))[fd := Ref(f)], tabs[t].open + 1)]
  }

  ghost predicate Clears(tabs: seq<Table>, tabs': seq<Table>, t: nat, fd: nat) {
    && t < |tabs| && fd < |tabs[t].fds| && |tabs'| == |tabs| && tabs'[t].fds == tabs[t].fds[fd := Empty]
    && forall u :: 0 <= u < |tabs| && u != t ==> tabs'[u] == tabs[u]
  }

  ghost predicate Fills(tabs: seq<Table>, tabs': seq<Table>, t: nat, fd: nat, f: nat) {
    && t < |tabs| && fd < |tabs[t].fds| && tabs' == tabs[t := Table(tabs[t].fds[fd := Ref(f)], tabs[t].open + 1)]
  }

  // ---------- What the steps keep ----------

  /** What a copy of a table has in slot i. */
  function Copied(fds: seq<Slot>, i: nat): Slot { if i < |fds| && fds[i].Ref? then fds[i] else Empty }

  lemma ClearsFacts(tabs: seq<Table>, tabs': seq<Table>, t: nat, i: nat)
    requires Clears(tabs, tabs', t, i)
    ensures |tabs'| == |tabs| && |tabs'[t].fds| == |tabs[t].fds| && tabs'[t].fds[i] == Empty
    ensures forall j :: 0 <= j < |tabs[t].fds| && j != i ==> tabs'[t].fds[j] == tabs[t].fds[j]
    ensures forall u :: 0 <= u < |tabs| && u != t ==> tabs'[u] == tabs[u]
  {
  }

  lemma PaddedSlots(fds: seq<Slot>, n: nat)
    requires |fds| <= n
    ensures |Padded(fds, n)| == n && forall j :: 0 <= j < n ==> Padded(fds, n)[j] == if j < |fds| then fds[j] else Empty
  {
  }

  lemma Redirected(tabs: seq<Table>, mid: seq<Table>, tabs': seq<Table>, t: nat, fd: nat, f: nat)
    requires Clears(tabs, mid, t, fd) && Fills(mid, tabs', t, fd, f)
    ensures |tabs'| == |tabs| && tabs'[t].fds == tabs[t].fds[fd := Ref(f)]
    ensures forall u :: 0 <= u < |tabs| && u != t ==> tabs'[u] == tabs[u]
  {
    assert tabs[t].fds[fd := Empty][fd := Ref(f)] == tabs[t].fds[fd := Ref(f)];
  }

  lemma BorrowBack(m: multiset<nat>, f: nat)
    ensures (m + multiset{f}) - multiset{f} == m && (m + multiset{f})[f] > 0
  {
  }

  /** A file with a slot and a borrowed reference has at least two. */
  lemma ManyRefs(v: V, t: nat, i: nat, f: nat)
    requires Counts(v) && t < |v.tables| && i < |v.tables[t].fds| && v.tables[t].fds[i] == Ref(f) && v.borrowed[f] > 0
    ensures f in v.files && v.files[f] > 1
  {
    HeldSlot(v, t, i, Empty, f);
    hide Held;
    assert Held(v.tables, f) + v.borrowed[f] > 1;
  }

  /** A table without files can go. */
  lemma GoneKeeps(v: V, t: nat)
    requires Inv(v) && t < |v.tables| && forall j :: 0 <= j < |v.tables[t].fds| ==> v.tables[t].fds[j] == Empty
    ensures Inv(v.(tables := v.tables[t := Table([], 0)]))
  {
    var x := Table([], 0);
    forall f: nat ensures Cnt(x.fds, f) == Cnt(v.tables[t].fds, f) { NoRefs(v.tables[t].fds, f); }
    TableKeeps(v, t, x);
    TableChanged(v, v.(tables := v.tables[t := x]), t);
  }

  lemma DupTables(tabs: seq<Table>, mid: seq<Table>, tabs': seq<Table>, t: nat, fd: nat, f: nat)
    requires Reserves(tabs, mid, t, fd) && Fills(mid, tabs', t, fd, f)
    ensures Duplicates(tabs, tabs', t, fd, f)
  {
    var p := Padded(tabs[t].fds, NewSize(tabs[t].fds, fd));
    assert p[fd := Reserved][fd := Ref(f)] == p[fd := Ref(f)];
  }

  lemma InvParts(v: V)
    requires Inv(v)
    ensures Counts(v)
  {
  }

  lemma SameTablesKeep(v: V, v': V)
    requires Inv(v) && Counts(v') && v'.tables == v.tables
    ensures Inv(v')
  {
  }

  lemma GotThenPut(v: V, f: nat)
    requires Counts(v) && f in v.files
    ensures Got(v, f).files[f] > 1 && Put(Got(v, f), f) == v
  {
    hide Held;
    var g := Got(v, f);
    assert g.borrowed - multiset{f} == v.borrowed;
    assert g.files[f := g.files[f] - 1] == v.files;
  }

  lemma TableFacts(v: V, t: nat)
    requires Inv(v) && t < |v.tables|
    ensures SizeOk(|v.tables[t].fds|) && TableOk(v.tables[t])
  {
  }

  /** A change in table t only. */
  lemma TableChanged(v: V, v': V, t: nat)
    requires Inv(v) && Counts(v') && t < |v.tables| && |v'.tables| == |v.tables| && TableOk(v'.tables[t])
    requires forall u :: 0 <= u < |v.tables| && u != t ==> v'.tables[u] == v.tables[u]
    ensures Inv(v')
  {
    hide Counts, TableOk;
    forall u | 0 <= u < |v'.tables| ensures TableOk(v'.tables[u]) {
      if u != t { assert TableOk(v.tables[u]); }
    }
  }

  lemma ReserveKeeps(v: V, t: nat, i: nat)
    requires Inv(v) && t < |v.tables| && i < |v.tables[t].fds| && v.tables[t].fds[i] == Empty
    ensures Inv(SetSlot(v, t, i, Reserved))
  {
    TableFacts(v, t);
    CntUpdate(v.tables[t].fds, i, Reserved, 0);
    hide Opens;
    MarkKeeps(v, t, i, Reserved);
    TableChanged(v, SetSlot(v, t, i, Reserved), t);
  }

  lemma UnmarkKeeps(v: V, t: nat, i: nat)
    requires Inv(v) && t < |v.tables| && i < |v.tables[t].fds| && !v.tables[t].fds[i].Ref?
    ensures Inv(SetSlot(v, t, i, Empty))
  {
    TableFacts(v, t);
    CntUpdate(v.tables[t].fds, i, Empty, 0);
    hide Opens;
    MarkKeeps(v, t, i, Empty);
    TableChanged(v, SetSlot(v, t, i, Empty), t);
  }

  lemma EmptyKeeps(v: V, t: nat, i: nat)
    requires Inv(v) && t < |v.tables| && i < |v.tables[t].fds| && v.tables[t].fds[i].Ref?
    ensures var x := v.tables[t];
            && x.open > 0
            && Inv(v.(tables := v.tables[t := Table(x.fds[i := Empty], x.open - 1)], borrowed := v.borrowed + multiset{x.fds[i].file}))
  {
    var x := v.tables[t];
    TableFacts(v, t);
    CntUpdate(x.fds, i, Empty, 0);
    assert Opens(x.fds[i := Empty]) == x.open - 1 && x.open > 0;
    hide Opens, Inv, Counts, TableOk, SizeOk, Cnt;
    var v' := SetSlot(v, t, i, Empty).(borrowed := v.borrowed + multiset{x.fds[i].file});
    InvParts(v);
    RemoveKeeps(v, t, i);
    OpenChanged(v, v', t, x.open - 1);
    assert v'.tables[t := Table(x.fds[i := Empty], x.open - 1)] == v.tables[t := Table(x.fds[i := Empty], x.open - 1)];
  }

  lemma FillKeeps(v: V, t: nat, i: nat, f: nat)
    requires Inv(v) && t < |v.tables| && i < |v.tables[t].fds| && !v.tables[t].fds[i].Ref? && v.borrowed[f] > 0
    ensures var x := v.tables[t];
            Inv(v.(tables := v.tables[t := Table(x.fds[i := Ref(f)], x.open + 1)], borrowed := v.borrowed - multiset{f}))
  {
    var x := v.tables[t];
    TableFacts(v, t);
    CntUpdate(x.fds, i, Ref(f), 0);
    assert Opens(x.fds[i := Ref(f)]) == x.open + 1;
    hide Opens, Inv, Counts, TableOk, SizeOk, Cnt;
    var v' := SetSlot(v, t, i, Ref(f)).(borrowed := v.borrowed - multiset{f});
    InvParts(v);
    InstallKeeps(v, t, i, f);
    OpenChanged(v, v', t, x.open + 1);
    assert v'.tables[t := Table(x.fds[i := Ref(f)], x.open + 1)] == v.tables[t := Table(x.fds[i := Ref(f)], x.open + 1)];
  }

  /** The open count does not enter the reference counts. */
  lemma OpenChanged(v: V, v': V, t: nat, n: nat)
    requires Inv(v) && Counts(v') && t < |v.tables| == |v'.tables|
    requires forall u :: 0 <= u < |v.tables| && u != t ==> v'.tables[u] == v.tables[u]
    requires SizeOk(|v'.tables[t].fds|) && n == Opens(v'.tables[t].fds)
    ensures Inv(v'.(tables := v'.tables[t := Table(v'.tables[t].fds, n)]))
  {
    hide Opens, SizeOk;
    var x := Table(v'.tables[t].fds, n);
    TableKeeps(v', t, x);
    hide Counts;
    TableChanged(v, v'.(tables := v'.tables[t := x]), t);
  }

  lemma GrowKeeps(v: V, t: nat, n: nat)
    requires Inv(v) && t < |v.tables| && |v.tables[t].fds| <= n && SizeOk(n)
    ensures Inv(v.(tables := v.tables[t := v.tables[t].(fds := Padded(v.tables[t].fds, n))]))
  {
    var x := v.tables[t];
    var y := x.(fds := Padded(x.fds, n));
    TableFacts(v, t);
    forall f: nat ensures Cnt(y.fds, f) == Cnt(x.fds, f) { CntAppend(x.fds, seq(n - |x.fds|, _ => Empty), f); }
    CntAppend(x.fds, seq(n - |x.fds|, _ => Empty), 0);
    hide Cnt, Opens;
    TableKeeps(v, t, y);
    TableChanged(v, v.(tables := v.tables[t := y]), t);
  }

  lemma PaddedSame(fds: seq<Slot>)
    ensures Padded(fds, |fds|) == fds
  {
    assert seq(|fds| - |fds|, _ => Empty) == [];
  }
}
