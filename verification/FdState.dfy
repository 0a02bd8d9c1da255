/** Open files and descriptor tables as values: who holds a reference to which file. */
module FdState {

  const NR_OPEN_DEFAULT: nat := 32
  const NR_OPEN_MAX: nat := 1024

  /** FD_RESERVED marks a slot that fd_alloc has handed out and nothing has been installed in yet. */
  datatype Slot = Empty | Reserved | Ref(file: nat)

  datatype Table = Table(fds: seq<Slot>, open: nat)

  /** `files` are the reference counts; `borrowed` the references held by system calls under way;
      `released` the files whose release was called, as often as it was. */
  datatype V = V(files: map<nat, nat>, tables: seq<Table>, borrowed: multiset<nat>, released: multiset<nat>, next: nat)

  function One(s: Slot, f: nat): nat { if s == Ref(f) then 1 else 0 }

  /** How many slots of a table hold f; how many slots of all tables do. */
  function Cnt(fds: seq<Slot>, f: nat): nat {
    if fds == [] then 0 else Cnt(fds[..|fds| - 1], f) + One(fds[|fds| - 1], f)
  }

  function Held(tables: seq<Table>, f: nat): nat {
    if tables == [] then 0 else Held(tables[..|tables| - 1], f) + Cnt(tables[|tables| - 1].fds, f)
  }

  /** How many slots hold a file. */
  function Opens(fds: seq<Slot>): nat {
    if fds == [] then 0 else Opens(fds[..|fds| - 1]) + if fds[|fds| - 1].Ref? then 1 else 0
  }

  lemma {:induction false} CntUpdate(fds: seq<Slot>, i: nat, s: Slot, f: nat)
    requires i < |fds|
    ensures Cnt(fds[i := s], f) + One(fds[i], f) == Cnt(fds, f) + One(s, f)
    ensures Opens(fds[i := s]) + (if fds[i].Ref? then 1 else 0) == Opens(fds) + if s.Ref? then 1 else 0
  {
    var n := |fds| - 1;
    if i < n {
      assert fds[i := s][..n] == fds[..n][i := s];
      CntUpdate(fds[..n], i, s, f);
    } else {
      assert fds[i := s][..n] == fds[..n];
    }
  }

  lemma {:induction false} HeldUpdate(tables: seq<Table>, t: nat, x: Table, f: nat)
    requires t < |tables|
    ensures Held(tables[t := x], f) + Cnt(tables[t].fds, f) == Held(tables, f) + Cnt(x.fds, f)
  {
    hide Cnt;
    var n := |tables| - 1;
    if t < n {
      assert tables[t := x][..n] == tables[..n][t := x];
      HeldUpdate(tables[..n], t, x, f);
    } else {
      assert tables[t := x][..n] == tables[..n];
    }
  }

  lemma {:induction false} CntAppend(fds: seq<Slot>, more: seq<Slot>, f: nat)
    requires forall i :: 0 <= i < |more| ==> more[i] == Empty
    ensures Cnt(fds + more, f) == Cnt(fds, f) && Opens(fds + more) == Opens(fds)
    decreases |more|
  {
    if more == [] {
      assert fds + more == fds;
    } else {
      var n := |more| - 1;
      assert (fds + more)[..|fds| + n] == fds + more[..n];
      CntAppend(fds, more[..n], f);
    }
  }

  // ---------- The invariant ----------

  /** Every count is the number of slots that hold the file plus the references borrowed; a file with
      none is gone, and was released exactly once. */
  ghost predicate Counts(v: V) {
    && (forall f :: f in v.files ==> v.files[f] > 0 && v.files[f] == Held(v.tables, f) + v.borrowed[f] && f < v.next)
    && (forall f: nat :: Held(v.tables, f) + v.borrowed[f] > 0 ==> f in v.files)
    && (forall f: nat :: v.released[f] == if f < v.next && f !in v.files then 1 else 0)
  }

  /** Table sizes double from 32 to 1024 (0 for a table that was freed), and open_fds counts the files. */
  predicate SizeOk(n: nat) { n in {0, 32, 64, 128, 256, 512, 1024} }

  ghost predicate TableOk(x: Table) { SizeOk(|x.fds|) && x.open == Opens(x.fds) }

  ghost predicate Inv(v: V) { Counts(v) && forall t :: 0 <= t < |v.tables| ==> TableOk(v.tables[t]) }

  /** No slot holds a file that is gone. */
  lemma SlotHeld(v: V, t: nat, i: nat)
    requires Counts(v) && t < |v.tables| && i < |v.tables[t].fds| && v.tables[t].fds[i].Ref?
    ensures v.tables[t].fds[i].file in v.files
  {
    var f := v.tables[t].fds[i].file;
    HeldSlot(v, t, i, Empty, f);
    hide Held;
  }

  // ---------- Steps ----------

  /** file_get: one more reference, borrowed. */
  function Got(v: V, f: nat): V
    requires f in v.files
  {
    v.(files := v.files[f := v.files[f] + 1], borrowed := v.borrowed + multiset{f})
  }

  /** file_put of a borrowed reference: the file is released with its last one. */
  function Put(v: V, f: nat): V
    requires f in v.files && v.files[f] > 0
  {
    var v' := v.(borrowed := v.borrowed - multiset{f});
    if v.files[f] == 1 then v'.(files := v.files - {f}, released := v.released + multiset{f})
    else v'.(files := v.files[f := v.files[f] - 1])
  }

  function SetSlot(v: V, t: nat, i: nat, s: Slot): V
    requires t < |v.tables| && i < |v.tables[t].fds|
  {
    v.(tables := v.tables[t := v.tables[t].(fds := v.tables[t].fds[i := s])])
  }

  /** A new file: its one reference is borrowed. */
  function Opened(v: V): V {
    v.(files := v.files[v.next := 1], borrowed := v.borrowed + multiset{v.next}, next := v.next + 1)
  }

  lemma OpenKeeps(v: V)
    requires Counts(v)
    ensures Counts(Opened(v))
  {
    hide Held;
    assert v.next !in v.files;
    assert Held(v.tables, v.next) + v.borrowed[v.next] == 0;
  }

  lemma GotKeeps(v: V, f: nat)
    requires Counts(v) && f in v.files
    ensures Counts(Got(v, f))
  {
    hide Held;
  }

  lemma PutKeeps(v: V, f: nat)
    requires Counts(v) && v.borrowed[f] > 0
    ensures f in v.files && v.files[f] > 0 && Counts(Put(v, f))
  {
    hide Held;
    assert Held(v.tables, f) + v.borrowed[f] > 0;
  }

  /** How the slot references change when one slot changes. */
  lemma HeldSlot(v: V, t: nat, i: nat, s: Slot, f: nat)
    requires t < |v.tables| && i < |v.tables[t].fds|
    ensures Held(SetSlot(v, t, i, s).tables, f) + One(v.tables[t].fds[i], f) == Held(v.tables, f) + One(s, f)
  {
    var x := v.tables[t];
    CntUpdate(x.fds, i, s, f);
    HeldUpdate(v.tables, t, x.(fds := x.fds[i := s]), f);
  }

  /** A borrowed reference moves into an empty or reserved slot. */
  lemma InstallKeeps(v: V, t: nat, i: nat, f: nat)
    requires Counts(v) && t < |v.tables| && i < |v.tables[t].fds| && !v.tables[t].fds[i].Ref? && v.borrowed[f] > 0
    ensures Counts(SetSlot(v, t, i, Ref(f)).(borrowed := v.borrowed - multiset{f}))
  {
    hide Held;
    forall g: nat ensures Held(SetSlot(v, t, i, Ref(f)).tables, g) == Held(v.tables, g) + if g == f then 1 else 0 {
      HeldSlot(v, t, i, Ref(f), g);
    }
  }

  /** A slot's reference is taken out of it, and is then borrowed. */
  lemma RemoveKeeps(v: V, t: nat, i: nat)
    requires Counts(v) && t < |v.tables| && i < |v.tables[t].fds| && v.tables[t].fds[i].Ref?
    ensures Counts(SetSlot(v, t, i, Empty).(borrowed := v.borrowed + multiset{v.tables[t].fds[i].file}))
  {
    hide Held;
    var f := v.tables[t].fds[i].file;
    forall g: nat ensures Held(SetSlot(v, t, i, Empty).tables, g) + (if g == f then 1 else 0) == Held(v.tables, g) {
      HeldSlot(v, t, i, Empty, g);
    }
  }

  /** Marking or unmarking a slot that holds no file. */
  lemma MarkKeeps(v: V, t: nat, i: nat, s: Slot)
    requires Counts(v) && t < |v.tables| && i < |v.tables[t].fds| && !v.tables[t].fds[i].Ref? && !s.Ref?
    ensures Counts(SetSlot(v, t, i, s))
  {
    hide Held;
    forall g: nat ensures Held(SetSlot(v, t, i, s).tables, g) == Held(v.tables, g) { HeldSlot(v, t, i, s, g); }
  }

  /** A table that holds the same references. */
  lemma TableKeeps(v: V, t: nat, x: Table)
    requires Counts(v) && t < |v.tables| && forall f: nat :: Cnt(x.fds, f) == Cnt(v.tables[t].fds, f)
    ensures Counts(v.(tables := v.tables[t := x]))
  {
    hide Held, Cnt;
    forall g: nat ensures Held(v.tables[t := x], g) == Held(v.tables, g) { HeldUpdate(v.tables, t, x, g); }
  }

  lemma NewTableKeeps(v: V, x: Table)
    requires Counts(v) && forall f: nat :: Cnt(x.fds, f) == 0
    ensures Counts(v.(tables := v.tables + [x]))
  {
    hide Cnt;
    assert (v.tables + [x])[..|v.tables|] == v.tables;
    forall g: nat ensures Held(v.tables + [x], g) == Held(v.tables, g) {}
  }

  lemma {:induction false} NoRefs(fds: seq<Slot>, f: nat)
    requires forall i :: 0 <= i < |fds| ==> !fds[i].Ref?
    ensures Cnt(fds, f) == 0 && Opens(fds) == 0
  {
    if fds != [] { NoRefs(fds[..|fds| - 1], f); }
  }
}
