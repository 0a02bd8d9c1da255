/** Processes, wait queues, the run queue and futexes on one CPU (CPU_NUM is 1), as a step machine.

    Every region protected by a spinlock is one step of the process on the CPU, and the scheduler may
    switch between any two steps.  Queue numbers below FUTEX_BUCKETS are the futex buckets; the others
    are ordinary wait queues.  Words of user memory are kept per address space: a futex bucket knows
    only the address, so processes of different spaces can meet in it.
 */
module FutexState {
  import opened Lists

  const FUTEX_BUCKETS: nat := 64
  const IDLE: nat := 0

  datatype Status = Running | Runnable | Sleeping | Zombie

  /** Where a process is in the system calls modelled here. */
  datatype Doing =
    | User
    | WaitEnter(addr: nat, val: int)                  // before taking the bucket lock
    | WaitSlept(addr: nat, val: int)                  // queued on addr, or just resumed from there
    | QueueSlept(queue: nat)                          // queued on an ordinary wait queue, or just resumed
    | WakeEnter(addr: nat, nr: nat)
    | ExitClear
    | ExitWake(addr: nat)
    | ExitLast
    | Gone

  /** futex is futex_uaddr; tid is clear_child_tid, 0 for none. */
  datatype Proc = Proc(status: Status, space: nat, futex: nat, tid: nat, doing: Doing)

  type Words = map<(nat, nat), int>

  datatype State = State(procs: map<nat, Proc>, queues: seq<seq<nat>>, runq: seq<nat>, cur: nat, words: Words)

  function Bucket(addr: nat): (b: nat)
    ensures b < FUTEX_BUCKETS
  {
    addr / 4 % FUTEX_BUCKETS
  }

  // ---------- Lists ----------

  /** The first nr processes of q that wait on addr, in order, and what is left of q without them. */
  function Chosen(q: seq<nat>, procs: map<nat, Proc>, addr: nat, nr: nat): (r: seq<nat>) {
    if q == [] || nr == 0 then []
    else if Waits(procs, q[0], addr) then [q[0]] + Chosen(q[1..], procs, addr, nr - 1)
    else Chosen(q[1..], procs, addr, nr)
  }

  function Left(q: seq<nat>, procs: map<nat, Proc>, addr: nat, nr: nat): (r: seq<nat>) {
    if q == [] || nr == 0 then q
    else if Waits(procs, q[0], addr) then Left(q[1..], procs, addr, nr - 1)
    else [q[0]] + Left(q[1..], procs, addr, nr)
  }

  predicate Waits(procs: map<nat, Proc>, p: nat, addr: nat) { p in procs && procs[p].futex == addr }

  /** The queue is split, nobody lost or doubled; everyone chosen waits on addr, and if fewer than nr
      were found nobody who waits on addr is left. */
  lemma {:induction false} ChosenSplit(q: seq<nat>, procs: map<nat, Proc>, addr: nat, nr: nat)
    requires NoDup(q)
    ensures var c, l := Chosen(q, procs, addr, nr), Left(q, procs, addr, nr);
            && NoDup(c) && NoDup(l) && |c| <= nr && |c| + |l| == |q|
            && (forall p :: p in q <==> p in c || p in l)
            && (forall p :: !(p in c && p in l))
            && (forall p :: p in c ==> Waits(procs, p, addr))
            && (|c| < nr ==> forall p :: p in l ==> !Waits(procs, p, addr))
  {
    if q != [] && nr != 0 {
      assert NoDup([q[0]]);
      hide NoDup, Waits;
      assert q == [q[0]] + q[1..];
      NoDupParts([q[0]], q[1..]);
      if Waits(procs, q[0], addr) {
        ChosenSplit(q[1..], procs, addr, nr - 1);
        NoDupParts([q[0]], Chosen(q[1..], procs, addr, nr - 1));
      } else {
        ChosenSplit(q[1..], procs, addr, nr);
        NoDupParts([q[0]], Left(q[1..], procs, addr, nr));
      }
    }
  }

  /** How many in q wait on addr. */
  function Waiting(q: seq<nat>, procs: map<nat, Proc>, addr: nat): nat {
    if q == [] then 0 else (if Waits(procs, q[0], addr) then 1 else 0) + Waiting(q[1..], procs, addr)
  }

  /** A waiter is chosen if and only if fewer than nr waiters on the same address, of whatever space, are
      ahead of it. */
  lemma {:induction false} ChosenIff(q: seq<nat>, procs: map<nat, Proc>, addr: nat, nr: nat, i: nat)
    requires NoDup(q) && i < |q|
    ensures q[i] in Chosen(q, procs, addr, nr) <==> Waits(procs, q[i], addr) && Waiting(q[..i], procs, addr) < nr
  {
    if nr != 0 {
      var rest := q[1..];
      assert NoDup(rest);
      if i == 0 {
        ChosenSplit(rest, procs, addr, nr);
        assert q[0] !in rest;
      } else {
        assert q[..i][1..] == rest[..i - 1];
        ChosenIff(rest, procs, addr, if Waits(procs, q[0], addr) then nr - 1 else nr, i - 1);
      }
    }
  }

  /** The processes after those in c have been made runnable. */
  function Woken(procs: map<nat, Proc>, c: seq<nat>): map<nat, Proc> {
    map p | p in procs :: if p in c then procs[p].(status := Runnable, futex := 0) else procs[p]
  }

  // ---------- Steps ----------

  datatype Act =
    | Store(addr: nat, val: int) | Unmap(addr: nat)             // user code
    | CallWait(addr: nat, val: int) | WaitCheck | Recheck       // FUTEX_WAIT
    | CallWake(addr: nat, nr: nat) | Wake                       // FUTEX_WAKE
    | SetTid(addr: nat) | CallExit | ClearTid | WakeTid | Die   // set_tid_address, exit
    | SleepOn(queue: nat) | WakeOn(queue: nat, nr: nat) | Return  // ordinary wait queues
    | Spawn(pid: nat, space: nat, tid: nat)                     // clone
    | Yield                                                     // sched_yield, at any time

  /** The act is the next thing the process on the CPU does, or a switch. */
  predicate Enabled(s: State, a: Act) {
    a.Yield? ||
    (s.cur in s.procs && s.procs[s.cur].status == Running &&
     var p := s.procs[s.cur];
     match a
     case WaitCheck => p.doing.WaitEnter?
     case Recheck => p.doing.WaitSlept?
     case Wake => p.doing.WakeEnter?
     case ClearTid => p.doing.ExitClear?
     case WakeTid => p.doing.ExitWake?
     case Die => p.doing.ExitLast?
     case Return => p.doing.QueueSlept?
     case CallWait(addr, _) => p.doing.User? && addr % 4 == 0
     case CallWake(addr, nr) => p.doing.User? && addr % 4 == 0 && nr > 0
     case SleepOn(q) => p.doing.User? && FUTEX_BUCKETS <= q < |s.queues|
     case WakeOn(q, nr) => p.doing.User? && FUTEX_BUCKETS <= q < |s.queues| && nr > 0
     case Spawn(pid, _, _) => p.doing.User? && pid != IDLE && pid !in s.procs
     case _ => p.doing.User?)
  }

  function SetProc(s: State, p: Proc): State { s.(procs := s.procs[s.cur := p]) }

  /** The current process joins queue q. */
  function Sleep(s: State, q: nat, p: Proc): State
    requires q < |s.queues|
  {
    s.(procs := s.procs[s.cur := p.(status := Sleeping)], queues := s.queues[q := s.queues[q] + [s.cur]])
  }

  /** wait_queue_wakeup_addr */
  function WakeAddr(s: State, q: nat, addr: nat, nr: nat): State
    requires q < |s.queues|
  {
    var c := Chosen(s.queues[q], s.procs, addr, nr);
    s.(procs := Woken(s.procs, c), queues := s.queues[q := Left(s.queues[q], s.procs, addr, nr)], runq := s.runq + c)
  }

  /** wait_queue_wakeup: from the head, whoever it is. */
  function WakeFirst(s: State, q: nat, nr: nat): State
    requires q < |s.queues|
  {
    var n := if nr < |s.queues[q]| then nr else |s.queues[q]|;
    var c := s.queues[q][..n];
    s.(procs := map p | p in s.procs :: if p in c then s.procs[p].(status := Runnable) else s.procs[p],
       queues := s.queues[q := s.queues[q][n..]], runq := s.runq + c)
  }

  /** The process at the head of the run queue gets the CPU; with none, the idle process does. */
  function Dispatch(s: State): State {
    if s.runq == [] || s.runq[0] !in s.procs then s.(cur := IDLE)
    else var n := s.runq[0];
      s.(procs := s.procs[n := s.procs[n].(status := Running)], runq := s.runq[1..], cur := n)
  }

  /** sched_yield */
  function Switch(s: State): State {
    if s.cur in s.procs && s.procs[s.cur].status == Running then
      Dispatch(s.(procs := s.procs[s.cur := s.procs[s.cur].(status := Runnable)], runq := s.runq + [s.cur]))
    else Dispatch(s)
  }

  const WAKE_ALL: nat := 0x7fffffff

  function Next(s: State, a: Act): State
    requires Enabled(s, a) && FUTEX_BUCKETS <= |s.queues|
  {
    if a.Yield? then Switch(s) else
    var p := s.procs[s.cur];
    match a
    case Store(addr, val) => s.(words := s.words[(p.space, addr) := val])
    case Unmap(addr) => s.(words := s.words - {(p.space, addr)})
    case CallWait(addr, val) => SetProc(s, p.(doing := WaitEnter(addr, val)))
    case WaitCheck =>
      var addr, val := p.doing.addr, p.doing.val;
      if (p.space, addr) !in s.words || s.words[(p.space, addr)] != val then SetProc(s, p.(doing := User))
      else Sleep(s, Bucket(addr), p.(futex := addr, doing := WaitSlept(addr, val)))
    case Recheck =>
      var addr, val := p.doing.addr, p.doing.val;
      var p' := p.(futex := 0);
      if (p.space, addr) !in s.words || s.words[(p.space, addr)] != val then SetProc(s, p'.(doing := User))
      else SetProc(s, p'.(doing := WaitEnter(addr, val)))
    case CallWake(addr, nr) => SetProc(s, p.(doing := WakeEnter(addr, nr)))
    case Wake => WakeAddr(SetProc(s, p.(doing := User)), Bucket(p.doing.addr), p.doing.addr, p.doing.nr)
    case SetTid(addr) => SetProc(s, p.(tid := addr))
    case CallExit => SetProc(s, p.(futex := 0, doing := if p.tid != 0 then ExitClear else ExitLast))
    case ClearTid =>
      var s' := SetProc(s, p.(doing := ExitWake(p.tid)));
      if (p.space, p.tid) in s.words then s'.(words := s.words[(p.space, p.tid) := 0]) else s'
    case WakeTid => WakeAddr(SetProc(s, p.(doing := ExitLast)), Bucket(p.doing.addr), p.doing.addr, WAKE_ALL)
    case Die => SetProc(s, p.(status := Zombie, doing := Gone))
    case SleepOn(q) => Sleep(s, q, p.(doing := QueueSlept(q)))
    case WakeOn(q, nr) => WakeFirst(s, q, nr)
    case Return => SetProc(s, p.(doing := User))
    case Spawn(pid, space, tid) =>
      s.(procs := s.procs[pid := Proc(Runnable, space, 0, tid, User)], runq := s.runq + [pid])
  }

  // ---------- What every step keeps ----------

  /** The queue a sleeping process is on. */
  function QueueOf(d: Doing): int {
    match d
    case WaitSlept(addr, _) => Bucket(addr)
    case QueueSlept(q) => q
    case _ => -1
  }

  /** A process is on the run queue exactly when runnable, and on a wait queue exactly when it sleeps
      there: so it is on at most one list, at most once.  Only the process on the CPU runs. */
  ghost predicate Inv(s: State) {
    && FUTEX_BUCKETS <= |s.queues| && IDLE !in s.procs && (s.cur == IDLE || s.cur in s.procs)
    && NoDup(s.runq) && (forall q :: 0 <= q < |s.queues| ==> NoDup(s.queues[q]))
    && (forall p :: p in s.runq <==> p in s.procs && s.procs[p].status == Runnable)
    && (forall q, p :: 0 <= q < |s.queues| ==> (p in s.queues[q] <==> SleepsOn(s, p, q)))
    && (forall p :: p in s.procs ==> ProcOk(s, p))
  }

  ghost predicate SleepsOn(s: State, p: nat, q: int) {
    p in s.procs && s.procs[p].status == Sleeping && QueueOf(s.procs[p].doing) == q
  }

  ghost predicate ProcOk(s: State, p: nat)
    requires p in s.procs
  {
    var x := s.procs[p];
    && (x.status == Running ==> p == s.cur)
    && (x.status == Sleeping ==> 0 <= QueueOf(x.doing) < |s.queues|)
    && (x.status == Sleeping && x.doing.WaitSlept? ==> x.futex == x.doing.addr)
    && (x.doing.QueueSlept? ==> FUTEX_BUCKETS <= x.doing.queue)
  }

  /** The process on the CPU changes what it does without sleeping, waking or dying. */
  lemma SetKeeps(s: State, p: Proc)
    requires Inv(s) && s.cur in s.procs && s.procs[s.cur].status == Running
    requires p.status in {Running, Zombie} && (p.doing.QueueSlept? ==> FUTEX_BUCKETS <= p.doing.queue)
    ensures Inv(SetProc(s, p))
  {
    var s' := SetProc(s, p);
    forall q, r | 0 <= q < |s.queues| ensures r in s'.queues[q] <==> SleepsOn(s', r, q) {
      assert r in s.queues[q] <==> SleepsOn(s, r, q);
    }
    forall r | r in s'.procs ensures ProcOk(s', r) { assert r in s.procs ==> ProcOk(s, r); }
  }

  lemma SleepKeeps(s: State, q: nat, p: Proc)
    requires Inv(s) && s.cur in s.procs && s.procs[s.cur].status == Running && q < |s.queues|
    requires QueueOf(p.doing) == q && (p.doing.WaitSlept? ==> p.futex == p.doing.addr)
    requires p.doing.QueueSlept? ==> FUTEX_BUCKETS <= q
    ensures Inv(Sleep(s, q, p))
  {
    hide Bucket;
    var s' := Sleep(s, q, p);
    assert s.cur !in s.queues[q] by { assert !SleepsOn(s, s.cur, q); }
    NoDupParts(s.queues[q], [s.cur]);
    forall k, r | 0 <= k < |s.queues| ensures r in s'.queues[k] <==> SleepsOn(s', r, k) {
      assert r in s.queues[k] <==> SleepsOn(s, r, k);
    }
    forall r | r in s'.procs ensures ProcOk(s', r) { assert r in s.procs ==> ProcOk(s, r); }
  }

  /** Some processes of one wait queue, in some order, go to the end of the run queue. */
  lemma WakeKeeps(s: State, q: nat, c: seq<nat>, l: seq<nat>, s': State)
    requires Inv(s) && q < |s.queues| && NoDup(c) && NoDup(l)
    requires forall p :: p in s.queues[q] <==> p in c || p in l
    requires forall p :: !(p in c && p in l)
    requires s'.queues == s.queues[q := l] && s'.runq == s.runq + c && s'.cur == s.cur
    requires s'.procs.Keys == s.procs.Keys && forall p :: p in s.procs ==> WokenFrom(s.procs[p], s'.procs[p], p in c)
    ensures Inv(s')
  {
    hide Bucket, NoDup;
    forall p | p in c ensures SleepsOn(s, p, q) { assert p in s.queues[q]; }
    NoDupParts(s.runq, c);
    forall k, r | 0 <= k < |s.queues| ensures r in s'.queues[k] <==> SleepsOn(s', r, k) {
      assert r in s.queues[k] <==> SleepsOn(s, r, k);
    }
    forall p ensures p in s'.runq <==> p in s'.procs && s'.procs[p].status == Runnable {
      assert p in s.runq <==> p in s.procs && s.procs[p].status == Runnable;
    }
    forall r | r in s'.procs ensures ProcOk(s', r) { assert ProcOk(s, r); }
  }

  ghost predicate WokenFrom(x: Proc, x': Proc, woken: bool) {
    && x'.doing == x.doing && x'.space == x.space
    && if woken then x'.status == Runnable else x' == x
  }

  lemma WakeAddrKeeps(s: State, q: nat, addr: nat, nr: nat)
    requires Inv(s) && q < |s.queues|
    ensures Inv(WakeAddr(s, q, addr, nr))
  {
    var c, l := Chosen(s.queues[q], s.procs, addr, nr), Left(s.queues[q], s.procs, addr, nr);
    ChosenSplit(s.queues[q], s.procs, addr, nr);
    WakeKeeps(s, q, c, l, WakeAddr(s, q, addr, nr));
  }

  lemma WakeFirstKeeps(s: State, q: nat, nr: nat)
    requires Inv(s) && q < |s.queues|
    ensures Inv(WakeFirst(s, q, nr))
  {
    var n := if nr < |s.queues[q]| then nr else |s.queues[q]|;
    var c, l := s.queues[q][..n], s.queues[q][n..];
    assert s.queues[q] == c + l;
    NoDupParts(c, l);
    WakeKeeps(s, q, c, l, WakeFirst(s, q, nr));
  }

  lemma DispatchKeeps(s: State)
    requires Inv(s) && forall p :: p in s.procs ==> s.procs[p].status != Running
    ensures Inv(Dispatch(s)) && Dispatch(s).cur == if s.runq == [] then IDLE else s.runq[0]
  {
    hide Bucket;
    var s' := Dispatch(s);
    if s.runq != [] {
      var n := s.runq[0];
      assert n in s.runq && s.runq == [n] + s.runq[1..];
      NoDupParts([n], s.runq[1..]);
      hide NoDup;
      forall p ensures p in s'.runq <==> p in s'.procs && s'.procs[p].status == Runnable {
        assert p in s.runq <==> p == n || p in s.runq[1..];
      }
      forall k, r | 0 <= k < |s.queues| ensures r in s'.queues[k] <==> SleepsOn(s', r, k) {
        assert r in s.queues[k] <==> SleepsOn(s, r, k);
      }
    }
    forall r | r in s'.procs ensures ProcOk(s', r) { assert ProcOk(s, r); }
  }

  lemma RequeueKeeps(s: State)
    requires Inv(s) && s.cur in s.procs && s.procs[s.cur].status == Running
    ensures Inv(s.(procs := s.procs[s.cur := s.procs[s.cur].(status := Runnable)], runq := s.runq + [s.cur]))
  {
    hide Bucket;
    var s' := s.(procs := s.procs[s.cur := s.procs[s.cur].(status := Runnable)], runq := s.runq + [s.cur]);
    assert s.cur !in s.runq;
    NoDupParts(s.runq, [s.cur]);
    hide NoDup;
    forall k, r | 0 <= k < |s.queues| ensures r in s'.queues[k] <==> SleepsOn(s', r, k) {
      assert r in s.queues[k] <==> SleepsOn(s, r, k);
    }
    forall r | r in s'.procs ensures ProcOk(s', r) { assert ProcOk(s, r); }
  }

  lemma SwitchKeeps(s: State)
    requires Inv(s)
    ensures Inv(Switch(s))
  {
    if s.cur in s.procs && s.procs[s.cur].status == Running {
      RequeueKeeps(s);
      var s1 := s.(procs := s.procs[s.cur := s.procs[s.cur].(status := Runnable)], runq := s.runq + [s.cur]);
      forall p | p in s1.procs ensures s1.procs[p].status != Running { assert p in s.procs ==> ProcOk(s, p); }
      hide Inv;
      DispatchKeeps(s1);
    } else {
      forall p | p in s.procs ensures s.procs[p].status != Running { assert ProcOk(s, p); }
      hide Inv;
      DispatchKeeps(s);
    }
  }

  lemma SpawnKeeps(s: State, pid: nat, space: nat, tid: nat)
    requires Inv(s) && pid != IDLE && pid !in s.procs
    ensures Inv(s.(procs := s.procs[pid := Proc(Runnable, space, 0, tid, User)], runq := s.runq + [pid]))
  {
    hide Bucket;
    var s' := s.(procs := s.procs[pid := Proc(Runnable, space, 0, tid, User)], runq := s.runq + [pid]);
    assert pid !in s.runq;
    NoDupParts(s.runq, [pid]);
    hide NoDup;
    forall k, r | 0 <= k < |s.queues| ensures r in s'.queues[k] <==> SleepsOn(s', r, k) {
      assert r in s.queues[k] <==> SleepsOn(s, r, k);
    }
    forall r | r in s'.procs ensures ProcOk(s', r) { assert r in s.procs ==> ProcOk(s, r); }
  }

  lemma WordsKeep(s: State, words: Words)
    requires Inv(s)
    ensures Inv(s.(words := words))
  {
    var s' := s.(words := words);
    forall k, r | 0 <= k < |s.queues| ensures r in s'.queues[k] <==> SleepsOn(s', r, k) {
      assert r in s.queues[k] <==> SleepsOn(s, r, k);
    }
    forall r | r in s'.procs ensures ProcOk(s', r) { assert ProcOk(s, r); }
  }

  /** Every step of every process keeps the lists and states in agreement. */
  lemma StepKeeps(s: State, a: Act)
    requires Inv(s) && Enabled(s, a)
    ensures Inv(Next(s, a))
  {
    hide Sleep, WakeAddr, WakeFirst, Switch, Bucket, SetProc;
    assert FUTEX_BUCKETS <= |s.queues|;
    if a.Yield? {
      SwitchKeeps(s);
    } else {
      var p := s.procs[s.cur];
      StepPre(s, a);
      hide Inv;
      match a
      case Store(addr, val) => WordsKeep(s, s.words[(p.space, addr) := val]);
      case Unmap(addr) => WordsKeep(s, s.words - {(p.space, addr)});
      case WaitCheck =>
        SetKeeps(s, p.(doing := User));
        SleepKeeps(s, Bucket(p.doing.addr), p.(futex := p.doing.addr, doing := WaitSlept(p.doing.addr, p.doing.val)));
      case Recheck =>
        SetKeeps(s, p.(futex := 0, doing := User));
        SetKeeps(s, p.(futex := 0, doing := WaitEnter(p.doing.addr, p.doing.val)));
      case Wake =>
        SetKeeps(s, p.(doing := User));
        SetQueues(s, p.(doing := User));
        WakeAddrKeeps(SetProc(s, p.(doing := User)), Bucket(p.doing.addr), p.doing.addr, p.doing.nr);
      case ClearTid =>
        SetKeeps(s, p.(doing := ExitWake(p.tid)));
        WordsKeep(SetProc(s, p.(doing := ExitWake(p.tid))), s.words[(p.space, p.tid) := 0]);
      case WakeTid =>
        SetKeeps(s, p.(doing := ExitLast));
        SetQueues(s, p.(doing := ExitLast));
        WakeAddrKeeps(SetProc(s, p.(doing := ExitLast)), Bucket(p.doing.addr), p.doing.addr, WAKE_ALL);
      case SleepOn(q) => SleepKeeps(s, q, p.(doing := QueueSlept(q)));
      case WakeOn(q, nr) => WakeFirstKeeps(s, q, nr);
      case Spawn(pid, space, tid) => SpawnKeeps(s, pid, space, tid);
      case CallWait(addr, val) => SetKeeps(s, p.(doing := WaitEnter(addr, val)));
      case CallWake(addr, nr) => SetKeeps(s, p.(doing := WakeEnter(addr, nr)));
      case SetTid(addr) => SetKeeps(s, p.(tid := addr));
      case CallExit => SetKeeps(s, p.(futex := 0, doing := if p.tid != 0 then ExitClear else ExitLast));
      case Die => SetKeeps(s, p.(status := Zombie, doing := Gone));
      case Return => SetKeeps(s, p.(doing := User));
    }
  }

  lemma StepPre(s: State, a: Act)
    requires Inv(s) && Enabled(s, a) && !a.Yield?
    ensures s.cur in s.procs && s.procs[s.cur].status == Running
    ensures s.procs[s.cur].doing.QueueSlept? ==> FUTEX_BUCKETS <= s.procs[s.cur].doing.queue
  {
    assert ProcOk(s, s.cur);
  }

  lemma SetQueues(s: State, p: Proc)
    ensures SetProc(s, p).queues == s.queues
  {
  }

  /** Before any process exists, nothing is on any list. */
  lemma InitKeeps(n: nat, words: Words)
    requires FUTEX_BUCKETS <= n
    ensures Inv(State(map[], seq(n, _ => []), [], IDLE, words))
  {
  }

  // ---------- No lost wakeup ----------

  /** The process sleeps in FUTEX_WAIT on addr of that space. */
  predicate SleepsAt(x: Proc, space: nat, addr: nat) {
    x.status == Sleeping && x.space == space && x.doing.WaitSlept? && x.doing.addr == addr
  }

  /** Nobody sleeps on the word expecting a value it does not have. */
  ghost predicate Quiet(s: State, space: nat, addr: nat) {
    (space, addr) in s.words &&
    forall p :: p in s.procs && SleepsAt(s.procs[p], space, addr) ==> s.procs[p].doing.val == s.words[(space, addr)]
  }

  /** Waking everybody who waits on addr leaves nobody asleep on it, in any space; each of them is
      now runnable and on the run queue. */
  lemma WakeAllWakes(s: State, addr: nat, nr: nat)
    requires Inv(s) && |s.queues[Bucket(addr)]| <= nr
    ensures var s' := WakeAddr(s, Bucket(addr), addr, nr);
            && s'.procs.Keys == s.procs.Keys
            && forall p, space :: p in s.procs ==>
                 && !SleepsAt(s'.procs[p], space, addr)
                 && (SleepsAt(s.procs[p], space, addr) ==> s'.procs[p].status == Runnable && p in s'.runq)
  {
    var b := Bucket(addr);
    var s' := WakeAddr(s, b, addr, nr);
    ChosenSplit(s.queues[b], s.procs, addr, nr);
    hide Bucket, NoDup, Chosen, Left;
    forall p, space | p in s.procs && SleepsAt(s.procs[p], space, addr)
      ensures s'.procs[p].status == Runnable && p in s'.runq
    {
      assert ProcOk(s, p);
      assert SleepsOn(s, p, b);
      assert p in s.queues[b] && Waits(s.procs, p, addr);
      assert p in Chosen(s.queues[b], s.procs, addr, nr);
    }
  }

  /** Which sleepers of the bucket a wake of nr reaches: the others stay exactly as they are. */
  lemma WakeReaches(s: State, addr: nat, nr: nat, i: nat)
    requires Inv(s) && i < |s.queues[Bucket(addr)]|
    ensures var q := s.queues[Bucket(addr)];
            var s' := WakeAddr(s, Bucket(addr), addr, nr);
            && q[i] in s.procs && q[i] in s'.procs
            && if s.procs[q[i]].futex == addr && Waiting(q[..i], s.procs, addr) < nr
               then s'.procs[q[i]].status == Runnable && q[i] in s'.runq
               else s'.procs[q[i]] == s.procs[q[i]] && q[i] in s'.queues[Bucket(addr)]
  {
    var b := Bucket(addr);
    var q := s.queues[b];
    ChosenIff(q, s.procs, addr, nr, i);
    ChosenSplit(q, s.procs, addr, nr);
    hide Bucket, NoDup, Chosen, Left, Waiting;
    assert q[i] in q && SleepsOn(s, q[i], b);
  }

  /** A step that leaves the word as it is lets nobody fall asleep expecting another value: the
      waiter's look at the word and its joining of the queue are one step. */
  lemma StepQuiet(s: State, a: Act, space: nat, addr: nat)
    requires Inv(s) && Enabled(s, a) && Quiet(s, space, addr)
    requires var w := Next(s, a).words; (space, addr) in w && w[(space, addr)] == s.words[(space, addr)]
    ensures Quiet(Next(s, a), space, addr)
  {
    hide Bucket, Chosen, Left, Inv;
    assert FUTEX_BUCKETS <= |s.queues| by { InvQueues(s); }
    var s' := Next(s, a);
    forall p | p in s'.procs && SleepsAt(s'.procs[p], space, addr)
      ensures s'.procs[p].doing.val == s'.words[(space, addr)]
    {
      assert p in s.procs && s.procs[p] != s'.procs[p] ==> a.WaitCheck?;
    }
  }

  lemma InvQueues(s: State)
    requires Inv(s)
    ensures FUTEX_BUCKETS <= |s.queues| && forall q :: 0 <= q < |s.queues| ==> NoDup(s.queues[q])
  {
  }

  // ---------- Runs ----------

  datatype Run = Run(states: seq<State>, acts: seq<Act>)

  /** A run starts in a good state and makes one step at a time. */
  ghost predicate IsRun(r: Run) {
    && |r.states| == |r.acts| + 1 && Inv(r.states[0])
    && forall i :: 0 <= i < |r.acts| ==> StepAt(r, i)
  }

  ghost predicate StepAt(r: Run, i: nat)
    requires |r.states| == |r.acts| + 1 && i < |r.acts|
  {
    Inv(r.states[i]) ==> Enabled(r.states[i], r.acts[i]) && Next(r.states[i], r.acts[i]) == r.states[i + 1]
  }

  lemma {:induction false} RunKeeps(r: Run, i: nat)
    requires IsRun(r) && i < |r.states|
    ensures Inv(r.states[i])
  {
    if i > 0 {
      RunKeeps(r, i - 1);
      assert StepAt(r, i - 1);
      StepKeeps(r.states[i - 1], r.acts[i - 1]);
    }
  }

  ghost predicate WordIs(r: Run, i: nat, space: nat, addr: nat, val: int)
    requires i < |r.states|
  {
    (space, addr) in r.states[i].words && r.states[i].words[(space, addr)] == val
  }

  /** Once quiet, a word stays quiet for as long as it keeps its value. */
  lemma {:induction false} StaysQuiet(r: Run, i: nat, j: nat, space: nat, addr: nat, val: int)
    requires IsRun(r) && i <= j < |r.states| && Quiet(r.states[i], space, addr)
    requires forall k :: i <= k <= j ==> WordIs(r, k, space, addr, val)
    ensures Quiet(r.states[j], space, addr)
    decreases j
  {
    if i < j {
      StaysQuiet(r, i, j - 1, space, addr, val);
      RunKeeps(r, j - 1);
      assert StepAt(r, j - 1);
      assert WordIs(r, j - 1, space, addr, val) && WordIs(r, j, space, addr, val);
      StepQuiet(r.states[j - 1], r.acts[j - 1], space, addr);
    }
  }

  /** Process ids are positive 32-bit ints. */
  ghost predicate PidsFit(s: State) { forall p :: p in s.procs ==> 0 < p <= WAKE_ALL }

  /** The step stores to the word, or unmaps it, from user code. */
  predicate Touches(s: State, a: Act, space: nat, addr: nat) {
    s.cur in s.procs && s.procs[s.cur].space == space && (a.Store? || a.Unmap?) && a.addr == addr
  }

  /** A word changes only when user code touches it, to what is stored or to none, or when a thread that exits
      clears it: to 0. */
  lemma WordAfter(s: State, a: Act, space: nat, addr: nat)
    requires Inv(s) && Enabled(s, a)
    ensures var w, key := Next(s, a).words, (space, addr);
            if Touches(s, a, space, addr) then if a.Store? then key in w && w[key] == a.val else key !in w
            else && (key in w <==> key in s.words)
                 && (key in w ==> w[key] == s.words[key] || (a.ClearTid? && w[key] == 0))
  {
    hide Bucket, Chosen, Left, Inv;
    assert FUTEX_BUCKETS <= |s.queues| by { InvQueues(s); }
  }

  lemma {:induction false} StaysZero(r: Run, i: nat, j: nat, space: nat, addr: nat)
    requires IsRun(r) && i <= j < |r.states| && WordIs(r, i, space, addr, 0)
    requires forall n :: i <= n < j ==> !Touches(r.states[n], r.acts[n], space, addr)
    ensures WordIs(r, j, space, addr, 0)
    decreases j
  {
    if i < j {
      StaysZero(r, i, j - 1, space, addr);
      RunKeeps(r, j - 1);
      assert StepAt(r, j - 1);
      WordAfter(r.states[j - 1], r.acts[j - 1], space, addr);
    }
  }

  // ---------- Exiting ----------

  /** What a process does, its space and its clear_child_tid change by its own steps only. */
  lemma OnlyItself(s: State, a: Act, t: nat)
    requires Inv(s) && Enabled(s, a) && t in s.procs && (a.Yield? || t != s.cur)
    ensures t in Next(s, a).procs
    ensures var x, x' := s.procs[t], Next(s, a).procs[t]; x'.doing == x.doing && x'.space == x.space && x'.tid == x.tid
  {
    hide Bucket, Chosen, Left, Inv;
    assert FUTEX_BUCKETS <= |s.queues| by { InvQueues(s); }
  }

  /** How far an exit has come. */
  function Stage(d: Doing): nat {
    match d
    case ExitClear => 1
    case ExitWake(_) => 2
    case ExitLast => 3
    case Gone => 4
    case _ => 0
  }

  predicate ExitAt(s: State, t: nat, stage: nat, space: nat, addr: nat) {
    t in s.procs && Stage(s.procs[t].doing) == stage && s.procs[t].space == space && s.procs[t].tid == addr
    && (stage == 2 ==> s.procs[t].doing == ExitWake(addr))
  }

  /** A step takes an exit no further, or by one stage: by clearing the word, by waking, by dying.  A dead
      process takes no step. */
  lemma ExitStep(s: State, a: Act, t: nat, stage: nat, space: nat, addr: nat)
    requires Inv(s) && Enabled(s, a) && stage > 0 && ExitAt(s, t, stage, space, addr)
    ensures var own := t == s.cur && !a.Yield?;
            && ExitAt(Next(s, a), t, if own then stage + 1 else stage, space, addr)
            && (own ==> stage < 4 && a == if stage == 1 then ClearTid else if stage == 2 then WakeTid else Die)
  {
    assert FUTEX_BUCKETS <= |s.queues| by { InvQueues(s); }
    if a.Yield? || t != s.cur { OnlyItself(s, a, t); }
    hide Bucket, Chosen, Left, Inv;
  }

  /** After a thread has called exit with a word to clear, it is past a stage only if it has been there, in
      order: it clears the word, then it wakes, then it dies. */
  lemma {:induction false} ExitOrder(r: Run, e: nat, i: nat, t: nat, space: nat, addr: nat) returns (stage: nat, c: nat, k: nat)
    requires IsRun(r) && e <= i < |r.states| && ExitAt(r.states[e], t, 1, space, addr)
    ensures 1 <= stage <= 4 && ExitAt(r.states[i], t, stage, space, addr)
    ensures stage >= 2 ==> e <= c < i && r.states[c].cur == t && r.acts[c] == ClearTid && ExitAt(r.states[c], t, 1, space, addr)
    ensures stage >= 3 ==> c < k < i && r.states[k].cur == t && r.acts[k] == WakeTid && ExitAt(r.states[k], t, 2, space, addr)
    decreases i
  {
    if i == e {
      stage, c, k := 1, 0, 0;
    } else {
      stage, c, k := ExitOrder(r, e, i - 1, t, space, addr);
      RunKeeps(r, i - 1);
      assert StepAt(r, i - 1);
      ExitStep(r.states[i - 1], r.acts[i - 1], t, stage, space, addr);
      if t == r.states[i - 1].cur && !r.acts[i - 1].Yield? {
        if stage == 1 { c := i - 1; }
        if stage == 2 { k := i - 1; }
        stage := stage + 1;
      }
    }
  }

  /** Calling exit with a word to clear starts this. */
  lemma ExitStarts(s: State)
    requires Inv(s) && Enabled(s, CallExit)
    ensures var p, s' := s.procs[s.cur], Next(s, CallExit);
            && s'.cur == s.cur && s.cur in s'.procs && s'.words == s.words && s'.queues == s.queues && s'.runq == s.runq
            && (p.tid != 0 ==> ExitAt(s', s.cur, 1, p.space, p.tid)) && (p.tid == 0 ==> ExitAt(s', s.cur, 3, p.space, 0))
  {
  }

  /** A dead process stays as it is, whatever the others do, and does not run again. */
  lemma ZombieStep(s: State, a: Act, t: nat)
    requires Inv(s) && Enabled(s, a) && t in s.procs && s.procs[t].status == Zombie
    ensures t in Next(s, a).procs && Next(s, a).procs[t] == s.procs[t]
  {
    assert t !in s.runq;
    assert forall q :: 0 <= q < |s.queues| ==> (t in s.queues[q] <==> SleepsOn(s, t, q));
    match a
    case Wake => ChosenIn(s, t, s.procs[s.cur].(doing := User), s.procs[s.cur].doing.addr, s.procs[s.cur].doing.nr);
    case WakeTid => ChosenIn(s, t, s.procs[s.cur].(doing := ExitLast), s.procs[s.cur].doing.addr, WAKE_ALL);
    case _ =>
      hide Bucket, Chosen, Left;
  }

  lemma ChosenIn(s: State, t: nat, p: Proc, addr: nat, nr: nat)
    requires Inv(s) && t in s.procs && s.procs[t].status == Zombie
    ensures FUTEX_BUCKETS <= |s.queues| && t !in Chosen(s.queues[Bucket(addr)], SetProc(s, p).procs, addr, nr)
  {
    assert !SleepsOn(s, t, Bucket(addr));
    ChosenSplit(s.queues[Bucket(addr)], SetProc(s, p).procs, addr, nr);
  }

  lemma {:induction false} DeadForever(r: Run, i: nat, j: nat, t: nat)
    requires IsRun(r) && i <= j < |r.states| && t in r.states[i].procs && r.states[i].procs[t].status == Zombie
    ensures t in r.states[j].procs && r.states[j].procs[t] == r.states[i].procs[t]
    decreases j
  {
    if i < j {
      DeadForever(r, i, j - 1, t);
      RunKeeps(r, j - 1);
      assert StepAt(r, j - 1);
      ZombieStep(r.states[j - 1], r.acts[j - 1], t);
    }
  }

  lemma Clears(s: State)
    requires Inv(s) && Enabled(s, ClearTid)
    ensures var p, w := s.procs[s.cur], Next(s, ClearTid).words;
            w == if (p.space, p.tid) in s.words then s.words[(p.space, p.tid) := 0] else s.words
  {
  }

  /** Thread join has no lost wakeup.  Step c is an exiting thread's clearing of its word, which is mapped,
      and step k its wake-all; from c on nobody touches the word.  Then the word is 0 in every later state j,
      and from the wake-all on no process of that space is asleep on it expecting anything but 0, however the
      steps interleave. */
  lemma ThreadJoin(r: Run, c: nat, k: nat, j: nat, t: nat, space: nat, addr: nat)
    requires IsRun(r) && c < k < j < |r.states| && ExitAt(r.states[c], t, 1, space, addr) && (space, addr) in r.states[c].words
    requires r.states[c].cur == t && r.acts[c] == ClearTid && r.states[k].cur == t && r.acts[k] == WakeTid
    requires PidsFit(r.states[k]) && forall n :: c < n < j ==> !Touches(r.states[n], r.acts[n], space, addr)
    ensures forall n :: c < n <= j ==> WordIs(r, n, space, addr, 0)
    ensures forall p :: p in r.states[j].procs && SleepsAt(r.states[j].procs[p], space, addr)
              ==> r.states[j].procs[p].doing.val == 0
  {
    hide Inv, Next, Enabled;
    RunKeeps(r, c);
    assert StepAt(r, c);
    Clears(r.states[c]);
    assert WordIs(r, c + 1, space, addr, 0);
    forall n | c < n <= j ensures WordIs(r, n, space, addr, 0) { StaysZero(r, c + 1, n, space, addr); }
    StillExiting(r, c, k, t, space, addr);
    RunKeeps(r, k);
    assert StepAt(r, k);
    QueueShort(r.states[k], Bucket(addr));
    ExitWakes(r.states[k], addr);
    assert WordIs(r, k + 1, space, addr, 0);
    assert Quiet(r.states[k + 1], space, addr);
    StaysQuiet(r, k + 1, j, space, addr, 0);
    assert WordIs(r, j, space, addr, 0);
  }

  lemma StillExiting(r: Run, c: nat, k: nat, t: nat, space: nat, addr: nat)
    requires IsRun(r) && c < k < |r.acts| && ExitAt(r.states[c], t, 1, space, addr)
    requires r.states[k].cur == t && r.acts[k] == WakeTid
    ensures Exiting(r.states[k], addr)
  {
    var stage, c', k' := ExitOrder(r, c, k, t, space, addr);
    RunKeeps(r, k);
    assert StepAt(r, k);
    ExitStep(r.states[k], r.acts[k], t, stage, space, addr);
  }

  /** So a join that waits until the thread is dead is answered: a thread that called exit, with a mapped word
      that nobody touches from then on, is dead only when the word is 0 and nobody sleeps on it expecting
      anything else. */
  lemma JoinAfterExit(r: Run, e: nat, j: nat, t: nat, space: nat, addr: nat)
    requires IsRun(r) && e <= j < |r.states| && ExitAt(r.states[e], t, 1, space, addr) && (space, addr) in r.states[e].words
    requires forall n :: e <= n < j ==> !Touches(r.states[n], r.acts[n], space, addr) && PidsFit(r.states[n])
    requires t in r.states[j].procs && r.states[j].procs[t].doing.Gone?
    ensures WordIs(r, j, space, addr, 0)
    ensures forall p :: p in r.states[j].procs && SleepsAt(r.states[j].procs[p], space, addr)
              ==> r.states[j].procs[p].doing.val == 0
  {
    var stage, c, k := ExitOrder(r, e, j, t, space, addr);
    StaysMapped(r, e, c, space, addr);
    ThreadJoin(r, c, k, j, t, space, addr);
  }

  lemma {:induction false} StaysMapped(r: Run, i: nat, j: nat, space: nat, addr: nat)
    requires IsRun(r) && i <= j < |r.states| && (space, addr) in r.states[i].words
    requires forall n :: i <= n < j ==> !Touches(r.states[n], r.acts[n], space, addr)
    ensures (space, addr) in r.states[j].words
    decreases j
  {
    if i < j {
      StaysMapped(r, i, j - 1, space, addr);
      RunKeeps(r, j - 1);
      assert StepAt(r, j - 1);
      WordAfter(r.states[j - 1], r.acts[j - 1], space, addr);
    }
  }

  /** The process on the CPU is about to wake the waiters on addr for the last time. */
  predicate Exiting(s: State, addr: nat) { s.cur in s.procs && s.procs[s.cur].doing == ExitWake(addr) }

  lemma ExitWakes(s: State, addr: nat)
    requires Inv(s) && Enabled(s, WakeTid) && Exiting(s, addr)
    requires |s.queues[Bucket(addr)]| <= WAKE_ALL
    ensures var s' := Next(s, WakeTid); forall p, space :: p in s'.procs ==> !SleepsAt(s'.procs[p], space, addr)
  {
    hide Bucket, Inv;
    var p := s.procs[s.cur].(doing := ExitLast);
    SetKeeps(s, p);
    InvQueues(s);
    WakeAllWakes(SetProc(s, p), addr, WAKE_ALL);
  }

  lemma QueueShort(s: State, b: nat)
    requires Inv(s) && PidsFit(s) && b < |s.queues|
    ensures |s.queues[b]| <= WAKE_ALL
  {
    forall i | 0 <= i < |s.queues[b]| ensures 0 < s.queues[b][i] <= WAKE_ALL {
      assert s.queues[b][i] in s.queues[b];
      assert SleepsOn(s, s.queues[b][i], b);
    }
    Pigeonhole(s.queues[b], 1, WAKE_ALL);
  }

  // ---------- Every runnable process gets the CPU ----------

  /** A runnable process keeps its place in any other step; a switch moves it up by one, or gives it
      the CPU. */
  lemma MovesUp(s: State, a: Act, n: nat)
    requires Inv(s) && Enabled(s, a) && n < |s.runq|
    ensures var s' := Next(s, a);
            if !a.Yield? then n < |s'.runq| && s'.runq[n] == s.runq[n]
            else if n == 0 then s'.cur == s.runq[0] && s.runq[0] in s'.procs && s'.procs[s.runq[0]].status == Running
            else n - 1 < |s'.runq| && s'.runq[n - 1] == s.runq[n]
  {
    InvQueues(s);
    assert s.runq[0] in s.runq && s.runq[0] in s.procs;
    hide Bucket, Chosen, Left, Inv;
    if a.Yield? && s.cur in s.procs && s.procs[s.cur].status == Running {
      assert (s.runq + [s.cur])[0] == s.runq[0] && (s.runq + [s.cur])[n] == s.runq[n];
    }
  }

  /** How many switches the run makes from state i to state j. */
  ghost function Switches(r: Run, i: nat, j: nat): (n: nat)
    requires i <= j <= |r.acts|
    decreases j
  {
    if i == j then 0 else Switches(r, i, j - 1) + if r.acts[j - 1].Yield? then 1 else 0
  }

  /** Nothing takes a waiting process off the run queue or overtakes it: after k switches, with k no
      more than its place n, it is at place n - k. */
  lemma {:induction false} KeepsItsTurn(r: Run, i: nat, j: nat, n: nat)
    requires IsRun(r) && i <= j < |r.states| && n < |r.states[i].runq| && Switches(r, i, j) <= n
    ensures n - Switches(r, i, j) < |r.states[j].runq|
    ensures r.states[j].runq[n - Switches(r, i, j)] == r.states[i].runq[n]
    decreases j
  {
    if i < j {
      KeepsItsTurn(r, i, j - 1, n);
      RunKeeps(r, j - 1);
      assert StepAt(r, j - 1);
      MovesUp(r.states[j - 1], r.acts[j - 1], n - Switches(r, i, j - 1));
    }
  }

  /** The (n + 1)-th switch after state i is made by step k - 1. */
  ghost predicate NthSwitch(r: Run, i: nat, k: nat, n: nat)
    requires i <= k <= |r.acts|
  {
    i < k && r.acts[k - 1].Yield? && Switches(r, i, k) == n + 1
  }

  /** Bounded waiting, over every run: the process at place n of the run queue gets the CPU at the
      (n + 1)-th switch, whatever steps are taken in between. */
  lemma RunsAtItsTurn(r: Run, i: nat, k: nat, n: nat)
    requires IsRun(r) && i <= k < |r.states| && n < |r.states[i].runq| && NthSwitch(r, i, k, n)
    ensures var p := r.states[i].runq[n];
            r.states[k].cur == p && p in r.states[k].procs && r.states[k].procs[p].status == Running
  {
    KeepsItsTurn(r, i, k - 1, n);
    RunKeeps(r, k - 1);
    assert StepAt(r, k - 1);
    MovesUp(r.states[k - 1], r.acts[k - 1], 0);
  }

  /** A stretch of a run with more than n switches has an (n + 1)-th one. */
  lemma {:induction false} SwitchIn(r: Run, i: nat, j: nat, n: nat) returns (k: nat)
    requires i <= j <= |r.acts| && n < Switches(r, i, j)
    ensures i < k <= j && NthSwitch(r, i, k, n)
    decreases j
  {
    if Switches(r, i, j - 1) > n {
      k := SwitchIn(r, i, j - 1, n);
    } else {
      k := j;
    }
  }

  /** A process at place n of the run queue has had the CPU by the end of any stretch of a run with
      n + 1 switches, and no later than at the (n + 1)-th of them. */
  lemma BoundedWaiting(r: Run, i: nat, j: nat, n: nat)
    requires IsRun(r) && i <= j < |r.states| && n < |r.states[i].runq| && n + 1 <= Switches(r, i, j)
    ensures var p := r.states[i].runq[n];
            exists k :: i < k <= j && Switches(r, i, k) <= n + 1
                        && r.states[k].cur == p && p in r.states[k].procs && r.states[k].procs[p].status == Running
  {
    var k := SwitchIn(r, i, j, n);
    RunsAtItsTurn(r, i, k, n);
  }

  // ---------- A wake used up by another space ----------

  function Asleep(space: nat): Proc { Proc(Sleeping, space, 4, 0, WaitSlept(4, 0)) }

  /** Process 1 of space 1 does `doing`; process 2 of space 2 and, behind it, process 3 of space 1 sleep on
      address 4, where they saw 0. */
  function TwoAsleep(doing: Doing, word: int): State {
    State(map[1 := Proc(Running, 1, 0, 0, doing), 2 := Asleep(2), 3 := Asleep(1)], Queues([2, 3]), [], 1,
          map[(1, 4) := word, (2, 4) := 0])
  }

  /** The bucket of address 4 holds q, the others nobody. */
  function Queues(q: seq<nat>): (r: seq<seq<nat>>)
    ensures |r| == FUTEX_BUCKETS && r[Bucket(4)] == q && forall i :: 0 <= i < |r| && i != Bucket(4) ==> r[i] == []
  {
    seq(FUTEX_BUCKETS, i => if i == 1 then q else [])
  }

  lemma TwoAsleepOk()
    ensures Inv(TwoAsleep(User, 0))
  {
    hide Queues;
    var s := TwoAsleep(User, 0);
    assert forall p :: p in s.procs <==> p in {1, 2, 3};
    assert forall p :: p in [2, 3] <==> p == 2 || p == 3;
    forall q, p | 0 <= q < |s.queues| ensures p in s.queues[q] <==> SleepsOn(s, p, q) {}
  }

  /** Process 1 changes the word of its space and wakes one waiter.  The waiter that wakes is process 2 of
      the other space; process 3 sleeps on although its word has changed. */
  lemma UsedUp() returns (r: Run)
    ensures IsRun(r) && r.acts == [Store(4, 1), CallWake(4, 1), Wake] && r.states[0] == TwoAsleep(User, 0)
    ensures var s := r.states[3];
            && 2 in s.procs && s.procs[2].space == 2 && s.procs[2].status == Runnable
            && 3 in s.procs && SleepsAt(s.procs[3], 1, 4) && s.procs[3].doing.val == 0 && WordIs(r, 3, 1, 4, 1)
  {
    var s0, s1, s2 := TwoAsleep(User, 0), TwoAsleep(User, 1), TwoAsleep(WakeEnter(4, 1), 1);
    TwoAsleepOk();
    hide Inv, Queues, TwoAsleep, Next, Enabled, IsRun;
    ToWake();
    WakesOther();
    r := ThreeSteps(s0, Store(4, 1), s1, CallWake(4, 1), s2, Wake);
  }

  lemma ThreeSteps(s0: State, a0: Act, s1: State, a1: Act, s2: State, a2: Act) returns (r: Run)
    requires Inv(s0) && Enabled(s0, a0) && Next(s0, a0) == s1
    requires FUTEX_BUCKETS <= |s1.queues| && Enabled(s1, a1) && Next(s1, a1) == s2
    requires FUTEX_BUCKETS <= |s2.queues| && Enabled(s2, a2)
    ensures IsRun(r) && r == Run([s0, s1, s2, Next(s2, a2)], [a0, a1, a2])
  {
    hide Next, Enabled;
    r := Run([s0, s1, s2, Next(s2, a2)], [a0, a1, a2]);
    hide Inv;
    assert StepAt(r, 0) && StepAt(r, 1) && StepAt(r, 2);
  }

  lemma ToWake()
    ensures var s0, s1, s2 := TwoAsleep(User, 0), TwoAsleep(User, 1), TwoAsleep(WakeEnter(4, 1), 1);
            && FUTEX_BUCKETS <= |s0.queues| && FUTEX_BUCKETS <= |s1.queues|
            && Enabled(s0, Store(4, 1)) && Next(s0, Store(4, 1)) == s1
            && Enabled(s1, CallWake(4, 1)) && Next(s1, CallWake(4, 1)) == s2
  {
    hide Queues;
    var w: Words := map[(1, 4) := 0, (2, 4) := 0];
    assert w[(1, 4) := 1] == map[(1, 4) := 1, (2, 4) := 0];
  }

  lemma WakesOther()
    ensures var s := TwoAsleep(WakeEnter(4, 1), 1);
            && FUTEX_BUCKETS <= |s.queues| && Enabled(s, Wake)
            && var s' := Next(s, Wake);
               && 2 in s'.procs && s'.procs[2].space == 2 && s'.procs[2].status == Runnable
               && 3 in s'.procs && s'.procs[3] == Asleep(1)
               && (1, 4) in s'.words && s'.words[(1, 4)] == 1
  {
    hide Queues, Chosen, Left, Bucket;
    var s := TwoAsleep(WakeEnter(4, 1), 1);
    var woken := SetProc(s, s.procs[1].(doing := User));
    FirstOnly(woken.procs);
    assert Next(s, Wake) == WakeAddr(woken, Bucket(4), 4, 1);
  }

  lemma FirstOnly(procs: map<nat, Proc>)
    requires Waits(procs, 2, 4)
    ensures Chosen([2, 3], procs, 4, 1) == [2]
  {
    assert Chosen([3], procs, 4, 0) == [];
    assert [2, 3][1..] == [3];
  }
}
