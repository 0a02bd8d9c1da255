/** src/sync/wait.c, src/task/sched.c and the futex parts of src/syscall/syscall.c: the code that makes
    the steps. */
module Futex {
  import opened FutexState
  import opened Lists

  const EAGAIN: int := 11
  const EFAULT: int := 14
  const EINVAL: int := 22

  class Kernel {
    var procs: map<nat, Proc>
    var queues: seq<seq<nat>>
    var runq: seq<nat>
    var cur: nat
    var words: Words

    ghost function St(): State
      reads this
    {
      State(procs, queues, runq, cur, words)
    }

    /** enqueue_proc */
    method EnqueueProc(p: nat)
      modifies this`runq
      ensures runq == old(runq) + [p]
    {
      runq := runq + [p];
    }

    /** dequeue_proc: the head of the run queue, or nobody. */
    method DequeueProc() returns (p: nat)
      requires IDLE !in runq
      modifies this`runq
      ensures if old(runq) == [] then p == IDLE && runq == [] else p == old(runq)[0] && runq == old(runq)[1..]
    {
      if runq == [] { return IDLE; }
      p := runq[0];
      runq := runq[1..];
    }

    /** wait_queue_wakeup_addr */
    method WakeupAddr(wq: nat, uaddr: nat, nr: int) returns (count: nat)
      requires Inv(St()) && wq < |queues|
      modifies this`procs, this`queues, this`runq
      ensures nr <= 0 ==> count == 0 && St() == old(St())
      ensures nr > 0 ==> && St() == WakeAddr(old(St()), wq, uaddr, nr)
                         && count == |Chosen(old(queues)[wq], old(procs), uaddr, nr)|
      ensures Inv(St())
    {
      hide Inv, WakeLoop, WakeAddr, Chosen;
      count := 0;
      if nr <= 0 { return; }
      ghost var s := St();
      WakeAddrKeeps(s, wq, uaddr, nr);
      QueueOfProcs(s, wq);
      var list := queues[wq];
      ghost var woken: seq<nat>, kept: seq<nat> := [], [];
      var i := 0;
      WakeStart(s, wq, uaddr, nr);
      while i < |list| && count < nr
        invariant i <= |list| && count == |woken| <= nr && St().cur == s.cur && St().words == s.words
        invariant WakeLoop(s, wq, uaddr, nr, list, i, woken, kept, St())
        decreases |list| - i
      {
        var p := list[i];
        WakeHere(s, wq, uaddr, nr, list, i, woken, kept, St());
        if procs[p].futex == uaddr {
          WakeTake(s, wq, uaddr, nr, list, i, woken, kept, St());
          // list_del: p stands right after the entries passed over
          queues := queues[wq := queues[wq][..i - count] + queues[wq][i - count + 1..]];
          procs := procs[p := procs[p].(status := Runnable, futex := 0)];
          EnqueueProc(p);
          woken := woken + [p];
          count := count + 1;
        } else {
          WakeSkip(s, wq, uaddr, nr, list, i, woken, kept, St());
          kept := kept + [p];
        }
        i := i + 1;
      }
      WakeDone(s, wq, uaddr, nr, list, i, woken, kept, St());
    }

    /** wait_queue_wakeup: nr at most, or everybody for a negative nr. */
    method Wakeup(wq: nat, nr: int) returns (count: nat)
      requires Inv(St()) && wq < |queues|
      modifies this`procs, this`queues, this`runq
      ensures count == if 0 < nr < |old(queues)[wq]| then nr else |old(queues)[wq]|
      ensures St() == WakeFirst(old(St()), wq, count)
      ensures Inv(St())
    {
      hide Inv, RouseLoop, WakeFirst;
      ghost var s := St();
      ghost var n := if 0 < nr < |queues[wq]| then nr else |queues[wq]|;
      WakeFirstKeeps(s, wq, n);
      QueueOfProcs(s, wq);
      count := 0;
      RouseStart(s, wq);
      while queues[wq] != []
        invariant count <= n && (nr > 0 ==> count < nr) && wq < |queues| && |queues[wq]| == |s.queues[wq]| - count
        invariant cur == s.cur && words == s.words && RouseLoop(s, wq, count, St())
        decreases |queues[wq]|
      {
        RouseStep(s, wq, count, St());
        var p := queues[wq][0];
        queues := queues[wq := queues[wq][1..]];
        procs := procs[p := procs[p].(status := Runnable)];
        EnqueueProc(p);
        count := count + 1;
        if nr > 0 && count >= nr { break; }
      }
      RouseDone(s, wq, count, St());
    }

    /** sched_yield with context_switch_yield */
    method SchedYield()
      requires Inv(St())
      modifies this
      ensures St() == Next(old(St()), Yield) && Inv(St())
    {
      ghost var s := St();
      SwitchKeeps(s);
      YieldFacts(s);
      var prev := cur;
      if prev in procs && procs[prev].status == Running {
        procs := procs[prev := procs[prev].(status := Runnable)];
        EnqueueProc(prev);
      }
      var next := DequeueProc();
      if next != IDLE {
        procs := procs[next := procs[next].(status := Running)];
      } else if prev in procs && procs[prev].status != Zombie && procs[prev].status != Sleeping {
        assert false; // a live process was queued above, so it would have been found
      }
      cur := next;
    }

    /** wait_queue_sleep, up to the switch */
    method QueueSleep(wq: nat)
      requires Inv(St()) && Enabled(St(), SleepOn(wq))
      modifies this`procs, this`queues
      ensures St() == Next(old(St()), SleepOn(wq)) && Inv(St())
    {
      StepKeeps(St(), SleepOn(wq));
      queues := queues[wq := queues[wq] + [cur]];
      procs := procs[cur := procs[cur].(status := Sleeping, doing := QueueSlept(wq))];
    }

    /** The beginning of sys_futex: EINVAL for an address that is not aligned, 0 for a wake of nobody, and 1
        when the call goes on to wait or to wake. */
    method FutexCall(wait: bool, uaddr: nat, val: int) returns (ret: int)
      requires Inv(St()) && cur in procs && procs[cur].status == Running && procs[cur].doing == User
      modifies this`procs
      ensures Inv(St()) && ret == if uaddr % 4 != 0 then -EINVAL else if !wait && val <= 0 then 0 else 1
      ensures ret <= 0 ==> procs == old(procs)
      ensures ret == 1 ==> && St() == Next(old(St()), if wait then CallWait(uaddr, val) else CallWake(uaddr, val))
                           && procs == old(procs)[cur := procs[cur]]
                           && procs[cur].doing == if wait then WaitEnter(uaddr, val) else WakeEnter(uaddr, val)
    {
      if uaddr % 4 != 0 { return -EINVAL; }
      if wait {
        StepKeeps(St(), CallWait(uaddr, val));
        procs := procs[cur := procs[cur].(doing := WaitEnter(uaddr, val))];
      } else {
        if val <= 0 { return 0; }
        StepKeeps(St(), CallWake(uaddr, val));
        procs := procs[cur := procs[cur].(doing := WakeEnter(uaddr, val))];
      }
      ret := 1;
    }

    /** wait_queue_sleep after the switch back. */
    method QueueResume()
      requires Inv(St()) && Enabled(St(), Return)
      modifies this`procs
      ensures St() == Next(old(St()), Return) && Inv(St())
      ensures procs == old(procs)[cur := procs[cur]] && procs[cur].doing == User && procs[cur].status == Running
    {
      StepKeeps(St(), Return);
      procs := procs[cur := procs[cur].(doing := User)];
    }

    /** One attempt of FUTEX_WAIT under the bucket lock: 0 when the process is now asleep on the word. */
    method FutexWait(uaddr: nat, val: int) returns (ret: int)
      requires Inv(St()) && Enabled(St(), WaitCheck) && procs[cur].doing == WaitEnter(uaddr, val)
      modifies this`procs, this`queues
      ensures St() == Next(old(St()), WaitCheck) && Inv(St())
      ensures var key := (old(procs)[cur].space, uaddr);
              ret == if key !in words then -EFAULT else if words[key] != val then -EAGAIN else 0
      ensures ret == 0 <==> SleepsAt(procs[cur], old(procs)[cur].space, uaddr) && procs[cur].doing.val == val
      ensures ret == 0 ==> queues == old(queues)[Bucket(uaddr) := old(queues)[Bucket(uaddr)] + [cur]] && procs[cur].futex == uaddr
      ensures ret != 0 ==> queues == old(queues) && procs[cur].status == Running && procs[cur].doing == User
    {
      StepKeeps(St(), WaitCheck);
      var p := procs[cur];
      if (p.space, uaddr) !in words {
        procs := procs[cur := p.(doing := User)];
        return -EFAULT;
      }
      if words[(p.space, uaddr)] != val {
        procs := procs[cur := p.(doing := User)];
        return -EAGAIN;
      }
      var b := Bucket(uaddr);
      queues := queues[b := queues[b] + [cur]];
      procs := procs[cur := p.(futex := uaddr, status := Sleeping, doing := WaitSlept(uaddr, val))];
      ret := 0;
    }

    /** FUTEX_WAIT after the switch back: 1 when the word still has the old value and the loop goes on. */
    method FutexResume(uaddr: nat, val: int) returns (ret: int)
      requires Inv(St()) && Enabled(St(), Recheck) && procs[cur].doing == WaitSlept(uaddr, val)
      modifies this`procs
      ensures St() == Next(old(St()), Recheck) && Inv(St())
      ensures var key := (old(procs)[cur].space, uaddr);
              ret == if key !in words then -EFAULT else if words[key] != val then 0 else 1
      ensures procs == old(procs)[cur := procs[cur]] && procs[cur].futex == 0 && procs[cur].status == Running
      ensures procs[cur].doing == if ret <= 0 then User else WaitEnter(uaddr, val)
    {
      StepKeeps(St(), Recheck);
      var p := procs[cur];
      if (p.space, uaddr) !in words {
        procs := procs[cur := p.(futex := 0, doing := User)];
        return -EFAULT;
      }
      if words[(p.space, uaddr)] != val {
        procs := procs[cur := p.(futex := 0, doing := User)];
        return 0;
      }
      procs := procs[cur := p.(futex := 0, doing := WaitEnter(uaddr, val))];
      ret := 1;
    }

    /** sys_futex, FUTEX_WAKE: how many were woken. */
    method FutexWake(uaddr: nat, nr: nat) returns (count: nat)
      requires Inv(St()) && Enabled(St(), Wake) && procs[cur].doing == WakeEnter(uaddr, nr) && nr > 0
      modifies this`procs, this`queues, this`runq
      ensures St() == Next(old(St()), Wake) && Inv(St())
      ensures count == |Chosen(old(queues)[Bucket(uaddr)], old(procs)[cur := old(procs)[cur].(doing := User)], uaddr, nr)| <= nr
    {
      hide Inv;
      InvQueues(St());
      StepKeeps(St(), Wake);
      ghost var s := St();
      SetKeeps(s, procs[cur].(doing := User));
      procs := procs[cur := procs[cur].(doing := User)];
      ChosenSplit(queues[Bucket(uaddr)], procs, uaddr, nr);
      hide Bucket, Chosen;
      count := WakeupAddr(Bucket(uaddr), uaddr, nr);
    }

    /** sys_set_tid_address */
    method SetTidAddress(tidptr: nat) returns (pid: nat)
      requires Inv(St()) && Enabled(St(), SetTid(tidptr))
      modifies this`procs
      ensures St() == Next(old(St()), SetTid(tidptr)) && Inv(St())
      ensures procs == old(procs)[cur := old(procs)[cur].(tid := tidptr)] && pid == cur
    {
      StepKeeps(St(), SetTid(tidptr));
      procs := procs[cur := procs[cur].(tid := tidptr)];
      pid := cur;
    }

    /** The part of clone that makes the new process runnable. */
    method StartProc(pid: nat, space: nat, tid: nat)
      requires Inv(St()) && Enabled(St(), Spawn(pid, space, tid))
      modifies this`procs, this`runq
      ensures St() == Next(old(St()), Spawn(pid, space, tid)) && Inv(St())
      ensures procs == old(procs)[pid := Proc(Runnable, space, 0, tid, User)] && runq == old(runq) + [pid]
    {
      StepKeeps(St(), Spawn(pid, space, tid));
      procs := procs[pid := Proc(Runnable, space, 0, tid, User)];
      EnqueueProc(pid);
    }

    /** The beginning of sys_exit; with a clear_child_tid the store is next. */
    method ExitBegin()
      requires Inv(St()) && Enabled(St(), CallExit)
      modifies this`procs
      ensures St() == Next(old(St()), CallExit) && Inv(St())
      ensures procs == old(procs)[cur := procs[cur]] && procs[cur].futex == 0 && procs[cur].tid == old(procs)[cur].tid
      ensures procs[cur].doing == if procs[cur].tid != 0 then ExitClear else ExitLast
    {
      StepKeeps(St(), CallExit);
      var p := procs[cur];
      procs := procs[cur := p.(futex := 0, doing := if p.tid != 0 then ExitClear else ExitLast)];
    }

    /** The store of sys_exit: copyout of a zero, whose failure is not looked at. */
    method ExitClearTid()
      requires Inv(St()) && Enabled(St(), ClearTid)
      modifies this`procs, this`words
      ensures St() == Next(old(St()), ClearTid) && Inv(St())
      ensures var p := old(procs)[cur];
              && words == (if (p.space, p.tid) in old(words) then old(words)[(p.space, p.tid) := 0] else old(words))
              && Exiting(St(), p.tid)
    {
      StepKeeps(St(), ClearTid);
      var p, zero := procs[cur], 0;
      if (p.space, p.tid) in words {
        words := words[(p.space, p.tid) := zero];
      }
      procs := procs[cur := p.(doing := ExitWake(p.tid))];
    }

    /** The process becomes a zombie, in which state it stays. */
    method ExitDie()
      requires Inv(St()) && Enabled(St(), Die)
      modifies this`procs
      ensures St() == Next(old(St()), Die) && Inv(St())
      ensures procs == old(procs)[cur := procs[cur]] && procs[cur].status == Zombie && procs[cur].doing == Gone
    {
      StepKeeps(St(), Die);
      procs := procs[cur := procs[cur].(status := Zombie, doing := Gone)];
    }

    /** The end of sys_exit: the wake-all on the cleared word.  Nobody is left asleep on it. */
    method ExitWakeAll(uaddr: nat)
      requires Inv(St()) && Enabled(St(), WakeTid) && Exiting(St(), uaddr) && PidsFit(St())
      modifies this`procs, this`queues, this`runq
      ensures St() == Next(old(St()), WakeTid) && Inv(St())
      ensures forall p, space :: p in procs ==> !SleepsAt(procs[p], space, uaddr)
    {
      hide Inv;
      InvQueues(St());
      StepKeeps(St(), WakeTid);
      QueueShort(St(), Bucket(uaddr));
      ExitWakes(St(), uaddr);
      SetKeeps(St(), procs[cur].(doing := ExitLast));
      procs := procs[cur := procs[cur].(doing := ExitLast)];
      var _ := WakeupAddr(Bucket(uaddr), uaddr, WAKE_ALL);
    }
  }

  /** After i entries: `woken` were taken off the queue and made runnable, `kept` were passed over. */
  ghost predicate WakeLoop(s: State, wq: nat, addr: nat, nr: nat, list: seq<nat>, i: nat,
                           woken: seq<nat>, kept: seq<nat>, now: State) {
    && wq < |s.queues| && list == s.queues[wq] && NoDup(list) && (forall p :: p in list ==> p in s.procs)
    && i <= |list| && |woken| <= nr && |woken| + |kept| == i && (forall p :: p in woken ==> p in list[..i])
    && now.queues == s.queues[wq := kept + list[i..]] && now.runq == s.runq + woken
    && now.procs == Woken(s.procs, woken)
    && Chosen(list, s.procs, addr, nr) == woken + Chosen(list[i..], s.procs, addr, nr - |woken|)
    && Left(list, s.procs, addr, nr) == kept + Left(list[i..], s.procs, addr, nr - |woken|)
  }

  lemma WakeStart(s: State, wq: nat, addr: nat, nr: nat)
    requires wq < |s.queues| && NoDup(s.queues[wq]) && forall p :: p in s.queues[wq] ==> p in s.procs
    ensures WakeLoop(s, wq, addr, nr, s.queues[wq], 0, [], [], s)
  {
    hide NoDup;
    assert s.queues[wq][0..] == s.queues[wq];
    assert [] + s.queues[wq] == s.queues[wq] && s.runq + [] == s.runq;
  }

  lemma WakeHere(s: State, wq: nat, addr: nat, nr: nat, list: seq<nat>, i: nat, woken: seq<nat>, kept: seq<nat>, now: State)
    requires WakeLoop(s, wq, addr, nr, list, i, woken, kept, now) && i < |list|
    ensures list[i] in now.procs && list[i] !in woken && now.procs[list[i]] == s.procs[list[i]]
    ensures wq < |now.queues| && |now.queues[wq]| == |kept| + |list| - i && i == |woken| + |kept|
  {
    hide Chosen, Left;
    assert list[i] in list;
  }

  lemma WakeTake(s: State, wq: nat, addr: nat, nr: nat, list: seq<nat>, i: nat, woken: seq<nat>, kept: seq<nat>, now: State)
    requires WakeLoop(s, wq, addr, nr, list, i, woken, kept, now) && i < |list| && |woken| < nr
    requires list[i] in now.procs && now.procs[list[i]].futex == addr
    ensures wq < |now.queues| && |kept| < |now.queues[wq]|
    ensures var p, q := list[i], now.queues[wq];
            WakeLoop(s, wq, addr, nr, list, i + 1, woken + [p], kept,
                     now.(queues := now.queues[wq := q[..|kept|] + q[|kept| + 1..]], runq := now.runq + [p],
                          procs := now.procs[p := now.procs[p].(status := Runnable, futex := 0)]))
  {
    WakeHere(s, wq, addr, nr, list, i, woken, kept, now);
    var p, q := list[i], now.queues[wq];
    hide NoDup;
    ListSplit(list, i);
    TakeOut(kept, p, list[i + 1..]);
    WokenMore(s.procs, woken, p);
    Append(woken, p, Chosen(list[i + 1..], s.procs, addr, nr - |woken| - 1));
    hide Woken;
    assert s.runq + (woken + [p]) == s.runq + woken + [p];
    assert list[..i + 1] == list[..i] + [p];
  }

  lemma ListSplit(list: seq<nat>, i: nat)
    requires i < |list|
    ensures list[i..] == [list[i]] + list[i + 1..] && list[i..][0] == list[i] && list[i..][1..] == list[i + 1..]
  {
  }

  lemma TakeOut(a: seq<nat>, p: nat, b: seq<nat>)
    ensures var q := a + ([p] + b); q[..|a|] + q[|a| + 1..] == a + b
  {
  }

  lemma WakeSkip(s: State, wq: nat, addr: nat, nr: nat, list: seq<nat>, i: nat, woken: seq<nat>, kept: seq<nat>, now: State)
    requires WakeLoop(s, wq, addr, nr, list, i, woken, kept, now) && i < |list| && |woken| < nr
    requires list[i] in now.procs && now.procs[list[i]].futex != addr
    ensures WakeLoop(s, wq, addr, nr, list, i + 1, woken, kept + [list[i]], now)
  {
    WakeHere(s, wq, addr, nr, list, i, woken, kept, now);
    hide NoDup, Woken;
    ListSplit(list, i);
    Append(kept, list[i], list[i + 1..]);
    Append(kept, list[i], Left(list[i + 1..], s.procs, addr, nr - |woken|));
    assert list[..i + 1] == list[..i] + [list[i]];
  }

  lemma WakeDone(s: State, wq: nat, addr: nat, nr: nat, list: seq<nat>, i: nat, woken: seq<nat>, kept: seq<nat>, now: State)
    requires WakeLoop(s, wq, addr, nr, list, i, woken, kept, now) && (i == |list| || |woken| == nr)
    requires now.cur == s.cur && now.words == s.words
    ensures now == WakeAddr(s, wq, addr, nr) && |Chosen(list, s.procs, addr, nr)| == |woken|
  {
    hide NoDup, Woken;
    assert Chosen(list[i..], s.procs, addr, nr - |woken|) == [];
    assert Left(list[i..], s.procs, addr, nr - |woken|) == list[i..];
    assert woken + [] == woken;
  }

  /** The first n of the queue have been made runnable. */
  ghost predicate RouseLoop(s: State, wq: nat, n: nat, now: State) {
    && wq < |s.queues| && n <= |s.queues[wq]| && (forall p :: p in s.queues[wq] ==> p in s.procs)
    && now.queues == s.queues[wq := s.queues[wq][n..]] && now.runq == s.runq + s.queues[wq][..n]
    && now.procs == Roused(s.procs, s.queues[wq][..n])
  }

  lemma RouseStart(s: State, wq: nat)
    requires wq < |s.queues| && forall p :: p in s.queues[wq] ==> p in s.procs
    ensures RouseLoop(s, wq, 0, s)
  {
    assert s.queues[wq][0..] == s.queues[wq] && s.runq + [] == s.runq;
  }

  lemma RouseStep(s: State, wq: nat, n: nat, now: State)
    requires RouseLoop(s, wq, n, now) && n < |s.queues[wq]|
    ensures wq < |now.queues| && 0 < |now.queues[wq]| && now.queues[wq][0] in now.procs
    ensures var p := now.queues[wq][0];
            RouseLoop(s, wq, n + 1, now.(queues := now.queues[wq := now.queues[wq][1..]], runq := now.runq + [p],
                                         procs := now.procs[p := now.procs[p].(status := Runnable)]))
  {
    var list := s.queues[wq];
    ListSplit(list, n);
    assert list[n] in list;
    assert list[..n + 1] == list[..n] + [list[n]];
    RousedMore(s.procs, list[..n], list[n]);
    hide Roused;
    assert s.runq + list[..n + 1] == s.runq + list[..n] + [list[n]];
  }

  lemma RouseDone(s: State, wq: nat, n: nat, now: State)
    requires RouseLoop(s, wq, n, now) && now.cur == s.cur && now.words == s.words
    ensures now == WakeFirst(s, wq, n)
  {
  }

  lemma QueueOfProcs(s: State, q: nat)
    requires Inv(s) && q < |s.queues|
    ensures NoDup(s.queues[q]) && forall p :: p in s.queues[q] ==> p in s.procs
  {
    forall p | p in s.queues[q] ensures p in s.procs { assert SleepsOn(s, p, q); }
  }

  lemma WokenMore(procs: map<nat, Proc>, c: seq<nat>, p: nat)
    requires p in procs && p !in c
    ensures Woken(procs, c + [p]) == Woken(procs, c)[p := procs[p].(status := Runnable, futex := 0)]
  {
  }

  /** The processes after those in c have been woken by wait_queue_wakeup. */
  function Roused(procs: map<nat, Proc>, c: seq<nat>): map<nat, Proc> {
    map p | p in procs :: if p in c then procs[p].(status := Runnable) else procs[p]
  }

  lemma RousedMore(procs: map<nat, Proc>, c: seq<nat>, p: nat)
    requires p in procs
    ensures Roused(procs, c + [p]) == Roused(procs, c)[p := Roused(procs, c)[p].(status := Runnable)]
  {
  }

  lemma Append(a: seq<nat>, p: nat, b: seq<nat>)
    ensures a + ([p] + b) == a + [p] + b
  {
  }

  lemma YieldFacts(s: State)
    requires Inv(s)
    ensures IDLE !in s.runq && forall p :: p in s.runq ==> p in s.procs
  {
  }
}
