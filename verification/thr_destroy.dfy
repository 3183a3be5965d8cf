/** Destroying locks and condition variables. The asserts of the calls keep their queues from being freed
    with sleepers in them; but a thread that has been woken in `lock_acquire`, or that waits on a condition
    variable, is going to look at the lock again. */
module ThreadDestroy {
  import opened ThreadQueues
  import opened ThreadSystem
  import opened ThreadInvariant
  import opened ThreadEffects
  import opened ThreadTheorems

  /** Thread `n` is in `lock_acquire(l)`, perhaps called by `cv_wait`, and has not been killed. */
  ghost predicate InAcquire(s: State, l: nat, n: Nid) {
    n in s.th && s.th[n].pc == Acquiring(l) && s.th[n].status != Exited && !s.th[n].place.ExitQ?
  }

  ghost predicate Unused(s: State, l: nat) {
    forall n {:trigger InAcquire(s, l, n)} :: !InAcquire(s, l, n)
  }

  /** The next step reads the lock: the thread that has been switched to is in `lock_acquire`. */
  ghost predicate Touches(s: State, l: nat) {
    !s.halted && Rq(s) != [] && InAcquire(s, l, Rq(s)[0])
  }

  /** A destroyed condition variable has no waiters. */
  ghost predicate CvsEmpty(s: State) {
    forall c: nat {:trigger CvQ(c) in s.freed} :: CvQ(c) in s.freed ==> Q(s, CvQ(c)) == []
  }

  // ----- a lock that nobody is acquiring stays unused -----

  lemma TryAcquirePc(s: State, l: nat)
    requires Rq(s) != []
    ensures Rq(s)[0] in TryAcquire(s, l).th && TryAcquire(s, l).th[Rq(s)[0]].pc in {User, Acquiring(l)}
  {
    hide Q;
  }

  /** Only `lock_acquire` and `cv_wait` on the lock, or going on with them, leave the caller in it. */
  lemma HeadPc(s: State, t: Step, l: nat)
    requires Inv(s) && Enabled(s, t) && !Next(s, t).halted && t != Acquire(l) && !(t.CvWait? && t.l == l)
    ensures var n := Rq(s)[0]; InAcquire(Next(s, t), l, n) ==> t == Resume && InAcquire(s, l, n)
  {
    hide Q, NoRepeats, Placed, Tabled, Phased, LocksOk, AwaitsOk, FindTid, FirstFreeTid, YieldSeq, RotateSeq, Exit,
      TryAcquire, Unlock, ClearExited, Wake;
    HeadPlaced(s);
    var n := Rq(s)[0];
    match t
    case Resume => ResumePc(s, l);
    case ExitCall => ExitKept(s);
    case Acquire(m) => TryAcquirePc(s, m);
    case CvWait(c, m) =>
      UnlockKeeps(s, m);
      TryAcquirePc(Unlock(s, m), m);
    case Release(m) => UnlockPc(s, m);
    case WakeupOn(u, all) => if Q(s, UserQ(u)) != [] { WakePc(s, UserQ(u), if all then |Q(s, UserQ(u))| else 1); }
    case Signal(c, m) => if Q(s, CvQ(c)) != [] { WakePc(s, CvQ(c), 1); }
    case Broadcast(c, m) => WakePc(s, CvQ(c), |Q(s, CvQ(c))|);
    case _ => assert s.th[n].pc == User by { UserHead(s, t); }
  }

  lemma UserHead(s: State, t: Step)
    requires Enabled(s, t) && !t.Resume?
    ensures ThOf(s, Rq(s)[0]).pc == User
  {}

  lemma WakePc(s: State, q: QueueId, k: nat)
    requires Placed(s) && IsWaitQueue(q) && k <= |Q(s, q)|
    ensures Rq(s)[0] in Wake(s, q, k).th && Wake(s, q, k).th[Rq(s)[0]].pc == ThOf(s, Rq(s)[0]).pc
  {
    hide Q, NoRepeats, Wake;
    HeadPlaced(s);
    WakeIs(s, q, k);
  }

  lemma UnlockPc(s: State, l: nat)
    requires Inv(s) && OwnsLock(s, l)
    ensures ThOf(Unlock(s, l), Rq(s)[0]) == ThOf(s, Rq(s)[0])
  {
    hide *;
    UnlockKeeps(s, l);
  }

  lemma ResumePc(s: State, l: nat)
    requires Inv(s) && Enabled(s, Resume) && !Next(s, Resume).halted
    ensures var n := Rq(s)[0]; InAcquire(Next(s, Resume), l, n) ==> InAcquire(s, l, n)
  {
    hide Q, NoRepeats, Placed, Tabled, Phased, LocksOk, AwaitsOk, Exit, TryAcquire, ClearExited;
    HeadPlaced(s);
    var n := Rq(s)[0];
    var self := ThOf(s, n);
    if self.status == Exited {
      ExitKept(s);
    } else {
      ClearKeeps(s);
      if self.pc.Acquiring? {
        var s2 := SetTh(ClearExited(s), n, self.(status := Running));
        QFields(ClearExited(s), s2);
        TryAcquirePc(s2, self.pc.l);
      }
    }
  }

  /** A thread that is in `lock_acquire` after a step was in it before, unless the step called it. */
  lemma AcquirersStep(s: State, t: Step, l: nat, n: Nid)
    requires Inv(s) && Enabled(s, t) && !Next(s, t).halted && t != Acquire(l) && !(t.CvWait? && t.l == l)
    requires InAcquire(Next(s, t), l, n)
    ensures InAcquire(s, l, n)
  {
    hide Q, NoRepeats, Next, Inv, Enabled;
    EntriesStep(s, t);
    EnabledHead(s, t);
    if n == Rq(s)[0] {
      HeadPc(s, t, l);
    } else if n in s.th {
      KnownOld(s, n);
      AliveThen(Next(s, t), n);
    } else {
      NewPc(s, t, n);
    }
  }

  lemma KnownOld(s: State, n: Nid)
    requires Inv(s) && n in s.th
    ensures n < s.next
  {
    hide Q, NoRepeats, Tabled, Phased, LocksOk, AwaitsOk;
  }

  lemma AliveThen(s: State, n: Nid)
    requires n in s.th && s.th[n].status != Exited && !s.th[n].place.ExitQ?
    ensures !Dead(s, n)
  {}

  /** A thread that a step makes is in `thread_stub`. */
  lemma NewPc(s: State, t: Step, n: Nid)
    requires Inv(s) && Enabled(s, t) && !Next(s, t).halted && n !in s.th && n in Next(s, t).th
    ensures Next(s, t).th[n].pc == Fresh
  {
    hide Q, NoRepeats, Placed, Tabled, Phased, LocksOk, AwaitsOk, Next, Enabled;
    EnabledHead(s, t);
    if t.Create? {
      CreatePc(s, t.memory, n);
    } else if t.Resume? {
      ResumeKeys(s);
    } else {
      CallKept(s, t);
    }
  }

  lemma CreatePc(s: State, memory: bool, n: Nid)
    requires Enabled(s, Create(memory)) && n !in s.th && n in Next(s, Create(memory)).th
    ensures Next(s, Create(memory)).th[n].pc == Fresh
  {
    hide Q, FirstFreeTid;
  }

  lemma ResumeKeys(s: State)
    requires Inv(s) && Enabled(s, Resume) && !Next(s, Resume).halted
    ensures Next(s, Resume).th.Keys <= s.th.Keys
  {
    hide Q, NoRepeats, Placed, Tabled, Phased, LocksOk, AwaitsOk, Exit, TryAcquire, ClearExited, Kept;
    HeadPlaced(s);
    var n := Rq(s)[0];
    var self := ThOf(s, n);
    if self.status == Exited {
      ExitKept(s);
      KeptKeys(s, Exit(s), n);
    } else {
      ClearKeeps(s);
      ClearIs(s);
      if self.pc.Acquiring? {
        var s2 := SetTh(ClearExited(s), n, self.(status := Running));
        QFields(ClearExited(s), s2);
        SelfKeeps(ClearExited(s), self.(status := Running));
        TryAcquireKept(s2, self.pc.l);
        KeptKeys(s2, TryAcquire(s2, self.pc.l), n);
      }
    }
  }

  lemma KeptKeys(s: State, s': State, n: Nid)
    requires Kept(s, s', n)
    ensures s'.th.Keys == s.th.Keys
  {}

  lemma UnusedStep(s: State, t: Step, l: nat)
    requires Inv(s) && Enabled(s, t) && !Next(s, t).halted && LockQ(l) in s.freed && Unused(s, l)
    ensures Unused(Next(s, t), l) && LockQ(l) in Next(s, t).freed
  {
    hide Q, NoRepeats, Next, Inv, InAcquire;
    SideStep(s, t);
    forall n ensures !InAcquire(Next(s, t), l, n) {
      if InAcquire(Next(s, t), l, n) { AcquirersStep(s, t, l, n); }
    }
  }

  // ----- paths from a state -----

  ghost predicate Path(ss: seq<State>, ts: seq<Step>) {
    |ss| == |ts| + 1 && forall i: nat {:trigger StepAt(ss, ts, i)} :: i < |ts| ==> StepAt(ss, ts, i)
  }

  lemma {:induction false} StaysUnused(ss: seq<State>, ts: seq<Step>, l: nat, j: nat)
    requires Path(ss, ts) && j <= |ts| && Inv(ss[0]) && LockQ(l) in ss[0].freed && Unused(ss[0], l) && !ss[j].halted
    ensures Inv(ss[j]) && LockQ(l) in ss[j].freed && Unused(ss[j], l)
  {
    hide Inv, Next, Enabled, Unused;
    if j > 0 {
      assert StepAt(ss, ts, j - 1);
      NotHalted(ss[j - 1], ts[j - 1]);
      StaysUnused(ss, ts, l, j - 1);
      StepKeeps(ss[j - 1], ts[j - 1]);
      UnusedStep(ss[j - 1], ts[j - 1], l);
    }
  }

  lemma NotHalted(s: State, t: Step)
    requires Enabled(s, t)
    ensures !s.halted && Rq(s) != []
  {}

  // ----- a lock that somebody is acquiring is touched -----

  /** A thread that is ready can be yielded to. */
  lemma ReadyTouches(s: State, l: nat, n: Nid) returns (ss: seq<State>, ts: seq<Step>)
    requires Inv(s) && !s.halted && ThOf(s, Rq(s)[0]).pc == User && InAcquire(s, l, n) && s.th[n].place == ReadyQ
    ensures Path(ss, ts) && ss[0] == s && Touches(ss[|ts|], l)
  {
    hide Q, NoRepeats, Tabled, Phased, LocksOk, AwaitsOk, FindTid, YieldSeq;
    HeadPlaced(s);
    var tid := s.th[n].tid;
    assert n in Q(s, s.th[n].place);
    FoundTid(s, n);
    var k := FindTid(s, Rq(s), tid);
    var s' := Next(s, YieldTo(tid));
    assert YieldSeq(Rq(s), k)[0] == n by { YieldIndex(Rq(s), k, 0); }
    QOfSetQ(s, ReadyQ, YieldSeq(Rq(s), k));
    QFields(SetQ(s, ReadyQ, YieldSeq(Rq(s), k)), s');
    ss, ts := [s, s'], [YieldTo(tid)];
    assert forall i: nat :: i < |ts| ==> StepAt(ss, ts, i);
  }

  lemma FoundTid(s: State, n: Nid)
    requires Inv(s) && n in Rq(s) && n != Rq(s)[0]
    ensures n in s.th && var k := FindTid(s, Rq(s), s.th[n].tid); 0 < k < |Rq(s)| && Rq(s)[k] == n
  {
    hide NoRepeats, Phased, LocksOk, AwaitsOk, Q;
    HeadPlaced(s);
    assert n in Q(s, ReadyQ);
    var i :| 0 <= i < |Rq(s)| && Rq(s)[i] == n;
    var k := FindTid(s, Rq(s), s.th[n].tid);
    assert Rq(s)[0] in Q(s, ReadyQ);
    if k < |Rq(s)| { assert Rq(s)[k] in Q(s, ReadyQ); }
  }

  lemma {:induction false} UpperBound(xs: set<nat>) returns (b: nat)
    ensures forall x :: x in xs ==> x < b
  {
    b := 0;
    if xs != {} {
      var x :| x in xs;
      var c := UpperBound(xs - {x});
      b := if c <= x then x + 1 else c;
      forall y | y in xs ensures y < b { assert y == x || y in xs - {x}; }
    }
  }

  /** A lock that has never been used. */
  lemma NewLock(s: State) returns (l: nat)
    ensures LockQ(l) !in s.freed && !LockOf(s, l).locked
  {
    var a := UpperBound(s.locks.Keys);
    var ids := set q: QueueId | q in s.freed && q.LockQ? :: q.l;
    var b := UpperBound(ids);
    l := if a < b then b else a;
    forall x | x in s.locks ensures x < l { assert x in s.locks.Keys; }
    forall q | q in s.freed && q.LockQ? ensures q.l < l { assert q.l in ids; }
  }

  /** A thread that waits on a condition variable can be woken. */
  lemma WaiterTouches(s: State, l: nat, n: Nid, c: nat) returns (ss: seq<State>, ts: seq<Step>)
    requires Inv(s) && !s.halted && ThOf(s, Rq(s)[0]).pc == User && InAcquire(s, l, n) && s.th[n].place == CvQ(c) && CvsEmpty(s)
    ensures Path(ss, ts) && ss[0] == s && Touches(ss[|ts|], l)
  {
    hide Q, NoRepeats, Tabled, Phased, LocksOk, AwaitsOk, Wake, TryAcquire, Placed;
    HeadPlaced(s);
    WaiterQueued(s, n);
    var m := NewLock(s);
    Taken(s, m, n);
    var s1 := Next(s, Acquire(m));
    var s2 := Next(s1, Broadcast(c, m));
    StepKeeps(s, Acquire(m));
    StepKeeps(s1, Broadcast(c, m));
    QFields(s, s1);
    WokenReady(s1, l, n, c, m);
    var ss1, ts1 := ReadyTouches(s2, l, n);
    ss, ts := [s, s1] + ss1, [Acquire(m), Broadcast(c, m)] + ts1;
    Longer(s, s1, Acquire(m), Broadcast(c, m), ss1, ts1);
  }

  lemma WaiterQueued(s: State, n: Nid)
    requires Placed(s) && n in s.th
    ensures n in Q(s, s.th[n].place)
  {}

  lemma Taken(s: State, m: nat, n: Nid)
    requires Placed(s) && !s.halted && ThOf(s, Rq(s)[0]).pc == User && LockQ(m) !in s.freed && !LockOf(s, m).locked
    requires n in s.th && n != Rq(s)[0]
    ensures Enabled(s, Acquire(m))
    ensures var s1 := Next(s, Acquire(m));
      && !s1.halted && s1.freed == s.freed && OwnsLock(s1, m) && s1.queues == s.queues && Rq(s1) == Rq(s)
      && ThOf(s1, Rq(s1)[0]).pc == User && n in s1.th && s1.th[n] == s.th[n]
  {
    hide NoRepeats;
    HeadPlaced(s);
  }

  lemma WokenReady(s: State, l: nat, n: Nid, c: nat, m: nat)
    requires Placed(s) && !s.halted && OwnsLock(s, m) && LockQ(m) !in s.freed && CvQ(c) !in s.freed && ThOf(s, Rq(s)[0]).pc == User
    requires InAcquire(s, l, n) && n in Q(s, CvQ(c))
    ensures Enabled(s, Broadcast(c, m))
    ensures var s2 := Next(s, Broadcast(c, m));
      && !s2.halted && Rq(s2) != [] && ThOf(s2, Rq(s2)[0]).pc == User && InAcquire(s2, l, n) && s2.th[n].place == ReadyQ
  {
    hide NoRepeats, Q, Wake;
    HeadPlaced(s);
    WakeIs(s, CvQ(c), |Q(s, CvQ(c))|);
    WakePc(s, CvQ(c), |Q(s, CvQ(c))|);
    assert Q(s, CvQ(c))[..|Q(s, CvQ(c))|] == Q(s, CvQ(c));
  }

  lemma Longer(s: State, s1: State, t: Step, u: Step, ss: seq<State>, ts: seq<Step>)
    requires Enabled(s, t) && s1 == Next(s, t) && Enabled(s1, u) && Path(ss, ts) && ss[0] == Next(s1, u)
    ensures Path([s, s1] + ss, [t, u] + ts)
  {
    hide Enabled, Next;
    var ss', ts' := [s, s1] + ss, [t, u] + ts;
    forall i: nat | i < |ts'| ensures StepAt(ss', ts', i) {
      if i >= 2 { assert StepAt(ss, ts, i - 2); }
    }
  }

  /** Where a thread in `lock_acquire` of a free lock can be. */
  lemma AcquirerPlace(s: State, l: nat, n: Nid)
    requires Inv(s) && InAcquire(s, l, n) && !LockOf(s, l).locked
    ensures s.th[n].place.ReadyQ? || s.th[n].place.CvQ?
  {
    hide Q, NoRepeats, Tabled, AwaitsOk;
    assert n in Q(s, s.th[n].place);
  }

  /** `lock_destroy` frees no sleeper, and after it the lock is never looked at again, whatever happens, if
      and only if no thread that has not been killed is in `lock_acquire` of it, be it woken or still
      waiting on a condition variable. The assert of the call does not say so. */
  lemma DestroySafeIff(s: State, l: nat)
    requires Inv(s) && CvsEmpty(s) && Enabled(s, DestroyLock(l))
    ensures Q(s, LockQ(l)) == []
    ensures Unused(s, l) <==>
              forall ss: seq<State>, ts: seq<Step> :: Path(ss, ts) && ss[0] == Next(s, DestroyLock(l)) ==> !Touches(ss[|ts|], l)
  {
    hide Q, NoRepeats, Placed, Tabled, Phased, AwaitsOk, InAcquire;
    var s' := Next(s, DestroyLock(l));
    StepKeeps(s, DestroyLock(l));
    QFields(s, s');
    SameAcquirers(s, s', l);
    EnabledUser(s, l);
    if Unused(s, l) {
      forall ss: seq<State>, ts: seq<Step> | Path(ss, ts) && ss[0] == s' ensures !Touches(ss[|ts|], l) {
        if !ss[|ts|].halted { StaysUnused(ss, ts, l, |ts|); }
      }
    } else {
      var n :| InAcquire(s', l, n);
      AcquirerPlace(s', l, n);
      CvsStay(s, s');
      var ss, ts;
      if s'.th[n].place.ReadyQ? {
        ss, ts := ReadyTouches(s', l, n);
      } else {
        ss, ts := WaiterTouches(s', l, n, s'.th[n].place.c);
      }
    }
  }

  lemma SameAcquirers(s: State, s': State, l: nat)
    requires s'.th == s.th
    ensures forall n {:trigger InAcquire(s, l, n)} {:trigger InAcquire(s', l, n)} :: (InAcquire(s', l, n) <==> InAcquire(s, l, n)) && (InAcquire(s, l, n) ==> n in s.th)
  {}

  lemma EnabledUser(s: State, l: nat)
    requires Enabled(s, DestroyLock(l))
    ensures var s' := Next(s, DestroyLock(l));
      && !s.halted && !LockOf(s, l).locked && ThOf(s, Rq(s)[0]).pc == User
      && s' == s.(freed := s.freed + {LockQ(l)}) && !s'.halted && ThOf(s', Rq(s')[0]).pc == User && !LockOf(s', l).locked
  {
    hide Q;
    QFields(s, Next(s, DestroyLock(l)));
  }

  lemma CvsStay(s: State, s': State)
    requires CvsEmpty(s) && s'.queues == s.queues && forall c: nat :: CvQ(c) in s'.freed ==> CvQ(c) in s.freed
    ensures CvsEmpty(s')
  {
    hide Q;
    QFields(s, s');
  }

  /** A destroyed condition variable has no waiters and never gets any. */
  lemma {:induction false} CvsStayEmpty(ss: seq<State>, ts: seq<Step>, i: nat)
    requires Live(ss, ts, i)
    ensures CvsEmpty(ss[i])
  {
    hide Inv, Next, Enabled, CvsEmpty;
    if i == 0 {
      assert CvsEmpty(ss[0]) by { NoneFreed(); }
    } else {
      BeforeLive(ss, ts, i);
      CvsStayEmpty(ss, ts, i - 1);
      RunKeeps(ss, ts, i - 1);
      CvsStep(ss[i - 1], ts[i - 1]);
    }
  }

  lemma NoneFreed()
    ensures CvsEmpty(Initial())
  {}

  lemma CvsStep(s: State, t: Step)
    requires Inv(s) && Enabled(s, t) && !Next(s, t).halted && CvsEmpty(s)
    ensures CvsEmpty(Next(s, t))
  {
    hide Q, Next, Inv, WokenFrom, Woken;
    QueuesStep(s, t);
    SideStep(s, t);
    forall c: nat | CvQ(c) in Next(s, t).freed ensures Q(Next(s, t), CvQ(c)) == [] {
      assert IsWaitQueue(CvQ(c));
      assert Q(s, CvQ(c)) == [];
    }
  }
}
