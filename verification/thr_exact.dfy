/** What one step does to the locks, the thread entries and the table, in closed form. Together with the queues
    of `ThreadEffects` this is the whole state after the step. */
module ThreadExact {
  import opened ThreadQueues
  import opened ThreadSystem
  import opened ThreadInvariant
  import opened ThreadEffects
  import opened ThreadTheorems

  // ----- locks -----

  /** The call in step `t` gives up lock `l`. */
  predicate GivesUp(t: Step, l: nat) {
    (t.Release? || t.CvWait?) && t.l == l
  }

  /** Step `t` ends with the running thread having taken lock `l`: it finds it free, when it calls or when it
      is back in `lock_acquire`, or it waits on a condition variable with nobody to switch to. */
  predicate Takes(s: State, t: Step, l: nat)
    requires Rq(s) != []
  {
    || (t == Acquire(l) && !LockOf(s, l).locked)
    || (t.CvWait? && t.l == l && |Rq(s)| + |Q(s, LockQ(l))| == 1)
    || (t.Resume? && ThOf(s, Rq(s)[0]).status != Exited && ThOf(s, Rq(s)[0]).pc == Acquiring(l) && !LockOf(s, l).locked)
  }

  /** Lock `l` after the step, and who is inside it. */
  ghost predicate LockAfter(s: State, t: Step, s': State, l: nat)
    requires Rq(s) != []
  {
    var n := Rq(s)[0];
    && LockOf(s', l) == (if Takes(s, t, l) then Lock(true, ThOf(s, n).tid, n)
                         else if GivesUp(t, l) then LockOf(s, l).(locked := false) else LockOf(s, l))
    && forall m: Nid {:trigger (m, l) in s'.inside} ::
         (m, l) in s'.inside <==> if m == n && Takes(s, t, l) then true else if m == n && GivesUp(t, l) then false else (m, l) in s.inside
  }

  /** A lock is taken and given up in these steps only, and by the running thread only. */
  lemma LocksStep(s: State, t: Step, l: nat)
    requires Inv(s) && Enabled(s, t)
    ensures Rq(s) != [] && LockAfter(s, t, Next(s, t), l)
  {
    hide *;
    EnabledHead(s, t);
    match t
    case Acquire(m) => AcquireLocks(s, m, l);
    case Release(m) => ReleaseLocks(s, m, l);
    case CvWait(c, m) => CvWaitLocks(s, c, m, l);
    case Resume => ResumeLocks(s, l);
    case _ =>
      OtherLocks(s, t);
      NotTaken(s, Next(s, t), t, l);
  }

  lemma NotTaken(s: State, s': State, t: Step, l: nat)
    requires Rq(s) != [] && SameLocks(s, s') && !t.Acquire? && !t.Release? && !t.CvWait? && !t.Resume?
    ensures LockAfter(s, t, s', l)
  {
    hide Q;
  }

  lemma OtherLocks(s: State, t: Step)
    requires Enabled(s, t) && !t.Acquire? && !t.Release? && !t.CvWait? && !t.Resume?
    ensures SameLocks(s, Next(s, t))
  {
    hide Q, FindTid, FirstFreeTid, YieldSeq, RotateSeq, Exit, Wake, Park;
    match t
    case ExitCall => ExitLocks(s);
    case WakeupOn(u, all) => WakeLocked(s, UserQ(u));
    case Signal(c, m) => WakeLocked(s, CvQ(c));
    case Broadcast(c, m) => WakeLocked(s, CvQ(c));
    case SleepOn(u) => ParkLocked(s, UserQ(u));
    case WaitTid(tid) => ParkLocked(s, WaitFor(tid));
    case _ =>
  }

  lemma AcquireLocks(s: State, m: nat, l: nat)
    requires Inv(s) && Enabled(s, Acquire(m))
    ensures LockAfter(s, Acquire(m), Next(s, Acquire(m)), l)
  {
    hide Q, NoRepeats, Placed, Tabled, Phased, LocksOk, AwaitsOk, TryAcquire;
    TryLocks(s, m);
  }

  lemma ReleaseLocks(s: State, m: nat, l: nat)
    requires Inv(s) && Enabled(s, Release(m))
    ensures LockAfter(s, Release(m), Next(s, Release(m)), l)
  {
    hide Q, NoRepeats, Placed, Tabled, Phased, LocksOk, AwaitsOk, Unlock, Wake;
    UnlockIs(s, m);
    WakeLocked(s, LockQ(m));
  }

  ghost predicate SameLocks(s: State, s': State) {
    s'.locks == s.locks && s'.inside == s.inside
  }

  lemma WakeLocked(s: State, q: QueueId)
    requires q != ReadyQ
    ensures forall k: nat {:trigger Wake(s, q, k)} :: k <= |Q(s, q)| ==> SameLocks(s, Wake(s, q, k))
  {
    hide Wake, Q;
    forall k: nat | k <= |Q(s, q)| ensures SameLocks(s, Wake(s, q, k)) { WakeIs(s, q, k); }
  }

  lemma ParkLocked(s: State, q: QueueId)
    requires Rq(s) != [] && q != ReadyQ
    ensures forall pc {:trigger Park(s, q, pc)} :: SameLocks(s, Park(s, q, pc))
  {
    hide Q;
  }

  lemma ExitLocks(s: State)
    requires Rq(s) != []
    ensures SameLocks(s, Exit(s))
  {
    hide Wake;
    var t := ThOf(s, Rq(s)[0]);
    var s1 := s.(table := s.table - {t.tid});
    WakeLocked(s1, WaitFor(t.tid));
  }

  /** The locks after `lock_acquire` has tested one once. */
  lemma TryLocks(s: State, l: nat)
    requires Rq(s) != []
    ensures var s', n := TryAcquire(s, l), Rq(s)[0];
      if LockOf(s, l).locked then SameLocks(s, s')
      else s'.locks == s.locks[l := Lock(true, ThOf(s, n).tid, n)] && s'.inside == s.inside + {(n, l)}
  {
    hide Q, Park;
    ParkLocked(s, LockQ(l));
  }

  lemma CvWaitLocks(s: State, c: nat, m: nat, l: nat)
    requires Inv(s) && Enabled(s, CvWait(c, m))
    ensures LockAfter(s, CvWait(c, m), Next(s, CvWait(c, m)), l)
  {
    hide Q, NoRepeats, Placed, Tabled, Phased, LocksOk, AwaitsOk, Unlock, TryAcquire, Wake, Park;
    UnlockKeeps(s, m);
    UnlockIs(s, m);
    WakeLocked(s, LockQ(m));
    TryLocks(Unlock(s, m), m);
    ParkLocked(Unlock(s, m), CvQ(c));
  }

  lemma ResumeLocks(s: State, l: nat)
    requires Inv(s) && Enabled(s, Resume)
    ensures LockAfter(s, Resume, Next(s, Resume), l)
  {
    hide Q, NoRepeats, Placed, Tabled, Phased, LocksOk, AwaitsOk, Exit, ClearExited, TryAcquire;
    var n := Rq(s)[0];
    var self := ThOf(s, n);
    if self.status == Exited {
      ExitLocks(s);
    } else {
      HeadPlaced(s);
      ClearKeeps(s);
      ClearIs(s);
      if self.pc.Acquiring? {
        var s2 := SetTh(ClearExited(s), n, self.(status := Running));
        QFields(ClearExited(s), s2);
        TryLocks(s2, self.pc.l);
      }
    }
  }

  // ----- threads -----

  /** The step makes a new thread. */
  predicate Creates(s: State, t: Step) {
    t.Create? && t.memory && FirstFreeTid(s.table, 0) < THREAD_MAX_THREADS
  }

  /** The running thread comes back from a switch and has not been killed. */
  predicate Returns(s: State, t: Step)
    requires Rq(s) != []
  {
    t.Resume? && ThOf(s, Rq(s)[0]).status != Exited
  }

  /** Step `t` kills thread `m`. */
  predicate Kills(s: State, t: Step, m: Nid)
    requires Rq(s) != []
  {
    t.Kill? && t.tid in s.table && s.table[t.tid] == m && t.tid != ThOf(s, Rq(s)[0]).tid
  }

  /** The running thread stays ready, but another one may run next. */
  ghost predicate Yields(s: State, t: Step)
    requires Rq(s) != []
  {
    || t.YieldSelf? || ((t.YieldAny? || t.Preempt?) && |Rq(s)| > 1)
    || (t.YieldTo? && exists i :: 0 <= i < |Rq(s)| && ThOf(s, Rq(s)[i]).tid == t.tid)
  }

  /** The running thread finds the lock taken and has nobody to switch to. */
  predicate Spins(s: State, t: Step)
    requires Rq(s) != []
  {
    var self := ThOf(s, Rq(s)[0]);
    |Rq(s)| == 1 &&
    ((t.Acquire? && LockOf(s, t.l).locked) || (t.Resume? && self.pc.Acquiring? && LockOf(s, self.pc.l).locked))
  }

  /** The status of the running thread after the step. */
  ghost function SelfStatus(s: State, t: Step): Status
    requires Rq(s) != []
  {
    var self, d := ThOf(s, Rq(s)[0]), Destination(s, t);
    if self.status == Exited || d == ExitQ then self.status
    else if d != ReadyQ then Blocked
    else if Yields(s, t) then Ready
    else if t.Resume? then Running else self.status
  }

  /** Where the running thread continues after the step. */
  ghost function SelfPc(s: State, t: Step): Pc
    requires Rq(s) != []
  {
    var self, d := ThOf(s, Rq(s)[0]), Destination(s, t);
    if d.ExitQ? then self.pc
    else if d.LockQ? then Acquiring(d.l)
    else if t.CvWait? && d.CvQ? then Acquiring(t.l)
    else if !d.ReadyQ? then Slept
    else if Yields(s, t) then Yielded
    else if Spins(s, t) then Acquiring(if t.Acquire? then t.l else if self.pc.Acquiring? then self.pc.l else 0)
    else User
  }

  /** The entry of thread `m` after the step: a killed thread is marked, a woken one is ready unless it has
      been killed, the running one goes where it goes, and every other stays as it is. */
  ghost function EntryAfter(s: State, t: Step, m: Nid): Th
    requires Rq(s) != []
  {
    var was := ThOf(s, m);
    if m == Rq(s)[0] then Th(was.tid, SelfStatus(s, t), SelfPc(s, t), Destination(s, t))
    else if m in Woken(s, t) then Th(was.tid, Keep(was.status, Ready), was.pc, ReadyQ)
    else if Kills(s, t, m) then was.(status := Exited)
    else was
  }

  /** Who is there after the step, and in what state. */
  ghost predicate ThreadsAfter(s: State, t: Step, s': State)
    requires Rq(s) != []
  {
    && (forall m {:trigger m in s'.th} :: m in s'.th <==>
          (m in s.th && !(Returns(s, t) && s.th[m].place.ExitQ?)) || (Creates(s, t) && m == s.next))
    && (forall m {:trigger s'.th[m]} :: m in s.th && m in s'.th ==> s'.th[m] == EntryAfter(s, t, m))
    && (Creates(s, t) ==> s'.th[s.next] == Th(FirstFreeTid(s.table, 0), Ready, Fresh, ReadyQ))
  }

  /** As far as calls go that neither make nor kill nor free a thread: the running one has entry `e`. */
  ghost predicate Became(s: State, s': State, e: Th, woken: seq<Nid>)
    requires Rq(s) != []
  {
    && s'.th.Keys == s.th.Keys
    && (forall m {:trigger s'.th[m]} :: m in s.th ==>
          s'.th[m] == if m == Rq(s)[0] then e
                      else if m in woken then Th(s.th[m].tid, Keep(s.th[m].status, Ready), s.th[m].pc, ReadyQ) else s.th[m])
  }

  /** The entry of the running thread after the step. */
  ghost function Self(s: State, t: Step): Th
    requires Rq(s) != []
  {
    Th(ThOf(s, Rq(s)[0]).tid, SelfStatus(s, t), SelfPc(s, t), Destination(s, t))
  }

  lemma SetBecame(s: State, s': State, e: Th)
    requires Placed(s) && s'.th == s.th[Rq(s)[0] := e]
    ensures Became(s, s', e, [])
  {
    hide Q, NoRepeats;
    HeadPlaced(s);
  }

  lemma SameBecame(s: State, s': State)
    requires Placed(s) && s'.th == s.th
    ensures Became(s, s', ThOf(s, Rq(s)[0]), [])
  {
    hide Q, NoRepeats;
    HeadPlaced(s);
  }

  lemma ThenBecame(s: State, s1: State, s2: State, e1: Th, e: Th, woken: seq<Nid>)
    requires Rq(s) != [] && Rq(s)[0] in s.th && Became(s, s1, e1, woken) && s2.th == s1.th[Rq(s)[0] := e]
    ensures Became(s, s2, e, woken)
  {
    hide Q;
  }

  lemma WakeBecame(s: State, q: QueueId, k: nat)
    requires Placed(s) && IsWaitQueue(q) && k <= |Q(s, q)|
    ensures Became(s, Wake(s, q, k), ThOf(s, Rq(s)[0]), Q(s, q)[..k])
  {
    hide Q, NoRepeats, Wake;
    HeadPlaced(s);
    WakeIs(s, q, k);
    forall m | m in Q(s, q)[..k] ensures m != Rq(s)[0] { assert m in Q(s, q); }
  }

  lemma ParkEntry(s: State, q: QueueId, pc: Pc)
    requires Rq(s) != [] && q != ReadyQ
    ensures var t := ThOf(s, Rq(s)[0]);
      Park(s, q, pc).th == s.th[Rq(s)[0] := Th(t.tid, Keep(t.status, Blocked), pc, q)]
  {}

  /** Whoever makes a call is in user code, ready and not killed. */
  lemma CallerIs(s: State, t: Step)
    requires Inv(s) && Enabled(s, t) && !t.Resume?
    ensures Rq(s) != [] && Rq(s)[0] in s.th
    ensures var self := ThOf(s, Rq(s)[0]); self.pc == User && self.status != Exited && self.place == ReadyQ
  {
    hide Q, NoRepeats, Tabled, LocksOk, AwaitsOk;
    HeadPlaced(s);
  }

  lemma YieldBecame(s: State, t: Step)
    requires Inv(s) && Enabled(s, t) && (t.YieldAny? || t.Preempt? || t.YieldSelf? || t.YieldTo?)
    ensures Became(s, Next(s, t), Self(s, t), Woken(s, t))
  {
    hide Q, NoRepeats, Placed, Tabled, Phased, LocksOk, AwaitsOk, RotateSeq, YieldSeq, Became;
    CallerIs(s, t);
    QuietCall(s, t);
    if t.YieldTo? { TargetReady(s, t.tid); }
    if Yields(s, t) { SetBecame(s, Next(s, t), Self(s, t)); } else { SameBecame(s, Next(s, t)); }
  }

  lemma QuietCall(s: State, t: Step)
    requires Rq(s) != []
    requires t.YieldAny? || t.Preempt? || t.YieldSelf? || t.YieldTo? || t.DestroyLock? || t.DestroyCv? || t.Kill? || t.Create?
    ensures Destination(s, t) == ReadyQ && Woken(s, t) == []
  {
    hide Q;
  }

  /** A directed yield finds its target just if a ready thread has that Tid. */
  lemma TargetReady(s: State, tid: nat)
    requires Placed(s)
    ensures FindTid(s, Rq(s), tid) < |Rq(s)| <==> exists i :: 0 <= i < |Rq(s)| && ThOf(s, Rq(s)[i]).tid == tid
  {
    hide Q, NoRepeats;
    var k := FindTid(s, Rq(s), tid);
    assert forall i :: 0 <= i < |Rq(s)| ==> Rq(s)[i] in Rq(s);
  }

  lemma ExitBecame(s: State, t: Step)
    requires Inv(s) && !s.halted && Exits(s, t) && !Exit(s).halted
    ensures Became(s, Exit(s), Self(s, t), Woken(s, t))
  {
    hide Q, NoRepeats, Placed, Tabled, Phased, LocksOk, AwaitsOk, Wake, Leave, Exit, Became;
    HeadPlaced(s);
    var n := Rq(s)[0];
    var e := ThOf(s, n).(place := ExitQ);
    var q := WaitFor(ThOf(s, n).tid);
    ExitIs(s);
    WakeBecame(s, q, |Q(s, q)|);
    LeaveFields(WakeAll(s, q), ExitQ, e);
    ThenBecame(s, WakeAll(s, q), Exit(s), ThOf(s, n), e, Q(s, q)[..|Q(s, q)|]);
  }

  lemma WakingBecame(s: State, t: Step)
    requires Inv(s) && Enabled(s, t) && (t.WakeupOn? || t.Signal? || t.Broadcast?)
    ensures Became(s, Next(s, t), Self(s, t), Woken(s, t))
  {
    hide Q, NoRepeats, Placed, Tabled, Phased, LocksOk, AwaitsOk, Wake, Became;
    CallerIs(s, t);
    SameBecame(s, s);
    WakeBecame(s, WokenFrom(s, t).0, WokenFrom(s, t).1);
  }

  lemma SleepBecame(s: State, t: Step)
    requires Inv(s) && Enabled(s, t) && (t.SleepOn? || t.WaitTid?)
    ensures Became(s, Next(s, t), Self(s, t), Woken(s, t))
  {
    hide Q, NoRepeats, Placed, Tabled, Phased, LocksOk, AwaitsOk, Park, Became;
    CallerIs(s, t);
    var q := if t.SleepOn? then UserQ(t.u) else WaitFor(t.tid);
    ParkEntry(s, q, Slept);
    if Destination(s, t) == q { SetBecame(s, Next(s, t), Self(s, t)); } else { SameBecame(s, Next(s, t)); }
  }

  /** The running thread's entry after `lock_acquire` has tested the lock once. */
  lemma TryEntry(s: State, l: nat)
    requires Rq(s) != []
    ensures var n := Rq(s)[0]; var self := ThOf(s, n);
      TryAcquire(s, l).th == s.th[n := if !LockOf(s, l).locked then self.(pc := User)
                                       else if |Rq(s)| == 1 then self.(pc := Acquiring(l))
                                       else Th(self.tid, Keep(self.status, Blocked), Acquiring(l), LockQ(l))]
  {
    hide Q, Park;
    ParkEntry(s, LockQ(l), Acquiring(l));
  }

  lemma AcquireBecame(s: State, l: nat)
    requires Inv(s) && Enabled(s, Acquire(l))
    ensures Became(s, Next(s, Acquire(l)), Self(s, Acquire(l)), Woken(s, Acquire(l)))
  {
    hide Q, NoRepeats, Placed, Tabled, Phased, LocksOk, AwaitsOk, TryAcquire, Became;
    CallerIs(s, Acquire(l));
    TryEntry(s, l);
    SetBecame(s, Next(s, Acquire(l)), Self(s, Acquire(l)));
  }

  lemma UnlockBecame(s: State, l: nat)
    requires Placed(s)
    ensures Became(s, Unlock(s, l), ThOf(s, Rq(s)[0]), Q(s, LockQ(l)))
  {
    hide Q, NoRepeats, Placed, Wake, Unlock;
    HeadPlaced(s);
    UnlockIs(s, l);
    var w := Q(s, LockQ(l));
    WakeBecame(s, LockQ(l), |w|);
    assert w[..|w|] == w;
  }

  lemma ReleaseBecame(s: State, l: nat)
    requires Inv(s) && Enabled(s, Release(l))
    ensures Became(s, Next(s, Release(l)), Self(s, Release(l)), Woken(s, Release(l)))
  {
    hide Q, NoRepeats, Placed, Tabled, Phased, LocksOk, AwaitsOk, Unlock, Became;
    CallerIs(s, Release(l));
    UnlockBecame(s, l);
    assert Woken(s, Release(l)) == Q(s, LockQ(l));
  }

  lemma CvWaitBecame(s: State, c: nat, l: nat)
    requires Inv(s) && Enabled(s, CvWait(c, l))
    ensures Became(s, Next(s, CvWait(c, l)), Self(s, CvWait(c, l)), Woken(s, CvWait(c, l)))
  {
    hide Q, NoRepeats, Placed, Tabled, Phased, LocksOk, AwaitsOk, Unlock, TryAcquire, Park, Became;
    var t := CvWait(c, l);
    CallerIs(s, t);
    var s1 := Unlock(s, l);
    UnlockKeeps(s, l);
    UnlockBecame(s, l);
    assert Woken(s, t) == Q(s, LockQ(l));
    TryEntry(s1, l);
    ParkEntry(s1, CvQ(c), Acquiring(l));
    ThenBecame(s, s1, Next(s, t), ThOf(s, Rq(s)[0]), Self(s, t), Woken(s, t));
  }

  lemma CallBecame(s: State, t: Step)
    requires Inv(s) && Enabled(s, t) && !t.Resume? && !t.Create? && !t.Kill? && !Next(s, t).halted
    ensures Rq(s) != [] && Became(s, Next(s, t), Self(s, t), Woken(s, t))
  {
    hide *;
    EnabledHead(s, t);
    match t
    case YieldAny => YieldBecame(s, t);
    case Preempt => YieldBecame(s, t);
    case YieldSelf => YieldBecame(s, t);
    case YieldTo(tid) => YieldBecame(s, t);
    case ExitCall => ExitCallBecame(s);
    case SleepOn(u) => SleepBecame(s, t);
    case WaitTid(tid) => SleepBecame(s, t);
    case WakeupOn(u, all) => WakingBecame(s, t);
    case Signal(c, l) => WakingBecame(s, t);
    case Broadcast(c, l) => WakingBecame(s, t);
    case Acquire(l) => AcquireBecame(s, l);
    case Release(l) => ReleaseBecame(s, l);
    case CvWait(c, l) => CvWaitBecame(s, c, l);
    case DestroyLock(l) => DestroyBecame(s, t);
    case DestroyCv(c) => DestroyBecame(s, t);
  }

  lemma ExitCallBecame(s: State)
    requires Inv(s) && Enabled(s, ExitCall) && !Next(s, ExitCall).halted
    ensures Became(s, Next(s, ExitCall), Self(s, ExitCall), Woken(s, ExitCall))
  {
    hide Q, Placed, Tabled, Phased, LocksOk, AwaitsOk, Exit, Became, Self;
    ExitBecame(s, ExitCall);
  }

  lemma DestroyBecame(s: State, t: Step)
    requires Inv(s) && Enabled(s, t) && (t.DestroyLock? || t.DestroyCv?)
    ensures Became(s, Next(s, t), Self(s, t), Woken(s, t))
  {
    hide Q, NoRepeats, Placed, Tabled, Phased, LocksOk, AwaitsOk, Became;
    CallerIs(s, t);
    QuietCall(s, t);
    SameBecame(s, Next(s, t));
  }

  lemma CallThreads(s: State, s': State, t: Step)
    requires Inv(s) && Rq(s) != [] && Became(s, s', Self(s, t), Woken(s, t)) && !t.Create? && !t.Kill? && !Returns(s, t)
    ensures ThreadsAfter(s, t, s')
  {
    hide Q, NoRepeats, Placed, Tabled, Phased, LocksOk, AwaitsOk, SelfStatus, SelfPc, Destination, Woken,
      FirstFreeTid;
  }

  lemma KillThreads(s: State, tid: nat)
    requires Inv(s) && Enabled(s, Kill(tid))
    ensures ThreadsAfter(s, Kill(tid), Next(s, Kill(tid)))
  {
    hide Q, NoRepeats, Placed, LocksOk, AwaitsOk, Phased, Destination, Woken;
    CallerIs(s, Kill(tid));
    QuietCall(s, Kill(tid));
  }

  lemma CreateThreads(s: State, memory: bool)
    requires Inv(s) && Enabled(s, Create(memory))
    ensures ThreadsAfter(s, Create(memory), Next(s, Create(memory)))
  {
    hide Q, NoRepeats, Tabled, LocksOk, AwaitsOk, Phased, FirstFreeTid, Destination, Woken;
    CallerIs(s, Create(memory));
    QuietCall(s, Create(memory));
  }

  lemma ResumeThreads(s: State)
    requires Inv(s) && Enabled(s, Resume) && !Next(s, Resume).halted
    ensures ThreadsAfter(s, Resume, Next(s, Resume))
  {
    hide Q, NoRepeats, Placed, Tabled, Phased, LocksOk, AwaitsOk, Exit, ClearExited, TryAcquire, ThreadsAfter, Became,
      Self;
    HeadPlaced(s);
    if ThOf(s, Rq(s)[0]).status == Exited {
      ExitBecame(s, Resume);
      CallThreads(s, Next(s, Resume), Resume);
    } else {
      BackThreads(s);
    }
  }

  lemma BackThreads(s: State)
    requires Inv(s) && Enabled(s, Resume) && Returns(s, Resume)
    ensures ThreadsAfter(s, Resume, Next(s, Resume))
  {
    hide Q, NoRepeats, Placed, Tabled, Phased, LocksOk, AwaitsOk, Exit, ClearExited, TryAcquire;
    HeadPlaced(s);
    var n := Rq(s)[0];
    var self := ThOf(s, n);
    var s1 := ClearExited(s);
    ClearKeeps(s);
    ClearIs(s);
    if self.pc.Acquiring? {
      var s2 := SetTh(s1, n, self.(status := Running));
      QFields(s1, s2);
      TryEntry(s2, self.pc.l);
    }
    assert Next(s, Resume).th == s1.th[n := Self(s, Resume)];
  }

  /** Every thread after every step. */
  lemma ThreadsStep(s: State, t: Step)
    requires Inv(s) && Enabled(s, t) && !Next(s, t).halted
    ensures Rq(s) != [] && ThreadsAfter(s, t, Next(s, t))
  {
    hide *;
    EnabledHead(s, t);
    if t.Create? {
      CreateThreads(s, t.memory);
    } else if t.Kill? {
      KillThreads(s, t.tid);
    } else if t.Resume? {
      ResumeThreads(s);
    } else {
      CallBecame(s, t);
      NotReturns(s, t);
      CallThreads(s, Next(s, t), t);
    }
  }

  lemma NotReturns(s: State, t: Step)
    requires Rq(s) != [] && !t.Resume?
    ensures !Returns(s, t)
  {}

  /** `lock_acquire` of a free lock, and going on with it when the lock is free, end in user code with the
      caller inside as the holder. */
  lemma AcquireSucceeds(s: State, t: Step, l: nat)
    requires Inv(s) && Enabled(s, t) && !LockOf(s, l).locked
    requires Rq(s) != [] && (t == Acquire(l) || (Returns(s, t) && ThOf(s, Rq(s)[0]).pc == Acquiring(l)))
    ensures var s', n := Next(s, t), Rq(s)[0];
      && n in s'.th && s'.th[n].pc == User && s'.th[n].place == ReadyQ
      && LockOf(s', l) == Lock(true, s'.th[n].tid, n) && (n, l) in s'.inside
  {
    hide Q, Inv, Next, Placed, FindTid, Woken;
    LocksStep(s, t, l);
    TakesLive(s, t, l);
    ThreadsStep(s, t);
    HeadKnown(s);
  }

  lemma HeadKnown(s: State)
    requires Inv(s)
    ensures Rq(s) != [] && Rq(s)[0] in s.th && !s.th[Rq(s)[0]].place.ExitQ?
  {
    hide Q, NoRepeats, Tabled, Phased, LocksOk, AwaitsOk;
    HeadPlaced(s);
  }

  lemma TakesLive(s: State, t: Step, l: nat)
    requires Enabled(s, t) && (t.Acquire? || Returns(s, t))
    ensures !Next(s, t).halted
  {
    hide Q;
  }

  // ----- the table and the end -----

  /** The Tids in use after the step, and the threads waited for. */
  ghost predicate TableAfter(s: State, t: Step, s': State)
    requires Rq(s) != []
  {
    var n := Rq(s)[0];
    && s'.table == (if Exits(s, t) then s.table - {ThOf(s, n).tid}
                    else if Creates(s, t) then s.table[FirstFreeTid(s.table, 0) := s.next] else s.table)
    && s'.next == s.next + (if Creates(s, t) then 1 else 0)
    && s'.awaits == (if Destination(s, t).WaitFor? && t.WaitTid? && t.tid in s.table then s.awaits[n := s.table[t.tid]] else s.awaits)
  }

  lemma TableStep(s: State, t: Step)
    requires Inv(s) && Enabled(s, t)
    ensures Rq(s) != [] && TableAfter(s, t, Next(s, t))
  {
    hide Q, Inv, Next, Enabled, TableAfter, Exit, Creates;
    EnabledHead(s, t);
    if Exits(s, t) {
      ExitHalts(s, t);
      ExitTable(s, t);
    } else if t.Resume? {
      BackTable(s);
    } else if t.WaitTid? {
      WaitTable(s, t.tid);
    } else if Creates(s, t) {
      CreateTable(s, t);
    } else {
      CallTable(s, t);
    }
  }

  lemma ExitTable(s: State, t: Step)
    requires Rq(s) != [] && Exits(s, t)
    ensures TableAfter(s, t, Exit(s))
  {
    hide Q, Wake, Leave;
    var q := WaitFor(ThOf(s, Rq(s)[0]).tid);
    var s1 := s.(table := s.table - {ThOf(s, Rq(s)[0]).tid});
    WakeSame(s1, q);
    LeaveSame(WakeAll(s1, q), ExitQ, ThOf(s, Rq(s)[0]).(place := ExitQ));
    WakeIs(s1, q, |Q(s1, q)|);
    QFields(s, s1);
  }

  lemma BackTable(s: State)
    requires Enabled(s, Resume) && Returns(s, Resume)
    ensures TableAfter(s, Resume, Next(s, Resume))
  {
    hide Q, Next;
    BackAside(s);
  }

  lemma WaitTable(s: State, tid: nat)
    requires Enabled(s, WaitTid(tid))
    ensures TableAfter(s, WaitTid(tid), Next(s, WaitTid(tid)))
  {
    hide Q, Park;
    ParkSame(s, WaitFor(tid));
  }

  lemma CreateTable(s: State, t: Step)
    requires Enabled(s, t) && Creates(s, t)
    ensures TableAfter(s, t, Next(s, t))
  {
    hide Q, FirstFreeTid;
  }

  lemma CallTable(s: State, t: Step)
    requires Enabled(s, t) && !t.Resume? && !t.WaitTid? && !Creates(s, t) && !Exits(s, t)
    ensures TableAfter(s, t, Next(s, t))
  {
    hide Q, Next, FirstFreeTid;
    CallAside(s, t);
  }

  /** The program ends in a step if and only if the running thread exits in it, and nobody else is ready or
      waits for it. */
  lemma HaltsIff(s: State, t: Step)
    requires Inv(s) && Enabled(s, t)
    ensures Rq(s) != []
    ensures Next(s, t).halted <==> Exits(s, t) && |Rq(s)| == 1 && Q(s, WaitFor(ThOf(s, Rq(s)[0]).tid)) == []
  {
    hide *;
    EnabledHead(s, t);
    if Exits(s, t) { ExitHalts(s, t); } else { NoHalt(s, t); }
  }

  lemma ExitHalts(s: State, t: Step)
    requires Inv(s) && Enabled(s, t) && Exits(s, t)
    ensures Next(s, t) == Exit(s)
    ensures Next(s, t).halted <==> |Rq(s)| == 1 && Q(s, WaitFor(ThOf(s, Rq(s)[0]).tid)) == []
  {
    hide Q, NoRepeats, Placed, Tabled, Phased, LocksOk, AwaitsOk, Wake;
    var q := WaitFor(ThOf(s, Rq(s)[0]).tid);
    var s1 := s.(table := s.table - {ThOf(s, Rq(s)[0]).tid});
    QFields(s, s1);
    WakeIs(s1, q, |Q(s1, q)|);
    LeaveSame(WakeAll(s1, q), ExitQ, ThOf(s, Rq(s)[0]).(place := ExitQ));
  }

  lemma LeaveSame(s: State, q: QueueId, t: Th)
    requires q != ReadyQ
    ensures Rq(s) != [] ==> var s' := Leave(s, q, t); s' == s.(queues := s'.queues, th := s'.th)
  {
    hide Q;
  }

  lemma WakeSame(s: State, q: QueueId)
    requires q != ReadyQ
    ensures forall k: nat {:trigger Wake(s, q, k)} :: k <= |Q(s, q)| ==>
              var s' := Wake(s, q, k); s' == s.(queues := s'.queues, th := s'.th)
  {
    hide Wake, Q;
    forall k: nat | k <= |Q(s, q)| ensures var s' := Wake(s, q, k); s' == s.(queues := s'.queues, th := s'.th) { WakeIs(s, q, k); }
  }

  lemma ParkSame(s: State, q: QueueId)
    requires Rq(s) != [] && q != ReadyQ
    ensures forall pc {:trigger Park(s, q, pc)} :: var s' := Park(s, q, pc); s' == s.(queues := s'.queues, th := s'.th)
  {
    hide Q, Leave;
    forall pc ensures var s' := Park(s, q, pc); s' == s.(queues := s'.queues, th := s'.th) {
      var t := ThOf(s, Rq(s)[0]);
      LeaveSame(s, q, Th(t.tid, Keep(t.status, Blocked), pc, q));
    }
  }

  /** The fields that locks, waking and switching leave alone. */
  ghost predicate Aside(s: State, s': State) {
    s'.table == s.table && s'.next == s.next && s'.halted == s.halted && s'.awaits == s.awaits
  }

  lemma TryAside(s: State, l: nat)
    requires Rq(s) != []
    ensures Aside(s, TryAcquire(s, l))
  {
    hide Q, Park;
    ParkSame(s, LockQ(l));
  }

  lemma UnlockAside(s: State, l: nat)
    requires Rq(s) != []
    ensures Aside(s, Unlock(s, l)) && Rq(Unlock(s, l)) != []
  {
    hide Q, Wake, Unlock;
    UnlockIs(s, l);
    WakeSame(s, LockQ(l));
    WakeIs(s, LockQ(l), |Q(s, LockQ(l))|);
    QFields(WakeAll(s, LockQ(l)), Unlock(s, l));
  }

  lemma CvWaitAside(s: State, c: nat, l: nat)
    requires Enabled(s, CvWait(c, l))
    ensures Aside(s, Next(s, CvWait(c, l)))
  {
    hide Q, Unlock, TryAcquire, Park;
    UnlockAside(s, l);
    TryAside(Unlock(s, l), l);
    ParkSame(Unlock(s, l), CvQ(c));
  }

  lemma BackAside(s: State)
    requires Enabled(s, Resume) && Returns(s, Resume)
    ensures Aside(s, Next(s, Resume))
  {
    hide TryAcquire, Exit;
    var n := Rq(s)[0];
    if ThOf(s, n).pc.Acquiring? { TryAside(SetTh(ClearExited(s), n, ThOf(s, n).(status := Running)), ThOf(s, n).pc.l); }
  }

  /** A call that neither exits nor makes a thread nor sleeps on a queue it names. */
  lemma CallAside(s: State, t: Step)
    requires Enabled(s, t) && !t.Resume? && !t.ExitCall? && !Creates(s, t) && !t.WaitTid?
    ensures Aside(s, Next(s, t))
  {
    hide Q, FindTid, FirstFreeTid, YieldSeq, RotateSeq, TryAcquire, Unlock, Exit, Wake, ClearExited, Park;
    match t
    case Acquire(l) => TryAside(s, l);
    case Release(l) => UnlockAside(s, l);
    case CvWait(c, l) => CvWaitAside(s, c, l);
    case WakeupOn(u, all) => WakeSame(s, UserQ(u));
    case Signal(c, l) => WakeSame(s, CvQ(c));
    case Broadcast(c, l) => WakeSame(s, CvQ(c));
    case SleepOn(u) => ParkSame(s, UserQ(u));
    case _ =>
  }

  lemma NoHalt(s: State, t: Step)
    requires Enabled(s, t) && !Exits(s, t)
    ensures !Next(s, t).halted
  {
    hide Q, FindTid, FirstFreeTid, Park;
    EnabledHead(s, t);
    if t.Resume? {
      BackAside(s);
    } else if t.WaitTid? {
      ParkSame(s, WaitFor(t.tid));
    } else if !Creates(s, t) {
      CallAside(s, t);
    }
  }

  // ----- the whole state -----

  /** All of the above, for a step after which the program goes on. */
  ghost predicate After(s: State, t: Step, s': State) {
    && Rq(s) != [] && QueuesAfter(s, t, s') && ThreadsAfter(s, t, s') && TableAfter(s, t, s')
    && (forall l: nat :: LockAfter(s, t, s', l))
    && s'.freed == s.freed + (if t.DestroyLock? then {LockQ(t.l)} else if t.DestroyCv? then {CvQ(t.c)} else {})
  }

  lemma AfterStep(s: State, t: Step)
    requires Inv(s) && Enabled(s, t) && !Next(s, t).halted
    ensures After(s, t, Next(s, t))
  {
    hide Q, Inv, Next, Enabled, QueuesAfter, ThreadsAfter, TableAfter, LockAfter;
    QueuesStep(s, t);
    ThreadsStep(s, t);
    TableStep(s, t);
    SideStep(s, t);
    forall l: nat ensures LockAfter(s, t, Next(s, t), l) { LocksStep(s, t, l); }
  }

  /** Nothing is left open: what is said of a step determines everything in the state after it. */
  lemma AfterDetermines(s: State, t: Step, a: State, b: State)
    requires Inv(s) && After(s, t, a) && After(s, t, b)
    ensures forall q: QueueId :: Q(a, q) == Q(b, q)
    ensures a.th == b.th && a.table == b.table && a.next == b.next && a.awaits == b.awaits && a.freed == b.freed
    ensures a.inside == b.inside && forall l: nat :: LockOf(a, l) == LockOf(b, l)
  {
    hide Q, Inv, QueuesAfter, ThreadsAfter, LockAfter, LockOf;
    SameQueues(s, t, a, b);
    SameThreads(s, t, a, b);
    forall l: nat ensures LockOf(a, l) == LockOf(b, l) { SameLock(s, t, a, b, l); }
    forall x: (Nid, nat) ensures x in a.inside <==> x in b.inside {
      SameLock(s, t, a, b, x.1);
      assert x == (x.0, x.1);
    }
  }

  lemma SameLock(s: State, t: Step, a: State, b: State, l: nat)
    requires Rq(s) != [] && LockAfter(s, t, a, l) && LockAfter(s, t, b, l)
    ensures LockOf(a, l) == LockOf(b, l) && forall m: Nid :: (m, l) in a.inside <==> (m, l) in b.inside
  {
    hide Q, LockOf, Takes;
  }

  lemma SameQueues(s: State, t: Step, a: State, b: State)
    requires Rq(s) != [] && QueuesAfter(s, t, a) && QueuesAfter(s, t, b)
    ensures forall q: QueueId :: Q(a, q) == Q(b, q)
  {
    hide Q, Destination, WokenFrom, Order;
    forall q: QueueId ensures Q(a, q) == Q(b, q) { assert IsWaitQueue(q) || q == ReadyQ || q == ExitQ; }
  }

  lemma SameThreads(s: State, t: Step, a: State, b: State)
    requires Inv(s) && Rq(s) != [] && ThreadsAfter(s, t, a) && ThreadsAfter(s, t, b)
    ensures a.th == b.th
  {
    hide Q, NoRepeats, Tabled, Phased, LocksOk, AwaitsOk, EntryAfter, Creates, Returns, FirstFreeTid;
    HeadPlaced(s);
    assert a.th.Keys == b.th.Keys;
    forall m | m in a.th ensures a.th[m] == b.th[m] { assert m in b.th; }
  }

  // ----- runs -----

  /** Once taken, a lock stays with its taker until a step that gives it up. */
  lemma {:induction false} HeldUntilGivenUp(ss: seq<State>, ts: seq<Step>, i: nat, j: nat, l: nat)
    requires Live(ss, ts, j) && i <= j && LockOf(ss[i], l).locked
    requires forall k :: i <= k < j ==> !GivesUp(ts[k], l)
    ensures LockOf(ss[j], l) == LockOf(ss[i], l)
    ensures forall m: Nid :: (m, l) in ss[j].inside <==> (m, l) in ss[i].inside
  {
    hide Inv, Next, Enabled, LockOf;
    if i < j {
      BeforeLive(ss, ts, j);
      RunKeeps(ss, ts, j - 1);
      HeldUntilGivenUp(ss, ts, i, j - 1, l);
      HeldStep(ss[j - 1], ts[j - 1], l);
    }
  }

  lemma HeldStep(s: State, t: Step, l: nat)
    requires Inv(s) && Enabled(s, t) && LockOf(s, l).locked && !GivesUp(t, l)
    ensures LockOf(Next(s, t), l) == LockOf(s, l)
    ensures forall m: Nid {:trigger (m, l) in Next(s, t).inside} :: (m, l) in Next(s, t).inside <==> (m, l) in s.inside
  {
    hide Inv, Next, LockOf;
    EnabledHead(s, t);
    LocksStep(s, t, l);
    assert !Takes(s, t, l);
  }

  /** A thread dies by being killed only: of a thread that is there at both ends of a stretch of a run, the mark
      is set at the end if and only if it was at the start, or a call between them has killed just that thread. */
  lemma {:induction false} DiesByKillOnly(ss: seq<State>, ts: seq<Step>, i: nat, j: nat, n: Nid)
    requires Live(ss, ts, j) && i <= j && n in ss[i].th && n in ss[j].th
    ensures forall k :: i <= k < j ==> Rq(ss[k]) != []
    ensures ss[j].th[n].status == Exited <==>
              ss[i].th[n].status == Exited || exists k :: i <= k < j && Kills(ss[k], ts[k], n)
  {
    hide Inv, Next, Enabled, Kills;
    forall k | i <= k < j ensures Rq(ss[k]) != [] {
      BeforeLive(ss, ts, k + 1);
      EnabledHead(ss[k], ts[k]);
    }
    if i < j {
      BeforeLive(ss, ts, j);
      RunKeeps(ss, ts, j - 1);
      StillThere(ss, ts, i, j - 1, n);
      DiesByKillOnly(ss, ts, i, j - 1, n);
      StatusStep(ss[j - 1], ts[j - 1], n);
    }
  }

  lemma {:induction false} StillThere(ss: seq<State>, ts: seq<Step>, i: nat, j: nat, n: Nid)
    requires Live(ss, ts, j) && i <= j && n in ss[i].th
    ensures n < ss[j].next
    ensures j < |ts| && !ss[j + 1].halted && n in ss[j + 1].th ==> n in ss[j].th
  {
    hide Inv, Next, Enabled;
    if i < j {
      BeforeLive(ss, ts, j);
      StillThere(ss, ts, i, j - 1, n);
      RunKeeps(ss, ts, j - 1);
      NextGrows(ss[j - 1], ts[j - 1]);
    } else {
      RunKeeps(ss, ts, j);
      HeadOldHere(ss[j], n);
    }
    if j < |ts| && !ss[j + 1].halted && n in ss[j + 1].th {
      BeforeLive(ss, ts, j + 1);
      RunKeeps(ss, ts, j);
      OnlyNew(ss[j], ts[j], n);
    }
  }

  lemma HeadOldHere(s: State, n: Nid)
    requires Inv(s) && n in s.th
    ensures n < s.next
  {
    hide Q, NoRepeats, Tabled, Phased, LocksOk, AwaitsOk;
    HeadOld(s, n);
  }

  lemma NextGrows(s: State, t: Step)
    requires Inv(s) && Enabled(s, t)
    ensures s.next <= Next(s, t).next
  {
    hide Inv, Next, Enabled;
    TableStep(s, t);
  }

  lemma OnlyNew(s: State, t: Step, n: Nid)
    requires Inv(s) && Enabled(s, t) && !Next(s, t).halted && n < s.next && n in Next(s, t).th
    ensures n in s.th
  {
    hide Inv, Next, Enabled, EntryAfter;
    ThreadsStep(s, t);
  }

  /** One step: exactly the killed thread is marked. */
  lemma StatusStep(s: State, t: Step, n: Nid)
    requires Inv(s) && Enabled(s, t) && !Next(s, t).halted && n in s.th && n in Next(s, t).th
    ensures Rq(s) != []
    ensures Next(s, t).th[n].status == Exited <==> s.th[n].status == Exited || Kills(s, t, n)
  {
    hide Q, Inv, Next, Enabled, Destination, Yields, Woken;
    ThreadsStep(s, t);
    if Kills(s, t, n) { KilledOther(s, t, n); }
  }

  lemma KilledOther(s: State, t: Step, n: Nid)
    requires Inv(s) && Rq(s) != [] && Kills(s, t, n)
    ensures n != Rq(s)[0] && Woken(s, t) == []
  {
    hide Q, NoRepeats, Placed, Phased, LocksOk, AwaitsOk;
  }
}
