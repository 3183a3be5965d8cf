/** What one step does to the queues and to the thread entries, in closed form. */
module ThreadEffects {
  import opened ThreadQueues
  import opened ThreadSystem
  import opened ThreadInvariant

  /** The running thread leaves `threads` in this step. */
  predicate Exits(s: State, t: Step)
    requires Rq(s) != []
  {
    t.ExitCall? || (t.Resume? && ThOf(s, Rq(s)[0]).status == Exited)
  }

  /** The queue whose first waiters step `t` wakes, and how many of them. */
  function WokenFrom(s: State, t: Step): (r: (QueueId, nat))
    requires Rq(s) != []
    ensures IsWaitQueue(r.0) && r.1 <= |Q(s, r.0)|
  {
    if Exits(s, t) then var q := WaitFor(ThOf(s, Rq(s)[0]).tid); (q, |Q(s, q)|)
    else if t.Release? || t.CvWait? then (LockQ(t.l), |Q(s, LockQ(t.l))|)
    else if t.Signal? then (CvQ(t.c), if Q(s, CvQ(t.c)) == [] then 0 else 1)
    else if t.Broadcast? then (CvQ(t.c), |Q(s, CvQ(t.c))|)
    else if t.WakeupOn? then (UserQ(t.u), if Q(s, UserQ(t.u)) == [] then 0 else if t.all then |Q(s, UserQ(t.u))| else 1)
    else (UserQ(0), 0)
  }

  function Woken(s: State, t: Step): seq<Nid>
    requires Rq(s) != []
  {
    Q(s, WokenFrom(s, t).0)[..WokenFrom(s, t).1]
  }

  /** The queue the running thread goes to in step `t`: the ready queue when it does not sleep or exit. */
  function Destination(s: State, t: Step): QueueId
    requires Rq(s) != []
  {
    var self := ThOf(s, Rq(s)[0]);
    if Exits(s, t) then ExitQ
    else if |Rq(s)| + |Woken(s, t)| == 1 then ReadyQ
    else match t
      case SleepOn(u) => UserQ(u)
      case WaitTid(tid) => if tid == self.tid || tid !in s.table then ReadyQ else WaitFor(tid)
      case Acquire(l) => if LockOf(s, l).locked then LockQ(l) else ReadyQ
      case CvWait(c, l) => CvQ(c)
      case Resume => if self.pc.Acquiring? && LockOf(s, self.pc.l).locked then LockQ(self.pc.l) else ReadyQ
      case _ => ReadyQ
  }

  /** The order of those ready before the step, when the running thread stays ready. */
  function Order(s: State, t: Step): seq<Nid>
    requires Rq(s) != []
  {
    match t
    case YieldAny => RotateSeq(Rq(s))
    case Preempt => RotateSeq(Rq(s))
    case YieldTo(tid) =>
      var k := FindTid(s, Rq(s), tid);
      if 0 < k < |Rq(s)| then YieldSeq(Rq(s), k) else Rq(s)
    case Create(memory) => if memory && FirstFreeTid(s.table, 0) < THREAD_MAX_THREADS then Rq(s) + [s.next] else Rq(s)
    case _ => Rq(s)
  }

  function AddLast(nodes: seq<Nid>, joins: bool, n: Nid): seq<Nid> {
    if joins then nodes + [n] else nodes
  }

  function AddWoken(nodes: seq<Nid>, s: State, t: Step): seq<Nid>
    requires Rq(s) != []
  {
    if WokenFrom(s, t).1 > 0 then nodes + Woken(s, t) else nodes
  }

  /** The queues after the step: woken threads join the ready queue in their order, the running thread
      joins the end of its destination, a thread that is back from a switch empties the exit queue, and every
      other queue is as it was. */
  ghost predicate QueuesAfter(s: State, t: Step, s': State)
    requires Rq(s) != []
  {
    var n, d, w := Rq(s)[0], Destination(s, t), WokenFrom(s, t);
    && (forall q: QueueId {:trigger Q(s', q)} :: IsWaitQueue(q) ==>
          Q(s', q) == AddLast(if q == w.0 && w.1 > 0 then Q(s, q)[w.1..] else Q(s, q), q == d, n))
    && Rq(s') == AddWoken(if d == ReadyQ then Order(s, t) else Rq(s)[1..], s, t)
    && Q(s', ExitQ) == (if d == ExitQ then Q(s, ExitQ) + [n] else if t.Resume? then [] else Q(s, ExitQ))
  }

  lemma QueuesStep(s: State, t: Step)
    requires Inv(s) && Enabled(s, t) && !Next(s, t).halted
    ensures QueuesAfter(s, t, Next(s, t))
  {
    hide *;
    match t
    case ExitCall => ExitCallQueues(s);
    case Resume => ResumeQueues(s);
    case CvWait(c, l) => CvWaitQueues(s, c, l);
    case SleepOn(u) => SleepQueues(s, u);
    case WaitTid(tid) => WaitQueues(s, tid);
    case Acquire(l) => AcquireStepQueues(s, l);
    case Release(l) => ReleaseQueues(s, l);
    case WakeupOn(u, all) => WakeQueues(s, t);
    case Signal(c, l) => WakeQueues(s, t);
    case Broadcast(c, l) => WakeQueues(s, t);
    case YieldTo(tid) => YieldToQueues(s, tid);
    case YieldAny => YieldAnyQueues(s, t);
    case Preempt => YieldAnyQueues(s, t);
    case YieldSelf => YieldSelfQueues(s);
    case Create(memory) => CreateQueues(s, memory);
    case Kill(tid) => KillQueues(s, tid);
    case DestroyLock(l) => DestroyQueues(s, t);
    case DestroyCv(c) => DestroyQueues(s, t);
  }

  lemma DestroyQueues(s: State, t: Step)
    requires Inv(s) && Enabled(s, t) && (t.DestroyLock? || t.DestroyCv?)
    ensures QueuesAfter(s, t, Next(s, t))
  {
    hide Q, NoRepeats, Placed, Tabled, Phased, LocksOk, AwaitsOk;
    HeadPlaced(s);
    QFields(s, Next(s, t));
  }

  lemma ExitCallQueues(s: State)
    requires Inv(s) && Enabled(s, ExitCall) && !Next(s, ExitCall).halted
    ensures QueuesAfter(s, ExitCall, Next(s, ExitCall))
  {
    hide Q, Placed, Tabled, Phased, LocksOk, AwaitsOk, Exit, QueuesAfter;
    ExitQueues(s, ExitCall);
  }

  lemma SleepQueues(s: State, u: nat)
    requires Inv(s) && Enabled(s, SleepOn(u))
    ensures QueuesAfter(s, SleepOn(u), Next(s, SleepOn(u)))
  {
    hide Q, NoRepeats, Placed, Tabled, Phased, LocksOk, AwaitsOk, Moved, Park;
    HeadPlaced(s);
    if |Rq(s)| > 1 { ParkMoves(s, UserQ(u), Slept); }
  }

  lemma AcquireStepQueues(s: State, l: nat)
    requires Inv(s) && Enabled(s, Acquire(l))
    ensures QueuesAfter(s, Acquire(l), Next(s, Acquire(l)))
  {
    hide Q, NoRepeats, Placed, Tabled, Phased, LocksOk, AwaitsOk, TryAcquire;
    HeadPlaced(s);
    AcquireQueues(s, l);
  }

  lemma ReleaseQueues(s: State, l: nat)
    requires Inv(s) && Enabled(s, Release(l))
    ensures QueuesAfter(s, Release(l), Next(s, Release(l)))
  {
    hide Q, NoRepeats, Placed, Tabled, Phased, LocksOk, AwaitsOk, Unlock;
    HeadPlaced(s);
    UnlockQueues(s, l);
  }

  lemma WakeQueues(s: State, t: Step)
    requires Inv(s) && Enabled(s, t) && (t.WakeupOn? || t.Signal? || t.Broadcast?)
    ensures QueuesAfter(s, t, Next(s, t))
  {
    hide Q, NoRepeats, Placed, Tabled, Phased, LocksOk, AwaitsOk, Wake;
    HeadPlaced(s);
    WakeIs(s, WokenFrom(s, t).0, WokenFrom(s, t).1);
  }

  lemma YieldAnyQueues(s: State, t: Step)
    requires Inv(s) && Enabled(s, t) && (t.YieldAny? || t.Preempt?)
    ensures QueuesAfter(s, t, Next(s, t))
  {
    hide Q, NoRepeats, Placed, Tabled, Phased, LocksOk, AwaitsOk, RotateSeq, YieldAnyNext;
    HeadPlaced(s);
    RotatedQueues(s);
  }

  lemma RotatedQueues(s: State)
    requires Rq(s) != []
    ensures var s' := YieldAnyNext(s); forall p: QueueId {:trigger Q(s', p)} :: Q(s', p) == if p == ReadyQ then RotateSeq(Rq(s)) else Q(s, p)
  {
    hide Q, RotateSeq, Reorder;
    RotateOne(Rq(s));
    if |Rq(s)| != 1 { ReorderQueues(s, RotateSeq(Rq(s))); }
  }

  lemma YieldSelfQueues(s: State)
    requires Inv(s) && Enabled(s, YieldSelf)
    ensures QueuesAfter(s, YieldSelf, Next(s, YieldSelf))
  {
    hide Q, NoRepeats, Placed, Tabled, Phased, LocksOk, AwaitsOk, Reorder;
    HeadPlaced(s);
    ReorderQueues(s, Rq(s));
  }

  lemma ReorderQueues(s: State, order: seq<Nid>)
    requires Rq(s) != []
    ensures var s' := Reorder(s, order); forall p: QueueId {:trigger Q(s', p)} :: Q(s', p) == if p == ReadyQ then order else Q(s, p)
  {
    hide Q;
    QOfSetQ(s, ReadyQ, order);
    QFields(SetQ(s, ReadyQ, order), Reorder(s, order));
  }

  lemma RotateOne(nodes: seq<Nid>)
    ensures |nodes| == 1 ==> RotateSeq(nodes) == nodes
  {}

  lemma CreateQueues(s: State, memory: bool)
    requires Inv(s) && Enabled(s, Create(memory))
    ensures QueuesAfter(s, Create(memory), Next(s, Create(memory)))
  {
    hide Q, NoRepeats, Placed, Tabled, Phased, LocksOk, AwaitsOk, FirstFreeTid;
    HeadPlaced(s);
    QOfSetQ(s, ReadyQ, Rq(s) + [s.next]);
    if memory && FirstFreeTid(s.table, 0) < THREAD_MAX_THREADS {
      QFields(SetQ(s, ReadyQ, Rq(s) + [s.next]), Next(s, Create(memory)));
    }
  }

  lemma KillQueues(s: State, tid: nat)
    requires Inv(s) && Enabled(s, Kill(tid))
    ensures QueuesAfter(s, Kill(tid), Next(s, Kill(tid)))
  {
    hide Q, NoRepeats, Placed, Tabled, Phased, LocksOk, AwaitsOk;
    HeadPlaced(s);
    QFields(s, Next(s, Kill(tid)));
  }

  lemma YieldToQueues(s: State, tid: nat)
    requires Inv(s) && Enabled(s, YieldTo(tid))
    ensures QueuesAfter(s, YieldTo(tid), Next(s, YieldTo(tid)))
  {
    hide Q, NoRepeats, Placed, Tabled, Phased, LocksOk, AwaitsOk, FindTid, YieldSeq;
    HeadPlaced(s);
    var s' := Next(s, YieldTo(tid));
    QOfSetQ(s, ReadyQ, Order(s, YieldTo(tid)));
    if FindTid(s, Rq(s), tid) < |Rq(s)| { QFields(SetQ(s, ReadyQ, Order(s, YieldTo(tid))), s'); }
  }

  lemma WaitQueues(s: State, tid: nat)
    requires Inv(s) && Enabled(s, WaitTid(tid))
    ensures QueuesAfter(s, WaitTid(tid), Next(s, WaitTid(tid)))
  {
    hide Q, NoRepeats, Placed, Tabled, Phased, LocksOk, AwaitsOk, Moved, Park;
    HeadPlaced(s);
    if tid != ThOf(s, Rq(s)[0]).tid && tid in s.table && |Rq(s)| > 1 {
      ParkMoves(s, WaitFor(tid), Slept);
      QFields(Park(s, WaitFor(tid), Slept), Next(s, WaitTid(tid)));
    }
  }

  /** The queues after `lock_acquire` has tested the lock once. */
  lemma AcquireQueues(s: State, l: nat)
    requires Placed(s)
    ensures var s' := TryAcquire(s, l);
      var d := if LockOf(s, l).locked && |Rq(s)| > 1 then LockQ(l) else ReadyQ;
      && Rq(s') == (if d == ReadyQ then Rq(s) else Rq(s)[1..])
      && (forall q: QueueId {:trigger Q(s', q)} :: q != ReadyQ ==> Q(s', q) == AddLast(Q(s, q), q == d, Rq(s)[0]))
  {
    hide Q, NoRepeats, Placed, Moved, Park;
    HeadPlaced(s);
    if LockOf(s, l).locked && |Rq(s)| > 1 {
      ParkMoves(s, LockQ(l), Acquiring(l));
    } else {
      QFields(s, TryAcquire(s, l));
    }
  }

  lemma UnlockQueues(s: State, l: nat)
    requires Inv(s) && OwnsLock(s, l)
    ensures var s', w := Unlock(s, l), Q(s, LockQ(l));
      forall q: QueueId {:trigger Q(s', q)} :: Q(s', q) == if q == ReadyQ then Rq(s) + w else if q == LockQ(l) then [] else Q(s, q)
  {
    hide Q, NoRepeats, Placed, Wake, Unlock;
    HeadPlaced(s);
    UnlockIs(s, l);
    WakeIs(s, LockQ(l), |Q(s, LockQ(l))|);
    QFields(WakeAll(s, LockQ(l)), Unlock(s, l));
  }

  lemma CvWaitQueues(s: State, c: nat, l: nat)
    requires Inv(s) && Enabled(s, CvWait(c, l))
    ensures QueuesAfter(s, CvWait(c, l), Next(s, CvWait(c, l)))
  {
    hide Q, NoRepeats, Placed, Tabled, Phased, LocksOk, AwaitsOk, Moved, Park, Unlock, TryAcquire;
    HeadPlaced(s);
    UnlockKeeps(s, l);
    UnlockQueues(s, l);
    var s1 := Unlock(s, l);
    if |Rq(s1)| == 1 {
      AcquireQueues(s1, l);
    } else {
      ParkMoves(s1, CvQ(c), Acquiring(l));
    }
  }

  lemma ExitQueues(s: State, t: Step)
    requires Inv(s) && !s.halted && Exits(s, t) && !Exit(s).halted
    ensures QueuesAfter(s, t, Exit(s))
  {
    hide Q, NoRepeats, Placed, Tabled, Phased, LocksOk, AwaitsOk, Moved, Wake, Leave, Exit;
    HeadPlaced(s);
    var n := Rq(s)[0];
    var q := WaitFor(ThOf(s, n).tid);
    ExitIs(s);
    WakeIs(s, q, |Q(s, q)|);
    var w := WakeAll(s, q);
    LeaveMoves(w, ExitQ, ThOf(s, n).(place := ExitQ));
    QFields(Leave(w, ExitQ, ThOf(s, n).(place := ExitQ)), Exit(s));
  }

  lemma ResumeQueues(s: State)
    requires Inv(s) && Enabled(s, Resume) && !Next(s, Resume).halted
    ensures QueuesAfter(s, Resume, Next(s, Resume))
  {
    hide Q, NoRepeats, Placed, Tabled, Phased, LocksOk, AwaitsOk, Moved, Exit, ClearExited, TryAcquire;
    HeadPlaced(s);
    var n := Rq(s)[0];
    var self := ThOf(s, n);
    if self.status == Exited {
      ExitQueues(s, Resume);
    } else {
      ClearKeeps(s);
      ClearIs(s);
      var s1 := ClearExited(s);
      var s2 := SetTh(s1, n, self.(status := Running));
      QFields(s1, s2);
      if !self.pc.Acquiring? {
        QFields(s1, Next(s, Resume));
      } else {
        SelfKeeps(s1, self.(status := Running));
        AcquireQueues(s2, self.pc.l);
      }
    }
  }

  // ----- thread entries -----

  /** No thread changes its id, a killed one stays killed, an exited one stays exited, and only thread
      `n` changes where it continues. */
  ghost predicate Kept(s: State, s': State, n: Nid) {
    && s'.next == s.next && s'.th.Keys == s.th.Keys
    && (forall m {:trigger s'.th[m]} :: m in s.th ==>
          && s'.th[m].tid == s.th[m].tid
          && (s.th[m].status == Exited ==> s'.th[m].status == Exited)
          && (m != n ==> s'.th[m].pc == s.th[m].pc && (s.th[m].place.ExitQ? ==> s'.th[m].place.ExitQ?)))
  }

  /** A thread that has been killed or has exited. */
  ghost predicate Dead(s: State, m: Nid) {
    m < s.next && (m in s.th ==> s.th[m].status == Exited || s.th[m].place.ExitQ?)
  }

  /** A thread that has exited. */
  ghost predicate Gone(s: State, m: Nid) {
    m < s.next && (m in s.th ==> s.th[m].place.ExitQ?)
  }

  /** Thread `n` is still in `lock_acquire(l)`, or has returned from it holding the lock, or has exited. */
  ghost predicate Acquires(s: State, n: Nid, l: nat) {
    || Gone(s, n)
    || (n in s.th && s.th[n].pc == Acquiring(l))
    || (n in s.th && s.th[n].pc == User && LockOf(s, l).locked && LockOf(s, l).holder == n && (n, l) in s.inside)
  }

  /** The entries after a step: a thread stays dead or gone, one acquiring a lock keeps at it, the others
      continue where they were, and only a thread that has exited is freed. */
  ghost predicate EntriesAfter(s: State, s': State)
    requires Rq(s) != []
  {
    && (forall m {:trigger Dead(s', m)} {:trigger Gone(s', m)} :: (Dead(s, m) ==> Dead(s', m)) && (Gone(s, m) ==> Gone(s', m)))
    && (forall m {:trigger m in s'.th} :: m in s.th && m !in s'.th ==> s.th[m].place.ExitQ?)
    && (forall m {:trigger s'.th[m]} :: m in s.th && m in s'.th && m != Rq(s)[0] ==> s'.th[m].pc == s.th[m].pc)
    && (forall m {:trigger s'.th[m]} :: m in s.th && m in s'.th ==> s'.th[m].tid == s.th[m].tid)
  }

  lemma SetKept(s: State, n: Nid, t: Th)
    requires n in s.th && t.tid == s.th[n].tid && (s.th[n].status == Exited ==> t.status == Exited)
    ensures Kept(s, SetTh(s, n, t), n)
  {}

  lemma SameKept(s: State, s': State, n: Nid)
    requires s'.th == s.th && s'.next == s.next
    ensures Kept(s, s', n)
  {}

  lemma LeaveKept(s: State, q: QueueId, t: Th)
    requires Rq(s) != [] && q != ReadyQ && Rq(s)[0] in s.th
    requires t.tid == ThOf(s, Rq(s)[0]).tid && (ThOf(s, Rq(s)[0]).status == Exited ==> t.status == Exited)
    ensures Kept(s, Leave(s, q, t), Rq(s)[0])
  {
    LeaveFields(s, q, t);
  }

  lemma WakeKept(s: State, q: QueueId, k: nat, n: Nid)
    requires Placed(s) && IsWaitQueue(q) && k <= |Q(s, q)|
    ensures Kept(s, Wake(s, q, k), n)
  {
    hide Q, NoRepeats, Wake;
    WakeIs(s, q, k);
    forall m | m in Q(s, q)[..k] ensures m in s.th && s.th[m].place == q { assert m in Q(s, q); }
  }

  lemma KeptTwice(s: State, s1: State, s2: State, n: Nid)
    requires Kept(s, s1, n) && Kept(s1, s2, n)
    ensures Kept(s, s2, n)
  {}

  lemma TryAcquireKept(s: State, l: nat)
    requires Placed(s)
    ensures Kept(s, TryAcquire(s, l), Rq(s)[0]) && Acquires(TryAcquire(s, l), Rq(s)[0], l)
  {
    hide Q, NoRepeats, Placed, Leave, Kept;
    HeadPlaced(s);
    var n := Rq(s)[0];
    var t := ThOf(s, n);
    var asleep := Th(t.tid, Keep(t.status, Blocked), Acquiring(l), LockQ(l));
    var s1 := s.(locks := s.locks[l := Lock(true, t.tid, n)], inside := s.inside + {(n, l)});
    LeaveKept(s, LockQ(l), asleep);
    LeaveFields(s, LockQ(l), asleep);
    SetKept(s, n, t.(pc := Acquiring(l)));
    SameKept(s, s1, n);
    SetKept(s1, n, t.(pc := User));
    KeptTwice(s, s1, SetTh(s1, n, t.(pc := User)), n);
  }

  lemma UnlockKept(s: State, l: nat)
    requires Placed(s)
    ensures Kept(s, Unlock(s, l), Rq(s)[0])
  {
    hide Q, NoRepeats, Placed, Wake, Kept, Unlock;
    HeadPlaced(s);
    UnlockIs(s, l);
    WakeKept(s, LockQ(l), |Q(s, LockQ(l))|, Rq(s)[0]);
    SameKept(WakeAll(s, LockQ(l)), Unlock(s, l), Rq(s)[0]);
    KeptTwice(s, WakeAll(s, LockQ(l)), Unlock(s, l), Rq(s)[0]);
  }

  lemma ExitKept(s: State)
    requires Inv(s) && !s.halted && !Exit(s).halted
    ensures Kept(s, Exit(s), Rq(s)[0]) && Gone(Exit(s), Rq(s)[0])
  {
    hide Q, NoRepeats, Placed, Tabled, Phased, LocksOk, AwaitsOk, Wake, Leave, Exit, Kept;
    HeadPlaced(s);
    var n := Rq(s)[0];
    var t := ThOf(s, n).(place := ExitQ);
    var w := WakeAll(s, WaitFor(t.tid));
    ExitIs(s);
    HeadPlaced(w);
    HeadOld(s, n);
    WakeKept(s, WaitFor(t.tid), |Q(s, WaitFor(t.tid))|, n);
    LeaveKept(w, ExitQ, t);
    LeaveFields(w, ExitQ, t);
    SameKept(Leave(w, ExitQ, t), Exit(s), n);
    KeptTwice(s, w, Leave(w, ExitQ, t), n);
    KeptTwice(s, Leave(w, ExitQ, t), Exit(s), n);
    KeptNext(s, w, n);
  }

  lemma HeadOld(s: State, n: Nid)
    requires Placed(s) && n in s.th
    ensures n < s.next
  {}

  lemma KeptNext(s: State, s': State, n: Nid)
    requires Kept(s, s', n)
    ensures s'.next == s.next
  {}

  /** A call made in user code. */
  lemma KeptEntries(s: State, s': State)
    requires Inv(s) && Kept(s, s', Rq(s)[0])
    ensures EntriesAfter(s, s')
  {
    hide Q, NoRepeats, Tabled, Phased, LocksOk, AwaitsOk;
    HeadPlaced(s);
  }

  lemma CallKept(s: State, t: Step)
    requires Inv(s) && Enabled(s, t) && !t.Resume? && !t.Create? && !Next(s, t).halted
    ensures Kept(s, Next(s, t), Rq(s)[0])
  {
    hide Q, NoRepeats, Placed, Tabled, Phased, LocksOk, AwaitsOk, Wake, Unlock, TryAcquire, Exit, Kept, FindTid,
      YieldSeq, RotateSeq, Leave;
    HeadPlaced(s);
    var n := Rq(s)[0];
    SameKept(s, s, n);
    match t
    case YieldAny => ReorderKept(s, RotateSeq(Rq(s)));
    case Preempt => ReorderKept(s, RotateSeq(Rq(s)));
    case YieldSelf => ReorderKept(s, Rq(s));
    case YieldTo(tid) => ReorderKept(s, Order(s, t));
    case ExitCall => ExitKept(s);
    case Kill(tid) => KillKept(s, tid);
    case SleepOn(u) => LeaveKept(s, UserQ(u), Th(ThOf(s, n).tid, Keep(ThOf(s, n).status, Blocked), Slept, UserQ(u)));
    case WakeupOn(u, all) => if Q(s, UserQ(u)) != [] { WakeKept(s, UserQ(u), if all then |Q(s, UserQ(u))| else 1, n); }
    case WaitTid(tid) => WaitKept(s, tid);
    case Acquire(l) => TryAcquireKept(s, l);
    case Release(l) => UnlockKept(s, l);
    case CvWait(c, l) => CvWaitKept(s, c, l);
    case Signal(c, l) => if Q(s, CvQ(c)) != [] { WakeKept(s, CvQ(c), 1, n); }
    case Broadcast(c, l) => WakeKept(s, CvQ(c), |Q(s, CvQ(c))|, n);
    case DestroyLock(l) => SameKept(s, Next(s, t), n);
    case DestroyCv(c) => SameKept(s, Next(s, t), n);
  }

  lemma ReorderKept(s: State, order: seq<Nid>)
    requires Placed(s)
    ensures Kept(s, Reorder(s, order), Rq(s)[0])
  {
    hide Q, NoRepeats;
    HeadPlaced(s);
  }

  lemma KillKept(s: State, tid: nat)
    requires Inv(s) && Enabled(s, Kill(tid))
    ensures Kept(s, Next(s, Kill(tid)), Rq(s)[0])
  {
    hide Q, NoRepeats, Placed, Tabled, Phased, LocksOk, AwaitsOk;
  }

  lemma WaitKept(s: State, tid: nat)
    requires Inv(s) && Enabled(s, WaitTid(tid))
    ensures Kept(s, Next(s, WaitTid(tid)), Rq(s)[0])
  {
    hide Q, NoRepeats, Placed, Tabled, Phased, LocksOk, AwaitsOk, Leave;
    HeadPlaced(s);
    var t := Th(ThOf(s, Rq(s)[0]).tid, Keep(ThOf(s, Rq(s)[0]).status, Blocked), Slept, WaitFor(tid));
    LeaveKept(s, WaitFor(tid), t);
  }

  lemma CvWaitKept(s: State, c: nat, l: nat)
    requires Inv(s) && Enabled(s, CvWait(c, l))
    ensures Kept(s, Next(s, CvWait(c, l)), Rq(s)[0]) && Acquires(Next(s, CvWait(c, l)), Rq(s)[0], l)
  {
    hide Q, NoRepeats, Placed, Tabled, Phased, LocksOk, AwaitsOk, Unlock, TryAcquire, Leave, Kept;
    HeadPlaced(s);
    var n := Rq(s)[0];
    UnlockKeeps(s, l);
    UnlockKept(s, l);
    var s1 := Unlock(s, l);
    HeadPlaced(s1);
    if |Rq(s1)| == 1 {
      TryAcquireKept(s1, l);
    } else {
      var t := Th(ThOf(s1, n).tid, Keep(ThOf(s1, n).status, Blocked), Acquiring(l), CvQ(c));
      LeaveKept(s1, CvQ(c), t);
      LeaveFields(s1, CvQ(c), t);
    }
    KeptTwice(s, s1, Next(s, CvWait(c, l)), n);
  }

  lemma CreateEntries(s: State, memory: bool)
    requires Inv(s) && Enabled(s, Create(memory))
    ensures EntriesAfter(s, Next(s, Create(memory)))
  {
    hide Q, NoRepeats, Tabled, Phased, LocksOk, AwaitsOk, FirstFreeTid;
    HeadPlaced(s);
  }

  lemma ResumeEntries(s: State)
    requires Inv(s) && Enabled(s, Resume) && !Next(s, Resume).halted
    ensures EntriesAfter(s, Next(s, Resume))
    ensures forall l :: ThOf(s, Rq(s)[0]).pc == Acquiring(l) ==> Acquires(Next(s, Resume), Rq(s)[0], l)
    ensures ThOf(s, Rq(s)[0]).status == Exited ==> Gone(Next(s, Resume), Rq(s)[0])
  {
    hide Q, NoRepeats, Placed, Tabled, Phased, LocksOk, AwaitsOk, Exit, ClearExited, TryAcquire, Kept, EntriesAfter,
      Acquires, Gone;
    HeadPlaced(s);
    var n := Rq(s)[0];
    var self := ThOf(s, n);
    if self.status == Exited {
      ExitKept(s);
      KeptEntries(s, Next(s, Resume));
      GoneAcquires(Next(s, Resume), n);
    } else {
      ClearKeeps(s);
      var s1 := ClearExited(s);
      HeadPlaced(s1);
      if self.pc.Acquiring? {
        var s2 := SetTh(s1, n, self.(status := Running));
        SetKept(s1, n, self.(status := Running));
        SelfKeeps(s1, self.(status := Running));
        TryAcquireKept(s2, self.pc.l);
        QFields(s1, s2);
        KeptTwice(s1, s2, Next(s, Resume), n);
      } else {
        SetKept(s1, n, self.(status := Running, pc := User));
      }
      ClearEntries(s, Next(s, Resume));
    }
  }

  lemma GoneAcquires(s: State, n: Nid)
    requires Gone(s, n)
    ensures forall l {:trigger Acquires(s, n, l)} :: Acquires(s, n, l)
  {}

  lemma ClearEntries(s: State, s': State)
    requires Inv(s) && Kept(ClearExited(s), s', Rq(s)[0])
    ensures EntriesAfter(s, s')
  {
    hide Q, NoRepeats, Tabled, Phased, LocksOk, AwaitsOk, ClearExited;
    HeadPlaced(s);
    ClearIs(s);
  }

  lemma EntriesStep(s: State, t: Step)
    requires Inv(s) && Enabled(s, t) && !Next(s, t).halted
    ensures EntriesAfter(s, Next(s, t))
  {
    hide *;
    if t.Create? {
      CreateEntries(s, t.memory);
    } else if t.Resume? {
      ResumeEntries(s);
    } else {
      CallKept(s, t);
      KeptEntries(s, Next(s, t));
    }
  }

  // ----- what is not about threads -----

  /** Only destroying frees, and only `thread_wait` notes whom a thread waits for. */
  lemma SideStep(s: State, t: Step)
    requires Enabled(s, t)
    ensures Next(s, t).freed == s.freed + if t.DestroyLock? then {LockQ(t.l)} else if t.DestroyCv? then {CvQ(t.c)} else {}
    ensures forall m {:trigger m in Next(s, t).awaits} :: m in s.awaits && m != Rq(s)[0] ==> m in Next(s, t).awaits && Next(s, t).awaits[m] == s.awaits[m]
  {
    hide Q, FindTid, FirstFreeTid, YieldSeq, RotateSeq, TryAcquire, Unlock, Exit, Wake, ClearExited, Park;
    match t
    case ExitCall => ExitSide(s);
    case Acquire(l) => TryAcquireSide(s, l);
    case Release(l) => UnlockSide(s, l);
    case CvWait(c, l) => CvWaitSide(s, c, l);
    case WakeupOn(u, all) => WakeSide(s, UserQ(u));
    case Signal(c, l) => WakeSide(s, CvQ(c));
    case Broadcast(c, l) => WakeSide(s, CvQ(c));
    case SleepOn(u) => ParkSide(s, UserQ(u));
    case WaitTid(tid) => ParkSide(s, WaitFor(tid));
    case Resume => ResumeSide(s);
    case _ =>
  }

  lemma WakeSide(s: State, q: QueueId)
    requires q != ReadyQ
    ensures forall k: nat {:trigger Wake(s, q, k)} :: k <= |Q(s, q)| ==> Wake(s, q, k).freed == s.freed && Wake(s, q, k).awaits == s.awaits
  {
    hide Wake, Q;
    forall k: nat | k <= |Q(s, q)| ensures Wake(s, q, k).freed == s.freed && Wake(s, q, k).awaits == s.awaits { WakeIs(s, q, k); }
  }

  lemma ParkSide(s: State, q: QueueId)
    requires Rq(s) != [] && q != ReadyQ
    ensures forall pc {:trigger Park(s, q, pc)} :: Park(s, q, pc).freed == s.freed && Park(s, q, pc).awaits == s.awaits
  {
    hide Q, Leave;
    forall pc ensures Park(s, q, pc).freed == s.freed && Park(s, q, pc).awaits == s.awaits {
      var t := ThOf(s, Rq(s)[0]);
      LeaveSide(s, q, Th(t.tid, Keep(t.status, Blocked), pc, q));
    }
  }

  lemma LeaveSide(s: State, q: QueueId, t: Th)
    requires Rq(s) != [] && q != ReadyQ
    ensures Leave(s, q, t).freed == s.freed && Leave(s, q, t).awaits == s.awaits
  {
    hide Q;
  }

  lemma TryAcquireSide(s: State, l: nat)
    requires Rq(s) != []
    ensures TryAcquire(s, l).freed == s.freed && TryAcquire(s, l).awaits == s.awaits
  {
    hide Q;
  }

  lemma UnlockSide(s: State, l: nat)
    requires Rq(s) != []
    ensures Unlock(s, l).freed == s.freed && Unlock(s, l).awaits == s.awaits && Rq(Unlock(s, l)) != []
  {
    hide Wake, Unlock;
    UnlockIs(s, l);
    WakeSide(s, LockQ(l));
    WakeIs(s, LockQ(l), |Q(s, LockQ(l))|);
    QFields(WakeAll(s, LockQ(l)), Unlock(s, l));
  }

  lemma CvWaitSide(s: State, c: nat, l: nat)
    requires Enabled(s, CvWait(c, l))
    ensures Next(s, CvWait(c, l)).freed == s.freed && Next(s, CvWait(c, l)).awaits == s.awaits
  {
    hide Q, TryAcquire, Unlock, Park;
    UnlockSide(s, l);
    TryAcquireSide(Unlock(s, l), l);
    ParkSide(Unlock(s, l), CvQ(c));
  }

  lemma ExitSide(s: State)
    requires Rq(s) != []
    ensures Exit(s).freed == s.freed && Exit(s).awaits == s.awaits
  {
    hide Wake;
    var s1 := s.(table := s.table - {ThOf(s, Rq(s)[0]).tid});
    WakeSide(s1, WaitFor(ThOf(s, Rq(s)[0]).tid));
  }

  lemma ResumeSide(s: State)
    requires Enabled(s, Resume)
    ensures Next(s, Resume).freed == s.freed && Next(s, Resume).awaits == s.awaits
  {
    hide Exit, TryAcquire;
    ExitSide(s);
    var n := Rq(s)[0];
    var s2 := SetTh(ClearExited(s), n, ThOf(s, n).(status := Running));
    if ThOf(s, n).pc.Acquiring? { TryAcquireSide(s2, ThOf(s, n).pc.l); }
  }
}
