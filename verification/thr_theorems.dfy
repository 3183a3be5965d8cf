/** What holds in every run of the thread library: conservation of threads, killed threads, locks,
    condition variables, waiting for an exit, and the order of scheduling. */
module ThreadTheorems {
  import opened ThreadQueues
  import opened ThreadSystem
  import opened ThreadInvariant
  import opened ThreadEffects

  /** After `thread_init`. */
  function Initial(): State {
    State(map[ReadyQ := [0]], map[0 := Th(0, Running, User, ReadyQ)], map[0 := 0], map[], {}, map[], {}, 1, false)
  }

  lemma InitialInv()
    ensures Inv(Initial())
  {
    var s := Initial();
    assert forall q: QueueId :: Q(s, q) == if q == ReadyQ then [0] else [];
    assert 0 in Q(s, ReadyQ);
  }

  ghost predicate StepAt(ss: seq<State>, ts: seq<Step>, i: nat)
    requires i < |ts| && |ss| == |ts| + 1
  {
    Enabled(ss[i], ts[i]) && ss[i + 1] == Next(ss[i], ts[i])
  }

  /** `ss` are the states of a run that takes the steps `ts`; any interleaving of calls, switches back
      and preemptions is one. */
  ghost predicate Run(ss: seq<State>, ts: seq<Step>) {
    |ss| == |ts| + 1 && ss[0] == Initial() && forall i: nat {:trigger StepAt(ss, ts, i)} :: i < |ts| ==> StepAt(ss, ts, i)
  }

  /** The program still runs in state `i` of the run. */
  ghost predicate Live(ss: seq<State>, ts: seq<Step>, i: nat) {
    Run(ss, ts) && i <= |ts| && !ss[i].halted
  }

  lemma {:induction false} RunKeeps(ss: seq<State>, ts: seq<Step>, i: nat)
    requires Live(ss, ts, i)
    ensures Inv(ss[i])
  {
    hide Inv, Next, Enabled;
    if i == 0 {
      InitialInv();
    } else {
      BeforeLive(ss, ts, i);
      RunKeeps(ss, ts, i - 1);
      StepKeeps(ss[i - 1], ts[i - 1]);
    }
  }

  lemma BeforeLive(ss: seq<State>, ts: seq<Step>, i: nat)
    requires Run(ss, ts) && 0 < i <= |ts|
    ensures Live(ss, ts, i - 1) && StepAt(ss, ts, i - 1)
  {
    hide Next;
    assert StepAt(ss, ts, i - 1);
  }

  // ----- conservation -----

  /** Every thread node is in exactly one queue and there at exactly one place, and `threads` names
      exactly the threads that are ready or waiting, by unique ids. */
  lemma ThreadsConserved(ss: seq<State>, ts: seq<Step>, i: nat, n: Nid)
    requires Live(ss, ts, i)
    ensures n in ss[i].th <==> exists q: QueueId :: n in Q(ss[i], q)
    ensures forall q: QueueId, p: QueueId :: n in Q(ss[i], q) && n in Q(ss[i], p) ==> q == p
    ensures forall q: QueueId, j: nat, k: nat :: j < k < |Q(ss[i], q)| && Q(ss[i], q)[j] == n ==> Q(ss[i], q)[k] != n
    ensures forall t: nat :: t in ss[i].table && ss[i].table[t] == n <==>
              n in ss[i].th && n !in Q(ss[i], ExitQ) && ss[i].th[n].tid == t
  {
    RunKeeps(ss, ts, i);
    OneQueue(ss[i], n);
    TableExact(ss[i], n);
  }

  lemma OneQueue(s: State, n: Nid)
    requires Placed(s)
    ensures n in s.th <==> exists q: QueueId :: n in Q(s, q)
    ensures forall q: QueueId, p: QueueId :: n in Q(s, q) && n in Q(s, p) ==> q == p
    ensures forall q: QueueId, j: nat, k: nat :: j < k < |Q(s, q)| && Q(s, q)[j] == n ==> Q(s, q)[k] != n
  {
    hide Q;
    forall q: QueueId, j: nat, k: nat | j < k < |Q(s, q)| ensures Q(s, q)[j] != Q(s, q)[k] {
      assert NoRepeats(Q(s, q));
    }
  }

  lemma TableExact(s: State, n: Nid)
    requires Placed(s) && Tabled(s)
    ensures forall t: nat :: t in s.table && s.table[t] == n <==> n in s.th && n !in Q(s, ExitQ) && s.th[n].tid == t
  {
    hide Q, NoRepeats;
    if n in s.th { assert n in Q(s, s.th[n].place); }
  }

  /** Nothing but a freed node of the exit queue ever disappears. */
  lemma OnlyExitedAreFreed(ss: seq<State>, ts: seq<Step>, i: nat, n: Nid)
    requires Run(ss, ts) && i < |ts| && !ss[i + 1].halted && n in ss[i].th && n !in ss[i + 1].th
    ensures n in Q(ss[i], ExitQ) && ts[i] == Resume
  {
    hide Inv, Next, Enabled, EntriesAfter;
    BeforeLive(ss, ts, i + 1);
    RunKeeps(ss, ts, i);
    FreedWas(ss[i], ts[i], n);
  }

  lemma FreedWas(s: State, t: Step, n: Nid)
    requires Inv(s) && Enabled(s, t) && !Next(s, t).halted && n in s.th && n !in Next(s, t).th
    ensures n in Q(s, ExitQ) && t == Resume
  {
    hide Q, NoRepeats, Next, Enabled, Tabled, Phased, LocksOk, AwaitsOk;
    EntriesStep(s, t);
    EnabledHead(s, t);
    assert s.th[n].place == ExitQ;
    assert n in Q(s, s.th[n].place);
    if t.Create? {
      CreateEntriesKeep(s, t.memory);
    } else if !t.Resume? {
      CallKept(s, t);
    }
  }

  lemma EnabledHead(s: State, t: Step)
    requires Enabled(s, t)
    ensures Rq(s) != []
  {}

  lemma CreateEntriesKeep(s: State, memory: bool)
    requires Enabled(s, Create(memory))
    ensures s.th.Keys <= Next(s, Create(memory)).th.Keys
  {}

  // ----- killed threads -----

  lemma {:induction false} DeadStays(ss: seq<State>, ts: seq<Step>, i: nat, j: nat, n: Nid)
    requires Live(ss, ts, j) && i <= j && Dead(ss[i], n)
    ensures Dead(ss[j], n)
  {
    hide Inv, Next, Enabled, Dead;
    if i < j {
      BeforeLive(ss, ts, j);
      DeadStays(ss, ts, i, j - 1, n);
      RunKeeps(ss, ts, j - 1);
      EntriesStep(ss[j - 1], ts[j - 1]);
      EnabledHead(ss[j - 1], ts[j - 1]);
    }
  }

  lemma KillMarks(s: State, tid: nat)
    requires Inv(s) && Enabled(s, Kill(tid)) && tid != ThOf(s, Rq(s)[0]).tid && tid in s.table
    ensures Dead(Next(s, Kill(tid)), s.table[tid])
  {
    hide Q, NoRepeats, Phased, LocksOk, AwaitsOk;
  }

  /** A dead thread at the head of the ready queue can only exit. */
  lemma DeadOnlyExits(s: State, t: Step)
    requires Inv(s) && Enabled(s, t) && Dead(s, Rq(s)[0])
    ensures t == Resume && (Next(s, t).halted || Gone(Next(s, t), Rq(s)[0]))
  {
    hide Q, NoRepeats, Tabled, LocksOk, AwaitsOk, Next, Gone;
    HeadPlaced(s);
    if !Next(s, t).halted { ResumeEntries(s); }
  }

  /** A killed thread never executes user code again: whenever it is scheduled it can only take the step
      that exits. */
  lemma KilledNeverRuns(ss: seq<State>, ts: seq<Step>, i: nat, j: nat, tid: nat)
    requires Run(ss, ts) && i < j < |ts| && ts[i] == Kill(tid)
    requires Rq(ss[i]) != [] && tid in ss[i].table && tid != ThOf(ss[i], Rq(ss[i])[0]).tid
    requires Rq(ss[j]) != [] && Rq(ss[j])[0] == ss[i].table[tid]
    ensures ts[j] == Resume && (ss[j + 1].halted || Gone(ss[j + 1], ss[i].table[tid]))
  {
    hide Inv, Next, Enabled, Dead, Gone;
    BeforeLive(ss, ts, i + 1);
    BeforeLive(ss, ts, j + 1);
    RunKeeps(ss, ts, i);
    RunKeeps(ss, ts, j);
    KillMarks(ss[i], tid);
    DeadStays(ss, ts, i + 1, j, ss[i].table[tid]);
    DeadOnlyExits(ss[j], ts[j]);
  }

  // ----- locks -----

  /** At most one thread that has not exited is between acquiring a lock and releasing it, and a free lock
      has no sleepers, so that destroying it discards nobody. */
  lemma MutualExclusion(ss: seq<State>, ts: seq<Step>, i: nat, l: nat)
    requires Live(ss, ts, i)
    ensures forall n: Nid, m: Nid :: (n, l) in ss[i].inside && (m, l) in ss[i].inside && LiveTh(ss[i], n) && LiveTh(ss[i], m) ==> n == m
    ensures !LockOf(ss[i], l).locked ==> Q(ss[i], LockQ(l)) == [] && forall n: Nid :: (n, l) in ss[i].inside ==> !LiveTh(ss[i], n)
  {
    hide Q, NoRepeats, Placed, Tabled, Phased, AwaitsOk, LiveTh;
    RunKeeps(ss, ts, i);
  }

  /** The asserts of the lock and condition-variable calls compare Tids: who passes them is the thread
      that acquired the lock exactly if that thread has not exited. */
  lemma OnlyHolderReleases(ss: seq<State>, ts: seq<Step>, i: nat)
    requires Run(ss, ts) && i < |ts| && (ts[i].Release? || ts[i].CvWait? || ts[i].Signal? || ts[i].Broadcast?)
    ensures Rq(ss[i]) != []
    ensures LockOf(ss[i], ts[i].l).holder == Rq(ss[i])[0] <==> LiveTh(ss[i], LockOf(ss[i], ts[i].l).holder)
  {
    hide Inv, Next, LiveTh;
    BeforeLive(ss, ts, i + 1);
    RunKeeps(ss, ts, i);
    OwnerIsHolder(ss[i], ts[i].l);
  }

  lemma AcquireStarts(s: State, t: Step, l: nat)
    requires Inv(s) && Enabled(s, t) && !Next(s, t).halted && (t == Acquire(l) || (t.CvWait? && t.l == l))
    ensures Acquires(Next(s, t), Rq(s)[0], l)
  {
    hide Q, NoRepeats, Tabled, Phased, LocksOk, AwaitsOk, Acquires, TryAcquire, Placed;
    if t.CvWait? { CvWaitKept(s, t.c, l); } else { TryAcquireKept(s, l); }
  }

  lemma AcquireGoesOn(s: State, t: Step, n: Nid, l: nat)
    requires Inv(s) && Enabled(s, t) && !Next(s, t).halted && Acquires(s, n, l) && (n in s.th ==> s.th[n].pc != User)
    ensures Acquires(Next(s, t), n, l)
  {
    hide Q, NoRepeats, Next, Tabled, Phased, LocksOk, AwaitsOk, Placed;
    EntriesStep(s, t);
    EntriesStepGone(s, t, n);
    if n in s.th && !Gone(s, n) && n == Rq(s)[0] {
      ResumeEntries(s);
    } else if n in s.th && !Gone(s, n) {
      HeadOld(s, n);
    }
  }

  lemma EntriesStepGone(s: State, t: Step, n: Nid)
    requires Inv(s) && Enabled(s, t) && !Next(s, t).halted
    ensures Gone(s, n) ==> Gone(Next(s, t), n)
  {
    hide Inv, Next, Enabled, Gone;
    EntriesStep(s, t);
    EnabledHead(s, t);
  }

  /** `lock_acquire` and `cv_wait` return only with the caller holding the lock: from the call until the
      caller is first back in user code it is acquiring, and there it is the holder. */
  lemma {:induction false} ReturnsHolding(ss: seq<State>, ts: seq<Step>, i: nat, j: nat, n: Nid, l: nat)
    requires Live(ss, ts, j) && i < j && (ts[i] == Acquire(l) || (ts[i].CvWait? && ts[i].l == l))
    requires Rq(ss[i]) != [] && Rq(ss[i])[0] == n
    requires forall k :: i < k < j && n in ss[k].th ==> ss[k].th[n].pc != User
    ensures Acquires(ss[j], n, l)
    decreases j
  {
    hide Inv, Next, Enabled, Acquires;
    BeforeLive(ss, ts, j);
    RunKeeps(ss, ts, j - 1);
    if i == j - 1 {
      AcquireStarts(ss[i], ts[i], l);
    } else {
      ReturnsHolding(ss, ts, i, j - 1, n, l);
      AcquireGoesOn(ss[j - 1], ts[j - 1], n, l);
    }
  }

  // ----- condition variables -----

  /** `cv_wait` releases the lock and joins the waiters in one step; alone, it does not wait but keeps
      the lock. */
  lemma CvWaitAtomic(s: State, c: nat, l: nat)
    requires Inv(s) && Enabled(s, CvWait(c, l))
    ensures var s' := Next(s, CvWait(c, l));
      if |Rq(s)| + |Q(s, LockQ(l))| > 1
      then Q(s', CvQ(c)) == Q(s, CvQ(c)) + [Rq(s)[0]] && !LockOf(s', l).locked
      else Q(s', CvQ(c)) == Q(s, CvQ(c)) && LockOf(s', l).locked && LockOf(s', l).holder == Rq(s)[0]
  {
    hide Q, NoRepeats, Placed, Tabled, Phased, LocksOk, AwaitsOk, Moved, Unlock, Leave;
    HeadPlaced(s);
    UnlockKeeps(s, l);
    UnlockQueues(s, l);
    CvWaitQueues(s, c, l);
    var s1 := Unlock(s, l);
    if |Rq(s1)| != 1 { ParkFields(s1, CvQ(c), Acquiring(l)); }
  }

  lemma ParkFields(s: State, q: QueueId, pc: Pc)
    requires Rq(s) != [] && q != ReadyQ
    ensures Park(s, q, pc).locks == s.locks && Park(s, q, pc).awaits == s.awaits && Park(s, q, pc).table == s.table
  {}

  function SignalsOn(ts: seq<Step>, c: nat): nat {
    if ts == [] then 0 else SignalsOn(ts[..|ts| - 1], c) + if ts[|ts| - 1].Signal? && ts[|ts| - 1].c == c then 1 else 0
  }

  lemma CvStep(s: State, t: Step, c: nat, k: nat)
    requires Inv(s) && Enabled(s, t) && !Next(s, t).halted && k < |Q(s, CvQ(c))|
    ensures var q, q', n := Q(s, CvQ(c)), Q(Next(s, t), CvQ(c)), Q(s, CvQ(c))[k];
      if t.Broadcast? && t.c == c then q' == [] && Rq(Next(s, t)) == Rq(s) + q
      else if t.Signal? && t.c == c then q' == q[1..] && Rq(Next(s, t)) == Rq(s) + [q[0]]
      else k < |q'| && q'[k] == n
  {
    hide Q, NoRepeats, Next, Inv, Enabled;
    QueuesStep(s, t);
    EnabledHead(s, t);
    if t.Broadcast? && t.c == c {
      BroadcastStep(s, t, Next(s, t));
    } else if t.Signal? && t.c == c {
      SignalStep(s, t, Next(s, t));
    } else {
      OtherStep(s, t, Next(s, t), c);
    }
  }

  lemma BroadcastStep(s: State, t: Step, s': State)
    requires Rq(s) != [] && QueuesAfter(s, t, s') && t.Broadcast?
    ensures Q(s', CvQ(t.c)) == [] && Rq(s') == Rq(s) + Q(s, CvQ(t.c))
  {
    hide Q;
  }

  lemma SignalStep(s: State, t: Step, s': State)
    requires Rq(s) != [] && QueuesAfter(s, t, s') && t.Signal? && Q(s, CvQ(t.c)) != []
    ensures Q(s', CvQ(t.c)) == Q(s, CvQ(t.c))[1..] && Rq(s') == Rq(s) + [Q(s, CvQ(t.c))[0]]
  {
    hide Q;
    assert Woken(s, t) == [Q(s, CvQ(t.c))[0]];
  }

  lemma OtherStep(s: State, t: Step, s': State, c: nat)
    requires Rq(s) != [] && QueuesAfter(s, t, s') && !((t.Signal? || t.Broadcast?) && t.c == c)
    ensures Q(s, CvQ(c)) <= Q(s', CvQ(c))
  {
    hide Q, Destination;
    assert IsWaitQueue(CvQ(c));
    assert WokenFrom(s, t).0 != CvQ(c);
  }

  /** No wakeup is lost and signals wake in order: of the waiters on a condition variable, the one at
      position `k` stays until signal number `k + 1` or a broadcast, and each signal brings it one place
      forward. */
  lemma {:induction false} CvFifo(ss: seq<State>, ts: seq<Step>, i: nat, j: nat, c: nat, k: nat)
    requires Live(ss, ts, j) && i <= j && k < |Q(ss[i], CvQ(c))|
    requires forall p :: i <= p < j ==> !(ts[p].Broadcast? && ts[p].c == c)
    requires SignalsOn(ts[i..j], c) <= k
    ensures var r := k - SignalsOn(ts[i..j], c);
      r < |Q(ss[j], CvQ(c))| && Q(ss[j], CvQ(c))[r] == Q(ss[i], CvQ(c))[k]
    decreases j
  {
    hide Q, Inv, Next, Enabled;
    if i < j {
      assert ts[i..j][..|ts[i..j]| - 1] == ts[i..j - 1];
      BeforeLive(ss, ts, j);
      RunKeeps(ss, ts, j - 1);
      CvFifo(ss, ts, i, j - 1, c, k);
      CvStep(ss[j - 1], ts[j - 1], c, k - SignalsOn(ts[i..j - 1], c));
    }
  }

  // ----- waiting for an exit -----

  lemma AwaitsStep(s: State, t: Step, n: Nid)
    requires Inv(s) && Enabled(s, t) && n != Rq(s)[0] && n in s.awaits
    ensures n in Next(s, t).awaits && Next(s, t).awaits[n] == s.awaits[n]
  {
    hide *;
    SideStep(s, t);
  }

  /** A thread that waits for Tid `tid` goes on waiting for the same thread, until the very step in which
      that thread exits: the step wakes all of its waiters in order and frees the Tid. */
  lemma WaiterStep(s: State, t: Step, tid: nat, n: Nid)
    requires Inv(s) && Enabled(s, t) && !Next(s, t).halted && n in Q(s, WaitFor(tid))
    ensures tid in s.table
    ensures var s' := Next(s, t);
      if Exits(s, t) && s.table[tid] == Rq(s)[0]
      then Q(s', WaitFor(tid)) == [] && Rq(s') == Rq(s)[1..] + Q(s, WaitFor(tid)) && tid !in s'.table
      else n in Q(s', WaitFor(tid)) && tid in s'.table && s'.table[tid] == s.table[tid]
  {
    hide Q, NoRepeats, LocksOk, Phased, Next;
    HeadPlaced(s);
    WaiterNotHead(s, tid, n);
    QueuesStep(s, t);
    StepKeeps(s, t);
    AwaitsStep(s, t, n);
    if Exits(s, t) { ExitFreesTid(s, t); }
  }

  lemma WaiterNotHead(s: State, tid: nat, n: Nid)
    requires Inv(s) && n in Q(s, WaitFor(tid))
    ensures n != Rq(s)[0]
  {
    hide Q, NoRepeats;
    HeadPlaced(s);
  }

  lemma ExitFreesTid(s: State, t: Step)
    requires Inv(s) && Enabled(s, t) && Exits(s, t) && !Next(s, t).halted
    ensures Next(s, t).table == s.table - {ThOf(s, Rq(s)[0]).tid}
  {
    hide Q, NoRepeats, Placed, Tabled, Phased, LocksOk, AwaitsOk, Exit, Leave;
    HeadPlaced(s);
    ExitIs(s);
  }

  /** `thread_wait` under reuse of Tids: a thread that slept waiting for `tid` leaves that queue only in
      the step in which the thread that owned `tid` when it began to wait exits. */
  lemma {:induction false} WaitsForExit(ss: seq<State>, ts: seq<Step>, i: nat, j: nat, tid: nat, n: Nid)
    requires Run(ss, ts) && i <= j < |ts| && !ss[j + 1].halted && Rq(ss[j]) != []
    requires forall p :: i <= p <= j ==> n in Q(ss[p], WaitFor(tid))
    requires n !in Q(ss[j + 1], WaitFor(tid))
    ensures tid in ss[i].table && Exits(ss[j], ts[j]) && Rq(ss[j])[0] == ss[i].table[tid]
    ensures Rq(ss[j + 1]) == Rq(ss[j])[1..] + Q(ss[j], WaitFor(tid)) && tid !in ss[j + 1].table
    decreases j - i
  {
    hide Q, Inv, Next, Enabled;
    BeforeLive(ss, ts, i + 1);
    BeforeLive(ss, ts, j + 1);
    RunKeeps(ss, ts, i);
    EnabledHead(ss[i], ts[i]);
    EnabledHead(ss[j], ts[j]);
    if i == j {
      WaiterStep(ss[i], ts[i], tid, n);
    } else {
      BeforeLive(ss, ts, i + 2);
      WaitsForExit(ss, ts, i + 1, j, tid, n);
      WaiterStep(ss[i], ts[i], tid, n);
    }
  }

  // ----- scheduling -----

  /** A successful yield-any, sleep or exit. */
  predicate Advances(s: State, t: Step)
    requires Rq(s) != []
  {
    ((t.YieldAny? || t.Preempt?) && |Rq(s)| > 1) || Destination(s, t) != ReadyQ
  }

  /** The place in the ready queue, after the step, of a waiting thread that was at place `k`. */
  function Place(s: State, t: Step, k: nat): nat
    requires 0 < k < |Rq(s)|
  {
    if Advances(s, t) then k - 1
    else if t.YieldTo? then
      var target := FindTid(s, Rq(s), t.tid);
      if target == 0 || target == |Rq(s)| || k < target then k else if k == target then 0 else k - 1
    else k
  }

  /** No waiting thread moves back. A directed yield runs its target next and keeps the others in order;
      every other switch moves each waiting thread one place forward. */
  lemma PlaceStep(s: State, t: Step, k: nat)
    requires Inv(s) && Enabled(s, t) && !Next(s, t).halted && 0 < k < |Rq(s)|
    ensures Place(s, t, k) <= k && Place(s, t, k) < |Rq(Next(s, t))|
    ensures Rq(Next(s, t))[Place(s, t, k)] == Rq(s)[k]
  {
    hide Q, NoRepeats, Next, Inv, FindTid, FirstFreeTid, Destination, Woken;
    QueuesStep(s, t);
    if t.YieldTo? && 0 < FindTid(s, Rq(s), t.tid) < |Rq(s)| {
      YieldIndex(Rq(s), FindTid(s, Rq(s), t.tid), Place(s, t, k));
      YieldStays(s, t);
    }
    if t.YieldAny? || t.Preempt? { YieldStays(s, t); }
  }

  lemma YieldStays(s: State, t: Step)
    requires Rq(s) != [] && (t.YieldTo? || t.YieldAny? || t.Preempt?)
    ensures Destination(s, t) == ReadyQ && Woken(s, t) == []
  {
    hide Q;
  }

  function Switches(ss: seq<State>, ts: seq<Step>): nat
    requires |ss| == |ts| && forall s :: s in ss ==> Rq(s) != []
  {
    if ts == [] then 0
    else Switches(ss[..|ss| - 1], ts[..|ts| - 1]) + if Advances(ss[|ss| - 1], ts[|ts| - 1]) then 1 else 0
  }

  lemma RunsHaveHeads(ss: seq<State>, ts: seq<Step>, i: nat, j: nat)
    requires Run(ss, ts) && i <= j <= |ts|
    ensures forall s :: s in ss[i..j] ==> Rq(s) != []
  {
    hide Next;
    forall s | s in ss[i..j] ensures Rq(s) != [] {
      var k :| i <= k < j && ss[k] == s;
      assert StepAt(ss, ts, k);
    }
  }

  /** A ready thread with `k` before it runs after at most `k` successful yield-any, sleep or exit steps:
      no more of them fit in before it, and after that many it is at the head. */
  lemma BoundedWait(ss: seq<State>, ts: seq<Step>, i: nat, j: nat, k: nat)
    requires Live(ss, ts, j) && i <= j && k < |Rq(ss[i])|
    requires forall p :: i <= p < j && Rq(ss[p]) != [] ==> Rq(ss[p])[0] != Rq(ss[i])[k]
    ensures forall s :: s in ss[i..j] ==> Rq(s) != []
    ensures Switches(ss[i..j], ts[i..j]) <= k
    ensures Switches(ss[i..j], ts[i..j]) == k ==> Rq(ss[j]) != [] && Rq(ss[j])[0] == Rq(ss[i])[k]
  {
    hide Q, Switches;
    var place := RunsWithin(ss, ts, i, j, k);
  }

  lemma {:induction false} RunsWithin(ss: seq<State>, ts: seq<Step>, i: nat, j: nat, k: nat) returns (place: nat)
    requires Live(ss, ts, j) && i <= j && k < |Rq(ss[i])|
    requires forall p :: i <= p < j && Rq(ss[p]) != [] ==> Rq(ss[p])[0] != Rq(ss[i])[k]
    ensures forall s :: s in ss[i..j] ==> Rq(s) != []
    ensures place + Switches(ss[i..j], ts[i..j]) <= k
    ensures place < |Rq(ss[j])| && Rq(ss[j])[place] == Rq(ss[i])[k]
    decreases j
  {
    hide Q, Inv, Next, Enabled, Advances, Place;
    RunsHaveHeads(ss, ts, i, j);
    if i == j {
      place := k;
    } else {
      assert ts[i..j][..|ts[i..j]| - 1] == ts[i..j - 1] && ss[i..j][..|ss[i..j]| - 1] == ss[i..j - 1];
      BeforeLive(ss, ts, j);
      RunKeeps(ss, ts, j - 1);
      var before := RunsWithin(ss, ts, i, j - 1, k);
      EnabledHead(ss[j - 1], ts[j - 1]);
      PlaceStep(ss[j - 1], ts[j - 1], before);
      AdvanceIs(ss[j - 1], ts[j - 1], before);
      place := Place(ss[j - 1], ts[j - 1], before);
    }
  }

  lemma AdvanceIs(s: State, t: Step, k: nat)
    requires 0 < k < |Rq(s)|
    ensures Advances(s, t) ==> Place(s, t, k) == k - 1
  {}
}
