/** The thread library of threads/thread.c as a state machine. Interrupts are off inside every call, so
    each call up to its context switch is one step; preemption is a yield that may happen whenever the
    running thread is in user code. */
module ThreadSystem {
  import opened ThreadQueues

  const THREAD_MAX_THREADS := 1024

  /** The ready queue, whose head is running; the exit queue; and the wait queues: of threads waiting for
      a Tid, of a lock, of a condition variable, or made by the user. */
  datatype QueueId = ReadyQ | ExitQ | WaitFor(tid: nat) | LockQ(l: nat) | CvQ(c: nat) | UserQ(u: nat)

  /** Where a thread continues when it next runs: in user code, in `thread_stub`, after the context
      switch of `thread_yield` or of a plain `thread_sleep`, or in the loop of `lock_acquire`. */
  datatype Pc = User | Fresh | Yielded | Slept | Acquiring(l: nat)

  type Nid = nat

  /** A thread node; `place` records the queue it is in. */
  datatype Th = Th(tid: nat, status: Status, pc: Pc, place: QueueId)

  /** `struct lock`; `holder` is the thread whose call set it. */
  datatype Lock = Lock(locked: bool, thread: nat, holder: Nid)

  /** `table` is the array `threads`, `inside` relates each thread to the locks it has acquired and not
      released, `awaits` the thread whose exit a waiter waits for, `freed` the locks and condition variables
      that have been destroyed, each given by its queue. */
  datatype State = State(
    queues: map<QueueId, seq<Nid>>,
    th: map<Nid, Th>,
    table: map<nat, Nid>,
    locks: map<nat, Lock>,
    inside: set<(Nid, nat)>,
    awaits: map<Nid, Nid>,
    freed: set<QueueId>,
    next: Nid,
    halted: bool)

  function Q(s: State, q: QueueId): seq<Nid> {
    if q in s.queues then s.queues[q] else []
  }

  function Rq(s: State): seq<Nid> { Q(s, ReadyQ) }

  function LockOf(s: State, l: nat): Lock {
    if l in s.locks then s.locks[l] else Lock(false, 0, 0)
  }

  function ThOf(s: State, n: Nid): Th {
    if n in s.th then s.th[n] else Th(0, Ready, Fresh, ReadyQ)
  }

  predicate IsWaitQueue(q: QueueId) { !q.ReadyQ? && !q.ExitQ? }

  // ----- what the calls do to the state -----

  function SetQ(s: State, q: QueueId, nodes: seq<Nid>): State {
    s.(queues := s.queues[q := nodes])
  }

  function SetTh(s: State, n: Nid, t: Th): State {
    s.(th := s.th[n := t])
  }

  /** The running thread leaves the ready queue for the end of another one. */
  function Leave(s: State, q: QueueId, t: Th): State
    requires Rq(s) != [] && q != ReadyQ
  {
    SetTh(SetQ(SetQ(s, ReadyQ, Rq(s)[1..]), q, Q(s, q) + [Rq(s)[0]]), Rq(s)[0], t)
  }

  /** `thread_sleep` past its checks. */
  function Park(s: State, q: QueueId, pc: Pc): State
    requires Rq(s) != [] && q != ReadyQ
  {
    var t := ThOf(s, Rq(s)[0]);
    Leave(s, q, Th(t.tid, Keep(t.status, Blocked), pc, q))
  }

  /** `thread_wakeup` of the first `k` waiters. */
  function Wake(s: State, q: QueueId, k: nat): State
    requires q != ReadyQ && k <= |Q(s, q)|
  {
    var woken := Q(s, q)[..k];
    SetQ(SetQ(s, ReadyQ, Rq(s) + woken), q, Q(s, q)[k..])
    .(th := map n | n in s.th :: if n in woken then Th(s.th[n].tid, Keep(s.th[n].status, Ready), s.th[n].pc, ReadyQ) else s.th[n])
  }

  function WakeAll(s: State, q: QueueId): State
    requires q != ReadyQ
  {
    Wake(s, q, |Q(s, q)|)
  }

  /** `clear_queue(&eq)`: exited threads are freed. */
  function ClearExited(s: State): State {
    SetQ(s, ExitQ, []).(th := map n | n in s.th && n !in Q(s, ExitQ) :: s.th[n])
  }

  /** `thread_exit`. */
  function Exit(s: State): State
    requires Rq(s) != []
  {
    var n := Rq(s)[0];
    var t := ThOf(s, n);
    var s1 := WakeAll(s.(table := s.table - {t.tid}), WaitFor(t.tid));
    if |Rq(s1)| == 1 then s1.(halted := true)
    else Leave(s1, ExitQ, t.(place := ExitQ))
  }

  /** `lock_acquire`, from the test of the loop on. */
  function TryAcquire(s: State, l: nat): State
    requires Rq(s) != []
  {
    var n := Rq(s)[0];
    var t := ThOf(s, n);
    if !LockOf(s, l).locked then
      SetTh(s.(locks := s.locks[l := Lock(true, t.tid, n)], inside := s.inside + {(n, l)}), n, t.(pc := User))
    else if |Rq(s)| == 1 then SetTh(s, n, t.(pc := Acquiring(l)))
    else Park(s, LockQ(l), Acquiring(l))
  }

  /** `lock_release` past its asserts. */
  function Unlock(s: State, l: nat): State
    requires Rq(s) != []
  {
    WakeAll(s.(locks := s.locks[l := LockOf(s, l).(locked := false)], inside := s.inside - {(Rq(s)[0], l)}), LockQ(l))
  }

  /** A switch-out that leaves the yielder ready, in a given new order. */
  function Reorder(s: State, order: seq<Nid>): State
    requires Rq(s) != []
  {
    var n := Rq(s)[0];
    var t := ThOf(s, n);
    SetTh(SetQ(s, ReadyQ, order), n, t.(status := Keep(t.status, Ready), pc := Yielded))
  }

  /** Position of a Tid in the ready queue, or its length. */
  function FindTid(s: State, order: seq<Nid>, tid: nat): (k: nat)
    ensures k <= |order|
    ensures k < |order| ==> order[k] in s.th && s.th[order[k]].tid == tid
    ensures forall i :: 0 <= i < k && order[i] in s.th ==> s.th[order[i]].tid != tid
  {
    if order == [] || (order[0] in s.th && s.th[order[0]].tid == tid) then 0 else 1 + FindTid(s, order[1..], tid)
  }

  function FirstFreeTid(table: map<nat, Nid>, t: nat): (r: nat)
    requires t <= THREAD_MAX_THREADS
    ensures t <= r <= THREAD_MAX_THREADS
    ensures forall i :: t <= i < r ==> i in table
    ensures r < THREAD_MAX_THREADS ==> r !in table
    decreases THREAD_MAX_THREADS - t
  {
    if t == THREAD_MAX_THREADS || t !in table then t else FirstFreeTid(table, t + 1)
  }

  /** The calls, made by the running thread in user code; `Resume` is the rest of a call after the switch
      back, `Preempt` the timer interrupt. */
  datatype Step =
    | Create(memory: bool)
    | YieldAny
    | YieldSelf
    | YieldTo(tid: nat)
    | ExitCall
    | Kill(tid: nat)
    | SleepOn(u: nat)
    | WakeupOn(u: nat, all: bool)
    | WaitTid(tid: nat)
    | Acquire(l: nat)
    | Release(l: nat)
    | CvWait(c: nat, l: nat)
    | Signal(c: nat, l: nat)
    | Broadcast(c: nat, l: nat)
    | DestroyLock(l: nat)
    | DestroyCv(c: nat)
    | Preempt
    | Resume

  /** The asserts at the head of `lock_release` and the condition-variable calls. */
  predicate OwnsLock(s: State, l: nat) {
    Rq(s) != [] && LockOf(s, l).locked && LockOf(s, l).thread == ThOf(s, Rq(s)[0]).tid
  }

  /** The locks and condition variables that a call is given have not been destroyed. */
  predicate GivenLive(s: State, t: Step) {
    && (t.Acquire? || t.Release? || t.CvWait? || t.Signal? || t.Broadcast? || t.DestroyLock? ==> LockQ(t.l) !in s.freed)
    && (t.CvWait? || t.Signal? || t.Broadcast? || t.DestroyCv? ==> CvQ(t.c) !in s.freed)
  }

  ghost predicate Enabled(s: State, t: Step) {
    && !s.halted && Rq(s) != [] && GivenLive(s, t)
    && (t.Resume? <==> ThOf(s, Rq(s)[0]).pc != User)
    && (t.Release? || t.CvWait? || t.Signal? || t.Broadcast? ==> OwnsLock(s, t.l))
    && (t.DestroyLock? ==> !LockOf(s, t.l).locked)
    && (t.DestroyCv? ==> Q(s, CvQ(t.c)) == [])
  }

  function YieldAnyNext(s: State): State
    requires Rq(s) != []
  {
    if |Rq(s)| == 1 then s else Reorder(s, RotateSeq(Rq(s)))
  }

  function Next(s: State, t: Step): State
    requires Enabled(s, t)
  {
    var n := Rq(s)[0];
    var self := ThOf(s, n);
    match t
    case Create(memory) =>
      var id := FirstFreeTid(s.table, 0);
      if id == THREAD_MAX_THREADS || !memory then s
      else SetTh(SetQ(s, ReadyQ, Rq(s) + [s.next]), s.next, Th(id, Ready, Fresh, ReadyQ))
           .(table := s.table[id := s.next], next := s.next + 1)
    case YieldAny => YieldAnyNext(s)
    case Preempt => YieldAnyNext(s)
    case YieldSelf => Reorder(s, Rq(s))
    case YieldTo(tid) =>
      var k := FindTid(s, Rq(s), tid);
      if k == 0 then Reorder(s, Rq(s))
      else if k == |Rq(s)| then s
      else Reorder(s, YieldSeq(Rq(s), k))
    case ExitCall => Exit(s)
    case Kill(tid) =>
      if tid == self.tid || tid !in s.table || s.table[tid] !in s.th then s
      else SetTh(s, s.table[tid], s.th[s.table[tid]].(status := Exited))
    case SleepOn(u) => if |Rq(s)| == 1 then s else Park(s, UserQ(u), Slept)
    case WakeupOn(u, all) =>
      if Q(s, UserQ(u)) == [] then s else Wake(s, UserQ(u), if all then |Q(s, UserQ(u))| else 1)
    case WaitTid(tid) =>
      if tid == self.tid || tid !in s.table || |Rq(s)| == 1 then s
      else Park(s, WaitFor(tid), Slept).(awaits := s.awaits[n := s.table[tid]])
    case Acquire(l) => TryAcquire(s, l)
    case Release(l) => Unlock(s, l)
    case CvWait(c, l) =>
      var s1 := Unlock(s, l);
      if |Rq(s1)| == 1 then TryAcquire(s1, l) else Park(s1, CvQ(c), Acquiring(l))
    case Signal(c, l) => if Q(s, CvQ(c)) == [] then s else Wake(s, CvQ(c), 1)
    case Broadcast(c, l) => WakeAll(s, CvQ(c))
    case DestroyLock(l) => s.(freed := s.freed + {LockQ(l)})
    case DestroyCv(c) => s.(freed := s.freed + {CvQ(c)})
    case Resume =>
      if self.status == Exited then Exit(s)
      else
        var s1 := ClearExited(s);
        if self.pc.Acquiring? then TryAcquire(SetTh(s1, n, self.(status := Running)), self.pc.l)
        else SetTh(s1, n, self.(status := Running, pc := User))
  }

  // ----- the invariant -----

  ghost predicate NoRepeats(nodes: seq<Nid>) {
    forall i, j :: 0 <= i < j < |nodes| ==> nodes[i] != nodes[j]
  }

  /** Every thread node is in exactly one queue, once. */
  ghost predicate Placed(s: State) {
    && (forall q: QueueId {:trigger Q(s, q)} :: NoRepeats(Q(s, q)))
    && (forall q: QueueId, n: Nid {:trigger n in Q(s, q)} :: n in Q(s, q) ==> n in s.th && s.th[n].place == q)
    && (forall n {:trigger n in s.th} :: n in s.th ==> n in Q(s, s.th[n].place) && n < s.next)
    && Rq(s) != []
  }

  /** `threads[id]` names exactly the threads that have not exited, by unique ids. */
  ghost predicate Tabled(s: State) {
    && (forall n {:trigger n in s.th} :: n in s.th && !s.th[n].place.ExitQ? ==> s.th[n].tid in s.table && s.table[s.th[n].tid] == n)
    && (forall t {:trigger t in s.table} :: t in s.table ==>
          t < THREAD_MAX_THREADS && s.table[t] in s.th && s.th[s.table[t]].tid == t && !s.th[s.table[t]].place.ExitQ?)
  }

  /** Only the running thread is in user code, and not if it has been killed; sleepers continue in the
      right place. */
  ghost predicate Phased(s: State) {
    forall n {:trigger n in s.th} :: n in s.th ==>
      && (s.th[n].pc == User ==> s.th[n].place.ExitQ? || (Rq(s) != [] && n == Rq(s)[0] && s.th[n].status != Exited))
      && (s.th[n].place.LockQ? ==> s.th[n].pc == Acquiring(s.th[n].place.l))
      && (s.th[n].place.CvQ? ==> s.th[n].pc.Acquiring?)
      && (s.th[n].place.WaitFor? || s.th[n].place.UserQ? ==> s.th[n].pc == Slept)
  }

  /** The thread has not exited. */
  ghost predicate LiveTh(s: State, n: Nid) {
    n in s.th && !s.th[n].place.ExitQ?
  }

  /** A free lock has no sleepers; a thread that is inside a lock and has not exited is its holder; and as
      long as the holder has not exited, the recorded Tid is its own. */
  ghost predicate LocksOk(s: State) {
    && (forall l: nat {:trigger Q(s, LockQ(l))} :: !LockOf(s, l).locked ==> Q(s, LockQ(l)) == [])
    && (forall n: Nid, l: nat {:trigger (n, l) in s.inside} :: (n, l) in s.inside ==>
          n < s.next && (LiveTh(s, n) ==> LockOf(s, l).locked && LockOf(s, l).holder == n))
    && (forall l {:trigger s.locks[l]} :: l in s.locks ==>
          s.locks[l].holder < s.next && (s.locks[l].locked && LiveTh(s, s.locks[l].holder) ==>
            s.th[s.locks[l].holder].tid == s.locks[l].thread))
  }

  /** Sleepers on a Tid's queue wait for the thread that owns the Tid now. */
  ghost predicate AwaitsOk(s: State) {
    forall t: nat, n: Nid {:trigger n in Q(s, WaitFor(t))} :: n in Q(s, WaitFor(t)) ==>
      t in s.table && n in s.awaits && s.awaits[n] == s.table[t]
  }

  ghost predicate Inv(s: State) {
    Placed(s) && Tabled(s) && Phased(s) && LocksOk(s) && AwaitsOk(s)
  }
}
