/** Every step of the thread library keeps the invariant. */
module ThreadInvariant {
  import opened ThreadQueues
  import opened ThreadSystem

  /** The nodes `moved` went to queue `q`; the others stayed where they were. */
  ghost predicate Moved(s: State, s': State, moved: set<Nid>, q: QueueId) {
    && s'.th.Keys == s.th.Keys && moved <= s.th.Keys
    && (forall m {:trigger s'.th[m]} :: m in s.th ==> s'.th[m].tid == s.th[m].tid && s'.th[m].place == if m in moved then q else s.th[m].place)
    && (forall p: QueueId, m: Nid {:trigger m in Q(s', p)} :: m in Q(s', p) <==> if m in moved then p == q else m in Q(s, p))
    && (forall p: QueueId {:trigger Q(s', p)} :: NoRepeats(Q(s', p)))
  }

  lemma MovedPlaced(s: State, s': State, moved: set<Nid>, q: QueueId)
    requires Placed(s) && Moved(s, s', moved, q) && Rq(s') != [] && s'.next == s.next
    ensures Placed(s')
  {
    hide Q, NoRepeats;
  }

  lemma MovedTabled(s: State, s': State, moved: set<Nid>, q: QueueId)
    requires Tabled(s) && Moved(s, s', moved, q) && s'.table == s.table && q != ExitQ
    requires forall m :: m in moved ==> !s.th[m].place.ExitQ?
    ensures Tabled(s')
  {
    hide Q, NoRepeats;
  }

  // ----- sequences without repetition -----

  lemma HeadTail(s: seq<Nid>)
    requires s != [] && NoRepeats(s)
    ensures NoRepeats(s[1..]) && forall m {:trigger m in s[1..]} :: m in s[1..] <==> m in s && m != s[0]
  {
    forall m ensures m in s[1..] <==> m in s && m != s[0] {
      if m in s && m != s[0] {
        var i :| 0 <= i < |s| && s[i] == m;
        assert s[1..][i - 1] == m;
      }
    }
  }

  lemma Joined(a: seq<Nid>, b: seq<Nid>)
    requires NoRepeats(a) && NoRepeats(b) && forall m {:trigger m in a} :: m in a ==> m !in b
    ensures NoRepeats(a + b)
  {
    forall i, j | 0 <= i < j < |a + b| ensures (a + b)[i] != (a + b)[j] {
      assert i < |a| ==> a[i] in a;
      assert j >= |a| ==> b[j - |a|] in b;
    }
  }

  lemma Split(s: seq<Nid>, k: nat)
    requires k <= |s| && NoRepeats(s)
    ensures NoRepeats(s[..k]) && NoRepeats(s[k..])
    ensures forall m {:trigger m in s[k..]} :: m in s[k..] <==> m in s && m !in s[..k]
  {
    forall m ensures m in s[k..] <==> m in s && m !in s[..k] {
      assert s == s[..k] + s[k..];
    }
  }

  lemma HeadPlaced(s: State)
    requires Placed(s)
    ensures Rq(s) != [] && Rq(s)[0] in Rq(s) && Rq(s)[0] in s.th && s.th[Rq(s)[0]].place == ReadyQ
  {
    assert Rq(s)[0] in Rq(s);
  }

  // ----- going to sleep -----

  lemma LeaveMoves(s: State, q: QueueId, t: Th)
    requires Placed(s) && |Rq(s)| > 1 && q != ReadyQ && t.place == q && t.tid == ThOf(s, Rq(s)[0]).tid
    ensures Moved(s, Leave(s, q, t), {Rq(s)[0]}, q)
    ensures Rq(Leave(s, q, t)) == Rq(s)[1..] && Q(Leave(s, q, t), q) == Q(s, q) + [Rq(s)[0]]
    ensures forall p: QueueId {:trigger Q(Leave(s, q, t), p)} :: p != ReadyQ && p != q ==> Q(Leave(s, q, t), p) == Q(s, p)
  {
    hide NoRepeats;
    HeadPlaced(s);
    var s' := Leave(s, q, t);
    var n := Rq(s)[0];
    assert NoRepeats(Rq(s)) && NoRepeats(Q(s, q)) && n !in Q(s, q);
    HeadTail(Rq(s));
    Single(n);
    Joined(Q(s, q), [n]);
    forall p: QueueId, m: Nid ensures m in Q(s', p) <==> if m == n then p == q else m in Q(s, p) {
      assert n in Q(s, p) ==> p == ReadyQ;
    }
    forall p: QueueId ensures NoRepeats(Q(s', p)) {
      assert NoRepeats(Q(s, p));
    }
    assert s'.th.Keys == s.th.Keys;
  }

  lemma ParkMoves(s: State, q: QueueId, pc: Pc)
    requires Placed(s) && |Rq(s)| > 1 && IsWaitQueue(q)
    ensures Moved(s, Park(s, q, pc), {Rq(s)[0]}, q)
    ensures Rq(Park(s, q, pc)) == Rq(s)[1..] && Q(Park(s, q, pc), q) == Q(s, q) + [Rq(s)[0]]
    ensures forall p: QueueId {:trigger Q(Park(s, q, pc), p)} :: p != ReadyQ && p != q ==> Q(Park(s, q, pc), p) == Q(s, p)
  {
    hide Placed, Moved, Q, Leave;
    var t := ThOf(s, Rq(s)[0]);
    LeaveMoves(s, q, Th(t.tid, Keep(t.status, Blocked), pc, q));
  }

  lemma Single(n: Nid)
    ensures NoRepeats([n])
  {}

  lemma ParkKeeps(s: State, q: QueueId, pc: Pc)
    requires Inv(s) && |Rq(s)| > 1 && IsWaitQueue(q) && pc != User
    requires q.LockQ? ==> LockOf(s, q.l).locked && pc == Acquiring(q.l)
    requires q.CvQ? ==> pc.Acquiring?
    requires q.WaitFor? || q.UserQ? ==> pc == Slept
    requires q.WaitFor? ==> q.tid in s.table && Rq(s)[0] in s.awaits && s.awaits[Rq(s)[0]] == s.table[q.tid]
    ensures Inv(Park(s, q, pc))
  {
    HeadPlaced(s);
    ParkMoves(s, q, pc);
    MovedPlaced(s, Park(s, q, pc), {Rq(s)[0]}, q);
    MovedTabled(s, Park(s, q, pc), {Rq(s)[0]}, q);
    ParkRest(s, q, pc);
  }

  lemma ParkRest(s: State, q: QueueId, pc: Pc)
    requires Inv(s) && |Rq(s)| > 1 && IsWaitQueue(q) && pc != User
    requires q.LockQ? ==> LockOf(s, q.l).locked && pc == Acquiring(q.l)
    requires q.CvQ? ==> pc.Acquiring?
    requires q.WaitFor? || q.UserQ? ==> pc == Slept
    requires q.WaitFor? ==> q.tid in s.table && Rq(s)[0] in s.awaits && s.awaits[Rq(s)[0]] == s.table[q.tid]
    ensures Phased(Park(s, q, pc)) && LocksOk(Park(s, q, pc)) && AwaitsOk(Park(s, q, pc))
  {
    hide Q, NoRepeats, Tabled;
    HeadPlaced(s);
    ParkMoves(s, q, pc);
    var s' := Park(s, q, pc);
    assert s'.locks == s.locks && s'.table == s.table && s'.inside == s.inside && s'.awaits == s.awaits;
  }

  // ----- waking -----

  lemma WakeMoves(s: State, q: QueueId, k: nat)
    requires Placed(s) && IsWaitQueue(q) && k <= |Q(s, q)|
    ensures Moved(s, Wake(s, q, k), (set m | m in Q(s, q)[..k]), ReadyQ)
    ensures Rq(Wake(s, q, k)) == Rq(s) + Q(s, q)[..k] && Q(Wake(s, q, k), q) == Q(s, q)[k..]
    ensures forall p: QueueId {:trigger Q(Wake(s, q, k), p)} :: p != ReadyQ && p != q ==> Q(Wake(s, q, k), p) == Q(s, p)
  {
    hide NoRepeats, Q, Wake, Placed;
    WakeIs(s, q, k);
    WakeMembers(s, q, k);
    WakeUnique(s, q, k);
    WakenKnown(s, q, k);
  }

  lemma WakenKnown(s: State, q: QueueId, k: nat)
    requires Placed(s) && k <= |Q(s, q)|
    ensures (set m | m in Q(s, q)[..k]) <= s.th.Keys
  {
    hide Q, NoRepeats;
    forall m | m in Q(s, q)[..k] ensures m in s.th { assert m in Q(s, q); }
  }

  lemma WakeMembers(s: State, q: QueueId, k: nat)
    requires Placed(s) && IsWaitQueue(q) && k <= |Q(s, q)|
    ensures var s' := Wake(s, q, k);
      forall p: QueueId, m: Nid {:trigger m in Q(s', p)} :: m in Q(s', p) <==> if m in Q(s, q)[..k] then p == ReadyQ else m in Q(s, p)
  {
    hide NoRepeats, Q, Wake;
    var s' := Wake(s, q, k);
    var woken := Q(s, q)[..k];
    WakeIs(s, q, k);
    assert NoRepeats(Q(s, q));
    Split(Q(s, q), k);
    assert forall m :: m in woken ==> m in Q(s, q);
    forall p: QueueId, m: Nid ensures m in Q(s', p) <==> if m in woken then p == ReadyQ else m in Q(s, p) {
      assert m in Q(s, q) && m in Q(s, p) ==> p == q;
    }
  }

  lemma WakeUnique(s: State, q: QueueId, k: nat)
    requires Placed(s) && IsWaitQueue(q) && k <= |Q(s, q)|
    ensures var s' := Wake(s, q, k); forall p: QueueId {:trigger Q(s', p)} :: NoRepeats(Q(s', p))
  {
    hide NoRepeats, Q, Wake;
    var woken := Q(s, q)[..k];
    WakeIs(s, q, k);
    assert NoRepeats(Q(s, ReadyQ)) && NoRepeats(Q(s, q));
    Split(Q(s, q), k);
    forall m | m in Rq(s) ensures m !in woken {
      assert m in Q(s, ReadyQ) && m in woken ==> m in Q(s, q);
    }
    Joined(Rq(s), woken);
  }

  lemma WakeIs(s: State, q: QueueId, k: nat)
    requires q != ReadyQ && k <= |Q(s, q)|
    ensures var s', woken := Wake(s, q, k), Q(s, q)[..k];
      && (forall p: QueueId {:trigger Q(s', p)} :: Q(s', p) == if p == ReadyQ then Rq(s) + woken else if p == q then Q(s, q)[k..] else Q(s, p))
      && s'.th.Keys == s.th.Keys
      && (forall m {:trigger s'.th[m]} :: m in s.th ==>
            s'.th[m] == if m in woken then Th(s.th[m].tid, Keep(s.th[m].status, Ready), s.th[m].pc, ReadyQ) else s.th[m])
      && s' == s.(queues := s'.queues, th := s'.th)
  {}

  lemma WakeKeeps(s: State, q: QueueId, k: nat)
    requires Inv(s) && IsWaitQueue(q) && k <= |Q(s, q)|
    ensures Inv(Wake(s, q, k)) && Rq(Wake(s, q, k))[0] == Rq(s)[0]
  {
    hide NoRepeats, Phased, LocksOk, AwaitsOk, Tabled;
    var moved := set m | m in Q(s, q)[..k];
    WakeMoves(s, q, k);
    MovedPlaced(s, Wake(s, q, k), moved, ReadyQ);
    forall m | m in moved ensures !s.th[m].place.ExitQ? { assert m in Q(s, q); }
    MovedTabled(s, Wake(s, q, k), moved, ReadyQ);
    WakeRest(s, q, k);
  }

  lemma WakeRest(s: State, q: QueueId, k: nat)
    requires Inv(s) && IsWaitQueue(q) && k <= |Q(s, q)|
    ensures Phased(Wake(s, q, k)) && LocksOk(Wake(s, q, k)) && AwaitsOk(Wake(s, q, k))
  {
    hide *;
    WakePhased(s, q, k);
    WakeLocks(s, q, k);
  }

  lemma WakePhased(s: State, q: QueueId, k: nat)
    requires Inv(s) && IsWaitQueue(q) && k <= |Q(s, q)|
    ensures Phased(Wake(s, q, k))
  {
    hide Q, NoRepeats, Tabled, LocksOk, AwaitsOk, Wake;
    WakeIs(s, q, k);
    assert forall m :: m in Q(s, q)[..k] ==> m in Q(s, q);
  }

  lemma WakeLocks(s: State, q: QueueId, k: nat)
    requires Inv(s) && IsWaitQueue(q) && k <= |Q(s, q)|
    ensures LocksOk(Wake(s, q, k)) && AwaitsOk(Wake(s, q, k))
  {
    hide Q, NoRepeats, Tabled, Phased, Placed, Wake, LiveTh;
    WakeIs(s, q, k);
    forall m ensures LiveTh(Wake(s, q, k), m) <==> LiveTh(s, m) { WakeLive(s, q, k, m); }
    LiveKnown(s, Wake(s, q, k));
    assert forall m :: m in Q(s, q)[k..] ==> m in Q(s, q);
  }

  lemma LiveKnown(s: State, s': State)
    requires s'.th.Keys == s.th.Keys
    ensures forall m {:trigger LiveTh(s, m)} {:trigger LiveTh(s', m)} :: (LiveTh(s, m) ==> m in s.th) && (LiveTh(s', m) ==> m in s'.th)
  {}

  /** Waking changes nobody's being alive. */
  lemma WakeLive(s: State, q: QueueId, k: nat, n: Nid)
    requires Placed(s) && IsWaitQueue(q) && k <= |Q(s, q)|
    ensures LiveTh(Wake(s, q, k), n) <==> LiveTh(s, n)
  {
    hide Q, NoRepeats, Wake;
    WakeIs(s, q, k);
    if n in Q(s, q)[..k] { assert n in Q(s, q); }
  }

  // ----- a new order of the ready queue -----

  ghost predicate SameMembers(a: seq<Nid>, b: seq<Nid>) {
    NoRepeats(b) && forall m: Nid {:trigger m in b} :: m in b <==> m in a
  }

  lemma RotateMembers(a: seq<Nid>)
    requires NoRepeats(a)
    ensures SameMembers(a, RotateSeq(a))
  {
    if a != [] {
      assert a == [a[0]] + a[1..];
      HeadTail(a);
      Single(a[0]);
      Joined(a[1..], [a[0]]);
    }
  }

  lemma YieldMembers(a: seq<Nid>, k: nat)
    requires NoRepeats(a) && 0 < k < |a|
    ensures SameMembers(a, YieldSeq(a, k))
  {
    var b := YieldSeq(a, k);
    assert a == [a[0]] + a[1..k] + [a[k]] + a[k + 1..];
    forall i, j | 0 <= i < j < |b| ensures b[i] != b[j] {
      YieldIndex(a, k, i);
      YieldIndex(a, k, j);
    }
  }

  /** Where a thread of the ready queue comes to be after a directed yield. */
  function Origin(k: nat, i: nat, n: nat): nat
  {
    if i == 0 then k else if i < k then i else if i + 1 < n then i + 1 else 0
  }

  lemma YieldIndex(a: seq<Nid>, k: nat, i: nat)
    requires 0 < k < |a| && i < |a|
    ensures |YieldSeq(a, k)| == |a| && YieldSeq(a, k)[i] == a[Origin(k, i, |a|)]
  {}

  /** One thread's entry changes, but not its id or its queue; the ready queue may be reordered. */
  ghost predicate EntryChanged(s: State, s': State, n: Nid, t: Th) {
    && n in s.th && t.tid == s.th[n].tid && t.place == s.th[n].place && s'.th == s.th[n := t]
    && s'.table == s.table && s'.locks == s.locks && s'.inside == s.inside && s'.awaits == s.awaits && s'.next == s.next
    && (forall p: QueueId {:trigger Q(s', p)} :: p != ReadyQ ==> Q(s', p) == Q(s, p))
    && SameMembers(Rq(s), Rq(s')) && Rq(s') != []
  }

  lemma EntryKeeps(s: State, s': State, n: Nid, t: Th)
    requires Inv(s) && EntryChanged(s, s', n, t) && Phased(s')
    ensures Inv(s')
  {
    hide Q, NoRepeats, Phased;
    EntryMoves(s, s', n, t);
    MovedPlaced(s, s', {}, ReadyQ);
    MovedTabled(s, s', {}, ReadyQ);
  }

  lemma EntryMoves(s: State, s': State, n: Nid, t: Th)
    requires Placed(s) && EntryChanged(s, s', n, t)
    ensures Moved(s, s', {}, ReadyQ)
  {
    hide Q, NoRepeats;
    assert s'.th.Keys == s.th.Keys;
    forall p: QueueId ensures NoRepeats(Q(s', p)) { assert NoRepeats(Q(s, p)); }
  }

  lemma QOfSetQ(s: State, q: QueueId, nodes: seq<Nid>)
    ensures forall p: QueueId {:trigger Q(SetQ(s, q, nodes), p)} :: Q(SetQ(s, q, nodes), p) == if p == q then nodes else Q(s, p)
  {}

  lemma QFields(s: State, s': State)
    requires s'.queues == s.queues
    ensures forall p: QueueId {:trigger Q(s', p)} :: Q(s', p) == Q(s, p)
  {}

  lemma ReorderKeeps(s: State, order: seq<Nid>)
    requires Inv(s) && SameMembers(Rq(s), order) && order != []
    ensures Inv(Reorder(s, order)) && Rq(Reorder(s, order)) == order
  {
    hide Q, NoRepeats, Placed, Tabled, LocksOk, AwaitsOk;
    HeadPlaced(s);
    var n := Rq(s)[0];
    var t := ThOf(s, n).(status := Keep(ThOf(s, n).status, Ready), pc := Yielded);
    QOfSetQ(s, ReadyQ, order);
    QFields(SetQ(s, ReadyQ, order), Reorder(s, order));
    EntryKeeps(s, Reorder(s, order), n, t);
  }

  // ----- locks -----

  /** The running thread's own entry changes, and no queue. */
  lemma SelfKeeps(s: State, t: Th)
    requires Inv(s)
    requires t.tid == ThOf(s, Rq(s)[0]).tid && t.place == ReadyQ && (t.pc == User ==> t.status != Exited)
    ensures Inv(SetTh(s, Rq(s)[0], t))
  {
    hide Q, NoRepeats, Placed, Tabled, LocksOk, AwaitsOk;
    HeadPlaced(s);
    QFields(s, SetTh(s, Rq(s)[0], t));
    SameSelf(s);
    EntryKeeps(s, SetTh(s, Rq(s)[0], t), Rq(s)[0], t);
  }

  lemma SameSelf(s: State)
    requires Placed(s)
    ensures SameMembers(Rq(s), Rq(s))
  {
    hide NoRepeats;
    assert NoRepeats(Q(s, ReadyQ));
  }

  lemma TakeLock(s: State, l: nat)
    requires Inv(s) && !LockOf(s, l).locked
    ensures var n := Rq(s)[0];
      Inv(s.(locks := s.locks[l := Lock(true, ThOf(s, n).tid, n)], inside := s.inside + {(n, l)}))
  {
    hide Q, NoRepeats;
    HeadPlaced(s);
    var n := Rq(s)[0];
    QFields(s, s.(locks := s.locks[l := Lock(true, ThOf(s, n).tid, n)], inside := s.inside + {(n, l)}));
  }

  lemma TryAcquireKeeps(s: State, l: nat)
    requires Inv(s) && ThOf(s, Rq(s)[0]).status != Exited
    ensures Inv(TryAcquire(s, l))
  {
    hide NoRepeats, Placed, Tabled, Phased, LocksOk, AwaitsOk;
    HeadPlaced(s);
    var n := Rq(s)[0];
    var t := ThOf(s, n);
    if !LockOf(s, l).locked {
      TakeLock(s, l);
      var s1 := s.(locks := s.locks[l := Lock(true, t.tid, n)], inside := s.inside + {(n, l)});
      SelfKeeps(s1, t.(pc := User));
    } else if |Rq(s)| == 1 {
      SelfKeeps(s, t.(pc := Acquiring(l)));
    } else {
      ParkKeeps(s, LockQ(l), Acquiring(l));
    }
  }

  /** Who passes the asserts is the holder, exactly if the holder has not exited. */
  lemma OwnerIsHolder(s: State, l: nat)
    requires Inv(s) && OwnsLock(s, l)
    ensures LockOf(s, l).holder == Rq(s)[0] <==> LiveTh(s, LockOf(s, l).holder)
  {
    hide NoRepeats, Q;
    HeadPlaced(s);
  }

  lemma UnlockKeeps(s: State, l: nat)
    requires Inv(s) && OwnsLock(s, l)
    ensures Inv(Unlock(s, l)) && Rq(Unlock(s, l))[0] == Rq(s)[0]
    ensures Rq(Unlock(s, l)) == Rq(s) + Q(s, LockQ(l)) && !LockOf(Unlock(s, l), l).locked
    ensures ThOf(Unlock(s, l), Rq(s)[0]) == ThOf(s, Rq(s)[0])
  {
    hide NoRepeats, LocksOk, AwaitsOk, Phased, Tabled, LiveTh;
    HeadPlaced(s);
    OwnerIsHolder(s, l);
    assert Q(s, LockQ(l))[..|Q(s, LockQ(l))|] == Q(s, LockQ(l));
    WakeKeeps(s, LockQ(l), |Q(s, LockQ(l))|);
    WakeMoves(s, LockQ(l), |Q(s, LockQ(l))|);
    UnlockLocks(s, l);
  }

  /** Clearing the lock and waking its sleepers go together. */
  lemma UnlockLocks(s: State, l: nat)
    requires Inv(s) && OwnsLock(s, l) && (LiveTh(s, LockOf(s, l).holder) ==> LockOf(s, l).holder == Rq(s)[0])
    requires Inv(WakeAll(s, LockQ(l)))
    ensures Inv(Unlock(s, l))
    ensures Unlock(s, l) == WakeAll(s, LockQ(l)).(locks := s.locks[l := LockOf(s, l).(locked := false)], inside := s.inside - {(Rq(s)[0], l)})
  {
    hide Q, NoRepeats, Placed, Tabled, Phased, LocksOk, AwaitsOk, Moved, Unlock, LiveTh, Wake;
    UnlockIs(s, l);
    WakeMoves(s, LockQ(l), |Q(s, LockQ(l))|);
    WakeIs(s, LockQ(l), |Q(s, LockQ(l))|);
    WakeLive(s, LockQ(l), |Q(s, LockQ(l))|, LockOf(s, l).holder);
    LockCleared(WakeAll(s, LockQ(l)), l, Rq(s)[0]);
  }

  lemma LockCleared(w: State, l: nat, n: Nid)
    requires Inv(w) && Q(w, LockQ(l)) == [] && LockOf(w, l).locked && (LiveTh(w, LockOf(w, l).holder) ==> LockOf(w, l).holder == n)
    ensures Inv(w.(locks := w.locks[l := LockOf(w, l).(locked := false)], inside := w.inside - {(n, l)}))
  {
    hide Q, NoRepeats;
    QFields(w, w.(locks := w.locks[l := LockOf(w, l).(locked := false)], inside := w.inside - {(n, l)}));
  }

  lemma UnlockIs(s: State, l: nat)
    requires Rq(s) != []
    ensures Unlock(s, l) == WakeAll(s, LockQ(l)).(locks := s.locks[l := LockOf(s, l).(locked := false)], inside := s.inside - {(Rq(s)[0], l)})
  {}

  // ----- exit -----

  /** `thread_exit` when another thread is left: its waiters wake, then it moves to the exit queue. */
  lemma ExitIs(s: State)
    requires Inv(s) && !Exit(s).halted && !s.halted
    ensures var n := Rq(s)[0];
      var w := WakeAll(s, WaitFor(ThOf(s, n).tid));
      && Inv(w) && |Rq(w)| > 1 && Rq(w)[0] == n && ThOf(w, n) == ThOf(s, n) && Q(w, WaitFor(ThOf(s, n).tid)) == []
      && Exit(s) == Leave(w, ExitQ, ThOf(s, n).(place := ExitQ)).(table := s.table - {ThOf(s, n).tid})
  {
    hide NoRepeats, Tabled, Phased, LocksOk, AwaitsOk;
    HeadPlaced(s);
    var n := Rq(s)[0];
    var q := WaitFor(ThOf(s, n).tid);
    WakeKeeps(s, q, |Q(s, q)|);
    WakeMoves(s, q, |Q(s, q)|);
    assert n !in Q(s, q);
    var w := WakeAll(s, q);
    assert WakeAll(s.(table := s.table - {ThOf(s, n).tid}), q) == w.(table := s.table - {ThOf(s, n).tid});
  }

  lemma ExitKeeps(s: State)
    requires Inv(s) && !s.halted
    ensures Exit(s).halted || Inv(Exit(s))
  {
    hide NoRepeats, Placed, Tabled, Phased, LocksOk, AwaitsOk;
    HeadPlaced(s);
    if !Exit(s).halted {
      var n := Rq(s)[0];
      var t := ThOf(s, n);
      var w := WakeAll(s, WaitFor(t.tid));
      ExitIs(s);
      LeftPlaced(w, t);
      LeftTabled(w, t);
      LeftRest(w, t);
    }
  }

  function Left(w: State, t: Th): State
    requires Rq(w) != []
  {
    Leave(w, ExitQ, t.(place := ExitQ)).(table := w.table - {t.tid})
  }

  lemma LeftPlaced(w: State, t: Th)
    requires Inv(w) && |Rq(w)| > 1 && t == ThOf(w, Rq(w)[0])
    ensures Placed(Left(w, t)) && Moved(w, Left(w, t), {Rq(w)[0]}, ExitQ) && Rq(Left(w, t)) == Rq(w)[1..]
  {
    hide Q, NoRepeats, Tabled, Phased, LocksOk, AwaitsOk, Placed, Leave;
    var l := Leave(w, ExitQ, t.(place := ExitQ));
    HeadPlaced(w);
    LeaveMoves(w, ExitQ, t.(place := ExitQ));
    LeaveFields(w, ExitQ, t.(place := ExitQ));
    MovedPlaced(w, l, {Rq(w)[0]}, ExitQ);
    QFields(l, Left(w, t));
    assert Moved(w, Left(w, t), {Rq(w)[0]}, ExitQ);
    MovedPlaced(w, Left(w, t), {Rq(w)[0]}, ExitQ);
  }

  lemma LeaveFields(s: State, q: QueueId, t: Th)
    requires Rq(s) != [] && q != ReadyQ
    ensures var s' := Leave(s, q, t); s'.next == s.next && s'.table == s.table && s'.th == s.th[Rq(s)[0] := t]
  {}

  lemma LeftTabled(w: State, t: Th)
    requires Inv(w) && |Rq(w)| > 1 && t == ThOf(w, Rq(w)[0])
    ensures Tabled(Left(w, t))
  {
    hide NoRepeats, Phased, LocksOk, AwaitsOk, Q;
    HeadPlaced(w);
    LeftPlaced(w, t);
  }

  lemma LeftRest(w: State, t: Th)
    requires Inv(w) && |Rq(w)| > 1 && t == ThOf(w, Rq(w)[0]) && Q(w, WaitFor(t.tid)) == []
    ensures Phased(Left(w, t)) && LocksOk(Left(w, t)) && AwaitsOk(Left(w, t))
  {
    hide *;
    LeftPhased(w, t);
    LeftLocks(w, t);
    LeftAwaits(w, t);
  }

  lemma LeftPhased(w: State, t: Th)
    requires Inv(w) && |Rq(w)| > 1 && t == ThOf(w, Rq(w)[0]) && Q(w, WaitFor(t.tid)) == []
    ensures Phased(Left(w, t))
  {
    hide NoRepeats, Q, Tabled, LocksOk, AwaitsOk;
    HeadPlaced(w);
    LeftPlaced(w, t);
    LeaveMoves(w, ExitQ, t.(place := ExitQ));
    QFields(Leave(w, ExitQ, t.(place := ExitQ)), Left(w, t));
  }

  lemma LeftLocks(w: State, t: Th)
    requires Inv(w) && |Rq(w)| > 1 && t == ThOf(w, Rq(w)[0]) && Q(w, WaitFor(t.tid)) == []
    ensures LocksOk(Left(w, t))
  {
    hide NoRepeats, Q, Phased, AwaitsOk, Tabled, Placed, Leave, Left, Moved;
    HeadPlaced(w);
    LeftFields(w, t);
    LeaveMoves(w, ExitQ, t.(place := ExitQ));
    QFields(Leave(w, ExitQ, t.(place := ExitQ)), Left(w, t));
  }

  lemma LeftFields(w: State, t: Th)
    requires Rq(w) != []
    ensures var s' := Left(w, t);
      && s'.locks == w.locks && s'.inside == w.inside && s'.next == w.next && s'.th == w.th[Rq(w)[0] := t.(place := ExitQ)]
      && s'.queues == Leave(w, ExitQ, t.(place := ExitQ)).queues
  {
    hide Q;
  }

  lemma LeftAwaits(w: State, t: Th)
    requires Inv(w) && |Rq(w)| > 1 && t == ThOf(w, Rq(w)[0]) && Q(w, WaitFor(t.tid)) == []
    ensures AwaitsOk(Left(w, t))
  {
    hide NoRepeats, Q, Phased, LocksOk;
    HeadPlaced(w);
    LeftPlaced(w, t);
    LeaveMoves(w, ExitQ, t.(place := ExitQ));
    QFields(Leave(w, ExitQ, t.(place := ExitQ)), Left(w, t));
  }

  // ----- the other steps -----

  lemma ClearKeeps(s: State)
    requires Inv(s)
    ensures Inv(ClearExited(s)) && Rq(ClearExited(s)) == Rq(s) && ThOf(ClearExited(s), Rq(s)[0]) == ThOf(s, Rq(s)[0])
  {
    hide Q, NoRepeats, Phased, LocksOk, AwaitsOk;
    HeadPlaced(s);
    ClearIs(s);
    ClearRest(s);
    var s' := ClearExited(s);
    NoneRepeats();
    forall p: QueueId ensures NoRepeats(Q(s', p)) { assert NoRepeats(Q(s, p)); }
    forall p: QueueId, n: Nid | n in Q(s', p) ensures n in s'.th && s'.th[n].place == p {
      assert n in Q(s, p);
    }
  }

  lemma ClearIs(s: State)
    requires Placed(s)
    ensures var s' := ClearExited(s);
      && (forall p: QueueId {:trigger Q(s', p)} :: Q(s', p) == if p == ExitQ then [] else Q(s, p))
      && (forall n {:trigger n in s'.th} {:trigger s'.th[n]} :: n in s'.th <==> n in s.th && !s.th[n].place.ExitQ?)
      && (forall n {:trigger s'.th[n]} :: n in s'.th ==> s'.th[n] == s.th[n])
      && s' == s.(queues := s'.queues, th := s'.th)
  {
    hide NoRepeats;
    QOfSetQ(s, ExitQ, []);
    forall n | n in s.th ensures n in Q(s, ExitQ) <==> s.th[n].place.ExitQ? {
      assert n in Q(s, s.th[n].place);
    }
  }

  lemma ClearRest(s: State)
    requires Inv(s)
    ensures Phased(ClearExited(s)) && LocksOk(ClearExited(s)) && AwaitsOk(ClearExited(s))
  {
    hide Q, NoRepeats, Tabled, ClearExited;
    ClearIs(s);
  }

  lemma NoneRepeats()
    ensures NoRepeats([])
  {}

  lemma CreateKeeps(s: State)
    requires Inv(s) && Enabled(s, Create(true)) && FirstFreeTid(s.table, 0) < THREAD_MAX_THREADS
    ensures Inv(Next(s, Create(true)))
  {
    hide Q, NoRepeats, Placed, Tabled, Phased, LocksOk, AwaitsOk;
    var n := s.next;
    var s' := Next(s, Create(true));
    QOfSetQ(s, ReadyQ, Rq(s) + [n]);
    QFields(SetQ(s, ReadyQ, Rq(s) + [n]), s');
    CreatedPlaced(s, s');
    CreatedRest(s, s', FirstFreeTid(s.table, 0));
  }

  ghost predicate Created(s: State, s': State) {
    && s.next !in s.th && s'.next == s.next + 1 && s'.th.Keys == s.th.Keys + {s.next}
    && s'.th[s.next].place == ReadyQ
    && (forall m {:trigger s'.th[m]} :: m in s.th && m != s.next ==> s'.th[m] == s.th[m])
    && (forall p: QueueId {:trigger Q(s', p)} :: Q(s', p) == if p == ReadyQ then Rq(s) + [s.next] else Q(s, p))
  }

  lemma CreatedPlaced(s: State, s': State)
    requires Placed(s)
    requires s'.next == s.next + 1 && s.next in s'.th && s'.th == s.th[s.next := s'.th[s.next]] && s'.th[s.next].place == ReadyQ
    requires forall p: QueueId {:trigger Q(s', p)} :: Q(s', p) == if p == ReadyQ then Rq(s) + [s.next] else Q(s, p)
    ensures Placed(s') && Created(s, s')
  {
    hide Q, NoRepeats;
    var n := s.next;
    assert n !in s.th;
    forall p: QueueId ensures n !in Q(s, p) { assert n in Q(s, p) ==> n in s.th; }
    assert NoRepeats(Q(s, ReadyQ)) && n !in Q(s, ReadyQ);
    Single(n);
    Joined(Rq(s), [n]);
    forall p: QueueId ensures NoRepeats(Q(s', p)) { assert NoRepeats(Q(s, p)); }
    forall p: QueueId, m: Nid | m in Q(s', p) ensures m in s'.th && s'.th[m].place == p {
      assert m == n || m in Q(s, p);
    }
  }

  lemma CreatedRest(s: State, s': State, id: nat)
    requires Inv(s) && Created(s, s') && id !in s.table && id < THREAD_MAX_THREADS
    requires s'.th[s.next] == Th(id, Ready, Fresh, ReadyQ) && s'.table == s.table[id := s.next]
    requires s'.locks == s.locks && s'.inside == s.inside && s'.awaits == s.awaits
    ensures Tabled(s') && Phased(s') && LocksOk(s') && AwaitsOk(s')
  {
    hide Inv, Tabled, Phased, LocksOk, AwaitsOk;
    CreatedEntries(s, s', id);
    CreatedQueues(s, s', id);
  }

  lemma CreatedEntries(s: State, s': State, id: nat)
    requires Inv(s) && Created(s, s') && id !in s.table && id < THREAD_MAX_THREADS
    requires s'.th[s.next] == Th(id, Ready, Fresh, ReadyQ) && s'.table == s.table[id := s.next]
    requires s'.locks == s.locks && s'.inside == s.inside && s'.awaits == s.awaits
    ensures Tabled(s') && Phased(s')
  {
    hide Q, NoRepeats, LocksOk, AwaitsOk;
    assert Rq(s')[0] == Rq(s)[0];
  }

  lemma CreatedQueues(s: State, s': State, id: nat)
    requires Inv(s) && Created(s, s') && id !in s.table && id < THREAD_MAX_THREADS
    requires s'.th[s.next] == Th(id, Ready, Fresh, ReadyQ) && s'.table == s.table[id := s.next]
    requires s'.locks == s.locks && s'.inside == s.inside && s'.awaits == s.awaits
    ensures LocksOk(s') && AwaitsOk(s')
  {
    hide Q, NoRepeats, Phased, Placed;
    forall t: nat, m: Nid | m in Q(s', WaitFor(t)) ensures t in s'.table && m in s'.awaits && s'.awaits[m] == s'.table[t] {
      assert m in Q(s, WaitFor(t));
    }
  }

  lemma KillKeeps(s: State, tid: nat)
    requires Inv(s) && Enabled(s, Kill(tid))
    ensures Inv(Next(s, Kill(tid)))
  {
    hide Q, NoRepeats, Placed, LocksOk, AwaitsOk;
    HeadPlaced(s);
    SameSelf(s);
    var s' := Next(s, Kill(tid));
    if tid != ThOf(s, Rq(s)[0]).tid && tid in s.table {
      var k := s.table[tid];
      QFields(s, s');
      EntryKeeps(s, s', k, s.th[k].(status := Exited));
    }
  }

  /** Every call, switch-back and preemption keeps the invariant, unless the last thread exits. */
  lemma StepKeeps(s: State, t: Step)
    requires Inv(s) && Enabled(s, t)
    ensures Next(s, t).halted || Inv(Next(s, t))
  {
    hide *;
    match t
    case Create(memory) => CreateStepKeeps(s, memory);
    case YieldAny => YieldStepKeeps(s, t);
    case Preempt => YieldStepKeeps(s, t);
    case YieldSelf => YieldStepKeeps(s, t);
    case YieldTo(tid) => YieldToKeeps(s, tid);
    case ExitCall => ExitStepKeeps(s);
    case Kill(tid) => KillKeeps(s, tid);
    case SleepOn(u) => SleepKeeps(s, u);
    case WakeupOn(u, all) => WakeupKeeps(s, t);
    case WaitTid(tid) => WaitKeeps(s, tid);
    case Acquire(l) => LockStepKeeps(s, t);
    case Release(l) => LockStepKeeps(s, t);
    case CvWait(c, l) => CvWaitKeeps(s, c, l);
    case Signal(c, l) => WakeupKeeps(s, t);
    case Broadcast(c, l) => WakeupKeeps(s, t);
    case DestroyLock(l) => DestroyKeeps(s, t);
    case DestroyCv(c) => DestroyKeeps(s, t);
    case Resume => ResumeKeeps(s);
  }

  lemma CreateStepKeeps(s: State, memory: bool)
    requires Inv(s) && Enabled(s, Create(memory))
    ensures Inv(Next(s, Create(memory)))
  {
    hide Inv, Q;
    if FirstFreeTid(s.table, 0) < THREAD_MAX_THREADS && memory { CreateKeeps(s); }
  }

  lemma YieldStepKeeps(s: State, t: Step)
    requires Inv(s) && Enabled(s, t) && (t.YieldAny? || t.Preempt? || t.YieldSelf?)
    ensures Inv(Next(s, t))
  {
    hide Q, Tabled, Phased, LocksOk, AwaitsOk, Reorder, NoRepeats;
    if t.YieldSelf? {
      SameSelf(s);
      ReorderKeeps(s, Rq(s));
    } else {
      YieldAnyKeeps(s);
    }
  }

  lemma ExitStepKeeps(s: State)
    requires Inv(s) && Enabled(s, ExitCall)
    ensures Next(s, ExitCall).halted || Inv(Next(s, ExitCall))
  {
    hide Inv, Q, Exit;
    ExitKeeps(s);
  }

  lemma SleepKeeps(s: State, u: nat)
    requires Inv(s) && Enabled(s, SleepOn(u))
    ensures Inv(Next(s, SleepOn(u)))
  {
    hide Inv, Q, Park;
    if |Rq(s)| > 1 { ParkKeeps(s, UserQ(u), Slept); }
  }

  lemma WakeupKeeps(s: State, t: Step)
    requires Inv(s) && Enabled(s, t) && (t.WakeupOn? || t.Signal? || t.Broadcast?)
    ensures Inv(Next(s, t))
  {
    hide Inv, Q, Wake;
    if t.WakeupOn? {
      if Q(s, UserQ(t.u)) != [] { WakeKeeps(s, UserQ(t.u), if t.all then |Q(s, UserQ(t.u))| else 1); }
    } else if t.Signal? {
      if Q(s, CvQ(t.c)) != [] { WakeKeeps(s, CvQ(t.c), 1); }
    } else {
      WakeKeeps(s, CvQ(t.c), |Q(s, CvQ(t.c))|);
    }
  }

  lemma LockStepKeeps(s: State, t: Step)
    requires Inv(s) && Enabled(s, t) && (t.Acquire? || t.Release?)
    ensures Inv(Next(s, t))
  {
    hide Q, Placed, Tabled, LocksOk, AwaitsOk, TryAcquire, Unlock;
    if t.Acquire? {
      HeadPlaced(s);
      TryAcquireKeeps(s, t.l);
    } else {
      UnlockKeeps(s, t.l);
    }
  }

  lemma DestroyKeeps(s: State, t: Step)
    requires Inv(s) && Enabled(s, t) && (t.DestroyLock? || t.DestroyCv?)
    ensures Inv(Next(s, t))
  {
    hide Inv, Q;
    FreedKeeps(s, Next(s, t).freed);
  }

  lemma FreedKeeps(s: State, freed: set<QueueId>)
    requires Inv(s)
    ensures Inv(s.(freed := freed))
  {
    hide Q, NoRepeats;
    QFields(s, s.(freed := freed));
  }

  lemma YieldAnyKeeps(s: State)
    requires Inv(s)
    ensures Inv(YieldAnyNext(s))
  {
    hide Q, NoRepeats, Tabled, Phased, LocksOk, AwaitsOk;
    if |Rq(s)| != 1 {
      assert NoRepeats(Q(s, ReadyQ));
      RotateMembers(Rq(s));
      ReorderKeeps(s, RotateSeq(Rq(s)));
    }
  }

  lemma YieldToKeeps(s: State, tid: nat)
    requires Inv(s) && Enabled(s, YieldTo(tid))
    ensures Inv(Next(s, YieldTo(tid)))
  {
    hide Q, NoRepeats, Tabled, Phased, LocksOk, AwaitsOk;
    var k := FindTid(s, Rq(s), tid);
    assert NoRepeats(Q(s, ReadyQ));
    SameSelf(s);
    if k == 0 {
      ReorderKeeps(s, Rq(s));
    } else if k < |Rq(s)| {
      YieldMembers(Rq(s), k);
      ReorderKeeps(s, YieldSeq(Rq(s), k));
    }
  }

  lemma WaitKeeps(s: State, tid: nat)
    requires Inv(s) && Enabled(s, WaitTid(tid))
    ensures Inv(Next(s, WaitTid(tid)))
  {
    hide Q, NoRepeats, Tabled, LocksOk, Phased, Leave;
    HeadPlaced(s);
    var n := Rq(s)[0];
    if tid != ThOf(s, n).tid && tid in s.table && |Rq(s)| > 1 {
      var s1 := s.(awaits := s.awaits[n := s.table[tid]]);
      AwaitNoted(s, s1, n);
      ParkKeeps(s1, WaitFor(tid), Slept);
      ParkAwaits(s, s1, WaitFor(tid));
    }
  }

  lemma AwaitNoted(s: State, s1: State, n: Nid)
    requires Inv(s) && n == Rq(s)[0] && n in s1.awaits && s1 == s.(awaits := s.awaits[n := s1.awaits[n]])
    ensures Inv(s1) && Rq(s1) == Rq(s) && ThOf(s1, n) == ThOf(s, n)
  {
    hide Q, NoRepeats;
    HeadPlaced(s);
    QFields(s, s1);
  }

  lemma ParkAwaits(s: State, s1: State, q: QueueId)
    requires Rq(s) != [] && q != ReadyQ && s1 == s.(awaits := s1.awaits)
    ensures Park(s, q, Slept).(awaits := s1.awaits) == Park(s1, q, Slept)
  {}

  lemma CvWaitKeeps(s: State, c: nat, l: nat)
    requires Inv(s) && Enabled(s, CvWait(c, l))
    ensures Inv(Next(s, CvWait(c, l)))
  {
    hide Q, NoRepeats, Placed, Tabled, LocksOk, AwaitsOk, Unlock, TryAcquire, Park;
    HeadPlaced(s);
    UnlockKeeps(s, l);
    var s1 := Unlock(s, l);
    if |Rq(s1)| == 1 { TryAcquireKeeps(s1, l); } else { ParkKeeps(s1, CvQ(c), Acquiring(l)); }
  }

  lemma ResumeKeeps(s: State)
    requires Inv(s) && Enabled(s, Resume)
    ensures Next(s, Resume).halted || Inv(Next(s, Resume))
  {
    hide Q, NoRepeats, Placed, Tabled, LocksOk, AwaitsOk, Phased, Exit, ClearExited, TryAcquire;
    HeadPlaced(s);
    var n := Rq(s)[0];
    var self := ThOf(s, n);
    if self.status == Exited {
      ExitKeeps(s);
    } else {
      ClearKeeps(s);
      var s1 := ClearExited(s);
      SelfKeeps(s1, self.(status := Running, pc := if self.pc.Acquiring? then self.pc else User));
      if self.pc.Acquiring? {
        QFields(s1, SetTh(s1, n, self.(status := Running)));
        TryAcquireKeeps(SetTh(s1, n, self.(status := Running)), self.pc.l);
      }
    }
  }
}
