/** A lock outlives its holder: a run in which a Tid is reused and the asserts of `lock_release` let the
    wrong thread through. */
module ThreadReuse {
  import opened ThreadQueues
  import opened ThreadSystem
  import opened ThreadTheorems

  /** A thread that returns while it holds a lock, and another that is then created with its Tid and
      releases the lock. */
  function ReuseSteps(): seq<Step> {
    [Create(true), YieldAny, Resume, Acquire(0), ExitCall, Resume, Create(true), YieldAny, Resume]
  }

  function ReuseState(k: nat): State {
    var t0, t1 := Th(0, Ready, Yielded, ReadyQ), Th(1, Running, User, ReadyQ);
    var held, in1 := map[0 := Lock(true, 1, 1)], {(1, 0)};
    match k
    case 0 => Initial()
    case 1 => State(map[ReadyQ := [0, 1]], map[0 := Th(0, Running, User, ReadyQ), 1 := Th(1, Ready, Fresh, ReadyQ)], map[0 := 0, 1 := 1], map[], {}, map[], {}, 2, false)
    case 2 => State(map[ReadyQ := [1, 0]], map[0 := t0, 1 := Th(1, Ready, Fresh, ReadyQ)], map[0 := 0, 1 := 1], map[], {}, map[], {}, 2, false)
    case 3 => State(map[ReadyQ := [1, 0], ExitQ := []], map[0 := t0, 1 := t1], map[0 := 0, 1 := 1], map[], {}, map[], {}, 2, false)
    case 4 => State(map[ReadyQ := [1, 0], ExitQ := []], map[0 := t0, 1 := t1], map[0 := 0, 1 := 1], held, in1, map[], {}, 2, false)
    case 5 => State(map[ReadyQ := [0], ExitQ := [1], WaitFor(1) := []], map[0 := t0, 1 := t1.(place := ExitQ)], map[0 := 0], held, in1, map[], {}, 2, false)
    case 6 => State(map[ReadyQ := [0], ExitQ := [], WaitFor(1) := []], map[0 := Th(0, Running, User, ReadyQ)], map[0 := 0], held, in1, map[], {}, 2, false)
    case 7 => State(map[ReadyQ := [0, 2], ExitQ := [], WaitFor(1) := []], map[0 := Th(0, Running, User, ReadyQ), 2 := Th(1, Ready, Fresh, ReadyQ)], map[0 := 0, 1 := 2], held, in1, map[], {}, 3, false)
    case 8 => State(map[ReadyQ := [2, 0], ExitQ := [], WaitFor(1) := []], map[0 := t0, 2 := Th(1, Ready, Fresh, ReadyQ)], map[0 := 0, 1 := 2], held, in1, map[], {}, 3, false)
    case _ => State(map[ReadyQ := [2, 0], ExitQ := [], WaitFor(1) := []], map[0 := t0, 2 := t1], map[0 := 0, 1 := 2], held, in1, map[], {}, 3, false)
  }

  lemma Step0()
    ensures Enabled(ReuseState(0), ReuseSteps()[0]) && Next(ReuseState(0), ReuseSteps()[0]) == ReuseState(1)
  {
    assert FirstFreeTid(ReuseState(0).table, 0) == 1 && [0] + [1] == [0, 1];
  }

  lemma Step1()
    ensures Enabled(ReuseState(1), ReuseSteps()[1]) && Next(ReuseState(1), ReuseSteps()[1]) == ReuseState(2)
  {
    assert RotateSeq([0, 1]) == [1, 0];
  }

  lemma Step2()
    ensures Enabled(ReuseState(2), ReuseSteps()[2]) && Next(ReuseState(2), ReuseSteps()[2]) == ReuseState(3)
  {
    assert Next(ReuseState(2), Resume).th == ReuseState(3).th;
  }

  lemma Step3()
    ensures Enabled(ReuseState(3), ReuseSteps()[3]) && Next(ReuseState(3), ReuseSteps()[3]) == ReuseState(4)
  {}

  lemma Woken4(w: State)
    requires w == WakeAll(ReuseState(4).(table := ReuseState(4).table - {1}), WaitFor(1))
    ensures w == ReuseState(4).(queues := map[ReadyQ := [1, 0], ExitQ := [], WaitFor(1) := []], table := map[0 := 0])
  {
    var s := ReuseState(4);
    assert Q(s, WaitFor(1)) == [] && [1, 0] + [] == [1, 0];
    assert w.th == s.th;
    assert w.queues == map[ReadyQ := [1, 0], ExitQ := [], WaitFor(1) := []];
    assert w.table == map[0 := 0];
  }

  lemma Left4(w: State)
    requires w == ReuseState(4).(queues := map[ReadyQ := [1, 0], ExitQ := [], WaitFor(1) := []], table := map[0 := 0])
    ensures Leave(w, ExitQ, ReuseState(4).th[1].(place := ExitQ)) == ReuseState(5)
  {
    assert [1, 0][1..] == [0] && [] + [1] == [1];
  }

  lemma Enabled4()
    ensures Enabled(ReuseState(4), ExitCall)
  {}

  lemma Step4()
    ensures Enabled(ReuseState(4), ReuseSteps()[4]) && Next(ReuseState(4), ReuseSteps()[4]) == ReuseState(5)
  {
    hide Enabled, WakeAll, Leave;
    var s := ReuseState(4);
    var w := WakeAll(s.(table := s.table - {1}), WaitFor(1));
    Enabled4();
    Woken4(w);
    Left4(w);
  }

  lemma Cleared5()
    ensures ClearExited(ReuseState(5)) == ReuseState(5).(queues := map[ReadyQ := [0], ExitQ := [], WaitFor(1) := []], th := map[0 := ReuseState(5).th[0]])
  {
    var s := ReuseState(5);
    assert Q(s, ExitQ) == [1];
    assert ClearExited(s).th == map[0 := s.th[0]];
    assert ClearExited(s).queues == map[ReadyQ := [0], ExitQ := [], WaitFor(1) := []];
  }

  lemma Step5()
    ensures Enabled(ReuseState(5), ReuseSteps()[5]) && Next(ReuseState(5), ReuseSteps()[5]) == ReuseState(6)
  {
    hide ClearExited, Exit, TryAcquire;
    Cleared5();
    assert Next(ReuseState(5), Resume).th == ReuseState(6).th;
  }

  lemma Step6()
    ensures Enabled(ReuseState(6), ReuseSteps()[6]) && Next(ReuseState(6), ReuseSteps()[6]) == ReuseState(7)
  {
    assert FirstFreeTid(ReuseState(6).table, 0) == 1 && [0] + [2] == [0, 2];
  }

  lemma Step7()
    ensures Enabled(ReuseState(7), ReuseSteps()[7]) && Next(ReuseState(7), ReuseSteps()[7]) == ReuseState(8)
  {
    assert RotateSeq([0, 2]) == [2, 0];
  }

  lemma Cleared8()
    ensures ClearExited(ReuseState(8)) == ReuseState(8)
  {
    var s := ReuseState(8);
    assert Q(s, ExitQ) == [];
    assert ClearExited(s).th == s.th;
    assert ClearExited(s).queues == s.queues;
  }

  lemma Step8()
    ensures Enabled(ReuseState(8), ReuseSteps()[8]) && Next(ReuseState(8), ReuseSteps()[8]) == ReuseState(9)
  {
    hide ClearExited, Exit, TryAcquire;
    Cleared8();
    assert Next(ReuseState(8), Resume).th == ReuseState(9).th;
  }

  /** After the run, the second thread with the Tid may release the lock that the first one acquired. */
  lemma ReusedTidReleases() returns (ss: seq<State>)
    ensures Run(ss, ReuseSteps()) && |ss| == 10
    ensures OwnsLock(ss[9], 0) && Enabled(ss[9], Release(0)) && LockOf(ss[9], 0).holder != Rq(ss[9])[0]
  {
    hide Enabled, Next;
    ss := [ReuseState(0), ReuseState(1), ReuseState(2), ReuseState(3), ReuseState(4), ReuseState(5), ReuseState(6), ReuseState(7), ReuseState(8), ReuseState(9)];
    Step0(); Step1(); Step2(); Step3(); Step4(); Step5(); Step6(); Step7(); Step8();
    LastState();
    forall i: nat | i < 9 ensures StepAt(ss, ReuseSteps(), i) {}
  }

  lemma LastState()
    ensures var s := ReuseState(9); OwnsLock(s, 0) && Enabled(s, Release(0)) && LockOf(s, 0).holder != Rq(s)[0]
  {}
}
