/** The request buffer of webserver/server_thread.c: a ring of connection numbers, and the protocol of
    its producers and workers on two condition variables. */
module RequestRing {

  /** A position reduced to the ring. */
  function Wrap(x: int, n: nat): int
    requires n > 0
  {
    x % n
  }

  lemma WrapOnce(x: int, n: nat)
    requires 0 <= x < 2 * n
    ensures Wrap(x, n) == if x < n then x else x - n
  {
    if x >= n {
      WrapMinus(x, n);
    }
  }

  lemma WrapMinus(x: int, n: nat)
    requires n > 0
    ensures x % n == (x - n) % n
  {
    var q, r := x / n, x % n;
    assert x - n == n * (q - 1) + r;
    DivisionIsUnique(x - n, n, q - 1, r);
  }

  lemma WrapNext(x: nat, n: nat)
    requires n > 0
    ensures Wrap(x + 1, n) == Wrap(Wrap(x, n) + 1, n)
    ensures 0 <= Wrap(x, n) < n
  {
    var q, r := x / n, x % n;
    if r + 1 < n {
      DivisionIsUnique(x + 1, n, q, r + 1);
      DivisionIsUnique(r + 1, n, 0, r + 1);
    } else {
      assert x + 1 == n * q + n == n * (q + 1);
      DivisionIsUnique(x + 1, n, q + 1, 0);
      DivisionIsUnique(n, n, 1, 0);
    }
  }

  /** Of the `size` slots that the indices go round, `server_init` allocates all but the last: the first
      `n` requests lie in those if and only if there are fewer than `size` of them. */
  lemma SlotsAllocatedIff(size: nat, n: nat)
    requires size > 0
    ensures (forall k :: 0 <= k < n ==> Wrap(k, size) < size - 1) <==> n < size
  {
    forall k | 0 <= k < size
      ensures Wrap(k, size) == k
    {
      DivisionIsUnique(k, size, 0, k);
    }
    assert Wrap(size - 1, size) == size - 1;
  }

  lemma DivisionIsUnique(x: int, n: nat, q: int, r: int)
    requires n > 0 && x == n * q + r && 0 <= r < n
    ensures x % n == r
  {
    var d := x / n - q;
    var m: int := n;
    assert m * d == r - x % n;
    assert d >= 1 ==> m * d >= m;
    assert d <= -1 ==> m * d <= -m;
  }

  /** The ring itself; one slot always stays free. */
  class RequestBuffer {
    const requests: array<int>
    const maxSize: nat
    var inIx: nat
    var outIx: nat
    ghost var added: nat

    /** The slots go round with the number of requests added so far. */
    ghost predicate Valid()
      reads this
    {
      maxSize > 1 && requests.Length == maxSize && inIx < maxSize && outIx < maxSize && inIx == Wrap(added, maxSize)
    }

    function Count(): int
      requires Valid()
      reads this
    {
      Wrap(inIx - outIx + maxSize, maxSize)
    }

    lemma CountIs()
      requires Valid()
      ensures Count() == if outIx <= inIx then inIx - outIx else inIx - outIx + maxSize
    {
      WrapOnce(inIx - outIx + maxSize, maxSize);
    }

    /** The pending connections, oldest first. */
    ghost function Pending(): (s: seq<int>)
      requires Valid()
      reads this, requests
      ensures |s| == Count()
    {
      CountIs();
      if outIx <= inIx then requests[outIx..inIx] else requests[outIx..] + requests[..inIx]
    }

    constructor (maxRequests: nat)
      requires maxRequests > 0
      ensures Valid() && maxSize == maxRequests + 1 && Pending() == [] && added == 0
    {
      maxSize := maxRequests + 1;
      requests := new int[maxRequests + 1](_ => 0);
      inIx, outIx, added := 0, 0, 0;
    }

    predicate Full()
      requires Valid()
      reads this
    {
      Count() == maxSize - 1
    }

    predicate Empty()
      requires Valid()
      reads this
    {
      inIx == outIx
    }

    /** The tests that decide about waiting and about waking look at the number of pending requests. */
    lemma TestsMean()
      requires Valid()
      ensures Empty() <==> Pending() == []
      ensures Full() <==> |Pending()| == maxSize - 1
    {
      hide Wrap;
      CountIs();
    }

    /** The end of `add_request`; tells whether sleeping workers must be woken. */
    method Add(connfd: int) returns (wakeWorkers: bool)
      requires Valid() && !Full()
      modifies this`inIx, this`added, requests
      ensures Valid() && Pending() == old(Pending()) + [connfd]
      ensures added == old(added) + 1 && requests[..] == old(requests[..])[Wrap(old(added), maxSize) := connfd]
      ensures wakeWorkers <==> old(Pending()) == []
    {
      hide Wrap;
      CountIs();
      ghost var before := requests[..];
      requests[inIx] := connfd;
      wakeWorkers := inIx == outIx;
      WrapOnce(inIx + 1, maxSize);
      WrapNext(added, maxSize);
      inIx, added := Wrap(inIx + 1, maxSize), added + 1;
      assert requests[..] == before[old(inIx) := connfd];
    }

    /** The middle of `take_request`; tells whether sleeping producers must be woken. */
    method Take() returns (connfd: int, wakeProducers: bool)
      requires Valid() && !Empty()
      modifies this`outIx
      ensures Valid() && old(Pending()) == [connfd] + Pending()
      ensures wakeProducers <==> |old(Pending())| == maxSize - 1
    {
      hide Wrap;
      CountIs();
      connfd := requests[outIx];
      wakeProducers := Full();
      WrapOnce(outIx + 1, maxSize);
      outIx := Wrap(outIx + 1, maxSize);
    }

    /** `add_request` from where it has the lock to where it waits or gives the lock up: what it does to the ring
        is what its step does in the protocol. */
    method AddSection(connfd: int, ghost s: State, ghost p: nat) returns (added: bool, wakeWorkers: bool)
      requires Valid() && Enabled(s, AddRequest(p, connfd)) && s.pending == Pending() && s.capacity == maxSize - 1
      modifies this`inIx, this`added, requests
      ensures Valid() && added == (|old(Pending())| < maxSize - 1)
      ensures Pending() == Next(s, AddRequest(p, connfd)).pending == old(Pending()) + if added then [connfd] else []
      ensures added <==> Next(s, AddRequest(p, connfd)).producers[p].Awake?
      ensures wakeWorkers <==> added && old(Pending()) == []
    {
      TestsMean();
      added, wakeWorkers := !Full(), false;
      if added {
        wakeWorkers := Add(connfd);
      }
    }

    /** `take_request`, likewise. */
    method TakeSection(ghost s: State, ghost w: nat) returns (taken: bool, connfd: int, wakeProducers: bool)
      requires Valid() && Enabled(s, TakeRequest(w)) && s.pending == Pending() && s.capacity == maxSize - 1
      modifies this`outIx
      ensures Valid() && taken == (old(Pending()) != [])
      ensures Pending() == Next(s, TakeRequest(w)).pending && old(Pending()) == (if taken then [connfd] else []) + Pending()
      ensures taken <==> Next(s, TakeRequest(w)).workers[w].Awake?
      ensures wakeProducers <==> taken && |old(Pending())| == maxSize - 1
    {
      TestsMean();
      taken, connfd, wakeProducers := !Empty(), 0, false;
      if taken {
        connfd, wakeProducers := Take();
      }
    }
  }

  // ----- the protocol -----

  /** `Awake` covers a thread outside the lock, one that was signalled, and one that re-tests. */
  datatype Phase = Awake | OnEmpty | OnFull

  datatype State = State(
    pending: seq<int>, capacity: nat, workers: seq<Phase>, producers: seq<Phase>,
    arrived: seq<int>, taken: seq<int>)

  datatype Step =
    | AddRequest(p: nat, connfd: int)
    | TakeRequest(w: nat)
    | WakeWorker(w: nat)
    | WakeProducer(p: nat)

  ghost predicate Enabled(s: State, t: Step) {
    match t
    case AddRequest(p, connfd) => p < |s.producers| && s.producers[p].Awake?
    case TakeRequest(w) => w < |s.workers| && s.workers[w].Awake?
    case WakeWorker(w) => w < |s.workers|
    case WakeProducer(p) => p < |s.producers|
  }

  function AllAwake(n: nat): seq<Phase> { seq(n, i => Awake) }

  /** One locked section: test, and either go to sleep or act and broadcast on a transition. Wake-up
      steps stand for spurious wake-ups. */
  function Next(s: State, t: Step): State
    requires Enabled(s, t)
  {
    match t
    case AddRequest(p, connfd) =>
      if |s.pending| == s.capacity then s.(producers := s.producers[p := OnFull])
      else s.(pending := s.pending + [connfd], arrived := s.arrived + [connfd],
              workers := if s.pending == [] then AllAwake(|s.workers|) else s.workers)
    case TakeRequest(w) =>
      if s.pending == [] then s.(workers := s.workers[w := OnEmpty])
      else s.(pending := s.pending[1..], taken := s.taken + [s.pending[0]],
              producers := if |s.pending| == s.capacity then AllAwake(|s.producers|) else s.producers)
    case WakeWorker(w) => s.(workers := s.workers[w := Awake])
    case WakeProducer(p) => s.(producers := s.producers[p := Awake])
  }

  /** Connections leave exactly once and in order of arrival; a sleeper on either condition variable
      sleeps for the reason it tested. */
  ghost predicate Inv(s: State) {
    && s.arrived == s.taken + s.pending
    && |s.pending| <= s.capacity
    && (forall w :: 0 <= w < |s.workers| ==> s.workers[w] != OnFull && (s.workers[w] == OnEmpty ==> s.pending == []))
    && (forall p :: 0 <= p < |s.producers| ==>
          s.producers[p] != OnEmpty && (s.producers[p] == OnFull ==> |s.pending| == s.capacity))
  }

  lemma StepKeeps(s: State, t: Step)
    requires Inv(s) && Enabled(s, t)
    ensures Inv(Next(s, t))
  {
    if t.TakeRequest? && s.pending != [] {
      assert s.taken + s.pending == s.taken + [s.pending[0]] + s.pending[1..];
    }
  }

  /** Broadcasting only on the empty and full transitions loses no wake-up: there is always a thread that
      is not asleep, one whose next locked section adds or takes a request. */
  lemma NeverAllStuck(s: State)
    requires Inv(s) && s.capacity > 0 && |s.workers| > 0 && |s.producers| > 0
    ensures (exists w :: 0 <= w < |s.workers| && s.workers[w].Awake? && s.pending != []) ||
            (exists p :: 0 <= p < |s.producers| && s.producers[p].Awake? && |s.pending| < s.capacity)
  {
    if s.pending != [] {
      assert s.workers[0].Awake?;
    } else {
      assert s.producers[0].Awake?;
    }
  }

  ghost predicate Run(states: seq<State>, steps: seq<Step>) {
    && |states| == |steps| + 1
    && forall i :: 0 <= i < |steps| ==> Enabled(states[i], steps[i]) && states[i + 1] == Next(states[i], steps[i])
  }

  function Start(capacity: nat, workers: nat, producers: nat): State {
    State([], capacity, AllAwake(workers), AllAwake(producers), [], [])
  }

  /** The connection for which there is room in a step, and the one that is pending and taken. */
  function AcceptedBy(s: State, t: Step): seq<int> {
    if t.AddRequest? && |s.pending| < s.capacity then [t.connfd] else []
  }

  function ServedBy(s: State, t: Step): seq<int> {
    if t.TakeRequest? && s.pending != [] then [s.pending[0]] else []
  }

  /** All of them in the first `n` steps. */
  function Accepted(states: seq<State>, steps: seq<Step>, n: nat): seq<int>
    requires n <= |steps| < |states|
  {
    if n == 0 then [] else Accepted(states, steps, n - 1) + AcceptedBy(states[n - 1], steps[n - 1])
  }

  function Served(states: seq<State>, steps: seq<Step>, n: nat): seq<int>
    requires n <= |steps| < |states|
  {
    if n == 0 then [] else Served(states, steps, n - 1) + ServedBy(states[n - 1], steps[n - 1])
  }

  lemma StepCounts(s: State, t: Step)
    requires Inv(s) && Enabled(s, t)
    ensures var s' := Next(s, t);
      && s'.arrived == s.arrived + AcceptedBy(s, t) && s'.taken == s.taken + ServedBy(s, t)
      && s'.capacity == s.capacity && |s'.workers| == |s.workers| && |s'.producers| == |s.producers|
  {}

  lemma InvMeans(s: State)
    requires Inv(s)
    ensures s.arrived == s.taken + s.pending && |s.pending| <= s.capacity
  {}

  /** Every interleaving from the start: what has been accepted has been served or is pending, exactly once and in
      that order, and within capacity. */
  lemma {:induction false} FifoOnce(states: seq<State>, steps: seq<Step>, capacity: nat, workers: nat, producers: nat, n: nat)
    requires Run(states, steps) && states[0] == Start(capacity, workers, producers) && n <= |steps|
    ensures Inv(states[n]) && |states[n].pending| <= capacity == states[n].capacity
    ensures Accepted(states, steps, n) == Served(states, steps, n) + states[n].pending
    ensures states[n].arrived == Accepted(states, steps, n) && states[n].taken == Served(states, steps, n)
    ensures |states[n].workers| == workers && |states[n].producers| == producers
  {
    hide Inv, Next, Enabled, AcceptedBy, ServedBy;
    if n == 0 {
      StartInv(capacity, workers, producers);
    } else {
      FifoOnce(states, steps, capacity, workers, producers, n - 1);
      assert Enabled(states[n - 1], steps[n - 1]);
      StepKeeps(states[n - 1], steps[n - 1]);
      StepCounts(states[n - 1], steps[n - 1]);
    }
    InvMeans(states[n]);
  }

  lemma StartInv(capacity: nat, workers: nat, producers: nat)
    ensures var s := Start(capacity, workers, producers);
      Inv(s) && s.arrived == s.taken == s.pending == [] && s.capacity == capacity && |s.workers| == workers && |s.producers| == producers
  {}
}
