/** Interleavings of requests with the shared cache: each locked section of webserver/server_thread.c is
    one step of one request. */
module CacheRuns {
  import opened CacheSpec

  /** Where a request is, between its locked sections. */
  datatype Phase = Idle | Holding(id: nat) | Missed(name: string)

  datatype State = State(items: Items, maxSize: nat, nextId: nat, phases: seq<Phase>)

  datatype Step =
    | LookUp(w: nat, name: string)
    | Add(w: nat, size: nat, readOk: bool)
    | Done(w: nat)

  ghost predicate Enabled(s: State, t: Step) {
    t.w < |s.phases| &&
    match t
    case LookUp(w, name) => s.phases[w].Idle?
    case Add(w, size, readOk) => s.phases[w].Missed?
    case Done(w) => s.phases[w].Holding?
  }

  /** Position of an entry, by identity. */
  function FindId(items: Items, id: nat): (i: nat)
    ensures i <= |items|
    ensures i < |items| ==> items[i].id == id
    ensures forall k :: 0 <= k < i ==> items[k].id != id
  {
    if items == [] || items[0].id == id then 0 else 1 + FindId(items[1..], id)
  }

  function Next(s: State, t: Step): State
    requires t.w < |s.phases|
  {
    match t
    case LookUp(w, name) =>
      var i := Find(s.items, name);
      if i == |s.items| then s.(phases := s.phases[w := Missed(name)])
      else s.(items := Lookup(s.items, name), phases := s.phases[w := Holding(s.items[i].id)])
    case Add(w, size, readOk) =>
      if !readOk || !s.phases[w].Missed? then s.(phases := s.phases[w := Idle])
      else
        var (items, ok) := Insert(s.items, s.maxSize, s.nextId, s.phases[w].name, size);
        s.(items := items, nextId := s.nextId + 1, phases := s.phases[w := Idle])
    case Done(w) =>
      var i := if s.phases[w].Holding? then FindId(s.items, s.phases[w].id) else |s.items|;
      if i < |s.items| then s.(items := Release(s.items, i), phases := s.phases[w := Idle])
      else s.(phases := s.phases[w := Idle])
  }

  function Holders(phases: seq<Phase>, id: nat): nat {
    if phases == [] then 0 else (if phases[0] == Holding(id) then 1 else 0) + Holders(phases[1..], id)
  }

  ghost predicate Distinct(items: Items) {
    forall i, j :: 0 <= i < j < |items| ==> items[i].id != items[j].id && items[i].name != items[j].name
  }

  ghost predicate Has(items: Items, id: nat) {
    exists i :: 0 <= i < |items| && items[i].id == id
  }

  /** Use counts are exactly the holders; a held entry is in the cache; names and identities are unique;
      the byte budget is kept. */
  ghost predicate Inv(s: State) {
    && Distinct(s.items)
    && (forall i :: 0 <= i < |s.items| ==> s.items[i].id < s.nextId && s.items[i].pins == Holders(s.phases, s.items[i].id))
    && (forall w :: 0 <= w < |s.phases| && s.phases[w].Holding? ==> Has(s.items, s.phases[w].id))
    && Total(s.items) <= s.maxSize
  }

  lemma {:induction false} HoldersAfter(phases: seq<Phase>, w: nat, p: Phase, id: nat)
    requires w < |phases|
    ensures Holders(phases[w := p], id) ==
      Holders(phases, id) - (if phases[w] == Holding(id) then 1 else 0) + (if p == Holding(id) then 1 else 0)
  {
    if w == 0 {
      assert phases[w := p][1..] == phases[1..];
    } else {
      assert phases[w := p][1..] == phases[1..][w - 1 := p];
      HoldersAfter(phases[1..], w - 1, p, id);
    }
  }

  lemma {:induction false} HoldersPositive(phases: seq<Phase>, w: nat, id: nat)
    requires w < |phases| && phases[w] == Holding(id)
    ensures Holders(phases, id) > 0
  {
    if w > 0 { HoldersPositive(phases[1..], w - 1, id); }
  }

  lemma {:induction false} NoHolders(phases: seq<Phase>, id: nat)
    requires forall w :: 0 <= w < |phases| ==> phases[w] != Holding(id)
    ensures Holders(phases, id) == 0
  {
    if phases != [] { NoHolders(phases[1..], id); }
  }

  lemma {:induction false} EvictMembers(items: Items, amount: int, evicted: int)
    requires Distinct(items)
    ensures var kept := EvictFrom(items, amount, evicted);
      && Distinct(kept)
      && (forall x :: x in kept ==> x in items)
      && (forall x :: x in items && x.pins > 0 ==> x in kept)
  {
    hide Distinct;
    if items != [] {
      var h, rest := items[0], items[1..];
      var e := if h.pins > 0 then evicted else evicted + h.size;
      assert items == [h] + rest;
      DistinctFirst(h, rest);
      EvictMembers(rest, amount, e);
      DistinctFirst(h, EvictFrom(rest, amount, e));
    } else {
      DistinctFirst(Item(0, "", 0, 0), []);
    }
  }

  lemma DistinctFirst(h: Item, rest: Items)
    ensures forall x :: x in [h] + rest <==> x == h || x in rest
    ensures Distinct([h] + rest) <==> Distinct(rest) && forall x :: x in rest ==> x.id != h.id && x.name != h.name
  {
    hide Distinct;
    if Distinct([h] + rest) { FirstDiffers(h, rest); }
    if Distinct(rest) && forall x :: x in rest ==> x.id != h.id && x.name != h.name { FirstAdded(h, rest); }
  }

  lemma FirstDiffers(h: Item, rest: Items)
    requires Distinct([h] + rest)
    ensures Distinct(rest) && forall x :: x in rest ==> x.id != h.id && x.name != h.name
  {
    var all := [h] + rest;
    assert all[0] == h && rest == all[1..];
    forall x | x in rest ensures x.id != h.id && x.name != h.name {
      var i :| 0 <= i < |rest| && rest[i] == x;
      assert all[i + 1] == x;
    }
  }

  lemma FirstAdded(h: Item, rest: Items)
    requires Distinct(rest) && forall x :: x in rest ==> x.id != h.id && x.name != h.name
    ensures Distinct([h] + rest)
  {
    assert forall i :: 0 <= i < |rest| ==> rest[i] in rest;
  }

  /** The reply's decrement finds its entry in the cache, with a positive count: the assert after it
      holds, and the entry has not been evicted meanwhile. */
  lemma HeldEntryIsLive(s: State, w: nat)
    requires Inv(s) && w < |s.phases| && s.phases[w].Holding?
    ensures var i := FindId(s.items, s.phases[w].id);
      i < |s.items| && s.items[i].pins > 0 && Release(s.items, i)[i].pins >= 0
  {
    HoldersPositive(s.phases, w, s.phases[w].id);
  }

  lemma LookUpKeeps(s: State, w: nat, name: string)
    requires Inv(s) && Enabled(s, LookUp(w, name))
    ensures Inv(Next(s, LookUp(w, name)))
  {
    hide Holders, Total, Find;
    var i := Find(s.items, name);
    var s' := Next(s, LookUp(w, name));
    forall id: nat { HoldersAfter(s.phases, w, s'.phases[w], id); }
    if i < |s.items| {
      var x := s.items[i].(pins := s.items[i].pins + 1);
      TotalWithout(s.items, i, x);
      MovedMembers(s.items, i, x);
    }
  }

  lemma MovedMembers(items: Items, i: nat, x: Item)
    requires Distinct(items) && i < |items| && x.id == items[i].id && x.name == items[i].name
    ensures var moved := Without(items, i) + [x];
      && Distinct(moved)
      && (forall k :: 0 <= k < |moved| ==> moved[k] == if k < i then items[k] else if k == |moved| - 1 then x else items[k + 1])
      && (forall id: nat :: Has(items, id) ==> Has(moved, id))
  {
    var moved := Without(items, i) + [x];
    forall id: nat | Has(items, id) ensures Has(moved, id) {
      var k :| 0 <= k < |items| && items[k].id == id;
      var m := if k < i then k else if k == i then |moved| - 1 else k - 1;
      assert moved[m].id == id;
    }
  }

  lemma DoneKeeps(s: State, w: nat)
    requires Inv(s) && Enabled(s, Done(w))
    ensures Inv(Next(s, Done(w)))
  {
    hide Holders, Total;
    var id := s.phases[w].id;
    var i := FindId(s.items, id);
    HeldEntryIsLive(s, w);
    var s' := Next(s, Done(w));
    forall m: nat { HoldersAfter(s.phases, w, Idle, m); }
    TotalWithout(s.items, i, s'.items[i]);
    forall m: nat | Has(s.items, m) ensures Has(s'.items, m) {
      var k :| 0 <= k < |s.items| && s.items[k].id == m;
      assert s'.items[k].id == m;
    }
  }

  lemma AddKeeps(s: State, w: nat, size: nat, readOk: bool)
    requires Inv(s) && Enabled(s, Add(w, size, readOk))
    ensures Inv(Next(s, Add(w, size, readOk)))
  {
    hide Holders, Total, Insert, Distinct, Has;
    forall m: nat { HoldersAfter(s.phases, w, Idle, m); }
    if readOk {
      var name := s.phases[w].name;
      InsertKeeps(s.items, s.maxSize, s.nextId, name, size);
      InsertMembers(s.items, s.maxSize, s.nextId, name, size);
      InsertHeld(s, s.phases[w := Idle], Insert(s.items, s.maxSize, s.nextId, name, size).0, name, size);
    }
  }

  /** After an insertion the use counts are still the holders, and what is held is still there. */
  lemma InsertHeld(s: State, phases: seq<Phase>, items: Items, name: string, size: nat)
    requires Inv(s)
    requires forall x :: x in items ==> x in s.items || x == Item(s.nextId, name, size, 0)
    requires forall x :: x in s.items && x.pins > 0 ==> x in items
    requires |phases| == |s.phases| && forall k :: 0 <= k < |phases| && phases[k].Holding? ==> phases[k] == s.phases[k]
    requires forall m: nat :: Holders(phases, m) == Holders(s.phases, m)
    ensures forall k :: 0 <= k < |items| ==> items[k].id < s.nextId + 1 && items[k].pins == Holders(phases, items[k].id)
    ensures forall k :: 0 <= k < |phases| && phases[k].Holding? ==> Has(items, phases[k].id)
  {
    hide Holders, Total, Distinct, FindId;
    forall k: nat | k < |s.phases| ensures s.phases[k] != Holding(s.nextId) {
      assert s.phases[k].Holding? ==> Has(s.items, s.phases[k].id);
    }
    NoHolders(s.phases, s.nextId);
    forall k | 0 <= k < |items| ensures items[k].id < s.nextId + 1 && items[k].pins == Holders(phases, items[k].id) {
      var x := items[k];
      assert x in items;
      if x in s.items { var j :| 0 <= j < |s.items| && s.items[j] == x; }
    }
    forall k | 0 <= k < |phases| && phases[k].Holding? ensures Has(items, phases[k].id) {
      HeldEntryIsLive(s, k);
      var x := s.items[FindId(s.items, s.phases[k].id)];
      assert x in items;
      var j :| 0 <= j < |items| && items[j] == x;
    }
  }

  lemma InsertMembers(items: Items, maxSize: nat, id: nat, name: string, size: nat)
    requires Distinct(items) && forall x :: x in items ==> x.id < id
    ensures var (items', ok) := Insert(items, maxSize, id, name, size);
      && Distinct(items')
      && (forall x :: x in items' ==> x in items || x == Item(id, name, size, 0))
      && (forall x :: x in items && x.pins > 0 ==> x in items')
  {
    hide Evict, Total, Distinct;
    var amount := size - (maxSize - Total(items));
    EvictedMembers(items, amount);
    FindNames(items, name);
    DistinctWith(items, items, id, name, size);
    DistinctWith(items, Evict(items, amount), id, name, size);
  }

  lemma EvictedMembers(items: Items, amount: int)
    requires Distinct(items)
    ensures var kept := Evict(items, amount);
      && Distinct(kept)
      && (forall x :: x in kept ==> x in items)
      && (forall x :: x in items && x.pins > 0 ==> x in kept)
  {
    hide Distinct, EvictFrom;
    EvictMembers(items, amount, 0);
  }

  lemma FindNames(items: Items, name: string)
    ensures Find(items, name) == |items| ==> forall x :: x in items ==> x.name != name
  {}

  /** A new entry with a new number and name keeps entries distinct. */
  lemma DistinctWith(items: Items, kept: Items, id: nat, name: string, size: nat)
    requires Distinct(kept) && (forall x :: x in kept ==> x in items) && (forall x :: x in items ==> x.id < id)
    ensures (forall x :: x in items ==> x.name != name) ==> Distinct(kept + [Item(id, name, size, 0)])
  {
    assert forall k :: 0 <= k < |kept| ==> kept[k] in kept;
  }

  lemma StepKeeps(s: State, t: Step)
    requires Inv(s) && Enabled(s, t)
    ensures Inv(Next(s, t))
  {
    match t
    case LookUp(w, name) => LookUpKeeps(s, w, name);
    case Add(w, size, readOk) => AddKeeps(s, w, size, readOk);
    case Done(w) => DoneKeeps(s, w);
  }

  /** A run: every step is taken by a request that is ready for it. */
  ghost predicate Run(states: seq<State>, steps: seq<Step>) {
    && |states| == |steps| + 1
    && forall i :: 0 <= i < |steps| ==> Enabled(states[i], steps[i]) && states[i + 1] == Next(states[i], steps[i])
  }

  // ----- what a step does -----

  /** A step concerns one request. A lookup hits exactly if an entry has the name, and then the request holds
      that entry; a request that missed and has read the file inserts it under the name it looked for, and is
      done; and a reply that is sent takes one pin from the entry held, and changes nothing else. */
  lemma StepExact(s: State, t: Step)
    requires Inv(s) && Enabled(s, t)
    ensures var s' := Next(s, t);
      && |s'.phases| == |s.phases| && s'.maxSize == s.maxSize
      && (forall w :: 0 <= w < |s.phases| && w != t.w ==> s'.phases[w] == s.phases[w])
      && match t
         case LookUp(w, name) =>
           if forall i :: 0 <= i < |s.items| ==> s.items[i].name != name then s' == s.(phases := s'.phases) && s'.phases[w] == Missed(name)
           else s'.phases[w].Holding? && Named(s.items, s'.phases[w].id, name) && s'.items == Lookup(s.items, name)
         case Add(w, size, readOk) =>
           s'.phases[w] == Idle &&
           s'.items == if readOk then Insert(s.items, s.maxSize, s.nextId, s.phases[w].name, size).0 else s.items
         case Done(w) =>
           && s'.phases[w] == Idle && |s'.items| == |s.items|
           && forall i :: 0 <= i < |s.items| ==>
                s'.items[i] == if s.items[i].id == s.phases[w].id then s.items[i].(pins := s.items[i].pins - 1) else s.items[i]
  {
    hide Insert, Lookup, Holders, Total;
    match t
    case LookUp(w, name) =>
    case Add(w, size, readOk) =>
    case Done(w) => HeldEntryIsLive(s, w);
  }

  ghost predicate Named(items: Items, id: nat, name: string) {
    exists i :: 0 <= i < |items| && items[i].id == id && items[i].name == name
  }

  function Empty(maxSize: nat, workers: nat): State {
    State([], maxSize, 0, seq(workers, i => Idle))
  }

  /** In every interleaving from the empty cache: use counts equal the holders, no held entry is ever
      unlinked, and the budget is kept. */
  lemma {:induction false} PinSafety(states: seq<State>, steps: seq<Step>, maxSize: nat, workers: nat, n: nat)
    requires Run(states, steps) && states[0] == Empty(maxSize, workers) && n <= |steps|
    ensures Inv(states[n])
  {
    if n == 0 {
      assert Total(states[0].items) == 0;
    } else {
      PinSafety(states, steps, maxSize, workers, n - 1);
      assert Enabled(states[n - 1], steps[n - 1]);
      StepKeeps(states[n - 1], steps[n - 1]);
    }
  }

  // ----- the order of the list -----

  /** When each entry was last inserted or hit, after `n` steps of a run. */
  ghost function LastUse(states: seq<State>, steps: seq<Step>, n: nat): map<nat, nat>
    requires Run(states, steps) && n <= |steps|
  {
    if n == 0 then map[]
    else
      var before := LastUse(states, steps, n - 1);
      var used := UsedBy(states[n - 1], steps[n - 1]);
      if used < 0 then before else before[used as nat := n]
  }

  /** The entry that a step inserts or hits, or -1. */
  ghost function UsedBy(s: State, t: Step): (id: int)
    ensures id >= -1
  {
    match t
    case LookUp(w, name) => var i := Find(s.items, name); if i < |s.items| then s.items[i].id else -1
    case Add(w, size, readOk) =>
      if readOk && w < |s.phases| && s.phases[w].Missed? && Insert(s.items, s.maxSize, s.nextId, s.phases[w].name, size).1 then s.nextId else -1
    case Done(w) => -1
  }

  ghost predicate InOrder(items: Items, used: map<nat, nat>) {
    && (forall i {:trigger items[i]} :: 0 <= i < |items| ==> items[i].id in used)
    && forall i, j {:trigger items[i], items[j]} :: 0 <= i < j < |items| ==> used[items[i].id] < used[items[j].id]
  }

  ghost predicate Before(used: map<nat, nat>, now: nat) {
    forall id {:trigger used[id]} :: id in used ==> used[id] < now
  }

  lemma {:induction false} EvictedInOrder(items: Items, amount: int, evicted: int, used: map<nat, nat>)
    requires Distinct(items) && InOrder(items, used)
    ensures InOrder(EvictFrom(items, amount, evicted), used)
  {
    hide InOrder, Distinct;
    if items != [] {
      var h, rest := items[0], items[1..];
      var e := if h.pins > 0 then evicted else evicted + h.size;
      OrderOfRest(items, used);
      EvictedInOrder(rest, amount, e, used);
      EvictMembers(rest, amount, e);
      OrderWithFirst(h, rest, EvictFrom(rest, amount, e), used);
    }
  }

  lemma OrderOfRest(items: Items, used: map<nat, nat>)
    requires items != [] && Distinct(items) && InOrder(items, used)
    ensures Distinct(items[1..]) && InOrder(items[1..], used) && items[0].id in used
    ensures forall x :: x in items[1..] ==> x.id in used && used[items[0].id] < used[x.id]
  {
    var rest := items[1..];
    assert forall i :: 0 <= i < |rest| ==> rest[i] == items[i + 1];
  }

  lemma OrderWithFirst(h: Item, rest: Items, kept: Items, used: map<nat, nat>)
    requires InOrder(kept, used) && h.id in used && forall x :: x in kept ==> x in rest
    requires forall x :: x in rest ==> x.id in used && used[h.id] < used[x.id]
    ensures InOrder([h] + kept, used)
  {
    assert forall i :: 0 <= i < |kept| ==> kept[i] in kept;
  }

  lemma LookedUpInOrder(items: Items, name: string, used: map<nat, nat>, now: nat)
    requires Distinct(items) && InOrder(items, used) && Before(used, now) && Find(items, name) < |items|
    ensures InOrder(Lookup(items, name), used[items[Find(items, name)].id := now])
  {
    hide Lookup, Find;
    var k := LookupExact(items, name);
    assert k == Find(items, name);
  }

  lemma InsertedInOrder(items: Items, maxSize: nat, id: nat, name: string, size: nat, used: map<nat, nat>, now: nat)
    requires Distinct(items) && InOrder(items, used) && Before(used, now) && forall x :: x in items ==> x.id < id
    ensures var (items', ok) := Insert(items, maxSize, id, name, size); InOrder(items', if ok then used[id := now] else used)
  {
    hide Evict, Total;
    EvictOrder(items, size - (maxSize - Total(items)), used, id);
    assert forall i :: 0 <= i < |items| ==> items[i] in items;
  }

  lemma EvictOrder(items: Items, amount: int, used: map<nat, nat>, id: nat)
    requires Distinct(items) && InOrder(items, used) && forall x :: x in items ==> x.id < id
    ensures InOrder(Evict(items, amount), used)
    ensures forall i :: 0 <= i < |Evict(items, amount)| ==> Evict(items, amount)[i].id < id
  {
    hide EvictFrom;
    EvictedInOrder(items, amount, 0, used);
    EvictMembers(items, amount, 0);
    forall i | 0 <= i < |Evict(items, amount)| ensures Evict(items, amount)[i].id < id {
      assert Evict(items, amount)[i] in Evict(items, amount);
    }
  }

  lemma StepInOrder(s: State, t: Step, used: map<nat, nat>, now: nat)
    requires Inv(s) && Enabled(s, t) && InOrder(s.items, used) && Before(used, now)
    ensures var id := UsedBy(s, t); InOrder(Next(s, t).items, if id < 0 then used else used[id as nat := now])
  {
    hide Insert, Lookup, Holders, Total;
    match t
    case LookUp(w, name) => if Find(s.items, name) < |s.items| { LookedUpInOrder(s.items, name, used, now); }
    case Add(w, size, readOk) =>
      assert forall x :: x in s.items ==> x.id < s.nextId;
      InsertedInOrder(s.items, s.maxSize, s.nextId, s.phases[w].name, size, used, now);
    case Done(w) =>
  }

  /** In every interleaving the list is in order of last insertion or hit, so that eviction, which takes
      unpinned entries from the front, takes the least recently used ones. */
  lemma {:induction false} LeastRecentlyUsedFirst(states: seq<State>, steps: seq<Step>, maxSize: nat, workers: nat, n: nat)
    requires Run(states, steps) && states[0] == Empty(maxSize, workers) && n <= |steps|
    ensures InOrder(states[n].items, LastUse(states, steps, n)) && Before(LastUse(states, steps, n), n + 1)
  {
    hide InOrder, Inv, UsedBy, Enabled;
    if n == 0 {
      NothingInOrder();
    } else {
      LeastRecentlyUsedFirst(states, steps, maxSize, workers, n - 1);
      PinSafety(states, steps, maxSize, workers, n - 1);
      assert Enabled(states[n - 1], steps[n - 1]);
      StepInOrder(states[n - 1], steps[n - 1], LastUse(states, steps, n - 1), n);
    }
  }

  lemma NothingInOrder()
    ensures InOrder([], map[])
  {}
}
