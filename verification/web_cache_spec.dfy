/** The web server's file cache as a list of items in order of last insertion or hit, and what each
    operation of webserver/server_thread.c does to it. */
module CacheSpec {

  /** One cached file: `id` tells apart entries that have carried the same name at different times. */
  datatype Item = Item(id: nat, name: string, size: nat, pins: int)

  type Items = seq<Item>

  function Total(items: Items): nat {
    if items == [] then 0 else items[0].size + Total(items[1..])
  }

  function Unpinned(items: Items): Items {
    if items == [] then []
    else (if items[0].pins > 0 then [] else [items[0]]) + Unpinned(items[1..])
  }

  function Pinned(items: Items): Items {
    if items == [] then []
    else (if items[0].pins > 0 then [items[0]] else []) + Pinned(items[1..])
  }

  /** Position of a name, or the length of the list. */
  function Find(items: Items, name: string): (i: nat)
    ensures i <= |items|
    ensures i < |items| ==> items[i].name == name
    ensures forall k :: 0 <= k < i ==> items[k].name != name
  {
    if items == [] || items[0].name == name then 0 else 1 + Find(items[1..], name)
  }

  function Without(items: Items, i: nat): Items
    requires i < |items|
  {
    items[..i] + items[i + 1..]
  }

  /** `cache_lookup`: a hit pins the entry and makes it the most recent one. */
  function Lookup(items: Items, name: string): Items {
    var i := Find(items, name);
    if i == |items| then items else Without(items, i) + [items[i].(pins := items[i].pins + 1)]
  }

  /** The decrement after the reply has been sent. */
  function Release(items: Items, i: nat): Items
    requires i < |items|
  {
    items[i := items[i].(pins := items[i].pins - 1)]
  }

  /** The walk of `cache_evict` over the rest of the list, `evicted` bytes being gone already. */
  function EvictFrom(items: Items, amount: int, evicted: int): Items {
    if items == [] then []
    else if items[0].pins > 0 then [items[0]] + EvictFrom(items[1..], amount, evicted)
    else if evicted + items[0].size >= amount then items[1..]
    else EvictFrom(items[1..], amount, evicted + items[0].size)
  }

  function Evict(items: Items, amount: int): Items {
    EvictFrom(items, amount, 0)
  }

  /** `cache_insert`. */
  function Insert(items: Items, maxSize: nat, id: nat, name: string, size: nat): (Items, bool) {
    if Find(items, name) < |items| then (items, false)
    else if size > maxSize then (items, false)
    else
      var kept := if Total(items) + size > maxSize then Evict(items, size - (maxSize - Total(items))) else items;
      if Total(kept) + size > maxSize then (kept, false)
      else (kept + [Item(id, name, size, 0)], true)
  }

  /** A miss changes nothing; a hit moves one entry behind all others, which keep their order, with one more
      pin and otherwise as it was. */
  lemma LookupExact(items: Items, name: string) returns (i: nat)
    ensures i <= |items| && (i == |items| <==> forall k :: 0 <= k < |items| ==> items[k].name != name)
    ensures i == |items| ==> Lookup(items, name) == items
    ensures var items' := Lookup(items, name);
      i < |items| ==>
        && |items'| == |items| && items[i].name == name
        && (forall k :: 0 <= k < i ==> items[k].name != name && items'[k] == items[k])
        && (forall k {:trigger items'[k]} :: i <= k < |items| - 1 ==> items'[k] == items[k + 1])
        && items'[|items| - 1] == Item(items[i].id, name, items[i].size, items[i].pins + 1)
  {
    hide Without, Find;
    i := FoundAt(items, name);
    if i < |items| { MovedLast(items, i, items[i].(pins := items[i].pins + 1)); }
  }

  lemma FoundAt(items: Items, name: string) returns (i: nat)
    ensures i == Find(items, name) <= |items| && forall k :: 0 <= k < i ==> items[k].name != name
    ensures i < |items| ==> items[i].name == name
  {
    hide Without;
    i := Find(items, name);
  }

  lemma MovedLast(items: Items, i: nat, x: Item)
    requires i < |items|
    ensures var items' := Without(items, i) + [x];
      && |items'| == |items| && items'[|items| - 1] == x
      && (forall k :: 0 <= k < i ==> items'[k] == items[k])
      && (forall k {:trigger items'[k]} :: i <= k < |items| - 1 ==> items'[k] == items[k + 1])
  {}

  // ----- exact eviction -----

  /** The number of leading items whose sizes first reach the amount, or all of them. */
  function Reaching(items: Items, amount: int): (k: nat)
    ensures k <= |items|
  {
    if items == [] then 0
    else if items[0].size >= amount then 1
    else 1 + Reaching(items[1..], amount - items[0].size)
  }

  lemma TotalSplit(a: Items, b: Items)
    ensures Total(a + b) == Total(a) + Total(b)
  {
    if a == [] {
      assert a + b == b;
    } else {
      assert (a + b)[1..] == a[1..] + b;
      TotalSplit(a[1..], b);
    }
  }

  /** Moving, updating or removing one item. */
  lemma TotalWithout(items: Items, i: nat, x: Item)
    requires i < |items| && x.size == items[i].size
    ensures Total(Without(items, i)) == Total(items) - x.size
    ensures Total(Without(items, i) + [x]) == Total(items) && Total(items[i := x]) == Total(items)
  {
    hide Total;
    var a, y, b := items[..i], items[i], items[i + 1..];
    assert items == a + ([y] + b) && items[i := x] == a + ([x] + b);
    TotalSplit(a, [y] + b);
    TotalSplit([y], b);
    TotalSplit(a, b);
    TotalSplit(a + b, [x]);
    TotalSplit(a, [x] + b);
    TotalSplit([x], b);
    TotalOne(x);
    TotalOne(y);
  }

  lemma TotalOne(x: Item)
    ensures Total([x]) == x.size
  {
    assert Total([x][1..]) == 0;
  }

  lemma PinnedUnpinnedTotal(items: Items)
    ensures Total(Pinned(items)) + Total(Unpinned(items)) == Total(items)
  {
    if items != [] {
      PinnedUnpinnedTotal(items[1..]);
      var h := items[0];
      TotalSplit([h], Pinned(items[1..]));
      TotalSplit([h], Unpinned(items[1..]));
      assert [] + Pinned(items[1..]) == Pinned(items[1..]) && [] + Unpinned(items[1..]) == Unpinned(items[1..]);
    }
  }

  /** `Reaching` is the least number of items that reaches the amount. */
  lemma {:induction false} ReachingIsLeast(items: Items, amount: int)
    requires amount > 0
    ensures var k := Reaching(items, amount);
      (Total(items) >= amount ==> Total(items[..k]) >= amount) &&
      (Total(items) < amount ==> k == |items|) &&
      (forall m :: 0 <= m < k ==> Total(items[..m]) < amount)
  {
    if items != [] {
      var rest := items[1..];
      var k := Reaching(items, amount);
      if items[0].size < amount {
        ReachingIsLeast(rest, amount - items[0].size);
        assert items[..k] == [items[0]] + rest[..k - 1];
        TotalSplit([items[0]], rest[..k - 1]);
        forall m | 0 <= m < k ensures Total(items[..m]) < amount {
          if m > 0 {
            assert items[..m] == [items[0]] + rest[..m - 1];
            TotalSplit([items[0]], rest[..m - 1]);
          }
        }
      } else {
        assert items[..1] == [items[0]];
        TotalSplit([items[0]], []);
      }
    }
  }

  /** Eviction removes exactly the shortest run of unpinned items, in list order, whose sizes reach the
      amount, or all of them when they fall short; pinned items stay, and order is kept. */
  lemma {:induction false} EvictIsExact(items: Items, amount: int, evicted: int)
    requires evicted < amount
    ensures var kept := EvictFrom(items, amount, evicted);
      && Pinned(kept) == Pinned(items)
      && Unpinned(kept) == Unpinned(items)[Reaching(Unpinned(items), amount - evicted)..]
  {
    if items != [] {
      var h, rest := items[0], items[1..];
      assert [] + Pinned(rest) == Pinned(rest) && [] + Unpinned(rest) == Unpinned(rest);
      if h.pins > 0 {
        EvictIsExact(rest, amount, evicted);
        assert ([h] + EvictFrom(rest, amount, evicted))[1..] == EvictFrom(rest, amount, evicted);
      } else if evicted + h.size < amount {
        EvictIsExact(rest, amount, evicted + h.size);
        assert Unpinned(items)[1..] == Unpinned(rest);
      } else {
        assert Unpinned(items)[1..] == Unpinned(rest);
      }
    }
  }

  lemma TotalAfterEvict(items: Items, amount: int)
    requires amount > 0
    ensures var kept := Evict(items, amount);
      Total(kept) == Total(Pinned(items)) + Total(Unpinned(items)[Reaching(Unpinned(items), amount)..])
  {
    EvictIsExact(items, amount, 0);
    PinnedUnpinnedTotal(Evict(items, amount));
  }

  /** Insertion succeeds if and only if the name is new and the file fits beside the pinned ones. */
  lemma InsertSucceedsIff(items: Items, maxSize: nat, id: nat, name: string, size: nat)
    requires Total(items) <= maxSize
    ensures Insert(items, maxSize, id, name, size).1 <==>
              Find(items, name) == |items| && size + Total(Pinned(items)) <= maxSize
  {
    PinnedUnpinnedTotal(items);
    var amount := size - (maxSize - Total(items));
    if amount > 0 {
      var u := Unpinned(items);
      TotalAfterEvict(items, amount);
      ReachingIsLeast(u, amount);
      var k := Reaching(u, amount);
      assert u == u[..k] + u[k..];
      TotalSplit(u[..k], u[k..]);
    }
  }

  /** The list without its first `k` unpinned items. */
  function Beyond(items: Items, k: nat): Items {
    if items == [] || k == 0 then items
    else if items[0].pins > 0 then [items[0]] + Beyond(items[1..], k)
    else Beyond(items[1..], k - 1)
  }

  /** The pinned items all stay, and of the unpinned ones all but the first `k`. */
  lemma {:induction false} BeyondParts(items: Items, k: nat)
    requires k <= |Unpinned(items)|
    ensures Pinned(Beyond(items, k)) == Pinned(items) && Unpinned(Beyond(items, k)) == Unpinned(items)[k..]
  {
    if items != [] && k > 0 {
      var h, rest := items[0], items[1..];
      assert [] + Pinned(rest) == Pinned(rest) && [] + Unpinned(rest) == Unpinned(rest);
      if h.pins > 0 {
        BeyondParts(rest, k);
        assert ([h] + Beyond(rest, k))[1..] == Beyond(rest, k);
      } else {
        assert Unpinned(items) == [h] + Unpinned(rest);
        BeyondParts(rest, k - 1);
        assert Unpinned(items)[k..] == Unpinned(rest)[k - 1..];
      }
    }
  }

  lemma BeyondTotal(items: Items, k: nat)
    requires k <= |Unpinned(items)|
    ensures Total(Beyond(items, k)) + Total(Unpinned(items)[..k]) == Total(items)
  {
    hide Total, Pinned, Unpinned, Beyond;
    var u := Unpinned(items);
    BeyondParts(items, k);
    PinnedUnpinnedTotal(items);
    PinnedUnpinnedTotal(Beyond(items, k));
    TotalSplit(u[..k], u[k..]);
    assert u == u[..k] + u[k..];
  }

  lemma {:induction false} EvictIsBeyond(items: Items, amount: int, evicted: int)
    requires evicted < amount
    ensures EvictFrom(items, amount, evicted) == Beyond(items, Reaching(Unpinned(items), amount - evicted))
  {
    if items != [] {
      var h, rest := items[0], items[1..];
      assert [] + Unpinned(rest) == Unpinned(rest);
      if h.pins > 0 {
        EvictIsBeyond(rest, amount, evicted);
        if Reaching(Unpinned(rest), amount - evicted) == 0 { assert [h] + rest == items; }
      } else {
        assert Unpinned(items)[0] == h && Unpinned(items)[1..] == Unpinned(rest);
        if evicted + h.size < amount { EvictIsBeyond(rest, amount, evicted + h.size); }
      }
    }
  }

  /** Whether a file of `size` bytes fits once the first `k` unpinned items are gone. */
  predicate Fits(items: Items, maxSize: nat, size: nat, k: nat) {
    Total(Beyond(items, k)) + size <= maxSize
  }

  /** Exactly which items survive an insertion, and what is added. A name that is there and a file larger than
      the cache change nothing. Otherwise the least number of unpinned items, from the front of the list, makes
      way for the file, none if it fits beside everything; if it does not fit even when all of them are gone,
      they are gone and the file is not added. */
  lemma InsertExact(items: Items, maxSize: nat, id: nat, name: string, size: nat) returns (k: nat)
    requires Total(items) <= maxSize
    ensures k <= |Unpinned(items)|
    ensures var (items', ok) := Insert(items, maxSize, id, name, size);
      if (exists i :: 0 <= i < |items| && items[i].name == name) || size > maxSize then items' == items && !ok
      else
        && (forall m :: 0 <= m < k ==> !Fits(items, maxSize, size, m))
        && (Fits(items, maxSize, size, k) || k == |Unpinned(items)|)
        && ok == Fits(items, maxSize, size, k)
        && items' == Beyond(items, k) + if ok then [Item(id, name, size, 0)] else []
  {
    hide Total, Pinned, Unpinned;
    var amount := size - (maxSize - Total(items));
    var u := Unpinned(items);
    k := if amount > 0 then Reaching(u, amount) else 0;
    if amount > 0 {
      EvictIsBeyond(items, amount, 0);
      ReachingIsLeast(u, amount);
      assert u[..|u|] == u;
      forall m | 0 <= m <= k ensures Fits(items, maxSize, size, m) <==> Total(u[..m]) >= amount { BeyondTotal(items, m); }
    }
  }

  /** Whatever happens, the byte budget is kept and nothing but unpinned items disappears. */
  lemma InsertKeeps(items: Items, maxSize: nat, id: nat, name: string, size: nat)
    requires Total(items) <= maxSize
    ensures var (items', ok) := Insert(items, maxSize, id, name, size);
      && Total(items') <= maxSize
      && Pinned(items') == Pinned(items)
      && (ok ==> items' != [] && items'[|items'| - 1] == Item(id, name, size, 0))
  {
    hide Total, Pinned, Evict, Find;
    var (items', ok) := Insert(items, maxSize, id, name, size);
    var amount := size - (maxSize - Total(items));
    var kept := if amount > 0 then Evict(items, amount) else items;
    if amount > 0 { EvictKeeps(items, amount); }
    TotalSplit(kept, [Item(id, name, size, 0)]);
    TotalOne(Item(id, name, size, 0));
    PinnedSplit(kept, [Item(id, name, size, 0)]);
    PinnedNone(Item(id, name, size, 0));
  }

  /** Eviction disposes of unpinned items only. */
  lemma EvictKeeps(items: Items, amount: int)
    requires amount > 0
    ensures Total(Evict(items, amount)) <= Total(items) && Pinned(Evict(items, amount)) == Pinned(items)
  {
    hide Total, Pinned, Unpinned, Reaching;
    EvictIsExact(items, amount, 0);
    PinnedUnpinnedTotal(items);
    TotalAfterEvict(items, amount);
    var u := Unpinned(items);
    var k := Reaching(u, amount);
    assert u == u[..k] + u[k..];
    TotalSplit(u[..k], u[k..]);
  }

  lemma PinnedNone(x: Item)
    ensures x.pins == 0 ==> Pinned([x]) == []
  {
    assert [x][1..] == [];
  }

  lemma PinnedSplit(a: Items, b: Items)
    ensures Pinned(a + b) == Pinned(a) + Pinned(b)
  {
    if a == [] {
      assert a + b == b;
    } else {
      assert (a + b)[1..] == a[1..] + b;
      PinnedSplit(a[1..], b);
    }
  }
}
