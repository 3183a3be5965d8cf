/** The cache object of webserver/server_thread.c: a table of hash chains and a list in order of use that
    index the same entries. Each method is one section under the cache lock. */
module WebCache {
  import opened CacheSpec
  import opened LruLists
  import opened HashChains

  class Cache {
    const capacity: nat
    const maxSize: nat
    const table: seq<Chain>
    const lru: LruList
    var size: int
    ghost var nextId: nat
    /** The headers and the entries of all chains. */
    ghost var cells: set<CacheEntry>

    function Bucket(name: string): (k: nat)
      requires capacity > 0
      ensures k < capacity
    {
      Hash(name) % capacity
    }

    /** The entries in order of last insertion or hit. */
    ghost function Entries(): seq<CacheEntry>
      reads lru
    {
      lru.Entries()
    }

    static ghost function ItemOf(e: CacheEntry): Item
      reads e`inUse
    {
      Item(e.id, e.name, e.size, e.inUse)
    }

    static ghost function ItemsOf(entries: seq<CacheEntry>): (items: Items)
      reads entries`inUse
      ensures |items| == |entries| && forall i :: 0 <= i < |entries| ==> items[i] == ItemOf(entries[i])
    {
      if entries == [] then [] else ItemsOf(entries[..|entries| - 1]) + [ItemOf(entries[|entries| - 1])]
    }

    ghost function View(): Items
      reads lru, Entries()`inUse
    {
      ItemsOf(Entries())
    }

    /** The chains are linked lists that share nothing, each with the names of its bucket. */
    ghost predicate TableOk()
      reads this`cells, table, cells`next
    {
      && capacity == |table| > 0
      && (forall j, k :: 0 <= j < k < capacity ==> table[j] != table[k] && table[j].header != table[k].header)
      && (forall j, k :: 0 <= j < capacity && 0 <= k < capacity ==> table[j].header !in table[k].entries)
      && (forall k :: 0 <= k < capacity ==> table[k].Cells() <= cells && table[k].Valid())
      && (forall k, e {:trigger e in table[k].entries} :: 0 <= k < capacity && e in table[k].entries ==> Bucket(e.name) == k)
    }

    /** Each entry is listed once, under a name and a number of its own. */
    ghost predicate Unique(entries: seq<CacheEntry>)
      reads this`nextId
    {
      UniqueBelow(entries, nextId)
    }

    static ghost predicate UniqueBelow(entries: seq<CacheEntry>, limit: nat) {
      && (forall i, j :: 0 <= i < j < |entries| ==> entries[i] != entries[j] && entries[i].name != entries[j].name && entries[i].id != entries[j].id)
      && (forall i :: 0 <= i < |entries| ==> entries[i].id < limit)
    }

    /** The chains hold exactly these entries. */
    ghost predicate Indexed(entries: seq<CacheEntry>)
      requires capacity == |table| > 0
      reads table
    {
      && (forall e :: e in entries ==> e in table[Bucket(e.name)].entries)
      && (forall k, e {:trigger e in table[k].entries} :: 0 <= k < capacity && e in table[k].entries ==> e in entries)
    }

    ghost predicate Valid()
      reads this, lru, lru.nodes, table, cells`next, Entries()`inUse
    {
      && capacity == |table| > 0 && TableOk() && lru.Valid() && Unique(Entries()) && Indexed(Entries())
      && size == Total(View()) <= maxSize
    }

    constructor (capacity: nat, maxSize: nat)
      requires capacity > 0
      ensures Valid() && View() == [] && this.capacity == capacity && this.maxSize == maxSize
    {
      var chains := MakeTable(capacity);
      this.capacity, this.maxSize, table := capacity, maxSize, chains;
      lru := new LruList();
      size, nextId, cells := 0, 0, set c | c in chains :: c.header;
      new;
      EmptyTable();
      NothingListed();
    }

    /** A header for each chain. */
    static method MakeTable(capacity: nat) returns (chains: seq<Chain>)
      ensures |chains| == capacity
      ensures forall k :: 0 <= k < |chains| ==> fresh(chains[k]) && chains[k].Valid() && chains[k].entries == []
      ensures forall j, k :: 0 <= j < k < |chains| ==> chains[j] != chains[k] && chains[j].header != chains[k].header
    {
      hide Chain.Valid;
      chains := [];
      while |chains| < capacity
        invariant |chains| <= capacity
        invariant forall k :: 0 <= k < |chains| ==> fresh(chains[k]) && fresh(chains[k].header) && chains[k].Valid() && chains[k].entries == []
        invariant forall j, k :: 0 <= j < k < |chains| ==> chains[j] != chains[k] && chains[j].header != chains[k].header
        decreases capacity - |chains|
      {
        var chain := new Chain();
        chains := chains + [chain];
      }
    }

    lemma EmptyTable()
      requires capacity == |table| > 0 && cells == set c | c in table :: c.header
      requires forall k :: 0 <= k < capacity ==> table[k].Valid() && table[k].entries == []
      requires forall j, k :: 0 <= j < k < capacity ==> table[j] != table[k] && table[j].header != table[k].header
      ensures TableOk()
    {
      hide Hash, Chain.Valid;
      forall k | 0 <= k < capacity ensures table[k].Cells() <= cells {
        assert table[k] in table;
      }
    }

    lemma NothingListed()
      requires lru.nodes == [] && capacity == |table| > 0 && forall k :: 0 <= k < capacity ==> table[k].entries == []
      ensures Unique(Entries()) && Indexed(Entries()) && View() == [] && Total(View()) == 0
    {
      hide Hash;
      assert Entries() == [];
    }

    /** The walk along one chain for a name, in `cache_lookup` and `cache_exists`. */
    method FindInChain(name: string) returns (found: CacheEntry?)
      requires Valid()
      ensures Valid() && View() == old(View()) && Entries() == old(Entries())
      ensures found != null ==> found in Entries() && found.name == name
      ensures found == null ==> forall e :: e in Entries() ==> e.name != name
    {
      hide Hash, Total, Unique, LruList.Valid;
      ghost var i;
      found, i := table[Bucket(name)].Find(name);
      assert found != null ==> found in table[Bucket(name)].entries;
      forall e | e in Entries() && found == null ensures e.name != name {
        assert e in table[Bucket(e.name)].entries;
      }
    }

    lemma FindIs(name: string, i: nat)
      requires Unique(Entries()) && i <= |Entries()|
      requires i < |Entries()| ==> Entries()[i].name == name
      requires i == |Entries()| ==> forall e :: e in Entries() ==> e.name != name
      ensures Find(View(), name) == i
    {
      var f := Find(View(), name);
      assert f < |Entries()| ==> View()[f].name == Entries()[f].name && Entries()[f] in Entries();
      assert i < |Entries()| ==> View()[i].name == Entries()[i].name;
    }

    // ----- a hit -----

    lemma TouchedView(items: Items, before: seq<CacheEntry>, i: nat)
      requires i < |before| == |items| && Entries() == ToEnd(before, i)
      requires forall k :: 0 <= k < |items| ==> items[k].id == before[k].id && items[k].name == before[k].name && items[k].size == before[k].size
      requires forall k :: 0 <= k < |items| ==> before[k].inUse == if k == i then items[k].pins + 1 else items[k].pins
      ensures View() == Without(items, i) + [items[i].(pins := items[i].pins + 1)]
    {
      hide ToEnd, ItemsOf, LruList.Entries;
      ToEndParts(before, i);
      var view, moved := View(), Without(items, i) + [items[i].(pins := items[i].pins + 1)];
      forall j: nat | j < |items| - 1 ensures view[j] == moved[j] {
        assert Entries()[j] == before[if j < i then j else j + 1];
      }
      assert Entries()[|items| - 1] == before[i];
    }

    lemma UniqueToEnd(before: seq<CacheEntry>, i: nat)
      requires Unique(before) && i < |before|
      ensures Unique(ToEnd(before, i)) && before[i] !in before[..i]
    {
      hide ToEnd;
      ToEndIs(before, i);
      var after := ToEnd(before, i);
      forall j, k | 0 <= j < k < |after| ensures after[j] != after[k] && after[j].name != after[k].name && after[j].id != after[k].id {
        assert after[j] == before[ToEndFrom(j, i, |before|)] && after[k] == before[ToEndFrom(k, i, |before|)];
      }
      forall j | 0 <= j < |after| ensures after[j].id < nextId {
        assert after[j] == before[ToEndFrom(j, i, |before|)];
      }
    }

    lemma IndexedSame(before: seq<CacheEntry>, after: seq<CacheEntry>)
      requires capacity == |table| > 0 && Indexed(before) && forall e :: e in after <==> e in before
      ensures Indexed(after)
    {
      hide Hash;
    }

    /** The hit itself: pin the entry and make it the most recent. */
    method Touch(entry: CacheEntry, ghost i: nat)
      requires Valid() && i < |Entries()| && Entries()[i] == entry
      modifies lru, lru.nodes, entry`inUse
      ensures Valid() && View() == Without(old(View()), i) + [old(View())[i].(pins := old(View())[i].pins + 1)]
      ensures entry in Entries() && entry.inUse == old(entry.inUse) + 1
    {
      hide Hash, Total, ToEnd, ItemsOf, TableOk, Indexed, Unique, LruList.Valid, Cache.Valid, Without, Cache.View,
        Cache.Entries, EntriesOf;
      ValidParts();
      Itemized();
      ghost var items, before := View(), Entries();
      UniqueToEnd(before, i);
      EntriesDiffer(before, i);
      ListEntries();
      EntriesToEnd(lru.nodes, i);
      entry.inUse := entry.inUse + 1;
      lru.MoveNodeToEnd(entry);
      ListEntries();
      ToEndIs(before, i);
      IndexedSame(before, Entries());
      TouchedView(items, before, i);
      TotalWithout(items, i, items[i].(pins := items[i].pins + 1));
      PartsValid();
    }

    lemma ListEntries()
      ensures Entries() == lru.Entries() == EntriesOf(lru.nodes) && |Entries()| == |lru.nodes|
      ensures forall k :: 0 <= k < |lru.nodes| ==> Entries()[k] == lru.nodes[k].entry
    {}

    lemma Itemized()
      ensures |View()| == |Entries()| && forall k :: 0 <= k < |View()| ==> View()[k] == ItemOf(Entries()[k])
    {
      hide Cache.Entries, ItemsOf;
    }

    lemma ValidParts()
      requires Valid()
      ensures capacity == |table| > 0 && TableOk() && lru.Valid() && Unique(Entries()) && Indexed(Entries())
      ensures size == Total(View()) <= maxSize
    {
      hide Hash, Total, TableOk, Indexed, Unique, LruList.Valid;
    }

    lemma PartsValid()
      requires capacity == |table| > 0 && TableOk() && lru.Valid() && Unique(Entries()) && Indexed(Entries())
      requires size == Total(View()) <= maxSize
      ensures Valid()
    {
      hide Hash, Total, TableOk, Indexed, Unique, LruList.Valid;
    }

    lemma EntriesDiffer(before: seq<CacheEntry>, i: nat)
      requires Unique(before) && i < |before|
      ensures forall k :: 0 <= k < |before| && k != i ==> before[k] != before[i]
    {}

    /** `cache_lookup`. */
    method CacheLookup(name: string) returns (r: CacheEntry?)
      requires Valid()
      modifies lru, lru.nodes, Entries()`inUse
      ensures Valid() && View() == Lookup(old(View()), name)
      ensures r == null <==> Find(old(View()), name) == |old(View())|
      ensures r != null ==> r in Entries() && r.name == name && r.inUse == old(r.inUse) + 1
    {
      hide Hash, Total, Find, ItemsOf, TableOk, Indexed, Unique, LruList.Valid, Cache.Valid, Cache.View, Lookup,
        Without;
      r := FindInChain(name);
      ValidUnique();
      LookupIs(View(), name);
      if r == null {
        FindIs(name, |Entries()|);
        return;
      }
      ghost var i :| 0 <= i < |Entries()| && Entries()[i] == r;
      FindIs(name, i);
      Touch(r, i);
    }

    lemma ValidUnique()
      requires Valid()
      ensures Unique(Entries()) && |View()| == |Entries()|
    {
      hide Hash, Total, TableOk, Indexed, Unique, LruList.Valid;
    }

    static lemma LookupIs(items: Items, name: string)
      ensures var i := Find(items, name);
        Lookup(items, name) == if i == |items| then items else Without(items, i) + [items[i].(pins := items[i].pins + 1)]
    {
      hide Find, Without;
    }

    // ----- eviction -----

    lemma ChainShrunk(chain: Chain, was: seq<CacheEntry>, target: CacheEntry)
      requires forall i, j :: 0 <= i < j < |was| ==> was[i] != was[j]
      requires target !in was ==> chain.entries == was
      requires forall i :: 0 <= i < |was| && was[i] == target ==> chain.entries == Dropped(was, i)
      ensures forall e :: e in chain.entries <==> e in was && e != target
    {
      if target in was {
        var i :| 0 <= i < |was| && was[i] == target;
        assert was == was[..i] + [was[i]] + was[i + 1..];
      }
    }

    /** The chains other than `key` share nothing with it. */
    lemma ChainOf(key: nat)
      requires TableOk() && key < capacity
      ensures capacity == |table|
      ensures table[key] in table && table[key].Valid() && table[key].Cells() <= cells
      ensures forall k :: 0 <= k < capacity && k != key ==> table[k] != table[key] && table[k].Cells() !! table[key].Cells()
    {
      hide Hash, Chain.Valid;
    }

    /** One chain has changed, and none of the cells of the others. */
    twostate lemma TableAfter(key: nat)
      requires old(TableOk()) && key < capacity && old(cells) <= cells
      requires forall k :: 0 <= k < capacity && k != key ==> table[k].entries == old(table[k].entries)
      requires forall k :: 0 <= k < capacity && k != key ==> old(table[k].Cells()) !! old(table[key].Cells())
      requires forall e :: e in old(cells) && e !in old(table[key].Cells()) ==> e.next == old(e.next)
      requires table[key].Valid() && table[key].Cells() <= cells
      requires forall e :: e in table[key].entries ==> e in old(table[key].entries) || (e !in old(cells) && Bucket(e.name) == key)
      ensures TableOk()
    {
      hide Hash, Chain.Valid, Chain.Cells;
      NamesAfter(key);
      forall k | 0 <= k < capacity && k != key ensures table[k].Cells() <= cells && table[k].Valid() {
        assert old(table[k].Valid()) && old(table[k].Cells()) <= old(cells);
        SameChain(table[k]);
      }
    }

    twostate lemma NamesAfter(key: nat)
      requires old(TableOk()) && key < capacity && old(cells) <= cells
      requires forall k :: 0 <= k < capacity && k != key ==> table[k].entries == old(table[k].entries)
      requires forall e :: e in table[key].entries ==> e in old(table[key].entries) || (e !in old(cells) && Bucket(e.name) == key)
      ensures capacity == |table| > 0
      ensures forall j, k :: 0 <= j < k < capacity ==> table[j] != table[k] && table[j].header != table[k].header
      ensures forall j, k :: 0 <= j < capacity && 0 <= k < capacity ==> table[j].header !in table[k].entries
      ensures forall k, e {:trigger e in table[k].entries} :: 0 <= k < capacity && e in table[k].entries ==> Bucket(e.name) == k
    {
      hide Hash, Chain.Valid, Chain.Cells;
      forall j | 0 <= j < capacity ensures table[j].header in old(cells) {
        assert table[j].header in old(table[j].Cells());
      }
    }

    twostate lemma SameChain(chain: Chain)
      requires old(chain.Valid()) && chain.entries == old(chain.entries)
      requires forall e :: e in old(chain.Cells()) ==> e.next == old(e.next)
      ensures chain.Valid() && chain.Cells() == old(chain.Cells())
    {}

    /** `remove_from_cache`: unlinks the entry from its chain and gives its bytes back. */
    method RemoveFromCache(target: CacheEntry)
      requires TableOk()
      modifies this`size, table, cells`next
      ensures TableOk() && cells == old(cells) && size == old(size) - if target in old(table[Bucket(target.name)].entries) then target.size else 0
      ensures forall k, e {:trigger e in table[k].entries} :: 0 <= k < capacity ==>
                (e in table[k].entries <==> e in old(table[k].entries) && e != target)
    {
      hide Hash, Dropped, TableOk, Chain.Valid;
      TableSize();
      Buckets();
      var key := Bucket(target.name);
      ChainOf(key);
      ghost var was := table[key].entries;
      table[key].NoRepeats();
      var hit := table[key].Remove(target);
      ChainShrunk(table[key], was, target);
      TableAfter(key);
      if hit {
        size := size - target.size;
      }
    }

    lemma Buckets()
      requires TableOk()
      ensures forall k, e {:trigger e in table[k].entries} :: 0 <= k < capacity && e in table[k].entries ==> Bucket(e.name) == k
    {
      hide Hash, Chain.Valid, Chain.Cells;
    }

    lemma TableSize()
      requires TableOk()
      ensures capacity == |table| > 0
    {
      hide Hash, Chain.Valid, Chain.Cells;
    }

    lemma UniqueDropped(before: seq<CacheEntry>, i: nat)
      requires Unique(before) && i < |before|
      ensures Unique(Dropped(before, i)) && forall e :: e in Dropped(before, i) <==> e in before && e != before[i]
    {
      assert before == before[..i] + [before[i]] + before[i + 1..];
    }

    lemma ViewDropped(items: Items, before: seq<CacheEntry>, i: nat)
      requires i < |before| && items == ItemsOf(before)
      ensures ItemsOf(Dropped(before, i)) == Without(items, i)
    {
      hide ItemsOf;
      var view, kept := ItemsOf(Dropped(before, i)), Without(items, i);
      forall j | 0 <= j < |view| ensures view[j] == kept[j] {}
    }

    lemma InItsChain(e: CacheEntry)
      requires capacity == |table| > 0 && Indexed(Entries()) && e in Entries()
      ensures e in table[Bucket(e.name)].entries
    {}

    lemma NodesDropped(nodes: seq<LruNode>, i: nat)
      requires i < |nodes|
      ensures forall n :: n in Dropped(nodes, i) ==> n in nodes
    {}

    twostate lemma IndexedAfter(target: CacheEntry)
      requires capacity == |table| > 0 && old(Indexed(Entries()))
      requires forall e :: e in Entries() <==> e in old(Entries()) && e != target
      requires forall k, e {:trigger e in table[k].entries} :: 0 <= k < capacity ==>
                 (e in table[k].entries <==> e in old(table[k].entries) && e != target)
      ensures Indexed(Entries())
    {
      hide Hash;
    }

    /** The part of `cache_evict` that removes the entry where the walk stands, from the list and from its
        chain; the walk goes on at the next node, behind the same one. */
    method RemoveHere(current: LruNode, prev: LruNode?, ghost i: nat) returns (next: LruNode?)
      requires Valid() && lru.Stands(current, prev, i) && i < |Entries()|
      modifies this`size, lru, lru.nodes, table, cells`next
      ensures Valid() && View() == Without(old(View()), i) && lru.Stands(next, prev, i) && cells == old(cells)
      ensures |Entries()| == |old(Entries())| - 1 && forall e :: e in Entries() ==> e in old(Entries())
      ensures forall n :: n in lru.nodes ==> n in old(lru.nodes)
    {
      hide Hash, Total, ItemsOf, TableOk, Indexed, Unique, LruList.Valid, Dropped;
      var toDestroy := current.entry;
      assert Entries()[i] == toDestroy;
      NodesDropped(lru.nodes, i);
      InItsChain(toDestroy);
      ghost var items, before := View(), Entries();
      EntriesDropped(lru.nodes, i);
      next := lru.RemoveNode(current, prev, i);
      RemoveFromCache(toDestroy);
      UniqueDropped(before, i);
      ViewDropped(items, before, i);
      IndexedAfter(toDestroy);
      TotalWithout(items, i, items[i]);
    }

    /** `cache_evict`. */
    method CacheEvict(amount: int) returns (evicted: int)
      requires Valid() && amount > 0
      modifies this`size, lru, lru.nodes, table, cells`next
      ensures Valid() && View() == Evict(old(View()), amount) && cells == old(cells)
      ensures forall n :: n in lru.nodes ==> n in old(lru.nodes)
      ensures forall e :: e in Entries() ==> e in old(Entries())
    {
      hide Hash, Total, EvictFrom, Walking, ItemsOf, TableOk, Indexed, Unique, LruList.Valid, LruList.Stands;
      evicted := 0;
      var current: LruNode?, prev: LruNode? := lru.head, null;
      ghost var i := 0;
      ghost var goal := Evict(View(), amount);
      lru.StandsAtHead();
      WalkStart(View(), amount);
      while current != null
        invariant Valid() && lru.Stands(current, prev, i) && evicted < amount && cells == old(cells)
        invariant Walking(View(), i, amount, evicted, goal)
        invariant forall n :: n in lru.nodes ==> n in old(lru.nodes)
        invariant forall e :: e in Entries() ==> e in old(Entries())
        decreases |Entries()| - i
      {
        lru.StandsAt(current, prev, i);
        WalkStep(View(), i, amount, evicted, goal);
        if current.entry.inUse > 0 {
          lru.StandsNext(current, prev, i);
          prev, current := current, current.next;
          i := i + 1;
        } else {
          evicted := evicted + current.entry.size;
          assert forall k :: 0 <= k < |lru.nodes| ==> lru.nodes[k] in old(lru.nodes);
          current := RemoveHere(current, prev, i);
          if evicted >= amount {
            return;
          }
        }
      }
      lru.StandsAt(current, prev, i);
      WalkEnd(View(), amount, evicted, goal);
    }

    /** `goal` is what the walk leaves when it goes on from position `i`. */
    static ghost predicate Walking(items: Items, i: nat, amount: int, evicted: int, goal: Items) {
      i <= |items| && items[..i] + EvictFrom(items[i..], amount, evicted) == goal
    }

    static lemma WalkStart(items: Items, amount: int)
      ensures Walking(items, 0, amount, 0, Evict(items, amount))
    {
      assert items[0..] == items;
    }

    static lemma WalkStep(items: Items, i: nat, amount: int, evicted: int, goal: Items)
      requires Walking(items, i, amount, evicted, goal) && i < |items|
      ensures items[i].pins > 0 ==> Walking(items, i + 1, amount, evicted, goal)
      ensures items[i].pins <= 0 ==>
                if evicted + items[i].size >= amount then Without(items, i) == goal
                else Walking(Without(items, i), i, amount, evicted + items[i].size, goal)
    {
      assert items[i..][1..] == items[i + 1..];
      assert items[..i] + [items[i]] == items[..i + 1];
      assert Without(items, i)[..i] == items[..i] && Without(items, i)[i..] == items[i + 1..];
    }

    static lemma WalkEnd(items: Items, amount: int, evicted: int, goal: Items)
      requires Walking(items, |items|, amount, evicted, goal)
      ensures items == goal
    {}

    // ----- insertion -----

    /** The entry with the number that has just been given out. */
    lemma UniqueAdded(before: seq<CacheEntry>, entry: CacheEntry)
      requires nextId > 0 && UniqueBelow(before, nextId - 1)
      requires entry !in before && entry.id == nextId - 1 && forall e :: e in before ==> e.name != entry.name
      ensures Unique(before + [entry])
    {
      assert forall i :: 0 <= i < |before| ==> before[i] in before;
    }

    twostate lemma IndexedWith(added: CacheEntry)
      requires capacity == |table| > 0 && old(Indexed(Entries()))
      requires forall e :: e in Entries() <==> e in old(Entries()) || e == added
      requires forall k, e {:trigger e in table[k].entries} :: 0 <= k < capacity ==>
                 (e in table[k].entries <==> e in old(table[k].entries) || (k == Bucket(added.name) && e == added))
      ensures Indexed(Entries())
    {
      hide Hash;
    }

    lemma ViewAdded(items: Items, before: seq<CacheEntry>, entry: CacheEntry)
      requires items == ItemsOf(before)
      ensures ItemsOf(before + [entry]) == items + [ItemOf(entry)]
    {
      assert (before + [entry])[..|before|] == before;
    }

    /** The entry joins the end of its chain. */
    method AddToChain(entry: CacheEntry)
      requires TableOk() && entry !in cells && entry.next == null
      modifies this`cells, table, cells`next
      ensures TableOk() && cells == old(cells) + {entry}
      ensures forall k, e {:trigger e in table[k].entries} :: 0 <= k < capacity ==>
                (e in table[k].entries <==> e in old(table[k].entries) || (k == Bucket(entry.name) && e == entry))
    {
      hide Hash, TableOk, Chain.Valid;
      TableSize();
      var key := Bucket(entry.name);
      ChainOf(key);
      cells := cells + {entry};
      table[key].Append(entry);
      TableAfter(key);
    }

    twostate lemma SameItems(entries: seq<CacheEntry>)
      requires forall i :: 0 <= i < |entries| ==> entries[i].inUse == old(entries[i].inUse)
      ensures ItemsOf(entries) == old(ItemsOf(entries))
    {
      hide ItemsOf;
      assert |ItemsOf(entries)| == |old(ItemsOf(entries))|;
      forall i | 0 <= i < |entries| ensures ItemsOf(entries)[i] == old(ItemsOf(entries))[i] {}
    }

    lemma TotalAdded(items: Items, x: Item)
      ensures Total(items + [x]) == Total(items) + x.size
    {
      TotalSplit(items, [x]);
      TotalOne(x);
    }

    lemma EntryIsCell(e: CacheEntry)
      requires TableOk() && Indexed(Entries()) && e in Entries()
      ensures e in cells
    {
      hide Hash, Chain.Valid;
      assert e in table[Bucket(e.name)].entries;
    }

    /** The end of `cache_insert`: the new entry at the end of its chain and of the list. */
    method Enlist(entry: CacheEntry)
      requires Valid() && size + entry.size <= maxSize && forall e :: e in Entries() ==> e.name != entry.name
      requires entry !in cells && entry.next == null && entry.id == nextId
      modifies this, lru, lru.nodes, table, cells`next
      ensures Valid() && View() == old(View()) + [ItemOf(entry)]
      ensures nextId == old(nextId) + 1 && cells == old(cells) + {entry}
      ensures forall n :: n in lru.nodes ==> n in old(lru.nodes) || fresh(n)
    {
      hide Hash, Total, ItemsOf, TableOk, Indexed, Unique, Cache.UniqueBelow, LruList.Valid, EntriesOf, Cache.Valid;
      ValidParts();
      ghost var items, before := View(), Entries();
      if entry in before { EntryIsCell(entry); }
      UniqueIs(before);
      AddToChain(entry);
      size := size + entry.size;
      assert lru.nodes == old(lru.nodes);
      lru.Add(entry);
      nextId := nextId + 1;
      UniqueAdded(before, entry);
      SameItems(before);
      ViewAdded(items, before, entry);
      IndexedWith(entry);
      TotalAdded(items, ItemOf(entry));
      PartsValid();
    }

    lemma UniqueIs(before: seq<CacheEntry>)
      ensures Unique(before) <==> UniqueBelow(before, nextId)
    {}

    method Append(name: string, fileSize: nat)
      requires Valid() && size + fileSize <= maxSize && forall e :: e in Entries() ==> e.name != name
      modifies this, lru, lru.nodes, table, cells`next
      ensures Valid() && View() == old(View()) + [Item(old(nextId), name, fileSize, 0)]
      ensures nextId == old(nextId) + 1
      ensures forall n :: n in lru.nodes ==> n in old(lru.nodes) || fresh(n)
      ensures forall e :: e in cells ==> e in old(cells) || fresh(e)
    {
      hide Hash, Total, ItemsOf, TableOk, Indexed, Unique, LruList.Valid;
      var entry := new CacheEntry(nextId, name, fileSize);
      Enlist(entry);
    }

    /** The decrement at the end of a request that hit. */
    method CacheRelease(entry: CacheEntry, ghost i: nat)
      requires Valid() && i < |Entries()| && Entries()[i] == entry && entry.inUse > 0
      modifies entry`inUse
      ensures Valid() && View() == Release(old(View()), i) && entry.inUse >= 0
    {
      hide Hash, Total, ItemsOf, TableOk, Indexed, LruList.Valid;
      ghost var items := View();
      EntriesDiffer(Entries(), i);
      entry.inUse := entry.inUse - 1;
      assert entry.inUse >= 0;
      ReleasedView(items, i);
      TotalWithout(items, i, items[i].(pins := items[i].pins - 1));
    }

    lemma ReleasedView(items: Items, i: nat)
      requires |items| == |Entries()| && i < |items| && items[i] == ItemOf(Entries()[i]).(pins := ItemOf(Entries()[i]).pins + 1)
      requires forall k :: 0 <= k < |items| && k != i ==> items[k] == ItemOf(Entries()[k])
      ensures View() == Release(items, i)
    {
      hide ItemsOf;
    }

    /** `cache_insert`. */
    method CacheInsert(name: string, fileSize: nat) returns (ok: bool)
      requires Valid()
      modifies this, lru, lru.nodes, table, cells`next
      ensures Valid() && (View(), ok) == Insert(old(View()), maxSize, old(nextId), name, fileSize)
      ensures old(nextId) <= nextId
      ensures forall n :: n in lru.nodes ==> n in old(lru.nodes) || fresh(n)
      ensures forall e :: e in cells ==> e in old(cells) || fresh(e)
    {
      hide Hash, Total, Find, Evict, ItemsOf, TableOk, Indexed, Unique, LruList.Valid;
      ok := false;
      var found := FindInChain(name);
      if found != null {
        ghost var i :| 0 <= i < |Entries()| && Entries()[i] == found;
        FindIs(name, i);
        return;
      }
      FindIs(name, |Entries()|);
      if fileSize > maxSize {
        return;
      }
      if size + fileSize > maxSize {
        var evicted := CacheEvict(fileSize - (maxSize - size));
        if size + fileSize > maxSize {
          return;
        }
      }
      assert forall k :: 0 <= k < |lru.nodes| ==> lru.nodes[k] in old(lru.nodes);
      Append(name, fileSize);
      ok := true;
    }
  }
}
