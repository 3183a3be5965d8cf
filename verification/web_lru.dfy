/** The entries of the file cache, and the linked list that keeps them in order of use
    (webserver/server_thread.c). */
module LruLists {

  /** `struct cache_entry`, linked into its hash chain by `next`; also the header of a chain, whose name
      and size nobody looks at. */
  class CacheEntry {
    ghost const id: nat
    const name: string
    const size: nat
    var inUse: int
    var next: CacheEntry?

    constructor (ghost id: nat, name: string, size: nat)
      ensures this.id == id && this.name == name && this.size == size && inUse == 0 && next == null
    {
      this.id, this.name, this.size, this.inUse, this.next := id, name, size, 0, null;
    }
  }

  /** `struct lru_ele`. */
  class LruNode {
    const entry: CacheEntry
    var next: LruNode?

    constructor (entry: CacheEntry)
      ensures this.entry == entry && next == null
    {
      this.entry, this.next := entry, null;
    }
  }

  // ----- sequences -----

  /** The sequence with element `i` moved to the end. */
  function ToEnd<T>(s: seq<T>, i: nat): seq<T>
    requires i < |s|
  {
    s[..i] + s[i + 1..] + [s[i]]
  }

  function ToEndFrom(j: nat, i: nat, n: nat): nat {
    if j < i then j else if j + 1 < n then j + 1 else i
  }

  lemma ToEndIs<T>(s: seq<T>, i: nat)
    requires i < |s|
    ensures |ToEnd(s, i)| == |s|
    ensures forall j: nat {:trigger ToEnd(s, i)[j]} :: j < |s| ==> ToEnd(s, i)[j] == s[ToEndFrom(j, i, |s|)]
    ensures forall x :: x in ToEnd(s, i) <==> x in s
    ensures i == |s| - 1 ==> s == ToEnd(s, i)
  {
    assert s == s[..i] + [s[i]] + s[i + 1..];
  }

  lemma ToEndParts<T>(s: seq<T>, i: nat)
    requires i < |s|
    ensures |ToEnd(s, i)| == |s| && ToEnd(s, i)[|s| - 1] == s[i]
    ensures forall j {:trigger ToEnd(s, i)[j]} :: 0 <= j < i ==> ToEnd(s, i)[j] == s[j]
    ensures forall j {:trigger ToEnd(s, i)[j]} :: i <= j < |s| - 1 ==> ToEnd(s, i)[j] == s[j + 1]
  {}

  /** The sequence without element `i`. */
  function Dropped<T>(s: seq<T>, i: nat): seq<T>
    requires i < |s|
  {
    s[..i] + s[i + 1..]
  }

  ghost function EntriesOf(nodes: seq<LruNode>): seq<CacheEntry> {
    seq(|nodes|, i requires 0 <= i < |nodes| => nodes[i].entry)
  }

  lemma EntriesToEnd(nodes: seq<LruNode>, i: nat)
    requires i < |nodes|
    ensures EntriesOf(ToEnd(nodes, i)) == ToEnd(EntriesOf(nodes), i)
  {}

  lemma EntriesDropped(nodes: seq<LruNode>, i: nat)
    requires i < |nodes|
    ensures EntriesOf(Dropped(nodes, i)) == Dropped(EntriesOf(nodes), i)
  {}

  lemma EntriesAdded(nodes: seq<LruNode>, node: LruNode)
    ensures EntriesOf(nodes + [node]) == EntriesOf(nodes) + [node.entry]
  {}

  /** `struct lru`; the first of its list is the least recently used. */
  class LruList {
    var head: LruNode?
    var tail: LruNode?
    var size: int
    ghost var nodes: seq<LruNode>

    /** The links run through the nodes in order, and the ends and the size match. */
    ghost predicate Valid()
      reads this, nodes
    {
      && size == |nodes|
      && (forall i, j :: 0 <= i < j < |nodes| ==> nodes[i] != nodes[j])
      && (nodes == [] ==> head == null)
      && (nodes != [] ==> head == nodes[0] && tail == nodes[|nodes| - 1] && tail.next == null)
      && (forall i :: 0 <= i < |nodes| - 1 ==> nodes[i].next == nodes[i + 1])
    }

    ghost function Entries(): seq<CacheEntry>
      reads this
    {
      EntriesOf(nodes)
    }

    constructor ()
      ensures Valid() && nodes == []
    {
      head, tail, size, nodes := null, null, 0, [];
    }

    /** Where a walk stands: at node `i`, or past the end, with the node before it. */
    ghost predicate Stands(current: LruNode?, prev: LruNode?, i: nat)
      reads this
    {
      && i <= |nodes|
      && current == (if i < |nodes| then nodes[i] else null)
      && prev == if i == 0 then null else nodes[i - 1]
    }

    lemma StandsAtHead()
      requires Valid()
      ensures Stands(head, null, 0)
    {}

    lemma StandsAt(current: LruNode?, prev: LruNode?, i: nat)
      requires Stands(current, prev, i)
      ensures current == null <==> i == |Entries()|
      ensures current != null ==> i < |Entries()| && Entries()[i] == current.entry
    {}

    lemma StandsNext(current: LruNode, prev: LruNode?, i: nat)
      requires Valid() && Stands(current, prev, i)
      ensures i < |nodes| && Stands(current.next, current, i + 1)
    {}

    /** `find_in_LRU_with_prev`. */
    method FindWithPrev(target: CacheEntry) returns (node: LruNode?, prev: LruNode?, ghost k: nat)
      requires Valid()
      ensures Stands(node, prev, k) && (forall i :: 0 <= i < k ==> nodes[i].entry != target)
      ensures node != null ==> node.entry == target
      ensures node == null <==> forall i :: 0 <= i < |nodes| ==> nodes[i].entry != target
    {
      prev, node, k := null, head, 0;
      StandsAtHead();
      while node != null && node.entry != target
        invariant Stands(node, prev, k)
        invariant forall i :: 0 <= i < k ==> nodes[i].entry != target
        decreases |nodes| - k
      {
        StandsNext(node, prev, k);
        prev, node := node, node.next;
        k := k + 1;
      }
    }

    /** `add_to_LRU`. */
    method Add(entry: CacheEntry)
      requires Valid()
      modifies this, nodes
      ensures Valid() && Entries() == old(Entries()) + [entry]
      ensures forall n :: n in nodes ==> n in old(nodes) || fresh(n)
    {
      var node := new LruNode(entry);
      if head == null {
        head := node;
        tail := node;
      } else {
        tail.next := node;
        tail := tail.next;
      }
      size := size + 1;
      EntriesAdded(nodes, node);
      nodes := nodes + [node];
    }

    /** `move_head_to_end`. */
    method MoveHeadToEnd()
      requires Valid() && nodes != []
      modifies this, nodes
      ensures Valid() && nodes == ToEnd(old(nodes), 0)
    {
      if size <= 1 {
        return;
      }
      var oldHead := head;
      head := head.next;
      tail.next := oldHead;
      tail := oldHead;
      oldHead.next := null;
      nodes := nodes[1..] + [nodes[0]];
    }

    /** `move_node_to_end`: the node of the entry comes last, the others keep their order. */
    method MoveNodeToEnd(entry: CacheEntry)
      requires Valid()
      modifies this, nodes
      ensures Valid()
      ensures entry !in old(Entries()) ==> nodes == old(nodes)
      ensures forall i :: 0 <= i < |old(nodes)| && old(nodes)[i].entry == entry && entry !in old(Entries())[..i] ==> nodes == ToEnd(old(nodes), i)
    {
      if size <= 1 {
        if nodes != [] { ToEndIs(nodes, 0); }
        return;
      }
      var node, prev;
      ghost var k;
      node, prev, k := FindWithPrev(entry);
      FirstIsOnly(nodes, entry, k);
      if node == null {
        return;
      }
      ToEndIs(nodes, k);
      if node == head {
        MoveHeadToEnd();
      } else if node != tail {
        LinkLast(node, prev, k);
      }
    }

    lemma FirstIsOnly(nodes: seq<LruNode>, entry: CacheEntry, k: nat)
      requires k <= |nodes| && (forall i :: 0 <= i < k ==> nodes[i].entry != entry) && (k < |nodes| ==> nodes[k].entry == entry)
      ensures entry in EntriesOf(nodes) <==> k < |nodes|
      ensures forall i :: 0 <= i < |nodes| && nodes[i].entry == entry && entry !in EntriesOf(nodes)[..i] ==> i == k
    {
      var entries := EntriesOf(nodes);
      assert k < |nodes| ==> entries[k] == entry;
      forall i | k < i < |nodes| ensures entry in entries[..i] {
        assert entries[..i][k] == entry;
      }
    }

    /** The links in the middle case of `move_node_to_end`. */
    method LinkLast(node: LruNode, prev: LruNode?, ghost k: nat)
      requires Valid() && Stands(node, prev, k) && 0 < k < |nodes| - 1
      modifies this, nodes
      ensures Valid() && nodes == ToEnd(old(nodes), k)
    {
      prev.next := node.next;
      node.next := null;
      tail.next := node;
      tail := node;
      nodes := ToEnd(nodes, k);
    }

    /** `remove_node_from_LRU`: the walk stands at the next node, behind the same one as before. */
    method RemoveNode(target: LruNode, prev: LruNode?, ghost i: nat) returns (next: LruNode?)
      requires Valid() && Stands(target, prev, i) && i < |nodes|
      modifies this, nodes
      ensures Valid() && nodes == Dropped(old(nodes), i) && Stands(next, prev, i)
    {
      if size == 1 {
        head := null;
        tail := null;
        next := null;
      } else if prev == null {
        head := head.next;
        target.next := null;
        next := head;
      } else {
        prev.next := target.next;
        target.next := null;
        if target == tail {
          tail := prev;
        }
        next := prev.next;
      }
      size := size - 1;
      nodes := Dropped(nodes, i);
    }
  }
}
