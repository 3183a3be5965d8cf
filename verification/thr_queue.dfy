/** The singly linked thread queues of threads/thread.c as heap objects that refine sequences. */
module ThreadQueues {

  datatype Status = Running | Ready | Blocked | Exited

  class Thread {
    const id: int
    var status: Status

    constructor (id: int)
      ensures this.id == id && status == Ready
    {
      this.id, status := id, Ready;
    }

    /** `set_thread_status`: a thread marked as exited stays so. */
    method SetStatus(status: Status)
      modifies this`status
      ensures this.status == Keep(old(this.status), status)
    {
      if this.status != Exited {
        this.status := status;
      }
    }
  }

  function Keep(was: Status, now: Status): Status {
    if was == Exited then Exited else now
  }

  class Node {
    const thread: Thread
    var next: Node?

    constructor (thread: Thread)
      ensures this.thread == thread && next == null
    {
      this.thread := thread;
      next := null;
    }
  }

  // ----- the queue operations on sequences -----

  function RotateSeq<T>(s: seq<T>): seq<T> {
    if s == [] then [] else s[1..] + [s[0]]
  }

  /** A directed yield: the target first, the other waiting threads in order, the yielder last. */
  function YieldSeq<T>(s: seq<T>, k: nat): seq<T>
    requires 0 < k < |s|
  {
    [s[k]] + s[1..k] + s[k + 1..] + [s[0]]
  }

  /** After a rotation, the thread that was at place `k` is at place `k - 1`. */
  lemma RotatedAt<T>(s: seq<T>, k: nat)
    requires 0 < k < |s|
    ensures |RotateSeq(s)| == |s| && RotateSeq(s)[k - 1] == s[k] && (k > 1 ==> RotateSeq(s)[k - 2] == s[k - 1])
    ensures forall i {:trigger RotateSeq(s)[i]} :: 0 <= i < |s| ==> RotateSeq(s)[i] in s
    ensures [RotateSeq(s)[k - 1]] + RotateSeq(s)[..k - 1] + RotateSeq(s)[k - 1 + 1..] == YieldSeq(s, k)
  {
    assert RotateSeq(s)[k..] == s[k + 1..] + [s[0]] && RotateSeq(s)[..k - 1] == s[1..k];
  }

  class ThreadQueue {
    var size: int
    var head: Node?
    var tail: Node?
    ghost var nodes: seq<Node>

    /** `tail` means something only while the queue is not empty: taking the last node out leaves it
        stale. */
    ghost predicate Valid()
      reads this, nodes
    {
      && size == |nodes|
      && (forall i, j :: 0 <= i < j < |nodes| ==> nodes[i] != nodes[j])
      && (nodes == [] ==> head == null)
      && (nodes != [] ==> head == nodes[0] && tail == nodes[|nodes| - 1] && tail.next == null)
      && (forall i :: 0 <= i < |nodes| - 1 ==> nodes[i].next == nodes[i + 1])
    }

    lemma EmptyIs()
      requires Valid()
      ensures size == |nodes| && (head == null <==> nodes == [])
    {}

    lemma HeadIs()
      requires Valid()
      ensures nodes != [] ==> head == nodes[0]
    {}

    constructor ()
      ensures Valid() && nodes == []
    {
      size, head, tail, nodes := 0, null, null, [];
    }

    /** `find_in_queue_with_prev`, on a queue with at least one node. */
    method FindWithPrev(tid: int) returns (target: Node?, prev: Node?, ghost k: nat)
      requires Valid() && nodes != []
      ensures k <= |nodes| && (target == null <==> k == |nodes|)
      ensures target == null <==> forall i :: 0 <= i < |nodes| ==> nodes[i].thread.id != tid
      ensures target != null ==> nodes[k] == target && target.thread.id == tid
      ensures target != null && k > 0 ==> prev == nodes[k - 1]
      ensures forall i :: 0 <= i < k ==> nodes[i].thread.id != tid
    {
      k := 0;
      if head.thread.id == tid {
        return head, null, 0;
      }
      var current: Node := head;
      while current.next != null && current.next.thread.id != tid
        invariant k < |nodes| && nodes[k] == current
        invariant forall i :: 0 <= i <= k ==> nodes[i].thread.id != tid
        decreases |nodes| - k
      {
        current := current.next;
        k := k + 1;
      }
      assert k < |nodes| - 1 ==> nodes[k].next == nodes[k + 1];
      prev := current;
      target := current.next;
      k := k + 1;
    }

    /** `append_node_to_queue`. */
    method Append(node: Node)
      requires Valid() && node !in nodes && node.next == null
      modifies this, nodes
      ensures Valid() && nodes == old(nodes) + [node]
      ensures node.next == null
    {
      if head == null {
        head := node;
        tail := node;
      } else {
        tail.next := node;
        tail := tail.next;
      }
      size := size + 1;
      nodes := nodes + [node];
    }

    /** `pop_queue`, on a queue with at least one node. */
    method Pop() returns (node: Node)
      requires Valid() && nodes != []
      modifies this, nodes
      ensures Valid() && old(nodes) == [node] + nodes && node.next == null && node !in nodes
    {
      node := head;
      head := head.next;
      node.next := null;
      size := size - 1;
      nodes := nodes[1..];
    }

    /** `move_head_to_end`. */
    method MoveHeadToEnd()
      requires Valid()
      modifies this, nodes
      ensures Valid() && nodes == RotateSeq(old(nodes))
    {
      if size <= 1 {
        return;
      }
      var oldHead := head;
      head := head.next;
      tail.next := oldHead;
      tail := oldHead;
      oldHead.next := null;
      nodes := nodes[1..] + [nodes[0]];
    }

    /** `move_to_head` of the node at position `k`, `prev` being the one before it. */
    method MoveToHead(target: Node, prev: Node?, ghost k: nat)
      requires Valid() && k < |nodes| && nodes[k] == target && (k > 0 ==> prev == nodes[k - 1])
      modifies this, nodes
      ensures Valid() && nodes == [old(nodes)[k]] + old(nodes)[..k] + old(nodes)[k + 1..]
    {
      if size <= 1 {
        return;
      }
      if target == head {
        return;
      }
      var oldHead := head;
      head := target;
      prev.next := target.next;
      target.next := oldHead;
      if tail == target {
        tail := prev;
      }
      nodes := [nodes[k]] + nodes[..k] + nodes[k + 1..];
    }

    /** `remove_from_queue` of the node at position `k`. */
    method Remove(target: Node, prev: Node?, ghost k: nat)
      requires Valid() && k < |nodes| && nodes[k] == target && (k > 0 ==> prev == nodes[k - 1])
      modifies this, nodes
      ensures Valid() && nodes == old(nodes)[..k] + old(nodes)[k + 1..] && target !in nodes
    {
      if size == 1 {
        head := null;
        tail := null;
      } else if target == head {
        head := head.next;
        target.next := null;
      } else {
        prev.next := target.next;
        target.next := null;
        if target == tail {
          tail := prev;
        }
      }
      size := size - 1;
      nodes := nodes[..k] + nodes[k + 1..];
    }

    /** The queue part of `thread_yield` to a given thread: the position is found before the running
        thread goes to the end, and the predecessor found then is still the right one. */
    method DirectedYield(tid: int) returns (found: bool, ghost k: nat)
      requires Valid() && nodes != [] && head.thread.id != tid
      modifies this, nodes
      ensures Valid() && k <= |old(nodes)|
      ensures found <==> exists i :: 0 <= i < |old(nodes)| && old(nodes)[i].thread.id == tid
      ensures !found ==> nodes == old(nodes)
      ensures found ==> 0 < k < |old(nodes)| && old(nodes)[k].thread.id == tid && nodes == YieldSeq(old(nodes), k)
      ensures forall i :: 0 <= i < k ==> old(nodes)[i].thread.id != tid
    {
      hide ThreadQueue.Valid, YieldSeq, RotateSeq;
      HeadIs();
      var target, prev;
      target, prev, k := FindWithPrev(tid);
      if target == null {
        return false, k;
      }
      RotatedAt(nodes, k);
      MoveHeadToEnd();
      assert nodes[k - 1] == target;
      MoveToHead(target, prev, k - 1);
      found := true;
    }
  }

  ghost predicate Disjoint(a: seq<Node>, b: seq<Node>) {
    forall i, j :: 0 <= i < |a| && 0 <= j < |b| ==> a[i] != b[j]
  }

  /** `thread_sleep` and `thread_wakeup` move a node from one queue to the end of another. */
  method Transfer(from: ThreadQueue, to: ThreadQueue) returns (node: Node)
    requires from.Valid() && to.Valid() && from.nodes != [] && from != to
    requires Disjoint(from.nodes, to.nodes)
    modifies from, to, from.nodes, to.nodes
    ensures from.Valid() && to.Valid()
    ensures old(from.nodes) == [node] + from.nodes && to.nodes == old(to.nodes) + [node]
    ensures Disjoint(from.nodes, to.nodes)
  {
    node := from.Pop();
    ghost var rest, waiting := from.nodes, to.nodes;
    Apart(old(from.nodes), rest, waiting, node);
    to.Append(node);
    assert from.nodes == rest && to.nodes == waiting + [node];
  }

  lemma Apart(before: seq<Node>, rest: seq<Node>, to: seq<Node>, node: Node)
    requires before == [node] + rest && Disjoint(before, to) && node !in rest
    ensures node !in to && Disjoint(rest, to) && Disjoint(rest, to + [node])
    ensures forall x :: x in rest ==> x !in to
  {
    assert before[0] == node;
    assert forall i :: 0 <= i < |rest| ==> rest[i] == before[i + 1];
  }

  /** The nodes carry distinct threads. */
  ghost predicate OwnThreads(nodes: seq<Node>) {
    forall i, j :: 0 <= i < j < |nodes| ==> nodes[i].thread != nodes[j].thread
  }

  /** One round of `thread_wakeup`; a killed thread keeps its mark. */
  method WakeOne(queue: ThreadQueue, rq: ThreadQueue) returns (node: Node)
    requires queue.Valid() && rq.Valid() && queue.nodes != [] && queue != rq
    requires Disjoint(queue.nodes, rq.nodes) && OwnThreads(queue.nodes)
    modifies queue, rq, queue.nodes, rq.nodes, queue.nodes[0].thread
    ensures queue.Valid() && rq.Valid() && Disjoint(queue.nodes, rq.nodes) && OwnThreads(queue.nodes)
    ensures old(queue.nodes) == [node] + queue.nodes && rq.nodes == old(rq.nodes) + [node]
    ensures node.thread.status == Keep(old(queue.nodes[0].thread.status), Ready)
  {
    node := Transfer(queue, rq);
    assert node == old(queue.nodes)[0];
    forall i, j | 0 <= i < j < |queue.nodes| ensures queue.nodes[i].thread != queue.nodes[j].thread {
      assert queue.nodes[i] == old(queue.nodes)[i + 1] && queue.nodes[j] == old(queue.nodes)[j + 1];
    }
    node.thread.SetStatus(Ready);
  }

  /** `thread_wakeup`: the first waiter, or all of them in order, to the end of the ready queue; each of
      them is ready unless it has been killed, and no other thread's status changes. */
  method Wakeup(queue: ThreadQueue, rq: ThreadQueue, all: bool) returns (count: int)
    requires queue.Valid() && rq.Valid() && queue != rq
    requires Disjoint(queue.nodes, rq.nodes) && OwnThreads(queue.nodes)
    modifies queue, rq, queue.nodes, rq.nodes, set n | n in queue.nodes :: n.thread
    ensures queue.Valid() && rq.Valid()
    ensures count == if old(queue.nodes) == [] then 0 else if all then |old(queue.nodes)| else 1
    ensures queue.nodes == old(queue.nodes)[count..] && rq.nodes == old(rq.nodes) + old(queue.nodes)[..count]
    ensures forall i :: 0 <= i < count ==> old(queue.nodes)[i].thread.status == Keep(old(queue.nodes[i].thread.status), Ready)
    ensures forall i :: count <= i < |old(queue.nodes)| ==> old(queue.nodes)[i].thread.status == old(queue.nodes[i].thread.status)
  {
    hide ThreadQueue.Valid, Disjoint;
    count := 0;
    queue.EmptyIs();
    if queue.size == 0 {
      return;
    }
    ghost var waiting := queue.nodes;
    while queue.head != null && (count == 0 || all)
      invariant 0 <= count <= |waiting| && (count <= 1 || all)
      invariant queue.Valid() && rq.Valid() && Disjoint(queue.nodes, rq.nodes) && OwnThreads(queue.nodes)
      invariant queue.head == null <==> queue.nodes == []
      invariant queue.nodes == waiting[count..] && rq.nodes == old(rq.nodes) + waiting[..count]
      invariant forall i :: 0 <= i < count ==> waiting[i].thread.status == Keep(old(queue.nodes[i].thread.status), Ready)
      invariant forall i :: count <= i < |waiting| ==> waiting[i].thread.status == old(queue.nodes[i].thread.status)
      decreases |waiting| - count
    {
      assert queue.nodes[0] == waiting[count];
      label before:
      var node := WakeOne(queue, rq);
      forall i | 0 <= i < |waiting| && i != count ensures waiting[i].thread.status == old@before(waiting[i].thread.status) {
        assert waiting[i].thread != waiting[count].thread;
      }
      assert node == waiting[count];
      count := count + 1;
      queue.EmptyIs();
    }
  }
}
