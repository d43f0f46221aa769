/** The round-robin scheduler: a singly linked ready queue relinked in place (scheduler.c). */
module Scheduler {

  /** A node of the ready queue. Its thread is set when it is made and never changed. */
  class Node {
    const thread: nat
    var next: Node?

    constructor (thread: nat)
      ensures this.thread == thread && next == null
    {
      this.thread := thread;
      next := null;
    }
  }

  // ---- the queue as a sequence, the running node outside it

  datatype Queue = Queue(current: Node, waiting: seq<Node>)

  /** Where the first node of a thread is; the length when there is none. */
  function FirstOf(q: seq<Node>, t: nat): (k: nat)
    ensures k <= |q|
    ensures forall i | 0 <= i < k :: q[i].thread != t
    ensures k < |q| ==> q[k].thread == t
  {
    if |q| == 0 || q[0].thread == t then 0 else 1 + FirstOf(q[1..], t)
  }

  /** Place i holds the first node of the thread. */
  ghost predicate IsFirst(q: seq<Node>, t: nat, i: int)
  {
    0 <= i < |q| && q[i].thread == t && forall j | 0 <= j < i :: q[j].thread != t
  }

  /** The node at place i went and no other; the order is as it was. */
  ghost predicate LostAt(before: seq<Node>, after: seq<Node>, i: int)
  {
    && 0 <= i < |before| && |after| == |before| - 1
    && (forall j | 0 <= j < i :: after[j] == before[j])
    && (forall j | i <= j < |after| :: after[j] == before[j + 1])
  }

  /** Without the first node of the thread, if there is one. */
  function Without(q: seq<Node>, t: nat): (r: seq<Node>)
    ensures (forall n <- q :: n.thread != t) ==> r == q
    ensures forall i | IsFirst(q, t, i) :: LostAt(q, r, i)
  {
    var k := FirstOf(q, t);
    if k == |q| then q else q[..k] + q[k + 1..]
  }

  function Rotated(q: Queue): Queue
  {
    if |q.waiting| == 0 then q else Queue(q.waiting[0], q.waiting[1..] + [q.current])
  }

  // ---- the linked list

  /** The nodes of q, in order, are what following next from head visits. */
  ghost predicate Linked(head: Node?, q: seq<Node>)
    reads set n | n in q
  {
    if |q| == 0 then head == null else
      && head == q[0]
      && (forall i | 0 <= i < |q| - 1 :: q[i].next == q[i + 1])
      && q[|q| - 1].next == null
  }

  ghost predicate NoRepeats(q: seq<Node>)
  {
    forall i, j | 0 <= i < j < |q| :: q[i] != q[j]
  }

  class Scheduler {
    var readyQueue: Node?
    var currentThread: Node
    ghost var waiting: seq<Node>

    ghost predicate Valid()
      reads this, set n | n in waiting
    {
      Linked(readyQueue, waiting) && NoRepeats(waiting) && currentThread !in waiting
    }

    /** init_scheduler */
    constructor (initialThread: nat)
      ensures Valid() && waiting == [] && fresh(currentThread) && currentThread.thread == initialThread
    {
      currentThread := new Node(initialThread);
      readyQueue := null;
      waiting := [];
    }

    /** thread_is_ready: a new node at the end. */
    method ThreadIsReady(t: nat)
      requires Valid()
      modifies this`readyQueue, this`waiting, set n | n in waiting
      ensures Valid() && currentThread == old(currentThread)
      ensures |waiting| == |old(waiting)| + 1 && waiting[..|old(waiting)|] == old(waiting)
      ensures var item := waiting[|old(waiting)|]; fresh(item) && item.thread == t
    {
      var item := new Node(t);
      if readyQueue == null {
        readyQueue := item;
      } else {
        var at := LastNode();
        at.next := item;
      }
      waiting := waiting + [item];
    }

    /** The loop that follows next to the end of the ready queue. */
    method LastNode() returns (last: Node)
      requires Valid() && readyQueue != null
      ensures |waiting| > 0 && last == waiting[|waiting| - 1]
    {
      var at := readyQueue;
      ghost var i := 0;
      while at.next != null
        invariant 0 <= i < |waiting| && at == waiting[i]
        invariant at.next == if i < |waiting| - 1 then waiting[i + 1] else null
        decreases |waiting| - i
      {
        at := at.next;
        i := i + 1;
      }
      last := at;
    }

    /** Lines 66-68. */
    method DropHead()
      requires Valid() && readyQueue != null
      modifies this`readyQueue, this`waiting
      ensures Valid() && |old(waiting)| > 0 && waiting == old(waiting)[1..]
    {
      readyQueue := readyQueue.next;
      waiting := waiting[1..];
    }

    /** Lines 77-80: the node behind at leaves the list. */
    method Unlink(at: Node, ghost i: nat)
      requires Valid() && i + 1 < |waiting| && at == waiting[i]
      modifies this`waiting, at
      ensures Valid() && waiting == old(waiting)[..i + 1] + old(waiting)[i + 2..]
    {
      assert waiting[i].next == waiting[i + 1];
      ghost var was := waiting;
      var tmp := at.next;
      at.next := tmp.next;
      waiting := waiting[..i + 1] + waiting[i + 2..];
      assert forall j | 0 <= j < |waiting| :: waiting[j] == was[if j <= i then j else j + 1];
    }

    /** thread_not_ready: only the first node of the thread goes, and nothing happens when there is none. */
    method ThreadNotReady(t: nat)
      requires Valid()
      modifies this`readyQueue, this`waiting, set n | n in waiting
      ensures Valid() && currentThread == old(currentThread)
      ensures waiting == Without(old(waiting), t)
      ensures (forall n <- old(waiting) :: n.thread != t) ==> waiting == old(waiting)
      ensures forall i | IsFirst(old(waiting), t, i) :: LostAt(old(waiting), waiting, i)
    {
      hide FirstOf, NoRepeats, Without;
      var at := readyQueue;
      if at != null && at.thread == t {
        FirstUnique(waiting, t, 0);
        DropHead();
        return;
      }
      ghost var i := 0;
      while at != null && at.next != null
        invariant waiting == old(waiting) && Valid()
        invariant if at == null then |waiting| == 0 else
                    && 0 <= i < |waiting| && at == waiting[i]
                    && at.next == if i < |waiting| - 1 then waiting[i + 1] else null
        invariant at != null ==> forall j | 0 <= j <= i :: waiting[j].thread != t
        decreases |waiting| - i
      {
        if at.next.thread == t {
          FirstUnique(waiting, t, i + 1);
          Unlink(at, i);
          return;
        }
        at := at.next;
        i := i + 1;
      }
      FirstUnique(waiting, t, |waiting|);
    }

    /** schedule up to the context switch, which makes the first waiting node the running one. */
    method Schedule()
      requires Valid()
      modifies this, currentThread, set n | n in waiting
      ensures Valid()
      ensures Queue(currentThread, waiting) == Rotated(old(Queue(currentThread, waiting)))
    {
      if readyQueue == null {
        return;
      }
      var at := LastNode();
      at.next := currentThread;
      currentThread.next := null;
      var newThread := readyQueue;
      readyQueue := readyQueue.next;
      waiting := waiting[1..] + [currentThread];
      currentThread := newThread;
    }
  }

  lemma FirstUnique(q: seq<Node>, t: nat, k: nat)
    requires k <= |q| && (forall i | 0 <= i < k :: q[i].thread != t) && (k < |q| ==> q[k].thread == t)
    ensures FirstOf(q, t) == k && Without(q, t) == if k == |q| then q else q[..k] + q[k + 1..]
  {
  }

  // ---- runs of queue operations

  datatype QueueOp = Ready(node: Node) | NotReady(thread: nat) | Schedule

  function Next(q: Queue, op: QueueOp): Queue
  {
    match op
    case Ready(n) => Queue(q.current, q.waiting + [n])
    case NotReady(t) => Queue(q.current, Without(q.waiting, t))
    case Schedule => Rotated(q)
  }

  function After(q: Queue, ops: seq<QueueOp>): Queue
    decreases ops
  {
    if |ops| == 0 then q else After(Next(q, ops[0]), ops[1..])
  }

  function Schedules(ops: seq<QueueOp>): nat
  {
    if |ops| == 0 then 0 else (if ops[0].Schedule? then 1 else 0) + Schedules(ops[1..])
  }

  /** The running node followed by the waiting ones. */
  function Ring(q: Queue): seq<Node>
  {
    [q.current] + q.waiting
  }

  /** schedule turns the ring by one place and loses nobody. */
  lemma RingTurns(q: Queue)
    ensures Ring(Rotated(q)) == Ring(q)[1..] + [Ring(q)[0]]
    ensures multiset(Ring(Rotated(q))) == multiset(Ring(q))
  {
    var r := Ring(q);
    assert Ring(Rotated(q)) == r[1..] + [r[0]];
    assert r == [r[0]] + r[1..];
  }

  /** Nodes made ready in the meantime delay nobody: the node at position k runs after exactly k + 1 calls. */
  lemma {:induction false} WaitsItsTurn(q: Queue, ops: seq<QueueOp>, k: nat)
    requires k < |q.waiting| && (forall i | 0 <= i < |ops| :: !ops[i].NotReady?)
    requires Schedules(ops) == k + 1 && ops[|ops| - 1].Schedule?
    ensures After(q, ops).current == q.waiting[k]
    decreases ops
  {
    var q' := Next(q, ops[0]);
    if ops[0].Ready? {
      WaitsItsTurn(q', ops[1..], k);
    } else if k > 0 {
      WaitsItsTurn(q', ops[1..], k - 1);
    } else {
      NoScheduleLeft(ops[1..]);
    }
  }

  lemma {:induction false} NoScheduleLeft(ops: seq<QueueOp>)
    ensures Schedules(ops) == 0 && |ops| > 0 ==> !ops[|ops| - 1].Schedule?
  {
    if |ops| > 1 {
      NoScheduleLeft(ops[1..]);
    }
  }

  /** Whatever is made ready or removed in the meantime, as long as it is not the node's own thread: within k + 1
      calls the node at position k runs. */
  lemma {:induction false} RunsInTime(q: Queue, ops: seq<QueueOp>, k: nat) returns (m: nat)
    requires k < |q.waiting| && Schedules(ops) >= k + 1
    requires forall i | 0 <= i < |ops| :: ops[i] != NotReady(q.waiting[k].thread)
    ensures m <= |ops| && Schedules(ops[..m]) <= k + 1 && After(q, ops[..m]).current == q.waiting[k]
    decreases ops
  {
    var q' := Next(q, ops[0]);
    var rest := ops[1..];
    if ops[0].Schedule? && k == 0 {
      m := 1;
      assert ops[..1] == [ops[0]];
      assert After(q, ops[..1]) == q';
      return;
    }
    var k' := PositionAfter(q, ops[0], k);
    m := RunsInTime(q', rest, k');
    m := m + 1;
    assert ops[..m][1..] == rest[..m - 1];
  }

  /** One operation moves a waiting node forward or leaves it where it is. */
  lemma PositionAfter(q: Queue, op: QueueOp, k: nat) returns (k': nat)
    requires k < |q.waiting| && op != NotReady(q.waiting[k].thread) && !(op.Schedule? && k == 0)
    ensures var w := Next(q, op).waiting;
            k' < |w| && w[k'] == q.waiting[k] && k' + (if op.Schedule? then 1 else 0) <= k
  {
    match op
    case Ready(_) => k' := k;
    case Schedule => k' := k - 1;
    case NotReady(t) =>
      var f := FirstOf(q.waiting, t);
      k' := if f < k then k - 1 else k;
  }

  /** How many of the nodes belong to a thread. */
  function NodesOf(q: seq<Node>, t: nat): nat
  {
    if |q| == 0 then 0 else (if q[0].thread == t then 1 else 0) + NodesOf(q[1..], t)
  }

  lemma {:induction false} NodesOfJoin(a: seq<Node>, b: seq<Node>, t: nat)
    ensures NodesOf(a + b, t) == NodesOf(a, t) + NodesOf(b, t)
  {
    if |a| == 0 {
      assert a + b == b;
    } else {
      assert (a + b)[1..] == a[1..] + b;
      NodesOfJoin(a[1..], b, t);
    }
  }

  lemma {:induction false} NoNodeOf(q: seq<Node>, t: nat)
    ensures NodesOf(q, t) == 0 <==> forall n <- q :: n.thread != t
  {
    if |q| > 0 {
      NoNodeOf(q[1..], t);
      assert q == [q[0]] + q[1..];
    }
  }

  lemma NodeOf(n: Node, t: nat)
    ensures NodesOf([n], t) == if n.thread == t then 1 else 0
  {
    assert [n][1..] == [];
  }

  /** Removing a thread takes one of its waiting nodes away, if there is one, and no node of another thread. */
  lemma OneNodeLess(q: seq<Node>, t: nat, u: nat)
    ensures NodesOf(Without(q, t), u) == NodesOf(q, u) - if u == t && NodesOf(q, t) > 0 then 1 else 0
  {
    hide NodesOf;
    NoNodeOf(q, t);
    var k := FirstOf(q, t);
    if k < |q| {
      assert q[k] in q;
      var front, back := q[..k], q[k + 1..];
      assert q == front + ([q[k]] + back) && Without(q, t) == front + back;
      NodesOfJoin(front, [q[k]] + back, u);
      NodesOfJoin([q[k]], back, u);
      NodesOfJoin(front, back, u);
      NodeOf(q[k], u);
    }
  }

  /** What each operation does to the number of nodes of a thread, the running one counted. */
  lemma NodesAfter(q: Queue, op: QueueOp, t: nat)
    ensures NodesOf(Ring(Next(q, op)), t)
            == match op
               case Ready(n) => NodesOf(Ring(q), t) + if n.thread == t then 1 else 0
               case NotReady(u) => NodesOf(Ring(q), t) - if t == u && NodesOf(q.waiting, t) > 0 then 1 else 0
               case Schedule => NodesOf(Ring(q), t)
  {
    hide NodesOf;
    NodesOfJoin([q.current], q.waiting, t);
    match op
    case Ready(n) =>
      assert Ring(Next(q, op)) == Ring(q) + [n];
      NodesOfJoin(Ring(q), [n], t);
      NodeOf(n, t);
    case NotReady(u) =>
      NodesOfJoin([q.current], Without(q.waiting, u), t);
      OneNodeLess(q.waiting, u, t);
    case Schedule =>
      RingTurns(q);
      var r := Ring(q);
      assert r == [r[0]] + r[1..];
      NodesOfJoin([r[0]], r[1..], t);
      NodesOfJoin(r[1..], [r[0]], t);
  }

  predicate NotMadeReady(ops: seq<QueueOp>, t: nat)
  {
    forall i | 0 <= i < |ops| && ops[i].Ready? :: ops[i].node.thread != t
  }

  /** A thread without a node never runs until it is made ready again. */
  lemma {:induction false} NeverRuns(q: Queue, ops: seq<QueueOp>, t: nat)
    requires NodesOf(Ring(q), t) == 0 && NotMadeReady(ops, t)
    ensures NodesOf(Ring(After(q, ops)), t) == 0 && After(q, ops).current.thread != t
    decreases ops
  {
    hide NodesOf, Ring;
    if |ops| == 0 {
      CurrentCounts(q, t);
    } else {
      NodesAfter(q, ops[0], t);
      NeverRuns(Next(q, ops[0]), ops[1..], t);
    }
  }

  lemma CurrentCounts(q: Queue, t: nat)
    ensures NodesOf(Ring(q), t) == 0 ==> q.current.thread != t
  {
  }

  /** So a thread that waits with one node and is removed does not run until it is made ready again. */
  lemma RemovedStaysAway(q: Queue, ops: seq<QueueOp>, t: nat)
    requires q.current.thread != t && NodesOf(q.waiting, t) == 1
    requires NotMadeReady(ops, t)
    ensures After(q, [NotReady(t)] + ops).current.thread != t
  {
    hide NodesOf;
    NodesOfJoin([q.current], q.waiting, t);
    NodeOf(q.current, t);
    NodesAfter(q, NotReady(t), t);
    NeverRuns(Next(q, NotReady(t)), ops, t);
    assert ([NotReady(t)] + ops)[1..] == ops;
  }

  /** Calls of schedule alone: after m of them the ring has turned m places. */
  function Turned(q: Queue, m: nat): Queue
    decreases m
  {
    if m == 0 then q else Turned(Rotated(q), m - 1)
  }

  lemma {:induction false} TurnedRing(q: Queue, m: nat)
    requires m <= |Ring(q)|
    ensures Ring(Turned(q, m)) == Ring(q)[m..] + Ring(q)[..m]
    decreases m
  {
    var r := Ring(q);
    if m > 0 {
      RingTurns(q);
      var r' := Ring(Rotated(q));
      TurnedRing(Rotated(q), m - 1);
      assert r'[m - 1..] + r'[..m - 1] == r[m..] + r[..m];
    } else {
      assert r[0..] + r[..0] == r;
    }
  }

  /** With n nodes and nothing else going on, n calls run every node once, in order, and end where they began. */
  lemma RoundIsFair(q: Queue, m: nat)
    requires m < |Ring(q)|
    ensures Turned(q, m).current == Ring(q)[m]
    ensures Turned(q, |Ring(q)|) == q
  {
    TurnedRing(q, m);
    assert Ring(Turned(q, m))[0] == Ring(q)[m];
    TurnedRing(q, |Ring(q)|);
    var t := Turned(q, |Ring(q)|);
    assert Ring(t) == Ring(q);
    assert t.current == Ring(t)[0] && t.waiting == Ring(t)[1..];
    assert q.current == Ring(q)[0] && q.waiting == Ring(q)[1..];
  }
}
