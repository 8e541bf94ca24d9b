/** The waitable queue between threads (src/threadqueue.c:16-152): a linked list with a pool of spare
    nodes, worked on only under its lock. Each method is one stretch of code between taking and letting
    go of the lock; waiting on the condition lets go of it, and who goes next is anyone's choice. */
module ThreadQueue {
  const POOL_SIZE := 32

  type ThreadId = nat

  /** `data` is an address, 0 for none. */
  datatype Message = Message(data: nat, msgtype: int)

  const BLANK := Message(0, 0)

  /** struct msglist */
  class Node {
    var msg: Message
    var next: Node?

    constructor ()
      ensures next == null
    {
      msg, next := BLANK, null;
    }
  }

  /** What a call of thread_queue_get has come to: its message with the length then left, ETIMEDOUT, or
      waiting on the condition. */
  datatype Outcome = Got(msg: Message, qlength: nat) | TimedOut | Waits

  ghost predicate Distinct(nodes: seq<Node>) {
    forall i, j :: 0 <= i < j < |nodes| ==> nodes[i] != nodes[j]
  }

  /** The node at a place, none past the end. */
  ghost function At(nodes: seq<Node>, i: nat): Node? {
    if i < |nodes| then nodes[i] else null
  }

  /** Distinct nodes, linked in this order from the first on, with nothing after the last. */
  ghost predicate Chain(first: Node?, nodes: seq<Node>)
    reads nodes
  {
    Distinct(nodes) && first == At(nodes, 0) && forall i :: 0 <= i < |nodes| ==> nodes[i].next == At(nodes, i + 1)
  }

  ghost predicate Holds(nodes: seq<Node>, messages: seq<Message>)
    reads nodes
  {
    |nodes| == |messages| && forall i :: 0 <= i < |nodes| ==> nodes[i].msg == messages[i]
  }

  lemma ChainTail(first: Node?, nodes: seq<Node>)
    requires Chain(first, nodes) && nodes != []
    ensures first == nodes[0] && nodes[0] !in nodes[1..] && Chain(nodes[0].next, nodes[1..])
  {
    var rest := nodes[1..];
    assert nodes[0].next == At(nodes, 1) == At(rest, 0);
    forall i | 0 <= i < |rest| ensures rest[i].next == At(rest, i + 1) {
      assert rest[i] == nodes[i + 1] && At(nodes, i + 2) == At(rest, i + 1);
    }
  }

  lemma ChainEnd(first: Node?, nodes: seq<Node>)
    requires Chain(first, nodes)
    ensures first == null <==> nodes == []
  {
  }

  lemma HoldsTail(nodes: seq<Node>, messages: seq<Message>)
    requires Holds(nodes, messages) && nodes != []
    ensures messages[0] == nodes[0].msg && Holds(nodes[1..], messages[1..])
  {
  }

  /** A node put in front of a chain. */
  lemma ChainCons(node: Node, nodes: seq<Node>)
    requires Chain(node.next, nodes) && node !in nodes
    ensures Chain(node, [node] + nodes)
  {
    var all := [node] + nodes;
    forall i | 0 <= i < |all| ensures all[i].next == At(all, i + 1) {
      assert At(all, i + 1) == At(nodes, i);
      assert i > 0 ==> all[i] == nodes[i - 1];
    }
  }

  /** A node linked after the last of a chain. */
  lemma ChainSnoc(first: Node?, nodes: seq<Node>, node: Node)
    requires node !in nodes && Distinct(nodes) && node.next == null
    requires first == At(nodes + [node], 0)
    requires forall i :: 0 <= i < |nodes| ==> nodes[i].next == At(nodes + [node], i + 1)
    ensures Chain(first, nodes + [node])
  {
  }

  lemma HoldsMore(nodes: seq<Node>, messages: seq<Message>, node: Node)
    requires Holds(nodes, messages)
    ensures Holds(nodes + [node], messages + [node.msg])
  {
  }

  /** First in, first out. */
  predicate Fifo(added: seq<Message>, delivered: seq<Message>, queued: seq<Message>) {
    added == delivered + queued
  }

  lemma GoesLast(added: seq<Message>, delivered: seq<Message>, queued: seq<Message>, message: Message)
    requires Fifo(added, delivered, queued)
    ensures Fifo(added + [message], delivered, queued + [message])
  {
  }

  class Queue {
    var first: Node?
    var last: Node?
    var length: nat
    var msgpool: Node?
    var msgpoolLength: nat

    /** Threads waiting on the condition, and whether it was signalled to them since they began. */
    var waiting: map<ThreadId, bool>

    ghost var nodes: seq<Node>
    ghost var pool: seq<Node>
    ghost var queued: seq<Message>
    /** Every message added so far, and every one given out, in order. */
    ghost var added: seq<Message>
    ghost var delivered: seq<Message>

    ghost predicate Linked()
      reads this`first, this`last, this`length, this`nodes, this`queued, this`msgpool, this`msgpoolLength, this`pool, nodes, pool
    {
      && Chain(first, nodes) && Chain(msgpool, pool) && Holds(nodes, queued)
      && (forall n :: n in nodes ==> n !in pool)
      && (if nodes == [] then last == null else last == nodes[|nodes| - 1])
      && length == |nodes| && msgpoolLength == |pool|
    }

    ghost predicate Valid()
      reads this, nodes, pool
    {
      Linked() && Fifo(added, delivered, queued) && PoolFits() && NobodyMissed()
    }

    /** Spare nodes are kept only as far as all nodes together stay within the limit. */
    ghost predicate PoolFits()
      reads this`msgpoolLength, this`length
    {
      msgpoolLength == 0 || msgpoolLength + length <= POOL_SIZE
    }

    /** No thread sleeps on while there is a message, although only the first one signals. */
    ghost predicate AllSignalled()
      reads this`waiting
    {
      forall t :: t in waiting ==> waiting[t]
    }

    ghost predicate NobodyMissed()
      reads this`waiting, this`length
    {
      forall t :: t in waiting && !waiting[t] ==> length == 0
    }

    /** thread_queue_init */
    constructor ()
      ensures Valid() && nodes == [] && pool == [] && added == [] && delivered == [] && waiting == map[]
    {
      first, last, length, msgpool, msgpoolLength, waiting := null, null, 0, null, 0, map[];
      nodes, pool, queued, added, delivered := [], [], [], [], [];
    }

    /** get_msglist: a spare node if there is one, else a new one. */
    method GetNode() returns (node: Node)
      requires Linked()
      modifies this`msgpool, this`msgpoolLength, this`pool
      ensures Linked() && node !in nodes && node !in pool
      ensures if old(pool) == [] then fresh(node) && pool == [] else node == old(pool[0]) && pool == old(pool[1..])
    {
      ChainEnd(msgpool, pool);
      if msgpool != null {
        ChainTail(msgpool, pool);
        hide Chain, Holds;
        node := msgpool;
        msgpool := node.next;
        msgpoolLength := msgpoolLength - 1;
        pool := pool[1..];
      } else {
        node := new Node();
      }
    }

    /** The pool is as it was when only a queued node was linked anew. */
    twostate lemma PoolKept()
      requires old(Chain(msgpool, pool)) && msgpool == old(msgpool) && pool == old(pool)
      requires forall n :: n in pool ==> n.next == old(n.next)
      ensures Chain(msgpool, pool)
    {
      assert forall i :: 0 <= i < |pool| ==> pool[i] in pool;
    }

    lemma LinkedIs()
      requires Chain(first, nodes) && Chain(msgpool, pool) && Holds(nodes, queued)
      requires forall n :: n in nodes ==> n !in pool
      requires nodes != [] && last == nodes[|nodes| - 1] && length == |nodes| && msgpoolLength == |pool|
      ensures Linked()
    {
    }

    lemma EmptyOrNot()
      requires Linked()
      ensures length == 0 <==> queued == []
    {
    }

    twostate lemma NodesKept(node: Node)
      requires old(Chain(first, nodes)) && nodes == old(nodes) && node !in nodes && node.next == null
      requires first == At(nodes + [node], 0)
      requires forall i :: 0 <= i < |nodes| - 1 ==> nodes[i].next == old(nodes[i].next)
      requires nodes != [] ==> nodes[|nodes| - 1].next == node
      ensures Chain(first, nodes + [node])
    {
      forall i | 0 <= i < |nodes| ensures nodes[i].next == At(nodes + [node], i + 1) {
        assert i < |nodes| - 1 ==> nodes[i].next == old(nodes[i].next) == At(nodes, i + 1);
      }
      ChainSnoc(first, nodes, node);
    }

    method LinkLast(node: Node)
      requires Linked() && node !in nodes && node !in pool && node.next == null
      modifies this`first, this`last, last
      ensures Chain(first, nodes + [node]) && Chain(msgpool, pool) && Holds(nodes + [node], queued + [node.msg])
      ensures last == node && node.msg == old(node.msg)
      ensures forall n :: n in nodes + [node] ==> n !in pool
      ensures length == |nodes| && msgpoolLength == |pool|
    {
      ghost var end := last;
      assert end != null ==> end in nodes && forall n :: n in pool ==> n != end;
      assert Distinct(nodes);
      assert Holds(nodes, queued) && Chain(first, nodes) && Chain(msgpool, pool);
      hide Chain;
      if last == null {
        last := node;
        first := node;
      } else {
        last.next := node;
        last := node;
      }
      NodesKept(node);
      PoolKept();
      HoldsMore(nodes, queued, node);
    }

    /** Links a node after the last. */
    method Append(node: Node)
      requires Linked() && node !in nodes && node !in pool && node.next == null
      modifies this`first, this`last, this`length, this`nodes, this`queued, last
      ensures Linked() && nodes == old(nodes) + [node] && queued == old(queued) + [node.msg] && length == old(length) + 1
    {
      hide *;
      LinkLast(node);
      length := length + 1;
      nodes, queued := nodes + [node], queued + [node.msg];
      LinkedIs();
    }

    /** thread_queue_add. Only the first message signals the condition. */
    method Add(data: nat, msgtype: int)
      requires Valid()
      modifies this, nodes, pool
      ensures Valid()
      ensures queued == old(queued) + [Message(data, msgtype)] && added == old(added) + [Message(data, msgtype)]
      ensures delivered == old(delivered) && waiting.Keys == old(waiting.Keys)
      ensures forall t :: t in waiting ==> waiting[t] == (old(waiting[t]) || old(queued) == [])
    {
      EmptyOrNot();
      GoesLast(added, delivered, queued, Message(data, msgtype));
      hide *;
      ValidParts();
      SignalIfEmpty();
      Enqueue(data, msgtype);
      added := added + [Message(data, msgtype)];
      NobodyWaits();
      ValidIs();
    }

    lemma ValidParts()
      requires Valid()
      ensures Linked() && PoolFits() && NobodyMissed() && Fifo(added, delivered, queued)
    {
    }

    lemma ValidIs()
      requires Linked() && PoolFits() && NobodyMissed() && Fifo(added, delivered, queued)
      ensures Valid()
    {
    }

    lemma NobodyWaits()
      requires AllSignalled()
      ensures NobodyMissed()
    {
    }

    /** The list part of it. */
    method Enqueue(data: nat, msgtype: int)
      requires Linked() && PoolFits()
      modifies this`first, this`last, this`length, this`nodes, this`queued, this`msgpool, this`msgpoolLength, this`pool, nodes, pool
      ensures Linked() && PoolFits() && queued == old(queued) + [Message(data, msgtype)]
    {
      LastIsNode();
      hide Chain, Holds, Queue.Linked;
      var node := MakeNode(data, msgtype);
      Append(node);
    }

    lemma LastIsNode()
      requires Linked()
      ensures last != null ==> last in nodes
    {
    }

    /** A node with the message, not linked to anything. */
    method MakeNode(data: nat, msgtype: int) returns (node: Node)
      requires Linked()
      modifies this`msgpool, this`msgpoolLength, this`pool, pool
      ensures Linked() && node !in nodes && node !in pool && node.next == null && node.msg == Message(data, msgtype)
      ensures msgpoolLength == if old(msgpoolLength) == 0 then 0 else old(msgpoolLength) - 1
      ensures fresh(node) || node in old(pool)
      ensures forall n :: n in pool ==> n in old(pool)
    {
      hide Chain;
      node := GetNode();
      label Linking:
      node.msg := Message(data, msgtype);
      node.next := null;
      SameLinks@Linking();
    }

    /** pthread_cond_broadcast, before the first message */
    method SignalIfEmpty()
      requires NobodyMissed() && (length == 0 <==> queued == [])
      modifies this`waiting
      ensures AllSignalled() && waiting.Keys == old(waiting.Keys)
      ensures forall t :: t in waiting ==> waiting[t] == (old(waiting[t]) || queued == [])
    {
      if length == 0 {
        waiting := map t | t in waiting :: true;
      }
    }

    /** Linking depends on the nodes in the queue and the pool only. */
    twostate lemma SameLinks()
      requires old(Linked()) && nodes == old(nodes) && pool == old(pool) && queued == old(queued)
      requires first == old(first) && last == old(last) && msgpool == old(msgpool)
      requires length == old(length) && msgpoolLength == old(msgpoolLength)
      requires forall n :: n in nodes || n in pool ==> n.next == old(n.next)
      requires forall n :: n in nodes ==> n.msg == old(n.msg)
      ensures Linked()
    {
    }

    /** Takes the first node out of the list. */
    method Unlink() returns (node: Node)
      requires Linked() && first != null
      modifies this`first, this`last, this`length, this`nodes, this`queued
      ensures Linked() && old(nodes) != [] && node == old(nodes[0]) && nodes == old(nodes[1..])
      ensures old(queued) != [] && node.msg == old(queued[0]) && queued == old(queued[1..])
      ensures node !in nodes && node !in pool && length == |queued|
    {
      ChainEnd(first, nodes);
      ChainTail(first, nodes);
      HoldsTail(nodes, queued);
      ChainEnd(nodes[0].next, nodes[1..]);
      hide Chain, Holds;
      node := first;
      first := first.next;
      length := length - 1;
      if first == null {
        last := null;
        length := 0;
      }
      nodes, queued := nodes[1..], queued[1..];
    }

    /** release_msglist */
    method ReleaseNode(node: Node)
      requires Linked() && node !in nodes && node !in pool
      requires msgpoolLength == 0 || msgpoolLength + length <= POOL_SIZE
      modifies this`msgpool, this`msgpoolLength, this`pool, node
      ensures Linked() && PoolFits()
      ensures msgpoolLength == if old(msgpoolLength) + length < POOL_SIZE then old(msgpoolLength) + 1 else old(msgpoolLength)
    {
      if msgpoolLength + length < POOL_SIZE {
        node.msg := BLANK;
        node.next := msgpool;
        SameLinks();
        ChainCons(node, pool);
        hide Chain, Holds;
        msgpool := node;
        msgpoolLength := msgpoolLength + 1;
        pool := [node] + pool;
      }
    }

    /** The end of thread_queue_get, when there is a message. */
    method Take() returns (outcome: Outcome)
      requires Valid() && first != null
      modifies this, nodes
      ensures Valid() && waiting == old(waiting) && added == old(added) && old(queued) != []
      ensures outcome == Got(old(queued[0]), |queued|)
      ensures queued == old(queued[1..]) && delivered == old(delivered) + [old(queued[0])]
    {
      hide Chain, Holds;
      var node := Unlink();
      var msg := node.msg;
      outcome := Got(msg, length);
      delivered := delivered + [msg];
      ReleaseNode(node);
    }

    /** thread_queue_get up to its first wait. */
    method Get(t: ThreadId) returns (outcome: Outcome)
      requires Valid() && t !in waiting
      modifies this, nodes
      ensures Valid() && added == old(added)
      ensures if old(queued) != [] then Delivers(old(queued), old(delivered), outcome) && waiting == old(waiting)
              else outcome == Waits && queued == [] && delivered == old(delivered) && waiting == old(waiting)[t := false]
    {
      NothingQueued();
      hide Chain, Holds;
      if first == null {
        outcome := Waits;
        waiting := waiting[t := false];
      } else {
        outcome := Take();
      }
    }

    /** A thread comes back from its wait: signalled, for no reason, or because its time is up. A timeout
        is reported even when a message has come in meanwhile, and then leaves it where it is. */
    method Wake(t: ThreadId, timeIsUp: bool) returns (outcome: Outcome)
      requires Valid() && t in waiting
      modifies this, nodes
      ensures Valid() && added == old(added)
      ensures waiting == if outcome == Waits then old(waiting)[t := false] else old(waiting) - {t}
      ensures timeIsUp <==> outcome == TimedOut
      ensures outcome == Waits ==> old(queued) == []
      ensures if outcome.Got? then old(queued) != [] && Delivers(old(queued), old(delivered), outcome)
              else queued == old(queued) && delivered == old(delivered)
    {
      NothingQueued();
      hide Chain, Holds;
      if timeIsUp {
        waiting := waiting - {t};
        outcome := TimedOut;
      } else if first == null {
        waiting := waiting[t := false];
        outcome := Waits;
      } else {
        waiting := waiting - {t};
        outcome := Take();
      }
    }

    /** The oldest message was given out, together with how many are left. */
    ghost predicate Delivers(before: seq<Message>, sofar: seq<Message>, outcome: Outcome)
      requires before != []
      reads this
    {
      outcome == Got(before[0], |before| - 1) && queued == before[1..] && delivered == sofar + [before[0]]
    }

    lemma NothingQueued()
      requires Linked()
      ensures first == null <==> queued == []
    {
    }

    /** Whatever threads have done: what was given out is what was put in, in that order and without the
        rest; while any of the rest is left, every thread still waiting has been signalled. */
    lemma IsFifo()
      requires Valid()
      ensures |delivered| <= |added| && delivered == added[..|delivered|] && queued == added[|delivered|..]
      ensures queued != [] ==> forall t :: t in waiting ==> waiting[t]
      ensures length == |queued|
      ensures |pool| == 0 || |pool| + |nodes| <= 32
    {
    }
  }
}
