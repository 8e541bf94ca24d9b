/** Shared, use-counted message blocks and the queues they wait in (src/libfootball/fb_message.c).
    Pointers are identifiers, and the heap of blocks and list nodes is a pair of maps. */
module Messages {
  import opened Basics

  newtype byte = x: int | 0 <= x < 256

  type MessageId = nat
  type NodeId = nat

  /** FB_MESSAGE: its text is released, and the block put on the free list, at use count 0. */
  datatype Block = Block(usecount: int, text: Option<seq<byte>>)

  /** The two queues of a connection. */
  datatype QueueId = Out(connection: nat) | Assembly(connection: nat)

  /** FB_IOQUEUE: its list nodes from first to last, and how much of the first is used up. */
  datatype Queue = Queue(nodes: seq<NodeId>, consumed: nat)

  const EmptyQueue := Queue([], 0)

  // ---------------------------------------------------------------- what makes a store consistent

  /** The queue nodes that refer to a message. `place` is the queue each node in use is in. */
  ghost function References(place: map<NodeId, QueueId>, messageOf: map<NodeId, MessageId>, m: MessageId): set<NodeId> {
    set n | n in place && n in messageOf && messageOf[n] == m
  }

  /** Every node is in one queue, once, or on the free list. */
  ghost predicate NodesValid(messageOf: map<NodeId, MessageId>, freeNodes: seq<NodeId>,
                             queues: map<QueueId, Queue>, place: map<NodeId, QueueId>)
  {
    && NoRepeats(freeNodes)
    && (forall n :: n in freeNodes ==> n in messageOf && n !in place)
    && (forall n :: n in place ==> n in messageOf && place[n] in queues && n in queues[place[n]].nodes)
    && (forall q :: q in queues ==> NoRepeats(queues[q].nodes))
    && (forall q, n :: q in queues && n in queues[q].nodes ==> n in place && place[n] == q)
  }

  /** A use count is the number of nodes that refer to the message and of references callers hold;
      the text is kept, and the block off the free list, just as long as that is not zero. */
  ghost predicate BlockValid(m: MessageId, b: Block, freeMessages: seq<MessageId>, place: map<NodeId, QueueId>,
                             messageOf: map<NodeId, MessageId>, held: multiset<MessageId>)
  {
    && b.usecount == |References(place, messageOf, m)| + held[m]
    && (b.text.Some? <==> b.usecount != 0)
    && (m in freeMessages <==> b.usecount == 0)
  }

  ghost predicate BlocksValid(blocks: map<MessageId, Block>, freeMessages: seq<MessageId>, place: map<NodeId, QueueId>,
                              messageOf: map<NodeId, MessageId>, held: multiset<MessageId>)
  {
    && NoRepeats(freeMessages)
    && (forall m :: m in freeMessages ==> m in blocks)
    && (forall m :: m in held ==> m in blocks)
    && (forall n :: n in place && n in messageOf ==> messageOf[n] in blocks)
    && (forall m :: m in blocks ==> BlockValid(m, blocks[m], freeMessages, place, messageOf, held))
  }

  /** Taking a block for a new message, off the free list or from malloc(3). */
  lemma NewBlockValid(blocks: map<MessageId, Block>, freeMessages: seq<MessageId>, place: map<NodeId, QueueId>,
                      messageOf: map<NodeId, MessageId>, held: multiset<MessageId>, m: MessageId, text: seq<byte>)
    requires BlocksValid(blocks, freeMessages, place, messageOf, held)
    requires if freeMessages == [] then m !in blocks else m == freeMessages[0]
    ensures BlocksValid(blocks[m := Block(1, Some(text))], if freeMessages == [] then [] else freeMessages[1..],
                        place, messageOf, held + multiset{m})
    ensures m in blocks ==> blocks[m].text.None?
  {
    var free' := if freeMessages == [] then [] else freeMessages[1..];
    var blocks' := blocks[m := Block(1, Some(text))];
    assert m !in blocks ==> held[m] == 0 && References(place, messageOf, m) == {};
    assert forall k :: k in free' <==> k in freeMessages && k != m;
    forall k | k in blocks'
      ensures BlockValid(k, blocks'[k], free', place, messageOf, held + multiset{m})
    {
      if k != m {
        assert BlockValid(k, blocks[k], freeMessages, place, messageOf, held);
      } else if m in blocks {
        assert BlockValid(m, blocks[m], freeMessages, place, messageOf, held);
      }
    }
  }

  /** Dropping one reference, of those held or by one node. */
  function Release(b: Block): Block {
    if b.usecount <= 1 then Block(b.usecount - 1, None) else Block(b.usecount - 1, b.text)
  }

  lemma DropBlockValid(blocks: map<MessageId, Block>, freeMessages: seq<MessageId>, place: map<NodeId, QueueId>, place': map<NodeId, QueueId>,
                       messageOf: map<NodeId, MessageId>, held: multiset<MessageId>, held': multiset<MessageId>, m: MessageId)
    requires BlocksValid(blocks, freeMessages, place, messageOf, held) && m in blocks
    requires forall n :: n in place' ==> n in place
    requires forall k :: k in held' ==> k in held
    requires forall k :: k != m ==> References(place', messageOf, k) == References(place, messageOf, k) && held'[k] == held[k]
    requires |References(place', messageOf, m)| + held'[m] == |References(place, messageOf, m)| + held[m] - 1
    ensures blocks[m].usecount > 0
    ensures BlocksValid(blocks[m := Release(blocks[m])],
                        if blocks[m].usecount == 1 then [m] + freeMessages else freeMessages, place', messageOf, held')
  {
    assert BlockValid(m, blocks[m], freeMessages, place, messageOf, held);
    var free' := if blocks[m].usecount == 1 then [m] + freeMessages else freeMessages;
    var blocks' := blocks[m := Release(blocks[m])];
    forall k | k in blocks'
      ensures BlockValid(k, blocks'[k], free', place', messageOf, held')
    {
      assert BlockValid(k, blocks[k], freeMessages, place, messageOf, held);
      assert k != m ==> (k in free' <==> k in freeMessages);
    }
  }

  function Held(b: Block): Block {
    Block(b.usecount + 1, b.text)
  }

  /** A caller takes one more reference. */
  lemma HoldBlocksValid(blocks: map<MessageId, Block>, freeMessages: seq<MessageId>, place: map<NodeId, QueueId>,
                        messageOf: map<NodeId, MessageId>, held: multiset<MessageId>, m: MessageId)
    requires BlocksValid(blocks, freeMessages, place, messageOf, held) && m in blocks && m in held
    ensures BlocksValid(blocks[m := Held(blocks[m])], freeMessages, place, messageOf, held + multiset{m})
  {
    assert BlockValid(m, blocks[m], freeMessages, place, messageOf, held);
    var blocks', held' := blocks[m := Held(blocks[m])], held + multiset{m};
    forall k | k in blocks'
      ensures BlockValid(k, blocks'[k], freeMessages, place, messageOf, held')
    {
      assert BlockValid(k, blocks[k], freeMessages, place, messageOf, held);
    }
  }

  /** A caller's reference is dropped. */
  lemma DropHeld(blocks: map<MessageId, Block>, freeMessages: seq<MessageId>, place: map<NodeId, QueueId>,
                 messageOf: map<NodeId, MessageId>, held: multiset<MessageId>, m: MessageId)
    requires BlocksValid(blocks, freeMessages, place, messageOf, held) && m in blocks && m in held
    ensures blocks[m].usecount > 0
    ensures BlocksValid(blocks[m := Release(blocks[m])],
                        if blocks[m].usecount == 1 then [m] + freeMessages else freeMessages, place, messageOf, held - multiset{m})
  {
    hide BlocksValid, References;
    DropBlockValid(blocks, freeMessages, place, place, messageOf, held, held - multiset{m}, m);
  }

  // ---------------------------------------------------------------- what a queue holds

  function TextOf(blocks: map<MessageId, Block>, m: MessageId): seq<byte> {
    if m in blocks && blocks[m].text.Some? then blocks[m].text.value else []
  }

  /** The texts waiting in a list of nodes. */
  function TextsOf(blocks: map<MessageId, Block>, messageOf: map<NodeId, MessageId>, nodes: seq<NodeId>): (r: seq<seq<byte>>)
    ensures |r| == |nodes|
  {
    seq(|nodes|, i requires 0 <= i < |nodes| => if nodes[i] in messageOf then TextOf(blocks, messageOf[nodes[i]]) else [])
  }

  /** A queue as its users see it: the texts in it, and how much of the first is used up. */
  datatype View = View(texts: seq<seq<byte>>, consumed: nat) {
    predicate Sound() {
      if texts == [] then consumed == 0 else consumed <= |texts[0]|
    }

    /** The bytes still to come out. */
    function Pending(): seq<byte> {
      if texts == [] || consumed > |texts[0]| then [] else texts[0][consumed..] + Concat(texts[1..])
    }

    /** The queue once `n` more bytes of the first text are used. */
    function Consume(n: nat): View {
      if texts != [] && consumed + n >= |texts[0]| then View(texts[1..], 0) else View(texts, consumed + n)
    }
  }

  function Concat(texts: seq<seq<byte>>): seq<byte> {
    if texts == [] then [] else texts[0] + Concat(texts[1..])
  }

  lemma {:induction false} ConcatAppend(texts: seq<seq<byte>>, text: seq<byte>)
    ensures Concat(texts + [text]) == Concat(texts) + text
  {
    if texts == [] {
      assert texts + [text] == [text];
      assert Concat([text]) == text + Concat([]);
    } else {
      assert (texts + [text])[1..] == texts[1..] + [text];
      ConcatAppend(texts[1..], text);
    }
  }

  lemma PendingAppend(v: View, text: seq<byte>)
    requires v.Sound()
    ensures View(v.texts + [text], v.consumed).Sound()
    ensures View(v.texts + [text], v.consumed).Pending() == v.Pending() + text
  {
    if v.texts == [] {
      assert v.texts + [text] == [text] && [text][1..] == [];
    } else {
      hide Concat;
      assert (v.texts + [text])[1..] == v.texts[1..] + [text];
      ConcatAppend(v.texts[1..], text);
      assert v.texts[0][v.consumed..] + (Concat(v.texts[1..]) + text) == v.texts[0][v.consumed..] + Concat(v.texts[1..]) + text;
    }
  }

  /** A queue nothing of which is used up yet. */
  lemma PendingWhole(texts: seq<seq<byte>>)
    ensures View(texts, 0).Sound() && View(texts, 0).Pending() == Concat(texts)
  {
    if texts != [] {
      assert texts[0][0..] == texts[0];
    }
  }

  lemma DropFirst(first: seq<byte>, rest: seq<byte>, n: nat)
    requires n <= |first|
    ensures (first + rest)[n..] == first[n..] + rest && (first + rest)[..n] == first[..n]
  {
  }

  lemma PendingConsume(v: View, n: nat)
    requires v.Sound() && v.texts != [] && n <= |v.texts[0]| - v.consumed
    ensures v.Consume(n).Sound()
    ensures n <= |v.Pending()| && v.Consume(n).Pending() == v.Pending()[n..]
    ensures v.Pending()[..n] == v.texts[0][v.consumed..v.consumed + n]
  {
    hide Concat;
    var first, rest := v.texts[0][v.consumed..], Concat(v.texts[1..]);
    DropFirst(first, rest, n);
    if v.consumed + n >= |v.texts[0]| {
      PendingWhole(v.texts[1..]);
      assert first[n..] == [] && [] + rest == rest;
    } else {
      assert first[n..] == v.texts[0][v.consumed + n..];
    }
  }

  // ---------------------------------------------------------------- nodes come and go

  /** A held reference handed over to a node put at the end of a queue. */
  lemma AttachNodesValid(messageOf: map<NodeId, MessageId>, freeNodes: seq<NodeId>, queues: map<QueueId, Queue>,
                         place: map<NodeId, QueueId>, q: QueueId, n: NodeId, m: MessageId)
    requires NodesValid(messageOf, freeNodes, queues, place) && q in queues
    requires if freeNodes == [] then n !in messageOf else n == freeNodes[0]
    ensures n !in place && n !in queues[q].nodes
    ensures NodesValid(messageOf[n := m], if freeNodes == [] then [] else freeNodes[1..],
                       queues[q := queues[q].(nodes := queues[q].nodes + [n])], place[n := q])
  {
    assert freeNodes != [] ==> freeNodes[0] in freeNodes;
  }

  lemma AttachBlocksValid(blocks: map<MessageId, Block>, freeMessages: seq<MessageId>, messageOf: map<NodeId, MessageId>,
                          place: map<NodeId, QueueId>, held: multiset<MessageId>, q: QueueId, n: NodeId, m: MessageId)
    requires BlocksValid(blocks, freeMessages, place, messageOf, held) && m in held && n !in place
    ensures BlocksValid(blocks, freeMessages, place[n := q], messageOf[n := m], held - multiset{m})
  {
    var place', messageOf' := place[n := q], messageOf[n := m];
    forall k | k in blocks
      ensures BlockValid(k, blocks[k], freeMessages, place', messageOf', held - multiset{m})
    {
      assert BlockValid(k, blocks[k], freeMessages, place, messageOf, held);
      if k == m {
        assert References(place', messageOf', m) == References(place, messageOf, m) + {n};
      } else {
        assert References(place', messageOf', k) == References(place, messageOf, k);
      }
    }
  }

  /** The first node of a queue taken out and put on the free list. */
  lemma DetachNodesValid(messageOf: map<NodeId, MessageId>, freeNodes: seq<NodeId>, queues: map<QueueId, Queue>,
                         place: map<NodeId, QueueId>, q: QueueId, consumed: nat)
    requires NodesValid(messageOf, freeNodes, queues, place) && q in queues && queues[q].nodes != []
    ensures var nodes := queues[q].nodes;
            NodesValid(messageOf, [nodes[0]] + freeNodes, queues[q := Queue(nodes[1..], consumed)], place - {nodes[0]})
  {
    var nodes := queues[q].nodes;
    assert nodes[0] in nodes && nodes == [nodes[0]] + nodes[1..];
    assert NoRepeats(nodes) && NoRepeats(nodes[1..]);
    assert nodes[0] !in freeNodes;
    assert NoRepeats([nodes[0]] + freeNodes) && nodes[0] !in nodes[1..];
    hide NoRepeats;
    var queues', place' := queues[q := Queue(nodes[1..], consumed)], place - {nodes[0]};
    forall p, n | p in queues' && n in queues'[p].nodes
      ensures n in place' && place'[n] == p
    {
      assert n in queues[p].nodes && place[n] == p && place[nodes[0]] == q;
    }
  }

  lemma DetachBlocksValid(blocks: map<MessageId, Block>, freeMessages: seq<MessageId>, messageOf: map<NodeId, MessageId>,
                          place: map<NodeId, QueueId>, held: multiset<MessageId>, n: NodeId)
    requires BlocksValid(blocks, freeMessages, place, messageOf, held) && n in place && n in messageOf
    ensures var m := messageOf[n];
            && m in blocks && blocks[m].usecount > 0
            && BlocksValid(blocks[m := Release(blocks[m])],
                           if blocks[m].usecount == 1 then [m] + freeMessages else freeMessages, place - {n}, messageOf, held)
  {
    var m := messageOf[n];
    var place' := place - {n};
    assert References(place', messageOf, m) == References(place, messageOf, m) - {n};
    assert n in References(place, messageOf, m);
    forall k | k != m
      ensures References(place', messageOf, k) == References(place, messageOf, k)
    {
    }
    DropBlockValid(blocks, freeMessages, place, place', messageOf, held, held, m);
  }

  // ---------------------------------------------------------------- queue contents step by step

  function ViewIn(blocks: map<MessageId, Block>, messageOf: map<NodeId, MessageId>, queues: map<QueueId, Queue>, q: QueueId): View {
    if q in queues then View(TextsOf(blocks, messageOf, queues[q].nodes), queues[q].consumed) else View([], 0)
  }

  /** Everything a queue_add does to the contents of queues. */
  lemma AttachViews(blocks: map<MessageId, Block>, messageOf: map<NodeId, MessageId>, freeNodes: seq<NodeId>,
                    queues: map<QueueId, Queue>, place: map<NodeId, QueueId>, q: QueueId, n: NodeId, m: MessageId)
    requires NodesValid(messageOf, freeNodes, queues, place) && q in queues && n !in place
    ensures var queues' := queues[q := queues[q].(nodes := queues[q].nodes + [n])]; var v := ViewIn(blocks, messageOf, queues, q);
            && ViewIn(blocks, messageOf[n := m], queues', q) == View(v.texts + [TextOf(blocks, m)], v.consumed)
            && forall p :: p != q ==> ViewIn(blocks, messageOf[n := m], queues', p) == ViewIn(blocks, messageOf, queues, p)
  {
    var queues' := queues[q := queues[q].(nodes := queues[q].nodes + [n])];
    forall p | p in queues
      ensures TextsOf(blocks, messageOf[n := m], queues[p].nodes) == TextsOf(blocks, messageOf, queues[p].nodes)
    {
      assert n !in queues[p].nodes;
    }
    var nodes := queues[q].nodes;
    assert TextsOf(blocks, messageOf[n := m], nodes + [n])
           == TextsOf(blocks, messageOf[n := m], nodes) + [TextOf(blocks, m)];
  }

  /** Releasing one reference to a message leaves alone every queue still in place. */
  lemma ReleaseViews(blocks: map<MessageId, Block>, freeMessages: seq<MessageId>, messageOf: map<NodeId, MessageId>,
                     queues: map<QueueId, Queue>, place': map<NodeId, QueueId>, held': multiset<MessageId>, m: MessageId, p: QueueId)
    requires m in blocks && blocks[m].usecount > 0
    requires BlocksValid(blocks[m := Release(blocks[m])],
                         if blocks[m].usecount == 1 then [m] + freeMessages else freeMessages, place', messageOf, held')
    requires p in queues ==> forall n :: n in queues[p].nodes ==> n in place' && n in messageOf
    ensures ViewIn(blocks[m := Release(blocks[m])], messageOf, queues, p) == ViewIn(blocks, messageOf, queues, p)
  {
    if p in queues {
      var nodes := queues[p].nodes;
      var blocks' := blocks[m := Release(blocks[m])];
      forall i | 0 <= i < |nodes|
        ensures TextsOf(blocks', messageOf, nodes)[i] == TextsOf(blocks, messageOf, nodes)[i]
      {
        ReferencedKeepsText(blocks, freeMessages, messageOf, place', held', m, nodes[i]);
      }
    }
  }

  lemma ReferencedKeepsText(blocks: map<MessageId, Block>, freeMessages: seq<MessageId>, messageOf: map<NodeId, MessageId>,
                            place': map<NodeId, QueueId>, held': multiset<MessageId>, m: MessageId, n: NodeId)
    requires m in blocks && blocks[m].usecount > 0
    requires BlocksValid(blocks[m := Release(blocks[m])],
                         if blocks[m].usecount == 1 then [m] + freeMessages else freeMessages, place', messageOf, held')
    requires n in place' && n in messageOf
    ensures TextOf(blocks[m := Release(blocks[m])], messageOf[n]) == TextOf(blocks, messageOf[n])
  {
    var blocks' := blocks[m := Release(blocks[m])];
    assert n in References(place', messageOf, messageOf[n]);
    assert BlockValid(messageOf[n], blocks'[messageOf[n]],
                      if blocks[m].usecount == 1 then [m] + freeMessages else freeMessages, place', messageOf, held');
  }

  /** Taking the first message out of a queue leaves the rest of it, and every other queue, alone. */
  lemma DetachViews(blocks: map<MessageId, Block>, freeMessages: seq<MessageId>, messageOf: map<NodeId, MessageId>,
                    freeNodes: seq<NodeId>, queues: map<QueueId, Queue>, place: map<NodeId, QueueId>,
                    held: multiset<MessageId>, q: QueueId)
    requires NodesValid(messageOf, freeNodes, queues, place) && q in queues && queues[q].nodes != []
    requires BlocksValid(blocks, freeMessages, place, messageOf, held)
    ensures var n := queues[q].nodes[0];
            && n in place && n in messageOf && messageOf[n] in blocks
            && var blocks' := blocks[messageOf[n] := Release(blocks[messageOf[n]])];
               var queues' := queues[q := Queue(queues[q].nodes[1..], 0)];
            && ViewIn(blocks', messageOf, queues', q) == View(ViewIn(blocks, messageOf, queues, q).texts[1..], 0)
            && forall p :: p != q ==> ViewIn(blocks', messageOf, queues', p) == ViewIn(blocks, messageOf, queues, p)
  {
    hide BlocksValid;
    hide TextsOf;
    var nodes := queues[q].nodes;
    var n := nodes[0];
    assert n in nodes;
    DetachBlocksValid(blocks, freeMessages, messageOf, place, held, n);
    DetachNodesValid(messageOf, freeNodes, queues, place, q, 0);
    var m := messageOf[n];
    var queues' := queues[q := Queue(nodes[1..], 0)];
    assert forall p, k :: p in queues' && k in queues'[p].nodes ==> k in place - {n} && k in messageOf;
    forall p
      ensures ViewIn(blocks[m := Release(blocks[m])], messageOf, queues', p) == ViewIn(blocks, messageOf, queues', p)
    {
      ReleaseViews(blocks, freeMessages, messageOf, queues', place - {n}, held, m, p);
    }
    TextsOfRest(blocks, messageOf, nodes);
    assert ViewIn(blocks, messageOf, queues', q) == View(TextsOf(blocks, messageOf, nodes[1..]), 0);
    forall p | p != q
      ensures ViewIn(blocks, messageOf, queues', p) == ViewIn(blocks, messageOf, queues, p)
    {
    }
  }

  lemma TextsOfRest(blocks: map<MessageId, Block>, messageOf: map<NodeId, MessageId>, nodes: seq<NodeId>)
    requires nodes != []
    ensures TextsOf(blocks, messageOf, nodes[1..]) == TextsOf(blocks, messageOf, nodes)[1..]
  {
  }

  /** A block taken for a new message was in no queue, and held by no one. */
  lemma NewBlockViews(blocks: map<MessageId, Block>, freeMessages: seq<MessageId>, messageOf: map<NodeId, MessageId>,
                      freeNodes: seq<NodeId>, queues: map<QueueId, Queue>, place: map<NodeId, QueueId>,
                      held: multiset<MessageId>, m: MessageId, b: Block)
    requires NodesValid(messageOf, freeNodes, queues, place) && BlocksValid(blocks, freeMessages, place, messageOf, held)
    requires m in blocks ==> blocks[m].text.None?
    ensures forall p :: ViewIn(blocks[m := b], messageOf, queues, p) == ViewIn(blocks, messageOf, queues, p)
    ensures m !in held
  {
    if m in blocks {
      assert BlockValid(m, blocks[m], freeMessages, place, messageOf, held);
      assert References(place, messageOf, m) == {};
    }
    forall p | p in queues
      ensures TextsOf(blocks[m := b], messageOf, queues[p].nodes) == TextsOf(blocks, messageOf, queues[p].nodes)
    {
      forall n | n in queues[p].nodes
        ensures n in messageOf && messageOf[n] != m
      {
        assert n in place && n in messageOf && messageOf[n] in blocks;
        assert messageOf[n] == m ==> n in References(place, messageOf, m);
      }
    }
  }

  /** Letting go of a reference nobody's queue needs leaves all queues alone. */
  lemma FreeViews(blocks: map<MessageId, Block>, freeMessages: seq<MessageId>, messageOf: map<NodeId, MessageId>,
                  freeNodes: seq<NodeId>, queues: map<QueueId, Queue>, place: map<NodeId, QueueId>,
                  held': multiset<MessageId>, m: MessageId)
    requires NodesValid(messageOf, freeNodes, queues, place) && m in blocks && blocks[m].usecount > 0
    requires BlocksValid(blocks[m := Release(blocks[m])],
                         if blocks[m].usecount == 1 then [m] + freeMessages else freeMessages, place, messageOf, held')
    ensures forall p :: ViewIn(blocks[m := Release(blocks[m])], messageOf, queues, p) == ViewIn(blocks, messageOf, queues, p)
  {
    hide BlocksValid, ViewIn;
    assert forall p, n :: p in queues && n in queues[p].nodes ==> n in place && n in messageOf;
    forall p
      ensures ViewIn(blocks[m := Release(blocks[m])], messageOf, queues, p) == ViewIn(blocks, messageOf, queues, p)
    {
      ReleaseViews(blocks, freeMessages, messageOf, queues, place, held', m, p);
    }
  }

  /** The nodes of a queue all at once on the free list. */
  lemma DestroyNodesValid(messageOf: map<NodeId, MessageId>, freeNodes: seq<NodeId>, queues: map<QueueId, Queue>,
                          place: map<NodeId, QueueId>, q: QueueId, consumed: nat)
    requires NodesValid(messageOf, freeNodes, queues, place) && q in queues
    ensures NodesValid(messageOf, queues[q].nodes + freeNodes, queues[q := Queue([], consumed)],
                       place - set n | n in queues[q].nodes)
  {
    var nodes := queues[q].nodes;
    var gone := set n | n in nodes;
    var free' := nodes + freeNodes;
    assert NoRepeats(nodes);
    forall i, j | 0 <= i < j < |free'|
      ensures free'[i] != free'[j]
    {
      if i < |nodes| && j >= |nodes| {
        assert free'[i] in nodes && free'[j] in freeNodes;
      }
    }
    var queues', place' := queues[q := Queue([], consumed)], place - gone;
    forall p, n | p in queues' && n in queues'[p].nodes
      ensures n in place' && place'[n] == p
    {
      assert p != q && n in queues[p].nodes && place[n] == p;
    }
    forall n | n in place'
      ensures n in messageOf && place'[n] in queues' && n in queues'[place'[n]].nodes
    {
      assert place[n] == q ==> n in nodes;
    }
  }

  /** An address malloc(3) may return: one not in use. */
  method FreshId(used: set<nat>) returns (id: nat)
    ensures id !in used
  {
    id := 0;
    ghost var rest := used;
    while id in used
      invariant rest == set x | x in used && x >= id
      decreases rest
    {
      rest := rest - {id};
      id := id + 1;
    }
  }

  /** Counting a reference changes no text. */
  lemma SameTexts(blocks: map<MessageId, Block>, messageOf: map<NodeId, MessageId>, queues: map<QueueId, Queue>, m: MessageId)
    requires m in blocks
    ensures var blocks' := blocks[m := Held(blocks[m])];
            && (forall k :: TextOf(blocks', k) == TextOf(blocks, k))
            && (forall q :: ViewIn(blocks', messageOf, queues, q) == ViewIn(blocks, messageOf, queues, q))
  {
    var blocks' := blocks[m := Held(blocks[m])];
    assert forall k :: TextOf(blocks', k) == TextOf(blocks, k);
    hide TextOf;
    forall q
      ensures ViewIn(blocks', messageOf, queues, q) == ViewIn(blocks, messageOf, queues, q)
    {
      if q in queues {
        assert TextsOf(blocks', messageOf, queues[q].nodes) == TextsOf(blocks, messageOf, queues[q].nodes);
      }
    }
  }

  // ---------------------------------------------------------------- the module's state

  class MessageStore {
    var blocks: map<MessageId, Block>
    var freeMessages: seq<MessageId>
    var messageOf: map<NodeId, MessageId>
    var freeNodes: seq<NodeId>
    var queues: map<QueueId, Queue>
    ghost var place: map<NodeId, QueueId>
    /** References callers hold: to messages just made, or being broadcast. */
    ghost var held: multiset<MessageId>

    ghost predicate Valid()
      reads this
    {
      && NodesValid(messageOf, freeNodes, queues, place)
      && BlocksValid(blocks, freeMessages, place, messageOf, held)
    }

    function ViewOf(q: QueueId): View
      reads this
    {
      ViewIn(blocks, messageOf, queues, q)
    }

    constructor ()
      ensures Valid() && queues == map[] && held == multiset{}
    {
      blocks, freeMessages, messageOf, freeNodes, queues := map[], [], map[], [], map[];
      place, held := map[], multiset{};
    }

    /** fb_messagealloc, and the text put in the new block by its caller. */
    method NewMessage(text: seq<byte>) returns (m: MessageId)
      requires Valid()
      modifies this`blocks, this`freeMessages, this`held
      ensures Valid() && held == old(held) + multiset{m}
      ensures m in blocks && blocks[m] == Block(1, Some(text))
      ensures forall p :: ViewOf(p) == old(ViewOf(p))
      ensures forall k :: k in old(held) ==> k != m && TextOf(blocks, k) == old(TextOf(blocks, k))
    {
      hide NodesValid, BlocksValid, TextsOf;
      ghost var free0 := freeMessages;
      m := TakeBlock();
      NewBlockValid(blocks, free0, place, messageOf, held, m, text);
      NewBlockViews(blocks, free0, messageOf, freeNodes, queues, place, held, m, Block(1, Some(text)));
      blocks := blocks[m := Block(1, Some(text))];
      held := held + multiset{m};
    }

    method TakeBlock() returns (m: MessageId)
      modifies this`freeMessages
      ensures if old(freeMessages) == [] then m !in blocks else m == old(freeMessages)[0]
      ensures freeMessages == if old(freeMessages) == [] then [] else old(freeMessages)[1..]
    {
      if freeMessages != [] {
        m := freeMessages[0];
        freeMessages := freeMessages[1..];
      } else {
        m := FreshId(blocks.Keys);
      }
    }

    /** A broadcast takes one more reference before handing the message to a connection. */
    method Hold(m: MessageId)
      requires Valid() && m in held
      modifies this`blocks, this`held
      ensures Valid() && held == old(held) + multiset{m}
      ensures forall p :: ViewOf(p) == old(ViewOf(p))
      ensures forall k :: TextOf(blocks, k) == old(TextOf(blocks, k))
    {
      HoldBlocksValid(blocks, freeMessages, place, messageOf, held, m);
      SameTexts(blocks, messageOf, queues, m);
      hide NodesValid, BlocksValid, TextOf, ViewIn, Held;
      blocks := blocks[m := Held(blocks[m])];
      held := held + multiset{m};
    }

    /** fb_messagefree, by a caller that holds a reference. */
    method MessageFree(m: MessageId)
      requires Valid() && m in held
      modifies this`blocks, this`freeMessages, this`held
      ensures Valid() && held == old(held) - multiset{m}
      ensures forall p :: ViewOf(p) == old(ViewOf(p))
      ensures forall k :: k in held ==> TextOf(blocks, k) == old(TextOf(blocks, k))
    {
      HeldIsKnown(m);
      hide NodesValid, BlocksValid, ViewIn, TextOf;
      DropHeld(blocks, freeMessages, place, messageOf, held, m);
      FreeViews(blocks, freeMessages, messageOf, freeNodes, queues, place, held - multiset{m}, m);
      HeldKeepsText(blocks, freeMessages, messageOf, place, held - multiset{m}, m);
      ReleaseBlock(m);
      held := held - multiset{m};
    }

    lemma HeldIsKnown(m: MessageId)
      requires Valid() && m in held
      ensures m in blocks
    {
    }

    method ReleaseBlock(m: MessageId)
      requires m in blocks && blocks[m].usecount > 0
      modifies this`blocks, this`freeMessages
      ensures blocks == old(blocks)[m := Release(old(blocks)[m])]
      ensures freeMessages == if old(blocks)[m].usecount == 1 then [m] + old(freeMessages) else old(freeMessages)
    {
      blocks := blocks[m := blocks[m].(usecount := blocks[m].usecount - 1)];
      if blocks[m].usecount <= 0 {
        blocks := blocks[m := blocks[m].(text := None)];
        freeMessages := [m] + freeMessages;
      }
    }

    /** A new connection's queues start empty. */
    method CreateQueue(q: QueueId)
      requires Valid() && q !in queues
      modifies this`queues
      ensures Valid() && queues == old(queues)[q := EmptyQueue]
      ensures ViewOf(q) == View([], 0) && forall p :: ViewOf(p) == old(ViewOf(p))
    {
      queues := queues[q := EmptyQueue];
    }

    /** fb_qalloc. */
    method TakeNode() returns (n: NodeId)
      modifies this`freeNodes
      ensures if old(freeNodes) == [] then n !in messageOf else n == old(freeNodes)[0]
      ensures freeNodes == if old(freeNodes) == [] then [] else old(freeNodes)[1..]
    {
      if freeNodes != [] {
        n := freeNodes[0];
        freeNodes := freeNodes[1..];
      } else {
        n := FreshId(messageOf.Keys);
      }
    }

    /** fb_queue_add: the caller's reference passes to the queue. */
    method QueueAdd(q: QueueId, m: MessageId)
      requires Valid() && q in queues && m in held
      modifies this`messageOf, this`freeNodes, this`queues, this`place, this`held
      ensures Valid() && held == old(held) - multiset{m} && queues.Keys == old(queues).Keys
      ensures ViewOf(q) == View(old(ViewOf(q)).texts + [TextOf(blocks, m)], old(ViewOf(q)).consumed)
      ensures forall p :: p != q ==> ViewOf(p) == old(ViewOf(p))
    {
      hide NodesValid, BlocksValid, TextsOf, TextOf, ViewIn;
      ghost var free0 := freeNodes;
      var n := TakeNode();
      AttachNodesValid(messageOf, free0, queues, place, q, n, m);
      AttachBlocksValid(blocks, freeMessages, messageOf, place, held, q, n, m);
      AttachViews(blocks, messageOf, free0, queues, place, q, n, m);
      messageOf := messageOf[n := m];
      queues := queues[q := queues[q].(nodes := queues[q].nodes + [n])];
      place := place[n := q];
      held := held - multiset{m};
    }

    /** fb_queue_consume: use up bytes at the front, within the first message. */
    method QueueConsume(q: QueueId, consume: nat)
      requires Valid() && q in queues && ViewOf(q).texts != []
      requires ViewOf(q).consumed + consume <= |ViewOf(q).texts[0]|
      modifies this`blocks, this`freeMessages, this`freeNodes, this`queues, this`place
      ensures Valid() && queues.Keys == old(queues).Keys
      ensures ViewOf(q) == old(ViewOf(q)).Consume(consume)
      ensures forall p :: p != q ==> ViewOf(p) == old(ViewOf(p))
      ensures forall m :: m in held ==> TextOf(blocks, m) == old(TextOf(blocks, m))
    {
      hide NodesValid, BlocksValid;
      FirstIsPlaced(q);
      var consumed := queues[q].consumed + consume;
      var nodes := queues[q].nodes;
      var m := messageOf[nodes[0]];
      if consumed >= |TextOf(blocks, m)| {
        DetachViews(blocks, freeMessages, messageOf, freeNodes, queues, place, held, q);
        DetachNodesValid(messageOf, freeNodes, queues, place, q, 0);
        DetachBlocksValid(blocks, freeMessages, messageOf, place, held, nodes[0]);
        HeldKeepsText(blocks, freeMessages, messageOf, place - {nodes[0]}, held, m);
        queues := queues[q := Queue(nodes[1..], 0)];
        place := place - {nodes[0]};
        ReleaseBlock(m);
        freeNodes := [nodes[0]] + freeNodes;
      } else {
        ConsumeNodesValid(messageOf, freeNodes, queues, place, q, consumed);
        queues := queues[q := Queue(nodes, consumed)];
      }
    }

    /** fb_queue_destroy: every message is let go, then the whole list joins the free list. How much
        of the first message was used up is not reset. */
    method QueueDestroy(q: QueueId)
      requires Valid() && q in queues
      modifies this`blocks, this`freeMessages, this`freeNodes, this`queues, this`place
      ensures Valid() && queues.Keys == old(queues).Keys
      ensures ViewOf(q) == View([], old(ViewOf(q)).consumed)
      ensures forall p :: p != q ==> ViewOf(p) == old(ViewOf(p))
      ensures forall m :: m in held ==> TextOf(blocks, m) == old(TextOf(blocks, m))
    {
      hide BlocksValid, TextsOf;
      var nodes := queues[q].nodes;
      LetGo(q);
      DestroyNodesValid(messageOf, freeNodes, queues, place, q, queues[q].consumed);
      place := place - set n | n in nodes;
      freeNodes := nodes + freeNodes;
      queues := queues[q := Queue([], queues[q].consumed)];
    }

    /** The loop of fb_queue_destroy over the messages of a queue. */
    method LetGo(q: QueueId)
      requires Valid() && q in queues
      modifies this`blocks, this`freeMessages
      ensures BlocksValid(blocks, freeMessages, place - (set n | n in queues[q].nodes), messageOf, held)
      ensures forall p :: p != q ==> ViewOf(p) == old(ViewOf(p))
      ensures forall m :: m in held ==> TextOf(blocks, m) == old(TextOf(blocks, m))
    {
      hide BlocksValid, TextsOf;
      var nodes := queues[q].nodes;
      ghost var rest := place;
      var i := 0;
      assert NoRepeats(nodes);
      assert place - (set n | n in nodes[..0]) == place;
      while i < |nodes|
        invariant i <= |nodes|
        invariant rest == place - set n | n in nodes[..i]
        invariant BlocksValid(blocks, freeMessages, rest, messageOf, held)
        invariant forall p :: p != q ==> ViewOf(p) == old(ViewOf(p))
        invariant forall m :: m in held ==> TextOf(blocks, m) == old(TextOf(blocks, m))
      {
        assert nodes[i] in nodes && nodes[i] !in nodes[..i];
        DetachBlocksValid(blocks, freeMessages, messageOf, rest, held, nodes[i]);
        rest := rest - {nodes[i]};
        assert nodes[..i + 1] == nodes[..i] + [nodes[i]];
        ReleaseKeepsOthers(q, nodes[..i + 1], rest, messageOf[nodes[i]]);
        HeldKeepsText(blocks, freeMessages, messageOf, rest, held, messageOf[nodes[i]]);
        ReleaseBlock(messageOf[nodes[i]]);
        i := i + 1;
      }
      assert nodes[..|nodes|] == nodes;
    }

    lemma ReleaseKeepsOthers(q: QueueId, gone: seq<NodeId>, rest: map<NodeId, QueueId>, m: MessageId)
      requires NodesValid(messageOf, freeNodes, queues, place) && q in queues
      requires forall n :: n in gone ==> n in queues[q].nodes
      requires rest == place - set n | n in gone
      requires m in blocks && blocks[m].usecount > 0
      requires BlocksValid(blocks[m := Release(blocks[m])],
                           if blocks[m].usecount == 1 then [m] + freeMessages else freeMessages, rest, messageOf, held)
      ensures forall p :: p != q ==>
        ViewIn(blocks[m := Release(blocks[m])], messageOf, queues, p) == ViewIn(blocks, messageOf, queues, p)
    {
      hide BlocksValid;
      forall p | p != q
        ensures ViewIn(blocks[m := Release(blocks[m])], messageOf, queues, p) == ViewIn(blocks, messageOf, queues, p)
      {
        if p in queues {
          forall n | n in queues[p].nodes
            ensures n in rest && n in messageOf
          {
            assert place[n] == p;
          }
        }
        ReleaseViews(blocks, freeMessages, messageOf, queues, rest, held, m, p);
      }
    }

    lemma FirstIsPlaced(q: QueueId)
      requires Valid() && q in queues && queues[q].nodes != []
      ensures var n := queues[q].nodes[0]; n in place && n in messageOf && messageOf[n] in blocks
    {
      assert queues[q].nodes[0] in queues[q].nodes;
    }
  }

  /** A message somebody holds keeps its text when another reference to a message goes. */
  lemma HeldKeepsText(blocks: map<MessageId, Block>, freeMessages: seq<MessageId>, messageOf: map<NodeId, MessageId>,
                      place': map<NodeId, QueueId>, held': multiset<MessageId>, m: MessageId)
    requires m in blocks && blocks[m].usecount > 0
    requires BlocksValid(blocks[m := Release(blocks[m])],
                         if blocks[m].usecount == 1 then [m] + freeMessages else freeMessages, place', messageOf, held')
    ensures forall k :: k in held' ==> TextOf(blocks[m := Release(blocks[m])], k) == TextOf(blocks, k)
  {
    var blocks' := blocks[m := Release(blocks[m])];
    forall k | k in held'
      ensures TextOf(blocks', k) == TextOf(blocks, k)
    {
      assert BlockValid(k, blocks'[k], if blocks[m].usecount == 1 then [m] + freeMessages else freeMessages,
                        place', messageOf, held');
    }
  }

  lemma ConsumeNodesValid(messageOf: map<NodeId, MessageId>, freeNodes: seq<NodeId>, queues: map<QueueId, Queue>,
                          place: map<NodeId, QueueId>, q: QueueId, consumed: nat)
    requires NodesValid(messageOf, freeNodes, queues, place) && q in queues
    ensures NodesValid(messageOf, freeNodes, queues[q := Queue(queues[q].nodes, consumed)], place)
  {
  }
}
