/** Output on its way to a connection: queued, framed for WebSocket sessions, and sent in whatever
    pieces the socket takes (src/libfootball/fb_event.c:58-114 and 196-276,
    src/libfootball/fb_http.c:81-105 and 636-721). */
module Output {
  import opened Basics
  import opened Messages
  import opened WebSocket

  datatype State = TlsHandshake | Greeting | GatheringHeader | Open | Flushing | Closing

  /** FB_SOCKETSTATE values in order. */
  function Rank(s: State): nat {
    match s
    case TlsHandshake => 0
    case Greeting => 1
    case GatheringHeader => 2
    case Open => 3
    case Flushing => 4
    case Closing => 5
  }

  // ---------------------------------------------------------------- the assembly queue

  /** No empty texts, and something of the first one left: so it stays if only such texts are added. */
  predicate Tidy(v: View) {
    (forall t :: t in v.texts ==> t != []) && (if v.texts == [] then v.consumed == 0 else v.consumed < |v.texts[0]|)
  }

  /** Where the unused part of the last text starts. */
  function LastStart(v: View): nat {
    if |v.texts| == 1 then v.consumed else 0
  }

  /** The pending bytes before the last text. */
  function BeforeLast(v: View): seq<byte>
    requires Tidy(v)
  {
    if |v.texts| <= 1 then [] else v.texts[0][v.consumed..] + Concat(v.texts[1..|v.texts| - 1])
  }

  lemma PendingParts(v: View)
    requires Tidy(v) && v.texts != []
    ensures v.Pending() == BeforeLast(v) + v.texts[|v.texts| - 1][LastStart(v)..]
  {
    if |v.texts| == 1 {
      assert v.texts[1..] == [];
    } else {
      var inner, last := v.texts[1..|v.texts| - 1], v.texts[|v.texts| - 1];
      assert v.texts[1..] == inner + [last];
      ConcatAppend(inner, last);
    }
  }

  lemma TidyAppend(v: View, text: seq<byte>)
    requires Tidy(v) && text != []
    ensures Tidy(View(v.texts + [text], v.consumed)) && BeforeLast(View(v.texts + [text], v.consumed)) == v.Pending()
  {
    var w := View(v.texts + [text], v.consumed);
    if v.texts != [] {
      assert w.texts[1..|w.texts| - 1] == v.texts[1..];
      assert forall t :: t in w.texts ==> t in v.texts || t == text;
    }
  }

  lemma TidyConsume(v: View, n: nat)
    requires Tidy(v) && v.texts != [] && v.consumed + n <= |v.texts[0]|
    ensures Tidy(v.Consume(n))
  {
    assert forall t :: t in v.texts[1..] ==> t in v.texts;
    assert |v.texts| > 1 ==> v.texts[1] in v.texts;
  }

  predicate SuffixOf(a: seq<seq<byte>>, b: seq<seq<byte>>) {
    |a| <= |b| && a == b[|b| - |a|..]
  }

  lemma SuffixConsume(v: View, all: seq<seq<byte>>, n: nat)
    requires SuffixOf(v.texts, all)
    ensures SuffixOf(v.Consume(n).texts, all)
  {
  }

  lemma SuffixSelf(a: seq<seq<byte>>)
    ensures SuffixOf(a, a)
  {
    assert a[0..] == a;
  }

  lemma SuffixTrans(a: seq<seq<byte>>, b: seq<seq<byte>>, c: seq<seq<byte>>)
    requires SuffixOf(a, b) && SuffixOf(b, c)
    ensures SuffixOf(a, c)
  {
  }

  /** When less is pending than the last text had, the last text is all there is. */
  lemma OnlyLastLeft(v: View, all: seq<seq<byte>>)
    requires Tidy(v) && SuffixOf(v.texts, all) && all != [] && |v.Pending()| < |all[|all| - 1]|
    ensures |v.texts| <= 1
  {
    if |v.texts| > 1 {
      PendingParts(v);
    }
  }

  /** The length fb_websocket_encode computes for the next frame. */
  function LengthsBefore(texts: seq<seq<byte>>): nat {
    if texts == [] then 0 else |texts[0]| + LengthsBefore(texts[1..])
  }

  lemma {:induction false} LengthsAppend(texts: seq<seq<byte>>, text: seq<byte>)
    ensures LengthsBefore(texts + [text]) == LengthsBefore(texts) + |text|
    ensures LengthsBefore(texts) == |Concat(texts)|
  {
    if texts == [] {
      assert texts + [text] == [text] && [text][1..] == [];
    } else {
      assert (texts + [text])[1..] == texts[1..] + [text];
      LengthsAppend(texts[1..], text);
    }
  }

  /** A newline can only be in the last text: then the first line of what is pending ends there. */
  lemma LineEndInLast(v: View)
    requires Tidy(v) && v.texts != [] && NEWLINE !in BeforeLast(v)
    ensures LineEnd(v.Pending()) == |BeforeLast(v)| + LineEnd(v.texts[|v.texts| - 1][LastStart(v)..])
  {
    PendingParts(v);
    var last := v.texts[|v.texts| - 1][LastStart(v)..];
    var end := |BeforeLast(v)| + LineEnd(last);
    var pending := v.Pending();
    assert pending[..end] == BeforeLast(v) + last[..LineEnd(last)];
    LineEndIs(pending, end);
  }

  lemma LengthsOfPending(v: View)
    requires Tidy(v) && v.texts != []
    ensures |BeforeLast(v)| + LastStart(v) == LengthsBefore(v.texts[..|v.texts| - 1]) - (if |v.texts| == 1 then 0 else v.consumed) + LastStart(v)
  {
    if |v.texts| > 1 {
      var firsts := v.texts[..|v.texts| - 1];
      assert firsts[0] == v.texts[0] && firsts[1..] == v.texts[1..|v.texts| - 1];
      LengthsAppend(firsts[1..], []);
    }
  }

  // ---------------------------------------------------------------- one connection's output

  /** What send(2) makes of some bytes: how many it takes, or -1 for an error. Any outcome is possible. */
  method SendSome(length: nat) returns (written: int)
    ensures -1 <= written <= length
  {
    written := *;
    if written < -1 || written > length {
      written := 0;
    }
  }

  /** What there is to see of a connection's output: the last is the unfinished line of a WebSocket session. */
  datatype Seen = Seen(state: State, file: bool, http: bool, failed: bool, typed: seq<byte>, wire: seq<byte>,
                       unfinished: seq<byte>)

  /** What a text does to a connection: an open or flushing one that is no file takes it, any other nothing. */
  predicate Received(before: Seen, after: Seen, text: seq<byte>) {
    var taking := before.state in {Open, Flushing} && !before.file;
    && after.typed == before.typed + (if taking then text else [])
    && (!after.failed ==> !before.failed && after.wire == before.wire
                          + if !taking then [] else if before.http then Frames(Lines(before.unfinished + text)) else text)
    && after.state == if after.failed && !before.failed && before.state == Open then Flushing else before.state
  }

  class Connection {
    const id: nat
    const store: MessageStore
    const file: bool
    var state: State
    var http: bool
    /** A send has failed, and the output queue has been thrown away. */
    var failed: bool
    /** The bytes the socket has taken. */
    ghost var sent: seq<byte>
    /** Everything ever put in the output queue. */
    ghost var produced: seq<byte>
    /** What HTTP put there before a WebSocket session. */
    ghost var preamble: seq<byte>
    /** The text accepted for this connection. */
    ghost var typed: seq<byte>

    function OutView(): View
      reads this, store
    {
      store.ViewOf(Out(id))
    }

    function AssemblyView(): View
      reads this, store
    {
      store.ViewOf(Assembly(id))
    }

    ghost predicate Registered()
      reads this, store
    {
      store.Valid() && Out(id) in store.queues && Assembly(id) in store.queues
    }

    /** Until a send fails: the bytes sent and the bytes still queued are all that was queued. */
    ghost predicate Conserved()
      reads this, store
    {
      !failed ==> OutView().Sound() && sent + OutView().Pending() == produced
    }

    /** A line session's output is its text. A WebSocket session's output is its finished lines, one
        frame each, and the unfinished one waits in the assembly queue. */
    ghost predicate Framed()
      reads this, store
    {
      && Tidy(AssemblyView())
      && (if http then produced == preamble + Frames(Lines(typed)) && AssemblyView().Pending() == Tail(typed)
          else produced == typed && AssemblyView() == View([], 0))
    }

    ghost predicate Valid()
      reads this, store
    {
      Registered() && Conserved() && Framed()
    }

    constructor (id: nat, store: MessageStore, state: State, http: bool, file: bool)
      requires store.Valid() && Out(id) in store.queues && Assembly(id) in store.queues
      requires store.ViewOf(Out(id)) == store.ViewOf(Assembly(id)) == View([], 0)
      ensures Valid() && this.id == id && this.store == store && this.state == state && this.http == http && this.file == file
      ensures typed == [] && !failed
    {
      this.id, this.store, this.state, this.http, this.file := id, store, state, http, file;
      failed := false;
      sent, produced, preamble, typed := [], [], [], [];
    }

    /** What sending leaves alone: other queues, and messages somebody holds. */
    twostate predicate OnlyOutChanged()
      reads this, store
    {
      && store.held == old(store.held)
      && (forall m :: m in store.held ==> TextOf(store.blocks, m) == old(TextOf(store.blocks, m)))
      && (forall q :: q != Out(id) ==> store.ViewOf(q) == old(store.ViewOf(q)))
      && store.queues.Keys == old(store.queues.Keys)
    }

    /** So much of the first message went out. */
    method Use(written: nat)
      requires Registered() && Conserved() && !failed && OutView().texts != []
      requires written <= |OutView().texts[0]| - OutView().consumed
      modifies this`sent, store
      ensures Registered() && Conserved() && OnlyOutChanged()
      ensures |OutView().Pending()| == |old(OutView().Pending())| - written
    {
      hide NodesValid, BlocksValid, ViewIn, Concat;
      var v := OutView();
      PendingConsume(v, written);
      store.QueueConsume(Out(id), written);
      sent := sent + v.texts[0][v.consumed..v.consumed + written];
      assert v.Pending() == v.Pending()[..written] + v.Pending()[written..];
    }

    /** One turn of the loop in fb_send_output: whatever the socket takes is sent and used up; an error
        throws the queue away and starts closing. */
    method SendOnce() returns (more: bool)
      requires Registered() && Conserved() && !failed && OutView().texts != []
      modifies this`state, this`failed, this`sent, store
      ensures Registered() && Conserved() && OnlyOutChanged()
      ensures more ==> !failed && OutView().texts != [] && |OutView().Pending()| < |old(OutView().Pending())|
      ensures state == if failed && Rank(old(state)) <= Rank(Open) then Flushing else old(state)
    {
      hide NodesValid, BlocksValid, ViewIn, Concat;
      var v := OutView();
      var written := SendSome(|v.texts[0]| - v.consumed);
      if written >= 0 {
        Use(written);
        more := written > 0 && OutView().texts != [];
      } else {
        store.QueueDestroy(Out(id));
        failed := true;
        Close();
        more := false;
      }
    }

    /** fb_send_output without an event: send until the socket takes no more. After a failed send the
        model sends nothing further. */
    method Send()
      requires Registered() && Conserved()
      modifies this`state, this`failed, this`sent, store
      ensures Registered() && Conserved() && OnlyOutChanged()
      ensures state == if failed && !old(failed) && Rank(old(state)) <= Rank(Open) then Flushing else old(state)
      ensures old(failed) ==> failed
    {
      hide NodesValid, BlocksValid, ViewIn;
      if failed || OutView().texts == [] {
        return;
      }
      var more := true;
      while more
        invariant Registered() && Conserved() && OnlyOutChanged()
        invariant more ==> !failed && OutView().texts != []
        invariant state == if failed && Rank(old(state)) <= Rank(Open) then Flushing else old(state)
        decreases if more then 1 + |OutView().Pending()| else 0
      {
        more := SendOnce();
      }
    }

    /** fb_close_connection, as far as the state goes. */
    method Close()
      modifies this`state
      ensures state == if Rank(old(state)) <= Rank(Open) then Flushing else old(state)
    {
      if Rank(state) <= Rank(Open) {
        state := Flushing;
      }
    }

    /** fb_queue_http. */
    method QueueHttp(text: seq<byte>)
      requires Registered() && Conserved()
      modifies this`state, this`failed, this`sent, this`produced, store
      ensures Registered() && Conserved() && OnlyOutChanged()
      ensures produced == old(produced) + text
      ensures state == if failed && !old(failed) && Rank(old(state)) <= Rank(Open) then Flushing else old(state)
      ensures old(failed) ==> failed
    {
      hide NodesValid, BlocksValid, ViewIn;
      var m := store.NewMessage(text);
      ghost var v := OutView();
      store.QueueAdd(Out(id), m);
      if !failed {
        PendingAppend(v, text);
      }
      produced := produced + text;
      Send();
    }

    lemma ValidParts()
      requires Valid()
      ensures Registered() && Conserved() && Tidy(AssemblyView())
    {
    }

    /** Before a session everything produced is HTTP, */
    lemma NothingTyped()
      requires Valid() && http && typed == []
      ensures produced == preamble && AssemblyView().Pending() == []
    {
      assert Lines([]) == [] && Frames([]) == [];
    }

    /** and as long as that is so, the framing is right. */
    lemma NothingFramed()
      requires Registered() && Conserved() && Tidy(AssemblyView())
      requires http && typed == [] && produced == preamble && AssemblyView().Pending() == []
      ensures Valid()
    {
      assert Lines([]) == [] && Frames([]) == [];
    }

    /** Before a session, HTTP output is all the output there is. */
    method QueueHttpResponse(text: seq<byte>)
      requires Valid() && http && typed == []
      modifies this`state, this`failed, this`sent, this`produced, this`preamble, store
      ensures Valid() && OnlyOutChanged() && typed == []
    {
      NothingTyped();
      hide *;
      ValidParts();
      preamble := preamble + text;
      QueueHttp(text);
      NothingFramed();
    }

    /** The length of the next frame's payload, from the lengths of the assembly queue's texts. */
    method PayloadLength(end: nat) returns (size: nat)
      requires Tidy(AssemblyView()) && AssemblyView().texts != []
      requires LastStart(AssemblyView()) <= end
      ensures size == |BeforeLast(AssemblyView())| + end - LastStart(AssemblyView())
    {
      var v := AssemblyView();
      var last := |v.texts| - 1;
      var total := end;
      var i := 0;
      while i < last
        invariant i <= last && total + LengthsBefore(v.texts[i..last]) == end + LengthsBefore(v.texts[..last])
      {
        assert v.texts[i..last][1..] == v.texts[i + 1..last];
        total := total + |v.texts[i]|;
        i := i + 1;
      }
      assert v.texts[last..last] == [];
      LengthsOfPending(v);
      size := total - v.consumed;
    }

    /** Copy the rest of the first text, but no more than `left` bytes, and use it up. */
    method TakeChunk(left: nat) returns (chunk: seq<byte>)
      requires Registered() && Tidy(AssemblyView()) && 0 < left <= |AssemblyView().Pending()|
      modifies store
      ensures Registered() && OnlyAssemblyChanged() && Tidy(AssemblyView())
      ensures 0 < |chunk| <= left && old(AssemblyView().Pending()) == chunk + AssemblyView().Pending()
      ensures SuffixOf(AssemblyView().texts, old(AssemblyView().texts))
    {
      hide NodesValid, BlocksValid, ViewIn;
      var v := AssemblyView();
      var size := |v.texts[0]| - v.consumed;
      if size > left {
        size := left;
      }
      PendingConsume(v, size);
      TidyConsume(v, size);
      chunk := v.texts[0][v.consumed..v.consumed + size];
      store.QueueConsume(Assembly(id), size);
    }

    /** Copy the next `size` bytes out of the assembly queue, using them up. */
    method TakePayload(size: nat) returns (message: seq<byte>)
      requires Registered() && Tidy(AssemblyView()) && size <= |AssemblyView().Pending()|
      modifies store
      ensures Registered() && OnlyAssemblyChanged() && Tidy(AssemblyView())
      ensures |message| == size && old(AssemblyView().Pending()) == message + AssemblyView().Pending()
      ensures SuffixOf(AssemblyView().texts, old(AssemblyView().texts))
    {
      hide NodesValid, BlocksValid, ViewIn, Tidy, View.Pending, TextOf, SuffixOf;
      SuffixSelf(AssemblyView().texts);
      message := [];
      var left := size;
      while left > 0
        invariant Registered() && OnlyAssemblyChanged() && Tidy(AssemblyView())
        invariant 0 <= left <= size && |message| == size - left
        invariant old(AssemblyView().Pending()) == message + AssemblyView().Pending()
        invariant SuffixOf(AssemblyView().texts, old(AssemblyView().texts))
      {
        ghost var pending := AssemblyView().Pending();
        ghost var texts := AssemblyView().texts;
        var chunk := TakeChunk(left);
        SuffixTrans(AssemblyView().texts, texts, old(AssemblyView().texts));
        assert message + pending == message + chunk + AssemblyView().Pending();
        message := message + chunk;
        left := left - |chunk|;
      }
    }

    twostate predicate OnlyAssemblyChanged()
      reads this, store
    {
      && store.held == old(store.held)
      && (forall m :: m in store.held ==> TextOf(store.blocks, m) == old(TextOf(store.blocks, m)))
      && (forall q :: q != Assembly(id) ==> store.ViewOf(q) == old(store.ViewOf(q)))
      && store.queues.Keys == old(store.queues.Keys)
    }

    twostate predicate OnlyMineChanged()
      reads this, store
    {
      && store.held == old(store.held)
      && (forall m :: m in store.held ==> TextOf(store.blocks, m) == old(TextOf(store.blocks, m)))
      && (forall q :: q != Assembly(id) && q != Out(id) ==> store.ViewOf(q) == old(store.ViewOf(q)))
      && store.queues.Keys == old(store.queues.Keys)
    }

    method SkipNewline()
      requires Registered() && Tidy(AssemblyView()) && AssemblyView().texts != []
      modifies store
      ensures Registered() && OnlyAssemblyChanged() && Tidy(AssemblyView())
      ensures |old(AssemblyView().Pending())| >= 1 && AssemblyView().Pending() == old(AssemblyView().Pending())[1..]
      ensures AssemblyView() == old(AssemblyView()).Consume(1)
    {
      hide NodesValid, BlocksValid, ViewIn;
      PendingConsume(AssemblyView(), 1);
      TidyConsume(AssemblyView(), 1);
      store.QueueConsume(Assembly(id), 1);
    }

    /** Put a header before the payload and queue the frame. */
    method QueueFrame(message: seq<byte>)
      requires Registered() && Conserved()
      modifies this`state, this`failed, this`sent, this`produced, store
      ensures Registered() && Conserved() && OnlyOutChanged()
      ensures produced == old(produced) + Frame(message)
      ensures state == if failed && !old(failed) && Rank(old(state)) <= Rank(Open) then Flushing else old(state)
      ensures old(failed) ==> failed
    {
      var size := |message|;
      var header: seq<byte>;
      if size <= 125 {
        header := [0x81, size as byte];
      } else if size <= 0xffff {
        header := [0x81, 126, (size / 256 % 256) as byte, (size % 256) as byte];
      } else {
        var low := size % 0x1_0000_0000;
        header := [0x81, 127, 0, 0, 0, 0, (low / 0x100_0000) as byte, (low / 0x1_0000 % 256) as byte,
                   (low / 256 % 256) as byte, (low % 256) as byte];
        LowDigits(size);
      }
      assert header + message == Frame(message);
      QueueHttp(header + message);
    }

    /** Copy a line out of the assembly queue and skip the newline after it. */
    method TakeLine(size: nat) returns (message: seq<byte>)
      requires Registered() && Tidy(AssemblyView()) && size < |AssemblyView().Pending()|
      modifies store
      ensures Registered() && OnlyAssemblyChanged() && Tidy(AssemblyView())
      ensures message == old(AssemblyView().Pending())[..size]
      ensures AssemblyView().Pending() == old(AssemblyView().Pending())[size + 1..]
      ensures SuffixOf(AssemblyView().texts, old(AssemblyView().texts))
    {
      hide NodesValid, BlocksValid, ViewIn, Tidy, View.Pending, TextOf;
      ghost var pending, texts := AssemblyView().Pending(), AssemblyView().texts;
      message := TakePayload(size);
      ghost var u := AssemblyView();
      CutBehind(message, u.Pending());
      PendingHasTexts(u);
      SuffixConsume(u, texts, 1);
      SkipNewline();
    }

    /** Frame the line that ends at the newline at `newline` of the last text. */
    method FrameLine(newline: nat)
      requires Registered() && Conserved() && Tidy(AssemblyView()) && AssemblyView().texts != []
      requires LastStart(AssemblyView()) <= newline < |AssemblyView().texts[|AssemblyView().texts| - 1]|
      requires |AssemblyView().Pending()| - LineEnd(AssemblyView().Pending())
               <= |AssemblyView().texts[|AssemblyView().texts| - 1]|
      requires |BeforeLast(AssemblyView())| + newline - LastStart(AssemblyView()) == LineEnd(AssemblyView().Pending())
      requires LineEnd(AssemblyView().Pending()) < |AssemblyView().Pending()|
      modifies this`state, this`failed, this`sent, this`produced, store
      ensures Registered() && Conserved() && OnlyMineChanged() && Tidy(AssemblyView()) && |AssemblyView().texts| <= 1
      ensures var p := old(AssemblyView().Pending()); var end := LineEnd(p);
              produced == old(produced) + Frame(p[..end]) && AssemblyView().Pending() == p[end + 1..]
      ensures state == if failed && !old(failed) && Rank(old(state)) <= Rank(Open) then Flushing else old(state)
      ensures old(failed) ==> failed
    {
      hide NodesValid, BlocksValid, ViewIn, Frame, View.Pending, View.Sound, View.Consume, Tidy, LineEnd;
      var v := AssemblyView();
      ghost var pending := v.Pending();
      var size := PayloadLength(newline);
      var message := TakeLine(size);
      OnlyLastLeft(AssemblyView(), v.texts);
      QueueFrame(message);
    }

    /** fb_websocket_encode: frame every line that is now finished. Only the last text of the assembly
        queue can have a newline in it. */
    method WebsocketEncode()
      requires Registered() && Conserved() && Tidy(AssemblyView()) && AssemblyView().texts != []
      requires NEWLINE !in BeforeLast(AssemblyView())
      modifies this`state, this`failed, this`sent, this`produced, store
      ensures Registered() && Conserved() && OnlyMineChanged() && Tidy(AssemblyView())
      ensures produced == old(produced) + Frames(Lines(old(AssemblyView().Pending())))
      ensures AssemblyView().Pending() == Tail(old(AssemblyView().Pending()))
      ensures state == if failed && !old(failed) && Rank(old(state)) <= Rank(Open) then Flushing else old(state)
      ensures old(failed) ==> failed
      decreases |AssemblyView().Pending()|
    {
      hide NodesValid, BlocksValid, ViewIn, Frame, Frames, View.Pending, View.Sound, LineEnd, Lines, Tail, TextOf;
      var v := AssemblyView();
      ghost var pending := v.Pending();
      var last := v.texts[|v.texts| - 1];
      PendingParts(v);
      LineEndInLast(v);
      EncodeStep(pending);
      var newline := LastStart(v) + LineEnd(last[LastStart(v)..]);
      if newline < |last| {
        FrameLine(newline);
        if AssemblyView().texts != [] {
          WebsocketEncode();
        } else {
          NothingPending(AssemblyView());
        }
      }
    }

    /** What a WebSocket client has been sent, with what is still queued for it, is the HTTP preamble
        and then frames that read back as exactly the finished lines of the text (if, and only if, no
        line is 2^32 bytes long); the unfinished line is what waits for assembly. */
    lemma SessionReadsBack()
      requires Valid() && http && !failed
      ensures |preamble| <= |sent + OutView().Pending()|
      ensures UnframeAll((sent + OutView().Pending())[|preamble|..]) == Some(Lines(typed))
              <==> forall l :: l in Lines(typed) ==> |l| < 0x1_0000_0000
      ensures Unlines(Lines(typed)) + AssemblyView().Pending() == typed && NEWLINE !in AssemblyView().Pending()
    {
      FramesReadBack(Lines(typed));
      LinesPartition(typed);
      assert produced[|preamble|..] == Frames(Lines(typed));
    }

    /** What goes into the output queue for a text that is taken: in a WebSocket session the lines that it
        finishes, one frame each, else the text. */
    ghost function Yield(text: seq<byte>): seq<byte>
      reads this, store
    {
      if http then Frames(Lines(AssemblyView().Pending() + text)) else text
    }

    /** All the bytes that went out or are to. */
    ghost function Wire(): seq<byte>
      reads this, store
    {
      sent + OutView().Pending()
    }

    lemma NothingYields()
      requires Valid()
      ensures Yield([]) == []
    {
      if http {
        var pending := AssemblyView().Pending();
        assert pending + [] == pending && pending == Tail(typed);
        LineEndIs(pending, |pending|);
      }
    }

    lemma WireIsProduced()
      requires Valid()
      ensures !failed ==> Wire() == produced
    {
    }

    ghost function Look(): Seen
      reads this, store
    {
      Seen(state, file, http, failed, typed, Wire(), AssemblyView().Pending())
    }

    /** fb_queue_single: the caller's reference to the message is used up, taken or not. */
    method QueueSingle(m: MessageId) returns (length: nat)
      requires Valid() && m in store.held
      modifies this`state, this`failed, this`sent, this`produced, this`typed, store
      ensures Valid() && store.held == old(store.held) - multiset{m}
      ensures length == |old(TextOf(store.blocks, m))|
      ensures typed == old(typed) + if old(state) in {Open, Flushing} && !file then old(TextOf(store.blocks, m)) else []
      ensures !failed ==> !old(failed) && Wire() == old(Wire())
                          + if old(state) in {Open, Flushing} && !file then old(Yield(TextOf(store.blocks, m))) else []
      ensures state == if failed && !old(failed) && old(state) == Open then Flushing else old(state)
      ensures forall q :: q != Assembly(id) && q != Out(id) ==> store.ViewOf(q) == old(store.ViewOf(q))
      ensures store.queues.Keys == old(store.queues.Keys)
      ensures forall k :: k in store.held ==> TextOf(store.blocks, k) == old(TextOf(store.blocks, k))
    {
      hide NodesValid, BlocksValid, ViewIn, Lines, Tail, Frames, View.Pending, View.Sound;
      ghost var wire := Wire();
      NothingYields();
      WireIsProduced();
      length := |TextOf(store.blocks, m)|;
      if length == 0 || state == Closing || Rank(state) < Rank(Open) || file {
        store.MessageFree(m);
        assert Wire() == wire == wire + [];
      } else {
        QueueTaken(m);
        WireIsProduced();
      }
    }

    /** The part of it behind the check. */
    method QueueTaken(m: MessageId)
      requires Valid() && m in store.held && TextOf(store.blocks, m) != []
      modifies this`state, this`failed, this`sent, this`produced, this`typed, store
      ensures Valid() && store.held == old(store.held) - multiset{m}
      ensures typed == old(typed) + old(TextOf(store.blocks, m))
      ensures produced == old(produced) + old(Yield(TextOf(store.blocks, m))) && (old(failed) ==> failed)
      ensures state == if failed && !old(failed) && Rank(old(state)) <= Rank(Open) then Flushing else old(state)
      ensures forall q :: q != Assembly(id) && q != Out(id) ==> store.ViewOf(q) == old(store.ViewOf(q))
      ensures store.queues.Keys == old(store.queues.Keys)
      ensures forall k :: k in store.held ==> TextOf(store.blocks, k) == old(TextOf(store.blocks, k))
    {
      hide *;
      if http {
        QueueFramed(m, TextOf(store.blocks, m));
      } else {
        QueuePlain(m, TextOf(store.blocks, m));
      }
    }

    method QueueFramed(m: MessageId, text: seq<byte>)
      requires Valid() && m in store.held && http && text == TextOf(store.blocks, m) != []
      modifies this`state, this`failed, this`sent, this`produced, this`typed, store
      ensures Valid() && store.held == old(store.held) - multiset{m} && typed == old(typed) + text
      ensures produced == old(produced) + old(Yield(text)) && (old(failed) ==> failed)
      ensures state == if failed && !old(failed) && Rank(old(state)) <= Rank(Open) then Flushing else old(state)
      ensures forall q :: q != Assembly(id) && q != Out(id) ==> store.ViewOf(q) == old(store.ViewOf(q))
      ensures store.queues.Keys == old(store.queues.Keys)
      ensures forall k :: k in store.held ==> TextOf(store.blocks, k) == old(TextOf(store.blocks, k))
    {
      hide NodesValid, BlocksValid, ViewIn, Lines, Tail, Frames, Tidy, View.Pending, View.Sound, TextOf;
      ghost var v := AssemblyView();
      TidyAppend(v, text);
      TidySound(v);
      PendingAppend(v, text);
      LinesAppend(typed, text);
      FramesAppend(Lines(typed), Lines(Tail(typed) + text));
      store.QueueAdd(Assembly(id), m);
      WebsocketEncode();
      typed := typed + text;
      assert produced == preamble + (Frames(Lines(old(typed))) + Frames(Lines(Tail(old(typed)) + text)));
      Send();
    }

    method QueuePlain(m: MessageId, text: seq<byte>)
      requires Valid() && m in store.held && !http && text == TextOf(store.blocks, m)
      modifies this`state, this`failed, this`sent, this`produced, this`typed, store
      ensures Valid() && store.held == old(store.held) - multiset{m} && typed == old(typed) + text
      ensures produced == old(produced) + old(Yield(text)) && (old(failed) ==> failed)
      ensures state == if failed && !old(failed) && Rank(old(state)) <= Rank(Open) then Flushing else old(state)
      ensures forall q :: q != Assembly(id) && q != Out(id) ==> store.ViewOf(q) == old(store.ViewOf(q))
      ensures store.queues.Keys == old(store.queues.Keys)
      ensures forall k :: k in store.held ==> TextOf(store.blocks, k) == old(TextOf(store.blocks, k))
    {
      hide NodesValid, BlocksValid, ViewIn, View.Pending, View.Sound, TextOf;
      if !failed {
        PendingAppend(OutView(), text);
      }
      store.QueueAdd(Out(id), m);
      produced := produced + text;
      typed := typed + text;
      Send();
    }

    twostate predicate Same()
      reads this
    {
      unchanged(this)
    }

    /** A connection is not affected by what happens to other queues. */
    twostate lemma Unaffected()
      requires old(Valid()) && store.Valid() && Same()
      requires old(store.queues.Keys) <= store.queues.Keys
      requires store.ViewOf(Out(id)) == old(store.ViewOf(Out(id)))
      requires store.ViewOf(Assembly(id)) == old(store.ViewOf(Assembly(id)))
      ensures Valid() && Look() == old(Look())
    {
    }
  }

  lemma PendingHasTexts(v: View)
    ensures v.Pending() != [] ==> v.texts != []
  {
  }

  /** A text cut into a part, one byte and the rest. */
  lemma CutBehind(part: seq<byte>, rest: seq<byte>)
    ensures (part + rest)[..|part|] == part && (part + rest)[|part|..] == rest
    ensures rest != [] ==> (part + rest)[|part| + 1..] == rest[1..]
  {
  }

  lemma TidySound(v: View)
    requires Tidy(v)
    ensures v.Sound()
  {
  }

  /** FB_SERVICE: the connections a broadcast goes to. */
  class Service {
    const store: MessageStore
    var connections: seq<Connection>

    constructor (store: MessageStore)
      requires store.Valid()
      ensures this.store == store && connections == [] && Valid()
    {
      this.store := store;
      connections := [];
    }

    ghost predicate Valid()
      reads this, store, connections
    {
      && store.Valid()
      && (forall k :: 0 <= k < |connections| ==> connections[k].store == store && connections[k].Valid())
      && (forall j, k :: 0 <= j < k < |connections| ==>
            connections[j] != connections[k] && connections[j].id != connections[k].id)
    }

    /** A queue of the connection at `i`. */
    predicate QueueOf(i: nat, q: QueueId)
      reads this
    {
      i < |connections| && (q == Out(connections[i].id) || q == Assembly(connections[i].id))
    }

    /** What one connection does, if it does anything, does not disturb the others. */
    twostate lemma OthersUnaffected(except: nat)
      requires old(Valid()) && unchanged(this)
      requires store.Valid() && old(store.queues.Keys) <= store.queues.Keys
      requires forall k :: 0 <= k < |connections| && k != except ==> connections[k].Same()
      requires forall q :: !QueueOf(except, q) ==> store.ViewOf(q) == old(store.ViewOf(q))
      ensures forall k :: 0 <= k < |connections| && k != except ==>
                connections[k].Valid() && connections[k].Look() == old(connections[k].Look())
    {
      forall k | 0 <= k < |connections| && k != except
        ensures connections[k].Valid() && connections[k].Look() == old(connections[k].Look())
      {
        assert !QueueOf(except, Out(connections[k].id)) && !QueueOf(except, Assembly(connections[k].id));
        connections[k].Unaffected();
      }
    }

    /** A connection that came in: it has queues of its own, and broadcasts go to it from now on. */
    method Accept(id: nat, state: State, http: bool, file: bool) returns (c: Connection)
      requires Valid() && Out(id) !in store.queues && Assembly(id) !in store.queues
      modifies this`connections, store
      ensures Valid() && fresh(c) && connections == old(connections) + [c]
      ensures c.id == id && c.state == state && c.http == http && c.file == file && c.typed == [] && !c.failed
      ensures store.held == old(store.held)
      ensures forall k :: 0 <= k < |old(connections)| ==> connections[k].Look() == old(connections[k].Look())
    {
      hide NodesValid, BlocksValid, ViewIn, Connection.Conserved, Connection.Framed, Connection.Wire, Connection.Look;
      store.CreateQueue(Out(id));
      store.CreateQueue(Assembly(id));
      OthersUnaffected(|connections|);
      c := new Connection(id, store, state, http, file);
      connections := connections + [c];
    }

    /** What there is to see of all connections. */
    ghost function Looks(): (r: seq<Seen>)
      requires Valid()
      reads this, store, connections
      ensures |r| == |connections| && forall k :: 0 <= k < |connections| ==> r[k] == connections[k].Look()
    {
      seq(|connections|, k requires 0 <= k < |connections| reads this, store, connections
                           requires connections[k].store == store => connections[k].Look())
    }

    method HoldMessage(m: MessageId)
      requires Valid() && m in store.held
      modifies store
      ensures Valid() && store.held == old(store.held) + multiset{m}
      ensures TextOf(store.blocks, m) == old(TextOf(store.blocks, m))
      ensures Looks() == old(Looks())
    {
      store.Hold(m);
      OthersUnaffected(|connections|);
    }

    method QueueOne(i: nat, m: MessageId)
      requires Valid() && i < |connections| && m in store.held && m in store.held - multiset{m}
      modifies connections[i], store
      ensures Valid() && store.held == old(store.held) - multiset{m}
      ensures TextOf(store.blocks, m) == old(TextOf(store.blocks, m))
      ensures Received(old(Looks())[i], Looks()[i], old(TextOf(store.blocks, m)))
      ensures forall k :: 0 <= k < |connections| && k != i ==> Looks()[k] == old(Looks())[k]
    {
      hide NodesValid, BlocksValid, ViewIn, Connection.Conserved, Connection.Framed;
      var _ := connections[i].QueueSingle(m);
      OthersUnaffected(i);
    }

    /** Hand a broadcast message to one connection, with a reference of its own. */
    method BroadcastTo(i: nat, m: MessageId)
      requires Valid() && i < |connections| && m in store.held && TextOf(store.blocks, m) != []
      modifies connections[i], store
      ensures Valid() && store.held == old(store.held)
      ensures TextOf(store.blocks, m) == old(TextOf(store.blocks, m))
      ensures Received(old(Looks())[i], Looks()[i], old(TextOf(store.blocks, m)))
      ensures forall k :: 0 <= k < |connections| && k != i ==> Looks()[k] == old(Looks())[k]
    {
      hide NodesValid, BlocksValid, ViewIn, Connection.Conserved, Connection.Framed;
      if connections[i].state != Closing && !connections[i].file {
        HoldMessage(m);
        QueueOne(i, m);
      }
    }

    /** The loop over the connections. */
    method BroadcastToAll(m: MessageId)
      requires Valid() && m in store.held && TextOf(store.blocks, m) != []
      modifies connections, store
      ensures Valid() && store.held == old(store.held)
      ensures forall k :: 0 <= k < |connections| ==> Received(old(Looks())[k], Looks()[k], old(TextOf(store.blocks, m)))
    {
      ghost var text, before := TextOf(store.blocks, m), Looks();
      hide *;
      var i := 0;
      while i < |connections|
        invariant i <= |connections| && Valid() && store.held == old(store.held) && TextOf(store.blocks, m) == text
        invariant forall k :: 0 <= k < i ==> Received(before[k], Looks()[k], text)
        invariant forall k :: i <= k < |connections| ==> Looks()[k] == before[k]
      {
        BroadcastTo(i, m);
        i := i + 1;
      }
    }

    /** The creator's own reference goes. */
    method Release(m: MessageId)
      requires Valid() && m in store.held
      modifies store
      ensures Valid() && store.held == old(store.held) - multiset{m}
      ensures Looks() == old(Looks())
    {
      hide NodesValid, BlocksValid, ViewIn, Connection.Valid, TextOf;
      store.MessageFree(m);
      OthersUnaffected(|connections|);
    }

    /** Of no text there is nothing to receive. */
    lemma NothingReceived()
      requires Valid()
      ensures forall k :: 0 <= k < |connections| ==> Received(Looks()[k], Looks()[k], [])
    {
      hide Connection.Valid, Connection.Wire;
      forall k | 0 <= k < |connections| ensures Received(Looks()[k], Looks()[k], []) {
        connections[k].NothingYields();
      }
    }

    /** fb_queue_broadcast: every open or flushing connection that is no file gets the one message, by
        reference, and the others nothing; then the creator's own reference goes. */
    method Broadcast(m: MessageId)
      requires Valid() && m in store.held
      modifies connections, store
      ensures Valid() && store.held == old(store.held) - multiset{m}
      ensures forall k :: 0 <= k < |connections| ==>
                var c, text := connections[k], old(TextOf(store.blocks, m));
                c.typed == old(c.typed) + if old(c.state) in {Open, Flushing} && !c.file then text else []
      ensures forall k :: 0 <= k < |connections| ==>
                var c, text := connections[k], old(TextOf(store.blocks, m));
                !c.failed ==> !old(c.failed) && c.Wire() == old(c.Wire())
                              + if old(c.state) in {Open, Flushing} && !c.file then old(c.Yield(text)) else []
    {
      hide NodesValid, BlocksValid, ViewIn, Connection.Valid, Connection.Wire, Frames, Lines, View.Pending;
      ghost var text, before := TextOf(store.blocks, m), Looks();
      if |TextOf(store.blocks, m)| > 0 {
        BroadcastToAll(m);
      } else {
        NothingReceived();
      }
      Release(m);
      assert forall k :: 0 <= k < |connections| ==> Received(before[k], Looks()[k], text);
    }
  }

  /** What framing the first line leaves to do. */
  lemma EncodeStep(pending: seq<byte>)
    ensures var end := LineEnd(pending);
            if end == |pending| then Frames(Lines(pending)) == [] && Tail(pending) == pending
            else && Frames(Lines(pending)) == Frame(pending[..end]) + Frames(Lines(pending[end + 1..]))
                 && Tail(pending) == Tail(pending[end + 1..])
  {
    hide Frame, LineEnd;
    var end := LineEnd(pending);
    if end < |pending| {
      assert Lines(pending) == [pending[..end]] + Lines(pending[end + 1..]);
      assert Lines(pending)[1..] == Lines(pending[end + 1..]);
    }
  }

  lemma NothingPending(v: View)
    requires v.texts == []
    ensures v.Pending() == [] && Frames(Lines(v.Pending())) == [] && Tail(v.Pending()) == []
  {
    EncodeStep([]);
  }

  lemma DropMultiple(k: nat, rest: nat)
    ensures (k * 256 + rest) % 256 == rest % 256
  {
  }

  lemma LowDigit24(n: nat)
    ensures n % 0x1_0000_0000 / 0x100_0000 == n / 0x100_0000 % 256
  {
    var high, low := n / 0x1_0000_0000, n % 0x1_0000_0000;
    assert n / 0x100_0000 == high * 256 + low / 0x100_0000;
  }

  lemma LowDigit16(n: nat)
    ensures n % 0x1_0000_0000 / 0x1_0000 % 256 == n / 0x1_0000 % 256
  {
    var high, low := n / 0x1_0000_0000, n % 0x1_0000_0000;
    assert n / 0x1_0000 == high * 0x1_0000 + low / 0x1_0000;
    DropMultiple(high * 256, low / 0x1_0000);
  }

  lemma LowDigit8(n: nat)
    ensures n % 0x1_0000_0000 / 256 % 256 == n / 256 % 256
  {
    var high, low := n / 0x1_0000_0000, n % 0x1_0000_0000;
    assert n / 256 == high * 0x100_0000 + low / 256;
    DropMultiple(high * 0x1_0000, low / 256);
  }

  lemma LowDigit0(n: nat)
    ensures n % 0x1_0000_0000 % 256 == n % 256
  {
    var high, low := n / 0x1_0000_0000, n % 0x1_0000_0000;
    assert n == high * 0x100_0000 * 256 + low;
    DropMultiple(high * 0x100_0000, low);
  }

  /** The digits of the low 32 bits are those of the number. */
  lemma LowDigits(n: nat)
    ensures var low := n % 0x1_0000_0000;
            && low / 0x100_0000 == n / 0x100_0000 % 256 && low / 0x1_0000 % 256 == n / 0x1_0000 % 256
            && low / 256 % 256 == n / 256 % 256 && low % 256 == n % 256
  {
    LowDigit24(n);
    LowDigit16(n);
    LowDigit8(n);
    LowDigit0(n);
  }
}
