/** The life of connections over whole runs: what the socket manager reports of them, and when they
    are destroyed (src/libfootball/fb_event.c:206-276 and 454-597, src/libfootball/fb_service.c:388-497). */
module Lifecycle {
  import opened Basics
  import opened Output

  type ConnectionId = nat
  type ServiceId = nat

  // ---------------------------------------------------------------- events, and which runs of them are proper

  datatype Event = Connect(c: ConnectionId) | Input(c: ConnectionId) | Close(c: ConnectionId)

  /** How far along the events of one connection are. */
  datatype Phase = Silent | Session | Ended | Improper

  function Advance(p: Phase, e: Event): Phase {
    match e
    case Connect(_) => if p == Silent then Session else Improper
    case Input(_) => if p == Session then Session else Improper
    case Close(_) => if p == Silent || p == Session then Ended else Improper
  }

  function PhaseOf(log: seq<Event>, c: ConnectionId): Phase {
    if log == [] then Silent
    else
      var before := PhaseOf(log[..|log| - 1], c);
      var e := log[|log| - 1];
      if e.c == c then Advance(before, e) else before
  }

  lemma PhaseStep(log: seq<Event>, e: Event, c: ConnectionId)
    ensures PhaseOf(log + [e], c) == if e.c == c then Advance(PhaseOf(log, c), e) else PhaseOf(log, c)
  {
    assert (log + [e])[..|log|] == log;
  }

  lemma {:induction false} PhasePrefix(log: seq<Event>, c: ConnectionId, k: nat)
    requires k <= |log| && PhaseOf(log, c) != Improper
    ensures PhaseOf(log[..k], c) != Improper
    ensures PhaseOf(log[..k], c) == Ended ==> PhaseOf(log, c) == Ended
    ensures PhaseOf(log[..k], c) == Ended ==> forall j :: k <= j < |log| ==> log[j].c != c
    ensures PhaseOf(log[..k], c) != Silent ==> PhaseOf(log, c) != Silent
    decreases |log| - k
  {
    if k == |log| {
      assert log[..k] == log;
    } else {
      PhasePrefix(log, c, k + 1);
      assert log[..k + 1] == log[..k] + [log[k]];
      PhaseStep(log[..k], log[k], c);
    }
  }

  lemma {:induction false} PhaseShows(log: seq<Event>, c: ConnectionId)
    ensures PhaseOf(log, c) == Session ==> Connect(c) in log
    ensures PhaseOf(log, c) == Ended ==> Close(c) in log
    ensures PhaseOf(log, c) == Silent ==> Connect(c) !in log
    decreases |log|
  {
    if log != [] {
      var rest, e := log[..|log| - 1], log[|log| - 1];
      assert log == rest + [e];
      PhaseShows(rest, c);
    }
  }

  /** One event of a proper log, in its place. */
  lemma ProperEvent(log: seq<Event>, c: ConnectionId, i: nat)
    requires PhaseOf(log, c) != Improper && i < |log| && log[i].c == c
    ensures log[i] == Close(c) ==> PhaseOf(log, c) == Ended && forall j :: i < j < |log| ==> log[j].c != c
    ensures log[i] == Input(c) ==> Connect(c) in log[..i]
    ensures log[i] == Connect(c) ==> Connect(c) !in log[..i]
  {
    assert log[..i + 1] == log[..i] + [log[i]];
    PhaseStep(log[..i], log[i], c);
    PhasePrefix(log, c, i + 1);
    PhasePrefix(log, c, i);
    PhaseShows(log[..i], c);
  }

  /** What a proper log promises: one CONNECT at most and before any input, one CLOSE at most, and
      nothing at all after it. */
  lemma ProperLog(log: seq<Event>, c: ConnectionId)
    requires PhaseOf(log, c) != Improper
    ensures forall i, j :: 0 <= i < j < |log| && log[i] == Close(c) ==> log[j].c != c
    ensures forall j :: 0 <= j < |log| && log[j] == Input(c) ==> Connect(c) in log[..j]
    ensures forall j :: 0 <= j < |log| && log[j] == Connect(c) ==> Connect(c) !in log[..j]
    ensures PhaseOf(log, c) == Ended <==> Close(c) in log
  {
    hide PhaseOf;
    forall i | 0 <= i < |log| && log[i].c == c
      ensures log[i] == Close(c) ==> PhaseOf(log, c) == Ended && forall j :: i < j < |log| ==> log[j].c != c
      ensures log[i] == Input(c) ==> Connect(c) in log[..i]
      ensures log[i] == Connect(c) ==> Connect(c) !in log[..i]
    {
      ProperEvent(log, c, i);
    }
    PhaseShows(log, c);
  }

  // ---------------------------------------------------------------- a service's list of connections

  function Without(s: seq<ConnectionId>, c: ConnectionId): (r: seq<ConnectionId>)
    ensures forall x :: x in r ==> x in s
    ensures forall x :: x in s && x != c ==> x in r
  {
    if s == [] then [] else if s[0] == c then s[1..] else [s[0]] + Without(s[1..], c)
  }

  lemma {:induction false} WithoutAt(s: seq<ConnectionId>, i: nat)
    requires i < |s| && s[i] !in s[..i]
    ensures Without(s, s[i]) == s[..i] + s[i + 1..]
  {
    if i > 0 {
      assert s[0] in s[..i];
      assert s[1..][..i - 1] == s[..i][1..];
      WithoutAt(s[1..], i - 1);
      assert s[..i] == [s[0]] + s[1..][..i - 1];
    }
  }

  /** fb_remove_connection_from_service, in place. */
  method RemoveConnection(connections: array<ConnectionId>, count: nat, c: ConnectionId) returns (count': nat)
    requires count <= connections.Length && c in connections[..count]
    modifies connections
    ensures count' == count - 1
    ensures connections[..count'] == Without(old(connections[..count]), c)
  {
    var i := 0;
    while i < count && connections[i] != c
      invariant i <= count && c !in connections[..i]
    {
      i := i + 1;
    }
    assert c in connections[..count];
    WithoutAt(connections[..count], i);
    count' := count - 1;
    ghost var was := connections[..count];
    var j := i;
    while j < count'
      invariant i <= j <= count'
      invariant forall k :: 0 <= k < i ==> connections[k] == was[k]
      invariant forall k :: i <= k < j ==> connections[k] == was[k + 1]
      invariant forall k :: j <= k < count ==> connections[k] == was[k]
    {
      connections[j] := connections[j + 1];
      j := j + 1;
    }
    assert connections[..i] == was[..i];
    assert connections[i..count'] == was[i + 1..];
    assert connections[..count'] == connections[..i] + connections[i..count'];
  }

  lemma NoRepeatsTail(s: seq<ConnectionId>)
    requires s != [] && NoRepeats(s)
    ensures NoRepeats(s[1..]) && s[0] !in s[1..]
  {
  }

  lemma NoRepeatsCons(x: ConnectionId, rest: seq<ConnectionId>)
    requires NoRepeats(rest) && x !in rest
    ensures NoRepeats([x] + rest)
  {
    assert forall i :: 0 <= i < |rest| ==> rest[i] in rest;
  }

  lemma {:induction false} WithoutOnce(s: seq<ConnectionId>, c: ConnectionId)
    requires NoRepeats(s)
    ensures NoRepeats(Without(s, c)) && c !in Without(s, c)
  {
    hide NoRepeats;
    if s != [] {
      NoRepeatsTail(s);
      if s[0] != c {
        WithoutOnce(s[1..], c);
        NoRepeatsCons(s[0], Without(s[1..], c));
      }
    }
  }

  // ---------------------------------------------------------------- what is known of connections at all times

  /** FB_CONNECTION as far as its life goes. `drained` says that its output queue is empty. */
  datatype Connection = Connection(service: ServiceId, state: State, drained: bool, http: bool, file: bool)

  type Connections = map<ConnectionId, Connection>
  type Lists = map<ServiceId, seq<ConnectionId>>

  /** Each connection is once in the list of its service, and nowhere else. */
  ghost predicate Listed(connections: Connections, lists: Lists) {
    && (forall c :: c in connections ==> connections[c].service in lists && c in lists[connections[c].service])
    && (forall s, c :: s in lists && c in lists[s] ==> c in connections && connections[c].service == s)
    && (forall s :: s in lists ==> NoRepeats(lists[s]))
  }

  /** The phase a connection's events are in, by its state. */
  predicate PhaseFits(p: Phase, s: State) {
    match s
    case Open => p == Session
    case Flushing => p == Silent || p == Session
    case Closing => p == Ended
    case _ => p == Silent
  }

  ghost predicate Fitting(k: Connection, p: Phase) {
    PhaseFits(p, k.state) && (k.state == Closing ==> k.drained)
  }

  /** The events of live connections are as far as their states say; those of other connections are
      over or never began. Connections not yet made have had no event. */
  ghost predicate Proper(connections: Connections, nextId: nat, log: seq<Event>) {
    && (forall c :: c in connections ==> c < nextId && Fitting(connections[c], PhaseOf(log, c)))
    && (forall c: ConnectionId :: c >= nextId ==> PhaseOf(log, c) == Silent)
    && (forall c: ConnectionId :: c < nextId && c !in connections ==> PhaseOf(log, c) == Silent || PhaseOf(log, c) == Ended)
  }

  /** An event put off is input to a session. */
  ghost predicate Deferrable(queued: Option<Event>, connections: Connections, log: seq<Event>) {
    queued.Some? ==> queued.value.Input? && queued.value.c in connections && PhaseOf(log, queued.value.c) == Session
  }

  function Logged(log: seq<Event>, e: Option<Event>): seq<Event> {
    if e.Some? then log + [e.value] else log
  }

  function After(p: Phase, e: Option<Event>): Phase {
    if e.Some? then Advance(p, e.value) else p
  }

  lemma PhaseLogged(log: seq<Event>, e: Option<Event>, c: ConnectionId)
    ensures PhaseOf(Logged(log, e), c) == if e.Some? && e.value.c == c then Advance(PhaseOf(log, c), e.value) else PhaseOf(log, c)
  {
    if e.Some? {
      PhaseStep(log, e.value, c);
    }
  }

  lemma ChangeProper(connections: Connections, nextId: nat, log: seq<Event>, c: ConnectionId, k: Connection, e: Option<Event>)
    requires Proper(connections, nextId, log) && c < nextId
    requires e.Some? ==> e.value.c == c
    requires Fitting(k, After(PhaseOf(log, c), e))
    ensures Proper(connections[c := k], nextId, Logged(log, e))
  {
    hide PhaseOf, Fitting;
    forall d: ConnectionId ensures d != c ==> PhaseOf(Logged(log, e), d) == PhaseOf(log, d) {
      PhaseLogged(log, e, d);
    }
    PhaseLogged(log, e, c);
  }

  lemma ServiceChangeFits(k: Connection, s: ServiceId, p: Phase)
    requires Fitting(k, p)
    ensures Fitting(k.(service := s), After(p, None))
  {
  }

  lemma FirstLineFits(k: Connection, p: Phase)
    requires k.state == Greeting && Fitting(k, p)
    ensures p == Silent
    ensures Fitting(k.(state := Flushing), After(p, None))
    ensures Fitting(k.(state := GatheringHeader, http := true), After(p, None))
  {
  }

  lemma OpenFits(k: Connection, c: ConnectionId)
    ensures Fitting(k.(state := Open, http := false), After(Silent, Some(Connect(c))))
    ensures After(Silent, Some(Connect(c))) == Session
  {
  }

  lemma BirthProper(connections: Connections, nextId: nat, log: seq<Event>, k: Connection, e: Option<Event>)
    requires Proper(connections, nextId, log)
    requires e.Some? ==> e.value.c == nextId
    requires Fitting(k, After(Silent, e))
    ensures nextId !in connections && Proper(connections[nextId := k], nextId + 1, Logged(log, e))
  {
    hide PhaseOf, Fitting;
    forall d: ConnectionId ensures d != nextId ==> PhaseOf(Logged(log, e), d) == PhaseOf(log, d) {
      PhaseLogged(log, e, d);
    }
    PhaseLogged(log, e, nextId);
  }

  lemma ChangeListed(connections: Connections, lists: Lists, c: ConnectionId, k: Connection)
    requires Listed(connections, lists) && c in connections && k.service == connections[c].service
    ensures Listed(connections[c := k], lists)
  {
  }

  lemma RemoveProper(connections: Connections, nextId: nat, log: seq<Event>, c: ConnectionId)
    requires Proper(connections, nextId, log) && c in connections && PhaseOf(log, c) != Session
    ensures Proper(connections - {c}, nextId, log)
  {
    hide PhaseOf;
  }

  lemma RemoveListed(connections: Connections, lists: Lists, c: ConnectionId)
    requires Listed(connections, lists) && c in connections
    ensures var s := connections[c].service;
            Listed(connections - {c}, lists[s := Without(lists[s], c)])
  {
    WithoutOnce(lists[connections[c].service], c);
  }

  lemma AppendListed(connections: Connections, lists: Lists, c: ConnectionId, k: Connection)
    requires Listed(connections, lists) && c !in connections && k.service in lists
    ensures Listed(connections[c := k], lists[k.service := lists[k.service] + [c]])
  {
    var list := lists[k.service];
    assert forall i :: 0 <= i < |list| ==> list[i] in list;
  }

  /** The connection lists after taking a connection out of one and putting it last in another. */
  function Transferred(lists: Lists, c: ConnectionId, from: ServiceId, to: ServiceId): Lists
    requires from in lists && to in lists
  {
    var without := lists[from := Without(lists[from], c)];
    without[to := without[to] + [c]]
  }

  lemma TransferListed(connections: Connections, lists: Lists, c: ConnectionId, to: ServiceId)
    requires Listed(connections, lists) && c in connections && to in lists
    ensures connections[c].service in lists
    ensures Listed(connections[c := connections[c].(service := to)], Transferred(lists, c, connections[c].service, to))
  {
    var k := connections[c];
    assert k.service in lists;
    RemoveListed(connections, lists, c);
    hide Listed, Without;
    AppendListed(connections - {c}, lists[k.service := Without(lists[k.service], c)], c, k.(service := to));
    assert (connections - {c})[c := k.(service := to)] == connections[c := k.(service := to)];
  }

  /** The connections listed are being closed, the others are as they were. */
  ghost predicate ClosedAll(was: Connections, now: Connections, list: seq<ConnectionId>) {
    && was.Keys == now.Keys
    && forall c :: c in was ==> now[c] == if c in list then AfterClose(was[c]) else was[c]
  }

  lemma ClosedOneMore(was: Connections, now: Connections, list: seq<ConnectionId>, c: ConnectionId)
    requires ClosedAll(was, now, list) && c in was
    ensures ClosedAll(was, now[c := AfterClose(now[c])], list + [c])
  {
    assert forall d :: d in list + [c] <==> d in list || d == c;
  }

  // ---------------------------------------------------------------- what the environment decides

  /** What came of attempts to send: whether one failed, and whether the output queue is empty now. */
  datatype Sending = Sending(failed: bool, drained: bool)

  /** A failed attempt closes the connection as fb_close_connection does. */
  function AfterSending(k: Connection, sending: Sending): Connection {
    if sending.failed then AfterClose(k.(drained := sending.drained)) else k.(drained := sending.drained)
  }

  /** fb_close_connection. */
  function AfterClose(k: Connection): Connection {
    if Rank(k.state) <= Rank(Open) then k.(state := Flushing) else k
  }

  /** What a TLS handshake comes to. */
  datatype Handshake = Fatal | Unfinished | Finished

  /** What reading the first line comes to. */
  datatype FirstLine =
    | NoLine
    | BrokenOff
    | Greeted(target: Option<ServiceId>)
    | GreetedUnknown
    | HttpCommand
    | OtherCommand(fallback: bool)

  /** What reading a header line comes to, and how the request is answered after the last one. A
      request for a service elsewhere in the family moves the connection there first. */
  datatype HeaderLine =
    | NoHeader
    | HeaderBroken
    | MoreHeader
    | Respond(moved: Option<ServiceId>, sending: Sending, tryAgain: bool)
    | Upgrade(moved: Option<ServiceId>, sending: Sending)

  /** What reading from an open session comes to; a greeting is swallowed in mode ALLOW. */
  datatype SessionRead = NothingYet | Dropped | Swallowed | Line

  /** fb_execute_http_request, and what fb_recv_input does when a header is broken off. */
  function Answered(k: Connection, line: HeaderLine): Connection {
    match line
    case NoHeader => k
    case MoreHeader => k
    case HeaderBroken => AfterClose(k)
    case Upgrade(_, sending) => AfterSending(k, sending).(state := Open)
    case Respond(_, sending, tryAgain) =>
      var answered := AfterSending(k, sending);
      if !tryAgain then AfterClose(answered)
      else if Rank(answered.state) < Rank(Open) then answered.(state := Greeting)
      else answered
  }

  lemma AnsweredFits(k: Connection, c: ConnectionId, line: HeaderLine)
    requires k.state == GatheringHeader
    ensures Fitting(Answered(k, line), After(Silent, if line.Upgrade? then Some(Connect(c)) else None))
    ensures Answered(k, line).service == k.service
    ensures Answered(k, line).state == HeaderOutcome(line)
  {
  }

  /** The state a header line leaves its connection in. */
  function HeaderOutcome(line: HeaderLine): State {
    match line
    case NoHeader => GatheringHeader
    case MoreHeader => GatheringHeader
    case HeaderBroken => Flushing
    case Upgrade(_, _) => Open
    case Respond(_, sending, tryAgain) => if tryAgain && !sending.failed then Greeting else Flushing
  }

  /** What an attempt to send does to a connection that has something to send. */
  lemma SendingFits(k: Connection, p: Phase, sending: Sending)
    requires Fitting(k, p) && !k.drained
    ensures Fitting(AfterSending(k, sending), After(p, None)) && AfterSending(k, sending).service == k.service
    ensures AfterSending(k, sending)
         == k.(drained := sending.drained, state := if sending.failed && k.state !in {Flushing, Closing} then Flushing else k.state)
    ensures After(p, None) == p
  {
  }

  /** What closing all connections of a service comes to. */
  lemma ServiceClosed(was: Connections, now: Connections, lists: Lists, s: ServiceId)
    requires Listed(was, lists) && s in lists && ClosedAll(was, now, lists[s])
    ensures forall c :: c in now && now[c].service == s ==> now[c].state in {Flushing, Closing}
    ensures forall c :: c in was && was[c].service != s ==> c in now && now[c] == was[c]
  {
    hide NoRepeats;
  }

  lemma HeaderOutcomes(line: HeaderLine)
    ensures line.Upgrade? ==> HeaderOutcome(line) == Open
    ensures line.HeaderBroken? ==> HeaderOutcome(line) == Flushing
    ensures line.Respond? ==> HeaderOutcome(line) == if line.tryAgain && !line.sending.failed then Greeting else Flushing
  {
  }

  // ---------------------------------------------------------------- the socket manager

  lemma OthersKept(connections: Connections, c: ConnectionId, k: Connection)
    ensures connections[c := k] - {c} == connections - {c}
  {
  }

  class SocketManager {
    var connections: Connections
    var lists: Lists
    /** fb_queue_event: the one event put off until the next poll. */
    var queued: Option<Event>
    /** Connections are numbered in the order they are made. */
    var nextId: nat
    /** Every event given out so far. */
    ghost var log: seq<Event>

    ghost predicate Valid()
      reads this
    {
      Listed(connections, lists) && Proper(connections, nextId, log) && Deferrable(queued, connections, log)
    }

    constructor (services: set<ServiceId>)
      ensures Valid() && log == [] && connections == map[] && queued == None
      ensures lists.Keys == services && forall s :: s in lists ==> lists[s] == []
    {
      connections, queued, nextId, log := map[], None, 0, [];
      lists := map s | s in services :: [];
    }

    /** What is known of one connection. */
    lemma OfOne(c: ConnectionId)
      requires Valid() && c in connections
      ensures c < nextId && Fitting(connections[c], PhaseOf(log, c)) && connections[c].service in lists
    {
    }

    /** A change to a connection with the event to report of it, if any. */
    method Turn(c: ConnectionId, k: Connection, e: Option<Event>)
      requires Valid() && c in connections && k.service == connections[c].service
      requires e.Some? ==> e.value.c == c
      requires Fitting(k, After(PhaseOf(log, c), e))
      requires queued.Some? && queued.value.c == c ==> After(PhaseOf(log, c), e) == Session
      modifies this`connections, this`log
      ensures Valid() && connections == old(connections)[c := k] && log == Logged(old(log), e)
      ensures connections - {c} == old(connections) - {c}
    {
      OthersKept(connections, c, k);
      ChangeProper(connections, nextId, log, c, k, e);
      ChangeListed(connections, lists, c, k);
      if queued.Some? {
        PhaseLogged(log, e, queued.value.c);
      }
      connections := connections[c := k];
      log := Logged(log, e);
    }

    /** fb_destroy_connection. */
    method Destroy(c: ConnectionId)
      requires Valid() && queued == None && c in connections && PhaseOf(log, c) != Session
      modifies this`connections, this`lists
      ensures Valid() && connections == old(connections) - {c}
      ensures var s := old(connections[c].service); lists == old(lists)[s := Without(old(lists[s]), c)]
    {
      RemoveProper(connections, nextId, log, c);
      RemoveListed(connections, lists, c);
      var s := connections[c].service;
      lists := lists[s := Without(lists[s], c)];
      connections := connections - {c};
    }

    /** fb_transfer. */
    method Transfer(c: ConnectionId, target: ServiceId)
      requires Valid() && c in connections && target in lists
      modifies this`connections, this`lists
      ensures Valid() && connections == old(connections)[c := old(connections[c]).(service := target)]
      ensures old(connections[c].service) in old(lists)
      ensures lists == Transferred(old(lists), c, old(connections[c].service), target)
      ensures lists[target] != [] && lists[target][|lists[target]| - 1] == c
      ensures target != old(connections[c].service) ==> lists[target] == old(lists[target]) + [c]
    {
      var k := connections[c];
      OfOne(c);
      ServiceChangeFits(k, target, PhaseOf(log, c));
      TransferListed(connections, lists, c, target);
      ChangeProper(connections, nextId, log, c, k.(service := target), None);
      hide Listed, Proper, Without, NoRepeats, PhaseOf, Fitting, After;
      lists := Transferred(lists, c, k.service, target);
      connections := connections[c := k.(service := target)];
    }

    method TransferIfAsked(c: ConnectionId, target: Option<ServiceId>)
      requires Valid() && c in connections && (target.Some? ==> target.value in lists)
      modifies this`connections, this`lists
      ensures Valid() && c in connections && connections - {c} == old(connections) - {c}
      ensures connections[c] == if target.Some? then old(connections[c]).(service := target.value) else old(connections[c])
    {
      hide *;
      if target.Some? {
        Transfer(c, target.value);
      }
    }

    /** A connection arrives: fb_new_connect after fb_accept_connection, or fb_accept_file. It starts
        below Open when it has to greet or shake hands first, and is announced if it does not. */
    method Arrive(s: ServiceId, state: State, http: bool, file: bool) returns (c: ConnectionId, e: Option<Event>)
      requires Valid() && s in lists && Rank(state) <= Rank(Open) && (file ==> state == Open)
      modifies this`connections, this`lists, this`nextId, this`log
      ensures Valid() && c !in old(connections) && log == Logged(old(log), e)
      ensures connections == old(connections)[c := Connection(s, state, true, http, file)]
      ensures lists == old(lists)[s := old(lists[s]) + [c]]
      ensures e == if state == Open then Some(Connect(c)) else None
    {
      c := nextId;
      var k := Connection(s, state, true, http, file);
      e := if state == Open then Some(Connect(c)) else None;
      BirthProper(connections, nextId, log, k, e);
      AppendListed(connections, lists, c, k);
      hide Listed, Proper, PhaseOf, NoRepeats;
      if queued.Some? {
        PhaseLogged(log, e, queued.value.c);
      }
      connections, lists := connections[c := k], lists[s := lists[s] + [c]];
      nextId := nextId + 1;
      log := Logged(log, e);
    }

    /** The TLS part of fb_read_input. */
    method ShakeHands(c: ConnectionId, shake: Handshake)
      requires Valid() && queued == None && c in connections && connections[c].state == TlsHandshake
      modifies this`connections, this`lists, this`log
      ensures Valid() && log == old(log)
      ensures shake.Fatal? ==> connections == old(connections) - {c}
      ensures shake.Unfinished? ==> connections == old(connections)
      ensures !shake.Fatal? ==> lists == old(lists)
      ensures shake.Finished? ==> connections == old(connections)[c := old(connections[c]).(state := Greeting)]
    {
      match shake
      case Fatal => Destroy(c);
      case Unfinished =>
      case Finished => Turn(c, connections[c].(state := Greeting), None);
    }

    /** fb_queue_event. */
    method Defer(e: Event)
      requires Valid() && queued == None && e.Input? && e.c in connections && PhaseOf(log, e.c) == Session
      modifies this`queued
      ensures Valid() && queued == Some(e)
    {
      queued := Some(e);
    }

    /** A line session begins, first moving to another service if one was asked for. */
    method OpenLineSession(c: ConnectionId, target: Option<ServiceId>) returns (e: Option<Event>)
      requires Valid() && queued == None && c in connections && connections[c].state == Greeting
      requires target.Some? ==> target.value in lists
      modifies this`connections, this`lists, this`log
      ensures Valid() && e == Some(Connect(c)) && log == Logged(old(log), e) && PhaseOf(log, c) == Session
      ensures c in connections && connections - {c} == old(connections) - {c}
      ensures connections[c].state == Open && !connections[c].http
      ensures target.Some? ==> connections[c].service == target.value
    {
      OfOne(c);
      assert PhaseOf(log, c) == Silent;
      hide *;
      TransferIfAsked(c, target);
      e := Some(Connect(c));
      PhaseLogged(log, e, c);
      OpenFits(connections[c], c);
      Turn(c, connections[c].(state := Open, http := false), e);
    }

    /** The greeting part of fb_read_input. In mode FALLBACK the command becomes the session's first
        input, put off so that CONNECT comes before it. */
    method ReadFirstLine(c: ConnectionId, line: FirstLine) returns (e: Option<Event>)
      requires Valid() && queued == None && c in connections && connections[c].state == Greeting
      requires line.Greeted? && line.target.Some? ==> line.target.value in lists
      modifies this`connections, this`lists, this`queued, this`log
      ensures Valid() && log == Logged(old(log), e)
      ensures e == if line.Greeted? || line == OtherCommand(true) then Some(Connect(c)) else None
      ensures queued == if line == OtherCommand(true) then Some(Input(c)) else None
      ensures c in connections <==> !(line.GreetedUnknown? || line == OtherCommand(false))
      ensures connections - {c} == old(connections) - {c}
      ensures line.NoLine? ==> connections == old(connections)
      ensures line.BrokenOff? ==> connections[c].state == Flushing
      ensures line.HttpCommand? ==> connections[c].state == GatheringHeader && connections[c].http
      ensures e.Some? ==> connections[c].state == Open && !connections[c].http
      ensures line.Greeted? && line.target.Some? ==> connections[c].service == line.target.value
    {
      OfOne(c);
      FirstLineFits(connections[c], PhaseOf(log, c));
      hide *;
      e := None;
      match line
      case NoLine =>
      case BrokenOff => Turn(c, connections[c].(state := Flushing), None);
      case Greeted(target) => e := OpenLineSession(c, target);
      case GreetedUnknown => Destroy(c);
      case HttpCommand => Turn(c, connections[c].(state := GatheringHeader, http := true), None);
      case OtherCommand(fallback) =>
        if fallback {
          e := OpenLineSession(c, None);
          Defer(Input(c));
        } else {
          Destroy(c);
        }
    }

    /** The header part of fb_read_input, with fb_execute_http_request at the end of the header. An
        accepted upgrade opens the session even if sending the answer has just failed. */
    method ReadHeaderLine(c: ConnectionId, line: HeaderLine) returns (e: Option<Event>)
      requires Valid() && queued == None && c in connections && connections[c].state == GatheringHeader
      requires (line.Respond? || line.Upgrade?) && line.moved.Some? ==> line.moved.value in lists
      modifies this`connections, this`lists, this`log
      ensures Valid() && log == Logged(old(log), e) && c in connections
      ensures e == if line.Upgrade? then Some(Connect(c)) else None
      ensures connections - {c} == old(connections) - {c}
      ensures line.NoHeader? || line.MoreHeader? ==> connections == old(connections)
      ensures line.Upgrade? ==> connections[c].state == Open
      ensures line.HeaderBroken? ==> connections[c].state == Flushing
      ensures line.Respond? ==> connections[c].state == if line.tryAgain && !line.sending.failed then Greeting else Flushing
    {
      OfOne(c);
      assert PhaseOf(log, c) == Silent;
      hide *;
      e := if line.Upgrade? then Some(Connect(c)) else None;
      if line.Respond? || line.Upgrade? {
        TransferIfAsked(c, line.moved);
      }
      AnsweredFits(connections[c], c, line);
      HeaderOutcomes(line);
      if !line.NoHeader? && !line.MoreHeader? {
        Turn(c, Answered(connections[c], line), e);
      }
    }

    /** The session part of fb_read_input. */
    method ReadSession(c: ConnectionId, read: SessionRead) returns (e: Option<Event>)
      requires Valid() && queued == None && c in connections && connections[c].state == Open
      modifies this`connections, this`log
      ensures Valid() && log == Logged(old(log), e)
      ensures e == if read.Line? then Some(Input(c)) else None
      ensures connections == if read.Dropped? then old(connections)[c := old(connections[c]).(state := Flushing)] else old(connections)
    {
      e := None;
      if read.Dropped? {
        Turn(c, AfterClose(connections[c]), None);
      } else if read.Line? {
        e := Some(Input(c));
        assert connections[c := connections[c]] == connections;
        Turn(c, connections[c], e);
      }
    }

    /** fb_read_input. Once a connection is flushing or closing its input is not read. */
    method ReadInput(c: ConnectionId, shake: Handshake, first: FirstLine, header: HeaderLine, read: SessionRead)
      returns (e: Option<Event>)
      requires Valid() && queued == None && c in connections
      requires first.Greeted? && first.target.Some? ==> first.target.value in lists
      requires (header.Respond? || header.Upgrade?) && header.moved.Some? ==> header.moved.value in lists
      modifies this`connections, this`lists, this`queued, this`log
      ensures Valid() && log == Logged(old(log), e)
      ensures old(connections[c].state) in {Flushing, Closing} ==> e == None && connections == old(connections)
      ensures e.Some? ==> e.value.c == c && !e.value.Close?
    {
      e := None;
      var state := connections[c].state;
      match state
      case TlsHandshake =>
        ShakeHands(c, shake);
        if shake.Finished? {
          e := ReadFirstLine(c, first);
        }
      case Greeting => e := ReadFirstLine(c, first);
      case GatheringHeader => e := ReadHeaderLine(c, header);
      case Open => e := ReadSession(c, read);
      case Flushing =>
      case Closing =>
    }

    /** fb_send_output from the poll: a drained connection that is to close says so first and is
        destroyed the next time. */
    method SendOutput(c: ConnectionId, sending: Sending) returns (e: Option<Event>)
      requires Valid() && queued == None && c in connections
      modifies this`connections, this`lists, this`log
      ensures Valid() && log == Logged(old(log), e)
      ensures e == if old(connections[c].drained && connections[c].state == Flushing) then Some(Close(c)) else None
      ensures e.Some? ==> connections == old(connections)[c := old(connections[c]).(state := Closing)]
      ensures c !in connections <==> old(connections[c].state) == Closing
      ensures connections - {c} == old(connections) - {c}
      ensures old(connections[c].drained) && old(connections[c].state) !in {Flushing, Closing} ==> connections == old(connections)
      ensures !old(connections[c].drained) ==>
                connections[c] == old(connections[c]).(drained := sending.drained,
                                                       state := if sending.failed && old(connections[c].state) !in {Flushing, Closing}
                                                                then Flushing else old(connections[c].state))
    {
      e := None;
      var k := connections[c];
      if !k.drained {
        SendingFits(k, PhaseOf(log, c), sending);
        hide AfterSending, AfterClose, Fitting, After;
        Turn(c, AfterSending(k, sending), None);
      } else if k.state == Flushing {
        e := Some(Close(c));
        Turn(c, k.(state := Closing), e);
      } else if k.state == Closing {
        Destroy(c);
      }
    }

    /** A message for a connection: fb_queue_single with its fb_send_output (NULL, ...). A WebSocket
        session may only collect it until a line ends. */
    method QueueSingle(c: ConnectionId, endsLine: bool, sending: Sending) returns (accepted: bool)
      requires Valid() && c in connections
      modifies this`connections, this`log
      ensures Valid() && log == old(log)
      ensures accepted <==> old(connections[c].state) in {Open, Flushing} && !old(connections[c].file)
      ensures !accepted ==> connections == old(connections)
      ensures connections - {c} == old(connections) - {c}
      ensures accepted ==> connections[c].state == old(connections[c].state)
                           || (connections[c].state == Flushing && old(connections[c].state) == Open && sending.failed)
    {
      var k := connections[c];
      accepted := k.state != Closing && Rank(k.state) >= Rank(Open) && !k.file;
      if accepted && !(k.http && !endsLine && k.drained) {
        Turn(c, AfterSending(k, sending), None);
      }
    }

    /** fb_close_connection. */
    method CloseConnection(c: ConnectionId)
      requires Valid() && c in connections
      modifies this`connections, this`log
      ensures Valid() && log == old(log)
      ensures connections == old(connections)[c := AfterClose(old(connections[c]))]
      ensures connections[c] == old(connections[c]).(state := if old(connections[c].state) == Closing then Closing else Flushing)
    {
      Turn(c, AfterClose(connections[c]), None);
    }

    /** fb_close_service closes the service's connections one after the other. */
    method CloseService(s: ServiceId)
      requires Valid() && s in lists
      modifies this`connections, this`log
      ensures Valid() && log == old(log) && ClosedAll(old(connections), connections, lists[s])
      ensures forall c :: c in connections && connections[c].service == s ==> connections[c].state in {Flushing, Closing}
      ensures forall c :: c in old(connections) && old(connections[c].service) != s ==>
                c in connections && connections[c] == old(connections[c])
    {
      var list := lists[s];
      assert forall c :: c in list ==> c in connections;
      assert ClosedAll(connections, connections, list[..0]);
      ghost var was := connections;
      hide Listed, Proper, PhaseOf, Deferrable, NoRepeats, ClosedAll, AfterClose;
      var i := 0;
      while i < |list|
        invariant i <= |list| && Valid() && log == old(log)
        invariant ClosedAll(old(connections), connections, list[..i])
      {
        ClosedOneMore(old(connections), connections, list[..i], list[i]);
        assert list[..i + 1] == list[..i] + [list[i]];
        assert list[i] in list;
        CloseConnection(list[i]);
        i := i + 1;
      }
      assert list[..i] == list;
      ServiceClosed(was, connections, lists, s);
    }

    /** The poll gives out an event put off before anything else. */
    method PollQueued() returns (e: Event)
      requires Valid() && queued.Some?
      modifies this`queued, this`log
      ensures Valid() && queued == None && e == old(queued.value) && log == old(log) + [e]
    {
      e := queued.value;
      ChangeProper(connections, nextId, log, e.c, connections[e.c], Some(e));
      assert connections[e.c := connections[e.c]] == connections;
      queued, log := None, log + [e];
    }

    /** What holds of every run: a connection that was announced and is no longer there had exactly
        one CLOSE, and after a CLOSE nothing more was heard of it. */
    lemma RunIsProper(c: ConnectionId)
      requires Valid()
      ensures PhaseOf(log, c) != Improper
      ensures Connect(c) in log && c !in connections ==> Close(c) in log
      ensures Close(c) in log && c in connections ==> connections[c].state == Closing
      ensures forall i, j :: 0 <= i < j < |log| && log[i] == Close(c) ==> log[j].c != c
      ensures forall j :: 0 <= j < |log| && log[j] == Input(c) ==> Connect(c) in log[..j]
      ensures forall j :: 0 <= j < |log| && log[j] == Connect(c) ==> Connect(c) !in log[..j]
    {
      assert PhaseOf(log, c) != Improper;
      hide PhaseOf;
      ProperLog(log, c);
      PhaseShows(log, c);
    }
  }
}
