/** crates/stardust/src/broker.rs: the broker loop and the connection tasks, as the code runs them. */
module Broker {
  import opened Messages
  import opened BrokerModel

  /** What the channels hold once the direct copy and the visited pairs' copies have been sent. */
  ghost predicate SentSoFar(s: BrokerState, msg: Message, sender: ConnId, visited: set<(string, ConnId)>,
                            channels: Channels) {
    forall tx :: Log(channels, tx) == Log(s.channels, tx) +
      Repeat(Delivery(|s.routed|, msg), DirectCopies(s, msg, sender, tx) + |To(visited, s.connections, tx)|)
  }

  lemma RepeatMore<T>(s: seq<T>, x: T, n: nat)
    ensures (s + Repeat(x, n)) + [x] == s + Repeat(x, n + 1)
  {
  }

  lemma ToMore(visited: set<(string, ConnId)>, connections: map<ConnId, Tx>, x: (string, ConnId), tx: Tx)
    requires x !in visited && x.1 in connections
    ensures |To(visited + {x}, connections, tx)| ==
      |To(visited, connections, tx)| + if connections[x.1] == tx then 1 else 0
  {
    if connections[x.1] == tx {
      assert To(visited + {x}, connections, tx) == To(visited, connections, tx) + {x};
    } else {
      assert To(visited + {x}, connections, tx) == To(visited, connections, tx);
    }
  }

  lemma SendOne(s: BrokerState, msg: Message, sender: ConnId, visited: set<(string, ConnId)>, channels: Channels,
                x: (string, ConnId))
    requires SentSoFar(s, msg, sender, visited, channels) && x !in visited && x.1 in s.connections
    ensures SentSoFar(s, msg, sender, visited + {x}, Send(channels, s.connections[x.1], Delivery(|s.routed|, msg)))
  {
    hide DirectCopies, To;
    var d := Delivery(|s.routed|, msg);
    var after := Send(channels, s.connections[x.1], d);
    forall tx
      ensures Log(after, tx) == Log(s.channels, tx) +
        Repeat(d, DirectCopies(s, msg, sender, tx) + |To(visited + {x}, s.connections, tx)|)
    {
      ToMore(visited, s.connections, x, tx);
      RepeatMore(Log(s.channels, tx), d, DirectCopies(s, msg, sender, tx) + |To(visited, s.connections, tx)|);
    }
  }

  lemma SentNothing(s: BrokerState, msg: Message, sender: ConnId, channels: Channels)
    requires forall tx ::
      Log(channels, tx) == Log(s.channels, tx) + Repeat(Delivery(|s.routed|, msg), DirectCopies(s, msg, sender, tx))
    ensures SentSoFar(s, msg, sender, {}, channels)
  {
    forall tx
      ensures |To({}, s.connections, tx)| == 0
    {
      assert To({}, s.connections, tx) == {};
    }
  }

  lemma SentDirect(s: BrokerState, msg: Message, sender: ConnId, channels: Channels)
    requires channels ==
      if msg.dst != "" && msg.dst in s.services && OwnsDestination(s, msg, sender, s.services[msg.dst])
      then Send(s.channels, s.connections[s.services[msg.dst]], Delivery(|s.routed|, msg)) else s.channels
    ensures SentSoFar(s, msg, sender, {}, channels)
  {
    var d := Delivery(|s.routed|, msg);
    forall tx
      ensures Log(channels, tx) == Log(s.channels, tx) + Repeat(d, DirectCopies(s, msg, sender, tx))
    {
      RepeatMore(Log(s.channels, tx), d, 0);
      assert Log(s.channels, tx) + Repeat(d, 0) == Log(s.channels, tx);
    }
    SentNothing(s, msg, sender, channels);
  }

  lemma SentEverything(s: BrokerState, msg: Message, sender: ConnId, channels: Channels)
    requires SentSoFar(s, msg, sender, Matches(s, msg, sender), channels)
    ensures Delivered(s, msg, sender, channels)
  {
  }

  /** The pairs whose pattern is done with, or whose pattern is `p` and whose connection is done with. */
  function Visited(s: BrokerState, msg: Message, sender: ConnId, rest: set<string>, p: string,
                   conns: set<ConnId>): set<(string, ConnId)> {
    set x | x in Matches(s, msg, sender) && x.0 !in rest && !(x.0 == p && x.1 in conns)
  }

  lemma VisitedBounds(s: BrokerState, msg: Message, sender: ConnId, p: string)
    ensures Visited(s, msg, sender, s.subscriptions.Keys, p, {}) == {}
    ensures Visited(s, msg, sender, {}, p, {}) == Matches(s, msg, sender)
  {
  }

  /** Taking up a pattern visits nothing yet; setting one aside that does not match misses nothing. */
  lemma VisitedPattern(s: BrokerState, msg: Message, sender: ConnId, rest: set<string>, p: string, q: string)
    requires p in rest && p in s.subscriptions
    ensures Visited(s, msg, sender, rest - {p}, p, s.subscriptions[p]) == Visited(s, msg, sender, rest, q, {})
    ensures !MatchesTopic(msg.topic, p) ==>
      Visited(s, msg, sender, rest - {p}, p, {}) == Visited(s, msg, sender, rest, q, {})
  {
  }

  lemma VisitedConnection(s: BrokerState, msg: Message, sender: ConnId, rest: set<string>, p: string,
                          conns: set<ConnId>, c: ConnId)
    requires p in s.subscriptions && MatchesTopic(msg.topic, p) && p !in rest
    requires conns <= s.subscriptions[p] && c in conns
    ensures (p, c) !in Visited(s, msg, sender, rest, p, conns)
    ensures Visited(s, msg, sender, rest, p, conns - {c}) ==
      Visited(s, msg, sender, rest, p, conns) + if c != sender && c in s.connections then {(p, c)} else {}
  {
  }

  /** What a connection task's select loop can wake up to. */
  datatype TaskEvent =
    | Incoming(msg: Message)
    | DecodeError
    | Disconnected
    | Outgoing(msg: Message, ok: bool)
    | ChannelClosed

  /** The events that end the loop: a failed write counts. */
  predicate Ends(e: TaskEvent) {
    match e
    case Incoming(_) => false
    case Outgoing(_, ok) => !ok
    case _ => true
  }

  function UntilEnd(events: seq<TaskEvent>): seq<TaskEvent> {
    if events == [] || Ends(events[0]) then [] else [events[0]] + UntilEnd(events[1..])
  }

  function Commands(id: ConnId, events: seq<TaskEvent>): seq<BrokerCmd> {
    if events == [] then []
    else
      var e := events[|events| - 1];
      Commands(id, events[..|events| - 1]) + if e.Incoming? then [Dispatch(id, e.msg)] else []
  }

  function Written(events: seq<TaskEvent>): seq<Message> {
    if events == [] then []
    else
      var e := events[|events| - 1];
      Written(events[..|events| - 1]) + if e.Outgoing? && e.ok then [e.msg] else []
  }

  lemma EndSpelledOut(events: seq<TaskEvent>)
    ensures (exists i :: 0 <= i < |events| && Ends(events[i])) <==>
      exists e :: e in events && (e.DecodeError? || e.Disconnected? || e.ChannelClosed? || (e.Outgoing? && !e.ok))
  {
    if i :| 0 <= i < |events| && Ends(events[i]) {
      assert events[i] in events;
    }
  }

  /** The i-th event, if it is a successful write, is written after the earlier ones and before the later ones. */
  lemma {:induction false} WrittenAt(events: seq<TaskEvent>, i: nat)
    requires i < |events| && events[i].Outgoing? && events[i].ok
    ensures
      var earlier := |set j | 0 <= j < i && events[j].Outgoing? && events[j].ok|;
      earlier < |Written(events)| && Written(events)[earlier] == events[i].msg
    decreases |events|
  {
    var n := |events| - 1;
    if i < n {
      WrittenAt(events[..n], i);
      assert (set j | 0 <= j < i && events[j].Outgoing? && events[j].ok) ==
        set j | 0 <= j < i && events[..n][j].Outgoing? && events[..n][j].ok;
    } else {
      WrittenCount(events[..n]);
      assert (set j | 0 <= j < i && events[j].Outgoing? && events[j].ok) ==
        set j | 0 <= j < n && events[..n][j].Outgoing? && events[..n][j].ok;
    }
  }

  /** Nothing else is written. */
  lemma {:induction false} WrittenCount(events: seq<TaskEvent>)
    ensures |Written(events)| == |set j | 0 <= j < |events| && events[j].Outgoing? && events[j].ok|
    decreases |events|
  {
    if events != [] {
      var n := |events| - 1;
      WrittenCount(events[..n]);
      var few := set j | 0 <= j < n && events[..n][j].Outgoing? && events[..n][j].ok;
      var all := set j | 0 <= j < |events| && events[j].Outgoing? && events[j].ok;
      assert all == few + if events[n].Outgoing? && events[n].ok then {n} else {};
    }
  }

  lemma {:induction false} FirstEnd(events: seq<TaskEvent>, n: nat)
    requires n <= |events| && forall k :: 0 <= k < n ==> !Ends(events[k])
    requires n == |events| || Ends(events[n])
    ensures UntilEnd(events) == events[..n]
    decreases |events|
  {
    if n > 0 {
      FirstEnd(events[1..], n - 1);
      assert events[..n] == [events[0]] + events[1..][..n - 1];
    }
  }

  /** No message from a client makes its task say farewell. */
  lemma {:induction false} NoEarlyFarewell(id: ConnId, events: seq<TaskEvent>)
    ensures Unregister(id) !in Commands(id, events)
    decreases |events|
  {
    if events != [] {
      NoEarlyFarewell(id, events[..|events| - 1]);
    }
  }

  function Receives(id: ConnId, events: seq<TaskEvent>): seq<Action> {
    if events == [] then []
    else
      var e := events[|events| - 1];
      Receives(id, events[..|events| - 1]) + if e.Incoming? then [Receive(id, e.msg)] else []
  }

  /** The protocol's actions of a task that meets these events. */
  function TaskActions(id: ConnId, events: seq<TaskEvent>): seq<Action> {
    [Start(id)] + Receives(id, UntilEnd(events)) + if UntilEnd(events) == events then [] else [Close(id)]
  }

  /** The system when the task has connected, enqueued these commands and reached this phase. */
  function TaskTook(s: System, id: ConnId, sent: seq<BrokerCmd>, phase: Phase): System {
    s.(tasks := s.tasks[id := phase],
       broker := s.broker.(connections := s.broker.connections[id := SocketTx(id)]),
       queue := s.queue + sent)
  }

  lemma {:induction false} ReceivesLead(s: System, id: ConnId, events: seq<TaskEvent>, s': System)
    requires InPhase(s, id, Spawned)
    ensures Path(s, [Start(id)] + Receives(id, events), s') <==> s' == TaskTook(s, id, Commands(id, events), Open)
    decreases |events|
  {
    if events == [] {
      StartLeads(s, id, s');
    } else {
      var n := |events| - 1;
      var front, e := events[..n], events[n];
      if e.Incoming? {
        forall m: System {
          ReceivesLead(s, id, front, m);
        }
        PathSnoc(s, [Start(id)] + Receives(id, front), Receive(id, e.msg), s');
        assert [Start(id)] + (Receives(id, front) + [Receive(id, e.msg)]) ==
          ([Start(id)] + Receives(id, front)) + [Receive(id, e.msg)];
        ReceiveLeads(s, id, Commands(id, front), e.msg, s');
      } else {
        ReceivesLead(s, id, front, s');
        assert Receives(id, front) + [] == Receives(id, front);
        assert Commands(id, front) + [] == Commands(id, front);
      }
    }
  }

  lemma StartLeads(s: System, id: ConnId, s': System)
    requires InPhase(s, id, Spawned)
    ensures Path(s, [Start(id)] + [], s') <==> s' == TaskTook(s, id, [], Open)
  {
    var none: seq<Action> := [];
    PathSnoc(s, none, Start(id), s');
    assert none + [Start(id)] == [Start(id)] + none && s.queue + [] == s.queue;
    assert Path(s, none, s);
  }

  lemma ReceiveLeads(s: System, id: ConnId, sent: seq<BrokerCmd>, msg: Message, s': System)
    ensures Step(TaskTook(s, id, sent, Open), Receive(id, msg), s') <==>
      s' == TaskTook(s, id, sent + [Dispatch(id, msg)], Open)
  {
    assert (s.queue + sent) + [Dispatch(id, msg)] == s.queue + (sent + [Dispatch(id, msg)]);
  }

  lemma CloseLeads(s: System, id: ConnId, sent: seq<BrokerCmd>, s': System)
    ensures Step(TaskTook(s, id, sent, Open), Close(id), s') <==>
      s' == TaskTook(s, id, sent + [Unregister(id)], Closed)
  {
    assert (s.queue + sent) + [Unregister(id)] == s.queue + (sent + [Unregister(id)]);
    assert s.tasks[id := Open][id := Closed] == s.tasks[id := Closed];
  }

  /** The task's actions lead to one state only: connected, its commands enqueued, its farewell last. */
  lemma TaskActionsLead(s: System, id: ConnId, events: seq<TaskEvent>, s': System)
    requires InPhase(s, id, Spawned)
    ensures Path(s, TaskActions(id, events), s') <==>
      s' == if UntilEnd(events) == events then TaskTook(s, id, Commands(id, events), Open)
            else TaskTook(s, id, Commands(id, UntilEnd(events)) + [Unregister(id)], Closed)
  {
    hide Step, Path, TaskTook;
    var before := UntilEnd(events);
    var actions := [Start(id)] + Receives(id, before);
    if before == events {
      assert actions + [] == actions;
      ReceivesLead(s, id, before, s');
    } else {
      forall m: System {
        ReceivesLead(s, id, before, m);
      }
      PathSnoc(s, actions, Close(id), s');
      CloseLeads(s, id, Commands(id, before), s');
    }
  }

  class Broker {
    var services: map<string, ConnId>
    var subscriptions: Subscriptions
    var connections: map<ConnId, Tx>
    var channels: Channels
    /** The messages of all route steps, so that deliveries can be numbered. */
    var routed: seq<Message>

    ghost function State(): BrokerState
      reads this
    {
      BrokerState(services, subscriptions, connections, channels, routed)
    }

    constructor ()
      ensures State() == INIT.broker
    {
      services, subscriptions, connections, channels, routed := map[], map[], map[], map[], [];
    }

    /** The Unregister arm, with its loop over the subscription sets. */
    method HandleUnregister(id: ConnId)
      modifies this
      ensures State() == Unregistered(old(State()), id)
    {
      services := map n | n in services && services[n] != id :: services[n];
      var rest := subscriptions.Keys;
      while rest != {}
        invariant rest <= subscriptions.Keys == old(subscriptions).Keys
        invariant forall p :: p in subscriptions ==>
          subscriptions[p] == if p in rest then old(subscriptions)[p] else old(subscriptions)[p] - {id}
        invariant services == Unregistered(old(State()), id).services
        invariant connections == old(connections) && channels == old(channels) && routed == old(routed)
        decreases rest
      {
        var p :| p in rest;
        rest := rest - {p};
        subscriptions := subscriptions[p := subscriptions[p] - {id}];
      }
      connections := connections - {id};
    }

    /** The Route arm: the direct copy, then one per matching pattern and subscriber. */
    method HandleRoute(msg: Message, sender: ConnId)
      modifies this
      ensures Processed(old(State()), Route(msg, sender), State())
    {
      hide MatchesTopic, Matches, Visited, SentSoFar, To, DirectCopies;
      ghost var s := State();
      var d := Delivery(|routed|, msg);
      if msg.dst != "" && msg.dst in services {
        var target := services[msg.dst];
        if target != sender && target in connections {
          channels := Send(channels, connections[target], d);
        }
      }
      SentDirect(s, msg, sender, channels);
      var rest, pattern := subscriptions.Keys, "";
      VisitedBounds(s, msg, sender, pattern);
      while rest != {}
        invariant rest <= s.subscriptions.Keys
        invariant State() == s.(channels := channels)
        invariant SentSoFar(s, msg, sender, Visited(s, msg, sender, rest, pattern, {}), channels)
        decreases rest
      {
        var p :| p in rest;
        VisitedPattern(s, msg, sender, rest, p, pattern);
        rest, pattern := rest - {p}, p;
        if MatchesTopic(msg.topic, p) {
          DeliverTo(msg, sender, p, d, s, rest);
        }
      }
      VisitedBounds(s, msg, sender, pattern);
      SentEverything(s, msg, sender, channels);
      routed := routed + [msg];
    }

    /** The inner loop over one matching pattern's subscribers. */
    method DeliverTo(msg: Message, sender: ConnId, p: string, d: Delivery, ghost s: BrokerState,
                     ghost rest: set<string>)
      requires p in subscriptions && MatchesTopic(msg.topic, p) && p !in rest
      requires State() == s.(channels := channels) && d == Delivery(|s.routed|, msg)
      requires SentSoFar(s, msg, sender, Visited(s, msg, sender, rest, p, s.subscriptions[p]), channels)
      modifies this`channels
      ensures SentSoFar(s, msg, sender, Visited(s, msg, sender, rest, p, {}), channels)
    {
      hide MatchesTopic, Matches, Visited, SentSoFar, To, DirectCopies;
      var conns := subscriptions[p];
      while conns != {}
        invariant State() == s.(channels := channels) && conns <= s.subscriptions[p]
        invariant SentSoFar(s, msg, sender, Visited(s, msg, sender, rest, p, conns), channels)
        decreases conns
      {
        var c :| c in conns;
        VisitedConnection(s, msg, sender, rest, p, conns, c);
        if c != sender && c in connections {
          SendOne(s, msg, sender, Visited(s, msg, sender, rest, p, conns), channels, (p, c));
          channels := Send(channels, connections[c], d);
        } else {
          assert Visited(s, msg, sender, rest, p, conns) + {} == Visited(s, msg, sender, rest, p, conns);
        }
        conns := conns - {c};
      }
    }

    /** One command of `run_broker`. */
    method Handle(cmd: BrokerCmd)
      modifies this
      ensures Processed(old(State()), cmd, State())
    {
      match cmd {
        case Register(id, service) => services := services[service := id];
        case RegisterService(name) => services := services[name := BRIDGE_SERVICE];
        case Unregister(id) => HandleUnregister(id);
        case Subscribe(id, topic) => subscriptions := Subscribed(subscriptions, topic, id);
        case SubscribeDirect(topic, tx) =>
          var syntheticId := |connections| + SYNTHETIC_BASE;
          connections := connections[syntheticId := tx];
          subscriptions := Subscribed(subscriptions, topic, syntheticId);
        case UnsubscribeDirect(_, _) =>
        case Unsubscribe(id, topic) =>
          if topic in subscriptions {
            subscriptions := subscriptions[topic := subscriptions[topic] - {id}];
          }
        case Route(msg, sender) => HandleRoute(msg, sender);
        case Call(_) =>
      }
    }

    /** `run_broker` on a queue: commands take effect one by one, in order. */
    method Run(queue: seq<BrokerCmd>) returns (ghost states: seq<BrokerState>)
      modifies this
      ensures |states| == |queue| + 1 && states[0] == old(State()) && states[|queue|] == State()
      ensures forall i :: 0 <= i < |queue| ==> Processed(states[i], queue[i], states[i + 1])
    {
      hide Processed;
      states := [State()];
      for i := 0 to |queue|
        invariant |states| == i + 1 && states[0] == old(State()) && states[i] == State()
        invariant forall k :: 0 <= k < i ==> Processed(states[k], queue[k], states[k + 1])
      {
        Handle(queue[i]);
        states := states + [State()];
      }
    }

    /**
     * `handle_connection`.  The channel is entered; messages from the client become commands and
     * messages from the channel are written out, in order, up to the first event that ends the
     * connection; only then, and once, its Unregister is enqueued.  From a system whose broker is
     * this one, that is where the protocol's actions for these events lead.
     */
    method HandleConnection(id: ConnId, events: seq<TaskEvent>)
      returns (sent: seq<BrokerCmd>, written: seq<Message>, closed: bool)
      modifies this`connections
      ensures connections == old(connections)[id := SocketTx(id)]
      ensures closed <==> exists i :: 0 <= i < |events| && Ends(events[i])
      ensures sent == Commands(id, UntilEnd(events)) + if closed then [Unregister(id)] else []
      ensures written == Written(UntilEnd(events))
      ensures closed <==>
        exists e :: e in events && (e.DecodeError? || e.Disconnected? || e.ChannelClosed? || (e.Outgoing? && !e.ok))
      ensures Unregister(id) !in Commands(id, UntilEnd(events))
      ensures forall s: System, s': System :: s.broker == old(State()) && InPhase(s, id, Spawned) ==>
        (Path(s, TaskActions(id, events), s') <==>
         s' == TaskTook(s, id, sent, if closed then Closed else Open) && s'.broker == State())
    {
      connections := connections[id := SocketTx(id)];
      sent, written, closed := ServeClient(id, events);
      NoEarlyFarewell(id, UntilEnd(events));
      EndSpelledOut(events);
      hide UntilEnd, Ends, Commands, Written, Path, TaskActions;
      if closed {
        sent := sent + [Unregister(id)];
      } else {
        assert sent + [] == sent;
      }
      forall s: System, s': System | s.broker == old(State()) && InPhase(s, id, Spawned)
        ensures Path(s, TaskActions(id, events), s') <==>
          s' == TaskTook(s, id, sent, if closed then Closed else Open) && s'.broker == State()
      {
        TaskActionsLead(s, id, events, s');
      }
    }

    /** The select loop, up to the first event that ends it. */
    method ServeClient(id: ConnId, events: seq<TaskEvent>)
      returns (sent: seq<BrokerCmd>, written: seq<Message>, closed: bool)
      ensures closed <==> exists i :: 0 <= i < |events| && Ends(events[i])
      ensures closed <==> UntilEnd(events) != events
      ensures sent == Commands(id, UntilEnd(events)) && written == Written(UntilEnd(events))
    {
      sent, written, closed := [], [], false;
      var i := 0;
      while i < |events| && !closed
        invariant 0 <= i <= |events|
        invariant closed ==> i < |events| && Ends(events[i])
        invariant forall k :: 0 <= k < i ==> !Ends(events[k])
        invariant sent == Commands(id, events[..i]) && written == Written(events[..i])
        decreases |events| - i, !closed
      {
        assert events[..i + 1][..i] == events[..i];
        match events[i] {
          case Incoming(msg) =>
            if msg.topic == "__stardust.register" {
              sent := sent + [Register(id, msg.params)];
            } else if msg.topic == "__stardust.subscribe" {
              sent := sent + [Subscribe(id, msg.params)];
            } else if msg.topic == "__stardust.unsubscribe" {
              sent := sent + [Unsubscribe(id, msg.params)];
            } else {
              sent := sent + [Route(msg, id)];
            }
          case Outgoing(msg, ok) =>
            if ok {
              written := written + [msg];
            } else {
              closed := true;
            }
          case DecodeError => closed := true;
          case Disconnected => closed := true;
          case ChannelClosed => closed := true;
        }
        if !closed {
          i := i + 1;
        }
      }
      FirstEnd(events, i);
      assert !closed ==> events[..i] == events;
      assert closed ==> |UntilEnd(events)| < |events|;
    }
  }
}
