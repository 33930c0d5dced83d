/**
 * crates/stardust/src/broker.rs as a step protocol: the accepting loop, the connection tasks, the
 * WebSocket bridge and the broker loop take turns in any order, connected by one command queue.
 */
module BrokerModel {
  import opened Messages

  type ConnId = nat

  /** The name `RegisterService` files a service under: `u64::MAX`. */
  const BRIDGE_SERVICE: ConnId := 0xFFFF_FFFF_FFFF_FFFF
  const SYNTHETIC_BASE: ConnId := 100000

  /** The receiving end of a channel: a socket connection's, or one supplied by the bridge. */
  datatype Tx = SocketTx(conn: ConnId) | BridgeTx(n: nat)

  /** A message handed to a channel, with the number of the route step that sent it. */
  datatype Delivery = Delivery(step: nat, msg: Message)

  datatype BrokerCmd =
    | Register(connId: ConnId, service: string)
    | RegisterService(name: string)
    | Unregister(connId: ConnId)
    | Subscribe(connId: ConnId, topic: string)
    | SubscribeDirect(topic: string, tx: Tx)
    | Unsubscribe(connId: ConnId, topic: string)
    | UnsubscribeDirect(topic: string, tx: Tx)
    | Route(msg: Message, sender: ConnId)
    | Call(msg: Message)

  type Subscriptions = map<string, set<ConnId>>
  type Channels = map<Tx, seq<Delivery>>

  /** `routed` lists the messages of all route steps so far. */
  datatype BrokerState = BrokerState(
    services: map<string, ConnId>,
    subscriptions: Subscriptions,
    connections: map<ConnId, Tx>,
    channels: Channels,
    routed: seq<Message>
  )

  function Log(channels: Channels, tx: Tx): seq<Delivery> {
    if tx in channels then channels[tx] else []
  }

  function Send(channels: Channels, tx: Tx, d: Delivery): Channels {
    channels[tx := Log(channels, tx) + [d]]
  }

  function Repeat<T>(x: T, n: nat): seq<T> {
    seq(n, _ => x)
  }

  // ---------------------------------------------------------------------------
  // Routing

  /** The connection that owns the destination, if it is live and not the sender. */
  predicate OwnsDestination(s: BrokerState, msg: Message, sender: ConnId, c: ConnId) {
    && msg.dst != "" && msg.dst in s.services && s.services[msg.dst] == c
    && c != sender && c in s.connections
  }

  /** The (pattern, connection) pairs that get a copy. */
  function Matches(s: BrokerState, msg: Message, sender: ConnId): set<(string, ConnId)> {
    set p, c | p in s.subscriptions && MatchesTopic(msg.topic, p) && c in s.subscriptions[p] &&
      c != sender && c in s.connections :: (p, c)
  }

  function To(pairs: set<(string, ConnId)>, connections: map<ConnId, Tx>, tx: Tx): set<(string, ConnId)> {
    set x | x in pairs && x.1 in connections && connections[x.1] == tx
  }

  function DirectCopies(s: BrokerState, msg: Message, sender: ConnId, tx: Tx): nat {
    if msg.dst != "" && msg.dst in s.services &&
       OwnsDestination(s, msg, sender, s.services[msg.dst]) && s.connections[s.services[msg.dst]] == tx
    then 1 else 0
  }

  /** How many copies one route step hands to a channel. */
  function Copies(s: BrokerState, msg: Message, sender: ConnId, tx: Tx): nat {
    DirectCopies(s, msg, sender, tx) + |To(Matches(s, msg, sender), s.connections, tx)|
  }

  /** Every channel's log has grown by its copies and by nothing else. */
  ghost predicate Delivered(s: BrokerState, msg: Message, sender: ConnId, after: Channels) {
    forall tx :: Log(after, tx) == Log(s.channels, tx) + Repeat(Delivery(|s.routed|, msg), Copies(s, msg, sender, tx))
  }

  // ---------------------------------------------------------------------------
  // Broker steps

  function Unregistered(s: BrokerState, id: ConnId): BrokerState {
    s.(services := map n | n in s.services && s.services[n] != id :: s.services[n],
       subscriptions := map p | p in s.subscriptions :: s.subscriptions[p] - {id},
       connections := s.connections - {id})
  }

  function Subscribed(subs: Subscriptions, topic: string, id: ConnId): Subscriptions {
    subs[topic := (if topic in subs then subs[topic] else {}) + {id}]
  }

  function Synthetic(s: BrokerState): ConnId {
    |s.connections| + SYNTHETIC_BASE
  }

  /** `run_broker` on one command: what may follow (channels are compared by their logs). */
  ghost predicate Processed(s: BrokerState, cmd: BrokerCmd, s': BrokerState) {
    match cmd
    case Register(id, service) => s' == s.(services := s.services[service := id])
    case RegisterService(name) => s' == s.(services := s.services[name := BRIDGE_SERVICE])
    case Unregister(id) => s' == Unregistered(s, id)
    case Subscribe(id, topic) => s' == s.(subscriptions := Subscribed(s.subscriptions, topic, id))
    case SubscribeDirect(topic, tx) =>
      s' == s.(connections := s.connections[Synthetic(s) := tx],
               subscriptions := Subscribed(s.subscriptions, topic, Synthetic(s)))
    case Unsubscribe(id, topic) =>
      s' == if topic in s.subscriptions
            then s.(subscriptions := s.subscriptions[topic := s.subscriptions[topic] - {id}]) else s
    case UnsubscribeDirect(_, _) => s' == s
    case Route(msg, sender) =>
      s' == s.(channels := s'.channels, routed := s.routed + [msg]) && Delivered(s, msg, sender, s'.channels)
    case Call(_) => s' == s
  }

  // ---------------------------------------------------------------------------
  // The whole system

  datatype Phase = Spawned | Open | Closed

  /** `unregistered` records the ids whose Unregister the broker has processed. */
  datatype System = System(
    broker: BrokerState,
    queue: seq<BrokerCmd>,
    nextId: ConnId,
    tasks: map<ConnId, Phase>,
    unregistered: set<ConnId>
  )

  const INIT: System := System(BrokerState(map[], map[], map[], map[], []), [], 0, map[], {})

  datatype Action =
    | Accept                              // the listener accepts a socket and spawns a connection task
    | Start(id: ConnId)                   // a connection task enters its channel into the connection table
    | Receive(id: ConnId, msg: Message)   // a connection task decodes a message and enqueues a command
    | Close(id: ConnId)                   // a connection task ends and enqueues its Unregister
    | Bridge(cmd: BrokerCmd)              // the WebSocket bridge enqueues a command
    | Process                             // the broker takes the oldest command

  /** What a connection task enqueues for a message from its client. */
  function Dispatch(id: ConnId, msg: Message): BrokerCmd {
    if msg.topic == "__stardust.register" then Register(id, msg.params)
    else if msg.topic == "__stardust.subscribe" then Subscribe(id, msg.params)
    else if msg.topic == "__stardust.unsubscribe" then Unsubscribe(id, msg.params)
    else Route(msg, id)
  }

  /** The commands a bridge handle can send; its publications carry sender 0. */
  predicate FromBridge(cmd: BrokerCmd) {
    || cmd.RegisterService? || cmd.UnsubscribeDirect? || cmd.Call?
    || (cmd.SubscribeDirect? && cmd.tx.BridgeTx?)
    || (cmd.Route? && cmd.sender == 0)
  }

  predicate InPhase(s: System, id: ConnId, phase: Phase) {
    id in s.tasks && s.tasks[id] == phase
  }

  ghost predicate Step(s: System, a: Action, s': System) {
    match a
    case Accept => s' == s.(nextId := s.nextId + 1, tasks := s.tasks[s.nextId := Spawned])
    case Start(id) =>
      && InPhase(s, id, Spawned)
      && s' == s.(tasks := s.tasks[id := Open],
                  broker := s.broker.(connections := s.broker.connections[id := SocketTx(id)]))
    case Receive(id, msg) => InPhase(s, id, Open) && s' == s.(queue := s.queue + [Dispatch(id, msg)])
    case Close(id) =>
      InPhase(s, id, Open) && s' == s.(tasks := s.tasks[id := Closed], queue := s.queue + [Unregister(id)])
    case Bridge(cmd) => FromBridge(cmd) && s' == s.(queue := s.queue + [cmd])
    case Process =>
      && s.queue != []
      && Processed(s.broker, s.queue[0], s'.broker)
      && s' == s.(broker := s'.broker, queue := s.queue[1..],
                  unregistered := s.unregistered + if s.queue[0].Unregister? then {s.queue[0].connId} else {})
  }

  /** A run is the sequence of states it passes through. */
  ghost predicate IsRun(run: seq<System>) {
    && |run| > 0 && run[0] == INIT
    && forall i, j :: 0 <= i < j < |run| && j == i + 1 ==> Moves(run[i], run[j])
  }

  ghost predicate Moves(s: System, s': System) {
    exists a :: Step(s, a, s')
  }

  /** These actions, one after the other, lead from the one state to the other. */
  ghost predicate Path(s: System, actions: seq<Action>, s': System) {
    if actions == [] then s' == s
    else
      var front, last := actions[..|actions| - 1], actions[|actions| - 1];
      exists m :: Path(s, front, m) && Step(m, last, s')
  }

  lemma PathSnoc(s: System, actions: seq<Action>, a: Action, s': System)
    ensures Path(s, actions + [a], s') <==> exists m :: Path(s, actions, m) && Step(m, a, s')
  {
    var longer := actions + [a];
    assert longer[..|longer| - 1] == actions && longer[|longer| - 1] == a;
  }

  // ---------------------------------------------------------------------------
  // Identifiers are never reused below the synthetic range

  /** A service name, a subscription or a channel entry refers to the id. */
  predicate Refers(b: BrokerState, id: ConnId) {
    || id in b.connections
    || id in b.services.Values
    || exists p :: p in b.subscriptions && id in b.subscriptions[p]
  }

  /** The command would make the broker refer to the id, or is its farewell. */
  predicate Mentions(cmd: BrokerCmd, id: ConnId) {
    (cmd.Register? || cmd.Subscribe? || cmd.Unsubscribe? || cmd.Unregister?) && cmd.connId == id
  }

  predicate Unmentioned(queue: seq<BrokerCmd>, id: ConnId) {
    forall i :: 0 <= i < |queue| ==> !Mentions(queue[i], id)
  }

  /** The id's Unregister waits in the queue and nothing about the id comes after it. */
  ghost predicate Leaving(queue: seq<BrokerCmd>, id: ConnId) {
    exists k :: 0 <= k < |queue| && LeavesAt(queue, id, k)
  }

  predicate LeavesAt(queue: seq<BrokerCmd>, id: ConnId, k: nat)
    requires k < |queue|
  {
    && queue[k] == Unregister(id)
    && (forall i :: 0 <= i < k ==> queue[i] != Unregister(id))
    && Unmentioned(queue[k + 1..], id)
  }

  ghost predicate Lifecycle(s: System, id: ConnId) {
    && (id in s.tasks <==> id < s.nextId)
    && (id !in s.tasks || s.tasks[id] == Spawned ==>
        Unmentioned(s.queue, id) && !Refers(s.broker, id) && id !in s.unregistered)
    && (InPhase(s, id, Open) ==> Unregister(id) !in s.queue && id !in s.unregistered)
    && (InPhase(s, id, Closed) ==>
        if id in s.unregistered then Unmentioned(s.queue, id) && !Refers(s.broker, id) else Leaving(s.queue, id))
  }

  lemma EnqueueOther(queue: seq<BrokerCmd>, cmd: BrokerCmd, id: ConnId)
    requires !Mentions(cmd, id)
    ensures Unmentioned(queue, id) ==> Unmentioned(queue + [cmd], id)
    ensures Leaving(queue, id) ==> Leaving(queue + [cmd], id)
  {
    if Leaving(queue, id) {
      var k :| 0 <= k < |queue| && LeavesAt(queue, id, k);
      assert (queue + [cmd])[k + 1..] == queue[k + 1..] + [cmd];
      assert LeavesAt(queue + [cmd], id, k);
    }
  }

  lemma DequeueOther(queue: seq<BrokerCmd>, id: ConnId)
    requires queue != [] && Leaving(queue, id) && queue[0] != Unregister(id)
    ensures Leaving(queue[1..], id)
  {
    var k :| 0 <= k < |queue| && LeavesAt(queue, id, k);
    assert queue[1..][k..] == queue[k + 1..];
    assert LeavesAt(queue[1..], id, k - 1);
  }

  lemma EnqueueFarewell(queue: seq<BrokerCmd>, id: ConnId)
    requires Unregister(id) !in queue
    ensures Leaving(queue + [Unregister(id)], id)
  {
    var q := queue + [Unregister(id)];
    assert q[|queue| + 1..] == [];
    assert forall i :: 0 <= i < |queue| ==> q[i] == queue[i] && queue[i] in queue;
    assert LeavesAt(q, id, |queue|);
  }

  lemma UnregisterForgets(b: BrokerState, id: ConnId)
    ensures !Refers(Unregistered(b, id), id)
  {
  }

  /** A command about other ids makes no reference to a socket id below the synthetic range. */
  lemma ProcessOther(b: BrokerState, cmd: BrokerCmd, b': BrokerState, id: ConnId)
    requires Processed(b, cmd, b') && !Mentions(cmd, id) && id < SYNTHETIC_BASE
    requires !Refers(b, id)
    ensures !Refers(b', id)
  {
    hide Delivered;
    match cmd {
      case Register(_, service) => NamedElsewhere(b.services, service, cmd.connId, id);
      case RegisterService(name) => NamedElsewhere(b.services, name, BRIDGE_SERVICE, id);
      case _ =>
    }
  }

  lemma NamedElsewhere(services: map<string, ConnId>, name: string, other: ConnId, id: ConnId)
    requires id !in services.Values && other != id
    ensures id !in services[name := other].Values
  {
  }

  lemma LifecycleStep(s: System, a: Action, s': System, id: ConnId)
    requires Step(s, a, s') && id < SYNTHETIC_BASE && Lifecycle(s, id)
    ensures Lifecycle(s', id)
  {
    hide Leaving, Refers;
    match a {
      case Accept =>
      case Start(x) =>
        if x != id && !Refers(s.broker, id) { StartElsewhere(s.broker, x, id); }
      case Receive(x, msg) =>
        if x != id { EnqueueOther(s.queue, Dispatch(x, msg), id); }
      case Close(x) =>
        if x != id { EnqueueOther(s.queue, Unregister(x), id); } else { EnqueueFarewell(s.queue, id); }
      case Bridge(cmd) => EnqueueOther(s.queue, cmd, id);
      case Process => ProcessKeepsLifecycle(s, s', id);
    }
  }

  lemma StartElsewhere(b: BrokerState, x: ConnId, id: ConnId)
    requires x != id && !Refers(b, id)
    ensures !Refers(b.(connections := b.connections[x := SocketTx(x)]), id)
  {
  }

  lemma ProcessKeepsLifecycle(s: System, s': System, id: ConnId)
    requires Step(s, Process, s') && id < SYNTHETIC_BASE && Lifecycle(s, id)
    ensures Lifecycle(s', id)
  {
    var cmd := s.queue[0];
    assert s.queue == [cmd] + s.queue[1..];
    if !Mentions(cmd, id) {
      if !Refers(s.broker, id) {
        ProcessOther(s.broker, cmd, s'.broker, id);
      }
      if Leaving(s.queue, id) {
        DequeueOther(s.queue, id);
      }
    } else if cmd.Unregister? {
      UnregisterForgets(s.broker, id);
      assert cmd in s.queue;
      if InPhase(s, id, Closed) && id !in s.unregistered {
        var k :| 0 <= k < |s.queue| && LeavesAt(s.queue, id, k);
        assert k == 0;
      }
    } else if Leaving(s.queue, id) {
      DequeueOther(s.queue, id);
    }
  }

  lemma {:induction false} LifecycleAlong(run: seq<System>, i: nat, id: ConnId)
    requires IsRun(run) && i < |run| && id < SYNTHETIC_BASE
    ensures Lifecycle(run[i], id)
    decreases i
  {
    if i > 0 {
      LifecycleAlong(run, i - 1, id);
      assert Moves(run[i - 1], run[i]);
      var a :| Step(run[i - 1], a, run[i]);
      LifecycleStep(run[i - 1], a, run[i], id);
    }
  }

  lemma {:induction false} UnregisteredStays(run: seq<System>, i: nat, j: nat)
    requires IsRun(run) && i <= j < |run|
    ensures run[i].unregistered <= run[j].unregistered
    decreases j
  {
    if i < j {
      UnregisteredStays(run, i, j - 1);
      assert Moves(run[j - 1], run[j]);
    }
  }

  /** In every run, once the id's Unregister is processed nothing ever refers to the id again. */
  ghost predicate NeverReused(id: ConnId) {
    forall run: seq<System>, i, j :: IsRun(run) && 0 <= i <= j < |run| && id in run[i].unregistered ==>
      !Refers(run[j].broker, id)
  }

  /**
   * Connection ids are safe from reuse exactly below the synthetic range, however many sockets
   * are accepted and however tasks, bridge and broker interleave.
   */
  lemma NeverReusedExactlyBelowSynthetic(id: ConnId)
    ensures NeverReused(id) <==> id < SYNTHETIC_BASE
  {
    if id < SYNTHETIC_BASE {
      forall run: seq<System>, i, j | IsRun(run) && 0 <= i <= j < |run| && id in run[i].unregistered
        ensures !Refers(run[j].broker, id)
      {
        UnregisteredStays(run, i, j);
        LifecycleAlong(run, j, id);
      }
    } else {
      var run := ReusingRun(id);
      assert id in run[|run| - 3].unregistered && Refers(run[|run| - 1].broker, id);
    }
  }

  /** n sockets accepted, the first k of them started, nothing else. */
  function Populated(n: nat, k: nat): System {
    INIT.(nextId := n,
          tasks := FirstTasks(n, k),
          broker := INIT.broker.(connections := FirstSockets(k)))
  }

  function FirstTasks(n: nat, k: nat): (r: map<ConnId, Phase>)
    ensures forall c: ConnId {:trigger c in r} :: c in r <==> c < n
    ensures forall c: ConnId :: c in r ==> r[c] == if c < k then Open else Spawned
  {
    if n == 0 then map[] else FirstTasks(n - 1, k)[n - 1 := if n - 1 < k then Open else Spawned]
  }

  function FirstSockets(k: nat): (r: map<ConnId, Tx>)
    ensures |r| == k
    ensures forall c: ConnId {:trigger c in r} :: c in r <==> c < k
    ensures forall c: ConnId :: c in r ==> r[c] == SocketTx(c)
  {
    if k == 0 then map[] else FirstSockets(k - 1)[k - 1 := SocketTx(k - 1)]
  }

  lemma Extend(run: seq<System>, a: Action, s: System)
    requires IsRun(run) && Step(run[|run| - 1], a, s)
    ensures IsRun(run + [s])
  {
    var longer := run + [s];
    assert Moves(run[|run| - 1], s);
    forall i, j | 0 <= i < j < |longer| && j == i + 1
      ensures Moves(longer[i], longer[j])
    {
      assert longer[i] == run[i] && (j < |run| ==> longer[j] == run[j]);
    }
  }

  /** What a path can reach from a run's last state, a longer run reaches. */
  lemma {:induction false} PathExtendsRun(run: seq<System>, actions: seq<Action>, s: System)
    returns (longer: seq<System>)
    requires IsRun(run) && Path(run[|run| - 1], actions, s)
    ensures IsRun(longer) && longer[|longer| - 1] == s && run <= longer
    decreases |actions|
  {
    hide Step;
    if actions == [] {
      longer := run;
    } else {
      var n := |actions| - 1;
      var m :| Path(run[|run| - 1], actions[..n], m) && Step(m, actions[n], s);
      longer := PathExtendsRun(run, actions[..n], m);
      Extend(longer, actions[n], s);
      longer := longer + [s];
    }
  }

  lemma {:induction false} PopulatingRun(n: nat, k: nat) returns (run: seq<System>)
    requires k <= n
    ensures IsRun(run) && run[|run| - 1] == Populated(n, k)
    decreases n + k
  {
    hide IsRun, Step, Populated;
    if k > 0 {
      run := PopulatingRun(n, k - 1);
      StartNext(n, k - 1);
      Extend(run, Start(k - 1), Populated(n, k));
      run := run + [Populated(n, k)];
    } else if n > 0 {
      run := PopulatingRun(n - 1, 0);
      AcceptNext(n - 1);
      Extend(run, Accept, Populated(n, 0));
      run := run + [Populated(n, 0)];
    } else {
      NobodyYet();
      run := [INIT];
    }
  }

  lemma NobodyYet()
    ensures Populated(0, 0) == INIT && IsRun([INIT])
  {
  }

  lemma AcceptNext(n: nat)
    ensures Step(Populated(n, 0), Accept, Populated(n + 1, 0))
  {
    assert Populated(n + 1, 0).tasks == Populated(n, 0).tasks[n := Spawned];
  }

  lemma StartNext(n: nat, k: nat)
    requires k < n
    ensures Step(Populated(n, k), Start(k), Populated(n, k + 1))
  {
    TasksNext(n, k);
    assert FirstSockets(k + 1) == FirstSockets(k)[k := SocketTx(k)];
  }

  lemma TasksNext(n: nat, k: nat)
    requires k < n
    ensures FirstTasks(n, k + 1) == FirstTasks(n, k)[k := Open]
  {
    hide FirstTasks;
  }

  /** An open connection closes and its Unregister is processed. */
  lemma Leave(run0: seq<System>, id: ConnId) returns (run: seq<System>)
    requires IsRun(run0) && InPhase(run0[|run0| - 1], id, Open) && run0[|run0| - 1].queue == []
    ensures IsRun(run) && id in run[|run| - 1].unregistered && run[|run| - 1].queue == []
    ensures run[|run| - 1].broker.connections == run0[|run0| - 1].broker.connections - {id}
  {
    var s0 := run0[|run0| - 1];
    var s1 := s0.(tasks := s0.tasks[id := Closed], queue := [Unregister(id)]);
    assert s0.queue + [Unregister(id)] == s1.queue;
    Extend(run0, Close(id), s1);
    var s2 := s1.(broker := Unregistered(s0.broker, id), queue := [], unregistered := s0.unregistered + {id});
    assert s1.queue[1..] == [];
    Extend(run0 + [s1], Process, s2);
    run := run0 + [s1] + [s2];
  }

  /** A socket's whole life: started, closed, unregistered. */
  lemma ServeAndLeave(run0: seq<System>, id: ConnId) returns (run: seq<System>)
    requires IsRun(run0) && InPhase(run0[|run0| - 1], id, Spawned) && run0[|run0| - 1].queue == []
    requires id !in run0[|run0| - 1].broker.connections
    ensures IsRun(run) && id in run[|run| - 1].unregistered && run[|run| - 1].queue == []
    ensures run[|run| - 1].broker.connections == run0[|run0| - 1].broker.connections
  {
    var s0 := run0[|run0| - 1];
    var connected := s0.broker.(connections := s0.broker.connections[id := SocketTx(id)]);
    var s1 := s0.(tasks := s0.tasks[id := Open], broker := connected);
    Extend(run0, Start(id), s1);
    run := Leave(run0 + [s1], id);
    assert connected.connections - {id} == s0.broker.connections;
  }

  /** A bridge subscription takes the id given by the size of the connection table. */
  lemma BridgeSubscribes(run0: seq<System>) returns (run: seq<System>)
    requires IsRun(run0) && run0[|run0| - 1].queue == []
    ensures IsRun(run) && |run| == |run0| + 2 && run[|run| - 3] == run0[|run0| - 1]
    ensures Refers(run[|run| - 1].broker, Synthetic(run0[|run0| - 1].broker))
    ensures run[|run| - 1] == run0[|run0| - 1].(broker := run[|run| - 1].broker)
    ensures run[|run| - 1].broker.connections ==
      run0[|run0| - 1].broker.connections[Synthetic(run0[|run0| - 1].broker) := BridgeTx(0)]
  {
    var s0 := run0[|run0| - 1];
    var b := s0.broker;
    var cmd := SubscribeDirect("t", BridgeTx(0));
    var s1 := s0.(queue := [cmd]);
    assert s0.queue + [cmd] == s1.queue;
    Extend(run0, Bridge(cmd), s1);
    var b' := b.(connections := b.connections[Synthetic(b) := BridgeTx(0)],
                 subscriptions := Subscribed(b.subscriptions, "t", Synthetic(b)));
    var s2 := s1.(broker := b', queue := []);
    assert s1.queue[1..] == [];
    Extend(run0 + [s1], Process, s2);
    run := run0 + [s1] + [s2];
  }

  /** The id is served, unregistered, and then handed out again as a synthetic id. */
  lemma ReusingRun(id: ConnId) returns (run: seq<System>)
    requires id >= SYNTHETIC_BASE
    ensures IsRun(run) && |run| >= 3
    ensures id in run[|run| - 3].unregistered && Refers(run[|run| - 1].broker, id)
  {
    hide IsRun, Refers;
    run := PopulatingRun(id + 1, id - SYNTHETIC_BASE);
    run := ServeAndLeave(run, id);
    run := BridgeSubscribes(run);
  }

  // ---------------------------------------------------------------------------
  // Delivery counts and order

  /** A socket's channel hangs on its own id; the bridge supplies only its own channels. */
  ghost predicate Wired(s: System) {
    && OwnChannels(s.broker)
    && (forall i :: 0 <= i < |s.queue| && s.queue[i].SubscribeDirect? ==> s.queue[i].tx.BridgeTx?)
  }

  lemma WiredStep(s: System, a: Action, s': System)
    requires Step(s, a, s') && Wired(s)
    ensures Wired(s')
  {
    if a.Process? {
      assert forall i :: 0 <= i < |s'.queue| ==> s'.queue[i] == s.queue[i + 1];
      WiredProcess(s.broker, s.queue[0], s'.broker);
      hide Processed;
    }
  }

  ghost predicate OwnChannels(b: BrokerState) {
    forall c, d :: c in b.connections && b.connections[c] == SocketTx(d) ==> c == d
  }

  lemma WiredProcess(b: BrokerState, cmd: BrokerCmd, b': BrokerState)
    requires Processed(b, cmd, b') && OwnChannels(b)
    requires cmd.SubscribeDirect? ==> cmd.tx.BridgeTx?
    ensures OwnChannels(b')
  {
    hide Delivered;
  }

  /** Deliveries are logged in route order, and each carries the message of its route step. */
  ghost predicate Ordered(b: BrokerState) {
    forall tx :: LogInOrder(Log(b.channels, tx), b.routed)
  }

  ghost predicate LogInOrder(log: seq<Delivery>, routed: seq<Message>) {
    && (forall i :: 0 <= i < |log| ==> log[i].step < |routed| && routed[log[i].step] == log[i].msg)
    && (forall i, j :: 0 <= i <= j < |log| ==> log[i].step <= log[j].step)
  }

  lemma OnlyRouteDelivers(b: BrokerState, cmd: BrokerCmd, b': BrokerState)
    requires Processed(b, cmd, b') && !cmd.Route?
    ensures b'.channels == b.channels && b'.routed == b.routed
  {
  }

  lemma RouteKeepsOrder(b: BrokerState, msg: Message, sender: ConnId, after: Channels)
    requires Ordered(b) && Delivered(b, msg, sender, after)
    ensures Ordered(b.(channels := after, routed := b.routed + [msg]))
  {
    hide Copies, LogInOrder;
    forall tx
      ensures LogInOrder(Log(after, tx), b.routed + [msg])
    {
      LogGrows(Log(b.channels, tx), b.routed, msg, Repeat(Delivery(|b.routed|, msg), Copies(b, msg, sender, tx)));
    }
  }

  lemma OrderedStep(s: System, a: Action, s': System)
    requires Step(s, a, s') && Ordered(s.broker)
    ensures Ordered(s'.broker)
  {
    hide LogInOrder, Delivered;
    if a.Process? {
      if s.queue[0].Route? {
        RouteKeepsOrder(s.broker, s.queue[0].msg, s.queue[0].sender, s'.broker.channels);
      } else {
        OnlyRouteDelivers(s.broker, s.queue[0], s'.broker);
      }
    }
  }

  lemma LogGrows(log: seq<Delivery>, routed: seq<Message>, msg: Message, copies: seq<Delivery>)
    requires LogInOrder(log, routed)
    requires forall i :: 0 <= i < |copies| ==> copies[i] == Delivery(|routed|, msg)
    ensures LogInOrder(log + copies, routed + [msg])
  {
  }

  lemma {:induction false} SoundAlong(run: seq<System>, i: nat)
    requires IsRun(run) && i < |run|
    ensures Wired(run[i]) && Ordered(run[i].broker)
    decreases i
  {
    if i > 0 {
      SoundAlong(run, i - 1);
      assert Moves(run[i - 1], run[i]);
      var a :| Step(run[i - 1], a, run[i]);
      WiredStep(run[i - 1], a, run[i]);
      OrderedStep(run[i - 1], a, run[i]);
    }
  }

  /** Any two receivers see the messages they have in common in the same order, in every run. */
  lemma SameRelativeOrder(run: seq<System>, r: nat, x: Tx, y: Tx, i: nat, j: nat, k: nat, l: nat)
    requires IsRun(run) && r < |run|
    requires
      var logX, logY := Log(run[r].broker.channels, x), Log(run[r].broker.channels, y);
      && i < |logX| && j < |logX| && k < |logY| && l < |logY|
      && logX[i].step == logY[k].step && logX[j].step == logY[l].step && logX[i].step != logX[j].step
    ensures i < j <==> k < l
    ensures Log(run[r].broker.channels, x)[i].msg == Log(run[r].broker.channels, y)[k].msg
  {
    SoundAlong(run, r);
    assert LogInOrder(Log(run[r].broker.channels, x), run[r].broker.routed);
    assert LogInOrder(Log(run[r].broker.channels, y), run[r].broker.routed);
  }

  /** The patterns under which a connection is subscribed to this message. */
  function MatchingPatterns(b: BrokerState, msg: Message, c: ConnId): set<string> {
    set p | p in b.subscriptions && MatchesTopic(msg.topic, p) && c in b.subscriptions[p]
  }

  predicate Live(b: BrokerState, c: ConnId) {
    c in b.connections && b.connections[c] == SocketTx(c)
  }

  lemma {:induction false} PairsCount(ps: set<string>, c: ConnId)
    ensures |set p | p in ps :: (p, c)| == |ps|
    decreases ps
  {
    var pairs := set p | p in ps :: (p, c);
    if ps == {} {
      assert pairs == {};
    } else {
      var p :| p in ps;
      PairsCount(ps - {p}, c);
      var fewer := set q | q in ps - {p} :: (q, c);
      assert pairs == fewer + {(p, c)};
      assert (p, c) !in fewer;
    }
  }

  /** One copy for owning the destination and one per matching pattern, senders included. */
  function Promised(b: BrokerState, msg: Message, c: ConnId): nat {
    if c !in b.connections then 0
    else
      (if msg.dst != "" && msg.dst in b.services && b.services[msg.dst] == c then 1 else 0) +
      |MatchingPatterns(b, msg, c)|
  }

  /** The ids whose connection entry is this channel: one for a socket, any number for the bridge. */
  function Carriers(b: BrokerState, tx: Tx): set<ConnId> {
    set c | c in b.connections && b.connections[c] == tx
  }

  ghost function Pick(cs: set<ConnId>): (c: ConnId)
    requires cs != {}
    ensures c in cs
  {
    var c :| c in cs;
    c
  }

  /** The copies promised to these ids, the sender left out. */
  ghost function Total(b: BrokerState, msg: Message, sender: ConnId, cs: set<ConnId>): nat {
    if cs == {} then 0
    else
      var c := Pick(cs);
      (if c == sender then 0 else Promised(b, msg, c)) + Total(b, msg, sender, cs - {c})
  }

  function PairsOf(pairs: set<(string, ConnId)>, cs: set<ConnId>): set<(string, ConnId)> {
    set x | x in pairs && x.1 in cs
  }

  function DirectTo(b: BrokerState, msg: Message, sender: ConnId, cs: set<ConnId>): nat {
    if msg.dst != "" && msg.dst in b.services && OwnsDestination(b, msg, sender, b.services[msg.dst]) &&
       b.services[msg.dst] in cs
    then 1 else 0
  }

  lemma PairsOfOne(b: BrokerState, msg: Message, sender: ConnId, c: ConnId)
    requires c in b.connections
    ensures |PairsOf(Matches(b, msg, sender), {c})| == if c == sender then 0 else |MatchingPatterns(b, msg, c)|
  {
    var pairs := PairsOf(Matches(b, msg, sender), {c});
    if c == sender {
      assert pairs == {};
    } else {
      assert pairs == set p | p in MatchingPatterns(b, msg, c) :: (p, c);
      PairsCount(MatchingPatterns(b, msg, c), c);
    }
  }

  lemma PairsOfSplit(pairs: set<(string, ConnId)>, cs: set<ConnId>, c: ConnId)
    requires c in cs
    ensures |PairsOf(pairs, cs)| == |PairsOf(pairs, {c})| + |PairsOf(pairs, cs - {c})|
  {
    assert PairsOf(pairs, cs) == PairsOf(pairs, {c}) + PairsOf(pairs, cs - {c});
    assert PairsOf(pairs, {c}) !! PairsOf(pairs, cs - {c});
  }

  lemma {:induction false} TotalCounts(b: BrokerState, msg: Message, sender: ConnId, cs: set<ConnId>)
    requires cs <= b.connections.Keys
    ensures Total(b, msg, sender, cs) == DirectTo(b, msg, sender, cs) + |PairsOf(Matches(b, msg, sender), cs)|
    decreases cs
  {
    hide Matches, MatchingPatterns, PairsOf;
    if cs == {} {
      NoPairs(Matches(b, msg, sender));
    } else {
      var c := Pick(cs);
      TotalCounts(b, msg, sender, cs - {c});
      PairsOfOne(b, msg, sender, c);
      PairsOfSplit(Matches(b, msg, sender), cs, c);
    }
  }

  lemma NoPairs(pairs: set<(string, ConnId)>)
    ensures |PairsOf(pairs, {})| == 0
  {
    assert PairsOf(pairs, {}) == {};
  }

  /** A channel's copies are those promised to the ids that carry it, the sender left out. */
  lemma CopiesAreTotal(b: BrokerState, msg: Message, sender: ConnId, tx: Tx)
    ensures Copies(b, msg, sender, tx) == Total(b, msg, sender, Carriers(b, tx))
  {
    TotalCounts(b, msg, sender, Carriers(b, tx));
    assert To(Matches(b, msg, sender), b.connections, tx) == PairsOf(Matches(b, msg, sender), Carriers(b, tx));
  }

  lemma SocketCarriers(b: BrokerState, c: ConnId)
    requires forall d, e :: d in b.connections && b.connections[d] == SocketTx(e) ==> d == e
    ensures Carriers(b, SocketTx(c)) == if Live(b, c) then {c} else {}
  {
  }

  lemma TotalOfAtMostOne(b: BrokerState, msg: Message, sender: ConnId, c: ConnId)
    ensures Total(b, msg, sender, {}) == 0
    ensures Total(b, msg, sender, {c}) == if c == sender then 0 else Promised(b, msg, c)
  {
    assert Pick({c}) == c && {c} - {c} == {};
  }

  /**
   * In any reachable state, routing a message hands every channel, of a socket or of the bridge,
   * exactly the copies promised to the live ids that carry it other than the sender.
   */
  lemma RouteReaches(run: seq<System>, r: nat, msg: Message, sender: ConnId, b': BrokerState, tx: Tx)
    requires IsRun(run) && r < |run| && Processed(run[r].broker, Route(msg, sender), b')
    ensures
      var b := run[r].broker;
      Log(b'.channels, tx) ==
        Log(b.channels, tx) + Repeat(Delivery(|b.routed|, msg), Total(b, msg, sender, Carriers(b, tx)))
    ensures
      var b := run[r].broker;
      tx.SocketTx? ==>
        Total(b, msg, sender, Carriers(b, tx)) ==
          if Live(b, tx.conn) && tx.conn != sender then Promised(b, msg, tx.conn) else 0
  {
    var b := run[r].broker;
    CopiesAreTotal(b, msg, sender, tx);
    if tx.SocketTx? {
      SoundAlong(run, r);
      SocketCarriers(b, tx.conn);
      TotalOfAtMostOne(b, msg, sender, tx.conn);
    }
  }

  /** The connection is subscribed to the pattern. */
  predicate SubscribedTo(b: BrokerState, c: ConnId, p: string) {
    p in b.subscriptions && c in b.subscriptions[p]
  }

  predicate Owns(b: BrokerState, name: string, c: ConnId) {
    name in b.services && b.services[name] == c
  }

  /**
   * In any reachable state, a live connection other than the sender gets one copy if it owns the
   * destination and one for each of its patterns that is `*`, the topic itself, or `p.*` with the
   * topic beginning with p; the sender, and a connection that is not live, get none.
   */
  lemma RoutedExactly(run: seq<System>, r: nat, msg: Message, sender: ConnId, b': BrokerState, c: ConnId)
    requires IsRun(run) && r < |run| && Processed(run[r].broker, Route(msg, sender), b')
    ensures
      var b := run[r].broker;
      var direct := if msg.dst != "" && Owns(b, msg.dst, c) then 1 else 0;
      var covering := |set p | p in b.subscriptions && c in b.subscriptions[p] && Covers(p, msg.topic)|;
      Log(b'.channels, SocketTx(c)) == Log(b.channels, SocketTx(c)) +
        seq(if Live(b, c) && c != sender then direct + covering else 0, _ => Delivery(|b.routed|, msg))
  {
    hide IsRun, Processed;
    var b := run[r].broker;
    forall p
      ensures MatchesTopic(msg.topic, p) <==> Covers(p, msg.topic)
    {
      MatchesIsCovers(msg.topic, p);
    }
    assert MatchingPatterns(b, msg, c) ==
      set p | p in b.subscriptions && c in b.subscriptions[p] && Covers(p, msg.topic);
    RouteReaches(run, r, msg, sender, b', SocketTx(c));
  }

  /** A connection that owns nothing and subscribes only below other prefixes gets nothing. */
  lemma OtherPrefixesGetNothing(run: seq<System>, r: nat, msg: Message, sender: ConnId, b': BrokerState, c: ConnId)
    requires IsRun(run) && r < |run| && Processed(run[r].broker, Route(msg, sender), b')
    requires msg.dst == "" || !Owns(run[r].broker, msg.dst, c)
    requires forall pattern :: SubscribedTo(run[r].broker, c, pattern) ==>
      exists p: string :: pattern == p + ".*" && !(p <= msg.topic)
    ensures Log(b'.channels, SocketTx(c)) == Log(run[r].broker.channels, SocketTx(c))
  {
    hide IsRun, Processed;
    var b := run[r].broker;
    forall pattern | SubscribedTo(b, c, pattern)
      ensures !MatchesTopic(msg.topic, pattern)
    {
      var p: string :| pattern == p + ".*" && !(p <= msg.topic);
      MatchesExactly(msg.topic, pattern);
      assert forall rest: string :: p <= p + rest;
    }
    assert MatchingPatterns(b, msg, c) == {};
    RouteReaches(run, r, msg, sender, b', SocketTx(c));
  }

  // ---------------------------------------------------------------------------
  // What the commands do to subscriptions, services and connections

  /** Who is subscribed to what after a command. */
  lemma SubscriptionsAfter(b: BrokerState, cmd: BrokerCmd, b': BrokerState, c: ConnId, p: string)
    requires Processed(b, cmd, b')
    ensures SubscribedTo(b', c, p) <==>
      match cmd
      case Subscribe(id, topic) => SubscribedTo(b, c, p) || (c == id && p == topic)
      case SubscribeDirect(topic, _) => SubscribedTo(b, c, p) || (c == |b.connections| + 100000 && p == topic)
      case Unsubscribe(id, topic) => SubscribedTo(b, c, p) && !(c == id && p == topic)
      case Unregister(id) => SubscribedTo(b, c, p) && c != id
      case _ => SubscribedTo(b, c, p)
  {
    hide Delivered, Subscribed;
    if cmd.Subscribe? {
      SubscribedOne(b.subscriptions, cmd.topic, cmd.connId, c, p);
    } else if cmd.SubscribeDirect? {
      SubscribedOne(b.subscriptions, cmd.topic, |b.connections| + 100000, c, p);
    }
  }

  lemma SubscribedOne(subs: Subscriptions, topic: string, id: ConnId, c: ConnId, p: string)
    ensures p in Subscribed(subs, topic, id) && c in Subscribed(subs, topic, id)[p] <==>
      (p in subs && c in subs[p]) || (c == id && p == topic)
  {
  }

  /** Who owns which service name after a command. */
  lemma ServicesAfter(b: BrokerState, cmd: BrokerCmd, b': BrokerState, name: string, c: ConnId)
    requires Processed(b, cmd, b')
    ensures Owns(b', name, c) <==>
      match cmd
      case Register(id, service) => if name == service then c == id else Owns(b, name, c)
      case RegisterService(service) => if name == service then c == 0xFFFF_FFFF_FFFF_FFFF else Owns(b, name, c)
      case Unregister(id) => Owns(b, name, c) && c != id
      case _ => Owns(b, name, c)
  {
    hide Delivered;
  }

  /** Which ids have which channel after a command. */
  lemma ConnectionsAfter(b: BrokerState, cmd: BrokerCmd, b': BrokerState)
    requires Processed(b, cmd, b')
    ensures b'.connections ==
      match cmd
      case Unregister(id) => b.connections - {id}
      case SubscribeDirect(_, tx) => b.connections[|b.connections| + 100000 := tx]
      case _ => b.connections
  {
    hide Delivered;
  }

  /** What a client's message comes to when the broker handles the command made of it. */
  lemma ClientCommands(b: BrokerState, id: ConnId, msg: Message, b': BrokerState)
    requires Processed(b, Dispatch(id, msg), b')
    ensures msg.topic == "__stardust.subscribe" ==>
      forall c, p :: SubscribedTo(b', c, p) <==> SubscribedTo(b, c, p) || (c == id && p == msg.params)
    ensures msg.topic == "__stardust.unsubscribe" ==>
      forall c, p :: SubscribedTo(b', c, p) <==> SubscribedTo(b, c, p) && !(c == id && p == msg.params)
    ensures msg.topic == "__stardust.register" ==>
      forall name, c :: Owns(b', name, c) <==> if name == msg.params then c == id else Owns(b, name, c)
    ensures b'.routed == b.routed + [msg] <==>
      msg.topic !in {"__stardust.register", "__stardust.subscribe", "__stardust.unsubscribe"}
  {
    assert |"__stardust.register"| < |"__stardust.subscribe"| < |"__stardust.unsubscribe"|;
    var cmd := Dispatch(id, msg);
    forall c, p {
      SubscriptionsAfter(b, cmd, b', c, p);
    }
    forall name, c {
      ServicesAfter(b, cmd, b', name, c);
    }
    hide SubscribedTo, Owns;
    assert |b.routed + [msg]| == |b.routed| + 1;
  }

  /** Dropping a subscription costs exactly the copies that pattern brought, and only to that connection. */
  lemma UnsubscribeCosts(b: BrokerState, id: ConnId, topic: string, b': BrokerState, msg: Message, c: ConnId)
    requires Processed(b, Unsubscribe(id, topic), b')
    ensures Promised(b', msg, c) + (if c == id && id in b.connections && SubscribedTo(b, id, topic) &&
                                       Covers(topic, msg.topic) then 1 else 0) == Promised(b, msg, c)
  {
    MatchesIsCovers(msg.topic, topic);
    forall p {
      SubscriptionsAfter(b, Unsubscribe(id, topic), b', c, p);
    }
    ConnectionsAfter(b, Unsubscribe(id, topic), b');
    ServicesAfter(b, Unsubscribe(id, topic), b', msg.dst, c);
    hide Processed, Covers, MatchesTopic;
    var before, after := MatchingPatterns(b, msg, c), MatchingPatterns(b', msg, c);
    forall p
      ensures p in before <==> SubscribedTo(b, c, p) && MatchesTopic(msg.topic, p)
      ensures p in after <==> SubscribedTo(b', c, p) && MatchesTopic(msg.topic, p)
    {
    }
    hide MatchingPatterns, SubscribedTo;
    assert after == if c == id then before - {topic} else before;
  }

  /** Every socket connection got everything promised to it. */
  ghost predicate FullyServed(b: BrokerState, msg: Message, c: ConnId, b': BrokerState) {
    Log(b'.channels, SocketTx(c)) ==
      Log(b.channels, SocketTx(c)) +
      Repeat(Delivery(|b.routed|, msg), if Live(b, c) then Promised(b, msg, c) else 0)
  }

  /**
   * A publication of the bridge, sent as sender 0, serves a socket connection in full exactly when
   * it is not connection 0, or connection 0 had nothing coming.
   */
  lemma BridgeSkipsFirstConnection(run: seq<System>, r: nat, msg: Message, b': BrokerState, c: ConnId)
    requires IsRun(run) && r < |run| && Processed(run[r].broker, Route(msg, 0), b')
    ensures FullyServed(run[r].broker, msg, c, b') <==>
      c != 0 || !Live(run[r].broker, 0) || Promised(run[r].broker, msg, 0) == 0
  {
    var b := run[r].broker;
    var log, d := Log(b.channels, SocketTx(c)), Delivery(|b.routed|, msg);
    RouteReaches(run, r, msg, 0, b', SocketTx(c));
    if c == 0 && Live(b, 0) {
      assert |log + Repeat(d, Promised(b, msg, 0))| == |log| + Promised(b, msg, 0);
      assert |log + Repeat(d, 0)| == |log|;
      assert Promised(b, msg, 0) == 0 ==> log + Repeat(d, Promised(b, msg, 0)) == log + Repeat(d, 0);
    }
  }

  /** For every message there is a run in which connection 0 has subscribed and the bridge publishes past it. */
  lemma BridgeLossHappens(msg: Message) returns (run: seq<System>)
    ensures IsRun(run)
    ensures run[|run| - 1].queue == [Route(msg, 0)] && Live(run[|run| - 1].broker, 0)
    ensures Promised(run[|run| - 1].broker, msg, 0) > 0
  {
    run := PopulatingRun(1, 1);
    var s0 := run[|run| - 1];
    var hello := Message(0, "", "", "__stardust.subscribe", "*", 0);
    assert |"__stardust.register"| != |"__stardust.subscribe"|;
    var s1 := s0.(queue := [Subscribe(0, "*")]);
    assert s0.queue + [Dispatch(0, hello)] == s1.queue;
    Extend(run, Receive(0, hello), s1);
    var b := s1.broker.(subscriptions := Subscribed(s1.broker.subscriptions, "*", 0));
    var s2 := s1.(broker := b, queue := []);
    assert s1.queue[1..] == [];
    Extend(run + [s1], Process, s2);
    var s3 := s2.(queue := [Route(msg, 0)]);
    assert s2.queue + [Route(msg, 0)] == s3.queue;
    Extend(run + [s1] + [s2], Bridge(Route(msg, 0)), s3);
    run := run + [s1] + [s2] + [s3];
    assert "*" in MatchingPatterns(b, msg, 0);
  }

  // ---------------------------------------------------------------------------
  // Services registered by the bridge

  /** A message to a service of the bridge has no direct copy exactly when no connection has that reserved id. */
  lemma BridgeServiceHasNoCopy(b: BrokerState, msg: Message, sender: ConnId)
    requires msg.dst != "" && msg.dst in b.services && b.services[msg.dst] == BRIDGE_SERVICE
    ensures (forall tx :: DirectCopies(b, msg, sender, tx) == 0) <==>
      BRIDGE_SERVICE !in b.connections || sender == BRIDGE_SERVICE
  {
    if BRIDGE_SERVICE in b.connections && sender != BRIDGE_SERVICE {
      assert DirectCopies(b, msg, sender, b.connections[BRIDGE_SERVICE]) == 1;
    }
  }

  /** After r steps the ids in use, the next id and the number of connections are small. */
  ghost predicate Modest(s: System, r: nat) {
    && s.nextId <= r && (forall id :: id in s.tasks ==> id < s.nextId)
    && |s.broker.connections| <= r && forall c :: c in s.broker.connections ==> c < r + SYNTHETIC_BASE
  }

  lemma TableGrows(m: map<ConnId, Tx>, id: ConnId, tx: Tx)
    ensures |m[id := tx]| <= |m| + 1 && |m - {id}| <= |m|
  {
    assert m[id := tx].Keys == m.Keys + {id};
    assert (m - {id}).Keys == m.Keys - {id};
    assert |m[id := tx].Keys| <= |m.Keys| + 1;
    assert |(m - {id}).Keys| <= |m.Keys|;
  }

  lemma ModestProcess(b: BrokerState, cmd: BrokerCmd, b': BrokerState, r: nat)
    requires Processed(b, cmd, b') && |b.connections| <= r
    requires forall c :: c in b.connections ==> c < r + SYNTHETIC_BASE
    ensures |b'.connections| <= r + 1 && forall c :: c in b'.connections ==> c < r + 1 + SYNTHETIC_BASE
  {
    ConnectionsAfter(b, cmd, b');
    hide Processed;
    if cmd.Unregister? {
      TableGrows(b.connections, cmd.connId, BridgeTx(0));
    } else if cmd.SubscribeDirect? {
      TableGrows(b.connections, |b.connections| + 100000, cmd.tx);
    } else {
      assert b'.connections == b.connections;
    }
  }

  lemma ModestStep(s: System, a: Action, s': System, r: nat)
    requires Step(s, a, s') && Modest(s, r)
    ensures Modest(s', r + 1)
  {
    hide Processed;
    match a
    case Process => ModestProcess(s.broker, s.queue[0], s'.broker, r);
    case Start(id) => TableGrows(s.broker.connections, id, SocketTx(id));
    case _ =>
  }

  lemma {:induction false} ModestAlong(run: seq<System>, r: nat)
    requires IsRun(run) && r < |run|
    ensures Modest(run[r], r)
    decreases r
  {
    if r > 0 {
      hide Step, Modest;
      ModestAlong(run, r - 1);
      assert Moves(run[r - 1], run[r]);
      var a :| Step(run[r - 1], a, run[r]);
      ModestStep(run[r - 1], a, run[r], r - 1);
    }
  }

  /**
   * So nobody ever gets a direct copy of a message to a service of the bridge: the id it is
   * registered under is in the connection table of no run of fewer than 2^64 - 100000 steps.
   */
  lemma BridgeServiceUnreachable(run: seq<System>, r: nat, msg: Message, sender: ConnId)
    requires IsRun(run) && r < |run| && r + SYNTHETIC_BASE <= BRIDGE_SERVICE
    ensures BRIDGE_SERVICE !in run[r].broker.connections
    ensures msg.dst in run[r].broker.services && run[r].broker.services[msg.dst] == BRIDGE_SERVICE ==>
      forall tx :: DirectCopies(run[r].broker, msg, sender, tx) == 0
  {
    ModestAlong(run, r);
  }

  /** Any name can become such a service. */
  lemma BridgeServiceHappens(name: string) returns (run: seq<System>)
    ensures IsRun(run)
    ensures
      var services := run[|run| - 1].broker.services;
      name in services && services[name] == BRIDGE_SERVICE
  {
    NobodyYet();
    var s1 := INIT.(queue := [RegisterService(name)]);
    assert INIT.queue + [RegisterService(name)] == s1.queue;
    Extend([INIT], Bridge(RegisterService(name)), s1);
    var s2 := s1.(broker := s1.broker.(services := map[name := BRIDGE_SERVICE]), queue := []);
    assert s1.broker.services[name := BRIDGE_SERVICE] == s2.broker.services && s1.queue[1..] == [];
    Extend([INIT] + [s1], Process, s2);
    run := [INIT] + [s1] + [s2];
  }

  // ---------------------------------------------------------------------------
  // Synthetic ids among themselves

  /**
   * A bridge subscription moves its synthetic id to its own channel, so another channel is from then on carried by
   * one id less exactly when that id was its own; none is exactly when the id is free, or already on this channel.
   */
  lemma SubscriptionDisplaces(b: BrokerState, topic: string, tx: Tx, b': BrokerState)
    requires Processed(b, SubscribeDirect(topic, tx), b')
    ensures
      (forall c :: c in b.connections ==> c in b'.connections && b'.connections[c] == b.connections[c]) <==>
      Synthetic(b) !in b.connections || b.connections[Synthetic(b)] == tx
    ensures forall other :: other != tx ==>
      (|Carriers(b', other)| < |Carriers(b, other)| <==>
       Synthetic(b) in b.connections && b.connections[Synthetic(b)] == other)
  {
    var id := Synthetic(b);
    assert b'.connections == b.connections[id := tx];
    assert id in b'.connections && b'.connections[id] == tx;
    hide Processed, Carriers, Synthetic;
    forall other | other != tx
      ensures |Carriers(b', other)| < |Carriers(b, other)| <==> id in b.connections && b.connections[id] == other
    {
      CarriersMove(b, id, tx, b', other);
    }
  }

  lemma CarriersMove(b: BrokerState, id: ConnId, tx: Tx, b': BrokerState, other: Tx)
    requires b'.connections == b.connections[id := tx] && other != tx
    ensures |Carriers(b', other)| < |Carriers(b, other)| <==> id in b.connections && b.connections[id] == other
  {
    assert Carriers(b', other) == Carriers(b, other) - {id};
    assert id in Carriers(b, other) ==> Carriers(b, other) == Carriers(b', other) + {id};
  }

  /** Ids in use lie below the synthetic range or below the next synthetic id. */
  ghost predicate Packed(s: System) {
    forall c :: c in s.broker.connections ==> c < s.nextId || c < Synthetic(s.broker)
  }

  /** Nobody has left and no socket id has reached the synthetic range. */
  predicate AllStay(s: System) {
    s.unregistered == {} && s.nextId <= SYNTHETIC_BASE
  }

  ghost predicate Settled(s: System) {
    AllStay(s) ==> Packed(s) && forall id :: id in s.tasks ==> id < s.nextId
  }

  lemma StepGrows(s: System, a: Action, s': System)
    requires Step(s, a, s')
    ensures AllStay(s') ==> AllStay(s)
  {
    hide Processed;
  }

  lemma SettledStep(s: System, a: Action, s': System)
    requires Step(s, a, s') && Settled(s)
    ensures Settled(s')
  {
    hide Delivered;
    StepGrows(s, a, s');
  }

  lemma {:induction false} SettledAlong(run: seq<System>, r: nat)
    requires IsRun(run) && r < |run|
    ensures Settled(run[r])
    decreases r
  {
    if r > 0 {
      hide Step, Settled;
      SettledAlong(run, r - 1);
      assert Moves(run[r - 1], run[r]);
      var a :| Step(run[r - 1], a, run[r]);
      SettledStep(run[r - 1], a, run[r]);
    }
  }

  /** While nobody has left and no socket id has reached the synthetic range, synthetic ids are fresh. */
  lemma FreshWhileNobodyLeaves(run: seq<System>, r: nat)
    requires IsRun(run) && r < |run| && AllStay(run[r])
    ensures Synthetic(run[r].broker) !in run[r].broker.connections
  {
    SettledAlong(run, r);
  }

  /** Once somebody has left, a second bridge subscription can take over the first one's id. */
  lemma DisplacementHappens() returns (run: seq<System>)
    ensures IsRun(run) && run[|run| - 1].queue == [SubscribeDirect("u", BridgeTx(1))]
    ensures
      var b := run[|run| - 1].broker;
      Synthetic(b) in b.connections && b.connections[Synthetic(b)] == BridgeTx(0)
  {
    run := PopulatingRun(1, 1);
    run := BridgeSubscribes(run);
    run := Leave(run, 0);
    var s := run[|run| - 1];
    var cmd := SubscribeDirect("u", BridgeTx(1));
    assert s.queue + [cmd] == [cmd];
    Extend(run, Bridge(cmd), s.(queue := [cmd]));
    run := run + [s.(queue := [cmd])];
  }
}
