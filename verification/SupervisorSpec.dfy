/**
 * The supervisor's transitions on the map of service runtimes, as functions, and what they keep.
 * The methods of `Supervision.Supervisor` are proved equal to these functions.
 *
 * What the operating system decides is an argument: `Launch` is the outcome of starting a
 * process, `Poll` of asking for its exit status, and health probes are booleans.
 */
module SupervisorSpec {
  import opened Outcomes
  import opened Manifests
  import opened Walks

  /** A process, identified by its pid. */
  type Child = nat

  datatype ServiceStatus = Pending | Starting | Running | Failed | CrashedLoop | Stopped

  datatype ServiceRuntime = ServiceRuntime(
    manifest: ServiceManifest,
    status: ServiceStatus,
    child: Option<Child>,
    pid: Option<nat>,
    crashTimestamps: seq<nat>
  )

  type Services = map<ServiceName, ServiceRuntime>

  datatype Launch = BinaryMissing | SpawnFailed | Spawned(child: Child)

  datatype Poll = Alive | Exited(code: Option<int>) | PollError

  function Fresh(m: ServiceManifest): ServiceRuntime {
    ServiceRuntime(m, Pending, None, None, [])
  }

  function RunningSet(s: Services): set<ServiceName> {
    set n | n in s && s[n].status == Running
  }

  /** A service is Running exactly when it holds a child, and then its pid is the child's. */
  ghost predicate Consistent(s: Services) {
    forall n :: n in s ==> ConsistentRuntime(s[n])
  }

  ghost predicate ConsistentRuntime(rt: ServiceRuntime) {
    && (rt.status == Running <==> rt.child.Some?)
    && (rt.child.Some? ==> rt.pid == rt.child)
    && rt.status != Starting
  }

  ghost predicate SameManifests(a: Services, b: Services) {
    a.Keys == b.Keys && forall n :: n in a ==> a[n].manifest == b[n].manifest
  }

  // ---------------------------------------------------------------------------
  // Starting services

  ghost predicate DependenciesRunning(s: Services, m: ServiceManifest) {
    forall d :: d in m.dependencies ==> d in RunningSet(s)
  }

  function Relaunched(rt: ServiceRuntime, c: Child): ServiceRuntime {
    rt.(status := Running, child := Some(c), pid := Some(c))
  }

  /** `start_service`. */
  ghost function Started(s: Services, name: ServiceName, launch: Launch): (r: Services)
    ensures r.Keys == s.Keys
  {
    if name !in s || !DependenciesRunning(s, s[name].manifest) then s
    else match launch
      case BinaryMissing => s[name := s[name].(status := Failed)]
      case SpawnFailed => s
      case Spawned(c) => s[name := Relaunched(s[name], c)]
  }

  ghost function StartAll(s: Services, order: seq<ServiceName>, launch: ServiceName -> Launch): (r: Services)
    ensures r.Keys == s.Keys
    decreases |order|
  {
    if order == [] then s
    else StartAll(Started(s, order[0], launch(order[0])), order[1..], launch)
  }

  ghost predicate Idle(s: Services, order: seq<ServiceName>) {
    && Distinct(order)
    && forall n :: n in order ==> n in s && s[n].child.None?
  }

  /** What starting a service can leave behind. */
  ghost predicate StartOutcome(before: ServiceRuntime, after: ServiceRuntime, launch: Launch) {
    || after == before || after == before.(status := Failed)
    || (launch.Spawned? && after == Relaunched(before, launch.child))
  }

  lemma StartedKeeps(s: Services, n: ServiceName, launch: Launch)
    requires Consistent(s) && n in s && s[n].child.None?
    ensures Consistent(Started(s, n, launch)) && SameManifests(s, Started(s, n, launch))
    ensures forall x :: x in s && x != n ==> Started(s, n, launch)[x] == s[x]
    ensures StartOutcome(s[n], Started(s, n, launch)[n], launch)
  {
    hide DependenciesRunning;
  }

  /** Starting idle services keeps consistency and touches nothing else. */
  lemma {:induction false} StartAllKeeps(s: Services, order: seq<ServiceName>, launch: ServiceName -> Launch)
    requires Consistent(s) && Idle(s, order)
    ensures Consistent(StartAll(s, order, launch))
    ensures SameManifests(s, StartAll(s, order, launch))
    ensures forall n :: n in s && n !in order ==> StartAll(s, order, launch)[n] == s[n]
    ensures forall n :: n in order ==> StartOutcome(s[n], StartAll(s, order, launch)[n], launch(n))
    decreases |order|
  {
    if order != [] {
      hide Consistent, Started;
      var head, tail := order[0], order[1..];
      var s' := Started(s, head, launch(head));
      assert forall n :: n in order <==> n == head || n in tail;
      assert head !in tail && head in order;
      StartedKeeps(s, head, launch(head));
      StartAllKeeps(s', tail, launch);
    }
  }

  lemma {:induction false} StartAllAppend(s: Services, order: seq<ServiceName>, n: ServiceName,
                                          launch: ServiceName -> Launch)
    ensures StartAll(s, order + [n], launch) == Started(StartAll(s, order, launch), n, launch(n))
    decreases |order|
  {
    if order == [] {
      assert [n][1..] == [];
    } else {
      assert (order + [n])[1..] == order[1..] + [n];
      StartAllAppend(Started(s, order[0], launch(order[0])), order[1..], n, launch);
    }
  }

  lemma {:induction false} StartAllConcat(s: Services, a: seq<ServiceName>, b: seq<ServiceName>,
                                          launch: ServiceName -> Launch)
    ensures StartAll(s, a + b, launch) == StartAll(StartAll(s, a, launch), b, launch)
    decreases |a|
  {
    if a == [] {
      assert a + b == b;
    } else {
      assert (a + b)[1..] == a[1..] + b;
      StartAllConcat(Started(s, a[0], launch(a[0])), a[1..], b, launch);
    }
  }

  /** The names before, at and after a position of a distinct list. */
  lemma IdleAt(s: Services, order: seq<ServiceName>, k: nat)
    requires Idle(s, order) && k < |order|
    ensures order[k] in s && s[order[k]].child.None?
    ensures order[k] !in order[..k] && order[k] !in order[k + 1..]
    ensures Idle(s, order[..k]) && Idle(s, order[k + 1..])
    ensures forall x :: x in order[k + 1..] ==> x !in order[..k]
  {
    assert order[k] in order;
    assert forall x :: x in order[..k] ==> x in order;
    assert forall x :: x in order[k + 1..] ==> x in order;
  }

  /** The next service to restart is as it was before the restarts, so it holds no child. */
  lemma RestartTurn(s: Services, order: seq<ServiceName>, k: nat, launch: ServiceName -> Launch)
    requires Consistent(s) && Idle(s, order) && k < |order|
    ensures var before := StartAll(s, order[..k], launch);
      && Consistent(before)
      && order[k] in before && before[order[k]] == s[order[k]] && before[order[k]].child.None?
      && StartAll(s, order[..k + 1], launch) == Started(before, order[k], launch(order[k]))
  {
    hide Consistent, Idle, Started, StartAll;
    IdleAt(s, order, k);
    StartAllKeeps(s, order[..k], launch);
    StartAllAppend(s, order[..k], order[k], launch);
    assert order[..k + 1] == order[..k] + [order[k]];
  }

  lemma IdleParts(s: Services, order: seq<ServiceName>, k: nat, launch: ServiceName -> Launch)
    requires Consistent(s) && Idle(s, order) && k < |order|
    ensures var before := StartAll(s, order[..k], launch);
      && Consistent(before) && order[k] in before && before[order[k]] == s[order[k]]
      && Consistent(Started(before, order[k], launch(order[k])))
      && Idle(Started(before, order[k], launch(order[k])), order[k + 1..])
      && order[k] !in order[k + 1..]
      && StartAll(s, order, launch) == StartAll(Started(before, order[k], launch(order[k])), order[k + 1..], launch)
  {
    hide Consistent, Started, StartAll;
    var head, n, tail := order[..k], order[k], order[k + 1..];
    var before := StartAll(s, head, launch);
    IdleAt(s, order, k);
    RestartTurn(s, order, k, launch);
    StartAllKeeps(s, head, launch);
    StartedKeeps(before, n, launch(n));
    StaysIdle(s, Started(before, n, launch(n)), tail);
    assert order == order[..k + 1] + tail;
    StartAllConcat(s, order[..k + 1], tail, launch);
  }

  lemma StaysIdle(s: Services, t: Services, order: seq<ServiceName>)
    requires Idle(s, order) && s.Keys == t.Keys && forall n :: n in order ==> n in t && t[n] == s[n]
    ensures Idle(t, order)
  {
  }

  /**
   * Whether a restart succeeds depends on the order the map was iterated in: the k-th service to
   * restart comes up exactly when its process spawns and every dependency is running once the
   * ones before it have been restarted.
   */
  lemma RestartSucceedsExactly(s: Services, order: seq<ServiceName>, k: nat, launch: ServiceName -> Launch)
    requires Consistent(s) && Idle(s, order) && k < |order|
    ensures
      order[k] in RunningSet(StartAll(s, order, launch)) <==>
        launch(order[k]).Spawned? && DependenciesRunning(StartAll(s, order[..k], launch), s[order[k]].manifest)
  {
    hide Consistent, Idle, StartAll, DependenciesRunning;
    var n := order[k];
    var before := StartAll(s, order[..k], launch);
    var after := Started(before, n, launch(n));
    IdleParts(s, order, k, launch);
    StartAllKeeps(after, order[k + 1..], launch);
    IdleIsNotRunning(s, order, k);
  }

  lemma IdleIsNotRunning(s: Services, order: seq<ServiceName>, k: nat)
    requires Consistent(s) && Idle(s, order) && k < |order|
    ensures order[k] in s && s[order[k]].status != Running
  {
    assert order[k] in order;
  }

  /**
   * When a service and its only dependency die in the same tick, the iteration order decides:
   * dependency first, both come back; service first, it is given up while the dependency lives.
   */
  lemma RestartOrderMatters(s: Services, a: ServiceName, b: ServiceName, launch: ServiceName -> Launch)
    requires Consistent(s) && Idle(s, [a, b]) && launch(a).Spawned? && launch(b).Spawned?
    requires DependenciesRunning(s, s[a].manifest) && s[b].manifest.dependencies == [a]
    ensures a in RunningSet(StartAll(s, [a, b], launch)) && b in RunningSet(StartAll(s, [a, b], launch))
    ensures a in RunningSet(StartAll(s, [b, a], launch)) && b !in RunningSet(StartAll(s, [b, a], launch))
  {
    var there, back := [a, b], [b, a];
    assert there[0] == a && there[1] == b && back[0] == b && back[1] == a;
    assert there[..0] == [] && there[..1] == [a] && back[..0] == [] && back[..1] == [b];
    ServiceAndDependency(s, a, b, launch);
    hide Consistent, Idle, StartAll, Started, DependenciesRunning;
    RestartSucceedsExactly(s, there, 0, launch);
    RestartSucceedsExactly(s, there, 1, launch);
    RestartSucceedsExactly(s, back, 0, launch);
    RestartSucceedsExactly(s, back, 1, launch);
    StartedAlone(s, a, launch);
    StartedAlone(s, b, launch);
  }

  /** The dependency brings its dependent up; alone, the dependent does nothing. */
  lemma ServiceAndDependency(s: Services, a: ServiceName, b: ServiceName, launch: ServiceName -> Launch)
    requires Consistent(s) && Idle(s, [a, b]) && launch(a).Spawned?
    requires DependenciesRunning(s, s[a].manifest) && s[b].manifest.dependencies == [a]
    ensures Idle(s, [b, a])
    ensures DependenciesRunning(Started(s, a, launch(a)), s[b].manifest)
    ensures !DependenciesRunning(s, s[b].manifest)
    ensures Started(s, b, launch(b)) == s
  {
    var there, back := [a, b], [b, a];
    assert there[0] != there[1] && a in there && b in there;
    assert forall n :: n in back ==> n in there;
    assert back[0] != back[1];
  }

  lemma StartedAlone(s: Services, n: ServiceName, launch: ServiceName -> Launch)
    ensures StartAll(s, [], launch) == s
    ensures StartAll(s, [n], launch) == Started(s, n, launch(n))
  {
    assert [n][1..] == [];
  }

  // ---------------------------------------------------------------------------
  // Boot

  /** The dependency relation of the manifests the supervisor holds. */
  function ManifestEdges(m: map<ServiceName, ServiceManifest>): (r: Edges)
    ensures r.Keys == m.Keys
  {
    map n | n in m :: set d | d in m[n].dependencies
  }

  /** Everything `n` depends on, itself included, has its binary and spawns. */
  ghost predicate Bootable(edges: Edges, launch: ServiceName -> Launch, n: ServiceName) {
    forall b :: Reaches(edges, n, b) ==> launch(b).Spawned?
  }

  lemma BootableUnfold(edges: Edges, launch: ServiceName -> Launch, n: ServiceName)
    requires n in edges
    ensures Bootable(edges, launch, n) <==>
      launch(n).Spawned? && forall d :: d in edges[n] ==> Bootable(edges, launch, d)
  {
    if Bootable(edges, launch, n) {
      ReachesSelf(edges, n);
      forall d, b | d in edges[n] && Reaches(edges, d, b)
        ensures launch(b).Spawned?
      {
        ReachesStep(edges, n, d, b);
      }
    } else {
      var b :| Reaches(edges, n, b) && !launch(b).Spawned?;
      ReachesUnfold(edges, n, b);
      if n != b {
        var d :| Edge(edges, n, d) && Reaches(edges, d, b);
        assert !Bootable(edges, launch, d);
      }
    }
  }

  /** All direct dependencies are bootable. */
  ghost predicate Ready(edges: Edges, launch: ServiceName -> Launch, n: ServiceName)
    requires n in edges
  {
    forall d :: d in edges[n] ==> Bootable(edges, launch, d)
  }

  /** After attempting `prefix`: what its members came to, while the rest is untouched. */
  ghost predicate BootedUpTo(s: Services, m: map<ServiceName, ServiceManifest>, launch: ServiceName -> Launch,
                             prefix: seq<ServiceName>)
  {
    && s.Keys == m.Keys
    && (forall n :: n in s && n !in prefix ==> s[n] == ServiceRuntime(m[n], Pending, None, None, []))
    && (forall n :: n in s && n in prefix ==>
        BootOutcome(s[n], m[n], Ready(ManifestEdges(m), launch, n), launch(n)))
  }

  /** Running with its own child if it was ready and spawned, Failed if ready without a binary, else Pending. */
  predicate BootOutcome(rt: ServiceRuntime, m: ServiceManifest, ready: bool, launch: Launch) {
    if ready && launch.Spawned? then rt == ServiceRuntime(m, Running, Some(launch.child), Some(launch.child), [])
    else if ready && launch.BinaryMissing? then rt == ServiceRuntime(m, Failed, None, None, [])
    else rt == ServiceRuntime(m, Pending, None, None, [])
  }

  lemma BootedRunning(s: Services, m: map<ServiceName, ServiceManifest>, launch: ServiceName -> Launch,
                      prefix: seq<ServiceName>)
    requires BootedUpTo(s, m, launch, prefix)
    ensures forall n :: n in m && n in prefix ==> (n in RunningSet(s) <==> Bootable(ManifestEdges(m), launch, n))
    ensures forall n :: n in RunningSet(s) ==> n in prefix
    ensures Consistent(s)
    ensures forall n :: n in m ==> s[n].manifest == m[n]
  {
    hide Bootable, ManifestEdges;
    forall n | n in s
      ensures s[n].manifest == m[n] && ConsistentRuntime(s[n])
      ensures n in RunningSet(s) <==> n in prefix && Bootable(ManifestEdges(m), launch, n)
    {
      BootableUnfold(ManifestEdges(m), launch, n);
      if n in prefix {
        assert BootOutcome(s[n], m[n], Ready(ManifestEdges(m), launch, n), launch(n));
      }
    }
  }

  function RunningAs(m: ServiceManifest, c: Child): ServiceRuntime {
    ServiceRuntime(m, Running, Some(c), Some(c), [])
  }

  /** A boot of all the services determines every one of them. */
  lemma BootedExactly(s: Services, m: map<ServiceName, ServiceManifest>, launch: ServiceName -> Launch,
                      order: seq<ServiceName>)
    requires BootedUpTo(s, m, launch, order) && forall n :: n in m ==> n in order
    ensures forall n :: n in m ==>
      (s[n].status == Failed <==>
       && launch(n).BinaryMissing?
       && forall d :: d in m[n].dependencies ==> Bootable(ManifestEdges(m), launch, d))
    ensures forall n :: n in m ==>
      match s[n].status
      case Running => exists c :: launch(n) == Spawned(c) && s[n] == RunningAs(m[n], c)
      case Failed => s[n] == ServiceRuntime(m[n], Failed, None, None, [])
      case _ => s[n] == ServiceRuntime(m[n], Pending, None, None, [])
  {
    hide Bootable;
    var edges := ManifestEdges(m);
    forall n | n in m
      ensures BootOutcome(s[n], m[n], Ready(edges, launch, n), launch(n))
      ensures Bootable(edges, launch, n) <==> launch(n).Spawned? && Ready(edges, launch, n)
      ensures Ready(edges, launch, n) <==> forall d :: d in m[n].dependencies ==> Bootable(edges, launch, d)
    {
      BootableUnfold(edges, launch, n);
    }
    forall n | n in m && s[n].status == Running
      ensures exists c :: launch(n) == Spawned(c) && s[n] == RunningAs(m[n], c)
    {
      assert launch(n) == Spawned(launch(n).child) && s[n] == RunningAs(m[n], launch(n).child);
    }
  }

  /** When its turn comes, a service's dependencies run exactly if all of them are bootable. */
  lemma BootTurn(s: Services, m: map<ServiceName, ServiceManifest>, launch: ServiceName -> Launch,
                 order: seq<ServiceName>, i: nat)
    requires Ordered(ManifestEdges(m), order) && i < |order|
    requires BootedUpTo(s, m, launch, order[..i])
    ensures order[i] in m && order[i] !in order[..i] && s[order[i]] == Fresh(m[order[i]])
    ensures DependenciesRunning(s, m[order[i]]) <==> Ready(ManifestEdges(m), launch, order[i])
    ensures DependenciesRunning(s, m[order[i]]) && launch(order[i]).Spawned? <==>
      Bootable(ManifestEdges(m), launch, order[i])
  {
    var n := order[i];
    var edges := ManifestEdges(m);
    BootableUnfold(edges, launch, n);
    BootedRunning(s, m, launch, order[..i]);
    forall d | d in m[n].dependencies
      ensures d in RunningSet(s) <==> Bootable(edges, launch, d)
    {
      assert d in edges[n];
      assert d in order[..i];
      assert exists k :: 0 <= k < |order| && order[k] == d;
    }
  }

  lemma BootAttempt(s: Services, m: map<ServiceName, ServiceManifest>, launch: ServiceName -> Launch,
                    prefix: seq<ServiceName>, n: ServiceName)
    requires BootedUpTo(s, m, launch, prefix) && n in m && n !in prefix
    requires DependenciesRunning(s, m[n]) <==> Ready(ManifestEdges(m), launch, n)
    ensures BootedUpTo(Started(s, n, launch(n)), m, launch, prefix + [n])
  {
    hide Ready, ManifestEdges, DependenciesRunning;
    var after := Started(s, n, launch(n));
    assert s[n] == Fresh(m[n]);
    assert BootOutcome(after[n], m[n], Ready(ManifestEdges(m), launch, n), launch(n));
    assert forall x :: x in after && x != n ==> after[x] == s[x];
  }

  lemma BootStep(s: Services, m: map<ServiceName, ServiceManifest>, launch: ServiceName -> Launch,
                 order: seq<ServiceName>, i: nat)
    requires Ordered(ManifestEdges(m), order) && i < |order|
    requires BootedUpTo(s, m, launch, order[..i])
    ensures BootedUpTo(Started(s, order[i], launch(order[i])), m, launch, order[..i + 1])
  {
    assert order[..i + 1] == order[..i] + [order[i]];
    BootTurn(s, m, launch, order, i);
    hide Ordered, BootedUpTo, Started, Bootable, DependenciesRunning, Ready;
    BootAttempt(s, m, launch, order[..i], order[i]);
  }

  // ---------------------------------------------------------------------------
  // Process exits and the crash window

  const NANOS_PER_SEC: nat := 1_000_000_000

  function Window(m: ServiceManifest): nat {
    m.crashWindowSecs * NANOS_PER_SEC
  }

  /** `retain`: the instants less than `window` before `now`. */
  function Recent(times: seq<nat>, now: nat, window: nat): seq<nat> {
    if times == [] then []
    else
      var earlier := Recent(times[..|times| - 1], now, window);
      var t := times[|times| - 1];
      if now - t < window then earlier + [t] else earlier
  }

  function ShouldRestart(policy: RestartPolicy, code: Option<int>): bool {
    match policy
    case Always => true
    case OnFailure => code != Some(0)
    case Never => false
  }

  /** The child has been found dead by this poll. */
  predicate Died(rt: ServiceRuntime, poll: Poll) {
    (rt.status == Running || rt.status == Starting) && rt.child.Some? && poll.Exited?
  }

  function CrashesAt(rt: ServiceRuntime, now: nat): seq<nat> {
    Recent(rt.crashTimestamps + [now], now, Window(rt.manifest))
  }

  predicate NeedsRestart(rt: ServiceRuntime, poll: Poll, now: nat) {
    && Died(rt, poll)
    && |CrashesAt(rt, now)| <= rt.manifest.maxCrashCount
    && ShouldRestart(rt.manifest.restart, poll.code)
  }

  /** One iteration of the collecting loop of `monitor_services`. */
  function Polled(rt: ServiceRuntime, poll: Poll, now: nat): ServiceRuntime {
    if !Died(rt, poll) then rt
    else
      var crashes := CrashesAt(rt, now);
      var status :=
        if |crashes| > rt.manifest.maxCrashCount then CrashedLoop
        else if ShouldRestart(rt.manifest.restart, poll.code) then Failed
        else Stopped;
      rt.(status := status, child := None, crashTimestamps := crashes)
  }

  function PollAll(s: Services, poll: ServiceName -> Poll, now: ServiceName -> nat): (r: Services)
    ensures r.Keys == s.Keys
  {
    map n | n in s :: Polled(s[n], poll(n), now(n))
  }

  function RestartSet(s: Services, poll: ServiceName -> Poll, now: ServiceName -> nat): set<ServiceName> {
    set n | n in s && NeedsRestart(s[n], poll(n), now(n))
  }

  /** The state when the services in `rest` have still to be polled. */
  function PollSome(s: Services, rest: set<ServiceName>, poll: ServiceName -> Poll, now: ServiceName -> nat): Services {
    map n | n in s :: if n in rest then s[n] else Polled(s[n], poll(n), now(n))
  }

  lemma PollStep(s: Services, rest: set<ServiceName>, poll: ServiceName -> Poll, now: ServiceName -> nat,
                 n: ServiceName)
    requires n in rest && n in s
    ensures n in PollSome(s, rest, poll, now) && PollSome(s, rest, poll, now)[n] == s[n]
    ensures PollSome(s, rest - {n}, poll, now) == PollSome(s, rest, poll, now)[n := Polled(s[n], poll(n), now(n))]
    ensures RestartSet(s, poll, now) - (rest - {n}) ==
            (RestartSet(s, poll, now) - rest) + if NeedsRestart(s[n], poll(n), now(n)) then {n} else {}
  {
  }

  lemma PollEnds(s: Services, poll: ServiceName -> Poll, now: ServiceName -> nat)
    ensures PollSome(s, s.Keys, poll, now) == s
    ensures PollSome(s, {}, poll, now) == PollAll(s, poll, now)
    ensures RestartSet(s, poll, now) - s.Keys == {}
    ensures RestartSet(s, poll, now) - {} == RestartSet(s, poll, now)
  {
  }

  /** `order` lists the services to restart, in whatever order the map was iterated. */
  ghost predicate Lists(order: seq<ServiceName>, names: set<ServiceName>) {
    Distinct(order) && forall n :: n in order <==> n in names
  }

  /**
   * A monitor tick keeps consistency and never makes a service run that was not running, for
   * any iteration order; a service comes out either as its poll left it or relaunched.
   */
  lemma MonitorKeeps(s: Services, poll: ServiceName -> Poll, now: ServiceName -> nat, launch: ServiceName -> Launch,
                     order: seq<ServiceName>)
    requires Consistent(s) && Lists(order, RestartSet(s, poll, now))
    ensures var after := StartAll(PollAll(s, poll, now), order, launch);
      && Consistent(after) && SameManifests(s, after) && RunningSet(after) <= RunningSet(s)
      && forall n :: n in s ==>
        || after[n] == Polled(s[n], poll(n), now(n))
        || (NeedsRestart(s[n], poll(n), now(n)) && launch(n).Spawned? &&
            after[n] == Relaunched(Polled(s[n], poll(n), now(n)), launch(n).child))
  {
    var polled := PollAll(s, poll, now);
    assert Consistent(polled) && Idle(polled, order);
    StartAllKeeps(polled, order, launch);
  }

  datatype Exit = Exit(at: nat, restarted: bool)

  function Times(exits: seq<Exit>): seq<nat> {
    seq(|exits|, i requires 0 <= i < |exits| => exits[i].at)
  }

  ghost predicate Sorted(times: seq<nat>) {
    forall i, j :: 0 <= i <= j < |times| ==> times[i] <= times[j]
  }

  /** The pruned list is the whole exit history cut to the window ending at the last exit. */
  ghost predicate WindowExact(m: ServiceManifest, crashes: seq<nat>, exits: seq<Exit>) {
    crashes == if exits == [] then [] else Recent(Times(exits), exits[|exits| - 1].at, Window(m))
  }

  /** An exit that led to a restart is at least a window after the exit `maxCrashCount` before it. */
  ghost predicate RestartsSpaced(m: ServiceManifest, exits: seq<Exit>) {
    forall i, j :: 0 <= i <= j < |exits| && exits[j].restarted && j - i >= m.maxCrashCount ==>
      exits[j].at - exits[i].at >= Window(m)
  }

  ghost predicate HistoryFaithful(m: ServiceManifest, crashes: seq<nat>, exits: seq<Exit>) {
    && Sorted(Times(exits)) && WindowExact(m, crashes, exits) && RestartsSpaced(m, exits)
  }

  /** Pruning to an earlier window first loses nothing that a later window would keep. */
  lemma {:induction false} RecentAgain(times: seq<nat>, earlier: nat, now: nat, window: nat)
    requires earlier <= now
    ensures Recent(Recent(times, earlier, window), now, window) == Recent(times, now, window)
    decreases |times|
  {
    if times != [] {
      var front, t := times[..|times| - 1], times[|times| - 1];
      RecentAgain(front, earlier, now, window);
      if earlier - t < window {
        var kept := Recent(front, earlier, window);
        assert (kept + [t])[..|kept|] == kept;
      }
    }
  }

  /** In a sorted list everything from a recent instant on is recent. */
  lemma {:induction false} RecentKeepsTail(times: seq<nat>, i: nat, now: nat, window: nat)
    requires Sorted(times) && i < |times| && now - times[i] < window
    ensures |Recent(times, now, window)| >= |times| - i
    decreases |times|
  {
    if i < |times| - 1 {
      RecentKeepsTail(times[..|times| - 1], i, now, window);
    }
  }

  lemma TimesAppend(exits: seq<Exit>, e: Exit)
    requires Sorted(Times(exits)) && forall x :: x in exits ==> x.at <= e.at
    ensures Times(exits + [e]) == Times(exits) + [e.at] && Sorted(Times(exits + [e]))
  {
    forall i | 0 <= i < |exits|
      ensures Times(exits)[i] <= e.at
    {
      assert exits[i] in exits;
    }
  }

  lemma RecentAppend(times: seq<nat>, t: nat, now: nat, window: nat)
    ensures Recent(times + [t], now, window) ==
      if now - t < window then Recent(times, now, window) + [t] else Recent(times, now, window)
  {
    assert (times + [t])[..|times|] == times;
  }

  /** Pruning at every exit keeps the list equal to the full history cut to the window. */
  lemma WindowStep(rt: ServiceRuntime, exits: seq<Exit>, e: Exit)
    requires Sorted(Times(exits)) && WindowExact(rt.manifest, rt.crashTimestamps, exits)
    requires forall x :: x in exits ==> x.at <= e.at
    ensures CrashesAt(rt, e.at) == Recent(Times(exits + [e]), e.at, Window(rt.manifest))
    ensures WindowExact(rt.manifest, CrashesAt(rt, e.at), exits + [e])
  {
    var window := Window(rt.manifest);
    TimesAppend(exits, e);
    RecentAppend(rt.crashTimestamps, e.at, e.at, window);
    RecentAppend(Times(exits), e.at, e.at, window);
    if exits != [] {
      assert exits[|exits| - 1] in exits;
      RecentAgain(Times(exits), exits[|exits| - 1].at, e.at, window);
    }
  }

  lemma CrashWindowStep(rt: ServiceRuntime, exits: seq<Exit>, e: Exit)
    requires HistoryFaithful(rt.manifest, rt.crashTimestamps, exits)
    requires forall x :: x in exits ==> x.at <= e.at
    requires e.restarted ==> |CrashesAt(rt, e.at)| <= rt.manifest.maxCrashCount
    ensures HistoryFaithful(rt.manifest, CrashesAt(rt, e.at), exits + [e])
  {
    hide Recent, Times, Window, CrashesAt, Sorted, WindowExact, RestartsSpaced;
    TimesAppend(exits, e);
    WindowStep(rt, exits, e);
    SpacedStep(rt.manifest, exits, e);
  }

  lemma SpacedStep(m: ServiceManifest, exits: seq<Exit>, e: Exit)
    requires RestartsSpaced(m, exits) && Sorted(Times(exits + [e]))
    requires e.restarted ==> |Recent(Times(exits + [e]), e.at, Window(m))| <= m.maxCrashCount
    ensures RestartsSpaced(m, exits + [e])
  {
    hide Recent, Window, Sorted;
    var longer := exits + [e];
    assert forall k :: 0 <= k < |exits| ==> longer[k] == exits[k];
    forall i, j | 0 <= i <= j < |longer| && longer[j].restarted && j - i >= m.maxCrashCount
      ensures longer[j].at - longer[i].at >= Window(m)
    {
      if j == |exits| && e.at - longer[i].at < Window(m) {
        assert Times(longer)[i] == longer[i].at;
        RecentKeepsTail(Times(longer), i, e.at, Window(m));
      }
    }
  }

  /** The number of recorded exits less than `span` before `now`. */
  ghost function ExitsWithin(exits: seq<Exit>, now: nat, span: nat): nat {
    |set i | 0 <= i < |exits| && now - exits[i].at < span|
  }

  lemma {:induction false} RecentCounts(exits: seq<Exit>, now: nat, window: nat)
    ensures |Recent(Times(exits), now, window)| == ExitsWithin(exits, now, window)
    decreases |exits|
  {
    if exits != [] {
      var n := |exits| - 1;
      var front := exits[..n];
      RecentCounts(front, now, window);
      assert Times(exits)[..n] == Times(front);
      var few := set i | 0 <= i < |front| && now - front[i].at < window;
      var all := set i | 0 <= i < |exits| && now - exits[i].at < window;
      assert all == few + if now - exits[n].at < window then {n} else {};
    }
  }

  /**
   * What a poll decides, told from the exit history: too many exits in the window, this one
   * included, end in a crash loop, and otherwise the policy and the exit code decide.
   */
  lemma PollDecides(rt: ServiceRuntime, exits: seq<Exit>, poll: Poll, now: nat)
    requires ConsistentRuntime(rt) && HistoryFaithful(rt.manifest, rt.crashTimestamps, exits)
    requires forall e :: e in exits ==> e.at <= now
    ensures !(rt.status == Running && poll.Exited?) ==>
      Polled(rt, poll, now) == rt && !NeedsRestart(rt, poll, now) && !Died(rt, poll)
    ensures rt.status == Running && poll.Exited? ==>
      var m, restart := rt.manifest, NeedsRestart(rt, poll, now);
      var count := ExitsWithin(exits + [Exit(now, restart)], now, m.crashWindowSecs * 1_000_000_000);
      && Died(rt, poll)
      && (restart <==>
          count <= m.maxCrashCount && (m.restart == Always || (m.restart == OnFailure && poll.code != Some(0))))
      && Polled(rt, poll, now) ==
         rt.(status := if count > m.maxCrashCount then CrashedLoop else if restart then Failed else Stopped,
             child := None, crashTimestamps := Polled(rt, poll, now).crashTimestamps)
  {
    if rt.status == Running && poll.Exited? {
      var e := Exit(now, NeedsRestart(rt, poll, now));
      WindowStep(rt, exits, e);
      RecentCounts(exits + [e], now, Window(rt.manifest));
      hide CrashesAt, Recent, Times, ExitsWithin, WindowExact, RestartsSpaced, Sorted;
    }
  }

  // ---------------------------------------------------------------------------
  // Health checks

  const MAX_HEALTH_FAILURES: nat := 3

  /** Running, with a health check configured. */
  predicate Checked(rt: ServiceRuntime) {
    rt.status == Running && rt.manifest.healthCheck.Some? && rt.manifest.healthCheck.value != ""
  }

  /** The number of failed probes since the last healthy one. */
  function Streak(probes: seq<bool>): nat {
    if probes == [] || probes[|probes| - 1] then 0 else 1 + Streak(probes[..|probes| - 1])
  }

  function FailureCount(failures: map<ServiceName, nat>, n: ServiceName): nat {
    if n in failures then failures[n] else 0
  }

  /** The failure map counts each service's streak modulo the threshold. */
  ghost predicate CountsStreaks(failures: map<ServiceName, nat>, probes: map<ServiceName, seq<bool>>) {
    && (forall n :: n in failures ==> n in probes && 0 < failures[n] < MAX_HEALTH_FAILURES)
    && (forall n :: n in probes ==> FailureCount(failures, n) == Streak(probes[n]) % MAX_HEALTH_FAILURES)
  }

  function Killed(rt: ServiceRuntime): ServiceRuntime {
    rt.(status := Failed, child := None, pid := None)
  }

  function FailuresAfter(failures: map<ServiceName, nat>, n: ServiceName, healthy: bool): map<ServiceName, nat> {
    if healthy || FailureCount(failures, n) + 1 >= MAX_HEALTH_FAILURES then failures - {n}
    else failures[n := FailureCount(failures, n) + 1]
  }

  /** A probe moves the count and the streak together; the third failure in a row wraps to zero. */
  lemma CountStep(failures: map<ServiceName, nat>, probes: map<ServiceName, seq<bool>>, n: ServiceName, healthy: bool)
    requires CountsStreaks(failures, probes) && n in probes
    ensures CountsStreaks(FailuresAfter(failures, n, healthy), probes[n := probes[n] + [healthy]])
    ensures forall x :: x != n ==> FailureCount(FailuresAfter(failures, n, healthy), x) == FailureCount(failures, x)
    ensures !healthy ==> (FailureCount(failures, n) + 1 >= MAX_HEALTH_FAILURES <==>
                          Streak(probes[n] + [healthy]) % MAX_HEALTH_FAILURES == 0)
  {
    hide Streak;
    StreakStep(probes[n], healthy);
    NextInStreak(Streak(probes[n]));
  }

  lemma NextInStreak(streak: nat)
    ensures (streak + 1) % 3 == if streak % 3 + 1 >= 3 then 0 else streak % 3 + 1
    ensures 0 <= streak % 3 < 3
  {
  }

  /** A service is struck exactly when a failed probe brings its streak to a multiple of three. */
  lemma StrikeIsThirdFailure(s: Services, failures: map<ServiceName, nat>, probes: map<ServiceName, seq<bool>>,
                             healthy: ServiceName -> bool, n: ServiceName)
    requires CountsStreaks(failures, probes) && n in probes && n in s
    ensures n in Strikes(s, failures, healthy) <==>
      Checked(s[n]) && !healthy(n) && Streak(probes[n] + [healthy(n)]) % MAX_HEALTH_FAILURES == 0
  {
    CountStep(failures, probes, n, healthy(n));
  }

  /** The services whose failed probe completes a multiple of three, told from the probes alone. */
  function ThirdFailures(s: Services, probes: map<ServiceName, seq<bool>>, healthy: ServiceName -> bool)
    : set<ServiceName>
    requires s.Keys == probes.Keys
  {
    set n | n in s && Checked(s[n]) && !healthy(n) && Streak(probes[n] + [healthy(n)]) % MAX_HEALTH_FAILURES == 0
  }

  lemma StrikesAreThirdFailures(s: Services, failures: map<ServiceName, nat>, probes: map<ServiceName, seq<bool>>,
                                healthy: ServiceName -> bool)
    requires CountsStreaks(failures, probes) && s.Keys == probes.Keys
    ensures Strikes(s, failures, healthy) == ThirdFailures(s, probes, healthy)
  {
    forall n | n in s
      ensures n in Strikes(s, failures, healthy) <==> n in ThirdFailures(s, probes, healthy)
    {
      StrikeIsThirdFailure(s, failures, probes, healthy, n);
    }
  }

  lemma CountStart(probes: map<ServiceName, seq<bool>>)
    requires forall n :: n in probes ==> probes[n] == []
    ensures CountsStreaks(map[], probes)
  {
  }

  lemma StreakStep(probes: seq<bool>, healthy: bool)
    ensures Streak(probes + [healthy]) == if healthy then 0 else 1 + Streak(probes)
  {
    assert (probes + [healthy])[..|probes|] == probes;
  }

  /** One iteration of `health_check_all`; `strike` says the failure count reached the threshold. */
  ghost function HealthStep(s: Services, n: ServiceName, strike: bool, launch: Launch): Services {
    if n in s && strike then Started(s[n := Killed(s[n])], n, launch) else s
  }

  /** The loop over the services in iteration order, `strikes` naming those to be killed. */
  ghost function HealthAll(s: Services, order: seq<ServiceName>, strikes: set<ServiceName>,
                           launch: ServiceName -> Launch): (r: Services)
    ensures r.Keys == s.Keys
    decreases |order|
  {
    if order == [] then s
    else HealthAll(HealthStep(s, order[0], order[0] in strikes, launch(order[0])), order[1..], strikes, launch)
  }

  /** The services whose failed probe completes a streak of three. */
  function Strikes(s: Services, failures: map<ServiceName, nat>, healthy: ServiceName -> bool): set<ServiceName> {
    set n | n in s && Checked(s[n]) && !healthy(n) && FailureCount(failures, n) + 1 >= MAX_HEALTH_FAILURES
  }

  lemma {:induction false} HealthAllAppend(s: Services, order: seq<ServiceName>, n: ServiceName,
                                           strikes: set<ServiceName>, launch: ServiceName -> Launch)
    ensures HealthAll(s, order + [n], strikes, launch) ==
            HealthStep(HealthAll(s, order, strikes, launch), n, n in strikes, launch(n))
    decreases |order|
  {
    if order == [] {
      assert [n][1..] == [];
    } else {
      assert (order + [n])[1..] == order[1..] + [n];
      HealthAllAppend(HealthStep(s, order[0], order[0] in strikes, launch(order[0])), order[1..], n, strikes, launch);
    }
  }

  /** What killing and restarting one service can leave behind. */
  ghost predicate StruckOutcome(before: ServiceRuntime, after: ServiceRuntime, launch: Launch) {
    || after == Killed(before)
    || (launch.Spawned? && after == Relaunched(before, launch.child))
  }

  lemma HealthStepKeeps(s: Services, n: ServiceName, strike: bool, launch: Launch)
    requires Consistent(s) && n in s && (strike ==> s[n].status == Running)
    ensures var after := HealthStep(s, n, strike, launch);
      && Consistent(after) && SameManifests(s, after) && RunningSet(after) <= RunningSet(s)
      && (forall x :: x in s && x != n ==> after[x] == s[x])
      && (if strike then StruckOutcome(s[n], after[n], launch) else after[n] == s[n])
  {
  }

  /**
   * A health tick keeps consistency, changes only the struck services, and leaves each of those
   * either killed or relaunched; so no service starts running that was not.
   */
  lemma {:induction false} HealthKeeps(s: Services, order: seq<ServiceName>, strikes: set<ServiceName>,
                                       launch: ServiceName -> Launch)
    requires Consistent(s) && Distinct(order)
    requires forall n :: n in order ==> n in s && (n in strikes ==> s[n].status == Running)
    ensures var after := HealthAll(s, order, strikes, launch);
      && Consistent(after) && SameManifests(s, after) && RunningSet(after) <= RunningSet(s)
      && (forall n :: n in s && !(n in order && n in strikes) ==> after[n] == s[n])
      && (forall n :: n in order && n in strikes ==> StruckOutcome(s[n], after[n], launch(n)))
    decreases |order|
  {
    if order != [] {
      var head, tail := order[0], order[1..];
      var s' := HealthStep(s, head, head in strikes, launch(head));
      HealthStepKeeps(s, head, head in strikes, launch(head));
      assert forall n :: n in order <==> n == head || n in tail;
      assert head !in tail;
      HealthKeeps(s', tail, strikes, launch);
    }
  }

  lemma {:induction false} HealthAllConcat(s: Services, a: seq<ServiceName>, b: seq<ServiceName>,
                                           strikes: set<ServiceName>, launch: ServiceName -> Launch)
    ensures HealthAll(s, a + b, strikes, launch) == HealthAll(HealthAll(s, a, strikes, launch), b, strikes, launch)
    decreases |a|
  {
    if a == [] {
      assert a + b == b;
    } else {
      assert (a + b)[1..] == a[1..] + b;
      HealthAllConcat(HealthStep(s, a[0], a[0] in strikes, launch(a[0])), a[1..], b, strikes, launch);
    }
  }

  /** Every strike names a running service. */
  ghost predicate Strikable(s: Services, order: seq<ServiceName>, strikes: set<ServiceName>) {
    Distinct(order) && forall n :: n in order ==> n in s && (n in strikes ==> s[n].status == Running)
  }

  lemma StrikableParts(s: Services, order: seq<ServiceName>, strikes: set<ServiceName>, k: nat)
    requires Strikable(s, order, strikes) && k < |order|
    ensures Strikable(s, order[..k], strikes) && Strikable(s, order[k + 1..], strikes)
    ensures order[k] in s && order[k] !in order[..k] && order[k] !in order[k + 1..]
    ensures forall n :: n in order[k + 1..] ==> n !in order[..k]
  {
    assert order[k] in order;
    assert forall n :: n in order[..k] || n in order[k + 1..] ==> n in order;
  }

  /**
   * A struck service is back up exactly when its process spawns and its dependencies are running
   * after the services before it in the map's order have been checked.
   */
  lemma HealthRestartSucceedsExactly(s: Services, order: seq<ServiceName>, k: nat, strikes: set<ServiceName>,
                                     launch: ServiceName -> Launch)
    requires Consistent(s) && Strikable(s, order, strikes) && k < |order| && order[k] in strikes
    ensures
      var n, before := order[k], HealthAll(s, order[..k], strikes, launch);
      && n in before && before[n] == s[n]
      && (n in RunningSet(HealthAll(s, order, strikes, launch)) <==>
          launch(n).Spawned? && DependenciesRunning(before[n := Killed(before[n])], s[n].manifest))
  {
    var head, n, tail := order[..k], order[k], order[k + 1..];
    assert order == (head + [n]) + tail;
    StrikableParts(s, order, strikes, k);
    HealthKeeps(s, head, strikes, launch);
    var before := HealthAll(s, head, strikes, launch);
    var after := HealthStep(before, n, true, launch(n));
    HealthStepKeeps(before, n, true, launch(n));
    HealthKeeps(after, tail, strikes, launch);
    hide HealthAll, Consistent, Strikable, DependenciesRunning;
    HealthAllAppend(s, head, n, strikes, launch);
    HealthAllConcat(s, head + [n], tail, strikes, launch);
  }

  // ---------------------------------------------------------------------------
  // Shutdown

  function StoppedRuntime(rt: ServiceRuntime): ServiceRuntime {
    if rt.child.Some? then rt.(status := Stopped, child := None) else rt
  }

  function StopAll(s: Services): Services {
    map n | n in s :: StoppedRuntime(s[n])
  }

  /** The services in `tail` have been stopped. */
  function StopTail(s: Services, tail: seq<ServiceName>): Services {
    map n | n in s :: if n in tail then StoppedRuntime(s[n]) else s[n]
  }

  ghost predicate Holding(s: Services, n: ServiceName) {
    n in s && s[n].child.Some?
  }

  /** The services holding a child, from the back of the startup order to the front. */
  ghost function StopOrder(s: Services, order: seq<ServiceName>): seq<ServiceName> {
    if order == [] then []
    else
      var last := order[|order| - 1];
      (if Holding(s, last) then [last] else []) + StopOrder(s, order[..|order| - 1])
  }

  lemma {:induction false} StopOrderLists(s: Services, order: seq<ServiceName>)
    requires Distinct(order)
    ensures Distinct(StopOrder(s, order))
    ensures forall n :: n in StopOrder(s, order) <==> n in order && Holding(s, n)
    decreases |order|
  {
    if order != [] {
      StopOrderLists(s, order[..|order| - 1]);
      assert order == order[..|order| - 1] + [order[|order| - 1]];
    }
  }

  /** `a` comes strictly before `b` in the list. */
  ghost predicate Precedes(list: seq<ServiceName>, a: ServiceName, b: ServiceName) {
    exists p, q :: 0 <= p < q < |list| && list[p] == a && list[q] == b
  }

  /** Of two services listed, the one later in the startup order is stopped first. */
  lemma {:induction false} StopOrderReverses(s: Services, order: seq<ServiceName>, i: nat, j: nat)
    requires Distinct(order) && i < j < |order| && Holding(s, order[i]) && Holding(s, order[j])
    ensures Precedes(StopOrder(s, order), order[j], order[i])
    decreases |order|
  {
    var front, last := order[..|order| - 1], order[|order| - 1];
    var head := if Holding(s, last) then [last] else [];
    StopOrderLists(s, front);
    assert StopOrder(s, order) == head + StopOrder(s, front);
    if j == |order| - 1 {
      assert order[i] == front[i];
      assert order[i] in StopOrder(s, front);
      var q :| 0 <= q < |StopOrder(s, front)| && StopOrder(s, front)[q] == order[i];
      assert StopOrder(s, order)[0] == order[j] && StopOrder(s, order)[q + 1] == order[i];
    } else {
      StopOrderReverses(s, front, i, j);
      var p, q :| 0 <= p < q < |StopOrder(s, front)| &&
        StopOrder(s, front)[p] == front[j] && StopOrder(s, front)[q] == front[i];
      assert StopOrder(s, order)[p + |head|] == order[j] && StopOrder(s, order)[q + |head|] == order[i];
    }
  }

  /** One more service stopped, from the back of the order. */
  lemma StopTurn(s: Services, edges: Edges, order: seq<ServiceName>, i: nat, stopped: seq<ServiceName>)
    requires Ordered(edges, order) && i < |order| && order[i] in s && Consistent(s)
    ensures order[i] in StopTail(s, order[i + 1..]) && StopTail(s, order[i + 1..])[order[i]] == s[order[i]]
    ensures ConsistentRuntime(s[order[i]])
    ensures StopTail(s, order[i..]) == StopTail(s, order[i + 1..])[order[i] := StoppedRuntime(s[order[i]])]
    ensures stopped + StopOrder(s, order[..i + 1]) ==
            (if s[order[i]].child.Some? then stopped + [order[i]] else stopped) + StopOrder(s, order[..i])
  {
    assert order[i..] == [order[i]] + order[i + 1..];
    assert order[i] !in order[i + 1..];
    assert order[..i + 1][..i] == order[..i];
  }

  lemma StopAllKeeps(s: Services)
    requires Consistent(s)
    ensures Consistent(StopAll(s)) && RunningSet(StopAll(s)) == {} && StopAll(s).Keys == s.Keys
    ensures forall n :: n in s ==>
      && StopAll(s)[n].manifest == s[n].manifest && StopAll(s)[n].crashTimestamps == s[n].crashTimestamps
      && StopAll(s)[n].child.None?
  {
  }

  lemma StopEnds(s: Services, order: seq<ServiceName>)
    requires forall n :: n in s ==> n in order
    ensures StopTail(s, order[|order|..]) == s && StopOrder(s, order[..0]) == []
    ensures StopTail(s, order[0..]) == StopAll(s) && order[..|order|] == order
  {
    assert order[0..] == order;
  }

  /** A service is stopped before everything it depends on, directly or through others. */
  lemma DependentsStopFirst(s: Services, edges: Edges, order: seq<ServiceName>, a: ServiceName, b: ServiceName)
    requires Ordered(edges, order) && a in order && a != b && Reaches(edges, a, b)
    requires Holding(s, a) && Holding(s, b)
    ensures Precedes(StopOrder(s, order), a, b)
  {
    var i :| 0 <= i < |order| && order[i] == a;
    var j := OrderedReach(edges, order, i, b);
    StopOrderReverses(s, order, j, i);
  }
}
