/**
 * crates/monitord/src/supervisor.rs: booting, monitoring, health checking and shutting down
 * the services.  Every method is proved against the functions of `SupervisorSpec`.
 */
module Supervision {
  import opened Outcomes
  import opened Manifests
  import opened Walks
  import Graph
  import opened SupervisorSpec

  /** One arm of the supervisor's select loop, with what the system answers while it runs. */
  datatype Event =
    | MonitorTick(poll: ServiceName -> Poll, now: ServiceName -> nat, relaunch: ServiceName -> Launch)
    | HealthTick(healthy: ServiceName -> bool, restart: ServiceName -> Launch)
    | WatchdogTick
    | Shutdown

  /** `Instant::now()` never goes back from one tick to a later one. */
  ghost predicate Monotonic(events: seq<Event>) {
    forall i, j, n :: 0 <= i < j < |events| && events[i].MonitorTick? && events[j].MonitorTick? ==>
      events[i].now(n) <= events[j].now(n)
  }

  /** The services, every exit of every service and whether it led to a restart, and every health probe. */
  datatype Snapshot = Snapshot(
    services: Services,
    exits: map<ServiceName, seq<Exit>>,
    probes: map<ServiceName, seq<bool>>
  )

  /** The services polled, and those to restart started again in some order. */
  ghost predicate Monitored(s: Services, poll: ServiceName -> Poll, now: ServiceName -> nat,
                            relaunch: ServiceName -> Launch, s': Services)
  {
    exists order :: Lists(order, RestartSet(s, poll, now)) && s' == StartAll(PollAll(s, poll, now), order, relaunch)
  }

  /** The services checked in some order; those that failed for the third time are killed and started. */
  ghost predicate HealthChecked(a: Snapshot, healthy: ServiceName -> bool, restart: ServiceName -> Launch, s': Services)
    requires a.services.Keys == a.probes.Keys
  {
    exists order ::
      && Lists(order, a.services.Keys)
      && s' == HealthAll(a.services, order, ThirdFailures(a.services, a.probes, healthy), restart)
  }

  /** What one event does, for some order in which the maps happen to be iterated. */
  ghost predicate EventStep(a: Snapshot, event: Event, b: Snapshot) {
    && a.services.Keys == a.exits.Keys == a.probes.Keys
    && match event
       case MonitorTick(poll, now, relaunch) =>
         && Monitored(a.services, poll, now, relaunch, b.services)
         && b.exits == ExitsAfter(a.exits, a.services, poll, now) && b.probes == a.probes
       case HealthTick(healthy, restart) =>
         && HealthChecked(a, healthy, restart, b.services)
         && b.exits == a.exits && b.probes == ProbesAfter(a.probes, a.services, healthy)
       case WatchdogTick => b == a
       case Shutdown => b == a.(services := StopAll(a.services))
  }

  /** The snapshots are those before, between and after the first events, each event having its effect. */
  ghost predicate Follows(trace: seq<Snapshot>, events: seq<Event>) {
    && 0 < |trace| <= |events| + 1
    && forall i :: 0 <= i < |trace| - 1 ==> EventStep(trace[i], events[i], trace[i + 1])
  }

  /** How many events come before the first shutdown. */
  function FirstShutdown(events: seq<Event>): (r: nat)
    ensures r <= |events| && Shutdown !in events[..r]
    ensures r < |events| ==> events[r] == Shutdown
  {
    if events == [] || events[0] == Shutdown then 0
    else
      var r := FirstShutdown(events[1..]) + 1;
      assert events[..r] == [events[0]] + events[1..][..r - 1];
      r
  }

  lemma {:induction false} FirstShutdownAt(events: seq<Event>, i: nat)
    requires i < |events| && events[i] == Shutdown && Shutdown !in events[..i]
    ensures FirstShutdown(events) == i
    decreases i
  {
    if i > 0 {
      assert events[..i] == [events[0]] + events[1..][..i - 1];
      FirstShutdownAt(events[1..], i - 1);
    }
  }

  lemma FollowsOn(trace: seq<Snapshot>, events: seq<Event>, b: Snapshot)
    requires Follows(trace, events) && |trace| <= |events|
    requires EventStep(trace[|trace| - 1], events[|trace| - 1], b)
    ensures Follows(trace + [b], events)
  {
    hide EventStep;
  }

  /** Whatever is running later was running all along. */
  ghost predicate NeverRevives(trace: seq<Snapshot>) {
    forall i, j :: 0 <= i <= j < |trace| ==> RunningSet(trace[j].services) <= RunningSet(trace[i].services)
  }

  ghost function ExitsAfter(exits: map<ServiceName, seq<Exit>>, s: Services, poll: ServiceName -> Poll,
                            now: ServiceName -> nat): (r: map<ServiceName, seq<Exit>>)
    requires exits.Keys == s.Keys
    ensures r.Keys == s.Keys
  {
    map n | n in s ::
      exits[n] + if Died(s[n], poll(n)) then [Exit(now(n), NeedsRestart(s[n], poll(n), now(n)))] else []
  }

  /** The exit histories when the services in `rest` have still to be polled. */
  ghost function ExitsSome(exits: map<ServiceName, seq<Exit>>, s: Services, rest: set<ServiceName>,
                           poll: ServiceName -> Poll, now: ServiceName -> nat): map<ServiceName, seq<Exit>>
    requires exits.Keys == s.Keys
  {
    map n | n in s :: if n in rest then exits[n] else ExitsAfter(exits, s, poll, now)[n]
  }

  lemma ExitsStep(exits: map<ServiceName, seq<Exit>>, s: Services, rest: set<ServiceName>,
                  poll: ServiceName -> Poll, now: ServiceName -> nat, n: ServiceName)
    requires exits.Keys == s.Keys && n in rest && n in s
    ensures var before := ExitsSome(exits, s, rest, poll, now);
      && n in before && before[n] == exits[n]
      && ExitsSome(exits, s, rest - {n}, poll, now) == before[n :=
           exits[n] + if Died(s[n], poll(n)) then [Exit(now(n), NeedsRestart(s[n], poll(n), now(n)))] else []]
  {
  }

  lemma ExitsEnds(exits: map<ServiceName, seq<Exit>>, s: Services, poll: ServiceName -> Poll, now: ServiceName -> nat)
    requires exits.Keys == s.Keys
    ensures ExitsSome(exits, s, s.Keys, poll, now) == exits
    ensures ExitsSome(exits, s, {}, poll, now) == ExitsAfter(exits, s, poll, now)
  {
  }

  ghost function ProbesSome(probes: map<ServiceName, seq<bool>>, s: Services, rest: set<ServiceName>,
                            healthy: ServiceName -> bool): map<ServiceName, seq<bool>>
    requires probes.Keys == s.Keys
  {
    map n | n in s :: if n in rest then probes[n] else ProbesAfter(probes, s, healthy)[n]
  }

  lemma ProbesStep(probes: map<ServiceName, seq<bool>>, s: Services, rest: set<ServiceName>,
                   healthy: ServiceName -> bool, n: ServiceName)
    requires probes.Keys == s.Keys && n in rest && n in s
    ensures var before := ProbesSome(probes, s, rest, healthy);
      && n in before && before[n] == probes[n]
      && ProbesSome(probes, s, rest - {n}, healthy) ==
         before[n := probes[n] + if Checked(s[n]) then [healthy(n)] else []]
  {
  }

  lemma ProbesEnds(probes: map<ServiceName, seq<bool>>, s: Services, healthy: ServiceName -> bool)
    requires probes.Keys == s.Keys
    ensures ProbesSome(probes, s, s.Keys, healthy) == probes
    ensures ProbesSome(probes, s, {}, healthy) == ProbesAfter(probes, s, healthy)
  {
  }

  /** A signal goes to the recorded pid, which is astray unless it is the child's. */
  ghost function Strays(rt: ServiceRuntime): set<nat> {
    if rt.pid.Some? && rt.pid != rt.child then {rt.pid.value} else {}
  }

  ghost function ProbesAfter(probes: map<ServiceName, seq<bool>>, s: Services, healthy: ServiceName -> bool)
    : (r: map<ServiceName, seq<bool>>)
    requires probes.Keys == s.Keys
    ensures r.Keys == s.Keys
  {
    map n | n in s :: probes[n] + if Checked(s[n]) then [healthy(n)] else []
  }

  lemma NothingBooted(s: Services, m: map<ServiceName, ServiceManifest>, launch: ServiceName -> Launch)
    requires s.Keys == m.Keys && forall n :: n in s ==> s[n] == Fresh(m[n])
    ensures BootedUpTo(s, m, launch, [])
  {
  }

  lemma StartupOrderCovers(list: seq<ServiceManifest>, graph: Graph.DependencyGraph, order: seq<ServiceName>,
                           m: map<ServiceName, ServiceManifest>)
    requires Graph.BuiltFrom(graph, list) && Acyclic(graph.dependencies) && Graph.LastWins(m, list)
    requires Ordered(graph.dependencies, order)
    requires forall n :: n in order <==> n in graph.services && !ReachesCycle(graph.dependencies, n)
    ensures Ordered(ManifestEdges(m), order)
    ensures forall n :: n in order <==> n in m
  {
    forall n, d | n in m && d in ManifestEdges(m)[n]
      ensures n in graph.dependencies && d in graph.dependencies[n]
    {
      assert Graph.IsLast(list, n, m[n]);
      assert Graph.Lists(list, n, d);
      assert Edge(graph.dependencies, n, d);
    }
    forall i | 0 <= i < |order|
      ensures order[i] in m
    {
      assert order[i] in order;
    }
  }

  lemma ListsExtend(order: seq<ServiceName>, names: set<ServiceName>, n: ServiceName)
    requires Lists(order, names) && n !in names
    ensures Lists(order + [n], names + {n})
  {
  }

  lemma HistoryStep(rt: ServiceRuntime, exits: seq<Exit>, poll: Poll, now: nat)
    requires HistoryFaithful(rt.manifest, rt.crashTimestamps, exits)
    requires forall e :: e in exits ==> e.at <= now
    ensures HistoryFaithful(rt.manifest, Polled(rt, poll, now).crashTimestamps,
                            exits + if Died(rt, poll) then [Exit(now, NeedsRestart(rt, poll, now))] else [])
  {
    if Died(rt, poll) {
      CrashWindowStep(rt, exits, Exit(now, NeedsRestart(rt, poll, now)));
    } else {
      assert exits + [] == exits;
    }
  }

  lemma HistoriesStep(m: map<ServiceName, ServiceManifest>, s: Services, exits: map<ServiceName, seq<Exit>>,
                      poll: ServiceName -> Poll, now: ServiceName -> nat, after: Services)
    requires m.Keys == s.Keys == exits.Keys == after.Keys
    requires forall n :: n in s ==> s[n].manifest == m[n] && HistoryFaithful(m[n], s[n].crashTimestamps, exits[n])
    requires forall n, e :: n in exits && e in exits[n] ==> e.at <= now(n)
    requires forall n :: n in s ==> after[n].crashTimestamps == Polled(s[n], poll(n), now(n)).crashTimestamps
    ensures forall n :: n in after ==>
      HistoryFaithful(m[n], after[n].crashTimestamps, ExitsAfter(exits, s, poll, now)[n])
  {
    forall n | n in after
      ensures HistoryFaithful(m[n], after[n].crashTimestamps, ExitsAfter(exits, s, poll, now)[n])
    {
      HistoryStep(s[n], exits[n], poll(n), now(n));
    }
  }

  lemma PolledIdle(s: Services, poll: ServiceName -> Poll, now: ServiceName -> nat, order: seq<ServiceName>)
    requires Consistent(s) && Lists(order, RestartSet(s, poll, now))
    ensures Consistent(PollAll(s, poll, now)) && Idle(PollAll(s, poll, now), order)
  {
  }

  /** Everything a monitor tick must re-establish. */
  lemma MonitorOutcome(m: map<ServiceName, ServiceManifest>, s: Services, exits: map<ServiceName, seq<Exit>>,
                       poll: ServiceName -> Poll, now: ServiceName -> nat, relaunch: ServiceName -> Launch,
                       order: seq<ServiceName>)
    requires m.Keys == s.Keys == exits.Keys && Consistent(s) && Lists(order, RestartSet(s, poll, now))
    requires forall n :: n in s ==> s[n].manifest == m[n] && HistoryFaithful(m[n], s[n].crashTimestamps, exits[n])
    requires forall n, e :: n in exits && e in exits[n] ==> e.at <= now(n)
    ensures var after, later := StartAll(PollAll(s, poll, now), order, relaunch), ExitsAfter(exits, s, poll, now);
      && after.Keys == m.Keys == later.Keys && Consistent(after) && RunningSet(after) <= RunningSet(s)
      && (forall n :: n in after ==>
          TickOutcome(s[n], exits[n], poll(n), now(n), n in order, after[n], later[n]))
      && forall n :: n in after ==>
        after[n].manifest == m[n] && HistoryFaithful(m[n], after[n].crashTimestamps, later[n])
  {
    hide Consistent, Lists, RestartSet, Polled, NeedsRestart, StartAll, PollAll, HistoryFaithful, ExitsAfter,
         TickOutcome;
    forall n | n in s
      ensures TickOutcome(s[n], exits[n], poll(n), now(n), n in order,
                          StartAll(PollAll(s, poll, now), order, relaunch)[n], ExitsAfter(exits, s, poll, now)[n])
    {
      TickDecides(s, exits, poll, now, relaunch, order, n);
    }
    var after := StartAll(PollAll(s, poll, now), order, relaunch);
    MonitorKeeps(s, poll, now, relaunch, order);
    forall n | n in s
      ensures after[n].crashTimestamps == Polled(s[n], poll(n), now(n)).crashTimestamps
    {
    }
    HistoriesStep(m, s, exits, poll, now, after);
  }

  /** What a monitor tick comes to for one service, told from its recorded exits. */
  ghost predicate TickOutcome(before: ServiceRuntime, exits: seq<Exit>, poll: Poll, now: nat,
                              listed: bool, after: ServiceRuntime, later: seq<Exit>)
  {
    var m := before.manifest;
    if before.status == Running && poll.Exited? then
      var count := ExitsWithin(later, now, m.crashWindowSecs * 1_000_000_000);
      && later == exits + [Exit(now, listed)]
      && (listed <==>
          count <= m.maxCrashCount && (m.restart == Always || (m.restart == OnFailure && poll.code != Some(0))))
      && (after.status == CrashedLoop <==> count > m.maxCrashCount)
      && (after.status == Stopped <==> count <= m.maxCrashCount && !listed)
      && (!listed ==> after.child == None && after.pid == before.pid && after.manifest == m)
      && (listed ==> after.status == Failed || after.status == Running)
    else
      after == before && later == exits && !listed
  }

  lemma TickDecides(s: Services, exits: map<ServiceName, seq<Exit>>, poll: ServiceName -> Poll,
                    now: ServiceName -> nat, relaunch: ServiceName -> Launch, order: seq<ServiceName>, n: ServiceName)
    requires s.Keys == exits.Keys && n in s && Consistent(s) && Lists(order, RestartSet(s, poll, now))
    requires HistoryFaithful(s[n].manifest, s[n].crashTimestamps, exits[n])
    requires forall e :: e in exits[n] ==> e.at <= now(n)
    ensures
      var after := StartAll(PollAll(s, poll, now), order, relaunch);
      TickOutcome(s[n], exits[n], poll(n), now(n), n in order, after[n], ExitsAfter(exits, s, poll, now)[n])
  {
    var polled := PollAll(s, poll, now);
    PolledIdle(s, poll, now, order);
    StartAllKeeps(polled, order, relaunch);
    assert n in order <==> NeedsRestart(s[n], poll(n), now(n));
    hide HistoryFaithful, StartAll, Polled, NeedsRestart, Died, TickOutcome, StartOutcome, Lists, RestartSet, Idle;
    TickOne(s[n], exits[n], poll(n), now(n), relaunch(n), StartAll(polled, order, relaunch)[n]);
  }

  lemma TickOne(before: ServiceRuntime, exits: seq<Exit>, poll: Poll, now: nat, relaunch: Launch,
                after: ServiceRuntime)
    requires ConsistentRuntime(before) && HistoryFaithful(before.manifest, before.crashTimestamps, exits)
    requires forall e :: e in exits ==> e.at <= now
    requires
      if NeedsRestart(before, poll, now) then StartOutcome(Polled(before, poll, now), after, relaunch)
      else after == Polled(before, poll, now)
    ensures
      var listed := NeedsRestart(before, poll, now);
      TickOutcome(before, exits, poll, now, listed, after,
                  exits + if Died(before, poll) then [Exit(now, listed)] else [])
  {
    PollDecides(before, exits, poll, now);
    hide HistoryFaithful, ExitsWithin, Polled, NeedsRestart, Died;
    assert exits + [] == exits;
  }

  /** Everything a health tick must re-establish; crash lists are left alone. */
  lemma HealthOutcome(s: Services, failures: map<ServiceName, nat>, probes: map<ServiceName, seq<bool>>,
                      healthy: ServiceName -> bool, order: seq<ServiceName>, restart: ServiceName -> Launch)
    requires Consistent(s) && Lists(order, s.Keys) && s.Keys == probes.Keys && CountsStreaks(failures, probes)
    ensures var after := HealthAll(s, order, Strikes(s, failures, healthy), restart);
      && after.Keys == s.Keys && Consistent(after) && RunningSet(after) <= RunningSet(s)
      && (forall n :: n in s ==>
          CheckOutcome(s[n], probes[n], healthy(n), restart(n), after[n], ProbesAfter(probes, s, healthy)[n]))
      && forall n :: n in s ==>
        after[n].manifest == s[n].manifest && after[n].crashTimestamps == s[n].crashTimestamps
  {
    hide CheckOutcome, ProbesAfter;
    var strikes := Strikes(s, failures, healthy);
    HealthKeeps(s, order, strikes, restart);
    var after := HealthAll(s, order, strikes, restart);
    forall n | n in s
      ensures after[n].crashTimestamps == s[n].crashTimestamps
      ensures CheckOutcome(s[n], probes[n], healthy(n), restart(n), after[n], ProbesAfter(probes, s, healthy)[n])
    {
      CheckDecides(s, failures, probes, healthy, order, restart, n);
      if n in order && n in strikes {
        assert StruckOutcome(s[n], after[n], restart(n));
      }
    }
  }

  /** The last k probes failed, and no more than those. */
  ghost predicate EndsInFailures(probes: seq<bool>, k: nat) {
    && k <= |probes| && (forall i :: |probes| - k <= i < |probes| ==> !probes[i])
    && (k < |probes| ==> probes[|probes| - k - 1])
  }

  /** What a health tick comes to for one service, told from its recorded probes. */
  ghost predicate CheckOutcome(before: ServiceRuntime, probes: seq<bool>, healthy: bool, restart: Launch,
                               after: ServiceRuntime, later: seq<bool>)
  {
    var m := before.manifest;
    var probed := before.status == Running && m.healthCheck.Some? && |m.healthCheck.value| > 0;
    && later == probes + (if probed then [healthy] else [])
    && if probed && exists k: nat :: k > 0 && k % 3 == 0 && EndsInFailures(later, k) then
         || after == before.(status := Failed, child := None, pid := None)
         || (after.child.Some? && restart == Spawned(after.child.value) &&
             after == before.(child := after.child, pid := after.child))
       else after == before
  }

  lemma CheckDecides(s: Services, failures: map<ServiceName, nat>, probes: map<ServiceName, seq<bool>>,
                     healthy: ServiceName -> bool, order: seq<ServiceName>, restart: ServiceName -> Launch,
                     n: ServiceName)
    requires Consistent(s) && Lists(order, s.Keys) && s.Keys == probes.Keys && n in s
    requires CountsStreaks(failures, probes)
    ensures
      var after := HealthAll(s, order, Strikes(s, failures, healthy), restart);
      CheckOutcome(s[n], probes[n], healthy(n), restart(n), after[n], ProbesAfter(probes, s, healthy)[n])
  {
    var strikes := Strikes(s, failures, healthy);
    HealthKeeps(s, order, strikes, restart);
    StrikeIsThirdFailure(s, failures, probes, healthy, n);
    hide CountsStreaks, HealthAll, Consistent, StruckOutcome, Streak, CheckOutcome;
    CheckedOne(s[n], probes[n], healthy(n), restart(n), HealthAll(s, order, strikes, restart)[n], n in strikes);
  }

  lemma CheckedOne(before: ServiceRuntime, probes: seq<bool>, healthy: bool, restart: Launch, after: ServiceRuntime,
                   struck: bool)
    requires struck <==> Checked(before) && !healthy && Streak(probes + [healthy]) % MAX_HEALTH_FAILURES == 0
    requires if struck then StruckOutcome(before, after, restart) else after == before
    ensures
      CheckOutcome(before, probes, healthy, restart, after, probes + if Checked(before) then [healthy] else [])
  {
    hide EndsInFailures, Streak;
    ThirdInARow(probes, healthy);
    assert probes + [] == probes;
  }

  lemma ThirdInARow(probes: seq<bool>, healthy: bool)
    ensures
      var later := probes + [healthy];
      !healthy && Streak(later) % 3 == 0 <==> exists k: nat :: k > 0 && k % 3 == 0 && EndsInFailures(later, k)
  {
    hide EndsInFailures, Streak;
    var later := probes + [healthy];
    StreakStep(probes, healthy);
    StreakEnds(later);
    forall k: nat | EndsInFailures(later, k)
      ensures k == Streak(later)
    {
      OneStreak(later, k, Streak(later));
    }
  }

  lemma {:induction false} StreakEnds(probes: seq<bool>)
    ensures EndsInFailures(probes, Streak(probes))
    decreases |probes|
  {
    if probes != [] && !probes[|probes| - 1] {
      StreakEnds(probes[..|probes| - 1]);
    }
  }

  lemma OneStreak(probes: seq<bool>, j: nat, k: nat)
    requires EndsInFailures(probes, j) && EndsInFailures(probes, k)
    ensures j == k
  {
  }

  lemma HealthStart(s: Services, strikes: set<ServiceName>, restart: ServiceName -> Launch)
    ensures HealthAll(s, [], strikes, restart) == s && Lists([], s.Keys - s.Keys)
  {
  }

  /** The next service to check is still as it was, so it is struck exactly if it is in `Strikes`. */
  lemma HealthTurn(s: Services, failures: map<ServiceName, nat>, healthy: ServiceName -> bool, order: seq<ServiceName>,
                   rest: set<ServiceName>, restart: ServiceName -> Launch, n: ServiceName)
    requires Consistent(s) && rest <= s.Keys && Lists(order, s.Keys - rest) && n in rest
    ensures var strikes := Strikes(s, failures, healthy);
      var before := HealthAll(s, order, strikes, restart);
      && n in before && before[n] == s[n] && ConsistentRuntime(s[n])
      && HealthAll(s, order + [n], strikes, restart) == HealthStep(before, n, n in strikes, restart(n))
      && (n in strikes <==> Checked(s[n]) && !healthy(n) && FailureCount(failures, n) + 1 >= MAX_HEALTH_FAILURES)
      && Lists(order + [n], s.Keys - (rest - {n}))
  {
    var strikes := Strikes(s, failures, healthy);
    HealthKeeps(s, order, strikes, restart);
    HealthAllAppend(s, order, n, strikes, restart);
    ListsExtend(order, s.Keys - rest, n);
    assert (s.Keys - rest) + {n} == s.Keys - (rest - {n});
  }

  lemma StoppedAll(s: Services)
    ensures forall n :: n in s ==>
      StopAll(s)[n] == if s[n].child.None? then s[n] else s[n].(status := Stopped, child := None)
  {
  }

  lemma StopOrderMeansDependentsFirst(s: Services, edges: Edges, order: seq<ServiceName>)
    requires Ordered(edges, order) && forall n :: n in s ==> n in order
    ensures forall n :: n in StopOrder(s, order) <==> Holding(s, n)
    ensures forall a, b | a != b && Reaches(edges, a, b) ::
      Holding(s, a) && Holding(s, b) ==> Precedes(StopOrder(s, order), a, b)
  {
    StopOrderLists(s, order);
    forall a, b | a != b && Reaches(edges, a, b)
      ensures Holding(s, a) && Holding(s, b) ==> Precedes(StopOrder(s, order), a, b)
    {
      if Holding(s, a) && Holding(s, b) {
        DependentsStopFirst(s, edges, order, a, b);
      }
    }
  }

  /** The manifests by name, and the names with dependencies first. */
  method CollectInOrder(list: seq<ServiceManifest>, graph: Graph.DependencyGraph)
    returns (collected: map<ServiceName, ServiceManifest>, order: seq<ServiceName>)
    requires Graph.BuiltFrom(graph, list) && Acyclic(graph.dependencies)
    ensures Graph.LastWins(collected, list)
    ensures Ordered(ManifestEdges(collected), order)
    ensures forall n :: n in order <==> n in collected
  {
    hide Graph.BuiltFrom, Graph.LastWins, Ordered, ReachesCycle, Acyclic, ManifestEdges;
    GraphIsWellFormed(list, graph);
    var sorted := Graph.TopologicalSort(graph);
    collected := Graph.CollectServices(list);
    order := Graph.NamesOf(sorted);
    StartupOrderCovers(list, graph, order, collected);
  }

  lemma GraphIsWellFormed(list: seq<ServiceManifest>, graph: Graph.DependencyGraph)
    requires Graph.BuiltFrom(graph, list)
    ensures Graph.WellFormed(graph)
  {
  }

  function AllFresh(m: map<ServiceName, ServiceManifest>): (r: Services)
    ensures r.Keys == m.Keys && forall n :: n in r ==> r[n] == Fresh(m[n])
  {
    map n | n in m :: Fresh(m[n])
  }

  ghost function NothingFor<T>(names: set<ServiceName>): (r: map<ServiceName, seq<T>>)
    ensures r.Keys == names && forall n :: n in r ==> r[n] == []
  {
    map n | n in names :: []
  }

  /** No exit recorded so far is later than any tick still to come. */
  ghost predicate TicksAhead(exits: map<ServiceName, seq<Exit>>, events: seq<Event>, i: nat) {
    forall n, e, k :: n in exits && e in exits[n] && i <= k < |events| && events[k].MonitorTick? ==>
      e.at <= events[k].now(n)
  }

  lemma NoExitsYet(exits: map<ServiceName, seq<Exit>>, events: seq<Event>)
    requires forall n :: n in exits ==> exits[n] == []
    ensures TicksAhead(exits, events, 0)
  {
  }

  lemma LaterTicks(events: seq<Event>, i: nat, exits: map<ServiceName, seq<Exit>>, s: Services)
    requires i < |events| && events[i].MonitorTick? && Monotonic(events)
    requires exits.Keys == s.Keys && TicksAhead(exits, events, i)
    ensures TicksAhead(ExitsAfter(exits, s, events[i].poll, events[i].now), events, i + 1)
  {
  }

  lemma NothingRunsFits(trace: seq<Snapshot>, s: Snapshot)
    requires RunningSet(s.services) == {} && |trace| > 0
    ensures RunningSet(s.services) <= RunningSet(trace[|trace| - 1].services)
  {
  }

  /** Whatever the order, an event keeps consistency and brings no service to life. */
  lemma EventStepKeeps(a: Snapshot, event: Event, b: Snapshot)
    requires EventStep(a, event, b) && Consistent(a.services)
    ensures Consistent(b.services) && RunningSet(b.services) <= RunningSet(a.services)
  {
    hide Consistent, RunningSet, StopAll, StartAll, PollAll, HealthAll, Lists, RestartSet, ExitsAfter, ProbesAfter;
    match event
    case MonitorTick(poll, now, relaunch) =>
      var order :| Lists(order, RestartSet(a.services, poll, now)) &&
        b.services == StartAll(PollAll(a.services, poll, now), order, relaunch);
      MonitorKeeps(a.services, poll, now, relaunch, order);
    case HealthTick(healthy, restart) =>
      var strikes := ThirdFailures(a.services, a.probes, healthy);
      var order :| Lists(order, a.services.Keys) && b.services == HealthAll(a.services, order, strikes, restart);
      HealthOrder(a.services, order, strikes);
      HealthKeeps(a.services, order, strikes, restart);
    case WatchdogTick =>
    case Shutdown =>
      StopAllKeeps(a.services);
  }

  lemma HealthOrder(s: Services, order: seq<ServiceName>, strikes: set<ServiceName>)
    requires Lists(order, s.Keys) && forall n :: n in strikes ==> n in s && Checked(s[n])
    ensures Distinct(order) && forall n :: n in order ==> n in s && (n in strikes ==> s[n].status == Running)
  {
  }

  /** So in every sequence of states that follows some events nothing runs that did not run before. */
  lemma {:induction false} FollowsKeeps(trace: seq<Snapshot>, events: seq<Event>, i: nat, j: nat)
    requires Follows(trace, events) && Consistent(trace[0].services) && i <= j < |trace|
    ensures Consistent(trace[j].services) && RunningSet(trace[j].services) <= RunningSet(trace[i].services)
    decreases j
  {
    hide EventStep, Consistent, RunningSet;
    if i < j {
      FollowsKeeps(trace, events, i, j - 1);
      EventStepKeeps(trace[j - 1], events[j - 1], trace[j]);
    } else if j > 0 {
      FollowsKeeps(trace, events, j - 1, j - 1);
      EventStepKeeps(trace[j - 1], events[j - 1], trace[j]);
    }
  }

  lemma TraceStarts(s: Snapshot, events: seq<Event>)
    ensures NeverRevives([s]) && Follows([s], events)
  {
  }

  lemma TraceGrows(trace: seq<Snapshot>, s: Snapshot)
    requires |trace| > 0 && NeverRevives(trace)
    requires RunningSet(s.services) <= RunningSet(trace[|trace| - 1].services)
    ensures NeverRevives(trace + [s])
  {
  }

  class Supervisor {
    var services: Services
    const startupOrder: seq<ServiceName>
    ghost const manifests: map<ServiceName, ServiceManifest>
    /** Every exit of every service, and whether it led to a restart. */
    ghost var exits: map<ServiceName, seq<Exit>>
    /** Every health probe of every service. */
    ghost var probes: map<ServiceName, seq<bool>>
    /** Children overwritten by a spawn while still held. */
    ghost var orphaned: set<Child>
    /** Pids signalled while not being the pid of the service's child. */
    ghost var misdirected: set<nat>

    ghost predicate Valid()
      reads this
    {
      && services.Keys == manifests.Keys == exits.Keys == probes.Keys
      && (forall n :: n in services ==> services[n].manifest == manifests[n])
      && Ordered(ManifestEdges(manifests), startupOrder)
      && (forall n :: n in startupOrder <==> n in manifests)
    }

    ghost function Now(): Snapshot
      reads this
    {
      Snapshot(services, exits, probes)
    }

    /** What holds at the end of every event. */
    ghost predicate Steady()
      reads this
    {
      && Valid()
      && Consistent(services)
      && orphaned == {} && misdirected == {}
      && (forall n :: n in services ==> HistoryFaithful(manifests[n], services[n].crashTimestamps, exits[n]))
    }

    /** Nothing has exited or been probed yet. */
    ghost predicate NoHistory()
      reads this`exits, this`probes
    {
      (forall n :: n in exits ==> exits[n] == []) && (forall n :: n in probes ==> probes[n] == [])
    }

    ghost predicate Unbooted()
      reads this
    {
      && Valid()
      && NoHistory()
      && (forall n :: n in services ==> services[n] == Fresh(manifests[n]))
      && orphaned == {} && misdirected == {}
    }

    /** `Supervisor::new`, given the graph built from the same manifests. */
    constructor (list: seq<ServiceManifest>, graph: Graph.DependencyGraph)
      requires Graph.BuiltFrom(graph, list) && Acyclic(graph.dependencies)
      ensures Unbooted()
      ensures Graph.LastWins(manifests, list)
    {
      hide Graph.BuiltFrom, Graph.LastWins, Ordered, ManifestEdges, AllFresh, NothingFor;
      var collected, order := CollectInOrder(list, graph);
      startupOrder := order;
      services := AllFresh(collected);
      manifests := collected;
      exits, probes := NothingFor(collected.Keys), NothingFor(collected.Keys);
      orphaned, misdirected := {}, {};
    }

    /** `wait_until_running`: no other task changes a status meanwhile, so polling ends in a timeout or at once. */
    method WaitUntilRunning(name: ServiceName) returns (ok: bool)
      ensures ok <==> name in RunningSet(services)
    {
      var elapsed := 0;
      while elapsed <= 30_000
        invariant elapsed > 0 ==> name !in RunningSet(services)
        decreases 30_100 - elapsed
      {
        var status := if name in services then services[name].status else Failed;
        match status {
          case Running => return true;
          case Failed => return false;
          case CrashedLoop => return false;
          case _ => elapsed := elapsed + 100;
        }
      }
      return false;
    }

    /** `start_service`. */
    method StartService(name: ServiceName, launch: Launch) returns (ok: bool)
      modifies this`services, this`orphaned
      ensures services == Started(old(services), name, launch)
      ensures services.Keys == old(services).Keys
      ensures forall n :: n in services && (n != name || !ok) && !(n == name && launch.BinaryMissing?) ==>
        services[n] == old(services)[n]
      ensures name in services ==>
        var up := forall d :: d in services[name].manifest.dependencies ==>
          d in old(services) && old(services)[d].status == Running;
        && services[name].manifest == old(services)[name].manifest
        && services[name].crashTimestamps == old(services)[name].crashTimestamps
        && (ok <==> up && launch.Spawned?)
        && (ok ==>
            services[name].status == Running && services[name].child == services[name].pid == Some(launch.child))
        && (!ok ==>
            && services[name].child == old(services)[name].child && services[name].pid == old(services)[name].pid
            && services[name].status == if up && launch.BinaryMissing? then Failed else old(services)[name].status)
      ensures ok ==> name in services
      ensures orphaned == old(orphaned) +
        if ok && old(services)[name].child.Some? then {old(services)[name].child.value} else {}
    {
      if name !in services {
        return false;
      }
      var manifest := services[name].manifest;
      for i := 0 to |manifest.dependencies|
        invariant services == old(services) && orphaned == old(orphaned)
        invariant forall d :: d in manifest.dependencies[..i] ==> d in RunningSet(services)
      {
        var up := WaitUntilRunning(manifest.dependencies[i]);
        if !up {
          return false;
        }
      }
      match launch {
        case BinaryMissing =>
          services := services[name := services[name].(status := Failed)];
          return false;
        case SpawnFailed =>
          return false;
        case Spawned(child) =>
          if services[name].child.Some? {
            orphaned := orphaned + {services[name].child.value};
          }
          services := services[name := services[name].(status := Starting, child := Some(child), pid := Some(child))];
          services := services[name := services[name].(status := Running)];
          return true;
      }
    }

    /**
     * `boot`.  The services left running are exactly the bootable ones among those attempted;
     * all are attempted unless a critical service turns out not to be bootable, and then the
     * first such service in startup order is reported.
     */
    method Boot(launch: ServiceName -> Launch) returns (r: Result<(), ServiceName>)
      requires Unbooted()
      modifies this`services, this`orphaned
      ensures Steady() && NoHistory()
      ensures r.Ok? <==>
        forall n :: n in manifests && manifests[n].critical ==> Bootable(ManifestEdges(manifests), launch, n)
      ensures r.Ok? ==> BootedUpTo(services, manifests, launch, startupOrder)
      ensures r.Ok? ==> forall n :: n in manifests ==>
        (services[n].status == Failed <==>
         && launch(n).BinaryMissing?
         && forall d :: d in manifests[n].dependencies ==> Bootable(ManifestEdges(manifests), launch, d))
      ensures r.Ok? ==> forall n :: n in manifests ==>
        match services[n].status
        case Running => exists c :: launch(n) == Spawned(c) && services[n] == RunningAs(manifests[n], c)
        case Failed => services[n] == ServiceRuntime(manifests[n], Failed, None, None, [])
        case _ => services[n] == ServiceRuntime(manifests[n], Pending, None, None, [])
      ensures r.Ok? ==>
        forall n :: n in manifests ==> (n in RunningSet(services) <==> Bootable(ManifestEdges(manifests), launch, n))
      ensures r.Err? ==>
        && r.error in manifests && manifests[r.error].critical
        && !Bootable(ManifestEdges(manifests), launch, r.error)
        && exists i :: 0 <= i < |startupOrder| && BootStoppedAt(launch, i, r.error)
    {
      hide Ordered, Bootable, BootOutcome, BootedUpTo, HistoryFaithful, CriticalsUp, BootStoppedAt, RunningSet,
           Consistent, Ready, NoHistory, RunningAs;
      NoneUpYet(launch);
      NothingBooted(services, manifests, launch);
      for i := 0 to |startupOrder|
        invariant Valid() && orphaned == {} && BootedUpTo(services, manifests, launch, startupOrder[..i])
        invariant CriticalsUp(launch, i)
      {
        var name := startupOrder[i];
        var ok := BootOne(launch, i);
        if !ok && services[name].manifest.critical {
          StoppedAt(launch, i, name);
          BootLeavesSteady(launch, startupOrder[..i + 1]);
          return Err(name);
        }
        OneMoreUp(launch, i);
      }
      AllCriticalsUp(launch);
      assert startupOrder[..|startupOrder|] == startupOrder;
      BootLeavesSteady(launch, startupOrder);
      BootedRunning(services, manifests, launch, startupOrder);
      BootedExactly(services, manifests, launch, startupOrder);
      return Ok(());
    }

    /** One turn of the boot loop: the i-th service comes up exactly if it is bootable. */
    method BootOne(launch: ServiceName -> Launch, i: nat) returns (ok: bool)
      requires Valid() && i < |startupOrder| && orphaned == {}
      requires BootedUpTo(services, manifests, launch, startupOrder[..i])
      modifies this`services, this`orphaned
      ensures Valid() && orphaned == {}
      ensures BootedUpTo(services, manifests, launch, startupOrder[..i + 1])
      ensures ok <==> Bootable(ManifestEdges(manifests), launch, startupOrder[i])
    {
      hide Ordered, BootedUpTo, Bootable, BootOutcome;
      var name := startupOrder[i];
      BootTurn(services, manifests, launch, startupOrder, i);
      BootStep(services, manifests, launch, startupOrder, i);
      ok := StartService(name, launch(name));
      BootedRunning(services, manifests, launch, startupOrder[..i + 1]);
    }

    lemma BootLeavesSteady(launch: ServiceName -> Launch, prefix: seq<ServiceName>)
      requires Valid() && orphaned == {} && misdirected == {}
      requires BootedUpTo(services, manifests, launch, prefix)
      requires NoHistory()
      ensures Steady()
    {
      BootedRunning(services, manifests, launch, prefix);
      forall n | n in services
        ensures services[n].crashTimestamps == []
      {
        if n in prefix {
          assert BootOutcome(services[n], manifests[n], Ready(ManifestEdges(manifests), launch, n), launch(n));
        }
      }
    }

    ghost predicate CriticalsUp(launch: ServiceName -> Launch, i: nat)
      requires i <= |startupOrder|
    {
      forall k :: 0 <= k < i && startupOrder[k] in manifests && manifests[startupOrder[k]].critical ==>
        Bootable(ManifestEdges(manifests), launch, startupOrder[k])
    }

    lemma NoneUpYet(launch: ServiceName -> Launch)
      ensures CriticalsUp(launch, 0)
    {
    }

    lemma OneMoreUp(launch: ServiceName -> Launch, i: nat)
      requires i < |startupOrder| && CriticalsUp(launch, i)
      requires startupOrder[i] in manifests && manifests[startupOrder[i]].critical ==>
        Bootable(ManifestEdges(manifests), launch, startupOrder[i])
      ensures CriticalsUp(launch, i + 1)
    {
    }

    lemma AllCriticalsUp(launch: ServiceName -> Launch)
      requires CriticalsUp(launch, |startupOrder|) && forall n :: n in startupOrder <==> n in manifests
      ensures forall n :: n in manifests && manifests[n].critical ==> Bootable(ManifestEdges(manifests), launch, n)
    {
      hide Bootable;
      forall n | n in manifests && manifests[n].critical
        ensures Bootable(ManifestEdges(manifests), launch, n)
      {
        assert n in startupOrder;
      }
    }

    lemma StoppedAt(launch: ServiceName -> Launch, i: nat, name: ServiceName)
      requires i < |startupOrder| && startupOrder[i] == name && name in manifests && manifests[name].critical
      requires !Bootable(ManifestEdges(manifests), launch, name)
      requires CriticalsUp(launch, i) && BootedUpTo(services, manifests, launch, startupOrder[..i + 1])
      ensures BootStoppedAt(launch, i, name)
    {
    }

    /** The i-th service is the first critical one that cannot be booted; later ones are untouched. */
    ghost predicate BootStoppedAt(launch: ServiceName -> Launch, i: nat, name: ServiceName)
      reads this
      requires i < |startupOrder|
    {
      && startupOrder[i] == name && name in manifests && manifests[name].critical
      && !Bootable(ManifestEdges(manifests), launch, name)
      && CriticalsUp(launch, i)
      && BootedUpTo(services, manifests, launch, startupOrder[..i + 1])
    }

    /** `kill_service`. */
    method KillService(name: ServiceName)
      modifies this`services, this`misdirected
      ensures services ==
        if name in old(services) then old(services)[name := old(services)[name].(child := None, pid := None)]
        else old(services)
      ensures
        var stray := name in old(services) && old(services)[name].pid.Some? &&
          old(services)[name].pid != old(services)[name].child;
        misdirected == old(misdirected) + if stray then {old(services)[name].pid.value} else {}
    {
      if name in services {
        misdirected := misdirected + Strays(services[name]);
        services := services[name := services[name].(child := None, pid := None)];
      }
    }

    /**
     * `monitor_services`.  For the order in which the map happens to be iterated, the new state
     * is the polled state with the restarts applied in that order.
     */
    method MonitorServices(poll: ServiceName -> Poll, now: ServiceName -> nat, relaunch: ServiceName -> Launch)
      returns (toRestart: seq<ServiceName>)
      requires Steady()
      requires forall n, e :: n in exits && e in exits[n] ==> e.at <= now(n)
      modifies this`services, this`orphaned, this`exits
      ensures Steady()
      ensures Lists(toRestart, RestartSet(old(services), poll, now))
      ensures services == StartAll(PollAll(old(services), poll, now), toRestart, relaunch)
      ensures exits == ExitsAfter(old(exits), old(services), poll, now)
      ensures RunningSet(services) <= RunningSet(old(services))
      ensures forall n :: n in services ==>
        TickOutcome(old(services)[n], old(exits)[n], poll(n), now(n), n in toRestart, services[n], exits[n])
    {
      hide Ordered, HistoryFaithful, PollAll, ExitsAfter, StartAll, Idle, Lists, RestartSet, Consistent, RunningSet,
           TickOutcome, ManifestEdges;
      ghost var s0, exits0 := services, exits;
      toRestart := CollectExits(poll, now);
      PolledIdle(s0, poll, now, toRestart);
      RestartAll(toRestart, relaunch);
      MonitorOutcome(manifests, s0, exits0, poll, now, relaunch, toRestart);
    }

    /** The restarting loop: no child is held by a service about to be started. */
    method RestartAll(toRestart: seq<ServiceName>, relaunch: ServiceName -> Launch)
      requires Consistent(services) && Idle(services, toRestart) && orphaned == {}
      modifies this`services, this`orphaned
      ensures services == StartAll(old(services), toRestart, relaunch) && orphaned == {}
    {
      ghost var polled := services;
      for i := 0 to |toRestart|
        invariant services == StartAll(polled, toRestart[..i], relaunch)
        invariant orphaned == {}
      {
        RestartTurn(polled, toRestart, i, relaunch);
        var _ := StartService(toRestart[i], relaunch(toRestart[i]));
      }
      assert toRestart[..|toRestart|] == toRestart;
    }

    /** The collecting loop: record exits and decide on restarts. */
    method CollectExits(poll: ServiceName -> Poll, now: ServiceName -> nat) returns (toRestart: seq<ServiceName>)
      requires services.Keys == exits.Keys
      modifies this`services, this`exits
      ensures services == PollAll(old(services), poll, now)
      ensures exits == ExitsAfter(old(exits), old(services), poll, now)
      ensures Lists(toRestart, RestartSet(old(services), poll, now))
    {
      hide PollSome, ExitsSome, PollAll, ExitsAfter, RestartSet, NeedsRestart, Polled, Died;
      ghost var s0, exits0 := services, exits;
      PollEnds(s0, poll, now);
      ExitsEnds(exits0, s0, poll, now);
      toRestart := [];
      var rest := services.Keys;
      while rest != {}
        invariant rest <= s0.Keys
        invariant services == PollSome(s0, rest, poll, now) && exits == ExitsSome(exits0, s0, rest, poll, now)
        invariant Lists(toRestart, RestartSet(s0, poll, now) - rest)
        decreases rest
      {
        var name :| name in rest;
        PollStep(s0, rest, poll, now, name);
        ExitsStep(exits0, s0, rest, poll, now, name);
        var restart := CollectExit(name, poll(name), now(name));
        if restart {
          ListsExtend(toRestart, RestartSet(s0, poll, now) - rest, name);
          toRestart := toRestart + [name];
        }
        rest := rest - {name};
      }
    }

    /** One iteration of the collecting loop. */
    method CollectExit(name: ServiceName, poll: Poll, now: nat) returns (restart: bool)
      requires name in services && name in exits
      modifies this`services, this`exits
      ensures services == old(services)[name := Polled(old(services)[name], poll, now)]
      ensures restart <==> NeedsRestart(old(services)[name], poll, now)
      ensures
        var before, after := old(services)[name], services[name];
        if (before.status == Running || before.status == Starting) && before.child.Some? && poll.Exited? then
          && (after.status == CrashedLoop <==> |after.crashTimestamps| > before.manifest.maxCrashCount)
          && (restart <==> after.status != CrashedLoop && (before.manifest.restart == Always ||
                           (before.manifest.restart == OnFailure && poll.code != Some(0))))
          && (after.status == Stopped <==> after.status != CrashedLoop && !restart)
          && after.child == None && after.pid == before.pid && after.manifest == before.manifest
        else after == before && !restart
      ensures exits ==
        old(exits)[name := old(exits)[name] + if Died(old(services)[name], poll) then [Exit(now, restart)] else []]
    {
      restart := false;
      var svc := services[name];
      if (svc.status == Running || svc.status == Starting) && svc.child.Some? {
        match poll {
          case Exited(code) =>
            svc := svc.(status := Failed, child := None);
            var shouldRestart := ShouldRestart(svc.manifest.restart, code);
            svc := svc.(crashTimestamps := Recent(svc.crashTimestamps + [now], now, Window(svc.manifest)));
            if |svc.crashTimestamps| > svc.manifest.maxCrashCount {
              svc := svc.(status := CrashedLoop);
            } else if shouldRestart {
              restart := true;
            } else {
              svc := svc.(status := Stopped);
            }
            services := services[name := svc];
            exits := exits[name := exits[name] + [Exit(now, restart)]];
            return;
          case Alive =>
          case PollError =>
        }
      }
      assert exits[name] + [] == exits[name];
    }

    /** `health_check_all`; `order` is the order in which the map happens to be iterated. */
    method HealthCheckAll(failures0: map<ServiceName, nat>, healthy: ServiceName -> bool,
                          restart: ServiceName -> Launch)
      returns (failures: map<ServiceName, nat>, ghost order: seq<ServiceName>)
      requires Steady() && CountsStreaks(failures0, probes)
      modifies this`services, this`orphaned, this`misdirected, this`probes
      ensures Steady() && CountsStreaks(failures, probes)
      ensures Lists(order, old(services).Keys)
      ensures services == HealthAll(old(services), order, Strikes(old(services), failures0, healthy), restart)
      ensures probes == ProbesAfter(old(probes), old(services), healthy)
      ensures RunningSet(services) <= RunningSet(old(services))
      ensures forall n :: n in services ==>
        CheckOutcome(old(services)[n], old(probes)[n], healthy(n), restart(n), services[n], probes[n])
    {
      hide Ordered, Consistent, HistoryFaithful, RunningSet, CountsStreaks, Strikes, HealthAll, ProbesAfter, Lists,
           CheckOutcome, ManifestEdges;
      ghost var s0, probes0 := services, probes;
      failures, order := CheckEach(failures0, healthy, restart);
      HealthOutcome(s0, failures0, probes0, healthy, order, restart);
    }

    /** The loop over the services, in whatever order the map is iterated. */
    method CheckEach(failures0: map<ServiceName, nat>, healthy: ServiceName -> bool, restart: ServiceName -> Launch)
      returns (failures: map<ServiceName, nat>, ghost order: seq<ServiceName>)
      requires Consistent(services) && services.Keys == probes.Keys
      requires CountsStreaks(failures0, probes) && orphaned == {} && misdirected == {}
      modifies this`services, this`orphaned, this`misdirected, this`probes
      ensures CountsStreaks(failures, probes) && orphaned == {} && misdirected == {}
      ensures Lists(order, old(services).Keys)
      ensures services == HealthAll(old(services), order, Strikes(old(services), failures0, healthy), restart)
      ensures probes == ProbesAfter(old(probes), old(services), healthy)
    {
      hide Consistent, CountsStreaks, FailureCount, Checked, Strikes, HealthStep, HealthAll, ProbesSome, ProbesAfter,
           Lists;
      ghost var s0, probes0 := services, probes;
      ghost var strikes := Strikes(s0, failures0, healthy);
      ProbesEnds(probes0, s0, healthy);
      HealthStart(s0, strikes, restart);
      failures, order := failures0, [];
      var rest := services.Keys;
      while rest != {}
        invariant rest <= s0.Keys && Lists(order, s0.Keys - rest)
        invariant services == HealthAll(s0, order, strikes, restart)
        invariant orphaned == {} && misdirected == {}
        invariant CountsStreaks(failures, probes) && probes == ProbesSome(probes0, s0, rest, healthy)
        invariant forall n :: n in rest ==> FailureCount(failures, n) == FailureCount(failures0, n)
        decreases rest
      {
        var name :| name in rest;
        HealthTurn(s0, failures0, healthy, order, rest, restart, name);
        ProbesStep(probes0, s0, rest, healthy, name);
        failures := HealthCheckOne(name, failures, healthy(name), restart(name));
        rest := rest - {name};
        order := order + [name];
      }
      assert s0.Keys - rest == s0.Keys;
    }

    /** One iteration of `health_check_all`: the third failure in a row kills and restarts. */
    method HealthCheckOne(name: ServiceName, failures0: map<ServiceName, nat>, healthy: bool, restart: Launch)
      returns (failures: map<ServiceName, nat>)
      requires name in services && name in probes && ConsistentRuntime(services[name])
      requires CountsStreaks(failures0, probes) && orphaned == {} && misdirected == {}
      modifies this`services, this`orphaned, this`misdirected, this`probes
      ensures
        var strike := Checked(old(services)[name]) && !healthy
          && FailureCount(failures0, name) + 1 >= MAX_HEALTH_FAILURES;
        services == HealthStep(old(services), name, strike, restart)
      ensures probes == old(probes)[name := old(probes)[name] + if Checked(old(services)[name]) then [healthy] else []]
      ensures CountsStreaks(failures, probes) && orphaned == {} && misdirected == {}
      ensures forall n :: n != name ==> FailureCount(failures, n) == FailureCount(failures0, n)
    {
      hide CountsStreaks, Streak, DependenciesRunning;
      failures := failures0;
      if !Checked(services[name]) {
        assert probes[name] + [] == probes[name];
        assert probes == probes[name := probes[name]];
        return;
      }
      CountStep(failures0, probes, name, healthy);
      probes := probes[name := probes[name] + [healthy]];
      if healthy {
        failures := failures - {name};
      } else {
        var count := FailureCount(failures, name) + 1;
        if count >= MAX_HEALTH_FAILURES {
          failures := failures - {name};
          KillService(name);
          services := services[name := services[name].(status := Failed)];
          assert services == old(services)[name := Killed(old(services)[name])];
          var _ := StartService(name, restart);
        } else {
          failures := failures[name := count];
        }
      }
    }

    /** `shutdown_all`; `stopped` logs the services in the order they are stopped. */
    method ShutdownAll() returns (stopped: seq<ServiceName>)
      requires Steady()
      modifies this`services, this`misdirected
      ensures Steady() && RunningSet(services) == {}
      ensures services == StopAll(old(services))
      ensures forall n :: n in services ==>
        services[n] == if old(services)[n].child.None? then old(services)[n]
                       else old(services)[n].(status := Stopped, child := None)
      ensures forall n :: n in services ==> services[n].child.None?
      ensures forall n :: n in stopped <==> Holding(old(services), n)
      ensures forall a, b | a != b && Reaches(ManifestEdges(manifests), a, b) ::
        Holding(old(services), a) && Holding(old(services), b) ==> Precedes(stopped, a, b)
    {
      hide Ordered, Consistent, HistoryFaithful, StopOrder, StopTail, StopAll, Reaches, Precedes, RunningSet, Holding;
      ghost var s0 := services;
      StopEnds(s0, startupOrder);
      stopped := [];
      var i := |startupOrder|;
      while i > 0
        invariant 0 <= i <= |startupOrder| && misdirected == {}
        invariant services == StopTail(s0, startupOrder[i..])
        invariant stopped + StopOrder(s0, startupOrder[..i]) == StopOrder(s0, startupOrder)
      {
        StopTurn(s0, ManifestEdges(manifests), startupOrder, i - 1, stopped);
        i := i - 1;
        assert startupOrder[i] in startupOrder;
        var held := StopService(startupOrder[i]);
        if held {
          stopped := stopped + [startupOrder[i]];
        }
      }
      assert stopped == StopOrder(s0, startupOrder);
      StopAllKeeps(s0);
      StoppedAll(s0);
      StopOrderMeansDependentsFirst(s0, ManifestEdges(manifests), startupOrder);
    }

    /** One iteration of `shutdown_all`: SIGTERM, then SIGKILL, to the held child. */
    method StopService(name: ServiceName) returns (held: bool)
      requires name in services && ConsistentRuntime(services[name])
      modifies this`services, this`misdirected
      ensures services == old(services)[name := StoppedRuntime(old(services)[name])]
      ensures held <==> old(services)[name].child.Some?
      ensures misdirected == old(misdirected)
    {
      held := services[name].child.Some?;
      if held {
        misdirected := misdirected + Strays(services[name]);
        services := services[name := services[name].(status := Stopped, child := None)];
      }
    }

    /** One pass of the select loop, other than a shutdown. */
    method Handle(ghost events: seq<Event>, ghost i: nat, event: Event, failures0: map<ServiceName, nat>)
      returns (failures: map<ServiceName, nat>)
      requires i < |events| && event == events[i] && !event.Shutdown? && Monotonic(events)
      requires Steady() && CountsStreaks(failures0, probes) && TicksAhead(exits, events, i)
      modifies this
      ensures Steady() && CountsStreaks(failures, probes) && TicksAhead(exits, events, i + 1)
      ensures EventStep(old(Now()), event, Now())
      ensures RunningSet(services) <= RunningSet(old(services))
    {
      hide Ordered, Consistent, HistoryFaithful, CountsStreaks, RunningSet, ExitsAfter, StartAll, PollAll, HealthAll,
           Lists, ThirdFailures, Strikes, RestartSet, ProbesAfter;
      failures := failures0;
      match event {
        case MonitorTick(poll, now, relaunch) =>
          ghost var exits0, s0 := exits, services;
          var _ := MonitorServices(poll, now, relaunch);
          LaterTicks(events, i, exits0, s0);
        case HealthTick(healthy, restart) =>
          StrikesAreThirdFailures(services, failures, probes, healthy);
          ghost var order;
          failures, order := HealthCheckAll(failures, healthy, restart);
        case WatchdogTick =>
      }
    }

    /**
     * `run`: handle events until a shutdown.  `trace` is the state at the start and at the end of
     * every event handled: all of them, or those up to and including the first shutdown.
     */
    method Run(events: seq<Event>) returns (ghost trace: seq<Snapshot>, down: bool)
      requires Steady() && NoHistory() && Monotonic(events)
      modifies this
      ensures Steady()
      ensures Follows(trace, events) && trace[0] == old(Now()) && trace[|trace| - 1] == Now()
      ensures |trace| == (if down then FirstShutdown(events) + 1 else |events|) + 1
      ensures forall i :: 0 <= i < |trace| ==> Consistent(trace[i].services)
      ensures NeverRevives(trace)
      ensures forall n :: n in services ==> RestartsSpaced(manifests[n], exits[n])
      ensures down <==> Shutdown in events
      ensures down ==> RunningSet(services) == {} && forall n :: n in services ==> services[n].child.None?
    {
      hide Valid, Steady, Consistent, CountsStreaks, RunningSet, NeverRevives, TicksAhead, RestartsSpaced, StopAll;
      hide Follows, EventStep;
      SteadyIsConsistent();
      CountStart(probes);
      trace := [Now()];
      TraceStarts(Now(), events);
      NoExitsYet(exits, events);
      var failures: map<ServiceName, nat> := map[];
      var i := 0;
      while i < |events|
        invariant 0 <= i <= |events|
        invariant Steady() && CountsStreaks(failures, probes)
        invariant |trace| == i + 1 && trace[0] == old(Now()) && trace[i] == Now()
        invariant Follows(trace, events)
        invariant forall k :: 0 <= k < |trace| ==> Consistent(trace[k].services)
        invariant NeverRevives(trace)
        invariant TicksAhead(exits, events, i)
        invariant Shutdown !in events[..i]
      {
        var event := events[i];
        if event.Shutdown? {
          SteadyShutsDown();
          FirstShutdownAt(events, i);
          var _ := ShutdownAll();
          SteadyIsConsistent();
          NothingRunsFits(trace, Now());
          TraceGrows(trace, Now());
          FollowsOn(trace, events, Now());
          trace := trace + [Now()];
          SpacingHolds();
          return trace, true;
        }
        failures := Handle(events, i, event, failures);
        SteadyIsConsistent();
        TraceGrows(trace, Now());
        FollowsOn(trace, events, Now());
        trace := trace + [Now()];
        i := i + 1;
      }
      assert events[..i] == events;
      SpacingHolds();
      return trace, false;
    }

    lemma SteadyIsConsistent()
      requires Steady()
      ensures Consistent(services)
    {
    }

    lemma NothingRecorded()
      requires Steady() && NoHistory()
      ensures Now().exits == NothingFor(manifests.Keys) && Now().probes == NothingFor(manifests.Keys)
      ensures forall n :: n in startupOrder <==> n in manifests
    {
    }

    lemma SteadyShutsDown()
      requires Steady()
      ensures EventStep(Now(), Shutdown, Now().(services := StopAll(services)))
    {
    }

    lemma SpacingHolds()
      requires Steady()
      ensures forall n :: n in services ==> RestartsSpaced(manifests[n], exits[n])
    {
    }
  }
}
