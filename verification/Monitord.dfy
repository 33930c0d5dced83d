/** crates/monitord/src/main.rs: from a list of manifests to a supervised system. */
module Monitord {
  import opened Manifests
  import opened Walks
  import Graph
  import opened SupervisorSpec
  import opened Supervision

  datatype Ending = BadGraph(error: Graph.GraphError) | BootFailed(service: ServiceName) | Ran(down: bool)

  /**
   * What a system that came up went through: every critical service is bootable, the first state is
   * that of a boot of the whole startup order with no exit or probe yet, so that exactly the
   * bootable services run; each later state follows by the next event, and no service comes to life.
   */
  ghost predicate Served(m: map<ServiceName, ServiceManifest>, launch: ServiceName -> Launch, order: seq<ServiceName>,
                         events: seq<Event>, trace: seq<Snapshot>)
  {
    && (forall n :: n in m && m[n].critical ==> Bootable(ManifestEdges(m), launch, n))
    && Follows(trace, events)
    && BootedUpTo(trace[0].services, m, launch, order)
    && (forall n :: n in m <==> n in order)
    && trace[0].exits == NothingFor(m.Keys) && trace[0].probes == NothingFor(m.Keys)
    && (forall n :: n in m ==> (n in RunningSet(trace[0].services) <==> Bootable(ManifestEdges(m), launch, n)))
    && (forall i :: 0 <= i < |trace| ==>
        RunningSet(trace[i].services) <= RunningSet(trace[0].services) && Consistent(trace[i].services))
  }

  lemma ServedSo(m: map<ServiceName, ServiceManifest>, launch: ServiceName -> Launch, order: seq<ServiceName>,
                 events: seq<Event>, trace: seq<Snapshot>)
    requires forall n :: n in m && m[n].critical ==> Bootable(ManifestEdges(m), launch, n)
    requires Follows(trace, events) && NeverRevives(trace)
    requires BootedUpTo(trace[0].services, m, launch, order) && forall n :: n in order <==> n in m
    requires trace[0].exits == NothingFor(m.Keys) && trace[0].probes == NothingFor(m.Keys)
    requires forall n :: n in m ==> (n in RunningSet(trace[0].services) <==> Bootable(ManifestEdges(m), launch, n))
    requires forall i :: 0 <= i < |trace| ==> Consistent(trace[i].services)
    ensures Served(m, launch, order, events, trace)
  {
    hide EventStep;
  }

  /**
   * Build the graph, boot, run.  Nothing is assumed of the manifests: the graph is refused exactly
   * when a dependency is missing or circular, the boot fails exactly when a critical service
   * cannot be booted, and otherwise the services running right after the boot are the bootable
   * ones and no other ever runs, while each event has its effect.
   */
  method Serve(list: seq<ServiceManifest>, launch: ServiceName -> Launch, events: seq<Event>)
    returns (ending: Ending, supervisor: Supervisor?, ghost trace: seq<Snapshot>)
    requires Monotonic(events)
    ensures ending.BadGraph? <==> !(Graph.NothingMissing(list) && Acyclic(Graph.Described(list)))
    ensures ending.BadGraph? <==> supervisor == null
    ensures supervisor != null ==> Graph.LastWins(supervisor.manifests, list) && supervisor.Steady()
    ensures ending.BootFailed? ==>
      && ending.service in supervisor.manifests && supervisor.manifests[ending.service].critical
      && !Bootable(ManifestEdges(supervisor.manifests), launch, ending.service)
      && exists i :: 0 <= i < |supervisor.startupOrder| && supervisor.BootStoppedAt(launch, i, ending.service)
    ensures ending.Ran? ==>
      && Served(supervisor.manifests, launch, supervisor.startupOrder, events, trace)
      && trace[|trace| - 1] == supervisor.Now()
      && (ending.down <==> Shutdown in events)
      && |trace| == (if ending.down then FirstShutdown(events) + 1 else |events|) + 1
    ensures ending.Ran? && ending.down ==> RunningSet(supervisor.services) == {}
  {
    hide Ordered, Consistent, Bootable, HistoryFaithful, RunningSet, BootedUpTo, Follows;
    hide Supervisor.Steady, Supervisor.Unbooted, Supervisor.NoHistory;
    hide Supervisor.BootStoppedAt, NeverRevives, Graph.LastWins, Graph.NothingMissing;
    supervisor, trace := null, [];
    var built := Graph.New(list);
    if built.Err? {
      return BadGraph(built.error), null, trace;
    }
    supervisor := new Supervisor(list, built.value);
    var booted := supervisor.Boot(launch);
    if booted.Err? {
      return BootFailed(booted.error), supervisor, trace;
    }
    supervisor.NothingRecorded();
    var down;
    trace, down := supervisor.Run(events);
    ServedSo(supervisor.manifests, launch, supervisor.startupOrder, events, trace);
    ending := Ran(down);
  }
}
