/** The part of a service manifest that the dependency graph and the supervisor read. */
module Manifests {
  import opened Outcomes
  import opened Walks

  datatype RestartPolicy = Always | OnFailure | Never

  datatype ServiceManifest = ServiceManifest(
    name: ServiceName,
    dependencies: seq<ServiceName>,
    restart: RestartPolicy,
    maxCrashCount: nat,
    crashWindowSecs: nat,
    critical: bool,
    healthCheck: Option<string>
  )
}
