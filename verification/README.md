# Verified models of the UOS TV core services

UOS TV is a television operating system written in Rust with a JavaScript shell. This project models
the parts of it whose correctness depends on state, loops or arithmetic, and proves what they promise:

- **monitord** (`Walks`, `Graph`, `SupervisorSpec`, `Supervision`, `Monitord`): the service dependency
  graph, cycle detection by three-colour depth-first search, Kahn's startup order, and the supervisor
  that boots, restarts, health-checks and shuts down the services.
- **casync-rs** (`Bits`, `Cutting`, `Chunking`, `Index`, `Store`): cutting a file into chunks by a rolling gear hash,
  the chunk index, its delta and verification, and the content-addressed chunk store.
- **stardust** (`Codec`, `Messages`, `BrokerModel`, `Broker`): length-prefixed framing, topic patterns, and the
  broker as a protocol between accepting loop, connection tasks, WebSocket bridge and broker loop.
- **luna** (`Navigation`): grouping visible elements into rows and moving the focus with the remote.
- **update-verify** (`Updates`): the version order that blocks downgrades and the checks on a bundle.

Code that works by changing things is a method or a class whose contract ties the new state to the old
one, usually through a specification function; laws over many calls are lemmas about those functions.
Hash maps are iterated in an arbitrary order, so every iteration picks its next element freely. What the
outside world decides is an argument: the outcome of starting or polling a process, the clock, health
probes, SHA-256, CBOR, signature checks. Hypotheses about those (a hash does not collide on the byte
strings at hand, a message reads back as it was written) are stated where they are used. Service names and
chunk hashes are abstract types with equality.

Some results say exactly when the code meets a promise it does not always keep:

- `verify` accepts every extension of the indexed data, because it never reads the total size
  (`Index.VerifyAcceptsExactlyExtensions`, `Index.TrailingBytesPass`). Among the byte strings of a given length it
  accepts the indexed data only, exactly for lengths up to `total_size` (`Index.VerifyDecidesUpToTotalSize`), so
  comparing the length with `total_size` closes the gap. A chunk of 2^32 bytes or more fails its own verification
  (`Index.OwnDataVerifies`).
- The gear table multiplies the byte by an odd constant. With a mask of k low ones, which is what `Chunker::gear_hash`
  and the default strategy make, a boundary is therefore met exactly where the last k bytes, weighted by powers of
  two, sum to a multiple of 2^k, whatever the constant (`Chunking.MaskTestIsByteSum`); and a run of zero bytes is cut
  at the minimum size every time (`Chunking.ZeroRunCutsAtMinimum`).
- A frame reads back exactly when its payload is under 2^32 bytes (`Codec.RoundTripExactlyWhenFits`).
- Connection ids are safe from reuse exactly below 100000, where synthetic ids begin
  (`BrokerModel.NeverReusedExactlyBelowSynthetic`).
- A bridge publication, sent as sender 0, serves a connection in full exactly when it is not connection 0 or
  connection 0 had nothing coming (`BrokerModel.BridgeSkipsFirstConnection`); `BrokerModel.BridgeLossHappens` is a
  run in which it had.
- A service registered by the bridge is filed under the id 2^64-1. A message addressed to it has no direct copy
  exactly when no connection has that id (`BrokerModel.BridgeServiceHasNoCopy`), and none has it in any run of fewer
  than 2^64 - 100000 steps (`BrokerModel.BridgeServiceUnreachable`).
- A bridge subscription leaves existing channels alone exactly when its synthetic id is free or already its own
  (`BrokerModel.SubscriptionDisplaces`). It is free as long as nobody has left and no socket id has reached 100000
  (`BrokerModel.FreshWhileNobodyLeaves`); once somebody has left it can be taken
  (`BrokerModel.DisplacementHappens`).
- The comment on `matches_topic` gives `network.status` as an example for `network.*`. The reading that the pattern
  covers the topics below `network.` is inferred from that example. The code agrees with it exactly for the patterns
  without a wildcard (`Messages.WildcardDropsTheDot`); it also matches `networking`. The model follows the code.
- A version without any numeric component hides a downgrade (`Updates.SafeExactlyWhenNumeric`).
- Left takes back Right at an element exactly when it is a slider, which keeps the focus, or is alone, or the next
  element is no slider and this one does not end a row of more than 1000 (`Navigation.LeftTakesBackRight`). So it
  does everywhere exactly on a grid of at most one element, of sliders only, or of no slider and no row above 1000
  (`Navigation.LeftInverseOfRight`). Up takes back Down exactly from a slider, or when Down reaches no slider in a
  row that extends to the column left (`Navigation.UpTakesBackDown`). `Navigation.SliderKeepsLeft` and
  `Navigation.ShortRowLosesColumn` are screens on which they do not.
- A restart after a crash comes up exactly when its process spawns and its dependencies are running once the
  services before it in the map's order have been restarted (`SupervisorSpec.RestartSucceedsExactly`), so when a
  service and its dependency die in the same tick the order decides (`SupervisorSpec.RestartOrderMatters`).

The comment on `chunk_gear` says a boundary needs a chunk larger than the minimum; the code also cuts at the
minimum itself, and the model follows the code. The comment on `critical` in the manifest promises a panic on
a crash; the code only lets it decide whether a failed start aborts the boot. The supervisor's select loop waits for
a shutdown signal, but its sender is private and nothing sends on it (crates/monitord/src/supervisor.rs:64, 84, 91,
385), so the repository as it stands never takes that arm; the model takes it whenever a shutdown event comes.

Some proofs contain `hide` statements. They keep definitions a proof does not need out of the solver's way.

## Model

| member | source | states |
|---|---|---|
| `Graph.New` | crates/monitord/src/graph.rs:34-83 | succeeds exactly when every named dependency exists and the described relation is acyclic; the graph holds exactly the listed edges and their transpose; a missing dependency is the first in list order; a reported cycle has distinct nodes, each depending on the next and the last on the first |
| `Graph.CollectServices` | crates/monitord/src/graph.rs:35-38 | the service map holds each name's last manifest |
| `Graph.BuildEdges` | crates/monitord/src/graph.rs:40-71 | both adjacency maps hold exactly the listed edges, or the first missing dependency is reported |
| `Graph.VerifyNoCycles` | crates/monitord/src/graph.rs:86-102 | no error exactly when the relation is acyclic, for any iteration order |
| `Graph.DfsCycleDetect` | crates/monitord/src/graph.rs:104-132 | terminates; the path is always the in-progress nodes, so the position of a grey node is always found and the slice from there is a simple cycle; on success the node is finished and finished nodes stay in dependency order |
| `Graph.Position` | crates/monitord/src/graph.rs:119 | finds the first occurrence exactly when there is one |
| `Graph.TopologicalSort` | crates/monitord/src/graph.rs:139-181 | on any closed graph emits once each, after all its dependencies, exactly the services that cannot reach a cycle; complete exactly when the relation is acyclic |
| `Graph.ReleaseDependents` | crates/monitord/src/graph.rs:159-168 | each dependent's in-degree drops by one without underflow and stays the number of dependencies not yet emitted; exactly the nodes at zero are queued |
| `Walks.OrderedAvoidsCycles` | crates/monitord/src/graph.rs:139-181 | what can be listed in dependency order cannot reach a cycle |
| `Walks.TrappedWalkCloses` | crates/monitord/src/graph.rs:171-178 | a finite set in which every node depends on a member contains nodes that all reach a cycle |
| `Graph.SortedExactly` | crates/monitord/src/graph.rs:156-181 | when the queue runs dry the emitted nodes are exactly those that reach no cycle |
| `Supervision.Supervisor.constructor` | crates/monitord/src/supervisor.rs:68-93 | from a graph built of the same manifests: every service pending, and a startup order that covers them all after their dependencies |
| `Supervision.Supervisor.WaitUntilRunning` | crates/monitord/src/supervisor.rs:230-259 | succeeds exactly when the dependency is running; pending and stopped ones time out |
| `Supervision.Supervisor.StartService` | crates/monitord/src/supervisor.rs:126-227 | the new state for every outcome, field by field: it succeeds exactly when all dependencies run, the binary exists and the process spawns, and then runs with that child; a missing binary, once the dependencies run, marks the service Failed; a failed spawn or a missing dependency leaves it untouched; a child that would be overwritten is recorded |
| `Supervision.Supervisor.Boot` | crates/monitord/src/supervisor.rs:96-123 | Ok exactly when every critical service is bootable, and then the running services are exactly those whose reflexive-transitive dependencies all have a binary that spawns, each with its own child; exactly those without a binary whose direct dependencies are all bootable are Failed; the rest are as created; an error names the first critical service in startup order that is not bootable and leaves later ones untouched |
| `Supervision.Supervisor.BootOne` | crates/monitord/src/supervisor.rs:100-117 | when its turn comes a service starts exactly if it is bootable |
| `SupervisorSpec.BootableUnfold` | crates/monitord/src/supervisor.rs:132-146 | a service is bootable exactly when it launches and its direct dependencies are bootable |
| `SupervisorSpec.BootStep` | crates/monitord/src/supervisor.rs:100-117 | each attempt extends the booted prefix, whose members run with their own child, are Failed for want of a binary, or are still as created |
| `SupervisorSpec.BootedExactly` | crates/monitord/src/supervisor.rs:96-146 | a boot of all the services determines the whole runtime of every one of them |
| `Supervision.Supervisor.MonitorServices` | crates/monitord/src/supervisor.rs:537-619 | for any iteration order the new state is the polled state with the restarts applied in that order; told from the recorded exits, a running service that exited is to restart exactly when its exits in the window, this one included, do not exceed max_crash_count and its policy is always, or on-failure with a code other than 0; it ends in a crash loop exactly when they exceed it, stopped when neither, and every other service is untouched |
| `Supervision.Supervisor.CollectExits` | crates/monitord/src/supervisor.rs:541-610 | every service becomes its polled version, exits are recorded, and exactly the services to restart are listed once |
| `Supervision.Supervisor.CollectExit` | crates/monitord/src/supervisor.rs:550-608 | one service's transition on exit: crash loop, restart by policy and exit code, or stop |
| `SupervisorSpec.PollDecides` | crates/monitord/src/supervisor.rs:550-608 | what a poll decides, told from the recorded exit history, the policy and the exit code |
| `SupervisorSpec.RecentCounts` | crates/monitord/src/supervisor.rs:571-576 | the length of the pruned list is the number of recorded exits in the window |
| `Supervision.TickDecides` | crates/monitord/src/supervisor.rs:537-619 | so for every service a whole tick, restarts included, comes to what its exit history says |
| `Supervision.Supervisor.RestartAll` | crates/monitord/src/supervisor.rs:613-618 | restarts in order, and no restart overwrites a held child |
| `SupervisorSpec.MonitorKeeps` | crates/monitord/src/supervisor.rs:537-619 | after a tick every service is as its poll left it or relaunched, running means holding a child with its own pid, and no service runs that did not run before |
| `SupervisorSpec.RestartSucceedsExactly` | crates/monitord/src/supervisor.rs:613-618 | the k-th restart leaves its service running exactly when its process spawns and all its dependencies run after the restarts before it |
| `SupervisorSpec.RestartOrderMatters` | crates/monitord/src/supervisor.rs:613-618 | when a service and its only dependency die in the same tick, both come back if the dependency is first in the map's order, and the service is given up if it is first itself |
| `SupervisorSpec.WindowStep` | crates/monitord/src/supervisor.rs:569-574 | pruning at every exit keeps the crash list equal to the full exit history cut to the window |
| `SupervisorSpec.CrashWindowStep` | crates/monitord/src/supervisor.rs:569-599 | an exit that leads to a restart is at least a window later than the exit max_crash_count before it |
| `Supervision.Supervisor.HealthCheckAll` | crates/monitord/src/supervisor.rs:456-512 | for any iteration order: exactly the running services with a health method are probed, exactly those whose recorded probes end in a multiple of three failures are killed and started again, ending Failed or running with the new child; every other service is untouched |
| `Supervision.Supervisor.HealthCheckOne` | crates/monitord/src/supervisor.rs:459-510 | one service's probe: healthy resets, the third failure kills and restarts and resets |
| `Supervision.CheckDecides` | crates/monitord/src/supervisor.rs:456-512 | what a health tick comes to for one service, told from its recorded probes |
| `SupervisorSpec.HealthRestartSucceedsExactly` | crates/monitord/src/supervisor.rs:493-504 | a struck service is back up exactly when its process spawns and its dependencies run after the services before it have been checked |
| `SupervisorSpec.StrikeIsThirdFailure` | crates/monitord/src/supervisor.rs:479-490 | a service is killed exactly when its run of failed probes reaches a multiple of three |
| `SupervisorSpec.HealthKeeps` | crates/monitord/src/supervisor.rs:456-512 | only struck services change, each ends killed or relaunched, and consistency holds |
| `Supervision.Supervisor.KillService` | crates/monitord/src/supervisor.rs:515-534 | clears child and pid; a signal to a pid that is not the held child's would be recorded |
| `Supervision.Supervisor.ShutdownAll` | crates/monitord/src/supervisor.rs:622-656 | exactly the services holding a child become Stopped and lose it, each before everything it depends on directly or through others, and none holds a child afterwards |
| `SupervisorSpec.DependentsStopFirst` | crates/monitord/src/supervisor.rs:625-653 | in the reversed startup order a dependent precedes its transitive dependencies |
| `Supervision.Supervisor.Handle` | crates/monitord/src/supervisor.rs:403-416 | every arm of the loop has its effect on services, exit histories and probes (`EventStep`), for some iteration order; it keeps the steady state and never enlarges the running set |
| `Supervision.Supervisor.Run` | crates/monitord/src/supervisor.rs:382-419 | the states at the event ends follow the events one by one, each by its effect, all of them or up to and including the first shutdown; at every event end running means holding a child with its own pid, later running sets lie inside earlier ones, and at the end no spawn overwrote a child, no signal went astray, restarts are spaced by the crash window; after a shutdown nothing runs |
| `Supervision.EventStepKeeps` | crates/monitord/src/supervisor.rs:400-419 | whatever the iteration order, an event keeps running the same as holding a child with its own pid, and brings no service to life |
| `Supervision.FollowsKeeps` | crates/monitord/src/supervisor.rs:382-419 | so in every sequence of states that follows some events, from a consistent one, every later running set lies inside every earlier one |
| `SupervisorSpec.StrikesAreThirdFailures` | crates/monitord/src/supervisor.rs:479-490 | the failure counts name exactly the services whose recorded probes end in a multiple of three failures |
| `Monitord.Serve` | crates/monitord/src/main.rs:50-90 | end to end, for any manifests: refused exactly on a missing or circular dependency; boot fails on the first critical unbootable service; otherwise the first state is that of a boot of the whole startup order, in which exactly the bootable services run, each later state follows by the next event, the last one is the supervisor's, and no service ever comes to life |
| `Chunking.GearHashIsSum` | crates/casync-rs/src/chunker.rs:158-160 | the wrapping hash is the weighted sum of all table values mod 2^64 |
| `Chunking.LowBitsAreLastBytes` | crates/casync-rs/src/chunker.rs:158-166 | hash mod 2^k is the sum of 2^j times the table value of the byte j positions back, over the last k bytes, mod 2^k |
| `Chunking.MaskTestIsLocal` | crates/casync-rs/src/chunker.rs:99-108 | with a mask of k ones the masked hash depends only on the last k bytes |
| `Chunking.TableIsLinear` | crates/casync-rs/src/lib.rs:73-82 | the weighted sum of the table values is the constant times that of the bytes, mod 2^64 |
| `Bits.OddFactor` | crates/casync-rs/src/lib.rs:78 | an odd factor does not change divisibility by a power of two |
| `Chunking.MaskTestIsByteSum` | crates/casync-rs/src/chunker.rs:158-166 | with a mask of k low ones the hash meets the mask exactly when the weighted sum of the last k bytes themselves is a multiple of 2^k |
| `Chunking.CutIsByteSum` | crates/casync-rs/src/chunker.rs:162-168 | so where a piece is cut is a matter of its length and those bytes alone |
| `Chunking.ZeroRunCutsAtMinimum` | crates/casync-rs/src/chunker.rs:152-188 | a piece of zero bytes has the minimum size, the last one at most that |
| `Chunking.CutIsLocal` | crates/casync-rs/src/chunker.rs:162-168 | between the size limits, whether to cut depends only on the last k bytes |
| `Bits.MaskIsMod` | crates/casync-rs/src/chunker.rs:105 | masking with 2^k-1 is the remainder by 2^k |
| `Chunking.ChunkGear` | crates/casync-rs/src/chunker.rs:152-188 | the loop computes the one cutting in which every piece ends at its first possible cut, with offsets, sizes and hashes |
| `Cutting.SplitCutsRight` | crates/casync-rs/src/chunker.rs:152-188 | the pieces spell the data, none is empty, each ends at its first possible cut, only the last may end without one |
| `Cutting.SplitUnique` | crates/casync-rs/src/chunker.rs:144-151 | there is only one such cutting |
| `Cutting.Resync` | crates/casync-rs/src/chunker.rs:168-175 | cutting prefix + suffix is cutting each exactly when the prefix ends on a boundary or the suffix is empty |
| `Chunking.ChunksResync` | crates/casync-rs/src/chunker.rs:152-188 | after such a prefix come the suffix's chunks shifted by its length |
| `Chunking.CommonSuffixSharesHashes` | crates/casync-rs/src/chunker.rs:6-8 | two files with a common suffix starting at a boundary in both share all later chunk hashes |
| `Chunking.GearPieceBounded` | crates/casync-rs/src/chunker.rs:165-168 | no chunk exceeds the maximum size, and every chunk but the last reaches the minimum, or the maximum where that is smaller |
| `Chunking.ChunkFixed` | crates/casync-rs/src/chunker.rs:132-142 | the chunks of the fixed-size pieces, with accumulated offsets |
| `Chunking.FixedSplit` | crates/casync-rs/src/chunker.rs:136 | the pieces spell the data, all but the last have the size, none is empty or larger |
| `Chunking.ChunkBytes` | crates/casync-rs/src/chunker.rs:112-121 | the chunks of the fixed-size pieces or of the gear cutting, as the strategy says |
| `Index.IndexHashes` | crates/casync-rs/src/index.rs:67-86 | an index names exactly the hashes of the pieces |
| `Index.CheckSorted` | crates/casync-rs/src/index.rs:124-128 | comparing neighbours accepts exactly the strictly increasing offsets |
| `Index.OwnIndexIsSorted` | crates/casync-rs/src/index.rs:67-86 | every index built from nonempty pieces passes that check |
| `Index.Verify` | crates/casync-rs/src/index.rs:186-216 | Ok exactly when every entry matches its slice; otherwise the first entry that does not, and why |
| `Index.VerifyAcceptsExactlyExtensions` | crates/casync-rs/src/index.rs:186-216 | accepts a byte string exactly when the indexed data is a prefix of it; together with a comparison of the length with the recorded total size, exactly the data itself |
| `Index.TotalSizeIsLength` | crates/casync-rs/src/index.rs:67-86 | the recorded total size never exceeds the length of the data, and equals it exactly when no piece reaches 2^32 bytes |
| `Index.VerifyDecidesUpToTotalSize` | crates/casync-rs/src/index.rs:186-216 | among the byte strings of length n only the indexed data is accepted, exactly when n is at most the recorded total size; with a truncated size nothing is accepted |
| `Index.TrailingBytesPass` | crates/casync-rs/src/index.rs:186-216 | appending a byte goes unnoticed |
| `Index.OwnDataVerifies` | crates/casync-rs/src/index.rs:190-206 | data passes its own verification exactly when no piece reaches 2^32 bytes |
| `Store.ChunkStore.StoreChunk` | crates/casync-rs/src/store.rs:51-67 | stores the bytes if the hash is new, else changes nothing, and says whether it was there |
| `Store.ChunkStore.StoreFromIndex` | crates/casync-rs/src/store.rs:71-89 | absorbs the fetched chunks and rebuilds |
| `Store.ChunkStore.Reconstruct` | crates/casync-rs/src/store.rs:92-114 | the concatenation of the entries' chunks, or the first missing one with its offset |
| `Store.ChunkStore.CheckChunks` | crates/casync-rs/src/store.rs:123-136 | the present and the missing hashes, each list in index order, together all the entries' hashes |
| `Store.SelectAppend` | crates/casync-rs/src/store.rs:123-136 | the split works through a list part by part, so both lists keep the order |
| `Store.ChunkStore.Cleanup` | crates/casync-rs/src/store.rs:140-178 | keeps exactly the referenced chunks and counts the others, for any listing order |
| `Store.AbsorbAdds` | crates/casync-rs/src/store.rs:77-85 | storing adds exactly the fetched hashes and never changes stored bytes |
| `Store.AbsorbAppend` | crates/casync-rs/src/store.rs:77-85 | fetched chunks are stored one after the other, so the first bytes under a hash stay |
| `Store.RebuildSucceeds` | crates/casync-rs/src/store.rs:92-114 | rebuilding succeeds exactly when no referenced hash is missing |
| `Store.DeltaIsExact` | crates/casync-rs/src/index.rs:149-156 | from a store of exactly the old chunks: rebuilding the new file succeeds, and yields it, exactly when every hash of the difference was fetched; otherwise a hash of the difference is reported missing |
| `Store.DeltaSuffices` | crates/casync-rs/src/store.rs:71-89 | a store with more than the old chunks needs no more than the difference |
| `Store.RoundTrip` | crates/casync-rs/src/store.rs:51-178 | chunk, store, reconstruct is the identity for every input, strategy and faithful starting store, also after cleanup with the index's hashes, and the result verifies exactly when no chunk reaches 2^32 bytes |
| `Store.GearDataVerifies` | crates/casync-rs/src/chunker.rs:152-188 | with a maximum chunk size under 2^32 gear-chunked data always verifies |
| `Codec.StardustCodec.Encode` | crates/stardust/src/codec.rs:35-47 | appends four bytes, least significant first, that spell the payload's length mod 2^32, and the payload |
| `Codec.StardustCodec.Decode` | crates/stardust/src/codec.rs:54-77 | asks for more and leaves the buffer alone exactly when the header or the length it spells is not there yet; else takes exactly that frame off, whether its payload parses or not |
| `Codec.StardustCodec.FeedAll` | crates/stardust/src/codec.rs:54-77 | the decoder, fed fragment by fragment, yields what the fragments yield one after the other, and stops at the first malformed frame |
| `Codec.FedIsDrained` | crates/stardust/src/codec.rs:54-77 | for every list of fragments, well-formed or not, that equals draining the joined stream at once |
| `Codec.StardustCodec.EncodeList` | crates/stardust/src/codec.rs:35-47 | encoding messages one after the other builds the stream of their frames |
| `Codec.StardustCodec.Deliver` | crates/stardust/src/codec.rs:35-77 | feeding any split of an encoded message list through the decoder yields that list and leaves an empty buffer |
| `Codec.DrainSplits` | crates/stardust/src/codec.rs:54-77 | for every byte stream, well-formed or not, draining a prefix and then the rest equals draining it at once |
| `Codec.AnySplitDelivers` | crates/stardust/src/codec.rs:35-77 | the fragments of any split of an encoded message list, taken one by one, yield exactly those messages in order with nothing left |
| `Codec.MalformedStops` | crates/stardust/src/codec.rs:54-77 | the messages before a frame that does not parse come out, and nothing after it |
| `Codec.RoundTripExactlyWhenFits` | crates/stardust/src/codec.rs:41-44 | a frame reads back whole exactly when its payload is under 2^32 bytes |
| `Messages.MatchesExactly` | crates/stardust/src/message.rs:98-108 | `*` matches everything, a prefix with `.*` exactly the topics that begin with the prefix, any other pattern exactly itself |
| `Messages.WildcardDropsTheDot` | crates/stardust/src/message.rs:98-108 | the code agrees with the reading inferred from the documented example, on every topic, exactly for the patterns without a wildcard |
| `Messages.CodeMatchesMore` | crates/stardust/src/message.rs:98-108 | the code accepts every topic that reading accepts |
| `Messages.WildcardCatchesSiblings` | crates/stardust/src/message.rs:96-108 | a concrete topic on which they differ |
| `Broker.Broker.Handle` | crates/stardust/src/broker.rs:212-312 | each command's effect on the broker state |
| `BrokerModel.SubscriptionsAfter` | crates/stardust/src/broker.rs:228-267 | who is subscribed to what after a command |
| `BrokerModel.ServicesAfter` | crates/stardust/src/broker.rs:214-235 | who owns which service name after a command |
| `BrokerModel.ConnectionsAfter` | crates/stardust/src/broker.rs:228-256 | which ids have which channel after a command |
| `BrokerModel.ClientCommands` | crates/stardust/src/broker.rs:331-353 | what a client's message does to subscriptions and ownership once handled: the three reserved methods subscribe, unsubscribe or register that client, and exactly the others are routed |
| `BrokerModel.UnsubscribeCosts` | crates/stardust/src/broker.rs:262-267 | dropping a subscription costs that connection exactly the copy its pattern brought, and no other connection anything |
| `Broker.Broker.HandleUnregister` | crates/stardust/src/broker.rs:228-235 | removes the id from services, every subscription and the connections, and nothing else |
| `Broker.Broker.HandleRoute` | crates/stardust/src/broker.rs:268-300 | for any iteration order every channel grows by exactly its copies |
| `Broker.Broker.HandleConnection` | crates/stardust/src/broker.rs:314-376 | enters the channel; up to the first event that ends the connection, turns each incoming message into its command and writes out each message of the channel, in order; then, and only then, unregisters, once; from any system with this broker its outcome is the only state the protocol's actions for these events lead to |
| `Broker.WrittenAt` | crates/stardust/src/broker.rs:356-365 | the messages written out are those of the channel, each in its place |
| `Broker.TaskActionsLead` | crates/stardust/src/broker.rs:314-376 | the actions Start, one Receive per message, then Close at the end, lead to exactly one state: connected, the commands enqueued, the farewell last |
| `BrokerModel.PathExtendsRun` | crates/stardust/src/broker.rs:125-376 | where such actions lead from the end of a run, a longer run leads, so what holds in every run holds of the tasks |
| `BrokerModel.LifecycleStep` | crates/stardust/src/broker.rs:125-376 | every interleaved step keeps the id's lifecycle: nothing about an id follows its Unregister in the queue, and nothing refers to it afterwards |
| `BrokerModel.NeverReusedExactlyBelowSynthetic` | crates/stardust/src/broker.rs:245-256 | in every run, once an id's Unregister is processed no service, subscription or channel entry refers to it again, exactly for ids below 100000 |
| `BrokerModel.RouteReaches` | crates/stardust/src/broker.rs:268-300 | in every reachable state every channel, of a socket or of the bridge, gets for each live id that carries it, other than the sender, one copy if the id owns the destination plus one per matching pattern; a socket is carried by its own id only |
| `BrokerModel.RoutedExactly` | crates/stardust/src/broker.rs:268-300 | the same for a socket with nothing left to look up: one copy for owning the destination and one for each of its patterns that is `*`, the topic, or a prefix of it with `.*`; the sender none |
| `BrokerModel.OtherPrefixesGetNothing` | crates/stardust/src/broker.rs:286-300 | a connection that does not own the destination and subscribes only below other prefixes gets no copy |
| `BrokerModel.SameRelativeOrder` | crates/stardust/src/broker.rs:212-213 | in every run two receivers see their common messages in the same order |
| `BrokerModel.BridgeSkipsFirstConnection` | crates/stardust/src/broker.rs:178-184 | a publication by the bridge gives a connection all its copies exactly when it is not connection 0, or connection 0 is gone or has none coming |
| `BrokerModel.BridgeLossHappens` | crates/stardust/src/broker.rs:178-184 | for every message a run in which connection 0 is live, has copies coming and the bridge's publication is next |
| `BrokerModel.BridgeServiceHasNoCopy` | crates/stardust/src/broker.rs:224-227 | a message to a service registered by the bridge has no direct copy exactly when no connection has the id 2^64-1 or that one is the sender |
| `BrokerModel.BridgeServiceUnreachable` | crates/stardust/src/broker.rs:224-227 | in no run of fewer than 2^64 - 100000 steps is that id in the connection table, so nobody gets a direct copy |
| `BrokerModel.BridgeServiceHappens` | crates/stardust/src/broker.rs:224-227 | a run after which any given name is such a service |
| `BrokerModel.SubscriptionDisplaces` | crates/stardust/src/broker.rs:245-256 | a bridge subscription keeps all existing channel entries exactly when its synthetic id is free or already its own; otherwise exactly the channel that held that id is carried by one id less |
| `BrokerModel.FreshWhileNobodyLeaves` | crates/stardust/src/broker.rs:245-256 | in every run the next synthetic id is free while nobody has left and no socket id has reached 100000 |
| `BrokerModel.DisplacementHappens` | crates/stardust/src/broker.rs:245-256 | a run in which, after somebody left, a bridge subscription is about to take over another one's id |
| `Navigation.Sort` | luna/js/nav.js:44 | a permutation of the elements, sorted by the order |
| `Navigation.SortStable` | luna/js/nav.js:44-58 | elements that tie keep their order |
| `Navigation.GroupRows` | luna/js/nav.js:46-54 | the rows spell the sorted elements; each lies within 24 of its first element, and first elements are at least 24 apart |
| `Navigation.SortRows` | luna/js/nav.js:57-59 | the same rows, each sorted by its left edge |
| `Navigation.BuildGrid` | luna/js/nav.js:62-75 | flat indices run through the rows left to right, top to bottom, and each cell shows its element |
| `Navigation.NavigationManager.Refresh` | luna/js/nav.js:26-80 | rows partition the elements, 24 or more apart and each within 24 of its topmost element, and read from left to right, what shares a left edge from top to bottom; the grid shows them, the focus stays inside, and an empty screen changes nothing |
| `Navigation.RowsReadInOrder` | luna/js/nav.js:44-59 | sorting by top, grouping and sorting by the left edge gives that reading order |
| `Navigation.NavigationManager.ClosestInRow` | luna/js/nav.js:111-121 | the argmin loop finds the element at the target column or else the last one; -1 exactly when there is no such row |
| `Navigation.NavigationManager.OnKey` | luna/js/nav.js:123-179 | the focus moves as each key says, in rows and columns: Right and Left by one, at the end of a row to the next row's first or the previous row's last within reach; Down and Up to the same column of the next or previous row, or its last; a slider keeps it, except that Enter steps on |
| `Navigation.TargetCell` | luna/js/nav.js:123-251 | the specified target lies at that row and column |
| `Navigation.LeftTakesBackRight` | luna/js/nav.js:130-164 | Left takes back Right at an element exactly when it is a slider or alone, or the next one is no slider and this one does not end a row of more than 1000 |
| `Navigation.LeftInverseOfRight` | luna/js/nav.js:130-164 | Left takes back Right everywhere exactly on a grid of at most one element, or of sliders only, or of no slider and no row above 1000 elements |
| `Navigation.SliderKeepsLeft` | luna/js/nav.js:130-134 | a screen on which Left does not take back Right: a slider after a plain element |
| `Navigation.UpTakesBackDown` | luna/js/nav.js:130-179 | Up takes back Down exactly when the focus is on a slider, or Down reaches no slider and its row extends to the column left |
| `Navigation.ShortRowLosesColumn` | luna/js/nav.js:165-179 | a screen on which Up does not take back Down: a shorter row below |
| `Navigation.StepsGoRound` | luna/js/nav.js:245-251 | stepping on n times, by Enter on sliders and Right elsewhere, moves n places round the grid |
| `Updates.CheckDowngrade` | crates/update-verify/src/lib.rs:227-245 | true exactly when both versions have a numeric component and the newer is below in zero-padded lexicographic order; on two printed versions, exactly when the newer is below |
| `Updates.NumbersAreDecimal` | crates/update-verify/src/lib.rs:228 | a part is read as n exactly when it is the decimal form of n, below 2^32, after any zeros and possibly a plus sign |
| `Updates.SplitUndoesJoin` | crates/update-verify/src/lib.rs:228 | splitting at dots undoes joining with dots |
| `Updates.ParseUndoesPrint` | crates/update-verify/src/lib.rs:228 | parsing a printed version gives it back |
| `Updates.NonNumberDropped` | crates/update-verify/src/lib.rs:228 | a part that is not a number is dropped, and the others keep their order |
| `Updates.FirstDifferenceDecides` | crates/update-verify/src/lib.rs:234-243 | the first component that differs decides |
| `Updates.SamePaddedExactly` | crates/update-verify/src/lib.rs:234-243 | two versions are equal exactly when the longer one only adds zeros |
| `Updates.Trichotomy` | crates/update-verify/src/lib.rs:234-243 | exactly one of below, above, equal up to trailing zeros |
| `Updates.NotBelowIsTransitive` | crates/update-verify/src/lib.rs:234-243 | with asymmetry and transitivity: a strict weak order |
| `Updates.ChainNeverGoesBack` | crates/update-verify/src/lib.rs:164-171 | along a chain of accepted numeric versions none is below any earlier one |
| `Updates.SafeExactlyWhenNumeric` | crates/update-verify/src/lib.rs:231-233 | no accepted pair of updates goes back through a version exactly when it has a numeric component |
| `Updates.UnnumberedVersionHidesDowngrade` | crates/update-verify/src/lib.rs:231-233 | parsed from text, "2", "x", "1" is an accepted chain that goes back |
| `Updates.BundleVerifier.VerifyBundle` | crates/update-verify/src/lib.rs:125-186 | accepted exactly when a trusted key verifies the 64-byte signature, the metadata parses, the device is allowed, the version is no downgrade and the bundle is in date; each error says which earlier checks passed and which one failed |

## Left out

- Locks: guard lifetimes of the concurrent maps; maps are sequential state and each arm of the supervisor's loop is one step.
- Error texts, log lines, `restart_count`, `started_at`, environment, capabilities and the health wait during a start, none of which affects a status.
- `Supervision.Supervisor.WaitUntilRunning`: time advances by exactly the polling interval.
- Restart delays: the exit path ignores them in the source.
- The `after` field of manifests: the graph never reads it.
- The hardware watchdog: a watchdog tick changes nothing that is modelled.
- Disk errors of the chunk store, and the two-level directory layout.
- `Index.Verify`: offset plus size is not wrapped at 64 bits, which only a hand-made index could reach.
- The f64 savings percentage of `delta_stats` and its sums, which no decision depends on, and the magic and version checks of `from_bytes`, two comparisons that end in an error.
- `Chunking.Chunk` sizes are cast to 32 bits as in the source; offsets and totals are unbounded.
- CBOR, JSON, YAML, SHA-256 and Ed25519: library code, kept as arguments.
- The client side of the bus and the WebSocket framing; clients encode topic names as JSON while the broker reads raw bytes, so no claim is made from socket to socket.
- Identifiers and the connection counter of the broker are unbounded naturals; message parameters are their text.
- Sends to a channel whose receiver is gone are logged although nobody reads them.
- The `cols` table of the navigation grid, which nothing reads, slider values, clicks, Escape, `n` and the DOM.
- `Updates.BundleVerifier.VerifyBundle`: the age sum wraps at 64 bits as in a release build; a debug build panics instead.
- otad, rauc-rs, the other daemons and the rest of the shell: input and output plumbing.
