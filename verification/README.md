# Verification of the republisher and the simulator

This project models the parts of the repository that carry state, loops or exact arithmetic, and
proves what they are for. It stands beside the Rust sources; paths below are relative to the
repository's root. `dafny verify dfyconfig.toml` checks all of it.

**The poll-and-publish worker.** `Scheduler` states one iteration of the loop as a transition of its
state under arbitrary answers of the protocol adapter and of the broker, and emits events. `Worker`
has the loop itself, an object whose fields are updated in place, proved to follow that transition.
`History` reads verdicts, failed polls, poll times, reads and counts off the event log alone and
proves that the loop's tables agree with these readings at every moment of every run; `Guarantees`
states the consequences: no poll too early, none during backoff or of an unresolved device, none
left out, nothing counted twice, every sample published once, every newly unresolved point reported,
refreshes and health reports in time. `Backoff` and `Publish` are its parts.

**The OPC UA browse.** `Browse` has the breadth-first walk on an arbitrary, possibly cyclic or
infinite, reference graph. A ghost discovery order carries the invariant from which completeness up
to the depth limit follows.

**The simulator and its images.** `Expansion` allocates device ids and instances, `Profiles` and
`Simulation` tick the points, `Registry` and `ModbusImage` are the BACnet and Modbus images, and
`Addressing` proves from one end to the other when every simulated point is found, and found as
itself, by every lookup.

**Algorithms with exact specifications.** `BacnetPoll` (multiple reads with fallback), `BacnetValue`
(decoding of primitive values), `Refresh` (Who-Is ranges), `Cidr`, `Import` (merging), `Topic`,
`Mqtt` (link state). `Bits` has the bit operations on unbounded integers, `Text` the string
operations of the standard library, `Picking` what it means that a list holds one entry for each of
some places, in their order, `Model` the shared data types, `Wrappers` Option and Result.

Loops of the sources are methods with loops, proved equal to a specification function or against
conditions on their results; what the sources promise is then proved about those. Times are
nanoseconds on a clock that never runs backwards.

## Where the code does less than it says

The following do not hold in general. A lemma says, for all inputs, when each of them does hold, and
where a caller would not expect it another gives a concrete case.

- A comment at `crates/sim-core/src/config.rs:232` says (object type, instance) is unique across
  devices. The counters go by the type as written, the lookups by its trimmed, lower-case form: two
  spellings of one type give two points one address, and the second cannot be read
  (`Addressing.SecondSpellingShadowed`, `Addressing.AddressableExactly`).
- Device ids are computed in 32 bits without a check. Where they wrap around, blocks can meet
  (`Expansion.WrappedIdsCollide`, `Expansion.IdsDistinctExactly`). The model wraps, as a build
  without overflow checks does; a build with them aborts instead.
- `sanitize_segment` is not idempotent: whitespace that it does not map to an underscore
  can end up at an edge (`Topic.NotIdempotentOnAll`, `Topic.IdempotentExactly`).
- Merging an import a second time changes no point, yet can report updates
  (`Import.SecondMergeCanUpdate`, `Import.SecondMergeUpdates`).
- After a refusal by the broker, a transport error replaces the refusal's text while the link stays
  fatal, so the reported fatal error is then not the refusal (`Mqtt.RefusalForgotten`,
  `Mqtt.FatalErrorExact`).
- A multiple read can report a point more than once, when the device repeats a value
  (`BacnetPoll.MultipleReportsOnceExactly`).
- The whole address space (prefix 0) is scanned without its last address
  (`Cidr.UncappedCoversBlock`).

## Model

| member | source | states |
|---|---|---|
| `Browse.BrowseVariables` | crates/proto-opcua/src/republish/mod.rs:421-476 | The walk loop, on any reference graph: terminates within 20,000 expansions; its result comes of a discovery order in which every node stands once, at its shortest distance, behind a parent one link nearer the root; it succeeds, within the cap, exactly when all nodes within 12 links can be browsed, is cut short exactly when there are more than 20,000 of them, and otherwise has exactly one point for each pair of such a node and a forward Variable reference of it, node by node outwards, each node's in the order of its references |
| `Browse.ExpandEntry` | crates/proto-opcua/src/republish/mod.rs:440-475 | The inner loop over one node's references: keeps the walk's state, lets the visited set be exactly the expanded nodes plus the frontier, and appends exactly the points of the node's references |
| `Browse.BrowseComplete` | crates/proto-opcua/src/republish/mod.rs:429-476 | A successful browse is cut short if and only if more than 20,000 nodes lie within 12 links of the root; otherwise the expanded nodes are exactly those, each once and at its exact distance |
| `Browse.VariablePointsPick` | crates/proto-opcua/src/republish/mod.rs:440-461 | The points of one node: one for each forward Variable reference, in their order, with its target and the path extended by its name |
| `Browse.PointsOfPerReference` | crates/proto-opcua/src/republish/mod.rs:435-461 | The points of a list of nodes: exactly one for each pair of a node and a forward Variable reference of it, in lexicographic order |
| `Browse.BrowseSucceedsExactly` | crates/proto-opcua/src/republish/mod.rs:435-440 | Within the cap a browse succeeds if and only if every node within 12 links can be browsed |
| `Browse.VariablesFound` | crates/proto-opcua/src/republish/mod.rs:447-461 | A variable is found if and only if some node within 12 links has a forward reference to it |
| `Browse.DistanceIsShortestWalk` | crates/proto-opcua/src/republish/mod.rs:462-472 | Being k links away is being the end of some walk of k links and of none shorter |
| `Browse.BallListed` | crates/proto-opcua/src/republish/mod.rs:435-472 | The breadth-first invariant: whatever lies no farther than the next frontier entry is already listed, at no greater depth |
| `Browse.ChildDistance` | crates/proto-opcua/src/republish/mod.rs:462-472 | A target first met while expanding a node of depth d lies at distance exactly d + 1 |
| `Browse.ProgressCount` | crates/proto-opcua/src/republish/mod.rs:435-439 | The visited set counts the expanded nodes and the frontier, and no more than 20,000 nodes are expanded |
| `Browse.PathNamesShortestWalk` | crates/proto-opcua/src/republish/mod.rs:450-471 | The names in a node's tag path label a walk from the root to it that is shortest |
| `Browse.BrowseChildren` | crates/proto-opcua/src/republish/mod.rs:522-558 | The continuation loop: the references of all pages up to the first reply that ends the browse, or the error of that reply |
| `Browse.PagingInvisible` | crates/proto-opcua/src/republish/mod.rs:541-557 | However the server cuts a node's references into pages, browsing puts exactly them together again, in order |
| `Worker.Republisher.constructor` | crates/republish-core/src/worker/mod.rs:764-807 | The state before the loop: all devices of enabled points were asked for, those the refresh left unresolved are remembered and their points' failures sent, the tables are empty, and a health report is due at once |
| `Worker.Republisher.ApplyRefresh` | crates/republish-core/src/worker/mod.rs:149-172 | Resolved devices leave the unresolved set and the backoff table, unresolved ones enter the set; the newly unresolved are exactly those that were not in it before |
| `Worker.Republisher.RecordUnresolvedFailures` | crates/republish-core/src/worker/mod.rs:174-208 | The failures of the enabled points of those devices go into the status table and out as one event, or nothing when there are none |
| `Worker.Republisher.RefreshIfDue` | crates/republish-core/src/worker/mod.rs:823-882 | Keepalive and re-resolution: at most one refresh an iteration, the keepalive going first and resetting both timers |
| `Worker.Republisher.PublishSamples` | crates/republish-core/src/worker/mod.rs:929-933 | Publishing a batch in the configured format adds the batch's outcomes to the status table and the counters |
| `Worker.Republisher.PollIfDue` | crates/republish-core/src/worker/mod.rs:884-948 | Polling: backoffs, last-poll times, failure count, status and publishing follow a poll that went through; a poll error changes none of them |
| `Worker.Republisher.CountStale` | crates/republish-core/src/worker/mod.rs:951 | The stale count is the number of identities whose status is stale, in whatever order they are visited |
| `Worker.Republisher.ReportIfDue` | crates/republish-core/src/worker/mod.rs:950-972 | A due health report carries the counters and resets them |
| `Worker.Republisher.Step` | crates/republish-core/src/worker/mod.rs:809-975 | One iteration of the loop, on the object's fields, is the scheduler's transition |
| `Worker.RunRepublisher` | crates/republish-core/src/worker/mod.rs:751-980 | The whole loop, for any length and any answers of adapter and broker: its state and its events are those of the transition system, and at every event the safety conditions hold |
| `History.RunSafe` | crates/republish-core/src/worker/mod.rs:809-975 | By induction over the run: every poll asks for exactly the points the events before it allow, every refresh is asked for in time and of the right devices, every health report is exact and in time, what a refresh or a poll calls for follows it at once, and the loop's state agrees with its event log |
| `History.IterateAgree` | crates/republish-core/src/worker/mod.rs:809-975 | One iteration keeps that agreement and that safety |
| `History.DueIsEligible` | crates/republish-core/src/worker/mod.rs:78-90 | The test on the loop's tables is the test on the log: enabled, not last reported unresolved, no backoff window open, interval passed |
| `History.DuePointsAreEligible` | crates/republish-core/src/worker/mod.rs:103-124 | The points chosen are exactly the eligible ones, in their configured order |
| `History.PolledBackoffAgree` | crates/republish-core/src/worker/backoff.rs:38-66 | After a poll, a device has an entry if and only if its current row of all-failed polls is not empty, with the delay of that row's length counted from its last poll |
| `History.PolledPollsAgree` | crates/republish-core/src/worker/mod.rs:906-908 | After a poll, the last-poll table holds for each identity the time it was last part of a poll |
| `History.PolledStatusAgree` | crates/republish-core/src/worker/mod.rs:912-928 | After a poll, every status is what the reads in the log say |
| `History.RefreshedAgree` | crates/republish-core/src/worker/mod.rs:149-172 | A refresh keeps tables and log in agreement: the latest verdict on a device decides |
| `History.SkipsAffected` | crates/republish-core/src/worker/mod.rs:174-208 | The points whose failures the loop sends are, in order and as often as configured, those the log says the refresh affects: enabled, on a device it calls unresolved that was not so before, or that it calls resolved as well |
| `History.PublishedMatches` | crates/republish-core/src/model.rs:288-294 | After a publish, every status holds the error of its identity's latest delivery |
| `History.StaleIdsAgree` | crates/republish-core/src/worker/mod.rs:951 | The stale identities are exactly those whose latest read is a failure |
| `History.SettledAgree` | crates/republish-core/src/model.rs:288-294 | Publish results change no read state |
| `Guarantees.PollsExactlyEligible` | crates/republish-core/src/worker/mod.rs:103-124 | In a safe log, a poll asks for a point if and only if it is configured and eligible at that moment |
| `Guarantees.PollsInOrder` | crates/republish-core/src/worker/mod.rs:103-124 | They are asked for as often as configured and in configured order |
| `Guarantees.IntervalsKept` | crates/republish-core/src/worker/mod.rs:117-121 | Over any run, a point is asked for no sooner than its interval after every earlier successful poll with a point of the same identity, whichever point that was |
| `Guarantees.UnresolvedNotPolled` | crates/republish-core/src/worker/mod.rs:84-89 | Over any run, no point of a device is asked for while the latest refresh verdict on it is "unresolved", and only enabled points are |
| `Guarantees.BackoffKept` | crates/republish-core/src/worker/backoff.rs:38-66 | Over any run, after the k-th poll in a row in which all reads of a device failed, its next poll comes no sooner than min(10 * 2^(k-1), max) seconds later, unless a refresh reports it resolved in between |
| `Guarantees.BackoffPersists` | crates/republish-core/src/worker/backoff.rs:38-66 | Events that neither poll the device nor resolve it leave its backoff as it was |
| `Guarantees.EveryIterationPolls` | crates/republish-core/src/worker/mod.rs:884-948 | Nothing eligible is skipped: every iteration asks for all points eligible after its refreshes, or sends no poll because there are none |
| `Guarantees.CountedOnce` | crates/republish-core/src/worker/mod.rs:912-972 | Over any run, what the health reports have counted plus the current counters is everything published, failed to be read in a poll, and failed to be published |
| `Guarantees.SnapshotsExact` | crates/republish-core/src/worker/mod.rs:950-972 | Each health report counts exactly what happened since the one before, and its stale count is the number of identities whose latest read is a failure |
| `Guarantees.StatusExact` | crates/republish-core/src/model.rs:273-295 | Over any run, a status exists for exactly the identities read so far; it is stale if and only if the latest read failed, holds that failure's error, counts the failures since the last sample, saturating at 32 bits, holds the latest sample's value and time, and the latest publish error |
| `Guarantees.UnresolvedReported` | crates/republish-core/src/worker/mod.rs:174-208 | Over any run, a refresh that makes devices of enabled points newly unresolved is followed at once by the failures of exactly those points, in configured order and as often as configured; any other refresh is followed by none |
| `Guarantees.SamplesPublished` | crates/republish-core/src/worker/mod.rs:921-941 | Over any run, the samples of a poll are published next, each exactly once and under its own topic: in their order, or as envelopes device by device with one answer each; a poll without samples is followed by no publish |
| `Guarantees.IntervalsPass` | crates/republish-core/src/worker/mod.rs:823-882 | In a safe log, from one refresh of all devices to the next the keepalive interval passes; from any refresh to one of the unresolved devices the re-resolution interval does, and exactly those that are unresolved are asked for; from one health report to the next the health interval does |
| `Guarantees.IterationsTimely` | crates/republish-core/src/worker/mod.rs:823-972 | Each comes in the first iteration that finds its interval passed: an iteration asks for all devices exactly then, for the unresolved ones exactly when there are some and theirs has passed, and ends with a health report exactly when that is due |
| `Guarantees.FirstIterationReports` | crates/republish-core/src/worker/mod.rs:797-799 | The first iteration already reports, once the clock has run for the health interval |
| `Model.SameIdentity` | crates/republish-core/src/model.rs:225-235 | Two points share an identity if and only if their addressing has the same fields with the same texts; labels play no part |
| `Model.DeviceGivenEitherWay` | crates/republish-core/src/worker/mod.rs:69-75 | A device number may be given as a JSON number or as its text |
| `Backoff.DeviceBackoffMax` | crates/republish-core/src/worker/mod.rs:126-136 | The configured limit, never below ten seconds |
| `Backoff.ConfiguredMax` | crates/republish-core/src/worker/mod.rs:126-136 | A number n, as JSON number or as text, gives max(n, 10) seconds; no number, or none at all, gives 300 |
| `Backoff.UpdateDeviceBackoffs` | crates/republish-core/src/worker/backoff.rs:18-68 | The loop, visiting the polled devices in any order, yields the table in which healthy devices have no entry, all-failed ones the doubled or first delay, all others what they had |
| `Backoff.UpdatedUnique` | crates/republish-core/src/worker/backoff.rs:38-66 | There is only one such table, so the order of visits cannot matter |
| `Backoff.DelayDoubles` | crates/republish-core/src/worker/backoff.rs:47-50 | Doubling and capping the delay of k failures gives the delay of k + 1 |
| `Backoff.DelayBounds` | crates/republish-core/src/worker/backoff.rs:47-50 | Every delay lies between ten seconds and the limit |
| `Publish.PublishScalar` | crates/republish-core/src/worker/mod.rs:254-283 | One publish call a sample: sample k meets answer k; statistics and statuses follow these deliveries |
| `Publish.GroupSamples` | crates/republish-core/src/worker/mod.rs:305-318 | Grouping by device id: the groups and the order in which their ids were first seen |
| `Publish.PublishEnvelopes` | crates/republish-core/src/worker/mod.rs:296-385 | One envelope a device, in first-seen order, each with its device's samples in batch order and their latest time; the deliveries go envelope by envelope, each sample meeting the answer to its own; statistics and statuses follow them |
| `Publish.LatestTime` | crates/republish-core/src/worker/mod.rs:322-326 | The time loop computes the envelope time |
| `Publish.SettleGroup` | crates/republish-core/src/worker/mod.rs:347-374 | All samples of an envelope share its answer |
| `Publish.OrderIsFirstMention` | crates/republish-core/src/worker/mod.rs:305-318 | The ids are exactly those mentioned, each once, ordered by where the batch first mentions them |
| `Publish.GroupMembers` | crates/republish-core/src/worker/mod.rs:305-318 | A group holds exactly the batch's samples of its device |
| `Publish.GroupPicks` | crates/republish-core/src/worker/mod.rs:305-318 | A group is the samples of its device, each once, in batch order |
| `Publish.EnvelopeOfGroup` | crates/republish-core/src/worker/mod.rs:320-339 | An envelope carries its device's samples in batch order and the largest of 0 and their times |
| `Publish.DeliveriesDelivered` | crates/republish-core/src/worker/mod.rs:243-385 | In the scalar format delivery k is sample k with answer k; as envelopes the deliveries list exactly the pairs of device rank and batch position, in lexicographic order, with the answer to the device's envelope |
| `Publish.GroupsPartition` | crates/republish-core/src/worker/mod.rs:305-318 | The groups together hold exactly the batch, each sample as often as it occurs |
| `Publish.EnvelopeTimeIsLatest` | crates/republish-core/src/worker/mod.rs:322-326 | An envelope's time is the largest of 0 and its samples' times |
| `Publish.EnvelopeDeliveriesGroups` | crates/republish-core/src/worker/mod.rs:320-375 | Each sample shares the answer to the envelope of its own device |
| `Publish.BatchConserved` | crates/republish-core/src/worker/mod.rs:243-385 | In either format and for any pattern of broker failures every sample meets exactly one fate: queued = published + failed = batch size |
| `Publish.CountsExact` | crates/republish-core/src/model.rs:208-218 | The failed count is the number of deliveries with an error, the published count that of the others |
| `Publish.SettleKeepsReads` | crates/republish-core/src/model.rs:288-294 | Publishing changes nothing of a status but its publish error |
| `Publish.SettleKeepsLatest` | crates/republish-core/src/model.rs:288-294 | A known identity keeps the error of its latest delivery |
| `Expansion.Expand` | crates/sim-core/src/config.rs:228-277 | Either the first faulty block's error, or the devices of all blocks in order, each with its id, number and template points, every instance one more than the points of its type emitted before |
| `Expansion.ExpandBlock` | crates/sim-core/src/config.rs:235-274 | One block appends its devices and keeps the numbering |
| `Expansion.ExpandDevice` | crates/sim-core/src/config.rs:255-266 | One device's points follow its template and take the next instances of their types |
| `Expansion.InstancesAreOneToK` | crates/sim-core/src/config.rs:232-266 | In emission order over all devices the instances of a type are exactly 1, 2, ..., k |
| `Expansion.InstancesAscend` | crates/sim-core/src/config.rs:232-266 | No two points written with one type share an instance |
| `Expansion.IdsDistinctExactly` | crates/sim-core/src/config.rs:249-252 | For every configuration of 32-bit values the device ids are pairwise distinct if and only if no two blocks meet on the circle of 32-bit ids |
| `Expansion.IdsPlaced` | crates/sim-core/src/config.rs:249-252 | Every device's id is the base plus its block's number times the block size plus its place in the block, modulo 2^32 |
| `Expansion.FittingBlocksApart` | crates/sim-core/src/config.rs:249-252 | They are distinct whenever all blocks together take no more than 2^32 ids, wherever the base puts them |
| `Expansion.MeetingBlocksCollide` | crates/sim-core/src/config.rs:249-252 | Blocks that meet share a device id |
| `Expansion.WrappedIdsCollide` | crates/sim-core/src/config.rs:249-252 | A valid configuration in which the first and the third block share an id |
| `Profiles.Tick` | crates/sim-core/src/simulation/profiles.rs:263-352 | A tick keeps a profile's specification and validity; a random walk stays within its bounds, a multi-state value is one of its states (1 when it has none) |
| `Profiles.CyclesRound` | crates/sim-core/src/simulation/profiles.rs:324-337 | A multi-state profile stays in each state the fewest ticks that reach its period and goes through its states in order, round and round |
| `Profiles.Integrates` | crates/sim-core/src/simulation/profiles.rs:302-310 | An integrator shows the sum over all ticks of its source's value times the tick, scaled |
| `Profiles.ClosesIn` | crates/sim-core/src/simulation/profiles.rs:288-301 | A controlled temperature without noise keeps the share 1 - gain * dt of its distance to the target |
| `Profiles.WalksByStep` | crates/sim-core/src/simulation/profiles.rs:311-320 | A random walk moves by no more than its step |
| `Profiles.RampsAcross` | crates/sim-core/src/simulation/profiles.rs:338-346 | A ramp's value is linear in the clock's place between two multiples of its period |
| `Profiles.StatelessValues` | crates/sim-core/src/simulation/profiles.rs:263-287 | Constants stay, a binary schedule is on exactly above its threshold, a sine adds its scaled wave, an occupancy-linked value lies within its noise of base plus scaled occupancy |
| `Profiles.StartsInRange` | crates/sim-core/src/simulation/profiles.rs:244-261 | The first value is one the profile can take: the base within the bounds, the first state, the initial temperature |
| `Profiles.StateFromSpecValid` | crates/sim-core/src/simulation/profiles.rs:161-242 | Initial states are valid if and only if a random walk has a positive step and ordered bounds |
| `Simulation.TickDevice` | crates/sim-core/src/simulation/models.rs:69-91 | The tick loop, in place: the points afterwards are those of the tick function |
| `Simulation.TickSees` | crates/sim-core/src/simulation/models.rs:69-91 | At point i a name stands for the new value of the last earlier point so named, else for the old value of the last point so named |
| `Simulation.TicksEachProfile` | crates/sim-core/src/simulation/models.rs:69-91 | A tick is, point by point, the tick of its profile in the building's state, with the sibling values the point sees; nothing else of a point changes |
| `Simulation.DerivedFollowsSource` | crates/sim-core/src/simulation/models.rs:69-91 | With distinct names a derived point has its source's new value when it stands behind it and the previous one when it stands before it |
| `Simulation.ProgressKeeps` | crates/sim-core/src/simulation/models.rs:69-91 | A tick changes no address and keeps all profiles valid |
| `Simulation.ValuesStayInRange` | crates/sim-core/src/simulation/profiles.rs:311-337 | After any number of ticks random walks are within their bounds and multi-state values among their states |
| `Simulation.CanonicalIdempotent` | crates/sim-core/src/simulation/models.rs:30 | Trimming and lower-casing an object type twice is doing it once |
| `Simulation.KeptInOrder` | crates/sim-core/src/simulation/models.rs:56-62 | The points of known type are kept, each once and in order, with the name, instance, canonical type, kind, profile and first value of their specification |
| `Simulation.BuildEach` | crates/sim-core/src/simulation/mod.rs:19-24 | Each device is built under its id with its points |
| `Addressing.AddressableExactly` | crates/sim-core/src/config.rs:228-277 | For every expandable configuration: all points are uniquely addressable if and only if no two blocks meet and no known object type is written in two ways |
| `Addressing.OneSpellingUnique` | crates/sim-core/src/config.rs:232-266 | One spelling a type makes (type, instance) unique over all devices |
| `Addressing.TwoSpellingsClash` | crates/sim-core/src/config.rs:256-259 | Two spellings of one type always give two points the same address |
| `Addressing.NeutralFindsEach` | crates/sim-core/src/simulation/mod.rs:42-51 | In an addressable simulation every point is the one found under its device, type and instance |
| `Addressing.DeviceAnswers` | crates/proto-bacnet/src/sim/registry.rs:36-40 | The registry entry that answers for a point's address is that of its device, and of no other |
| `Addressing.BacnetReadsEach` | crates/proto-bacnet/src/sim/properties.rs:76-104 | A BACnet read that scans all devices for type and instance reaches that very point: real and unsigned values as they are, the state of a binary object as the enumeration 0 or 1, its name and its object identifier |
| `Addressing.BacnetRefusesOthers` | crates/proto-bacnet/src/sim/properties.rs:76-104 | A read of an address no point has is refused |
| `Addressing.ObjectListWalk` | crates/proto-bacnet/src/sim/registry.rs:24-40 | Reading a device's object list at 0 gives its length; reading 1 to the length names each of its points exactly once, by an address that reads back its value; beyond there is nothing |
| `Addressing.ListReads` | crates/proto-bacnet/src/sim/properties.rs:112-143 | What the object list property answers at each index |
| `Addressing.TicksKeepAddresses` | crates/sim-core/src/simulation/mod.rs:30-40 | Whatever could be addressed before any ticks can be addressed after them |
| `Addressing.FirstOfTwoFound` | crates/sim-core/src/simulation/models.rs:94-100 | Of two points of one address every lookup finds the first |
| `Addressing.SecondSpellingShadowed` | crates/sim-core/src/simulation/models.rs:23-37 | A template with two spellings of one type: the second point cannot be read |
| `Registry.SortSorts` | crates/proto-bacnet/src/sim/registry.rs:43-70 | The object list is a rearrangement of the points, ordered by type number and instance |
| `ModbusImage.BuildModbusMap` | crates/proto-modbus/src/sim/map.rs:103-140 | The nested loops build the layout: two registers an analog point, one a multi-state point, one bit a binary point |
| `ModbusImage.RegistersTile` | crates/proto-modbus/src/sim/map.rs:103-140 | Register ranges follow each other without gap from 0 to the end of the image |
| `ModbusImage.BitsTile` | crates/proto-modbus/src/sim/map.rs:103-140 | So do the bits |
| `ModbusImage.RegistersDisjoint` | crates/proto-modbus/src/sim/map.rs:103-140 | A later point's registers start no sooner than an earlier one's end |
| `ModbusImage.BitsDisjoint` | crates/proto-modbus/src/sim/map.rs:103-140 | So do its bits |
| `ModbusImage.CellsInPlace` | crates/proto-modbus/src/sim/map.rs:103-140 | Each point's cells stand at its place in the image |
| `ModbusImage.ReadsCompose` | crates/proto-modbus/src/sim/map.rs:47-58 | Reads of adjacent ranges add up to one read of both, which fails exactly when it exceeds the image (section 6.3 of the MODBUS Application Protocol V1.1b3) |
| `ModbusImage.BitReadsCompose` | crates/proto-modbus/src/sim/map.rs:61-76 | So do reads of bits |
| `ModbusImage.WordsRoundTrip` | crates/proto-modbus/src/sim/map.rs:92-100 | Splitting a 32-bit pattern into its words and combining them gives it back |
| `ModbusImage.CombinedIs` | crates/proto-modbus/src/republish/mod.rs:456-462 | Combining words is a * 2^16 + b, in the order the word order names |
| `ModbusImage.WordOrdersAgree` | crates/proto-modbus/src/republish/mod.rs:454-480 | Swapped words decoded as little-endian are the words decoded as big-endian, for every two-word type |
| `ModbusImage.SingleWordDecodes` | crates/proto-modbus/src/republish/mod.rs:454-480 | u16 is the word, i16 the number of the signed range that is the word or 2^16 less |
| `ModbusImage.TwoWordsDecode` | crates/proto-modbus/src/republish/mod.rs:454-480 | u32 is a * 2^16 + b in either word order, i32 the number of the signed range that is this or 2^32 less |
| `ModbusImage.DecodeRefuses` | crates/proto-modbus/src/republish/mod.rs:454-480 | A missing second register reads as zero; no register, and any other type name, is an error |
| `ModbusImage.AnalogRoundTrip` | crates/proto-modbus/src/sim/map.rs:78-100 | Reading an analog point's registers and decoding them as a big-endian float gives back the exact 32 bits of its value, those of the real number when it is one |
| `ModbusImage.MultiStateRoundTrip` | crates/proto-modbus/src/sim/map.rs:78-90 | A multi-state point's register decodes to min(v, 65535) |
| `ModbusImage.RoundsToNearest` | crates/proto-modbus/src/sim/map.rs:78-90 | The 16-bit word of any value is the integer nearest it, ties upward, within 0 to 65535 |
| `ModbusImage.BinaryRoundTrip` | crates/proto-modbus/src/sim/map.rs:61-76 | A binary point's bit gives back its state: the boolean, or whether the number is not zero |
| `ModbusImage.ClientReadsAnalog` | crates/proto-modbus/src/republish/mod.rs:409-452 | A client configured with an analog point's address, below 65536, reads its value from end to end |
| `Import.MergeImportedPoints` | crates/republish-core/src/import.rs:14-55 | The merge loop with its index: points, added and updated counts are those of merging one by one with a search for the last point of an identity |
| `Import.CountsExact` | crates/republish-core/src/import.rs:24-48 | The added count is the number of imported points that were appended, the updated count the number of those that changed a point |
| `Import.IndexAppend` | crates/republish-core/src/import.rs:43-47 | Appending a point keeps the index in agreement with the search |
| `Import.IndexOverlay` | crates/republish-core/src/import.rs:27-42 | So does relabelling one |
| `Import.MergeKeepsExisting` | crates/republish-core/src/import.rs:26-48 | Existing points keep position, addressing, enabled flag and interval; the length grows by exactly the added count |
| `Import.MergeUnitesIdentities` | crates/republish-core/src/model.rs:225-235 | The identities afterwards are the union of both |
| `Import.MergeKeepsUnique` | crates/republish-core/src/import.rs:26-48 | Points without duplicates stay so |
| `Import.MergeAt` | crates/republish-core/src/import.rs:28-40 | The last point of an identity ends up with the last non-blank labels imported for it; the others do not change |
| `Import.MergedLabels` | crates/republish-core/src/import.rs:26-48 | So does the point of an identity that the merge itself added |
| `Import.MergeAgain` | crates/republish-core/src/import.rs:14-55 | Merging the same import again changes no point and adds none |
| `Import.SecondMergeUpdates` | crates/republish-core/src/import.rs:28-40 | The second merge reports no update if and only if the import names no two different labels for one identity |
| `Import.SecondMergeCanUpdate` | crates/republish-core/src/import.rs:28-40 | An import whose second merge does report updates |
| `BacnetPoll.ReadGroupRpm` | crates/proto-bacnet/src/republish/mod.rs:768-814 | The multiple read of a device's group: nested loops over its answers with early exits |
| `BacnetPoll.ReadGroupIndividual` | crates/proto-bacnet/src/republish/mod.rs:816-842 | The fallback, one read a request, in order; its outcome is the one described below |
| `BacnetPoll.SinglesReadEachTheirOwn` | crates/proto-bacnet/src/republish/mod.rs:816-842 | Request k is reported once, as a sample with the value its own read decodes to or as a failure with its own read's error, both lists in request order |
| `BacnetPoll.DecodedReadsAnswers` | crates/proto-bacnet/src/republish/mod.rs:787-805 | The multiple read gives one sample for each answer that carries a value for a key of the group, in the order of the answers, with the value it decodes to and the point of that key |
| `BacnetPoll.GroupByDevice` | crates/proto-bacnet/src/republish/mod.rs:710-723 | The grouping loop: each device's requests in the order of its points, and a failure for each point no request can be made of |
| `BacnetPoll.GroupInOrder` | crates/proto-bacnet/src/republish/mod.rs:710-723 | A group asks for the points of its device, each as often as it is there, in their order |
| `BacnetPoll.BrowsedPointReadsItsObject` | crates/proto-bacnet/src/republish/mod.rs:683-703 | Polling a point with the addressing the browse gave it (lines 622-625) reads the present value of the very object it was browsed from |
| `BacnetPoll.DefaultsApply` | crates/proto-bacnet/src/republish/mod.rs:683-703 | Left out, the instance is 0 and the property the present value |
| `BacnetPoll.PollWithClient` | crates/proto-bacnet/src/republish/mod.rs:705-757 | The whole poll, completing the groups in any order: its outcome is that of some order of the devices, reports every point at least as often as asked and no other point, every sample with the value its own key or its own read was answered with, every failure with its own reason |
| `BacnetPoll.RpmSucceedsExactly` | crates/proto-bacnet/src/republish/mod.rs:768-814 | The multiple read succeeds if and only if the device answers, all (object, property) keys of the group are distinct, every key is answered with a value and every such value decodes; duplicates therefore always fall back |
| `BacnetPoll.SeenExactly` | crates/proto-bacnet/src/republish/mod.rs:787-805 | A request is seen if and only if its key is answered and no earlier request has it |
| `BacnetPoll.AllSeenExactly` | crates/proto-bacnet/src/republish/mod.rs:806-812 | Counting: as many are seen as were asked if and only if the keys are distinct and all answered |
| `BacnetPoll.MultipleReportsAll` | crates/proto-bacnet/src/republish/mod.rs:786-813 | A successful multiple read reports every request and nothing else |
| `BacnetPoll.MultipleReportsOnceExactly` | crates/proto-bacnet/src/republish/mod.rs:786-813 | It reports each exactly once if and only if the device gives each key one value |
| `BacnetPoll.SinglesReportEachOnce` | crates/proto-bacnet/src/republish/mod.rs:816-842 | The fallback reports every request exactly once |
| `BacnetPoll.PointsPartition` | crates/proto-bacnet/src/republish/mod.rs:710-723 | Every point is either malformed or in the group of its device, once |
| `BacnetPoll.PollReportsEveryPoint` | crates/proto-bacnet/src/republish/mod.rs:705-757 | Whatever the devices answer and in whatever order groups complete, every point is reported at least as often as asked, and no other point is |
| `BacnetPoll.PollReportsTheirOwn` | crates/proto-bacnet/src/republish/mod.rs:705-757 | Where a device's multiple read works its points' samples carry what their own keys were answered with, where it does not what their own reads gave; failures carry their own read's error, or why no request could be made |
| `BacnetValue.DecodeUnsigned` | crates/proto-bacnet/src/republish/value.rs:99-106 | The shift loop computes the payload's big-endian value modulo 2^64; every byte string gives a value or an error |
| `BacnetValue.DecodeSigned` | crates/proto-bacnet/src/republish/value.rs:108-119 | The shift loop, started at -1 or 0, computes the two's-complement value wrapped into 64 bits |
| `BacnetValue.ShiftInIs` | crates/proto-bacnet/src/republish/value.rs:102-104 | Shifting by a byte and filling in the next is 256 v + b modulo 2^64 |
| `BacnetValue.UpToEightBytesExact` | crates/proto-bacnet/src/republish/value.rs:99-119 | For 1 to 8 bytes both values are exact |
| `BacnetValue.UnsignedRoundTrip` | crates/proto-bacnet/src/republish/value.rs:99-106 | Decoding inverts every encoding of section 20.2.4 of ANSI/ASHRAE 135 in up to 8 bytes |
| `BacnetValue.SignedRoundTrip` | crates/proto-bacnet/src/republish/value.rs:108-119 | Decoding inverts every encoding of section 20.2.5 in up to 8 bytes |
| `BacnetValue.ObjectIdSplits` | crates/proto-bacnet/src/republish/value.rs:157-166 | The shifts and masks split an object identifier into its 10 and 22 bits (section 20.2.14) |
| `BacnetValue.PayloadFound` | crates/proto-bacnet/src/republish/value.rs:168-188 | Behind a header of a length up to 253 the payload is found again, whatever follows it |
| `BacnetValue.PrefixRefused` | crates/proto-bacnet/src/republish/value.rs:168-188 | Cut short anywhere it is refused as truncated, or as empty |
| `BacnetValue.OtherTagsRefused` | crates/proto-bacnet/src/republish/value.rs:28-50 | Tags without a decoding are refused by their number |
| `BacnetValue.ScalarRoundTrip` | crates/proto-bacnet/src/republish/value.rs:28-50 | For every encodable value, decoding its encoding gives it back, whatever follows |
| `Refresh.RefreshDeviceTable` | crates/proto-bacnet/src/republish/refresh.rs:20-46 | At most two targeted passes, each asking for the ranges of what was still missing; the outcome reports the final table |
| `Refresh.Partition` | crates/proto-bacnet/src/republish/refresh.rs:72-87 | The loop splits the request by membership, keeping its order |
| `Refresh.PartitionReports` | crates/proto-bacnet/src/republish/refresh.rs:72-87 | Resolved and unresolved are ascending, disjoint, and together the normalised request |
| `Refresh.NormalizeIsSet` | crates/proto-bacnet/src/republish/refresh.rs:58-63 | Sorting and removing neighbours that are equal gives the requested devices in ascending order, each once |
| `Refresh.RangesCover` | crates/proto-bacnet/src/republish/refresh.rs:65-70 | There are ceil(n / 25) ranges, ascending and disjoint, their ends are requested devices, and every requested device lies in exactly one |
| `Refresh.EveryDeviceReported` | crates/republish-core/src/worker/mod.rs:138-147 | A refresh of the worker's devices reports exactly the devices enabled points use |
| `Cidr.ExpandCidr` | crates/proto-modbus/src/republish/scan.rs:40-59 | The offset loop lists the first min(max(cap, 1), block size) addresses of the block holding the base, or the right error |
| `Cidr.NetworkIsBlockStart` | crates/proto-modbus/src/republish/scan.rs:48-53 | Masking the base gives the first address of its block, for every prefix from 0 to 32 |
| `Cidr.OffsetStaysInBlock` | crates/proto-modbus/src/republish/scan.rs:53-57 | Adding an offset never wraps around |
| `Cidr.HostsSharePrefix` | crates/proto-modbus/src/republish/scan.rs:40-59 | All listed addresses share the base's prefix (section 3.1 of RFC 4632) and ascend strictly |
| `Cidr.UncappedCoversBlock` | crates/proto-modbus/src/republish/scan.rs:40-59 | Without a cap exactly the block is listed, except that of the whole space the last address is missing |
| `Topic.SanitizeSegment` | crates/republish-core/src/topic.rs:92-107 | The rewriting loop terminates and equals collapsing every run of underscores in one pass |
| `Topic.ReplaceCollapses` | crates/republish-core/src/topic.rs:103-105 | A rewriting pass does not change what the runs collapse to |
| `Topic.SanitizedClean` | crates/republish-core/src/topic.rs:92-107 | A segment has no separator, no control character, no double underscore and no underscore at an edge |
| `Topic.IdempotentExactly` | crates/republish-core/src/topic.rs:92-107 | Sanitising twice is sanitising once if and only if neither the first nor the last surviving character of the trimmed value is whitespace |
| `Topic.AsciiIdempotent` | crates/republish-core/src/topic.rs:92-107 | On ASCII it always is |
| `Topic.NotIdempotentOnAll` | crates/republish-core/src/topic.rs:92-107 | On a no-break space between underscores it is not |
| `Topic.CleanStays` | crates/republish-core/src/topic.rs:92-107 | A clean segment without whitespace at its edges is left alone |
| `Topic.SeparatorBecomesUnderscore` | crates/republish-core/src/topic.rs:92-107 | Between two such segments a separator becomes one underscore |
| `Topic.TelemetryLevels` | crates/republish-core/src/topic.rs:23-30 | A telemetry topic is the levels of the normalised prefix, then those of the tag path: of each the ones that are not blank, sanitised, in order |
| `Topic.DoneTopic` | crates/republish-core/src/topic.rs:23-30 | For a prefix and a tag path of finished levels the topic is the prefix, a slash, and the tag path |
| `Topic.SplitJoins` | crates/republish-core/src/topic.rs:82-90 | The levels are what stands between the slashes: joined they give the text, and none holds a slash |
| `Topic.NormalizedLevels` | crates/republish-core/src/topic.rs:70-80 | Normalising takes the number signs off the end, then the slashes off both ends, and keeps the levels of the rest that are not blank, sanitised, in order |
| `Topic.DonePrefixStays` | crates/republish-core/src/topic.rs:70-80 | A prefix of finished levels is normal, and written as a subscription it normalises to itself |
| `Topic.TelemetryNeverWild` | crates/republish-core/src/topic.rs:23-30 | Any telemetry topic is a sequence of clean levels, so validation rejects it only when it is blank |
| `Topic.EnvelopeValidExactly` | crates/republish-core/src/topic.rs:33-36 | An envelope topic is valid if and only if its prefix holds no wildcard, whatever the device id |
| `Topic.DoneEnvelope` | crates/republish-core/src/topic.rs:33-36 | An envelope topic is the prefix, but for a slash at its end, then the device id and the word telemetry |
| `Topic.OneSampleChecksAll` | crates/republish-core/src/config.rs:253-260 | Validating the topic of one sample id validates those of all ids |
| `Mqtt.Link.RecordConnack` | crates/republish-core/src/mqtt.rs:116-127 | A CONNACK decides connected, fatal and the last error |
| `Mqtt.Link.RecordError` | crates/republish-core/src/mqtt.rs:142-149 | An error takes the link down and counts a reconnect only if it was up |
| `Mqtt.Link.NextDelay` | crates/republish-core/src/mqtt.rs:69-73 | The delay to wait now, and the next one, doubled up to 30 s |
| `Mqtt.Link.ApplyPoll` | crates/republish-core/src/mqtt.rs:178-201 | One polled event changes the link as the transition function says |
| `Mqtt.Drive` | crates/republish-core/src/mqtt.rs:178-201 | Any sequence of events does |
| `Mqtt.LinkStateExact` | crates/republish-core/src/mqtt.rs:114-149 | Connected if and only if the latest CONNACK or error is a successful CONNACK; fatal if and only if the latest CONNACK is a refusal; the last error is that of the latest such event (codes of section 3.2.2.3 of MQTT 3.1.1) |
| `Mqtt.ConnectedIsClean` | crates/republish-core/src/mqtt.rs:114-149 | A connected link is not fatal and shows no error |
| `Mqtt.CountersExact` | crates/republish-core/src/mqtt.rs:138-149 | Acknowledged equals the PUBACKs seen; reconnects are the errors that arrived while connected and never exceed the accepted connections |
| `Mqtt.DelayExact` | crates/republish-core/src/mqtt.rs:68-78 | The k-th error since a CONNACK waits min(2^(k-1), 30) seconds |
| `Mqtt.FatalErrorExact` | crates/republish-core/src/mqtt.rs:306-312 | What a refused link reports: the refusal if no error came since, else that error's text |
| `Mqtt.RefusalForgotten` | crates/republish-core/src/mqtt.rs:349-359 | A history after which a refused link reports a transport error as its fatal reason |

## Left out

- GUI, TUI, rendering, forms, log lines and the texts of log messages.
- Sockets, TLS, async runtimes, thread start-up and shutdown, stop flags: the adapter, the broker, the devices and the server are arbitrary functions or sequences of answers.
- TOML, YAML and JSON text, SHA-256, UUIDs, environment variables, files, presets, config migration, request metrics, capability tables.
- Discovery, browse previews, unit alignment and the batched reads that follow the OPC UA walk.
- Backoff.UpdateDeviceBackoffs: returns the new table instead of changing it in place, and not the log messages; the worker assigns it to its field.
- Profiles.Tick: floating-point numbers are reals and a profile's update is a function from old to new state, so rounding, overflow and NaN are not captured; the sine wave is a parameter and each random draw an arbitrary number of [0, 1).
- ModbusImage.AnalogRoundTrip: 32-bit floats are opaque bit patterns given by a parameter; what number a pattern means, and the scale factor applied afterwards, are not modelled.
- ModbusImage.BuildModbusMap: text points do not occur, since no object type yields them.
- BacnetValue.ScalarRoundTrip: lengths of 254 and more, bit strings, dates and times are not decoded by the code and not modelled; which bytes are UTF-8 is a parameter; values are compared before they are rendered as numbers or text.
- BacnetPoll.PollReportsEveryPoint: names of object types and properties, the validity of object identifiers and the rendering of values are parameters; warnings and the error texts inside them are not kept; the points are those the caller filtered as enabled.
- Browse.BrowseChildren: a server that hands out continuation points without end keeps the code in its loop for ever; the model requires that some reply ends it.
- Browse.BrowseVariables: names of references are given; the addressing and display fields of a point are reduced to its node and tag path.
- Worker.Republisher.Step: the last error, the reconnect and acknowledge totals and the once-only warning about a refused connection in the health report are not modelled, nor are the lists of newly resolved devices, which are only logged; consecutive readings of the clock around one assignment are one reading; the counters are unbounded.
- Publish.PublishEnvelopes: the rendering of point names and values, the topics and the JSON of the envelope are not modelled; the device id of a point is a parameter.
- Model.Identity: a point identity is a map, not a sorted list of pairs; two of them are equal in the same cases.
- Expansion.Expand: device names are a prefix and a number, not their formatted text; instance counters are unbounded, which differs only beyond 2^32 points of one type.
- Registry.SortSorts: the object name, vendor constants, engineering units and the remaining device properties are not modelled; sorting is insertion, which is stable like the library's.
- Refresh.RefreshDeviceTable: the waits between passes and the client's broadcast are not modelled; the client's table after each pass is arbitrary.
- Cidr.ExpandCidr: parsing of addresses and host names; the base is a number or absent.
- Topic.TelemetryNeverWild: the default tag path of a point without one is a parameter, so the statement holds for it as for any text.
- Topic.OneSampleChecksAll: the other checks of the configuration, on hosts, ports, certificates and intervals.
- Mqtt.ApplyPoll: the atomics and the lock are plain fields of one thread; the event loop of the MQTT library delivers arbitrary events.
