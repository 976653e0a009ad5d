# ovnflow: verified models of its stateful cores

ovnflow is a Go SDK for OVN and Open vSwitch. This project models five of its parts in
Dafny and proves what they promise, for every input, run or reachable state:

- **Watch engine** (`WatchStream`, `WatchRuns`, `WatchPoller`, `WatchReplay`,
  `WatchEvents`, `WatchManager`): a poller diffs table snapshots into events; each
  subscription has an initial-snapshot barrier, a pending list, baseline de-duplication and
  a bounded queue whose overflow closes the stream; a manager keeps one poller per table.
  Interleavings are step systems over the methods' specification functions.
- **OVSDB layer** (`Ovsdb`, `Resend`, `ResendUpdate`, `ReferenceCleanup`, `ReferenceDelete`,
  `BridgeMappings`, `MappingOwnership`, `MappingSwap`, `PlainMappings`, `ServiceVips`,
  `ServiceVipSpelling`): resending transactions, deleting rows with reference clean-up, the
  packed bridge-mapping text and its per-network owners under compare-and-swap, and
  load-balancer VIPs. All of it is stated over one abstract database that follows sections
  5.1 and 5.2 of RFC 7047.
- **IPv4 address pools** (`IpamRanges`, `IpamPool`, `IpamAllocator`, `IpamLaws`): a fast count
  that equals a per-address predicate, with every 32- and 64-bit step written out, and an
  allocator over whole runs, restated on the addresses the caller configured.
- **OpenFlow codec** (`Bytes`, `OpenFlowFraming`, `OpenFlowMasks`, `OpenFlowOxm`,
  `OpenFlowRecords`, `OpenFlowMatch`, `OpenFlowFlowMod`, `OpenFlowWire`,
  `OpenFlowMatchWire`): framing, match round trip, exact length fields, and which number
  stands at which byte (sections 7.1, 7.2.3 to 7.2.5 and 7.3.4.1 of the OpenFlow Switch
  Specification 1.3).
- **SD-WAN planner** (`Sdwan`, `SdwanNormalise`, `SdwanReconcile`, `SdwanTopology`,
  `SdwanLinks`, `SdwanPaths`): validation, topology expansion, normalisation, reconcile, and
  the routes of the Linux backend.

`Text` holds what is used of Go's `strings` and `sort`; `Options` holds the option type.
Code that updates state is a class or a method with a loop whose postcondition ties it to a
specification function; the theorems are lemmas about those functions, and the main functions
are also characterised on plain fields, bytes and addresses. Check everything with
`dafny verify dfyconfig.toml`.

## Where the code and the expectation differ

The model follows the code. These properties fail in general. Each line names a lemma that
shows the failure and, except where it says otherwise, the lemma with the exact condition.

- A row that only the initial select of a watch saw stays with the consumer (`GhostRowStays`);
  with conditions, so does a row that no longer matches when the seeding poll sees it
  (`UnmatchedRowStays`). Exactly when: `ReplayConvergesExactly`, `FilteredReplayIsExact`.
- A subscription that joins a running poller gets no baseline events
  (`LateSubscriberCanStayWrong`). Exactly when it still converges: `LateReplayIsExact`.
- A full dispatch channel drops events and leaves the stream open (`DroppedEventStays`).
  Exactly when the consumer recovers: `LossyReplayIsExact`.
- `startPoller` can run after the last subscription of its table has gone and then leaves a
  poller behind (`PollerCanLeak`). Exactly when: `LeakExactly`.
- `canRetryTransaction` looks only for inserts. The update transaction may write columns it
  selects by and is harmless all the same when resent (`UpdateResendIsHarmless`), but chains
  of map deletes given as key and value are not (`PairDeletesAreNotHarmless`). Exactly when:
  `UpdateResendExactly`. For arbitrary lists of operations `ResendIsHarmless` gives a
  sufficient condition only; `UnstableSelectionIsNotHarmless` shows what it excludes, with
  two operations that no caller in the repository combines.
- Names with surrounding blanks pass provider-network validation but cannot be stored in the
  mapping text (`BlankNameIsLost`). Exactly when: `EnsureStoresMappingExactly`.
- `DeleteBridgeMapping` does not look at owner markers and can leave a marker without a
  mapping (`DeleteStrandsMarker`). Exactly when: `PlainKeepsMarkedExactly`.
- A VIP desired in another spelling than the canonical one is found different for ever
  (`OtherSpellingNeverSettles`). Exactly when: `VipsConverge`.
- Two pairs of SD-WAN sites can share a canonical link name, and the second then gets no link
  (`ClashLeavesPairUnlinked`). Exactly when: `CoverageExact`.
- With links to two relaying sites, automatic mode routes a prefix over both
  (`TwoRelaysBothCarry`). Exactly when: `CarriesExactly`.

Besides, `PlanIPAllocation` overwrites the error of `nextAvailable` before looking at it, so
its `Next` means something only when an address is available.

## Model

| member | source | states |
|---|---|---|
| `WatchStream.Subscription.OfferLocked` | watch.go:329-351 | an offer to a subscription does what `Offer` says: held back before the barrier, filtered, de-duplicated, sent or overflowed |
| `WatchStream.Subscription.SendLocked` | watch.go:353-361 | appends to the queue when there is room, otherwise reports the overflow and closes |
| `WatchStream.Subscription.FinishInitialLocked` | watch.go:363-388 | initial rows first, then the pending events normalised against them, stopping at the first overflow |
| `WatchStream.Subscription.ReportOverflow` | watch.go:421-427 | leaves an error and closes the stream, counting the close of the done channel |
| `WatchStream.Subscription.CancelLocked` | watch.go:444-451 | closes the subscription unless it is closed |
| `WatchStream.Subscription.CloseLocked` | watch.go:453-457 | closes the done channel whether or not that has happened before |
| `WatchRuns.DoneIsClosedOnce` | watch.go:329-457 | over every interleaving of offers, both loops of the barrier, cancels and the forwarder, the done channel is closed once if the subscription is closed and otherwise not at all |
| `WatchRuns.NextKeepsInv` | watch.go:323-457 | every step (offer, finish, error, cancel, forward, deliver, stop) keeps the stream invariant |
| `WatchRuns.FinishSends` | watch.go:363-388 | what the barrier puts on the queue is a prefix of initial rows followed by normalised pending events, all of it if the stream stays open |
| `WatchRuns.FinishOverflowsExactly` | watch.go:363-388 | the barrier closes an open subscription exactly when initial rows and passed-on pending events do not fit the queue together |
| `WatchRuns.EndsExactly` | watch.go:323-457 | an open subscription ends by a cancel, a forwarder whose context is done, or an event that does not fit, and by nothing else |
| `WatchRuns.StreamHasNoGaps` | watch.go:323-457 | in every interleaving the delivered events are a prefix of the lossless stream, an open stream lost nothing, and an overflow closed it with an error |
| `WatchPoller.Poller.Poll` | watch.go:261-307 | one poll emits the upserts of its rows and a delete for each vanished row, and remembers the snapshot |
| `WatchPoller.EmitUpserts` | watch.go:271-287 | add for a new row, update for a changed one, nothing for an equal one, baseline adds while seeding |
| `WatchPoller.EmitDeletes` | watch.go:288-294 | exactly one delete per row that is gone, in any order |
| `WatchReplay.PollAt` | watch.go:261-307 | for a consumer in any state and any conditions, one later poll changes a key exactly when the row changed and either side matches, and then to the new row |
| `WatchReplay.ReplayFromExactly` | watch.go:261-307 | from any state of consumer and poller, the matching rows end up as in the last poll if and only if no key stays wrong unnoticed |
| `WatchReplay.WatchReplayIsExact` | watch.go:261-419 | replaying what an unfiltered, undropped subscription delivered gives the last poll on every row any poll saw, plus exactly the initial rows no poll saw |
| `WatchReplay.ReplayConvergesExactly` | watch.go:309-321 | so the consumer holds the polled table if and only if every initial row was seen by some poll |
| `WatchReplay.GhostRowStays` | watch.go:309-321 | a row deleted before the seeding poll stays |
| `WatchReplay.FilteredReplayAt` | watch.go:329-408 | with conditions, under every key: the last poll's matching row once a poll showed a matching one, before that the initial row |
| `WatchReplay.FilteredReplayIsExact` | watch.go:329-408 | so a filtered consumer holds the matching rows of the last poll if and only if every initial row was shown matching by some poll |
| `WatchReplay.UnmatchedRowStays` | watch.go:329-351 | a row that stops matching before the seeding poll stays, because the filter comes first |
| `WatchReplay.LateReplayIsExact` | watch.go:248-259 | a subscription that joins a running poller converges if and only if its initial select agrees with what the poller had seen under every key of which later polls tell it nothing |
| `WatchReplay.LateSubscriberCanStayWrong` | watch.go:248-259 | which can fail |
| `WatchReplay.DroppedEventStays` | watch.go:162-169 | a row whose only event was dropped stays missing until it changes |
| `WatchReplay.LossyReplayIsExact` | watch.go:162-169 | after the last event that the dispatch channel dropped, the consumer recovers if and only if no key stays wrong |
| `WatchEvents.SeedTells` | watch.go:390-419 | under every key the seeding poll gives a matching row once: nothing when the initial select showed it as it is, an update when it showed another, an add when it showed none |
| `WatchEvents.PollTells` | watch.go:261-307 | a later poll gives exactly the one event, with its rows before and after, that describes the change, if either side matches |
| `WatchEvents.SubscriberIsTold` | watch.go:261-457 | in every interleaving the events delivered under a key are a beginning of its story (initial row, then one event per change that is shown), and all of it once the queue is drained |
| `WatchEvents.UnchangedToldOnce` | watch.go:390-419 | a row that the initial select and every poll show alike is delivered exactly once |
| `WatchManager.Manager.RegisterLocked` | watch.go:125-154 | a fresh id is registered under its table |
| `WatchManager.Manager.StartPollerLocked` | watch.go:248-259 | a poller with a fresh stop channel is started when the table has none |
| `WatchManager.Manager.RemoveLocked` | watch.go:231-246 | the subscription is unregistered; the last one of a table takes the poller with it, one close for its entry |
| `WatchManager.RegisterExact` | watch.go:125-154 | registering lists one more subscription and changes no other entry and no poller |
| `WatchManager.RemoveExact` | watch.go:231-246 | removing unlists that subscription only; its poller goes exactly when no other is listed there, and no other poller does |
| `WatchManager.Manager.CloseLocked` | watch.go:182-205 | everything registered is handed back for cancelling and a stop channel is closed for every entry |
| `WatchManager.CallCloses` | watch.go:329-457 | an offer, the barrier or a cancel closes an open subscription at most once and never a closed one |
| `WatchManager.NextKeepsInv` | watch.go:125-259 | every step of the lifecycle keeps the manager's invariant |
| `WatchManager.OpenIsServed` | watch.go:125-259 | over all runs, until the manager is closed every subscription whose stream is open is listed, and once started its table has a live poller, whatever the others do |
| `WatchManager.ClosingRunsItsCourse` | watch.go:329-457 | a call that closes a subscription leads to its being forgotten and its done channel closed once, without touching any other |
| `WatchManager.LifecycleIsSafe` | watch.go:125-457 | over every interleaving of subscribe, offers, the barrier, overflow, cancel and close, no done channel is closed twice, no stop channel is closed twice for any entry or at any time, and a registered subscription whose startPoller has run has a live poller |
| `WatchManager.LeakExactly` | watch.go:231-259 | a step leaves a poller without subscriptions exactly when it is a startPoller after the table's last subscription went |
| `WatchManager.PollerCanLeak` | watch.go:125-154 | and there is a run in which that happens |
| `Resend.EditsIdempotent` | fluent.go:613-626 | any sequence of assignments, insertions and deletions by key on one cell is idempotent, and so is one with pair deletes that are repeatable in the finitely many cases they name |
| `Resend.CanRetryTransaction` | fluent.go:613-626 | the loop says yes exactly for a non-empty list without inserts that is not a create |
| `Resend.RetryExactly` | fluent.go:613-626 | an empty list is never resent, one operation is unless it inserts, and a list is when both its parts are |
| `Resend.ResendIsHarmless` | fluent.go:575-626 | a resendable transaction with stable selection and key deletes leaves the same database applied twice as applied once, aborts included |
| `Resend.UuidSelectionIsStable` | fluent.go:613-626 | selecting rows by UUID is stable |
| `ResendUpdate.UpdateResendIsHarmless` | fluent.go:472-507 | every update transaction without pair deletes can be resent, whatever conditions it has, also on columns it writes |
| `ResendUpdate.UpdateIsRetried` | fluent.go:472-507 | an update is resent exactly when it has a mutation or writes a column besides the identity columns |
| `ResendUpdate.ResendableIsHarmless` | fluent.go:472-507 | the same for pair deletes that are repeatable column by column |
| `ResendUpdate.UpdateResendExactly` | fluent.go:472-507 | and for a satisfiable selection by other columns or UUID it is harmless on every database if and only if it is so |
| `Resend.UnstableSelectionIsNotHarmless` | fluent.go:613-626 | canRetryTransaction admits a pair of updates, which no caller sends, whose resend changes the database again |
| `ResendUpdate.PairDeletesAreNotHarmless` | fluent.go:339-353 | four DeleteMap and MutateMap calls on one builder give a transaction that may be resent and changes some database again |
| `ReferenceCleanup.MapDeleteKeys` | ovs_runtime.go:737-820 | exactly the keys of the entries that name the target as key or value |
| `ReferenceCleanup.ExpectExact` | schema.go:134-196 | what the clean-up takes from a cell, on the column types: the target from a set that refers to its table, and the map entries naming it on a side that does |
| `ReferenceCleanup.CellOps` | fluent.go:664-717 | for one row, the one operation that takes exactly that, none if there is nothing, or a conflict exactly at a strong scalar |
| `ReferenceCleanup.ColumnOps` | fluent.go:664-717 | for one column, operations that remove exactly the references to the target, or a conflict at a strong scalar |
| `ReferenceCleanup.TableOps` | schema.go:134-196 | the same for all reference columns of a table, map columns by key, by value or both |
| `ReferenceCleanup.ReferenceCleanupOps` | fluent.go:657-721 | the same for all tables of the schema |
| `ReferenceDelete.ExecuteDelete` | fluent.go:509-544 | not found without targets, conflict exactly when a strong scalar of another row names a target, otherwise a transaction that commits and leaves a cleaned database |
| `ReferenceDelete.RowRunShrinks` | ovs_runtime.go:715-735 | a row through that transaction is deleted or loses, cell by cell, exactly what is removed |
| `ReferenceDelete.CleanedHasNoDangling` | fluent.go:657-721 | a cleaned database has no set, map or strong scalar naming a deleted row |
| `ReferenceDelete.DeleteLeavesNoDangling` | fluent.go:509-544 | the transaction commits, the targets are gone, every other row lost exactly its references to them, also when targets refer to each other, and nothing dangles |
| `ReferenceDelete.DeleteCellByCell` | fluent.go:657-721 | for every cell left, on the types of its column: sets lost exactly the elements, and maps exactly the entries, that name a deleted row on a referring side; scalars stay, and no strong one names a deleted row |
| `ReferenceDelete.DeleteResendIsHarmless` | fluent.go:509-544 | that transaction may be resent, and on whatever database it then meets, twice is as good as once |
| `BridgeMappings.ParseBridgeMappings` | ovs_runtime.go:217-243 | the parsing loop computes `Parse`, with its error cases |
| `BridgeMappings.FormatBridgeMappings` | ovs_runtime.go:245-262 | the formatting loop computes `Format`: sorted, joined by commas |
| `BridgeMappings.ParseExactly` | ovs_runtime.go:217-243 | a text is accepted if and only if each comma-separated part is blank or a name, one colon and a name, no two for one network; it means exactly those pairs, trimmed |
| `BridgeMappings.FormatExactly` | ovs_runtime.go:245-262 | the text is the pairs without empty names, joined by commas in ascending order of their networks |
| `BridgeMappings.ParseFormat` | ovs_runtime.go:217-262 | formatting a map of clean names and parsing it gives the map back |
| `BridgeMappings.ParseFormatParse` | ovs_runtime.go:217-262 | parse, format, parse is parse, for every accepted text |
| `BridgeMappings.ParseFormatExact` | ovs_runtime.go:217-275 | a map survives the trip if and only if all its names are trimmed, non-empty and free of comma and colon |
| `BridgeMappings.ParseIsClean` | ovs_runtime.go:217-243 | whatever the parser accepts is a map of clean names |
| `MappingOwnership.SetOwnedBridgeMapping` | intent.go:2335-2371 | the edit that claims a mapping: refused for another owner's, otherwise new text and marker |
| `MappingOwnership.DetachBridgeMapping` | intent.go:1127-1160 | the edit that gives a mapping up, only for the marker's holder |
| `MappingOwnership.EnsureSucceedsExactly` | intent.go:2335-2371 | a claim succeeds if and only if the text parses and the marker is the requester's, or is absent while the network has no mapping |
| `MappingOwnership.DetachSucceedsExactly` | intent.go:1127-1160 | a detach succeeds if and only if the text parses, the marker is the requester's and the bridge is blank or the mapped one |
| `MappingOwnership.EnsureEffect` | intent.go:2335-2371 | a successful claim changes its own mapping and marker, no other mapping, marker or external id, and only when the marker was free or its own |
| `MappingOwnership.DetachEffect` | intent.go:1127-1160 | a successful detach removes its own mapping and marker and nothing else, and only for the holder |
| `MappingOwnership.NextKeepsInv` | intent.go:3152-3154 | every interleaved read or swap keeps: the text parses, and a marked physical network has a mapping |
| `MappingOwnership.SwapTouchesOnlyItsOwn` | ovs_runtime.go:186-215 | no swap changes another physical network's mapping or marker or any unrelated external id |
| `MappingOwnership.UnmarkedMappingStaysInRuns` | intent.go:2348-2351 | over all interleavings the mapping of a physical network without a marker is never changed by anyone |
| `MappingOwnership.MarkedHasMapping` | intent.go:2335-2371 | at every point of every run a marked physical network has a mapping |
| `MappingOwnership.MarkerPassesOnlyAfterDetach` | intent.go:1127-1160 | a marker leaves its holder only at a step in which that holder detaches |
| `MappingOwnership.EnsureStoresMappingExactly` | intent.go:1602-1627 | the requested mapping is stored, others unchanged, if and only if both names have no surrounding blanks |
| `MappingOwnership.BlankNameIsLost` | intent.go:1602-1627 | a name with a leading blank is not |
| `PlainMappings.EnsureBridgeMapping` | ovs_runtime.go:131-148 | the edit that sets a mapping unless it points at another bridge |
| `PlainMappings.DeleteBridgeMapping` | ovs_runtime.go:150-171 | the edit that removes a mapping, refused when there is none or it points elsewhere |
| `PlainMappings.PlainSucceedsExactly` | ovs_runtime.go:131-171 | exactly when either edit goes through, on names, mapping text and the bridge mapped so far |
| `PlainMappings.PlainEffect` | ovs_runtime.go:173-184 | exactly the one mapping changes, and no marker or other external id |
| `PlainMappings.DeleteStrandsMarker` | ovs_runtime.go:150-171 | deleting the mapping of a marked network leaves the marker alone |
| `PlainMappings.PlainKeepsMarkedExactly` | ovs_runtime.go:131-171 | marked networks keep their mappings if and only if the edit does not delete that of a marked one |
| `MappingSwap.SwapIsAtomic` | ovs_runtime.go:186-215 | the wait-and-mutate transaction commits exactly when external_ids is unchanged, applies the edit and leaves every other row and column alone |
| `ServiceVips.ServiceVIPComparable` | service_intent.go:600-617 | the loop computes the map from endpoint to sorted backends |
| `ServiceVips.StaleServiceVIPKeys` | service_intent.go:499-519 | exactly the stored endpoints that are not desired or have other backends |
| `ServiceVips.StaleExactly` | service_intent.go:499-519 | a stored entry of a desired VIP is stale exactly when it names other backends; then it is written anew in order, otherwise its text stays as it is |
| `ServiceVips.UndesiredIsStale` | service_intent.go:499-519 | an entry whose endpoint is not desired is stale and goes |
| `ServiceVips.ReconciledKeys` | service_intent.go:230-297 | deleting the stale keys and inserting leaves exactly the desired keys |
| `ServiceVips.DesiredEntryConverges` | nb_northbound_helpers.go:176-212 | although an insert keeps what is there, each desired entry reads back with the desired backends |
| `ServiceVips.VipsConverge` | service_intent.go:230-297 | the next VIP diff is empty if and only if the desired endpoints and backends are canonical |
| `ServiceVipSpelling.OtherSpellingNeverSettles` | service_intent.go:600-617 | an endpoint in another spelling is found different after every reconcile |
| `IpamRanges.PrefixRangeExact` | ipam.go:381-394 | a masked prefix spans exactly the addresses it contains, without wrapping |
| `IpamRanges.MaskExact` | ipam.go:338-348 | masking keeps the leading bits and clears the rest, so the prefix contains exactly the addresses with those bits |
| `IpamRanges.PrefixesOverlapExact` | ipam.go:390-394 | two prefixes overlap exactly when they share an address |
| `IpamRanges.UsableRangeExact` | ipam.go:373-379 | exactly /1 to /30 have usable addresses; /31 and /32 have none and a /0 wraps to none |
| `IpamRanges.MergeRanges` | ipam.go:405-427 | merged ranges are sorted, disjoint, non-adjacent and cover the same addresses; `last.end+1` does not wrap |
| `IpamRanges.CoveredSetSize` | ipam.go:327-331 | the sizes of the merged ranges add up to the number of addresses covered |
| `IpamPool.StateOfExact` | ipam.go:172-247 | the state is computed if and only if the pool is valid, and is the effective one |
| `IpamPool.FreshPoolExact` | ipam.go:37-41 | a pool of just a prefix is valid exactly from /1 to /30 and then has 2^(32-bits) - 3 free addresses |
| `IpamPool.NextAvailable` | ipam.go:249-261 | the scan computes `Next` |
| `IpamPool.NextIsLeast` | ipam.go:249-261 | the least free address, or none exactly when none is free |
| `IpamPool.CountAvailable` | ipam.go:308-336 | clip, sort, merge and subtract count exactly the addresses `isAvailable` accepts; no 64-bit step wraps and the int guard never fires |
| `IpamAllocator.IPAMPool.ComputeState` | ipam.go:172-247 | the parsing and conflict loops compute `StateOf` |
| `IpamAllocator.IPAMPool.Allocate` | ipam.go:72-100 | appends the chosen address, or changes nothing on error |
| `IpamAllocator.IPAMPool.Release` | ipam.go:103-122 | removes the first lease of the address, or changes nothing on error |
| `IpamAllocator.IPAMPool.Available` | ipam.go:138-144 | the number of free addresses, for valid pools only |
| `IpamAllocator.AllocateExact` | ipam.go:72-100 | automatic allocation takes the least free address and reports exhaustion exactly when nothing is free; a request is granted exactly when free |
| `IpamAllocator.StepKeepsPool` | ipam.go:72-122 | each operation keeps the pool valid and moves exactly the granted address between free and held |
| `IpamAllocator.RunKeepsPool` | ipam.go:72-122 | after any run: valid, no address held twice, free plus held constant, and gateway, reserved and excluded addresses never handed out |
| `IpamLaws.AcceptedExactly` | ipam.go:172-247 | which pools are accepted, on the configured addresses: an IPv4 /1 to /30, all addresses hosts of its block, leases distinct and not withheld, exclusions that share an address with the block but cover neither gateway, reserved address nor lease |
| `IpamLaws.FreeExact` | ipam.go:279-306 | an address is free exactly when it is a host of the block of the CIDR given, not gateway, not reserved, in no excluded block and not leased |
| `IpamLaws.AllocateLeast` | ipam.go:72-100 | an automatic allocation takes the least such address and fails exactly when there is none |
| `IpamLaws.RequestAnswered` | ipam.go:263-277 | a requested address is granted exactly when it is free, otherwise invalid outside the block and a conflict inside it |
| `IpamLaws.ReleaseExact` | ipam.go:103-122 | a release succeeds exactly for a leased address, and no other lease goes |
| `IpamLaws.HandedOutIsOurs` | ipam.go:72-122 | over any run every address handed out is a host of the pool's own block and neither gateway, reserved nor excluded |
| `IpamAllocator.PlanIPAllocation` | ipam.go:43-68 | count, gateway and, when an address is available, the least free one |
| `OpenFlowFraming.ParseMarshal` | openflow_protocol.go:101-135 | parsing a marshalled message gives it back, whatever follows |
| `OpenFlowFraming.MarshalParse` | openflow_protocol.go:118-135 | a buffer that parses starts with the marshalled form of the result |
| `OpenFlowWire.HeaderAt` | openflow_protocol.go:101-116 | a message is printed exactly for version 4 or 6 and at most 65535 bytes, with version, type, length, xid and body at their bytes |
| `OpenFlowFraming.ReadAll` | openflow_protocol.go:137-152 | reading until failure computes `ReadLogOf` |
| `OpenFlowFraming.StreamFraming` | openflow_protocol.go:137-161 | any list of messages written back to back is read back as that list, then a clean end of file |
| `OpenFlowFraming.TruncatedStream` | openflow_protocol.go:137-152 | a stream cut off inside a message yields every complete one and then an end-of-file error |
| `OpenFlowMasks.BuildMask` | openflow_protocol.go:699-714 | the loop sets exactly the leading bits |
| `OpenFlowMasks.CountLeadingOnes` | openflow_protocol.go:733-754 | the loop counts the leading ones |
| `OpenFlowMasks.MaskRoundTrip` | openflow_protocol.go:699-754 | mask builder and counter are inverse |
| `OpenFlowOxm.ParseMatch` | openflow_protocol.go:547-591 | the offset loop computes `FrameOf`, with its error cases |
| `OpenFlowOxm.ParseMarshalled` | openflow_protocol.go:680-697 | parsing marshalled fields applies exactly those fields in order |
| `OpenFlowWire.OxmAt` | openflow_protocol.go:680-697 | class 0x8000, field number with the mask bit, payload length, value and mask of a printed field |
| `OpenFlowOxm.FrameParses` | openflow_protocol.go:547-591 | the length field bounds the parse; padding and what follows are ignored |
| `OpenFlowMatch.StageParses` | openflow_protocol.go:593-678 | each of the thirteen optional fields, printed and parsed, sets exactly itself |
| `OpenFlowMatchWire.FieldsExact` | openflow_protocol.go:462-536 | a printed match holds exactly the fields it sets, in ascending order of their numbers, each with its own bytes; an IPv4 field has the leading bits of the address, zeros after them and the mask of its prefix |
| `OpenFlowMatchWire.MaskValue` | openflow_protocol.go:699-714 | the mask of a prefix spells 2^32 - 2^(32 - bits) |
| `OpenFlowMatchWire.MatchAt` | openflow_protocol.go:462-545 | type 1, the unpadded length, the fields, fewer than eight zeros; refused exactly for a bad MAC or a text that is no IPv4 prefix |
| `OpenFlowMatch.PrefixComesBack` | openflow_protocol.go:716-754 | a prefix comes back with the same leading bits and zeros after them, a /32 as a bare address |
| `OpenFlowMatch.MatchRoundTrip` | openflow_protocol.go:462-591 | parsing a marshalled match gives its canonical form exactly when MACs have six octets; the padded size is a multiple of eight |
| `OpenFlowMatch.MatchRoundTripExact` | openflow_protocol.go:462-754 | the match itself comes back if and only if its MACs have six octets, its prefixes have zero host bits and no /32 is spelled out |
| `OpenFlowRecords.WalkExact` | openflow_protocol.go:377-441 | walking records with exact lengths finds exactly those records |
| `OpenFlowFlowMod.MarshalActions` | openflow_protocol.go:416-441 | the loop concatenates the encoded actions or stops at the first error |
| `OpenFlowFlowMod.MarshalInstructions` | openflow_protocol.go:377-414 | the loop concatenates the encoded instructions, empty ones dropped, the flow's own actions last; padding never adds a byte |
| `OpenFlowWire.FlowModAt` | openflow_protocol.go:295-327 | type 14, and cookie, mask, table, command, timeouts, priority, buffer, port, group, flags and importance each at their byte of the message |
| `OpenFlowWire.InstructionAt` | openflow_protocol.go:377-414 | type, length, padding and contents of the four kinds of instruction, byte by byte |
| `OpenFlowWire.ActionAt` | openflow_protocol.go:416-460 | which actions are printed, and type, length, port or set field of each, byte by byte |
| `OpenFlowMatchWire.FlowModAccepted` | openflow_protocol.go:295-460 | exactly which flow modifications are printed at all |
| `OpenFlowMatchWire.PrintedInOrder` | openflow_protocol.go:377-414 | instructions are printed in order, those without content left out |
| `OpenFlowMatchWire.OwnActionsLast` | openflow_protocol.go:377-382 | the flow's own actions come last, as one more instruction |
| `OpenFlowFlowMod.FlowModFits` | openflow_protocol.go:295-327 | the size check passes exactly when the instructions leave room for header and match, which take at most 368 bytes |
| `OpenFlowFlowMod.FlowModLengthsExact` | openflow_protocol.go:295-327 | in every message that passes the size check the instruction lengths lead from the padded match to the end, each is its true extent and a multiple of eight, and so for the actions inside |
| `OpenFlowFlowMod.TruncatedLengthRejected` | openflow_protocol.go:101-116 | a length that did not fit sixteen bits fails the size check |
| `Sdwan.Validate` | sdwan.go:459-526 | the loops accept exactly the valid networks |
| `Sdwan.CheckSites` | sdwan.go:498-511 | valid sites with distinct names, and the names the links are checked against |
| `SdwanLinks.AcceptedExactly` | sdwan.go:459-579 | which networks are accepted, on their fields: names with text, known enumeration values, distinct sites, links between two known sites with a relaying end where the mode needs one |
| `SdwanLinks.RelaysExact` | sdwan.go:736-744 | a site relays by its transit or relay flag or the role hub in any case |
| `Sdwan.EnsureAutoLink` | sdwan.go:746-754 | a link is added unless its name is taken |
| `Sdwan.ExpandTopology` | sdwan.go:679-702 | the nested loops try the mesh or hub-and-spoke pairs in order |
| `SdwanNormalise.NormSitesFixed` | sdwan.go:668-677 | normalising sites is idempotent and keeps names and relaying sites |
| `SdwanNormalise.NormLinksFixed` | sdwan.go:679-724 | normalising links again adds and changes nothing |
| `SdwanNormalise.NormaliseFixed` | sdwan.go:648-724 | normalising twice equals once for every network, and planning re-derives the same links |
| `SdwanNormalise.NormaliseValid` | sdwan.go:459-579 | a normalised valid network is valid: relay, transit and automatic links still touch a relaying site |
| `SdwanLinks.NormalForm` | sdwan.go:648-677 | defaults filled in, everything sorted by name, no site or policy lost, repeated or made up, sites changed only in their prefix and segment lists |
| `SdwanLinks.GivenLinkKept` | sdwan.go:703-734 | every given link is there with its ends, name, cost, endpoints and attributes; its transport and mode or the defaults; enabled exactly when not disabled |
| `SdwanLinks.LinkIsKeptOrAutomatic` | sdwan.go:679-724 | every link is such a given one, or an automatic one that is enabled and has the network's transport and, with a relaying end, its path mode |
| `SdwanReconcile.PlanApply` | sdwan.go:610-646 | the plan over the links derived once more |
| `SdwanReconcile.PlanMatchesLinks` | sdwan.go:610-646 | planning a normalised network asks for a tunnel for exactly its enabled links |
| `SdwanLinks.PlanExact` | sdwan.go:610-646 | the plan is what the network, its sites, policies and enabled links ask for: a tunnel by transport, a route or flow by layer, a path for relayed modes; nothing else |
| `SdwanReconcile.InMemorySDWANBackend.ApplySDWAN` | sdwan.go:820-840 | stores the normalised network and the plan and counts the apply |
| `SdwanReconcile.InMemorySDWANBackend.DeleteSDWAN` | sdwan.go:842-851 | removes network and plan, or reports that there is none |
| `SdwanReconcile.DryRun` | sdwan.go:368-387 | the difference between stored and desired network, both normalised |
| `SdwanReconcile.Reconcile` | sdwan.go:389-408 | applies exactly when there is a difference, with its error cases |
| `SdwanReconcile.ReconcileStores` | sdwan.go:389-408 | a reconcile changes the store exactly when nothing or another normal form is there; it then holds the normal form and its plan and counts one apply; other names are untouched |
| `SdwanReconcile.DiffExact` | sdwan.go:368-387 | no change exactly when a network with the same normal form is stored, otherwise both normal forms |
| `SdwanReconcile.ReconcileThenDryRun` | sdwan.go:368-408 | after a reconcile a dry run finds nothing, whatever was stored |
| `SdwanReconcile.LastCallHolds` | sdwan.go:389-408 | after any sequence of reconciles and deletes, the last call under each name decides what a dry run finds there |
| `SdwanTopology.ExpandExact` | sdwan.go:746-781 | an expansion holds the given links and one link for each pair whose name is free and not taken by an earlier pair |
| `SdwanTopology.CoverageExact` | sdwan.go:679-724 | exactly which pairs of sites are linked after normalisation |
| `SdwanTopology.AutoPairsExact` | sdwan.go:682-701 | full mesh asks for every pair of sites, hub and spoke for every pair of a relaying and a non-relaying one |
| `SdwanTopology.TopologyCoverage` | sdwan.go:679-781 | when names do not clash every pair the topology asks for is linked |
| `SdwanLinks.WantedPairLinked` | sdwan.go:682-701 | then a pair asked for that no given link joins gets a link that is enabled and not disabled, with the network's transport and, when an end relays, its path mode |
| `SdwanLinks.WantedPairPlanned` | sdwan.go:610-646 | and the plan holds its tunnel and its route or flow |
| `SdwanTopology.ExplicitSurvives` | sdwan.go:679-724 | every explicit link survives with endpoints and name |
| `SdwanTopology.NothingElseAdded` | sdwan.go:679-724 | nothing is added but pairs the topology asks for; hub and spoke adds none between two non-hubs |
| `SdwanTopology.ClashLeavesPairUnlinked` | sdwan.go:581-590 | with clashing names a full mesh leaves a pair unlinked |
| `SdwanPaths.FindDirectLink` | sdwanlinux/backend.go:667-680 | an enabled direct link between two sites |
| `SdwanPaths.AllowedIPsForRemote` | sdwanlinux/backend.go:638-655 | the loop computes `AllowedIPs` |
| `SdwanPaths.Backend.ApplySDWAN` | sdwanlinux/backend.go:164-225 | the devices of disabled WireGuard links go with all their routes, enabled links' routes are replaced, with the error cases |
| `SdwanPaths.NoRouteThroughDisabled` | sdwanlinux/backend.go:246-256 | after an apply no route of the site is left through a WireGuard link that is not up, unless one that is up has its name |
| `SdwanPaths.RemotesAreKnown` | sdwanlinux/backend.go:190-197 | for a valid network the missing-remote error does not arise |
| `SdwanPaths.CarriesExactly` | sdwanlinux/backend.go:622-655 | exactly which links without given prefixes carry a site's prefix, for any number of relaying sites, on the fields of the links |
| `SdwanPaths.OverrideCarries` | sdwanlinux/backend.go:638-655 | a link that is given its prefixes carries those and no others |
| `SdwanPaths.LastCarrierWins` | sdwanlinux/backend.go:190-225 | after an apply a prefix goes to the last link that carries it |
| `SdwanPaths.AutoPathIsPartition` | sdwanlinux/backend.go:622-680 | with one relaying site, a link carries a prefix exactly when it is the enabled link to its site or, if there is none, the relay link |
| `SdwanPaths.ExactlyOneCarrier` | sdwanlinux/backend.go:622-680 | so exactly one link carries it |
| `SdwanPaths.AutoRoutesAfterApply` | sdwanlinux/backend.go:190-225 | after an apply the table sends the prefix through that link, whatever it held before |
| `SdwanPaths.OtherRoutesKept` | sdwanlinux/backend.go:182-256 | a prefix no enabled link carries keeps its route unless that goes through a disabled link's device |
| `SdwanPaths.TwoRelaysBothCarry` | sdwanlinux/backend.go:638-655 | automatic links to two relaying sites both carry a prefix exactly when no direct link is up |
| `Text.UniqueStrings` | util.go:436-450 | first occurrences of the non-empty strings |
| `Text.UniqueExact` | util.go:436-450 | one more value is kept at the end unless it is empty or was there before |
| `Text.UniqueFromProps` | util.go:436-450 | exactly the non-empty strings survive, each once |

## Left out

- Connections, TLS, dialling, deadlines, reconnect timing, tickers and the scheduling of goroutines: input and output; the resend decision and all interleavings of the locked sections are modelled.
- The delays of the manager's dispatch channel between poller and subscriptions (`enqueue`, `run`): which events it drops is left open, the rest reach a subscription in the order emitted.
- Tables whose rows share an identity: `SubscriberIsTold` and the replay theorems take each select to return a row once, as OVSDB does; rows without an identity reach the stream but no poll reports them.
- Initial rows of a filtered watch that the server selects and the client's own conditions reject: the two are taken to agree.
- libovsdb, `net/netip`, JSON, base64, hashes and interface-name shortening: addresses and prefixes are values or parameters, marker encodings are injective parameters, rows are compared by equality, devices are named by link.
- The individual condition functions of OVSDB, and garbage collection and weak references as the database server treats them: a condition is any predicate on one column, and the abstract database never removes rows or references by itself.
- Fluent setters, row decoders, typed table wrappers and command rendering: they would only add easy members.
- Doctor, status, audit, clean-up and adopt reports: read-only classification.
- Reconcile of virtual networks, DNS and labels: it inserts over existing map keys, so the VIP theorem does not carry over to it.
- OpenFlow hello, features, statistics and error messages, and non-contiguous IPv4 masks on input: only what the printer produces is parsed back.
- Error texts, and which of several faults SD-WAN validation reports first: the model says whether a network is valid.
- Policy-routing rules, OVS tunnels and OpenFlow rules of the Linux SD-WAN backend: the model keeps the routing table only, commands succeed, and deleting an OVS tunnel is taken to leave the table alone.
- Plain bridge-mapping edits as steps of the ownership runs: a run with them keeps its invariant as long as each meets the condition of `PlainKeepsMarkedExactly`.
- SdwanNormalise.NormaliseFixed: for repeated names it relies on a sort that leaves a sorted slice as it is, as the model's does and Go's `sort.Slice` does in practice without promising it; for distinct names the order is determined.
- IpamAllocator.IPAMPool.Allocate: a lease is stored as its parsed address, because formatting and parsing an address are left to `net/netip`.
