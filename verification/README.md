# A verified model of haigosmart

haigosmart is an MQTT server that replaces the vendor's cloud for a family of smart bulbs,
with a terminal interface, a registry on disk and a Home Assistant bridge. This Dafny
project models the parts of it whose correctness is not visible in any one function, and
proves what they promise:

* **who owns a lamp** (`Registries`, `RegistryState`, `Ownership`, `Losers`,
  `Identities`): the registry as a class of mutable entries proved to do, critical section
  by critical section, what a set of value functions says; and any number of sessions, Home
  Assistant, the terminal and the configuration interleaving those critical sections;
* **command confirmation** (`Confirm`): commands in flight, the two maps that find them,
  two racing confirmations, timeouts and deferred cleanup;
* **debounced persistence** (`Persist`, `Listings`, `Restarts`): the store's flag and timer
  against mutations, overlapping saves, failures and shutdown; the file itself; and the
  registry over any number of restarts;
* **the event bus and the two rate limits** (`Bus`, `RateLimits`): bounded queues that drop
  their oldest event, and an in-place sliding window, against plain histories;
* **MQTT 3.1.1** (`Wire`, `Topics`, `Client`): codec, framing, topic matching, packet ids
  and the re-establishment of subscriptions;
* **state arithmetic and configuration** (`Convert`, `Reports`, `Lamps`, `Startup`,
  `Bulbs`): Kelvin and percent, commands that converge, the change stream, the lamp list
  and what a start makes of it.

`Texts` and `Sorting` stand for the string and sort calls of the Go standard library.

Concurrent code is modelled as a step system: each critical section of a mutex, each
channel operation outside one and each write to a socket or file is one atomic step, and a
run is any list of enabled steps. Where the code has an object it updates, there is a class
with a method per critical section, and the step system is built from the functions those
methods are proved against. Time is an integer. A theorem named `…Exactly` is an
if-and-only-if: it states the condition under which the code meets a property.

## Findings

Where the code and its comments disagree, the code is modelled:

* `internal/events/bus.go:78-80` says an offered event is dropped if the consumer refilled
  the queue. The consumer only empties it; another publisher has to refill it. With one
  publisher no offered event is ever dropped (`Bus.NewestSurvives`), with several one is
  exactly when more enters than leaves while it makes room (`Bus.LosesOwnEventExactly`).
* `cmd/haigosmartd/main.go:180-182` says a debounced save in flight cannot be lost on
  shutdown. A flush that finds the flag taken returns at once, with the file still behind
  (`Persist.CloseReturnsEarly`; exactly when, `Persist.CloseIsDurable`); and one that takes
  it does not wait for an earlier save, whose older snapshot can be renamed over its own
  (`Persist.OverlapLosesAnUpdate`; exactly when, `Persist.DrainsSafelyExactly`).
* A save that fails leaves nothing scheduled: the update is lost until the next dirty
  mutation (`Persist.FailureForgets`).
* A first connection whose device id is another lamp's name leaves two lamps with one name;
  resolution then depends on map order (`Listings.ResolveIsDeterministic`) and the file that
  is saved is refused by the next start (`Restarts.LoadRunSaveLoad`). A program that lets in
  configured lamps only is safe from this (`Startup.AdmittedRunsAreSafe`).
* Two sessions of one device can lose a reported field, because the report is folded onto
  a state that was read in an earlier critical section (`Reports.TwoSessionsLoseAReport`;
  exactly when over a run, `Reports.LatestReportedExactly`).
* Two configured lamps cannot swap names: the start stops at the first of them
  (`Startup.SwapStops`).
* The clock is read before the lock is taken, so the sliding window can see time go back,
  and then miss a warning (`RateLimits.ClockGoingBackMisses`; exactly when,
  `RateLimits.WarningIsRightExactly`).
* `DeviceIDFromCommandTopic` answers the id "set" for `<prefix>/light/set`, where its prefix
  and suffix overlap in one slash (`Topics.ParsedExactly`). The command filter never
  delivers that topic (`Topics.DeliveredTopicsParse`).
* A SUBSCRIBE without filters is accepted, and its SUBACK is one the project's own decoder
  calls truncated (`Wire.SubackMatches`).
* String lengths are cut to sixteen bits without a check (`Wire.StringReadsBack`).

## Model

| member | source | states |
|---|---|---|
| Bulbs.DiffReplays | internal/bulb/state.go:63-78 | applying the change list of Diff to any copy that agrees gives the new state but for ReportedAt, each From is the copy's own value, and the list is empty exactly when nothing visible changed |
| Bulbs.DiffTells | internal/bulb/state.go:63-78 | the list tells of exactly the fields that differ, each once, with the value it had and the value it gets, in the order power, brightness, warmth, mode |
| Bulbs.ApplyChangesAppend | internal/bulb/state.go:63-78 | replaying two lists in a row is replaying their concatenation |
| Registries.Do | internal/registry/registry.go:64-351 | no critical section forgets a lamp |
| Registries.KeyedStep | internal/registry/registry.go:64-351 | every entry stays under its own device id |
| Registries.KeyedAlways | internal/registry/registry.go:64-351 | the same over every run |
| Registries.EmptyIDExactly | internal/registry/registry.go:64-147 | an entry without an id appears if and only if one is given to Upsert |
| Registries.NoEmptyIDAlways | internal/registry/registry.go:64-147 | over every run whose sessions have an id there is none |
| Registries.QuietKeepsDurable | internal/registry/registry.go:243-305 | a critical section that does not call the dirty hook changes nothing a save would write but the two report times |
| Registries.NamesStayDistinct | internal/registry/registry.go:64-238 | one step keeps names pairwise distinct if and only if it is not a first Upsert of an id that is another lamp's name |
| Registries.NamesDistinctAlways | internal/registry/registry.go:64-238 | over every run from distinct names, names are distinct in every state if and only if no Upsert of the run clashes |
| Registries.NamesCanClash | internal/registry/registry.go:64-88 | the clash is reachable from an empty registry in three calls |
| Registries.DriverImpliesOnlineStep | internal/registry/registry.go:311-351 | a lamp with a driver is never Disconnected, kept by every critical section |
| Registries.PhantomExactly | internal/registry/registry.go:216-238 | the converse fails through exactly the Upsert of an offline lamp and the naming of an offline discovered one, and is repaired by exactly an attach or an unconditional Disconnect |
| Registries.DisconnectOnlyByOwner | internal/registry/registry.go:336-351 | a session's Disconnect changes nothing at all if and only if the session is not the driver |
| Registries.RefusedExactly | internal/registry/registry.go:105-238 | a name is refused if and only if id or name is blank, the lamp is unknown (Rename), or another lamp bears it, with the first of those as the reason, and a refusal changes nothing |
| Registries.AnswersMean | internal/registry/registry.go:64-307 | what each critical section answers: new or known, created or renamed, adopted or not, the changes, whether capabilities changed |
| Registries.FieldsMoveOnlySo | internal/registry/registry.go:64-351 | for every field of a known lamp but status and driver, exactly which steps move it and to what; first-seen and id never move |
| Registries.EntriesBeginOnlySo | internal/registry/registry.go:79-133 | an entry begins by exactly an Upsert or an accepted Declare of an unknown id, and with which values |
| Registries.DirtyExactly | internal/registry/registry.go:64-351 | the dirty hook is called by every Upsert, accepted rename and effective Disconnect, and otherwise if and only if there is something new to save |
| Registries.DiscoveredStep | internal/registry/registry.go:64-351 | a lamp becomes discovered if and only if an unknown id is upserted, and stops being so if and only if it is named |
| Registries.OnlineStep | internal/registry/registry.go:64-351 | an adopted lamp comes online by exactly Upsert or SetDriver and goes offline by exactly an effective Disconnect |
| Registries.DiscoveredExactly | internal/registry/registry.go:64-351 | over every run, a lamp waits to be adopted if and only if it did at the start or appeared by its own first connection, and has not been named since |
| Registries.OnlySetStateTouchesState | internal/registry/registry.go:243-258 | a lamp's state moves only by SetState for it, and then to the state given |
| Registries.ReplayReproduces | internal/registry/registry.go:243-258 | folding the change lists returned in lock order reproduces the registry's state modulo ReportedAt, each From being the replayed value, over every run |
| RegistryState.Entry.Rejoin | internal/registry/registry.go:70-88 | a known lamp that reconnects keeps known capabilities and comes online unless merely discovered |
| RegistryState.Entry.Name | internal/registry/registry.go:132-147 | naming a discovered lamp adopts it |
| RegistryState.Entry.Store | internal/registry/registry.go:251-253 | a report replaces the state and ends what was desired |
| RegistryState.Entry.Refine | internal/registry/registry.go:300-303 | known capabilities are not given up for unknown ones, and the answer says whether they changed |
| RegistryState.Entry.Release | internal/registry/registry.go:346-349 | the driver goes, and a connected lamp goes offline |
| RegistryState.Registry.Upsert | internal/registry/registry.go:64-88 | the class does what the value function says, and nothing to other entries |
| RegistryState.Registry.Declare | internal/registry/registry.go:105-147 | same, with every refusal and the owner it names |
| RegistryState.Registry.Rename | internal/registry/registry.go:216-238 | same, with every refusal and whether it was an adoption |
| RegistryState.Registry.SetState | internal/registry/registry.go:243-258 | same, with the change list, which tells of exactly the fields in which the stored state differed, and dirty only when it is not empty |
| RegistryState.Registry.SetDesired | internal/registry/registry.go:261-267 | same, never dirty |
| RegistryState.Registry.Touch | internal/registry/registry.go:270-276 | same, never dirty |
| RegistryState.Registry.SetFirmware | internal/registry/registry.go:280-290 | same, dirty only for a new non-empty version |
| RegistryState.Registry.SetCapabilities | internal/registry/registry.go:296-305 | same: known capabilities are never replaced by unknown ones |
| RegistryState.Registry.SetDriver | internal/registry/registry.go:311-324 | same, with the connection that was replaced; an offline lamp comes online, a discovered one stays discovered |
| RegistryState.Registry.Disconnect | internal/registry/registry.go:339-351 | same, only for the owner |
| RegistryState.Registry.View | internal/registry/registry.go:152-160 | a copy of the entry, if there is one |
| RegistryState.Registry.List | internal/registry/registry.go:163-172 | every entry exactly once, sorted by name, whatever the map order |
| RegistryState.Registry.Resolve | internal/registry/registry.go:177-211 | exact name, else exact id, else the unique prefix match, else an error; ambiguity lists the sorted candidates |
| RegistryState.Registry.Matching | internal/registry/registry.go:190-196 | exactly the entries whose folded name or id begins with the folded target |
| RegistryState.Registry.FindNamed | internal/registry/registry.go:183-187 | an entry with that name, or none exists |
| RegistryState.Registry.FindOwner | internal/registry/registry.go:117-121 | another entry with that name, or none exists |
| RegistryState.Load | internal/registry/persist.go:73-122 | the loop over the records accepts and rejects as the specification does, and the loaded registry is clean |
| Listings.SortingLists | internal/registry/registry.go:163-172 | sorting any collection of the entries gives a listing |
| Listings.ListingIsUnique | internal/registry/registry.go:163-172 | with distinct names there is one listing, whatever the map order |
| Listings.CollectedSize | internal/registry/registry.go:163-172 | a walk over the map collects as many entries as there are |
| Listings.AnswersAgree | internal/registry/registry.go:177-211 | all walks over the map resolve a target alike when no two lamps bear it as their name, other shared names notwithstanding |
| Listings.CandidatesAreUnique | internal/registry/registry.go:204-209 | the candidates of an ambiguous prefix do not depend on map order, even with shared names |
| Listings.ResolvesAlikeExactly | internal/registry/registry.go:177-211 | one target resolves alike for all walks if and only if it is empty or no two lamps bear it |
| Listings.ResolveIsDeterministic | internal/registry/registry.go:177-211 | resolution is independent of map order for every target if and only if no two lamps share a name that is not empty |
| Listings.LoadAcceptsExactly | internal/registry/persist.go:93-120 | a file is accepted if and only if no record lacks an id and ids and names are each pairwise distinct |
| Listings.LoadKeepsEveryRecord | internal/registry/persist.go:93-120 | an accepted file yields exactly one offline, driverless entry per record |
| Listings.LoadDiskExactly | internal/registry/persist.go:73-122 | no file is a first run; otherwise a file is accepted if and only if it has version 1 and good records, and each other case has its own error |
| Listings.BadRecordMeans | internal/registry/persist.go:93-108 | a refusal names the first bad record and what is wrong with it, and an earlier record it clashes with exists |
| Listings.SaveThenLoad | internal/registry/persist.go:157-170 | what was saved loads back as the same lamps, all offline, if and only if names are distinct and no id is empty; otherwise it is refused |
| Listings.RestartKeeps | internal/registry/persist.go:109-170 | a restart keeps names, capabilities, firmware, states and both times of every lamp, and forgets drivers, wishes and addresses |
| Restarts.LoadIsSound | internal/registry/persist.go:73-122 | whatever is on disk, a registry that is returned has distinct names and ids in place, none empty, every lamp offline and without a driver |
| Restarts.CanBeSaved | internal/registry/persist.go:157-170 | every registry has a file it is saved as |
| Restarts.LoadRunSaveLoad | internal/registry/persist.go:73-170 | from any file through any run to the next file: that one loads if and only if names are distinct at the time, which they are without a clashing Upsert, and gives the same lamps, all offline |
| Restarts.RestartsAlwaysLoad | internal/registry/persist.go:73-170 | over any number of restarts, names stay distinct in every state and every saved file loads back, if and only if no Upsert ever clashes |
| Identities.IdentityFromConnect | internal/protocol/alink.go:34-45 | a session is never given an empty device name |
| Identities.IdentityExactly | internal/protocol/alink.go:34-45 | a connection is given an identity if and only if its user name states it, or no user name states any and its client id does, up to the first bar |
| Identities.IdentityReadsBack | internal/protocol/alink.go:34-45 | both forms in which a lamp states its identity are read back |
| Persist.Store.constructor | internal/registry/persist.go:66-68 | nothing is pending and no timer is armed |
| Persist.Store.Schedule | internal/registry/persist.go:125-140 | the change is pending and one timer is armed |
| Persist.Store.TimerFired | internal/registry/persist.go:132-135 | the callback forgets the timer before it flushes |
| Persist.Store.TakePending | internal/registry/persist.go:143-151 | the flag is taken, and a save follows if it was set |
| Persist.Store.StopTimer | internal/registry/persist.go:204-210 | the armed timer, if any, is stopped |
| Persist.CriticalSectionIsAStep | internal/registry/registry.go:64-351 | every critical section of the registry is a dirty mutation of the machine or invisible to it |
| Persist.PendingIsScheduled | internal/registry/persist.go:125-151 | over every run, failing and overlapping saves included, a pending change has an armed timer or a flush about to take it |
| Persist.OneTimerExactly | internal/registry/persist.go:125-140 | a step keeps to one timer if and only if it is not a Close while a fired callback still waits for the lock |
| Persist.OneTimerAlways | internal/registry/persist.go:125-140 | over every run without such a Close at most one timer is armed, so a burst of changes is one write |
| Persist.NoLostUpdate | internal/registry/persist.go:125-212 | with no save starting while one is in flight and none failing: file equals memory, or a change is pending and a flush is coming, or the hook is about to run, or a save in flight has yet to snapshot or holds a current snapshot |
| Persist.CloseIsDurable | internal/registry/persist.go:204-212 | with no mutation since Close took the flag, the file is memory if and only if no save in flight still has to bring it up to date; sure once Close's own save is done, and a Close that finds the flag taken returns at once, when the question is what was in flight before it |
| Persist.CloseReturnsEarly | internal/registry/persist.go:204-212 | a run in which no two saves overlap and none fails, yet Close has returned and the file is not memory |
| Persist.FailureForgets | internal/registry/persist.go:143-151 | after a failed save, over every run without a dirty mutation, other flushes and Close included, the file stays as it was, so the update is lost if and only if there was one |
| Persist.FailureIsReached | internal/registry/persist.go:143-151 | one mutation and one failing save lead there from the start |
| Persist.MutationRecovers | internal/registry/persist.go:125-151 | the next dirty mutation writes everything again |
| Persist.DrainsSafelyExactly | internal/registry/persist.go:143-199 | with nothing pending, every order in which the saves in flight can finish leaves memory in the file if and only if none of them holds a stale snapshot |
| Persist.FinishLast | internal/registry/persist.go:157-199 | any save holding a snapshot can be made the last to rename |
| Persist.OverlapLosesAnUpdate | internal/registry/persist.go:143-151 | a run in which a shutdown flush overlaps a timer's save ends with the older contents on disk and nothing pending |
| Ownership.DriverAfter | internal/registry/registry.go:311-351 | only SetDriver and a matching Disconnect change a driver, and SetDriver answers with the one it replaced |
| Ownership.InvAlways | internal/server/session.go:177-216 | the ownership invariant over every interleaving |
| Ownership.NewestConnectionWins | internal/server/session.go:278-308 | the driver is the last session to attach if it has not torn down and nobody otherwise; a driver implies not Disconnected; every loser has been handed to Close or is about to be |
| Ownership.EveryLoserIsClosed | internal/server/session.go:278-308 | with no takeover under way, a session that attached and was neither torn down nor closed owns its lamp |
| Losers.OnlyLosersAreClosed | internal/server/session.go:287-296 | over every run, a session handed to Close by a takeover has attached and lost its lamp to another |
| Ownership.SupersededForGood | internal/server/session.go:328-346 | a session that lost its lamp never owns it again, so the check in reportDisconnect holds for good |
| Ownership.AllGoneAllOffline | internal/server/session.go:197-198 | when every session has torn down, no lamp has a driver |
| Confirm.DecimalInjective | internal/protocol/alink.go:211-230 | the decimal rendering of ids and seqs never collides |
| Confirm.DecimalMeans | internal/protocol/alink.go:211-230 | the decimal text stands for the number, in digits, with no zero to spare |
| Confirm.IDsMean | internal/protocol/alink.go:216-219 | the id is the time modulo 10^9, the seq all of it after a fixed mark |
| Confirm.IDsDiffer | internal/protocol/alink.go:216-219 | two commands share an id if and only if their milliseconds agree modulo 10^9, and a seq only within one millisecond |
| Confirm.PendingCommand.Deliver | internal/server/session.go:506-511 | the first outcome stays, the second is dropped, nobody waits |
| Confirm.Session.Register | internal/server/session.go:137-144 | the command is found under its id and its seq, unless the session is closed |
| Confirm.Session.Unregister | internal/server/session.go:145-150 | both keys are gone, others stay |
| Confirm.Session.CompleteCommand | internal/server/session.go:473-485 | an ack reaches the command under its id and no other |
| Confirm.Session.CompleteBySeq | internal/server/session.go:491-501 | a report reaches the command under its seq and no other |
| Confirm.Session.Close | internal/server/session.go:66-76 | the connection is torn down once, however often Close is called |
| Confirm.Session.ShouldPublish | internal/server/session.go:453-461 | over all reports of a connection the first is always published, a later one if and only if it changes something |
| Confirm.ConfirmationIsSafe | internal/server/session.go:126-164 | over every interleaving, equal ids or not: nil only after an ack with code 200 for the command's own id or a report echoing its own seq, a refusal only after an ack with that other code; every key of either map is the id or seq of a command in flight; delivery is never blocked |
| Confirm.OneOutcome | internal/server/session.go:126-164 | with distinct ids a returned outcome is the first thing the lamp said about the command since it was registered, and nothing later changes it |
| Confirm.SendKeepsAllFoundExactly | internal/server/session.go:137-144 | registering keeps every command in flight reachable if and only if its id is not in use |
| Confirm.EveryConfirmationArrives | internal/server/session.go:473-511 | with distinct ids, what the lamp says about a waiting command reaches that command and no other, whatever runs between the read loop's lookup and its send |
| Confirm.ApplyAll | internal/server/session.go:98-123 | a missing confirmation does not stop the later properties, any other error does, and exactly the outstanding names are reported, in order |
| Confirm.OutstandingMeans | internal/server/session.go:108-121 | the names reported are those of the properties without confirmation, all and only those, in the order sent |
| Bus.Subscription.constructor | internal/events/bus.go:35-44 | an empty queue of depth at least one |
| Bus.Subscription.TrySend | internal/events/bus.go:82-86 | an event enters if there is room |
| Bus.Subscription.MakeRoom | internal/events/bus.go:87-91 | the oldest event goes and is counted |
| Bus.Subscription.SendOrCount | internal/events/bus.go:92-96 | the event enters or is counted as dropped |
| Bus.Subscription.Offer | internal/events/bus.go:81-97 | undisturbed, what remains is the end of the old queue with the offered event last, the oldest give way as far as they do not fit, and each is counted |
| Bus.OfferIsItsSteps | internal/events/bus.go:81-97 | a queue is what Offer leaves if and only if it is what the steps of an undisturbed offer leave in the step system, so the interleaving results are about the class |
| Bus.Subscription.Receive | internal/events/bus.go:47-47 | the consumer takes the oldest event |
| Bus.EventBus.Subscribe | internal/events/bus.go:35-44 | the new subscription joins at the end |
| Bus.EventBus.Close | internal/events/bus.go:54-65 | exactly the given subscription leaves, the others keep their order |
| Bus.EventBus.Publish | internal/events/bus.go:69-76 | the event is logged once and taken in once by every subscription, as the newest in its queue |
| Bus.BusConserves | internal/events/bus.go:69-97 | over every interleaving of publishers and consumer: the queue never exceeds its depth, finished offers are received, queued or dropped event for event, Dropped counts the last, and received then queued is in order of acceptance |
| Bus.NewestSurvives | internal/events/bus.go:81-97 | with one publisher everything offered is accepted, received then queued is a subsequence of it and ends in the newest event |
| Bus.LosesOwnEventExactly | internal/events/bus.go:81-97 | for any depth and any publishers, an offer that found the queue full loses its own event if and only if, between making room and trying again, at least as many more events entered than left as there was room; otherwise its event is the newest in the queue |
| Bus.TwoPublishersCanDropTheNewest | internal/events/bus.go:81-97 | a run from the start in which that happens |
| RateLimits.Slice.Compact | internal/server/server.go:146-152 | the in-place loop leaves exactly the unexpired times, in order |
| RateLimits.Slice.Append | internal/server/server.go:153-153 | one time is added, in the same or a fresh array |
| RateLimits.Takeovers.NoteTakeover | internal/server/server.go:143-156 | the device's slice is pruned and extended, the answer is the threshold test, other devices are unaffected |
| RateLimits.KeepsTheUnexpired | internal/server/server.go:143-156 | for any times, what is kept is the calls no later call expired |
| RateLimits.CountsExactly | internal/server/server.go:143-156 | the slice counts the takeovers of the full history within the window if and only if none of those had been expired by an earlier call |
| RateLimits.WarnsExactly | internal/server/server.go:131-156 | for times that do not go back, a warning is given if and only if the full history holds three takeovers within the last window |
| RateLimits.WarningIsRightExactly | internal/server/server.go:131-156 | for any times, a warning is never false, and one that is due is given if and only if three takeovers of the history were never expired by a later one |
| RateLimits.ClockGoingBackMisses | internal/server/server.go:143-156 | a concrete run in which the clock goes back and a warning is missed |
| RateLimits.Rejections.NoteRejection | internal/server/server.go:172-191 | the record and answer of one refusal, reported when due, other devices unaffected |
| RateLimits.RecordMeans | internal/server/server.go:161-191 | the record holds the time of the last report, the number of attempts since and the time of the first of those |
| RateLimits.AttemptsAddUp | internal/server/server.go:161-191 | attempts are reports plus suppressed counts already reported plus the count still suppressed |
| RateLimits.ReportMeans | internal/server/server.go:172-191 | a report comes at least a window after the one before, with the number of attempts in between and the time of the first |
| RateLimits.ReportedExactly | internal/server/server.go:161-191 | a refusal is reported if and only if it is the first or at least five minutes after the last one reported |
| RateLimits.EveryWindowIsReported | internal/server/server.go:161-191 | for times that do not go back, of the refusals after one and up to another five minutes later at least one is reported |
| RateLimits.SpreadIsReported | internal/server/server.go:161-191 | as many refusals, any two of them five minutes apart, give as many reports at least |
| RateLimits.CountReports | internal/server/server.go:161-191 | so many reports have then been counted |
| RateLimits.RateIsBounded | internal/server/server.go:161-191 | an interval of length t holds at most t / 300 + 1 reports |
| Wire.AppendVarint | internal/protocol/mqtt.go:94-106 | the loop appends the base-128 digits |
| Wire.VarintLength | internal/protocol/mqtt.go:94-106 | at most k bytes if and only if the number is below 128^k |
| Wire.VarintInverts | internal/protocol/mqtt.go:78-91 | reading inverts appending and leaves the rest of the stream, if and only if the number is below 128^k |
| Wire.VarintMeans | internal/protocol/mqtt.go:94-106 | the length bytes hold the number seven bits each, least significant first, every byte but the last marked, and no more of them than it takes |
| Wire.Reader.ReadByte | internal/protocol/mqtt.go:51-56 | the next byte, or the end of the stream |
| Wire.Reader.ReadVarint | internal/protocol/mqtt.go:78-91 | the multiplier loop reads what the recursive definition says, errors included |
| Wire.Reader.ReadPacket | internal/protocol/mqtt.go:51-68 | one packet or the right error, and the stream left behind |
| Wire.EncodePacket | internal/protocol/mqtt.go:71-75 | header byte, length and payload |
| Wire.PacketReadsBack | internal/protocol/mqtt.go:51-75 | an encoded packet reads back with the stream after it untouched if and only if its payload is within MaxPacketSize |
| Wire.StreamFraming | internal/protocol/mqtt.go:51-106 | any packets sent back to back come out as they went in, the rest of the stream untouched |
| Wire.ReadIsBounded | internal/protocol/mqtt.go:51-68 | whatever the bytes, a packet read is within the limit and is exactly the bytes after a first byte with its type and flags and one to four length bytes |
| Wire.CutOffIsRefused | internal/protocol/mqtt.go:51-91 | an encoded packet cut off anywhere is never read as one, and the error says where it was cut |
| Wire.ReadDecides | internal/protocol/mqtt.go:51-91 | what the reader makes of every stream that is not empty: read, too large, short, or a length malformed or cut off |
| Wire.ReadString | internal/protocol/mqtt.go:109-118 | the offset form reads the field at the front of what is left |
| Wire.StringReadsBack | internal/protocol/mqtt.go:109-123 | a field reads back with its neighbours untouched if and only if its length fits sixteen bits |
| Wire.BigEndian | internal/protocol/mqtt.go:109-123 | two bytes hold a number with the most significant first |
| Wire.TakeStringExactly | internal/protocol/mqtt.go:109-118 | a field is taken if and only if its length in two bytes and then that many bytes stand in front |
| Wire.DecodeConnect | internal/protocol/mqtt.go:136-173 | the offset form reads one field after another, with the error of the first that is missing |
| Wire.FlagBits | internal/protocol/mqtt.go:263-283 | every bit of the flag byte: clean session, will, its QoS and retain, password, user name, and the reserved one clear |
| Wire.EncodeConnect | internal/protocol/mqtt.go:263-296 | the flags and fields of section 3.1 of MQTT 3.1.1, in order |
| Wire.ConnectExample | internal/protocol/mqtt.go:263-296 | one whole packet, byte by byte |
| Wire.ConnectLaidOutIsRead | internal/protocol/mqtt.go:136-173 | every body laid out as section 3.1 of MQTT 3.1.1 says is accepted as what it announces |
| Wire.ConnectReadIsLaidOut | internal/protocol/mqtt.go:136-173 | and every body that is accepted is so laid out, so nothing of the will gets into the credentials |
| Wire.WillIsSkipped | internal/protocol/mqtt.go:154-161 | the will never shifts what follows it |
| Wire.ConnectRoundTrip | internal/protocol/mqtt.go:136-296 | for every combination of will, username and password with fields that fit, identity, keep-alive and credentials come back, and the packet is within MaxPacketSize |
| Wire.ConnectReadsBackExactly | internal/protocol/mqtt.go:136-296 | with a will that fits, or none, that holds if and only if the other three fields fit their prefixes |
| Wire.DecodeSubscribe | internal/protocol/mqtt.go:208-225 | the loop reads the filters the recursive definition says, errors included |
| Wire.EncodeSubscribe | internal/protocol/mqtt.go:300-308 | packet id, then each filter with its QoS byte |
| Wire.SubscribeRoundTrip | internal/protocol/mqtt.go:208-308 | any list of filters comes back if and only if every one fits its prefix |
| Wire.SubscribeAcceptedExactly | internal/protocol/mqtt.go:208-225 | a body is accepted with an id and filters if and only if it is that id and each filter with some QoS byte after it |
| Wire.EncodeSuback | internal/protocol/mqtt.go:387-393 | packet id and one grant per filter |
| Wire.SubackMatches | internal/server/session.go:372-377 | the answer to an accepted SUBSCRIBE carries its id and one return code per filter, and decodes if and only if there was a filter |
| Wire.SubackDecodedExactly | internal/protocol/mqtt.go:379-384 | a SUBACK is read if and only if it is the id in two bytes and at least one code |
| Wire.PublishRoundTrip | internal/protocol/mqtt.go:183-205 | plain and retained messages come back, with the retain flag |
| Wire.PublishDecodedExactly | internal/protocol/mqtt.go:183-199 | a body is read as a message if and only if it is its topic, with a QoS its packet id, and the payload |
| Wire.PublishQoS1RoundTrip | internal/protocol/mqtt.go:183-325 | QoS 1 messages come back with their packet id |
| Topics.SplitTopic | internal/mqtt/client.go:360-370 | the loop over indices is the recursive split |
| Topics.TopicMatches | internal/mqtt/client.go:344-358 | the loop over levels is the recursive match |
| Topics.MatchMeans | internal/mqtt/client.go:344-358 | a topic matches if and only if it agrees with every level before the first '#', and has as many levels when there is none |
| Texts.JoinSplit | internal/mqtt/client.go:360-370 | splitting then joining is the identity, and no level holds a separator |
| Texts.SplitJoin | internal/mqtt/client.go:360-370 | joining then splitting levels is the identity |
| Texts.TrimSpaceMeans | internal/config/lamps.go:17-34 | trimming takes away white space at the two ends, all of it and nothing else |
| Texts.LessMeans | internal/registry/registry.go:163-172 | the order of names: at the first difference the smaller character, or the shorter of two that agree |
| Topics.CommandLevels | internal/hass/topics.go:68-71 | a command topic has the levels of the root, "haigosmart" when blank, and then light, the id, set |
| Topics.FilterMatchesCommands | internal/hass/topics.go:68-80 | for a root without wildcards a topic matches the command filter if and only if it is the command topic of an id without a slash |
| Topics.FilterIsExact | internal/hass/topics.go:68-80 | the filter takes in command topics alone if and only if the root has no wildcard level |
| Topics.WildcardOverreaches | internal/hass/topics.go:68-80 | otherwise a topic that is nobody's command topic matches |
| Topics.ParsedExactly | internal/hass/command.go:25-36 | an id is answered if and only if the topic is the command topic of that non-empty, slash-free id, or the overlapping topic with the id "set" |
| Topics.DeliveredTopicsParse | internal/hass/command.go:25-36 | on the topics the filter takes in, the parser is exact and refuses only the empty id |
| Client.IDsRepeatExactly | internal/mqtt/client.go:294-301 | packet ids are never 0 and two are equal if and only if a multiple of 65535 ids apart |
| Client.Client.constructor | internal/mqtt/client.go:78-94 | no connection, no filter, no id issued |
| Client.Client.TakePacketID | internal/mqtt/client.go:319-325 | the 16-bit increment that steps over 0 |
| Client.Client.Register | internal/mqtt/client.go:307-315 | the filter is registered, and the answer is whether a connection is current |
| Client.Client.Connect | internal/mqtt/client.go:146-152 | the connection becomes current and all filters are copied in one critical section |
| Client.Client.Disconnect | internal/mqtt/client.go:154-159 | no connection is current |
| Client.Client.Dispatch | internal/mqtt/client.go:244-257 | a message reaches the handler of some matching filter, and nobody if and only if none matches |
| Client.NoFilterIsForgotten | internal/mqtt/client.go:294-341 | over every interleaving, while a connection is current each registered filter has been attempted on it, is in the copied worklist, or is held by a sender that started from it; at rest each was sent or its caller got the error |
| Client.ReconnectRestores | internal/mqtt/client.go:146-166 | every filter registered before a connect is sent by the new session itself, unless that filter is still in its worklist or being sent, or the session ends in an error |
| Client.ResubscriberHasItsConnection | internal/mqtt/client.go:161-166 | the session's own resubscription always has its connection current |
| Client.PacketIDsAreDistinct | internal/mqtt/client.go:294-327 | over every interleaving, ids are between 1 and 65535 and repeat only 65535 issues on |
| Convert.KelvinSettles | internal/hass/convert.go:36-60 | percent to Kelvin to percent to Kelvin is percent to Kelvin, for every span |
| Convert.PercentSettles | internal/hass/convert.go:36-60 | Kelvin to percent to Kelvin to percent is Kelvin to percent, for every span |
| Convert.PercentKeptExactly | internal/hass/convert.go:36-60 | every percentage survives a trip through Kelvin if and only if the span is at least 100 |
| Convert.KelvinMonotone | internal/hass/convert.go:36-43 | percent to Kelvin is monotone |
| Convert.PercentMonotone | internal/hass/convert.go:47-60 | Kelvin to percent is monotone |
| Convert.PercentIsAByte | internal/hass/convert.go:47-60 | the narrowing to eight bits never truncates, whatever the configuration |
| Convert.KelvinMeans | internal/hass/convert.go:36-43 | with both bounds configured 0 percent is the lower, 100 and more the upper, and between them the nearest Kelvin value |
| Convert.PercentMeans | internal/hass/convert.go:47-60 | the other way, 0 at or below the lower bound, 100 at or above the upper, the nearest percentage between |
| Convert.BlankBounds | internal/hass/topics.go:38-53 | a blank bound is 2700 or 6500 Kelvin |
| Convert.NoSpan | internal/hass/convert.go:36-60 | bounds that leave no span give 0 percent for every Kelvin value, and reversed ones put 100 percent one Kelvin above the lower |
| Convert.BrightnessMeans | internal/hass/convert.go:9-33 | brightness is rounded down one way and to the nearest the other, within both scales |
| Convert.BrightnessSettles | internal/hass/convert.go:9-33 | every brightness survives Home Assistant's scale, and any value settles after one exchange |
| Reports.ComputeChangedProps | internal/protocol/alink.go:250-271 | the appending form yields the properties to send, on first, off alone |
| Reports.ChangedPropsMean | internal/protocol/alink.go:250-271 | which property is sent if and only if what, the switch first, then brightness, then warmth, and attributes to a lit lamp only |
| Reports.SettledState | internal/protocol/alink.go:168-184 | what the reports of an obedient lamp to those commands add up to, field by field |
| Reports.PostMeans | internal/protocol/alink.go:168-184 | a reported field replaces the old value, an absent one keeps it, and the time is the report's |
| Reports.ClampMeans | internal/protocol/alink.go:186-194 | a reported number becomes the percentage below it, within 0 and 100 |
| Reports.RefineMeans | internal/protocol/capabilities.go:53-60 | a report only adds to what is known of a lamp, exactly when it shows a warmth not known before |
| Reports.CommandsConverge | internal/protocol/alink.go:243-271 | the lamp reaches the wanted power always, and the wanted non-zero brightness and supported warmth if and only if those to be sent are percentages, which is exactly when recomputing yields nothing |
| Reports.Resolve | internal/lights/service.go:165-206 | the sequence of overwrites is the declarative meaning of a partial change, with the first objection found |
| Reports.RefusedExactly | internal/lights/service.go:165-206 | the exact condition on which a change is refused, and the reason given |
| Reports.AcceptedMeans | internal/lights/service.go:165-206 | field by field, what an accepted change asks for: what was given, what a brightness implies for power, what is kept |
| Reports.ChangeIsShown | internal/lights/service.go:121-206 | once an obedient lamp has answered, its power is the one asked for and, lit, it shows the warmth and brightness asked for |
| Reports.RepeatSendsNothing | internal/lights/service.go:165-206 | a change that was accepted is accepted again from the settled state and then sends nothing |
| Reports.EachFieldIsTheLatestReported | internal/server/session.go:435-462 | with one session for the device, every field is the latest value reported for it, whatever runs in between, the reports of other lamps included |
| Reports.CommitIsFaithfulExactly | internal/server/session.go:435-462 | one report is folded onto the current state if and only if nothing it does not mention changed since it was read |
| Reports.CommitHoldsExactly | internal/server/session.go:435-462 | from a state in which every field is the latest reported, it still is after a commit if and only if that commit agrees in this sense |
| Reports.LatestReportedExactly | internal/server/session.go:435-462 | over any run with any number of sessions and reports under way, every field is the latest reported in every state if and only if every commit agrees |
| Reports.TwoSessionsLoseAReport | internal/server/session.go:435-462 | two sessions can lose a reported field |
| Lamps.IsVerb | internal/control/execute.go:253-260 | true if and only if the name is a verb up to case |
| Lamps.ParseLamps | internal/config/lamps.go:16-60 | the loop with its two indexes accepts and refuses as the specification does |
| Lamps.AcceptedExactly | internal/config/lamps.go:16-60 | accepted with these lamps if and only if blank and empty, or each entry is well formed and says one lamp, in order and none skipped, ids and names pairwise distinct and no name a verb |
| Lamps.RefusalPointsAtTheEntry | internal/config/lamps.go:27-53 | a refusal names the entry it is about, the ones before it are fine, and an earlier lamp it blames really clashes |
| Lamps.PrintParsesExactly | internal/config/config.go:236-247 | a list of lamps printed and parsed comes back if and only if it could have been accepted |
| Lamps.ParsePrintParse | internal/config/lamps.go:16-60 | what was accepted survives being printed and parsed again |
| Startup.DeclareLamps | cmd/haigosmartd/main.go:252-272 | every configured lamp is declared in order, the first refusal stops, and the answer lists the lamps not configured |
| Startup.EveryStrangerIsWarnedAbout | cmd/haigosmartd/main.go:263-271 | the warnings name exactly the registry's lamps the configuration does not |
| Startup.StartsExactly | cmd/haigosmartd/main.go:252-262 | with an accepted setting startup succeeds if and only if no lamp not yet given its configured name bears a configured one; then configured lamps differ only in name and adoption and no other entry is touched |
| Startup.StartIsSound | cmd/haigosmartd/main.go:101-117 | from any file and any setting, a program that starts has distinct names and no driver, as the ownership and restart results ask |
| Startup.AdmittedRunsAreSafe | cmd/haigosmartd/main.go:115-124 | a program that lets in configured lamps only: from any file, over any run and any number of restarts, names are distinct in every state and every saved file loads back, with no further assumption |
| Startup.LostFileCostsNothing | internal/registry/registry.go:93-104 | on an empty registry every accepted setting starts, all lamps offline |
| Startup.RestartStartsAgain | internal/registry/registry.go:93-147 | a restart with the same setting starts and changes nothing |
| Startup.SwapStops | cmd/haigosmartd/main.go:252-259 | two lamps cannot swap names by configuration |

## Left out

- Sockets, deadlines, TLS, dialling and backoff: a read is a byte stream or an error, a write succeeds or fails.
- JSON: the encoders and decoders of payloads and of the registry file are taken as lossless; `Listings.Disk` says what reading the file may find.
- The Home Assistant bridge, the terminal interface, command parsing, help, logging and flags.
- Ordering of the Connected and Disconnected events of two sessions: the ownership check and the publication are separate steps; only what holds at the check is claimed.
- Persist.NoLostUpdate: assumes that no save starts while another is in flight and that none fails, because the code guarantees neither; what happens otherwise is `Persist.DrainsSafelyExactly` and `Persist.FailureForgets`. LastSeen and ReportedAt are not compared, because Touch and unchanged reports never mark the registry dirty.
- Confirm.EveryConfirmationArrives: assumes that no two commands in flight share an id, because ids are milliseconds modulo 10^9; `Confirm.SendKeepsAllFoundExactly` is the exact condition.
- Confirm.OneOutcome: assumes the same, because with a shared id the first word may go to the other command.
- Confirm.ApplyAll: takes the way each command ended as a parameter; the wait itself is in the step system.
- Wire.ConnectReadsBackExactly: not for an over-long will, because what is read after it then depends on the will's own bytes, which can by chance read as the right credentials.
- The writes inside a store's save (temporary file, sync, rename) are one step, Write: a crash in between leaves the old file.
- The dropped counter's wrap at 2^64, and the counter increment as a step apart from the eviction.
- The capacity a Go slice grows to: `RateLimits.Slice` takes twice the length and one.
- Letter case: `Resolve` takes strings.ToLower as a parameter, and `Lamps.FoldsTo` folds the letters that can fold to a lower-case ASCII letter. Strings are sequences of code points; text that is not UTF-8 is not modelled.
- Modes other than white and scene, and report values that are not numbers.
- RegistryState.Registry.Resolve: the candidates are sorted as entries by name and then projected, not sorted as names; `Listings.CandidatesAreUnique` shows the list is the same.
- Packet ids and lengths are naturals; the 16-bit wrap of packet ids and the cut of string lengths are written out, the rest never reaches its width.
