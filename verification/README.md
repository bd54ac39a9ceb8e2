# Models of the GNSS HAL's message loops

The location HAL runs each adapter's commands one at a time on a message queue. This project models the stateful
parts of those handlers as steps over explicit state and proves what every run of them keeps. Each component
appears twice: as functions on values, about which the properties are proved, and as a class (or a method with a
loop) that updates its fields in place, proved to do exactly what the functions say.

`dafny verify dfyconfig.toml` checks everything.

## The components

- **AGPS** (`AgpsProtocol`, `AgpsRuns`, `AgpsClaims`, `AgpsLoop`, `AgpsMachine`): the connection state machine that
  multiplexes modem subscribers over one data connection, what each handle is to it, and the same machine
  closed by the native handler that answers each of its messages through the adapter's queue, with or without a
  lookup of the PDN type.
- **Tracking sessions** (`Tracking`, `TrackingMaps`, `TrackingPower`, `TrackingAdapter`): many time-based sessions over
  one engine, the maps they are kept in, and the engine's interval and power mode.
- **Outdoor trips** (`Trips`, `TripPrograms`, `TripAdapter`): many trips over one modem odometer, in 32-bit arithmetic
  that wraps.
- **Satellite blacklist** (`Bits`, `Blacklist`): lists of satellite ids to six 64-bit masks and back.
- **GPS lock** (`GpsLock`): five writers of one lock under two regimes.
- **Elapsed real time** (`Estimator`): anchoring the modem's clock to the boot clock.
- **Subscription index** (`Subscriptions`, `SubscriptionObserver`): two maps of sets that should be converse.
- **Network table** (`NetworkTable`, `NetworkRuns`, `NetworkInfo`): ten handles, compacted by moving the last one into
  the gap, and the cached reports that carry them on.
- **Adapter array** (`AdapterTable`, `LocApi`): ten listeners, the union of their event masks, and the modem session
  that follows through posted messages.
- **ODCPI** (`Odcpi`): the throttle of position requests to the framework.
- **Geofences** (`Geofences`, `GeofenceMaps`): hardware ids and client keys with delayed answers.
- **Debug sentences and status reports** (`DebugNmea`, `ReportCache`): the tokenizer, and the five-entry history.
- `Wrappers` and `OrderedMaps` hold the shared containers; an ordered map is the sequence of its entries.

## Where the code does less than it promises

Each point names the lemma that says exactly when it happens and the lemma with a concrete run from the start.

- `LocUnorderedSetMap::update` is documented to return the values it removes, but returns the values it keeps. A
  subscription update therefore leaves the two indices converse only for a client that had no subscription, and a
  client that renews its subscription loses it (`UpdateKeepsConverseExactly`, `RenewingUnsubscribes`).
- Losing one of two handles of a network type forgets every other type (`CollateKeepsMaskExactly`,
  `LosingOneOfTwoForgetsMobile`).
- An AGPS request with an APN the adapter refuses waits for ever, and so does one of a type the native handler does
  not know (`LiveExactlyWhenAnswered`, `RefusedApnWedges`, `ForeignTypeWedges`). No such type is shown to arise: the
  three types that gps/gnss/GnssAdapter.cpp:5217-5223 names are all known or refused.
- A failed open handled while releasing orphans a close that later hits a granted client (`ClosesStayOwedExactly`,
  `StaleCloseHitsAnotherClient`).
- A client that asks again before its release is closed loses the request (`ActiveExactlyIfWanted`,
  `RequestWhileLeavingIsLost`).
- An in-place tracking update can leave the engine faster than any session asks (`UpdateIsTightExactly`,
  `UpdateLeavesEngineFast`), and moving a session to distance tracking that the modem lacks can leave it unserved
  (`UnsupportedMoveExactly`, `UnsupportedMoveStopsEngine`).
- A session that starts or updates faster than all others can turn the engine's power mode below what another one asks
  for (`StepIsStrongExactly`, `FasterStartWeakensPower`).
- Stopping a trip can program more than the others have to go (`StopIsOnTimeExactly`, `StopForgetsDistance`).
- Starting a trip, or restarting the engine, moves running trips back (`StartConservesExactly`,
  `StartForgetsDistance`; `EngineRestartConservesExactly`, `EngineRestartForgetsDistance`); a trip started beside
  another one cannot be stopped (`TripStopsExactly`, `SecondTripRunsOn`).
- An access-control command posted before and handled after the switch of regime locks the modem although location is
  enabled (`StepAgreesExactly`, `LateCommandLocksModem`).
- A mask update or modem restart while no adapter is registered opens a modem session for nobody
  (`ClosesForNobodyExactly`, `LateUpdateOpensForNobody`).
- A restart brings back geofences of clients that had left and forgets which fences are paused
  (`RestartRestoresExactly`, `RestartBringsBackTheGone`; `PauseIsForgottenExactly`, `RestartForgetsThePause`). A late
  answer to an add, too, saves a fence for nobody (`EveryRunIsOwnedExactly`, `LateAddIsCoherent`).

Unreachable in this repository, because nothing calls the AGPS manager's handler of modem restarts: a restart would
leave an acquired connection without subscribers (`StatesStayMotivatedExactly`, `RestartOrphansTheConnection`).

## Model

The remaining methods of the classes have no loop of their own: each is proved to make exactly the step that the
function of the same message makes, and has no row.

| member | source | states |
|---|---|---|
| AgpsProtocol.ToldAreRemoved | gps/gnss/Agps.cpp:310-343 | A notification that deletes tells each subscriber it removes exactly once, and removes nobody untold |
| AgpsProtocol.TellReaches | gps/gnss/Agps.cpp:310-380 | Exactly the handles of the chosen audience hear the news |
| AgpsRuns.FinishReleaseEnds | gps/gnss/Agps.cpp:215-237 | A finished release leaves exactly the active subscribers: pending for them, or released with an empty list |
| AgpsRuns.StepTally | gps/gnss/Agps.cpp:73-287 | In every step a handle leaves the list exactly when it is told its end, once; requests minus releases, denials and forced releases move as the state does |
| AgpsRuns.GrantReachesTheActive | gps/gnss/Agps.cpp:173-194 | A grant in PENDING sends open-success to exactly the active subscribers |
| AgpsRuns.OpenReachesTheActive | gps/gnss/Agps.cpp:84-107 | In ACQUIRED every active subscriber has been sent open-success since it was admitted |
| AgpsRuns.StatesStayMotivated | gps/gnss/Agps.cpp:109-171 | Without a modem restart each state keeps the subscriber that explains it |
| AgpsRuns.StatesStayMotivatedExactly | gps/gnss/Agps.cpp:495-506 | An event keeps each state explained iff it is no modem restart outside RELEASED |
| AgpsRuns.EveryRunBalances | gps/gnss/Agps.cpp:73-308 | Over every run, restarts included: connection accounting is exact, RELEASED means an empty list, admitted = listed + told + dropped, no handle is listed twice |
| AgpsRuns.EveryRunIsMotivated | gps/gnss/Agps.cpp:73-287 | Over every run without modem restart, a wanted connection has an active subscriber and a releasing one an inactive one |
| AgpsRuns.RunsAreMotivatedExactly | gps/gnss/Agps.cpp:73-308 | A run keeps each state explained at every moment iff the modem never restarts outside RELEASED |
| AgpsRuns.WatchingIsPassive | gps/gnss/Agps.cpp:73-287 | The ledger kept for one handle does not influence the machine |
| AgpsRuns.RestartOrphansTheConnection | gps/gnss/Agps.cpp:495-506 | A restart in ACQUIRED leaves the connection acquired with no subscriber |
| AgpsClaims.ReleaseIsExact | gps/gnss/Agps.cpp:109-171 | After a release outside RELEASED no active subscriber has the handle; one that waits for the close stays listed inactive, any other is gone; all other subscribers are as before |
| AgpsClaims.LastReleaseReleases | gps/gnss/Agps.cpp:133-145 | The connection is released in exactly the release after which no active subscriber is left |
| AgpsClaims.StepKeepsClaim | gps/gnss/Agps.cpp:73-287 | One event changes what a handle is listed as just as its requests, releases and endings say |
| AgpsClaims.EveryClaimHolds | gps/gnss/Agps.cpp:73-308 | Over every run, restarts included, a handle is listed active, listed inactive or not listed exactly as its own requests, releases and endings say |
| AgpsClaims.ActiveExactlyIfWanted | gps/gnss/Agps.cpp:84-171 | Over every run a handle is an active subscriber iff its last request came after its last release and ending, and not while it was still leaving |
| AgpsClaims.RequestWhileLeavingIsLost | gps/gnss/Agps.cpp:392-411 | A concrete run in which a client asks again before the close has come and loses its request |
| AgpsClaims.StepTells | gps/gnss/Agps.cpp:345-366 | Open-success and open-failed are told to exactly the handles they concern, in exactly the events that grant or deny |
| AgpsClaims.StepCloses | gps/gnss/Agps.cpp:367-371 | So is a close: when the connection is gone, or when a subscriber that does not wait for it releases |
| AgpsLoop.EventAnswers | gps/gnss/NativeAgpsHandler.cpp:105-127 | Which replies one event earns from the native handler |
| AgpsLoop.NetworkIsTheLast | gps/gnss/NativeAgpsHandler.cpp:42-69 | Over every run the handler answers for the network last announced, and the machine asks for the type last requested |
| AgpsLoop.LiveExactlyWhenAnswered | gps/gnss/NativeAgpsHandler.cpp:105-127 | A message keeps PENDING and RELEASING supplied with a reply exactly if what it sends will be answered or a reply is in flight already |
| AgpsLoop.NeverWedges | gps/gnss/GnssAdapter.cpp:5301-5417 | Over every run of internet requests, releases, replies, lookups, network changes and restarts, PENDING has an open reply and RELEASING a closed reply in flight |
| AgpsLoop.DrainingCosts | gps/gnss/Agps.cpp:196-283 | Each drained reply or lookup lowers the remaining effort |
| AgpsLoop.DrainIsBounded | gps/gnss/Agps.cpp:196-283 | With no client command, any order of replies and lookups ends within the effort |
| AgpsLoop.DrainIsShort | gps/gnss/Agps.cpp:196-283 | Without lookups, draining takes at most the queue length plus one |
| AgpsLoop.DrainedIsSettled | gps/gnss/Agps.cpp:173-283 | A live loop with nothing left to drain is ACQUIRED or RELEASED |
| AgpsLoop.OrdinaryRunsSettle | gps/gnss/Agps.cpp:73-287 | After every ordinary run, draining stops within the effort (queue length plus one without lookups), and a drained connection is ACQUIRED or RELEASED |
| AgpsLoop.UnfinishedDrainsGoOn | gps/gnss/Agps.cpp:196-283 | A drain that left something can go on, so every maximal one ends drained |
| AgpsLoop.ClosesStayOwedExactly | gps/gnss/Agps.cpp:196-283 | A message keeps every close in flight owed to the running release iff it is no failed open handled while releasing with the close still to come, which in a live loop it always is |
| AgpsLoop.RunsOweClosesExactly | gps/gnss/Agps.cpp:196-283 | An ordinary run keeps every close owed at every moment iff it never handles a failed open while releasing |
| AgpsLoop.ClosesEndOnlyReleases | gps/gnss/Agps.cpp:196-212 | On runs without such a failure no granted connection is closed under its clients |
| AgpsLoop.StaleCloseHitsAnotherClient | gps/gnss/Agps.cpp:243-283 | A concrete run in which a close owed to one client ends another's connection |
| AgpsLoop.ForeignTypeWedges | gps/gnss/Agps.cpp:537-561 | A type served by the internet machine but unknown to the handler stays pending with nothing in flight |
| AgpsLoop.RefusedApnWedges | gps/gnss/GnssAdapter.cpp:5357-5366 | So does a request whose APN the adapter refuses |
| AgpsLoop.ImmediateCloseIsIgnored | gps/gnss/Agps.cpp:196-241 | The close reported at once for a refused APN changes nothing in the states that send requests |
| AgpsMachine.AgpsStateMachine.GetSubscriber | gps/gnss/Agps.cpp:465-478 | Finds the first subscriber of a handle |
| AgpsMachine.AgpsStateMachine.AnyActiveSubscribers | gps/gnss/Agps.cpp:432-442 | True iff some subscriber is active |
| AgpsMachine.AgpsStateMachine.AddSubscriber | gps/gnss/Agps.cpp:392-411 | Appends unless the handle is listed |
| AgpsMachine.AgpsStateMachine.DeleteSubscriber | gps/gnss/Agps.cpp:413-430 | The erasing walk removes every entry of the handle and keeps the order of the others |
| AgpsMachine.AgpsStateMachine.NotifyAllSubscribers | gps/gnss/Agps.cpp:310-343 | The walk makes exactly the callbacks of the audience in list order and, when deleting, keeps exactly the others |
| AgpsMachine.AgpsStateMachine.ProcessSubscribe | gps/gnss/Agps.cpp:73-107 | Does the subscribe step, callbacks in order |
| AgpsMachine.AgpsStateMachine.ProcessUnsubscribe | gps/gnss/Agps.cpp:109-171 | Does the unsubscribe step, callbacks in order |
| AgpsMachine.AgpsStateMachine.ProcessGranted | gps/gnss/Agps.cpp:173-194 | Does the granted step |
| AgpsMachine.AgpsStateMachine.ProcessReleased | gps/gnss/Agps.cpp:196-241 | Does the released step |
| AgpsMachine.AgpsStateMachine.ProcessDenied | gps/gnss/Agps.cpp:243-287 | Does the denied step |
| AgpsMachine.AgpsStateMachine.DropAllSubscribers | gps/gnss/Agps.cpp:495-506 | Empties the list without a callback |
| AgpsMachine.AgpsManager.RequestATL | gps/gnss/Agps.cpp:563-597 | Routes by effective type; without a machine the open fails at once; the other machine is untouched |
| AgpsMachine.AgpsManager.ReleaseATL | gps/gnss/Agps.cpp:599-625 | Reaches the first machine that lists the handle and no other |
| AgpsMachine.AgpsManager.NativeRouting | gps/gnss/Agps.cpp:514-561 | With only the internet machine, routing is that of the closed loop |
| Tracking.FastestIsLeast | gps/gnss/GnssAdapter.cpp:3062-3078 | The loops with an unset sentinel find the options of least interval among the sessions not skipped |
| Tracking.StartMultiplexServes | gps/gnss/GnssAdapter.cpp:3046-3099 | After a start the engine is fast enough for the old sessions and the new one |
| Tracking.UpdateMultiplexServes | gps/gnss/GnssAdapter.cpp:3293-3355 | So it is after an update |
| Tracking.StopMultiplexServes | gps/gnss/GnssAdapter.cpp:3412-3460 | And for the others after a stop |
| Tracking.RestartIsTight | gps/gnss/GnssAdapter.cpp:2696-2728 | A restart puts the engine at exactly the least interval |
| Tracking.StaysHealthy | gps/gnss/GnssAdapter.cpp:2966-3460 | Every message but the unsupported move keeps the engine promise |
| Tracking.EveryRunIsHealthy | gps/gnss/GnssAdapter.cpp:2966-3460 | Over every run the engine runs iff a time-based session exists, at most at each session's interval, and at 100 ms while an nHz need is served |
| Tracking.EveryRunIsTight | gps/gnss/GnssAdapter.cpp:2966-3460 | Without nHz need and in-place updates it runs at exactly the least interval |
| Tracking.UpdateIsTightExactly | gps/gnss/GnssAdapter.cpp:3293-3355 | An in-place update keeps the interval exact iff it is not the pace-setter slowing past the others without a stronger power mode |
| Tracking.UpdateLeavesEngineFast | gps/gnss/GnssAdapter.cpp:3293-3355 | A concrete update after which the engine stays at 100 ms while every session asks for 1000 ms or more |
| Tracking.UnsupportedMoveExactly | gps/gnss/GnssAdapter.cpp:3199-3290 | The move to unsupported distance tracking keeps the engine promise iff there are other sessions and an nHz need, or the pace they are left with is fast enough |
| Tracking.UnsupportedMoveStopsEngine | gps/gnss/GnssAdapter.cpp:3199-3290 | A concrete move that leaves a time-based session with the engine off |
| Tracking.RemoveClientIsExact | gps/gnss/GnssAdapter.cpp:2457-2488 | Removing a client removes exactly its time-based and its distance-based sessions |
| TrackingMaps.EverySessionIsFiled | gps/gnss/GnssAdapter.cpp:2877-3410 | Over every run each session is in the one map that fits what it last asked for, with the options granted for that, and in none once stopped or its client removed |
| TrackingMaps.EngineServesTheWishes | gps/gnss/GnssAdapter.cpp:2966-3460 | Over every run of supported messages the engine runs iff some started and not stopped session wants it, and fast enough for each of them |
| TrackingMaps.StartFiles | gps/gnss/GnssAdapter.cpp:3001-3036 | A start enters its session in the map that fits and leaves all others where they are |
| TrackingMaps.UpdateSaves | gps/gnss/GnssAdapter.cpp:3199-3290 | An update files its session in the map that fits it now and in no other, and leaves all others where they are |
| TrackingMaps.StopFiles | gps/gnss/GnssAdapter.cpp:3357-3410 | A stop takes its session out of the map it is in and leaves all others where they are |
| TrackingMaps.RemovalFiles | gps/gnss/GnssAdapter.cpp:2457-2488 | A client removal takes exactly its sessions out of both maps |
| TrackingMaps.RestartsTighten | gps/gnss/GnssAdapter.cpp:2661-2728 | A suspension, a modem restart and the end of an nHz need put the engine at exactly the least interval, whatever it was left at |
| TrackingMaps.NHzNeedIsTheLast | gps/gnss/GnssAdapter.cpp:6655-6660 | Over every run the nHz need is the one last announced |
| TrackingPower.StepIsStrongExactly | gps/gnss/GnssAdapter.cpp:2966-3460 | A message leaves the engine as strong as every session asks iff it is no start or update that is faster than all other sessions, not the strongest, and paced by one that is not the strongest either; at the highest rate for an nHz need, iff it asks for no stronger mode |
| TrackingPower.EveryRunIsStrongExactly | gps/gnss/GnssAdapter.cpp:2966-3460 | Over every run of supported messages the engine is as strong as every session asks at every moment iff no message weakens it in that way |
| TrackingPower.StopIsStrong | gps/gnss/GnssAdapter.cpp:3412-3460 | A stop leaves the engine as strong as every other session asks |
| TrackingPower.RestartIsStrongest | gps/gnss/GnssAdapter.cpp:2696-2728 | A restart takes the strongest mode that some session has, and the interval and the distance of the fastest one |
| TrackingPower.HighestIsLeftAlone | gps/gnss/GnssAdapter.cpp:217-239 | At the highest rate for an nHz need, starts, in-place updates and stops that leave a session do not restart the engine |
| TrackingPower.FasterStartWeakensPower | gps/gnss/GnssAdapter.cpp:3066-3091 | A concrete start that turns the engine from mode 1 down to mode 4 although a session asks for mode 1 |
| TrackingAdapter.GnssAdapter.CheckAndSetSPEToRunForNHz | gps/gnss/GnssAdapter.cpp:217-239 | Whether the engine already runs at the highest rate, else the options to start it with |
| TrackingAdapter.GnssAdapter.FindFastest | gps/gnss/GnssAdapter.cpp:3062-3078 | The loop over all sessions but one is the choice function |
| TrackingAdapter.GnssAdapter.StartTimeBasedTrackingMultiplex | gps/gnss/GnssAdapter.cpp:3046-3099 | Does the start of the model |
| TrackingAdapter.GnssAdapter.UpdateTrackingMultiplex | gps/gnss/GnssAdapter.cpp:3293-3355 | Does the update of the model |
| TrackingAdapter.GnssAdapter.StopTimeBasedTrackingMultiplex | gps/gnss/GnssAdapter.cpp:3412-3460 | Does the stop of the model |
| TrackingAdapter.GnssAdapter.CheckAndRestartSPESession | gps/gnss/GnssAdapter.cpp:2661-2728 | Does the restart of the model |
| TrackingAdapter.GnssAdapter.StopClientSessions | gps/gnss/GnssAdapter.cpp:2457-2488 | Handles a client removal as the model does |
| TrackingAdapter.GnssAdapter.TimeBasedKeys | gps/gnss/GnssAdapter.cpp:2463-2468 | Collects exactly the client's time-based sessions in order |
| Trips.LeastRemainingIsLeast | gps/batching/BatchingAdapter.cpp:1032-1050 | With positive remainders the zero-sentinel loop finds the least remaining distance |
| Trips.SurvivorsAreRunning | gps/batching/BatchingAdapter.cpp:746-772 | A report drops exactly the completed trips and leaves the others as far along as they were, with distance to go |
| Trips.RestartCarries | gps/batching/BatchingAdapter.cpp:1010-1114 | Restarting the batch, or not, keeps every trip's travelled distance |
| Trips.ReportConservesDistance | gps/batching/BatchingAdapter.cpp:746-786 | For all 32-bit values, a report keeps every surviving trip's travelled distance while the odometer resets |
| Trips.ReportProgramsTheLeast | gps/batching/BatchingAdapter.cpp:1010-1114 | A timely report programs exactly the least distance a surviving trip still has to go |
| Trips.RecordIsCurrentExactly | gps/batching/BatchingAdapter.cpp:756-758 | A trip's record is up to date at exactly one odometer |
| Trips.RecordsAreTaken | gps/batching/BatchingAdapter.cpp:834-1114 | After each message that is the odometer of the last report, of the restart of the batch, or of the trip's own start |
| Trips.StartConservesExactly | gps/batching/BatchingAdapter.cpp:870-943 | A start restarts the batch iff it is the first, shorter than what is left or faster; a running trip keeps its progress iff it does not, or the odometer has not moved since the trip's record |
| Trips.StartForgetsDistance | gps/batching/BatchingAdapter.cpp:922-929 | A concrete start that takes a trip of 600 m back to zero |
| Trips.EngineRestartConservesExactly | gps/batching/BatchingAdapter.cpp:285-319 | An engine restart keeps a trip's progress iff the lost odometer showed nothing |
| Trips.EngineRestartForgetsDistance | gps/batching/BatchingAdapter.cpp:285-319 | A concrete engine restart that takes a trip of 600 m back to zero |
| Trips.EveryRunHasLeastInterval | gps/batching/BatchingAdapter.cpp:834-1114 | Over every run of starts, stops, reports and engine restarts the batching interval is the least of all running trips, and 0 without trips |
| Trips.SavedExactlyAlone | gps/batching/BatchingAdapter.cpp:834-943 | A trip is saved as a session iff no other ran when it started, through all messages about others |
| Trips.TripStopsExactly | gps/batching/BatchingAdapter.cpp:541-579 | A stop ends a running trip iff no other trip ran when it started; otherwise it changes nothing |
| Trips.SecondTripRunsOn | gps/batching/BatchingAdapter.cpp:870-943 | A concrete run of two starts after which the second trip cannot be stopped |
| TripPrograms.FirstStartPrograms | gps/batching/BatchingAdapter.cpp:834-869 | The first trip programs its own distance and interval |
| TripPrograms.StartProgramsTheLesser | gps/batching/BatchingAdapter.cpp:870-943 | A start beside running trips programs the lesser of its distance and what was left of the programmed one, and the lesser interval; it restarts the batch iff one of them is its own |
| TripPrograms.StartEntersTheTrip | gps/batching/BatchingAdapter.cpp:897-929 | The new trip is recorded with its distance and interval, and nothing travelled |
| TripPrograms.StartIsOnTime | gps/batching/BatchingAdapter.cpp:870-943 | While the trips are on time, a start keeps it so that the programmed distance is reached no later than any trip is over, the new one included |
| TripPrograms.StopPrograms | gps/batching/BatchingAdapter.cpp:971-1114 | What a stop programs: the least distance that the records leave, if the programmed one was the stopped trip's, is used up or is more, and else the same as before; the longer interval if no trip needs the programmed one any more |
| TripPrograms.StopIsOnTimeExactly | gps/batching/BatchingAdapter.cpp:971-1114 | A stop keeps the others on time iff it leaves the batch alone or what it programs is no more than any of them has to go |
| TripPrograms.StopForgetsDistance | gps/batching/BatchingAdapter.cpp:971-1114 | A concrete stop after which 3000 m are programmed although the trip left has 2600 m to go |
| TripPrograms.LastStopEnds | gps/batching/BatchingAdapter.cpp:971-1007 | The last stop leaves no trip and nothing programmed |
| TripPrograms.CompletedExactly | gps/batching/BatchingAdapter.cpp:746-772 | A report completes exactly the trips that have come their distance |
| TripPrograms.ReportProgramsExactly | gps/batching/BatchingAdapter.cpp:746-786 | What a report that completes trips programs, early or late: the same as before if that is still worked off, no ended trip had it and nobody is over sooner; else exactly the least distance left to go |
| TripPrograms.ReportPrograms | gps/batching/BatchingAdapter.cpp:731-790 | A report that completes no trip programs nothing, and one that completes the last leaves nothing programmed |
| TripPrograms.FlagsAreSetExactly | gps/batching/BatchingAdapter.cpp:759-768 | The two flags are set by exactly the reports and stops that end a trip of the programmed distance or interval, and stay set |
| TripPrograms.SavedFollows | gps/batching/BatchingAdapter.cpp:541-579 | A trip session is saved by the start that finds no trip and forgotten by the stop that finds none of it, and by nothing else |
| TripPrograms.EngineRestartPrograms | gps/batching/BatchingAdapter.cpp:285-319 | An engine restart programs the least distance that the records leave and the least interval |
| TripAdapter.BatchingAdapter.AdvanceTrips | gps/batching/BatchingAdapter.cpp:746-772 | The erasing loop keeps exactly the survivors, lists exactly the completed trips and sets the two flags |
| TripAdapter.BatchingAdapter.ReportCompletedTrips | gps/batching/BatchingAdapter.cpp:731-790 | Handles a report as the model does |
| TripAdapter.BatchingAdapter.FindLeast | gps/batching/BatchingAdapter.cpp:1032-1050 | The loop computes the least remaining distance and interval of the model |
| TripAdapter.BatchingAdapter.RestartTripBatching | gps/batching/BatchingAdapter.cpp:1010-1114 | Restarts the batch as the model does |
| TripAdapter.BatchingAdapter.StartTripBatchingMultiplex | gps/batching/BatchingAdapter.cpp:834-943 | Handles a start as the model does |
| TripAdapter.BatchingAdapter.RestartSessions | gps/batching/BatchingAdapter.cpp:285-319 | Reprograms the least distance and interval; the loop's copies leave the trips alone |
| Blacklist.ListsBecomeMasks | gps/gnss/GnssAdapter.cpp:1738-1840 | On cleared masks, the masks blacklist exactly the satellites the list does |
| Blacklist.SbasHalves | gps/gnss/GnssAdapter.cpp:1868-1880 | The two shifts split the SBAS mask at bit 39 without loss |
| Blacklist.SatellitesAreNumbered | gps/location/LocationDataTypes.h:1478-1502 | Which satellite of each constellation each bit stands for |
| Blacklist.MasksBecomeLists | gps/gnss/GnssAdapter.cpp:1842-1928 | The list blacklists exactly the satellites the masks do |
| Blacklist.MasksSurviveRestart | gps/gnss/GnssAdapter.cpp:6051-6056 | For every six masks, the list cached for a modem restart converts back to the same six masks |
| Blacklist.ListsKeepTheirMeaning | gps/gnss/GnssAdapter.cpp:1738-1928 | List to masks to list blacklists exactly the same satellites, id 0 meaning all |
| Blacklist.ConversionSucceedsExactly | gps/gnss/GnssAdapter.cpp:1738-1840 | The conversion succeeds iff the list is empty or names some satellite |
| Blacklist.ConvertGnssSvIdMaskToList | gps/gnss/GnssAdapter.cpp:1890-1928 | The shifting loop appends exactly one id per set bit in order, or id 0 for the full mask |
| Blacklist.ConvertFromGnssSvIdConfig | gps/gnss/GnssAdapter.cpp:1842-1888 | Appends all six constellations in the fixed order |
| Blacklist.ConvertToGnssSvIdConfig | gps/gnss/GnssAdapter.cpp:1738-1840 | The loop computes the masks and the success flag of the model |
| GpsLock.EveryRunKeepsMo | gps/gnss/GnssAdapter.cpp:1316-1346 | If the initial lock includes MO, over every run the stored MO bit is set iff disabled in Q mode and always in P mode |
| GpsLock.EngineUpSends | gps/gnss/GnssAdapter.cpp:916-920 | Once the engine came up, some lock has been sent |
| GpsLock.StepAgreesExactly | gps/gnss/GnssAdapter.cpp:5879-5911 | An event keeps modem and record in agreement iff it is no late access-control command |
| GpsLock.EveryRunAgrees | gps/gnss/GnssAdapter.cpp:3608-3681 | From any initial lock and over every interleaving without late commands the last lock sent is NONE if enabled in P mode, else the stored lock |
| GpsLock.LateCommandLocksModem | gps/gnss/GnssAdapter.cpp:5879-5911 | A concrete run in which a late command locks an enabled modem |
| GpsLock.ControlIsTheHolder | gps/gnss/GnssAdapter.cpp:3608-3681 | Over every run the control id is that of the first enable since the last matching disable, and 0 without one |
| GpsLock.HolderExactly | gps/gnss/GnssAdapter.cpp:3608-3681 | A session holds location iff it enabled it while nobody held it and has not disabled it since |
| GpsLock.EveryRunRecordsNfw | gps/gnss/GnssAdapter.cpp:5879-5911 | Over every run the regime, the access-control commands still to be handled and the NI bit are as the configurations and commands say |
| GpsLock.EngineUpSendsExpected | gps/gnss/GnssAdapter.cpp:916-920 | When the engine comes up, the lock of the recorded regime is sent |
| GpsLock.EveryRunSends | gps/gnss/GnssAdapter.cpp:1316-1346 | Over every interleaving without late commands, the lock last sent, told by the events alone: NONE while held in P mode, else MO while nobody holds and NI as last commanded or configured |
| GpsLock.DisablingLocks | gps/gnss/GnssAdapter.cpp:3668-3677 | A concrete enable and disable after which MO is locked again |
| Estimator.OffsetIsKept | gps/core/LocApiBase.cpp:963-983 | Once anchored, a run without mismatch never changes the modem-to-boot offset, whatever the wall clock does |
| Estimator.EstimatesFollowTheModem | gps/core/LocApiBase.cpp:938-989 | Two estimates of trusted fixes differ by exactly their modem times |
| Estimator.ThresholdCountsDown | gps/core/LocApiBase.cpp:979-983 | The threshold counts the trusted fixes, untrusted ones interleaved or not |
| Estimator.EveryEstimate | gps/core/LocApiBase.cpp:938-997 | Every estimate of every run after a reset, told by the fixes alone: boot time less initial travel for untrusted fixes and up to the sixth fix since the last that contradicts the modem time of the used one before it; modem time shifted as that sixth has set from then on; -1 without clocks |
| Estimator.RemembersLastUsed | gps/core/LocApiBase.cpp:980-982 | A fix contradicts iff its announced spacing is positive and not its distance to the modem time of the last used fix, 0 after a reset |
| Estimator.SixSecondsAnchor | gps/core/LocApiBase.cpp:962-974 | A concrete run: six fixes a second apart anchor after a reset, although the first contradicts |
| Estimator.SixthFixAnchors | gps/core/LocApiBase.cpp:971-974 | After a reset, whatever the first trusted fix announces, the first six give boot time less initial travel, and exactly the sixth anchors |
| Estimator.MismatchStartsOver | gps/core/LocApiBase.cpp:962-964 | A fix that contradicts the spacing and the next five give boot time less initial travel, and exactly the last of the six anchors again |
| Estimator.ElapsedRealtimeEstimator.GetElapsedRealtimeEstimateNanos | gps/core/LocApiBase.cpp:938-989 | Updates the clock fields and returns the estimate of the model |
| Subscriptions.UpdateRelates | gps/utils/LocUnorderedSetMap.h:186-199 | After an update the client stands under exactly the items it had or asks for, but not both |
| Subscriptions.UpdateKeepsConverseExactly | gps/core/SystemStatusOsObserver.cpp:151-203 | An update keeps the indices converse iff the client had no subscription |
| Subscriptions.RenewingUnsubscribes | gps/core/SystemStatusOsObserver.cpp:151-203 | A concrete renewal that unsubscribes the framework from the item |
| Subscriptions.EveryRunIsConverse | gps/core/SystemStatusOsObserver.cpp:94-294 | Over every run of first-time updates and all other requests the indices are converse without empty entries |
| Subscriptions.StepKeepsFrameworkExactly | gps/core/SystemStatusOsObserver.cpp:94-138 | A request keeps the framework subscribed to all indexed items iff it is no data-only request that brings in new ones |
| Subscriptions.EveryRunKeepsFramework | gps/core/SystemStatusOsObserver.cpp:62-294 | Over every run the framework-subscribed items are among the indexed ones, and stay all of them iff no data-only request ever brings in new ones |
| Subscriptions.EveryClientIsUpToDate | gps/core/SystemStatusOsObserver.cpp:94-344 | Over every run of first-time updates and all other requests, a client has been handed the current value of every cached item it is subscribed to |
| Subscriptions.NotifyDeliversExactly | gps/core/SystemStatusOsObserver.cpp:311-344 | A report hands each client exactly the changed items it subscribed to, and nobody else anything |
| Subscriptions.IndexedExactlyIfWanted | gps/core/SystemStatusOsObserver.cpp:94-294 | Over every run an item is indexed under a client iff the client's last word on it was to want it |
| Subscriptions.ClientsExactlyIfWanted | gps/core/SystemStatusOsObserver.cpp:94-294 | Over every run of first-time updates and all other requests, clients are indexed under exactly the items they want |
| Subscriptions.FirstResponseExactly | gps/core/SystemStatusOsObserver.cpp:94-203 | Over every run a client is handed at once exactly the known values of what it asks for, on an update of what it did not want before |
| Subscriptions.DataRequestExactly | gps/core/SystemStatusOsObserver.cpp:62-138 | Over such runs data is requested for exactly what a data request names once there is a framework, and for all that is wanted when there first is one |
| Subscriptions.FrameworkIsSet | gps/core/SystemStatusOsObserver.cpp:62-92 | There is a framework iff it was set, and setting it subscribes it to all indexed items |
| Subscriptions.NewItemsAreAnnounced | gps/core/SystemStatusOsObserver.cpp:113-126 | With a framework, no item is newly indexed without being subscribed or having its data requested |
| Subscriptions.RefreshStores | gps/core/SystemStatusOsObserver.cpp:558-590 | A report caches the last recorded value of each item and names as changed exactly those recorded with another value than the cached one |
| Subscriptions.CacheIsLastKnown | gps/core/SystemStatusOsObserver.cpp:301-344 | Over every run the cache holds exactly the last recorded value of each item |
| SubscriptionObserver.LocUnorderedSetMap.AddKeys | gps/utils/LocUnorderedSetMap.h:177-184 | Adds the values to every key and reports exactly the new keys |
| SubscriptionObserver.LocUnorderedSetMap.TrimOrRemove | gps/utils/LocUnorderedSetMap.h:140-151 | Removes the values under the keys, drops emptied keys and reports both |
| SubscriptionObserver.LocUnorderedSetMap.RemoveAndReturnInterset | gps/utils/LocUnorderedSetMap.h:60-77 | Extracts the intersection, leaving both sets without it |
| SubscriptionObserver.SystemStatusOsObserver.HandleSubscribeReq | gps/core/SystemStatusOsObserver.cpp:97-138 | Updates both indices, hands the client exactly the cached items it asked for, and asks the framework for a subscription or for data |
| SubscriptionObserver.SystemStatusOsObserver.CachedAmong | gps/core/SystemStatusOsObserver.cpp:530-556 | The loop picks exactly the cached items |
| SubscriptionObserver.SystemStatusOsObserver.HandleUpdateSubscriptionReq | gps/core/SystemStatusOsObserver.cpp:145-203 | Updates both indices as the code does and hands the client exactly the cached items it asked for newly |
| SubscriptionObserver.SystemStatusOsObserver.SetSubsObj | gps/core/SystemStatusOsObserver.cpp:62-92 | Subscribes the framework to all indexed items and asks for their data |
| SubscriptionObserver.SystemStatusOsObserver.RefreshCache | gps/core/SystemStatusOsObserver.cpp:558-590 | Caches what is recorded and new, and returns exactly the changed items |
| SubscriptionObserver.SystemStatusOsObserver.CollectAudience | gps/core/SystemStatusOsObserver.cpp:321-328 | Collects exactly the clients indexed under a changed item |
| SubscriptionObserver.SystemStatusOsObserver.HandleNotify | gps/core/SystemStatusOsObserver.cpp:301-344 | Updates the cache and hands each client the deliveries of the model |
| NetworkTable.ConnectRefinesInsert | gps/core/SystemStatus.h:527-539 | From a hole-free table a connect inserts a new handle if there is room, and nothing else |
| NetworkTable.DisconnectRefinesDelete | gps/core/SystemStatus.h:540-568 | A disconnect removes exactly the matching handle and type, and keeps the table hole-free |
| NetworkTable.LastHandleClearsItsType | gps/core/SystemStatus.h:570-574 | When the last handle of a type goes, exactly that type leaves the mask |
| NetworkTable.CollateKeepsMaskExactly | gps/core/SystemStatus.h:514-586 | When a report keeps the mask equal to the types in the table |
| NetworkTable.CollateKeepsItself | gps/core/SystemStatus.h:514-586 | A collated report says the same of its own network, and takes over the known access point unless it is mobile |
| NetworkInfo.SystemStatusNetworkInfo.ConnectHandle | gps/core/SystemStatus.h:529-539 | The scan of the array does the connect of the model |
| NetworkInfo.SystemStatusNetworkInfo.DisconnectHandle | gps/core/SystemStatus.h:541-568 | The single pass and the move into the gap do the disconnect of the model |
| NetworkInfo.SystemStatusNetworkInfo.CollateWith | gps/core/SystemStatus.h:514-586 | Collates two reports, leaves the current one alone and writes table and mask back to the data item |
| NetworkTable.OneOfSeveralForgetsTheRest | gps/core/SystemStatus.h:556-574 | Losing one of several handles of a type leaves the mask with that type alone |
| NetworkRuns.RunIsNewestCached | gps/core/SystemStatus.cpp:1354-1372 | The run of network reports is the newest entry of the cached history |
| NetworkRuns.EveryTableIsWellFormed | gps/core/SystemStatus.h:514-586 | Over every run the cached table is hole-free with distinct handles |
| NetworkRuns.AfterTellsExactly | gps/core/SystemStatus.cpp:1354-1372 | A report leaves a true mask in the cache iff it keeps it true or compares equal |
| NetworkRuns.ReportIsHeld | gps/core/SystemStatus.cpp:1354-1372 | Stored or compared equal, a report leaves its connectivity, its access point and its table in the cache |
| NetworkRuns.FirstLossIsEntered | gps/core/SystemStatus.cpp:1360-1367 | The first report is not collated, so a lost network enters the table |
| NetworkRuns.LosingOneOfTwoForgetsMobile | gps/core/SystemStatus.h:556-574 | A concrete run of three connects and a loss after which the mask has forgotten the mobile network |
| AdapterTable.AddRefinesInsert | gps/core/LocApiBase.cpp:231-240 | Adding inserts into a set of at most ten |
| AdapterTable.RemoveRefinesDelete | gps/core/LocApiBase.cpp:242-276 | Removing deletes exactly the one adapter and keeps the others distinct |
| AdapterTable.DrainedModemHearsTheUnion | gps/core/LocApiBase.cpp:91-145 | Over every run, once the queue is drained the modem reports exactly the union of the listed masks minus the excluded mask |
| AdapterTable.EveryRunIsRecorded | gps/core/LocApiBase.cpp:91-281 | Over every run the table lists each adapter added and not removed once, with the mask it set last |
| AdapterTable.DrainedModemHearsTheAsked | gps/core/LocApiBase.cpp:91-281 | Over every run, once the queue is drained the modem reports exactly what the adapters added and not removed last asked for, minus the excluded mask |
| AdapterTable.ClosesForNobodyExactly | gps/core/LocApiBase.cpp:268-281 | The session goes with the last adapter iff no mask update or restart comes while nobody is listed |
| AdapterTable.LateUpdateOpensForNobody | gps/core/LocApiBase.cpp:278-281 | A concrete mask update that opens a session with nobody listed |
| AdapterTable.SessionExactlyForListeners | gps/core/LocApiBase.cpp:231-281 | On such runs a drained queue means a session exactly if someone listens |
| LocApi.LocApiBase.AddAdapter | gps/core/LocApiBase.cpp:231-240 | Fills the first free slot, posting an open, unless full or present |
| LocApi.LocApiBase.RemoveAdapter | gps/core/LocApiBase.cpp:242-276 | The nested index loop stays in bounds, keeps the null-free prefix and posts close iff the table becomes empty |
| LocApi.LocApiBase.GetEvtMask | gps/core/LocApiBase.cpp:168-175 | A bit is in the mask iff some listed adapter asks for it and it is not excluded |
| Odcpi.EveryRunIsTimed | gps/gnss/GnssAdapter.cpp:4866-4913 | Over every run an active request has an active timer |
| Odcpi.StartsAreSpaced | gps/gnss/GnssAdapter.cpp:4866-4913 | Between two consecutive start callbacks a timer expiry is handled unless the later one upgrades to an emergency |
| Odcpi.NoWishIsLost | gps/gnss/GnssAdapter.cpp:5045-5058 | The next expiry asks the framework again iff the modem's last wish was a start |
| Odcpi.EveryRunIsRecorded | gps/gnss/GnssAdapter.cpp:4866-5058 | Over every run request, kind and timer are as the events alone say |
| Odcpi.EveryCallback | gps/gnss/GnssAdapter.cpp:4866-5058 | Every callback of every run: a start if no timer runs or it is the first emergency, every stop, and at an expiry the last start again iff it is still wished |
| Geofences.SaveIsCoherentExactly | gps/geofence/GeofenceAdapter.cpp:722-739 | Saving keeps each id entry at an object with its key iff the hardware id is free |
| Geofences.SaveIsOwnedExactly | gps/geofence/GeofenceAdapter.cpp:722-739 | It keeps all entries owned iff the client is still registered |
| Geofences.StepIsCoherentExactly | gps/geofence/GeofenceAdapter.cpp:88-115 | An event keeps the maps coherent iff it saves no fence under a taken hardware id |
| Geofences.EveryRunIsCoherent | gps/geofence/GeofenceAdapter.cpp:88-115 | Over every run with free hardware ids, whatever the delay of answers and whoever has left, entries point at objects with their keys |
| Geofences.EveryRunIsOwnedExactly | gps/geofence/GeofenceAdapter.cpp:88-115 | Entries belong to registered clients at every moment of a run iff no fence is saved for a client that has left |
| Geofences.LateAddIsCoherent | gps/geofence/GeofenceAdapter.cpp:722-739 | A concrete late answer to an add: coherent and owned by nobody |
| Geofences.PauseIsForgottenExactly | gps/geofence/GeofenceAdapter.cpp:238-248 | Adapter and modem still agree on what is paused iff the event is not the set-up of a paused fence again |
| Geofences.RestartForgetsThePause | gps/geofence/GeofenceAdapter.cpp:238-248 | A concrete restart after which the modem pauses a fence that the adapter takes for running |
| Geofences.RestartRestoresExactly | gps/geofence/GeofenceAdapter.cpp:216-250 | After a full restart every object is back but for its pause, and the ids are the old ones iff no object was orphaned |
| Geofences.RestartBringsBackTheGone | gps/geofence/GeofenceAdapter.cpp:216-250 | A concrete restart that brings back a fence of a client that had left |
| Geofences.BreachReachesTheOwner | gps/geofence/GeofenceAdapter.cpp:864-895 | Each known breached fence is told to its own client, at its place in order, and nothing else is |
| Geofences.ToldExactly | gps/geofence/GeofenceAdapter.cpp:864-895 | A client is notified iff it takes breaches and owns a breached fence |
| Geofences.AddIsExact | gps/geofence/GeofenceAdapter.cpp:722-739 | A new fence is entered under its hardware id and its key, not paused, and touches no other |
| Geofences.RemoveIsExact | gps/geofence/GeofenceAdapter.cpp:741-763 | A removed fence is gone from both maps, and no other is touched |
| Geofences.ChangesAreExact | gps/geofence/GeofenceAdapter.cpp:766-801 | A paused, resumed or modified fence takes just that change, and no other is touched |
| Geofences.LeavingIsExact | gps/geofence/GeofenceAdapter.cpp:88-115 | A leaving client has exactly its ids erased and exactly their hardware ids requested to be removed |
| Geofences.ErasureIsExact | gps/geofence/GeofenceAdapter.cpp:88-115 | The answer to such a request takes exactly that fence if it is a success, and none otherwise |
| Geofences.LeavingIsCompleted | gps/geofence/GeofenceAdapter.cpp:88-115 | Once all removals were answered, in any order, exactly the fences that an id of the client stood for are gone |
| Geofences.EngineUpIsExact | gps/geofence/GeofenceAdapter.cpp:191-250 | A modem restart forgets all fences but neither the clients nor the removals waited for |
| Geofences.RegisteredExactly | gps/geofence/GeofenceAdapter.cpp:88-115 | Over every run exactly the clients that came and have not left since are registered |
| GeofenceMaps.GeofenceAdapter.GetHwIdFromClient | gps/geofence/GeofenceAdapter.cpp:132-142 | Succeeds iff the key is known, and in coherent maps with the hardware id of that very fence |
| GeofenceMaps.GeofenceAdapter.StopClientSessions | gps/geofence/GeofenceAdapter.cpp:88-115 | Erases exactly the client's ids and requests the removal of exactly their hardware ids |
| GeofenceMaps.GeofenceAdapter.RestartGeofences | gps/geofence/GeofenceAdapter.cpp:216-250 | Clears both maps and requests every old fence again exactly once |
| GeofenceMaps.GeofenceAdapter.GeofenceBreach | gps/geofence/GeofenceAdapter.cpp:864-895 | The nested loops send exactly the notifications of the model |
| DebugNmea.FieldsRebuild | gps/core/SystemStatus.cpp:73-83 | Joined, each followed by a comma, fields and rest rebuild the text |
| DebugNmea.FieldsAreCommaFree | gps/core/SystemStatus.cpp:73-83 | Fields and rest hold no comma |
| DebugNmea.GlueIsReadBack | gps/core/SystemStatus.cpp:73-83 | Comma-free fields and rest, joined, are read back, so the cut is unique |
| DebugNmea.ParseRebuilds | gps/core/SystemStatus.cpp:56-84 | The fields of an accepted sentence rebuild it with its first mark replaced, up to a comma-free rest |
| DebugNmea.SentencesAreReadBack | gps/core/SystemStatus.cpp:56-84 | A sentence of given fields and checksum is parsed into those fields |
| DebugNmea.ParsesExactly | gps/core/SystemStatus.cpp:56-84 | There are fields iff the length is 6 to 4096 and the sentence starts with the debug talker and has a checksum mark |
| DebugNmea.SystemStatusNmeaBase.constructor | gps/core/SystemStatus.cpp:56-84 | The loop on the shrinking remainder terminates with exactly these fields, none for other input |
| ReportCache.ReportIsTheNewestHistory | gps/core/SystemStatus.cpp:1354-1372 | For every way of collating and comparing, the bounded report is the newest five entries of the unbounded history |
| ReportCache.NeighboursDiffer | gps/core/SystemStatus.cpp:1354-1372 | Cached neighbours compare different, at most five are cached |
| ReportCache.NewestIsTimed | gps/core/SystemStatus.cpp:1354-1372 | The newest entry carries the report time of the last item that was not ignored, a change or not |
| ReportCache.Report.SetIteminReport | gps/core/SystemStatus.cpp:1354-1372 | Collates, compares and stores an item, and says whether it was a change |

## Left out

- Environment: the modem accepts requests, and calls on trips and distance tracking are answered at once; answers on
  geofences may be delayed freely. A failing modem call that the code does not recover from is not modelled.
- AgpsLoop.ForeignTypeWedges: does not show that a caller sends such a type.
- Tracking.EveryRunIsHealthy: the one message it excludes is settled by UnsupportedMoveExactly.
- Tracking.EveryRunIsTight: excludes in-place updates, which UpdateIsTightExactly settles.
- TrackingMaps.EverySessionIsFiled: no running session is started again under its id; ids are generated.
- TrackingPower.EveryRunIsStrongExactly: power modes are set; the unset mode is no mode to be compared.
- TripPrograms.StopPrograms: no record is at or past its trip's distance, which would wrap; RestartCarries and
  EveryRunHasLeastInterval cover every stop.
- TripPrograms.EngineRestartPrograms: the same.
- TripPrograms.StartIsOnTime: without 32-bit overflow, and before any trip is over.
- TripPrograms.StopIsOnTimeExactly: the same.
- Blacklist.ListsBecomeMasks: says nothing about the SBAS satellites of a list with SBAS ids 208 to 246, for which the
  code shifts a 64-bit word by 64 or more, and C++ leaves the mask open; the other constellations are covered.
- Blacklist.ListsKeepTheirMeaning: the same.
- Blacklist.ConversionSucceedsExactly: the same, unless another constellation is named.
- Blacklist.ConvertToGnssSvIdConfig: takes what such a shift yields as a parameter.
- Trips.ReportProgramsTheLeast: needs a report at or past the programmed distance and no 32-bit overflow.
- TripAdapter.BatchingAdapter.AdvanceTrips: reads the fields of a completed trip before erasing it; the code reads
  them after the erasure.
- SubscriptionObserver.LocUnorderedSetMap.RemoveAndReturnInterset: walks over a snapshot; the code erases from the set
  it iterates over.
- GeofenceMaps.GeofenceAdapter.StopClientSessions: the order in which removals are requested is not kept.
- Estimator.EstimatesFollowTheModem: nanosecond clocks are unbounded integers.
- Odcpi.EveryRunIsTimed: the request callback is registered; without it, and for a request of an invalid type, the code
  does nothing.
- GpsLock.EveryRunAgrees: only the two lock bits MO and NI are modelled, and session ids are never zero.
- Removal of a batching client with trips: the code dereferences a trip entry that may be missing.
- Engine lock disabled: with it, geofence answers with an error are treated as successes.
- Creation of missing data items in notify, which leaves null entries in front of the vector.
- The bearer and APN that AGPS callbacks carry, the SUPL mode and the engine masks.
- Opening the modem session is assumed to succeed, and a mask change and its message are one step.
- NI response threads, XTRA and daemon messages, sockets, dynamic libraries and configuration files: I/O.
- Position, satellite and measurement field copying, lever arms and antenna corrections: branch by branch or
  floating point, with no state of their own.
- Reference counting of the MsgTask, power votes and backhaul connections.
