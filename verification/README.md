# Verified model of the audio and alerting core

This project models the stateful core of a continuous sound-monitoring application in Dafny and proves what that
core promises. `dafny verify dfyconfig.toml` checks all of it.

| files | what they model |
|---|---|
| `RouterProtocol`, `RouterInvariant`, `RouterTheorems` | the concurrent fan-out of reference-counted audio frames: producers, dispatchers under the read lock, one drainer per route, and every way of tearing a route down, as a step relation over atomic actions |
| `Router` | the router's mutable objects: the counter, a route's bounded inbox, and the table of per-source slices with swap-removal, refining a set of (source, consumer) pairs |
| `FramePools` | which pooled buffers a drainer takes and gives back while it handles one frame |
| `SoundLevelProtocol`, `SoundLevelService` | the registration of sound-level consumers against the tracking map, as a protocol over interleavings and as an object |
| `Liveness`, `LivenessRuns` | the per-source watchdog: the state machine as the object runs it, and what holds over whole runs of ticks |
| `AlertKeys`, `AlertSections`, `AlertLadders`, `AlertEngine`, `AlertRuns`, `AlertEvents`, `AlertDetections` | the alert engine's cooldowns and escalation ladders: key encoding, the critical sections, their effect over whole runs, the object itself, and firing told from the sections entered, and from the sequence of events alone |
| `MetricTracker` | the capped sample buffer and the sustained-threshold check, against the full history |
| `SustainedAlerts` | metric rules with durations: the engine's condition check on the tracker, and firing told from the sample history |
| `HtmlRewrite`, `HtmlSecondPass`, `HtmlTheorems`, `HtmlInserts` | base-path rewriting of HTML through placeholders, against a one-pass reference, and rewriting what is rewritten already |
| `Pcm` | narrowing of captured 24-bit and 32-bit samples, at the level of machine words |
| `SelfHealing` | deletion of a corrupted, empty database across process starts with a crash allowed between any two steps |
| `Overlap` | overlap scaling in 64-bit arithmetic |
| `Wrappers`, `Sequences`, `Division`, `Runs` | an optional value and map lookup, facts about sequences and about division, and the end of a run, shared by the others |

Runs of a protocol are sequences of atomic actions, so a statement about all runs is a statement about all
interleavings. The alert engine is treated the same way: a run is a sequence of the stretches of code it executes
under its mutexes (`AlertSections.Section`), and the class `AlertEngine.Engine` keeps a ghost history of the sections
it entered and ties its tables to that history. Times are integers (nanoseconds), metric values and confidences are
`real`, and the clock, the outcome of fallible calls and the truth of rule conditions are parameters.

## Where the code does not meet its description

Each of these is a theorem with the exact condition, not a remark.

1. **An `AddRoute` that overlaps `Close` can strand frames.** `AddRoute` looks at the closed flag before it takes
   the lock (internal/audiocore/router.go:182-186) and `Close` empties the map before it cancels (487-492). A route
   linked in between keeps a dead drainer in the table. `RouterTheorems.StrandingNeedsLinkedRoute` gives the
   condition (such a route is still linked), `OverlapReachable` a run that gets there, `StrandedForever` the
   consequence. All other leak-freedom statements hold without exception.
2. **Removing routes before untracking can orphan a sound-level route.** The comment at
   internal/analysis/audio_pipeline_service.go:763-777 argues that the skipped route is never orphaned. That is
   proved for removals that untrack first (line 533, line 1181), and for removals in either order as long as no hot
   reload overlaps them (`SoundLevelProtocol.OrphanNeedsReload`): the service runs removals and their registrations
   one at a time under `sourcesMu` (lines 66-71, 493, 511, 1110), but `ReconfigureSoundLevel` (824-848) does not
   take that lock. With a hot reload in the way it is false: `StepKeepsInvIff` has the condition, and
   `RemoveFirstOrphans` a run that these locks allow (a hot reload, `RestartSource`, then `restartAudioCapture` with
   its remove-first `removeAllSources`, 492-505 and 603-616) and that ends with the feature off, the map drained and
   a live route.
3. **Detection notifications of one episode can come closer than the cooldown** at the same step when two episodes
   alternate: `AlertLadders.InterleavedEpisodesEscape`. `DetectionRuleFiresIff` says exactly when a rule fires, and
   `WindowClimbs` and `WindowBound` give the guarantee within one uninterrupted episode.
4. **A refused cooldown consumes the metric step**, because the step is stored first
   (internal/alerting/engine.go:421-428): `AlertEngine.RefusedCooldownConsumesStep`.
5. **A sustained condition can be told from the history only within limits.** A duration can ever be sustained
   exactly when its window minus the grace fits in 30 minutes, that is up to 37.5 minutes
   (`MetricTracker.CanBeSustainedIff`), since older samples are dropped. `AnswersDifferIff` says, for any duration
   and any number of samples, exactly when the capped buffer answers yes or no where the history would not;
   `SameAnswerAsHistory` is the case in which neither limit matters, and `CapHidesViolation` a history whose only
   violation the 120-sample cap hides. `SustainedAlerts.SustainedRuleFiresIff` carries this to the rules: exactly
   when a rule with durations fires.
6. **HTML rewriting is not idempotent, and can damage content.** Whatever the content, every attribute start in the
   result carries the base path, for exactly those base paths that do not themselves read like an attribute start,
   which the check of the proxy header does not ask for (`HtmlTheorems.SafeBaseIff`). But a prefixed `src` whose
   path reads `HREF_PLACEHOLDER` and runs straight into another prefixed attribute makes two placeholders share a
   NUL, and a NUL stays in the result (`DamagedIff`). `HtmlRewrite.AttributesActual` says in one left-to-right
   reading what the six replacements do to any content, damage and NULs of its own included, and
   `AttributesExactIff` exactly when that is the intended rewriting. `RewriteIdempotentIff` tells from the content
   alone, whatever the content, exactly when rewriting twice is rewriting once; where the first pass does no damage
   the condition is that no `src` whose path reads `HREF_PLACEHOLDER` runs into another attribute, prefixed or not
   (`UndamagedIdempotentIff`), and where that fails the second pass does the damage (`SecondPassDamagesIff`, with a
   short content in `SecondPassDamages`). `UnchangedIff` says which texts the rewriting leaves alone, and
   `WithoutTheWordNoCollision` is a guard a caller can check.
7. **The self-healing safety check can miss data.** It does not know the state `initializing`, in which the program
   takes a migration to be in progress (internal/datastore/v2/entities/migration_state.go:59-66), nor any user table
   but four. It takes a failed catalogue query for a missing table, and where the current and the older migration
   table exist side by side it reads only one of them, whichever an unordered `LIMIT 1` yields
   (internal/analysis/database_service.go:503), while the rest of the program goes by the current one.
   `SelfHealing.OneStartDeletesIff` says which databases one start can delete, `DatabaseProtectedIff` which
   databases are protected whatever table is read, `TableProtectedIff` which tables, and `CheckProtectsIff` for
   which query behaviour the check protects all it knows about; `StartedMigrationDeleted`, `SpeakerNamesDeleted` and
   `ShadowedMigrationDeleted` are databases that one start deletes. Two deletions are separated by a cleared marker
   as long as the marker can be seen; `DeletesDespiteMarkerIff` is the exact exception (any `Stat` error other than
   "not found" counts as "no marker").
8. **Overlap scaling overflows for long base clips.** The quotient and remainder form is exact precisely when the
   overlap times the remainder, and the result, fit in 64 bits (`Overlap.EffectiveOverlapExactIff`). Base clips up
   to about three seconds always qualify; with a five-second base, four seconds of overlap scale to a negative
   duration (`FiveSecondBaseOverflows`). `SampleCountExactIff` and `ByteCountExactIff` are the conditions for the
   sample and byte counts.

## Model

| member | source | states |
|---|---|---|
| `RouterInvariant.StepInv` | internal/audiocore/router.go:180-679 | every action of every party (dispatch, add, remove, close, stop, drain, panic) keeps the counting, ownership, ordering and table invariant |
| `RouterInvariant.ReachableInv` | internal/audiocore/router.go:180-679 | the invariant holds in every state of every interleaving |
| `RouterTheorems.ReleasedExactlyWhenUnreferenced` | internal/audiocore/frame_ref.go:26-52 | a frame's counter equals producer reference + unsent retain + queued and handled copies; the release closure has run, once, exactly when all of these are gone |
| `RouterTheorems.NotReleasedWhileInUse` | internal/audiocore/frame_ref.go:36-52 | a buffer that is queued, being written, retained or owned by its producer is not recycled |
| `RouterTheorems.ReleasedForGood` | internal/audiocore/frame_ref.go:45-52 | after the closure has run no later action of any run queues, holds or releases the frame again |
| `RouterTheorems.DispatchOffersOnce` | internal/audiocore/router.go:350-403 | a returned Dispatch has offered its frame exactly once to every route of its source linked when it took the read lock, and to no other; each accepted it or counted one drop |
| `RouterTheorems.DropsOnlyWhenFull` | internal/audiocore/router.go:350-403 | a frame is dropped for a route exactly when 64 frames wait in its inbox, and is put at the end of the inbox otherwise |
| `RouterTheorems.HandledInOrder` | internal/audiocore/router.go:567-679 | accepted frames = handled, then discarded at exit, then queued, in order; nothing is skipped before the drainer leaves its loop; at most 64 are queued |
| `RouterTheorems.SectionsLinkAndUnlink` | internal/audiocore/router.go:180-499 | AddRoute links one new running route; RemoveRoute, RemoveAllRoutes and Close unlink the route, the source's routes, all routes, and start stopping exactly those; no other section touches them |
| `RouterTheorems.OneRoutePerPair` | internal/audiocore/router.go:180-235 | over every interleaving no source has two linked routes to one consumer |
| `RouterTheorems.CloseCancelsFirst` | internal/audiocore/router.go:477-499 | Close cancels the router before it stops its first route |
| `RouterTheorems.CancelReachesAll` | internal/audiocore/router.go:477-499 | from the cancel on every drainer has been told to stop, late ones included, in every continuation |
| `RouterTheorems.ClosedForGood` | internal/audiocore/router.go:180-235 | once cancelled with no AddRoute past its closed check, no route is ever linked again |
| `RouterTheorems.SingleTeardownOwner` | internal/audiocore/router.go:240-291 | for any mix of removers, Close and a panicking drainer at most one party may stop a route, only after unlinking it, and it has not been disposed before |
| `RouterTheorems.ClosedOnceAfterLastUse` | internal/audiocore/router.go:505-660 | done is closed at most once, consumer and resampler at most once, and never before the drainer's last use of them |
| `RouterTheorems.ClosedUnlessGivenUp` | internal/audiocore/router.go:505-660 | once every party that could tear a route down is done with it (removal, Close or panic), consumer and resampler have been closed exactly once, or not at all if some wait for its drainer was given up |
| `RouterTheorems.DrainedStaysEmpty` | internal/audiocore/router.go:612-679 | an inbox emptied by an exiting drainer stays empty in every continuation |
| `RouterTheorems.NoFrameLeaks` | internal/audiocore/router.go:477-679 | once its producer has released it and every route still holding a copy has shut down, a frame's closure has run exactly once |
| `RouterTheorems.ShutdownProgress` | internal/audiocore/router.go:567-679 | from the moment a route is unlinked, wherever its drainer is, the drainer's own steps count down to exit and nobody else adds to them; once told to stop it always has a next step, save that a panicked one waits for the read lock to be free |
| `RouterTheorems.ShutdownBound` | internal/audiocore/router.go:505-679 | over every run from the moment a route is unlinked, the drainer's own steps plus those left never exceed those left at the start, whatever the others do |
| `RouterTheorems.DispatchNeverBlocks` | internal/audiocore/router.go:350-403 | a dispatch always has a possible next step, whatever the drainers do, and each step brings its end closer |
| `RouterTheorems.RemoverNeverHangs` | internal/audiocore/router.go:505-560 | a removal always has a possible next step until its routes are done with, each step brings that closer, and a drainer that has stopped can be seen |
| `RouterTheorems.StrandingNeedsLinkedRoute` | internal/audiocore/router.go:180-235 | a dead drainer's inbox can grow again if and only if its route is still linked, which needs an AddRoute overlapping Close |
| `RouterTheorems.LateNeedsClose` | internal/audiocore/router.go:180-186 | a late route, which some leak-freedom statements leave out, only comes from an AddRoute that links after a Close |
| `RouterTheorems.OverlapReachable` | internal/audiocore/router.go:477-499 | the overlap happens: a reachable state with a linked route whose drainer has exited |
| `RouterTheorems.StrandedForever` | internal/audiocore/router.go:477-499 | a frame queued behind a dead drainer is never released in any continuation |
| `Router.FrameRef.Release` | internal/audiocore/frame_ref.go:45-52 | the closure fires on the transition to zero and on no other |
| `Router.Route.DrainInboxRefs` | internal/audiocore/router.go:670-679 | every queued frame gives back one retain per queued copy and fires if that was the last |
| `Router.SwapRemoveContents` | internal/audiocore/router.go:240-270 | swap-removal loses exactly the removed element |
| `Router.SwapRemoveDistinct` | internal/audiocore/router.go:240-270 | swap-removal keeps consumer ids distinct and every other route |
| `Router.AudioRouter.AddRoute` | internal/audiocore/router.go:180-235 | a subscription is accepted exactly when the router is open, the pair is new, the gain finite and the resampler built; it adds that pair and nothing else, and each of the four errors is returned exactly for its cause |
| `Router.AudioRouter.RemoveRoute` | internal/audiocore/router.go:240-270 | unlinks exactly the named pair, and is a no-op without it |
| `Router.AudioRouter.RemoveAllRoutes` | internal/audiocore/router.go:274-291 | unlinks exactly the pairs of the source and returns all its routes |
| `Router.AudioRouter.RemoveDead` | internal/audiocore/router.go:567-611 | a panicking drainer takes out its own route, by identity, or learns that someone else has |
| `Router.AudioRouter.Dispatch` | internal/audiocore/router.go:350-403 | every route with room queues the frame, every full one counts a drop, and the counter rises by exactly the accepted copies |
| `FramePools.AuditBalances` | internal/audiocore/router.go:697-944 | what a passed audit means: every buffer lent out went back exactly as often |
| `FramePools.AuditedEvents` | internal/audiocore/router.go:697-944 | what it means for single events: a buffer goes back to its own pool, at full length, while on loan, and what is read is on loan and within its bounds |
| `FramePools.CachedPool` | internal/audiocore/router.go:949-981 | the cached lookup returns what the per-size lookup would, and other routes' caches stay right |
| `FramePools.RouteDrainer.ApplyProcessing` | internal/audiocore/router.go:851-944 | on a conversion error both buffers are back; on success the caller owns both |
| `FramePools.RouteDrainer.HandleRouteFrame` | internal/audiocore/router.go:697-814 | on every path each pooled buffer goes back once, to its pool, at full length; what the consumer reads is on loan; it is reached exactly when resampling and conversion succeed |
| `SoundLevelProtocol.StepKeepsInvIff` | internal/analysis/audio_pipeline_service.go:680-896 | an action keeps every route tracked or answered for unless it is an untrack that follows its own route removal and finds a fresh route nobody answers for |
| `SoundLevelProtocol.UntrackFirstIsSafe` | internal/analysis/audio_pipeline_service.go:528-536 | runs whose source removals untrack first contain no such action |
| `SoundLevelProtocol.QuiescentRoutesTracked` | internal/analysis/audio_pipeline_service.go:680-896 | in every run without such an untrack: once all calls have returned every route is tracked, and after a drain with the flag off no route and no entry remain |
| `SoundLevelProtocol.UntrackFirstRoutesTracked` | internal/analysis/audio_pipeline_service.go:528-536 | in particular in every run whose removals untrack first |
| `SoundLevelProtocol.OrphanNeedsReload` | internal/analysis/audio_pipeline_service.go:66-71 | under the service's locks, runs without a hot reload contain no such untrack, whatever the order of their removals |
| `SoundLevelProtocol.WithoutReloadRoutesTracked` | internal/analysis/audio_pipeline_service.go:66-71 | under the service's locks and without a hot reload, once all calls have returned every route is tracked |
| `SoundLevelProtocol.RemoveFirstOrphans` | internal/analysis/audio_pipeline_service.go:603-618 | with remove-first removal and a hot reload, a complete run that the service's locks allow ends with a live route, an empty map and the feature off |
| `SoundLevelProtocol.NoThreadStuck` | internal/analysis/audio_pipeline_service.go:680-896 | whoever holds the mutex has a possible next step, and every call has one while nobody holds it |
| `SoundLevelProtocol.OnlyTrackedAreSkipped` | internal/analysis/audio_pipeline_service.go:680-811 | a registration passes over a listed source only when it is tracked already |
| `SoundLevelProtocol.OnlyUntrackedAreBuilt` | internal/analysis/audio_pipeline_service.go:680-811 | and builds a processor only for one that is not |
| `SoundLevelProtocol.OwnStepCounts` | internal/analysis/audio_pipeline_service.go:680-896 | every step of a call brings its end closer, whatever the others do in between |
| `SoundLevelProtocol.DisablingReloadOnlyDrains` | internal/analysis/audio_pipeline_service.go:824-848 | a reload called with the feature off registers nothing in any continuation |
| `SoundLevelService.AudioPipelineService.RegisterSoundLevelConsumers` | internal/analysis/audio_pipeline_service.go:680-811 | exactly the listed, buildable, untracked sources gain one route and one entry; other subscriptions stay |
| `SoundLevelService.AudioPipelineService.RemoveAllSoundLevelConsumers` | internal/analysis/audio_pipeline_service.go:874-896 | no sound-level route or entry is left, other subscriptions stay |
| `SoundLevelService.AudioPipelineService.ReconfigureSoundLevel` | internal/analysis/audio_pipeline_service.go:824-848 | afterwards exactly the active buildable sources are metered, or none when switched off |
| `Liveness.LivenessWatchdog.CheckSourceById` | internal/audiocore/liveness.go:304-408 | the object's update of one source is the state machine's, about which the rows below speak |
| `Liveness.LivenessWatchdog.CheckAll` | internal/audiocore/liveness.go:242-297 | exactly the active sources are tracked; each moves by its own tick whatever the others do; actions come out source by source; the end of quiet hours resets the dispatch time |
| `LivenessRuns.WatchdogSafety` | internal/audiocore/liveness.go:304-445 | over every run: at most max(1, MaxRetries) restarts per episode, exactly that many before an escalation, backoff between them, no alarm before a cooldown ends, a failure a full timeout after its escalation, each of them only from the stage before it, and no recovery told twice; a source that is not healthy is in the state its events last told |
| `LivenessRuns.NoActionInQuietHours` | internal/audiocore/liveness.go:242-297 | every event of a run happens at a tick outside quiet hours, a recovery at one with frames and any other (for a positive threshold) at one without |
| `LivenessRuns.FramesRecover` | internal/audiocore/liveness.go:304-445 | after any run a tick with a fresh dispatch ends HEALTHY with no retries; a source that was not HEALTHY is announced recovered once and its cooldown starts there, one that was stays as it is |
| `LivenessRuns.NewSourceAlarms` | internal/audiocore/liveness.go:252-260 | a newly active source starts out healthy and raises an alarm at its first silent tick |
| `LivenessRuns.QuietHoursKeepSilent` | internal/audiocore/liveness.go:275-289 | quiet hours keep the record as it is, and their end makes a source healthy without an event |
| `LivenessRuns.StartingSourceLeftAlone` | internal/audiocore/liveness.go:310-316 | a source that has never dispatched is left alone |
| `LivenessRuns.SilentTickProgress` | internal/audiocore/liveness.go:304-408 | every silent tick brings FAILED at least one tick closer |
| `LivenessRuns.SilenceReachesFailed` | internal/audiocore/liveness.go:304-408 | silence lasting the measure's number of ticks ends in FAILED from any state |
| `LivenessRuns.FailedWithinBound` | internal/audiocore/liveness.go:304-408 | whatever happened before, lasting silence reaches FAILED within a tick bound computed from the configuration |
| `AlertKeys.DigitsRoundTrip` | internal/alerting/engine.go:112-126 | a rule id can be read back from its decimal form, so ids do not collide |
| `AlertKeys.EscalationKeyInjective` | internal/alerting/engine.go:102-126 | distinct (rule, metric, path) give distinct keys, separators in paths included |
| `AlertKeys.DetectionKeyInjective` | internal/alerting/engine.go:164-189 | distinct (rule, species, episode) give distinct keys, separators in episodes included |
| `AlertKeys.PrefixExact` | internal/alerting/engine.go:191-193 | the pruning prefix matches the keys of that rule and species and no others |
| `AlertKeys.SeparatorInSpeciesCollides` | internal/alerting/engine.go:164-193 | with a separator in the species name two different detections share a key |
| `AlertSections.Highest` | internal/alerting/engine.go:243-251 | the greatest configured step at or below the value, for unsorted and negative steps too |
| `AlertSections.OtherRulesUnaffected` | internal/alerting/engine.go:200-370 | no section entered for one rule changes anything another rule looks at |
| `AlertLadders.CooldownIsLatestFiring` | internal/alerting/engine.go:535-554 | the cooldown table holds exactly the time of the latest firing under each key |
| `AlertLadders.FiringsKeepCooldown` | internal/alerting/engine.go:535-554 | a firing granted by the cooldown is at least the cooldown after every earlier firing in its scope |
| `AlertLadders.StoredStepDominates` | internal/alerting/engine.go:257-299 | the stored step is at least the step of every measurement since the last recovery, whatever other rules and paths do |
| `AlertLadders.StoredStepWasReached` | internal/alerting/engine.go:257-299 | the stored step is the step of some measurement since the last recovery |
| `AlertLadders.StepsStrictlyIncrease` | internal/alerting/engine.go:200-299 | between two recoveries of an instance the steps that get through strictly increase |
| `AlertLadders.MemoryIsLastNotification` | internal/alerting/engine.go:304-370 | what is remembered for a rule and species is exactly its latest notification: one episode, its step, its time |
| `AlertLadders.ConsecutiveNotifications` | internal/alerting/engine.go:304-348 | consecutive notifications of one episode are a cooldown apart or climb a step |
| `AlertLadders.WindowClimbs` | internal/alerting/engine.go:304-348 | within one episode and one cooldown every notification is at a higher step than all before it |
| `AlertLadders.WindowBound` | internal/alerting/engine.go:304-348 | such a window sees at most one notification for each distinct configured step |
| `AlertLadders.InterleavedEpisodesEscape` | internal/alerting/engine.go:304-370 | alternating episodes notify at one step inside the cooldown |
| `AlertEngine.Engine.HighestStepExceeded` | internal/alerting/engine.go:243-251 | the loop finds the greatest step at or below the value, or that there is none |
| `AlertEngine.Engine.ClearEscalationIfRecovered` | internal/alerting/engine.go:200-237 | exactly the rules on this metric and object type whose lowest step is above the value lose this instance's ladder |
| `AlertEngine.Engine.ShouldSuppressEscalation` | internal/alerting/engine.go:257-299 | one metric ladder section: verdict, new tables and attached step |
| `AlertEngine.Engine.PruneDetectionEscalations` | internal/alerting/engine.go:363-370 | deletes exactly the keys with the prefix other than the current one |
| `AlertEngine.Engine.ShouldSuppressDetectionEscalation` | internal/alerting/engine.go:304-348 | one detection ladder section: verdict, new tables and attached step |
| `AlertEngine.Engine.TryAcquireCooldown` | internal/alerting/engine.go:535-554 | one cooldown section: granted or not, and what is stored |
| `AlertEngine.VerdictUnaffected` | internal/alerting/engine.go:407-485 | the verdict on a rule is the same before and after the rules evaluated ahead of it |
| `AlertEngine.ClearingDoesNotFire` | internal/alerting/engine.go:404-428 | clearing recovered ladders first changes no verdict of the same event |
| `AlertEngine.Engine.HandleEvent` | internal/alerting/engine.go:373-485 | the firings are each rule's verdict against the tables before the event, in rule order, as if it were the only rule |
| `AlertEngine.RefusedCooldownConsumesStep` | internal/alerting/engine.go:416-438 | after a refusal the same value does not fire even when the cooldown is over |
| `AlertRuns.MetricRuleFiresIff` | internal/alerting/engine.go:416-438 | a metric rule with steps fires exactly when it applies, the value reaches a step new since the instance's last recovery, and every earlier firing of the rule for this instance is a cooldown ago |
| `AlertRuns.PlainRuleFiresIff` | internal/alerting/engine.go:465-484 | a rule without a ladder fires exactly when it applies and every earlier firing of it in the event's scope is a cooldown ago |
| `AlertRuns.DetectionRuleFiresIff` | internal/alerting/engine.go:440-463 | a detection rule with steps fires exactly when it matches, a step is reached, and the latest notification was none, of another episode, at a lower step or a cooldown ago |
| `AlertRuns.CooldownSharedIff` | internal/alerting/engine.go:108-120 | two events of a rule share a cooldown exactly when they are of one metric instance, of one species (detection rules with a ladder or novelty condition), or the rule has neither scope |
| `AlertRuns.CooldownsApart` | internal/alerting/engine.go:108-120 | events of different rules never share a cooldown |
| `AlertRuns.FiringCarriesStep` | internal/alerting/engine.go:257-348 | a firing carries the greatest step that the value or the confidence reaches, and none without a ladder |
| `AlertEvents.PlainRuleOverEvents` | internal/alerting/engine.go:373-554 | over any sequence of events a rule without steps fires exactly when it applies and every earlier event in its scope at which it fired is a cooldown ago |
| `AlertEvents.MetricRuleOverEvents` | internal/alerting/engine.go:373-484 | over any sequence of events a metric rule with steps fires exactly when it applies, the value reaches a step that no event measured since the instance last dropped below all steps, and every earlier firing for the instance is a cooldown ago |
| `AlertDetections.DetectionRuleOverEvents` | internal/alerting/engine.go:304-485 | over any sequence of events a detection rule with steps fires for a known species exactly when it applies, the confidence reaches a step, and the latest event at which it fired for the species, if any, was of another episode, at a lower step or a cooldown ago |
| `MetricTracker.Tracker.Record` | internal/alerting/metric_tracker.go:39-60 | appends, drops leading stale samples, caps at 120, and touches no other metric |
| `MetricTracker.Tracker.IsSustained` | internal/alerting/metric_tracker.go:65-117 | true exactly when some sample lies near the window's start and every sample of the window meets the condition |
| `MetricTracker.SustainedMeans` | internal/alerting/metric_tracker.go:95-133 | operator by operator: a sustained answer is a nonempty window within the grace whose every value is on the right side of the threshold, the boundary included for the inclusive ones; an unknown operator is never sustained |
| `MetricTracker.WindowHolds` | internal/alerting/metric_tracker.go:85-93 | the window holds exactly the samples within it |
| `MetricTracker.BufferIsSuffix` | internal/alerting/metric_tracker.go:39-60 | with a clock that does not run backwards the buffer is a suffix of the history, and holds exactly the samples that are at most 30 minutes older than the last one and among the last 120 |
| `MetricTracker.PositiveAnswerCoversHistory` | internal/alerting/metric_tracker.go:65-117 | a positive answer speaks for every sample ever recorded past the grace period |
| `MetricTracker.SameAnswerAsHistory` | internal/alerting/metric_tracker.go:65-117 | for windows up to 30 minutes and 120 samples the buffer answers like the full history |
| `MetricTracker.AnswersDifferIff` | internal/alerting/metric_tracker.go:39-117 | for any duration and number of samples: the buffer wrongly says yes exactly when the kept part of the window meets the condition from within the grace and an evicted sample does not, and wrongly says no exactly when the whole window meets it and only eviction moved its start past the grace |
| `MetricTracker.CapHidesViolation` | internal/alerting/metric_tracker.go:39-60 | with 121 samples in the window the only violation is evicted and the answer is wrong |
| `MetricTracker.CanBeSustainedIff` | internal/alerting/metric_tracker.go:39-117 | a duration can ever be sustained exactly when its window minus the grace is at most 30 minutes |
| `MetricTracker.LongDurationNeverSustained` | internal/alerting/metric_tracker.go:65-117 | no history at all makes a longer duration sustained |
| `SustainedAlerts.EvaluateMetricConditions` | internal/alerting/engine.go:518-536 | every condition with a duration is sustained on the instance's buffer and every other holds on the event |
| `SustainedAlerts.BufferReplaysHistory` | internal/alerting/metric_tracker.go:39-63 | over any mix of metric instances, each buffer is what its own samples alone make it |
| `SustainedAlerts.SustainedRuleFiresIff` | internal/alerting/engine.go:373-536 | a metric rule fires exactly when each condition is held in the instance's full sample history as far as age limit and cap reach, the step is new, and the cooldown is over |
| `SustainedAlerts.LongRuleNeverFires` | internal/alerting/metric_tracker.go:65-117 | a rule with a duration beyond the age limit never fires |
| `HtmlRewrite.AttributesActual` | internal/api/spa.go:70-79 | for any content the six replacements do what one reading from left to right says, including what each misread NUL swallows and leaves behind |
| `HtmlRewrite.AttributesExactIff` | internal/api/spa.go:70-79 | for any content the six replacements through placeholders equal the one-pass rewriting exactly when no NUL, the content's own or a placeholder's, is misread as part of another placeholder |
| `HtmlRewrite.AttributesExact` | internal/api/spa.go:70-79 | for content without NUL, exactly when no two placeholders run together |
| `HtmlTheorems.FixOnlyInsertsBase` | internal/api/spa.go:59-80 | the one-pass rewriting puts in the base path and nothing else |
| `HtmlInserts.RewriteOnlyInserts` | internal/api/spa.go:66-90 | with a base path the rewriting puts in copies of it and does nothing else, unless a NUL is misread; without one nothing is put in |
| `HtmlInserts.NoBaseNoChange` | internal/api/spa.go:67-69 | without a base path every content comes back unchanged |
| `HtmlTheorems.RewriteIsComplete` | internal/api/spa.go:62-90 | whatever the content, every href or src root in the output of the whole rewriting is followed by the base path and a slash |
| `HtmlTheorems.AttributeBaseIff` | internal/api/spa.go:70-79 | the attribute rewriting is complete on all content exactly when the base path does not itself read like an attribute start; quotes do no harm |
| `HtmlTheorems.SafeBaseIff` | internal/api/spa.go:66-90 | the same for the whole rewriting and base paths without single quotes |
| `HtmlInserts.RewriteReaches` | internal/api/spa.go:66-90 | whatever the content, every root href and src in the result is followed by the base path, a service worker path comes out with it, and a root scope is left only beside one with it |
| `HtmlTheorems.WorkerAndScopeTwice` | internal/api/spa.go:82-88 | applying the service worker and scope steps again changes nothing |
| `HtmlTheorems.UnchangedIff` | internal/api/spa.go:62-90 | the texts the rewriting leaves alone are exactly those with every attribute prefixed, nothing left for the worker and scope steps, and no NUL misread |
| `HtmlTheorems.RewriteIdempotentIff` | internal/api/spa.go:56-61 | for any content, rewriting twice equals rewriting once exactly when no NUL would be misread by the second pass, told from the content alone |
| `HtmlSecondPass.MisreadsAgainIff` | internal/api/spa.go:70-79 | the NULs of the first result that the second pass misreads can be found by reading the content |
| `HtmlTheorems.UndamagedIdempotentIff` | internal/api/spa.go:56-61 | for content that one pass does not damage, exactly when no src whose path reads the placeholder word runs into another attribute |
| `HtmlTheorems.SecondPassDamagesIff` | internal/api/spa.go:56-61 | otherwise the second pass leaves a NUL in it |
| `HtmlTheorems.AttributesKeepQuoted` | internal/api/spa.go:70-88 | the attribute replacements neither make nor break a quoted text the worker and scope steps look for |
| `HtmlTheorems.DamagedIff` | internal/api/spa.go:70-79 | content without NUL comes out with a NUL in it exactly when placeholders run together |
| `HtmlTheorems.WithoutTheWordNoCollision` | internal/api/spa.go:72-80 | content that never spells the href placeholder word is safe before and after a pass |
| `HtmlTheorems.SecondPassDamages` | internal/api/spa.go:56-61 | a concrete content that one pass rewrites correctly and the second damages |
| `Pcm.ConvertS24ToS16Into` | internal/audiocore/capture.go:581-603 | every 16-bit sample is the 24-bit value rounded down over 2^8, its two high bytes; the whole destination is written |
| `Pcm.ConvertS32ToS16Into` | internal/audiocore/capture.go:615-632 | every 16-bit sample is the 32-bit value rounded down over 2^16, its two high bytes |
| `Pcm.Floor24` | internal/audiocore/capture.go:589-595 | the two high bytes of a 24-bit sample are its value rounded down, for negative values too |
| `Pcm.Floor32` | internal/audiocore/capture.go:623-624 | the two high bytes of a 32-bit sample are its value rounded down |
| `Pcm.Narrow24` | internal/audiocore/capture.go:589-602 | sign extension and shift leave the two high bytes and the clamp never fires |
| `Pcm.Narrow32` | internal/audiocore/capture.go:623-631 | the shift leaves the two high bytes and the clamp never fires |
| `Pcm.BytesReadBack` | internal/audiocore/capture.go:642-663 | the two bytes of a 16-bit sample, low byte first, read back as its value |
| `Pcm.ConvertToS16IfNeededInto` | internal/audiocore/capture.go:550-569 | each format gets its conversion or copy, and the reported depth is 16 or 0 |
| `Pcm.ConvertToS16IfNeeded` | internal/audiocore/capture.go:519-527 | a fresh, exactly sized result with the bit depth resolved for copied formats |
| `Pcm.OutputSizeExact` | internal/audiocore/capture.go:532-544 | one output sample for each whole source sample, at most an incomplete last one ignored |
| `SelfHealing.CheckProtectsIff` | internal/analysis/database_service.go:453-523 | among databases without a just-started migration and with no user data outside the four tables, the check protects all user data and active migrations exactly when the catalogue queries work and yield the current migration table where both exist |
| `SelfHealing.DatabaseProtectedIff` | internal/analysis/database_service.go:453-523 | with a readable catalogue, exactly those databases are unprotected that pass the check with user data outside the four tables, a just-started migration, or a migration shadowed by a leftover of the older table |
| `SelfHealing.TableProtectedIff` | internal/analysis/database_service.go:476-498 | the rows of a table are protected exactly when it is one of the four the check counts |
| `SelfHealing.OneStartDeletesIff` | internal/analysis/database_service.go:373-448 | one start with a readable catalogue can delete exactly the databases whose four tables are empty and whose migration state is not unsafe or can be shadowed |
| `SelfHealing.StartedMigrationDeleted` | internal/datastore/v2/entities/migration_state.go:59-66 | a database whose migration has just been started is deleted |
| `SelfHealing.SpeakerNamesDeleted` | internal/datastore/v2/entities/speaker_name.go:5-9 | a database with a speaker name the user assigned is deleted |
| `SelfHealing.ShadowedMigrationDeleted` | internal/analysis/database_service.go:498-520 | a concrete database with both tables loses its active migration |
| `SelfHealing.Store.IsV2DatabaseSafeToDelete` | internal/analysis/database_service.go:453-523 | the loop over the four tables and the migration test, with query failures and the choice between the two migration tables |
| `SelfHealing.Store.InitializeV2WithSelfHealing` | internal/analysis/database_service.go:373-448 | marker, database, log and outcome of one start for every failure and crash point, a crash inside the marker write included |
| `SelfHealing.StartEnds` | internal/analysis/database_service.go:373-448 | a successful start leaves no marker, the program goes on to recreate the database only after deleting it, and a failed start has not deleted it |
| `SelfHealing.FirstStartDeletesIff` | internal/analysis/database_service.go:373-448 | the first start ever, with a readable catalogue, can delete exactly the databases that pass |
| `SelfHealing.MarkerRemembers` | internal/analysis/database_service.go:373-448 | after a deletion the marker is there until a successful initialization removes it |
| `SelfHealing.DeletionsSeparated` | internal/analysis/database_service.go:358-448 | two deletions are always separated by a successful initialization that removed the marker |
| `SelfHealing.DeletedTwice` | internal/analysis/database_service.go:358-448 | a cleared marker is all it takes: delete, initialize, delete is a possible history |
| `SelfHealing.DeletesDespiteMarkerIff` | internal/analysis/database_service.go:394-401 | a start deletes in spite of the marker exactly when looking for it fails and all else goes through |
| `SelfHealing.OnlyPassingDatabasesDeleted` | internal/analysis/database_service.go:453-523 | with a readable catalogue, over any number of starts, only databases that pass are deleted: user data is lost only outside the four tables, an active migration only just started or shadowed |
| `Overlap.SplitIsExact` | internal/analysis/overlap.go:8-22 | the quotient and remainder form is the exact ratio rounded down, for every overlap and clip |
| `Overlap.EffectiveOverlapExactIff` | internal/analysis/overlap.go:8-22 | the scaled overlap is the exact ratio precisely when overlap times remainder and the result fit in 64 bits |
| `Overlap.EffectiveOverlapExact` | internal/analysis/overlap.go:8-22 | with overlap at most base and base squared in 64 bits the result is always exact and at most the model clip |
| `Overlap.FiveSecondBaseOverflows` | internal/analysis/overlap.go:12-21 | four seconds of a five-second base scale to a negative duration for a four-second model |
| `Overlap.NaiveProductOverflows` | internal/analysis/overlap.go:12-14 | multiplying first gives a wrong result where the split form is exact |
| `Overlap.SampleCountExactIff` | internal/analysis/overlap.go:27-33 | the sample count is exact precisely when duration times rate fits in 64 bits |
| `Overlap.ByteCountExactIff` | internal/analysis/overlap.go:27-33 | the byte count is exact precisely when duration times rate and the byte count itself fit in 64 bits |
| `Overlap.OverlapBytesWithinClip` | internal/analysis/overlap.go:27-33 | the byte count is sample-aligned and at most the clip's |

## Left out

- Device capture, cgo, ffmpeg, HTTP serving, MQTT, SSE, telemetry and logging: only the state they read or write is modelled.
- Resampler, equalizer, gain and the floating-point sample conversion: outcomes (success, lengths) are parameters; `Pcm.ConvertF32ToS16Into` takes the conversion of one sample as a function.
- UpdateFilterChain, Routes, HasConsumers and the dispatch timestamps of the router: atomic reads and writes that no modelled property depends on; the watchdog takes last-dispatch times as input.
- `buffer.Manager`, the audio engine and the source registry are not part of this model; pools are a lazily filled map from size to pool.
- Panicking paths of one frame's processing lose pooled buffers in the code; pool discipline is stated for the paths that return.
- The five-second wait for a drainer is a nondeterministic choice between "stopped was seen" and "timed out, do not close".
- Writer preference of the read-write lock: the protocol allows more interleavings than it does.
- Frames without a reference counter skip counting in the code and are not modelled.
- RouterTheorems.NoFrameLeaks: excludes routes linked by an AddRoute that overlapped Close, because those do leak (StrandingNeedsLinkedRoute, OverlapReachable).
- RouterTheorems.DrainedStaysEmpty: excludes the same late-linked routes, for the same reason.
- SoundLevelProtocol.QuiescentRoutesTracked: excludes runs with an untrack that deletes the entry of a live route nobody else answers for, because those do fail (RemoveFirstOrphans).
- SoundLevelProtocol.OrphanNeedsReload: every registration and removal is taken to hold sourcesMu; the one at startup, which does not, runs before the others can. The registry that a removal of all sources walks is taken to list every source with a route.
- SoundLevelService.AudioPipelineService.UntrackSoundLevelConsumer: one source at a time; clearing the whole map after removing all sources is an action of SoundLevelProtocol only.
- A tracked sound-level entry may lack a live route while calls are in flight; only "route implies tracked" is invariant and only that is stated.
- LivenessRuns.FailedWithinBound: concerns last-dispatch times as the environment reports them; the production restart callback resets them, so no end-to-end escalation through it is stated.
- The truth of rule conditions is a parameter of each event (the set of rules it meets); SustainedAlerts computes it for metric rules, with conditions on other properties still a parameter. The parsing of properties, operators and condition values is not modelled.
- Rules are fixed while a statement is about them: an id means one rule throughout a run. Reloading rules with a changed definition is not modelled.
- Species and episode strings are taken after the engine's normalisation (lower case, trimming, the date fallback).
- AlertLadders.FiringsKeepCooldown: is about firings granted by the cooldown; detection ladders may notify within it by design (WindowClimbs). It assumes stored times never go backwards. The detection path reads the clock before it takes the lock, so concurrent detections can store times out of order.
- Cooldowns are multiplied in unbounded integers; a configured cooldown beyond 292 years would overflow a Duration.
- Metric values are reals: NaN and infinities are not modelled.
- HtmlTheorems.RewriteIsComplete: covers base paths without single quotes; with them only the attribute rewriting is covered (AttributesComplete, AttributeBaseIff), because the service worker and scope patterns can occur inside such a path. Base paths with NUL or a trailing slash are not covered: a header cannot hold the one and the other is trimmed (internal/api/v2/app.go:407-410).
- The rewriting of asset URLs in scripts is not modelled; it is not idempotent when the base path starts with an assets segment.
- Pcm: sample data are arrays of bytes; pooled-frame production around the conversion is covered only through the output size.
- SelfHealing: user tables are the ten of the schema (and one former name) that hold what users enter and what is recorded or learned for them; seeded, cached, weather and bookkeeping tables are left out, but TableProtectedIff is about every table.
- SelfHealing.DeletionsSeparated: needs the marker to be seen whenever it is there; DeletesDespiteMarkerIff says what happens otherwise. File-system changes are taken to survive a process crash in order.
- The retry of Initialize after the database file was recreated does not touch the marker and is not an event of the log.
- Monitors, stream probing, schema catalogues, default rules, templates, start and stop orchestration: data or plumbing that would only add easy members.
