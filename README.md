# discoverkit, modelled in Dafny

discoverkit finds gRPC targets and the Dogma applications they host. It also
keeps one cancelable observer running per thing it has found. This project
models the sequential bookkeeping at its core and proves what that bookkeeping
promises:

- **Observer error classification** (`target.go`, `discoverer.go`,
  `application.go`). An observer's result becomes nil or a typed observer
  error. That error's message names the subject and the cause, and `Unwrap`
  returns the cause.
- **The application watch-stream reconciler** (`application.go`, `recv`). It
  is a per-message state machine over `known`, the map from identity to
  cancel handle. Launches and cancellations are recorded as events.
  Around it sits the retry ladder of `TargetConnected`.
- **The DNS snapshot reconciler** (`dns.go`). `query` lower-cases and
  de-duplicates results and classifies resolver errors. `sync` cancels
  vanished addresses once and leaves survivors alone. It gives each new
  address one fresh context shared by all of that address's targets.
  `discover` repeats query, sync and sleep.
- **The two availability servers** (`api/server.go`, `server.go`).
  - `update` is a copy-on-write change with an idempotence guard.
  - The `changed` broadcast channel wakes watchers.
  - `diff` sends one response per key of `lhs` missing from `rhs`.
  - The watch loop keeps the `prev` baseline.
- **The Kubernetes environment scanner** (`kubernetes.go`). It turns
  `<SERVICE>_SERVICE_PORT_<NAME>=<port>` lines into `<host>:<port>` targets.
- **The connector** (`connector.go`). It runs the ignore predicate, merges
  dial options (defaults first), dials, calls the observer and closes the
  connection.
- **The static discoverer** (`static.go`). It discovers each target in order,
  then undiscovers them in reverse order once the context is done.

Each core file keeps the form it has in Go:

- Pure classification and formatting become functions and lemmas.
- Loops become methods with loop invariants. Each is proved against a
  specification function: `Recv` against `Run`, `TargetConnected` against
  `Retry`, `Query` against `Resolved`, `DiscoverTargets` against
  `Discovered`, and `Static.Discover` against `Trace`.
- Objects whose fields are reassigned become classes: `Dns.DnsDiscoverer`,
  `ApiServer.Server`, `Discoverkit.Server` and `Broadcast.Stream`.

Go's `error` is `Option<Error>` over a datatype of the error values the core
creates and compares. Cancel functions are handle numbers. Goroutine launches
and cancellations are ghost or returned event logs. `ctx.Err()`, the
resolver's answers, the stream's messages, the dial outcome and the
observers' results are parameters.

Files: `base.dfy` (Option, Result, counting, reversal), `types.dfy` (targets,
identities, errors and their messages), `strings.dfy` (the ASCII subset of
`strings`/`net` used), one file per core Go file, and `broadcast.dfy` for what
the two servers share.

## Model

| member | source | states |
|---|---|---|
| Types.FailureTextRoundTrip | target.go:62-68 | "failure observing '<subject>' <kind>: <cause>" can be parsed back into subject, kind and cause when the subject has no quote and the kind no colon |
| TargetObserving.TargetDiscovered | target.go:77-99 | nil exactly when the observer returned nil, or returned `Canceled` while its own context is `Canceled`; otherwise a TargetObserverError carrying d, o, t and the observed error as its cause |
| TargetObserving.ErrorNamesTargetAndCause | target.go:58-68 | the message of a TargetObserverError yields the target's name, the kind "target" and the cause's message; `Unwrap` returns `Cause`, so `errors.Is(err, cause)` holds |
| DiscoverObserving.TargetDiscovered | discoverer.go:77-99 | the same classification, producing a DiscoverObserverError |
| DiscoverObserving.ErrorNamesTargetAndCause | discoverer.go:58-68 | the message names the target and the cause recoverably; `Unwrap` returns `Cause`, so `errors.Is(err, cause)` holds |
| Applications.ApplicationDiscovered | application.go:262-284 | nil exactly for a nil result or a `Canceled` result under a cancelled context; otherwise an ApplicationObserverError with d, o, the application and the cause |
| Applications.ErrorNamesApplicationAndCause | application.go:46-56 | the message reads back as subject "<name>/<key>", kind "application" and the cause's message; `Unwrap` returns `Cause`, so `errors.Is(err, cause)` holds |
| Applications.ReceiveError | application.go:183-195 | a receive error gives nil exactly when its gRPC code is Unimplemented; otherwise it is wrapped, unwraps to the error and reads "unable to read from stream: <error>" |
| Applications.Recv | application.go:174-253 | the loop's exit, `known` and event log equal those of the step function run over the stream from an empty `known` |
| Applications.InvalidIdentityIsDropped | application.go:197-215 | an invalid identity leaves `known` and the handle counter unchanged; it is logged with the "invalid application identity: " prefix only when LogError is set |
| Applications.ReannouncementIsNoOp | application.go:217-224 | a message whose flag equals the identity's current membership changes nothing |
| Applications.UnavailableCancelsItsHandle | application.go:226-232 | "unavailable" for a known identity cancels exactly its handle once and removes only that identity |
| Applications.AvailableLaunchesOneObserver | application.go:234-251 | "available" for an unknown identity stores a handle no identity holds and launches exactly one observer for `Application{id, c}` |
| Applications.ReceiveErrorEndsReading | application.go:182-195 | a receive error ends the loop with nil for Unimplemented, the wrapped error otherwise, and leaves `known`, the handle counter and the event log unchanged |
| Applications.StartCoherent | application.go:180 | the empty `known` satisfies the bookkeeping invariant |
| Applications.CancelCoherent | application.go:226-232 | the cancel branch preserves the invariant |
| Applications.LaunchCoherent | application.go:234-251 | the launch branch preserves the invariant |
| Applications.StepCoherent | application.go:183-251 | every message preserves the invariant |
| Applications.RunCancelsAfterLaunch | application.go:226-251 | over any stream, every cancellation in the log is preceded by the launch of the same handle |
| Applications.RunCoherent | application.go:182-252 | every sequence of messages preserves the invariant |
| Applications.AtMostOneLiveObserver | application.go:217-251 | after any stream, the launched-and-uncancelled handles are exactly those in `known`; no identity has two live observers; handles are cancelled at most once, only if launched, and each cancellation comes after its handle's launch in the event log |
| Applications.MembershipOfResponses | application.go:217-251 | over responses only, an identity is in `known` iff its last valid announcement said available |
| Applications.RunStopsAtFailure | application.go:183-195 | messages after the first receive error have no effect on `known` |
| Applications.KnownFollowsLastAnnouncement | application.go:180-252 | for any stream, an identity is in `known` iff its last valid announcement before the first receive error said available |
| Applications.DuplicateThenUnavailableScenario | application.go:217-251 | available, available, unavailable for one identity launches one observer and cancels exactly its handle |
| Applications.TakeTurn | application.go:95-123 | one pass of the retry loop produces exactly the turn function's exit and events |
| Applications.TargetConnected | application.go:88-125 | the retry loop's exit and events (resets, logs, sleeps) equal the retry function over the rounds |
| Applications.OnlyFatalErrorsEscape | application.go:100-123 | a returned error is an observer failure, the context's error (when logging) or the sleep's error; a nil return means some watch returned nil |
| Applications.ObserverFailureIsNotRetried | application.go:104-107 | an ApplicationObserverError is returned at once, with no log and no sleep |
| Applications.CancelledContextIsNotLogged | application.go:109-114 | with LogError set and the context done, `ctx.Err()` is returned without logging |
| Applications.TransientErrorIsRetried | application.go:116-123 | any other error is logged when LogError is set, then slept on, and the next round runs; only a round whose stream opened resets the counter |
| Dns.NewTargets | dns.go:192-200 | without a custom function, exactly one target named after the address; otherwise the custom function's result |
| Dns.Resolved | dns.go:163-189 | a temporary or not-found DNS error gives the empty set; other errors pass through; otherwise an address is in the set iff it is the lower-case form of a looked-up address |
| Dns.Query | dns.go:163-189 | the loop-built result equals the resolved address set |
| Dns.QueryResultsAreLowerCase | dns.go:182-186 | every returned address has no upper-case letter and lower-casing leaves it unchanged |
| Dns.DnsDiscoverer.constructor | dns.go:68-72 | a discoverer starts with no known addresses and no events |
| Dns.DnsDiscoverer.Prune | dns.go:118-129 | `known` becomes its restriction to the results; each vanished address's handle is cancelled exactly once; what remains is the results minus the old known addresses |
| Dns.DnsDiscoverer.Admit | dns.go:134-152 | a failed expansion returns its error and records nothing; a successful one records a fresh handle, even for zero targets, and launches one observer per target under it |
| Dns.DnsDiscoverer.AdmitAll | dns.go:133-153 | every unseen address is admitted in some order, stopping at the first expansion error, which is returned |
| Dns.DnsDiscoverer.Sync | dns.go:112-156 | on success `known` equals the results; survivors keep their handle; vanished handles are cancelled once; new addresses get fresh handles; an expansion error is returned; the invariant is kept |
| Dns.DnsDiscoverer.Round | dns.go:88-107 | a query error is returned with `known` untouched; the sync fails exactly when some new address fails to expand, returning that address's error; otherwise `known` becomes the resolved set and the sleep's result (nil or its error) is returned |
| Dns.DnsDiscoverer.Discover | dns.go:86-108 | nil only while every round resolved and slept, and then `known` equals the last round's results; an error is that of the first round that fails: its query error (with `known` as the round found it), else the expansion error of one of its new addresses, else its sleep's error (with `known` synced to its results) |
| Dns.LiveIsKnown | dns.go:118-153 | under the invariant, the open and uncancelled contexts are exactly the handles of the known addresses |
| Dns.PruneCoherent | dns.go:118-129 | forgetting the vanished addresses and cancelling their handles keeps the invariant |
| Dns.BlocksCoherent | dns.go:133-153 | admitting new addresses with fresh, distinct handles keeps the invariant |
| Dns.SyncCoherent | dns.go:112-156 | pruning followed by admitting keeps the invariant |
| Dns.NoCancellationInBlocks | dns.go:133-153 | admitting new addresses cancels nothing |
| Dns.CancelledExactlyOnce | dns.go:123-128 | each vanished handle is cancelled exactly once in a sync |
| Dns.SurvivorUntouched | dns.go:119-122 | an address in both `known` and the results is not expanded, cancelled or launched under |
| Dns.OneObserverPerTarget | dns.go:143-152 | a new address launches exactly one observer per target it expands to, all under its own handle |
| Broadcast.Notify | api/server.go:78-82 | an effective update closes the current channel, if any, and leaves `changed` nil |
| Broadcast.CaptureAsWritten | api/server.go:91-93 | as written, a nil `changed` stays nil; a non-nil one is replaced by a new open channel, and the replaced channel is dropped without being closed; well-formedness is kept |
| Broadcast.CaptureIntended | api/server.go:85-96 | as intended, the returned channel is open and a non-nil `changed` is kept |
| Broadcast.AsWrittenNeverWakes | api/server.go:78-93 | as written, a server whose `changed` starts nil keeps it nil and closes nothing, whatever captures and updates occur |
| Broadcast.ExistingWatcherMissesUpdate | server_test.go:90-104 | as written, a capture followed by an update closes no channel, so the waiting watcher is not woken |
| Broadcast.IntendedWakes | api/server.go:128-135 | as intended, a captured channel is closed iff an effective update happened after the capture |
| Broadcast.ClosedStaysClosed | api/server.go:78-82 | closed channels stay closed |
| Broadcast.Stream.Send | api/server.go:156-158 | a send either fails with that call's error and delivers nothing, or delivers the response |
| Broadcast.Diff | api/server.go:141-162 | sends one response with the given flag per key of `lhs` missing from `rhs`, each once; the first failing send ends it and is returned |
| Broadcast.ReplayResponses | api/server.go:141-162 | applying one flag's responses adds, or removes, exactly their keys |
| Broadcast.BatchReplay | api/server.go:114-126 | a complete batch brings a client that holds `prev`'s keys to exactly `next`'s keys |
| Broadcast.BatchKeysDisjoint | api/server.go:116-126 | no key is announced both available and unavailable in one batch: two responses for the same key carry the same flag |
| Broadcast.FirstBatchAnnouncesAll | api/server.go:110-126 | against a nil `prev`, the batch announces every available key as available and nothing as unavailable |
| ApiServer.Server.constructor | api/server.go:14-28 | the zero server: nothing available and `changed` nil |
| ApiServer.Server.Available | api/server.go:34-36 | a known key is a no-op; otherwise the identity is added under its key and watchers are notified |
| ApiServer.Server.Unavailable | api/server.go:39-41 | an unknown key is a no-op; otherwise only that key is removed and watchers are notified |
| ApiServer.Server.Update | api/server.go:44-83 | asking for the current state changes neither map nor signal; otherwise the new map is the old one plus or minus `app.Key`, and watchers are notified, leaving `changed` nil |
| ApiServer.Server.Capture | api/server.go:87-96 | as written: returns the current map, and `changed` follows the as-written capture |
| ApiServer.Server.CaptureIntended | api/server.go:87-96 | as intended: returns the current map and an open channel |
| ApiServer.Server.ApplyChanges | api/server.go:34-41 | updates made by other goroutines never reopen a channel; if the captured channel is still open, nothing changed |
| ApiServer.Server.Watch | api/server.go:100-137 | a watcher left waiting has been sent exactly the currently available keys; one that ended returns a send error or the context's error |
| Discoverkit.UpdatedAsWritten | server.go:58-76 | as written, every effective update leaves exactly `{app.Key}` |
| Discoverkit.UpdatedIntended | server.go:58-76 | as intended, `app.Key` is present iff available, and every other key is kept |
| Discoverkit.Step | server.go:52-56 | an update requesting the current state leaves the set unchanged |
| Discoverkit.AvailableForgetsOthers | server.go:62-73 | as written, making "b" available after "a" leaves only "b"; as intended, both |
| Discoverkit.UnavailableKeepsApplication | server.go:67-73 | as written, making the only key "a" unavailable keeps "a"; as intended, the set is empty |
| Discoverkit.CurrentStateScenario | server_test.go:178-208 | app1 on, app2 on, app1 off, app3 on ends with {app3} as written and {app2, app3} as intended |
| Discoverkit.UpdateUndone | server.go:44-83 | as intended, an effective update followed by the opposite one restores the set |
| Discoverkit.Server.constructor | server.go:14-28 | the zero server: nothing available and `changed` nil |
| Discoverkit.Server.Available | server.go:34-36 | through `update` as written: a present key is a no-op; otherwise the key set becomes exactly `{app.Key}` and watchers are notified |
| Discoverkit.Server.Unavailable | server.go:39-41 | through `update` as written: an absent key is a no-op; otherwise the key set stays exactly `{app.Key}` and watchers are notified |
| Discoverkit.Server.UpdateAsWritten | server.go:44-83 | the literal copy loop: a no-op for the current state; otherwise the keys become the as-written result and watchers are notified |
| Discoverkit.Server.Update | server.go:44-83 | the intended copy loop: a no-op for the current state; otherwise the keys become the intended result and watchers are notified |
| Discoverkit.Server.SnapshotAsWritten | server.go:87-96 | as written: returns the current set, and `changed` follows the as-written capture |
| Discoverkit.Server.Snapshot | server.go:87-96 | as intended: returns the current set and an open channel |
| Discoverkit.Server.ApplyChanges | server.go:34-41 | updates made by other goroutines, through `update` as written, never reopen a channel; if the captured channel is still open, nothing changed |
| Discoverkit.Server.WatchApplications | server.go:100-137 | a watcher left waiting has been sent exactly the current keys; one that ended returns a send error or the context's error |
| Kubernetes.NameToEnv | kubernetes.go:86-90 | same length; each '-' becomes '_' and each letter is upper-cased; no '-' or lower-case letter remains |
| Kubernetes.NameToEnvIdempotent | kubernetes.go:86-90 | converting twice is converting once |
| Kubernetes.Separator | kubernetes.go:43-50 | the separator starts with "_SERVICE_PORT_" and ends with '=' |
| Kubernetes.DefaultSeparator | kubernetes.go:43-50 | an empty port name gives "_SERVICE_PORT_DOGMA=" |
| Kubernetes.CustomSeparator | kubernetes.go:48-50 | the port name "custom" gives "_SERVICE_PORT_CUSTOM=" |
| Kubernetes.GetenvFromLine | kubernetes.go:63 | a non-empty host value comes from a `name=value` line |
| Kubernetes.GetenvFirstLine | kubernetes.go:63 | the first `name=` line decides the value |
| Kubernetes.TargetOfLine | kubernetes.go:53-74 | a line `service + separator + port` with a non-empty port yields nothing when the host is empty; otherwise it yields `JoinHostPort(host, port)` with DialOptions applied only when set |
| Kubernetes.NoTargetWithoutPort | kubernetes.go:53-61 | a line without the separator, or with an empty port, yields nothing |
| Kubernetes.DiscoveredFromLines | kubernetes.go:52-77 | every target passed to the observer comes from some environment line |
| Kubernetes.LineDiscovered | kubernetes.go:52-77 | every qualifying line's target is passed to the observer |
| Kubernetes.ScanLine | kubernetes.go:53-74 | one loop iteration yields exactly that line's target |
| Kubernetes.DiscoverTargets | kubernetes.go:39-82 | the observer receives exactly the qualifying lines' targets in environment order, and `ctx.Err()` is returned |
| Strings.ToLower | dns.go:185 | same length; each character is lower-cased (ASCII) |
| Strings.ToLowerIdempotent | dns.go:185 | lower-casing twice is lower-casing once |
| Strings.Index | kubernetes.go:53 | -1 iff the separator does not occur; otherwise its first occurrence |
| Strings.JoinSplitRoundTrip | kubernetes.go:69 | splitting `JoinHostPort(host, port)` gives back host and port |
| Connecting.Options | connector.go:52-54 | the connector's dial options first, then the target's, both complete |
| Connecting.TargetDiscovered | connector.go:39-45 | with Ignore set, a true verdict or an error returns that error after asking Ignore and nothing else |
| Connecting.DialedUnlessIgnored | connector.go:40-56 | a dial happens iff the target is not ignored; it uses `grpc.Dial` when no Dial is set, the target's name and the merged options |
| Connecting.ObserverAfterSuccessfulDial | connector.go:56-62 | the observer is called iff the dial succeeded; its result is returned verbatim; Close is the last call and follows it |
| Connecting.DialErrorPassesThrough | connector.go:56-59 | a dial error is returned, and neither the observer nor Close is called |
| Static.Discover | static.go:11-19 | the trace is each target discovered in order, then the context done, then each undiscovered in reverse; `ctx.Err()` is returned |
| Static.TraceShape | static.go:12-18 | target i is discovered at position i and undiscovered at position 2n-i, around the wait at n |
| Static.NoUndiscoveryBeforeDone | static.go:14-17 | no undiscovery happens before the context is done |
| Static.UndiscoveryNests | static.go:12-18 | for i < j, i is discovered before j and undiscovered after j |
| Static.OnceEach | static.go:12-14 | with distinct targets, each is discovered exactly once and undiscovered exactly once |

## Left out

- Goroutines, `errgroup`, mutexes and context propagation are concurrency. Launches and cancellations are events. Other goroutines' updates during a watch are a list of changes applied at the wait.
- `select` between a closed `changed` channel and a done context picks at random. Each pause's `wakeFirst` flag chooses instead.
- gRPC dialing, stream `Recv`/`Send`, protobuf messages and `net.Resolver` are foreign. Their outcomes are parameters.
- The `watch` attempt itself (application.go:131-170) is reduced to its outcome: whether the stream opened and the error it ended with.
- Backoff and sleep timing are foreign. Only the counter's Reset and Sleep remain, as events, and the sleep's result is a parameter.
- Identity validation (`configkit.NewIdentity`, `Validate`) is an abstract function. An invalid identity makes `update` panic, so `Update` requires a valid one.
- `os.Environ` and `os.Getenv` are environment I/O. The lines are a parameter, and Getenv reads the same lines.
- Kubernetes.DiscoverTargets: the observer's results are discarded by the source and are not modelled.
- Case mapping is restricted to ASCII letters. Unicode case mapping is not modelled.
- Observer errors keep the discoverer and observer as opaque references, since only identity matters.
- The `Discover` wrapper (dns.go:68-82) only starts `discover` under an errgroup. Only its reset of `known` is modelled, as the constructor.
- Copy-on-write of the available map holds by construction, because Dafny maps are values. No statement about sharing old maps is needed.
- The application observer's own `defer cancel()` when it returns (application.go:241) is goroutine completion and is not an event.
- entity.go is not part of this model.
- ApiServer.Server.Watch: it uses the intended `capture`. As written, a watcher never gets a second batch (see Findings).
- Applications.ReceiveError: only an error that is itself a gRPC status (`Status`) counts for `status.FromError`. Newer gRPC versions also find a status inside a wrapped error; the model follows the older, direct check, and the gRPC version is not pinned by the code modelled here.
- Discoverkit.Server.WatchApplications: it uses the intended `snapshot`, for the same reason. The changes other goroutines make while it waits go through `update` as written (`Server.ApplyChanges`).

## Findings

| source | as written | input that shows it | evidently intended | confidence | as-written member | corrected member |
|---|---|---|---|---|---|---|
| server.go:67-73 | the copy loop keeps `k` only when `!available && k == app.Key` | `{a}` then Available(b) leaves `{b}`; `{a}` then Unavailable(a) leaves `{a}`; the current-state test sequence leaves `{app3}` | copy every key except `app.Key` when it became unavailable | high (not executed) | Discoverkit.UpdatedAsWritten, Discoverkit.Server.UpdateAsWritten, Discoverkit.Server.Available, Discoverkit.Server.Unavailable, Discoverkit.CurrentStateScenario | Discoverkit.UpdatedIntended, Discoverkit.Server.Update, Discoverkit.UpdateUndone |
| api/server.go:91-93 and server.go:91-93 | a new channel is made only when `changed` is already non-nil; `changed` starts nil | a watcher captures, then Available(app) runs: no channel is closed and the watcher waits on a nil channel forever | make a channel when `changed` is nil | high (not executed) | Broadcast.CaptureAsWritten, Broadcast.AsWrittenNeverWakes, ApiServer.Server.Capture, Discoverkit.Server.SnapshotAsWritten | Broadcast.CaptureIntended, Broadcast.IntendedWakes, ApiServer.Server.CaptureIntended, Discoverkit.Server.Snapshot |
