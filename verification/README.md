# Rubix Redis Bridge in Dafny

Rubix Redis Bridge serves Redis over HTTP. This project models the parts of it that keep state or transform data, and
proves what they promise over whole runs and over every input. `dafny verify dfyconfig.toml` checks it.

## What is modelled

**Connection shards** (`Slots`, `ShardWorker`, `Supervisor`, `ShardProtocol`, `TargetRuns`, `RedisTarget`, `RoundRobin`,
`Backoff`). A target is an interleaved transition system: one supervising worker per shard and any number of requests
inside `connection()`, with every `send_modify`, `send_if_modified`, `fetch_add`, `fetch_sub` and `borrow` one step.
Connect and probe results, arrivals and cancellations come from the environment. The watch channels carry a `nat` version;
generation, revision and ticket counters wrap at 2^64. `RedisTarget.Target` has `connected` and `disconnected` as methods
and shows each to be a run of worker steps. The proofs rest on what the code does: only a shard's own worker calls them
for it.

**Authentication lockout** (`Lockout`, `LockoutRuns`, `LockoutOrder`, `LockoutBounds`). The table is a class; a run is a
list of failures, successes and snapshots. Times are natural numbers. The code reads the clock before it takes the mutex,
so times can come out of order: `Timely` is the assumption that they do not, `InvisibleIff` says what holds without it.
The window and the lock duration may be anything, including zero, which startup forbids.

**Redis values to JSON** (`Base64`, `Text`, `RedisJson`, `JsonRoundTrip`, `PlainRoundTrip`). Text is its UTF-8 bytes, the
target is a JSON tree. Doubles and the debug names of formats and push kinds are opaque texts.

**Admission and metrics** (`Metrics`, `Execute`, `Operations`, `Admission`, `Realtime`, `Counting`). Operations and realtime
streams are transition systems cut at every effect on a permit or a metric; guards are classes, and so is a call of
`execute_operation`, each of whose resumptions is shown to be a run of the transition system. `Admission` puts the
operations and the shard protocol together: being admitted starts a `connection()` call, its return starts the command.

**Configuration, routes, policy, response body, proxies** (`Config`, `Routes`, `Policy`, `Response`, `Cidr`).

## Where the code and its documentation differ

- The repository's README (README.md:276) says a realtime permit is retained until the client disconnects or the Redis
  Pub/Sub connection closes. In the code a closed Pub/Sub connection leads to a reconnect inside the same stream, which
  keeps its permit and guard (src/app/realtime.rs:144-162). The model follows the code.
- The repository's README (README.md:271 and README.md:284) says the request timeout covers what follows once an operation
  permit is available. In the code it starts before the permit is awaited (src/redis/execute.rs:128-132), so it can expire
  there. The model follows the code: `RequestTimeout` is possible in `Waiting`.

## Results that are sharper than the obvious statement

- The fixed-window bound is 2 * max_failures - 3, not 2 * (max_failures - 1), and it is attained.
- Both round trips are exact, over every value of every constructor. In base64 mode a value is recovered iff it is built
  from the ordinary constructors and no map that becomes an object has a key other than a bulk or simple string; a map in
  pair-list form may have any recoverable keys. In plain mode such a map must moreover not spell the tagged form of
  a pair list or of a binary string; every pair list has a twin that does (`PairListsCollide`).
- Cleaning the lockout table is invisible, in whatever order clock readings reach the mutex and however often the last
  event is repeated, iff each admitted failure that finds its entry cleaned away comes when the entry's lock has expired
  or its window elapsed, and each snapshot finds what was cleaned away stale. Ordered times are one way to meet that.
- A `disconnected` call by a worker never answers false, and the slot-change branch of its select never fires.
- For arbitrary callers, a stale generation clears a newer connection exactly when a multiple of 2^64 - 1 installations
  lie in between.

## Model

| member | source | states |
|---|---|---|
| `ShardProtocol.NoLostWakeup` | src/app/state.rs:293-371 | in every interleaving, a request asleep on the current revision has every slot empty, or some worker still owes the bump that wakes it |
| `ShardProtocol.SleeperServed` | src/app/state.rs:293-318 | with the workers settled and a shard connected, every sleeping request can be woken and, left alone, returns the connection its ticket selects |
| `ShardProtocol.SoloRequestServed` | src/app/state.rs:298-311 | the slot-by-slot scan with its re-read refines `select_ready_shard` when nobody interferes |
| `ShardProtocol.ShardAccounting` | src/app/state.rs:320-371 | available shards = filled - filled but uncounted + cleared but not uncounted; within 0..=shards; no decrement meets zero; equals filled slots when nothing is in flight, as does the gauge |
| `ShardProtocol.ReadyMeansConnected` | src/app/state.rs:207-213 | with no update in flight, readiness is reported exactly when there are targets and each has a filled slot |
| `ShardProtocol.ConnectionsAccounted` | src/app/state.rs:320-371 | a returned connection was installed in that shard under that generation; the retiring calls were one per installed connection but the current one, in order and under its generation, none refused |
| `ShardProtocol.RequestStepsBounded` | src/app/state.rs:293-318 | in every interleaving a request takes at most (shards + 3) * (1 + bumps since it arrived) steps |
| `ShardProtocol.SupervisorRuns` | src/app/state.rs:373-455 | retirement only on the first pair of consecutive failed probes of the very connection it clears; consecutive connect failures sleep min(250 * 2^k, 5000) ms |
| `TargetRuns.SupervisorFollows` | src/app/state.rs:373-455 | in every interleaving the connections a worker made are those it installed, in order, and the one in hand; its probe log and sleeps are its environment's answers since the last one; and it is up or down as those answers call for |
| `TargetRuns.ConnectInstalls` | src/app/state.rs:423-437 | a successful connect and four more steps of the worker put that connection into the slot, count it and announce it |
| `Supervisor.PlayedReacts` | src/app/state.rs:388-455 | every run of the supervisor refines a two-state automaton: a connect brings a link up, two failed probes in a row take it down, each failed connect counts |
| `Supervisor.PlayedLog` | src/app/state.rs:388-455 | over every run a shard's log is what its environment answered |
| `Supervisor.WorkerSettles` | src/app/state.rs:388-455 | within five steps of its own a worker waits again, with its link in place, counted and announced, and takes any answer |
| `ShardProtocol.NextKeepsInv` | src/app/state.rs:293-455 | every step of every worker and request keeps the protocol invariant |
| `ShardWorker.StepKeepsConsistent` | src/app/state.rs:373-455 | every supervisor step keeps slot, log, probe history and backoff in agreement |
| `ShardWorker.RetirementIsExact` | src/app/state.rs:399-414 | a worker about to retire saw the first failed pair in the connection's life, and its call answers true |
| `Slots.RetiredAtMostOnce` | src/app/state.rs:343-350 | whoever calls, each generation is retired at most once before the counter wraps, never after the slot moved on |
| `Slots.StaleGenerationClearsIff` | src/app/state.rs:320-350 | a stale generation clears a newer connection iff the installations in between are a multiple of 2^64 - 1 |
| `Slots.NextGenerationOf` | src/app/state.rs:321-324 | the k-th installation is stamped (k - 1) mod (2^64 - 1) + 1 |
| `RedisTarget.Target.Connected` | src/app/state.rs:320-341 | the sequence of writes in `connected` is four worker steps of the transition system |
| `RedisTarget.Target.Disconnected` | src/app/state.rs:343-371 | `disconnected` invalidates iff generation and connection match, and is four worker steps, or one that changes nothing shared |
| `RoundRobin.SelectIsFirstReady` | src/app/state.rs:471-479 | the first ready shard in cyclic order from the ticket; none iff none is ready |
| `RoundRobin.RoundRobinShare` | src/app/state.rs:471-479 | over one turn of consecutive tickets a ready shard is chosen exactly as often as its distance back to the previous ready shard |
| `TargetRuns.TicketsInOrder` | src/app/state.rs:296 | the k-th ticket taken along a run is k modulo 2^64 |
| `TargetRuns.TurnIsShared` | src/app/state.rs:293-312 | while the ready shards stay the same, the served requests of one turn of consecutive tickets, however they interleave, get each ready shard as often as its gap |
| `RoundRobin.IndexFitsWord` | src/app/state.rs:476-477 | the index arithmetic never overflows |
| `Backoff.DelayIsDoubled` | src/app/state.rs:450-451 | doubling capped at 5 s has the closed form min(250 * 2^k, 5000) |
| `Lockout.AuthLockout.RecordFailureAt` | src/auth/lockout.rs:88-142 | the in-place update is the specification function `Failure` |
| `Lockout.AuthLockout.RecordSuccess` | src/auth/lockout.rs:144-151 | a success forgets the address and nothing else |
| `Lockout.AuthLockout.SnapshotAt` | src/auth/lockout.rs:157-178 | afterwards the counts are the table's entries and the entries carrying a lock, which are the locks running before |
| `Lockout.AuthLockout.CleanupStaleEntries` | src/auth/lockout.rs:180-186 | keeps exactly the entries that are not stale |
| `Lockout.FailureKeepsBound` | src/auth/lockout.rs:95-109 | a failure never grows the table past its bound |
| `Lockout.RefusedIff` | src/auth/lockout.rs:88-107 | a failure is refused iff its address is new and max_entries entries have a running lock or a failure less than a window old; it is ignored iff max_failures is 0 |
| `LockoutRuns.RoomForAll` | src/auth/lockout.rs:95-107 | a timely run of at most max_entries addresses is answered, with nothing dropped, as by the unbounded table |
| `LockoutRuns.ActsFreshIff` | src/auth/lockout.rs:111-123 | a failure cannot tell an entry of a run from none iff its lock has expired or, unlocked, its window elapsed |
| `LockoutRuns.StaleActsFresh` | src/auth/lockout.rs:25-38 | an entry stale by its last failure meets that condition, although reset looks at the window start |
| `LockoutRuns.RunAgrees` | src/auth/lockout.rs:88-186 | in any order of times, if every event finds what was cleaned away harmless, all answers but refusals are those of an unbounded table that never cleans |
| `LockoutRuns.CleanupIsInvisible` | src/auth/lockout.rs:88-186 | apart from failures turned away, the bounded self-cleaning table answers every event of every timely run as an unbounded table that never cleans |
| `LockoutOrder.InvisibleIff` | src/auth/lockout.rs:84-186 | the condition of RunAgrees is exact: over a run and every repetition of the last event of its prefixes, cleaning goes unseen iff it holds |
| `LockoutOrder.OutOfOrderTimesShow` | src/auth/lockout.rs:84-93 | for any failure at t0, cleaning at t1 > t0 and failure stamped t2 < t1, some configuration answers otherwise than without cleaning |
| `LockoutRuns.RunKeepsBound` | src/auth/lockout.rs:95-107 | the table never exceeds max_entries |
| `LockoutBounds.LockSoundness` | src/auth/lockout.rs:109-141 | Locked is the max_failures-th counted failure, since the last success or lock, in a span shorter than the window |
| `LockoutBounds.LockPersists` | src/auth/lockout.rs:25-30 | until the fixed release time, absent a success, every failure is AlreadyLocked and the entry is neither evicted nor changed; then counting starts afresh |
| `LockoutBounds.FixedWindowBound` | src/auth/lockout.rs:109-141 | within any window-long interval without lock or success an address is Tracked at most 2 * max_failures - 3 times |
| `LockoutBounds.FixedWindowBoundAttained` | src/auth/lockout.rs:119-141 | that bound is reached, for every configuration with max_failures and window at least 2 |
| `LockoutBounds.AmortisedLockouts` | src/auth/lockout.rs:95-141 | over every run max_failures * #Locked <= #Tracked + #Locked |
| `Base64.EncodeIffDecode` | src/redis/value.rs:106-127 | padded base64 (section 4 of RFC 4648) is a bijection onto what its strict decoder accepts |
| `Base64.AlphabetIs` | src/redis/value.rs:106-109 | the alphabet is the 64 characters of section 4 of RFC 4648 in order, the padding "=" |
| `Base64.EncodeIsPositional` | src/redis/value.rs:106-109 | each group of octets and its four symbols denote the same 24 bits, padding where no input bit is left |
| `Text.ValidUtf8Iff` | src/redis/value.rs:114-115 | the UTF-8 test passes exactly the encodings of strings, each of one string only |
| `Text.Utf8IffFrom` | src/redis/value.rs:114-115 | encoding is a bijection onto what the decoder, which adds up payload bits (section 3 of RFC 3629), accepts |
| `Text.DecimalReads` | src/redis/value.rs:299-319 | the decimal form reads as the number and has no leading zero |
| `TaggedJson.KeyIsScalarText` | src/redis/value.rs:296-321 | a key renders as the text of its own JSON if that is a scalar, else not at all; only OK is a string but no key |
| `TaggedJson.BinaryCarries` | src/redis/value.rs:106-127 | bytes that encode no string are sent as a tagged object whose text decodes to them |
| `TaggedJson.StringCarries` | src/redis/value.rs:114-115 | bytes that encode a string are sent as it |
| `TaggedJson.AttributeCarries` | src/redis/value.rs:59-65 | an attribute carries its data and its map, each as it would be sent alone |
| `TaggedJson.PushCarries` | src/redis/value.rs:75-81 | a push carries its kind and its data as an array |
| `TaggedJson.DoubleCarries` | src/redis/value.rs:92-104 | finite doubles are numbers, others carry their text |
| `TaggedJson.VerbatimCarries` | src/redis/value.rs:67-73 | verbatim strings carry format and text, in either mode |
| `TaggedJson.ErrorCarries` | src/redis/value.rs:83-88 | server errors carry their message, in either mode |
| `PlainRoundTrip.StringsAlike` | src/redis/value.rs:106-139 | in plain mode a simple string and the bulk string of its bytes render alike, as values and as keys |
| `RedisJson.ObjectKeys` | src/redis/value.rs:279-294 | the loop yields the rendered keys in order, exactly when all render and no two are alike |
| `RedisJson.MapsLoseNothing` | src/redis/value.rs:204-277 | a map is an object with one member per entry iff its keys render distinctly, else a tagged list of pairs, in order and of the same length |
| `RedisJson.EveryObjectHasUniqueNames` | src/redis/value.rs:38-104 | every object emitted, at any depth, in either mode, has unique member names |
| `JsonRoundTrip.EncodedIsNotOk` | src/redis/value.rs:129-139 | base64 never spells the status "OK" |
| `JsonRoundTrip.RoundTripIff` | src/redis/value.rs:22-104 | a client reading base64-mode JSON recovers a value, up to string kinds and sets, iff it is built from the ordinary constructors and every map in object form has text keys |
| `JsonRoundTrip.SameJsonSameReply` | src/redis/value.rs:106-179 | a value with the JSON of a recoverable one is the same reply iff it is recoverable too |
| `JsonRoundTrip.ScalarKeysCollide` | src/redis/value.rs:296-321 | a Nil key and a bulk-string key can render alike |
| `PlainRoundTrip.PairListIff` | src/redis/value.rs:204-226 | a map's plain JSON is a tagged pair list iff its keys do not render distinctly or its two entries spell one |
| `PlainRoundTrip.PlainRoundTripIff` | src/redis/value.rs:22-104 | a client reading plain JSON recovers a value, up to text kinds and sets, iff in addition no map in object form spells a pair list or a binary string |
| `PlainRoundTrip.PairListsCollide` | src/redis/value.rs:222-226 | in plain mode every map sent as a pair list shares its JSON with a map sent as an object |
| `Metrics.Registry.BeginOperation` | src/metrics/mod.rs:79-92 | raises the in-flight gauge of the kind and hands out an open guard |
| `Metrics.Registry.RealtimeConnection` | src/metrics/mod.rs:100-111 | raises total and gauge by one |
| `Metrics.Guard.Complete` | src/metrics/guard.rs:29-51 | consuming the guard records its one outcome and lowers the gauge |
| `Metrics.Guard.Drop` | src/metrics/guard.rs:54-71 | an uncompleted guard records a cancellation; the gauge comes down either way |
| `Metrics.ConnectionGuard.Drop` | src/metrics/connection.rs:14-21 | lowers the realtime gauge by one and touches nothing else |
| `Execute.Execution.constructor` | src/redis/execute.rs:123-126 | up to its first await a call is the step that begins an operation |
| `Execute.Execution.Acquired` | src/redis/execute.rs:132-150 | being granted a permit is the step that takes one |
| `Execute.Execution.Return` | src/redis/execute.rs:165-193 | from any state the others brought about, the end of the timed future is a run that returns the permit, bumps the one fitting total and lowers the gauge |
| `Execute.Execution.Drop` | src/metrics/guard.rs:54-71 | so is the drop of the call at any await, with the cancelled total |
| `Execute.ExecuteOperation` | src/redis/execute.rs:110-194 | wherever and however it ends, a whole call is a run that adds one closed operation, restores permits and gauges and moves exactly one total by one, under the outcome that fits its end |
| `Operations.OperationConservation` | src/redis/execute.rs:110-194 | under any interleaving, free permits plus holders is the limit, connections are used only by holders, holders stay within the gauge; the guard's flag and the test in its drop make each operation recorded at most once, exactly once when closed, with the outcome that fits its end |
| `Operations.DrainedBalances` | src/metrics/guard.rs:29-71 | when all is closed every permit is back, gauges are zero, totals add up to the operations begun |
| `Realtime.RealtimeOwnership` | src/app/realtime.rs:58-165 | every live stream holds one permit and one guard through all reconnects, each given back once at most; live streams within the limit and equal to the gauge when no drop is in progress; reconnect delays min(250 * 2^k, 5000) ms |
| `Realtime.EndedStreamReleases` | src/app/realtime.rs:105-115 | from every reachable state the end of a stream is followed, in one or two steps and either order, by the return of its permit and its guard and nothing else |
| `Realtime.DrainedBalances` | src/metrics/connection.rs:14-21 | when every stream has left, all permits are back and the gauge is zero |
| `Realtime.SubscribeIff` | src/app/realtime.rs:58-67 | a client is turned away exactly when all permits are held, else takes one |
| `Realtime.ReconnectIsInvisible` | src/app/realtime.rs:144-162 | a lost connection, any number of failed attempts and a reconnect leave everything as it was |
| `Admission.AdmissionGuardsTarget` | src/redis/execute.rs:128-163 | the requests inside `connection()` are exactly the calls of operations awaiting a connection; with the running ones and the free permits they are within the limit, so at most that many sleep; every running operation uses a connection its request got, installed in a shard |
| `Admission.RunProjects` | src/redis/execute.rs:128-163 | every run of operations and target together is a run of each |
| `Admission.NothingBlocked` | src/redis/execute.rs:128-163 | putting them together disables no step of an operation or of its request |
| `Admission.AdmittedOperationServed` | src/redis/execute.rs:153-163 | with the workers settled and a shard connected, an operation asleep in `connection()`, left alone, goes on to run on the connection its ticket selects |
| `Config.ParseTokens` | src/config/targets.rs:175-228 | accepts exactly tokens with ids, types and hashes that parse, ids fresh across all targets and enabled hashes too; otherwise reports the first fault of the first faulty token |
| `Config.ParseFileTargets` | src/config/targets.rs:118-244 | succeeds exactly on the accepted configurations and yields the trimmed targets in order; otherwise reports the first fault of the first faulty target |
| `Config.TranslatedDescribes` | src/config/targets.rs:187-240 | a parsed target is the written one field by field and token by token; no type means command only |
| `Config.TokenFaultIsFirst` | src/config/targets.rs:178-216 | the fault reported for a token is the first, in the order of the checks, that it has |
| `Text.TrimIs` | src/config/targets.rs:144 | trimming leaves the slice that holds every slice beginning and ending with something other than white space |
| `Config.FileFaultUnique` | src/config/targets.rs:118-244 | a file has at most one first fault, and an accepted file none |
| `Routes.BuildRoutes` | src/app/state.rs:109-172 | succeeds exactly when every target can start and enabled hashes are distinct; then the map answers every hash as a linear search |
| `Routes.AcceptedConfigRoutes` | src/config/targets.rs:137-243 | for every accepted file startup meets no zero-limit, zero-shard or duplicate-hash failure, each enabled token leads to its own target, every target is reachable |
| `Policy.ValidatedAllowlist` | src/security/policy.rs:34-54 | validation passes iff the allowlist is non-empty and free of hard-denied commands |
| `Policy.AdmitsMeans` | src/security/policy.rs:110-134 | the chain of checks admits a name iff it is unblocked and one held capability covers it |
| `Policy.CapabilitiesCompose` | src/security/policy.rs:82-145 | a command array is accepted iff a single held capability accepts it, with the same result |
| `Policy.PipelinesCompose` | src/security/policy.rs:64-80 | a pipeline is accepted iff it fits and each command is accepted by a single held capability |
| `Policy.CommandIff` | src/security/policy.rs:82-145 | an array is accepted as a command iff it is within the size limits, its upper-cased name is unblocked and covered by a held capability, and each argument's bytes decode to what the client wrote |
| `Policy.PipelineIff` | src/security/policy.rs:64-80 | a pipeline is accepted as these commands iff it fits and each array is accepted as its command, in order |
| `Policy.RefusalIsTrue` | src/security/policy.rs:82-145 | every refusal names a fault the array has |
| `Policy.AcceptedPipeline` | src/security/script.rs:5-50 | under any policy every accepted command keeps its place, is one the token is entitled to, unblocked, a permitted SCRIPT form if SCRIPT, says what the client wrote, and is within both size limits |
| `Response.LimitBody.Write` | src/app/response.rs:58-75 | a chunk is taken whole or not at all, and refusal marks the body exceeded |
| `Response.LimitBody.WriteChunks` | src/app/response.rs:58-75 | for every chunking, success iff the total fits, then the body is the concatenation, else a prefix within the limit |
| `Response.SerializedResponse` | src/app/response.rs:81-101 | the response depends on the bytes and the limit only, not on the chunking |
| `Cidr.MakeProxy` | src/client/trusted.rs:58-90 | a prefix is accepted iff it is within the family's width; a bare address is a network of itself alone |
| `Cidr.MaskIs` | src/client/parse.rs:31-45 | the shifted mask is 2^width - 2^(width - prefix) |
| `Cidr.ContainsIffSameBlock` | src/client/trusted.rs:92-110 | masking equality means same family and equal quotients by 2^(width - prefix) |
| `Cidr.NestedOrDisjoint` | src/client/trusted.rs:92-110 | two networks of a family are nested or disjoint (section 3.1 of RFC 4632) |
| `Cidr.TrustedIff` | src/client/trusted.rs:52-54 | an address is trusted iff it lies in the block of some entry of its family |
| `Cidr.CoveredEntryIsRedundant` | src/client/trusted.rs:52-54 | trust is monotone in the list, and an entry inside a wider one changes nothing |

## Left out

- HTTP handlers, routing, SSE transport, tracing and shutdown: plumbing over libraries not modelled here.
- The internals of the redis, tokio, prometheus and serde_json crates: semaphores, watch channels, counters and JSON trees
  are modelled by what they promise; the fairness of the semaphore queue is not.
- SHA-256, HMAC and constant-time comparison: a token hash is a value with equality.
- Environment and file reading, and the parsing of IP addresses, headers and token types from text.
- Float formatting and the rewriting of Redis error messages: texts are taken as given.
- That realtime steps change no operation permit: the two loads keep separate semaphores and metrics in the code, and
  separate states here, so it is no theorem of the model.
- Reading back doubles, big numbers, attributes, pushes, verbatim strings and server errors: their JSON is shown to have
  unique names, and the two clients' readings are shown not to recover them.
- Lockout.AuthLockout.RecordFailureAt: `now + lockout_duration` is unbounded, so the overflow panic of `Instant` is not
  modelled.
