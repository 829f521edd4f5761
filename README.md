# Replicated directory of soroban, modelled in Dafny

Soroban nodes keep a directory: namespaces (names) map to multisets of short string
values with an expiry. Nodes replicate writes to each other over a gossip room. This
project models the directory's request logic in `services/directory.go` and proves
properties of it:

- **Signature checks** (`Signature`). A namespace's policy may pin an algorithm and a
  public key. A request is accepted when the policy is unmanaged (empty prefix,
  algorithm or key). Otherwise it must name the pinned key and carry a timestamp
  strictly within 24 hours of the verification time, and the cryptographic check must
  accept its signature over a canonical message. A List request signs
  `name.<timestamp in ms, truncated toward zero>`. An Add or Remove request signs
  `name.<timestamp in ns>.entry`.
- **The three handlers** (`DirectoryService.Directory.List`, `Add`, `Remove`).
  - `confidential` gates reads and `readOnly` gates writes.
  - A failed Add publishes nothing; a successful one publishes the request once.
  - A failed publication never changes the answer.
  - List draws `limit` of the stored values by an in-place Fisher–Yates shuffle.
- **The replication loop** (`Replication`, `DirectoryService.Directory.HandleInput`,
  `DirectoryService.Directory.StartP2PDirectory`). Its state is the liveness timeout
  and the time of the last heartbeat.
  - A heartbeat sets the timeout to 3 minutes for good.
  - A tick either publishes a heartbeat or, after too long a silence, terminates.
  - Peer writes are applied to the store without any signature check.

Conventions of the model:
- Time is an integer count of nanoseconds since the Unix epoch.
- The current time is a parameter.
- The cryptographic check is a total predicate passed by the caller.
- The policy registry's answer is an input `Policy`.
- Whether a store or a gossip session is present is fixed when a `Directory` is built.
- A store or publish operation may fail. Failure is a nondeterministic outcome (`ok := *`).
- A failed store operation leaves the store unchanged.
- A result the source leaves unset is `None`.
- The loop runs over a finite sequence of inputs. The end of that sequence stands for cancellation.

Files:
- `wrappers.dfy`: `Option`.
- `formatting.dfy`: Go's `%d` for integers, with a parser and the round trip, and Go's truncating division.
- `signature.dfy`: policies, requests, verification, canonical messages.
- `replication.dfy`: the loop's pure state machine (`Step`), its fold over inputs (`Replay`), and the lemmas about runs.
- `directory.dfy`: the `Directory` class, its store and publish log, the handlers and the loop driver.
- `scenarios.dfy`: three client methods combining the handlers' contracts.

Behaviours of the code that a reader might not expect; the model follows the code in each:
- One might expect a heartbeat to be recognised by its message context. The code recognises it by the payload's `Name` alone, whatever the context (`services/directory.go:94`). A message whose context is `p2p.heartbeat` but whose payload has another name is ignored.
- The warning logged on termination, "No message received from too long" (`services/directory.go:116`), suggests that any message keeps the node alive. In fact only a heartbeat resets the liveness clock (`services/directory.go:94-100`), and other peer messages do not count (`services/directory.go:115`).
- Add answers `error` when a read-only namespace's signature is rejected (`services/directory.go:202-213`). Remove does not: in the same case it leaves the result unset (`services/directory.go:256-261`). A store failure on List also leaves the result unset rather than answering an empty list (`services/directory.go:156-160`).
- Add checks for the gossip session before the signature. Remove checks the signature first (`services/directory.go:196-200`, `services/directory.go:256-268`).

The domain separation between the two message formats holds only within one name
(`Signature.ListAndEntryMessagesDiffer`). Across names the formats can coincide, as
`Signature.ListAndEntryMessagesCollideAcrossNames` exhibits: the List message of
`a.5.x` at millisecond 7 equals the Add/Remove message of `a` at 5 ns with entry `x.7`.
Whether that matters depends on how policy prefixes group namespaces, which is not part
of this model.

The Add/Remove message is `name.timestamp.entry` (`services/directory.go:332`): it covers
neither the operation nor the mode. Inside the 24-hour window the signature of an Add
therefore also verifies the Remove of the same name, entry and timestamp, and the same Add
in any mode (`Signature.EntryVerdictIgnoresMode`). The signature binds the namespace, the
value and the time, not the operation.

## Model

| member | source | states |
|---|---|---|
| Formatting.NatToString | services/directory.go:332 | the decimal form of a natural number is a non-empty digit string without a leading zero; 0 prints as "0" |
| Formatting.IntToString | services/directory.go:332 | Go's `%d`: starts with `-` exactly for negative values, digits otherwise, in canonical form (no leading zero, no "-0"), never contains a dot |
| Formatting.CanonicalIsPrinted | services/directory.go:313-332 | every numeral in Go's printed form (optional minus, no leading zero, no "-0") is the `%d` text of the integer it reads as, so the printed text of an integer is unique |
| Formatting.ParseIntToString | services/directory.go:332 | parsing the printed form of any integer gives that integer back (round trip) |
| Formatting.IntToStringInjective | services/directory.go:313-314 | two integers with the same printed form are equal |
| Formatting.TruncDiv | services/directory.go:313 | Go's integer division: the remainder has the dividend's sign and is smaller than the divisor |
| Formatting.TruncDivAgreesWithFloor | services/directory.go:313 | for the millisecond divisor, Go's truncating division equals floor division exactly when the dividend is non-negative or a multiple of 10⁶ |
| Signature.TimeInRange | services/directory.go:291-293 | strictly after start and strictly before end: both ends excluded, so an accepting range spans at least two units |
| Signature.InWindow | services/directory.go:305-311 | the acceptance window is a distance of strictly less than 24 hours from now, either side |
| Signature.UnmanagedNeedsNoSignature | services/directory.go:296-298 | a policy with an empty prefix, algorithm or key accepts a request with no valid signature, and only such a policy does (for List and for Add/Remove requests) |
| Signature.Verify | services/directory.go:296-314 | fixed-order decision: unmanaged accepts; otherwise key mismatch, then a timestamp not strictly within ±24h, then a failed crypto check reject, and acceptance holds exactly when one of the first or all of the rest hold |
| Signature.DirectoryEntries.VerifySignature | services/directory.go:295-315 | List requests: unmanaged policy accepts unconditionally; a managed acceptance implies the pinned key, the strict window and crypto acceptance of `name.(timestamp/10⁶ truncated)`; inside the window the crypto check alone decides |
| Signature.DirectoryEntry.VerifySignature | services/directory.go:317-334 | Add/Remove requests: the same gating, with the message `name.timestamp.entry` |
| Signature.DirectoryEntries.Message | services/directory.go:313 | the List message is the name, a dot, then a dot-free canonical numeral that reads back as the timestamp in milliseconds truncated toward zero |
| Signature.DirectoryEntry.Message | services/directory.go:332 | the Add/Remove message is the name and a dot, then a canonical numeral up to the first dot that reads back as the nanosecond timestamp, then the entry |
| Signature.WindowEdgesRejected | services/directory.go:309-311 | a timestamp exactly 24h before or after now is rejected under a managed policy, as TimestampOutOfRange when the key matches |
| Signature.ListMessageBindsMillisecond | services/directory.go:313 | for one name, equal List messages mean equal millisecond timestamps |
| Signature.ListVerdictIgnoresSubMillisecond | services/directory.go:313-314 | List requests differing only below the millisecond, both in the window, get the same verdict |
| Signature.EntryMessageBindsTimestampAndEntry | services/directory.go:332-333 | for one name, equal Add/Remove messages mean equal nanosecond timestamps and equal entries |
| Signature.EntryVerdictIgnoresMode | services/directory.go:332 | the Add/Remove message and its verdict do not depend on the mode (nor, having no field for it, on the operation) |
| Signature.ListAndEntryMessagesDiffer | services/directory.go:313 | for one name, a List message is never an Add/Remove message |
| Signature.ListAndEntryMessagesCollideAcrossNames | services/directory.go:332 | concrete names for which a List message equals an Add/Remove message |
| Replication.Start | services/directory.go:50-82 | the loop starts exactly when bootstrap and room are non-empty and store and gossip session exist, with a 15-minute timeout and the start time as last heartbeat |
| Replication.HeartbeatEvent | services/directory.go:121-125 | the heartbeat a tick publishes is an Add-context message named `p2p.heartbeat` in short mode whose entry reads back as the Unix time in whole seconds |
| Replication.Step | services/directory.go:85-131 | one input: only a heartbeat changes the state (to 3 min, now) and it has no effect; a store write happens exactly for a parsed non-heartbeat Add/Remove message, with its payload; a tick terminates exactly when now − last > timeout and otherwise publishes a heartbeat; the timeout never grows |
| Replication.Apply | services/directory.go:82-136 | one loop iteration on a run: nothing after termination; it publishes nothing or one heartbeat for the input's time, writes at most the namespace a parsed peer write names, and terminates only on a tick, at its time |
| Replication.Replay | services/directory.go:82-136 | a run over a sequence of inputs publishes at most one message per input |
| Replication.TouchesOnlyWrittenNames | services/directory.go:102-113 | a run writes only namespaces named by parsed, non-heartbeat Add/Remove peer messages |
| Replication.StoppedStaysStopped | services/directory.go:114-119 | after termination, further inputs change nothing |
| Replication.TimeoutNeverGrows | services/directory.go:81-96 | over any run the timeout stays 15 or 3 minutes and never increases |
| Replication.HeartbeatShortensForGood | services/directory.go:94-96 | once a heartbeat is processed, the timeout is 3 minutes at the end of every later run |
| Replication.StopsOnlyAfterSilence | services/directory.go:115-119 | a run terminates only at a time more than the current timeout (at least 3 minutes) after the last heartbeat |
| Replication.SilenceStops | services/directory.go:115-119 | a tick after more than the timeout of silence terminates the run at that tick |
| Replication.HeartbeatsNeverTouchStore | services/directory.go:94-100 | no run writes to the `p2p.heartbeat` namespace |
| Replication.PublishesOnlyHeartbeats | services/directory.go:121-125 | everything the loop publishes is a short-mode heartbeat under the Add context |
| DirectoryService.Without | soroban.go:63-64 | removal takes out every copy of the value and keeps the multiplicity of every other value |
| DirectoryService.AddedCounts | soroban.go:57-61 | adding keeps duplicates: one more copy under the key, other keys unchanged |
| DirectoryService.RemovedCounts | soroban.go:63-64 | removing leaves no copy under the key, the other values' counts and the other keys unchanged |
| DirectoryService.Shuffle | services/directory.go:163-165 | the in-place shuffle permutes the array (its multiset is unchanged) |
| DirectoryService.Directory.constructor | soroban.go:46-65 | a node starts with an empty store and an empty publish log |
| DirectoryService.Directory.TimeToLive | soroban.go:51-52 | the store's duration for a mode; under the construction assumption of at least one second per TTL (soroban.go:58) every mode maps to an acceptable TTL |
| DirectoryService.Directory.StoreList | soroban.go:54-55 | a successful store List returns exactly the values held under the key |
| DirectoryService.Directory.StoreAdd | soroban.go:57-61 | a successful store Add appends the value and sets the key's TTL; a failed one changes nothing |
| DirectoryService.Directory.StoreRemove | soroban.go:63-64 | a successful store Remove takes out the value under the key; a failed one changes nothing |
| DirectoryService.Directory.PublishJson | services/directory.go:226-230 | a publication appends exactly one message to the log and leaves the store alone |
| DirectoryService.Directory.AddToDirectory | services/directory.go:181-186 | stores the entry under the name with `TimeToLive(mode)`, or changes nothing on failure |
| DirectoryService.Directory.RemoveFromDirectory | services/directory.go:239-244 | removes the entry from the name, or changes nothing on failure |
| DirectoryService.Directory.List | services/directory.go:139-179 | answered exactly when a store exists, the confidential gate passes and the store's List succeeds; then echoes the name, draws only stored values (sub-multiset), exactly `limit` of them when 0 < limit < count, and all of them otherwise |
| DirectoryService.Directory.Add | services/directory.go:188-237 | unset exactly when store or gossip session is missing; a read-only namespace with a rejected signature answers `error`; once the gates pass, `success` exactly when the store's Add succeeded, and `success` means stored with the mode's TTL and exactly one Add-context publication of the request; any other answer changes neither store nor log |
| DirectoryService.Directory.Remove | services/directory.go:246-289 | answered exactly when store and gossip session exist and the read-only gate passes, and then the request is published under the Remove context whatever the store did; `success` exactly when the store's Remove succeeded, then with the entry removed, `error` with the store unchanged otherwise; unset changes nothing |
| DirectoryService.Directory.HandleInput | services/directory.go:85-131 | performs `Step`'s effect: peer writes go to the store without a signature check, a heartbeat is published on a quiet tick, termination is reported, and nothing else changes |
| DirectoryService.Directory.StartP2PDirectory | services/directory.go:49-137 | starts exactly under `Start`'s conditions and then follows `Replay`: same final state and termination time, the same heartbeats published, and every namespace no peer write addressed unchanged in values and TTL |
| Scenarios.PairingWriteThenList | services/directory.go:139-237 | an unsigned Add to an unmanaged namespace answers `success` exactly when the store write succeeds; a later List is answered exactly when the store's List succeeds, and then returns exactly the value written (or nothing if the write failed) |
| Scenarios.WrongKeyRefused | services/directory.go:202-213 | an Add signed with a key other than the pinned one answers `error`, stores nothing and publishes nothing |
| Scenarios.PeerWriteBypassesPolicy | services/directory.go:102-108 | a gossip Add on a read-only namespace, unsigned, is applied: when the store write and the later List succeed, the List returns the peer's value |

## Left out

- `cmd/server/main.go`, `server.go` and `server/gen.go` are not part of this model. They hold process startup, the Tor listener, the HTTP and RPC plumbing, and the vanity-key search.
- The policy registry's prefix lookup (`confidential.GetConfidentialInfo`) is not visible: its result is an input `Policy`.
- The cryptographic check (`confidential.VerifySignature`) is not visible: it is an uninterpreted total predicate passed as a parameter.
- The gossip session's start (`p2P.Start`) is not visible (services/directory.go:70-79). The loop waits for `p2pReady`, which `p2P.Start` signals; the model assumes the signal always comes and then treats a start error like success, so the loop proceeds.
- Payload parsing (`ParsePayload`) is an input that did or did not parse.
- The store backend is not visible. Its contract is modelled concretely: failures are atomic, Remove takes out every copy of the value, and TTLs are recorded per namespace and never expire. `Status` is not modelled; no handler uses it.
- DirectoryService.Directory.TimeToLive: the backend's mode table is not shown, so two TTL constants (for "short" and for every other mode) stand for it. The store requires TTLs of at least one second (soroban.go:58) while Add passes a client-chosen mode straight through (services/directory.go:185); the model assumes the backend's table meets the store's requirement, as the `Directory` constructor's precondition on both constants, and does not model a TTL below one second.
- Channels, goroutines, `select`, the 30-second `time.After` timer and `ctx.Done()` are not modelled. Inputs arrive as a finite sequence of messages and ticks, and the end of that sequence stands for cancellation. The timer is re-armed on every iteration (services/directory.go:114), so a tick comes only after 30 seconds without any message; steady peer traffic suppresses every tick, and the node then neither sends heartbeats nor terminates. The model lets a tick occur anywhere in the sequence, so its run lemmas cover a superset of the real schedules.
- `soroban.Shutdown` and `os.Exit` become the `Terminate` effect: the loop stops and reports the time.
- Times are unbounded integers. Go's `time.Time` and `Duration` arithmetic, its monotonic clock and `int64` overflow in `time.Since` are not modelled. Request timestamps and limits are `Int64`.
- The `args == nil` checks of `addToDirectory` and `removeFromDirectory` are unreachable: requests are values.
- Logging of every kind is omitted.
- DirectoryService.Directory.List: it states which values may be returned and how many, not that the sample is uniformly random. Randomness is an arbitrary draw function, and Go's separate draw routine for slices over 2³¹ elements is folded into the same draw.
- DirectoryService.Directory.HandleInput: store failures are nondeterministic. Its contract says which store result a successful or failed write leaves, not which of the two occurs.
- DirectoryService.Directory.StartP2PDirectory: for the same reason, it states only which namespaces can change in a run, not their final contents.
