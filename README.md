# sidekick keepalive handle, modelled in Dafny

`sidekick` keeps one etcd key alive. `New(servers, key, value)` writes the key
once with a time-to-live (`DefaultTTL`, 10 seconds). It then starts a goroutine
that rewrites the key every `updateInterval` seconds (`DefaultUpdateInterval`,
8). The caller can change the logger, the ttl, the interval and the value
while the loop runs. `Value` also makes the next write happen at once.
`Stop` marks the handle closed, tells the loop to quit and deletes the key.
After `Stop`, every setter is a no-op.

The model has four modules:

- `Etcd` (etcd.dfy): the store as a `map<string, (string, nat)>` from key to
  (value, ttl), the two client calls (`Set`, `Delete`) and what a successful
  or failed call does to the map.
- `Lifecycle` (lifecycle.dfy): the handle as a value (`Handle`) and each
  operation as a function on it. The loop's `for`/`select` is split into
  two events: `Tick` (the timer fired) and `Quit` (the quit channel was seen
  closed). `Run` applies a sequence of events. The lemmas state what the
  handle promises, over single operations and over arbitrary runs.
- `Keepalive` (sidekick.dfy): the class `Sidekick`, whose methods update its
  fields in place. Each method is proved to change the object's state exactly
  as the matching `Lifecycle` function does, so every `Lifecycle` lemma holds
  of the class. The store, the trace of issued calls and the log are ghost
  fields.
- `Findings` (findings.dfy): three defects of the code as written, each with a
  corrected definition (see "## Findings").

The outcome of each etcd call (success or error) is a boolean parameter. A
call is always recorded in the trace. Only a successful call changes the
store. The timer's pending delay is kept in nanoseconds, computed as Go
computes `time.Duration(n) * time.Second`, including the int64 wrap-around.
A delay of zero or less means the timer fires at once.

`New` is modelled as written: the `value` argument is never assigned, so the
first write, and every refresh until `Value` is called, carries the empty
string. `New`'s doc comment (sidekick.go:36-37, "no error initially setting
the value") and the CLI's `-val` flag (sidekicker/sidekicker.go), which is
passed to `New`, expect `New` to write the given value; the model follows the
code and reports the difference under "## Findings".

## Model

| member | source | states |
|---|---|---|
| `Lifecycle.Int64` | sidekick.go:123 | the result is in int64 range, is congruent to the input modulo 2^64 (the wrapped value), and equals the input when the input already fits |
| `Lifecycle.Delay` | sidekick.go:128 | the timer delay for n seconds is always an int64 congruent to n * 10^9 modulo 2^64 (the wrapped product); it is exactly n * 10^9 ns when n <= 9223372036 |
| `Etcd.Apply` | sidekick.go:48 | a failed call leaves the store alone; a successful set stores (value, ttl) under its key; a successful delete removes the key; no other key changes |
| `Lifecycle.CreateSucceeds` | sidekick.go:40-53 | a successful `New` has ttl 10 and interval 8, is open, starts one loop with an 8 s timer, and has issued exactly one call: `Set(key, "", 10)` |
| `Lifecycle.Create` | sidekick.go:40-53 | `New` keeps the key, is open and issues one set; it holds a timer and has started a loop iff that set succeeded; a successful one satisfies the invariant |
| `Lifecycle.CreateFailureStartsNoLoop` | sidekick.go:48-53 | a failed first write leaves the store unchanged and starts no loop, so right after it neither a tick nor the quit case is enabled |
| `Lifecycle.NoLoopNoRefresh` | sidekick.go:48-53 | over any run from a handle without a loop, no timer appears, no loop is started, earlier calls are kept, and every later call is a delete |
| `Lifecycle.FailedCreateNeverRefreshes` | sidekick.go:39-53 | after a failed `New`, whatever events follow, there is no timer and no loop, and the failed first set is the only set ever issued |
| `Lifecycle.Enabled` | sidekick.go:94-135 | the timer case and the quit case need a timer held by the loop, and the quit case also needs the quit channel closed; every public method of a handle satisfying the invariant can always be called (`Value` on an open handle needs the timer it resets, which the invariant guarantees) |
| `Lifecycle.StepPreservesInv` | sidekick.go:56-140 | every setter, `Stop`, `Tick` and `Quit` keeps the invariant: one loop, interval >= 1, quit signalled iff closed, no loop exit while open, one delete iff closed, every call on the handle's key |
| `Lifecycle.CreatedHandlesKeepInv` | sidekick.go:40-140 | after any run of events from a successful `New`, the invariant holds: at most one delete, issued exactly when the handle is closed |
| `Lifecycle.RunPreservesInv` | sidekick.go:56-140 | the invariant holds after any run of events |
| `Lifecycle.SetLogger` | sidekick.go:57-64 | `SetLogger` changes neither the key, the store nor the calls issued, and keeps the invariant |
| `Lifecycle.SetTTL` | sidekick.go:68-76 | `TTL` always returns nil, changes neither the key, the store nor the calls issued, and keeps the invariant |
| `Lifecycle.SetUpdateInterval` | sidekick.go:79-91 | when `UpdateInterval` returns an error the handle is unchanged; it never changes the key, the store or the calls issued, and keeps the invariant |
| `Lifecycle.SetValue` | sidekick.go:94-103 | `Value` changes neither the key, the store nor the calls issued; on an open handle it leaves a pending delay of 0; it keeps the invariant |
| `Lifecycle.Stop` | sidekick.go:106-119 | after `Stop` the handle is closed, the key is kept, earlier calls are kept and at most one call is added; the invariant is kept |
| `Lifecycle.Tick` | sidekick.go:126-133 | a tick keeps the key and the closed flag, leaves a timer armed, and adds exactly one call after the earlier ones; the invariant is kept |
| `Lifecycle.Quit` | sidekick.go:135-138 | the quit case drops the timer and changes neither the store nor the calls issued; the invariant is kept |
| `Lifecycle.SetLoggerReplacesLogger` | sidekick.go:57-64 | on an open handle `SetLogger` replaces the logger and changes nothing else |
| `Lifecycle.TTLAcceptsAnyValue` | sidekick.go:66-76 | `TTL` always returns nil; on an open handle it sets the ttl (0 included) and nothing else; it is never checked against the interval |
| `Lifecycle.UpdateIntervalValidates` | sidekick.go:79-91 | on an open handle, `IntervalTooSmall` is returned iff the interval is below 1, and then nothing changes; otherwise only the interval changes and nil is returned |
| `Lifecycle.ClosedSettersAreNoOps` | sidekick.go:56-103 | after `Stop`, `SetLogger`, `TTL`, `UpdateInterval` (even with 0) and `Value` change nothing, and the two that return errors return nil |
| `Lifecycle.ValueForcesRefresh` | sidekick.go:94-103 | on an open handle `Value(v)` changes only the value and sets the pending delay to 0; the tick it triggers writes `v` |
| `Lifecycle.ValueReachesNextTick` | sidekick.go:94-103 | after `Value(v)`, the next tick writes `v`, whatever other events come between, unless another `Value` call comes first |
| `Lifecycle.StopIsIdempotent` | sidekick.go:106-119 | a second `Stop` changes nothing; the first closes the handle, signals quit and issues exactly one `Delete(key)`; it logs a failed delete, then `stopped`, each only when a logger is set |
| `Lifecycle.TickRearmsThenWrites` | sidekick.go:126-133 | a tick re-arms the timer with the current interval and issues `Set(key, value, ttl)` with the current fields; a failed set leaves the store alone and the loop running, and is logged iff a logger is set |
| `Lifecycle.QuitEndsLoop` | sidekick.go:135-138 | after the quit case the timer is gone, and neither loop event can happen again |
| `Lifecycle.RunReplaysTrace` | sidekick.go:126-133 | over any run, earlier calls stay in the trace and the store is the old store with the new calls replayed in order |
| `Lifecycle.RunTouchesOnlyOwnKey` | sidekick.go:45-48 | over any run, the key never changes and every other store entry stays as it was |
| `Lifecycle.NoLoggerNoLog` | sidekick.go:56-64 | by default no logs are written: without a logger, any run that never sets one leaves the log unchanged (no failed-delete, `stopped` or failed-update entry, lines 113-118 and 131-132) |
| `Lifecycle.ClosedIsPermanent` | sidekick.go:106-140 | once closed, the handle stays closed, keeps its value, ttl, interval and logger, issues no second delete, and issues only sets of the frozen value |
| `Lifecycle.LoopExitFreezesHandle` | sidekick.go:135-139 | once closed and out of the loop, no event changes the handle, so no call reaches the store |
| `Keepalive.Sidekick.Zero` | sidekick.go:42-45 | a new object holds the key and Go's zero value in every other field |
| `Keepalive.Sidekick.New` | sidekick.go:40-54 | the handle is null and the error is the store's iff the first write failed; otherwise the fresh handle is valid and equals `Lifecycle.Create` with its loop started |
| `Keepalive.Sidekick.SetLogger` | sidekick.go:57-64 | the new state is `Lifecycle.SetLogger` of the old one, and the invariant is kept |
| `Keepalive.Sidekick.TTL` | sidekick.go:68-76 | the new state and the error are `Lifecycle.SetTTL` of the old state |
| `Keepalive.Sidekick.UpdateInterval` | sidekick.go:79-91 | the new state and the error are `Lifecycle.SetUpdateInterval` of the old state |
| `Keepalive.Sidekick.Value` | sidekick.go:94-103 | the new state is `Lifecycle.SetValue` of the old one |
| `Keepalive.Sidekick.Stop` | sidekick.go:106-119 | the new state is `Lifecycle.Stop` of the old one, including the delete and the log lines |
| `Keepalive.Sidekick.Tick` | sidekick.go:126-133 | the new state is `Lifecycle.Tick` of the old one: timer re-armed, one set issued |
| `Keepalive.Sidekick.Quit` | sidekick.go:135-139 | the new state is `Lifecycle.Quit` of the old one: the timer is gone |
| `Findings.CreateDropsValue` | sidekick.go:42-48 | with a non-empty `value`, the store holds "" after `New`, and the first refresh writes "" again |
| `Findings.CreateIntendedPublishesValue` | sidekick.go:36-53 | with the value stored before the first write, the store holds the given value, and each refresh before the first `Value` call writes it |
| `Findings.StopThenTickRewritesKey` | sidekick.go:106-133 | from any open handle, `Stop` followed by a tick puts the deleted key back in the store |
| `Findings.StopAndJoinKeepsKeyDeleted` | sidekick.go:106-119 | when the loop exits before the delete, a successful delete is final: no later event changes the handle |
| `Findings.HugeIntervalFiresAtOnce` | sidekick.go:79-91 | `UpdateInterval(9223372037)` is accepted, and the next tick arms the timer with a negative delay |
| `Findings.CheckedIntervalArmsExactDelay` | sidekick.go:83-85 | with an upper bound check, every accepted interval of n seconds arms a positive delay of exactly n * 10^9 ns |

## Findings

| source | as written | input that shows it | evidently intended | confidence | as-written member | corrected member |
|---|---|---|---|---|---|---|
| sidekick.go:42-48 | `New` never assigns its `value` argument to the handle, so the first write and every refresh publish "" | `New(servers, "/k", "v")`, then let the timer fire | the key holds "v" from creation on, as the doc comment of `New` and the CLI's `-val` flag suggest | high; not executed | `Findings.CreateDropsValue` | `Findings.CreateIntended`, `Findings.CreateIntendedPublishesValue` |
| sidekick.go:106-133 | `Stop` closes the quit channel and deletes, but the loop's `select` may still take a ready timer case and write the key after the delete | the timer fires at the moment `Stop` is called; events `Stop`, then `Tick` | after `Stop` no write re-creates the key | medium (needs that interleaving); not executed | `Findings.StopThenTickRewritesKey` | `Findings.StopAndJoin`, `Findings.StopAndJoinKeepsKeyDeleted` |
| sidekick.go:83-89, sidekick.go:128 | `UpdateInterval` accepts any interval >= 1, but `time.Duration(n) * time.Second` overflows int64 for n > 9223372036 | `UpdateInterval(9223372037)`: the delay wraps to -9223372036709551616 ns, so the timer fires at once after every write | an accepted interval of n seconds waits n seconds | low (absurdly long interval); not executed | `Findings.HugeIntervalFiresAtOnce` | `Findings.UpdateIntervalChecked`, `Findings.CheckedIntervalArmsExactDelay` |

The class `Keepalive.Sidekick` keeps all three behaviours as written. The
corrected definitions are value-level functions beside it.

## Left out

- The `servers` argument and its comma split (sidekick.go:41): they only feed `etcd.NewClient`, a foreign network library. The client is replaced by the ghost store and trace, and each call's outcome is a parameter.
- The etcd server's own ttl expiry: the store map records the ttl but never expires keys, because time is not modelled. A ttl of 0 is stored as given; what etcd does with it is outside the model.
- Real time: the timer is its pending delay only. `Tick` may happen whenever the loop holds a timer. The model does not measure how long a delay takes to elapse.
- Concurrency: the goroutine, the channel, `select` and `sync.Mutex` become sequential events. Every read of `closed` before the lock is taken (sidekick.go:58, 69, 80, 95, 107), its unlocked write (sidekick.go:110), the loop's unlocked writes of `sk.timer` (sidekick.go:136-137) and its reads of `value` and `ttl` (sidekick.go:130) are data races that a sequential model cannot show.
- The window between `go sk.loop()` and the loop creating its timer (sidekick.go:52, sidekick.go:123): in the model the loop starts, with its timer armed, as part of `New`. In Go, a `Value` call in that window dereferences a nil timer.
- A `Value` call on an open handle without a timer (reached in the start-up window above, or when `Value` passes its unlocked `closed` check at sidekick.go:95 just before `Stop`, and the quit case clears `sk.timer` at sidekick.go:137 before line 102 runs): Go dereferences a nil timer there; in the model that call is not enabled, so a run containing it has no result.
- Go `time.Timer` corner cases of `Reset` on a timer that has fired but whose value was not yet received: `Value` is modelled as setting the pending delay to 0.
- The text of log messages (sidekick.go:113-118, sidekick.go:132): only which entries are logged (`UpdateFailed`, `DeleteFailed`, `Stopped`) is modelled, in a ghost log.
- sidekicker/sidekicker.go (flag parsing, `os.Exit`, `select {}`) and sidekick_test.go (needs a live etcd server) are not part of this model.
