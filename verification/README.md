# Rate limiter admission core, modelled in Dafny

This project models the admission decision engine of the `ratelimiter` Go
service and its in-process counter/block store. For each request, the
engine picks one *effective key*. A non-empty API token gives `"token:"+token`,
otherwise the client address gives `"ip:"+ip`. A blocked key is refused
without being counted. Otherwise the key's request count is increased in a
fixed one-second window. A count above the configured limit blocks the key
for the configured time and refuses the request.

Files:

- `models.dfy` (module `Models`): the limit kinds, the request, the
  limit-exceeded error and the configuration records.
- `memory_store.dfy` (module `Memory`): the in-process store. It is an
  immutable value of three maps (`counts`, `blocked`, `expiryTime`). Every
  store call is one pure state transition, because the store's lock makes
  each call atomic. The store's `cleanup` method is modelled both as a pure
  transition (`Cleanup`) and as its two loops (`Sweep`). The program defines
  this sweep but never starts it (see "## Left out").
- `store.dfy` (module `Store`): the storage interface. A `Backend` is the
  in-memory store plus a map of the calls it is made to fail. With an empty
  map it is the in-memory store, which never fails. A failing call stands
  for what another backend may report, so the engine's error paths are
  modelled too.
- `limiter.dfy` (module `Limiter`): `NewRateLimiter`, the key choice
  (`PolicyFor`), `Allow` and `Close`.
- `limiter_properties.dfy` (module `LimiterProperties`): the engine's
  properties, stated over all inputs.
- `results.dfy` (module `Results`): the `Result` type used for Go's
  `(value, error)` returns.

Time is an explicit integer `now` in nanoseconds, and durations are integer
nanoseconds as in Go's `time.Duration`. Go's `After` and `Before` are strict.
So a counting window is still open at `now == expiry`, and a key is blocked
only while `now < blockUntil`.

## Model

| member | source | states |
|---|---|---|
| Models.Ordinal | internal/ratelimiter/models.go:19-26 | the `iota` values: `IPLimit` is 0 and `TokenLimit` is 1 |
| Models.LimitKindsDistinct | internal/ratelimiter/models.go:21-26 | the two kinds have distinct values 0 and 1, and their errors differ |
| Models.NewLimitExceededError | internal/ratelimiter/models.go:49-55 | the error carries the requested kind and the one fixed message |
| Models.Error | internal/ratelimiter/models.go:44-47 | the error text is the `Message` field, unchanged |
| Models.MessageIndependentOfKind | internal/ratelimiter/models.go:53 | the client sees the same text whichever limit was hit |
| Memory.NewMemoryStore | internal/ratelimiter/store/memory.go:17-24 | a new store satisfies the store invariant, counts 0 for every key and blocks none |
| Memory.GetRequestCount | internal/ratelimiter/store/memory.go:26-39 | on a valid store, the count is the key's count while its window is open at `now` (open includes `now == expiry`), and 0 otherwise |
| Memory.IncrementRequestCount | internal/ratelimiter/store/memory.go:41-62 | the new count is the previous visible count plus one; a new window's expiry is `now + expiration`; a count above 1 leaves every expiry alone (fixed window); the count can be read back; only this key's counter changes; the invariant is kept |
| Memory.IsBlocked | internal/ratelimiter/store/memory.go:64-71 | a true answer needs a recorded block deadline (the exact deadline rule is stated on `Memory.Block`) |
| Memory.Block | internal/ratelimiter/store/memory.go:73-85 | after a block, the key reads as blocked at exactly the instants before `now + blockTime`; its counter is gone, so it reads 0 at every instant; other keys are untouched; the invariant is kept |
| Memory.Close | internal/ratelimiter/store/memory.go:87-90 | closing the in-memory store always succeeds |
| Memory.Cleanup | internal/ratelimiter/store/memory.go:104-125 | exactly the counts, expiries and blocks whose deadline lies strictly before `now` are removed, and the rest keep their values; every count and block answer from `now` on is unchanged; the invariant is kept |
| Memory.CleanupIsUnobservable | internal/ratelimiter/store/memory.go:104-125 | an increment at any instant from `now` on returns the same count with or without `cleanup` |
| Memory.CleanupIdempotent | internal/ratelimiter/store/memory.go:104-125 | a second `cleanup` at the same instant changes nothing |
| Memory.SweepWindows | internal/ratelimiter/store/memory.go:111-117 | the loop over window expiries deletes exactly the counts and expiries whose window ended before `now` |
| Memory.SweepBlocks | internal/ratelimiter/store/memory.go:119-124 | the loop over block deadlines deletes exactly the blocks that ended before `now` |
| Memory.Sweep | internal/ratelimiter/store/memory.go:104-125 | the two loops together compute the `Cleanup` transition |
| Store.MemoryFactory | internal/ratelimiter/limiter_test.go:22-24 | the in-memory factory never fails, and its store counts 0 and blocks nothing |
| Store.GetRequestCount | internal/ratelimiter/store/store.go:10-11 | the call fails exactly when the backend fails it; otherwise it gives the in-memory count |
| Store.IncrementRequestCount | internal/ratelimiter/store/store.go:13-14 | the call fails exactly when the backend fails it; otherwise it gives the in-memory increment, whose count is the visible count plus one |
| Store.IsBlocked | internal/ratelimiter/store/store.go:16-17 | the call fails exactly when the backend fails it; otherwise it gives the in-memory block answer |
| Store.Block | internal/ratelimiter/store/store.go:19-20 | the call fails exactly when the backend fails it; otherwise it applies the in-memory block |
| Store.Close | internal/ratelimiter/store/store.go:22-23 | closing fails exactly when the backend fails it, and then returns the backend's own error |
| Limiter.LimiterConfigOf | internal/ratelimiter/limiter.go:25-30 | the four limit and block-time fields are copied unchanged |
| Limiter.NewRateLimiter | internal/ratelimiter/limiter.go:19-36 | construction fails exactly when the factory fails, wrapping its error; otherwise it keeps the factory's store and the copied limits |
| Limiter.WrappedMessage | internal/ratelimiter/limiter.go:47 | a wrapped error's text is its context, `": "`, then the cause's text |
| Limiter.PolicyFor | internal/ratelimiter/limiter.go:41-91 | a non-empty token selects the token key, token limit and token block time, and reports `TokenLimit`; an empty token selects the IP key and IP limits and reports `IPLimit` |
| Limiter.Enforce | internal/ratelimiter/limiter.go:44-69 | only the evaluated key's entries change; a denial names the policy's kind; a failure carries an error the backend produced |
| Limiter.Allow | internal/ratelimiter/limiter.go:39-101 | the configuration is kept; only the effective key's entries change; a denial carries `TokenLimit` for token requests and `IPLimit` otherwise |
| Limiter.Close | internal/ratelimiter/limiter.go:104-106 | closing the limiter fails exactly when closing its store fails, and returns the store's error unchanged |
| LimiterProperties.PrefixesDisjoint | internal/ratelimiter/limiter.go:42 | a `"token:"` key never equals an `"ip:"` key |
| LimiterProperties.SameKeySameKind | internal/ratelimiter/limiter.go:41-73 | requests with the same effective key get the same kind, limit and block time |
| LimiterProperties.TrafficKindsIsolated | internal/ratelimiter/limiter.go:41-100 | a token request leaves every IP entry unchanged, and an IP request leaves every token entry unchanged |
| LimiterProperties.DecisionReadsOnlyItsKey | internal/ratelimiter/limiter.go:41-70 | two limiters that agree on the effective key decide alike, so IP state never throttles a token request |
| LimiterProperties.BlockedDeniesWithoutCounting | internal/ratelimiter/limiter.go:45-51 | a blocked key is refused with its kind, and the limiter is returned unchanged (no increment) |
| LimiterProperties.UnblockedCountsOnce | internal/ratelimiter/limiter.go:54-69 | an unblocked key is counted exactly once; a count up to and including the limit passes with only that increment; a higher count blocks the key for its block time and is refused |
| LimiterProperties.PenaltyHolds | internal/ratelimiter/limiter.go:60-66 | after a request trips the limit at `now0`, every request with that key at `now0 <= t < now0 + blockTime` is refused and changes nothing |
| LimiterProperties.BlockExpiryRestartsCount | internal/ratelimiter/store/memory.go:78-82 | once the block time has elapsed, the next request with that key passes (when the limit is at least 1) and its window count is 1, not the old count plus one |
| LimiterProperties.StoreFailuresShortCircuit | internal/ratelimiter/limiter.go:45-64 | a failing block check or increment ends the call with that error wrapped in the step's context, changing nothing; when the count passes the limit and `Block` fails, the call ends with the block context's wrapped error and the increment stays in place; a backend that does not fail never produces a store failure |
| LimiterProperties.Burst | internal/ratelimiter/limiter_test.go:43-47 | repeating `Allow` keeps the configuration and touches no key other than the request's effective key |
| LimiterProperties.BurstWithinLimit | internal/ratelimiter/limiter_test.go:42-47 | from an empty, unblocked window, the first `limit` calls at one instant all pass and leave the count at their number |
| LimiterProperties.BurstPastLimit | internal/ratelimiter/limiter_test.go:49-64 | from an empty, unblocked window, exactly `limit` calls pass and call `limit + 1` is refused with the request's kind |
| LimiterProperties.FreshLimiterAdmitsExactlyLimit | internal/ratelimiter/limiter_test.go:99-121 | over a fresh in-memory store, `limit` requests pass and the next is refused, for token and address clients alike |
| LimiterProperties.TokenOverridesIp | internal/ratelimiter/limiter_test.go:124-188 | after `ipLimit - 1` address requests, the same address with a token gets the full token limit and is then refused as `TokenLimit` |
| LimiterProperties.BlockThenRecover | internal/ratelimiter/limiter.go:85-100 | an address client passes `ipLimit` times, is refused and blocked on the next request, and passes again with count 1 after the block time |
| LimiterProperties.IpTestScenario | internal/ratelimiter/limiter_test.go:12-64 | with an IP limit of 3, the verdicts are three passes, then an `IPLimit` refusal |

## Left out

- `internal/ratelimiter/store/redis.go` is not part of this model. Its
  semantics live in the Redis client. Its `Block` is two commands (SET,
  then DEL), so it is not atomic, and it ignores the `Expire` error. Its
  counter and block keys use the disjoint prefixes `"count:"` and
  `"blocked:"`. Such a backend appears only through the failures a
  `Store.Backend` can report.
- A failing store call leaves the data as it was. What a remote backend does
  to its data when a call fails partway is not modelled.
- The clock is read once per `Allow` call. In Go, every store call reads
  `time.Now()` on its own, so the instants can differ by nanoseconds within
  one request.
- The sync.RWMutex, the `startCleanupRoutine` goroutine with its ticker, and
  `context.Context` are not modelled. The lock makes each store call one
  atomic step, which is how every call is modelled.
- The sweep never runs in the program. `startCleanupRoutine`
  (internal/ratelimiter/store/memory.go:93-102) is unexported and nothing
  calls it: `NewMemoryStore` (memory.go:18-24) does not start it, and
  cmd/server/main.go:33 and the tests build the store the same way. So
  expired counts, expiries and blocks are never evicted, and the store grows
  with every distinct key. `Cleanup` and `Sweep` model the `cleanup`
  transition the source defines. Because of `Memory.CleanupIsUnobservable`
  and the contract of `Memory.Cleanup`, running it or not changes no answer,
  so the engine's properties hold either way. The unbounded growth itself is
  not modelled, because integers and maps here are unbounded.
- Concurrent callers, and the tolerated double block when two over-limit
  requests race, are not modelled; the model is sequential.
- Integer overflow of `int`, `time.Time` and `time.Duration` arithmetic is not
  modelled: integers are unbounded.
- The HTTP middleware, client-address extraction, configuration loading,
  handlers and process startup are I/O glue and are not modelled.
  `Models.Config` keeps every field of the configuration record, but the
  limiter reads only the four limit fields.
- Memory.IsBlocked: its own contract only says a true answer needs a
  recorded block. The exact rule (blocked while `now < deadline`) is stated
  and proved through `Memory.Block` and `LimiterProperties.PenaltyHolds`,
  because on its own it would only repeat the function's body.
