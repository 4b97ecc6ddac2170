# Rate limiters, LRU caches, a snapshot array and a sticker count, in Dafny

This project models the core of a Go study repository:

- four request rate limiters: fixed window, sliding-window log, token bucket and leaky bucket;
- an LRU cache, and an LRU cache whose entries expire after a time-to-live;
- a snapshot array whose `Get` reads the value an index had at an earlier snapshot;
- a function that counts the "facebook" sticker sets needed to spell a word.

There is one Dafny module per Go file. Three small modules support them:

- `Wrappers` holds `Option` and `Result`.
- `Time` holds the nanosecond constant and the "nondecreasing call times" predicate that the rate limiters share.
- `RecencyList` models the `container/list` recency order as a sequence of keys. The front is the most recently used key.

Each stateful component has two layers:

- A pure step function on the component's fields: `AllowStep`, `PutStep`, `GetAt`, `SetAt`, and so on. The lemmas prove the source's promises about it, over a single call and over whole sequences of calls (`Run`).
- A class with the Go struct's fields. Each method ties the new state to the step function of the old state, and keeps the class invariant `Valid()`.

Where Go reads the clock, the model takes the time as an integer parameter `now`. For the token bucket the unit is the nanosecond. Where Go iterates over a map, in unspecified order, the model picks keys nondeterministically, so every order is covered.

## Model

| member | source | states |
|---|---|---|
| FixedWindow.FixedWindowLimiter.constructor | fixed-window-ratelimiter.go:20-28 | the window starts at the construction time with a count of 0; any limit is accepted |
| FixedWindow.FixedWindowLimiter.Allow | fixed-window-ratelimiter.go:30-47 | the new count, window and decision are `AllowStep` of the old fields; the count stays in `[0, max(limit, 1)]` and the window start never moves back for a nondecreasing clock |
| FixedWindow.AllowStep | fixed-window-ratelimiter.go:35-46 | a call is admitted exactly when the window has run out or its count is below the limit; a rejection changes no field; after an admission the window covers `now` (for a positive interval) |
| FixedWindow.AllowOutcomes | fixed-window-ratelimiter.go:35-46 | inside the window: admit and count while `count < limit`, otherwise reject with no field changed; once the window has run out: admit, restart the window at `now` and set the count to 1 |
| FixedWindow.AllowKeepsCountInLimit | fixed-window-ratelimiter.go:37-45 | with `limit >= 1`, `0 <= count <= limit` is preserved, and an admission leaves a count of at least 1 |
| FixedWindow.OneWindowAdmitsAtMostLimit | fixed-window-ratelimiter.go:35-42 | within one window instance at most `limit - count` further calls are admitted, and the window does not move |
| FixedWindow.WindowNeverMovesBack | fixed-window-ratelimiter.go:43-46 | for nondecreasing call times the window start never decreases over a run |
| FixedWindow.RunAppend | fixed-window-ratelimiter.go:30-47 | a run over two batches of calls is the second batch run from where the first one left off, with the admissions added |
| FixedWindow.SameInstantAllAdmitted | fixed-window-ratelimiter.go:37-39 | `k` calls at one instant inside a window with room for them are all admitted, and the count grows by `k` |
| FixedWindow.BoundaryBurst | fixed-window-ratelimiter.go:50-52 | the documented boundary burst: `limit` calls one unit before the window runs out and `limit` calls at that instant are all admitted, `2 * limit` in one time unit |
| SlidingWindow.Prune | rate-limiter/sliding-window-ratelimiter.go:33-39 | the kept entries are exactly the log's entries strictly after the threshold, and there are no more of them than in the log |
| SlidingWindow.PruneLog | rate-limiter/sliding-window-ratelimiter.go:33-39 | the filtering loop returns `Prune(log, now - interval)` |
| SlidingWindow.SlidingWindowRateLimiter.constructor | rate-limiter/sliding-window-ratelimiter.go:16-23 | the log starts empty; `limit >= 0`, because `make` panics on a negative capacity |
| SlidingWindow.SlidingWindowRateLimiter.Allow | rate-limiter/sliding-window-ratelimiter.go:25-48 | the new log and decision are `AllowStep` of the old log, and the log never holds more than `limit` entries |
| SlidingWindow.AllowStep | rate-limiter/sliding-window-ratelimiter.go:33-47 | admits exactly when the pruned log has fewer than `limit` entries, and then the log holds at most `limit`; the new log holds exactly the old entries strictly after `now - interval`, plus `now` when admitted |
| SlidingWindow.AllowOutcomes | rate-limiter/sliding-window-ratelimiter.go:40-47 | admits exactly when the pruned log has fewer than `limit` entries, then appends `now`; on a rejection the pruned log is still committed |
| SlidingWindow.PruneSortedIsSuffix | rate-limiter/sliding-window-ratelimiter.go:33-39 | on a sorted log, pruning drops a prefix |
| SlidingWindow.PruneNothingAfter | rate-limiter/sliding-window-ratelimiter.go:34-38 | if no entry is after the threshold, pruning keeps nothing |
| SlidingWindow.PruneTwice | rate-limiter/sliding-window-ratelimiter.go:33-39 | pruning at one threshold and then at a later one is pruning at the later one |
| SlidingWindow.AllowKeepsLogSorted | rate-limiter/sliding-window-ratelimiter.go:33-44 | for a call no earlier than every logged entry, the log stays sorted |
| SlidingWindow.AllowKeepsLogInLimit | rate-limiter/sliding-window-ratelimiter.go:41-47 | a log of at most `limit` entries stays within `limit` |
| SlidingWindow.LogIsRecentAdmissions | rate-limiter/sliding-window-ratelimiter.go:25-48 | for nondecreasing call times, the log after a call is exactly the admitted times in the trailing interval `(now - interval, now]`, and there are at most `limit` of them: the sliding-window guarantee |
| SlidingWindow.RecentAdmissionsStep | rate-limiter/sliding-window-ratelimiter.go:33-47 | one call preserves "the log is the recent admissions" when time does not go back |
| TokenBucket.TokensFor | token-bucket-ratelimiter.go:36-39 | the tokens added are the elapsed seconds times `rps`, truncated toward zero (floor for a nonnegative rate, ceiling for a negative one) |
| TokenBucket.TokenBucketRateLimiter.constructor | token-bucket-ratelimiter.go:21-28 | the bucket starts full (`cap` tokens) at the construction time |
| TokenBucket.TokenBucketRateLimiter.Allow | token-bucket-ratelimiter.go:30-47 | the new bucket, clock and decision are `AllowStep` of the old fields; the bucket never exceeds `cap` |
| TokenBucket.AllowStep | token-bucket-ratelimiter.go:36-46 | the clock resets to `now`; an admission leaves fewer than `cap` tokens and a rejection leaves none; the tokens taken plus those left never exceed the old tokens plus the tokens earned |
| TokenBucket.AllowOutcomes | token-bucket-ratelimiter.go:36-46 | the clock resets to `now` whatever the decision; the refilled bucket is `min(cap, bucket + tokens)`; the call admits exactly when that is positive, and then takes one token |
| TokenBucket.AllowKeepsTokensInRange | token-bucket-ratelimiter.go:39-44 | with `rps >= 0`, `0 <= bucket <= cap` is preserved |
| TokenBucket.FractionLost | token-bucket-ratelimiter.go:37-40 | a call that earns less than one token's worth adds nothing; the fraction is lost because the clock resets |
| TokenBucket.RapidPollingStarves | token-bucket-ratelimiter.go:36-46 | starting empty, calls that each come less than one token's worth after the previous one are all rejected, however long they go on |
| TokenBucket.AdmissionsBoundedByAccrual | token-bucket-ratelimiter.go:36-46 | admissions plus the tokens left never exceed the starting tokens plus the tokens the calls earned |
| TokenBucket.HalfSecondRefill | token-bucket-ratelimiter.go:37 | at 10 tokens a second, an empty bucket that waits half a second admits 5 of 6 calls |
| LeakyBucket.LeakyBucketRateLimiter.constructor | rate-limiter/leaky-bucket-ratelimiter.go:17-25 | an empty channel of the given capacity, a ticker period of `time.Second / leakedRate`, and a running leak loop; Go panics on the excluded inputs |
| LeakyBucket.LeakyBucketRateLimiter.Allow | rate-limiter/leaky-bucket-ratelimiter.go:41-50 | the non-blocking send is `Offer` of the old occupancy |
| LeakyBucket.LeakyBucketRateLimiter.Tick | rate-limiter/leaky-bucket-ratelimiter.go:30-34 | a ticker fire is `Leak` of the old state |
| LeakyBucket.LeakyBucketRateLimiter.Stop | rate-limiter/leaky-bucket-ratelimiter.go:35-36 | a value on `stop` ends the loop and leaves the occupancy unchanged |
| LeakyBucket.OfferOutcomes | rate-limiter/leaky-bucket-ratelimiter.go:43-48 | the send succeeds and adds one token exactly when the channel has room, and otherwise changes nothing |
| LeakyBucket.LeakOutcomes | rate-limiter/leaky-bucket-ratelimiter.go:30-34 | a running loop's tick removes one token if there is one; the occupancy never goes negative |
| LeakyBucket.RunConserves | rate-limiter/leaky-bucket-ratelimiter.go:27-50 | over any run the occupancy stays in `[0, cap]`, equals the start plus admissions minus drains, and at most one token drains per tick |
| LeakyBucket.AdmissionsBoundedByTicks | rate-limiter/leaky-bucket-ratelimiter.go:27-50 | a run admits at most the room at its start plus one per tick: the leak rate bounds the throughput |
| LeakyBucket.StoppedNeverDrains | rate-limiter/leaky-bucket-ratelimiter.go:35-36 | after `stop`, nothing drains any more |
| LeakyBucket.Offer | rate-limiter/leaky-bucket-ratelimiter.go:43-48 | the send succeeds exactly when the channel has room; the occupancy stays within `[0, cap]`; a failed send changes nothing |
| LeakyBucket.Leak | rate-limiter/leaky-bucket-ratelimiter.go:30-36 | a tick never adds a token, never goes below zero and never changes whether the loop runs; once the loop has stopped it changes nothing |
| LeakyBucket.QueueBoundExample | rate-limiter/leaky-bucket-ratelimiter.go:41-50 | with capacity 5, five immediate calls admit 5 and six immediate calls still admit 5; from a full channel, a tick and two calls admit 1; the whole sequence admits 6 |
| RecencyList.Without | lru.go:61 | removing a key's element leaves exactly the other keys, duplicate-free, one shorter when the key was present |
| RecencyList.MoveToFront | lru.go:36 | the key is at the front, the other keys are kept, and no key is duplicated |
| RecencyList.Keep | lru-expiration.go:49-54 | removing the elements of the deleted keys leaves exactly the listed keys that are kept |
| RecencyList.WithoutAt | lru.go:61 | removing the element at position `p` of a duplicate-free list leaves the elements before and after it in their order |
| RecencyList.MoveToFrontAt | lru.go:36 | moving the key at position `p` to the front leaves the other keys in their order behind it |
| RecencyList.KeepAppend | lru-expiration.go:49-54 | `Keep` is an order-preserving filter: an appended element reaches the result exactly when its key is kept |
| RecencyList.KeepWithout | lru-expiration.go:49-54 | removing one more element after a `Keep` is a `Keep` of the smaller key set |
| RecencyList.DistinctCount | lru.go:56 | a duplicate-free list has as many elements as the map has keys |
| RecencyList.KeepAll | lru-expiration.go:49-54 | a purge that deletes nothing leaves the list as it is |
| RecencyList.KeepTwice | lru-expiration.go:49-54 | two successive purges keep the keys both keep |
| Lru.LruCache.constructor | lru.go:26-32 | an empty map and an empty list, for any capacity |
| Lru.LruCache.Get | lru.go:34-42 | the result and the new state are `GetStep` of the old state; the cache stays consistent |
| Lru.LruCache.Put | lru.go:44-65 | the new state is `PutStep` of the old state; the cache stays consistent |
| Lru.LruCache.Len | lru.go:67-69 | the size is the list's length and at most the capacity |
| Lru.GetStep | lru.go:34-42 | hits exactly on a present key and returns its stored value; the map never changes; the list stays duplicate-free |
| Lru.PutStep | lru.go:44-65 | no key other than the one put appears; the key put holds the new value while present; every other remaining key keeps its value |
| Lru.SizeMatchesOrder | lru.go:67-69 | in a consistent cache the map and the list have the same size, at most the capacity |
| Lru.GetOutcomes | lru.go:34-42 | a hit returns the stored value, moves the key to the front with the other keys in their old order, and keeps the map; a miss returns nothing and changes nothing |
| Lru.PutKeepsConsistent | lru.go:44-65 | `Put` keeps the map and the list in step, duplicate-free and within capacity |
| Lru.PutExistingKey | lru.go:46-48 | `Put` on a present key replaces its value, moves it to the front with the other keys in their old order, keeps every other value and evicts nothing |
| Lru.PutNewKey | lru.go:49-63 | a new key into a cache with room is pushed at the front; into a full cache the back key (the key itself at capacity 0) is evicted, every other entry is kept, and the list is the new key followed by the old list without its back |
| Lru.GetAfterPut | lru.go:34-65 | with capacity at least 1, a `Get` right after `Put(key, value)` returns `value` |
| Lru.NoCapacityStaysEmpty | lru.go:56-62 | with a capacity below 1, every `Put` evicts the key it adds, so the cache stays empty |
| ExpirableLru.NewCache | lru-expiration.go:28-41 | construction succeeds exactly when capacity and ttl are both positive, with an empty cache; otherwise it fails on the capacity first, then on the ttl |
| ExpirableLru.ExpirableLruCache.New | lru-expiration.go:28-41 | the same outcome as `NewCache`, with a fresh, valid, empty object on success |
| ExpirableLru.ExpirableLruCache.constructor | lru-expiration.go:35-40 | an empty map and an empty list for a positive capacity and ttl |
| ExpirableLru.ExpirableLruCache.Len | lru-expiration.go:43-45 | the size is the list's length and at most the capacity |
| ExpirableLru.ExpirableLruCache.PurgeExpired | lru-expiration.go:47-55 | the loop over the map leaves `Purge` of the old state |
| ExpirableLru.ExpirableLruCache.Get | lru-expiration.go:57-73 | the result and the new state are `GetAt` of the old state |
| ExpirableLru.ExpirableLruCache.Insert | lru-expiration.go:76-101 | the insert-or-refresh part of `Add` is the LRU `PutStep` of the entry stamped `now + ttl` |
| ExpirableLru.ExpirableLruCache.Add | lru-expiration.go:75-103 | the new state is `AddAt` of the old state |
| ExpirableLru.Purge | lru-expiration.go:47-55 | the map keeps exactly the entries not expired at `now`, with their entries unchanged |
| ExpirableLru.GetAt | lru-expiration.go:57-73 | finds a value exactly when the key is present and not expired, and returns its stored value; the key stays exactly when found; no other key is added or removed |
| ExpirableLru.AddAt | lru-expiration.go:75-103 | no key other than the one added appears; it holds the value stamped `now + ttl` while present; every other remaining key keeps its entry |
| ExpirableLru.SurvivorsStep | lru-expiration.go:49-54 | visiting one more key in the purge loop deletes it exactly when it is expired |
| ExpirableLru.PurgeOutcomes | lru-expiration.go:47-55 | after a purge the map holds exactly the old entries that are not expired, unchanged, and the list exactly their keys in their old order |
| ExpirableLru.PurgeIdempotent | lru-expiration.go:47-55 | purging twice at the same time is purging once |
| ExpirableLru.GetAtOutcomes | lru-expiration.go:57-73 | an expired hit is deleted from map and list and misses; a live hit returns its value and moves to the front; a miss changes nothing; the cache stays consistent |
| ExpirableLru.AddKeepsConsistent | lru-expiration.go:75-103 | `Add` keeps the map and the list in step and within capacity |
| ExpirableLru.AddLeavesNothingExpired | lru-expiration.go:102 | after `Add`, no entry is expired at the time of its purge |
| ExpirableLru.AddThenGet | lru-expiration.go:75-103 | `Add` stores the value stamped `now + ttl` at the front, and a `Get` up to that time finds it |
| ExpirableLru.AddExistingKey | lru-expiration.go:77-80 | `Add` on a present key evicts nothing: the keys afterwards are the old live keys plus the key |
| ExpirableLru.EvictsBeforePurging | lru-expiration.go:92-102 | eviction happens before the purge, so a live entry can be evicted while an expired one is still in the list |
| SnapshotArray.SnapshotArray.constructor | snapshot-array/snapshot-array.go:23-30 | no value is set and the snapshot id is 0; `size` is stored but never used |
| SnapshotArray.SnapshotArray.Set | snapshot-array/snapshot-array.go:33-47 | the new state is `SetAt` of the old one, and the arrays stay consistent |
| SnapshotArray.SnapshotArray.Snap | snapshot-array/snapshot-array.go:49-52 | the id handed out and the new state are `TakeSnap` of the old state |
| SnapshotArray.SnapshotArray.Get | snapshot-array/snapshot-array.go:54-71 | the value is `ValueAt` of the state; at any id other than the current one it is the linear-scan `Lookup` of the history |
| SnapshotArray.SetAt | snapshot-array/snapshot-array.go:33-47 | the snapshot id is unchanged; the index's history ends in the new value at the current id; no other index's history changes |
| SnapshotArray.TakeSnap | snapshot-array/snapshot-array.go:49-52 | hands out the current id and moves on to the next; the arrays stay consistent |
| SnapshotArray.Lookup | snapshot-array/snapshot-array.go:61-70 | -1 when every version is after the id; otherwise the value of the last version at or before the id |
| SnapshotArray.ValueAt | snapshot-array/snapshot-array.go:54-71 | an index never set reads 0 at the current id and -1 at any other; for a set index of a consistent state every id reads the history lookup, the current id included |
| SnapshotArray.SearchAfter | snapshot-array/snapshot-array.go:61-63 | the bisection returns the position that splits the history into versions at or before the id and versions after it |
| SnapshotArray.LookupAtSplit | snapshot-array/snapshot-array.go:65-70 | the version just before the split is the one the linear scan finds, or -1 when the split is at 0 |
| SnapshotArray.SetKeepsConsistent | snapshot-array/snapshot-array.go:33-47 | `Set` keeps each history nonempty, with strictly increasing ids no later than the current one, and ending in the current value |
| SnapshotArray.SetKeepsHistoryTracked | snapshot-array/snapshot-array.go:38-46 | overwriting the current snapshot's version, or appending a new one, keeps the history ordered and makes its last value the new one |
| SnapshotArray.SetOutcomes | snapshot-array/snapshot-array.go:33-47 | `Set` makes the value current at its index and changes no other index |
| SnapshotArray.SnapOutcomes | snapshot-array/snapshot-array.go:49-52 | successive snaps hand out consecutive ids and change no value or history |
| SnapshotArray.CurrentAgreesWithHistory | snapshot-array/snapshot-array.go:54-71 | for a set index, reading the current id agrees with the history's last version |
| SnapshotArray.NeverSetReadsDiffer | snapshot-array/snapshot-array.go:56-58 | an index never set reads 0 at the current id but -1 at every other id, including the same id once it has been snapped |
| SnapshotArray.LookupIgnoresNewer | snapshot-array/snapshot-array.go:61-63 | a version newer than the id does not change the lookup |
| SnapshotArray.SetKeepsPastSnapshots | snapshot-array/snapshot-array.go:33-47 | a `Set` changes no value read at an id that has already been snapped |
| StickerCount.PerSet | map/sticker-count.go:9-17 | one set provides two `o`s and one each of `f a c e b k`, and nothing else |
| StickerCount.PerSetIsFacebookMap | map/sticker-count.go:9-17 | `PerSet` has exactly the keys and counts of the source's `facebookMap` |
| StickerCount.CeilDiv | map/sticker-count.go:29 | the result is the ceiling of `a / b`: `(r - 1) * b < a <= r * b` |
| StickerCount.CeilDivBound | map/sticker-count.go:29 | `ceil(a / b) <= n` exactly when `a <= n * b`, for the per-set counts 1 and 2 |
| StickerCount.MaxNeed | map/sticker-count.go:24-31 | the fold is at least every letter's need, and equals one of them (or 0) |
| StickerCount.MaxNeedIsEnough | map/sticker-count.go:24-31 | the fold's maximum is enough sets for every letter |
| StickerCount.MaxNeedIsMinimal | map/sticker-count.go:24-31 | with one set fewer than the maximum, some letter runs short |
| StickerCount.MinStickers | map/sticker-count.go:8-33 | the result is enough sets, and one set fewer is not |
| StickerCount.MinimalIsUnique | map/sticker-count.go:8-33 | "enough, and one fewer is not" determines the count |
| StickerCount.LowerBounds | map/sticker-count.go:29-30 | the result is at least the count of each one-per-set letter and at least half the `o`s, rounded up |
| StickerCount.IgnoresOtherCharacters | map/sticker-count.go:25-28 | appending a character no sticker provides changes nothing |
| StickerCount.NoStickerLettersNeedNothing | map/sticker-count.go:22-32 | a word without sticker letters (the empty word too) needs 0 sets |
| StickerCount.ExactlyEnough | map/sticker-count.go:24-31 | if no letter needs more than `k` sets and one needs exactly `k`, the word needs `k` |
| StickerCount.CoffeeKebabNeedsThree | map/sticker-count.go:36 | "coffee kebab" needs 3 sets |
| StickerCount.BookNeedsOne | map/sticker-count.go:37 | "book" needs 1 set |
| StickerCount.FfacebookNeedsTwo | map/sticker-count.go:38 | "ffacebook" needs 2 sets |
| StickerCount.FoldIsMinStickers | map/sticker-count.go:18-32 | the maximum the second loop folds over the counts of the first loop is `MinStickers` of the word |
| StickerCount.CalculateMinStickers | map/sticker-count.go:8-33 | the two loops return `MinStickers(word)` |

## Left out

- Locking: the `sync.Mutex` fields and the `Lock`/`Unlock` calls. Every method runs as one atomic step.
- Reading the clock: `time.Now()` becomes an integer parameter.
- Go's monotonic clock: token-bucket calls require `latestRequest <= now`.
- The leaky bucket's goroutine, ticker and channels: the `leak` loop's concurrency is modelled as explicit `Tick` and `Stop` events. The source has no method that sends on `stop`, so `Stop` models the only way the loop could end.
- The `RateLimiter`, `LRUCache`, `ExpirableLRUCache` and `Snapshottable` interfaces: each implementation is modelled on its own.
- The `container/list` element references (`listRef`, `Element`): the list is a sequence of keys, which has the same order and membership.
- `main` functions and `fmt` printing. The sticker-count samples in `main` become the three example lemmas.
- TokenBucket.TokensFor: computes exactly, whereas the source computes `float64` seconds times `rps` and truncates. Results can differ at float rounding boundaries and beyond the range of `float64` integers.
- StickerCount.CeilDiv: computes exactly, whereas the source uses `math.Ceil` on `float64`. The two agree for counts below 2^53.
- The string-keyed `facebookMap` lookup by `string(rune)` is modelled as a lookup by character. Invalid UTF-8 is not modelled: a string is a sequence of characters.
- The snapshot array's `size` is stored but never checked by the source, and so not by the model.
- Integer widths: all integers are unbounded. Overflow of `int` or of `time.Time` arithmetic is not modelled.
