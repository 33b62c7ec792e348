# gocache in Dafny

A verified model of the four in-memory key/value caches of the gocache
repository. Each cache keeps its entries in a map from string keys to items
and decides by an integer expiry when an entry counts as expired. The clock is
an integer parameter `now` (nanoseconds) and durations are integers.

- `CacheV1` (v1/gcache.go): a cache that also keeps a binary min-heap of its
  items ordered by expiry. The heap hooks (`Len`, `Less`, `Swap`, `Push`,
  `Pop`) are modelled over a `seq<Item>` field, with the sift-up and sift-down
  that Go's `container/heap` runs around them written out as `Up`, `Down`,
  `HeapPush` and `HeapPop`. `evict` pops every item that expired before `now`.
  It deletes the map key derived from each popped item's *value*: the string
  itself, or the decimal form of an `int`. The key the item was stored under
  plays no part. `Delete` leaves the item on the heap.
- `TtlRules`, `CacheV2` (v2/gcache.go) and `GcacheV2` (gcache_v2.go): one
  generic cache under two sets of names. It has:
  - a duration rule with sentinels (0 means the default, negative means never,
    stored as -1);
  - a `Set` that refuses to overwrite a live entry;
  - an `add` that rejects an empty string;
  - a lazy expiry check in `Get`;
  - a full-scan `DeleteExpired`.

  Among the proved facts:
  - `IsExpired` never answers true.
  - `add`'s "already exists" guard never fires.
  - `DeleteExpired` removes entries with expiry 0, which `Get` treats as never
    expiring.
  - `DeleteExpired` always returns nil.
- `Gcache` (gcache.go): the minimal cache. `Set` stores `now + ttl` for a
  positive duration and 0 (never) otherwise, ignoring the cache's own `ttl`.
  `Get` checks the expiry lazily, `Delete` is idempotent and `clean` does
  nothing.
- Shared modules:
  - `Values` models Go's `interface{}` values.
  - `Strconv` models `strconv.Itoa` and proves it injective.
  - `Wrappers` holds `Option`.

As written in the Go code, and so in the model:
- `Set` overwrites a live entry in v1 and gcache.go; only the v2 caches refuse.
- The caches have no update or flush operation.
- `Delete` in v1 removes the map entry and leaves its item on the heap.
- Only the v2 caches' `delete` reports a missing key.
- Entries that never expire are stored with expiry 0 (gcache.go) or 0 and -1
  (the v2 caches); v1 has no such entries and pushes every item on the heap.

## Model

| member | source | states |
|---|---|---|
| CacheV1.Item.constructor | v1/gcache.go:35-38 | a new item holds the given value and expiry; its `Index` starts at 0 |
| CacheV1.ExpirationHeap.constructor | v1/gcache.go:24-27 | the zero-value heap of a new cache: no slots, and trivially a valid heap |
| CacheV1.ExpirationHeap.Len | v1/gcache.go:110-112 | the number of slots |
| CacheV1.ExpirationHeap.Less | v1/gcache.go:114-116 | true iff slot `i` expires strictly before slot `j` |
| CacheV1.LessIsStrictOrder | v1/gcache.go:114-116 | `Less` is irreflexive, transitive and asymmetric, the strict order `container/heap` relies on |
| CacheV1.ExpirationHeap.Swap | v1/gcache.go:118-122 | the two slots are exchanged and every other slot is unchanged; slot `j` records index `j`, and slot `i` records `i` when the two hold different items; slot indices stay consistent |
| CacheV1.ExpirationHeap.Push | v1/gcache.go:124-129 | the item is appended, its index is the old length, and earlier slots are untouched |
| CacheV1.ExpirationHeap.Pop | v1/gcache.go:131-138 | the last slot is removed and returned, its index becomes -1, and the rest is the old prefix |
| CacheV1.ExpirationHeap.Up | v1/gcache.go:40 | `container/heap`'s sift-up restores the min-heap order after an append, with the same multiset of items |
| CacheV1.ExpirationHeap.Down | v1/gcache.go:97 | `container/heap`'s sift-down over the first `n` slots restores their heap order; the tail is untouched and the multiset is the same; reports whether the start slot moved |
| CacheV1.ExpirationHeap.HeapPush | v1/gcache.go:40 | `heap.Push`: the heap keeps the min-heap order and consistent indices, and it grows by exactly the new item |
| CacheV1.ExpirationHeap.HeapPop | v1/gcache.go:97 | `heap.Pop`: removes and returns the old root, whose expiry is minimal; the rest stays a heap; the index of the returned item is -1 |
| CacheV1.RootIsMinimum | v1/gcache.go:96 | in a min-heap, no slot expires before slot 0, which is why `evict` tests only the root |
| CacheV1.RootIsMinimumAll | v1/gcache.go:96 | the same for every item of a min-heap |
| CacheV1.EvictionKey | v1/gcache.go:99-104 | the key deleted for a popped value: a string itself, an `int` in `strconv.Itoa` form, nothing for any other value |
| CacheV1.EvictionKeyCollisions | v1/gcache.go:99-104 | distinct `int` values give distinct eviction keys; a string value collides with an `int` exactly when it is that int's decimal form |
| CacheV1.EvictedKeysMeaning | v1/gcache.go:99-104 | a key is deleted by eviction iff it is derived from the value of some popped item |
| CacheV1.EvictedKeys | v1/gcache.go:96-105 | the keys the evict loop deletes for the items it popped, in order; at most one per popped item |
| CacheV1.Cache.constructor | v1/gcache.go:23-30 | an empty map and an empty, valid heap |
| CacheV1.Cache.Set | v1/gcache.go:32-41 | the key maps to a fresh item expiring at `now + ttl` and other keys are unchanged; the heap gains exactly that item and keeps its earliest expiry at slot 0; `Get` at `t` returns the value exactly while `t <= now + ttl` |
| CacheV1.Cache.Get | v1/gcache.go:57-73 | the stored value iff the key is mapped and `now` is not after its expiry, otherwise nothing |
| CacheV1.Cache.Delete | v1/gcache.go:75-83 | removes only that key (nothing if absent) and leaves the heap as it was |
| CacheV1.Cache.Evict | v1/gcache.go:92-106 | after the call the heap is empty or its root is not before `now`, and every remaining item is not before `now`; every popped item expired before `now`; the popped items and the remaining heap together are the old heap; the map loses exactly the keys derived from the popped values |
| Strconv.DigitChar | v1/gcache.go:103 | a decimal digit character of the given value |
| Strconv.Digits | v1/gcache.go:103 | a non-empty string of digits with no leading zero unless the number is 0 |
| Strconv.DigitsRoundTrip | v1/gcache.go:103 | reading back the digits of `n` gives `n` |
| Strconv.Itoa | v1/gcache.go:103 | `strconv.Itoa`: non-empty; it starts with `-` iff the number is negative, and the digits after it read back as the magnitude with no leading zero (the canonical decimal form) |
| Strconv.ItoaInjective | v1/gcache.go:103 | distinct integers have distinct decimal forms |
| TtlRules.ResolveExpiration | v2/gcache.go:67-76 | 0 becomes the default; a positive duration gives `now + d`; a negative one gives -1; a duration still 0 gives 0 |
| TtlRules.Live | v2/gcache.go:102-104 | `Get` returns the entry: its expiry is 0 or below, or `now` is not past it |
| TtlRules.Stale | v2/gcache.go:165 | `DeleteExpired` removes the entry: `now` is past its expiry and the expiry is not -1 |
| Values.IsEmptyString | v2/gcache.go:83-87 | the value is a string of length 0, the one value `add` rejects |
| TtlRules.Swept | v2/gcache.go:164-171 | exactly the entries that are not past a non-sentinel expiry, with their items unchanged |
| TtlRules.Val | v2/gcache.go:116-122 | the stored object of a non-nil item, nil otherwise |
| TtlRules.Join | v2/gcache.go:166-168 | joining a nil error adds nothing; joining an error appends it |
| TtlRules.LiveButStale | v2/gcache.go:102-104 | `Get` returns an entry that `DeleteExpired` removes iff the expiry is 0 or below -1 and has passed |
| TtlRules.ResolvedExpiryMeaning | v2/gcache.go:67-76 | on a clock from 0, with `dur` the duration after 0 becomes the default: an entry stored at `now` is visible at `t` iff `dur <= 0` or `t <= now + dur`; the sweep at `t` removes it iff `dur > 0` and `t > now + dur`, or `dur == 0` and `t > 0`; the entries both visible and swept are exactly those with `dur == 0` at `t > 0` |
| CacheV2.Cache.constructor | v2/gcache.go:44-54 | an empty map with the given default duration and cleanup interval |
| CacheV2.Cache.Set | v2/gcache.go:56-64 | a live key is refused with `AlreadyExists` and the map is unchanged; otherwise the result is nil and the map is what `add` leaves, even when `add` rejected the value; a stored item is returned by `Get` at once |
| CacheV2.Cache.Add | v2/gcache.go:66-98 | an empty string is rejected and the map is unchanged; otherwise the key maps to the value with the resolved expiry, overwriting any entry |
| CacheV2.Cache.Get | v2/gcache.go:99-114 | the item with no error iff the key is mapped and live; `Expired` for a mapped entry past its expiry; `NotFound` for a missing key; never an item and an error together |
| CacheV2.Cache.IsExpired | v2/gcache.go:124-132 | always false |
| CacheV2.Cache.Delete | v2/gcache.go:148-156 | nil iff the key was present, `NotFound` otherwise; the map loses exactly that key |
| CacheV2.Cache.DeleteExpired | v2/gcache.go:158-175 | the map becomes exactly its non-stale entries, unchanged, and the result is nil |
| GcacheV2.Cache2.constructor | gcache_v2.go:44-54 | an empty map with the given default duration and cleanup interval |
| GcacheV2.Cache2.Set2 | gcache_v2.go:56-64 | a live key is refused with `AlreadyExists` and the map is unchanged; otherwise the result is nil and the map is what `add` leaves; a stored item is returned by `Get2` at once |
| GcacheV2.Cache2.Add | gcache_v2.go:66-98 | an empty string is rejected and the map is unchanged; otherwise the key maps to the value with the resolved expiry |
| GcacheV2.Cache2.Get2 | gcache_v2.go:99-114 | the item with no error iff the key is mapped and live; `Expired` or `NotFound` otherwise; never both |
| GcacheV2.Cache2.IsExpired | gcache_v2.go:124-132 | always false |
| GcacheV2.Cache2.Delete | gcache_v2.go:148-156 | nil iff the key was present; the map loses exactly that key |
| GcacheV2.Cache2.DeleteExpired | gcache_v2.go:158-175 | the map becomes exactly its non-stale entries and the result is nil |
| Gcache.ExpiryFor | gcache.go:34-39 | `now + ttl` for a positive duration, 0 (never) for any other |
| Gcache.Fresh | gcache.go:55 | `Get` returns the entry: no positive expiry, or `now` is not past it |
| Gcache.StoredExpiryMeaning | gcache.go:33-61 | on a clock from 0, a stored entry is fresh at `t` iff its duration was not positive or `t <= now + ttl` |
| Gcache.Cache.constructor | gcache.go:24-31 | an empty map and the given `ttl` |
| Gcache.Cache.Set | gcache.go:33-48 | the key maps to the value with the expiry for `ttl`, replacing any entry, and other keys are unchanged; `Get` at `t` then returns it exactly while the duration is not positive or `t <= now + ttl` |
| Gcache.Cache.Get | gcache.go:50-61 | `(value, true)` iff the key is mapped and not past a positive expiry, `(nil, false)` otherwise |
| Gcache.Cache.Delete | gcache.go:63-70 | removes only that key, changes nothing for a missing key (so a second call has no effect), and `Get` then misses |
| Gcache.Cache.Clean | gcache.go:79-82 | the cache is unchanged |

## Left out

- Background loops (`cleanEvic`, `cleanup`, `cleanCache`): each `evict` or `DeleteExpired` call is one step, and the sleeping and ticking goroutines are not modelled.
- The finalizer, the `done` channel and `stopCleanup` are not modelled. In v2/gcache.go they only stop the cleanup goroutine and do not touch the map.
- GcacheV2.Cache2.constructor: in gcache_v2.go, `New2` registers `stopCleanup`, whose parameter is a `*Cache2[K, V]`, as the finalizer of a `*cache2[K, V]`. `runtime.SetFinalizer` rejects that type mismatch and aborts the program, so `New2` never returns for a positive cleanup interval. The model covers only the path that returns, a cleanup interval of 0 or below, and its constructor returns a cache for every interval.
- Locks: every method is modelled as one atomic step, so races are not modelled.
- The clock: `time.Now()` becomes the parameter `now`. Each `time.Now()` call in `Set`, `add` and `Get` of the v2 caches (v2 `add` calls it directly and again through `Get`) is modelled as the same `now`.
- Error messages: errors are a small enum without their text.
- `errors.Join` and `errors.Unwrap`: the joined error is kept as a list. `Unwrap` of a joined error is nil, so the modelled result is nil.
- `Values`: a dynamic value is nil, a string, an `int` or an opaque token. The code only asks for strings and ints.
- CacheV1.Cache.Evict: the popped items are returned as a ghost value for the contract; Go discards them.
- TtlRules.ResolveExpiration, Gcache.ExpiryFor: `now + d` is unbounded here. The int64 overflow of `time.Now().Add(d).UnixNano()` for very large durations is not modelled.
- CacheV1.ExpirationHeap: the Go slice is a `seq` field that the hooks reassign. Slice capacity and aliasing of the backing array are not modelled.
- Gcache.Cache.Set: the read-back clause holds only for a clock at or after 0. On an earlier clock, `now + ttl` can be 0 or below and then reads as "never".
- TtlRules.Val: the type parameters are modelled as `K = string` and `V = any` (the dynamic `Value`), so for a nil item it returns `Nil`, the zero value of `any`, and not the zero value of a concrete `V` (0 for `int`, `""` for `string`).
- TtlRules.Val is stated once for both generic caches (v2/gcache.go:116-122 and gcache_v2.go:116-122).
- benchmark/main_test.go (benchmarks against other caches) and gocache_example_test.go (a usage example) are not part of this model.
- gcache_test.go exercises v1's `Get` expiry with sleeps; it is not modelled.
