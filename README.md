# kvserver core in Dafny

This project models the core of a small TTL key-value server written in Go.

- **Storage engine** (`kvstorage/storage.go`, module `KVStorage`). This is a map from keys to elements next to a queue of keys. The least recently written key is at the front of the queue. `Set`, `Get`, `Delete`, `OldestElementTime`, `DeleteFrontIfOlder` and `purgeElement` are methods of the class `KVStorage`. Its fields are the map, the queue and the `initialized` flag.
  - Each queue node is a `QueueNode` object that holds its key. Object identity stands for Go's `*list.Element`, so every element keeps a real pointer to its node, as `QueueElement` does. `list.Remove` is the function `Remove`, which removes a node by identity.
  - The invariant `Consistent(queue, map)` says five things: the queue holds every key of the map, every queued node's key is in the map, the queue holds each key exactly once, each element points at the node that holds its key, and the empty string is never a key. Every operation keeps this invariant. Because of it, the `panic` in `OldestElementTime` can never happen (that branch is an `assert false`) and neither can the nil dereference in `DeleteFrontIfOlder`.
  - `Chronological` says that timestamps do not decrease from the front of the queue to the back. Set keeps it when its clock does not run backwards, and removal always keeps it. While it holds, `OldestElementTime` returns the smallest timestamp in the store.
- **Element** (`element/element.go`, module `Element`). The stored element of the older iteration, and `IsTTLOver`. Go's `int64`/`uint64` are subset types of `int`. The int64 subtraction and the conversion to uint64 are both written out as wrap-around.
- **Eviction helper** (`vacuum/vacuum.go`, module `Vacuum`). The class `Lifo` has `Init`, the guard of `Run` and `cleanUp`. `getSleepPeriod` is the pure function `GetSleepPeriod`. This file belongs to an older iteration whose storage API (`IsInStorage`, `IsElemUpdated`, `ResetUpdated`, `IsElemTTLOver`, `GetTimestamp`, `Delete`) is not part of this model. Those calls are small functions over a `map<string, Element>` that carry only the meaning their call sites rely on.
- **Request handling** (`router/router.go` as module `Router`; `kvserver.go` as module `KVServer`). A request is reduced to its path, its method and its parsed form. The router's response is a (body, code) pair. `getHandler`'s response records the status it wrote explicitly, if any, and the body. Both files call an older storage API whose `Get` returns (value, found) and whose `Delete` returns whether the key existed. Module `LegacyStore` stands in for it, over the key-to-value map that the handlers observe.

Clocks are parameters. In `kvstorage/storage.go` a timestamp is an integer instant. `IsTTLOver` takes `now` as a Unix second. `GetSleepPeriod` takes `now` as a nanosecond instant, and element timestamps there are Unix seconds, as in the source.

The intended design of the store describes a few behaviours that the Go code does not have. In each case the model follows the code:
- `Set`, `Get`, `Delete`, `OldestElementTime` and `DeleteFrontIfOlder` also fail on a store that is not initialized (the zero value `KVStorage{}`, modelled by the constructor `Uninitialized`). The intended design mentions only the empty key.
- On an empty queue, `getSleepPeriod` returns `ttl / ttlDelim` whatever `ttl` is. The intended design's "ttl = 0 or ttlDelim < 2 gives a 1 s fallback" is not in the code: with ttl = 0 the result is 0.
- The intended design expects 15 s ± 1 ms for an element 30 s old (ttl 60 s, divisor 2). `time.Unix` keeps whole seconds only, so the exact 15 s holds only when `now` falls on a whole second (`HalfOfRemainingTime`). Otherwise the result can be up to half a second less.
- The eviction design in `vacuum/vacuum.go` is the channel-fed older design with `Updated` flags. It is not the polling loop over `DeleteFrontIfOlder` that the intended design describes.
- `kvserver.go` has no default branch for methods other than GET and POST, so it writes no status and changes nothing. `router/router.go` answers 400 in that case.

## Model

| member | source | states |
|---|---|---|
| Element.Int64Wrap | element/element.go:18 | The int64 subtraction's result: congruent to the mathematical difference modulo 2^64, and equal to it when it fits in int64. |
| Element.ToUint64 | element/element.go:19 | `uint64(res)`: the same 64 bits read as unsigned, i.e. the uint64 congruent to res modulo 2^64. |
| Element.IsTTLOver | element/element.go:14-20 | ttl = 0 always means expired. For ttl ≥ 1 and a past timestamp, expired iff the age `now − timestamp` is ≥ ttl. For a future timestamp, expired iff the wrapped age `now − timestamp + 2^64` is ≥ ttl. The element is a value and is not modified. |
| Element.FutureTimestampIsOver | element/element_test.go:48-53 | A timestamp up to 2^63 s in the future wraps to a huge uint64 age, so the element is expired for every ttl ≤ 2^63. |
| Element.TableCases | element/element_test.go:24-53 | The five table-test cases: ttl 0 gives expired; 100 s old is expired for ttl 1 and ttl 10; stamped `now` is not expired for ttl 1; 100 s in the future is expired for ttl 10. |
| Element.OverStaysOver | element/element.go:18-19 | While the age is non-negative, an element that is expired at `now` is still expired at any later time. |
| KVStorage.Remove | kvstorage/storage.go:43 | `list.Remove`: one node fewer when the node is queued, the same queue otherwise. No other node is lost and none is added. |
| KVStorage.RemoveAt | kvstorage/storage.go:140 | Removing the node at position i leaves `q[..i] + q[i+1..]`, so the other nodes keep their order. |
| KVStorage.ConsistentSizes | kvstorage/storage.go:13-18 | Under the invariant, the map's key set equals the set of queued keys, and the map and the queue have the same size. |
| KVStorage.FrontIsOldest | kvstorage/storage.go:16 | When the queue is chronological, the front key's timestamp is ≤ every stored timestamp. |
| KVStorage.RemoveKeyKeepsConsistent | kvstorage/storage.go:134-142 | Removing a present key's node and its map entry keeps the map/queue invariant. |
| KVStorage.RemoveKeepsBackPointers | kvstorage/storage.go:134-142 | After that removal, every remaining queued node is still the node its key's map entry points at. |
| KVStorage.RemoveKeepsCoverage | kvstorage/storage.go:134-142 | After that removal, every remaining key's node is still in the queue and carries that key. |
| KVStorage.RemoveKeyOrder | kvstorage/storage.go:140-141 | Removing a present key's node drops exactly that key from the queue's key order and keeps the order of the other keys. |
| KVStorage.RemoveKeyKeepsChronological | kvstorage/storage.go:134-142 | Removing a key keeps timestamps nondecreasing from front to back. |
| KVStorage.UpsertQueue | kvstorage/storage.go:39-50 | The queue after Set ends with the fresh node. It holds nothing but that node and old nodes, and it keeps every old node except the key's previous node. Its length is unchanged for a queued existing key and one more for a new key. |
| KVStorage.UpsertKeepsConsistent | kvstorage/storage.go:39-51 | Set's update keeps the invariant. The key moves to the back (`Without(old order, key) + [key]`). The queue length is unchanged for an existing key and grows by one for a new key. |
| KVStorage.ReplaceKeyKeepsConsistent | kvstorage/storage.go:39-44 | Existing key: removing its old node and appending a fresh one keeps the invariant and shrinks then regrows the queue by one. |
| KVStorage.AppendKeyKeepsConsistent | kvstorage/storage.go:46-51 | New key: appending a fresh node and map entry keeps the invariant. The key goes last, and the queue stays chronological when the new timestamp is the newest. |
| KVStorage.UpsertKeepsChronological | kvstorage/storage.go:39-51 | If Set's `now` is no earlier than any stored timestamp, the queue stays chronological. |
| KVStorage.KVStorage.Uninitialized | kvstorage/storage.go:13-18 | The zero value: not initialized, with an empty map and an empty queue, and consistent. |
| KVStorage.KVStorage.NewStorage | kvstorage/storage.go:21-28 | An initialized, consistent store with an empty map and an empty queue. |
| KVStorage.KVStorage.Set | kvstorage/storage.go:31-54 | Fails iff the store is uninitialized or the key is empty, and then nothing changes. On success the key maps to (value, now, fresh node) and other entries are untouched. The queue is the old one minus the old node plus the new node, so the key is last and appears exactly once. The length is unchanged for an existing key and +1 for a new key. The invariant is kept. |
| KVStorage.KVStorage.Get | kvstorage/storage.go:57-69 | Error iff the store is uninitialized or the key is empty. Otherwise found iff the key is stored, with the stored value. Nothing changes. |
| KVStorage.KVStorage.OldestElementTime | kvstorage/storage.go:72-91 | Succeeds iff the store is initialized and non-empty, and returns the front key's timestamp, which is the minimum when the queue is chronological. The panic branch is unreachable. |
| KVStorage.KVStorage.Delete | kvstorage/storage.go:94-105 | Error iff the store is uninitialized or the key is empty, and then nothing changes. Otherwise returns whether the key existed. Afterwards the key is in neither the map nor the queue, every other entry is untouched, and the other keys keep their order. |
| KVStorage.KVStorage.DeleteFrontIfOlder | kvstorage/storage.go:108-132 | Error iff the store is uninitialized. Returns true iff the queue is non-empty and the front key's timestamp is strictly before the cutoff; then it removes exactly the front key from the map and the queue. Otherwise nothing changes. |
| KVStorage.KVStorage.PurgeElement | kvstorage/storage.go:134-142 | For a present key: removes its node (by identity) and its map entry, and keeps the invariant. |
| KVStorage.SetThenGet | kvstorage/storage.go:31-69 | Set followed by Get returns the value just written. |
| KVStorage.DeleteThenGet | kvstorage/storage.go:57-105 | Delete followed by Get reports not found. |
| KVStorage.RenewOnlyKey | kvstorage/storage.go:39-91 | Writing the only key twice makes OldestElementTime report the second write's timestamp. |
| Vacuum.IsInStorage | vacuum/vacuum.go:59 | Assumed meaning of the older storage's IsInStorage: true iff the key has an element. |
| Vacuum.IsElemUpdated | vacuum/vacuum.go:66 | Assumed meaning of IsElemUpdated: true only for a stored key, and then iff its Updated flag is set. |
| Vacuum.ResetUpdated | vacuum/vacuum.go:70 | Assumed meaning of ResetUpdated: the same keys, the key no longer reads as updated, its value and timestamp are kept, and every other entry is unchanged. |
| Vacuum.IsElemTTLOver | vacuum/vacuum.go:73 | Assumed meaning of IsElemTTLOver: true only for a stored key, and then iff `IsTTLOver` holds for its element. |
| Vacuum.GetTimestamp | vacuum/vacuum.go:89-93 | Assumed meaning of GetTimestamp: the stored element's Unix second, and 0 for a key that is not stored, as the comment at vacuum.go:92 relies on. |
| Vacuum.ExpireTime | vacuum/vacuum.go:96-101 | `time.Unix(stamp, 0).Add(time.Duration(ttl * uint64(time.Second)))` in ns: stamp·10^9 + ttl·10^9 when the TTL is below 2^63 ns (Go agrees for stamps up to 2^63 − 1 − 62135596800 s, see Left out); otherwise the uint64 product wrapped into int64, within 2^63 ns of the stamp and congruent modulo 2^64. |
| Vacuum.GetSleepPeriod | vacuum/vacuum.go:80-117 | Empty queue: ttl seconds / ttlDelim in ns, rounded down. Front key's timestamp 0 (not stored, or stamped at second 0): 0. Expiry already passed: 0. Otherwise at least 1 ns and at most (expiry − now)/ttlDelim unless clamped to 1 ns; when expiry − now fits in a Duration it is exactly max(1, (expiry − now) / ttlDelim), rounded down. |
| Vacuum.SleepFor | vacuum/vacuum.go:108-116 | The sleep for a key `remaining` ns from expiry is at least 1 ns and at most remaining/ttlDelim unless clamped to 1 ns; when remaining fits in a Duration it is exactly max(1, remaining / ttlDelim), rounded down. |
| Vacuum.SleepEndsByExpiry | vacuum/vacuum.go:108-116 | With ttlDelim ≥ 1 and expiry in the future, `now + sleep` never passes the front key's expiry instant. |
| Vacuum.HalfOfRemainingTime | vacuum/vacuum.go:96-116 | An element 30 s old at a whole-second `now`, with ttl 60 and divisor 2, gives exactly 15 s. |
| Vacuum.Lifo.constructor | vacuum/vacuum.go:10-16 | The zero value `Lifo{}`: no storage, no channel, empty queue, ttl and divisor 0. |
| Vacuum.Lifo.Init | vacuum/vacuum.go:19-33 | Succeeds iff channel and storage are non-nil and ttl ≠ 0. On failure nothing is assigned. On success it stores them, empties the queue and sets ttlDelim = 2. |
| Vacuum.Lifo.Run | vacuum/vacuum.go:36-39 | An unconfigured cleaner (nil channel, nil storage or ttl 0) returns at once and changes nothing. Only a configured one enters the loop. |
| Vacuum.Lifo.CleanUp | vacuum/vacuum.go:57-78 | Front key absent from storage: its node goes, storage is unchanged. Updated key: its node goes and its Updated flag is reset, and the entry stays. Otherwise the key leaves storage and queue iff its TTL is over, else nothing changes. At most one node is removed. |
| LegacyStore.Store.Get | router/router.go:55 | The older Get: found iff the key is stored, with its value, and "" otherwise. Nothing changes. |
| LegacyStore.Store.Set | router/router.go:80 | The older Set: the key maps to the value and every other key is unchanged. |
| LegacyStore.Store.Delete | router/router.go:72 | The older Delete: returns whether the key existed and removes it. |
| Router.GetKeyFromURL | router/router.go:33-38 | A path shorter than 6 characters gives ("", false). Otherwise it gives true and a non-empty key of length len(path) − 5 that follows the path's first five characters. |
| Router.Creator | router/router.go:41-49 | "GET" selects methodGET, "POST" selects methodPOST, and anything else has no handler. |
| Router.MethodGET | router/router.go:52-62 | A present key gives (value, 200). An absent key gives (404 message, 404). Storage is not changed. |
| Router.MethodPOST | router/router.go:65-88 | An empty form deletes the key: 200 if it existed, 404 with the message otherwise. A form with `value` stores its first value with 200. Any other form gives 400 with storage unchanged. |
| Router.HandleRequest | router/router.go:14-30 | A malformed path or an unsupported method gives 400 with storage untouched. GET answers the value with 200 or NOT_FOUND_MSG with 404, storage unchanged. POST with an empty form deletes the key and answers "" with 200, or NOT_FOUND_MSG with 404 if it was absent; with `value` it stores the first value and answers "" with 200; any other form answers MALFORMED_MSG with 400, storage unchanged. |
| KVServer.GetKeyFromURL | kvserver.go:54-59 | The same contract as the router's: a short path gives ("", false), otherwise `path[5:]`. |
| KVServer.SameKeyRule | kvserver.go:54-59 | The two copies of getKeyFromURL agree on every path. |
| KVServer.Handle | kvserver.go:17-51 | No key: status 400 and nothing else. GET: the value, with 404 if absent, and storage unchanged. POST with an empty form: delete, with 404 only if nothing was deleted. POST with `value`: set it. Other POST forms: 400 with storage unchanged. Other methods: no status and no change. |

## Left out

- Locking (`sync.Mutex` in kvstorage/storage.go): concurrency. Each public method is modelled as one atomic step.
- `time.Now()`: the clock is a parameter. `getSleepPeriod` reads the clock twice in Go; the model uses one `now` for both reads.
- The `select` loop of `Run` (channel receive, `time.After`, `go cleaner.Run()`): concurrency and timers. Only its guard and the helpers it calls each iteration are modelled.
- Router.GetKeyFromURL and KVServer.GetKeyFromURL: the length test and the slice count characters, where Go's `len(inps)` and `inps[5:]` count UTF-8 bytes. A path with a non-ASCII character among its first five positions gets a different key or verdict ("/ключ" gives ("юч", true) in Go and ("", false) here). `main` registers the handler at "/key/", so every path the server receives begins with five ASCII bytes, where the two counts agree. Router.HandleRequest and KVServer.Handle inherit this difference.
- Vacuum.ExpireTime and Vacuum.GetSleepPeriod: Go's `time.Unix` stores the stamp as seconds since year 1 (stamp + 62135596800) in an int64 without an overflow check, and `Time.Add` saturates near the top of that range. The model's instants are unbounded integers. For a stamp above 2^63 − 1 − 62135596800 Go's expiry wraps into the far past and getSleepPeriod returns 0, whereas the model computes a far-future expiry and a positive sleep. Stamps come from the clock, so such values do not arise in the running server.
- Vacuum.GetSleepPeriod and Vacuum.SleepFor: the `float64` arithmetic is replaced by integer nanosecond division (rounding down). The model does not capture float rounding, the result of dividing by ttlDelim = 0 (the model requires ttlDelim ≥ 1, which `Init` sets to 2), or a float too large for a `Duration`. The uint64 wrap of `ttl * time.Second` and the saturation of `Time.Sub` are modelled.
- Vacuum.Lifo.CleanUp: models the call made by `Run`, on the front node. The tests also pass a node that is not in the queue; `list.Remove` ignores such a node, and that case is not modelled.
- The older storage API used by vacuum/vacuum.go, router/router.go and kvserver.go is not in the source: it is replaced by stand-ins that carry only the meaning the call sites need. `KVStorage.Init(chan)` used by `main` is not part of this model.
- HTTP plumbing (`http.Request` parsing, `ParseForm`, `WriteHeader`, `fmt.Fprint`, `HandleFunc`, `ListenAndServe`): a request is (path, method, form) and a response is a value. A parsed form is assumed to list at least one value per field, as `ParseForm` does.
- `main` and `getCLIargs` in kvserver.go (flag parsing, start-up) and tools/client.go (a load generator): not part of the core.
