# gokvstores in Dafny

A model of the two KVStore backends of gokvstores and of the translation each
one performs between the store's uniform value model (scalars, string-keyed
maps, ordered lists) and its backend.

- `kv_values.dfy` (module `KvValues`): the uniform value model. A `Scalar` is
  Go's `interface{}` holding nil, text, an integer or a boolean; a `Value` is a
  scalar, a map of scalars or a list of scalars; `Option.None` is a nil map or
  slice result; `Error` lists the errors the stores pass on.
- `memory.dfy` (module `Memory`): `MemoryStore`, a class whose `cache` field is
  the in-process cache as a `map<string, Value>`, with a `ttl` field recording
  the duration each write handed to the cache. The constructor models
  `NewMemoryStore`, including the signed 64-bit arithmetic of
  `time.Duration(expiration) * time.Second`.
- `redis_backend.dfy` (module `RedisBackend`): the Redis client as a class over
  a mutable keyspace of strings, hashes and sets, with one method per command
  the store issues (EXISTS, GET, SET, HGETALL, HMSET, SMEMBERS, SADD, DEL,
  FLUSHDB). Each command may fail for a reason outside the model (network,
  server); that failure is chosen nondeterministically and leaves the keyspace
  as it was. The server's own refusals are modelled: WRONGTYPE on a key of the
  wrong kind, the nil reply of GET on a missing key, HMSET without fields.
  Functions over the keyspace (`AddAll`, `Encoded`, `Listing`) specify the
  member-by-member writes and the order-free reads.
- `redis.dfy` (module `Redis`): `RedisStore`, a class over a `RedisClient`,
  with `conv.String` as the uninterpreted function `toText` and the client's
  argument encoding as the uninterpreted function `encode`.

`memory.dfy` and `redis.dfy` end with client methods that chain store calls (Set then Exists,
SetMap then GetMap, SetSlice then GetSlice, SetSlice then AppendSlice then
GetSlice, Delete or Flush then Exists) and prove what the caller observes.

Three behaviours of the code are worth stating:

- RedisStore.Get on a missing key returns the Redis client's nil-reply error,
  unlike MemoryStore.Get, which returns nil and no error: `Process` hands back
  the command's error.
- RedisStore.SetMap does not overwrite the value at the key: HMSET sets the
  given fields and keeps the hash's other fields, fails on a key holding a
  string or a set, and fails when the map is empty.
- NewMemoryStore multiplies the expiration, already a `time.Duration`, by one
  second for the store's per-write expiration, while the cache is created with
  the unscaled value.

## Model

| member | source | states |
|---|---|---|
| `Memory.ScaleBySecond` | memory.go:99 | the store's expiration is the int64 product of the argument and one second: exact when it fits in 64 bits, otherwise congruent to it modulo 2^64 and still in range |
| `Memory.ScaledMinuteWraps` | memory.go:96-99 | a one-minute duration passed to the constructor is scaled a second time and wraps to 4659767778871345152 ns (about 147 years) |
| `Memory.MemoryStore.constructor` | memory.go:96-102 | the cache starts empty; the per-write expiration is the argument times one second, while the cache's default expiration and the cleanup interval are the arguments as given |
| `Memory.MemoryStore.Get` | memory.go:17-20 | returns the stored value, or nil for an absent key, and never an error |
| `Memory.MemoryStore.Set` | memory.go:23-26 | stores the value under the key with the store's expiration, changes no other key, returns no error |
| `Memory.MemoryStore.GetMap` | memory.go:29-34 | returns exactly the stored map when the key is present and nil when absent, never an error; a value of another shape is excluded by the precondition (the source panics) |
| `Memory.MemoryStore.SetMap` | memory.go:37-40 | stores the map under the key with the store's expiration, changes no other key, returns no error |
| `Memory.MemoryStore.GetSlice` | memory.go:43-48 | returns exactly the stored list when the key is present and nil when absent, never an error; a value of another shape is excluded by the precondition (the source panics) |
| `Memory.MemoryStore.SetSlice` | memory.go:51-54 | stores the list under the key with the store's expiration, changes no other key, returns no error |
| `Memory.MemoryStore.Replace` | memory.go:67 | the cache's replace writes a present key and reports ItemNotFound, changing nothing, for an absent one |
| `Memory.MemoryStore.AppendSlice` | memory.go:57-67 | on a key holding list s it stores s followed by the values in order and returns nil; on an absent key it returns ItemNotFound and leaves the cache unchanged; no other key changes |
| `Memory.MemoryStore.Flush` | memory.go:76-79 | empties the cache and returns no error |
| `Memory.MemoryStore.Delete` | memory.go:82-85 | removes the key, leaves every other key as it was, returns no error even for an absent key |
| `Memory.MemoryStore.Exists` | memory.go:88-93 | true exactly when the key is in the cache, never an error |
| `Memory.SetThenRead` | memory.go:17-26 | after Set(k, v), Exists(k) is true and Get(k) returns v, written with the store's expiration |
| `Memory.SetMapThenGetMap` | memory.go:29-40 | after SetMap(k, m), GetMap(k) returns exactly m |
| `Memory.SetAppendGetSlice` | memory.go:43-67 | after SetSlice(k, s) and AppendSlice(k, vs), AppendSlice returns nil and GetSlice(k) returns s followed by vs, order and duplicates kept |
| `Memory.DeleteThenExists` | memory.go:82-93 | after Delete(k), Exists(k) is false and every other key holds what it held |
| `Memory.FlushThenExists` | memory.go:76-93 | after Flush, Exists is false for any key |
| `RedisBackend.AddAllAddsEncoded` | redis.go:141-151 | SADDing each non-nil value in turn adds exactly their encodings to the set at the key and changes no other key; with only nil values nothing changes |
| `RedisBackend.AddAllIdempotent` | redis.go:153-156 | adding the same values a second time leaves the keyspace unchanged, so re-adding an existing member is harmless |
| `RedisBackend.AddAllWellFormed` | redis.go:141-151 | member-by-member writes never leave an empty hash or set in the keyspace |
| `RedisBackend.ListingLength` | redis.go:123-128 | a duplicate-free listing of a set's members has one entry per member, so SMEMBERS' reply length is the set's size |
| `RedisBackend.RedisClient.Exists` | redis.go:18 | on success reports whether the key is in the keyspace; on failure reports false |
| `RedisBackend.RedisClient.ProcessGet` | redis.go:22 | on success returns the string at the key; a missing key gives the nil-reply error and a key of another kind a WRONGTYPE error or a transport failure |
| `RedisBackend.RedisClient.Set` | redis.go:24 | on success the key holds the encoded value, with the given expiration as its time to live when positive and none otherwise; on failure nothing changes |
| `RedisBackend.RedisClient.HGetAll` | redis.go:25 | on success returns the hash at the key, empty for an absent key; a key of another kind always fails |
| `RedisBackend.RedisClient.HMSet` | redis.go:26 | on success merges the given fields into the hash at the key; no fields or a key of another kind always fail; on failure nothing changes |
| `RedisBackend.RedisClient.SMembers` | redis.go:27 | on success returns every member of the set at the key exactly once, in some order; a key of another kind always fails |
| `RedisBackend.RedisClient.SAdd` | redis.go:28 | on success adds the encoded member to the set at the key; a key of another kind always fails; on failure nothing changes |
| `RedisBackend.RedisClient.Del` | redis.go:19 | on success removes the key and its time to live, absent or not; on failure nothing changes |
| `RedisBackend.RedisClient.FlushDb` | redis.go:20 | on success empties the keyspace; on failure nothing changes |
| `Redis.PaddedOneMember` | redis.go:132-135 | a set holding the one member "a" is read back by the source's GetSlice as [nil, "a"], not ["a"] |
| `Redis.MembersAfterAddAll` | redis.go:141-151 | after SetSlice succeeds the set at the key is the old set plus the encodings of the non-nil values |
| `Redis.RedisStore.constructor` | redis.go:204-207 | the store keeps its client and its fixed expiration |
| `Redis.RedisStore.Get` | redis.go:76-84 | on success returns the string at the key; on error returns nil with the backend error; a missing key always errors |
| `Redis.RedisStore.Set` | redis.go:87-89 | writes the encoded value under the key with the store's fixed expiration and returns the backend error unchanged; on error nothing changes |
| `Redis.RedisStore.GetMap` | redis.go:92-108 | returns nil with the backend error on failure; nil and no error when the hash is absent or empty; otherwise a map with the hash's key set and each field's string value |
| `Redis.RedisStore.SetMap` | redis.go:111-119 | sends HMSET with exactly the map's keys, each value turned into text by conv.String, and returns the backend error; an empty map always errors |
| `Redis.RedisStore.GetSlice` | redis.go:122-138 | returns nil with the backend error on failure and nil for an absent set; for n > 0 members returns 2n entries, the first n nil and the rest the members once each |
| `Redis.RedisStore.GetSliceIntended` | redis.go:122-138 | the corrected read: for n > 0 members returns exactly n entries, the members once each as text |
| `Redis.RedisStore.SetSlice` | redis.go:141-151 | skips nils and SADDs each other value; on success the set gains exactly their encodings; on the first failing SADD returns its error, keeping the members added before it with no rollback |
| `Redis.RedisStore.AppendSlice` | redis.go:154-156 | has exactly the effect and result of SetSlice |
| `Redis.RedisStore.Exists` | redis.go:159-162 | on success reports whether the key exists; on error reports false with the error |
| `Redis.RedisStore.Delete` | redis.go:165-167 | on success the key and its time to live are gone and every other key and time to live is kept; otherwise the backend error is returned and nothing changes |
| `Redis.RedisStore.Flush` | redis.go:170-172 | on success the database is empty; otherwise the backend error is returned and nothing changes |
| `Redis.SetThenExists` | redis.go:86-162 | after a successful Set(k, v), a successful Exists(k) is true |
| `Redis.FlushThenExists` | redis.go:158-172 | after a successful Flush, Exists(k) is false or fails, for any key |
| `Redis.SetSliceThenGetSlice` | redis.go:121-151 | on a fresh key, SetSlice(k, vs) then the source's GetSlice(k) returns nil when vs has no non-nil value, and otherwise 2n entries for the n distinct non-nil encodings, the first n of them nil |
| `Redis.DeleteThenExists` | redis.go:158-167 | after a successful Delete(k), Exists(k) is false or fails |
| `Redis.SetMapThenGetMap` | redis.go:91-119 | on a fresh key, SetMap(k, m) then GetMap(k) returns m with every value turned into text; SetMap of an empty map fails |
| `Redis.SetAppendGetSlice` | redis.go:121-156 | SetSlice, AppendSlice and the corrected GetSlice read back each earlier member and each non-nil value written exactly once |

## Findings

| source | as written | input that shows it | evidently intended | confidence | as-written member | corrected member |
|---|---|---|---|---|---|---|
| redis.go:132-135 | `make([]interface{}, len(values))` creates n nil entries and the loop appends the n members after them | a set holding the one member "a": GetSlice returns [nil, "a"] | `make([]interface{}, 0, len(values))`, giving ["a"] | high; not executed | `Redis.RedisStore.GetSlice`, `Redis.PaddedOneMember` | `Redis.RedisStore.GetSliceIntended` |

## Left out

- NewRedisClientStore and NewRedisClusterStore: copying the option structs, building the client and the connectivity ping are connection setup against a library outside the model; the store's constructor only records the client and the expiration.
- The option structs, the wire protocol, and `Process` with commands other than GET.
- Close on both stores: a no-op for the memory store and a connection release for Redis.
- Expiry, eviction and the cleanup goroutine of the in-process cache, and Redis key expiry: time is not modelled, so the `ttl` fields record the duration each write requested and entries never expire. The cache's rule that a zero duration means its own default is not modelled either.
- Concurrency, including the lost update between concurrent MemoryStore.AppendSlice calls: every call is modelled as running alone.
- The internals of `conv.String` and of the Redis client's argument encoding: both are functions the model does not interpret.
- Memory.MemoryStore.GetMap and Memory.MemoryStore.GetSlice: the source's panic on a value of the wrong shape is a precondition, not a modelled fault.
- Memory.MemoryStore.AppendSlice: its requires excludes a non-list value, on which the source's GetSlice panics.
- Redis.RedisStore.Set: only scalar values are modelled; the Redis client refusing a map or slice value is not.
- MemoryStore keeps maps and slices by reference: the cache stores the `interface{}` it is given, GetMap and GetSlice hand out the cached map or slice itself, and AppendSlice's `append` may write into a backing array shared with an earlier GetSlice result. The model stores and returns values, so changes made through such aliases are not captured.
- Go's distinction between a nil and an empty map or slice argument: arguments are modelled as empty collections.
- A backend command that fails after reaching the server: every failure is modelled as leaving the keyspace unchanged.
- Scalars are nil, text, integers and booleans; floating point and other Go types are not modelled.
