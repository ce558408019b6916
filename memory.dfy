/** MemoryStore: the KVStore backed by an in-process cache. The cache is a map
    from keys to values; expiry and eviction are not modelled, so every entry
    written stays until it is deleted or flushed. */
module Memory {
  import opened KvValues

  /** Nanoseconds in one second: Go's `time.Second` as a `time.Duration`. */
  const Second: int := 1_000_000_000

  const MinInt64: int := -0x8000_0000_0000_0000
  const MaxInt64: int := 0x7fff_ffff_ffff_ffff
  const TwoTo64: int := 0x1_0000_0000_0000_0000

  /** A `time.Duration` is a signed 64-bit count of nanoseconds. */
  predicate IsInt64(x: int) {
    MinInt64 <= x <= MaxInt64
  }

  /** Go's signed 64-bit arithmetic: the result is `x` modulo 2^64, read back in
      two's complement. */
  function Wrap64(x: int): (r: int)
    ensures IsInt64(r)
    ensures (x - r) % TwoTo64 == 0
    ensures IsInt64(x) ==> r == x
  {
    var m := x % TwoTo64;
    if m <= MaxInt64 then m else m - TwoTo64
  }

  /** `time.Duration(expiration) * time.Second`: the product wraps around when it
      leaves the int64 range. */
  function ScaleBySecond(d: int): (r: int)
    requires IsInt64(d)
    ensures IsInt64(r)
    // 9_223_372_036 is MaxInt64 / Second: the largest factor whose product fits.
    ensures -9_223_372_036 <= d <= 9_223_372_036 ==> r == d * 1_000_000_000
    ensures (d * 1_000_000_000 - r) % TwoTo64 == 0
  {
    Wrap64(d * 1_000_000_000)
  }

  /** A duration of one minute, passed as the expiration, is scaled a second time
      and wraps to about 147 years. */
  lemma ScaledMinuteWraps()
    ensures ScaleBySecond(60 * Second) == 4_659_767_778_871_345_152
    ensures ScaleBySecond(60 * Second) != 60 * Second * Second
  {
  }

  class MemoryStore {
    /** The cache's entries. */
    var cache: map<string, Value>
    /** The expiration duration handed to the cache with each key's last write. */
    var ttl: map<string, int>
    /** The per-write expiration, fixed at construction. */
    const expiration: int
    /** The default expiration the cache itself was created with. */
    const cacheDefault: int
    const cleanupInterval: int

    /** Every entry was written with some expiration. */
    ghost predicate Valid()
      reads this
    {
      ttl.Keys == cache.Keys
    }

    /** NewMemoryStore: the cache is built with the expiration as given, while
        the store keeps that expiration multiplied by one second. */
    constructor (expiration: int, cleanupInterval: int)
      requires IsInt64(expiration)
      ensures Valid()
      ensures cache == map[] && ttl == map[]
      ensures this.expiration == ScaleBySecond(expiration)
      ensures cacheDefault == expiration && this.cleanupInterval == cleanupInterval
    {
      cache, ttl := map[], map[];
      this.expiration := ScaleBySecond(expiration);
      cacheDefault := expiration;
      this.cleanupInterval := cleanupInterval;
    }

    /** The stored value, or nil when the key is absent; never an error. */
    method Get(key: string) returns (v: Value, err: Option<Error>)
      ensures err == None
      ensures key in cache ==> v == cache[key]
      ensures key !in cache ==> v == Atom(Nil)
    {
      v := if key in cache then cache[key] else Atom(Nil);
      err := None;
    }

    method Set(key: string, value: Value) returns (err: Option<Error>)
      requires Valid()
      modifies this
      ensures Valid() && err == None
      ensures cache == old(cache)[key := value]
      ensures ttl == old(ttl)[key := expiration]
    {
      cache, ttl := cache[key := value], ttl[key := expiration];
      err := None;
    }

    /** The map stored under the key, or nil when the key is absent; never an
        error. A value of another shape would make the source panic. */
    method GetMap(key: string) returns (m: Option<map<string, Scalar>>, err: Option<Error>)
      requires key in cache ==> cache[key].MapV?
      ensures err == None
      ensures m.Some? <==> key in cache
      ensures m.Some? ==> m.value == cache[key].entries
    {
      if key in cache {
        m := Some(cache[key].entries);
      } else {
        m := None;
      }
      err := None;
    }

    method SetMap(key: string, value: map<string, Scalar>) returns (err: Option<Error>)
      requires Valid()
      modifies this
      ensures Valid() && err == None
      ensures cache == old(cache)[key := MapV(value)]
      ensures ttl == old(ttl)[key := expiration]
    {
      cache, ttl := cache[key := MapV(value)], ttl[key := expiration];
      err := None;
    }

    /** The list stored under the key, or nil when the key is absent; never an
        error. A value of another shape would make the source panic. */
    method GetSlice(key: string) returns (s: Option<seq<Scalar>>, err: Option<Error>)
      requires key in cache ==> cache[key].ListV?
      ensures err == None
      ensures s.Some? <==> key in cache
      ensures s.Some? ==> s.value == cache[key].items
    {
      if key in cache {
        s := Some(cache[key].items);
      } else {
        s := None;
      }
      err := None;
    }

    method SetSlice(key: string, value: seq<Scalar>) returns (err: Option<Error>)
      requires Valid()
      modifies this
      ensures Valid() && err == None
      ensures cache == old(cache)[key := ListV(value)]
      ensures ttl == old(ttl)[key := expiration]
    {
      cache, ttl := cache[key := ListV(value)], ttl[key := expiration];
      err := None;
    }

    /** The cache's Replace: writes only a key that is already present. */
    method Replace(key: string, value: Value) returns (err: Option<Error>)
      requires Valid()
      modifies this
      ensures Valid()
      ensures key in old(cache) ==> err == None && cache == old(cache)[key := value] && ttl == old(ttl)[key := expiration]
      ensures key !in old(cache) ==> err == Some(ItemNotFound(key)) && cache == old(cache) && ttl == old(ttl)
    {
      if key in cache {
        cache, ttl := cache[key := value], ttl[key := expiration];
        err := None;
      } else {
        err := Some(ItemNotFound(key));
      }
    }

    /** Reads the list (absent reads as empty), appends the values in order and
        writes the result back with Replace, which fails on an absent key. */
    method AppendSlice(key: string, values: seq<Scalar>) returns (err: Option<Error>)
      requires Valid()
      requires key in cache ==> cache[key].ListV?
      modifies this
      ensures Valid()
      ensures key in old(cache) ==>
        && err == None
        && cache == old(cache)[key := ListV(old(cache)[key].items + values)]
        && ttl == old(ttl)[key := expiration]
      ensures key !in old(cache) ==>
        err == Some(ItemNotFound(key)) && cache == old(cache) && ttl == old(ttl)
    {
      // GetSlice never reports an error, so the source's check of it cannot fire.
      var current, _ := GetSlice(key);
      var items := if current.Some? then current.value else [];
      for i := 0 to |values|
        invariant items == (if current.Some? then current.value else []) + values[..i]
      {
        items := items + [values[i]];
      }
      assert values[..|values|] == values;
      err := Replace(key, ListV(items));
    }

    method Flush() returns (err: Option<Error>)
      requires Valid()
      modifies this
      ensures Valid() && err == None
      ensures cache == map[]
    {
      cache, ttl := map[], map[];
      err := None;
    }

    /** Removes the key; deleting an absent key is not an error. */
    method Delete(key: string) returns (err: Option<Error>)
      requires Valid()
      modifies this
      ensures Valid() && err == None
      ensures cache == old(cache) - {key}
      ensures ttl == old(ttl) - {key}
    {
      cache, ttl := cache - {key}, ttl - {key};
      err := None;
    }

    method Exists(key: string) returns (found: bool, err: Option<Error>)
      ensures err == None
      ensures found <==> key in cache
    {
      found := key in cache;
      err := None;
    }
  }

  /** Set then Exists and Get: the key is present and holds what was written. */
  method SetThenRead(store: MemoryStore, key: string, value: Value) returns (found: bool, got: Value)
    requires store.Valid()
    modifies store
    ensures found && got == value
    ensures key in store.ttl && store.ttl[key] == store.expiration
  {
    var _ := store.Set(key, value);
    var found0, _ := store.Exists(key);
    found := found0;
    var got0, _ := store.Get(key);
    got := got0;
  }

  /** SetMap then GetMap gives back exactly the map written. */
  method SetMapThenGetMap(store: MemoryStore, key: string, value: map<string, Scalar>)
    returns (got: Option<map<string, Scalar>>)
    requires store.Valid()
    modifies store
    ensures got == Some(value)
  {
    var _ := store.SetMap(key, value);
    var got0, _ := store.GetMap(key);
    got := got0;
  }

  /** SetSlice, AppendSlice, GetSlice: the list read back is the one written
      followed by the appended values, order and duplicates kept. */
  method SetAppendGetSlice(store: MemoryStore, key: string, first: seq<Scalar>, more: seq<Scalar>)
    returns (appendErr: Option<Error>, got: Option<seq<Scalar>>)
    requires store.Valid()
    modifies store
    ensures appendErr == None && got == Some(first + more)
  {
    var _ := store.SetSlice(key, first);
    appendErr := store.AppendSlice(key, more);
    var got0, _ := store.GetSlice(key);
    got := got0;
  }

  /** Delete then Exists: the key is gone and no other key changed. */
  method DeleteThenExists(store: MemoryStore, key: string) returns (found: bool)
    requires store.Valid()
    modifies store
    ensures !found
    ensures forall k :: k != key ==> (k in store.cache <==> k in old(store.cache))
    ensures forall k :: k != key && k in store.cache ==> store.cache[k] == old(store.cache[k])
  {
    var _ := store.Delete(key);
    var found0, _ := store.Exists(key);
    found := found0;
  }

  /** After Flush no key exists. */
  method FlushThenExists(store: MemoryStore, key: string) returns (found: bool)
    requires store.Valid()
    modifies store
    ensures !found
  {
    var _ := store.Flush();
    var found0, _ := store.Exists(key);
    found := found0;
  }
}
