/** RedisStore: the KVStore backed by a Redis client. Maps are kept as Redis
    hashes whose values are the text of the map's values; lists are kept as Redis
    sets, so order and duplicates are lost. Every backend error reaches the caller
    unchanged. */
module Redis {
  import opened KvValues
  import opened RedisBackend

  /** The members of a listing, each as a text scalar, in the listing's order. */
  function Texts(xs: seq<string>): (r: seq<Scalar>)
    ensures |r| == |xs|
    ensures forall i :: 0 <= i < |xs| ==> r[i] == Text(xs[i])
  {
    if xs == [] then [] else Texts(xs[..|xs| - 1]) + [Text(xs[|xs| - 1])]
  }

  /** The slice GetSlice builds from a listing of n members: `make` of length n
      leaves n nils in front, and the n appends come after them. */
  function Padded(xs: seq<string>): seq<Scalar> {
    seq(|xs|, _ => Nil) + Texts(xs)
  }

  /** A set holding the one member "a" reads back as [nil, "a"] rather than ["a"]. */
  lemma PaddedOneMember()
    ensures Padded(["a"]) == [Nil, Text("a")]
    ensures Padded(["a"]) != Texts(["a"])
  {
  }

  /** The members at `key` after a series of SADDs are the earlier members and
      the encodings of the non-nil values added. */
  lemma {:induction false} MembersAfterAddAll(ks: Keyspace, key: string, vs: seq<Scalar>, encode: Scalar -> string)
    requires SetCompatible(ks, key)
    ensures MembersAt(AddAll(ks, key, vs, encode), key) == MembersAt(ks, key) + Encoded(vs, encode)
  {
    AddAllAddsEncoded(ks, key, vs, encode);
  }

  /** The members contributed by a concatenation are those of its two parts. */
  lemma {:induction false} EncodedConcat(xs: seq<Scalar>, ys: seq<Scalar>, encode: Scalar -> string)
    ensures Encoded(xs + ys, encode) == Encoded(xs, encode) + Encoded(ys, encode)
    decreases |ys|
  {
    if ys != [] {
      var init := ys[..|ys| - 1];
      assert (xs + ys)[..|xs + ys| - 1] == xs + init;
      EncodedConcat(xs, init, encode);
    } else {
      assert xs + ys == xs;
    }
  }

  /** Two series of SADDs add the members of the concatenated series. */
  lemma AddAllTwice(ks: Keyspace, key: string, xs: seq<Scalar>, ys: seq<Scalar>, encode: Scalar -> string)
    requires SetCompatible(ks, key)
    ensures MembersAt(AddAll(AddAll(ks, key, xs, encode), key, ys, encode), key)
         == MembersAt(ks, key) + Encoded(xs + ys, encode)
  {
    MembersAfterAddAll(ks, key, xs, encode);
    MembersAfterAddAll(AddAll(ks, key, xs, encode), key, ys, encode);
    EncodedConcat(xs, ys, encode);
  }

  class RedisStore {
    const client: RedisClient
    /** The expiration every Set passes to Redis, fixed at construction. */
    const expiration: int
    /** How SetMap turns a map value into text (`conv.String`). */
    const toText: Scalar -> string

    constructor (client: RedisClient, expiration: int, toText: Scalar -> string)
      ensures this.client == client && this.expiration == expiration && this.toText == toText
    {
      this.client := client;
      this.expiration := expiration;
      this.toText := toText;
    }

    /** The string at `key`. A missing key is reported as Redis's nil reply. */
    method Get(key: string) returns (v: Scalar, err: Option<Error>)
      ensures err.Some? ==> v == Nil
      ensures err.None? ==> key in client.keyspace && client.keyspace[key].Str?
      ensures err.None? ==> v == Text(client.keyspace[key].s)
      ensures key !in client.keyspace ==> err.Some? && (err.value.RedisNil? || err.value.Transport?)
    {
      v, err := client.ProcessGet(key);
    }

    /** Writes the value under `key` with the store's expiration. */
    method Set(key: string, value: Scalar) returns (err: Option<Error>)
      requires client.Valid()
      modifies client
      ensures client.Valid()
      ensures err.Some? ==> client.keyspace == old(client.keyspace) && client.ttl == old(client.ttl)
      ensures err.None? ==> client.keyspace == old(client.keyspace)[key := Str(client.encode(value))]
      ensures err.None? ==>
        client.ttl == if expiration > 0 then old(client.ttl)[key := expiration] else old(client.ttl) - {key}
    {
      err := client.Set(key, value, expiration);
    }

    /** The hash at `key` as a map of text values; nil when the hash is empty or
        absent. */
    method GetMap(key: string) returns (r: Option<map<string, Scalar>>, err: Option<Error>)
      ensures err.Some? ==> r == None
      ensures !HashCompatible(client.keyspace, key) ==> err.Some?
      ensures err.None? ==> (r == None <==> HashAt(client.keyspace, key) == map[])
      ensures r.Some? ==> r.value.Keys == HashAt(client.keyspace, key).Keys
      ensures r.Some? ==> forall f :: f in r.value ==> r.value[f] == Text(HashAt(client.keyspace, key)[f])
    {
      var values;
      values, err := client.HGetAll(key);
      if err.Some? {
        return None, err;
      }
      if |values| == 0 {
        return None, None;
      }
      var newValues := map[];
      var pending := values.Keys;
      while pending != {}
        invariant pending <= values.Keys
        invariant newValues.Keys == values.Keys - pending
        invariant forall f :: f in newValues ==> newValues[f] == Text(values[f])
        decreases pending
      {
        var f :| f in pending;
        newValues := newValues[f := Text(values[f])];
        pending := pending - {f};
      }
      r := Some(newValues);
    }

    /** Sends HMSET with every value turned into text. HMSET keeps the fields it
        is not given, and Redis refuses it when there are no fields at all. */
    method SetMap(key: string, values: map<string, Scalar>) returns (err: Option<Error>)
      requires client.Valid()
      modifies client
      ensures client.Valid() && client.ttl == old(client.ttl)
      ensures err.Some? ==> client.keyspace == old(client.keyspace)
      ensures values == map[] || !HashCompatible(old(client.keyspace), key) ==> err.Some?
      ensures err.None? ==> client.keyspace == old(client.keyspace)[key :=
        Hash(HashAt(old(client.keyspace), key) + map f | f in values :: toText(values[f]))]
    {
      var newValues := map[];
      var pending := values.Keys;
      while pending != {}
        invariant pending <= values.Keys
        invariant newValues.Keys == values.Keys - pending
        invariant forall f :: f in newValues ==> newValues[f] == toText(values[f])
        decreases pending
      {
        var f :| f in pending;
        newValues := newValues[f := toText(values[f])];
        pending := pending - {f};
      }
      assert newValues == map f | f in values :: toText(values[f]);
      err := client.HMSet(key, newValues);
    }

    /** The set at `key` as a slice, as the source builds it: for n > 0 members,
        n nils followed by the n members. Nil when the set is empty or absent. */
    method GetSlice(key: string) returns (r: Option<seq<Scalar>>, err: Option<Error>)
      ensures err.Some? ==> r == None
      ensures !SetCompatible(client.keyspace, key) ==> err.Some?
      ensures err.None? ==> (r == None <==> MembersAt(client.keyspace, key) == {})
      ensures r.Some? ==> exists xs :: Listing(xs, MembersAt(client.keyspace, key)) && r.value == Padded(xs)
      ensures r.Some? ==> |r.value| == 2 * |MembersAt(client.keyspace, key)|
      ensures r.Some? ==> forall i :: 0 <= i < |MembersAt(client.keyspace, key)| ==> r.value[i] == Nil
    {
      var values;
      values, err := client.SMembers(key);
      if err.Some? {
        return None, err;
      }
      ListingLength(values, MembersAt(client.keyspace, key));
      if |values| == 0 {
        return None, None;
      }
      var newValues := seq(|values|, _ => Nil);
      for i := 0 to |values|
        invariant newValues == seq(|values|, _ => Nil) + Texts(values[..i])
      {
        assert values[..i + 1][..i] == values[..i];
        newValues := newValues + [Text(values[i])];
      }
      assert values[..|values|] == values;
      r := Some(newValues);
    }

    /** GetSlice as evidently intended (`make` with length 0 and capacity n): the
        members once each, as text, with no nils. */
    method GetSliceIntended(key: string) returns (r: Option<seq<Scalar>>, err: Option<Error>)
      ensures err.Some? ==> r == None
      ensures !SetCompatible(client.keyspace, key) ==> err.Some?
      ensures err.None? ==> (r == None <==> MembersAt(client.keyspace, key) == {})
      ensures r.Some? ==> exists xs :: Listing(xs, MembersAt(client.keyspace, key)) && r.value == Texts(xs)
      ensures r.Some? ==> |r.value| == |MembersAt(client.keyspace, key)|
    {
      var values;
      values, err := client.SMembers(key);
      if err.Some? {
        return None, err;
      }
      ListingLength(values, MembersAt(client.keyspace, key));
      if |values| == 0 {
        return None, None;
      }
      var newValues := [];
      for i := 0 to |values|
        invariant newValues == Texts(values[..i])
      {
        assert values[..i + 1][..i] == values[..i];
        newValues := newValues + [Text(values[i])];
      }
      assert values[..|values|] == values;
      r := Some(newValues);
    }

    /** Adds the non-nil values to the set at `key` one SADD at a time. The first
        failing SADD ends the call with its error, and the members added before
        it stay. */
    method SetSlice(key: string, values: seq<Scalar>) returns (err: Option<Error>)
      requires client.Valid()
      modifies client
      ensures client.Valid() && client.ttl == old(client.ttl)
      ensures SetCompatible(old(client.keyspace), key) && err.None? ==>
        client.keyspace == AddAll(old(client.keyspace), key, values, client.encode)
      ensures SetCompatible(old(client.keyspace), key) && err.Some? ==>
        && err.value.Transport?
        && exists i :: 0 <= i < |values| && values[i] != Nil &&
             client.keyspace == AddAll(old(client.keyspace), key, values[..i], client.encode)
      ensures !SetCompatible(old(client.keyspace), key) ==>
        client.keyspace == old(client.keyspace) && (err.None? <==> Encoded(values, client.encode) == {})
    {
      ghost var start := client.keyspace;
      for i := 0 to |values|
        invariant client.Valid() && client.ttl == old(client.ttl)
        invariant SetCompatible(start, key) ==> client.keyspace == AddAll(start, key, values[..i], client.encode)
        invariant !SetCompatible(start, key) ==>
          client.keyspace == start && Encoded(values[..i], client.encode) == {}
      {
        assert values[..i + 1][..i] == values[..i];
        var v := values[i];
        if v != Nil {
          var e := client.SAdd(key, v);
          if e.Some? {
            if !SetCompatible(start, key) {
              assert client.encode(v) in Encoded(values, client.encode) by {
                EncodedConcat(values[..i + 1], values[i + 1..], client.encode);
                assert values[..i + 1] + values[i + 1..] == values;
              }
            }
            return e;
          }
        }
      }
      assert values[..|values|] == values;
      err := None;
    }

    /** Identical to SetSlice: the values are added to the set at `key`. */
    method AppendSlice(key: string, values: seq<Scalar>) returns (err: Option<Error>)
      requires client.Valid()
      modifies client
      ensures client.Valid() && client.ttl == old(client.ttl)
      ensures SetCompatible(old(client.keyspace), key) && err.None? ==>
        client.keyspace == AddAll(old(client.keyspace), key, values, client.encode)
      ensures SetCompatible(old(client.keyspace), key) && err.Some? ==>
        && err.value.Transport?
        && exists i :: 0 <= i < |values| && values[i] != Nil &&
             client.keyspace == AddAll(old(client.keyspace), key, values[..i], client.encode)
      ensures !SetCompatible(old(client.keyspace), key) ==>
        client.keyspace == old(client.keyspace) && (err.None? <==> Encoded(values, client.encode) == {})
    {
      err := SetSlice(key, values);
    }

    method Exists(key: string) returns (found: bool, err: Option<Error>)
      ensures err.None? ==> (found <==> key in client.keyspace)
      ensures err.Some? ==> !found
    {
      found, err := client.Exists(key);
    }

    /** DEL: removing an absent key is not an error. */
    method Delete(key: string) returns (err: Option<Error>)
      requires client.Valid()
      modifies client
      ensures client.Valid()
      ensures err.Some? ==> client.keyspace == old(client.keyspace) && client.ttl == old(client.ttl)
      ensures err.None? ==> client.keyspace == old(client.keyspace) - {key}
      ensures err.None? ==> client.ttl == old(client.ttl) - {key}
    {
      err := client.Del(key);
    }

    /** FLUSHDB: empties the current database. */
    method Flush() returns (err: Option<Error>)
      requires client.Valid()
      modifies client
      ensures client.Valid()
      ensures err.Some? ==> client.keyspace == old(client.keyspace) && client.ttl == old(client.ttl)
      ensures err.None? ==> client.keyspace == map[]
    {
      err := client.FlushDb();
    }
  }

  /** Set then Exists: when both commands go through, the key exists. */
  method SetThenExists(store: RedisStore, key: string, value: Scalar)
    returns (setErr: Option<Error>, found: bool, existsErr: Option<Error>)
    requires store.client.Valid()
    modifies store.client
    ensures setErr.None? && existsErr.None? ==> found
  {
    setErr := store.Set(key, value);
    found, existsErr := store.Exists(key);
  }

  /** Delete then Exists: when both commands go through, the key is gone. */
  method DeleteThenExists(store: RedisStore, key: string)
    returns (deleteErr: Option<Error>, found: bool, existsErr: Option<Error>)
    requires store.client.Valid()
    modifies store.client
    ensures deleteErr.None? ==> existsErr.Some? || !found
  {
    deleteErr := store.Delete(key);
    found, existsErr := store.Exists(key);
  }

  /** Flush then Exists: when both commands go through, no key exists. */
  method FlushThenExists(store: RedisStore, key: string)
    returns (flushErr: Option<Error>, found: bool, existsErr: Option<Error>)
    requires store.client.Valid()
    modifies store.client
    ensures flushErr.None? ==> existsErr.Some? || !found
  {
    flushErr := store.Flush();
    found, existsErr := store.Exists(key);
  }

  /** SetSlice then the source's GetSlice on a fresh key: when the values hold
      n > 0 distinct non-nil encodings, the slice read back has 2n entries, the
      first n of them nil. */
  method SetSliceThenGetSlice(store: RedisStore, key: string, values: seq<Scalar>)
    returns (setErr: Option<Error>, got: Option<seq<Scalar>>, getErr: Option<Error>)
    requires store.client.Valid() && key !in store.client.keyspace
    modifies store.client
    ensures setErr.None? && getErr.None? ==>
      var n := |Encoded(values, store.client.encode)|;
      && (got.None? <==> n == 0)
      && (got.Some? ==> |got.value| == 2 * n && forall i :: 0 <= i < n ==> got.value[i] == Nil)
  {
    ghost var start := store.client.keyspace;
    setErr := store.SetSlice(key, values);
    got, getErr := store.GetSlice(key);
    if setErr.None? && getErr.None? {
      MembersAfterAddAll(start, key, values, store.client.encode);
    }
  }

  /** SetMap then GetMap on a fresh key: the map comes back with the same keys
      and each value turned into text. */
  method SetMapThenGetMap(store: RedisStore, key: string, values: map<string, Scalar>)
    returns (setErr: Option<Error>, got: Option<map<string, Scalar>>, getErr: Option<Error>)
    requires store.client.Valid() && key !in store.client.keyspace
    modifies store.client
    ensures values == map[] ==> setErr.Some?
    ensures setErr.None? && getErr.None? ==>
      got == Some(map f | f in values :: Text(store.toText(values[f])))
  {
    setErr := store.SetMap(key, values);
    got, getErr := store.GetMap(key);
    if setErr.None? && getErr.None? {
      var h := map f | f in values :: store.toText(values[f]);
      assert HashAt(store.client.keyspace, key) == h;
      assert got.Some?;
      assert got.value == map f | f in values :: Text(store.toText(values[f]));
    }
  }

  /** SetSlice, AppendSlice, then the intended GetSlice: the set read back holds
      the earlier members and every non-nil value written, each once. */
  method SetAppendGetSlice(store: RedisStore, key: string, first: seq<Scalar>, more: seq<Scalar>)
    returns (ok: bool, got: Option<seq<Scalar>>)
    requires store.client.Valid() && SetCompatible(store.client.keyspace, key)
    modifies store.client
    ensures ok ==>
      var all := MembersAt(old(store.client.keyspace), key) + Encoded(first + more, store.client.encode);
      && (got.None? <==> all == {})
      && (got.Some? ==> exists xs :: Listing(xs, all) && got.value == Texts(xs))
  {
    ghost var start := store.client.keyspace;
    ghost var enc := store.client.encode;
    var setErr := store.SetSlice(key, first);
    ghost var mid := store.client.keyspace;
    var appendErr := store.AppendSlice(key, more);
    ghost var last := store.client.keyspace;
    var getErr;
    got, getErr := store.GetSliceIntended(key);
    ok := setErr.None? && appendErr.None? && getErr.None?;
    if ok {
      AddAllTwice(start, key, first, more, enc);
    }
  }
}
