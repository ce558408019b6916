/** The Redis client a RedisStore talks to, seen as a keyspace that its commands
    read and change. Only the commands the store issues are modelled. Any of them
    may fail for reasons the store cannot see (network, server); such a failure
    is chosen nondeterministically and leaves the keyspace as it was. */
module RedisBackend {
  import opened KvValues

  /** A Redis value: a string, a hash of fields to strings, or a set of members. */
  datatype RVal = Str(s: string) | Hash(fields: map<string, string>) | SetV(members: set<string>)

  type Keyspace = map<string, RVal>

  /** Redis removes a hash or a set when its last field or member goes. */
  predicate NonEmpty(v: RVal) {
    match v
    case Str(_) => true
    case Hash(fields) => fields != map[]
    case SetV(members) => members != {}
  }

  ghost predicate WellFormed(ks: Keyspace) {
    forall k :: k in ks ==> NonEmpty(ks[k])
  }

  /** The hash at `key`, empty when the key is absent. */
  function HashAt(ks: Keyspace, key: string): map<string, string> {
    if key in ks && ks[key].Hash? then ks[key].fields else map[]
  }

  /** The set at `key`, empty when the key is absent. */
  function MembersAt(ks: Keyspace, key: string): set<string> {
    if key in ks && ks[key].SetV? then ks[key].members else {}
  }

  /** Set commands succeed on `key` only when it is absent or holds a set. */
  predicate SetCompatible(ks: Keyspace, key: string) {
    key in ks ==> ks[key].SetV?
  }

  /** Hash commands succeed on `key` only when it is absent or holds a hash. */
  predicate HashCompatible(ks: Keyspace, key: string) {
    key in ks ==> ks[key].Hash?
  }

  /** The members a sequence of values adds: the encoding of each non-nil one. */
  function Encoded(vs: seq<Scalar>, encode: Scalar -> string): set<string>
    decreases |vs|
  {
    if vs == [] then {}
    else
      var last := vs[|vs| - 1];
      Encoded(vs[..|vs| - 1], encode) + (if last == Nil then {} else {encode(last)})
  }

  /** The keyspace after SADD of one member. */
  function AddMember(ks: Keyspace, key: string, member: string): Keyspace
    requires SetCompatible(ks, key)
  {
    ks[key := SetV(MembersAt(ks, key) + {member})]
  }

  /** The keyspace after one SADD per non-nil value, in order. */
  function AddAll(ks: Keyspace, key: string, vs: seq<Scalar>, encode: Scalar -> string): (r: Keyspace)
    requires SetCompatible(ks, key)
    ensures SetCompatible(r, key)
    decreases |vs|
  {
    if vs == [] then ks
    else
      var before := AddAll(ks, key, vs[..|vs| - 1], encode);
      var last := vs[|vs| - 1];
      if last == Nil then before else AddMember(before, key, encode(last))
  }

  /** Adding values one member at a time adds exactly their non-nil encodings to
      the set at `key` and changes no other key; when every value is nil the
      keyspace is left as it was. */
  lemma {:induction false} AddAllAddsEncoded(ks: Keyspace, key: string, vs: seq<Scalar>, encode: Scalar -> string)
    requires SetCompatible(ks, key)
    ensures AddAll(ks, key, vs, encode) ==
      if Encoded(vs, encode) == {} then ks
      else ks[key := SetV(MembersAt(ks, key) + Encoded(vs, encode))]
    decreases |vs|
  {
    if vs != [] {
      var init, last := vs[..|vs| - 1], vs[|vs| - 1];
      AddAllAddsEncoded(ks, key, init, encode);
      var before := AddAll(ks, key, init, encode);
      if last == Nil {
        assert Encoded(vs, encode) == Encoded(init, encode);
        assert AddAll(ks, key, vs, encode) == before;
      } else {
        var all := MembersAt(ks, key) + Encoded(vs, encode);
        assert Encoded(vs, encode) == Encoded(init, encode) + {encode(last)};
        assert MembersAt(before, key) + {encode(last)} == all;
        assert AddAll(ks, key, vs, encode) == before[key := SetV(all)];
        assert before[key := SetV(all)] == ks[key := SetV(all)];
      }
    }
  }

  /** Re-adding the same values leaves the set unchanged. */
  lemma AddAllIdempotent(ks: Keyspace, key: string, vs: seq<Scalar>, encode: Scalar -> string)
    requires SetCompatible(ks, key)
    ensures AddAll(AddAll(ks, key, vs, encode), key, vs, encode) == AddAll(ks, key, vs, encode)
  {
    var once := AddAll(ks, key, vs, encode);
    AddAllAddsEncoded(ks, key, vs, encode);
    AddAllAddsEncoded(once, key, vs, encode);
  }

  /** Adding members keeps a well-formed keyspace well-formed. */
  lemma {:induction false} AddAllWellFormed(ks: Keyspace, key: string, vs: seq<Scalar>, encode: Scalar -> string)
    requires SetCompatible(ks, key) && WellFormed(ks)
    ensures WellFormed(AddAll(ks, key, vs, encode))
  {
    AddAllAddsEncoded(ks, key, vs, encode);
  }

  predicate NoDuplicates(xs: seq<string>) {
    forall i, j :: 0 <= i < j < |xs| ==> xs[i] != xs[j]
  }

  /** `xs` lists the members of `s`, each once, in some order. */
  predicate Listing(xs: seq<string>, s: set<string>) {
    && NoDuplicates(xs)
    && (forall x :: x in xs ==> x in s)
    && (forall x :: x in s ==> x in xs)
  }

  /** A listing has one entry per member. */
  lemma {:induction false} ListingLength(xs: seq<string>, s: set<string>)
    requires Listing(xs, s)
    ensures |xs| == |s|
    decreases |xs|
  {
    if xs != [] {
      var last := xs[|xs| - 1];
      var init := xs[..|xs| - 1];
      forall x ensures x in init <==> x in s - {last} {
        if x in init {
          var i :| 0 <= i < |init| && init[i] == x;
          assert xs[i] == x && xs[|xs| - 1] == last;
        }
        if x in s - {last} {
          assert x in xs;
          var i :| 0 <= i < |xs| && xs[i] == x;
          assert i != |xs| - 1;
          assert init[i] == x;
        }
      }
      ListingLength(init, s - {last});
    }
  }

  class RedisClient {
    var keyspace: Keyspace
    /** The time to live set on each key that has one. */
    var ttl: map<string, int>
    /** How the client writes a scalar argument on the wire. */
    const encode: Scalar -> string

    ghost predicate Valid()
      reads this
    {
      WellFormed(keyspace) && ttl.Keys <= keyspace.Keys
    }

    constructor (encode: Scalar -> string)
      ensures Valid() && keyspace == map[] && ttl == map[] && this.encode == encode
    {
      keyspace, ttl := map[], map[];
      this.encode := encode;
    }

    /** Whether the command reached the server: a failure for reasons outside
        the model, or none. */
    method Outcome() returns (err: Option<Error>)
      ensures err.Some? ==> err.value.Transport?
    {
      var fails: bool :| true;
      if fails {
        var code: nat :| true;
        err := Some(Transport(code));
      } else {
        err := None;
      }
    }

    /** EXISTS key. */
    method Exists(key: string) returns (found: bool, err: Option<Error>)
      ensures err.None? ==> (found <==> key in keyspace)
      ensures err.Some? ==> !found && err.value.Transport?
    {
      err := Outcome();
      found := err.None? && key in keyspace;
    }

    /** GET key, issued as a generic command: a missing key is the nil reply. */
    method ProcessGet(key: string) returns (v: Scalar, err: Option<Error>)
      ensures err.Some? ==> v == Nil
      ensures err.None? ==> key in keyspace && keyspace[key].Str? && v == Text(keyspace[key].s)
      ensures key !in keyspace ==> err.Some? && (err.value.RedisNil? || err.value.Transport?)
      ensures key in keyspace && !keyspace[key].Str? ==> err.Some? && (err.value.WrongType? || err.value.Transport?)
    {
      err := Outcome();
      if err.Some? {
        v := Nil;
      } else if key !in keyspace {
        v, err := Nil, Some(RedisNil);
      } else if !keyspace[key].Str? {
        v, err := Nil, Some(WrongType);
      } else {
        v := Text(keyspace[key].s);
      }
    }

    /** SET key value, with an expiry when `expiration` is positive. A SET
        without one clears any earlier time to live. */
    method Set(key: string, value: Scalar, expiration: int) returns (err: Option<Error>)
      requires Valid()
      modifies this
      ensures Valid()
      ensures err.Some? ==> err.value.Transport? && keyspace == old(keyspace) && ttl == old(ttl)
      ensures err.None? ==> keyspace == old(keyspace)[key := Str(encode(value))]
      ensures err.None? ==> ttl == if expiration > 0 then old(ttl)[key := expiration] else old(ttl) - {key}
    {
      err := Outcome();
      if err.None? {
        keyspace := keyspace[key := Str(encode(value))];
        ttl := if expiration > 0 then ttl[key := expiration] else ttl - {key};
      }
    }

    /** HGETALL key: the fields of the hash, none when the key is absent. */
    method HGetAll(key: string) returns (fields: map<string, string>, err: Option<Error>)
      ensures err.Some? ==> fields == map[]
      ensures err.None? ==> HashCompatible(keyspace, key) && fields == HashAt(keyspace, key)
      ensures !HashCompatible(keyspace, key) ==> err.Some?
    {
      err := Outcome();
      if err.Some? {
        fields := map[];
      } else if !HashCompatible(keyspace, key) {
        fields, err := map[], Some(WrongType);
      } else {
        fields := HashAt(keyspace, key);
      }
    }

    /** HMSET key field value ...: sets the given fields and keeps the others. */
    method HMSet(key: string, fields: map<string, string>) returns (err: Option<Error>)
      requires Valid()
      modifies this
      ensures Valid() && ttl == old(ttl)
      ensures err.Some? ==> keyspace == old(keyspace)
      ensures err.None? ==> keyspace == old(keyspace)[key := Hash(HashAt(old(keyspace), key) + fields)]
      ensures fields == map[] || !HashCompatible(old(keyspace), key) ==> err.Some?
    {
      err := Outcome();
      if err.None? {
        if fields == map[] {
          err := Some(WrongArgCount);
        } else if !HashCompatible(keyspace, key) {
          err := Some(WrongType);
        } else {
          keyspace := keyspace[key := Hash(HashAt(keyspace, key) + fields)];
        }
      }
    }

    /** SMEMBERS key: the members of the set, in an order the server picks. */
    method SMembers(key: string) returns (members: seq<string>, err: Option<Error>)
      ensures err.Some? ==> members == []
      ensures err.None? ==> SetCompatible(keyspace, key) && Listing(members, MembersAt(keyspace, key))
      ensures !SetCompatible(keyspace, key) ==> err.Some?
    {
      err := Outcome();
      members := [];
      if err.None? && !SetCompatible(keyspace, key) {
        err := Some(WrongType);
      }
      if err.None? {
        var all := MembersAt(keyspace, key);
        var rest := all;
        while rest != {}
          invariant rest <= all
          invariant NoDuplicates(members)
          invariant forall x :: x in members ==> x in all && x !in rest
          invariant forall x :: x in all ==> x in members || x in rest
          decreases rest
        {
          var x :| x in rest;
          members := members + [x];
          rest := rest - {x};
        }
      }
    }

    /** SADD key member. */
    method SAdd(key: string, member: Scalar) returns (err: Option<Error>)
      requires Valid()
      modifies this
      ensures Valid() && ttl == old(ttl)
      ensures err.Some? ==> keyspace == old(keyspace)
      ensures err.None? ==> SetCompatible(old(keyspace), key) && keyspace == AddMember(old(keyspace), key, encode(member))
      ensures SetCompatible(old(keyspace), key) ==> err.Some? ==> err.value.Transport?
    {
      err := Outcome();
      if err.None? {
        if !SetCompatible(keyspace, key) {
          err := Some(WrongType);
        } else {
          keyspace := AddMember(keyspace, key, encode(member));
        }
      }
    }

    /** DEL key: removing an absent key is not an error. */
    method Del(key: string) returns (err: Option<Error>)
      requires Valid()
      modifies this
      ensures Valid()
      ensures err.Some? ==> err.value.Transport? && keyspace == old(keyspace) && ttl == old(ttl)
      ensures err.None? ==> keyspace == old(keyspace) - {key} && ttl == old(ttl) - {key}
    {
      err := Outcome();
      if err.None? {
        keyspace, ttl := keyspace - {key}, ttl - {key};
      }
    }

    /** FLUSHDB. */
    method FlushDb() returns (err: Option<Error>)
      requires Valid()
      modifies this
      ensures Valid()
      ensures err.Some? ==> err.value.Transport? && keyspace == old(keyspace) && ttl == old(ttl)
      ensures err.None? ==> keyspace == map[] && ttl == map[]
    {
      err := Outcome();
      if err.None? {
        keyspace, ttl := map[], map[];
      }
    }
  }
}
