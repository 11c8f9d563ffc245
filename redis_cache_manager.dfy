/**
 * The two-tier cache: a per-request local tier in front of the Redis store.
 * Reads consult the local tier first and copy remote hits into it; writes go
 * to the store only; deletions hit both tiers but never delete the reserved
 * data-protection key from the store.
 */
module RedisCaching {
  import opened DotNet
  import opened RedisConnection

  /** A stored value: the serialized payload and the expiry, in minutes, it was written with. */
  datatype Entry = Entry(payload: string, expiryMinutes: int32)

  /** What the serializer makes of a payload: a value, null, or an exception. */
  datatype Decoded<V> = Decoded(value: V) | DecodedNull | Malformed

  /** What Get returns: a value, the type's default, or the deserializer's exception. */
  datatype Fetched<V> = Found(value: V) | Default | SerializationError

  /** Redis glob metacharacters; a pattern without them is matched as a plain substring. */
  predicate IsGlobLiteral(pattern: string) {
    forall i :: 0 <= i < |pattern| ==> pattern[i] !in "*?[]\\"
  }

  class RedisCacheManager<V> {
    /** RedisConfiguration.DataProtectionKeysName. */
    const reservedKey: string
    const wrapper: RedisConnectionWrapper
    /** The database handle taken at construction. */
    const db: Database

    /** The per-request cache. */
    var local: map<string, V>
    /** The Redis database: key to payload and expiry. */
    var remote: map<string, Entry>
    /** Number of remote lookups (GET and EXISTS) issued. */
    var remoteReads: nat

    ghost predicate Valid()
      reads this, wrapper
    {
      wrapper.Valid() && db.index == -1
    }

    /** The one test every remote deletion applies: the key is the reserved one, ignoring case. */
    predicate IsReserved(key: string)
      ensures IsReserved(key) ==> |key| == |reservedKey|
      ensures key == reservedKey ==> IsReserved(key)
    {
      EqualsIgnoreCase(key, reservedKey)
    }

    /** The keys one endpoint's pattern batch deletes: those containing `pattern`, except reserved ones. */
    function PatternBatch(m: map<string, Entry>, pattern: string): (r: set<string>)
      ensures r <= m.Keys
      ensures forall k :: k in r ==> Contains(k, pattern) && !IsReserved(k)
      ensures reservedKey !in r
    {
      set k | k in m && Contains(k, pattern) && !IsReserved(k)
    }

    /** The keys one endpoint's clear batch deletes: every key except reserved ones. */
    function ClearBatch(m: map<string, Entry>): (r: set<string>)
      ensures r <= m.Keys
      ensures forall k :: k in r ==> !IsReserved(k)
      ensures reservedKey !in r
    {
      set k | k in m && !IsReserved(k)
    }

    /** The pattern sweep removes exactly the non-reserved keys containing the pattern, and changes no value. */
    lemma PatternSweepKeeps(m: map<string, Entry>, pattern: string)
      ensures forall k :: k in m - PatternBatch(m, pattern) <==> k in m && (!Contains(k, pattern) || IsReserved(k))
      ensures forall k :: k in m - PatternBatch(m, pattern) ==> (m - PatternBatch(m, pattern))[k] == m[k]
      ensures PatternBatch(m - PatternBatch(m, pattern), pattern) == {}
    {
    }

    /** The clear sweep keeps exactly the reserved keys, with their values. */
    lemma ClearSweepKeeps(m: map<string, Entry>)
      ensures forall k :: k in m - ClearBatch(m) <==> k in m && IsReserved(k)
      ensures forall k :: k in m - ClearBatch(m) ==> (m - ClearBatch(m))[k] == m[k]
      ensures ClearBatch(m - ClearBatch(m)) == {}
    {
    }

    /** Substring semantics: "user" matches "user:1" and "user:12" but not "order:1". */
    lemma PatternBatchExample(e: Entry)
      requires !IsReserved("user:1") && !IsReserved("user:12")
      ensures PatternBatch(map["user:1" := e, "user:12" := e, "order:1" := e], "user") == {"user:1", "user:12"}
    {
      var m := map["user:1" := e, "user:12" := e, "order:1" := e];
      assert "user:1"[..4] == "user";
      assert "user:12"[..4] == "user";
      assert Contains("user:1", "user") && Contains("user:12", "user");
      if Contains("order:1", "user") {
        ContainsHeadChar("order:1", "user");
        assert false;
      }
      assert m.Keys == {"user:1", "user:12", "order:1"};
      assert "user:1" in PatternBatch(m, "user") && "user:12" in PatternBatch(m, "user");
      assert "order:1" !in PatternBatch(m, "user");
    }

    constructor (reservedKey: string, wrapper: RedisConnectionWrapper, db: Database,
                 local: map<string, V>, remote: map<string, Entry>)
      ensures this.reservedKey == reservedKey && this.wrapper == wrapper && this.db == db
      ensures this.local == local && this.remote == remote && remoteReads == 0
    {
      this.reservedKey := reservedKey;
      this.wrapper := wrapper;
      this.db := db;
      this.local := local;
      this.remote := remote;
      remoteReads := 0;
    }

    /**
     * The constructor of the source: refuses a null or empty connection string,
     * then takes the default database of the shared connection.
     */
    static method Create(connectionString: Option<string>, reservedKey: string, wrapper: RedisConnectionWrapper,
                         local: map<string, V>, remote: map<string, Entry>)
      returns (r: Option<RedisCacheManager<V>>)
      requires wrapper.Valid()
      requires connectionString.Some? ==> connectionString.value == wrapper.connectionString
      modifies wrapper`connection, wrapper`isConnected, wrapper`connects, wrapper`disposals
      ensures wrapper.Valid()
      ensures r.None? <==> connectionString.None? || connectionString.value == ""
      ensures r.None? ==> wrapper.Current() == old(wrapper.Current())
      ensures r.Some? ==>
        && fresh(r.value) && r.value.Valid()
        && r.value.reservedKey == reservedKey && r.value.wrapper == wrapper
        && r.value.local == local && r.value.remote == remote && r.value.remoteReads == 0
        && wrapper.Current() == wrapper.Refresh(old(wrapper.Current()))
        && r.value.db == Database(wrapper.connection.value.id, -1)
    {
      if connectionString.None? || connectionString.value == "" {
        return None;
      }
      var d := wrapper.GetDatabase(None);
      var m := new RedisCacheManager(reservedKey, wrapper, d, local, remote);
      r := Some(m);
    }

    /**
     * A local hit is returned without touching the store. Otherwise the store is
     * read once; a miss or a null payload gives the default and leaves the local
     * tier alone, and a value is copied into the local tier.
     */
    method Get(key: string, deserialize: string -> Decoded<V>) returns (r: Fetched<V>)
      modifies this`local, this`remoteReads
      ensures key in old(local) ==> r == Found(old(local)[key]) && local == old(local) && remoteReads == old(remoteReads)
      ensures key !in old(local) ==> remoteReads == old(remoteReads) + 1
      ensures key !in old(local) && key !in remote ==> r == Default && local == old(local)
      ensures key !in old(local) && key in remote ==>
        match deserialize(remote[key].payload)
        case Decoded(v) => r == Found(v) && local == old(local)[key := v]
        case DecodedNull => r == Default && local == old(local)
        case Malformed => r == SerializationError && local == old(local)
      ensures r.Found? ==> key in local && local[key] == r.value
    {
      if key in local {
        return Found(local[key]);
      }
      remoteReads := remoteReads + 1;
      if key !in remote {
        return Default;
      }
      match deserialize(remote[key].payload)
      case Malformed =>
        r := SerializationError;
      case DecodedNull =>
        r := Default;
      case Decoded(item) =>
        local := local[key := item];
        r := Found(item);
    }

    /** Null data is ignored; otherwise the serialized data is stored with the given expiry. */
    method Set(key: string, data: Option<V>, cacheTime: int32, serialize: V -> string)
      modifies this`remote
      ensures data.None? ==> remote == old(remote)
      ensures data.Some? ==> remote == old(remote)[key := Entry(serialize(data.value), cacheTime)]
    {
      if data.None? {
        return;
      }
      remote := remote[key := Entry(serialize(data.value), cacheTime)];
    }

    /** Either tier holds the key; the store is asked only when the local tier does not. */
    method IsSet(key: string) returns (b: bool)
      modifies this`remoteReads
      ensures b <==> key in local || key in remote
      ensures remoteReads == old(remoteReads) + (if key in local then 0 else 1)
    {
      if key in local {
        return true;
      }
      remoteReads := remoteReads + 1;
      b := key in remote;
    }

    /** The reserved key is ignored; any other key leaves both tiers. */
    method Remove(key: string)
      modifies this`local, this`remote
      ensures IsReserved(key) ==> local == old(local) && remote == old(remote)
      ensures !IsReserved(key) ==> local == old(local) - {key} && remote == old(remote) - {key}
      ensures forall k :: k in old(remote) && IsReserved(k) ==> k in remote && remote[k] == old(remote)[k]
    {
      if IsReserved(key) {
        return;
      }
      remote := remote - {key};
      local := local - {key};
    }

    /**
     * Evicts the local entries containing `pattern`, then, once per endpoint of
     * the connection, deletes the remote keys containing it except the reserved key.
     */
    method RemoveByPattern(pattern: string)
      requires Valid()
      requires IsGlobLiteral(pattern)
      modifies this`local, this`remote, wrapper`connection, wrapper`isConnected, wrapper`connects, wrapper`disposals
      ensures Valid()
      ensures wrapper.Current() == wrapper.Refresh(old(wrapper.Current()))
      ensures local == map k | k in old(local) && !Contains(k, pattern) :: old(local)[k]
      ensures remote == if wrapper.connection.value.endPoints == [] then old(remote)
                        else old(remote) - PatternBatch(old(remote), pattern)
      ensures forall k :: k in old(remote) && IsReserved(k) ==> k in remote && remote[k] == old(remote)[k]
    {
      local := map k | k in local && !Contains(k, pattern) :: local[k];
      var endPoints := wrapper.GetEndPoints();
      ghost var refreshed := wrapper.Current();
      ghost var swept := old(remote) - PatternBatch(old(remote), pattern);
      var i := 0;
      while i < |endPoints|
        invariant 0 <= i <= |endPoints|
        invariant wrapper.SlotValid() && wrapper.Current() == refreshed
        invariant endPoints == wrapper.connection.value.endPoints
        modifies this`remote, wrapper`connection, wrapper`isConnected, wrapper`connects, wrapper`disposals
        invariant remote == if i == 0 then old(remote) else swept
      {
        var server := wrapper.GetServer(endPoints[i]);
        var keys := PatternBatch(remote, pattern);
        if i > 0 {
          PatternSweepKeeps(old(remote), pattern);
          assert keys == {};
        }
        remote := remote - keys;
        assert remote == swept;
        i := i + 1;
      }
      PatternSweepKeeps(old(remote), pattern);
    }

    /**
     * Empties the local tier, then, once per endpoint of the connection, deletes
     * every remote key except the reserved key.
     */
    method Clear()
      requires Valid()
      modifies this`local, this`remote, wrapper`connection, wrapper`isConnected, wrapper`connects, wrapper`disposals
      ensures Valid()
      ensures wrapper.Current() == wrapper.Refresh(old(wrapper.Current()))
      ensures local == map[]
      ensures remote == if wrapper.connection.value.endPoints == [] then old(remote)
                        else old(remote) - ClearBatch(old(remote))
      ensures forall k :: k in old(remote) && IsReserved(k) ==> k in remote && remote[k] == old(remote)[k]
    {
      local := map[];
      var endPoints := wrapper.GetEndPoints();
      ghost var refreshed := wrapper.Current();
      ghost var swept := old(remote) - ClearBatch(old(remote));
      var i := 0;
      while i < |endPoints|
        invariant 0 <= i <= |endPoints|
        invariant wrapper.SlotValid() && wrapper.Current() == refreshed
        invariant endPoints == wrapper.connection.value.endPoints
        modifies this`remote, wrapper`connection, wrapper`isConnected, wrapper`connects, wrapper`disposals
        invariant remote == if i == 0 then old(remote) else swept
      {
        var server := wrapper.GetServer(endPoints[i]);
        var keys := ClearBatch(remote);
        if i > 0 {
          ClearSweepKeeps(old(remote));
          assert keys == {};
        }
        remote := remote - keys;
        assert remote == swept;
        i := i + 1;
      }
      ClearSweepKeeps(old(remote));
    }
  }
}
