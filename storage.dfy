/**
 * The session store: an in-memory stand-in for the Redis client, keyed by session
 * id. It follows the commands the client issues: SETNX with an optional EXPIRE,
 * SET or SETEX, GET and DEL. Lifetimes are recorded, never enforced.
 */
module Storage {
  import opened Wrappers
  import opened JavaLang
  import opened Wire

  /** A second write to a key replaces the first. */
  lemma OverwriteTwice<V>(m: map<string, V>, k: string, a: V, b: V)
    ensures m[k := a][k := b] == m[k := b]
  {
  }

  /** The lifetimes after set: SET leaves the key without one, SETEX records it. */
  function TtlAfterSet(ttl: map<string, int>, key: string, lifetimeSeconds: int32): (r: map<string, int>)
    ensures key in r <==> lifetimeSeconds != 0
    ensures lifetimeSeconds != 0 ==> r[key] == lifetimeSeconds as int
    ensures forall k | k != key :: (k in r <==> k in ttl) && (k in r ==> r[k] == ttl[k])
  {
    if lifetimeSeconds == 0 then ttl - {key} else ttl[key := lifetimeSeconds as int]
  }

  /** Setting a key twice with the same lifetime leaves the lifetimes of setting it once. */
  lemma SetTwice(ttl: map<string, int>, key: string, lifetimeSeconds: int32)
    ensures TtlAfterSet(TtlAfterSet(ttl, key, lifetimeSeconds), key, lifetimeSeconds) == TtlAfterSet(ttl, key, lifetimeSeconds)
  {
  }

  class Store {
    var data: map<string, Payload>
    /** The lifetime in seconds last given to each key that has one. */
    var ttl: map<string, int>

    constructor()
      ensures data == map[] && ttl == map[]
    {
      data := map[];
      ttl := map[];
    }

    /** setIfAbsent without a lifetime: SETNX; true iff the key was absent and now holds payload. */
    method SetIfAbsent(key: string, payload: Payload) returns (ok: bool)
      modifies this
      ensures ok <==> key !in old(data)
      ensures data == if ok then old(data)[key := payload] else old(data)
      ensures ttl == old(ttl)
    {
      ok := key !in data;
      if ok {
        data := data[key := payload];
      }
    }

    /**
     * setIfAbsent with a lifetime: SETNX, then EXPIRE unless the lifetime is zero.
     * EXPIRE with a negative lifetime deletes the key at once (and reports success).
     */
    method SetIfAbsentWithLifetime(key: string, lifetimeSeconds: int32, payload: Payload) returns (ok: bool)
      modifies this
      ensures ok <==> key !in old(data)
      ensures !ok ==> data == old(data) && ttl == old(ttl)
      ensures ok && lifetimeSeconds == 0 ==> data == old(data)[key := payload] && ttl == old(ttl)
      ensures ok && lifetimeSeconds > 0 ==>
        data == old(data)[key := payload] && ttl == old(ttl)[key := lifetimeSeconds as int]
      ensures ok && lifetimeSeconds < 0 ==> data == old(data) - {key} && ttl == old(ttl) - {key}
    {
      ok := key !in data;
      if !ok {
        return;
      }
      data := data[key := payload];
      if lifetimeSeconds > 0 {
        ttl := ttl[key := lifetimeSeconds as int];
      } else if lifetimeSeconds < 0 {
        data := data - {key};
        ttl := ttl - {key};
      }
    }

    /**
     * set: SET when the lifetime is zero (the key keeps no lifetime), SETEX otherwise;
     * SETEX rejects a lifetime that is not positive, and the command then fails.
     */
    method Set(key: string, lifetimeSeconds: int32, payload: Payload) returns (r: Result<bool, Exception>)
      modifies this
      ensures lifetimeSeconds >= 0 <==> r.Success?
      ensures r.Success? ==> r.value && data == old(data)[key := payload]
      ensures r.Success? ==> ttl == TtlAfterSet(old(ttl), key, lifetimeSeconds)
      ensures r.Failure? ==> r.error == CommandFailed && unchanged(this)
    {
      if lifetimeSeconds == 0 {
        data := data[key := payload];
        ttl := ttl - {key};
        r := Success(true);
      } else if lifetimeSeconds > 0 {
        data := data[key := payload];
        ttl := ttl[key := lifetimeSeconds as int];
        r := Success(true);
      } else {
        r := Failure(CommandFailed);
      }
    }

    /** get: the payload under key, or null. */
    method Get(key: string) returns (r: Option<Payload>)
      ensures r.Some? <==> key in data
      ensures r.Some? ==> r.value == data[key]
    {
      r := if key in data then Some(data[key]) else None;
    }

    /** delete: DEL, reporting whether exactly one key was removed. */
    method Delete(key: string) returns (removed: bool)
      modifies this
      ensures removed <==> key in old(data)
      ensures data == old(data) - {key} && ttl == old(ttl) - {key}
    {
      removed := key in data;
      data := data - {key};
      ttl := ttl - {key};
    }
  }
}
