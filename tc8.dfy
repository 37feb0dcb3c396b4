/**
 * The Tomcat 8 session manager. Sessions live in the store under their ids. A
 * request's session, its serialization metadata, its id and whether it is
 * persisted sit in per-request slots. At the end of a request a valid session is
 * written back when the strategy says always, when it is dirty, when it is not
 * yet persisted, or when its attribute hash differs from the one last stored.
 */
module Tc8 {
  import opened Wrappers
  import opened JavaLang
  import opened AssocList
  import opened Wire
  import opened MsgPackUtil
  import opened Model
  import opened SessionSerializer
  import opened DirtyTracking
  import opened Persistence
  import opened Storage

  /** "null".getBytes(): the value that claims an id, as a packed stream of four small integers. */
  const NullSession: Payload := [Int(110), Int(117), Int(108), Int(108)]

  /** A GenericPrincipal: its name and its roles. */
  datatype Principal = Principal(name: string, roles: seq<Option<string>>)

  /** A GenericPrincipal built without a user principal is its own user principal. */
  const GenericPrincipalClass: string := "org.apache.catalina.realm.GenericPrincipal"

  /** String keys and no null value: what a ConcurrentHashMap<String, Object> can hold. */
  predicate StringKeysNoNulls(es: seq<(JavaValue, JavaValue)>) {
    forall i | 0 <= i < |es| :: es[i].0.JString? && es[i].1 != Null
  }

  /** A ConcurrentHashMap<String, Object>: distinct String keys, and no null value. */
  predicate ConcurrentMap(es: seq<(JavaValue, JavaValue)>) {
    DistinctKeys(es) && StringKeysNoNulls(es)
  }

  /** A put of a String key and a non-null value keeps a ConcurrentHashMap's shape. */
  lemma PutKeepsConcurrent(m: seq<(JavaValue, JavaValue)>, k: JavaValue, v: JavaValue)
    requires ConcurrentMap(m) && k.JString? && v != Null
    ensures ConcurrentMap(Put(m, k, v))
  {
    PutEntries(m, k, v);
    PutDistinct(m, k, v);
  }

  /**
   * What the forEach lambda of fromPersistedSession throws for one entry: its key is
   * cast to String first (ClassCastException for any other non-null key), then the
   * ConcurrentHashMap refuses a null key or value (NullPointerException). None for an
   * entry it stores.
   */
  function Refusal(e: (JavaValue, JavaValue)): (r: Option<Exception>)
    ensures r.None? <==> e.0.JString? && e.1 != Null
    ensures r == Some(ClassCast) <==> e.0 != Null && !e.0.JString?
    ensures r.Some? ==> r == Some(ClassCast) || r == Some(NullPointer)
  {
    if e.0 != Null && !e.0.JString? then Some(ClassCast)
    else if e.0 == Null || e.1 == Null then Some(NullPointer)
    else None
  }

  /** The position of the first entry the lambda refuses, or |es|. */
  function FirstRefused(es: seq<(JavaValue, JavaValue)>): (r: nat)
    ensures r <= |es|
    ensures forall j | 0 <= j < r :: Refusal(es[j]).None?
    ensures r < |es| ==> Refusal(es[r]).Some?
  {
    if es == [] then 0
    else if Refusal(es[0]).Some? then 0
    else 1 + FirstRefused(es[1..])
  }

  lemma FirstRefusedPast(es: seq<(JavaValue, JavaValue)>, i: nat)
    requires i < |es| && i <= FirstRefused(es) && Refusal(es[i]).None?
    ensures i < FirstRefused(es)
  {
  }

  /** The entries whose value is not null, in order. */
  function NonNullValues(es: seq<(JavaValue, JavaValue)>): (r: seq<(JavaValue, JavaValue)>)
    ensures forall i | 0 <= i < |r| :: r[i].1 != Null && r[i] in es
    ensures forall i | 0 <= i < |es| :: es[i].1 != Null ==> es[i] in r
    ensures (forall i | 0 <= i < |es| :: es[i].1 != Null) ==> r == es
  {
    if es == [] then []
    else if es[0].1 == Null then NonNullValues(es[1..])
    else [es[0]] + NonNullValues(es[1..])
  }

  /** Roles the GenericPrincipal constructor can sort: it sorts only two or more, and comparing a null one throws. */
  predicate SortableRoles(roles: seq<Option<string>>) {
    |roles| <= 1 || None !in roles
  }

  /**
   * The GenericPrincipal fromPersistedSession builds: none without a name;
   * Arrays.asList rejects a null role array, and the constructor's sort a null
   * role among several.
   */
  function PrincipalOf(name: Option<string>, roles: Option<seq<Option<string>>>): (r: Result<Option<Principal>, Exception>)
    ensures r.Failure? <==> name.Some? && (roles.None? || !SortableRoles(roles.value))
    ensures r.Failure? ==> r.error == NullPointer
    ensures r.Success? ==> (r.value.Some? <==> name.Some?)
    ensures r.Success? && r.value.Some? ==> r.value.value == Principal(name.value, roles.value)
  {
    if name.None? then Success(None)
    else if roles.None? || !SortableRoles(roles.value) then Failure(NullPointer)
    else Success(Some(Principal(name.value, roles.value)))
  }

  /** asPersistedSession of a session with these field values: the principal split up, null-valued attributes left out. */
  function Persisted(creationTime: int64, lastAccessedTime: int64, maxInactiveInterval: int32, isNew: bool,
                     isValid: bool, thisAccessedTime: int64, id: Option<string>, principal: Option<Principal>,
                     attributes: seq<(JavaValue, JavaValue)>): (r: SessionState)
    ensures r.principalName.Some? <==> r.principalRoles.Some?
    ensures r.attributes.Some? && NoNullValues(r.attributes.value)
  {
    SessionState(creationTime, lastAccessedTime, maxInactiveInterval, isNew, isValid, thisAccessedTime, id,
      if principal.Some? then Some(principal.value.name) else None,
      if principal.Some? then Some(principal.value.roles) else None,
      if principal.Some? then JOther(GenericPrincipalClass) else Null,
      Some(NonNullValues(attributes)))
  }

  /** The RedisSession: a StandardSession's fields and a dirty tracker. */
  class Tc8Session {
    var creationTime: int64
    var lastAccessedTime: int64
    var maxInactiveInterval: int32
    var isNew: bool
    var isValid: bool
    var thisAccessedTime: int64
    var id: Option<string>
    var principal: Option<Principal>
    /** The attribute map, in iteration order. */
    var attributes: seq<(JavaValue, JavaValue)>
    const tracker: DirtySessionTracker

    ghost predicate Valid()
      reads this
    {
      ConcurrentMap(attributes)
    }

    /** A new session: StandardSession's defaults, and a clean tracker. */
    constructor()
      ensures Snapshot() == SessionState(0, 0, -1, false, false, 0, None, None, None, Null, Some([]))
      ensures principal.None? && attributes == []
      ensures Valid() && fresh(tracker) && !tracker.dirty
    {
      creationTime := 0;
      lastAccessedTime := 0;
      maxInactiveInterval := -1;
      isNew := false;
      isValid := false;
      thisAccessedTime := 0;
      id := None;
      principal := None;
      attributes := [];
      tracker := new DirtySessionTracker();
    }

    /** What asPersistedSession copies out of the session. */
    function Snapshot(): (r: SessionState)
      reads this
      ensures r == Persisted(creationTime, lastAccessedTime, maxInactiveInterval, isNew, isValid,
        thisAccessedTime, id, principal, attributes)
    {
      Persisted(creationTime, lastAccessedTime, maxInactiveInterval, isNew, isValid, thisAccessedTime, id,
        principal, attributes)
    }

    /** asPersistedSession: a new record with the session's fields and a new map of its non-null attributes. */
    method AsPersistedSession() returns (p: PersistedSession)
      ensures fresh(p) && p.attributes != null && fresh(p.attributes)
      ensures p.State() == Snapshot()
    {
      var name := if principal.Some? then Some(principal.value.name) else None;
      var roles := if principal.Some? then Some(principal.value.roles) else None;
      p := NewSession(Scalars(creationTime, lastAccessedTime, maxInactiveInterval, isNew, isValid, thisAccessedTime),
        References(id, name, roles, Some(NonNullValues(attributes))));
      if principal.Some? {
        p.userPrincipal := JOther(GenericPrincipalClass);
      }
    }

    /**
     * fromPersistedSession: the scalar fields and the id are copied and the principal
     * cleared; then every stored attribute is put into the map in order, where a null
     * map throws at once and a refused entry part way; last the principal is rebuilt.
     */
    method FromPersistedSession(rc: PersistedSession) returns (r: Result<(), Exception>)
      requires Valid()
      modifies this
      ensures Valid()
      ensures creationTime == rc.creationTime && lastAccessedTime == rc.lastAccessedTime
      ensures maxInactiveInterval == rc.maxInactiveInterval && isNew == rc.isNew && isValid == rc.isValid
      ensures thisAccessedTime == rc.thisAccessedTime && id == rc.id
      ensures rc.attributes == null ==> r == Failure(NullPointer) && attributes == old(attributes) && principal.None?
      ensures rc.attributes != null ==>
        attributes == PutAll(old(attributes), rc.attributes.entries[..FirstRefused(rc.attributes.entries)])
      ensures rc.attributes != null && FirstRefused(rc.attributes.entries) < |rc.attributes.entries| ==>
        && r.Failure? && principal.None?
        && Refusal(rc.attributes.entries[FirstRefused(rc.attributes.entries)]) == Some(r.error)
      ensures rc.attributes != null && FirstRefused(rc.attributes.entries) == |rc.attributes.entries| ==>
        var p := PrincipalOf(rc.principalName, rc.principalRoles);
        && (p.Failure? ==> r == Failure(NullPointer) && principal.None?)
        && (p.Success? ==> r == Success(()) && principal == p.value)
    {
      creationTime := rc.creationTime;
      lastAccessedTime := rc.lastAccessedTime;
      maxInactiveInterval := rc.maxInactiveInterval;
      isNew := rc.isNew;
      isValid := rc.isValid;
      thisAccessedTime := rc.thisAccessedTime;
      principal := None;
      id := rc.id;
      if rc.attributes == null {
        return Failure(NullPointer);
      }
      var put := PutAttributes(rc.attributes.entries);
      if put.Failure? {
        return put;
      }
      var p := PrincipalOf(rc.principalName, rc.principalRoles);
      if p.Failure? {
        return Failure(NullPointer);
      }
      principal := p.value;
      return Success(());
    }

    /** setId, setNew(false), setMaxInactiveInterval, access and setValid(true), as a loaded session receives them. */
    method Activate(id: string, interval: int32, now: int64)
      requires Valid()
      modifies this
      ensures Valid()
      ensures Snapshot() == old(Snapshot()).(id := Some(id), isNew := false, maxInactiveInterval := interval,
        thisAccessedTime := now, isValid := true)
    {
      this.id := Some(id);
      isNew := false;
      maxInactiveInterval := interval;
      thisAccessedTime := now;
      isValid := true;
    }

    /** rc.attributes.forEach((k, v) -> attributes.put(k, v)): stops with the exception of the first refused entry. */
    method PutAttributes(es: seq<(JavaValue, JavaValue)>) returns (r: Result<(), Exception>)
      requires Valid()
      modifies this`attributes
      ensures Valid()
      ensures r.Success? <==> FirstRefused(es) == |es|
      ensures r.Failure? ==> Refusal(es[FirstRefused(es)]) == Some(r.error)
      ensures attributes == PutAll(old(attributes), es[..FirstRefused(es)])
    {
      var i := 0;
      while i < |es|
        invariant i <= FirstRefused(es)
        invariant attributes == PutAll(old(attributes), es[..i])
        invariant ConcurrentMap(attributes)
      {
        var refused := Refusal(es[i]);
        if refused.Some? {
          assert i == FirstRefused(es);
          return Failure(refused.value);
        }
        FirstRefusedPast(es, i);
        PutAllStep(old(attributes), es, i);
        PutKeepsConcurrent(attributes, es[i].0, es[i].1);
        attributes := AssocList.Put(attributes, es[i].0, es[i].1);
        i := i + 1;
      }
      assert i == FirstRefused(es) == |es|;
      assert es[..i] == es;
      return Success(());
    }
  }

  /** The per-request slots (ThreadLocals of the serving thread). */
  class RequestContext {
    var session: Tc8Session?
    var metadata: PersistedSessionMetadata?
    var sessionId: Option<string>
    var isPersisted: Option<bool>

    constructor()
      ensures Cleared()
    {
      session := null;
      metadata := null;
      sessionId := None;
      isPersisted := None;
    }

    /** Every slot unset, as ThreadLocal.remove leaves it. */
    predicate Cleared()
      reads this
    {
      session == null && metadata == null && sessionId.None? && isPersisted.None?
    }
  }

  /** The condition saveInternal tests, in its order: a forced save, a dirty session, one not known to be persisted, a changed hash. */
  predicate SaveNeeded(forceSave: bool, dirty: bool, persisted: Option<bool>, originalHash: int64, hash: int64)
    ensures !SaveNeeded(forceSave, dirty, persisted, originalHash, hash) <==>
      !forceSave && !dirty && persisted == Some(true) && originalHash == hash
  {
    forceSave || dirty || persisted != Some(true) || originalHash != hash
  }

  /** A map without the entry of an id, when there is one: what remove leaves. */
  function Without<V>(m: map<string, V>, id: Option<string>): (r: map<string, V>)
    ensures id.None? ==> r == m
    ensures id.Some? ==> id.value !in r && forall k | k != id.value :: (k in r <==> k in m) && (k in r ==> r[k] == m[k])
  {
    if id.Some? then m - {id.value} else m
  }

  /** The fields createSession sets on a new session before saving it. */
  function NewSessionState(id: string, now: int64, interval: int32): (r: SessionState)
    ensures r == Persisted(now, now, interval, true, true, now, Some(id), None, [])
  {
    Persisted(now, now, interval, true, true, now, Some(id), None, [])
  }

  /** The persisted form of an empty session after fromPersistedSession of a record in state st. */
  function Merged(st: SessionState): (r: Result<SessionState, Exception>)
    ensures st.attributes.None? ==> r == Failure(NullPointer)
    ensures st.attributes.Some? && FirstRefused(st.attributes.value) < |st.attributes.value| ==>
      r.Failure? && Refusal(st.attributes.value[FirstRefused(st.attributes.value)]) == Some(r.error)
    ensures r.Success? ==> st.attributes.Some? && FirstRefused(st.attributes.value) == |st.attributes.value|
    ensures r.Failure? ==> r.error == NullPointer || r.error == ClassCast
  {
    if st.attributes.None? then Failure(NullPointer)
    else if FirstRefused(st.attributes.value) < |st.attributes.value| then
      Failure(Refusal(st.attributes.value[FirstRefused(st.attributes.value)]).value)
    else
      var principal :- PrincipalOf(st.principalName, st.principalRoles);
      Success(Persisted(st.creationTime, st.lastAccessedTime, st.maxInactiveInterval, st.isNew, st.isValid,
        st.thisAccessedTime, st.id, principal, PutAll([], st.attributes.value)))
  }

  /**
   * sessionFromSerializedData: the placeholder is refused; otherwise the data is
   * decoded and merged into an empty session, which then takes the id it was read
   * under, is not new, gets the configured interval, is accessed now and is valid.
   * Returns the stored hash and the session's persisted form.
   */
  function Loaded(data: Payload, id: string, now: int64, interval: int32): (r: Result<(int64, SessionState), Exception>)
    ensures data == NullSession ==> r == Failure(PlaceholderSession)
    ensures data != NullSession && DecodeSession(data).Failure? ==> r == Failure(DecodeSession(data).error)
    ensures r.Success? ==> DecodeSession(data).Success? && r.value.0 == DecodeSession(data).value.0
    ensures r.Success? ==> && r.value.1.id == Some(id) && !r.value.1.isNew && r.value.1.isValid
                           && r.value.1.maxInactiveInterval == interval && r.value.1.thisAccessedTime == now
  {
    if data == NullSession then Failure(PlaceholderSession)
    else
      var decoded :- DecodeSession(data);
      var merged :- Merged(decoded.1);
      Success((decoded.0, merged.(id := Some(id), isNew := false, maxInactiveInterval := interval,
        thisAccessedTime := now, isValid := true)))
  }

  class RedisSessionManager {
    const store: Store
    const context: RequestContext
    /** The serializer's getAttributesHash, on an attribute map (null when absent). */
    const attributesHash: Option<seq<(JavaValue, JavaValue)>> -> int64
    /** The hash a new PersistedSessionMetadata starts with. */
    const defaultHash: int64
    /** The ids generateSessionId draws, in order, and how many were drawn. */
    const idSource: nat -> string
    var idsDrawn: nat
    var persistenceStrategy: PersistenceStrategy
    /** The context's session timeout, in minutes. */
    var sessionTimeoutMinutes: int32

    constructor(store: Store, md5: WireValue -> Digest16, defaultHash: int64, idSource: nat -> string,
                sessionTimeoutMinutes: int32)
      ensures this.store == store && this.defaultHash == defaultHash
      ensures attributesHash == (attrs => AttributesHashFrom(md5, attrs))
      ensures this.idSource == idSource && idsDrawn == 0
      ensures this.sessionTimeoutMinutes == sessionTimeoutMinutes
      ensures persistenceStrategy == Always
      ensures fresh(context) && context.Cleared()
    {
      this.store := store;
      attributesHash := attrs => AttributesHashFrom(md5, attrs);
      this.defaultHash := defaultHash;
      this.idSource := idSource;
      this.sessionTimeoutMinutes := sessionTimeoutMinutes;
      idsDrawn := 0;
      persistenceStrategy := Always;
      context := new RequestContext();
    }

    /** getSessionTimeoutSeconds: minutes times 60 in int arithmetic, wrapping on overflow. */
    function SessionTimeoutSeconds(): (r: int32)
      reads this
      ensures (r as int - sessionTimeoutMinutes as int * 60) % TWO_TO_THE_32 == 0
      ensures InInt32Range(sessionTimeoutMinutes as int * 60) ==> r as int == sessionTimeoutMinutes as int * 60
    {
      Wrap32(sessionTimeoutMinutes as int * 60)
    }

    function DoSaveAlways(): (r: bool)
      reads this
      ensures r <==> persistenceStrategy == Always
    {
      persistenceStrategy == Always
    }

    /** setPersistenceStrategy: fromName; an unknown name throws and leaves the strategy as it was. */
    method SetPersistenceStrategy(name: Option<string>) returns (r: Result<(), Exception>)
      modifies this
      ensures FromName(name).Success? ==> r == Success(()) && persistenceStrategy == FromName(name).value
      ensures FromName(name).Failure? ==> r == Failure(IllegalArgument) && persistenceStrategy == old(persistenceStrategy)
      ensures idsDrawn == old(idsDrawn) && sessionTimeoutMinutes == old(sessionTimeoutMinutes)
    {
      var p := FromName(name);
      if p.Failure? {
        return Failure(p.error);
      }
      persistenceStrategy := p.value;
      return Success(());
    }

    /** The hash of the metadata in the request slot, or of a new metadata when the slot is empty. */
    function OriginalHash(): (r: int64)
      reads this, context, context.metadata
      ensures context.metadata == null ==> r == defaultHash
      ensures context.metadata != null ==> r == context.metadata.attrHash
    {
      if context.metadata == null then defaultHash else context.metadata.attrHash
    }

    /**
     * getAttributesHash: the hash of a HashMap filled from the session's attribute
     * names and values. It is the hash of the attributes asPersistedSession stores.
     */
    function AttributesHash(s: Tc8Session): (r: int64)
      reads this, s
      ensures s.Valid() ==> r == attributesHash(s.Snapshot().attributes)
    {
      attributesHash(Some(s.attributes))
    }

    /** saveInternal's condition, for this manager's request slots and session. */
    predicate NeedsSave(session: Tc8Session, forceSave: bool)
      reads this, context, context.metadata, session, session.tracker
      ensures forceSave || session.tracker.dirty || context.isPersisted != Some(true) ==> NeedsSave(session, forceSave)
      ensures !NeedsSave(session, forceSave) <==>
        && !forceSave && !session.tracker.dirty && context.isPersisted == Some(true)
        && OriginalHash() == AttributesHash(session)
    {
      SaveNeeded(forceSave, session.tracker.dirty, context.isPersisted, OriginalHash(), AttributesHash(session))
    }

    /** The outcome of writing session with hash: stored, tracker reset and slots updated, or an IOException and no change. */
    twostate predicate SavedAs(session: Tc8Session, hash: int64, new r: Result<(), Exception>)
      reads this, store, context, context.metadata, session, session.tracker
    {
      && (r.Success? <==> session.id.Some? && SessionTimeoutSeconds() >= 0)
      && (r.Failure? ==> r.error == IOFailure(CommandFailed) && unchanged(store, context, session.tracker))
      && (r.Success? ==>
        && store.data == old(store.data)[session.id.value := Layout(session.Snapshot(), hash)]
        && store.ttl == TtlAfterSet(old(store.ttl), session.id.value, SessionTimeoutSeconds())
        && !session.tracker.dirty
        && context.metadata != null && fresh(context.metadata) && context.metadata.attrHash == hash
        && context.isPersisted == Some(true)
        && context.session == old(context.session) && context.sessionId == old(context.sessionId))
    }

    /**
     * saveInternal: computes the attribute hash (which an invalidated session refuses
     * with IllegalStateException), and writes the session when SaveNeeded holds.
     */
    method SaveInternal(session: Tc8Session, forceSave: bool) returns (r: Result<(), Exception>)
      modifies store, context, session.tracker
      ensures !session.isValid ==> r == Failure(IllegalState) && unchanged(store, context, session.tracker)
      ensures session.isValid && !old(NeedsSave(session, forceSave)) ==>
        r == Success(()) && unchanged(store, context, session.tracker)
      ensures session.isValid && old(NeedsSave(session, forceSave)) ==>
        SavedAs(session, AttributesHash(session), r)
      ensures session.isValid && forceSave ==> SavedAs(session, AttributesHash(session), r)
      ensures r.Success? ==> !NeedsSave(session, false)
    {
      var metadata := context.metadata;
      if metadata == null {
        metadata := new PersistedSessionMetadata(defaultHash);
      }
      var original := metadata.attrHash;
      if !session.isValid {
        return Failure(IllegalState);
      }
      var hash := AttributesHash(session);
      var dirty := session.tracker.IsDirty();
      if forceSave || dirty || context.isPersisted != Some(true) || original != hash {
        r := Write(session, hash);
      } else {
        r := Success(());
      }
    }

    /** The write branch of saveInternal: new metadata with the hash, serialize, set with the timeout. */
    method Write(session: Tc8Session, hash: int64) returns (r: Result<(), Exception>)
      modifies store, context, session.tracker
      ensures SavedAs(session, hash, r)
    {
      var updated := new PersistedSessionMetadata(defaultHash);
      updated.SetAttrHash(hash);
      var payload := SerializeWith(session, updated);
      if session.id.None? {
        return Failure(IOFailure(CommandFailed));
      }
      var stored := store.Set(session.id.value, SessionTimeoutSeconds(), payload);
      if stored.Failure? {
        return Failure(IOFailure(stored.error));
      }
      session.tracker.Reset();
      context.metadata := updated;
      context.isPersisted := Some(true);
      return Success(());
    }

    /** serializer.serialize(redisSession, metadata): the session's persisted form, packed with the metadata's hash. */
    static method SerializeWith(session: Tc8Session, metadata: PersistedSessionMetadata) returns (payload: Payload)
      ensures payload == Layout(session.Snapshot(), metadata.attrHash)
    {
      var p := session.AsPersistedSession();
      payload := Serialize(p, metadata);
    }

    /** save: saveInternal. */
    method Save(session: Tc8Session, forceSave: bool) returns (r: Result<(), Exception>)
      modifies store, context, session.tracker
      ensures !session.isValid ==> r == Failure(IllegalState) && unchanged(store, context, session.tracker)
      ensures session.isValid && !old(NeedsSave(session, forceSave)) ==>
        r == Success(()) && unchanged(store, context, session.tracker)
      ensures session.isValid && old(NeedsSave(session, forceSave)) ==>
        SavedAs(session, AttributesHash(session), r)
      ensures session.isValid && forceSave ==> SavedAs(session, AttributesHash(session), r)
    {
      r := SaveInternal(session, forceSave);
    }

    /** add: an unforced save, its IOException rethrown as a RuntimeException. */
    method Add(session: Tc8Session) returns (r: Result<(), Exception>)
      modifies store, context, session.tracker
      ensures !session.isValid ==> r == Failure(IllegalState) && unchanged(store, context, session.tracker)
      ensures session.isValid && !old(NeedsSave(session, false)) ==>
        r == Success(()) && unchanged(store, context, session.tracker)
      ensures session.isValid && old(NeedsSave(session, false)) ==>
        && (r.Success? <==> session.id.Some? && SessionTimeoutSeconds() >= 0)
        && (r.Failure? ==> r.error == RuntimeFailure(IOFailure(CommandFailed)) && unchanged(store, context, session.tracker))
        && (r.Success? ==> store.data == old(store.data)[session.id.value := Layout(session.Snapshot(), AttributesHash(session))])
      ensures session.isValid && old(NeedsSave(session, false)) && r.Success? ==> SavedAs(session, AttributesHash(session), r)
    {
      r := SaveInternal(session, false);
      if r.Failure? && r.error.IsIOException() {
        r := Failure(RuntimeFailure(r.error));
      }
    }

    /** remove: DEL of the session's id; for a null id the command fails inside its future, unobserved. */
    method Remove(session: Tc8Session)
      modifies store
      ensures session.id.Some? ==>
        store.data == old(store.data) - {session.id.value} && store.ttl == old(store.ttl) - {session.id.value}
      ensures session.id.None? ==> unchanged(store)
    {
      if session.id.Some? {
        var _ := store.Delete(session.id.value);
      }
    }

    /**
     * generateSessionId: a requested id is claimed with the placeholder if it is free,
     * else none; without a request, ids are drawn until one can be claimed.
     */
    method GenerateSessionId(requested: Option<string>) returns (id: Option<string>)
      requires requested.None? ==> exists k: nat :: k >= idsDrawn && idSource(k) !in store.data
      modifies this, store
      ensures store.ttl == old(store.ttl)
      ensures id.Some? ==> id.value !in old(store.data) && store.data == old(store.data)[id.value := NullSession]
      ensures id.None? ==> store.data == old(store.data)
      ensures requested.Some? ==> idsDrawn == old(idsDrawn)
      ensures requested.Some? ==> id == (if requested.value in old(store.data) then None else requested)
      ensures requested.None? ==> id.Some? && old(idsDrawn) < idsDrawn && id.value == idSource(idsDrawn - 1)
      ensures requested.None? ==> forall k | old(idsDrawn) <= k < idsDrawn - 1 :: idSource(k) in old(store.data)
      ensures persistenceStrategy == old(persistenceStrategy) && sessionTimeoutMinutes == old(sessionTimeoutMinutes)
    {
      if requested.Some? {
        var ok := store.SetIfAbsent(requested.value, NullSession);
        id := if ok then requested else None;
        return;
      }
      var drawn := DrawFreeId();
      id := Some(drawn);
    }

    /** The do-while of generateSessionId: draw ids until setIfAbsent claims one. */
    method DrawFreeId() returns (id: string)
      requires exists k: nat :: k >= idsDrawn && idSource(k) !in store.data
      modifies this`idsDrawn, store
      ensures store.ttl == old(store.ttl)
      ensures id !in old(store.data) && store.data == old(store.data)[id := NullSession]
      ensures old(idsDrawn) < idsDrawn && id == idSource(idsDrawn - 1)
      ensures forall k | old(idsDrawn) <= k < idsDrawn - 1 :: idSource(k) in old(store.data)
    {
      ghost var d0 := store.data;
      ghost var t0 := store.ttl;
      ghost var n0 := idsDrawn;
      ghost var free: nat :| free >= n0 && idSource(free) !in d0;
      var n := idsDrawn;
      id := idSource(n);
      n := n + 1;
      var ok := store.SetIfAbsent(id, NullSession);
      while !ok
        invariant n0 < n <= free + 1
        invariant id == idSource(n - 1)
        invariant !ok ==> store.data == d0 && id in d0 && n <= free
        invariant ok ==> id !in d0 && store.data == d0[id := NullSession]
        invariant forall k | n0 <= k < n - 1 :: idSource(k) in d0
        invariant store.ttl == t0
        decreases free + 1 - n
      {
        id := idSource(n);
        n := n + 1;
        ok := store.SetIfAbsent(id, NullSession);
      }
      idsDrawn := n;
    }

    /** createEmptySession and the setters createSession calls on it before setId. */
    method NewValidSession(now: int64) returns (s: Tc8Session)
      ensures fresh(s) && fresh(s.tracker) && s.Valid() && !s.tracker.dirty && s.attributes == []
      ensures s.isValid && s.isNew && s.id.None? && s.principal.None?
      ensures s.creationTime == now && s.lastAccessedTime == now && s.thisAccessedTime == now
      ensures s.maxInactiveInterval == SessionTimeoutSeconds()
    {
      s := new Tc8Session();
      s.isNew := true;
      s.isValid := true;
      s.creationTime := now;
      s.lastAccessedTime := now;
      s.thisAccessedTime := now;
      s.maxInactiveInterval := SessionTimeoutSeconds();
    }

    /**
     * RedisSession.setId: nothing for the id the session already has; otherwise the
     * entry of its old id is deleted, the id is set, and the session saved with force,
     * an IOException of that save rethrown as a RuntimeException.
     */
    method SetId(session: Tc8Session, id: string) returns (r: Result<(), Exception>)
      modifies session`id, store, context, session.tracker
      ensures session.id == Some(id)
      ensures old(session.id) == Some(id) ==> r == Success(()) && unchanged(store, context, session.tracker)
      ensures old(session.id) != Some(id) && !session.isValid ==>
        && r == Failure(IllegalState) && unchanged(context, session.tracker)
        && store.data == Without(old(store.data), old(session.id)) && store.ttl == Without(old(store.ttl), old(session.id))
      ensures old(session.id) != Some(id) && session.isValid ==>
        && (r.Success? <==> SessionTimeoutSeconds() >= 0)
        && (r.Failure? ==>
          && r.error == RuntimeFailure(IOFailure(CommandFailed)) && unchanged(context, session.tracker)
          && store.data == Without(old(store.data), old(session.id))
          && store.ttl == Without(old(store.ttl), old(session.id)))
        && (r.Success? ==>
          && store.data == Without(old(store.data), old(session.id))[id := Layout(session.Snapshot(), AttributesHash(session))]
          && store.ttl == TtlAfterSet(Without(old(store.ttl), old(session.id)), id, SessionTimeoutSeconds())
          && !session.tracker.dirty
          && context.metadata != null && fresh(context.metadata) && context.metadata.attrHash == AttributesHash(session)
          && context.isPersisted == Some(true)
          && context.session == old(context.session) && context.sessionId == old(context.sessionId))
    {
      if session.id == Some(id) {
        return Success(());
      }
      Remove(session);
      session.id := Some(id);
      r := Save(session, true);
      if r.Failure? && r.error.IsIOException() {
        r := Failure(RuntimeFailure(r.error));
      }
    }

    /**
     * createSession: null when the request is skipped; otherwise claims an id. For no id
     * the request slots are filled (no session, not persisted, new metadata). For a
     * claimed id a new session takes it through setId, whose forced save throws when it
     * fails; then the slots are filled with the session and it is saved with force again.
     */
    method CreateSession(requested: Option<string>, skip: bool, now: int64)
      returns (r: Result<Tc8Session?, Exception>, ghost claimed: Option<string>)
      requires !skip && requested.None? ==> exists k: nat :: k >= idsDrawn && idSource(k) !in store.data
      modifies this, store, context
      ensures skip ==> r == Success(null) && claimed.None? && unchanged(this, store, context)
      ensures persistenceStrategy == old(persistenceStrategy) && sessionTimeoutMinutes == old(sessionTimeoutMinutes)
      ensures !skip && requested.Some? ==> claimed == (if requested.value in old(store.data) then None else requested)
      ensures !skip && requested.None? ==>
        claimed.Some? && old(idsDrawn) < idsDrawn && claimed.value == idSource(idsDrawn - 1)
      ensures !skip && claimed.Some? ==> claimed.value !in old(store.data)
      ensures !skip && claimed.None? ==>
        && r == Success(null)
        && context.session == null && context.sessionId.None? && context.isPersisted == Some(false)
        && context.metadata != null && fresh(context.metadata) && context.metadata.attrHash == defaultHash
        && store.data == old(store.data) && store.ttl == old(store.ttl)
      ensures !skip && claimed.Some? && SessionTimeoutSeconds() < 0 ==>
        && r == Failure(RuntimeFailure(IOFailure(CommandFailed))) && unchanged(context)
        && store.ttl == old(store.ttl) && store.data == old(store.data)[claimed.value := NullSession]
      ensures !skip && claimed.Some? && SessionTimeoutSeconds() >= 0 ==> (
        && r.Success? && r.value != null && fresh(r.value) && fresh(r.value.tracker)
        && r.value.Valid() && !r.value.tracker.dirty
        && r.value.Snapshot() == NewSessionState(claimed.value, now, SessionTimeoutSeconds())
        && store.data == old(store.data)[claimed.value :=
             Layout(NewSessionState(claimed.value, now, SessionTimeoutSeconds()), attributesHash(Some([])))]
        && store.ttl == TtlAfterSet(old(store.ttl), claimed.value, SessionTimeoutSeconds())
        && context.session == r.value && context.sessionId == claimed && context.isPersisted == Some(true)
        && context.metadata != null && fresh(context.metadata)
        && context.metadata.attrHash == attributesHash(Some([])))
    {
      if skip {
        return Success(null), None;
      }
      var sessionId := GenerateSessionId(requested);
      claimed := sessionId;
      if sessionId.None? {
        context.session := null;
        context.sessionId := None;
        context.isPersisted := Some(false);
        context.metadata := new PersistedSessionMetadata(defaultHash);
        return Success(null), claimed;
      }
      r := StartSession(sessionId.value, now);
      if r.Success? {
        ghost var payload := Layout(NewSessionState(sessionId.value, now, SessionTimeoutSeconds()),
          attributesHash(Some([])));
        OverwriteTwice(old(store.data), sessionId.value, NullSession, payload);
      }
    }

    /** The block of createSession for a claimed id: a new session, which takes the id through setId. */
    method NamedSession(id: string, now: int64) returns (r: Result<Tc8Session, Exception>)
      modifies store, context
      ensures SessionTimeoutSeconds() < 0 ==>
        && r == Failure(RuntimeFailure(IOFailure(CommandFailed))) && unchanged(context)
        && store.data == old(store.data) && store.ttl == old(store.ttl)
      ensures SessionTimeoutSeconds() >= 0 ==>
        && r.Success? && fresh(r.value) && fresh(r.value.tracker) && r.value.Valid() && !r.value.tracker.dirty
        && r.value.isValid && r.value.Snapshot() == NewSessionState(id, now, SessionTimeoutSeconds())
        && AttributesHash(r.value) == attributesHash(Some([]))
        && store.data == old(store.data)[id :=
             Layout(NewSessionState(id, now, SessionTimeoutSeconds()), attributesHash(Some([])))]
        && store.ttl == TtlAfterSet(old(store.ttl), id, SessionTimeoutSeconds())
        && context.isPersisted == Some(true)
        && context.metadata != null && fresh(context.metadata) && context.metadata.attrHash == attributesHash(Some([]))
        && context.session == old(context.session) && context.sessionId == old(context.sessionId)
    {
      var session := NewValidSession(now);
      var named := SetId(session, id);
      if named.Failure? {
        return Failure(named.error);
      }
      assert session.Snapshot() == NewSessionState(id, now, SessionTimeoutSeconds());
      return Success(session);
    }

    /**
     * The part of createSession after an id was claimed: a new session takes the id
     * (a forced save, which throws when it fails), then fills the request slots and is
     * saved with force again. That second save cannot fail once the first succeeded.
     */
    method StartSession(id: string, now: int64) returns (r: Result<Tc8Session?, Exception>)
      modifies store, context
      ensures SessionTimeoutSeconds() < 0 ==>
        && r == Failure(RuntimeFailure(IOFailure(CommandFailed))) && unchanged(context)
        && store.data == old(store.data) && store.ttl == old(store.ttl)
      ensures SessionTimeoutSeconds() >= 0 ==>
        && r.Success? && r.value != null && fresh(r.value) && fresh(r.value.tracker)
        && r.value.Valid() && !r.value.tracker.dirty
        && r.value.Snapshot() == NewSessionState(id, now, SessionTimeoutSeconds())
        && store.data == old(store.data)[id :=
             Layout(NewSessionState(id, now, SessionTimeoutSeconds()), attributesHash(Some([])))]
        && store.ttl == TtlAfterSet(old(store.ttl), id, SessionTimeoutSeconds())
        && context.session == r.value && context.sessionId == Some(id) && context.isPersisted == Some(true)
        && context.metadata != null && fresh(context.metadata)
        && context.metadata.attrHash == attributesHash(Some([]))
    {
      var named := NamedSession(id, now);
      if named.Failure? {
        return Failure(named.error);
      }
      var session := named.value;
      ghost var payload := Layout(NewSessionState(id, now, SessionTimeoutSeconds()), attributesHash(Some([])));
      var saved := FillAndSave(session, id);
      if saved.Failure? {
        // The catch of createSession: the first save succeeded with this id and timeout.
        assert false;
      }
      OverwriteTwice(old(store.data), id, payload, payload);
      SetTwice(old(store.ttl), id, SessionTimeoutSeconds());
      return Success(session);
    }

    /** The request slots createSession fills for a session that took its id, and the forced save that follows. */
    method FillAndSave(session: Tc8Session, id: string) returns (r: Result<(), Exception>)
      requires session.Valid() && session.isValid && session.id == Some(id)
      modifies store, context, session.tracker
      ensures context.session == session && context.sessionId == Some(id)
      ensures r.Success? <==> SessionTimeoutSeconds() >= 0
      ensures r.Success? ==>
        && store.data == old(store.data)[id := Layout(session.Snapshot(), AttributesHash(session))]
        && store.ttl == TtlAfterSet(old(store.ttl), id, SessionTimeoutSeconds())
        && !session.tracker.dirty && context.isPersisted == Some(true)
        && context.metadata != null && fresh(context.metadata) && context.metadata.attrHash == AttributesHash(session)
    {
      context.session := session;
      context.sessionId := Some(id);
      context.isPersisted := Some(false);
      context.metadata := new PersistedSessionMetadata(defaultHash);
      r := SaveInternal(session, true);
    }

    /** serializer.deserialize into an empty session: decode the record, then fromPersistedSession. */
    static method Deserialize(data: Payload, session: Tc8Session, metadata: PersistedSessionMetadata)
      returns (r: Result<(), Exception>)
      requires session.Valid() && session.attributes == [] && session.principal.None?
      modifies session, metadata
      ensures session.Valid()
      ensures DecodeSession(data).Failure? ==> r == Failure(DecodeSession(data).error)
      ensures DecodeSession(data).Success? ==>
        && metadata.attrHash == DecodeSession(data).value.0
        && var merged := Merged(DecodeSession(data).value.1);
        && (merged.Failure? ==> r == Failure(merged.error))
        && (merged.Success? ==> r == Success(()) && session.Snapshot() == merged.value)
    {
      var record := DeserializeRecord(data, metadata);
      if record.Failure? {
        return Failure(record.error);
      }
      ghost var st := DecodeSession(data).value.1;
      assert record.value.State() == st;
      r := session.FromPersistedSession(record.value);
      if Merged(st).Success? {
        ghost var es := st.attributes.value;
        assert es[..FirstRefused(es)] == es;
        assert session.Snapshot() == Persisted(st.creationTime, st.lastAccessedTime, st.maxInactiveInterval,
          st.isNew, st.isValid, st.thisAccessedTime, st.id, session.principal, PutAll([], es));
      }
    }

    /** sessionFromSerializedData, with the new session and the metadata it read. */
    method SessionFromSerializedData(id: string, data: Payload, now: int64)
      returns (r: Result<(Tc8Session, PersistedSessionMetadata), Exception>)
      ensures var loaded := Loaded(data, id, now, SessionTimeoutSeconds());
        && (loaded.Failure? ==> r == Failure(loaded.error))
        && (loaded.Success? ==>
          && r.Success? && fresh(r.value.0) && fresh(r.value.1) && r.value.0.Valid() && !r.value.0.tracker.dirty
          && r.value.0.Snapshot() == loaded.value.1 && r.value.1.attrHash == loaded.value.0)
    {
      if data == NullSession {
        return Failure(PlaceholderSession);
      }
      var metadata := new PersistedSessionMetadata(defaultHash);
      var session := new Tc8Session();
      var deserialized := Deserialize(data, session, metadata);
      if deserialized.Failure? {
        return Failure(deserialized.error);
      }
      ghost var decoded := DecodeSession(data).value;
      ghost var merged := Merged(decoded.1).value;
      session.Activate(id, SessionTimeoutSeconds(), now);
      session.tracker.Reset();
      assert Loaded(data, id, now, SessionTimeoutSeconds()) == Success((decoded.0, session.Snapshot()));
      return Success((session, metadata));
    }

    /**
     * findSession: null when skipped; for no id, or an id the store does not hold, the
     * slots are reset to an unpersisted empty state; the slot's id returns the slot's
     * session; otherwise the stored session is loaded into the slots, persisted.
     */
    method FindSession(id: Option<string>, skip: bool, now: int64) returns (r: Result<Tc8Session?, Exception>)
      modifies context
      ensures skip ==> r == Success(null) && unchanged(context)
      ensures !skip && (id.None? || (id != old(context.sessionId) && id.value !in store.data)) ==>
        && r == Success(null) && context.session == null && context.metadata == null
        && context.sessionId.None? && context.isPersisted == Some(false)
      ensures !skip && id.Some? && id == old(context.sessionId) ==> r == Success(old(context.session)) && unchanged(context)
      ensures !skip && id.Some? && id != old(context.sessionId) && id.value in store.data ==> (
        var loaded := Loaded(store.data[id.value], id.value, now, SessionTimeoutSeconds());
        && (loaded.Failure? ==> r == Failure(loaded.error) && unchanged(context))
        && (loaded.Success? ==>
          && r.Success? && r.value != null && fresh(r.value) && r.value.Valid() && !r.value.tracker.dirty
          && r.value.Snapshot() == loaded.value.1
          && context.session == r.value && context.sessionId == id && context.isPersisted == Some(true)
          && context.metadata != null && fresh(context.metadata) && context.metadata.attrHash == loaded.value.0))
    {
      if skip {
        return Success(null);
      }
      if id.None? {
        context.isPersisted := Some(false);
        context.session := null;
        context.metadata := null;
        context.sessionId := None;
        return Success(null);
      }
      if id == context.sessionId {
        return Success(context.session);
      }
      var data := store.Get(id.value);
      if data.None? {
        context.isPersisted := Some(false);
        context.session := null;
        context.metadata := null;
        context.sessionId := None;
        return Success(null);
      }
      var container := SessionFromSerializedData(id.value, data.value, now);
      if container.Failure? {
        return Failure(container.error);
      }
      var session := container.value.0;
      context.isPersisted := Some(true);
      context.session := session;
      context.metadata := container.value.1;
      context.sessionId := id;
      return Success(session);
    }

    /**
     * afterRequest: unless skipped, a valid session is saved (forced under ALWAYS) and
     * an invalidated one removed, any exception being swallowed; the slots are cleared
     * in every case.
     */
    method AfterRequest(skip: bool)
      modifies context, store, if context.session == null then {} else {context.session.tracker}
      ensures context.Cleared()
      ensures old(context.session) == null || skip ==> unchanged(store)
      ensures old(context.session) != null && (skip || !old(context.session.isValid)) ==>
        unchanged(old(context.session).tracker)
      ensures old(context.session) != null && !skip && !old(context.session.isValid) ==> (
        var s := old(context.session);
        && (s.id.Some? ==> store.data == old(store.data) - {s.id.value} && store.ttl == old(store.ttl) - {s.id.value})
        && (s.id.None? ==> unchanged(store)))
      ensures old(context.session) != null && !skip && old(context.session.isValid) ==> (
        var s := old(context.session);
        var written := old(NeedsSave(s, DoSaveAlways())) && s.id.Some? && SessionTimeoutSeconds() >= 0;
        && (written ==>
          && store.data == old(store.data)[s.id.value := Layout(s.Snapshot(), AttributesHash(s))]
          && store.ttl == TtlAfterSet(old(store.ttl), s.id.value, SessionTimeoutSeconds())
          && !s.tracker.dirty)
        && (!written ==> unchanged(store) && unchanged(s.tracker)))
    {
      var s := context.session;
      if s != null && !skip {
        if s.isValid {
          var _ := Save(s, DoSaveAlways());
        } else {
          Remove(s);
        }
      }
      context.session := null;
      context.sessionId := None;
      context.metadata := null;
      context.isPersisted := None;
    }

    /**
     * What the hash comparison of saveInternal is for: a session findSession loaded
     * from what saveInternal wrote (the session's persisted form, with the hash of its
     * attributes) and left untouched needs no unforced save, since the attributes it
     * decodes to hash as the stored ones did.
     */
    lemma LoadedSessionNeedsNoSave(md5: WireValue -> Digest16, st: SessionState, key: string, now: int64,
                                   s: Tc8Session)
      requires attributesHash == (attrs => AttributesHashFrom(md5, attrs))
      requires Persistable(st) && st.attributes.Some?
      requires st.principalName.Some? <==> st.principalRoles.Some?
      requires st.principalRoles.Some? ==> SortableRoles(st.principalRoles.value)
      requires forall i | 0 <= i < |st.attributes.value| :: st.attributes.value[i].0.JString?
      requires s.Valid() && !s.tracker.dirty && context.isPersisted == Some(true) && context.metadata != null
      requires Loaded(Layout(st, attributesHash(st.attributes)), key, now, SessionTimeoutSeconds()) ==
        Success((context.metadata.attrHash, s.Snapshot()))
      ensures !NeedsSave(s, false)
    {
      SavedSessionLoads(st, attributesHash(st.attributes), key, now, SessionTimeoutSeconds());
      RestoredHashesAlike(md5, st);
      assert s.Snapshot().attributes == Restored(st).attributes;
      assert AttributesHash(s) == AttributesHashFrom(md5, Restored(st).attributes);
    }
  }

  // ------------------------------------------------------------------ lemmas

  /**
   * What saveInternal stores, findSession reads back: the hash, and the session's
   * fields with the attributes widened, the id it was read under, not new, valid,
   * accessed now and with the configured interval.
   */
  lemma SavedSessionLoads(st: SessionState, hash: int64, key: string, now: int64, interval: int32)
    requires Persistable(st) && st.attributes.Some?
    requires st.principalName.Some? <==> st.principalRoles.Some?
    requires st.principalRoles.Some? ==> SortableRoles(st.principalRoles.value)
    requires forall i | 0 <= i < |st.attributes.value| :: st.attributes.value[i].0.JString?
    ensures Loaded(Layout(st, hash), key, now, interval) ==
      Success((hash, Restored(st).(id := Some(key), isNew := false, isValid := true,
        maxInactiveInterval := interval, thisAccessedTime := now,
        userPrincipal := if st.principalName.Some? then JOther(GenericPrincipalClass) else Null)))
  {
    var data := Layout(st, hash);
    assert data != NullSession by {
      assert |data| != |NullSession|;
    }
    SessionRoundTrip(st, hash);
    WidenedAttributesClean(st);
    RestoredMerges(st, Restored(st).attributes.value);
  }

  /** The widened attributes of a persistable state with String keys have no null value and distinct String keys, so putting them builds them unchanged. */
  lemma WidenedAttributesClean(st: SessionState)
    requires Persistable(st) && st.attributes.Some?
    requires forall i | 0 <= i < |st.attributes.value| :: st.attributes.value[i].0.JString?
    ensures var ws := Restored(st).attributes.value;
      FirstRefused(ws) == |ws| && PutAll([], ws) == ws && NonNullValues(ws) == ws
  {
    var es := st.attributes.value;
    var ws := Restored(st).attributes.value;
    assert |ws| == |es|;
    assert forall i | 0 <= i < |ws| :: ws[i] == WidenedEntry(es[i]) && ws[i].0 == es[i].0;
    assert StringKeysNoNulls(ws);
    BuildDistinct(ws);
  }

  /** The merge step of SavedSessionLoads: a restored state with storable, distinct attributes merges unchanged but for its principal. */
  lemma RestoredMerges(st: SessionState, ws: seq<(JavaValue, JavaValue)>)
    requires Restored(st).attributes == Some(ws)
    requires FirstRefused(ws) == |ws| && PutAll([], ws) == ws && NonNullValues(ws) == ws
    requires st.principalName.Some? <==> st.principalRoles.Some?
    requires st.principalRoles.Some? ==> SortableRoles(st.principalRoles.value)
    ensures Merged(Restored(st)) ==
      Success(Restored(st).(userPrincipal := if st.principalName.Some? then JOther(GenericPrincipalClass) else Null))
  {
    var principal := if st.principalName.Some? then Some(Principal(st.principalName.value, st.principalRoles.value)) else None;
    assert PrincipalOf(st.principalName, st.principalRoles) == Success(principal);
    var merged := Persisted(st.creationTime, st.lastAccessedTime, st.maxInactiveInterval, st.isNew, st.isValid,
      st.thisAccessedTime, st.id, principal, ws);
    assert Merged(Restored(st)) == Success(merged);
  }

  /** A principal with no roles is stored as an empty array, which reads back as a list and fails the cast. */
  lemma EmptyRoleListIsUnreadable(st: SessionState, hash: int64, key: string, now: int64, interval: int32)
    requires st.principalRoles == Some([])
    ensures Loaded(Layout(st, hash), key, now, interval) == Failure(ClassCast)
  {
    EmptyRolesFail(st, hash);
    assert |Layout(st, hash)| != |NullSession|;
  }

  /**
   * A stored attribute map whose first key is not a String (a number, say) decodes,
   * but the cast in fromPersistedSession's lambda refuses that key.
   */
  lemma NonStringKeyIsUnreadable(st: SessionState, hash: int64, key: string, now: int64, interval: int32)
    requires Persistable(st) && st.attributes.Some? && |st.attributes.value| > 0
    requires st.attributes.value[0].0 != Null && !st.attributes.value[0].0.JString?
    requires !st.attributes.value[0].0.JOther?
    ensures Loaded(Layout(st, hash), key, now, interval) == Failure(ClassCast)
  {
    var data := Layout(st, hash);
    assert data != NullSession by {
      assert |data| != |NullSession|;
    }
    SessionRoundTrip(st, hash);
    var ws := Restored(st).attributes.value;
    var k := st.attributes.value[0].0;
    assert ws[0] == WidenedEntry(st.attributes.value[0]);
    assert Widened(k) != Null && !Widened(k).JString? by {
      if k.JCollection? || k.JArray? {
        assert Widened(k).JCollection? || Widened(k).JArray?;
      }
    }
    assert Refusal(ws[0]) == Some(ClassCast);
  }

  /**
   * A principal saved with a null role after its first one decodes, but sorting
   * the roles in the GenericPrincipal constructor throws NullPointerException.
   */
  lemma NullLaterRoleIsUnreadable(st: SessionState, hash: int64, key: string, now: int64, interval: int32)
    requires Persistable(st) && st.attributes.Some?
    requires st.principalName.Some? && st.principalRoles.Some? && !SortableRoles(st.principalRoles.value)
    requires forall i | 0 <= i < |st.attributes.value| :: st.attributes.value[i].0.JString?
    ensures Loaded(Layout(st, hash), key, now, interval) == Failure(NullPointer)
  {
    var data := Layout(st, hash);
    assert data != NullSession by {
      assert |data| != |NullSession|;
    }
    SessionRoundTrip(st, hash);
    WidenedAttributesClean(st);
  }

  /** An id that was claimed but never saved holds the placeholder, which loading refuses with an IOException. */
  lemma ClaimedIdIsRefused(key: string, now: int64, interval: int32)
    ensures Loaded(NullSession, key, now, interval).Failure?
    ensures Loaded(NullSession, key, now, interval).error.IsIOException()
  {
  }
}
