/**
 * The Jersey integration: a manager that writes a session back when forced or
 * dirty, the session object a resource sees, and the request-scoped factory that
 * finds the session id in a header or a cookie and loads the session.
 */
module Jersey {
  import opened Wrappers
  import opened JavaLang
  import opened AssocList
  import opened Wire
  import opened MsgPackUtil
  import opened Model
  import opened SessionSerializer
  import opened DirtyTracking
  import opened Persistence
  import opened Storage
  import Tc8

  /** The cookie (and header) name a new manager looks for. */
  const DefaultCookieName: string := "session_id"

  // --------------------------------------------------------------- roles

  /**
   * Arrays.stream(roles).anyMatch(s -> s.equals(role)): the roles in order, stopping
   * at the first match; reaching a null role throws.
   */
  function AnyMatch(roles: seq<Option<string>>, role: string): (r: Result<bool, Exception>)
    ensures r == Success(true) ==> Some(role) in roles
    ensures r == Success(false) ==> Some(role) !in roles && None !in roles
    ensures r.Failure? ==> r.error == NullPointer && None in roles
  {
    if roles == [] then Success(false)
    else if roles[0].None? then Failure(NullPointer)
    else if roles[0].value == role then Success(true)
    else
      var rest := AnyMatch(roles[1..], role);
      assert roles == [roles[0]] + roles[1..];
      rest
  }

  /** Without null roles, anyMatch is membership. */
  lemma {:induction false} NonNullRolesMatchMembership(roles: seq<Option<string>>, role: string)
    requires forall i | 0 <= i < |roles| :: roles[i].Some?
    ensures AnyMatch(roles, role) == Success(Some(role) in roles)
  {
    if roles != [] && roles[0].value != role {
      NonNullRolesMatchMembership(roles[1..], role);
      assert roles == [roles[0]] + roles[1..];
    }
  }

  /** A null role met before any match throws, whatever follows it. */
  lemma {:induction false} NullBeforeMatchFails(roles: seq<Option<string>>, role: string, j: nat)
    requires j < |roles| && roles[j].None?
    requires forall i | 0 <= i < j :: roles[i] != Some(role)
    ensures AnyMatch(roles, role) == Failure(NullPointer)
  {
    if j > 0 {
      NullBeforeMatchFails(roles[1..], role, j - 1);
    }
  }

  /** A match met before any null role is found, whatever follows it. */
  lemma {:induction false} MatchBeforeNullSucceeds(roles: seq<Option<string>>, role: string, j: nat)
    requires j < |roles| && roles[j] == Some(role)
    requires forall i | 0 <= i < j :: roles[i].Some?
    ensures AnyMatch(roles, role) == Success(true)
  {
    if j > 0 && roles[0].value != role {
      MatchBeforeNullSucceeds(roles[1..], role, j - 1);
    }
  }

  /** SecurityContextImpl: a view of the session record it was made from, read when asked. */
  class SecurityContextImpl {
    const impl: PersistedSession

    constructor(impl: PersistedSession)
      ensures this.impl == impl
    {
      this.impl := impl;
    }

    /** isUserInRole: a null role is rejected; a null role array holds no role. */
    function IsUserInRole(role: Option<string>): (r: Result<bool, Exception>)
      reads impl
      ensures role.None? ==> r == Failure(NullPointer)
      ensures role.Some? && impl.principalRoles.None? ==> r == Success(false)
      ensures r == Success(true) ==> impl.principalRoles.Some? && Some(role.value) in impl.principalRoles.value
      ensures role.Some? && impl.principalRoles.Some? && None !in impl.principalRoles.value ==>
        r == Success(Some(role.value) in impl.principalRoles.value)
    {
      if role.None? then Failure(NullPointer)
      else if impl.principalRoles.None? then Success(false)
      else
        var roles := impl.principalRoles.value;
        assert None !in roles ==> AnyMatch(roles, role.value) == Success(Some(role.value) in roles) by {
          if None !in roles {
            NonNullRolesMatchMembership(roles, role.value);
          }
        }
        AnyMatch(roles, role.value)
    }
  }

  // ------------------------------------------------------------- sessions

  /** The key an attribute name is stored under: the name, or null. */
  function KeyOf(name: Option<string>): JavaValue {
    StringValue(name)
  }

  /** Map.get as Java returns it: the value, or null when the key is absent. */
  function ValueOrNull(v: Option<JavaValue>): JavaValue {
    if v.Some? then v.value else Null
  }

  /**
   * RedisSessionImpl: the session record it holds (null until fromPersistedSession
   * gives it one), its dirty tracker, and the manager whose configuration it reads.
   */
  class RedisSessionImpl {
    const manager: RedisSessionManager
    const dirtyTracker: DirtySessionTracker
    var impl: PersistedSession?

    /** A new session holds no record and is clean. */
    constructor(manager: RedisSessionManager)
      ensures this.manager == manager && impl == null
      ensures fresh(dirtyTracker) && !dirtyTracker.dirty
    {
      this.manager := manager;
      dirtyTracker := new DirtySessionTracker();
      impl := null;
    }

    /** A record is held, and its attribute map, if any, has distinct keys. */
    ghost predicate Valid()
      reads this, impl, if impl == null then {} else {impl.attributes}
    {
      impl != null && (impl.attributes != null ==> impl.attributes.Valid())
    }

    /** The skip-attributes pattern matches the name. */
    predicate Skipped(name: Option<string>) {
      manager.skipAttributes.Some? && name.Some? && manager.skipAttributes.value(name.value)
    }

    /** getAttribute: the value under the name, or null; a null map throws. */
    function GetAttribute(name: Option<string>): (r: Result<JavaValue, Exception>)
      requires impl != null
      reads this, impl, impl.attributes
      ensures r.Failure? <==> impl.attributes == null
      ensures r.Failure? ==> r.error == NullPointer
      ensures r.Success? ==> r.value == ValueOrNull(Lookup(impl.attributes.entries, KeyOf(name)))
    {
      if impl.attributes == null then Failure(NullPointer)
      else Success(ValueOrNull(impl.attributes.Get(KeyOf(name))))
    }

    /**
     * setAttribute: a name the skip pattern matches changes nothing (a null name
     * cannot be matched and throws); otherwise the name maps to value, and the
     * session turns dirty when isChanged(previous, value). doSaveImmediate is
     * false, so no save happens here.
     */
    method SetAttribute(name: Option<string>, value: JavaValue) returns (r: Result<(), Exception>)
      requires Valid()
      modifies impl.attributes, dirtyTracker
      ensures Valid()
      ensures manager.skipAttributes.Some? && name.None? ==>
        r == Failure(NullPointer) && impl.State() == old(impl.State()) && unchanged(dirtyTracker)
      ensures Skipped(name) ==> r == Success(()) && impl.State() == old(impl.State()) && unchanged(dirtyTracker)
      ensures !(manager.skipAttributes.Some? && name.None?) && !Skipped(name) && impl.attributes == null ==>
        r == Failure(NullPointer) && unchanged(dirtyTracker)
      ensures !(manager.skipAttributes.Some? && name.None?) && !Skipped(name) && impl.attributes != null ==>
        && r == Success(())
        && impl.attributes.entries == AssocList.Put(old(impl.attributes.entries), KeyOf(name), value)
        && GetAttribute(name) == Success(value)
        && (forall k | k != KeyOf(name) :: impl.attributes.Get(k) == old(impl.attributes.Get(k)))
        && dirtyTracker.dirty ==
          (old(dirtyTracker.dirty) || DirtySessionTracker.IsChanged(old(ValueOrNull(impl.attributes.Get(KeyOf(name)))), value))
    {
      if manager.skipAttributes.Some? {
        if name.None? {
          return Failure(NullPointer);
        }
        if manager.skipAttributes.value(name.value) {
          return Success(());
        }
      }
      var attributes := impl.attributes;
      if attributes == null {
        return Failure(NullPointer);
      }
      r := PutAndTrack(attributes, dirtyTracker, KeyOf(name), value);
    }

    /** The put of setAttribute, after the skip check: store the value, then mark dirty on a change. */
    static method PutAndTrack(attributes: AttributeMap, tracker: DirtySessionTracker, key: JavaValue, value: JavaValue)
      returns (r: Result<(), Exception>)
      requires attributes.Valid()
      modifies attributes, tracker
      ensures attributes.Valid() && r == Success(())
      ensures attributes.entries == AssocList.Put(old(attributes.entries), key, value)
      ensures attributes.Get(key) == Some(value)
      ensures forall k | k != key :: attributes.Get(k) == old(attributes.Get(k))
      ensures tracker.dirty == (old(tracker.dirty) || DirtySessionTracker.IsChanged(ValueOrNull(old(attributes.Get(key))), value))
    {
      var prevValue := ValueOrNull(attributes.Get(key));
      var _ := attributes.Put(key, value);
      var changed := DirtySessionTracker.IsChanged(prevValue, value);
      if changed {
        tracker.MarkDirty();
      }
      return Success(());
    }

    /** removeAttribute: the name is gone afterwards and the session is dirty, even if the name was absent. */
    method RemoveAttribute(name: Option<string>) returns (r: Result<(), Exception>)
      requires Valid()
      modifies impl.attributes, dirtyTracker
      ensures Valid()
      ensures impl.attributes == null ==> r == Failure(NullPointer) && unchanged(dirtyTracker)
      ensures impl.attributes != null ==>
        && r == Success(())
        && impl.attributes.entries == AssocList.Remove(old(impl.attributes.entries), KeyOf(name))
        && GetAttribute(name) == Success(Null)
        && (forall k | k != KeyOf(name) :: impl.attributes.Get(k) == old(impl.attributes.Get(k)))
        && dirtyTracker.dirty
    {
      if impl.attributes == null {
        return Failure(NullPointer);
      }
      var _ := impl.attributes.Remove(KeyOf(name));
      dirtyTracker.MarkDirty();
      return Success(());
    }

    /** invalidate: the record turns invalid and the session's key is deleted from the store. */
    method Invalidate()
      requires impl != null
      modifies impl, manager.store
      ensures impl.State() == old(impl.State()).(isValid := false)
      ensures manager.Deleted(this)
    {
      impl.isValid := false;
      manager.Remove(this);
    }

    /** getSecurityContext: none without a principal name, else a view of the record. */
    method GetSecurityContext() returns (c: SecurityContextImpl?)
      requires impl != null
      ensures c == null <==> impl.principalName.None?
      ensures c != null ==> fresh(c) && c.impl == impl
    {
      if impl.principalName.None? {
        return null;
      }
      c := new SecurityContextImpl(impl);
    }

    /** asPersistableSession().asPersistedSession(): the held record itself, not a copy. */
    method AsPersistedSession() returns (r: PersistedSession?)
      ensures r == impl
    {
      r := impl;
    }

    /** asPersistableSession().fromPersistedSession: the given record replaces the held one, shared. */
    method FromPersistedSession(session: PersistedSession)
      modifies this`impl
      ensures impl == session
    {
      impl := session;
    }
  }

  // -------------------------------------------------------------- manager

  class RedisSessionManager {
    const store: Store
    /** attributesHashFrom, on an attribute map (null when absent). */
    const attributesHash: Option<seq<(JavaValue, JavaValue)>> -> int64
    /** The hash a new PersistedSessionMetadata starts with. */
    const defaultHash: int64
    /** The skip-attributes pattern, as the predicate its matcher decides. */
    const skipAttributes: Option<string -> bool>
    var persistenceStrategy: PersistenceStrategy
    var sessionTimeoutSeconds: int32
    var sessionCookieName: string

    /** The defaults: ALWAYS, no lifetime, the "session_id" cookie. */
    constructor(store: Store, md5: WireValue -> Digest16, defaultHash: int64, skipAttributes: Option<string -> bool>)
      ensures this.store == store && this.defaultHash == defaultHash && this.skipAttributes == skipAttributes
      ensures attributesHash == (attrs => AttributesHashFrom(md5, attrs))
      ensures persistenceStrategy == Always && sessionTimeoutSeconds == 0
      ensures sessionCookieName == DefaultCookieName
    {
      this.store := store;
      attributesHash := attrs => AttributesHashFrom(md5, attrs);
      this.defaultHash := defaultHash;
      this.skipAttributes := skipAttributes;
      persistenceStrategy := Always;
      sessionTimeoutSeconds := 0;
      sessionCookieName := DefaultCookieName;
    }

    /** setPersistenceStrategy: fromName of the name; an unknown name throws and leaves the strategy. */
    method SetPersistenceStrategy(name: Option<string>) returns (r: Result<(), Exception>)
      modifies this`persistenceStrategy
      ensures FromName(name).Failure? ==> r == Failure(IllegalArgument) && persistenceStrategy == old(persistenceStrategy)
      ensures FromName(name).Success? ==> r == Success(()) && persistenceStrategy == FromName(name).value
    {
      var strategy := FromName(name);
      if strategy.Failure? {
        return Failure(strategy.error);
      }
      persistenceStrategy := strategy.value;
      return Success(());
    }

    method SetSessionTimeoutSeconds(seconds: int32)
      modifies this`sessionTimeoutSeconds
      ensures sessionTimeoutSeconds == seconds
    {
      sessionTimeoutSeconds := seconds;
    }

    /** doSaveAlways: the strategy is ALWAYS. */
    function DoSaveAlways(): (r: bool)
      reads this
      ensures r <==> persistenceStrategy == Always
      ensures r <==> persistenceStrategy != OnChange
    {
      persistenceStrategy == Always
    }

    /** The hash save writes with a session: attributesHashFrom of its record's attributes. */
    function HashOf(session: RedisSessionImpl): int64
      requires session.impl != null
      reads session, session.impl, session.impl.attributes
    {
      attributesHash(session.impl.State().attributes)
    }

    /**
     * The store after a write of the session: under its id, with the configured
     * lifetime, the record packed with its attribute hash; nothing when the id is
     * null or the lifetime is negative, as the command then fails.
     */
    twostate predicate Stored(session: RedisSessionImpl)
      requires session.impl != null
      reads this, store, session, session.impl, session.impl.attributes
    {
      var id := session.impl.id;
      if id.Some? && sessionTimeoutSeconds >= 0 then
        && store.data == old(store.data)[id.value := Layout(session.impl.State(), HashOf(session))]
        && store.ttl == TtlAfterSet(old(store.ttl), id.value, sessionTimeoutSeconds)
      else
        unchanged(store)
    }

    /** The store after removing the session: its id's key gone, or nothing for a null id. */
    twostate predicate Deleted(session: RedisSessionImpl)
      requires session.impl != null
      reads store, session, session.impl
    {
      var id := session.impl.id;
      if id.Some? then
        store.data == old(store.data) - {id.value} && store.ttl == old(store.ttl) - {id.value}
      else
        unchanged(store)
    }

    /**
     * save: writes iff forced or dirty, without comparing hashes, and leaves the
     * dirty flag as it was; a failed command is an IOException.
     */
    method Save(session: RedisSessionImpl, force: bool) returns (r: Result<(), Exception>)
      requires session.impl != null
      modifies store
      ensures unchanged(session.dirtyTracker)
      ensures !force && !session.dirtyTracker.dirty ==> r == Success(()) && unchanged(store)
      ensures force || session.dirtyTracker.dirty ==>
        && (r.Success? <==> session.impl.id.Some? && sessionTimeoutSeconds >= 0)
        && (r.Failure? ==> r.error == IOFailure(CommandFailed))
        && Stored(session)
    {
      var dirty := session.dirtyTracker.IsDirty();
      if !force && !dirty {
        return Success(());
      }
      var record := session.AsPersistedSession();
      var metadata := new PersistedSessionMetadata(attributesHash(record.State().attributes));
      var payload := Serialize(record, metadata);
      if record.id.None? {
        return Failure(IOFailure(CommandFailed));
      }
      var stored := store.Set(record.id.value, sessionTimeoutSeconds, payload);
      if stored.Failure? {
        return Failure(IOFailure(stored.error));
      }
      return Success(());
    }

    /** remove: deletes exactly the key equal to the session id; the command's outcome is not awaited. */
    method Remove(session: RedisSessionImpl)
      requires session.impl != null
      modifies store
      ensures Deleted(session)
    {
      var id := session.impl.id;
      if id.Some? {
        var _ := store.Delete(id.value);
      }
    }

    /**
     * afterRequest: a valid session is saved, forced under ALWAYS; an invalid one is
     * removed; every exception, a missing record's included, is swallowed.
     */
    twostate predicate Finished(session: RedisSessionImpl)
      reads this, store, session, session.dirtyTracker, session.impl,
        if session.impl == null then {} else {session.impl.attributes}
    {
      if session.impl == null then unchanged(store)
      else if !session.impl.isValid then Deleted(session)
      else if DoSaveAlways() || session.dirtyTracker.dirty then Stored(session)
      else unchanged(store)
    }

    method AfterRequest(session: RedisSessionImpl)
      modifies store
      ensures Finished(session)
    {
      var record := session.AsPersistedSession();
      if record == null {
        return;
      }
      if record.isValid {
        var _ := Save(session, DoSaveAlways());
      } else {
        Remove(session);
      }
    }

    /**
     * findSession: null for an absent key; otherwise a new session holding the
     * record deserialize reads, with no placeholder check and the metadata
     * discarded. A decoding exception propagates.
     */
    method FindSession(id: string) returns (r: Result<RedisSessionImpl?, Exception>)
      ensures id !in store.data ==> r == Success(null)
      ensures id in store.data && DecodeSession(store.data[id]).Failure? ==>
        r == Failure(DecodeSession(store.data[id]).error)
      ensures id in store.data && DecodeSession(store.data[id]).Success? ==>
        && r.Success? && r.value != null
        && fresh(r.value) && fresh(r.value.dirtyTracker) && fresh(r.value.impl)
        && r.value.manager == this && !r.value.dirtyTracker.dirty && r.value.Valid()
        && r.value.impl.State() == DecodeSession(store.data[id]).value.1
    {
      var data := store.Get(id);
      if data.None? {
        return Success(null);
      }
      var metadata := new PersistedSessionMetadata(defaultHash);
      var session := new RedisSessionImpl(this);
      // serializer.deserialize into the session's PersistableSession view
      var record := DeserializeRecord(data.value, metadata);
      if record.Failure? {
        return Failure(record.error);
      }
      session.FromPersistedSession(record.value);
      DecodedAttributesDistinct(data.value);
      return Success(session);
    }
  }

  /** A decoded attribute map has distinct keys: Collectors.toMap rejects a repeated key. */
  lemma DecodedAttributesDistinct(data: Payload)
    requires DecodeSession(data).Success?
    ensures DecodeSession(data).value.1.attributes.Some? ==> DistinctKeys(DecodeSession(data).value.1.attributes.value)
  {
    var refs := ReferencesAt(data);
    assert refs.Success?;
    var o10 := AsObject(data[10]);
    assert o10.Success?;
  }

  // -------------------------------------------------------------- factory

  /** What provide asks of a request: the header strings, and each cookie's value (possibly null) by name. */
  datatype RequestHeaders = RequestHeaders(headers: map<string, string>, cookies: map<string, Option<string>>)

  /** The session a request gets: RedisSession.NULL_SESSION, whose methods all throw, or a loaded session. */
  datatype RedisSession = NoSession | Impl(session: RedisSessionImpl)

  /** The session id of a request: a non-empty header named after the cookie wins, else the cookie's value. */
  function SessionIdOf(request: RequestHeaders, name: string): (r: Option<string>)
    ensures name in request.headers && request.headers[name] != "" ==> r == Some(request.headers[name])
    ensures r.Some? && r.value != "" ==>
      || (name in request.headers && request.headers[name] == r.value)
      || (name in request.cookies && request.cookies[name] == r)
    ensures r.None? <==>
      (name !in request.headers || request.headers[name] == "") &&
      (name !in request.cookies || request.cookies[name].None?)
  {
    if name in request.headers && request.headers[name] != "" then Some(request.headers[name])
    else if name in request.cookies then request.cookies[name]
    else None
  }

  /** An empty header is passed over exactly as a missing one. */
  lemma EmptyHeaderIsAbsent(request: RequestHeaders, name: string)
    ensures SessionIdOf(request.(headers := request.headers[name := ""]), name) ==
      SessionIdOf(request.(headers := request.headers - {name}), name)
    ensures SessionIdOf(request.(headers := request.headers - {name}), name) ==
      (if name in request.cookies then request.cookies[name] else None)
  {
  }

  class RedisSessionFactory {
    const manager: RedisSessionManager
    const request: RequestHeaders

    constructor(manager: RedisSessionManager, request: RequestHeaders)
      ensures this.manager == manager && this.request == request
    {
      this.manager := manager;
      this.request := request;
    }

    /**
     * provide: NULL_SESSION without an id, for an empty id, for an id the store
     * lacks and when loading raises an IOException; any other exception propagates.
     */
    method Provide() returns (r: Result<RedisSession, Exception>)
      ensures
        var id := SessionIdOf(request, manager.sessionCookieName);
        && ((id.None? || id.value == "" || id.value !in manager.store.data) ==> r == Success(NoSession))
        && (id.Some? && id.value != "" && id.value in manager.store.data ==>
          var decoded := DecodeSession(manager.store.data[id.value]);
          && (decoded.Failure? ==>
            r == if decoded.error.IsIOException() then Success(NoSession) else Failure(decoded.error))
          && (decoded.Success? ==>
            && r.Success? && r.value.Impl?
            && fresh(r.value.session) && fresh(r.value.session.impl)
            && r.value.session.manager == manager && r.value.session.Valid()
            && !r.value.session.dirtyTracker.dirty
            && r.value.session.impl.State() == decoded.value.1))
    {
      var id := SessionIdOf(request, manager.sessionCookieName);
      if id.None? || id.value == "" {
        return Success(NoSession);
      }
      var found := manager.FindSession(id.value);
      if found.Failure? {
        if found.error.IsIOException() {
          return Success(NoSession);
        }
        return Failure(found.error);
      }
      if found.value == null {
        return Success(NoSession);
      }
      return Success(Impl(found.value));
    }

    /** dispose: nothing for NULL_SESSION; any other session goes to afterRequest. */
    method Dispose(session: RedisSession)
      modifies manager.store
      ensures session.NoSession? ==> unchanged(manager.store)
      ensures session.Impl? ==> manager.Finished(session.session)
    {
      if session.NoSession? {
        return;
      }
      manager.AfterRequest(session.session);
    }
  }

  // --------------------------------------------------------------- lemmas

  /**
   * The id-claim placeholder another node may have written cannot be read: the
   * fourth value is missing. The exception is not an IOException, so provide
   * propagates it instead of answering NULL_SESSION.
   */
  lemma PlaceholderIsUnreadable()
    ensures DecodeSession(Tc8.NullSession) == Failure(MessageInsufficientBuffer)
    ensures !MessageInsufficientBuffer.IsIOException()
  {
    var data := Tc8.NullSession;
    assert LongOf(data[1]) == Success(117);
    assert LongOf(data[2]) == Success(108);
    assert IntOf(data[3]) == Success(108);
    assert ValueAt(data, 4) == Failure(MessageInsufficientBuffer);
  }

  /**
   * setAttribute(name, null) stores a null value, and what save then writes cannot
   * be loaded: the decoded map rejects the null value with a NullPointerException.
   */
  lemma NullAttributeIsUnreadable(st: SessionState, hash: int64, name: string)
    requires st.principalRoles.None? || (|st.principalRoles.value| > 0 && st.principalRoles.value[0].Some?)
    requires st.attributes == Some([(JString(name), Null)])
    ensures DecodeSession(Layout(st, hash)) == Failure(NullPointer)
  {
    LayoutScalars(st, hash);
    StringRoundTrip(st.id);
    StringRoundTrip(st.principalName);
    RolesRoundTrip(st.principalRoles);
    NullAttributeEncoding(name);
    var data := Layout(st, hash);
    assert ReferencesAt(data) == Failure(NullPointer);
  }

  /** A map holding one null value encodes as one nil value, which asObject rejects. */
  lemma NullAttributeEncoding(name: string)
    ensures AsObject(AsValue(AttributesValue(Some([(JString(name), Null)])))) == Failure(NullPointer)
  {
    var es := [(JString(name), Null)];
    assert seq(|es|, i requires 0 <= i < |es| => AsEntry(es[i])) == [(Str(name), Nil)];
    BuildDistinct([(Str(name), Nil)]);
    assert AsValue(JMap(es)) == MapV([(Str(name), Nil)]);
    NilValueOnlyEntryFails(Str(name));
  }

  /** Putting a null value into an empty map leaves exactly that entry, the one the lemma above rejects. */
  lemma NullPutIntoEmptyMap(name: string)
    ensures AssocList.Put([], KeyOf(Some(name)), Null) == [(JString(name), Null)]
  {
  }
}
