/**
 * The platform-agnostic session record and its metadata. PersistedSession has
 * public fields that fromPersistedSession overwrites in place; its attributes
 * are a java.util.Map object, shared rather than copied.
 */
module Model {
  import opened Wrappers
  import opened JavaLang
  import opened AssocList

  /** A mutable java.util.Map<String, Object>: its entries in iteration order. */
  class AttributeMap {
    var entries: seq<(JavaValue, JavaValue)>

    /** A map never holds one key twice. */
    ghost predicate Valid()
      reads this
    {
      DistinctKeys(entries)
    }

    constructor(entries: seq<(JavaValue, JavaValue)>)
      ensures this.entries == entries
    {
      this.entries := entries;
    }

    /** Map.get */
    function Get(k: JavaValue): (r: Option<JavaValue>)
      reads this
      ensures r.Some? <==> HasKey(entries, k)
    {
      Lookup(entries, k)
    }

    /** Map.put: returns the previous value; k maps to v afterwards and no other key changes. */
    method Put(k: JavaValue, v: JavaValue) returns (prev: Option<JavaValue>)
      requires Valid()
      modifies this
      ensures Valid()
      ensures prev == old(Get(k))
      ensures entries == AssocList.Put(old(entries), k, v)
      ensures Get(k) == Some(v)
      ensures forall k' | k' != k :: Get(k') == old(Get(k'))
    {
      prev := Lookup(entries, k);
      PutDistinct(entries, k, v);
      entries := AssocList.Put(entries, k, v);
    }

    /** Map.remove: returns the previous value; k is absent afterwards and no other key changes. */
    method Remove(k: JavaValue) returns (prev: Option<JavaValue>)
      requires Valid()
      modifies this
      ensures Valid()
      ensures prev == old(Get(k))
      ensures entries == AssocList.Remove(old(entries), k)
      ensures Get(k) == None
      ensures forall k' | k' != k :: Get(k') == old(Get(k'))
    {
      prev := Lookup(entries, k);
      RemoveKeepsDistinct(entries, k);
      entries := AssocList.Remove(entries, k);
    }
  }

  lemma {:induction false} RemoveKeepsDistinct(m: seq<(JavaValue, JavaValue)>, k: JavaValue)
    requires DistinctKeys(m)
    ensures DistinctKeys(AssocList.Remove(m, k))
  {
    if m != [] {
      var rest := AssocList.Remove(m[1..], k);
      RemoveKeepsDistinct(m[1..], k);
      if m[0].0 != k {
        assert !HasKey(rest, m[0].0) by {
          assert !HasKey(m[1..], m[0].0);
          assert Lookup(rest, m[0].0) == Lookup(m[1..], m[0].0);
        }
        var r := [m[0]] + rest;
        forall i, j | 0 <= i < j < |r| ensures r[i].0 != r[j].0 {
          if i == 0 {
            assert r[j] == rest[j - 1];
          } else {
            assert r[i] == rest[i - 1] && r[j] == rest[j - 1];
          }
        }
      }
    }
  }

  /** The values a PersistedSession holds at one moment; attributes is the content of its map. */
  datatype SessionState = SessionState(
    creationTime: int64,
    lastAccessedTime: int64,
    maxInactiveInterval: int32,
    isNew: bool,
    isValid: bool,
    thisAccessedTime: int64,
    id: Option<string>,
    principalName: Option<string>,
    principalRoles: Option<seq<Option<string>>>,
    userPrincipal: JavaValue,
    attributes: Option<seq<(JavaValue, JavaValue)>>)

  /** The state of a newly constructed PersistedSession: zeros, false and nulls. */
  const EmptyState: SessionState :=
    SessionState(0, 0, 0, false, false, 0, None, None, None, Null, None)

  class PersistedSession {
    var creationTime: int64
    var lastAccessedTime: int64
    var maxInactiveInterval: int32
    var isNew: bool
    var isValid: bool
    var thisAccessedTime: int64
    var id: Option<string>
    var principalName: Option<string>
    var principalRoles: Option<seq<Option<string>>>
    var userPrincipal: JavaValue
    var attributes: AttributeMap?

    constructor()
      ensures State() == EmptyState
      ensures attributes == null
    {
      creationTime := 0;
      lastAccessedTime := 0;
      maxInactiveInterval := 0;
      isNew := false;
      isValid := false;
      thisAccessedTime := 0;
      id := None;
      principalName := None;
      principalRoles := None;
      userPrincipal := Null;
      attributes := null;
    }

    /** The field values, with the attributes map read through its reference. */
    function State(): (r: SessionState)
      reads this, attributes
      ensures r.attributes.Some? <==> attributes != null
    {
      SessionState(creationTime, lastAccessedTime, maxInactiveInterval, isNew, isValid,
        thisAccessedTime, id, principalName, principalRoles, userPrincipal,
        if attributes == null then None else Some(attributes.entries))
    }

    /** asPersistedSession: the record is its own persisted form. */
    method AsPersistedSession() returns (r: PersistedSession)
      ensures r == this
    {
      r := this;
    }

    /**
     * fromPersistedSession: every field takes s's value; the attributes map is
     * shared with s, not copied.
     */
    method FromPersistedSession(s: PersistedSession)
      modifies this
      ensures State() == old(s.State())
      ensures attributes == s.attributes
    {
      var st := s.State();
      creationTime, lastAccessedTime, maxInactiveInterval := st.creationTime, st.lastAccessedTime, st.maxInactiveInterval;
      isNew, isValid, thisAccessedTime, id := st.isNew, st.isValid, st.thisAccessedTime, st.id;
      principalName, principalRoles, userPrincipal := st.principalName, st.principalRoles, st.userPrincipal;
      attributes := s.attributes;
    }
  }

  /** PersistedSessionMetadata: the attribute hash used for dirty checking, as a long. */
  class PersistedSessionMetadata {
    var attrHash: int64

    /** A fresh holder; the initial hash is a parameter, as its default is not a long. */
    constructor(initial: int64)
      ensures attrHash == initial
    {
      attrHash := initial;
    }

    method SetAttrHash(h: int64)
      modifies this
      ensures attrHash == h
    {
      attrHash := h;
    }
  }

  /** Sharing a map: a put through one session's reference is seen through the other's. */
  method SharedAttributesSeeWrites(a: PersistedSession, b: PersistedSession, k: JavaValue, v: JavaValue)
    requires a != b && a.attributes != null && a.attributes.Valid()
    modifies b, a.attributes
    ensures b.attributes == a.attributes
    ensures b.State().attributes == a.State().attributes
    ensures a.State().attributes.value == AssocList.Put(old(a.attributes.entries), k, v)
  {
    b.FromPersistedSession(a);
    var _ := b.attributes.Put(k, v);
  }
}
