/**
 * The attribute value codec: asValue maps a Java value onto the MessagePack value
 * kinds, asObject maps a MessagePack value back onto Java values.
 */
module MsgPackUtil {
  import opened Wrappers
  import opened JavaLang
  import opened AssocList
  import opened Wire
  import opened UUIDValue

  // ---------------------------------------------------------------- asValue

  /** asValue: Java value to MessagePack value; unsupported values become nil. */
  function AsValue(v: JavaValue): (r: WireValue)
    decreases v
    ensures v == Null ==> r == Nil
    ensures v.JInteger? ==> r == Int(v.i as int as MsgInt)
    ensures v.JLong? ==> r == Int(v.l as int as MsgInt)
    ensures v.JString? ==> r == Str(v.s)
    ensures v.JBoolean? ==> r == Bool(v.b)
    ensures v.JUuid? ==> r == NewUUID(v.u)
    ensures v.JOther? ==> r == Nil
    ensures (v.JCollection? || v.JArray?) ==> r.Arr? && |r.elems| == |v.elems|
    ensures v.JMap? ==> r.MapV? && |r.entries| <= |v.entries| && DistinctKeys(r.entries)
  {
    match v
    case Null => Nil
    case JInteger(i) => Int(i as int as MsgInt)
    case JLong(l) => Int(l as int as MsgInt)
    case JString(s) => Str(s)
    case JBoolean(b) => Bool(b)
    case JUuid(u) => NewUUID(u)
    case JCollection(es) => Arr(seq(|es|, i requires 0 <= i < |es| => AsValue(es[i])))
    case JMap(es) => MapV(Build(seq(|es|, i requires 0 <= i < |es| => AsEntry(es[i]))))
    case JArray(_, es) => Arr(seq(|es|, i requires 0 <= i < |es| => AsValue(es[i])))
    case JOther(_) => Nil
  }

  /** One map entry as the builder receives it: the encoded key, the encoded value. */
  function AsEntry(e: (JavaValue, JavaValue)): (WireValue, WireValue)
    decreases e
  {
    (AsValue(e.0), AsValue(e.1))
  }

  // --------------------------------------------------------------- asObject

  /** asObject: MessagePack value back to a Java value, or the exception raised on the way. */
  function AsObject(w: WireValue): (r: Result<JavaValue, Exception>)
    decreases w
    ensures w.Nil? ==> r == Success(Null)
    ensures w.Int? ==> r == Success(JLong(Wrap64(w.n as int)))
    ensures w.Str? ==> r == Success(JString(w.s))
    ensures w.Bool? ==> r == Success(JBoolean(w.b))
    ensures w.Ext? && w.typ == TYPE ==> (r.Success? <==> |w.data| >= 16)
    ensures w.Ext? && w.typ == TYPE && r.Success? ==> r.value == JUuid(UuidFromBytes(w.data).value)
    ensures w.Ext? && w.typ != TYPE ==> r == Success(Null)
    ensures w.Arr? && w.elems == [] ==> r == Success(JCollection([]))
    ensures w.Arr? && w.elems != [] && r.Success? ==> r.value.JArray? && |r.value.elems| == |w.elems|
    ensures w.MapV? && r.Success? ==>
      && r.value.JMap?
      && |r.value.entries| == |w.entries|
      && DistinctKeys(r.value.entries)
      && forall i | 0 <= i < |r.value.entries| :: r.value.entries[i].1 != Null
  {
    match w
    case Nil => Success(Null)
    case Int(n) => Success(JLong(Wrap64(n as int)))
    case Str(s) => Success(JString(s))
    case Bool(b) => Success(JBoolean(b))
    case Ext(t, data) =>
      if t == TYPE then
        var u :- UuidFromBytes(data);
        Success(JUuid(u))
      else
        Success(Null)
    case Arr(es) =>
      var os :- Collect(seq(|es|, i requires 0 <= i < |es| => AsObject(es[i])));
      ArrayOf(os)
    case MapV(es) =>
      var m :- ToMap(seq(|es|, i requires 0 <= i < |es| => DecodeEntry(es[i])), []);
      Success(JMap(m))
  }

  /** The key mapper, then the value mapper, of Collectors.toMap applied to one entry. */
  function DecodeEntry(e: (WireValue, WireValue)): (r: Result<(JavaValue, JavaValue), Exception>)
    decreases e
    ensures r.Success? <==> AsObject(e.0).Success? && AsObject(e.1).Success?
    ensures r.Success? ==> r.value == (AsObject(e.0).value, AsObject(e.1).value)
    ensures AsObject(e.0).Failure? ==> r == Failure(AsObject(e.0).error)
    ensures AsObject(e.0).Success? && AsObject(e.1).Failure? ==> r == Failure(AsObject(e.1).error)
  {
    var k :- AsObject(e.0);
    var v :- AsObject(e.1);
    Success((k, v))
  }

  /** A stream collected in order: every element, or the first exception raised. */
  function Collect<T>(rs: seq<Result<T, Exception>>): (r: Result<seq<T>, Exception>)
    ensures r.Success? <==> forall i | 0 <= i < |rs| :: rs[i].Success?
    ensures r.Success? ==> |r.value| == |rs| && forall i | 0 <= i < |rs| :: r.value[i] == rs[i].value
    ensures r.Failure? ==> exists i | 0 <= i < |rs| ::
      rs[i].Failure? && r.error == rs[i].error && forall j | 0 <= j < i :: rs[j].Success?
  {
    if rs == [] then Success([])
    else if rs[0].Failure? then Failure(rs[0].error)
    else
      var rest :- Collect(rs[1..]);
      Success([rs[0].value] + rest)
  }

  /** x can be stored into an array whose component class is c. */
  predicate Storable(x: JavaValue, c: JClass) {
    x == Null || InstanceOf(x, c)
  }

  /**
   * The list-to-array step: an empty list stays itself; otherwise a new array of the
   * first element's class receives every element, which throws on a null first
   * element and on any element the array cannot store.
   */
  function ArrayOf(os: seq<JavaValue>): (r: Result<JavaValue, Exception>)
    ensures os == [] ==> r == Success(JCollection([]))
    ensures os != [] && os[0] == Null ==> r == Failure(NullPointer)
    ensures os != [] && os[0] != Null ==>
      (r.Success? <==> forall i | 0 <= i < |os| :: Storable(os[i], ClassOf(os[0])))
    ensures r.Success? && os != [] ==> r.value == JArray(ClassOf(os[0]), os)
    ensures r.Failure? ==> r.error == NullPointer || r.error == ArrayStore
  {
    if os == [] then Success(JCollection([]))
    else if os[0] == Null then Failure(NullPointer)
    else if exists i | 0 <= i < |os| :: !Storable(os[i], ClassOf(os[0])) then Failure(ArrayStore)
    else Success(JArray(ClassOf(os[0]), os))
  }

  /** No entry of m has a null value. */
  predicate NoNullValues(m: seq<(JavaValue, JavaValue)>) {
    forall i | 0 <= i < |m| :: m[i].1 != Null
  }

  /**
   * Collectors.toMap over the decoded entries, in order: a failed decode, a null
   * value (NullPointerException) or a key already present (IllegalStateException)
   * stops the collection.
   */
  function ToMap(rs: seq<Result<(JavaValue, JavaValue), Exception>>, acc: seq<(JavaValue, JavaValue)>)
    : (r: Result<seq<(JavaValue, JavaValue)>, Exception>)
    requires DistinctKeys(acc) && NoNullValues(acc)
    ensures r.Success? ==>
      && (forall i | 0 <= i < |rs| :: rs[i].Success?)
      && |r.value| == |acc| + |rs|
      && r.value[..|acc|] == acc
      && (forall i | 0 <= i < |rs| :: r.value[|acc| + i] == rs[i].value)
      && DistinctKeys(r.value)
      && NoNullValues(r.value)
  {
    if rs == [] then Success(acc)
    else if rs[0].Failure? then Failure(rs[0].error)
    else if rs[0].value.1 == Null then Failure(NullPointer)
    else if HasKey(acc, rs[0].value.0) then Failure(DuplicateKey)
    else
      var acc' := acc + [rs[0].value];
      assert DistinctKeys(acc') by {
        forall i, j | 0 <= i < j < |acc'| ensures acc'[i].0 != acc'[j].0 {
          if j == |acc| {
            assert acc'[i] == acc[i];
          }
        }
      }
      var r := ToMap(rs[1..], acc');
      if r.Success? then
        assert r.value[..|acc|] == acc by {
          assert r.value[..|acc|] == r.value[..|acc'|][..|acc|];
        }
        assert forall i | 0 <= i < |rs| :: r.value[|acc| + i] == rs[i].value by {
          forall i | 0 <= i < |rs| ensures r.value[|acc| + i] == rs[i].value {
            if i == 0 {
              assert r.value[|acc|] == r.value[..|acc'|][|acc|];
            } else {
              assert rs[i] == rs[1..][i - 1];
            }
          }
        }
        r
      else
        r
  }

  // ----------------------------------------------------- round-trip reference

  /**
   * The Java value asObject(asValue(v)) is expected to yield: integers widened to
   * Long, unsupported values as null, a non-empty collection or array as an array
   * typed by its first element's class, an empty one as an empty list, maps entry
   * by entry.
   */
  function Widened(v: JavaValue): (r: JavaValue)
    decreases v
  {
    match v
    case JInteger(i) => JLong(i as int as int64)
    case JCollection(es) => TypedArray(seq(|es|, i requires 0 <= i < |es| => Widened(es[i])))
    case JArray(_, es) => TypedArray(seq(|es|, i requires 0 <= i < |es| => Widened(es[i])))
    case JMap(es) => JMap(seq(|es|, i requires 0 <= i < |es| => WidenedEntry(es[i])))
    case JOther(_) => Null
    case _ => v
  }

  function WidenedEntry(e: (JavaValue, JavaValue)): (JavaValue, JavaValue)
    decreases e
  {
    (Widened(e.0), Widened(e.1))
  }

  /** An array typed by its first element's class; an empty list when there is none. */
  function TypedArray(ws: seq<JavaValue>): JavaValue {
    if ws == [] then JCollection([])
    else JArray(if ws[0] == Null then ObjectClass else ClassOf(ws[0]), ws)
  }

  /** The first element is non-null and every element fits an array of its class. */
  predicate Homogeneous(ws: seq<JavaValue>) {
    ws == [] || (ws[0] != Null && forall i | 0 <= i < |ws| :: Storable(ws[i], ClassOf(ws[0])))
  }

  /**
   * v survives the codec: every nested collection or array, once widened, is
   * homogeneous with a non-null first element, and every nested map has no value
   * that widens to null and no two keys that widen to the same value.
   */
  predicate RoundTrippable(v: JavaValue)
    decreases v
  {
    match v
    case JCollection(es) =>
      && (forall i | 0 <= i < |es| :: RoundTrippable(es[i]))
      && Homogeneous(seq(|es|, i requires 0 <= i < |es| => Widened(es[i])))
    case JArray(_, es) =>
      && (forall i | 0 <= i < |es| :: RoundTrippable(es[i]))
      && Homogeneous(seq(|es|, i requires 0 <= i < |es| => Widened(es[i])))
    case JMap(es) =>
      && (forall i | 0 <= i < |es| :: EntryRoundTrippable(es[i]))
      && var ws := seq(|es|, i requires 0 <= i < |es| => WidenedEntry(es[i]));
      && NoNullValues(ws)
      && DistinctKeys(ws)
    case _ => true
  }

  predicate EntryRoundTrippable(e: (JavaValue, JavaValue))
    decreases e
  {
    RoundTrippable(e.0) && RoundTrippable(e.1)
  }

  // ------------------------------------------------------------------ lemmas

  /** For homogeneous elements the list-to-array step yields the typed array. */
  lemma ArrayOfHomogeneous(ws: seq<JavaValue>)
    requires Homogeneous(ws)
    ensures ArrayOf(ws) == Success(TypedArray(ws))
  {
  }

  /** Each element as a successful result. */
  function Successes<T>(xs: seq<T>): (r: seq<Result<T, Exception>>)
    ensures |r| == |xs| && forall i | 0 <= i < |xs| :: r[i] == Success(xs[i])
  {
    seq(|xs|, i requires 0 <= i < |xs| => Success(xs[i]))
  }

  /** toMap over successful entries with non-null values and distinct keys keeps them all, in order. */
  lemma {:induction false} ToMapSucceeds(ps: seq<(JavaValue, JavaValue)>, acc: seq<(JavaValue, JavaValue)>)
    requires DistinctKeys(acc + ps) && NoNullValues(acc + ps)
    ensures DistinctKeys(acc) && NoNullValues(acc)
    ensures ToMap(Successes(ps), acc) == Success(acc + ps)
  {
    var all := acc + ps;
    assert DistinctKeys(acc) by {
      forall i, j | 0 <= i < j < |acc| ensures acc[i].0 != acc[j].0 {
        assert acc[i] == all[i] && acc[j] == all[j];
      }
    }
    assert NoNullValues(acc) by {
      forall i | 0 <= i < |acc| ensures acc[i].1 != Null {
        assert acc[i] == all[i];
      }
    }
    var rs := Successes(ps);
    if ps != [] {
      assert !HasKey(acc, ps[0].0) by {
        forall i | 0 <= i < |acc| ensures acc[i].0 != ps[0].0 {
          assert acc[i] == all[i] && ps[0] == all[|acc|];
        }
      }
      assert ps[0].1 == all[|acc|].1;
      var acc' := acc + [ps[0]];
      assert acc' + ps[1..] == all;
      ToMapSucceeds(ps[1..], acc');
      assert rs[1..] == Successes(ps[1..]);
      assert ToMap(rs, acc) == ToMap(rs[1..], acc');
    } else {
      assert acc + ps == acc;
    }
  }

  /**
   * The round trip: every round-trippable value comes back from
   * asObject(asValue(v)) as its widened form.
   */
  lemma {:induction false} RoundTrip(v: JavaValue)
    requires RoundTrippable(v)
    ensures AsObject(AsValue(v)) == Success(Widened(v))
    decreases v
  {
    match v
    case JInteger(i) =>
      assert Wrap64(i as int) == i as int as int64;
    case JLong(l) =>
    case JUuid(u) =>
      UuidRoundTrip(u);
    case JCollection(es) =>
      ElementsRoundTrip(v);
    case JArray(_, es) =>
      ElementsRoundTrip(v);
    case JMap(es) =>
      MapRoundTrip(v);
    case _ =>
  }

  lemma {:induction false} ElementsRoundTrip(v: JavaValue)
    requires v.JCollection? || v.JArray?
    requires RoundTrippable(v)
    ensures AsObject(AsValue(v)) == Success(Widened(v))
    decreases v, 0
  {
    var es := v.elems;
    var ws := seq(|es|, i requires 0 <= i < |es| => Widened(es[i]));
    var wire := seq(|es|, i requires 0 <= i < |es| => AsValue(es[i]));
    assert AsValue(v) == Arr(wire);
    forall i | 0 <= i < |es| ensures AsObject(wire[i]) == Success(ws[i]) {
      RoundTrip(es[i]);
    }
    var rs := seq(|wire|, i requires 0 <= i < |wire| => AsObject(wire[i]));
    var c := Collect(rs);
    assert c.Success?;
    assert c.value == ws;
    ArrayOfHomogeneous(ws);
    assert Widened(v) == TypedArray(ws);
  }

  lemma {:induction false} EntryRoundTrip(e: (JavaValue, JavaValue))
    requires EntryRoundTrippable(e)
    ensures AsObject(AsValue(e.0)) == Success(Widened(e.0))
    ensures AsObject(AsValue(e.1)) == Success(Widened(e.1))
    decreases e
  {
    RoundTrip(e.0);
    RoundTrip(e.1);
  }

  lemma {:induction false} MapRoundTrip(v: JavaValue)
    requires v.JMap?
    requires RoundTrippable(v)
    ensures AsObject(AsValue(v)) == Success(Widened(v))
    decreases v, 0
  {
    var es := v.entries;
    var ws := seq(|es|, i requires 0 <= i < |es| => WidenedEntry(es[i]));
    var pes := seq(|es|, i requires 0 <= i < |es| => AsEntry(es[i]));
    forall i | 0 <= i < |es|
      ensures AsObject(pes[i].0) == Success(ws[i].0)
      ensures AsObject(pes[i].1) == Success(ws[i].1)
    {
      EntryRoundTrip(es[i]);
    }
    DecodeEncodedEntries(pes, ws);
    BuildDistinct(pes);
    assert AsValue(v) == MapV(pes);
    assert Widened(v) == JMap(ws);
  }

  /** Entries that decode one by one to distinct keys and non-null values decode as a map to exactly those. */
  lemma DecodeEncodedEntries(pes: seq<(WireValue, WireValue)>, ws: seq<(JavaValue, JavaValue)>)
    requires |pes| == |ws|
    requires forall i | 0 <= i < |pes| :: AsObject(pes[i].0) == Success(ws[i].0) && AsObject(pes[i].1) == Success(ws[i].1)
    requires DistinctKeys(ws) && NoNullValues(ws)
    ensures DistinctKeys(pes)
    ensures AsObject(MapV(pes)) == Success(JMap(ws))
  {
    EncodedKeysDistinct(pes, ws);
    EntriesDecode(pes, ws);
    MapOfDecodedEntries(pes, ws);
  }

  /** A map whose entries all decode, to distinct keys and non-null values, decodes to those entries. */
  lemma MapOfDecodedEntries(pes: seq<(WireValue, WireValue)>, ws: seq<(JavaValue, JavaValue)>)
    requires seq(|pes|, i requires 0 <= i < |pes| => DecodeEntry(pes[i])) == Successes(ws)
    requires DistinctKeys(ws) && NoNullValues(ws)
    ensures AsObject(MapV(pes)) == Success(JMap(ws))
  {
    assert [] + ws == ws;
    ToMapSucceeds(ws, []);
  }

  /** Keys that decode to distinct values are distinct. */
  lemma EncodedKeysDistinct(pes: seq<(WireValue, WireValue)>, ws: seq<(JavaValue, JavaValue)>)
    requires |pes| == |ws|
    requires forall i | 0 <= i < |pes| :: AsObject(pes[i].0) == Success(ws[i].0)
    requires DistinctKeys(ws)
    ensures DistinctKeys(pes)
  {
    forall i, j | 0 <= i < j < |pes| ensures pes[i].0 != pes[j].0 {
      assert ws[i].0 != ws[j].0;
    }
  }

  /** Entry by entry, the key and value mappers succeed with ws. */
  lemma EntriesDecode(pes: seq<(WireValue, WireValue)>, ws: seq<(JavaValue, JavaValue)>)
    requires |pes| == |ws|
    requires forall i | 0 <= i < |pes| :: AsObject(pes[i].0) == Success(ws[i].0) && AsObject(pes[i].1) == Success(ws[i].1)
    ensures seq(|pes|, i requires 0 <= i < |pes| => DecodeEntry(pes[i])) == Successes(ws)
  {
    var rs := seq(|pes|, i requires 0 <= i < |pes| => DecodeEntry(pes[i]));
    forall i | 0 <= i < |ws| ensures rs[i] == Success(ws[i]) {
      assert DecodeEntry(pes[i]).value == ws[i];
    }
  }

  /**
   * Values already in the form the decoder produces: no Integer, no unsupported
   * class, lists only when empty, arrays non-empty and typed by their first
   * element's class.
   */
  predicate Decoded(v: JavaValue)
    decreases v
  {
    match v
    case JInteger(_) => false
    case JOther(_) => false
    case JCollection(es) => es == []
    case JArray(c, es) =>
      && es != [] && es[0] != Null && c == ClassOf(es[0])
      && forall i | 0 <= i < |es| :: Decoded(es[i])
    case JMap(es) => forall i | 0 <= i < |es| :: EntryDecoded(es[i])
    case _ => true
  }

  predicate EntryDecoded(e: (JavaValue, JavaValue))
    decreases e
  {
    Decoded(e.0) && Decoded(e.1)
  }

  /** Widening leaves values in decoded form as they are. */
  lemma {:induction false} WidenedDecoded(v: JavaValue)
    requires Decoded(v)
    ensures Widened(v) == v
    decreases v
  {
    match v
    case JArray(c, es) =>
      var ws := seq(|es|, i requires 0 <= i < |es| => Widened(es[i]));
      forall i | 0 <= i < |es| ensures ws[i] == es[i] {
        WidenedDecoded(es[i]);
      }
      assert ws == es;
    case JMap(es) =>
      var ws := seq(|es|, i requires 0 <= i < |es| => WidenedEntry(es[i]));
      forall i | 0 <= i < |es| ensures ws[i] == es[i] {
        WidenedEntryDecoded(es[i]);
      }
      assert ws == es;
    case _ =>
  }

  lemma {:induction false} WidenedEntryDecoded(e: (JavaValue, JavaValue))
    requires EntryDecoded(e)
    ensures WidenedEntry(e) == e
    decreases e
  {
    WidenedDecoded(e.0);
    WidenedDecoded(e.1);
  }

  /**
   * Widening leaves the encoding as it was: asValue packs an integer as a long,
   * an unsupported value as null, a collection as an array, and so packs a value
   * and its widened form alike.
   */
  lemma {:induction false} WidenedEncodesAlike(v: JavaValue)
    decreases v
    ensures AsValue(Widened(v)) == AsValue(v)
  {
    match v
    case JCollection(es) =>
      forall i | 0 <= i < |es| ensures AsValue(Widened(es[i])) == AsValue(es[i]) {
        WidenedEncodesAlike(es[i]);
      }
    case JArray(_, es) =>
      forall i | 0 <= i < |es| ensures AsValue(Widened(es[i])) == AsValue(es[i]) {
        WidenedEncodesAlike(es[i]);
      }
    case JMap(es) =>
      var ws := seq(|es|, i requires 0 <= i < |es| => WidenedEntry(es[i]));
      forall i | 0 <= i < |es| ensures AsEntry(ws[i]) == AsEntry(es[i]) {
        WidenedEncodesAlike(es[i].0);
        WidenedEncodesAlike(es[i].1);
      }
      assert seq(|ws|, i requires 0 <= i < |ws| => AsEntry(ws[i])) ==
        seq(|es|, i requires 0 <= i < |es| => AsEntry(es[i]));
    case _ =>
  }

  /** A round-trippable value in decoded form comes back exactly. */
  lemma ExactRoundTrip(v: JavaValue)
    requires RoundTrippable(v) && Decoded(v)
    ensures AsObject(AsValue(v)) == Success(v)
  {
    RoundTrip(v);
    WidenedDecoded(v);
  }

  // Encoding.

  /** Integer and Long encode alike: both become the MessagePack integer kind. */
  lemma IntegerAndLongEncodeAlike(i: int32)
    ensures AsValue(JInteger(i)) == AsValue(JLong(i as int as int64))
    ensures AsValue(JInteger(i)).Int?
  {
  }

  /** Collections and arrays encode element by element, in order. */
  lemma ElementsEncodeInOrder(v: JavaValue, i: nat)
    requires v.JCollection? || v.JArray?
    requires i < |v.elems|
    ensures AsValue(v).elems[i] == AsValue(v.elems[i])
  {
  }

  /**
   * A map encodes every key: the encoded key maps to the encoded value of the last
   * source entry with that encoded key, since the builder overwrites in place.
   */
  lemma MapEncodesEveryKey(v: JavaValue, i: nat)
    requires v.JMap? && i < |v.entries|
    ensures HasKey(AsValue(v).entries, AsValue(v.entries[i].0))
    ensures exists j | i <= j < |v.entries| ::
      && AsValue(v.entries[j].0) == AsValue(v.entries[i].0)
      && Lookup(AsValue(v).entries, AsValue(v.entries[i].0)) == Some(AsValue(v.entries[j].1))
      && forall l | j < l < |v.entries| :: AsValue(v.entries[l].0) != AsValue(v.entries[i].0)
  {
    var es := v.entries;
    var pes := seq(|es|, j requires 0 <= j < |es| => AsEntry(es[j]));
    var key := AsValue(es[i].0);
    assert AsValue(v).entries == Build(pes);
    assert pes[i].0 == key;
    BuildIsLastValue(pes, key);
    LastValueAt(pes, i);
    var j :| i <= j < |pes| && pes[j].0 == key && LastValue(pes, key) == Some(pes[j].1)
      && forall l | j < l < |pes| :: pes[l].0 != key;
    assert pes[j] == (AsValue(es[j].0), AsValue(es[j].1));
    forall l | j < l < |es| ensures AsValue(es[l].0) != key {
      assert pes[l].0 == AsValue(es[l].0);
    }
  }

  /** Integer 1 and Long 1 are different map keys that collapse into one entry; the later value wins. */
  lemma IntegerAndLongKeysCollapse()
    ensures AsValue(JMap([(JInteger(1), JString("a")), (JLong(1), JString("b"))])) == MapV([(Int(1), Str("b"))])
  {
    var es := [(JInteger(1), JString("a")), (JLong(1), JString("b"))];
    var pes := seq(|es|, j requires 0 <= j < |es| => AsEntry(es[j]));
    assert pes == [(Int(1), Str("a")), (Int(1), Str("b"))];
    assert pes[..1] == [(Int(1), Str("a"))];
    assert Build(pes[..1]) == [(Int(1), Str("a"))] by {
      assert pes[..1][..0] == [];
    }
  }

  /** A value of an unsupported class encodes to nil and decodes to null. */
  lemma UnsupportedBecomesNull(cls: string)
    ensures AsValue(JOther(cls)) == Nil
    ensures AsObject(AsValue(JOther(cls))) == Success(Null)
  {
  }

  // Decoding.

  /** Every MessagePack integer decodes to a Long; one above the long range wraps. */
  lemma NumbersDecodeToLong(n: MsgInt)
    ensures AsObject(Int(n)).Success? && AsObject(Int(n)).value.JLong?
    ensures AsObject(Int(0xFFFF_FFFF_FFFF_FFFF)) == Success(JLong(-1))
  {
  }

  /** An extension of any type other than 1 falls through to null. */
  lemma OtherExtensionIsNull(t: int8, data: seq<uint8>)
    requires t != 1
    ensures AsObject(Ext(t, data)) == Success(Null)
  {
  }

  /** An empty array decodes to an empty untyped list, whatever it was encoded from. */
  lemma EmptyArrayBecomesList(c: JClass)
    ensures AsObject(AsValue(JArray(c, []))) == Success(JCollection([]))
    ensures AsObject(AsValue(JCollection([]))) == Success(JCollection([]))
  {
  }

  /** A non-empty array whose elements all decode, the first to null, raises NullPointerException. */
  lemma NilFirstElementFails(es: seq<WireValue>)
    requires es != [] && es[0] == Nil
    requires forall i | 0 <= i < |es| :: AsObject(es[i]).Success?
    ensures AsObject(Arr(es)) == Failure(NullPointer)
  {
    var rs := seq(|es|, i requires 0 <= i < |es| => AsObject(es[i]));
    assert Collect(rs).value[0] == Null;
  }

  /**
   * An array whose elements all decode, the first to a non-null value, but one to a
   * value an array of the first one's class cannot hold, raises ArrayStoreException.
   */
  lemma MixedKindsFail(es: seq<WireValue>, j: nat)
    requires es != [] && j < |es|
    requires forall i | 0 <= i < |es| :: AsObject(es[i]).Success?
    requires AsObject(es[0]).value != Null
    requires !Storable(AsObject(es[j]).value, ClassOf(AsObject(es[0]).value))
    ensures AsObject(Arr(es)) == Failure(ArrayStore)
  {
    var rs := seq(|es|, i requires 0 <= i < |es| => AsObject(es[i]));
    var os := Collect(rs).value;
    assert os[j] == AsObject(es[j]).value;
  }

  /** A long and a string in one array cannot share an array type. */
  lemma LongThenStringFails()
    ensures AsObject(Arr([Int(1), Str("a")])) == Failure(ArrayStore)
  {
    MixedKindsFail([Int(1), Str("a")], 1);
  }

  /** Null elements after the first are stored as they are. */
  lemma LaterNullsAreKept()
    ensures AsObject(Arr([Int(1), Nil])) == Success(JArray(LongClass, [JLong(1), Null]))
  {
    var es := [Int(1), Nil];
    var rs := seq(|es|, i requires 0 <= i < |es| => AsObject(es[i]));
    assert rs == [Success(JLong(1)), Success(Null)];
    var c := Collect(rs);
    assert c.Success? && |c.value| == 2;
    assert c.value == [JLong(1), Null] by {
      assert c.value[0] == JLong(1) && c.value[1] == Null;
    }
    assert Storable(JLong(1), LongClass) && Storable(Null, LongClass);
  }

  /** A map whose entries decode but one value is nil fails; with distinct keys it is a NullPointerException. */
  lemma NilMapValueFails(es: seq<(WireValue, WireValue)>, j: nat)
    requires j < |es| && es[j].1 == Nil
    requires forall i | 0 <= i < |es| :: DecodeEntry(es[i]).Success?
    ensures AsObject(MapV(es)).Failure?
  {
    var rs := seq(|es|, i requires 0 <= i < |es| => DecodeEntry(es[i]));
    assert rs[j].value.1 == Null;
  }

  /** A nil value in a map raises NullPointerException when no earlier key repeats. */
  lemma NilValueOnlyEntryFails(k: WireValue)
    requires AsObject(k).Success?
    ensures AsObject(MapV([(k, Nil)])) == Failure(NullPointer)
  {
    var rs := seq(1, i requires 0 <= i < 1 => DecodeEntry([(k, Nil)][i]));
    assert rs == [Success((AsObject(k).value, Null))];
  }

  /** Two MessagePack keys that decode to the same Long raise IllegalStateException. */
  lemma KeysDecodingAlikeFail()
    ensures AsObject(MapV([(Int(-1), Str("a")), (Int(0xFFFF_FFFF_FFFF_FFFF), Str("b"))])) == Failure(DuplicateKey)
  {
    var es := [(Int(-1), Str("a")), (Int(0xFFFF_FFFF_FFFF_FFFF), Str("b"))];
    var rs := seq(|es|, i requires 0 <= i < |es| => DecodeEntry(es[i]));
    assert Wrap64(0xFFFF_FFFF_FFFF_FFFF) == -1;
    assert rs == [Success((JLong(-1), JString("a"))), Success((JLong(-1), JString("b")))];
    var acc := [(JLong(-1), JString("a"))];
    assert HasKey(acc, JLong(-1)) by {
      assert acc[0].0 == JLong(-1);
    }
    assert [] + [rs[0].value] == acc;
    assert ToMap(rs, []) == ToMap(rs[1..], acc);
    assert rs[1..] == [Success((JLong(-1), JString("b")))];
  }
}
