# RSM session manager, modelled in Dafny

RSM keeps servlet and Jersey HTTP sessions in Redis, so that every node of a cluster sees the same sessions. Its parts:

- A session is flattened into a platform-neutral record, PersistedSession. The record holds:
  - the creation, last-access and this-access times;
  - the inactivity interval;
  - the new and valid flags;
  - the id;
  - the principal's name and roles;
  - the attribute map.
- SessionSerializer packs the record into a MessagePack stream. The stream starts with a 64-bit hash of the attribute map, which is the low eight bytes of an MD5 digest of the packed map.
- MsgPackUtil converts attribute values to and from MessagePack values:
  - nulls, integers, longs, strings, booleans, UUIDs, collections, arrays and maps are supported;
  - UUIDs use the extension type of UUIDValue;
  - every other value becomes nil.
- DirtySessionTracker records whether an attribute write changed anything. PersistenceStrategy chooses between saving after every request (ALWAYS) and saving only changed sessions (ON_CHANGE).
- The Tomcat 8 manager does several jobs:
  - it claims fresh ids with SETNX, using a placeholder value;
  - it loads sessions, rejecting the placeholder;
  - it caches the request's session and its metadata in per-request slots;
  - it saves a session when it is forced to, when the session is dirty, when the session is not yet persisted, or when the attribute hash has changed;
  - after each request it deletes invalid sessions.
- The Jersey module has three parts:
  - a RedisSessionFactory finds the session id in a request header or a cookie;
  - a RedisSessionManager loads and saves sessions under the chosen strategy;
  - a RedisSessionImpl tracks attribute writes and answers role queries through its security context.
- The store is the string-keyed Redis client, with set-if-absent, set with expiry, get and delete.

The model follows the Java structure:

- Java objects whose fields change in place are Dafny classes with `modifies` frames. These are the attribute map, the session record and its metadata, the dirty tracker, the store, the stream packer and unpacker, and both managers with their sessions.
- The codec and the rules it follows are pure functions over datatypes.
- Java values form a closed datatype. Java's thrown exceptions are `Result` failures, and `null` is `Option`'s `None` or a nullable reference.

## Model

| member | source | states |
|---|---|---|
| AssocList.Lookup | rsm-core/src/main/java/mobi/eyeline/rsm/model/PersistedSession.java:28 | Map.get finds a value exactly when the key is among the map's entries |
| AssocList.Put | rsm-core/src/main/java/mobi/eyeline/rsm/model/PersistedSession.java:28 | Map.put: the key then maps to the new value and every other key keeps its value; a new key is appended at the end of the iteration order, and an existing key keeps its position |
| AssocList.PutDistinct | rsm-core/src/main/java/mobi/eyeline/rsm/model/PersistedSession.java:28 | a put keeps every key unique, the invariant of any java.util.Map |
| AssocList.Remove | rsm-core/src/main/java/mobi/eyeline/rsm/model/PersistedSession.java:28 | Map.remove: the key is then absent and every other key keeps its value |
| AssocList.PutAll | rsm-core/src/main/java/mobi/eyeline/rsm/pack/MsgPackUtil.java:59-65 | a sequence of puts keeps keys unique, adds at most one entry per put, and puts in no entry that was not in the map or among the puts |
| AssocList.BuildDistinct | rsm-core/src/main/java/mobi/eyeline/rsm/pack/MsgPackUtil.java:59-65 | putting pairs whose keys are already distinct into an empty builder yields exactly those pairs, in order |
| Model.RemoveKeepsDistinct | rsm-core/src/main/java/mobi/eyeline/rsm/model/PersistedSession.java:28 | a remove keeps every key unique |
| Model.AttributeMap.Get | rsm-core/src/main/java/mobi/eyeline/rsm/model/PersistedSession.java:28 | a lookup succeeds exactly for the keys present |
| Model.AttributeMap.Put | rsm-jersey/src/main/java/mobi/eyeline/rsm/jersey/RedisSessionImpl.java:85-86 | the map's new entries are the insertion-ordered put of the old ones; the previous value is returned; the new value is then visible and other keys are unchanged |
| Model.AttributeMap.Remove | rsm-jersey/src/main/java/mobi/eyeline/rsm/jersey/RedisSessionImpl.java:105 | the previous value is returned, the key is then absent and other keys are unchanged |
| Model.PersistedSession.constructor | rsm-core/src/main/java/mobi/eyeline/rsm/model/PersistedSession.java:11-28 | a new record has every field at its Java default and no attribute map |
| Model.PersistedSession.State | rsm-core/src/main/java/mobi/eyeline/rsm/model/PersistedSession.java:11-28 | the field values of the record; the attributes are present exactly when the map reference is not null |
| Model.PersistedSession.AsPersistedSession | rsm-core/src/main/java/mobi/eyeline/rsm/model/PersistedSession.java:30-33 | the record returns itself |
| Model.PersistedSession.FromPersistedSession | rsm-core/src/main/java/mobi/eyeline/rsm/model/PersistedSession.java:35-50 | every field is copied from the other record, and the attribute map is shared by reference, not copied |
| Model.PersistedSessionMetadata.constructor | rsm-core/src/main/java/mobi/eyeline/rsm/model/PersistedSessionMetadata.java:8-25 | a new metadata object holds the initial hash it is given |
| Model.PersistedSessionMetadata.SetAttrHash | rsm-core/src/main/java/mobi/eyeline/rsm/model/PersistedSessionMetadata.java:8-25 | the setter stores the hash it is given |
| UUIDValue.FromToBigEndian | rsm-core/src/main/java/mobi/eyeline/rsm/pack/UUIDValue.java:20-31 | reading back the k-byte big-endian form of a number gives the number |
| UUIDValue.ToFromBigEndian | rsm-core/src/main/java/mobi/eyeline/rsm/pack/UUIDValue.java:20-31 | every byte sequence is the big-endian form of the number it spells |
| UUIDValue.SignedUnsigned | rsm-core/src/main/java/mobi/eyeline/rsm/pack/UUIDValue.java:20-31 | reading a long's bit pattern back as two's complement gives the long |
| UUIDValue.GetPutLong | rsm-core/src/main/java/mobi/eyeline/rsm/pack/UUIDValue.java:20-31 | ByteBuffer.getLong undoes putLong |
| UUIDValue.PutGetLong | rsm-core/src/main/java/mobi/eyeline/rsm/pack/UUIDValue.java:20-31 | every eight bytes are the putLong of their getLong |
| UUIDValue.UuidFromBytes | rsm-core/src/main/java/mobi/eyeline/rsm/pack/UUIDValue.java:26-31 | reading fails with BufferUnderflowException exactly when fewer than sixteen bytes are given |
| UUIDValue.NewUUID | rsm-core/src/main/java/mobi/eyeline/rsm/pack/UUIDValue.java:10-18 | a UUID becomes an extension value of type 1 holding its sixteen bytes |
| UUIDValue.UuidRoundTrip | rsm-core/src/main/java/mobi/eyeline/rsm/pack/UUIDValue.java:16-31 | every UUID is read back unchanged from its bytes |
| UUIDValue.BytesRoundTrip | rsm-core/src/main/java/mobi/eyeline/rsm/pack/UUIDValue.java:20-31 | every sixteen-byte sequence is the packing of the UUID read from it |
| UUIDValue.ReadsFirstSixteen | rsm-core/src/main/java/mobi/eyeline/rsm/pack/UUIDValue.java:26-31 | bytes after the first sixteen do not affect the UUID read |
| UUIDValue.UuidByteLayout | rsm-core/src/main/java/mobi/eyeline/rsm/pack/UUIDValue.java:20-24 | byte i of the packing is the i-th most significant byte of the corresponding half |
| MsgPackUtil.AsValue | rsm-core/src/main/java/mobi/eyeline/rsm/pack/MsgPackUtil.java:22-77 | null, int, long, string, boolean and UUID map to their MessagePack kinds; unsupported classes map to nil; collections and arrays become arrays of the same length; maps become maps with distinct keys and at most as many entries |
| MsgPackUtil.AsObject | rsm-core/src/main/java/mobi/eyeline/rsm/pack/MsgPackUtil.java:80-140 | nil is null; every integer is a Long, wrapped to 64 bits; a type-1 extension is a UUID when it has at least 16 bytes; other extensions are null; an empty array is an empty list; a non-empty array is a typed array of the same length |
| MsgPackUtil.DecodeEntry | rsm-core/src/main/java/mobi/eyeline/rsm/pack/MsgPackUtil.java:124-135 | an entry decodes when its key and value both decode; otherwise the key's exception comes first |
| MsgPackUtil.Collect | rsm-core/src/main/java/mobi/eyeline/rsm/pack/MsgPackUtil.java:105-111 | a stream collects when each element succeeds, keeping every element in order; otherwise it fails with the first element's exception |
| MsgPackUtil.ArrayOf | rsm-core/src/main/java/mobi/eyeline/rsm/pack/MsgPackUtil.java:113-121 | an empty list stays a list; a null first element raises NullPointerException; otherwise the array takes the first element's class, or an element that does not fit raises ArrayStoreException |
| MsgPackUtil.ToMap | rsm-core/src/main/java/mobi/eyeline/rsm/pack/MsgPackUtil.java:124-136 | Collectors.toMap keeps every successful entry with distinct keys and non-null values; a repeated key or a null value fails |
| MsgPackUtil.ArrayOfHomogeneous | rsm-core/src/main/java/mobi/eyeline/rsm/pack/MsgPackUtil.java:113-121 | elements that all fit the first element's class become an array of that class |
| MsgPackUtil.ToMapSucceeds | rsm-core/src/main/java/mobi/eyeline/rsm/pack/MsgPackUtil.java:124-136 | successful entries with distinct keys and non-null values are collected in full, in order |
| MsgPackUtil.RoundTrip | rsm-core/src/main/java/mobi/eyeline/rsm/pack/MsgPackUtil.java:22-140 | every round-trippable value decodes, after encoding, to its widened form: ints become longs and collections become typed arrays |
| MsgPackUtil.ElementsRoundTrip | rsm-core/src/main/java/mobi/eyeline/rsm/pack/MsgPackUtil.java:48-72 | the elements of a round-trippable collection or array round-trip, in order |
| MsgPackUtil.EntryRoundTrip | rsm-core/src/main/java/mobi/eyeline/rsm/pack/MsgPackUtil.java:59-65 | the key and the value of a round-trippable entry each round-trip |
| MsgPackUtil.MapRoundTrip | rsm-core/src/main/java/mobi/eyeline/rsm/pack/MsgPackUtil.java:59-65 | a round-trippable map decodes to its widened entries |
| MsgPackUtil.DecodeEncodedEntries | rsm-core/src/main/java/mobi/eyeline/rsm/pack/MsgPackUtil.java:124-136 | entries that decode one by one to distinct keys and non-null values decode, as a map, to exactly those entries |
| MsgPackUtil.MapOfDecodedEntries | rsm-core/src/main/java/mobi/eyeline/rsm/pack/MsgPackUtil.java:124-136 | a map whose entries all decode, to distinct keys and non-null values, decodes to those entries |
| MsgPackUtil.EncodedKeysDistinct | rsm-core/src/main/java/mobi/eyeline/rsm/pack/MsgPackUtil.java:124-136 | keys that decode to distinct values are distinct themselves |
| MsgPackUtil.EntriesDecode | rsm-core/src/main/java/mobi/eyeline/rsm/pack/MsgPackUtil.java:124-136 | entry by entry, the key and value mappers succeed with the given values |
| MsgPackUtil.WidenedDecoded | rsm-core/src/main/java/mobi/eyeline/rsm/pack/MsgPackUtil.java:80-140 | widening leaves a value that is already in decoded form unchanged |
| MsgPackUtil.WidenedEntryDecoded | rsm-core/src/main/java/mobi/eyeline/rsm/pack/MsgPackUtil.java:124-136 | widening leaves an entry that is already in decoded form unchanged |
| MsgPackUtil.ExactRoundTrip | rsm-core/src/main/java/mobi/eyeline/rsm/pack/MsgPackUtil.java:22-140 | a round-trippable value already in decoded form comes back exactly |
| MsgPackUtil.WidenedEncodesAlike | rsm-core/src/main/java/mobi/eyeline/rsm/pack/MsgPackUtil.java:22-77 | a value and the form asObject reads it back as encode to the same MessagePack value |
| MsgPackUtil.IntegerAndLongEncodeAlike | rsm-core/src/main/java/mobi/eyeline/rsm/pack/MsgPackUtil.java:28-34 | an Integer and the Long of the same value encode identically |
| MsgPackUtil.ElementsEncodeInOrder | rsm-core/src/main/java/mobi/eyeline/rsm/pack/MsgPackUtil.java:48-72 | element i of a collection or array encodes to element i of the MessagePack array |
| MsgPackUtil.MapEncodesEveryKey | rsm-core/src/main/java/mobi/eyeline/rsm/pack/MsgPackUtil.java:59-65 | every key of a map is among the encoded map's keys, and it maps to the encoded value of the last entry whose key encodes alike |
| AssocList.BuildIsLastValue | rsm-core/src/main/java/mobi/eyeline/rsm/pack/MsgPackUtil.java:59-65 | the map builder holds, for every key, the value of the last pair put under it |
| AssocList.LastValueAt | rsm-core/src/main/java/mobi/eyeline/rsm/pack/MsgPackUtil.java:59-65 | that last value comes from a pair at or after any given pair with the key, and no later pair has the key |
| MsgPackUtil.IntegerAndLongKeysCollapse | rsm-core/src/main/java/mobi/eyeline/rsm/pack/MsgPackUtil.java:59-65 | Integer 1 and Long 1 are distinct Java keys that collapse into one MessagePack entry, and the later value wins |
| MsgPackUtil.UnsupportedBecomesNull | rsm-core/src/main/java/mobi/eyeline/rsm/pack/MsgPackUtil.java:74-76 | a value of an unsupported class encodes to nil and comes back as null |
| MsgPackUtil.NumbersDecodeToLong | rsm-core/src/main/java/mobi/eyeline/rsm/pack/MsgPackUtil.java:85-87 | every MessagePack integer decodes to a Long; 2^64-1 wraps to -1 |
| MsgPackUtil.OtherExtensionIsNull | rsm-core/src/main/java/mobi/eyeline/rsm/pack/MsgPackUtil.java:97-103 | an extension of any type other than UUID's decodes to null |
| MsgPackUtil.EmptyArrayBecomesList | rsm-core/src/main/java/mobi/eyeline/rsm/pack/MsgPackUtil.java:105-121 | an empty array, whatever it was encoded from, decodes to an empty list |
| MsgPackUtil.NilFirstElementFails | rsm-core/src/main/java/mobi/eyeline/rsm/pack/MsgPackUtil.java:113-116 | a non-empty array whose first element decodes to null raises NullPointerException |
| MsgPackUtil.MixedKindsFail | rsm-core/src/main/java/mobi/eyeline/rsm/pack/MsgPackUtil.java:113-116 | an element that does not fit the first element's class raises ArrayStoreException |
| MsgPackUtil.LongThenStringFails | rsm-core/src/main/java/mobi/eyeline/rsm/pack/MsgPackUtil.java:113-116 | a long and a string cannot share one array |
| MsgPackUtil.LaterNullsAreKept | rsm-core/src/main/java/mobi/eyeline/rsm/pack/MsgPackUtil.java:113-116 | a null after the first element is stored in the typed array |
| MsgPackUtil.NilMapValueFails | rsm-core/src/main/java/mobi/eyeline/rsm/pack/MsgPackUtil.java:124-136 | a map with a nil value fails to decode |
| MsgPackUtil.NilValueOnlyEntryFails | rsm-core/src/main/java/mobi/eyeline/rsm/pack/MsgPackUtil.java:124-136 | a map whose only value is nil raises NullPointerException |
| MsgPackUtil.KeysDecodingAlikeFail | rsm-core/src/main/java/mobi/eyeline/rsm/pack/MsgPackUtil.java:124-136 | two keys that decode to the same Long raise IllegalStateException |
| DirtyTracking.DirtySessionTracker.constructor | rsm-core/src/main/java/mobi/eyeline/rsm/DirtySessionTracker.java:5-22 | a new tracker is clean |
| DirtyTracking.DirtySessionTracker.Reset | rsm-core/src/main/java/mobi/eyeline/rsm/DirtySessionTracker.java:7-9 | reset makes the tracker clean |
| DirtyTracking.DirtySessionTracker.MarkDirty | rsm-core/src/main/java/mobi/eyeline/rsm/DirtySessionTracker.java:16-18 | markDirty makes the tracker dirty |
| DirtyTracking.DirtySessionTracker.IsDirty | rsm-core/src/main/java/mobi/eyeline/rsm/DirtySessionTracker.java:20-22 | isDirty reports the flag |
| DirtyTracking.DirtySessionTracker.IsChanged | rsm-core/src/main/java/mobi/eyeline/rsm/DirtySessionTracker.java:11-14 | a write counts as a change exactly when the old and new values differ |
| DirtyTracking.NullOverNullIsNoChange | rsm-core/src/main/java/mobi/eyeline/rsm/DirtySessionTracker.java:11-14 | null over null is no change |
| DirtyTracking.ExactlyOneNullIsChange | rsm-core/src/main/java/mobi/eyeline/rsm/DirtySessionTracker.java:11-14 | null over a value, and a value over null, are changes |
| DirtyTracking.EqualValueIsNoChange | rsm-core/src/main/java/mobi/eyeline/rsm/DirtySessionTracker.java:11-14 | a value over an equal value of the same class is no change |
| DirtyTracking.NonNullRule | rsm-core/src/main/java/mobi/eyeline/rsm/DirtySessionTracker.java:11-14 | between non-null values, no change means the old value is an instance of the new value's class and equal to it |
| DirtyTracking.KindChangeIsChange | rsm-core/src/main/java/mobi/eyeline/rsm/DirtySessionTracker.java:11-14 | Integer 1 over Long 1 is a change |
| Persistence.FindFirst | rsm-core/src/main/java/mobi/eyeline/rsm/PersistenceStrategy.java:13-18 | the first constant whose name matches, ignoring case, or none when no name matches |
| Persistence.FromName | rsm-core/src/main/java/mobi/eyeline/rsm/PersistenceStrategy.java:13-18 | ON_CHANGE and ALWAYS are recognised case-insensitively; every other name, null included, raises IllegalArgumentException |
| Persistence.FromOwnName | rsm-core/src/main/java/mobi/eyeline/rsm/PersistenceStrategy.java:5-18 | every strategy is found from its own name |
| Persistence.NullNameIsRejected | rsm-core/src/main/java/mobi/eyeline/rsm/PersistenceStrategy.java:13-18 | a null name is rejected |
| Persistence.CaseInsensitiveNames | rsm-core/src/main/java/mobi/eyeline/rsm/PersistenceStrategy.java:13-18 | lower-case, mixed-case and long-s spellings are accepted |
| Persistence.OtherNamesAreRejected | rsm-core/src/main/java/mobi/eyeline/rsm/PersistenceStrategy.java:13-18 | NEVER and ONCHANGE are rejected |
| Storage.TtlAfterSet | rsm-core/src/main/java/mobi/eyeline/rsm/storage/RedisStorageClient.java:77-86 | a set with a lifetime records that lifetime for the key; a set without one clears it; other keys keep theirs |
| Storage.Store.constructor | rsm-core/src/main/java/mobi/eyeline/rsm/storage/RedisStorageClient.java:54-104 | a new store is empty |
| Storage.Store.SetIfAbsent | rsm-core/src/main/java/mobi/eyeline/rsm/storage/RedisStorageClient.java:68-75 | SETNX stores the value and succeeds exactly when the key was absent |
| Storage.Store.SetIfAbsentWithLifetime | rsm-core/src/main/java/mobi/eyeline/rsm/storage/RedisStorageClient.java:54-66 | SETNX then EXPIRE: a claim succeeds exactly when the key was absent; a zero lifetime keeps the key without expiry; a positive one records it; a negative one deletes the key at once |
| Storage.Store.Set | rsm-core/src/main/java/mobi/eyeline/rsm/storage/RedisStorageClient.java:77-86 | SET or SETEX stores the value; a negative lifetime fails the command and changes nothing |
| Storage.Store.Get | rsm-core/src/main/java/mobi/eyeline/rsm/storage/RedisStorageClient.java:88-95 | returns the stored value, or none when the key is absent |
| Storage.Store.Delete | rsm-core/src/main/java/mobi/eyeline/rsm/storage/RedisStorageClient.java:97-104 | the key and its lifetime are gone; reports whether the key was there |
| SessionSerializer.Packer.PackValue | rsm-core/src/main/java/mobi/eyeline/rsm/pack/SessionSerializer.java:48-69 | appends one value to the stream |
| SessionSerializer.Packer.PackLong | rsm-core/src/main/java/mobi/eyeline/rsm/pack/SessionSerializer.java:56-61 | appends a long as an integer value |
| SessionSerializer.Packer.PackInt | rsm-core/src/main/java/mobi/eyeline/rsm/pack/SessionSerializer.java:58 | appends an int as an integer value |
| SessionSerializer.Packer.PackBoolean | rsm-core/src/main/java/mobi/eyeline/rsm/pack/SessionSerializer.java:59-60 | appends a boolean |
| SessionSerializer.ValueAt | rsm-core/src/main/java/mobi/eyeline/rsm/pack/SessionSerializer.java:81-103 | reading past the end raises MessageInsufficientBufferException |
| SessionSerializer.LongOf | rsm-core/src/main/java/mobi/eyeline/rsm/pack/SessionSerializer.java:91-96 | unpackLong accepts integers in the long range; a larger one overflows; any other kind is a type mismatch |
| SessionSerializer.IntOf | rsm-core/src/main/java/mobi/eyeline/rsm/pack/SessionSerializer.java:93 | unpackInt accepts integers in the int range; a larger one overflows; any other kind is a type mismatch |
| SessionSerializer.BooleanOf | rsm-core/src/main/java/mobi/eyeline/rsm/pack/SessionSerializer.java:94-95 | unpackBoolean accepts only booleans |
| SessionSerializer.NumberOf | rsm-core/src/main/java/mobi/eyeline/rsm/pack/SessionSerializer.java:85 | a leading hash is read as a number of any size, wrapped to a long |
| SessionSerializer.Unpacker.UnpackValue | rsm-core/src/main/java/mobi/eyeline/rsm/pack/SessionSerializer.java:85-103 | reads the value at the cursor, moving past it only on success |
| SessionSerializer.Unpacker.UnpackLong | rsm-core/src/main/java/mobi/eyeline/rsm/pack/SessionSerializer.java:91-96 | reads a long at the cursor, with the errors of LongOf |
| SessionSerializer.Unpacker.UnpackInt | rsm-core/src/main/java/mobi/eyeline/rsm/pack/SessionSerializer.java:93 | reads an int at the cursor, with the errors of IntOf |
| SessionSerializer.Unpacker.UnpackBoolean | rsm-core/src/main/java/mobi/eyeline/rsm/pack/SessionSerializer.java:94-95 | reads a boolean at the cursor, with the errors of BooleanOf |
| SessionSerializer.CastString | rsm-core/src/main/java/mobi/eyeline/rsm/pack/SessionSerializer.java:98-100 | the (String) cast accepts null and strings, and raises ClassCastException otherwise |
| SessionSerializer.CastStringArray | rsm-core/src/main/java/mobi/eyeline/rsm/pack/SessionSerializer.java:101 | the (String[]) cast accepts null and String arrays, and raises ClassCastException otherwise |
| SessionSerializer.CastMap | rsm-core/src/main/java/mobi/eyeline/rsm/pack/SessionSerializer.java:103 | the (Map) cast accepts null and maps, and raises ClassCastException otherwise |
| SessionSerializer.DecodeSession | rsm-core/src/main/java/mobi/eyeline/rsm/pack/SessionSerializer.java:78-115 | a decoded record carries the stream's leading hash and no user principal; a stream shorter than eleven values never decodes |
| SessionSerializer.Serialize | rsm-core/src/main/java/mobi/eyeline/rsm/pack/SessionSerializer.java:72-76 | the stream written is the layout of the record's state, led by the metadata's hash |
| SessionSerializer.PackSession | rsm-core/src/main/java/mobi/eyeline/rsm/pack/SessionSerializer.java:45-70 | the packer receives the fields in layout order |
| SessionSerializer.LayoutIs | rsm-core/src/main/java/mobi/eyeline/rsm/pack/SessionSerializer.java:48-69 | the packer's output is the layout |
| SessionSerializer.ReadScalars | rsm-core/src/main/java/mobi/eyeline/rsm/pack/SessionSerializer.java:91-96 | reads the seven scalar fields with their type checks |
| SessionSerializer.ReadObject | rsm-core/src/main/java/mobi/eyeline/rsm/pack/SessionSerializer.java:98-103 | reads one value and decodes it as an attribute value |
| SessionSerializer.ReadReferences | rsm-core/src/main/java/mobi/eyeline/rsm/pack/SessionSerializer.java:98-103 | reads and casts the id, the principal's name and roles, and the attributes |
| SessionSerializer.DeserializeRecord | rsm-core/src/main/java/mobi/eyeline/rsm/pack/SessionSerializer.java:78-106 | the metadata takes the stream's hash; decoding succeeds exactly when the stream decodes, and on success gives a fresh record holding the decoded state |
| SessionSerializer.NewSession | rsm-core/src/main/java/mobi/eyeline/rsm/pack/SessionSerializer.java:89-105 | a fresh record holds the decoded fields |
| SessionSerializer.DeserializeInto | rsm-core/src/main/java/mobi/eyeline/rsm/pack/SessionSerializer.java:108-115 | the target takes the decoded state; on failure the target is unchanged and the decoder's exception is reported |
| SessionSerializer.BigIntegerOf | rsm-core/src/main/java/mobi/eyeline/rsm/pack/SessionSerializer.java:37-43 | new BigInteger(bytes) reads the digest as a signed big-endian number |
| SessionSerializer.AttributesHashFrom | rsm-core/src/main/java/mobi/eyeline/rsm/pack/SessionSerializer.java:37-43 | the attribute hash is the long spelled by the last eight bytes of the MD5 digest of the packed map, or of packed nil for a null map |
| SessionSerializer.RestoredHashesAlike | rsm-core/src/main/java/mobi/eyeline/rsm/pack/SessionSerializer.java:37-43 | the attribute hash of a deserialized state equals that of the state serialized |
| SessionSerializer.LongValueOfDigest | rsm-core/src/main/java/mobi/eyeline/rsm/pack/SessionSerializer.java:37-43 | BigInteger.longValue of a sixteen-byte digest is its low eight bytes |
| SessionSerializer.StringRoundTrip | rsm-core/src/main/java/mobi/eyeline/rsm/pack/SessionSerializer.java:45-106 | a string field, null included, is read back unchanged |
| SessionSerializer.RolesRoundTrip | rsm-core/src/main/java/mobi/eyeline/rsm/pack/SessionSerializer.java:45-106 | a roles array whose first element is not null, or a null array, is read back unchanged |
| SessionSerializer.AttributesRoundTrip | rsm-core/src/main/java/mobi/eyeline/rsm/pack/SessionSerializer.java:45-106 | a round-trippable attribute map is read back in widened form |
| SessionSerializer.LayoutScalars | rsm-core/src/main/java/mobi/eyeline/rsm/pack/SessionSerializer.java:45-96 | the hash and the seven scalar fields are read back unchanged |
| SessionSerializer.LayoutReferences | rsm-core/src/main/java/mobi/eyeline/rsm/pack/SessionSerializer.java:45-106 | the id, principal and restored attributes of a persistable record are read back |
| SessionSerializer.SessionRoundTrip | rsm-core/src/main/java/mobi/eyeline/rsm/pack/SessionSerializer.java:45-115 | a persistable record, serialised with any hash, deserialises to that hash and the record's restored state |
| SessionSerializer.EmptyRolesFail | rsm-core/src/main/java/mobi/eyeline/rsm/pack/SessionSerializer.java:101 | an empty roles array comes back as a list, and the cast fails |
| SessionSerializer.NullFirstRoleFails | rsm-core/src/main/java/mobi/eyeline/rsm/pack/SessionSerializer.java:101 | a roles array with a null first element cannot be read back |
| SessionSerializer.TruncatedFails | rsm-core/src/main/java/mobi/eyeline/rsm/pack/SessionSerializer.java:81-103 | every truncation of a record's stream fails with MessageInsufficientBufferException |
| SessionSerializer.ScalarsAtPrefix | rsm-core/src/main/java/mobi/eyeline/rsm/pack/SessionSerializer.java:85-96 | the hash and scalars depend only on the first seven values |
| SessionSerializer.NonBooleanFlagFails | rsm-core/src/main/java/mobi/eyeline/rsm/pack/SessionSerializer.java:94-95 | a non-boolean in the flag positions is a type mismatch |
| SessionSerializer.NonIntegerTimeFails | rsm-core/src/main/java/mobi/eyeline/rsm/pack/SessionSerializer.java:91-96 | a non-integer in a time position is a type mismatch |
| SessionSerializer.IntervalOverflowFails | rsm-core/src/main/java/mobi/eyeline/rsm/pack/SessionSerializer.java:93 | an interval outside the int range overflows |
| SessionSerializer.NonIntegerHashFails | rsm-core/src/main/java/mobi/eyeline/rsm/pack/SessionSerializer.java:85 | a stream that does not start with an integer is a type mismatch |
| SessionSerializer.HashIdAndRolesSurvive | rsm-core/src/test/java/mobi/eyeline/rsm/PersistedSessionSerializerTest.java:24-62 | the serializer test's record, with id, principal and roles, is read back as written |
| SessionSerializer.AttributeKindsSurvive | rsm-core/src/test/java/mobi/eyeline/rsm/PersistedSessionSerializerTest.java:65-107 | the serializer test's attributes of every supported kind are read back in widened form |
| Tc8.PutKeepsConcurrent | rsm-tc8/src/main/java/mobi/eyeline/rsm/tc8/RedisSession.java:174 | putting a String key and a non-null value keeps a ConcurrentHashMap<String, Object>'s shape |
| Tc8.Refusal | rsm-tc8/src/main/java/mobi/eyeline/rsm/tc8/RedisSession.java:174 | an entry is stored exactly when its key is a String and its value is not null; any other non-null key raises ClassCastException in the lambda's cast; a null key or value raises NullPointerException |
| Tc8.FirstRefused | rsm-tc8/src/main/java/mobi/eyeline/rsm/tc8/RedisSession.java:174 | the first entry the lambda refuses, after a prefix it stores |
| Tc8.NonNullValues | rsm-tc8/src/main/java/mobi/eyeline/rsm/tc8/RedisSession.java:148-157 | asPersistedSession keeps exactly the attributes whose value is not null, and keeps all of them when none is null |
| Tc8.PrincipalOf | rsm-tc8/src/main/java/mobi/eyeline/rsm/tc8/RedisSession.java:184-186 | a principal with a null role array, or with a null role among two or more roles (the GenericPrincipal constructor sorts them), raises NullPointerException; a null name gives no principal; otherwise the principal has the name and roles |
| Tc8.Persisted | rsm-tc8/src/main/java/mobi/eyeline/rsm/tc8/RedisSession.java:129-160 | the persisted record has a principal name exactly when it has roles, and has no null attribute value |
| Tc8.Tc8Session.constructor | rsm-tc8/src/main/java/mobi/eyeline/rsm/tc8/RedisSession.java:29-32 | a new session has StandardSession's defaults and a clean tracker |
| Tc8.Tc8Session.AsPersistedSession | rsm-tc8/src/main/java/mobi/eyeline/rsm/tc8/RedisSession.java:129-160 | a fresh record with a fresh attribute map, holding the session's persisted form |
| Tc8.Tc8Session.FromPersistedSession | rsm-tc8/src/main/java/mobi/eyeline/rsm/tc8/RedisSession.java:162-187 | the scalar fields and the id are copied; a null attribute map raises NullPointerException; otherwise the attributes are put up to the first refused entry, whose ClassCastException or NullPointerException stops the copy; last the principal is rebuilt |
| Tc8.Tc8Session.Activate | rsm-tc8/src/main/java/mobi/eyeline/rsm/tc8/RedisSessionManager.java:318-323 | a loaded session gets its id, isNew false, the timeout and a fresh access |
| Tc8.Tc8Session.PutAttributes | rsm-tc8/src/main/java/mobi/eyeline/rsm/tc8/RedisSession.java:174 | attributes are put in order, stopping with the exception of the first entry whose key is not a String or whose key or value is null |
| Tc8.Merged | rsm-tc8/src/main/java/mobi/eyeline/rsm/tc8/RedisSession.java:162-187 | merging a decoded record fails on a null attribute map with NullPointerException, and at the first refused attribute with that entry's ClassCastException or NullPointerException |
| Tc8.Loaded | rsm-tc8/src/main/java/mobi/eyeline/rsm/tc8/RedisSessionManager.java:286-330 | the placeholder raises an IOException; a decoding failure is passed on; a loaded session has the requested id and is valid and not new |
| Tc8.RequestContext.constructor | rsm-tc8/src/main/java/mobi/eyeline/rsm/tc8/RedisSessionManager.java:38-41 | the four request slots start unset |
| Tc8.RedisSessionManager.constructor | rsm-tc8/src/main/java/mobi/eyeline/rsm/tc8/RedisSessionManager.java:32-51 | the strategy starts as ALWAYS, no id has been drawn, and the request slots are empty |
| Tc8.RedisSessionManager.SessionTimeoutSeconds | rsm-tc8/src/main/java/mobi/eyeline/rsm/tc8/RedisSessionManager.java:139-141 | minutes times sixty in 32-bit arithmetic, wrapping on overflow |
| Tc8.RedisSessionManager.SetPersistenceStrategy | rsm-tc8/src/main/java/mobi/eyeline/rsm/tc8/RedisSessionManager.java:67 | a recognised name sets the strategy; an unknown name raises IllegalArgumentException and leaves the strategy as it was |
| Tc8.RedisSessionManager.AttributesHash | rsm-tc8/src/main/java/mobi/eyeline/rsm/tc8/RedisSessionSerializer.java:15-23 | for a session without null values, the hash of exactly the attribute map asPersistedSession stores |
| Tc8.RedisSessionManager.SaveInternal | rsm-tc8/src/main/java/mobi/eyeline/rsm/tc8/RedisSessionManager.java:337-391 | an invalid session raises IllegalStateException and changes nothing; a save that is not needed changes nothing; a needed or forced save writes the layout with the current attribute hash, resets the tracker and updates the slots, or reports the IOException; after any success an unforced save is no longer needed. The decision is NeedsSave (with SaveNeeded and OriginalHash): a save is skipped exactly when it is unforced, the session is clean, the slots say it is persisted, and the slot's hash, or a new metadata's default hash when the slot is empty, equals the session's |
| Tc8.RedisSessionManager.Write | rsm-tc8/src/main/java/mobi/eyeline/rsm/tc8/RedisSessionManager.java:365-385 | the session is stored under its id with the timeout and the hash; or the failure is reported and nothing changes |
| Tc8.RedisSessionManager.SerializeWith | rsm-tc8/src/main/java/mobi/eyeline/rsm/tc8/RedisSessionManager.java:376 | the stream is the session's persisted form led by the metadata's hash |
| Tc8.RedisSessionManager.Save | rsm-tc8/src/main/java/mobi/eyeline/rsm/tc8/RedisSessionManager.java:333-335 | save behaves as saveInternal |
| Tc8.RedisSessionManager.Add | rsm-tc8/src/main/java/mobi/eyeline/rsm/tc8/RedisSessionManager.java:234-241 | an unforced save, with its IOException rethrown as RuntimeException; a needed save that succeeds stores the layout with the current hash and lifetime, resets the tracker, records the new hash, marks the session persisted and keeps the slots' session and id |
| Tc8.RedisSessionManager.Remove | rsm-tc8/src/main/java/mobi/eyeline/rsm/tc8/RedisSessionManager.java:394-410 | the session's key is deleted, and a session without an id leaves the store unchanged |
| Tc8.RedisSessionManager.GenerateSessionId | rsm-tc8/src/main/java/mobi/eyeline/rsm/tc8/RedisSessionManager.java:208-226 | a requested id is claimed with the placeholder when free and refused when taken; otherwise ids are drawn until a free one is claimed, and every id passed over was taken |
| Tc8.RedisSessionManager.DrawFreeId | rsm-tc8/src/main/java/mobi/eyeline/rsm/tc8/RedisSessionManager.java:218-220 | the claimed id was free and holds the placeholder; every earlier draw was taken |
| Tc8.RedisSessionManager.NewValidSession | rsm-tc8/src/main/java/mobi/eyeline/rsm/tc8/RedisSessionManager.java:176-180 | a fresh, clean, valid, new session without id or principal, with the timeout and the current time |
| Tc8.RedisSessionManager.SetId | rsm-tc8/src/main/java/mobi/eyeline/rsm/tc8/RedisSession.java:94-116 | the same id changes nothing; otherwise the old id's key is deleted, the id is set and the session saved with force, an IOException being rethrown as RuntimeException and IllegalStateException passed on |
| Tc8.RedisSessionManager.NamedSession | rsm-tc8/src/main/java/mobi/eyeline/rsm/tc8/RedisSessionManager.java:175-183 | a negative timeout makes setId's save fail with RuntimeException and the slots stay as they were; otherwise the new session is stored under the id, the slots mark it persisted with the empty map's hash, and the slots' session and id stay as they were |
| Tc8.RedisSessionManager.CreateSession | rsm-tc8/src/main/java/mobi/eyeline/rsm/tc8/RedisSessionManager.java:166-203 | skipping gives no session and changes nothing; an id that cannot be claimed gives no session and unpersisted slots; for a claimed id a failing save throws with the slots unchanged and the placeholder stored, and otherwise a new session is saved and placed in the request slots |
| Tc8.RedisSessionManager.StartSession | rsm-tc8/src/main/java/mobi/eyeline/rsm/tc8/RedisSessionManager.java:175-202 | a negative timeout throws RuntimeException from setId and changes nothing; otherwise the session is saved twice with force, stored once, and placed in the request slots |
| Tc8.RedisSessionManager.FillAndSave | rsm-tc8/src/main/java/mobi/eyeline/rsm/tc8/RedisSessionManager.java:185-192 | the slots hold the session and its id; the forced save succeeds exactly for a non-negative timeout, and then stores the layout with the session's hash, resets the tracker and marks the slots persisted with that hash |
| Tc8.RedisSessionManager.Deserialize | rsm-tc8/src/main/java/mobi/eyeline/rsm/tc8/RedisSessionManager.java:313-316 | a decoding failure is passed on; a decoded record is merged into the empty session |
| Tc8.RedisSessionManager.SessionFromSerializedData | rsm-tc8/src/main/java/mobi/eyeline/rsm/tc8/RedisSessionManager.java:301-330 | the session loaded from a stream has the state that Loaded describes |
| Tc8.RedisSessionManager.FindSession | rsm-tc8/src/main/java/mobi/eyeline/rsm/tc8/RedisSessionManager.java:244-284 | skipping gives null; the session of the current request is returned from its slot; an absent id gives null; a stored id is loaded and placed in the slots |
| Tc8.RedisSessionManager.AfterRequest | rsm-tc8/src/main/java/mobi/eyeline/rsm/tc8/RedisSessionManager.java:412-447 | the request slots are always cleared; an invalid session is deleted; a valid session is saved when needed and its tracker reset; a session that is skipped, invalid, or not written keeps its tracker as it was |
| Tc8.RedisSessionManager.LoadedSessionNeedsNoSave | rsm-tc8/src/main/java/mobi/eyeline/rsm/tc8/RedisSessionManager.java:350-359 | a session findSession loaded from the record saveInternal writes, left untouched, needs no unforced save: its attributes hash as the stored hash |
| Tc8.SavedSessionLoads | rsm-tc8/src/main/java/mobi/eyeline/rsm/tc8/RedisSessionManager.java:337-391 | a session saved by the manager, whose attribute keys are Strings and whose several roles are not null, loads back with its attributes in widened form (ints as longs, collections as typed arrays) and the hash it was saved with, under the id it was read under, not new, valid, accessed now and with the configured interval |
| Tc8.WidenedAttributesClean | rsm-tc8/src/main/java/mobi/eyeline/rsm/tc8/RedisSession.java:162-187 | the restored attributes of a persistable session with String keys are all stored, have no null value and have distinct keys |
| Tc8.RestoredMerges | rsm-tc8/src/main/java/mobi/eyeline/rsm/tc8/RedisSession.java:162-187 | a restored record with clean attributes merges unchanged except for its principal |
| Tc8.EmptyRoleListIsUnreadable | rsm-tc8/src/main/java/mobi/eyeline/rsm/tc8/RedisSessionManager.java:301-330 | a principal without roles is saved in a form that cannot be loaded |
| Tc8.NonStringKeyIsUnreadable | rsm-tc8/src/main/java/mobi/eyeline/rsm/tc8/RedisSession.java:174 | a stored map whose first key is a number, boolean, UUID, collection, array or map decodes, but loading it raises ClassCastException |
| Tc8.NullLaterRoleIsUnreadable | rsm-tc8/src/main/java/mobi/eyeline/rsm/tc8/RedisSession.java:184-186 | a stored principal with a null role after a first role decodes, but loading it raises NullPointerException |
| Jersey.AnyMatch | rsm-jersey/src/main/java/mobi/eyeline/rsm/jersey/RedisSessionImpl.java:173-177 | true means the role is among the roles; false means it is absent and no role is null; a null role met before a match raises NullPointerException |
| Jersey.NonNullRolesMatchMembership | rsm-jersey/src/main/java/mobi/eyeline/rsm/jersey/RedisSessionImpl.java:173-177 | without null roles, the answer is membership |
| Jersey.NullBeforeMatchFails | rsm-jersey/src/main/java/mobi/eyeline/rsm/jersey/RedisSessionImpl.java:173-177 | a null role before any match raises NullPointerException |
| Jersey.MatchBeforeNullSucceeds | rsm-jersey/src/main/java/mobi/eyeline/rsm/jersey/RedisSessionImpl.java:173-177 | a match before any null role answers true |
| Jersey.SecurityContextImpl.constructor | rsm-jersey/src/main/java/mobi/eyeline/rsm/jersey/RedisSessionImpl.java:163-165 | the context wraps the session's record |
| Jersey.SecurityContextImpl.IsUserInRole | rsm-jersey/src/main/java/mobi/eyeline/rsm/jersey/RedisSessionImpl.java:173-177 | a null role raises NullPointerException; no roles means false; true needs the role among the principal's roles; with no null roles the answer is membership |
| Jersey.RedisSessionImpl.constructor | rsm-jersey/src/main/java/mobi/eyeline/rsm/jersey/RedisSessionImpl.java:27-34 | a new session has no record and a clean tracker |
| Jersey.RedisSessionImpl.GetAttribute | rsm-jersey/src/main/java/mobi/eyeline/rsm/jersey/RedisSessionImpl.java:65-67 | the value stored under the name, or null; NullPointerException when the map is null |
| Jersey.RedisSessionImpl.SetAttribute | rsm-jersey/src/main/java/mobi/eyeline/rsm/jersey/RedisSessionImpl.java:75-101 | a null name checked against the skip pattern raises NullPointerException; a skipped name changes nothing; a null map raises NullPointerException; otherwise the value is put, read back, other keys are unchanged, and the tracker turns dirty exactly when the value changed |
| Jersey.RedisSessionImpl.PutAndTrack | rsm-jersey/src/main/java/mobi/eyeline/rsm/jersey/RedisSessionImpl.java:85-100 | the put and the dirty mark of setAttribute |
| Jersey.RedisSessionImpl.RemoveAttribute | rsm-jersey/src/main/java/mobi/eyeline/rsm/jersey/RedisSessionImpl.java:104-118 | a null map raises NullPointerException; otherwise the key is removed, reads back null, other keys are unchanged and the tracker is dirty |
| Jersey.RedisSessionImpl.Invalidate | rsm-jersey/src/main/java/mobi/eyeline/rsm/jersey/RedisSessionImpl.java:121-124 | the record is marked invalid and its key is deleted from the store |
| Jersey.RedisSessionImpl.GetSecurityContext | rsm-jersey/src/main/java/mobi/eyeline/rsm/jersey/RedisSessionImpl.java:127-131 | null without a principal; otherwise a fresh context over the session's record |
| Jersey.RedisSessionImpl.AsPersistedSession | rsm-jersey/src/main/java/mobi/eyeline/rsm/jersey/RedisSessionImpl.java:133-145 | the session's own record |
| Jersey.RedisSessionImpl.FromPersistedSession | rsm-jersey/src/main/java/mobi/eyeline/rsm/jersey/RedisSessionImpl.java:133-145 | the session takes the record given |
| Jersey.RedisSessionManager.constructor | rsm-jersey/src/main/java/mobi/eyeline/rsm/jersey/RedisSessionManager.java:29-36 | the strategy starts as ALWAYS, the timeout at 0, and the cookie name at session_id |
| Jersey.RedisSessionManager.SetPersistenceStrategy | rsm-jersey/src/main/java/mobi/eyeline/rsm/jersey/RedisSessionManager.java:46 | a recognised name sets the strategy; an unknown name raises IllegalArgumentException and leaves the strategy as it was |
| Jersey.RedisSessionManager.SetSessionTimeoutSeconds | rsm-jersey/src/main/java/mobi/eyeline/rsm/jersey/RedisSessionManager.java:58 | the timeout is set |
| Jersey.RedisSessionManager.Save | rsm-jersey/src/main/java/mobi/eyeline/rsm/jersey/RedisSessionManager.java:108-134 | an unforced save of a clean session changes nothing; otherwise the session is stored under its id with the timeout, and it fails with the command's IOException exactly when the id is null or the timeout is negative |
| Jersey.RedisSessionManager.Remove | rsm-jersey/src/main/java/mobi/eyeline/rsm/jersey/RedisSessionManager.java:137-143 | the session's key is deleted |
| Jersey.RedisSessionManager.AfterRequest | rsm-jersey/src/main/java/mobi/eyeline/rsm/jersey/RedisSessionManager.java:145-165 | a session without a record changes nothing; an invalid one is deleted; a valid one is saved under ALWAYS or when dirty, and is otherwise left alone |
| Jersey.RedisSessionManager.FindSession | rsm-jersey/src/main/java/mobi/eyeline/rsm/jersey/RedisSessionManager.java:167-187 | an absent id gives null; a decoding failure is passed on; otherwise a fresh, valid, clean session holding the decoded state |
| Jersey.DecodedAttributesDistinct | rsm-jersey/src/main/java/mobi/eyeline/rsm/jersey/RedisSessionManager.java:167-187 | a decoded attribute map has distinct keys |
| Jersey.SessionIdOf | rsm-jersey/src/main/java/mobi/eyeline/rsm/jersey/RedisSessionFactory.java:40-46 | a non-empty header wins; otherwise the cookie; otherwise no id |
| Jersey.EmptyHeaderIsAbsent | rsm-jersey/src/main/java/mobi/eyeline/rsm/jersey/RedisSessionFactory.java:40-46 | an empty header counts as no header |
| Jersey.RedisSessionFactory.constructor | rsm-jersey/src/main/java/mobi/eyeline/rsm/jersey/RedisSessionFactory.java:31-75 | the factory holds its manager and request |
| Jersey.RedisSessionFactory.Provide | rsm-jersey/src/main/java/mobi/eyeline/rsm/jersey/RedisSessionFactory.java:31-75 | no id, an empty id or an unknown id gives NULL_SESSION; an IOException while loading gives NULL_SESSION and any other failure is thrown; otherwise the loaded session, fresh, valid and clean |
| Jersey.RedisSessionFactory.Dispose | rsm-jersey/src/main/java/mobi/eyeline/rsm/jersey/RedisSessionFactory.java:78-88 | NULL_SESSION changes nothing; a real session is finished as afterRequest finishes it |
| Jersey.PlaceholderIsUnreadable | rsm-jersey/src/main/java/mobi/eyeline/rsm/jersey/RedisSessionFactory.java:62-74 | the tc8 id placeholder fails to decode, and the failure is not an IOException, so the factory throws it |
| Jersey.NullAttributeIsUnreadable | rsm-jersey/src/main/java/mobi/eyeline/rsm/jersey/RedisSessionImpl.java:75-101 | a session holding an attribute set to null is saved in a form that cannot be loaded |
| Jersey.NullAttributeEncoding | rsm-core/src/main/java/mobi/eyeline/rsm/pack/MsgPackUtil.java:124-136 | a map whose one value is null encodes to a form that decodes with NullPointerException |

## Left out

- I/O, threads and futures: store commands are synchronous calls on an in-memory map. The only network failure modelled is SETEX refusing a negative lifetime.
- Lifetimes are recorded per key but never enforced: no key expires in the model.
- MD5 is a function parameter. The managers fix their attribute hash to it in their constructors.
- The tc8 id generator is an oracle, a sequence of ids. It is assumed to produce a free id eventually.
- Clocks are parameters (`now`).
- The tc8 skip decision (shouldSkipSession) is an input. The Jersey skip-attributes regular expression is a predicate parameter.
- Java equality is structural datatype equality. In Java, arrays compare by identity and maps compare regardless of order.
- Hash-map iteration order is modelled as insertion order. In Java the order of a HashMap or ConcurrentHashMap decides which of several refused entries fails first. It also decides the order of the packed attribute map, and so the MD5 attribute hash that the tc8 save decision compares. And it decides which value survives when two keys encode alike (MsgPackUtil.IntegerAndLongKeysCollapse). The model's hashes and surviving values are those of insertion order.
- SessionSerializer.StringRoundTrip: a Dafny char cannot be an unpaired UTF-16 surrogate. A Java String can hold one, and getBytes(UTF_8) writes it as '?'. The round trip is exact for every string the model can represent, and such strings are not among them.
- Floating-point values, primitive arrays and other attribute classes are left out. Every unsupported value is one JOther case, which encodes to nil.
- Tc8.RedisSessionManager: doSaveImmediate is constant false, so the sessions' save-immediately branches (the tc8 RedisSession's and the Jersey RedisSessionImpl's attribute writes) are not written.
- Tc8.Tc8Session: the session only has what the manager needs. Its setAttribute, removeAttribute and setPrincipal, which mark the tracker dirty, are not modelled; the Jersey session's attribute writes are modelled in their place.
- Tc8.Tc8Session.Activate: on the load path, setId is a plain assignment. When the decoded record carries a different id than the key it was read under, Java's setId would also delete the record's id and save the session with force; that remove and save are not modelled there. On the create path setId is modelled in full (Tc8.RedisSessionManager.SetId).
- Tc8.RedisSessionManager.StartSession: the catch around createSession's second forced save is not written as code. Its save has the id and the timeout with which setId's save just succeeded, so in the model it cannot fail. The model proves that this branch is unreachable.
- Listeners, notes, authType, isValid's expiry check, distributable and the session-exclusion settings are not modelled.
- Tc8.PrincipalOf: the GenericPrincipal constructor sorts two or more roles with Arrays.sort. The model keeps the roles in their stored order, so a loaded principal's roles (Tc8.SavedSessionLoads, FindSession) are the saved ones unsorted. The sort's other effect, NullPointerException for a null role among several, is modelled.
- The DeserializedSessionContainer and the valve are not modelled. Nor are the lifecycle hooks initialize, destroy, startInternal and stopInternal, or the configuration setters setDbUrl, setTimeout and setSessionCookieName.
- Model.PersistedSessionMetadata: the default hash is an int64 constructor parameter, not a byte array.
- Jersey.RedisSessionManager.Save: sessions are only handed out after fromPersistedSession has given them a record. So save, remove, invalidate, getAttribute, getSecurityContext, and (through Valid) setAttribute and removeAttribute require a record, where Java would raise NullPointerException.
- Jersey.SessionIdOf: header names are matched exactly. The servlet container matches them case-insensitively.
- Jersey.RedisSession: NULL_SESSION, whose every method throws, is the NoSession case. Its methods are not modelled.
- Jersey.SecurityContextImpl: getUserPrincipal, isSecure and getAuthenticationScheme are not modelled.
