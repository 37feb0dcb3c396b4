/**
 * The MessagePack extension value that carries a java.util.UUID: extension type 1
 * whose 16 data bytes are the two 64-bit halves, each big-endian, as
 * java.nio.ByteBuffer's putLong and getLong write and read them.
 */
module UUIDValue {
  import opened Wrappers
  import opened JavaLang
  import opened Wire

  /** The extension type code of a UUID value. */
  const TYPE: int8 := 1

  function Pow256(k: nat): (r: nat)
    ensures r > 0
  {
    if k == 0 then 1 else 256 * Pow256(k - 1)
  }

  /** The k-byte big-endian representation of n, most significant byte first. */
  function ToBigEndian(n: nat, k: nat): (r: seq<uint8>)
    requires n < Pow256(k)
    ensures |r| == k
  {
    if k == 0 then [] else ToBigEndian(n / 256, k - 1) + [(n % 256) as uint8]
  }

  /** The number a big-endian byte sequence spells. */
  function FromBigEndian(s: seq<uint8>): (r: nat)
    ensures r < Pow256(|s|)
  {
    if s == [] then 0 else FromBigEndian(s[..|s| - 1]) * 256 + s[|s| - 1] as nat
  }

  lemma {:induction false} FromToBigEndian(n: nat, k: nat)
    requires n < Pow256(k)
    ensures FromBigEndian(ToBigEndian(n, k)) == n
  {
    if k > 0 {
      var s := ToBigEndian(n, k);
      assert s[..k - 1] == ToBigEndian(n / 256, k - 1);
      FromToBigEndian(n / 256, k - 1);
    }
  }

  lemma {:induction false} ToFromBigEndian(s: seq<uint8>)
    ensures ToBigEndian(FromBigEndian(s), |s|) == s
  {
    if s != [] {
      var p := s[..|s| - 1];
      var n := FromBigEndian(s);
      assert n / 256 == FromBigEndian(p);
      assert n % 256 == s[|s| - 1] as nat;
      ToFromBigEndian(p);
      assert p + [s[|s| - 1]] == s;
    }
  }

  /** The bit pattern of a long, read as an unsigned number. */
  function Unsigned64(x: int64): (r: nat)
    ensures r < TWO_TO_THE_64
    ensures (r - x as int) % TWO_TO_THE_64 == 0
  {
    if x >= 0 then x as nat else (x as int + TWO_TO_THE_64) as nat
  }

  /** A 64-bit pattern read as a two's complement long. */
  function Signed64(n: nat): (r: int64)
    requires n < TWO_TO_THE_64
    ensures Unsigned64(r) == n
  {
    if n < 0x8000_0000_0000_0000 then n as int64 else (n - TWO_TO_THE_64) as int64
  }

  lemma SignedUnsigned(x: int64)
    ensures Signed64(Unsigned64(x)) == x
  {
  }

  /** ByteBuffer.putLong: eight bytes, big-endian. */
  function PutLong(x: int64): (r: seq<uint8>)
    ensures |r| == 8
  {
    ToBigEndian(Unsigned64(x), 8)
  }

  /** ByteBuffer.getLong on the first eight bytes. */
  function GetLong(b: seq<uint8>): int64
    requires |b| >= 8
  {
    Signed64(FromBigEndian(b[..8]))
  }

  lemma GetPutLong(x: int64)
    ensures GetLong(PutLong(x)) == x
  {
    assert PutLong(x)[..8] == PutLong(x);
    FromToBigEndian(Unsigned64(x), 8);
  }

  lemma PutGetLong(b: seq<uint8>)
    requires |b| == 8
    ensures PutLong(GetLong(b)) == b
  {
    assert b[..8] == b;
    ToFromBigEndian(b);
  }

  /** uuidToBytes: the most significant half, then the least significant half. */
  function UuidToBytes(u: Uuid): (r: seq<uint8>)
    ensures |r| == 16
    ensures r[..8] == PutLong(u.mostSigBits) && r[8..] == PutLong(u.leastSigBits)
  {
    PutLong(u.mostSigBits) + PutLong(u.leastSigBits)
  }

  /**
   * uuidFromBytes: two getLong calls on a buffer over the bytes; fewer than 16
   * bytes make one of them underflow, and bytes past the 16th are never read.
   */
  function UuidFromBytes(b: seq<uint8>): (r: Result<Uuid, Exception>)
    ensures r.Failure? <==> |b| < 16
    ensures r.Failure? ==> r.error == BufferUnderflow
  {
    if |b| < 16 then Failure(BufferUnderflow)
    else Success(Uuid(GetLong(b[..8]), GetLong(b[8..16])))
  }

  /** newUUID: the UUID as an extension value of type TYPE. */
  function NewUUID(u: Uuid): (r: WireValue)
    ensures r.Ext? && r.typ == TYPE && r.data == UuidToBytes(u)
  {
    Ext(TYPE, UuidToBytes(u))
  }

  /** Every UUID survives packing into bytes and reading back. */
  lemma UuidRoundTrip(u: Uuid)
    ensures UuidFromBytes(UuidToBytes(u)) == Success(u)
  {
    var b := UuidToBytes(u);
    assert b[..8][..8] == b[..8];
    assert b[8..16] == b[8..];
    assert b[8..][..8] == b[8..];
    GetPutLong(u.mostSigBits);
    GetPutLong(u.leastSigBits);
  }

  /** Every 16-byte sequence is the packing of the UUID read from it. */
  lemma BytesRoundTrip(b: seq<uint8>)
    requires |b| == 16
    ensures UuidFromBytes(b).Success?
    ensures UuidToBytes(UuidFromBytes(b).value) == b
  {
    var u := UuidFromBytes(b).value;
    assert b[..8][..8] == b[..8];
    assert b[8..16][..8] == b[8..16];
    PutGetLong(b[..8]);
    PutGetLong(b[8..16]);
    assert b[..8] + b[8..16] == b;
  }

  /** Only the first 16 bytes matter: trailing bytes are ignored. */
  lemma ReadsFirstSixteen(b: seq<uint8>, extra: seq<uint8>)
    requires |b| == 16
    ensures UuidFromBytes(b + extra) == UuidFromBytes(b)
  {
    var c := b + extra;
    assert c[..8] == b[..8];
    assert c[8..16] == b[8..16];
  }

  /** Bytes 0-7 are the high half and bytes 8-15 the low half, each most significant byte first. */
  lemma UuidByteLayout(u: Uuid, i: nat)
    requires i < 8
    ensures UuidToBytes(u)[i] as nat == Unsigned64(u.mostSigBits) / Pow256(7 - i) % 256
    ensures UuidToBytes(u)[8 + i] as nat == Unsigned64(u.leastSigBits) / Pow256(7 - i) % 256
  {
    ByteOf(Unsigned64(u.mostSigBits), 8, i);
    ByteOf(Unsigned64(u.leastSigBits), 8, i);
  }

  /** Byte i of a k-byte big-endian representation. */
  lemma {:induction false} ByteOf(n: nat, k: nat, i: nat)
    requires n < Pow256(k) && i < k
    ensures ToBigEndian(n, k)[i] as nat == n / Pow256(k - 1 - i) % 256
  {
    if i == k - 1 {
    } else {
      ByteOf(n / 256, k - 1, i);
      DivDiv(n, Pow256(k - 2 - i));
    }
  }

  lemma DivDiv(n: nat, b: nat)
    requires b > 0
    ensures n / 256 / b == n / (256 * b)
  {
    var q1 := n / 256;
    var r1 := n % 256;
    var q := q1 / b;
    var r2 := q1 % b;
    assert q1 == q * b + r2;
    Regroup(q, b, r2);
    assert n == q * (256 * b) + (256 * r2 + r1);
    DivUnique(n, 256 * b, q, 256 * r2 + r1);
  }

  lemma Regroup(q: int, b: int, r: int)
    ensures 256 * (q * b + r) == q * (256 * b) + 256 * r
  {
  }

  lemma MulLe(x: nat, y: nat, c: nat)
    requires x <= y
    ensures x * c <= y * c
  {
  }

  lemma DivUnique(n: nat, m: nat, q: nat, r: nat)
    requires m > 0 && r < m && n == q * m + r
    ensures n / m == q
  {
    var q0 := n / m;
    var r0 := n % m;
    assert n == q0 * m + r0;
    if q0 < q {
      MulLe(q0 + 1, q, m);
    } else if q < q0 {
      MulLe(q + 1, q0, m);
    }
  }
}
