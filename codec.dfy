/** The record codec. The store keeps each bucket as a self-delimiting byte
    encoding; here the fields are written in a fixed order, identifiers as
    eight big-endian bytes, integers as zigzag varints and strings with a
    varint length prefix. `UnmarshalBucket(MarshalBucket(b)) == Ok(b)` is the
    property the store relies on. */
module Codec {
  import opened Bytes
  import opened Errors
  import opened Ids
  import opened Buckets

  /** Unsigned LEB128: seven bits per byte, least significant group first,
      high bit set on every byte but the last. */
  function EncodeUvarint(n: nat): (r: Bytes)
    decreases n
  {
    if n < 128 then [n] else [128 + n % 128] + EncodeUvarint(n / 128)
  }

  function DecodeUvarint(s: Bytes): (r: Option<(nat, Bytes)>)
    ensures r.Some? ==> |r.value.1| < |s|
    decreases |s|
  {
    if |s| == 0 then None
    else if s[0] < 128 then Some((s[0] as nat, s[1..]))
    else
      var p :- DecodeUvarint(s[1..]);
      Some((s[0] - 128 + 128 * p.0, p.1))
  }

  lemma {:induction false} UvarintRoundTrip(n: nat, rest: Bytes)
    ensures DecodeUvarint(EncodeUvarint(n) + rest) == Some((n, rest))
    decreases n
  {
    if n >= 128 {
      var s := EncodeUvarint(n) + rest;
      assert s[1..] == EncodeUvarint(n / 128) + rest;
      UvarintRoundTrip(n / 128, rest);
    }
  }

  /** Signed integers folded onto naturals: 0, -1, 1, -2, ... */
  function ZigZag(x: int): nat
  {
    if x >= 0 then 2 * x else -2 * x - 1
  }

  function UnZigZag(n: nat): int
  {
    if n % 2 == 0 then n / 2 else -((n + 1) / 2)
  }

  function EncodeInt(x: int): Bytes
  {
    EncodeUvarint(ZigZag(x))
  }

  function DecodeInt(s: Bytes): Option<(int, Bytes)>
  {
    var p :- DecodeUvarint(s);
    Some((UnZigZag(p.0), p.1))
  }

  lemma IntRoundTrip(x: int, rest: Bytes)
    ensures DecodeInt(EncodeInt(x) + rest) == Some((x, rest))
  {
    UvarintRoundTrip(ZigZag(x), rest);
  }

  function EncodeString(s: Bytes): Bytes
  {
    EncodeUvarint(|s|) + s
  }

  function DecodeString(s: Bytes): Option<(Bytes, Bytes)>
  {
    var p :- DecodeUvarint(s);
    if p.0 <= |p.1| then Some((p.1[..p.0], p.1[p.0..])) else None
  }

  lemma StringRoundTrip(x: Bytes, rest: Bytes)
    ensures DecodeString(EncodeString(x) + rest) == Some((x, rest))
  {
    UvarintRoundTrip(|x|, x + rest);
    assert EncodeString(x) + rest == EncodeUvarint(|x|) + (x + rest);
    assert (x + rest)[..|x|] == x && (x + rest)[|x|..] == rest;
  }

  function DecodeIdField(s: Bytes): Option<(ID, Bytes)>
  {
    if |s| < IDLength then None
    else
      var n := FromBigEndian(s[..IDLength]);
      Some((n, s[IDLength..]))
  }

  lemma IdFieldRoundTrip(id: ID, rest: Bytes)
    ensures DecodeIdField(IdBytes(id) + rest) == Some((id, rest))
  {
    var s := IdBytes(id) + rest;
    assert s[..IDLength] == IdBytes(id) && s[IDLength..] == rest;
    FromBigEndianOfBigEndian(id, IDLength);
  }

  function TypeTag(t: BucketType): byte
  {
    if t == User then 0 else 1
  }

  function DecodeType(s: Bytes): Option<(BucketType, Bytes)>
  {
    if |s| == 0 then None
    else if s[0] == 0 then Some((User, s[1..]))
    else if s[0] == 1 then Some((System, s[1..]))
    else None
  }

  /** `marshalBucket`. */
  function MarshalBucket(b: Bucket): Bytes
  {
    IdBytes(b.id) + (IdBytes(b.orgID) + ([TypeTag(b.btype)] + (EncodeString(b.name) +
      (EncodeString(b.description) + (EncodeInt(b.retentionPeriod) +
      (EncodeInt(b.createdAt) + EncodeInt(b.updatedAt)))))))
  }

  /** The decoder proper: `None` on truncated input, an unknown type tag or
      trailing bytes. */
  function DecodeBucket(v: Bytes): Option<Bucket>
  {
    var id :- DecodeIdField(v);
    var org :- DecodeIdField(id.1);
    var ty :- DecodeType(org.1);
    var name :- DecodeString(ty.1);
    var desc :- DecodeString(name.1);
    var ret :- DecodeInt(desc.1);
    var created :- DecodeInt(ret.1);
    var updated :- DecodeInt(created.1);
    if updated.1 != [] then None
    else Some(Bucket(id.0, org.0, ty.0, name.0, desc.0, ret.0, created.0, updated.0))
  }

  /** `unmarshalBucket`: a record that does not decode is Corrupt. */
  function UnmarshalBucket(v: Bytes): (r: Result<Bucket>)
    ensures r.Err? ==> r.error == Corrupt
  {
    match DecodeBucket(v)
    case None => Err(Corrupt)
    case Some(b) => Ok(b)
  }

  /** Every record the store writes reads back as the same record. */
  lemma {:induction false} UnmarshalMarshal(b: Bucket)
    ensures UnmarshalBucket(MarshalBucket(b)) == Ok(b)
  {
    var s8 := EncodeInt(b.updatedAt);
    var s7 := EncodeInt(b.createdAt) + s8;
    var s6 := EncodeInt(b.retentionPeriod) + s7;
    var s5 := EncodeString(b.description) + s6;
    var s4 := EncodeString(b.name) + s5;
    var s3 := [TypeTag(b.btype)] + s4;
    var s2 := IdBytes(b.orgID) + s3;
    var s1 := IdBytes(b.id) + s2;
    assert s1 == MarshalBucket(b);
    IdFieldRoundTrip(b.id, s2);
    IdFieldRoundTrip(b.orgID, s3);
    assert s3[1..] == s4;
    StringRoundTrip(b.name, s5);
    StringRoundTrip(b.description, s6);
    IntRoundTrip(b.retentionPeriod, s7);
    IntRoundTrip(b.createdAt, s8);
    IntRoundTrip(b.updatedAt, []);
    assert s8 == s8 + [];
  }

  /** Distinct records have distinct encodings. */
  lemma MarshalInjective(a: Bucket, b: Bucket)
    ensures MarshalBucket(a) == MarshalBucket(b) <==> a == b
  {
    UnmarshalMarshal(a);
    UnmarshalMarshal(b);
  }
}
