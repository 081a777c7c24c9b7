/** Identifiers: unsigned 64-bit integers, zero meaning "unset", stored as
    fixed-width big-endian byte strings. */
module Ids {
  import opened Bytes
  import opened Errors

  /** Width, in bytes, of an encoded identifier. */
  const IDLength: nat := 8

  function Pow256(w: nat): (r: nat)
    ensures r > 0
  {
    if w == 0 then 1 else 256 * Pow256(w - 1)
  }

  type ID = n: nat | n < 0x1_0000_0000_0000_0000

  /** An identifier is valid when it has been assigned (is not zero). */
  predicate IsValid(id: ID)
  {
    id != 0
  }

  /** The last `w` bytes of `n` in big-endian order. */
  function BigEndian(n: nat, w: nat): (r: Bytes)
    ensures |r| == w
  {
    if w == 0 then [] else BigEndian(n / 256, w - 1) + [n % 256]
  }

  /** The number a big-endian byte string denotes. */
  function FromBigEndian(s: Bytes): (r: nat)
    ensures r < Pow256(|s|)
  {
    if s == [] then 0 else FromBigEndian(s[..|s| - 1]) * 256 + s[|s| - 1]
  }

  lemma {:induction false} FromBigEndianOfBigEndian(n: nat, w: nat)
    requires n < Pow256(w)
    ensures FromBigEndian(BigEndian(n, w)) == n
  {
    if w > 0 {
      var s := BigEndian(n, w);
      assert s[..|s| - 1] == BigEndian(n / 256, w - 1);
      FromBigEndianOfBigEndian(n / 256, w - 1);
    }
  }

  lemma {:induction false} BigEndianOfFromBigEndian(s: Bytes)
    ensures BigEndian(FromBigEndian(s), |s|) == s
  {
    if s != [] {
      var n := FromBigEndian(s);
      var init := s[..|s| - 1];
      assert n / 256 == FromBigEndian(init) && n % 256 == s[|s| - 1];
      BigEndianOfFromBigEndian(init);
      assert s == init + [s[|s| - 1]];
    }
  }

  /** Big-endian encodings of one width sort as the numbers they denote. */
  lemma {:induction false} BigEndianOrder(a: nat, b: nat, w: nat)
    requires a < Pow256(w) && b < Pow256(w)
    ensures LexLe(BigEndian(a, w), BigEndian(b, w)) <==> a <= b
    ensures BigEndian(a, w) == BigEndian(b, w) <==> a == b
  {
    if w == 0 {
    } else {
      BigEndianOrder(a / 256, b / 256, w - 1);
      LexLeSnoc(BigEndian(a / 256, w - 1), a % 256, BigEndian(b / 256, w - 1), b % 256);
      var x, y := BigEndian(a, w), BigEndian(b, w);
      if x == y {
        assert x[..w - 1] == BigEndian(a / 256, w - 1) && y[..w - 1] == BigEndian(b / 256, w - 1);
        assert x[w - 1] == a % 256 && y[w - 1] == b % 256;
      }
    }
  }

  /** The stored form of an identifier. */
  function IdBytes(id: ID): (r: Bytes)
    ensures |r| == IDLength
  {
    BigEndian(id, IDLength)
  }

  /** `ID.Encode`: fails for the unset identifier. */
  function Encode(id: ID): (r: Result<Bytes>)
    ensures r.Ok? <==> IsValid(id)
    ensures r.Err? ==> r.error == InvalidID
    ensures r.Ok? ==> |r.value| == IDLength && r.value == IdBytes(id)
  {
    if IsValid(id) then Ok(IdBytes(id)) else Err(InvalidID)
  }

  /** `ID.Decode`: fails on a wrong length or on the unset identifier. */
  function Decode(s: Bytes): (r: Result<ID>)
    ensures r.Ok? ==> |s| == IDLength && IsValid(r.value)
  {
    if |s| != IDLength then Err(InvalidID)
    else
      var n := FromBigEndian(s);
      if n == 0 then Err(InvalidID) else Ok(n)
  }

  lemma DecodeEncode(id: ID)
    requires IsValid(id)
    ensures Decode(IdBytes(id)) == Ok(id)
  {
    FromBigEndianOfBigEndian(id, IDLength);
  }

  lemma EncodeDecode(s: Bytes)
    requires Decode(s).Ok?
    ensures IdBytes(Decode(s).value) == s
  {
    BigEndianOfFromBigEndian(s);
  }

  /** Distinct identifiers have distinct stored forms. */
  lemma IdBytesInjective(a: ID, b: ID)
    ensures IdBytes(a) == IdBytes(b) <==> a == b
  {
    BigEndianOrder(a, b, IDLength);
  }

  /** Primary-table keys sort as the identifiers they encode. */
  lemma IdBytesOrder(a: ID, b: ID)
    ensures LexLe(IdBytes(a), IdBytes(b)) <==> a <= b
  {
    BigEndianOrder(a, b, IDLength);
  }
}
