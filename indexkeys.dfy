/** Keys of the name index: the organization's encoded identifier followed by
    the bucket name's bytes. */
module IndexKeys {
  import opened Bytes
  import opened Errors
  import opened Ids

  /** `bucketIndexKey`: fails only when the organization identifier does not
      encode; otherwise the key is the org's IDLength-byte prefix followed by
      the name. */
  function BucketIndexKey(o: ID, name: Bytes): (r: Result<Bytes>)
    ensures r.Ok? <==> IsValid(o)
    ensures r.Err? ==> r.error == InvalidID
    ensures r.Ok? ==> |r.value| == IDLength + |name| &&
                      r.value[..IDLength] == IdBytes(o) && r.value[IDLength..] == name
  {
    match Encode(o)
    case Err(_) => Err(InvalidID)
    case Ok(orgID) => Ok(orgID + name)
  }

  /** Different (OrgID, Name) pairs never share an index key. */
  lemma BucketIndexKeyInjective(o1: ID, n1: Bytes, o2: ID, n2: Bytes)
    requires BucketIndexKey(o1, n1).Ok? && BucketIndexKey(o1, n1) == BucketIndexKey(o2, n2)
    ensures o1 == o2 && n1 == n2
  {
    IdBytesInjective(o1, o2);
  }

  /** The key of the empty name is the organization's prefix: exactly the keys
      built for that organization carry it. */
  lemma OrgPrefix(o: ID, o2: ID, name: Bytes)
    requires IsValid(o) && IsValid(o2)
    ensures BucketIndexKey(o, []) == Ok(IdBytes(o))
    ensures HasPrefix(BucketIndexKey(o2, name).value, BucketIndexKey(o, []).value) <==> o2 == o
  {
    assert IdBytes(o) + [] == IdBytes(o);
    IdBytesInjective(o, o2);
  }

  /** Within one organization, index keys sort as the names do. */
  lemma IndexKeyOrder(o: ID, n1: Bytes, n2: Bytes)
    requires IsValid(o)
    ensures LexLe(BucketIndexKey(o, n1).value, BucketIndexKey(o, n2).value) <==> LexLe(n1, n2)
  {
    LexLeCommonPrefix(IdBytes(o), n1, n2);
  }
}
