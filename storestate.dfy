/** The two sub-containers of a transaction as values, the invariant that ties
    them together, and the read-only operations of the store. */
module StoreState {
  import opened Bytes
  import opened Errors
  import opened Ids
  import opened Buckets
  import opened Codec
  import opened IndexKeys

  /** `bucketsv1` maps an encoded bucket ID to the encoded record;
      `bucketindexv1` maps an index key (encoded OrgID ++ name) to the encoded ID. */
  datatype Tables = Tables(buckets: map<Bytes, Bytes>, index: map<Bytes, Bytes>)

  /** The record stored under primary key `k`, decoded. */
  function Record(t: Tables, k: Bytes): Option<Bucket>
  {
    if k in t.buckets then DecodeBucket(t.buckets[k]) else None
  }

  /** The primary record under `k` decodes, is keyed by its own ID, and the
      index entry for its (OrgID, Name) points back at `k`. */
  ghost predicate RecordIndexed(t: Tables, k: Bytes)
  {
    && Record(t, k).Some?
    && var b := Record(t, k).value;
    && IsValid(b.id)
    && IdBytes(b.id) == k
    && BucketIndexKey(b.orgID, b.name).Ok?
    && BucketIndexKey(b.orgID, b.name).value in t.index
    && t.index[BucketIndexKey(b.orgID, b.name).value] == k
  }

  /** The index entry `ik` points at a primary record whose (OrgID, Name)
      builds exactly `ik`. */
  ghost predicate EntryResolves(t: Tables, ik: Bytes)
  {
    && ik in t.index
    && Record(t, t.index[ik]).Some?
    && BucketIndexKey(Record(t, t.index[ik]).value.orgID, Record(t, t.index[ik]).value.name) == Ok(ik)
  }

  /** The bijection between primary records and index entries. */
  ghost predicate Consistent(t: Tables)
  {
    && (forall k | k in t.buckets :: RecordIndexed(t, k))
    && (forall ik | ik in t.index :: EntryResolves(t, ik))
  }

  /** `uniqueBucketName`: `None` when (oid, uname) is free. */
  function UniqueBucketName(t: Tables, oid: ID, uname: Bytes): (r: Option<Error>)
    ensures r.None? <==> IsValid(oid) && BucketIndexKey(oid, uname).value !in t.index
    ensures r.Some? ==> r.value == (if IsValid(oid) then AlreadyExists(uname) else InvalidID)
  {
    match BucketIndexKey(oid, uname)
    case Err(e) => Some(e)
    case Ok(key) =>
      if |key| == 0 then Some(NameEmpty)
      else if key in t.index then Some(AlreadyExists(uname))
      else None
  }

  /** `GetBucket`. */
  function GetBucket(t: Tables, id: ID): (r: Result<Bucket>)
    ensures !IsValid(id) ==> r == Err(InvalidID)
    ensures IsValid(id) && IdBytes(id) !in t.buckets ==> r == Err(NotFound)
    ensures r.Ok? ==> IsValid(id) && Record(t, IdBytes(id)) == Some(r.value)
    // A stored key gives its record when the bytes decode, and Corrupt otherwise.
    ensures IsValid(id) && IdBytes(id) in t.buckets ==>
              (r.Ok? <==> DecodeBucket(t.buckets[IdBytes(id)]).Some?) && (r.Err? ==> r.error == Corrupt)
    ensures r.Err? ==> r.error in {InvalidID, NotFound, Corrupt}
  {
    match Encode(id)
    case Err(_) => Err(InvalidID)
    case Ok(encodedID) =>
      if encodedID !in t.buckets then Err(NotFound)
      else UnmarshalBucket(t.buckets[encodedID])
  }

  /** `GetBucketByName`. */
  function GetBucketByName(t: Tables, orgID: ID, n: Bytes): (r: Result<Bucket>)
    ensures !IsValid(orgID) ==> r == Err(InvalidID)
    ensures IsValid(orgID) && BucketIndexKey(orgID, n).value !in t.index ==>
      r == (if IsSystemName(n) then Ok(SystemBucket(n, orgID).value) else Err(NotFoundByName(n)))
  {
    match BucketIndexKey(orgID, n)
    case Err(_) => Err(InvalidID)
    case Ok(key) =>
      if key !in t.index then
        match SystemBucket(n, orgID)
        case Some(b) => Ok(b)
        case None => Err(NotFoundByName(n))
      else
        match Ids.Decode(t.index[key])
        case Err(_) => Err(InvalidID)
        case Ok(id) => GetBucket(t, id)
  }

  /** In a consistent store the record found under an ID carries that ID. */
  lemma GetBucketReturnsRequested(t: Tables, id: ID)
    requires Consistent(t) && GetBucket(t, id).Ok?
    ensures GetBucket(t, id).value.id == id
    ensures IsValid(GetBucket(t, id).value.orgID)
  {
    assert RecordIndexed(t, IdBytes(id));
    IdBytesInjective(GetBucket(t, id).value.id, id);
  }

  /** Every stored bucket is found both by its ID and by its (OrgID, Name). */
  lemma StoredIsFound(t: Tables, k: Bytes)
    requires Consistent(t) && k in t.buckets
    ensures Record(t, k).Some?
    ensures GetBucket(t, Record(t, k).value.id) == Ok(Record(t, k).value)
    ensures GetBucketByName(t, Record(t, k).value.orgID, Record(t, k).value.name) == Ok(Record(t, k).value)
  {
    assert RecordIndexed(t, k);
    var b := Record(t, k).value;
    DecodeEncode(b.id);
  }

  /** (OrgID, Name) is unique among stored buckets. */
  lemma NameUnique(t: Tables, k1: Bytes, k2: Bytes)
    requires Consistent(t) && k1 in t.buckets && k2 in t.buckets
    requires Record(t, k1).value.orgID == Record(t, k2).value.orgID
    requires Record(t, k1).value.name == Record(t, k2).value.name
    ensures k1 == k2
  {
    assert RecordIndexed(t, k1) && RecordIndexed(t, k2);
  }

  /** A name lookup that hits the index returns the stored bucket of that
      organization and name. */
  lemma IndexedNameIsFound(t: Tables, orgID: ID, n: Bytes)
    requires Consistent(t) && IsValid(orgID) && BucketIndexKey(orgID, n).value in t.index
    ensures GetBucketByName(t, orgID, n).Ok?
    ensures var b := GetBucketByName(t, orgID, n).value;
            IdBytes(b.id) in t.buckets && Record(t, IdBytes(b.id)) == Some(b) &&
            b.orgID == orgID && b.name == n
  {
    var key := BucketIndexKey(orgID, n).value;
    assert EntryResolves(t, key);
    var k := t.index[key];
    assert RecordIndexed(t, k);
    var b := Record(t, k).value;
    DecodeEncode(b.id);
    BucketIndexKeyInjective(b.orgID, b.name, orgID, n);
  }

  /** Without a stored bucket of that (OrgID, Name), a name lookup returns
      the well-known bucket or NotFoundByName. */
  lemma UnstoredNameMisses(t: Tables, orgID: ID, n: Bytes)
    requires Consistent(t) && IsValid(orgID)
    requires forall k | k in t.buckets :: !(Record(t, k).value.orgID == orgID && Record(t, k).value.name == n)
    ensures GetBucketByName(t, orgID, n) ==
            (if IsSystemName(n) then Ok(SystemBucket(n, orgID).value) else Err(NotFoundByName(n)))
  {
    var key := BucketIndexKey(orgID, n).value;
    if key in t.index {
      assert EntryResolves(t, key);
      var b := Record(t, t.index[key]).value;
      BucketIndexKeyInjective(b.orgID, b.name, orgID, n);
      assert false;
    }
  }
}
