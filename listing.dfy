/** Paginated listing: a scan of the whole primary table, or, when the filter
    names an organization, a prefix scan of the name index. Both are cursor
    loops that skip the first `Offset` entries and stop once the page holds
    `Limit` records. */
module Listing {
  import opened Bytes
  import opened Errors
  import opened Ids
  import opened Buckets
  import opened Codec
  import opened IndexKeys
  import opened Cursors
  import opened StoreState
  import opened Pages
  import Store

  const DefaultPageSize: int := 20
  const MaxPageSize: int := 100

  /** The paging options a listing honours. */
  datatype FindOptions = FindOptions(limit: int, offset: int, descending: bool)

  /** `BucketFilter`: an optional exact name and an optional organization. */
  datatype BucketFilter = BucketFilter(name: Option<Bytes>, organizationID: Option<ID>)

  /** The options a listing runs with: the first given, or a default page;
      a zero or oversized limit becomes the maximum page. */
  function EffectiveOptions(opts: seq<FindOptions>): (o: FindOptions)
    ensures |opts| == 0 ==> o == FindOptions(DefaultPageSize, 0, false)
    ensures |opts| > 0 ==> o.offset == opts[0].offset && o.descending == opts[0].descending
    ensures |opts| > 0 && 0 < opts[0].limit <= MaxPageSize ==> o.limit == opts[0].limit
    ensures |opts| > 0 && opts[0].limit < 0 ==> o.limit == opts[0].limit
    ensures |opts| > 0 && (opts[0].limit == 0 || opts[0].limit > MaxPageSize) ==> o.limit == MaxPageSize
    ensures o.limit != 0 && o.limit <= MaxPageSize
  {
    var o := if |opts| == 0 then FindOptions(DefaultPageSize, 0, false) else opts[0];
    if o.limit > MaxPageSize || o.limit == 0 then o.(limit := MaxPageSize) else o
  }

  predicate Matches(name: Option<Bytes>, b: Bucket)
  {
    name.None? || name.value == b.name
  }

  /** One examined entry of the table scan: the record, kept when its name
      passes the filter. */
  function ScanStep(v: Bytes, name: Option<Bytes>): (r: Item)
    ensures r.Err? ==> r.error == Corrupt
    ensures r.Ok? <==> DecodeBucket(v).Some?
    ensures r.Ok? ==> r.value == if Matches(name, DecodeBucket(v).value) then DecodeBucket(v) else None
  {
    match UnmarshalBucket(v)
    case Err(e) => Err(e)
    case Ok(b) => Ok(if Matches(name, b) then Some(b) else None)
  }

  /** One examined entry of the index scan: the ID it holds, looked up. */
  function OrgStep(t: Tables, v: Bytes): (r: Item)
    ensures r.Err? ==> r.error in {InvalidID, NotFound, Corrupt}
    ensures r.Ok? <==> Ids.Decode(v).Ok? && GetBucket(t, Ids.Decode(v).value).Ok?
    ensures r.Ok? ==> r.value == Some(GetBucket(t, Ids.Decode(v).value).value)
  {
    match Ids.Decode(v)
    case Err(_) => Err(InvalidID)
    case Ok(id) =>
      match GetBucket(t, id)
      case Err(e) => Err(e)
      case Ok(b) => Ok(Some(b))
  }

  /** The step of the table scan, as the cursor loop applies it. */
  function ScanStepOf(name: Option<Bytes>): Bytes -> Item
  {
    v => ScanStep(v, name)
  }

  /** The step of the index scan, as the cursor loop applies it. */
  function OrgStepOf(t: Tables): Bytes -> Item
  {
    v => OrgStep(t, v)
  }

  /** The values a cursor yields for the keys `ks`, in the same order. */
  function Values(m: map<Bytes, Bytes>, ks: seq<Bytes>): (r: seq<Bytes>)
    requires forall k | k in ks :: k in m
    ensures |r| == |ks|
    ensures forall i | 0 <= i < |ks| :: r[i] == m[ks[i]]
  {
    seq(|ks|, i requires 0 <= i < |ks| => m[ks[i]])
  }

  /** A table scan fails only on a record that does not decode. */
  lemma ScanItemsErrors(vals: seq<Bytes>, name: Option<Bytes>)
    ensures forall x | x in Items(vals, ScanStepOf(name)) :: x.Err? ==> x.error == Corrupt
  {
    var items := Items(vals, ScanStepOf(name));
    forall i | 0 <= i < |items|
      ensures items[i].Err? ==> items[i].error == Corrupt
    {
      assert items[i] == ScanStep(vals[i], name);
    }
  }

  /** An index scan fails only on an entry that does not decode or does not
      resolve. */
  lemma OrgItemsErrors(t: Tables, vals: seq<Bytes>)
    ensures forall x | x in Items(vals, OrgStepOf(t)) :: x.Err? ==> x.error in {InvalidID, NotFound, Corrupt}
  {
    var items := Items(vals, OrgStepOf(t));
    forall i | 0 <= i < |items|
      ensures items[i].Err? ==> items[i].error in {InvalidID, NotFound, Corrupt}
    {
      assert items[i] == OrgStep(t, vals[i]);
    }
  }

  /** The primary-table scan of `ListBuckets`, in the order the options ask. */
  function TableScan(t: Tables, name: Option<Bytes>, o: FindOptions): Result<seq<Bucket>>
  {
    var keys := ScanKeys(t.buckets, o.descending);
    Page(Items(Drop(Values(t.buckets, keys), Skip(o.offset)), ScanStepOf(name)), o.limit, [])
  }

  /** `listBucketsByOrg`: the index entries under the organization's prefix,
      in key order; the Descending option is not consulted. */
  function ListBucketsByOrgSpec(t: Tables, orgID: ID, o: FindOptions): (r: Result<seq<Bucket>>)
    ensures !IsValid(orgID) ==> r == Err(InvalidID)
  {
    match BucketIndexKey(orgID, [])
    case Err(e) => Err(e)
    case Ok(prefix) =>
      var keys := PrefixKeys(t.index, prefix);
      Page(Items(Drop(Values(t.index, keys), Skip(o.offset)), OrgStepOf(t)), o.limit, [])
  }

  /** `ListBuckets`. */
  function ListBucketsSpec(t: Tables, filter: BucketFilter, opts: seq<FindOptions>): (r: Result<seq<Bucket>>)
    ensures filter.organizationID.Some? && IsValid(filter.organizationID.value) && filter.name.Some? ==>
              r == Err(InvalidRequest)
    ensures filter.organizationID.Some? && !IsValid(filter.organizationID.value) ==> r == Err(InvalidID)
  {
    if filter.organizationID.Some? && IsValid(filter.organizationID.value) && filter.name.Some? then
      Err(InvalidRequest)
    else
      var o := EffectiveOptions(opts);
      if filter.organizationID.Some? then ListBucketsByOrgSpec(t, filter.organizationID.value, o)
      else TableScan(t, filter.name, o)
  }

  /** A listing fails with InvalidRequest exactly when the filter names both
      a valid organization and a name: the scans fail only with the errors of
      decoding and lookup. */
  lemma ListInvalidRequest(t: Tables, filter: BucketFilter, opts: seq<FindOptions>)
    ensures ListBucketsSpec(t, filter, opts) == Err(InvalidRequest) <==>
              filter.organizationID.Some? && IsValid(filter.organizationID.value) && filter.name.Some?
  {
    var o := EffectiveOptions(opts);
    if filter.organizationID.None? {
      var vals := Drop(Values(t.buckets, ScanKeys(t.buckets, o.descending)), Skip(o.offset));
      ScanItemsErrors(vals, filter.name);
      PageError(Items(vals, ScanStepOf(filter.name)), o.limit, []);
    } else if IsValid(filter.organizationID.value) {
      var prefix := BucketIndexKey(filter.organizationID.value, []).value;
      var vals := Drop(Values(t.index, PrefixKeys(t.index, prefix)), Skip(o.offset));
      OrgItemsErrors(t, vals);
      PageError(Items(vals, OrgStepOf(t)), o.limit, []);
    }
  }

  /** No page holds more than the effective limit: at most MaxPageSize, at
      most DefaultPageSize without options, and at most one record under a
      negative limit, where the loop stops after the first record it
      examines. */
  lemma ListPageBound(t: Tables, filter: BucketFilter, opts: seq<FindOptions>)
    ensures var r := ListBucketsSpec(t, filter, opts);
            && (r.Ok? ==> |r.value| <= MaxPageSize)
            && (r.Ok? && |opts| == 0 ==> |r.value| <= DefaultPageSize)
            && (r.Ok? && |opts| > 0 && 0 < opts[0].limit ==> |r.value| <= opts[0].limit)
            && (r.Ok? && |opts| > 0 && opts[0].limit < 0 ==> |r.value| <= 1)
  {
    var o := EffectiveOptions(opts);
    if filter.organizationID.None? {
      assert ListBucketsSpec(t, filter, opts) == TableScan(t, filter.name, o);
      var vals := Drop(Values(t.buckets, ScanKeys(t.buckets, o.descending)), Skip(o.offset));
      PageBound(Items(vals, ScanStepOf(filter.name)), o.limit, []);
    } else if IsValid(filter.organizationID.value) && filter.name.None? {
      assert ListBucketsSpec(t, filter, opts) == ListBucketsByOrgSpec(t, filter.organizationID.value, o);
      var prefix := BucketIndexKey(filter.organizationID.value, []).value;
      var vals := Drop(Values(t.index, PrefixKeys(t.index, prefix)), Skip(o.offset));
      PageBound(Items(vals, OrgStepOf(t)), o.limit, []);
    } else {
      assert ListBucketsSpec(t, filter, opts).Err?;
    }
  }

  /** `ListBuckets`: a lookup request is refused, the options are settled,
      and either the index is scanned for the organization or the primary
      table is scanned in key order. */
  method ListBuckets(tx: Store.Tx, filter: BucketFilter, opts: seq<FindOptions>) returns (r: Result<seq<Bucket>>)
    ensures r == ListBucketsSpec(tx.Snapshot(), filter, opts)
  {
    if filter.organizationID.Some? && IsValid(filter.organizationID.value) && filter.name.Some? {
      return Err(InvalidRequest);
    }
    var o := EffectiveOptions(opts);
    if filter.organizationID.Some? {
      r := ListBucketsByOrg(tx, filter.organizationID.value, o);
      return;
    }
    var keys := ScanKeys(tx.buckets, o.descending);
    r := Drain(Values(tx.buckets, keys), ScanStepOf(filter.name), o.limit, o.offset);
  }

  /** `listBucketsByOrg`: the cursor over the organization's prefix of the
      name index, ascending whatever the options say. */
  method ListBucketsByOrg(tx: Store.Tx, orgID: ID, o: FindOptions) returns (r: Result<seq<Bucket>>)
    ensures r == ListBucketsByOrgSpec(tx.Snapshot(), orgID, o)
  {
    var key := BucketIndexKey(orgID, []);
    if key.Err? {
      return Err(key.error);
    }
    var keys := PrefixKeys(tx.index, key.value);
    r := Drain(Values(tx.index, keys), OrgStepOf(tx.Snapshot()), o.limit, o.offset);
  }
}
