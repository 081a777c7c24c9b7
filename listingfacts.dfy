/** What a listing returns from a consistent store: the stored records
    themselves, in key order, passed through the name filter and cut to the
    page the options describe. */
module ListingFacts {
  import opened Bytes
  import opened Errors
  import opened Ids
  import opened Buckets
  import opened IndexKeys
  import opened Cursors
  import opened StoreState
  import opened Pages
  import opened Listing

  /** The records stored under the primary keys `ks`, in order; a key
      without a decodable record is passed over. */
  function Records(t: Tables, ks: seq<Bytes>): (r: seq<Bucket>)
    ensures forall b | b in r :: exists k | k in ks :: Record(t, k) == Some(b)
    ensures forall k | k in ks && Record(t, k).Some? :: Record(t, k).value in r
  {
    if ks == [] then []
    else (if Record(t, ks[0]).Some? then [Record(t, ks[0]).value] else []) + Records(t, ks[1..])
  }

  lemma {:induction false} RecordsAt(t: Tables, ks: seq<Bytes>)
    requires forall k | k in ks :: Record(t, k).Some?
    ensures |Records(t, ks)| == |ks|
    ensures forall i | 0 <= i < |ks| :: Records(t, ks)[i] == Record(t, ks[i]).value
  {
    if ks != [] {
      RecordsAt(t, ks[1..]);
    }
  }

  /** The records the name filter passes, in order. */
  function Filter(bs: seq<Bucket>, name: Option<Bytes>): (r: seq<Bucket>)
    ensures forall b :: b in r <==> b in bs && Matches(name, b)
    ensures name.None? ==> r == bs
    ensures |r| <= |bs|
  {
    if bs == [] then []
    else (if Matches(name, bs[0]) then [bs[0]] else []) + Filter(bs[1..], name)
  }

  /** The page a listing returns when every entry it examines yields its
      record: under a positive limit, the first `limit` records the filter
      passes; otherwise the first record examined, when the filter passes it. */
  function Window(recs: seq<Bucket>, name: Option<Bytes>, limit: int): (r: seq<Bucket>)
    ensures forall b | b in r :: b in recs && Matches(name, b)
    ensures limit > 0 ==> |r| <= limit
    ensures limit > 0 && |r| < limit ==> r == Filter(recs, name)
    ensures limit <= 0 ==> |r| <= 1
  {
    if limit > 0 then Take(Filter(recs, name), limit) else Filter(Take(recs, 1), name)
  }

  /** Each item is the record at the same position, kept when the filter
      passes it. */
  predicate Yields(items: seq<Item>, recs: seq<Bucket>, name: Option<Bytes>)
  {
    && |items| == |recs|
    && forall i | 0 <= i < |items| :: items[i] == Ok(if Matches(name, recs[i]) then Some(recs[i]) else None)
  }

  lemma {:induction false} SomesOfYields(items: seq<Item>, recs: seq<Bucket>, name: Option<Bytes>)
    requires Yields(items, recs, name)
    ensures Somes(items) == Filter(recs, name)
  {
    if items != [] {
      assert Yields(items[1..], recs[1..], name);
      SomesOfYields(items[1..], recs[1..], name);
    }
  }

  /** When every examined entry yields its record, the cursor loop returns
      the window of those records. */
  lemma PageOfYields(items: seq<Item>, recs: seq<Bucket>, name: Option<Bytes>, limit: int)
    requires Yields(items, recs, name)
    ensures Page(items, limit, []) == Ok(Window(recs, name, limit))
  {
    if limit > 0 {
      SomesOfYields(items, recs, name);
      PageAllOk(items, limit, []);
      assert [] + Take(Filter(recs, name), limit) == Take(Filter(recs, name), limit);
    } else {
      PageFirstOnly(items, limit);
      if items == [] {
        assert Take(recs, 1) == [];
        assert Filter([], name) == [];
      } else {
        var first := items[..1];
        assert Yields(first, recs[..1], name);
        SomesOfYields(first, recs[..1], name);
        assert first[0] == items[0] && first[1..] == [];
        assert Somes(first) == Appended(items[0]) + [];
        assert Take(recs, 1) == recs[..1];
        assert Appended(items[0]) + [] == Appended(items[0]);
      }
    }
  }

  /** Cursor values can be dropped before or after they are looked up. */
  lemma ValuesDrop(m: map<Bytes, Bytes>, ks: seq<Bytes>, n: nat)
    requires forall k | k in ks :: k in m
    ensures Drop(Values(m, ks), n) == Values(m, Drop(ks, n))
  {
    if n < |ks| {
      assert Drop(Values(m, ks), n) == Values(m, ks)[n..];
      assert forall i | 0 <= i < |ks| - n :: Values(m, ks)[n..][i] == m[ks[n..][i]];
    }
  }

  /** In a consistent store each entry of the primary table yields its
      record. */
  lemma ScanYields(t: Tables, ks: seq<Bytes>, name: Option<Bytes>)
    requires Consistent(t) && forall k | k in ks :: k in t.buckets
    ensures Yields(Items(Values(t.buckets, ks), ScanStepOf(name)), Records(t, ks), name)
  {
    forall k | k in ks
      ensures Record(t, k).Some?
    {
      assert RecordIndexed(t, k);
    }
    RecordsAt(t, ks);
    var items := Items(Values(t.buckets, ks), ScanStepOf(name));
    forall i | 0 <= i < |items|
      ensures items[i] == Ok(if Matches(name, Records(t, ks)[i]) then Some(Records(t, ks)[i]) else None)
    {
      assert items[i] == ScanStep(t.buckets[ks[i]], name);
    }
  }

  /** In a consistent store each entry of the name index yields the record
      it points at. */
  lemma OrgYields(t: Tables, ks: seq<Bytes>)
    requires Consistent(t) && forall k | k in ks :: k in t.index
    ensures forall k | k in Values(t.index, ks) :: k in t.buckets
    ensures Yields(Items(Values(t.index, ks), OrgStepOf(t)), Records(t, Values(t.index, ks)), None)
  {
    var vals := Values(t.index, ks);
    forall i | 0 <= i < |ks|
      ensures vals[i] in t.buckets && Record(t, vals[i]).Some?
      ensures OrgStep(t, vals[i]) == Ok(Some(Record(t, vals[i]).value))
    {
      assert EntryResolves(t, ks[i]);
      var k := vals[i];
      assert RecordIndexed(t, k);
      DecodeEncode(Record(t, k).value.id);
      StoredIsFound(t, k);
    }
    RecordsAt(t, vals);
    var items := Items(vals, OrgStepOf(t));
    forall i | 0 <= i < |items|
      ensures items[i] == Ok(Some(Records(t, vals)[i]))
    {
      assert items[i] == OrgStep(t, vals[i]);
    }
  }

  /** The table scan of a consistent store returns the window of the stored
      records in key order, the offset counted in records before the name
      filter is applied. */
  lemma TableScanWindow(t: Tables, name: Option<Bytes>, o: FindOptions)
    requires Consistent(t)
    ensures TableScan(t, name, o) ==
            Ok(Window(Records(t, Drop(ScanKeys(t.buckets, o.descending), Skip(o.offset))), name, o.limit))
  {
    var keys := ScanKeys(t.buckets, o.descending);
    ValuesDrop(t.buckets, keys, Skip(o.offset));
    var ks := Drop(keys, Skip(o.offset));
    ScanYields(t, ks, name);
    PageOfYields(Items(Values(t.buckets, ks), ScanStepOf(name)), Records(t, ks), name, o.limit);
  }

  /** The index scan of a consistent store returns the window of the
      records the organization's index entries point at, in key order. */
  lemma OrgScanWindow(t: Tables, org: ID, o: FindOptions)
    requires Consistent(t) && IsValid(org)
    ensures ListBucketsByOrgSpec(t, org, o) ==
            Ok(Window(Records(t, Values(t.index, Drop(PrefixKeys(t.index, IdBytes(org)), Skip(o.offset)))), None, o.limit))
  {
    OrgPrefix(org, org, []);
    var keys := PrefixKeys(t.index, IdBytes(org));
    ValuesDrop(t.index, keys, Skip(o.offset));
    var ks := Drop(keys, Skip(o.offset));
    OrgYields(t, ks);
    PageOfYields(Items(Values(t.index, ks), OrgStepOf(t)), Records(t, Values(t.index, ks)), None, o.limit);
  }

  /** Stored records are found again by their own ID. */
  lemma RecordsStored(t: Tables, ks: seq<Bytes>)
    requires Consistent(t) && forall k | k in ks :: k in t.buckets
    ensures forall b | b in Records(t, ks) :: GetBucket(t, b.id) == Ok(b)
  {
    forall b | b in Records(t, ks)
      ensures GetBucket(t, b.id) == Ok(b)
    {
      var k :| k in ks && Record(t, k) == Some(b);
      StoredIsFound(t, k);
    }
  }

  /** The records an organization's index entries point at belong to it. */
  lemma OrgRecordsBelong(t: Tables, org: ID, ks: seq<Bytes>)
    requires Consistent(t) && IsValid(org)
    requires forall k | k in ks :: k in t.index && HasPrefix(k, IdBytes(org))
    ensures forall b | b in Records(t, Values(t.index, ks)) :: GetBucket(t, b.id) == Ok(b) && b.orgID == org
  {
    var vals := Values(t.index, ks);
    forall b | b in Records(t, vals)
      ensures GetBucket(t, b.id) == Ok(b) && b.orgID == org
    {
      var k :| k in vals && Record(t, k) == Some(b);
      var i :| 0 <= i < |vals| && vals[i] == k;
      assert EntryResolves(t, ks[i]);
      StoredIsFound(t, k);
      OrgPrefix(org, b.orgID, b.name);
    }
  }

  /** A listing of a consistent store returns stored buckets only, each
      passing the name filter and belonging to the organization asked for. */
  lemma ListSound(t: Tables, filter: BucketFilter, opts: seq<FindOptions>)
    requires Consistent(t)
    ensures var r := ListBucketsSpec(t, filter, opts);
            r.Ok? ==> forall b | b in r.value ::
              && GetBucket(t, b.id) == Ok(b)
              && Matches(filter.name, b)
              && (filter.organizationID.Some? ==> b.orgID == filter.organizationID.value)
  {
    var o := EffectiveOptions(opts);
    if filter.organizationID.None? {
      TableScanWindow(t, filter.name, o);
      RecordsStored(t, Drop(ScanKeys(t.buckets, o.descending), Skip(o.offset)));
    } else if IsValid(filter.organizationID.value) && filter.name.None? {
      var org := filter.organizationID.value;
      OrgScanWindow(t, org, o);
      OrgRecordsBelong(t, org, Drop(PrefixKeys(t.index, IdBytes(org)), Skip(o.offset)));
    }
  }

  /** A listing of a consistent store fails only on a request it refuses: a
      name lookup within an organization, or an invalid organization. */
  lemma ListFailsOnlyOnRequest(t: Tables, filter: BucketFilter, opts: seq<FindOptions>)
    requires Consistent(t)
    ensures ListBucketsSpec(t, filter, opts).Err? <==>
              filter.organizationID.Some? &&
              (filter.name.Some? || !IsValid(filter.organizationID.value))
  {
    var o := EffectiveOptions(opts);
    if filter.organizationID.None? {
      TableScanWindow(t, filter.name, o);
    } else if IsValid(filter.organizationID.value) && filter.name.None? {
      OrgScanWindow(t, filter.organizationID.value, o);
    }
  }

  /** A listing of the primary table that starts at the first entry and
      comes back short of its limit holds every stored bucket the name filter
      accepts. */
  lemma ListCompleteByName(t: Tables, filter: BucketFilter, opts: seq<FindOptions>, k: Bytes)
    requires Consistent(t) && k in t.buckets && filter.organizationID.None?
    requires |opts| == 0 || opts[0].offset <= 0
    requires Record(t, k).Some? && Matches(filter.name, Record(t, k).value)
    ensures var r := ListBucketsSpec(t, filter, opts);
            r.Ok? && |r.value| < EffectiveOptions(opts).limit ==> Record(t, k).value in r.value
  {
    var o := EffectiveOptions(opts);
    assert ListBucketsSpec(t, filter, opts) == TableScan(t, filter.name, o);
    TableScanWindow(t, filter.name, o);
    var keys := ScanKeys(t.buckets, o.descending);
    assert Drop(keys, Skip(o.offset)) == keys;
    assert k in keys;
    WindowHolds(Records(t, keys), filter.name, o.limit, Record(t, k).value);
  }

  /** A listing of an organization that starts at the first entry and comes
      back short of its limit holds every stored bucket of the organization. */
  lemma ListCompleteByOrg(t: Tables, filter: BucketFilter, opts: seq<FindOptions>, k: Bytes)
    requires Consistent(t) && k in t.buckets && filter.organizationID.Some?
    requires |opts| == 0 || opts[0].offset <= 0
    requires Record(t, k).Some? && Record(t, k).value.orgID == filter.organizationID.value
    ensures var r := ListBucketsSpec(t, filter, opts);
            r.Ok? && |r.value| < EffectiveOptions(opts).limit ==> Record(t, k).value in r.value
  {
    var org, o := filter.organizationID.value, EffectiveOptions(opts);
    if IsValid(org) && filter.name.None? {
      assert ListBucketsSpec(t, filter, opts) == ListBucketsByOrgSpec(t, org, o);
      OrgScanComplete(t, org, o, k);
    } else {
      assert ListBucketsSpec(t, filter, opts).Err?;
    }
  }

  lemma OrgScanComplete(t: Tables, org: ID, o: FindOptions, k: Bytes)
    requires Consistent(t) && IsValid(org) && k in t.buckets && o.offset <= 0
    requires Record(t, k).Some? && Record(t, k).value.orgID == org
    ensures var r := ListBucketsByOrgSpec(t, org, o);
            r.Ok? && |r.value| < o.limit ==> Record(t, k).value in r.value
  {
    OrgScanWindow(t, org, o);
    OrgEntryListed(t, org, k);
    var keys := PrefixKeys(t.index, IdBytes(org));
    assert Drop(keys, Skip(o.offset)) == keys;
    WindowHolds(Records(t, Values(t.index, keys)), None, o.limit, Record(t, k).value);
  }

  /** A window that comes back short holds every record the filter passes. */
  lemma WindowHolds(recs: seq<Bucket>, name: Option<Bytes>, limit: int, b: Bucket)
    requires b in recs && Matches(name, b)
    ensures |Window(recs, name, limit)| < limit ==> b in Window(recs, name, limit)
  {
  }

  /** A stored bucket of the organization is reached from its index entry
      under the organization's prefix. */
  lemma OrgEntryListed(t: Tables, org: ID, k: Bytes)
    requires Consistent(t) && IsValid(org) && k in t.buckets
    requires Record(t, k).Some? && Record(t, k).value.orgID == org
    ensures var keys := PrefixKeys(t.index, IdBytes(org));
            (forall ik | ik in keys :: ik in t.index) && k in Values(t.index, keys)
  {
    var b := Record(t, k).value;
    assert RecordIndexed(t, k);
    var ik := BucketIndexKey(b.orgID, b.name).value;
    OrgPrefix(org, b.orgID, b.name);
    var keys := PrefixKeys(t.index, IdBytes(org));
    var i :| 0 <= i < |keys| && keys[i] == ik;
    assert Values(t.index, keys)[i] == k;
  }

  /** Consecutive records stand in the order `before` describes. */
  predicate Chain(bs: seq<Bucket>, before: (Bucket, Bucket) -> bool)
  {
    forall i, j | 0 <= i < j < |bs| :: before(bs[i], bs[j])
  }

  predicate IdBefore(a: Bucket, b: Bucket)
  {
    a.id < b.id
  }

  predicate IdAfter(a: Bucket, b: Bucket)
  {
    a.id > b.id
  }

  predicate NameBefore(a: Bucket, b: Bucket)
  {
    LexLt(a.name, b.name)
  }

  lemma {:induction false} FilterKeepsChain(bs: seq<Bucket>, name: Option<Bytes>, before: (Bucket, Bucket) -> bool)
    requires Chain(bs, before)
    ensures Chain(Filter(bs, name), before)
  {
    if bs != [] {
      var tail := bs[1..];
      assert Chain(tail, before);
      FilterKeepsChain(tail, name, before);
      var rest := Filter(tail, name);
      forall b | b in rest
        ensures before(bs[0], b)
      {
        var j :| 0 <= j < |tail| && tail[j] == b;
        assert bs[j + 1] == b;
      }
      if Matches(name, bs[0]) {
        ConsChain(bs[0], rest, before);
      }
    }
  }

  lemma ConsChain(x: Bucket, rest: seq<Bucket>, before: (Bucket, Bucket) -> bool)
    requires Chain(rest, before) && forall b | b in rest :: before(x, b)
    ensures Chain([x] + rest, before)
  {
    var r := [x] + rest;
    forall i, j | 0 <= i < j < |r|
      ensures before(r[i], r[j])
    {
      assert r[j] == rest[j - 1];
      if i > 0 {
        assert r[i] == rest[i - 1];
      }
    }
  }

  lemma WindowKeepsChain(recs: seq<Bucket>, name: Option<Bytes>, limit: int, before: (Bucket, Bucket) -> bool)
    requires Chain(recs, before)
    ensures Chain(Window(recs, name, limit), before)
  {
    FilterKeepsChain(recs, name, before);
    FilterKeepsChain(Take(recs, 1), name, before);
  }

  lemma DropKeepsOrder(ks: seq<Bytes>, n: nat)
    ensures Increasing(ks) ==> Increasing(Drop(ks, n))
    ensures Decreasing(ks) ==> Decreasing(Drop(ks, n))
  {
    if n < |ks| {
      assert forall i | 0 <= i < |ks| - n :: Drop(ks, n)[i] == ks[n + i];
    }
  }

  /** Two stored primary keys sort as the IDs of their records do. */
  lemma RecordIdsFollowKeys(t: Tables, k1: Bytes, k2: Bytes)
    requires Consistent(t) && k1 in t.buckets && k2 in t.buckets
    requires LexLt(k1, k2)
    ensures Record(t, k1).Some? && Record(t, k2).Some?
    ensures Record(t, k1).value.id < Record(t, k2).value.id
  {
    assert RecordIndexed(t, k1) && RecordIndexed(t, k2);
    var a, b := Record(t, k1).value.id, Record(t, k2).value.id;
    assert IdBytes(a) == k1 && IdBytes(b) == k2;
    IdBytesOrder(a, b);
    assert a <= b && a != b;
  }

  /** Primary keys are encoded IDs, so records in key order are in ID order. */
  lemma RecordsByKey(t: Tables, ks: seq<Bytes>)
    requires Consistent(t) && forall k | k in ks :: k in t.buckets
    ensures Increasing(ks) ==> Chain(Records(t, ks), IdBefore)
    ensures Decreasing(ks) ==> Chain(Records(t, ks), IdAfter)
  {
    forall k | k in ks
      ensures Record(t, k).Some?
    {
      assert RecordIndexed(t, k);
    }
    RecordsAt(t, ks);
    forall i, j | 0 <= i < j < |ks| && LexLt(ks[i], ks[j])
      ensures Records(t, ks)[i].id < Records(t, ks)[j].id
    {
      RecordIdsFollowKeys(t, ks[i], ks[j]);
    }
    forall i, j | 0 <= i < j < |ks| && LexLt(ks[j], ks[i])
      ensures Records(t, ks)[i].id > Records(t, ks)[j].id
    {
      RecordIdsFollowKeys(t, ks[j], ks[i]);
    }
  }

  /** Index keys of one organization sort as the names do, so the records
      they point at come in name order. */
  lemma RecordsByName(t: Tables, org: ID, ks: seq<Bytes>)
    requires Consistent(t) && IsValid(org)
    requires forall k | k in ks :: k in t.index && HasPrefix(k, IdBytes(org))
    requires Increasing(ks)
    ensures Chain(Records(t, Values(t.index, ks)), NameBefore)
  {
    OrgYields(t, ks);
    var vals := Values(t.index, ks);
    RecordsAt(t, vals);
    var rs := Records(t, vals);
    forall i, j | 0 <= i < j < |ks|
      ensures LexLt(rs[i].name, rs[j].name)
    {
      assert EntryResolves(t, ks[i]) && EntryResolves(t, ks[j]);
      OrgPrefix(org, rs[i].orgID, rs[i].name);
      OrgPrefix(org, rs[j].orgID, rs[j].name);
      IndexKeyOrder(org, rs[i].name, rs[j].name);
    }
  }

  /** The table scan returns buckets in ascending ID order, or descending
      when the options ask for it; the index scan returns an organization's
      buckets in ascending name order whatever the options say. */
  lemma ListOrdered(t: Tables, filter: BucketFilter, opts: seq<FindOptions>)
    requires Consistent(t)
    ensures var r := ListBucketsSpec(t, filter, opts);
            var descending := EffectiveOptions(opts).descending;
            r.Ok? ==>
              && (filter.organizationID.None? && !descending ==> Chain(r.value, IdBefore))
              && (filter.organizationID.None? && descending ==> Chain(r.value, IdAfter))
              && (filter.organizationID.Some? ==> Chain(r.value, NameBefore))
  {
    var o := EffectiveOptions(opts);
    if filter.organizationID.None? {
      TableScanWindow(t, filter.name, o);
      var keys := ScanKeys(t.buckets, o.descending);
      var ks := Drop(keys, Skip(o.offset));
      DropKeepsOrder(keys, Skip(o.offset));
      RecordsByKey(t, ks);
      if o.descending {
        WindowKeepsChain(Records(t, ks), filter.name, o.limit, IdAfter);
      } else {
        WindowKeepsChain(Records(t, ks), filter.name, o.limit, IdBefore);
      }
    } else if IsValid(filter.organizationID.value) && filter.name.None? {
      var org := filter.organizationID.value;
      OrgScanWindow(t, org, o);
      var keys := PrefixKeys(t.index, IdBytes(org));
      var ks := Drop(keys, Skip(o.offset));
      DropKeepsOrder(keys, Skip(o.offset));
      RecordsByName(t, org, ks);
      WindowKeepsChain(Records(t, Values(t.index, ks)), None, o.limit, NameBefore);
    }
  }
}
