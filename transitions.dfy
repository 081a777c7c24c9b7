/** Create, update and delete as functions from the transaction's tables
    before the call to the result and the tables after it, and the facts about
    them: each keeps the primary table and the name index in bijection, and
    lookups afterwards see the change. */
module Transitions {
  import opened Bytes
  import opened Errors
  import opened Ids
  import opened Buckets
  import opened Codec
  import opened IndexKeys
  import opened StoreState

  /** What an operation returns, with the tables it leaves behind. */
  datatype Step<T> = Step(out: T, tables: Tables)

  /** `CreateBucket` returns only an error, but it assigns the caller's record's
      ID and timestamps in place: `bucket` is that record afterwards. */
  datatype Created = Created(bucket: Bucket, err: Option<Error>)

  /** The identifier `generateSafeID` produced, or its error. The generator
      promises an identifier that is not yet a primary key. */
  predicate GeneratorSafe(t: Tables, gen: Result<ID>)
  {
    gen.Ok? ==> IdBytes(gen.value) !in t.buckets
  }

  /** The identifier a create would store the record under. */
  predicate HasUsableID(bucket: Bucket, gen: Result<ID>)
  {
    IsValid(bucket.id) || (gen.Ok? && IsValid(gen.value))
  }

  /** `CreateBucket`. */
  function CreateBucket(t: Tables, bucket: Bucket, gen: Result<ID>, now: Time): (r: Step<Created>)
    // A rejected create writes nothing.
    ensures r.out.err.Some? ==> r.tables == t
    // Only the ID (when unset) and the two timestamps of the caller's record change.
    ensures r.out.bucket.(id := bucket.id, createdAt := bucket.createdAt, updatedAt := bucket.updatedAt) == bucket
    ensures IsValid(bucket.id) ==> r.out.bucket.id == bucket.id
    ensures !IsValid(bucket.id) && gen.Ok? ==> r.out.bucket.id == gen.value
    ensures !IsValid(bucket.id) && gen.Err? ==> r.out.err == Some(gen.error)
    ensures (HasUsableID(bucket, gen) && IsValid(bucket.orgID) &&
             BucketIndexKey(bucket.orgID, bucket.name).value in t.index) ==>
              r.out.err == Some(AlreadyExists(bucket.name))
    ensures r.out.err.None? <==> HasUsableID(bucket, gen) && UniqueBucketName(t, bucket.orgID, bucket.name).None?
    // A successful create stamps the record and writes both sides.
    ensures r.out.err.None? ==>
      var b := r.out.bucket;
      && b.createdAt == now && b.updatedAt == now
      && r.tables == Tables(t.buckets[IdBytes(b.id) := MarshalBucket(b)],
                            t.index[BucketIndexKey(b.orgID, b.name).value := IdBytes(b.id)])
  {
    if !IsValid(bucket.id) && gen.Err? then Step(Created(bucket, Some(gen.error)), t)
    else
      var bucket := if IsValid(bucket.id) then bucket else bucket.(id := gen.value);
      match Encode(bucket.id)
      case Err(e) => Step(Created(bucket, Some(e)), t)
      case Ok(encodedID) =>
        match UniqueBucketName(t, bucket.orgID, bucket.name)
        case Some(e) => Step(Created(bucket, Some(e)), t)
        case None =>
          var bucket := bucket.(createdAt := now, updatedAt := now);
          var v := MarshalBucket(bucket);
          var ikey := BucketIndexKey(bucket.orgID, bucket.name).value;
          Step(Created(bucket, None), Tables(t.buckets[encodedID := v], t.index[ikey := encodedID]))
  }

  /** The tables with record `b` written under its ID and its index entry
      added. */
  function Inserted(t: Tables, b: Bucket): Tables
    requires IsValid(b.orgID)
  {
    Tables(t.buckets[IdBytes(b.id) := MarshalBucket(b)],
           t.index[BucketIndexKey(b.orgID, b.name).value := IdBytes(b.id)])
  }

  lemma InsertKeepsRecord(t: Tables, b: Bucket, k2: Bytes)
    requires Consistent(t) && IsValid(b.orgID)
    requires BucketIndexKey(b.orgID, b.name).value !in t.index
    requires k2 in t.buckets && k2 != IdBytes(b.id)
    ensures RecordIndexed(Inserted(t, b), k2)
  {
    assert RecordIndexed(t, k2);
    assert Record(Inserted(t, b), k2) == Record(t, k2);
  }

  lemma InsertKeepsEntry(t: Tables, b: Bucket, ik2: Bytes)
    requires Consistent(t) && IsValid(b.orgID)
    requires IdBytes(b.id) !in t.buckets
    requires ik2 in t.index && ik2 != BucketIndexKey(b.orgID, b.name).value
    ensures EntryResolves(Inserted(t, b), ik2)
  {
    assert EntryResolves(t, ik2);
    assert Record(Inserted(t, b), t.index[ik2]) == Record(t, t.index[ik2]);
  }

  /** Writing a record under a fresh primary key together with its index entry
      under a fresh index key keeps the store consistent. */
  lemma InsertPreservesConsistency(t: Tables, b: Bucket)
    requires Consistent(t)
    requires IsValid(b.id) && IsValid(b.orgID)
    requires IdBytes(b.id) !in t.buckets
    requires BucketIndexKey(b.orgID, b.name).value !in t.index
    ensures Consistent(Inserted(t, b))
  {
    var t' := Inserted(t, b);
    UnmarshalMarshal(b);
    assert Record(t', IdBytes(b.id)) == Some(b);
    forall k2 | k2 in t'.buckets
      ensures RecordIndexed(t', k2)
    {
      if k2 != IdBytes(b.id) {
        InsertKeepsRecord(t, b, k2);
      }
    }
    forall ik2 | ik2 in t'.index
      ensures EntryResolves(t', ik2)
    {
      if ik2 != BucketIndexKey(b.orgID, b.name).value {
        InsertKeepsEntry(t, b, ik2);
      }
    }
  }

  /** A create keeps the store consistent, provided the record's own ID, when
      it has one, is not stored yet (see CreateOverStoredIdBreaksIndex). */
  lemma CreatePreservesConsistency(t: Tables, bucket: Bucket, gen: Result<ID>, now: Time)
    requires Consistent(t) && GeneratorSafe(t, gen)
    requires IsValid(bucket.id) ==> IdBytes(bucket.id) !in t.buckets
    ensures Consistent(CreateBucket(t, bucket, gen, now).tables)
  {
    var r := CreateBucket(t, bucket, gen, now);
    if r.out.err.None? {
      InsertPreservesConsistency(t, r.out.bucket);
    }
  }

  /** After a successful create the record is found by its ID and by its
      (OrgID, Name), whatever the tables held before. */
  lemma {:induction false} CreateThenLookup(t: Tables, bucket: Bucket, gen: Result<ID>, now: Time)
    requires CreateBucket(t, bucket, gen, now).out.err.None?
    ensures var r := CreateBucket(t, bucket, gen, now);
            && GetBucket(r.tables, r.out.bucket.id) == Ok(r.out.bucket)
            && GetBucketByName(r.tables, bucket.orgID, bucket.name) == Ok(r.out.bucket)
  {
    var r := CreateBucket(t, bucket, gen, now);
    UnmarshalMarshal(r.out.bucket);
    DecodeEncode(r.out.bucket.id);
  }

  /** Create as written does not check the caller's own ID: a valid ID that is
      already stored under another (OrgID, Name) is overwritten, and the old
      index entry is left pointing at a record that no longer carries its name. */
  lemma CreateOverStoredIdBreaksIndex(t: Tables, bucket: Bucket, gen: Result<ID>, now: Time)
    requires Consistent(t) && IsValid(bucket.id) && IdBytes(bucket.id) in t.buckets
    requires Record(t, IdBytes(bucket.id)).value.orgID != bucket.orgID ||
             Record(t, IdBytes(bucket.id)).value.name != bucket.name
    requires UniqueBucketName(t, bucket.orgID, bucket.name).None?
    ensures CreateBucket(t, bucket, gen, now).out.err.None?
    ensures !Consistent(CreateBucket(t, bucket, gen, now).tables)
  {
    var k := IdBytes(bucket.id);
    assert RecordIndexed(t, k);
    var prev := Record(t, k).value;
    var oldKey := BucketIndexKey(prev.orgID, prev.name).value;
    var r := CreateBucket(t, bucket, gen, now);
    var t' := r.tables;
    UnmarshalMarshal(r.out.bucket);
    assert oldKey in t'.index && t'.index[oldKey] == k;
    assert Record(t', k) == Some(r.out.bucket);
    if BucketIndexKey(r.out.bucket.orgID, r.out.bucket.name) == Ok(oldKey) {
      BucketIndexKeyInjective(r.out.bucket.orgID, r.out.bucket.name, prev.orgID, prev.name);
    }
    assert !EntryResolves(t', oldKey);
  }

  /** Create that also refuses a caller-supplied ID which is already stored. */
  function CreateBucketGuarded(t: Tables, bucket: Bucket, gen: Result<ID>, now: Time): (r: Step<Created>)
    ensures IsValid(bucket.id) && IdBytes(bucket.id) in t.buckets ==>
              r == Step(Created(bucket, Some(AlreadyExists(bucket.name))), t)
    ensures !(IsValid(bucket.id) && IdBytes(bucket.id) in t.buckets) ==> r == CreateBucket(t, bucket, gen, now)
  {
    if IsValid(bucket.id) && IdBytes(bucket.id) in t.buckets then
      Step(Created(bucket, Some(AlreadyExists(bucket.name))), t)
    else
      CreateBucket(t, bucket, gen, now)
  }

  /** The guarded create keeps every consistent store consistent. */
  lemma CreateBucketGuardedPreservesConsistency(t: Tables, bucket: Bucket, gen: Result<ID>, now: Time)
    requires Consistent(t) && GeneratorSafe(t, gen)
    ensures Consistent(CreateBucketGuarded(t, bucket, gen, now).tables)
  {
    if !(IsValid(bucket.id) && IdBytes(bucket.id) in t.buckets) {
      CreatePreservesConsistency(t, bucket, gen, now);
    }
  }

  /** The optional description and retention of a patch applied to `b`. */
  function ApplyAttributes(b: Bucket, upd: BucketUpdate): Bucket
  {
    var b := if upd.description.Some? then b.(description := upd.description.value) else b;
    if upd.retentionPeriod.Some? then b.(retentionPeriod := upd.retentionPeriod.value) else b
  }

  /** True when the patch renames `b`. */
  predicate Renames(b: Bucket, upd: BucketUpdate)
  {
    upd.name.Some? && upd.name.value != b.name
  }

  /** `UpdateBucket`. */
  function UpdateBucket(t: Tables, id: ID, upd: BucketUpdate, now: Time): (r: Step<Result<Bucket>>)
    // A rejected update writes nothing.
    ensures r.out.Err? ==> r.tables == t
    // An update succeeds exactly when the bucket is found and any rename is
    // of a User bucket to a name still free in its organization.
    ensures r.out.Ok? <==>
      && GetBucket(t, id).Ok?
      && (!Renames(GetBucket(t, id).value, upd) ||
          (GetBucket(t, id).value.btype == User &&
           UniqueBucketName(t, GetBucket(t, id).value.orgID, upd.name.value).None?))
    ensures GetBucket(t, id).Err? ==> r.out == Err(GetBucket(t, id).error)
    ensures (GetBucket(t, id).Ok? && Renames(GetBucket(t, id).value, upd) &&
             GetBucket(t, id).value.btype == System) ==> r.out == Err(Forbidden)
    ensures (GetBucket(t, id).Ok? && Renames(GetBucket(t, id).value, upd) &&
             GetBucket(t, id).value.btype == User &&
             UniqueBucketName(t, GetBucket(t, id).value.orgID, upd.name.value).Some?) ==>
              r.out == Err(NameNotUnique)
    ensures r.out.Ok? ==>
      && GetBucket(t, id).Ok?
      && var prev, b := GetBucket(t, id).value, r.out.value;
      // identity, type and creation time are kept; UpdatedAt is refreshed
      && b.id == prev.id && b.orgID == prev.orgID && b.btype == prev.btype
      && b.createdAt == prev.createdAt && b.updatedAt == now
      // each attribute changes only when the patch carries it
      && b.name == (if upd.name.Some? then upd.name.value else prev.name)
      && b.description == (if upd.description.Some? then upd.description.value else prev.description)
      && b.retentionPeriod == (if upd.retentionPeriod.Some? then upd.retentionPeriod.value else prev.retentionPeriod)
      // the record is rewritten in place; a rename moves the index entry
      && r.tables.buckets == t.buckets[IdBytes(id) := MarshalBucket(b)]
      && r.tables.index ==
           if b.name == prev.name then t.index
           else (t.index - {BucketIndexKey(prev.orgID, prev.name).value})
                  [BucketIndexKey(b.orgID, b.name).value := IdBytes(id)]
  {
    match Encode(id)
    case Err(e) => Step(Err(e), t)
    case Ok(encodedID) =>
      match GetBucket(t, id)
      case Err(e) => Step(Err(e), t)
      case Ok(bucket) =>
        var bucket := bucket.(updatedAt := now);
        if Renames(bucket, upd) then
          if bucket.btype == System then Step(Err(Forbidden), t)
          else if UniqueBucketName(t, bucket.orgID, upd.name.value).Some? then Step(Err(NameNotUnique), t)
          else
            var oldIkey := BucketIndexKey(bucket.orgID, bucket.name).value;
            var bucket := bucket.(name := upd.name.value);
            var newIkey := BucketIndexKey(bucket.orgID, bucket.name).value;
            var bucket := ApplyAttributes(bucket, upd);
            Step(Ok(bucket), Tables(t.buckets[encodedID := MarshalBucket(bucket)],
                                    (t.index - {oldIkey})[newIkey := encodedID]))
        else
          var bucket := ApplyAttributes(bucket, upd);
          Step(Ok(bucket), Tables(t.buckets[encodedID := MarshalBucket(bucket)], t.index))
  }

  /** The tables with the record under `k`, `prev`, replaced by `b`, which
      keeps its ID and OrgID; when the name changes the index entry moves. */
  function Replaced(t: Tables, k: Bytes, prev: Bucket, b: Bucket): Tables
    requires IsValid(prev.orgID) && b.orgID == prev.orgID
  {
    Tables(t.buckets[k := MarshalBucket(b)],
           if b.name == prev.name then t.index
           else (t.index - {BucketIndexKey(prev.orgID, prev.name).value})[BucketIndexKey(b.orgID, b.name).value := k])
  }

  /** What a replacement needs: `prev` is stored under `k`, and a new name is
      not indexed yet. */
  ghost predicate CanReplace(t: Tables, k: Bytes, prev: Bucket, b: Bucket)
  {
    && Consistent(t) && k in t.buckets && Record(t, k) == Some(prev)
    && IsValid(prev.orgID) && b.id == prev.id && b.orgID == prev.orgID
    && (b.name != prev.name ==> BucketIndexKey(b.orgID, b.name).value !in t.index)
  }

  lemma ReplaceKeepsRecord(t: Tables, k: Bytes, prev: Bucket, b: Bucket, k2: Bytes)
    requires CanReplace(t, k, prev, b)
    requires k2 in t.buckets && k2 != k
    ensures RecordIndexed(Replaced(t, k, prev, b), k2)
  {
    assert RecordIndexed(t, k) && RecordIndexed(t, k2);
    assert Record(Replaced(t, k, prev, b), k2) == Record(t, k2);
  }

  lemma ReplaceKeepsEntry(t: Tables, k: Bytes, prev: Bucket, b: Bucket, ik2: Bytes)
    requires CanReplace(t, k, prev, b)
    requires ik2 in Replaced(t, k, prev, b).index && ik2 != BucketIndexKey(b.orgID, b.name).value
    ensures EntryResolves(Replaced(t, k, prev, b), ik2)
  {
    assert ik2 in t.index && ik2 != BucketIndexKey(prev.orgID, prev.name).value;
    assert EntryResolves(t, ik2);
    assert t.index[ik2] != k;
    assert Record(Replaced(t, k, prev, b), t.index[ik2]) == Record(t, t.index[ik2]);
  }

  lemma ReplaceIndexesNew(t: Tables, k: Bytes, prev: Bucket, b: Bucket)
    requires CanReplace(t, k, prev, b)
    ensures RecordIndexed(Replaced(t, k, prev, b), k)
    ensures EntryResolves(Replaced(t, k, prev, b), BucketIndexKey(b.orgID, b.name).value)
  {
    var t' := Replaced(t, k, prev, b);
    assert RecordIndexed(t, k);
    UnmarshalMarshal(b);
    assert Record(t', k) == Some(b);
  }

  lemma ReplaceKeepsRecords(t: Tables, k: Bytes, prev: Bucket, b: Bucket)
    requires CanReplace(t, k, prev, b)
    ensures forall k2 | k2 in Replaced(t, k, prev, b).buckets :: RecordIndexed(Replaced(t, k, prev, b), k2)
  {
    var t' := Replaced(t, k, prev, b);
    ReplaceIndexesNew(t, k, prev, b);
    forall k2 | k2 in t'.buckets
      ensures RecordIndexed(t', k2)
    {
      if k2 != k {
        ReplaceKeepsRecord(t, k, prev, b, k2);
      }
    }
  }

  lemma ReplaceKeepsEntries(t: Tables, k: Bytes, prev: Bucket, b: Bucket)
    requires CanReplace(t, k, prev, b)
    ensures forall ik | ik in Replaced(t, k, prev, b).index :: EntryResolves(Replaced(t, k, prev, b), ik)
  {
    var t' := Replaced(t, k, prev, b);
    var newKey := BucketIndexKey(b.orgID, b.name).value;
    ReplaceIndexesNew(t, k, prev, b);
    forall ik2 | ik2 in t'.index
      ensures EntryResolves(t', ik2)
    {
      if ik2 != newKey {
        ReplaceKeepsEntry(t, k, prev, b, ik2);
      }
    }
  }

  /** Replacing a stored record under the conditions above keeps the store
      consistent. */
  lemma ReplacePreservesConsistency(t: Tables, k: Bytes, prev: Bucket, b: Bucket)
    requires CanReplace(t, k, prev, b)
    ensures Consistent(Replaced(t, k, prev, b))
  {
    ReplaceKeepsRecords(t, k, prev, b);
    ReplaceKeepsEntries(t, k, prev, b);
  }

  /** An update keeps a consistent store consistent. */
  lemma UpdatePreservesConsistency(t: Tables, id: ID, upd: BucketUpdate, now: Time)
    requires Consistent(t)
    ensures Consistent(UpdateBucket(t, id, upd, now).tables)
  {
    var r := UpdateBucket(t, id, upd, now);
    if r.out.Ok? {
      var prev, b := GetBucket(t, id).value, r.out.value;
      GetBucketReturnsRequested(t, id);
      assert r.tables == Replaced(t, IdBytes(id), prev, b);
      ReplacePreservesConsistency(t, IdBytes(id), prev, b);
    }
  }

  /** After a replacement the bucket is found by its ID and its new name. */
  lemma ReplaceFindsNew(t: Tables, k: Bytes, prev: Bucket, b: Bucket)
    requires CanReplace(t, k, prev, b)
    ensures GetBucket(Replaced(t, k, prev, b), b.id) == Ok(b)
    ensures GetBucketByName(Replaced(t, k, prev, b), b.orgID, b.name) == Ok(b)
  {
    var t' := Replaced(t, k, prev, b);
    ReplaceIndexesNew(t, k, prev, b);
    assert RecordIndexed(t, k);
    DecodeEncode(b.id);
    UnmarshalMarshal(b);
  }

  /** After a rename the old name is no longer indexed. */
  lemma RenameDropsOld(t: Tables, k: Bytes, prev: Bucket, b: Bucket)
    requires CanReplace(t, k, prev, b) && b.name != prev.name
    ensures BucketIndexKey(prev.orgID, prev.name).value !in Replaced(t, k, prev, b).index
  {
    var oldKey := BucketIndexKey(prev.orgID, prev.name).value;
    var newKey := BucketIndexKey(b.orgID, b.name).value;
    assert oldKey[IDLength..] != newKey[IDLength..];
  }

  /** After a rename the new name finds the bucket and the old name no longer
      does (it falls back to the well-known buckets or NotFoundByName). */
  lemma RenameThenLookup(t: Tables, id: ID, upd: BucketUpdate, now: Time)
    requires Consistent(t)
    requires GetBucket(t, id).Ok? && Renames(GetBucket(t, id).value, upd)
    requires GetBucket(t, id).value.btype == User
    requires UniqueBucketName(t, GetBucket(t, id).value.orgID, upd.name.value).None?
    ensures var prev, r := GetBucket(t, id).value, UpdateBucket(t, id, upd, now);
            && GetBucket(r.tables, id) == Ok(r.out.value)
            && GetBucketByName(r.tables, prev.orgID, upd.name.value) == Ok(r.out.value)
            && GetBucketByName(r.tables, prev.orgID, prev.name) ==
                 (if IsSystemName(prev.name) then Ok(SystemBucket(prev.name, prev.orgID).value)
                  else Err(NotFoundByName(prev.name)))
  {
    var prev, r := GetBucket(t, id).value, UpdateBucket(t, id, upd, now);
    var b := r.out.value;
    GetBucketReturnsRequested(t, id);
    assert r.tables == Replaced(t, IdBytes(id), prev, b);
    ReplaceFindsNew(t, IdBytes(id), prev, b);
    RenameDropsOld(t, IdBytes(id), prev, b);
  }

  /** After an update the record is found by its ID as updated. */
  lemma UpdateThenGet(t: Tables, id: ID, upd: BucketUpdate, now: Time)
    requires GetBucket(t, id).Ok?
    requires Renames(GetBucket(t, id).value, upd) ==>
               GetBucket(t, id).value.btype == User &&
               UniqueBucketName(t, GetBucket(t, id).value.orgID, upd.name.value).None?
    ensures GetBucket(UpdateBucket(t, id, upd, now).tables, id) == UpdateBucket(t, id, upd, now).out
  {
    UnmarshalMarshal(UpdateBucket(t, id, upd, now).out.value);
  }

  /** `DeleteBucket`. */
  function DeleteBucket(t: Tables, id: ID): (r: Step<Option<Error>>)
    // A rejected delete writes nothing.
    ensures r.out.Some? ==> r.tables == t
    ensures GetBucket(t, id).Err? ==> r.out == Some(GetBucket(t, id).error)
    // A successful delete removes the record and its index entry, and nothing else.
    ensures r.out.None? ==>
      && GetBucket(t, id).Ok?
      && var b := GetBucket(t, id).value;
      && BucketIndexKey(b.orgID, b.name).Ok?
      && r.tables == Tables(t.buckets - {IdBytes(id)}, t.index - {BucketIndexKey(b.orgID, b.name).value})
  {
    match GetBucket(t, id)
    case Err(e) => Step(Some(e), t)
    case Ok(bucket) =>
      var encodedID := IdBytes(id);
      match BucketIndexKey(bucket.orgID, bucket.name)
      case Err(e) => Step(Some(e), t)
      case Ok(ikey) => Step(None, Tables(t.buckets - {encodedID}, t.index - {ikey}))
  }

  /** In a consistent store a delete fails only when the ID is not found. */
  lemma DeleteOfStoredSucceeds(t: Tables, id: ID)
    requires Consistent(t) && GetBucket(t, id).Ok?
    ensures DeleteBucket(t, id).out.None?
  {
    GetBucketReturnsRequested(t, id);
  }

  /** A delete keeps a consistent store consistent. */
  lemma {:induction false} DeletePreservesConsistency(t: Tables, id: ID)
    requires Consistent(t)
    ensures Consistent(DeleteBucket(t, id).tables)
  {
    var r := DeleteBucket(t, id);
    if r.out.None? {
      var b := GetBucket(t, id).value;
      var k := IdBytes(id);
      var ik := BucketIndexKey(b.orgID, b.name).value;
      var t' := r.tables;
      assert RecordIndexed(t, k);
      forall k2 | k2 in t'.buckets
        ensures RecordIndexed(t', k2)
      {
        assert RecordIndexed(t, k2);
      }
      forall ik2 | ik2 in t'.index
        ensures EntryResolves(t', ik2)
      {
        assert EntryResolves(t, ik2);
      }
    }
  }

  /** After a delete neither the ID nor the (OrgID, Name) finds the bucket. */
  lemma DeleteThenLookup(t: Tables, id: ID)
    requires Consistent(t) && GetBucket(t, id).Ok?
    ensures var b, t' := GetBucket(t, id).value, DeleteBucket(t, id).tables;
            && GetBucket(t', id) == Err(NotFound)
            && BucketIndexKey(b.orgID, b.name).value !in t'.index
            && GetBucketByName(t', b.orgID, b.name) ==
                 (if IsSystemName(b.name) then Ok(SystemBucket(b.name, b.orgID).value)
                  else Err(NotFoundByName(b.name)))
  {
    DeleteOfStoredSucceeds(t, id);
    GetBucketReturnsRequested(t, id);
  }
}
