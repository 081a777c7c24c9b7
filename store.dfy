/** The store's write operations as the source performs them: step by step on
    the two sub-containers of a transaction. Each method is proved to leave
    the transaction exactly as the corresponding function of Transitions
    says, so every lemma proved there holds of the methods. */
module Store {
  import opened Bytes
  import opened Errors
  import opened Ids
  import opened Buckets
  import opened Codec
  import opened IndexKeys
  import opened StoreState
  import Transitions

  /** The two sub-containers a transaction hands out. */
  datatype Table = BucketsTable | IndexTable

  /** A read-write transaction over `bucketsv1` and `bucketindexv1`. */
  class Tx {
    var buckets: map<Bytes, Bytes>
    var index: map<Bytes, Bytes>

    constructor(t: Tables)
      ensures Snapshot() == t
    {
      buckets := t.buckets;
      index := t.index;
    }

    /** The contents of both sub-containers. */
    function Snapshot(): Tables
      reads this
    {
      Tables(buckets, index)
    }

    /** `Put` on one sub-container; the other is untouched. */
    method Put(table: Table, k: Bytes, v: Bytes)
      modifies this
      ensures table == BucketsTable ==> buckets == old(buckets)[k := v] && index == old(index)
      ensures table == IndexTable ==> index == old(index)[k := v] && buckets == old(buckets)
    {
      if table == BucketsTable {
        buckets := buckets[k := v];
      } else {
        index := index[k := v];
      }
    }

    /** `Delete` on one sub-container; deleting an absent key is no change. */
    method Delete(table: Table, k: Bytes)
      modifies this
      ensures table == BucketsTable ==> buckets == old(buckets) - {k} && index == old(index)
      ensures table == IndexTable ==> index == old(index) - {k} && buckets == old(buckets)
    {
      if table == BucketsTable {
        buckets := buckets - {k};
      } else {
        index := index - {k};
      }
    }
  }

  /** `CreateBucket`: returns the caller's record as the source leaves it
      (ID assigned, timestamps set) together with the error, if any. */
  method CreateBucket(tx: Tx, bucket: Bucket, gen: Result<ID>, now: Time) returns (b: Bucket, err: Option<Error>)
    modifies tx
    ensures Transitions.Step(Transitions.Created(b, err), tx.Snapshot()) ==
            Transitions.CreateBucket(old(tx.Snapshot()), bucket, gen, now)
    ensures Consistent(old(tx.Snapshot())) && Transitions.GeneratorSafe(old(tx.Snapshot()), gen) &&
            (IsValid(bucket.id) ==> IdBytes(bucket.id) !in old(tx.buckets)) ==>
              Consistent(tx.Snapshot())
  {
    if Consistent(tx.Snapshot()) && Transitions.GeneratorSafe(tx.Snapshot(), gen) &&
       (IsValid(bucket.id) ==> IdBytes(bucket.id) !in tx.buckets) {
      Transitions.CreatePreservesConsistency(tx.Snapshot(), bucket, gen, now);
    }
    b := bucket;
    if !IsValid(b.id) {
      if gen.Err? {
        return b, Some(gen.error);
      }
      b := b.(id := gen.value);
    }
    var encodedID := Ids.Encode(b.id);
    if encodedID.Err? {
      return b, Some(encodedID.error);
    }
    err := UniqueBucketName(tx.Snapshot(), b.orgID, b.name);
    if err.Some? {
      return;
    }
    b := b.(createdAt := now, updatedAt := now);
    var v := MarshalBucket(b);
    var ikey := BucketIndexKey(b.orgID, b.name).value;
    tx.Put(IndexTable, ikey, encodedID.value);
    tx.Put(BucketsTable, encodedID.value, v);
  }

  /** `UpdateBucket`: applies the patch and returns the updated record. */
  method UpdateBucket(tx: Tx, id: ID, upd: BucketUpdate, now: Time) returns (r: Result<Bucket>)
    modifies tx
    ensures Transitions.Step(r, tx.Snapshot()) == Transitions.UpdateBucket(old(tx.Snapshot()), id, upd, now)
    ensures Consistent(old(tx.Snapshot())) ==> Consistent(tx.Snapshot())
  {
    if Consistent(tx.Snapshot()) {
      Transitions.UpdatePreservesConsistency(tx.Snapshot(), id, upd, now);
    }
    var encodedID := Ids.Encode(id);
    if encodedID.Err? {
      return Err(encodedID.error);
    }
    var found := GetBucket(tx.Snapshot(), id);
    if found.Err? {
      return Err(found.error);
    }
    var bucket := found.value.(updatedAt := now);
    if upd.name.Some? && bucket.name != upd.name.value {
      if bucket.btype == System {
        return Err(Forbidden);
      }
      if UniqueBucketName(tx.Snapshot(), bucket.orgID, upd.name.value).Some? {
        return Err(NameNotUnique);
      }
      var oldIkey := BucketIndexKey(bucket.orgID, bucket.name).value;
      tx.Delete(IndexTable, oldIkey);
      bucket := bucket.(name := upd.name.value);
      var newIkey := BucketIndexKey(bucket.orgID, bucket.name).value;
      tx.Put(IndexTable, newIkey, encodedID.value);
    }
    if upd.description.Some? {
      bucket := bucket.(description := upd.description.value);
    }
    if upd.retentionPeriod.Some? {
      bucket := bucket.(retentionPeriod := upd.retentionPeriod.value);
    }
    var v := MarshalBucket(bucket);
    tx.Put(BucketsTable, encodedID.value, v);
    r := Ok(bucket);
  }

  /** `DeleteBucket`: removes the index entry, then the record. */
  method DeleteBucket(tx: Tx, id: ID) returns (err: Option<Error>)
    modifies tx
    ensures Transitions.Step(err, tx.Snapshot()) == Transitions.DeleteBucket(old(tx.Snapshot()), id)
    ensures Consistent(old(tx.Snapshot())) ==> Consistent(tx.Snapshot())
  {
    if Consistent(tx.Snapshot()) {
      Transitions.DeletePreservesConsistency(tx.Snapshot(), id);
    }
    var found := GetBucket(tx.Snapshot(), id);
    if found.Err? {
      return Some(found.error);
    }
    var bucket := found.value;
    var encodedID := IdBytes(id);
    var ikey := BucketIndexKey(bucket.orgID, bucket.name);
    if ikey.Err? {
      return Some(ikey.error);
    }
    tx.Delete(IndexTable, ikey.value);
    tx.Delete(BucketsTable, encodedID);
    err := None;
  }
}
