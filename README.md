# Bucket store of the tenant service

This project models the bucket store of the influxdb tenant service
(`tenant/storage_bucket.go`) in Dafny and proves properties of it. A
bucket is a named container for time-series data. It is owned by an
organization and has a retention period. The store keeps buckets in two
sub-containers of one key/value transaction:

- `bucketsv1` maps the encoded bucket ID to the encoded record;
- `bucketindexv1` maps an index key (the owning organization's encoded
  ID followed by the bucket name) to the encoded bucket ID.

The model has these parts:

- **Values.** IDs, index keys, records and their encoding, plus the
  two well-known System buckets (`_tasks`, `_monitoring`) that a name
  lookup synthesises. These are the modules `Ids`, `IndexKeys`,
  `Buckets` and `Codec`.
- **Store state and reads.** The two sub-containers as a value
  (`StoreState.Tables`) and the invariant that ties them together
  (`Consistent`). This is a bijection: every record is indexed under
  its own (OrgID, Name), and every index entry resolves to a record
  that builds exactly that key. `GetBucket`, `GetBucketByName` and
  `uniqueBucketName` are pure functions of the tables.
- **Writes.** Create, update and delete are defined twice. Module
  `Transitions` states each as a function from the tables before to
  the result and the tables after; the lemmas are proved there. Module
  `Store` performs the same writes step by step on a transaction object
  (`Store.Tx`) whose two map fields the methods update in place. Each
  method is proved to leave the transaction as the `Transitions`
  function says.
- **Listing.** `ListBuckets` and `listBucketsByOrg` are methods. Both
  run the same cursor loop, `Pages.Drain`: skip `Offset` entries, turn
  each further entry into an error, a record to append, or a record
  the name filter rejects, and stop once the page holds `Limit`
  records. The loop is proved equal to the function `Pages.Page`.
  `ListingFacts` proves what a listing of a consistent store returns:
  - the stored buckets in key order (ID order for the primary table,
    name order within an organization);
  - the offset is counted in entries before the name filter;
  - the page is cut to the limit;
  - every result is stored and matches the filter;
  - a page read from offset zero that comes back short holds every match.

Inputs the store takes from its surroundings become parameters:

- the current time (`now`);
- the result of the ID generator (`gen`, either an ID or an error);
- for listings, the contents the cursor walks over. Cursors are the
  sorted keys of a map (`Cursors.ScanKeys`, `Cursors.PrefixKeys`).

Three behaviours of the listings are easy to misread. The model follows
the code:

- `listBucketsByOrg` ignores `FindOptions.Descending`: its prefix
  cursor (line 240) is opened without a direction. The organization
  listing is therefore always in ascending name order.
  `ListingFacts.ListOrdered` states this order for every option.
- `Offset` counts cursor entries, not matches. Both listings skip the
  first `Offset` entries (lines 203-206 and 249-252). In the table scan
  the skipped records are not checked against the name filter. See
  `ListingFacts.TableScanWindow`.
- A negative `Limit` is not clamped (lines 176-178 replace only 0 and
  values above the maximum). The check `len(bs) >= o.Limit` then stops
  the loop after the first entry it examines, so such a page holds at
  most one bucket.

## Model

| member | source | states |
|---|---|---|
| Ids.Encode | tenant/storage_bucket.go:81-84 | an ID encodes iff it is valid (non-zero); otherwise the error is InvalidID; the encoding is the ID's 8 big-endian bytes |
| Ids.DecodeEncode | tenant/storage_bucket.go:149-154 | decoding the encoding of a valid ID gives that ID back |
| Ids.EncodeDecode | tenant/storage_bucket.go:149-154 | any value that decodes is the encoding of the decoded ID |
| Ids.IdBytesInjective | tenant/storage_bucket.go:288-291 | two IDs have the same primary key iff they are equal |
| Ids.IdBytesOrder | tenant/storage_bucket.go:190-195 | the byte order of primary keys is the numeric order of the IDs, so the primary cursor walks buckets by ID |
| IndexKeys.BucketIndexKey | tenant/storage_bucket.go:17-30 | fails exactly when the organization ID is invalid, with InvalidID; otherwise the key is the organization's 8-byte encoding followed by the name's bytes |
| IndexKeys.BucketIndexKeyInjective | tenant/storage_bucket.go:17-30 | distinct (OrgID, Name) pairs never share an index key |
| IndexKeys.OrgPrefix | tenant/storage_bucket.go:226-240 | the key of the empty name is the organization's prefix, and exactly the index keys built for that organization carry it |
| IndexKeys.IndexKeyOrder | tenant/storage_bucket.go:240 | within one organization, index keys sort as the names do |
| Buckets.SystemBucket | tenant/storage_bucket.go:119-142 | exactly `_tasks` and `_monitoring` yield a bucket: System type, the caller's OrgID, the fixed IDs 10 and 11 and retentions of 3 and 7 days |
| Codec.UnmarshalBucket | tenant/storage_bucket.go:62-69 | every unmarshal failure is reported as Corrupt |
| Codec.UnmarshalMarshal | tenant/storage_bucket.go:62-78 | unmarshalling a marshalled record gives the record back |
| Codec.MarshalInjective | tenant/storage_bucket.go:71-78 | two records marshal to the same bytes iff they are equal |
| Cursors.ScanKeys | tenant/storage_bucket.go:190-198 | the primary cursor yields every key of the table once, ascending, or descending when Descending is set |
| Cursors.PrefixKeys | tenant/storage_bucket.go:240 | the prefix cursor yields exactly the keys that carry the prefix, ascending |
| StoreState.UniqueBucketName | tenant/storage_bucket.go:33-60 | no error iff the organization ID is valid and its (OrgID, Name) key is not indexed; otherwise the error is AlreadyExists(name) or InvalidID, and the empty-key branch is never reached |
| StoreState.GetBucket | tenant/storage_bucket.go:80-101 | an invalid ID gives InvalidID; an absent key gives NotFound; a stored key gives its record exactly when the stored bytes decode, and Corrupt otherwise |
| StoreState.GetBucketByName | tenant/storage_bucket.go:103-156 | an invalid organization gives InvalidID; an unindexed name gives the well-known bucket for `_tasks`/`_monitoring` and NotFoundByName otherwise |
| StoreState.GetBucketReturnsRequested | tenant/storage_bucket.go:80-101 | in a consistent store the record found under an ID carries that ID and a valid OrgID |
| StoreState.StoredIsFound | tenant/storage_bucket.go:80-156 | in a consistent store every stored record is found both by its ID and by its (OrgID, Name) |
| StoreState.NameUnique | tenant/storage_bucket.go:293-295 | in a consistent store no two stored records share (OrgID, Name) |
| StoreState.IndexedNameIsFound | tenant/storage_bucket.go:103-156 | a name lookup that hits the index returns the stored bucket of exactly that organization and name |
| StoreState.UnstoredNameMisses | tenant/storage_bucket.go:117-143 | without a stored bucket of that (OrgID, Name), a name lookup returns the well-known bucket or NotFoundByName |
| Transitions.CreateBucket | tenant/storage_bucket.go:279-328 | a rejected create writes nothing; an unset ID takes the generator's (or its error); a name already indexed gives AlreadyExists; success iff an ID is usable and the name is free; then both timestamps are `now` and exactly the record and its index entry are written |
| Transitions.CreatePreservesConsistency | tenant/storage_bucket.go:279-328 | a create keeps a consistent store consistent when the generator's ID is fresh and a caller-supplied ID is not stored yet |
| Transitions.CreateThenLookup | tenant/storage_bucket.go:279-328 | after a successful create the bucket is found by its ID and by its (OrgID, Name) |
| Transitions.CreateOverStoredIdBreaksIndex | tenant/storage_bucket.go:280-325 | as written: a caller-supplied valid ID that is already stored under another (OrgID, Name) is accepted, and the store is no longer consistent |
| Transitions.CreateBucketGuarded | tenant/storage_bucket.go:279-328 | the corrected create refuses a caller-supplied ID that is already stored with AlreadyExists and writes nothing; otherwise it is the create as written |
| Transitions.CreateBucketGuardedPreservesConsistency | tenant/storage_bucket.go:279-328 | the corrected create keeps every consistent store consistent |
| Transitions.UpdateBucket | tenant/storage_bucket.go:330-398 | an update succeeds iff the bucket is found and any rename is of a User bucket to a name free in its org; a rejected update writes nothing; lookup errors pass through; renaming a System bucket is Forbidden; renaming onto a taken name is NameNotUnique; on success ID, OrgID, type and CreatedAt are kept, UpdatedAt is `now`, each attribute changes only when the patch carries it, the record is rewritten and a rename moves the index entry |
| Transitions.ReplacePreservesConsistency | tenant/storage_bucket.go:356-395 | rewriting a stored record with the same ID and OrgID, and moving its index entry to a free name, keeps the store consistent |
| Transitions.UpdatePreservesConsistency | tenant/storage_bucket.go:330-398 | an update keeps a consistent store consistent |
| Transitions.ReplaceFindsNew | tenant/storage_bucket.go:365-395 | after the rewrite the bucket is found by its ID and by its current name |
| Transitions.RenameDropsOld | tenant/storage_bucket.go:356-363 | after a rename the old index key is gone |
| Transitions.RenameThenLookup | tenant/storage_bucket.go:342-374 | renaming a stored User bucket of a consistent store to a free name: afterwards the new name finds the updated bucket, and the old name finds only the well-known bucket or NotFoundByName |
| Transitions.UpdateThenGet | tenant/storage_bucket.go:384-397 | updating a found bucket without a rename, or renaming a User bucket to a free name: afterwards the bucket is found by its ID exactly as returned |
| Transitions.DeleteBucket | tenant/storage_bucket.go:400-434 | a rejected delete writes nothing; a lookup error passes through; success removes exactly the record and its index entry |
| Transitions.DeleteOfStoredSucceeds | tenant/storage_bucket.go:400-434 | in a consistent store a delete of a found bucket succeeds |
| Transitions.DeletePreservesConsistency | tenant/storage_bucket.go:400-434 | a delete keeps a consistent store consistent |
| Transitions.DeleteThenLookup | tenant/storage_bucket.go:400-434 | after a delete the ID gives NotFound, the index key is gone, and the name finds only the well-known bucket or NotFoundByName |
| Store.CreateBucket | tenant/storage_bucket.go:279-328 | the step-by-step create returns the record as stamped and leaves the transaction exactly as Transitions.CreateBucket says, so it keeps consistency under the same conditions |
| Store.UpdateBucket | tenant/storage_bucket.go:330-398 | the step-by-step update (delete the old index key, put the new one, put the record) ends as Transitions.UpdateBucket says and keeps consistency |
| Store.DeleteBucket | tenant/storage_bucket.go:400-434 | the step-by-step delete (index entry, then record) ends as Transitions.DeleteBucket says and keeps consistency |
| Pages.PageError | tenant/storage_bucket.go:205-208 | a listing error is the error of an examined entry |
| Pages.PageBound | tenant/storage_bucket.go:218-220 | the loop stops once the page reaches the limit, so a page never exceeds a positive limit and holds at most one record under a limit that is not positive |
| Pages.PageAllOk | tenant/storage_bucket.go:200-222 | when no examined entry fails, the page is the first `limit` records the entries yield, in cursor order |
| Pages.PageFirstOnly | tenant/storage_bucket.go:218-220 | under a limit that is not positive the loop returns after the first entry it examines |
| Pages.Drain | tenant/storage_bucket.go:200-222 | the cursor loop (skip `Offset` entries, step each further entry, stop when the page is full) returns exactly `Page` of the entries after the skipped ones |
| Listing.EffectiveOptions | tenant/storage_bucket.go:169-178 | no options give a page of DefaultPageSize (20) from offset 0, ascending; otherwise the first option is used, with a zero limit or one above MaxPageSize (100) replaced by MaxPageSize and a negative limit kept |
| Listing.ScanStep | tenant/storage_bucket.go:205-215 | an entry of the table scan fails with Corrupt iff its record does not decode; otherwise the record is kept iff the name filter is absent or equal to its name |
| Listing.OrgStep | tenant/storage_bucket.go:258-268 | an entry of the index scan succeeds iff it decodes to an ID that GetBucket finds, and then yields exactly that record; otherwise it fails with InvalidID, NotFound or Corrupt |
| Listing.ScanItemsErrors | tenant/storage_bucket.go:205-208 | the table scan fails only with Corrupt |
| Listing.OrgItemsErrors | tenant/storage_bucket.go:258-268 | the index scan fails only with InvalidID, NotFound or Corrupt |
| Listing.ListBucketsByOrgSpec | tenant/storage_bucket.go:225-233 | an invalid organization gives InvalidID |
| Listing.ListBucketsSpec | tenant/storage_bucket.go:163-183 | a filter with a valid organization and a name gives InvalidRequest; an invalid organization gives InvalidID |
| Listing.ListInvalidRequest | tenant/storage_bucket.go:164-167 | a listing fails with InvalidRequest iff the filter has both a valid organization and a name |
| Listing.ListPageBound | tenant/storage_bucket.go:169-178 | a page holds at most MaxPageSize buckets, at most DefaultPageSize without options, at most the requested positive limit, and at most one under a negative limit |
| Listing.ListBuckets | tenant/storage_bucket.go:163-223 | the method returns exactly ListBucketsSpec of the transaction's tables |
| Listing.ListBucketsByOrg | tenant/storage_bucket.go:225-277 | the method returns exactly ListBucketsByOrgSpec of the transaction's tables |
| ListingFacts.TableScanWindow | tenant/storage_bucket.go:186-222 | on a consistent store the table scan returns the stored records in key order after the first `Offset` keys, passed through the name filter and cut to the limit; under a limit that is not positive, the first record examined, when it matches |
| ListingFacts.OrgScanWindow | tenant/storage_bucket.go:235-276 | on a consistent store the index scan returns the records its prefix entries point at, in key order after the first `Offset` entries, cut the same way |
| ListingFacts.ListSound | tenant/storage_bucket.go:163-277 | on a consistent store every listed bucket is found by its ID, matches the name filter and belongs to the organization asked for |
| ListingFacts.ListFailsOnlyOnRequest | tenant/storage_bucket.go:163-277 | on a consistent store a listing fails iff the filter names an organization together with a name, or an invalid organization |
| ListingFacts.ListCompleteByName | tenant/storage_bucket.go:200-222 | a table listing from offset zero that returns fewer than its limit holds every stored bucket the name filter accepts |
| ListingFacts.ListCompleteByOrg | tenant/storage_bucket.go:246-273 | an organization listing from offset zero that returns fewer than its limit holds every stored bucket of that organization |
| ListingFacts.ListOrdered | tenant/storage_bucket.go:190-198 | table listings come back in strictly ascending ID order, or strictly descending with Descending; organization listings in strictly ascending name order whatever Descending says |

## Left out

- Storage failures. `tx.Bucket`, `Get`, `Put`, `Delete` and the
  cursor's `Err`/`Close` cannot fail in the model. The sub-containers
  are maps, and the internal-error paths (lines 42-45, 57-59, 86-89,
  96-98, 112-115, 145-147 and every `ErrInternalServiceError`) are not
  modelled.
- JSON. `marshalBucket`/`unmarshalBucket` use JSON. The model uses a
  length-prefixed binary codec with a proved round trip, so marshalling
  never fails (line 73). Only the properties the store relies on
  (round trip, injectivity, failure as Corrupt) are stated.
- Time values are unbounded integers (nanoseconds). The 64-bit width
  of `time.Time` and of durations is not modelled. `time.Now()` is a
  parameter: create stamps both timestamps with the same `now`, where
  the source calls `time.Now()` twice.
- The ID generator `generateSafeID` is not part of this model. Its
  result is a parameter; freshness is a precondition
  (`Transitions.GeneratorSafe`) of the consistency lemmas only.
- `influxdb.ID`'s own `Encode`/`Decode`, the page-size constants and
  the System bucket constants are defined outside the modelled file.
  The model uses 8-byte big-endian IDs and the values stated in
  `Buckets` and `Listing`.
- The error types are collapsed into the categories of `Errors.Error`.
  `influxdb.Error` codes and wrapped messages are not modelled.
- `context.Context` and the authorizer wrappers are not modelled.
- Listing.ListBucketsByOrg: the check `if err != nil` inside the loop
  (line 254) reads an error that is always nil at that point, so it is
  not modelled.
- Listing.ListBuckets: both cursor loops are the one method
  `Pages.Drain`. It takes the cursor's values in order and the
  per-entry step as a function, so the decoding of records is not
  inlined into the loop.
- The cursor is modelled by the sorted keys it yields. Its seek key
  (the prefix, for the index scan) is only used as the prefix filter.
- Store.Tx: the transaction is one object owned by the caller.
  Aliasing between transactions and concurrent writers are not
  modelled.

## Findings

| source | as written | input that shows it | evidently intended | confidence | as-written member | corrected member |
|---|---|---|---|---|---|---|
| tenant/storage_bucket.go:280-325 | CreateBucket keeps a caller-supplied valid ID without checking whether it is already a primary key, then puts the record under it | a store holding bucket X (ID 5, name "a"), and a create of a bucket with ID 5 and the free name "b" in the same organization: X is overwritten, and index entry (org, "a") still points at ID 5, whose record is now named "b" | refuse an ID that is already stored, as the uniqueness check does for names | medium, not executed | Transitions.CreateOverStoredIdBreaksIndex | Transitions.CreateBucketGuarded |
