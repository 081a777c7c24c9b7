/** The bucket record, the patch applied by an update, and the two
    well-known System buckets that are synthesised on lookup and never stored. */
module Buckets {
  import opened Bytes
  import opened Errors
  import opened Ids

  datatype BucketType = User | System

  /** Instants and durations, in nanoseconds. */
  type Time = int
  type Duration = int

  datatype Bucket = Bucket(
    id: ID,
    orgID: ID,
    btype: BucketType,
    name: Bytes,
    description: Bytes,
    retentionPeriod: Duration,
    createdAt: Time,
    updatedAt: Time)

  /** `influxdb.BucketUpdate`: each field is applied only when present. */
  datatype BucketUpdate = BucketUpdate(
    name: Option<Bytes>,
    description: Option<Bytes>,
    retentionPeriod: Option<Duration>)

  /** The zero `time.Time` of a record that was never stamped. */
  const ZeroTime: Time := 0

  const Hour: Duration := 3_600_000_000_000

  const TasksSystemBucketID: ID := 10
  const MonitoringSystemBucketID: ID := 11

  const TasksSystemBucketRetention: Duration := 24 * 3 * Hour
  const MonitoringSystemBucketRetention: Duration := 24 * 7 * Hour

  const TasksSystemBucketName: Bytes := Ascii("_tasks")
  const MonitoringSystemBucketName: Bytes := Ascii("_monitoring")

  /** True of the names a lookup answers with a synthesised bucket. */
  predicate IsSystemName(name: Bytes)
  {
    name == TasksSystemBucketName || name == MonitoringSystemBucketName
  }

  /** The bucket a lookup of a well-known name returns for `orgID` when the
      index holds no entry for it. */
  function SystemBucket(name: Bytes, orgID: ID): (r: Option<Bucket>)
    ensures r.Some? <==> IsSystemName(name)
    ensures r.Some? ==> r.value.btype == System && r.value.orgID == orgID && r.value.name == name
    ensures r.Some? && name == TasksSystemBucketName ==>
      r.value.id == TasksSystemBucketID && r.value.retentionPeriod == TasksSystemBucketRetention
    ensures r.Some? && name == MonitoringSystemBucketName ==>
      r.value.id == MonitoringSystemBucketID && r.value.retentionPeriod == MonitoringSystemBucketRetention
  {
    assert |TasksSystemBucketName| != |MonitoringSystemBucketName|;
    if name == TasksSystemBucketName then
      Some(Bucket(TasksSystemBucketID, orgID, System, TasksSystemBucketName,
                  Ascii("System bucket for task logs"), TasksSystemBucketRetention, ZeroTime, ZeroTime))
    else if name == MonitoringSystemBucketName then
      Some(Bucket(MonitoringSystemBucketID, orgID, System, MonitoringSystemBucketName,
                  Ascii("System bucket for monitoring logs"), MonitoringSystemBucketRetention, ZeroTime, ZeroTime))
    else
      None
  }
}
