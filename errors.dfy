/** The categories of failure the bucket store reports, and the result
    wrappers its operations return. */
module Errors {
  import opened Bytes

  datatype Error =
    | NotFound                    // no bucket under this identifier
    | NotFoundByName(name: Bytes) // no bucket, stored or well-known, of this name
    | AlreadyExists(name: Bytes)  // (OrgID, Name) already indexed at create time
    | NameNotUnique               // rename onto a name that fails the uniqueness check
    | NameEmpty                   // empty index key
    | InvalidRequest              // a list filter naming both an organization and a name
    | InvalidID                   // an identifier that does not encode or decode
    | Corrupt                     // a stored record that does not decode
    | Forbidden                   // rename of a System bucket
    | Internal                    // any failure outside the store (the ID generator's)

  datatype Option<+T> = None | Some(value: T) {
    predicate IsFailure() { None? }

    function PropagateFailure<U>(): Option<U>
      requires None?
    {
      None
    }

    function Extract(): T
      requires Some?
    {
      value
    }
  }

  datatype Result<+T> = Ok(value: T) | Err(error: Error)
}
