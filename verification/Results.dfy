/** Results and the errors the storage engine reports. */
module Results {
  import opened Bytes

  datatype Option<+T> = None | Some(value: T)

  datatype Error =
    | Io
    | BadMagic(found: bytes)
    | UnsupportedVersion(foundVersion: nat)
    | NoValidHeader
    | HeaderChecksum(slot: nat)
    | RecordChecksum(at: nat)
    | RecordTooLarge(offset: nat, len: nat, max: nat)
    | UnknownRecordKind(kind: byte, position: nat)
    | UnexpectedEof(reached: nat, needed: nat)
    | NotFound(id: nat)
    | Deleted(deletedId: nat)
    | CorruptIndex

  datatype Result<+T> = Ok(value: T) | Err(error: Error)
  {
    predicate IsFailure() {
      Err?
    }

    function PropagateFailure<U>(): Result<U>
      requires Err?
    {
      Err(error)
    }

    function Extract(): T
      requires Ok?
    {
      value
    }
  }
}
