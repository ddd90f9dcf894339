/** Results of storage operations and the errors they can report. */
module Results {

  datatype Option<+T> = None | Some(value: T)

  datatype Error =
    | ReadBeyondEnd(position: nat, size: nat)
    | CorruptedRecord(position: nat)
    | EntryNotFound(offset: nat)
    | CorruptedEntry(position: nat)
    | SegmentFull(baseOffset: nat, maxSize: nat, currentSize: nat)
    | OffsetOutOfRange(offset: nat, baseOffset: nat, nextOffset: nat)
    | OffsetNotFound(offset: nat, baseOffset: nat, nextOffset: nat)

  datatype Result<+T> = Ok(value: T) | Err(error: Error)
}
