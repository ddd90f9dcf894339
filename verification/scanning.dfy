/** The scanning iterator as functions on the log: what each call of next yields and where it stops. */
module Scanning {
  import opened Bytes
  import opened Results
  import opened LogModel
  import opened Refinement

  /** What `LogScanIterator::next` yields at an offset; the cursor moves only past a record. */
  function ScanItem(l: LogState, offset: nat): Option<Result<(nat, Record)>> {
    if offset >= l.next then None
    else
      match ReadLog(l, offset)
      case Ok(data) => Some(Ok((offset, data)))
      case Err(e) => Some(Err(e))
  }

  function ScanNext(l: LogState, offset: nat): nat {
    if ScanItem(l, offset).Some? && ScanItem(l, offset).value.Ok? then offset + 1 else offset
  }

  /** The cursor after `n` calls of next. */
  function ScanAfter(l: LogState, start: nat, n: nat): nat
    decreases n
  {
    if n == 0 then start else ScanAfter(l, ScanNext(l, start), n - 1)
  }

  /** The iterator moves past offsets below the end whose record can be read. */
  predicate Moves(l: LogState, o: nat) {
    o < l.next && ReadLog(l, o).Ok?
  }

  /** Where the iterator stops moving: at the end of the log or at the first offset that cannot be read. */
  function Stop(l: LogState, start: nat): (p: nat)
    ensures start <= p && !Moves(l, p)
    ensures start <= l.next ==> p <= l.next
    decreases l.next - start
  {
    if Moves(l, start) then Stop(l, start + 1) else start
  }

  lemma {:induction false} BeforeStop(l: LogState, start: nat, o: nat)
    requires start <= o < Stop(l, start)
    ensures Moves(l, o)
    decreases o - start
  {
    if o > start { BeforeStop(l, start + 1, o); }
  }

  lemma NextMoves(l: LogState, o: nat)
    ensures ScanNext(l, o) == if Moves(l, o) then o + 1 else o
  {
  }

  lemma {:induction false} ScanAfterIs(l: LogState, start: nat, n: nat)
    ensures ScanAfter(l, start, n) == if start + n < Stop(l, start) then start + n else Stop(l, start)
    decreases n
  {
    if n > 0 {
      NextMoves(l, start);
      ScanAfterIs(l, ScanNext(l, start), n - 1);
    }
  }

  /**
   `scan_from` on any log whatsoever, call by call: the records from the
   start up to the first offset that cannot be read, in order.
   */
  lemma ScanYieldsBeforeStop(l: LogState, start: nat, n: nat)
    requires start + n < Stop(l, start)
    ensures ReadLog(l, start + n).Ok?
    ensures ScanItem(l, ScanAfter(l, start, n)) == Some(Ok((start + n, ReadLog(l, start + n).value)))
  {
    ScanAfterIs(l, start, n);
    BeforeStop(l, start, start + n);
  }

  /** From then on the same error for ever, or None if that offset is the end of the log. */
  lemma ScanYieldsAtStop(l: LogState, start: nat, n: nat)
    requires start + n >= Stop(l, start)
    ensures Stop(l, start) < l.next ==> ReadLog(l, Stop(l, start)).Err?
    ensures ScanItem(l, ScanAfter(l, start, n)) ==
            if Stop(l, start) >= l.next then None else Some(Err(ReadLog(l, Stop(l, start)).error))
  {
    ScanAfterIs(l, start, n);
  }

  /** On a log that represents `a` only the end stops the iterator, or an offset below the base. */
  lemma StopAtEnd(l: LogState, a: AbsLog, start: nat)
    requires Represents(l, a)
    ensures l.next == a.base + |a.records|
    ensures Stop(l, start) == if start < a.base || start >= l.next then start else l.next
  {
    ReadRepresented(l, a, start);
    ReadRepresented(l, a, Stop(l, start));
  }

  /**
   `scan_from(s)` on a crash-free log: with s in range, records s, s+1, ...
   in order and then None for ever; below the base, the same OffsetNotFound
   for ever.
   */
  lemma ScanYields(l: LogState, a: AbsLog, start: nat, n: nat)
    requires Represents(l, a)
    ensures l.next == a.base + |a.records|
    ensures ScanItem(l, ScanAfter(l, start, n)) ==
            if start >= l.next then None
            else if start < a.base then Some(Err(OffsetNotFound(start, a.base, l.next)))
            else if start + n < l.next then Some(Ok((start + n, a.records[start + n - a.base])))
            else None
  {
    StopAtEnd(l, a, start);
    if start + n < Stop(l, start) {
      ScanYieldsRecord(l, a, start, n);
    } else {
      ScanYieldsAtStop(l, start, n);
      ReadRepresented(l, a, Stop(l, start));
    }
  }

  lemma ScanYieldsRecord(l: LogState, a: AbsLog, start: nat, n: nat)
    requires Represents(l, a) && start + n < Stop(l, start)
    ensures a.base <= start + n < l.next == a.base + |a.records|
    ensures ScanItem(l, ScanAfter(l, start, n)) == Some(Ok((start + n, a.records[start + n - a.base])))
  {
    ScanYieldsBeforeStop(l, start, n);
    ReadRepresented(l, a, start + n);
  }
}
