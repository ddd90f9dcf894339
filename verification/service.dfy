/** The gRPC handlers as calls: what one produce or consume does while it holds the mutex, and what it answers. */
module Service {
  import opened Bytes
  import opened Results
  import opened SegmentModel
  import opened LogModel
  import opened Refinement
  import opened Logs

  datatype Status = NotFound(offset: nat) | Internal

  datatype Answer<+T> = Response(value: T) | Failed(status: Status)

  /** Only an offset outside the log is "not found"; every other error is internal. */
  function IntoStatus(e: Error): (s: Status)
    ensures s == Internal <==> !e.OffsetNotFound?
  {
    match e
    case OffsetNotFound(offset, _, _) => NotFound(offset)
    case _ => Internal
  }

  /** The store or the index has reached its limit. */
  predicate AtLimit(cfg: Config, s: Seg) {
    |s.data| >= cfg.maxStoreBytes || |s.entries| >= cfg.maxIndexEntries
  }

  /** A read fails with OffsetNotFound if no segment contains the offset, and otherwise with an error of its segment. */
  lemma Outcomes(l: LogState, offset: nat)
    ensures ReadLog(l, offset).Err? && ReadLog(l, offset).error.OffsetNotFound? <==>
              forall i :: 0 <= i < |l.segs| ==> !(l.segs[i].base <= offset < l.segs[i].next)
    ensures ReadLog(l, offset).Err? && ReadLog(l, offset).error.OffsetNotFound? ==>
              ReadLog(l, offset).error.offset == offset
    ensures ReadLog(l, offset).Err? && !ReadLog(l, offset).error.OffsetNotFound? <==>
              exists i :: FirstHolds(l, offset, i) && ReadSeg(l.segs[i], offset).Err?
  {
    ReadLogIs(l, offset);
    match Find(l.segs, offset)
    case None =>
    case Some(i) =>
      assert FirstHolds(l, offset, i);
      ReadSegOutcomes(l.segs[i], offset);
  }

  class LogService {
    const log: Log

    constructor (l: Log)
      ensures log == l
    {
      log := l;
    }

    /** Append the record; on a log that stands for `a`, the answer is the end of `a` and the record is added there. */
    method Produce(record: Record) returns (answer: Answer<nat>)
      requires log.Valid() && log.cfg.Sane() && CanAppendLog(log.cfg, log.State(), record)
      modifies log, log.dir, log.Repr
      ensures log.Valid() && log.State() == AppendLog(log.cfg, old(log.State()), record).0
      ensures answer ==
              match AppendLog(log.cfg, old(log.State()), record).1
              case Ok(offset) => Response(offset)
              case Err(e) => Failed(IntoStatus(e))
      ensures var s := old(log.segs[log.activeSegmentIndex]);
              |s.data| < log.cfg.maxStoreBytes && |s.entries| < log.cfg.maxIndexEntries ==> answer == Response(s.next)
      ensures answer == Failed(Internal) <==>
                && old(AtLimit(log.cfg, log.segs[log.activeSegmentIndex]))
                && old(AtLimit(log.cfg, OpenAt(log.dir.files, log.nextOffset)))
      ensures answer.Failed? ==> answer.status == Internal
      ensures forall a {:trigger Represents(old(log.State()), a)} :: Represents(old(log.State()), a) ==>
                && answer == Response(a.base + |a.records|)
                && Represents(log.State(), AbsLog(a.base, a.records + [record]))
    {
      ghost var before := log.State();
      AppendLogIs(log.cfg, before, record);
      var r := log.Append(record);
      answer := match r case Ok(offset) => Response(offset) case Err(e) => Failed(IntoStatus(e));
      forall a | Represents(before, a)
        ensures answer == Response(a.base + |a.records|)
        ensures Represents(log.State(), AbsLog(a.base, a.records + [record]))
      {
        AppendRefines(log.cfg, before, a, record);
      }
    }

    /** Read the record; on a log that stands for `a`, exactly the offsets outside `a` are not found. */
    method Consume(offset: nat) returns (answer: Answer<(Record, nat)>)
      requires log.Valid()
      ensures answer ==
              match ReadLog(log.State(), offset)
              case Ok(record) => Response((record, offset))
              case Err(e) => Failed(IntoStatus(e))
      ensures answer == Failed(NotFound(offset)) <==>
                forall i :: 0 <= i < |log.segs| ==> !(log.segs[i].base <= offset < log.segs[i].next)
      ensures answer == Failed(Internal) <==>
                exists i :: FirstHolds(log.State(), offset, i) && ReadSeg(log.segs[i], offset).Err?
      ensures answer.Failed? ==> answer.status in {NotFound(offset), Internal}
      ensures forall a {:trigger Represents(log.State(), a)} :: Represents(log.State(), a) ==>
                answer ==
                if a.base <= offset < a.base + |a.records| then Response((a.records[offset - a.base], offset))
                else Failed(NotFound(offset))
    {
      Outcomes(log.State(), offset);
      var r := log.Read(offset);
      answer := match r case Ok(record) => Response((record, offset)) case Err(e) => Failed(IntoStatus(e));
      forall a | Represents(log.State(), a)
        ensures answer ==
                if a.base <= offset < a.base + |a.records| then Response((a.records[offset - a.base], offset))
                else Failed(NotFound(offset))
      {
        ReadRepresented(log.State(), a, offset);
      }
    }
  }
}
