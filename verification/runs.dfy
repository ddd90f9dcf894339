/**
 Whole runs of the crash-free log: appends with automatic rotation, reads,
 truncations at boundaries, and clean restarts, from an empty directory on.
 */
module StackRuns {
  import opened Bytes
  import opened Results
  import opened Framing
  import opened SegmentModel
  import opened Listing
  import opened LogModel
  import opened SoundLogs
  import opened Truncation
  import opened Refinement

  datatype Call =
    | Append(record: Record)
    | Read(offset: nat)
    | Truncate(offset: nat)
    | Restart(listing: seq<string>)

  datatype Reply = Appended(result: Result<nat>) | Got(data: Result<Record>) | Done

  predicate CanExec(cfg: Config, l: LogState, c: Call) {
    c.Append? ==> CanAppendLog(cfg, l, c.record)
  }

  /** One call on the stack of bytes, entries and segments. */
  function Exec(cfg: Config, l: LogState, c: Call): (LogState, Reply)
    requires CanExec(cfg, l, c)
  {
    match c
    case Append(r) => (AppendLog(cfg, l, r).0, Appended(AppendLog(cfg, l, r).1))
    case Read(o) => (l, Got(ReadLog(l, o)))
    case Truncate(o) => (TruncateLog(l, o), Done)
    case Restart(listing) => (OpenLog(CloseLog(l), listing), Done)
  }

  /** The same call on a base offset and a sequence of records. */
  function ExecAbs(a: AbsLog, c: Call): (AbsLog, Reply) {
    var end := a.base + |a.records|;
    match c
    case Append(r) => (AbsLog(a.base, a.records + [r]), Appended(Ok(end)))
    case Read(o) =>
      (a, Got(if a.base <= o < end then Ok(a.records[o - a.base]) else Err(OffsetNotFound(o, a.base, end))))
    case Truncate(o) => (TruncateAbs(a, o), Done)
    case Restart(_) => (a, Done)
  }

  /** Room for the record; a boundary to truncate at; a listing of the closed directory and no oversized record. */
  ghost predicate Allowed(l: LogState, a: AbsLog, c: Call) {
    match c
    case Append(r) => RoomLog(l, r)
    case Read(_) => true
    case Truncate(o) => o <= MAX_OFFSET && Boundary(l, o)
    case Restart(listing) => Lists(listing, CloseLog(l).Keys) && Bounded(a.records)
  }

  lemma AppendStep(cfg: Config, l: LogState, a: AbsLog, r: Record)
    requires cfg.Sane() && Represents(l, a) && RoomLog(l, r)
    ensures CanExec(cfg, l, Append(r))
    ensures Exec(cfg, l, Append(r)).1 == ExecAbs(a, Append(r)).1
    ensures Represents(Exec(cfg, l, Append(r)).0, ExecAbs(a, Append(r)).0)
  {
    AppendRefines(cfg, l, a, r);
    ExecAppend(cfg, l, a, r);
  }

  lemma ExecAppend(cfg: Config, l: LogState, a: AbsLog, r: Record)
    requires CanAppendLog(cfg, l, r)
    ensures Exec(cfg, l, Append(r)) == (AppendLog(cfg, l, r).0, Appended(AppendLog(cfg, l, r).1))
    ensures ExecAbs(a, Append(r)) == (AbsLog(a.base, a.records + [r]), Appended(Ok(a.base + |a.records|)))
  {
  }

  /** Every call answers like its abstract counterpart and keeps the log representing the abstract one. */
  lemma StepRefines(cfg: Config, l: LogState, a: AbsLog, c: Call)
    requires cfg.Sane() && Represents(l, a) && Allowed(l, a, c)
    ensures CanExec(cfg, l, c)
    ensures Exec(cfg, l, c).1 == ExecAbs(a, c).1
    ensures Represents(Exec(cfg, l, c).0, ExecAbs(a, c).0)
  {
    match c
    case Append(r) => AppendStep(cfg, l, a, r);
    case Read(o) => ReadRepresented(l, a, o);
    case Truncate(o) => TruncateRefinesIff(l, a, o);
    case Restart(listing) => ReopenRefines(l, a, listing);
  }

  // ----- Runs -----

  ghost predicate RunOk(cfg: Config, l: LogState, a: AbsLog, cs: seq<Call>)
    decreases |cs|
  {
    cs == [] ||
    (&& Allowed(l, a, cs[0]) && CanExec(cfg, l, cs[0])
     && RunOk(cfg, Exec(cfg, l, cs[0]).0, ExecAbs(a, cs[0]).0, cs[1..]))
  }

  ghost function Run(cfg: Config, l: LogState, a: AbsLog, cs: seq<Call>): (LogState, seq<Reply>)
    requires RunOk(cfg, l, a, cs)
    decreases |cs|
  {
    if cs == [] then (l, [])
    else
      var (k, reply) := Exec(cfg, l, cs[0]);
      var (m, replies) := Run(cfg, k, ExecAbs(a, cs[0]).0, cs[1..]);
      (m, [reply] + replies)
  }

  function RunAbs(a: AbsLog, cs: seq<Call>): (AbsLog, seq<Reply>)
    decreases |cs|
  {
    if cs == [] then (a, [])
    else
      var (b, reply) := ExecAbs(a, cs[0]);
      var (z, replies) := RunAbs(b, cs[1..]);
      (z, [reply] + replies)
  }

  lemma {:induction false} RunRefines(cfg: Config, l: LogState, a: AbsLog, cs: seq<Call>)
    requires cfg.Sane() && Represents(l, a) && RunOk(cfg, l, a, cs)
    ensures Run(cfg, l, a, cs).1 == RunAbs(a, cs).1
    ensures Represents(Run(cfg, l, a, cs).0, RunAbs(a, cs).0)
    decreases |cs|
  {
    if cs != [] {
      StepRefines(cfg, l, a, cs[0]);
      RunRefines(cfg, Exec(cfg, l, cs[0]).0, ExecAbs(a, cs[0]).0, cs[1..]);
    }
  }

  lemma EmptyRepresented()
    ensures Represents(OpenLog(map[], []), AbsLog(0, []))
    ensures OpenLog(map[], []).segs == [Seg(0, 0, [], [])]
  {
    EmptyLog();
    assert HoldsPart(Seg(0, 0, [], []), []);
    assert Flat([[]]) == [] by { assert Flat([[]][..0]) == []; }
    assert Clean(OpenLog(map[], []), [[]]);
  }

  /**
   In every run from an empty directory the byte-level log gives the replies
   of the abstract log, call by call, and ends up representing it.
   */
  lemma WholeStackRefinement(cfg: Config, cs: seq<Call>)
    requires cfg.Sane() && RunOk(cfg, OpenLog(map[], []), AbsLog(0, []), cs)
    ensures Run(cfg, OpenLog(map[], []), AbsLog(0, []), cs).1 == RunAbs(AbsLog(0, []), cs).1
    ensures Represents(Run(cfg, OpenLog(map[], []), AbsLog(0, []), cs).0, RunAbs(AbsLog(0, []), cs).0)
  {
    EmptyRepresented();
    RunRefines(cfg, OpenLog(map[], []), AbsLog(0, []), cs);
  }

  /** After truncating at a boundary the next append returns the truncation point. */
  lemma TruncateThenAppend(cfg: Config, l: LogState, a: AbsLog, offset: nat, r: Record)
    requires cfg.Sane() && Represents(l, a) && offset <= MAX_OFFSET && Boundary(l, offset)
    requires RoomLog(TruncateLog(l, offset), r)
    ensures CanAppendLog(cfg, TruncateLog(l, offset), r)
    ensures AppendLog(cfg, TruncateLog(l, offset), r).1 == Ok(offset)
  {
    var k, b := TruncateLog(l, offset), TruncateAbs(a, offset);
    TruncateRefinesIff(l, a, offset);
    ReadRepresented(k, b, offset);
    AppendAtEnd(cfg, k, b, r);
  }

  lemma AppendAtEnd(cfg: Config, l: LogState, a: AbsLog, r: Record)
    requires cfg.Sane() && Represents(l, a) && RoomLog(l, r)
    ensures CanAppendLog(cfg, l, r) && AppendLog(cfg, l, r).1 == Ok(l.next)
  {
    ReadRepresented(l, a, 0);
    AppendRefines(cfg, l, a, r);
  }

  // ----- Conservation -----

  /** Eight bytes of prefix and the payload, for every record. */
  function StoredBytes(rs: seq<Record>): nat {
    if rs == [] then 0 else StoredBytes(rs[..|rs| - 1]) + 8 + |rs[|rs| - 1]|
  }

  lemma {:induction false} EncodedBytes(rs: seq<Record>)
    ensures |EncodeAll(rs)| == StoredBytes(rs)
  {
    if rs != [] {
      var init := rs[..|rs| - 1];
      EncodedBytes(init);
      EncodeSnoc(init, rs[|rs| - 1]);
      assert rs == init + [rs[|rs| - 1]];
    }
  }

  lemma {:induction false} TotalOfParts(segs: seq<Seg>, parts: seq<seq<Record>>)
    requires HoldParts(segs, parts)
    ensures TotalSize(segs) == |EncodeAll(Flat(parts))|
  {
    if segs != [] {
      var n := |segs| - 1;
      assert HoldsPart(segs[n], parts[n]);
      forall i | 0 <= i < n ensures HoldsPart(segs[..n][i], parts[..n][i]) {
        assert HoldsPart(segs[i], parts[i]);
      }
      TotalOfParts(segs[..n], parts[..n]);
      EncodeAllConcat(Flat(parts[..n]), parts[n]);
    }
  }

  /** The store bytes of all segments together are exactly the bytes of the records, however they were rotated. */
  lemma Conservation(l: LogState, a: AbsLog)
    requires Represents(l, a)
    ensures TotalSize(l.segs) == StoredBytes(a.records)
  {
    var parts :| Clean(l, parts) && a == AbsLog(BaseOf(l), Flat(parts));
    TotalOfParts(l.segs, parts);
    EncodedBytes(a.records);
  }

  // ----- Rotation bounds -----

  /** At most the allowed entries, and the last record was added while the store was below its limit. */
  predicate SegBounds(cfg: Config, s: Seg) {
    && |s.entries| <= cfg.maxIndexEntries
    && (s.entries != [] ==> s.entries[|s.entries| - 1].position < cfg.maxStoreBytes)
  }

  /** Every segment keeps the limits, and all but the last have reached one. */
  predicate RotationBounds(cfg: Config, l: LogState) {
    && (forall i :: 0 <= i < |l.segs| ==> SegBounds(cfg, l.segs[i]))
    && (forall i :: 0 <= i < |l.segs| - 1 ==>
          |l.segs[i].data| >= cfg.maxStoreBytes || |l.segs[i].entries| >= cfg.maxIndexEntries)
  }

  lemma AppendKeepsBounds(cfg: Config, l: LogState, a: AbsLog, r: Record)
    requires cfg.Sane() && Represents(l, a) && RotationBounds(cfg, l)
    requires CanAppendLog(cfg, l, r)
    ensures RotationBounds(cfg, AppendLog(cfg, l, r).0)
  {
    var parts :| Clean(l, parts) && a == AbsLog(BaseOf(l), Flat(parts));
    if Full(cfg, l.segs[l.active]) {
      assert HoldsPart(l.segs[l.active], parts[l.active]);
      FullIsNotEmpty(cfg, l.segs[l.active], parts[l.active]);
      RotateHoused(l);
      assert SegBounds(cfg, l.segs[l.active]);
    }
  }

  lemma TruncateKeepsBounds(cfg: Config, l: LogState, a: AbsLog, offset: nat)
    requires Represents(l, a) && RotationBounds(cfg, l) && offset <= MAX_OFFSET
    ensures RotationBounds(cfg, TruncateLog(l, offset))
  {
    if offset <= BaseOf(l) {
      TruncateToNothing(l, offset);
    } else {
      TruncateToSome(l, offset);
    }
  }

  lemma StepKeepsBounds(cfg: Config, l: LogState, a: AbsLog, c: Call)
    requires cfg.Sane() && Represents(l, a) && Allowed(l, a, c) && CanExec(cfg, l, c)
    requires RotationBounds(cfg, l)
    ensures RotationBounds(cfg, Exec(cfg, l, c).0)
  {
    match c
    case Append(r) => AppendKeepsBounds(cfg, l, a, r);
    case Read(_) =>
    case Truncate(o) => TruncateKeepsBounds(cfg, l, a, o);
    case Restart(listing) =>
      var parts :| Clean(l, parts) && a == AbsLog(BaseOf(l), Flat(parts));
      CloseOpenIff(l, parts, listing);
  }

  /** The rotation bounds hold after every run from an empty directory. */
  lemma {:induction false} RunKeepsBounds(cfg: Config, l: LogState, a: AbsLog, cs: seq<Call>)
    requires cfg.Sane() && Represents(l, a) && RunOk(cfg, l, a, cs) && RotationBounds(cfg, l)
    ensures RotationBounds(cfg, Run(cfg, l, a, cs).0)
    decreases |cs|
  {
    if cs != [] {
      StepRefines(cfg, l, a, cs[0]);
      StepKeepsBounds(cfg, l, a, cs[0]);
      RunKeepsBounds(cfg, Exec(cfg, l, cs[0]).0, ExecAbs(a, cs[0]).0, cs[1..]);
    }
  }

  lemma BoundsAndConservation(cfg: Config, cs: seq<Call>)
    requires cfg.Sane() && RunOk(cfg, OpenLog(map[], []), AbsLog(0, []), cs)
    ensures RotationBounds(cfg, Run(cfg, OpenLog(map[], []), AbsLog(0, []), cs).0)
    ensures TotalSize(Run(cfg, OpenLog(map[], []), AbsLog(0, []), cs).0.segs) ==
            StoredBytes(RunAbs(AbsLog(0, []), cs).0.records)
  {
    EmptyRepresented();
    RunKeepsBounds(cfg, OpenLog(map[], []), AbsLog(0, []), cs);
    WholeStackRefinement(cfg, cs);
    Conservation(Run(cfg, OpenLog(map[], []), AbsLog(0, []), cs).0, RunAbs(AbsLog(0, []), cs).0);
  }
}
