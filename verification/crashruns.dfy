/** Runs of appends, failures, crashes, restarts and truncations: what is never lost, and what can be read at all. */
module CrashRuns {
  import opened Bytes
  import opened Results
  import opened Framing
  import opened SegmentModel
  import opened AppendProtocol
  import opened Listing
  import opened LogModel
  import opened SoundLogs
  import opened Truncation
  import opened CrashSafety
  import opened TruncateCrashes
  import opened JammedLogs
  import opened Explanations
  import opened Scanning

  /**
   The running log, as its consistent part and the segments that refused
   appends opened over the files of the active one; the records whose append
   returned, by the offset it returned; and the records that were completely
   written, which also counts those whose append was cut short by a crash
   after its last write.
   */
  datatype State = State(core: LogState, extra: seq<Seg>, acked: map<nat, Record>, written: map<nat, Record>)

  function TheLog(s: State): LogState { Whole(s.core, s.extra) }

  /** The pads say how many zeros stand behind the bytes of the active segment in its two files. */
  datatype Event =
    | Appended(record: Record, storePad: nat, indexPad: nat)
    | AppendFailed(record: Record, stored: bool)
    | CrashedIdle(image: Dir, listing: seq<string>)
    | CrashedRotating(image: Dir, listing: seq<string>)
    | CrashedAppending(record: Record, steps: seq<Micro>, image: Dir, listing: seq<string>)
    | Restarted(listing: seq<string>)
    | Truncated(offset: nat)
    | CrashedTruncating(offset: nat, gone: nat, image: Dir, listing: seq<string>)

  /** A call of append, whatever it answers; a refused one may have opened another segment. */
  ghost predicate Append(cfg: Config, s: State, r: Record, storePad: nat, indexPad: nat, t: State)
    requires TheLog(s).active < |TheLog(s).segs|
  {
    var l := Running(TheLog(s), storePad, indexPad);
    && |r| <= MAX_RECORD && CanAppendLog(cfg, l, r)
    && var (m, reply) := AppendLog(cfg, l, r);
    && TheLog(t) == m
    && (reply.Ok? ==> t == State(m, [], s.acked[reply.value := r], s.written[reply.value := r]))
    && (reply.Err? ==>
          && t.core.segs == s.core.segs && t.core.active == s.core.active
          && t.acked == s.acked && t.written == s.written)
  }

  /** Whether an append gets past the check for a full segment, after rotating if need be. */
  predicate Takes(cfg: Config, s: State)
    requires s.core.active < |s.core.segs|
  {
    s.extra == [] && !Stuck(cfg, s.core)
  }

  /**
   An append that is not refused but fails, after the rotation it may have
   needed: either the store could not grow, or the record was stored and the
   index could not grow.
   */
  ghost predicate FailAppend(cfg: Config, s: State, r: Record, stored: bool, t: State)
    requires s.core.active < |s.core.segs|
  {
    && Takes(cfg, s) && RoomLog(s.core, r) && |r| <= MAX_RECORD
    && var k := BeforeAppend(cfg, s.core);
    && k.active < |k.segs|
    && t == s.(core := if stored then k.(segs := k.segs[k.active := OrphanSeg(k.segs[k.active], r)]) else k)
  }

  /** A crash while nothing but `k`'s files had been created, and recovery from what it left. */
  ghost predicate Crash(s: State, k: LogState, d: Dir, listing: seq<string>, t: State) {
    && k.next < MAX_OFFSET && CrashDir(k, d) && Lists(listing, d.Keys)
    && t == s.(core := OpenLog(d, listing), extra := [])
  }

  /** A crash between two writes of an append that is not refused, after the rotation it may have needed. */
  ghost predicate CrashAppending(
    cfg: Config, s: State, r: Record, ms: seq<Micro>, d: Dir, listing: seq<string>, t: State)
    requires s.core.active < |s.core.segs|
  {
    && Takes(cfg, s) && s.core.next < MAX_OFFSET - 1 && RoomLog(s.core, r) && |r| <= MAX_RECORD
    && var k := BeforeAppend(cfg, s.core);
    && RoomLog(k, r) && Run(k.segs[k.active], r, ms)
    && CrashInAppend(k, ms[|ms| - 1], d) && Lists(listing, d.Keys)
    && t == State(OpenLog(d, listing), [], s.acked,
                  if EntryDurable(ms[|ms| - 1]) then s.written[k.next := r] else s.written)
  }

  /** A clean close and open. */
  ghost predicate Restart(s: State, listing: seq<string>, t: State) {
    && (s.extra != [] ==> s.core.next < MAX_OFFSET)
    && Lists(listing, CloseLog(TheLog(s)).Keys)
    && t == s.(core := OpenLog(CloseLog(TheLog(s)), listing), extra := [])
  }

  /** A truncation at a boundary.  It cannot succeed after a refused append (JammedLogs.JamTruncateFails). */
  ghost predicate Truncate(s: State, offset: nat, t: State) {
    && s.extra == [] && offset <= MAX_OFFSET && Boundary(s.core, offset)
    && t == State(TruncateLog(s.core, offset), [], Below(s.acked, offset), Below(s.written, offset))
  }

  /**
   A crash in the middle of a truncation, at any offset, after the removal of
   all files of `m` segments.  Where that leaves a gap the log is not
   consistent, and the run ends there.
   */
  ghost predicate CrashTruncating(s: State, offset: nat, m: nat, d: Dir, listing: seq<string>, t: State) {
    && s.core.next < MAX_OFFSET && CrashInTruncate(s.core, offset, m, false, d, listing)
    && var n := KeptCount(s.core.segs, offset);
    && CleanCut(s.core.segs, n, m, false)
    && t == State(OpenLog(Removed(d, s.core.segs, n, m, false), listing), [],
                  Without(s.acked, s.core.segs, n, m), Without(s.written, s.core.segs, n, m))
  }

  ghost predicate Next(cfg: Config, s: State, e: Event, t: State)
    requires s.core.active < |s.core.segs| && TheLog(s).active < |TheLog(s).segs|
  {
    match e
    case Appended(r, storePad, indexPad) => Append(cfg, s, r, storePad, indexPad, t)
    case AppendFailed(r, stored) => FailAppend(cfg, s, r, stored, t)
    case CrashedIdle(d, listing) => Crash(s, s.core, d, listing, t)
    case CrashedRotating(d, listing) =>
      s.core.segs[s.core.active].base < s.core.next && Crash(s, RotateLog(s.core), d, listing, t)
    case CrashedAppending(r, ms, d, listing) => CrashAppending(cfg, s, r, ms, d, listing, t)
    case Restarted(listing) => Restart(s, listing, t)
    case Truncated(offset) => Truncate(s, offset, t)
    case CrashedTruncating(offset, m, d, listing) => CrashTruncating(s, offset, m, d, listing, t)
  }

  // ----- Every event keeps the log safe -----

  /** Every acknowledged record was written, and what can be read is explained by what was written. */
  ghost predicate Safe(cfg: Config, s: State) {
    && Jam(cfg, s.core, s.extra) && AllExplained(s.core, s.written)
    && forall o :: o in s.acked ==> o in s.written && s.written[o] == s.acked[o]
  }

  lemma WholeInjective(a: LogState, x: seq<Seg>, b: LogState, y: seq<Seg>)
    requires Whole(a, x) == Whole(b, y) && a.segs == b.segs && a.active == b.active
    ensures a == b && x == y
  {
    assert |x| == |y| by { assert |Whole(a, x).segs| == |a.segs| + |x| && |Whole(b, y).segs| == |b.segs| + |y|; }
    assert x == (a.segs + x)[|a.segs|..] && y == (b.segs + y)[|b.segs|..];
  }

  /** An append is refused exactly if the log is stuck, and then nothing changes but what is open. */
  lemma RefusedSafe(cfg: Config, s: State, r: Record, storePad: nat, indexPad: nat, t: State)
    requires cfg.Sane() && Safe(cfg, s) && !Takes(cfg, s)
    requires TheLog(s).active < |TheLog(s).segs| && Append(cfg, s, r, storePad, indexPad, t)
    ensures Safe(cfg, t) && t.acked == s.acked && t.written == s.written && t.core.segs == s.core.segs
  {
    var now, more := RefusedAppend(cfg, s.core, s.extra, storePad, indexPad, r);
    WholeInjective(t.core, t.extra, now, s.extra + [more]);
  }

  lemma TakenSafe(cfg: Config, s: State, r: Record, storePad: nat, indexPad: nat, t: State)
    requires cfg.Sane() && Safe(cfg, s) && Takes(cfg, s)
    requires TheLog(s).active < |TheLog(s).segs| && Append(cfg, s, r, storePad, indexPad, t)
    ensures Safe(cfg, t) && t.acked == s.acked[s.core.next := r] && s.core.next !in s.written
  {
    var l := Running(s.core, storePad, indexPad);
    RunningSound(s.core, storePad, indexPad, s.written);
    var k := BeforeAppend(cfg, l);
    PreparedAppend(cfg, l, k, s.written);
    AppendActiveExplained(cfg, k, r, s.written);
    StillWritten(cfg, s, s.core.next, r);
  }

  lemma AppendSafe(cfg: Config, s: State, r: Record, storePad: nat, indexPad: nat, t: State)
    requires cfg.Sane() && Safe(cfg, s)
    requires TheLog(s).active < |TheLog(s).segs| && Append(cfg, s, r, storePad, indexPad, t)
    ensures Safe(cfg, t)
    ensures Takes(cfg, s) ==> s.core.next !in s.written && t.acked == s.acked[s.core.next := r]
    ensures !Takes(cfg, s) ==> t.acked == s.acked && t.written == s.written && t.core.segs == s.core.segs
  {
    if Takes(cfg, s) {
      TakenSafe(cfg, s, r, storePad, indexPad, t);
    } else {
      RefusedSafe(cfg, s, r, storePad, indexPad, t);
    }
  }

  /** Bringing the directory up to date with the running files changes nothing else. */
  lemma RunningSound(l: LogState, storePad: nat, indexPad: nat, w: map<nat, Record>)
    requires SoundLog(l) && AllExplained(l, w)
    ensures SoundLog(Running(l, storePad, indexPad)) && AllExplained(Running(l, storePad, indexPad), w)
  {
    PresentAt(l, l.active);
    RunningFiles(l, storePad, indexPad);
    forall i | 0 <= i < |l.segs| ensures Explained(Running(l, storePad, indexPad).segs[i], w) {
      assert Explained(l.segs[i], w);
    }
  }

  lemma FailedSafe(cfg: Config, s: State, r: Record, stored: bool, t: State)
    requires cfg.Sane() && Safe(cfg, s) && FailAppend(cfg, s, r, stored, t)
    ensures Safe(cfg, t)
  {
    var k := BeforeAppend(cfg, s.core);
    PreparedAppend(cfg, s.core, k, s.written);
    if stored {
      FailedAppendKeepsSound(k, r);
      OrphanExplained(k, r, t.core, s.written);
    }
  }

  lemma CrashSafe(cfg: Config, s: State, k: LogState, d: Dir, listing: seq<string>, t: State)
    requires Safe(cfg, s) && SoundLog(k) && AllExplained(k, s.written)
    requires Crash(s, k, d, listing, t)
    ensures Safe(cfg, t)
  {
    CrashExplained(k, d, listing, s.written);
  }

  lemma CrashAppendingSafe(
    cfg: Config, s: State, r: Record, ms: seq<Micro>, d: Dir, listing: seq<string>, t: State)
    requires cfg.Sane() && Safe(cfg, s) && CrashAppending(cfg, s, r, ms, d, listing, t)
    ensures Safe(cfg, t)
  {
    var k := BeforeAppend(cfg, s.core);
    PreparedAppend(cfg, s.core, k, s.written);
    PreparedCrash(cfg, k, r, ms, d, listing, s.written);
    StillWritten(cfg, s, k.next, r);
  }

  /** What is written at the end of the log replaces nothing. */
  lemma StillWritten(cfg: Config, s: State, o: nat, r: Record)
    requires Safe(cfg, s) && o == s.core.next
    ensures o !in s.written && o !in s.acked
    ensures forall p :: p in s.acked ==> p in s.written[o := r] && s.written[o := r][p] == s.acked[p]
  {
  }

  lemma RestartSafe(cfg: Config, s: State, listing: seq<string>, t: State)
    requires cfg.Sane() && Safe(cfg, s) && Restart(s, listing, t)
    ensures Safe(cfg, t)
  {
    if s.extra == [] {
      CloseOpenLog(s.core, listing);
    } else {
      JamCloses(cfg, s.core, s.extra);
      CrashExplained(s.core, CloseLog(TheLog(s)), listing, s.written);
    }
  }

  lemma TruncateSafe(cfg: Config, s: State, offset: nat, t: State)
    requires Safe(cfg, s) && Truncate(s, offset, t)
    ensures Safe(cfg, t)
  {
    TruncateExplained(s.core, offset, s.written);
  }

  lemma CrashTruncatingSafe(cfg: Config, s: State, offset: nat, m: nat, d: Dir, listing: seq<string>, t: State)
    requires Safe(cfg, s) && CrashTruncating(s, offset, m, d, listing, t)
    ensures Safe(cfg, t)
  {
    var l, n := s.core, KeptCount(s.core.segs, offset);
    TruncateCrashIff(l, offset, m, false, d, listing, n, t.core);
    WrittenLeftExplained(l, offset, m, d, listing, t.core, s.written, t.written);
  }

  /**
   Every event keeps acknowledged records readable.  An append is refused
   exactly if the log is stuck; otherwise it acknowledges its record at the
   next offset, where nothing counts as written.  Only a truncation, complete
   or not, takes an acknowledgement back, and only at or above its truncation
   point.
   */
  lemma StepSafe(cfg: Config, s: State, e: Event, t: State)
    requires cfg.Sane() && Safe(cfg, s) && TheLog(s).active < |TheLog(s).segs| && Next(cfg, s, e, t)
    ensures Safe(cfg, t)
    ensures e.Appended? && Takes(cfg, s) ==> s.core.next !in s.written && t.acked == s.acked[s.core.next := e.record]
    ensures e.Appended? && !Takes(cfg, s) ==>
              t.acked == s.acked && t.written == s.written && t.core.segs == s.core.segs
    ensures forall o :: o in s.acked && !CutsAt(e, o) ==> o in t.acked && t.acked[o] == s.acked[o]
  {
    match e
    case Appended(r, storePad, indexPad) => AppendSafe(cfg, s, r, storePad, indexPad, t);
    case AppendFailed(r, stored) => FailedSafe(cfg, s, r, stored, t);
    case CrashedIdle(d, listing) => CrashSafe(cfg, s, s.core, d, listing, t);
    case CrashedRotating(d, listing) =>
      RotateExplained(s.core, s.written);
      CrashSafe(cfg, s, RotateLog(s.core), d, listing, t);
    case CrashedAppending(r, ms, d, listing) => CrashAppendingSafe(cfg, s, r, ms, d, listing, t);
    case Restarted(listing) => RestartSafe(cfg, s, listing, t);
    case Truncated(offset) => TruncateSafe(cfg, s, offset, t);
    case CrashedTruncating(offset, m, d, listing) =>
      CrashTruncatingSafe(cfg, s, offset, m, d, listing, t);
      KeptBelowCut(s.core.segs, offset, m);
  }

  /** A truncation at or below offset `o`. */
  predicate CutsAt(e: Event, o: nat) {
    (e.Truncated? || e.CrashedTruncating?) && e.offset <= o
  }

  /** A truncation that did not complete loses nothing below its truncation point. */
  lemma KeptBelowCut(segs: seq<Seg>, offset: nat, m: nat)
    requires Tiled(segs) && KeptCount(segs, offset) + m <= |segs|
    ensures forall o: nat :: o < offset ==> !Lost(segs, KeptCount(segs, offset), m, o)
  {
    TiledAscending(segs);
    RetainPrefix(segs, offset);
  }

  // ----- Runs -----

  ghost predicate StepAt(cfg: Config, es: seq<Event>, ss: seq<State>, i: int) {
    && 0 <= i < |es| && |ss| == |es| + 1
    && ss[i].core.active < |ss[i].core.segs| && TheLog(ss[i]).active < |TheLog(ss[i]).segs|
    && Next(cfg, ss[i], es[i], ss[i + 1])
  }

  /** A run that starts with `Log::new` on an empty directory. */
  ghost predicate IsRun(cfg: Config, es: seq<Event>, ss: seq<State>) {
    && |ss| == |es| + 1
    && ss[0] == State(OpenLog(map[], []), [], map[], map[])
    && forall i :: 0 <= i < |es| ==> StepAt(cfg, es, ss, i)
  }

  /**
   Safety over whole runs: however appends, taken, refused or failed, crashes
   at any point, restarts and boundary truncations are mixed, every record
   whose append returned an offset (and that was not truncated since) is read
   back at that offset, and the log is consistent but for the segments that
   refused appends opened again.
   */
  lemma {:induction false} RunSafe(cfg: Config, es: seq<Event>, ss: seq<State>)
    requires cfg.Sane() && IsRun(cfg, es, ss)
    ensures Safe(cfg, ss[|es|])
    ensures forall o :: o in ss[|es|].acked ==> ReadLog(TheLog(ss[|es|]), o) == Ok(ss[|es|].acked[o])
  {
    if es == [] {
      EmptyLog();
      EmptyExplained(0, map[]);
    } else {
      var n := |es| - 1;
      RunInit(cfg, es, ss);
      RunSafe(cfg, es[..n], ss[..n + 1]);
      StepSafe(cfg, ss[n], es[n], ss[n + 1]);
    }
    forall o | o in ss[|es|].acked ensures ReadLog(TheLog(ss[|es|]), o) == Ok(ss[|es|].acked[o]) {
      ReadsExplained(cfg, ss[|es|], o);
    }
  }

  lemma RunInit(cfg: Config, es: seq<Event>, ss: seq<State>)
    requires IsRun(cfg, es, ss) && es != []
    ensures IsRun(cfg, es[..|es| - 1], ss[..|es|]) && StepAt(cfg, es, ss, |es| - 1)
  {
    var init, states := es[..|es| - 1], ss[..|es|];
    forall i | 0 <= i < |init| ensures StepAt(cfg, init, states, i) {
      assert StepAt(cfg, es, ss, i);
    }
  }

  lemma {:induction false} StaysAcked(cfg: Config, es: seq<Event>, ss: seq<State>, i: nat, o: nat)
    requires cfg.Sane() && IsRun(cfg, es, ss) && i <= |es| && o in ss[i].acked
    requires forall k :: i <= k < |es| ==> !CutsAt(es[k], o)
    ensures o in ss[|es|].acked && ss[|es|].acked[o] == ss[i].acked[o]
  {
    if i < |es| {
      var n := |es| - 1;
      RunInit(cfg, es, ss);
      UncutInit(es, es[..n], i, o);
      StaysAcked(cfg, es[..n], ss[..n + 1], i, o);
      assert ss[..n + 1][i] == ss[i] && ss[..n + 1][n] == ss[n];
      LastStepKeeps(cfg, es, ss, o);
    }
  }

  lemma UncutInit(es: seq<Event>, init: seq<Event>, i: nat, o: nat)
    requires i < |es| && init == es[..|es| - 1] && forall k :: i <= k < |es| ==> !CutsAt(es[k], o)
    ensures !CutsAt(es[|es| - 1], o)
    ensures forall k :: i <= k < |init| ==> !CutsAt(init[k], o)
  {
  }

  lemma LastStepKeeps(cfg: Config, es: seq<Event>, ss: seq<State>, o: nat)
    requires cfg.Sane() && IsRun(cfg, es, ss) && es != []
    requires o in ss[|es| - 1].acked && !CutsAt(es[|es| - 1], o)
    ensures o in ss[|es|].acked && ss[|es|].acked[o] == ss[|es| - 1].acked[o]
  {
    var n := |es| - 1;
    RunInit(cfg, es, ss);
    RunSafe(cfg, es[..n], ss[..n + 1]);
    StepSafe(cfg, ss[n], es[n], ss[n + 1]);
  }

  /**
   Nothing acknowledged is lost: a record acknowledged at any point of a run
   is read back at its offset at any later point, as long as no truncation
   at or below that offset was started in between.
   */
  lemma AckedRecordsSurvive(cfg: Config, es: seq<Event>, ss: seq<State>, i: nat, o: nat)
    requires cfg.Sane() && IsRun(cfg, es, ss) && i <= |es| && o in ss[i].acked
    requires forall k :: i <= k < |es| ==> !CutsAt(es[k], o)
    ensures ReadLog(TheLog(ss[|es|]), o) == Ok(ss[i].acked[o])
  {
    RunSafe(cfg, es, ss);
    StaysAcked(cfg, es, ss, i, o);
  }

  // ----- Nothing is invented -----

  /** When offset 0 reads without having been written: padding is its entry, and the store has a record. */
  predicate ReadsPadding(l: LogState) {
    var i := Find(l.segs, 0);
    i.Some? && l.segs[i.value].data != []
  }

  /** The first record in the store of the segment that offset 0 is found in. */
  function PaddingRecord(l: LogState): (r: Option<Record>) {
    var i := Find(l.segs, 0);
    if i.Some? && Parse(l.segs[i.value].data) != [] then Some(Parse(l.segs[i.value].data)[0]) else None
  }

  /** Offset 0, if it can be found and was never written, reads what stands first in that store. */
  lemma ZeroReads(cfg: Config, s: State)
    requires cfg.Sane() && Safe(cfg, s) && 0 !in s.written
    ensures var l := TheLog(s); var i := Find(l.segs, 0);
            i.Some? ==> Framed(l.segs[i.value].data) && ReadLog(l, 0) == ReadAt(l.segs[i.value].data, 0)
  {
    var l, i := TheLog(s), Find(TheLog(s).segs, 0);
    if Find(s.core.segs, 0).Some? {
      FindInFront(s.core.segs, s.extra, 0);
    } else {
      FindBehind(s.core.segs, s.extra, 0);
    }
    if i.Some? {
      var p := i.value;
      if p < |s.core.segs| {
        assert Explained(s.core.segs[p], s.written);
        assert ExplainedAt(s.core.segs[p], s.written, 0);
      } else {
        WholeReads(cfg, s.core, s.extra, 0);
        ExtraAtNext(cfg, s, p - |s.core.segs|);
      }
    }
  }

  /** A segment opened again holds no offset but the next one. */
  lemma ExtraAtNext(cfg: Config, s: State, i: nat)
    requires cfg.Sane() && Safe(cfg, s) && i < |s.extra|
    ensures s.extra[i].base == s.core.next && s.extra[i].next <= s.core.next + 1 && Framed(s.extra[i].data)
  {
    StuckHasNoEntries(cfg, s.core);
    HighestOfPadding(s.extra[i].base, |s.extra[i].entries|);
  }

  /** Offsets other than 0 read only what was written. */
  lemma OthersRead(cfg: Config, s: State, o: nat)
    requires cfg.Sane() && Safe(cfg, s) && (o > 0 || o in s.written)
    ensures o in s.written ==> ReadLog(TheLog(s), o) == Ok(s.written[o])
    ensures o !in s.written ==> ReadLog(TheLog(s), o).Err?
  {
    WholeReads(cfg, s.core, s.extra, o);
    if BaseOf(s.core) <= o < s.core.next {
      WrittenReads(s.core, s.written, o);
    } else {
      TiledBounds(s.core.segs, o);
    }
  }

  lemma ReadsExplained(cfg: Config, s: State, o: nat)
    requires cfg.Sane() && Safe(cfg, s)
    ensures ReadLog(TheLog(s), o).Ok? <==> o in s.written || (o == 0 && ReadsPadding(TheLog(s)))
    ensures o in s.written ==> ReadLog(TheLog(s), o) == Ok(s.written[o])
    ensures o !in s.written && ReadLog(TheLog(s), o).Ok? ==>
              PaddingRecord(TheLog(s)).Some? && ReadLog(TheLog(s), o) == Ok(PaddingRecord(TheLog(s)).value)
  {
    if o == 0 && o !in s.written {
      var i := Find(TheLog(s).segs, 0);
      ZeroReads(cfg, s);
      if i.Some? { FirstOfStore(TheLog(s).segs[i.value].data); }
    } else {
      OthersRead(cfg, s, o);
    }
  }

  /**
   Nothing is invented: at every point of a run, what can be read is exactly
   what was completely written, by appends that returned or that a crash cut
   short after their last write, and is read unchanged.  The one exception
   is offset 0 when it was never written but a segment at 0 was opened with
   padding: it reads the first record of that segment's store.
   */
  lemma NothingInvented(cfg: Config, es: seq<Event>, ss: seq<State>, o: nat)
    requires cfg.Sane() && IsRun(cfg, es, ss)
    ensures var l, w := TheLog(ss[|es|]), ss[|es|].written;
            && (ReadLog(l, o).Ok? <==> o in w || (o == 0 && ReadsPadding(l)))
            && (o in w ==> ReadLog(l, o) == Ok(w[o]))
            && (o !in w && ReadLog(l, o).Ok? ==>
                  PaddingRecord(l).Some? && ReadLog(l, o) == Ok(PaddingRecord(l).value))
  {
    RunSafe(cfg, es, ss);
    ReadsExplained(cfg, ss[|es|], o);
  }

  /**
   The exact outcome of scanning at any point of a run, from any offset: the
   records as they are read, in order, up to the end, or up to the base of a
   segment that came back with padding and had nothing written there.  On
   such a base, or below the first one, the iterator stays for ever.
   */
  lemma ScanInRun(cfg: Config, es: seq<Event>, ss: seq<State>, start: nat, n: nat)
    requires cfg.Sane() && IsRun(cfg, es, ss)
    ensures var l, w := TheLog(ss[|es|]), ss[|es|].written; var p := Stop(l, start);
            && (forall o :: start <= o < p ==> o in w || (o == 0 && ReadsPadding(l)))
            && (BaseOf(l) <= p < l.next ==> p !in w && p in BaseSeq(l.segs))
            && (start + n < p ==>
                  && ReadLog(l, start + n).Ok?
                  && ScanItem(l, ScanAfter(l, start, n)) == Some(Ok((start + n, ReadLog(l, start + n).value))))
            && (start + n >= p ==>
                  ScanItem(l, ScanAfter(l, start, n)) ==
                  if p >= l.next then None
                  else if p < BaseOf(l) then Some(Err(OffsetNotFound(start, BaseOf(l), l.next)))
                  else if p > 0 then Some(Err(EntryNotFound(p)))
                  else Some(Err(ReadBeyondEnd(0, 0))))
  {
    var s := ss[|es|];
    var l := TheLog(s);
    RunSafe(cfg, es, ss);
    if start + n < Stop(l, start) { ScanYieldsBeforeStop(l, start, n); } else { ScanYieldsAtStop(l, start, n); }
    forall o | start <= o < Stop(l, start) ensures o in s.written || (o == 0 && ReadsPadding(l)) {
      BeforeStop(l, start, o);
      ReadsExplained(cfg, s, o);
    }
    StopExplained(cfg, s, start);
  }

  lemma StopExplained(cfg: Config, s: State, start: nat)
    requires cfg.Sane() && Safe(cfg, s)
    ensures var l := TheLog(s); var p := Stop(l, start);
            && (p < BaseOf(l) ==> p == start && ReadLog(l, p) == Err(OffsetNotFound(p, BaseOf(l), l.next)))
            && (BaseOf(l) <= p < l.next ==>
                  && p !in s.written && p in BaseSeq(l.segs)
                  && ReadLog(l, p) == Err(if p > 0 then EntryNotFound(p) else ReadBeyondEnd(0, 0)))
  {
    var l := TheLog(s);
    var p := Stop(l, start);
    if p < BaseOf(l) {
      UnreadBelow(cfg, s, p);
      UnreadBelow(cfg, s, start);
    } else if p < l.next {
      UnreadInside(cfg, s, p);
    }
  }

  lemma UnreadBelow(cfg: Config, s: State, o: nat)
    requires cfg.Sane() && Safe(cfg, s) && o < BaseOf(TheLog(s))
    ensures o < TheLog(s).next
    ensures ReadLog(TheLog(s), o) == Err(OffsetNotFound(o, BaseOf(TheLog(s)), TheLog(s).next))
  {
    SoundBases(s.core);
    TiledBounds(s.core.segs, o);
    WholeReads(cfg, s.core, s.extra, o);
  }

  lemma UnreadInside(cfg: Config, s: State, o: nat)
    requires cfg.Sane() && Safe(cfg, s) && BaseOf(TheLog(s)) <= o < TheLog(s).next && ReadLog(TheLog(s), o).Err?
    ensures o !in s.written && o in BaseSeq(TheLog(s).segs)
    ensures ReadLog(TheLog(s), o) == Err(if o > 0 then EntryNotFound(o) else ReadBeyondEnd(0, 0))
  {
    WholeReads(cfg, s.core, s.extra, o);
    WrittenReads(s.core, s.written, o);
    FirstOfStore(s.core.segs[0].data);
    var i :| 0 <= i < |s.core.segs| && s.core.segs[i].base == o && Find(s.core.segs, o) == Some(i);
    assert BaseSeq(TheLog(s).segs)[i] == o;
  }
}
