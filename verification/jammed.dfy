/** Logs on which appends were refused: the files of the active segment have been opened again. */
module JammedLogs {
  import opened Bytes
  import opened Results
  import opened Framing
  import opened Entries
  import opened SegmentModel
  import opened Names
  import opened Listing
  import opened LogModel
  import opened SoundLogs
  import opened Truncation
  import opened CrashSafety

  /** The log after refused appends: `extra` are the segments they opened over the files of the active one. */
  function Whole(core: LogState, extra: seq<Seg>): LogState {
    if extra == [] then core
    else core.(segs := core.segs + extra, active := |core.segs| + |extra| - 1)
  }

  /**
   What opening the files of a segment without entries gives while it is
   running: its bytes, with some of the zeros behind them taken for empty
   records, and some of the zeros of its index file taken for entries.
   */
  predicate Again(s: Seg, t: Seg) {
    && s.entries == [] && t.base == s.base && Sound(t)
    && t.entries == seq(|t.entries|, i => ZERO_ENTRY)
    && s.data <= t.data && t.data == s.data + Zeros(|t.data| - |s.data|)
  }

  /** A consistent log and the segments opened by refused appends, which there are only if it is stuck. */
  ghost predicate Jam(cfg: Config, core: LogState, extra: seq<Seg>) {
    && SoundLog(core)
    && (extra != [] ==> Stuck(cfg, core))
    && forall i :: 0 <= i < |extra| ==> Again(core.segs[core.active], extra[i])
  }

  /** The log with the files of its active segment as they are while it runs: its bytes, then zeros. */
  function Running(l: LogState, storePad: nat, indexPad: nat): LogState
    requires l.active < |l.segs|
  {
    var s := l.segs[l.active];
    l.(dir := l.dir[LogName(s.base) := s.data + Zeros(storePad)][IdxName(s.base) := IndexFile(s) + Zeros(indexPad)])
  }

  lemma ZerosJoin(m: nat, n: nat)
    ensures Zeros(m) + Zeros(n) == Zeros(m + n)
  {
  }

  /** Opening the files once more, after they were opened by the active segment `c` or over it. */
  lemma OpenedAgain(c: Seg, s: Seg, storePad: nat, indexPad: nat, t: Seg)
    requires Sound(c) && c.entries == [] && (s == c || Again(c, s))
    requires t == OpenSeg(s.base, s.data + Zeros(storePad), IndexFile(s) + Zeros(indexPad))
    ensures Again(c, t)
  {
    PaddingGrows(s, indexPad);
    OpenIsSound(s.base, s.data + Zeros(storePad), IndexFile(s) + Zeros(indexPad));
    OpenedData(s.data, storePad);
    MoreZeros(c.data, s.data, 8 * (storePad / 8));
  }

  lemma PaddingGrows(s: Seg, indexPad: nat)
    requires s.entries == seq(|s.entries|, i => ZERO_ENTRY)
    ensures DecodeEntries(IndexFile(s) + Zeros(indexPad)) == seq(|s.entries| + indexPad / 16, i => ZERO_ENTRY)
  {
    DecodePadded(s.entries, indexPad);
  }

  lemma MoreZeros(data: seq<Byte>, more: seq<Byte>, n: nat)
    requires data <= more && more == data + Zeros(|more| - |data|)
    ensures data <= more + Zeros(n) && more + Zeros(n) == data + Zeros(|more| + n - |data|)
  {
    ZerosJoin(|more| - |data|, n);
    assert data + Zeros(|more| - |data|) + Zeros(n) == data + (Zeros(|more| - |data|) + Zeros(n));
  }

  lemma OpenedData(data: seq<Byte>, pad: nat)
    requires Framed(data)
    ensures var f := data + Zeros(pad); f[..ScanEnd(f)] == data + Zeros(8 * (pad / 8))
  {
    FramedIff(data);
    LongestValidPrefix(data);
    ParseWithTail(Parse(data), Zeros(pad));
    ParseZeros(pad);
    assert Zeros(pad)[..8 * (pad / 8)] == Zeros(8 * (pad / 8));
  }

  lemma StuckHasNoEntries(cfg: Config, l: LogState)
    requires cfg.Sane() && Consistent(l) && Stuck(cfg, l)
    ensures l.segs[l.active].entries == [] && |l.segs[l.active].data| >= cfg.maxStoreBytes
    ensures l.segs[l.active].base == l.next
  {
    HighestIsMax(l.segs[l.active].base, l.segs[l.active].entries);
  }

  /** The active segment of a jammed log is full, over the same files. */
  lemma ActiveOfWhole(cfg: Config, core: LogState, extra: seq<Seg>)
    requires cfg.Sane() && Jam(cfg, core, extra) && Stuck(cfg, core)
    ensures var l := Whole(core, extra);
            && l.active < |l.segs| && l.next == core.next && l.dir == core.dir
            && l.segs[l.active].base == core.next && Full(cfg, l.segs[l.active])
            && (l.segs[l.active] == core.segs[core.active] || Again(core.segs[core.active], l.segs[l.active]))
  {
    StuckHasNoEntries(cfg, core);
    if extra != [] {
      assert Whole(core, extra).segs[|core.segs| + |extra| - 1] == extra[|extra| - 1];
    }
  }

  lemma RunningFiles(l: LogState, storePad: nat, indexPad: nat)
    requires l.active < |l.segs| && l.segs[l.active].base < LIMIT64
    ensures var s := l.segs[l.active]; var d := Running(l, storePad, indexPad).dir;
            && FileOf(d, LogName(s.base)) == s.data + Zeros(storePad)
            && FileOf(d, IdxName(s.base)) == IndexFile(s) + Zeros(indexPad)
            && d.Keys == l.dir.Keys + {LogName(s.base), IdxName(s.base)}
  {
    SuffixesDiffer(l.segs[l.active].base, l.segs[l.active].base);
  }

  /**
   A refused append: the rotation opens the files of the active segment once
   more, the segment it gives is full again, and nothing else happens.
   */
  lemma RefusedAppend(cfg: Config, core: LogState, extra: seq<Seg>, storePad: nat, indexPad: nat, r: Record)
    returns (now: LogState, t: Seg)
    requires cfg.Sane() && Jam(cfg, core, extra) && Stuck(cfg, core)
    requires Whole(core, extra).active < |Whole(core, extra).segs|
    requires CanAppendLog(cfg, Running(Whole(core, extra), storePad, indexPad), r)
    ensures var (m, reply) := AppendLog(cfg, Running(Whole(core, extra), storePad, indexPad), r);
            && reply == Err(SegmentFull(core.next, cfg.maxStoreBytes, |t.data|))
            && now.segs == core.segs && now.active == core.active && now.next == core.next
            && m == Whole(now, extra + [t]) && Jam(cfg, now, extra + [t])
            && |t.entries| == |Whole(core, extra).segs[Whole(core, extra).active].entries| + indexPad / 16
  {
    var l := Running(Whole(core, extra), storePad, indexPad);
    ActiveOfWhole(cfg, core, extra);
    SoundBases(core);
    t := ReopenedFull(cfg, core, l.segs[l.active], storePad, indexPad);
    RunningFiles(Whole(core, extra), storePad, indexPad);
    RotatedAppend(cfg, l, t, r);
    now := core.(dir := Created(l.dir, l.next));
    SameNames(core, l.dir);
    WholeMore(core, now, extra, t);
  }

  /** Opening the files of the active segment of a jammed log gives a full segment again. */
  lemma ReopenedFull(cfg: Config, core: LogState, s: Seg, storePad: nat, indexPad: nat) returns (t: Seg)
    requires cfg.Sane() && SoundLog(core) && Stuck(cfg, core)
    requires s == core.segs[core.active] || Again(core.segs[core.active], s)
    ensures t == OpenSeg(s.base, s.data + Zeros(storePad), IndexFile(s) + Zeros(indexPad))
    ensures Again(core.segs[core.active], t) && Full(cfg, t) && t.base == core.next
    ensures |t.entries| == |s.entries| + indexPad / 16
  {
    StuckHasNoEntries(cfg, core);
    t := OpenSeg(s.base, s.data + Zeros(storePad), IndexFile(s) + Zeros(indexPad));
    OpenedAgain(core.segs[core.active], s, storePad, indexPad, t);
  }

  lemma WholeMore(core: LogState, now: LogState, extra: seq<Seg>, t: Seg)
    requires now == core.(dir := now.dir) && core.active == |core.segs| - 1
    ensures var l, m := Whole(core, extra), Whole(now, extra + [t]);
            m.segs == l.segs + [t] && m.active == |l.segs| && m.next == l.next && m.dir == now.dir
  {
    assert core.segs + extra + [t] == core.segs + (extra + [t]);
    assert extra == [] ==> core.segs + [t] == core.segs + (extra + [t]);
  }

  /** Opening the active segment's files creates no file. */
  lemma SameNames(core: LogState, d: Dir)
    requires SoundLog(core) && core.segs[core.active].base == core.next
    requires d.Keys == core.dir.Keys + {LogName(core.next), IdxName(core.next)}
    ensures Created(d, core.next).Keys == core.dir.Keys
  {
    FilesPresent(core);
  }

  // ----- What can be read -----

  /** Every read of the consistent part is unchanged; only the next offset may be found in what was opened again. */
  lemma WholeReads(cfg: Config, core: LogState, extra: seq<Seg>, o: nat)
    requires cfg.Sane() && Jam(cfg, core, extra)
    ensures o != core.next ==> ReadLog(Whole(core, extra), o) == ReadLog(core, o)
    ensures o == core.next && Find(extra, o) == None ==> ReadLog(Whole(core, extra), o) == ReadLog(core, o)
    ensures o == core.next && Find(extra, o).Some? ==>
              ReadLog(Whole(core, extra), o) ==
              if o == 0 then ReadAt(extra[Find(extra, o).value].data, 0) else Err(EntryNotFound(o))
  {
    if Find(core.segs, o).Some? { FindInFront(core.segs, extra, o); } else { FindBehind(core.segs, extra, o); }
    if extra != [] {
      StuckHasNoEntries(cfg, core);
      if Find(extra, o).Some? {
        var t := extra[Find(extra, o).value];
        HighestOfPadding(t.base, |t.entries|);
        PaddingLookup(|t.entries|, o);
      }
      TiledBounds(core.segs, core.next);
    }
  }

  lemma HighestOfPadding(base: nat, n: nat)
    ensures NextOf(base, seq(n, i => ZERO_ENTRY)) == if n == 0 then base else base + 1
  {
    NextOfPadded(base, [], n);
    assert [] + seq(n, i => ZERO_ENTRY) == seq(n, i => ZERO_ENTRY);
  }

  lemma PaddingLookup(n: nat, o: nat)
    ensures Lookup(seq(n, i => ZERO_ENTRY), o) == if n > 0 && o == 0 then Some(0) else None
  {
    var es := seq(n, i => ZERO_ENTRY);
    LookupIsFirst(es, o);
    if n > 0 && o == 0 { assert FirstAt(es, o, 0); }
  }

  // ----- Opening the files again from the start -----

  /** Closing trims the shared files to what the last segment over them holds. */
  lemma {:induction false} ClosedShared(d: Dir, segs: seq<Seg>, extra: seq<Seg>, base: U64, name: string)
    requires forall i :: 0 <= i < |extra| ==> extra[i].base == base
    requires LogName(base) in d && IdxName(base) in d
    ensures CloseFiles(d, segs + extra).Keys == d.Keys
    ensures name != LogName(base) && name != IdxName(base) ==>
              FileOf(CloseFiles(d, segs + extra), name) == FileOf(CloseFiles(d, segs), name)
    ensures extra != [] ==>
              && FileOf(CloseFiles(d, segs + extra), LogName(base)) == extra[|extra| - 1].data
              && FileOf(CloseFiles(d, segs + extra), IdxName(base)) == IndexFile(extra[|extra| - 1])
  {
    ClosedKeys(d, segs + extra);
    SuffixesDiffer(base, base);
    if extra == [] {
      assert segs + extra == segs;
    } else {
      var init := extra[..|extra| - 1];
      assert (segs + extra)[..|segs + extra| - 1] == segs + init;
      ClosedKeys(d, segs + init);
      ClosedShared(d, segs, init, base, name);
    }
  }

  /** What a clean close of a jammed log leaves is something a crash of its consistent part could leave. */
  lemma JamCloses(cfg: Config, core: LogState, extra: seq<Seg>)
    requires cfg.Sane() && Jam(cfg, core, extra) && extra != []
    ensures CrashDir(core, CloseLog(Whole(core, extra)))
    ensures var last := extra[|extra| - 1]; var d := CloseLog(Whole(core, extra));
            FileOf(d, LogName(core.next)) == last.data && FileOf(d, IdxName(core.next)) == IndexFile(last)
  {
    var d, b := CloseLog(Whole(core, extra)), core.next;
    StuckHasNoEntries(cfg, core);
    SoundBases(core);
    FilesPresent(core);
    ClosedShared(core.dir, core.segs, extra, b, LogName(b));
    forall i | 0 <= i < |core.segs| ensures CrashImage(core.segs[i], d) {
      JamImage(core, extra, i);
    }
  }

  lemma JamImage(core: LogState, extra: seq<Seg>, i: nat)
    requires SoundLog(core) && i < |core.segs| && extra != []
    requires core.segs[core.active].base == core.next && core.segs[core.active].entries == []
    requires forall j :: 0 <= j < |extra| ==> Again(core.segs[core.active], extra[j])
    ensures CrashImage(core.segs[i], CloseFiles(core.dir, core.segs + extra))
  {
    var d := CloseFiles(core.dir, core.segs + extra);
    if i == core.active {
      PresentAt(core, i);
      SharedFiles(core.dir, core.segs, extra, core.next);
      AgainImage(core.segs[i], extra[|extra| - 1], d);
    } else {
      InnerFiles(core, extra, i);
      ExactImage(core.segs[i], d);
    }
  }

  lemma SharedFiles(d: Dir, segs: seq<Seg>, extra: seq<Seg>, base: U64)
    requires extra != [] && forall i :: 0 <= i < |extra| ==> extra[i].base == base
    requires LogName(base) in d && IdxName(base) in d
    ensures var e := CloseFiles(d, segs + extra); var last := extra[|extra| - 1];
            FileOf(e, LogName(base)) == last.data && FileOf(e, IdxName(base)) == IndexFile(last)
  {
    ClosedShared(d, segs, extra, base, LogName(base));
  }

  lemma PresentAt(core: LogState, i: nat)
    requires SoundLog(core) && i < |core.segs|
    ensures core.segs[i].base < LIMIT64
    ensures LogName(core.segs[i].base) in core.dir && IdxName(core.segs[i].base) in core.dir
  {
    SoundBases(core);
    FilesPresent(core);
  }

  lemma ExactImage(s: Seg, d: Dir)
    requires FileOf(d, LogName(s.base)) == s.data && FileOf(d, IdxName(s.base)) == IndexFile(s)
    ensures CrashImage(s, d)
  {
    PaddedExact(s.entries);
  }

  lemma AgainImage(s: Seg, t: Seg, d: Dir)
    requires Again(s, t) && FileOf(d, LogName(s.base)) == t.data && FileOf(d, IdxName(s.base)) == IndexFile(t)
    ensures CrashImage(s, d)
  {
    EncodedPadding(|t.entries|);
    PaddedZeros(16 * |t.entries|);
  }

  /** The files of the other segments are trimmed as without the refused appends. */
  lemma InnerFiles(core: LogState, extra: seq<Seg>, i: nat)
    requires SoundLog(core) && i < core.active && core.segs[core.active].base == core.next
    requires forall j :: 0 <= j < |extra| ==> extra[j].base == core.next
    ensures var s, d := core.segs[i], CloseFiles(core.dir, core.segs + extra);
            FileOf(d, LogName(s.base)) == s.data && FileOf(d, IdxName(s.base)) == IndexFile(s)
  {
    var s := core.segs[i];
    OtherNames(core, i);
    PresentAt(core, core.active);
    ClosedShared(core.dir, core.segs, extra, core.next, LogName(s.base));
    ClosedShared(core.dir, core.segs, extra, core.next, IdxName(s.base));
    ClosedAt(core, i);
  }

  lemma ClosedAt(core: LogState, i: nat)
    requires SoundLog(core) && i < |core.segs|
    ensures FileOf(CloseFiles(core.dir, core.segs), LogName(core.segs[i].base)) == core.segs[i].data
    ensures FileOf(CloseFiles(core.dir, core.segs), IdxName(core.segs[i].base)) == IndexFile(core.segs[i])
  {
    SoundBases(core);
    TiledAscending(core.segs);
    FilesPresent(core);
    ClosedFiles(core.dir, core.segs, i);
  }

  lemma OtherNames(core: LogState, i: nat)
    requires Consistent(core) && i < core.active && core.segs[core.active].base == core.next
    ensures LogName(core.segs[i].base) != LogName(core.next) && LogName(core.segs[i].base) != IdxName(core.next)
    ensures IdxName(core.segs[i].base) != LogName(core.next) && IdxName(core.segs[i].base) != IdxName(core.next)
  {
    SoundBases(core);
    TiledOrder(core.segs, i, core.active);
    NamesDistinct(core.segs[i].base, core.next);
    NamesDistinct(core.next, core.segs[i].base);
  }

  /** Entries that are padding are written as zeros. */
  lemma {:induction false} EncodedPadding(n: nat)
    ensures EncodeEntries(seq(n, i => ZERO_ENTRY)) == Zeros(16 * n)
  {
    var es := seq(n, i => ZERO_ENTRY);
    if n > 0 {
      EncodedPadding(n - 1);
      assert es[..n - 1] == seq(n - 1, i => ZERO_ENTRY);
      ZeroWord();
    }
  }

  /**
   When reopening ends the stuck state.  Closing cleanly and opening again
   keeps every read.  The log is still stuck exactly if it was and the last
   refused append, if there was one, opened the segment without padding
   entries; otherwise the log goes on one offset further.
   */
  lemma RestartEndsJam(cfg: Config, core: LogState, extra: seq<Seg>, listing: seq<string>)
    requires cfg.Sane() && Jam(cfg, core, extra) && core.next < MAX_OFFSET
    requires Lists(listing, CloseLog(Whole(core, extra)).Keys)
    ensures var z := OpenLog(CloseLog(Whole(core, extra)), listing);
            var padded := extra != [] && extra[|extra| - 1].entries != [];
            && SoundLog(z) && KeepsLogReads(core, z)
            && z.next == (if padded then core.next + 1 else core.next)
            && (Stuck(cfg, z) <==> Stuck(cfg, core) && !padded)
  {
    var d := CloseLog(Whole(core, extra));
    if extra == [] {
      CloseOpenLog(core, listing);
    } else {
      var last := extra[|extra| - 1];
      JamCloses(cfg, core, extra);
      StuckHasNoEntries(cfg, core);
      CrashOpenLog(core, d, listing);
      CrashLoads(core, d, listing);
      SoundBases(core);
      TiledAscending(core.segs);
      StuckIff(cfg, d, BaseSeq(core.segs));
      assert BaseSeq(core.segs)[|core.segs| - 1] == core.next;
      assert |IndexFile(last)| == 16 * |last.entries|;
    }
  }

  /** Right after opening a stuck log, its directory is up to date: no spare store bytes, a pre-sized index. */
  lemma OpenedIsRunning(cfg: Config, d: Dir, bases: seq<nat>, k: LogState)
    requires cfg.Sane() && bases != [] && k == OpenBases(d, bases) && SoundLog(k) && Stuck(cfg, k)
    ensures Running(k, 0, INITIAL_BYTES) == k
  {
    var n, s := |bases| - 1, k.segs[k.active];
    StuckIsJammed(cfg, d, bases, k);
    StuckHasNoEntries(cfg, k);
    SoundBases(k);
    TiledAscending(k.segs);
    assert BaseSeq(k.segs) == bases;
    OthersUntouched(d, bases[..n], bases[n]);
    StuckIff(cfg, d, bases);
    SuffixesDiffer(bases[n], bases[n]);
    assert s.data + Zeros(0) == s.data;
    assert IndexFile(s) + Zeros(INITIAL_BYTES) == Zeros(INITIAL_BYTES);
    assert k.dir[LogName(s.base)] == s.data && k.dir[IdxName(s.base)] == Zeros(INITIAL_BYTES);
  }

  /**
   A log that comes back stuck, one append and a clean restart: the append is
   refused, nothing readable is lost, and the log is not stuck any more.  One
   offset has been skipped.
   */
  lemma RefusalThenRestart(cfg: Config, d: Dir, bases: seq<nat>, k: LogState, r: Record, listing: seq<string>)
    requires cfg.Sane() && bases != [] && k == OpenBases(d, bases) && SoundLog(k) && Stuck(cfg, k)
    requires CanAppendLog(cfg, k, r) && Lists(listing, CloseLog(AppendLog(cfg, k, r).0).Keys)
    ensures AppendLog(cfg, k, r).1.Err?
    ensures var z := OpenLog(CloseLog(AppendLog(cfg, k, r).0), listing);
            SoundLog(z) && KeepsLogReads(k, z) && z.next == k.next + 1 && !Stuck(cfg, z)
  {
    OpenedIsRunning(cfg, d, bases, k);
    var now, t := RefusedAppend(cfg, k, [], 0, INITIAL_BYTES, r);
    assert [] + [t] == [t];
    StuckHasNoEntries(cfg, k);
    RestartEndsJam(cfg, now, [t], listing);
    forall o | ReadLog(k, o).Ok? ensures ReadLog(now, o) == ReadLog(k, o) {
    }
    KeepsLogReadsTransitive(k, now, OpenLog(CloseLog(AppendLog(cfg, k, r).0), listing));
  }

  // ----- Truncation of a jammed log -----

  /**
   Truncation at or below the next offset cannot succeed on a jammed log: it
   removes the shared files once and fails on them the second time.  The
   segments and the counter stay, the files are gone.
   */
  lemma JamTruncateFails(cfg: Config, core: LogState, extra: seq<Seg>, offset: nat)
    requires cfg.Sane() && Jam(cfg, core, extra) && extra != [] && offset <= core.next
    ensures TryTruncate(Whole(core, extra), offset) ==
            (Whole(core.(dir := DeleteFrom(core.dir, core.segs, offset)), extra), Some(core.next))
  {
    StuckHasNoEntries(cfg, core);
    SecondRemovalFails(core, extra[0], offset);
    FailureStays(core.dir, core.segs + [extra[0]], extra[1..], offset);
    assert core.segs + [extra[0]] + extra[1..] == core.segs + extra;
  }

  lemma SecondRemovalFails(core: LogState, t: Seg, offset: nat)
    requires SoundLog(core) && core.segs[core.active].base == core.next == t.base && offset <= core.next
    ensures RemoveFrom(core.dir, core.segs + [t], offset) ==
            (DeleteFrom(core.dir, core.segs, offset), Some(core.next))
  {
    HousedTruncates(core, offset);
    RemoveIsDelete(core.dir, core.segs, offset);
    GoneFiles(core, offset);
    assert (core.segs + [t])[..|core.segs|] == core.segs;
  }

  lemma GoneFiles(core: LogState, offset: nat)
    requires SoundLog(core) && core.segs[core.active].base == core.next && offset <= core.next
    ensures LogName(core.next) !in DeleteFrom(core.dir, core.segs, offset)
    ensures IdxName(core.next) !in DeleteFrom(core.dir, core.segs, offset)
  {
    DeletedNames(core.dir, core.segs, offset, LogName(core.next));
    DeletedNames(core.dir, core.segs, offset, IdxName(core.next));
  }

  /**
   The append after such a truncation starts a new segment at the next offset
   and returns it.  The record is read back exactly if no segment that a
   refused append opened came with padding entries (or, at offset 0, if what
   they read there happens to be the same record): any other is found first.
   */
  lemma JamTruncateAppend(cfg: Config, core: LogState, extra: seq<Seg>, offset: nat, r: Record, l: LogState)
    requires cfg.Sane() && Jam(cfg, core, extra) && extra != [] && offset <= core.next
    requires l == TryTruncate(Whole(core, extra), offset).0 && CanAppendLog(cfg, l, r)
    ensures var (m, reply) := AppendLog(cfg, l, r);
            && reply == Ok(core.next)
            && (ReadLog(m, core.next) == Ok(r) <==>
                  || (forall i :: 0 <= i < |extra| ==> extra[i].entries == [])
                  || (core.next == 0 && ReadLog(Whole(core, extra), 0) == Ok(r)))
  {
    JamTruncateFails(cfg, core, extra, offset);
    GoneFiles(core, offset);
    AppendOverGone(cfg, core, extra, l, r);
    ShadowedNext(cfg, core, extra, AppendSeg(Seg(core.next, core.next, [], []), r), AppendLog(cfg, l, r).0, r);
  }

  lemma AppendOverGone(cfg: Config, core: LogState, extra: seq<Seg>, l: LogState, r: Record)
    requires cfg.Sane() && Jam(cfg, core, extra) && extra != [] && CanAppendLog(cfg, l, r)
    requires l == Whole(core, extra).(dir := l.dir) && LogName(core.next) !in l.dir && IdxName(core.next) !in l.dir
    ensures Room(Seg(core.next, core.next, [], []), r) && AppendLog(cfg, l, r).1 == Ok(core.next)
    ensures AppendLog(cfg, l, r).0.segs == core.segs + extra + [AppendSeg(Seg(core.next, core.next, [], []), r)]
  {
    ActiveOfWhole(cfg, core, extra);
    FreshSegment(l.dir, core.next);
    RotatedAppend(cfg, l, Seg(core.next, core.next, [], []), r);
  }

  lemma ShadowedNext(cfg: Config, core: LogState, extra: seq<Seg>, added: Seg, m: LogState, r: Record)
    requires cfg.Sane() && Jam(cfg, core, extra) && extra != [] && Room(Seg(core.next, core.next, [], []), r)
    requires added == AppendSeg(Seg(core.next, core.next, [], []), r) && m.segs == core.segs + extra + [added]
    ensures ReadLog(m, core.next) == Ok(r) <==>
              || (forall i :: 0 <= i < |extra| ==> extra[i].entries == [])
              || (core.next == 0 && ReadLog(Whole(core, extra), 0) == Ok(r))
  {
    var o := core.next;
    AppendReadsBack(Seg(o, o, [], []), r);
    TiledBounds(core.segs, o);
    FindBehind(core.segs, extra, o);
    if Find(core.segs + extra, o).Some? {
      FindInFront(core.segs + extra, [added], o);
    } else {
      FindBehind(core.segs + extra, [added], o);
    }
    ExtraContains(core, extra, o);
    WholeReads(cfg, core, extra, o);
  }

  lemma ExtraContains(core: LogState, extra: seq<Seg>, o: nat)
    requires core.active < |core.segs| && o == core.segs[core.active].base
    requires forall i :: 0 <= i < |extra| ==> Again(core.segs[core.active], extra[i])
    ensures Find(extra, o) == None <==> forall i :: 0 <= i < |extra| ==> extra[i].entries == []
  {
    forall i | 0 <= i < |extra| ensures Contains(extra[i], o) <==> extra[i].entries != [] {
      HighestOfPadding(extra[i].base, |extra[i].entries|);
    }
  }
}
