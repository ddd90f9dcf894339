/** Crashes of the whole log, and safety over runs that mix appends, failures, crashes and restarts. */
module CrashSafety {
  import opened Bytes
  import opened Results
  import opened Framing
  import opened Entries
  import opened SegmentModel
  import opened AppendProtocol
  import opened Names
  import opened Listing
  import opened LogModel
  import opened SoundLogs
  import opened Truncation

  // ----- What a crash leaves in the directory -----

  /** The files of one segment after a crash; anything may stand behind the store's records. */
  predicate CrashImage(s: Seg, d: Dir) {
    s.data <= FileOf(d, LogName(s.base)) && Padded(FileOf(d, IdxName(s.base)), s.entries)
  }

  /** Any bytes at all may stand behind the records, and any number of zeros behind the entries, and nothing else. */
  lemma CrashImageIff(s: Seg, d: Dir)
    ensures CrashImage(s, d) <==>
              && (exists tail :: FileOf(d, LogName(s.base)) == s.data + tail)
              && (exists n: nat :: FileOf(d, IdxName(s.base)) == IndexFile(s) + Zeros(n))
  {
    var log, idx := FileOf(d, LogName(s.base)), FileOf(d, IdxName(s.base));
    if s.data <= log { PrefixSplit(s.data, log); }
    if n: nat :| idx == IndexFile(s) + Zeros(n) {
      assert |idx| - 16 * |s.entries| == n;
    }
  }

  predicate CrashImages(segs: seq<Seg>, d: Dir) {
    forall i {:trigger CrashImage(segs[i], d)} :: 0 <= i < |segs| ==> CrashImage(segs[i], d)
  }

  /** All store files are there; the index file of a segment that was being created may be missing. */
  ghost predicate CrashNames(names: set<string>, bases: seq<nat>) {
    && Canonical(names)
    && (forall b: U64 {:trigger LogName(b)} :: LogName(b) in names <==> b in bases)
    && (forall b: U64 {:trigger IdxName(b)} :: IdxName(b) in names ==> b in bases)
  }

  /**
   A directory a crash of `l` can leave.  A missing index file reads as
   empty, and CrashImage allows that only for a segment without entries.
   */
  ghost predicate CrashDir(l: LogState, d: Dir) {
    CrashNames(d.Keys, BaseSeq(l.segs)) && CrashImages(l.segs, d)
  }

  /** Whether recovery will take padding for the entry of an offset that was never written. */
  predicate PaddedEmpty(l: LogState, d: Dir)
    requires l.active < |l.segs|
  {
    l.segs[l.active].entries == [] && |FileOf(d, IdxName(l.segs[l.active].base))| >= 16
  }

  lemma PrefixSplit<T>(a: seq<T>, b: seq<T>)
    requires a <= b
    ensures b == a + b[|a|..]
  {
  }

  lemma CrashImageOpen(s: Seg, d: Dir, t: Seg)
    requires Sound(s) && CrashImage(s, d) && t == OpenAt(d, s.base)
    ensures Sound(t) && t.base == s.base && KeepsReads(s, t)
    ensures t.next == if s.entries == [] && |FileOf(d, IdxName(s.base))| >= 16 then s.next + 1 else s.next
  {
    var log, idx := FileOf(d, LogName(s.base)), FileOf(d, IdxName(s.base));
    PrefixSplit(s.data, log);
    CrashOpen(s, log[|s.data|..], |idx| - 16 * |s.entries|, t);
  }

  /** How much padding a crashed index file was taken to hold. */
  lemma CrashImageEntries(s: Seg, d: Dir, t: Seg) returns (n: nat)
    requires Sound(s) && CrashImage(s, d) && t == OpenAt(d, s.base)
    ensures t.base == s.base && KeepsReads(s, t) && t.entries == s.entries + seq(n, i => ZERO_ENTRY)
    ensures t.next == if s.entries == [] && n > 0 then s.base + 1 else s.next
  {
    var log, idx := FileOf(d, LogName(s.base)), FileOf(d, IdxName(s.base));
    var k := |idx| - 16 * |s.entries|;
    n := k / 16;
    PrefixSplit(s.data, log);
    CrashOpen(s, log[|s.data|..], k, t);
  }

  lemma CreatedNames(d: Dir, bases: seq<nat>, base: U64)
    requires CrashNames(d.Keys, bases) && base in bases
    ensures CrashNames(Created(d, base).Keys, bases)
    ensures IdxName(base) in Created(d, base) && d.Keys <= Created(d, base).Keys
  {
    var names := Created(d, base).Keys;
    assert names == d.Keys + {IdxName(base)};
    NameRoundTrip(base);
    forall b: U64
      ensures LogName(b) != IdxName(base) && (IdxName(b) == IdxName(base) <==> b == base)
    {
      NamesDistinct(b, base);
    }
  }

  lemma {:induction false} CreateAllNames(d: Dir, done: seq<nat>, bases: seq<nat>)
    requires CrashNames(d.Keys, bases)
    requires forall b :: b in done ==> b in bases && b < LIMIT64
    ensures CrashNames(CreateAll(d, done).Keys, bases)
    ensures forall b {:trigger IdxName(b)} :: b in done ==> IdxName(b) in CreateAll(d, done)
  {
    if done != [] {
      var init, last := done[..|done| - 1], done[|done| - 1];
      assert done == init + [last] && last in done;
      assert forall b :: b in init ==> b in done;
      CreateAllNames(d, init, bases);
      CreatedNames(CreateAll(d, init), bases, last);
    }
  }

  /** Opening creates the index files that were missing, and the directory agrees with the segments again. */
  lemma RecoveredAgrees(d: Dir, bases: seq<nat>)
    requires CrashNames(d.Keys, bases)
    requires forall i :: 0 <= i < |bases| ==> bases[i] < LIMIT64
    ensures Agree(CreateAll(d, bases).Keys, bases)
  {
    CreateAllNames(d, bases, bases);
  }

  /** Segments with the same bases whose inner counters did not move tile the same way. */
  lemma TiledAlike(segs: seq<Seg>, t: seq<Seg>)
    requires Tiled(segs) && |t| == |segs|
    requires forall i :: 0 <= i < |segs| ==> t[i].base == segs[i].base
    requires forall i :: 0 <= i < |segs| - 1 ==> t[i].next == segs[i].next
    requires t[|segs| - 1].base <= t[|segs| - 1].next
    ensures Tiled(t) && BaseSeq(t) == BaseSeq(segs)
  {
    forall i | 0 <= i < |t| - 1 ensures JoinedAt(t, i) {
      assert JoinedAt(segs, i);
    }
  }

  /** One segment of a crashed log, opened: an inner segment comes back with its range. */
  lemma RecoveredOne(l: LogState, d: Dir, i: nat, t: Seg)
    requires Consistent(l) && i < |l.segs| && CrashImage(l.segs[i], d)
    requires t == OpenAt(d, l.segs[i].base)
    ensures Sound(t) && KeepsReads(l.segs[i], t)
    ensures t.base == l.segs[i].base <= t.next
    ensures i < l.active ==> t.next == l.segs[i].next
    ensures i == l.active ==> t.next == if PaddedEmpty(l, d) then l.next + 1 else l.next
  {
    CrashImageOpen(l.segs[i], d, t);
    SoundBelowNext(l.segs[i]);
    assert i < l.active ==> JoinedAt(l.segs, i);
  }

  /** Opening each segment from its files keeps the tiling; only the last may move its counter. */
  lemma RecoveredTiled(l: LogState, d: Dir, t: seq<Seg>)
    requires Consistent(l) && CrashImages(l.segs, d)
    requires |t| == |l.segs| && forall i :: 0 <= i < |t| ==> t[i] == OpenAt(d, l.segs[i].base)
    ensures Tiled(t) && BaseSeq(t) == BaseSeq(l.segs)
  {
    forall i | 0 <= i < |t|
      ensures t[i].base == l.segs[i].base <= t[i].next
      ensures i < l.active ==> t[i].next == l.segs[i].next
    {
      assert CrashImage(l.segs[i], d);
      RecoveredOne(l, d, i, t[i]);
    }
    TiledAlike(l.segs, t);
  }

  lemma RecoveredConsistent(l: LogState, d: Dir, k: LogState)
    requires Consistent(l) && l.next < MAX_OFFSET && CrashImages(l.segs, d)
    requires k == OpenBases(d, BaseSeq(l.segs))
    ensures Consistent(k) && KeepsLogReads(l, k) && BaseSeq(k.segs) == BaseSeq(l.segs)
    ensures k.next == if PaddedEmpty(l, d) then l.next + 1 else l.next
  {
    OpensEach(l, d);
    RecoveredTiled(l, d, k.segs);
    forall i | 0 <= i < |k.segs|
      ensures Sound(k.segs[i]) && KeepsReads(l.segs[i], k.segs[i])
    {
      assert CrashImage(l.segs[i], d);
      RecoveredOne(l, d, i, k.segs[i]);
    }
    assert CrashImage(l.segs[l.active], d);
    RecoveredOne(l, d, l.active, k.segs[l.active]);
    ReadsPointwise(l, k);
  }

  lemma CrashLoads(l: LogState, d: Dir, listing: seq<string>)
    requires Consistent(l) && CrashNames(d.Keys, BaseSeq(l.segs)) && Lists(listing, d.Keys)
    ensures OpenLog(d, listing) == OpenBases(d, BaseSeq(l.segs))
  {
    SoundBases(l);
    TiledAscending(l.segs);
    LoadOrder(listing, d.Keys, BaseSeq(l.segs));
  }

  lemma RecoveredSound(l: LogState, d: Dir, k: LogState)
    requires Consistent(l) && l.next < MAX_OFFSET && CrashDir(l, d)
    requires k == OpenBases(d, BaseSeq(l.segs))
    ensures SoundLog(k) && KeepsLogReads(l, k) && BaseSeq(k.segs) == BaseSeq(l.segs)
    ensures k.next == if PaddedEmpty(l, d) then l.next + 1 else l.next
  {
    RecoveredConsistent(l, d, k);
    assert Agree(k.dir.Keys, BaseSeq(l.segs)) by {
      SoundBases(l);
      RecoveredAgrees(d, BaseSeq(l.segs));
    }
  }

  /**
   Recovery after a crash: opening any directory the crash can leave, listed
   in any order, gives a consistent log with the same segments in which every
   offset that was readable still reads the same record.  The next offset is
   the old one, plus one exactly when the active segment had no entry but
   its index file was padded.
   */
  lemma CrashOpenLog(l: LogState, d: Dir, listing: seq<string>)
    requires SoundLog(l) && l.next < MAX_OFFSET
    requires CrashDir(l, d) && Lists(listing, d.Keys)
    ensures SoundLog(OpenLog(d, listing)) && KeepsLogReads(l, OpenLog(d, listing))
    ensures BaseSeq(OpenLog(d, listing).segs) == BaseSeq(l.segs)
    ensures OpenLog(d, listing).next == if PaddedEmpty(l, d) then l.next + 1 else l.next
  {
    CrashLoads(l, d, listing);
    RecoveredSound(l, d, OpenLog(d, listing));
  }

  /**
   When opening a directory leaves an active segment that can neither take a
   record nor be rotated: its index file holds no entry, not even padding,
   and its store file already passes the size limit.
   */
  lemma StuckIff(cfg: Config, d: Dir, bases: seq<nat>)
    requires cfg.Sane() && bases != [] && Ascending(bases)
    requires forall i :: 0 <= i < |bases| ==> bases[i] < LIMIT64
    ensures var k := OpenBases(d, bases); var base := bases[|bases| - 1];
            && k.active < |k.segs|
            && (Stuck(cfg, k) <==>
                |FileOf(d, IdxName(base))| < 16 && ScanEnd(FileOf(d, LogName(base))) >= cfg.maxStoreBytes)
  {
    var s := OpenAt(d, bases[|bases| - 1]);
    OpenAllEach(d, bases);
    HighestIsMax(s.base, s.entries);
  }

  /** A log whose active segment was just created: by rotation, by the first opening, or by emptying the log. */
  ghost predicate JustCreated(l: LogState) {
    SoundLog(l) && l.segs[l.active] == Seg(l.next, l.next, [], [])
  }

  lemma EveryCreation(l: LogState, offset: nat)
    requires SoundLog(l)
    ensures JustCreated(OpenLog(map[], []))
    ensures l.segs[l.active].base < l.next ==> JustCreated(RotateLog(l))
    ensures offset <= BaseOf(l) ==> JustCreated(TruncateLog(l, offset))
  {
    EmptyLog();
    if l.segs[l.active].base < l.next { RotateKeepsSound(l); }
    if offset <= BaseOf(l) {
      SoundBases(l);
      TruncateSoundIff(l, offset);
      TruncateToNothing(l, offset);
    }
  }

  /**
   Creating a segment creates its store file, and pre-sizes it with `n` zero
   bytes, before the index file.  A crash between the two leaves a log that
   comes back stuck exactly when those bytes already fill a segment; the
   source pre-sizes with 1 MiB, so any limit up to 1 MiB is affected.
   */
  lemma CrashBetweenFilesStuckIff(cfg: Config, l: LogState, d: Dir, listing: seq<string>, n: nat)
    requires cfg.Sane() && JustCreated(l)
    requires CrashDir(l, d) && Lists(listing, d.Keys)
    requires FileOf(d, LogName(l.next)) == Zeros(n) && IdxName(l.next) !in d
    ensures OpenLog(d, listing).active < |OpenLog(d, listing).segs|
    ensures Stuck(cfg, OpenLog(d, listing)) <==> cfg.maxStoreBytes <= 8 * (n / 8)
  {
    var bases := BaseSeq(l.segs);
    CrashLoads(l, d, listing);
    assert bases[|bases| - 1] == l.next;
    TiledAscending(l.segs);
    SoundBases(l);
    StuckIff(cfg, d, bases);
    ParseZeros(n);
  }

  // ----- A stuck log refuses every append -----

  /**
   The active segment starts at the next offset, its store has reached the
   limit, and the directory holds the bytes of that store.
   */
  predicate Jammed(cfg: Config, l: LogState) {
    && l.active < |l.segs| && l.next <= MAX_OFFSET
    && var s := l.segs[l.active];
    && s.base == l.next && |s.data| >= cfg.maxStoreBytes && Framed(s.data)
    && FileOf(l.dir, LogName(l.next)) == s.data
  }

  /** Rotating a jammed log opens the same files again, is refused again, and leaves the log jammed. */
  lemma JammedRefuses(cfg: Config, l: LogState, r: Record)
    requires cfg.Sane() && Jammed(cfg, l) && CanAppendLog(cfg, l, r)
    ensures var (m, reply) := AppendLog(cfg, l, r);
            Jammed(cfg, m) && reply == Err(SegmentFull(l.next, cfg.maxStoreBytes, |l.segs[l.active].data|))
  {
    var s := l.segs[l.active];
    assert s.data + [] == s.data;
    SameFilesFullAgain(cfg, s, [], FileOf(l.dir, IdxName(l.next)));
    NamesDistinct(l.next, l.next);
  }

  predicate CanAppendAll(cfg: Config, l: LogState, rs: seq<Record>)
    decreases |rs|
  {
    rs == [] || (CanAppendLog(cfg, l, rs[0]) && CanAppendAll(cfg, AppendLog(cfg, l, rs[0]).0, rs[1..]))
  }

  /** The replies to a series of appends. */
  function Replies(cfg: Config, l: LogState, rs: seq<Record>): (replies: seq<Result<nat>>)
    requires CanAppendAll(cfg, l, rs)
    ensures |replies| == |rs|
    decreases |rs|
  {
    if rs == [] then []
    else [AppendLog(cfg, l, rs[0]).1] + Replies(cfg, AppendLog(cfg, l, rs[0]).0, rs[1..])
  }

  lemma {:induction false} JammedForEver(cfg: Config, l: LogState, rs: seq<Record>)
    requires cfg.Sane() && Jammed(cfg, l) && CanAppendAll(cfg, l, rs)
    ensures forall i :: 0 <= i < |rs| ==> Replies(cfg, l, rs)[i].Err?
    decreases |rs|
  {
    if rs != [] {
      JammedRefuses(cfg, l, rs[0]);
      JammedForEver(cfg, AppendLog(cfg, l, rs[0]).0, rs[1..]);
    }
  }

  lemma StuckIsJammed(cfg: Config, d: Dir, bases: seq<nat>, k: LogState)
    requires cfg.Sane() && bases != [] && k == OpenBases(d, bases) && SoundLog(k) && Stuck(cfg, k)
    ensures Jammed(cfg, k)
  {
    var n := |bases| - 1;
    SoundBases(k);
    TiledAscending(k.segs);
    assert BaseSeq(k.segs) == bases;
    OthersUntouched(d, bases[..n], bases[n]);
    NamesDistinct(bases[n], bases[n]);
    StuckIff(cfg, d, bases);
  }

  /** An append on a recovered log succeeds exactly when the log is not stuck. */
  lemma StuckRefuses(cfg: Config, d: Dir, bases: seq<nat>, k: LogState, r: Record)
    requires cfg.Sane() && bases != [] && k == OpenBases(d, bases) && SoundLog(k) && CanAppendLog(cfg, k, r)
    ensures AppendLog(cfg, k, r).1.Ok? <==> !Stuck(cfg, k)
  {
    if Stuck(cfg, k) {
      StuckIsJammed(cfg, d, bases, k);
      JammedRefuses(cfg, k, r);
    } else if Full(cfg, k.segs[k.active]) {
      RotateKeepsSound(k);
    }
  }

  /** A log that comes back stuck refuses every append, however many are tried. */
  lemma StuckForEver(cfg: Config, d: Dir, bases: seq<nat>, k: LogState, rs: seq<Record>)
    requires cfg.Sane() && bases != [] && k == OpenBases(d, bases) && SoundLog(k) && Stuck(cfg, k)
    requires CanAppendAll(cfg, k, rs)
    ensures forall i :: 0 <= i < |rs| ==> Replies(cfg, k, rs)[i].Err?
  {
    StuckIsJammed(cfg, d, bases, k);
    JammedForEver(cfg, k, rs);
  }

  // ----- Crashes inside an append -----

  /** A crash at micro-step `m` of an append that goes to the active segment of `l`. */
  ghost predicate CrashInAppend(l: LogState, m: Micro, d: Dir)
    requires l.active < |l.segs|
  {
    var s := l.segs[l.active];
    && CrashNames(d.Keys, BaseSeq(l.segs))
    && m.size <= |m.mapping|
    && CrashFiles(s, m, FileOf(d, LogName(s.base)), FileOf(d, IdxName(s.base)))
    && forall i :: 0 <= i < |l.segs| && i != l.active ==> CrashImage(l.segs[i], d)
  }

  /** Such a crash looks like a crash before the append, or after it once the entry is written. */
  lemma CrashInAppendIsCrash(l: LogState, r: Record, ms: seq<Micro>, d: Dir)
    requires Consistent(l) && Room(l.segs[l.active], r)
    requires Run(l.segs[l.active], r, ms) && CrashInAppend(l, ms[|ms| - 1], d)
    ensures CrashNames(d.Keys, BaseSeq(l.segs))
    ensures !EntryDurable(ms[|ms| - 1]) ==> CrashImages(l.segs, d)
    ensures EntryDurable(ms[|ms| - 1]) ==> CrashImages(l.segs[l.active := AppendSeg(l.segs[l.active], r)], d)
  {
    var s, m := l.segs[l.active], ms[|ms| - 1];
    RunKeepsInv(s, r, ms);
    assert EntryDurable(m) ==> CrashImage(AppendSeg(s, r), d);
    assert !EntryDurable(m) ==> CrashImage(s, d);
  }

  // ----- Crashes after an index entry could not be flushed -----

  /** The segment with an entry that is in the index file although its append failed. */
  function WithEntry(s: Seg, e: Entry): Seg {
    s.(next := s.next + 1, entries := s.entries + [e])
  }

  /**
   An index write that failed because the flush failed has already copied its
   entry behind the others, in segment `i`.  After a crash that entry counts:
   the record whose append failed is read at the offset after the segment's
   last.  In the active segment the log is consistent with it.  In a segment
   that was rotated away the next segment starts at that offset, so the log
   is not, and the failed record hides the one that is acknowledged there.
   */
  lemma FailedFlushIff(l: LogState, i: nat, e: Entry, r: Record, d: Dir, listing: seq<string>)
    requires SoundLog(l) && l.next + 1 < MAX_OFFSET && i < |l.segs|
    requires e.offset == l.segs[i].next && ReadAt(l.segs[i].data, e.position) == Ok(r)
    requires CrashNames(d.Keys, BaseSeq(l.segs)) && Lists(listing, d.Keys)
    requires CrashImages(l.segs[i := WithEntry(l.segs[i], e)], d)
    ensures SoundLog(OpenLog(d, listing)) <==> i == l.active
    ensures ReadLog(OpenLog(d, listing), l.segs[i].next) == Ok(r)
  {
    var s, k := l.segs[i], OpenLog(d, listing);
    CrashLoads(l, d, listing);
    WithEntryReads(s, e, r);
    if i == l.active {
      FlushedActive(l, e, d, listing);
    } else {
      FlushedInner(l, i, e, d, k);
    }
  }

  lemma WithEntryReads(s: Seg, e: Entry, r: Record)
    requires Sound(s) && e.offset == s.next && ReadAt(s.data, e.position) == Ok(r)
    ensures Sound(WithEntry(s, e)) && ReadSeg(WithEntry(s, e), s.next) == Ok(r)
  {
    SoundBelowNext(s);
    NextOfSnoc(s.base, s.entries, e.position);
    LookupIsFirst(s.entries, s.next);
    LookupConcat(s.entries, [e], s.next);
  }

  lemma FlushedActive(l: LogState, e: Entry, d: Dir, listing: seq<string>)
    requires SoundLog(l) && l.next + 1 < MAX_OFFSET && Sound(WithEntry(l.segs[l.active], e))
    requires CrashNames(d.Keys, BaseSeq(l.segs)) && Lists(listing, d.Keys)
    requires CrashImages(l.segs[l.active := WithEntry(l.segs[l.active], e)], d)
    ensures SoundLog(OpenLog(d, listing))
    ensures var marked := WithEntry(l.segs[l.active], e);
            ReadSeg(marked, l.next).Ok? ==> ReadLog(OpenLog(d, listing), l.next) == ReadSeg(marked, l.next)
  {
    var marked := WithEntry(l.segs[l.active], e);
    var m := l.(segs := l.segs[l.active := marked], next := l.next + 1);
    TiledUpdateLast(l.segs, marked);
    CrashOpenLog(m, d, listing);
    if ReadSeg(marked, l.next).Ok? {
      FindExact(m.segs, l.next, l.active);
      assert ReadLog(m, l.next).Ok?;
    }
  }

  lemma FlushedInner(l: LogState, i: nat, e: Entry, d: Dir, k: LogState)
    requires SoundLog(l) && i < l.active && k == OpenBases(d, BaseSeq(l.segs))
    requires CrashImages(l.segs[i := WithEntry(l.segs[i], e)], d)
    requires Sound(WithEntry(l.segs[i], e)) && ReadSeg(WithEntry(l.segs[i], e), l.segs[i].next).Ok?
    ensures !Tiled(k.segs)
    ensures ReadLog(k, l.segs[i].next) == ReadSeg(WithEntry(l.segs[i], e), l.segs[i].next)
  {
    var s, marked := l.segs[i], WithEntry(l.segs[i], e);
    OpensEach(l, d);
    assert CrashImage(l.segs[i := marked][i], d);
    CrashImageOpen(marked, d, k.segs[i]);
    assert JoinedAt(l.segs, i);
    assert k.segs[i + 1].base == s.next;
    assert !JoinedAt(k.segs, i);
    forall j | 0 <= j < i ensures !Contains(k.segs[j], s.next) {
      assert CrashImage(l.segs[i := marked][j], d);
      InnerEndsBelow(l, d, j, i, k.segs[j]);
    }
    FoundFirst(k, i, s.next, marked);
  }

  lemma InnerEndsBelow(l: LogState, d: Dir, j: nat, i: nat, t: Seg)
    requires Consistent(l) && j < i <= l.active && CrashImage(l.segs[j], d) && t == OpenAt(d, l.segs[j].base)
    ensures t.next <= l.segs[i].base <= l.segs[i].next
  {
    RecoveredOne(l, d, j, t);
    TiledOrder(l.segs, j, i);
    SoundBelowNext(l.segs[i]);
  }

  lemma FoundFirst(k: LogState, i: nat, o: nat, marked: Seg)
    requires i < |k.segs| && KeepsReads(marked, k.segs[i]) && ReadSeg(marked, o).Ok?
    requires forall j :: 0 <= j < i ==> !Contains(k.segs[j], o)
    ensures ReadLog(k, o) == ReadSeg(marked, o)
  {
    assert ReadSeg(k.segs[i], o).Ok?;
  }
}
