/** What appends, rotation, closing, reopening and crashing do to a log in any reachable state. */
module SoundLogs {
  import opened Bytes
  import opened Results
  import opened Framing
  import opened Entries
  import opened SegmentModel
  import opened Names
  import opened Listing
  import opened LogModel

  /** Every offset that `l` can read, `k` reads with the same record. */
  ghost predicate KeepsLogReads(l: LogState, k: LogState) {
    forall o :: ReadLog(l, o).Ok? ==> ReadLog(k, o) == ReadLog(l, o)
  }

  lemma KeepsLogReadsTransitive(l: LogState, k: LogState, m: LogState)
    requires KeepsLogReads(l, k) && KeepsLogReads(k, m)
    ensures KeepsLogReads(l, m)
  {
    forall o | ReadLog(l, o).Ok? ensures ReadLog(m, o) == ReadLog(l, o) {
      assert ReadLog(k, o) == ReadLog(l, o);
    }
  }

  /** Reads survive segment by segment. */
  lemma ReadsPointwise(l: LogState, k: LogState)
    requires Tiled(k.segs) && |l.segs| <= |k.segs|
    requires forall i :: 0 <= i < |l.segs| ==> KeepsReads(l.segs[i], k.segs[i])
    ensures KeepsLogReads(l, k)
  {
    forall o | ReadLog(l, o).Ok? ensures ReadLog(k, o) == ReadLog(l, o) {
      var i := Find(l.segs, o).value;
      assert KeepsReads(l.segs[i], k.segs[i]);
      assert ReadSeg(l.segs[i], o).Ok?;
      FindExact(k.segs, o, i);
    }
  }

  /** `Log::new` on an empty directory. */
  lemma EmptyLog()
    ensures SoundLog(OpenLog(map[], []))
    ensures OpenLog(map[], []).segs == [Seg(0, 0, [], [])]
  {
    var d: Dir := map[];
    FreshSegment(d, 0);
    CreatedAgree(d, [], 0);
    assert BaseSeq([OpenAt(d, 0)]) == [] + [0];
  }

  // ----- Appending -----

  lemma TiledUpdateLast(segs: seq<Seg>, s: Seg)
    requires Tiled(segs)
    requires s.base == segs[|segs| - 1].base && s.base <= s.next
    ensures Tiled(segs[|segs| - 1 := s]) && BaseSeq(segs[|segs| - 1 := s]) == BaseSeq(segs)
  {
    var t := segs[|segs| - 1 := s];
    forall i | 0 <= i < |t| - 1 ensures JoinedAt(t, i) {
      assert JoinedAt(segs, i);
    }
  }

  lemma TiledSnoc(segs: seq<Seg>, s: Seg)
    requires Tiled(segs)
    requires segs[|segs| - 1].base < segs[|segs| - 1].next == s.base <= s.next
    ensures Tiled(segs + [s]) && BaseSeq(segs + [s]) == BaseSeq(segs) + [s.base]
  {
    var t := segs + [s];
    forall i | 0 <= i < |t| - 1 ensures JoinedAt(t, i) {
      if i < |segs| - 1 { assert JoinedAt(segs, i); }
    }
  }

  /** No file of the next segment exists before it is created. */
  lemma NextIsFresh(l: LogState)
    requires Housed(l) && l.segs[l.active].base < l.next
    ensures LogName(l.next) !in l.dir && IdxName(l.next) !in l.dir
  {
    if l.next in BaseSeq(l.segs) {
      var i :| 0 <= i < |l.segs| && l.segs[i].base == l.next;
      if i < l.active { TiledOrder(l.segs, i, l.active); }
    }
  }

  /** Rotation away from a segment that holds something adds an empty segment. */
  lemma RotateHoused(l: LogState)
    requires Housed(l) && l.segs[l.active].base < l.next
    ensures Housed(RotateLog(l))
    ensures RotateLog(l).segs == l.segs + [Seg(l.next, l.next, [], [])]
    ensures RotateLog(l).segs == l.segs + [SegOf(l.next, [])]
  {
    NextIsFresh(l);
    FreshSegment(l.dir, l.next);
    TiledSnoc(l.segs, OpenAt(l.dir, l.next));
    CreatedAgree(l.dir, BaseSeq(l.segs), l.next);
  }

  /** Rotation changes no read. */
  lemma RotateKeepsSound(l: LogState)
    requires SoundLog(l) && l.segs[l.active].base < l.next
    ensures SoundLog(RotateLog(l)) && KeepsLogReads(l, RotateLog(l))
    ensures RotateLog(l).segs == l.segs + [Seg(l.next, l.next, [], [])]
  {
    RotateHoused(l);
    FreshSegment(map[], l.next);
    ReadsPointwise(l, RotateLog(l));
  }

  /**
   The active segment is full although it holds no offset.  Rotating it would
   open its own files a second time.
   */
  predicate Stuck(cfg: Config, l: LogState)
    requires l.active < |l.segs|
  {
    Full(cfg, l.segs[l.active]) && l.segs[l.active].base == l.segs[l.active].next
  }

  /** Whenever the log is not stuck, rotation starts a segment whose files no open segment uses. */
  lemma RotationIsSafe(cfg: Config, l: LogState)
    requires Shaped(l) && !Stuck(cfg, l) && Full(cfg, l.segs[l.active])
    ensures forall i :: 0 <= i < |l.segs| ==> l.segs[i].base != l.next
  {
    forall i | 0 <= i < |l.segs| ensures l.segs[i].base != l.next {
      if i < l.active { TiledOrder(l.segs, i, l.active); }
    }
  }

  /** Whatever is opened over the files of a segment whose store has reached its limit is full again. */
  lemma SameFilesFullAgain(cfg: Config, s: Seg, tail: seq<Byte>, idx: seq<Byte>)
    requires Framed(s.data) && |s.data| >= cfg.maxStoreBytes
    ensures Full(cfg, OpenSeg(s.base, s.data + tail, idx))
    ensures tail == [] ==> OpenSeg(s.base, s.data + tail, idx).data == s.data
  {
    FramedPrefixKept(s.data, tail);
    if tail == [] { assert s.data + tail == s.data && s.data[..|s.data|] == s.data; }
  }

  /** The directory holds the store bytes of the active segment, in case its files are opened again. */
  predicate Current(l: LogState)
    requires l.active < |l.segs|
  {
    l.segs[l.active].data <= FileOf(l.dir, LogName(l.segs[l.active].base))
  }

  /**
   `Log::append` on any sound log.  It succeeds exactly if the log is not
   stuck, and keeps every read in any case.  If it succeeds it returns the
   next offset, the record is read back there, and the segments still tile
   the offsets.
   */
  lemma AppendLogCorrect(cfg: Config, l: LogState, r: Record)
    requires cfg.Sane() && SoundLog(l) && RoomLog(l, r) && |r| <= MAX_RECORD
    requires Stuck(cfg, l) ==> Current(l) && CanAppendLog(cfg, l, r)
    ensures CanAppendLog(cfg, l, r)
    ensures AppendLog(cfg, l, r).1.Ok? <==> !Stuck(cfg, l)
    ensures KeepsLogReads(l, AppendLog(cfg, l, r).0)
    ensures !Stuck(cfg, l) ==>
              && AppendLog(cfg, l, r).1 == Ok(l.next)
              && SoundLog(AppendLog(cfg, l, r).0)
              && AppendLog(cfg, l, r).0.next == l.next + 1
              && ReadLog(AppendLog(cfg, l, r).0, l.next) == Ok(r)
  {
    if Stuck(cfg, l) {
      StuckAppend(cfg, l, r);
    } else {
      var k := BeforeAppend(cfg, l);
      BeforeAppendSound(cfg, l, r);
      AppendActiveCorrect(cfg, k, r);
      KeepsLogReadsTransitive(l, k, AppendActive(cfg, k, r).0);
    }
  }

  /** Rotating a stuck log opens the files of its active segment again, and what is opened is full again. */
  lemma StuckAppend(cfg: Config, l: LogState, r: Record)
    requires cfg.Sane() && SoundLog(l) && Stuck(cfg, l) && Current(l) && CanAppendLog(cfg, l, r)
    ensures AppendLog(cfg, l, r).1.Err?
    ensures KeepsLogReads(l, AppendLog(cfg, l, r).0)
  {
    var s, m := l.segs[l.active], AppendLog(cfg, l, r).0;
    var log := FileOf(l.dir, LogName(s.base));
    var t := OpenAt(l.dir, l.next);
    HighestIsMax(s.base, s.entries);
    assert log == s.data + log[|s.data|..];
    SameFilesFullAgain(cfg, s, log[|s.data|..], FileOf(l.dir, IdxName(s.base)));
    RotatedAppend(cfg, l, t, r);
    forall o | ReadLog(l, o).Ok? ensures ReadLog(m, o) == ReadLog(l, o) {
      FindInFront(l.segs, [t], o);
    }
  }

  lemma BeforeAppendSound(cfg: Config, l: LogState, r: Record)
    requires cfg.Sane() && SoundLog(l) && !Stuck(cfg, l)
    ensures var k := BeforeAppend(cfg, l);
            && SoundLog(k) && KeepsLogReads(l, k) && k.next == l.next && !Full(cfg, k.segs[k.active])
            && (RoomLog(l, r) ==> RoomLog(k, r))
  {
    if Full(cfg, l.segs[l.active]) { RotateKeepsSound(l); }
  }

  lemma AppendActiveCorrect(cfg: Config, l: LogState, r: Record)
    requires SoundLog(l) && Room(l.segs[l.active], r) && |r| <= MAX_RECORD && !Full(cfg, l.segs[l.active])
    ensures AppendActive(cfg, l, r).1 == Ok(l.next) && AppendActive(cfg, l, r).0.next == l.next + 1
    ensures SoundLog(AppendActive(cfg, l, r).0)
    ensures ReadLog(AppendActive(cfg, l, r).0, l.next) == Ok(r)
    ensures KeepsLogReads(l, AppendActive(cfg, l, r).0)
  {
    var s, k := l.segs[l.active], AppendActive(cfg, l, r).0;
    SoundBelowNext(s);
    AppendKeepsSound(s, r);
    AppendReadsBack(s, r);
    TiledUpdateLast(l.segs, AppendSeg(s, r));
    ReadsPointwise(l, k);
    FindExact(k.segs, l.next, l.active);
  }

  /** An append whose index write failed after the store write leaves a sound log with the same reads. */
  lemma FailedAppendKeepsSound(l: LogState, r: Record)
    requires SoundLog(l) && |r| <= MAX_RECORD
    ensures SoundLog(l.(segs := l.segs[l.active := OrphanSeg(l.segs[l.active], r)]))
    ensures KeepsLogReads(l, l.(segs := l.segs[l.active := OrphanSeg(l.segs[l.active], r)]))
  {
    var s := l.segs[l.active];
    OrphanKeepsSound(s, r);
    TiledUpdateLast(l.segs, OrphanSeg(s, r));
    ReadsPointwise(l, l.(segs := l.segs[l.active := OrphanSeg(s, r)]));
  }

  // ----- Closing and reopening -----

  lemma {:induction false} ClosedKeys(d: Dir, segs: seq<Seg>)
    ensures CloseFiles(d, segs).Keys == d.Keys
  {
    if segs != [] { ClosedKeys(d, segs[..|segs| - 1]); }
  }

  lemma {:induction false} ClosedOthers(d: Dir, segs: seq<Seg>, name: string)
    requires forall i :: 0 <= i < |segs| ==> name != LogName(segs[i].base) && name != IdxName(segs[i].base)
    ensures name in CloseFiles(d, segs) <==> name in d
    ensures FileOf(CloseFiles(d, segs), name) == FileOf(d, name)
  {
    if segs != [] { ClosedOthers(d, segs[..|segs| - 1], name); }
  }

  lemma {:induction false} ClosedFiles(d: Dir, segs: seq<Seg>, i: nat)
    requires i < |segs| && Ascending(BaseSeq(segs))
    requires forall j :: 0 <= j < |segs| ==> segs[j].base < LIMIT64
    requires LogName(segs[i].base) in d && IdxName(segs[i].base) in d
    ensures FileOf(CloseFiles(d, segs), LogName(segs[i].base)) == segs[i].data
    ensures FileOf(CloseFiles(d, segs), IdxName(segs[i].base)) == IndexFile(segs[i])
  {
    var n := |segs| - 1;
    ClosedKeys(d, segs[..n]);
    if i < n {
      assert BaseSeq(segs[..n]) == BaseSeq(segs)[..n];
      ClosedFiles(d, segs[..n], i);
      assert BaseSeq(segs)[i] < BaseSeq(segs)[n];
      NamesDistinct(segs[i].base, segs[n].base);
    }
    NamesDistinct(segs[n].base, segs[i].base);
  }

  lemma {:induction false} CreateAllPresent(d: Dir, bases: seq<nat>)
    requires forall i :: 0 <= i < |bases| ==> LogName(bases[i]) in d && IdxName(bases[i]) in d
    ensures CreateAll(d, bases).Keys == d.Keys
  {
    if bases != [] { CreateAllPresent(d, bases[..|bases| - 1]); }
  }

  lemma FilesPresent(l: LogState)
    requires Housed(l)
    ensures forall i :: 0 <= i < |l.segs| ==> LogName(l.segs[i].base) in l.dir && IdxName(l.segs[i].base) in l.dir
  {
    SoundBases(l);
    forall i | 0 <= i < |l.segs|
      ensures LogName(l.segs[i].base) in l.dir && IdxName(l.segs[i].base) in l.dir
    {
      assert BaseSeq(l.segs)[i] in BaseSeq(l.segs);
    }
  }

  /** Every segment of a tiled log is opened from its own files. */
  lemma OpensEach(l: LogState, d: Dir)
    requires Tiled(l.segs) && l.segs[|l.segs| - 1].next <= MAX_OFFSET
    ensures forall i :: 0 <= i < |l.segs| ==> OpenAll(d, BaseSeq(l.segs))[i] == OpenAt(d, l.segs[i].base)
  {
    SoundBases(l);
    TiledAscending(l.segs);
    OpenAllEach(d, BaseSeq(l.segs));
    assert forall i :: 0 <= i < |l.segs| ==> BaseSeq(l.segs)[i] == l.segs[i].base;
  }

  lemma ClosedOpens(l: LogState)
    requires SoundLog(l)
    ensures OpenAll(CloseLog(l), BaseSeq(l.segs)) == l.segs
  {
    SoundBases(l);
    TiledAscending(l.segs);
    FilesPresent(l);
    OpensEach(l, CloseLog(l));
    forall i | 0 <= i < |l.segs| ensures OpenAll(CloseLog(l), BaseSeq(l.segs))[i] == l.segs[i] {
      ClosedOpensOne(l, i);
    }
  }

  lemma ClosedOpensOne(l: LogState, i: nat)
    requires SoundLog(l) && i < |l.segs|
    ensures OpenAt(CloseLog(l), l.segs[i].base) == l.segs[i]
  {
    SoundBases(l);
    TiledAscending(l.segs);
    FilesPresent(l);
    ClosedFiles(l.dir, l.segs, i);
    CloseOpenIdentity(l.segs[i]);
  }

  lemma ClosedNames(l: LogState)
    requires Housed(l)
    ensures CloseLog(l).Keys == l.dir.Keys && Reopened(l).Keys == l.dir.Keys
  {
    FilesPresent(l);
    ClosedKeys(l.dir, l.segs);
    CreateAllPresent(CloseLog(l), BaseSeq(l.segs));
  }

  /** The directory after the log was closed and opened again. */
  function Reopened(l: LogState): Dir {
    CreateAll(CloseLog(l), BaseSeq(l.segs))
  }

  /** Whatever the order of the listing, the segments of a closed log are found again, in order. */
  lemma ClosedLoads(l: LogState, listing: seq<string>)
    requires Housed(l) && Lists(listing, CloseLog(l).Keys)
    ensures OpenLog(CloseLog(l), listing) == OpenBases(CloseLog(l), BaseSeq(l.segs))
    ensures OpenLog(CloseLog(l), listing).dir == Reopened(l)
  {
    SoundBases(l);
    TiledAscending(l.segs);
    ClosedNames(l);
    LoadOrder(listing, CloseLog(l).Keys, BaseSeq(l.segs));
  }

  /**
   Closing a log and opening the directory again, with its entries listed in
   any order, gives back the same segments, active segment and counters.
   */
  lemma CloseOpenLog(l: LogState, listing: seq<string>)
    requires SoundLog(l) && Lists(listing, CloseLog(l).Keys)
    ensures OpenLog(CloseLog(l), listing) == l.(dir := Reopened(l))
    ensures SoundLog(OpenLog(CloseLog(l), listing))
  {
    ClosedNames(l);
    ClosedLoads(l, listing);
    ClosedOpens(l);
  }
}
