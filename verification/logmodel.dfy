/**
 The whole log as a value: its segments, which of them is active, the offset
 counter and the directory.  The Log class is proved against these functions.
 While a segment is open its bytes are in the segment; the directory holds
 what its files were when they were last opened or closed.
 */
module LogModel {
  import opened Bytes
  import opened Results
  import opened Framing
  import opened Entries
  import opened SegmentModel
  import opened Names
  import opened Listing

  type Dir = map<string, seq<Byte>>

  datatype LogState = LogState(segs: seq<Seg>, active: nat, next: nat, dir: Dir)

  function FileOf(d: Dir, name: string): seq<Byte> {
    if name in d then d[name] else []
  }

  function Touch(d: Dir, name: string): Dir {
    if name in d then d else d[name := []]
  }

  /** The directory after opening both files of a segment, which creates missing ones and pre-sizes empty ones. */
  function Created(d: Dir, base: nat): Dir {
    d[LogName(base) := OpenedStore(FileOf(d, LogName(base)))][IdxName(base) := OpenedIndex(FileOf(d, IdxName(base)))]
  }

  /** `create_segment`: open what the directory holds for `base`. */
  function OpenAt(d: Dir, base: nat): Seg {
    OpenSeg(base, FileOf(d, LogName(base)), FileOf(d, IdxName(base)))
  }

  /** Opening segments one after the other; the files of each are as the earlier ones left them. */
  function OpenAll(d: Dir, bases: seq<nat>): (segs: seq<Seg>)
    ensures |segs| == |bases| && forall i :: 0 <= i < |segs| ==> segs[i].base == bases[i]
  {
    if bases == [] then []
    else
      var init := bases[..|bases| - 1];
      OpenAll(d, init) + [OpenAt(CreateAll(d, init), bases[|bases| - 1])]
  }

  function CreateAll(d: Dir, bases: seq<nat>): Dir {
    if bases == [] then d else Created(CreateAll(d, bases[..|bases| - 1]), bases[|bases| - 1])
  }

  /** The log over the segments with the given bases; the last one is active. */
  function OpenBases(d: Dir, bases: seq<nat>): LogState
    requires bases != []
  {
    var segs := OpenAll(d, bases);
    LogState(segs, |segs| - 1, segs[|segs| - 1].next, CreateAll(d, bases))
  }

  /** `Log::new` on a directory, given the order in which its entries are listed. */
  function OpenLog(d: Dir, listing: seq<string>): LogState {
    var bases := Sort(ListedBases(listing));
    if bases == [] then LogState([OpenAt(d, 0)], 0, 0, Created(d, 0)) else OpenBases(d, bases)
  }

  /** What trimming an open file leaves in the directory; a file already removed from it stays removed. */
  function Trim(d: Dir, name: string, bytes: seq<Byte>): Dir {
    if name in d then d[name := bytes] else d
  }

  /** Dropping the segments one after the other: each trims its two files. */
  function CloseFiles(d: Dir, segs: seq<Seg>): Dir {
    if segs == [] then d
    else
      var s := segs[|segs| - 1];
      Trim(Trim(CloseFiles(d, segs[..|segs| - 1]), LogName(s.base), s.data), IdxName(s.base), IndexFile(s))
  }

  /** No store file is longer than a store may get. */
  ghost predicate SmallStores(d: Dir) {
    forall base: nat {:trigger LogName(base)} :: LogName(base) in d ==> |d[LogName(base)]| <= STORE_LIMIT
  }

  function CloseLog(l: LogState): Dir {
    CloseFiles(l.dir, l.segs)
  }

  function BaseOf(l: LogState): nat {
    if l.segs == [] then 0 else l.segs[0].base
  }

  /** First-match search for the segment that contains an offset. */
  function Find(segs: seq<Seg>, offset: nat): (i: Option<nat>)
    ensures i.Some? ==> i.value < |segs| && Contains(segs[i.value], offset)
    ensures i.Some? ==> forall j :: 0 <= j < i.value ==> !Contains(segs[j], offset)
    ensures i.None? ==> forall j :: 0 <= j < |segs| ==> !Contains(segs[j], offset)
  {
    if segs == [] then None
    else if Contains(segs[0], offset) then Some(0)
    else
      match Find(segs[1..], offset)
      case None => None
      case Some(i) => Some(i + 1)
  }

  function ReadLog(l: LogState, offset: nat): Result<Record> {
    match Find(l.segs, offset)
    case None => Err(OffsetNotFound(offset, BaseOf(l), l.next))
    case Some(i) => ReadSeg(l.segs[i], offset)
  }

  function RotateLog(l: LogState): LogState {
    LogState(l.segs + [OpenAt(l.dir, l.next)], |l.segs|, l.next, Created(l.dir, l.next))
  }

  /** Room for one more record, whichever segment it goes to. */
  predicate RoomLog(l: LogState, r: Record) {
    && l.active < |l.segs| && l.next < MAX_OFFSET && 8 + |r| <= STORE_LIMIT
    && Room(l.segs[l.active], r)
  }

  /** The segment an append writes to: the active one, or a new one when it is full. */
  function BeforeAppend(cfg: Config, l: LogState): LogState
    requires l.active < |l.segs|
  {
    if Full(cfg, l.segs[l.active]) then RotateLog(l) else l
  }

  /** An append to the active segment, which refuses only when that segment is full. */
  function AppendActive(cfg: Config, l: LogState, r: Record): (LogState, Result<nat>)
    requires l.active < |l.segs| && Room(l.segs[l.active], r)
  {
    var s := l.segs[l.active];
    if Full(cfg, s) then (l, Err(SegmentFull(s.base, cfg.maxStoreBytes, |s.data|)))
    else (l.(segs := l.segs[l.active := AppendSeg(s, r)], next := s.next + 1), Ok(s.next))
  }

  predicate CanAppendLog(cfg: Config, l: LogState, r: Record) {
    RoomLog(l, r) && RoomLog(BeforeAppend(cfg, l), r)
  }

  /** `Log::append`. */
  function AppendLog(cfg: Config, l: LogState, r: Record): (LogState, Result<nat>)
    requires CanAppendLog(cfg, l, r)
  {
    AppendActive(cfg, BeforeAppend(cfg, l), r)
  }

  /** An append that has to rotate first: what it does depends on the segment that is opened. */
  lemma RotatedAppend(cfg: Config, l: LogState, s: Seg, r: Record)
    requires CanAppendLog(cfg, l, r) && Full(cfg, l.segs[l.active]) && s == OpenAt(l.dir, l.next)
    ensures var (m, reply) := AppendLog(cfg, l, r);
            && Room(s, r)
            && reply == (if Full(cfg, s) then Err(SegmentFull(s.base, cfg.maxStoreBytes, |s.data|)) else Ok(s.next))
            && m.segs == l.segs + [if Full(cfg, s) then s else AppendSeg(s, r)]
            && (Full(cfg, s) ==> m == RotateLog(l))
  {
    assert RotateLog(l).segs[|l.segs|] == s;
    assert (l.segs + [s])[|l.segs| := AppendSeg(s, r)] == l.segs + [AppendSeg(s, r)];
  }

  /** The segments with a base below `offset`. */
  function Retain(segs: seq<Seg>, offset: nat): seq<Seg> {
    if segs == [] then []
    else
      var init := Retain(segs[..|segs| - 1], offset);
      if segs[|segs| - 1].base < offset then init + [segs[|segs| - 1]] else init
  }

  /** The directory without the files of the segments with a base at or above `offset`. */
  function DeleteFrom(d: Dir, segs: seq<Seg>, offset: nat): Dir {
    if segs == [] then d
    else
      var s := segs[|segs| - 1];
      var init := DeleteFrom(d, segs[..|segs| - 1], offset);
      if s.base >= offset then init - {LogName(s.base), IdxName(s.base)} else init
  }

  function TruncateLog(l: LogState, offset: nat): LogState {
    var kept, d := Retain(l.segs, offset), DeleteFrom(l.dir, l.segs, offset);
    if kept == [] then LogState([OpenAt(d, offset)], 0, offset, Created(d, offset))
    else LogState(kept, if l.active >= |kept| then |kept| - 1 else l.active, offset, d)
  }

  /** `cleanup_segment`: the store file is removed, then the index file; a missing one stops it. */
  function RemovePair(d: Dir, base: nat): (Dir, Option<nat>) {
    if LogName(base) !in d then (d, Some(base))
    else if IdxName(base) !in d then (d - {LogName(base)}, Some(base))
    else (d - {LogName(base), IdxName(base)}, None)
  }

  /** Removing the files of every segment at or above the offset, in order, up to the first failure. */
  function RemoveFrom(d: Dir, segs: seq<Seg>, offset: nat): (Dir, Option<nat>) {
    if segs == [] then (d, None)
    else
      var s := segs[|segs| - 1];
      var (e, failed) := RemoveFrom(d, segs[..|segs| - 1], offset);
      if failed.Some? || s.base < offset then (e, failed) else RemovePair(e, s.base)
  }

  /** `Log::truncate`: a file that cannot be removed leaves the segments and the counter as they were. */
  function TryTruncate(l: LogState, offset: nat): (LogState, Option<nat>) {
    var (d, failed) := RemoveFrom(l.dir, l.segs, offset);
    if failed.Some? then (l.(dir := d), failed) else (TruncateLog(l, offset), None)
  }

  lemma {:induction false} RemoveIsDelete(d: Dir, segs: seq<Seg>, offset: nat)
    ensures RemoveFrom(d, segs, offset).1 == None ==> RemoveFrom(d, segs, offset).0 == DeleteFrom(d, segs, offset)
  {
    if segs != [] { RemoveIsDelete(d, segs[..|segs| - 1], offset); }
  }

  /** What failed stays failed, however many segments follow. */
  lemma {:induction false} FailureStays(d: Dir, segs: seq<Seg>, more: seq<Seg>, offset: nat)
    requires RemoveFrom(d, segs, offset).1.Some?
    ensures RemoveFrom(d, segs + more, offset) == RemoveFrom(d, segs, offset)
  {
    if more == [] {
      assert segs + more == segs;
    } else {
      FailureStays(d, segs, more[..|more| - 1], offset);
      assert (segs + more)[..|segs + more| - 1] == segs + more[..|more| - 1];
    }
  }

  function TotalSize(segs: seq<Seg>): nat {
    if segs == [] then 0 else TotalSize(segs[..|segs| - 1]) + |segs[|segs| - 1].data|
  }

  // ----- Tiling -----

  predicate JoinedAt(segs: seq<Seg>, i: int) {
    && 0 <= i < |segs| - 1
    && segs[i].base < segs[i].next == segs[i + 1].base
  }

  /** The segments cover consecutive ranges of offsets; only the last may be empty. */
  predicate Tiled(segs: seq<Seg>) {
    && segs != []
    && (forall i :: 0 <= i < |segs| - 1 ==> JoinedAt(segs, i))
    && segs[|segs| - 1].base <= segs[|segs| - 1].next
  }

  function BaseSeq(segs: seq<Seg>): (bases: seq<nat>)
    ensures |bases| == |segs|
  {
    seq(|segs|, i requires 0 <= i < |segs| => segs[i].base)
  }

  lemma {:induction false} TiledOrder(segs: seq<Seg>, i: nat, j: nat)
    requires Tiled(segs) && i < j < |segs|
    ensures segs[i].base < segs[i].next <= segs[j].base
    decreases j
  {
    assert JoinedAt(segs, j - 1);
    if i < j - 1 { TiledOrder(segs, i, j - 1); }
  }

  /** Tiled segments have ascending bases, so no two share a file. */
  lemma TiledAscending(segs: seq<Seg>)
    requires Tiled(segs)
    ensures Ascending(BaseSeq(segs))
  {
    forall i, j | 0 <= i < j < |segs| ensures segs[i].base < segs[j].base {
      TiledOrder(segs, i, j);
    }
  }

  /** In tiled segments at most one contains an offset, and the first-match search finds it. */
  lemma FindExact(segs: seq<Seg>, offset: nat, i: nat)
    requires Tiled(segs) && i < |segs| && Contains(segs[i], offset)
    ensures Find(segs, offset) == Some(i)
    ensures forall j :: 0 <= j < |segs| && j != i ==> !Contains(segs[j], offset)
  {
    forall j | 0 <= j < |segs| && j != i ensures !Contains(segs[j], offset) {
      if j < i { TiledOrder(segs, j, i); } else { TiledOrder(segs, i, j); }
    }
  }

  /** Every offset between the first base and the last counter lies in some segment. */
  lemma {:induction false} TiledCovers(segs: seq<Seg>, offset: nat) returns (i: nat)
    requires Tiled(segs)
    requires segs[0].base <= offset < segs[|segs| - 1].next
    ensures i < |segs| && Contains(segs[i], offset)
    decreases |segs|
  {
    var n := |segs| - 1;
    if segs[n].base <= offset {
      i := n;
    } else {
      assert JoinedAt(segs, n - 1);
      assert forall k :: 0 <= k < n - 1 && JoinedAt(segs, k) ==> JoinedAt(segs[..n], k);
      i := TiledCovers(segs[..n], offset);
    }
  }

  /** Offsets outside the covered range lie in no segment. */
  lemma TiledBounds(segs: seq<Seg>, offset: nat)
    requires Tiled(segs)
    requires offset < segs[0].base || segs[|segs| - 1].next <= offset
    ensures Find(segs, offset) == None
  {
    forall j | 0 <= j < |segs| ensures !Contains(segs[j], offset) {
      if j > 0 { TiledOrder(segs, 0, j); }
      if j < |segs| - 1 { TiledOrder(segs, j, |segs| - 1); }
    }
  }

  lemma {:induction false} FindFirst(segs: seq<Seg>, offset: nat, k: nat)
    requires k < |segs| && Contains(segs[k], offset)
    requires forall j :: 0 <= j < k ==> !Contains(segs[j], offset)
    ensures Find(segs, offset) == Some(k)
  {
    if k > 0 { FindFirst(segs[1..], offset, k - 1); }
  }

  lemma FirstInFront(segs: seq<Seg>, more: seq<Seg>, p: nat, i: nat)
    requires i < |segs| && Contains(segs[i], p) && forall j :: 0 <= j < i ==> !Contains(segs[j], p)
    ensures Find(segs + more, p) == Some(i)
  {
    var all := segs + more;
    assert forall j :: 0 <= j <= i ==> all[j] == segs[j];
    FindFirst(all, p, i);
  }

  lemma FirstBehind(segs: seq<Seg>, more: seq<Seg>, p: nat, i: nat)
    requires forall j :: 0 <= j < |segs| ==> !Contains(segs[j], p)
    requires i < |more| && Contains(more[i], p) && forall j :: 0 <= j < i ==> !Contains(more[j], p)
    ensures Find(segs + more, p) == Some(|segs| + i)
  {
    var all := segs + more;
    forall j | 0 <= j < |segs| + i ensures !Contains(all[j], p) {
      assert all[j] == if j < |segs| then segs[j] else more[j - |segs|];
    }
    FindFirst(all, p, |segs| + i);
  }

  lemma InNeither(segs: seq<Seg>, more: seq<Seg>, p: nat)
    requires forall j :: 0 <= j < |segs| ==> !Contains(segs[j], p)
    requires forall j :: 0 <= j < |more| ==> !Contains(more[j], p)
    ensures Find(segs + more, p) == None
  {
    var all := segs + more;
    forall j | 0 <= j < |all| ensures !Contains(all[j], p) {
      assert all[j] == if j < |segs| then segs[j] else more[j - |segs|];
    }
    FindNowhere(all, p);
  }

  lemma FindNowhere(segs: seq<Seg>, p: nat)
    requires forall j :: 0 <= j < |segs| ==> !Contains(segs[j], p)
    ensures Find(segs, p) == None
  {
  }

  /** The first match is in the segments in front if any of them contains the offset. */
  lemma FindInFront(segs: seq<Seg>, more: seq<Seg>, p: nat)
    requires Find(segs, p).Some?
    ensures Find(segs + more, p) == Find(segs, p)
  {
    FirstInFront(segs, more, p, Find(segs, p).value);
  }

  /** Otherwise it is the first match behind them. */
  lemma FindBehind(segs: seq<Seg>, more: seq<Seg>, p: nat)
    requires Find(segs, p).None?
    ensures Find(segs + more, p) ==
            match Find(more, p) case Some(i) => Some(|segs| + i) case None => None
  {
    match Find(more, p)
    case Some(i) => FirstBehind(segs, more, p, i);
    case None => InNeither(segs, more, p);
  }

  // ----- The invariant of every log, crashed or not -----

  /** The directory holds exactly the files of these segments and nothing else that looks like one. */
  ghost predicate Agree(names: set<string>, bases: seq<nat>) {
    && Canonical(names)
    && (forall b: U64 {:trigger LogName(b)} :: LogName(b) in names <==> b in bases)
    && (forall b: U64 {:trigger IdxName(b)} :: IdxName(b) in names <==> b in bases)
  }

  /** The segments tile the offsets, the last one is active and the two counters agree. */
  predicate Shaped(l: LogState) {
    && Tiled(l.segs)
    && l.active == |l.segs| - 1
    && l.next == l.segs[l.active].next <= MAX_OFFSET
  }

  /** A shaped log whose files are in the directory. */
  ghost predicate Housed(l: LogState) {
    Shaped(l) && Agree(l.dir.Keys, BaseSeq(l.segs))
  }

  predicate Consistent(l: LogState) {
    Shaped(l) && forall i :: 0 <= i < |l.segs| ==> Sound(l.segs[i])
  }

  ghost predicate SoundLog(l: LogState) {
    Consistent(l) && Agree(l.dir.Keys, BaseSeq(l.segs))
  }

  lemma SoundBases(l: LogState)
    requires Tiled(l.segs) && l.segs[|l.segs| - 1].next <= MAX_OFFSET
    ensures forall i :: 0 <= i < |l.segs| ==> l.segs[i].base <= l.segs[i].next <= l.segs[|l.segs| - 1].next
  {
    forall i | 0 <= i < |l.segs|
      ensures l.segs[i].base <= l.segs[i].next <= l.segs[|l.segs| - 1].next
    {
      if i < |l.segs| - 1 { TiledOrder(l.segs, i, |l.segs| - 1); }
    }
  }

  /** A segment created for the next offset starts empty: its files are not there yet. */
  lemma FreshSegment(d: Dir, base: U64)
    requires LogName(base) !in d && IdxName(base) !in d
    ensures OpenAt(d, base) == Seg(base, base, [], []) && Sound(OpenAt(d, base))
    ensures OpenAt(d, base) == SegOf(base, [])
  {
    assert DecodeEntries([]) == [];
    assert EncodeAll([]) == [];
  }

  lemma CreatedAgree(d: Dir, bases: seq<nat>, base: U64)
    requires Agree(d.Keys, bases)
    ensures Agree(Created(d, base).Keys, bases + [base])
  {
    var names := Created(d, base).Keys;
    assert names == d.Keys + {LogName(base), IdxName(base)};
    NameRoundTrip(base);
    forall b: U64 ensures LogName(b) in names <==> b in bases + [base] {
      NamesDistinct(b, base);
    }
    forall b: U64 ensures IdxName(b) in names <==> b in bases + [base] {
      NamesDistinct(b, base);
      NamesDistinct(base, b);
    }
  }

  /** Segments with different bases do not share files, so each opens what the directory held before. */
  lemma {:induction false} OpenAllEach(d: Dir, bases: seq<nat>)
    requires Ascending(bases) && forall i :: 0 <= i < |bases| ==> bases[i] < LIMIT64
    ensures forall i :: 0 <= i < |bases| ==> OpenAll(d, bases)[i] == OpenAt(d, bases[i])
  {
    if bases != [] {
      var init, last := bases[..|bases| - 1], bases[|bases| - 1];
      OpenAllEach(d, init);
      OthersUntouched(d, init, last);
    }
  }

  /** Opening other segments changes no file of this one. */
  lemma {:induction false} OthersUntouched(d: Dir, bases: seq<nat>, base: U64)
    requires base !in bases && forall i :: 0 <= i < |bases| ==> bases[i] < LIMIT64
    ensures FileOf(CreateAll(d, bases), LogName(base)) == FileOf(d, LogName(base))
    ensures FileOf(CreateAll(d, bases), IdxName(base)) == FileOf(d, IdxName(base))
  {
    if bases != [] {
      var last := bases[|bases| - 1];
      OthersUntouched(d, bases[..|bases| - 1], base);
      NamesDistinct(base, last);
      NamesDistinct(last, base);
    }
  }

  // ----- The operations on every log whatsoever, written out -----

  /**
   Which records an append leaves where.  Below both limits the active
   segment takes the record at its own counter.  At a limit one segment is
   added, opened over whatever the directory holds for the next offset; that
   segment takes the record or, at a limit itself, refuses it.
   */
  lemma AppendLogIs(cfg: Config, l: LogState, r: Record)
    requires CanAppendLog(cfg, l, r)
    ensures var (m, reply) := AppendLog(cfg, l, r); var s := l.segs[l.active];
            |s.data| < cfg.maxStoreBytes && |s.entries| < cfg.maxIndexEntries ==>
              && reply == Ok(s.next) && m.active == l.active && m.next == s.next + 1 && m.dir == l.dir
              && m.segs == l.segs[l.active :=
                   Seg(s.base, s.next + 1, s.entries + [Entry(s.next, |s.data|)], s.data + Frame(r))]
    ensures var (m, reply) := AppendLog(cfg, l, r); var s := l.segs[l.active];
            var t := OpenSeg(l.next, FileOf(l.dir, LogName(l.next)), FileOf(l.dir, IdxName(l.next)));
            |s.data| >= cfg.maxStoreBytes || |s.entries| >= cfg.maxIndexEntries ==>
              && |m.segs| == |l.segs| + 1 && m.segs[..|l.segs|] == l.segs && m.active == |l.segs|
              && (|t.data| < cfg.maxStoreBytes && |t.entries| < cfg.maxIndexEntries ==>
                    && reply == Ok(t.next) && m.next == t.next + 1 && t.next < LIMIT64
                    && m.segs[|l.segs|] ==
                       Seg(t.base, t.next + 1, t.entries + [Entry(t.next, |t.data|)], t.data + Frame(r)))
              && (|t.data| >= cfg.maxStoreBytes || |t.entries| >= cfg.maxIndexEntries ==>
                    && reply == Err(SegmentFull(l.next, cfg.maxStoreBytes, |t.data|))
                    && m.next == l.next && m.segs[|l.segs|] == t)
  {
    var s := l.segs[l.active];
    if |s.data| >= cfg.maxStoreBytes || |s.entries| >= cfg.maxIndexEntries {
      RotatedAppend(cfg, l, OpenAt(l.dir, l.next), r);
    }
  }

  /** Which segment answers a read, or that none does. */
  lemma ReadLogIs(l: LogState, offset: nat)
    ensures (forall i :: 0 <= i < |l.segs| ==> !(l.segs[i].base <= offset < l.segs[i].next)) ==>
              ReadLog(l, offset) == Err(OffsetNotFound(offset, if l.segs == [] then 0 else l.segs[0].base, l.next))
    ensures forall i :: FirstHolds(l, offset, i) ==> ReadLog(l, offset) == ReadSeg(l.segs[i], offset)
    ensures ReadLog(l, offset) == Err(OffsetNotFound(offset, BaseOf(l), l.next)) <==>
              forall i :: 0 <= i < |l.segs| ==> !(l.segs[i].base <= offset < l.segs[i].next)
  {
    forall i | FirstHolds(l, offset, i) ensures ReadLog(l, offset) == ReadSeg(l.segs[i], offset) {
      FindFirst(l.segs, offset, i);
    }
    if Find(l.segs, offset).Some? {
      ReadSegOutcomes(l.segs[Find(l.segs, offset).value], offset);
    }
  }

  predicate FirstHolds(l: LogState, offset: nat, i: int) {
    && 0 <= i < |l.segs| && l.segs[i].base <= offset < l.segs[i].next
    && forall j :: 0 <= j < i ==> !(l.segs[j].base <= offset < l.segs[j].next)
  }

  lemma {:induction false} RetainConcat(a: seq<Seg>, b: seq<Seg>, offset: nat)
    ensures Retain(a + b, offset) == Retain(a, offset) + Retain(b, offset)
  {
    if b == [] {
      assert a + b == a;
    } else {
      RetainConcat(a, b[..|b| - 1], offset);
      assert (a + b)[..|a + b| - 1] == a + b[..|b| - 1];
    }
  }

  lemma RetainOne(s: Seg, offset: nat)
    ensures Retain([s], offset) == if s.base < offset then [s] else []
  {
    assert Retain([s][..0], offset) == [];
  }

  /** The state after a truncation that succeeds: at least one segment, the active one among them, the new counter. */
  lemma TruncateLogIs(l: LogState, offset: nat)
    ensures var k, d := TruncateLog(l, offset), DeleteFrom(l.dir, l.segs, offset);
            && k.next == offset
            && (Retain(l.segs, offset) != [] ==>
                  && k.segs == Retain(l.segs, offset) && k.dir == d
                  && (l.active < |k.segs| ==> k.active == l.active)
                  && (l.active >= |k.segs| ==> k.active == |k.segs| - 1))
            && (Retain(l.segs, offset) == [] ==>
                  && k.segs == [OpenSeg(offset, FileOf(d, LogName(offset)), FileOf(d, IdxName(offset)))]
                  && k.active == 0)
  {
  }

  /** Removing the files of one more segment: the store file goes first, and a missing one stops it there. */
  lemma RemoveOneMore(d: Dir, segs: seq<Seg>, s: Seg, offset: nat)
    ensures var (e, failed) := RemoveFrom(d, segs, offset);
            RemoveFrom(d, segs + [s], offset) ==
            if failed.Some? || s.base < offset then (e, failed)
            else if LogName(s.base) !in e then (e, Some(s.base))
            else if IdxName(s.base) !in e then (e - {LogName(s.base)}, Some(s.base))
            else (e - {LogName(s.base), IdxName(s.base)}, None)
  {
    assert (segs + [s])[..|segs|] == segs;
  }

  lemma {:induction false} TotalSizeConcat(a: seq<Seg>, b: seq<Seg>)
    ensures TotalSize(a + b) == TotalSize(a) + TotalSize(b)
    ensures forall s :: b == [s] ==> TotalSize(b) == |s.data|
  {
    if b == [] {
      assert a + b == a;
    } else {
      TotalSizeConcat(a, b[..|b| - 1]);
      assert (a + b)[..|a + b| - 1] == a + b[..|b| - 1];
    }
  }

  // ----- What opening leaves in the files -----

  lemma OpenedTwice(log: seq<Byte>, idx: seq<Byte>)
    ensures OpenedIndex(OpenedIndex(idx)) == OpenedIndex(idx)
    ensures log == [] || ScanEnd(log) > 0 ==> OpenedStore(OpenedStore(log)) == OpenedStore(log)
  {
    if log == [] {
      ParseZeros(MIB);
      assert Zeros(MIB)[..MIB] == Zeros(MIB);
    } else {
      ScanIdempotent(log);
    }
  }

  /** Opening one segment changes its own two files and no others. */
  lemma CreatedFiles(d: Dir, base: U64, b: U64)
    ensures FileOf(Created(d, base), IdxName(b)) ==
            if b == base then OpenedIndex(FileOf(d, IdxName(b))) else FileOf(d, IdxName(b))
    ensures FileOf(Created(d, base), LogName(b)) ==
            if b == base then OpenedStore(FileOf(d, LogName(b))) else FileOf(d, LogName(b))
  {
    NamesDistinct(b, base);
    NamesDistinct(base, b);
  }

  /** An index file with entries is left at its own whole entries; only one without is pre-sized. */
  lemma {:induction false} OpenedIndexFile(d: Dir, bases: seq<nat>, b: U64)
    requires forall i :: 0 <= i < |bases| ==> bases[i] < LIMIT64
    ensures var idx := FileOf(d, IdxName(b));
            FileOf(CreateAll(d, bases), IdxName(b)) ==
            if b !in bases then idx
            else if |idx| < 16 then Zeros(16000)
            else idx[..16 * (|idx| / 16)]
  {
    if bases != [] {
      var init, last := bases[..|bases| - 1], bases[|bases| - 1];
      assert b in bases <==> b in init || b == last;
      OpenedIndexFile(d, init, b);
      CreatedFiles(CreateAll(d, init), last, b);
      OpenedTwice([], FileOf(d, IdxName(b)));
    }
  }

  /** A store file is left at its recovered records; only an empty one is pre-sized. */
  lemma {:induction false} OpenedStoreFile(d: Dir, bases: seq<nat>, b: U64)
    requires forall i :: 0 <= i < |bases| ==> bases[i] < LIMIT64
    ensures var e, log := FileOf(CreateAll(d, bases), LogName(b)), FileOf(d, LogName(b));
            && (b !in bases ==> e == log)
            && (b in bases && log == [] ==> e == Zeros(1048576))
            && (b in bases && ScanEnd(log) > 0 ==> e == log[..ScanEnd(log)])
            && (multiset(bases)[b] == 1 && log != [] ==> e == log[..ScanEnd(log)])
  {
    if bases != [] {
      var init, last := bases[..|bases| - 1], bases[|bases| - 1];
      assert bases == init + [last];
      OpenedStoreFile(d, init, b);
      CreatedFiles(CreateAll(d, init), last, b);
      OpenedTwice(FileOf(d, LogName(b)), []);
    }
  }

  /** Which segments opening a directory gives, in which order, and which of them is active. */
  lemma OpenLogIs(d: Dir, listing: seq<string>)
    ensures var k, bases := OpenLog(d, listing), ListedBases(listing);
            && (bases == [] ==>
                  k.segs == [OpenSeg(0, FileOf(d, LogName(0)), FileOf(d, IdxName(0)))] && k.active == 0 && k.next == 0)
            && (bases != [] ==>
                  && |k.segs| == |bases| && multiset(BaseSeq(k.segs)) == multiset(bases) && Sorted(BaseSeq(k.segs))
                  && k.active == |k.segs| - 1 && k.next == k.segs[k.active].next)
  {
    var bases := ListedBases(listing);
    SortSorts(bases);
    assert |Sort(bases)| == |multiset(Sort(bases))| == |bases|;
    if bases != [] { assert BaseSeq(OpenAll(d, Sort(bases))) == Sort(bases); }
  }

  /** Without repeated bases every segment is opened from its own two files. */
  lemma OpenLogEach(d: Dir, listing: seq<string>)
    requires ListedBases(listing) != [] && Ascending(Sort(ListedBases(listing)))
    ensures var k := OpenLog(d, listing);
            forall i :: 0 <= i < |k.segs| ==>
              k.segs[i] == OpenSeg(k.segs[i].base,
                FileOf(d, LogName(k.segs[i].base)), FileOf(d, IdxName(k.segs[i].base)))
  {
    var bases := ListedBases(listing);
    SortSorts(bases);
    ListedAreU64(listing);
    forall i | 0 <= i < |Sort(bases)| ensures Sort(bases)[i] < LIMIT64 {
      assert Sort(bases)[i] in multiset(bases);
    }
    OpenAllEach(d, Sort(bases));
  }
}
