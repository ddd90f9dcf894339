/** Crashes among the file removals of a truncation, and what the log is when it comes back. */
module TruncateCrashes {
  import opened Bytes
  import opened Results
  import opened Entries
  import opened Framing
  import opened SegmentModel
  import opened Names
  import opened Listing
  import opened LogModel
  import opened SoundLogs
  import opened Truncation
  import opened CrashSafety

  /**
   A truncation that keeps `n` segments removes the files of the others in
   ascending order, of each the store file first.  After a crash `m` store
   files are gone; if `half`, the last of them has left its index file.
   */
  function Removed(d: Dir, segs: seq<Seg>, n: nat, m: nat, half: bool): Dir
    requires n + m <= |segs|
  {
    d - (set i | n <= i < n + m :: LogName(segs[i].base))
      - (set i | n <= i < n + m - (if half then 1 else 0) :: IdxName(segs[i].base))
  }

  /** Which of the original segments is number `i` of those left. */
  function Origin(n: nat, m: nat, i: nat): nat {
    if i < n then i else i + m
  }

  /** The segments whose store files are left. */
  function Left(segs: seq<Seg>, n: nat, m: nat): (left: seq<Seg>)
    requires n + m <= |segs|
    ensures |left| == |segs| - m
  {
    seq(|segs| - m, i requires 0 <= i < |segs| - m => segs[Origin(n, m, i)])
  }

  /** A crash while `l` was being truncated at `offset`, and a listing of what it left. */
  ghost predicate CrashInTruncate(
    l: LogState, offset: nat, m: nat, half: bool, before: Dir, listing: seq<string>)
  {
    && Agree(before.Keys, BaseSeq(l.segs)) && CrashImages(l.segs, before)
    && KeptCount(l.segs, offset) + m <= |l.segs| && (half ==> m > 0)
    && Lists(listing, Removed(before, l.segs, KeptCount(l.segs, offset), m, half).Keys)
  }

  /**
   These are the directories the removals go through: what the first `m`
   dropped segments leave is what removing their files in order leaves, and
   the half-removed state is the one after the next store file.
   */
  lemma {:induction false} RemovalSteps(l: LogState, offset: nat, m: nat)
    requires Housed(l) && KeptCount(l.segs, offset) + m <= |l.segs|
    ensures var n := KeptCount(l.segs, offset);
            RemoveFrom(l.dir, l.segs[..n + m], offset) == (Removed(l.dir, l.segs, n, m, false), None)
    ensures var n := KeptCount(l.segs, offset);
            m > 0 ==>
              Removed(l.dir, l.segs, n, m, true) ==
              Removed(l.dir, l.segs, n, m - 1, false) - {LogName(l.segs[n + m - 1].base)}
  {
    if m == 0 {
      NoneRemoved(l, offset);
    } else {
      RemovalSteps(l, offset, m - 1);
      DroppedBase(l, offset, m);
      RemovalStep(l, offset, KeptCount(l.segs, offset), m);
    }
  }

  lemma NoneRemoved(l: LogState, offset: nat)
    requires Housed(l)
    ensures var n := KeptCount(l.segs, offset);
            n <= |l.segs| ==>
              && Removed(l.dir, l.segs, n, 0, false) == l.dir
              && RemoveFrom(l.dir, l.segs[..n], offset) == (l.dir, None)
  {
    TiledAscending(l.segs);
    RetainPrefix(l.segs, offset);
    KeepsBelow(l.dir, l.segs, offset, KeptCount(l.segs, offset));
  }

  lemma DroppedBase(l: LogState, offset: nat, m: nat)
    requires Housed(l) && 0 < m && KeptCount(l.segs, offset) + m <= |l.segs|
    ensures l.segs[KeptCount(l.segs, offset) + m - 1].base >= offset
  {
    TiledAscending(l.segs);
    RetainPrefix(l.segs, offset);
  }

  lemma {:induction false} KeepsBelow(d: Dir, segs: seq<Seg>, offset: nat, k: nat)
    requires k <= |segs| && forall i :: 0 <= i < k ==> segs[i].base < offset
    ensures RemoveFrom(d, segs[..k], offset) == (d, None)
  {
    if k > 0 {
      KeepsBelow(d, segs, offset, k - 1);
      assert segs[..k][..k - 1] == segs[..k - 1];
    }
  }

  lemma RemovalStep(l: LogState, offset: nat, n: nat, m: nat)
    requires Housed(l) && 0 < m && n + m <= |l.segs| && l.segs[n + m - 1].base >= offset
    requires RemoveFrom(l.dir, l.segs[..n + m - 1], offset) == (Removed(l.dir, l.segs, n, m - 1, false), None)
    ensures RemoveFrom(l.dir, l.segs[..n + m], offset) == (Removed(l.dir, l.segs, n, m, false), None)
    ensures Removed(l.dir, l.segs, n, m, true) ==
            Removed(l.dir, l.segs, n, m - 1, false) - {LogName(l.segs[n + m - 1].base)}
  {
    var k, s := n + m - 1, l.segs[n + m - 1];
    NothingMissing(l, offset, n + m);
    RemoveOneMore(l.dir, l.segs[..k], s, offset);
    assert l.segs[..k] + [s] == l.segs[..k + 1];
    RemovedMore(l.dir, l.segs, n, m);
  }

  lemma RemovedMore(d: Dir, segs: seq<Seg>, n: nat, m: nat)
    requires 0 < m && n + m <= |segs|
    ensures var b := segs[n + m - 1].base;
            && Removed(d, segs, n, m, true) == Removed(d, segs, n, m - 1, false) - {LogName(b)}
            && Removed(d, segs, n, m, false) == Removed(d, segs, n, m - 1, false) - {LogName(b), IdxName(b)}
  {
    NamesMore(segs, n, n + m - 1);
  }

  lemma NamesMore(segs: seq<Seg>, n: nat, k: nat)
    requires n <= k < |segs|
    ensures (set i | n <= i < k + 1 :: LogName(segs[i].base)) ==
            (set i | n <= i < k :: LogName(segs[i].base)) + {LogName(segs[k].base)}
    ensures (set i | n <= i < k + 1 :: IdxName(segs[i].base)) ==
            (set i | n <= i < k :: IdxName(segs[i].base)) + {IdxName(segs[k].base)}
  {
  }

  lemma LeftAscending(segs: seq<Seg>, n: nat, m: nat)
    requires Tiled(segs) && n + m <= |segs|
    ensures Ascending(BaseSeq(Left(segs, n, m)))
  {
    var left := Left(segs, n, m);
    forall i, j | 0 <= i < j < |left| ensures left[i].base < left[j].base {
      TiledOrder(segs, Origin(n, m, i), Origin(n, m, j));
    }
  }

  /** The base of a segment is left exactly if the segment is. */
  lemma LeftBaseOf(segs: seq<Seg>, n: nat, m: nat, p: nat)
    requires Tiled(segs) && n + m <= |segs| && p < |segs|
    ensures segs[p].base in BaseSeq(Left(segs, n, m)) <==> p < n || n + m <= p
  {
    var left := Left(segs, n, m);
    if p < n || n + m <= p {
      assert BaseSeq(left)[if p < n then p else p - m] == segs[p].base;
    } else {
      forall i | 0 <= i < |left| ensures BaseSeq(left)[i] != segs[p].base {
        if Origin(n, m, i) < p {
          TiledOrder(segs, Origin(n, m, i), p);
        } else {
          TiledOrder(segs, p, Origin(n, m, i));
        }
      }
    }
  }

  lemma BaseIsSomewhere(segs: seq<Seg>, b: nat) returns (p: nat)
    requires b in BaseSeq(segs)
    ensures p < |segs| && segs[p].base == b
  {
    p :| 0 <= p < |segs| && BaseSeq(segs)[p] == b;
  }

  lemma LeftWasThere(segs: seq<Seg>, n: nat, m: nat, b: nat)
    requires n + m <= |segs| && b !in BaseSeq(segs)
    ensures b !in BaseSeq(Left(segs, n, m))
  {
    forall i | 0 <= i < |segs| - m ensures BaseSeq(Left(segs, n, m))[i] != b {
      assert BaseSeq(segs)[Origin(n, m, i)] in BaseSeq(segs);
    }
  }

  lemma RemovedFrom(d: Dir, segs: seq<Seg>, n: nat, m: nat, half: bool, b: U64)
    requires n + m <= |segs| && (half ==> m > 0) && forall i :: 0 <= i < |segs| ==> segs[i].base < LIMIT64
    ensures var names := Removed(d, segs, n, m, half).Keys; var kept := if half then m - 1 else m;
            && (LogName(b) in names <==> LogName(b) in d && forall i :: n <= i < n + m ==> segs[i].base != b)
            && (IdxName(b) in names <==> IdxName(b) in d && forall i :: n <= i < n + kept ==> segs[i].base != b)
  {
    forall i | 0 <= i < |segs|
      ensures LogName(segs[i].base) == LogName(b) <==> segs[i].base == b
      ensures IdxName(segs[i].base) == IdxName(b) <==> segs[i].base == b
      ensures LogName(segs[i].base) != IdxName(b) && IdxName(segs[i].base) != LogName(b)
    {
      NamesDistinct(segs[i].base, b);
      NamesDistinct(b, segs[i].base);
    }
  }

  /** Which names of one base are left. */
  lemma RemovedName(l: LogState, before: Dir, n: nat, m: nat, half: bool, b: U64)
    requires Consistent(l) && n + m <= |l.segs| && Agree(before.Keys, BaseSeq(l.segs)) && (half ==> m > 0)
    ensures var names := Removed(before, l.segs, n, m, half).Keys;
            && (LogName(b) in names <==> b in BaseSeq(Left(l.segs, n, m)))
            && (IdxName(b) in names <==> b in BaseSeq(Left(l.segs, n, if half then m - 1 else m)))
  {
    SoundBases(l);
    var kept := if half then m - 1 else m;
    RemovedFrom(before, l.segs, n, m, half, b);
    if b in BaseSeq(l.segs) {
      var p := BaseIsSomewhere(l.segs, b);
      LeftBaseOf(l.segs, n, m, p);
      LeftBaseOf(l.segs, n, kept, p);
      OnlyBase(l.segs, p);
    } else {
      LeftWasThere(l.segs, n, m, b);
      LeftWasThere(l.segs, n, kept, b);
    }
  }

  lemma OnlyBase(segs: seq<Seg>, p: nat)
    requires Tiled(segs) && p < |segs|
    ensures forall i :: 0 <= i < |segs| && i != p ==> segs[i].base != segs[p].base
  {
    forall i | 0 <= i < |segs| && i != p ensures segs[i].base != segs[p].base {
      if i < p { TiledOrder(segs, i, p); } else { TiledOrder(segs, p, i); }
    }
  }

  /** Exactly the store files of the segments that are left are there, and the index files likewise up to one. */
  lemma RemovedNames(l: LogState, before: Dir, n: nat, m: nat, half: bool)
    requires Consistent(l) && n + m <= |l.segs| && Agree(before.Keys, BaseSeq(l.segs)) && (half ==> m > 0)
    ensures var names := Removed(before, l.segs, n, m, half).Keys;
            && names <= before.Keys && Canonical(names)
            && (forall b: U64 {:trigger LogName(b)} ::
                  LogName(b) in names <==> b in BaseSeq(Left(l.segs, n, m)))
            && (forall b: U64 {:trigger IdxName(b)} ::
                  IdxName(b) in names <==> b in BaseSeq(Left(l.segs, n, if half then m - 1 else m)))
  {
    var names := Removed(before, l.segs, n, m, half).Keys;
    forall b: U64
      ensures LogName(b) in names <==> b in BaseSeq(Left(l.segs, n, m))
      ensures IdxName(b) in names <==> b in BaseSeq(Left(l.segs, n, if half then m - 1 else m))
    {
      RemovedName(l, before, n, m, half, b);
    }
  }

  /** The files that are left are untouched. */
  lemma LeftImages(l: LogState, before: Dir, n: nat, m: nat, half: bool)
    requires Consistent(l) && n + m <= |l.segs| && (half ==> m > 0)
    requires Agree(before.Keys, BaseSeq(l.segs)) && CrashImages(l.segs, before)
    ensures CrashImages(Left(l.segs, n, m), Removed(before, l.segs, n, m, half))
  {
    var d, left := Removed(before, l.segs, n, m, half), Left(l.segs, n, m);
    forall i | 0 <= i < |left| ensures CrashImage(left[i], d) {
      LeftImage(l, before, n, m, half, Origin(n, m, i));
    }
  }

  lemma LeftImage(l: LogState, before: Dir, n: nat, m: nat, half: bool, p: nat)
    requires Consistent(l) && n + m <= |l.segs| && (half ==> m > 0)
    requires Agree(before.Keys, BaseSeq(l.segs)) && CrashImages(l.segs, before)
    requires p < n || n + m <= p < |l.segs|
    ensures CrashImage(l.segs[p], Removed(before, l.segs, n, m, half))
  {
    SoundBases(l);
    LeftBaseOf(l.segs, n, m, p);
    LeftBaseOf(l.segs, n, if half then m - 1 else m, p);
    RemovedName(l, before, n, m, half, l.segs[p].base);
    assert CrashImage(l.segs[p], before);
  }

  /** What opening finds: the segments that are left or, if there are none, a new first segment at 0. */
  lemma LeftLoads(l: LogState, offset: nat, m: nat, half: bool, before: Dir, listing: seq<string>)
    requires Consistent(l) && CrashInTruncate(l, offset, m, half, before, listing)
    ensures var n := KeptCount(l.segs, offset); var d := Removed(before, l.segs, n, m, half);
            OpenLog(d, listing) ==
            if n + m < |l.segs| || n > 0 then OpenBases(d, BaseSeq(Left(l.segs, n, m)))
            else LogState([OpenAt(d, 0)], 0, 0, Created(d, 0))
  {
    var n := KeptCount(l.segs, offset);
    SoundBases(l);
    RemovedNames(l, before, n, m, half);
    LeftAscending(l.segs, n, m);
    LoadOrder(listing, Removed(before, l.segs, n, m, half).Keys, BaseSeq(Left(l.segs, n, m)));
  }

  // ----- The segments that come back -----

  /** `t` has the ranges of what is left of `segs`, except that the last of `segs` may end elsewhere. */
  predicate LeftRanges(segs: seq<Seg>, t: seq<Seg>, n: nat, m: nat)
    requires n + m <= |segs|
  {
    && |t| == |segs| - m
    && forall i :: 0 <= i < |t| ==>
         && t[i].base == Left(segs, n, m)[i].base <= t[i].next
         && (Origin(n, m, i) < |segs| - 1 ==> t[i].next == segs[Origin(n, m, i)].next)
  }

  lemma LeftOpensEach(l: LogState, d: Dir, n: nat, m: nat)
    requires Consistent(l) && n + m <= |l.segs|
    ensures forall i :: 0 <= i < |l.segs| - m ==>
              OpenAll(d, BaseSeq(Left(l.segs, n, m)))[i] == OpenAt(d, Left(l.segs, n, m)[i].base)
  {
    var left := Left(l.segs, n, m);
    SoundBases(l);
    LeftAscending(l.segs, n, m);
    OpenAllEach(d, BaseSeq(left));
    assert forall i :: 0 <= i < |left| ==> BaseSeq(left)[i] == left[i].base;
  }

  lemma LeftRecovered(l: LogState, d: Dir, n: nat, m: nat, t: seq<Seg>)
    requires Consistent(l) && n + m <= |l.segs| && CrashImages(Left(l.segs, n, m), d)
    requires t == OpenAll(d, BaseSeq(Left(l.segs, n, m)))
    ensures LeftRanges(l.segs, t, n, m)
    ensures forall i :: 0 <= i < |t| ==> Sound(t[i]) && KeepsReads(l.segs[Origin(n, m, i)], t[i])
    ensures forall i :: 0 <= i < |t| && Origin(n, m, i) == l.active ==>
              t[i].next == if PaddedEmpty(l, d) then l.next + 1 else l.next
  {
    var left := Left(l.segs, n, m);
    LeftOpensEach(l, d, n, m);
    forall i | 0 <= i < |left|
      ensures t[i].base == left[i].base <= t[i].next
      ensures Origin(n, m, i) < l.active ==> t[i].next == l.segs[Origin(n, m, i)].next
      ensures Origin(n, m, i) == l.active ==> t[i].next == if PaddedEmpty(l, d) then l.next + 1 else l.next
      ensures Sound(t[i]) && KeepsReads(l.segs[Origin(n, m, i)], t[i])
    {
      assert CrashImage(left[i], d);
      RecoveredOne(l, d, Origin(n, m, i), t[i]);
    }
  }

  /** What is left covers consecutive offsets exactly if no segment between two kept ones was removed. */
  lemma HoleOrTiled(segs: seq<Seg>, t: seq<Seg>, n: nat, m: nat)
    requires Tiled(segs) && n + m <= |segs| && 0 < |t| && LeftRanges(segs, t, n, m)
    ensures Tiled(t) <==> n == 0 || m == 0 || n + m == |segs|
  {
    forall i | 0 <= i < |t| - 1 && (i != n - 1 || m == 0) ensures JoinedAt(t, i) {
      assert JoinedAt(segs, Origin(n, m, i));
    }
    if 0 < n && 0 < m && n + m < |segs| {
      assert JoinedAt(segs, n - 1);
      TiledOrder(segs, n, n + m);
      assert t[n].base == segs[n + m].base;
      assert !JoinedAt(t, n - 1);
    }
  }

  // ----- When the log is consistent -----

  /** The removals stopped between two segments, and what is left has no gap. */
  predicate CleanCut(segs: seq<Seg>, n: nat, m: nat, half: bool) {
    !half && (n == 0 || m == 0 || n + m == |segs|)
  }

  /** The one harmless leftover: all that remains is the index file of a segment at 0, without a whole entry. */
  predicate EmptyLeftover(segs: seq<Seg>, n: nat, m: nat, half: bool, before: Dir) {
    half && n == 0 && m == |segs| == 1 && segs[0].base == 0 && |FileOf(before, IdxName(0))| < 16
  }

  /**
   A truncation removes two files for every segment it drops, one after the
   other.  A crash among the removals leaves a consistent log exactly when
   each segment kept both its files or neither, and the removed ones are
   none, all of those to be dropped, or the first ones of the log.
   */
  lemma TruncateCrashIff(
    l: LogState, offset: nat, m: nat, half: bool, before: Dir, listing: seq<string>, n: nat, k: LogState)
    requires SoundLog(l) && l.next < MAX_OFFSET && CrashInTruncate(l, offset, m, half, before, listing)
    requires n == KeptCount(l.segs, offset)
    requires k == OpenLog(Removed(before, l.segs, n, m, half), listing)
    ensures SoundLog(k) <==> CleanCut(l.segs, n, m, half) || EmptyLeftover(l.segs, n, m, half, before)
  {
    var d := Removed(before, l.segs, n, m, half);
    LeftLoads(l, offset, m, half, before, listing);
    if n + m < |l.segs| || n > 0 {
      LeftImages(l, before, n, m, half);
      LeftConsistent(l, d, n, m, k);
      LeftAgrees(l, before, n, m, half);
    } else {
      NothingLeft(l, before, m, half, k);
    }
  }

  lemma LeftConsistent(l: LogState, d: Dir, n: nat, m: nat, k: LogState)
    requires Consistent(l) && l.next < MAX_OFFSET && n + m <= |l.segs| && (n + m < |l.segs| || n > 0)
    requires CrashImages(Left(l.segs, n, m), d) && k == OpenBases(d, BaseSeq(Left(l.segs, n, m)))
    ensures BaseSeq(k.segs) == BaseSeq(Left(l.segs, n, m))
    ensures Consistent(k) <==> n == 0 || m == 0 || n + m == |l.segs|
  {
    OpenedConsistent(d, BaseSeq(Left(l.segs, n, m)), k);
    LeftTiled(l, d, n, m, k);
    LeftNextSmall(l, d, n, m, k);
  }

  lemma LeftNextSmall(l: LogState, d: Dir, n: nat, m: nat, k: LogState)
    requires Consistent(l) && l.next < MAX_OFFSET && n + m <= |l.segs| && (n + m < |l.segs| || n > 0)
    requires CrashImages(Left(l.segs, n, m), d) && k == OpenBases(d, BaseSeq(Left(l.segs, n, m)))
    ensures k.next <= MAX_OFFSET
  {
    LeftNext(l, d, n, m, k);
    if n < |l.segs| { BaseBelowNext(l, n); }
  }

  lemma BaseBelowNext(l: LogState, n: nat)
    requires Consistent(l) && n < |l.segs|
    ensures l.segs[n].base <= l.next
  {
    SoundBases(l);
  }

  /** Whatever is opened is sound; only the tiling and the counter can be wrong. */
  lemma OpenedConsistent(d: Dir, bases: seq<nat>, k: LogState)
    requires bases != [] && k == OpenBases(d, bases)
    ensures Consistent(k) <==> Tiled(k.segs) && k.next <= MAX_OFFSET
  {
    forall i | 0 <= i < |k.segs| ensures Sound(k.segs[i]) {
      OpenedSound(d, bases, i);
    }
  }

  lemma {:induction false} OpenedSound(d: Dir, bases: seq<nat>, i: nat)
    requires i < |bases|
    ensures Sound(OpenAll(d, bases)[i])
  {
    var n, base := |bases| - 1, bases[|bases| - 1];
    if i < n {
      OpenedSound(d, bases[..n], i);
    } else {
      var e := CreateAll(d, bases[..n]);
      OpenIsSound(base, FileOf(e, LogName(base)), FileOf(e, IdxName(base)));
    }
  }

  lemma LeftTiled(l: LogState, d: Dir, n: nat, m: nat, k: LogState)
    requires Consistent(l) && n + m <= |l.segs| && (n + m < |l.segs| || n > 0)
    requires CrashImages(Left(l.segs, n, m), d) && k == OpenBases(d, BaseSeq(Left(l.segs, n, m)))
    ensures Tiled(k.segs) <==> n == 0 || m == 0 || n + m == |l.segs|
    ensures BaseSeq(k.segs) == BaseSeq(Left(l.segs, n, m))
  {
    LeftRecovered(l, d, n, m, k.segs);
    HoleOrTiled(l.segs, k.segs, n, m);
    LeftSameBases(l.segs, k.segs, n, m);
  }

  lemma LeftSameBases(segs: seq<Seg>, t: seq<Seg>, n: nat, m: nat)
    requires n + m <= |segs| && LeftRanges(segs, t, n, m)
    ensures BaseSeq(t) == BaseSeq(Left(segs, n, m))
  {
  }

  /** The directory agrees with the segments exactly if no index file was left behind. */
  lemma LeftAgrees(l: LogState, before: Dir, n: nat, m: nat, half: bool)
    requires Consistent(l) && n + m <= |l.segs| && (half ==> m > 0) && Agree(before.Keys, BaseSeq(l.segs))
    ensures var bases := BaseSeq(Left(l.segs, n, m));
            Agree(CreateAll(Removed(before, l.segs, n, m, half), bases).Keys, bases) <==> !half
  {
    var d, bases := Removed(before, l.segs, n, m, half), BaseSeq(Left(l.segs, n, m));
    SoundBases(l);
    RemovedNames(l, before, n, m, half);
    if half {
      HalfDisagrees(l, before, n, m);
    } else {
      LeftAscending(l.segs, n, m);
      RecoveredAgrees(d, bases);
    }
  }

  lemma HalfDisagrees(l: LogState, before: Dir, n: nat, m: nat)
    requires Consistent(l) && 0 < m && n + m <= |l.segs| && Agree(before.Keys, BaseSeq(l.segs))
    ensures var bases := BaseSeq(Left(l.segs, n, m));
            !Agree(CreateAll(Removed(before, l.segs, n, m, true), bases).Keys, bases)
  {
    var d, bases := Removed(before, l.segs, n, m, true), BaseSeq(Left(l.segs, n, m));
    HalfLeft(l, before, n, m);
    CreateAllGrows(d, bases);
    StrayIndex(CreateAll(d, bases).Keys, bases, l.segs[n + m - 1].base);
  }

  lemma HalfLeft(l: LogState, before: Dir, n: nat, m: nat)
    requires Consistent(l) && 0 < m && n + m <= |l.segs| && Agree(before.Keys, BaseSeq(l.segs))
    ensures var b := l.segs[n + m - 1].base;
            b < LIMIT64 && IdxName(b) in Removed(before, l.segs, n, m, true) && b !in BaseSeq(Left(l.segs, n, m))
  {
    SoundBases(l);
    RemovedName(l, before, n, m, true, l.segs[n + m - 1].base);
    LeftBaseOf(l.segs, n, m, n + m - 1);
    LeftBaseOf(l.segs, n, m - 1, n + m - 1);
  }

  lemma StrayIndex(names: set<string>, bases: seq<nat>, b: U64)
    requires IdxName(b) in names && b !in bases
    ensures !Agree(names, bases)
  {
  }

  lemma {:induction false} CreateAllGrows(d: Dir, bases: seq<nat>)
    ensures d.Keys <= CreateAll(d, bases).Keys
  {
    if bases != [] { CreateAllGrows(d, bases[..|bases| - 1]); }
  }

  lemma NothingLeft(l: LogState, before: Dir, m: nat, half: bool, k: LogState)
    requires Consistent(l) && m == |l.segs| && Agree(before.Keys, BaseSeq(l.segs)) && CrashImages(l.segs, before)
    requires var d := Removed(before, l.segs, 0, m, half); k == LogState([OpenAt(d, 0)], 0, 0, Created(d, 0))
    ensures SoundLog(k) <==> !half || EmptyLeftover(l.segs, 0, m, half, before)
    ensures !half ==> k.segs == [Seg(0, 0, [], [])]
  {
    var d := Removed(before, l.segs, 0, m, half);
    RemovedNames(l, before, 0, m, half);
    assert BaseSeq(k.segs) == [] + [0];
    if half {
      LeftoverAtZero(l, before, m, k);
    } else {
      assert BaseSeq(Left(l.segs, 0, m)) == [];
      FreshSegment(d, 0);
      CreatedAgree(d, [], 0);
    }
  }

  lemma LeftoverAtZero(l: LogState, before: Dir, m: nat, k: LogState)
    requires Consistent(l) && m == |l.segs| && Agree(before.Keys, BaseSeq(l.segs))
    requires var d := Removed(before, l.segs, 0, m, true); k == LogState([OpenAt(d, 0)], 0, 0, Created(d, 0))
    ensures SoundLog(k) <==> EmptyLeftover(l.segs, 0, m, true, before)
  {
    var d, b := Removed(before, l.segs, 0, m, true), l.segs[m - 1].base;
    SoundBases(l);
    RemovedName(l, before, 0, m, true, b);
    LeftBaseOf(l.segs, 0, m - 1, m - 1);
    assert IdxName(b) in d && IdxName(b) in k.dir;
    assert BaseSeq(k.segs) == [0];
    if b == 0 {
      if m > 1 { TiledOrder(l.segs, 0, m - 1); }
      LeftoverOpened(l, before, k);
    } else {
      assert b !in BaseSeq(k.segs);
    }
  }

  lemma LeftoverOpened(l: LogState, before: Dir, k: LogState)
    requires Consistent(l) && |l.segs| == 1 && l.segs[0].base == 0 && Agree(before.Keys, BaseSeq(l.segs))
    requires var d := Removed(before, l.segs, 0, 1, true); k == LogState([OpenAt(d, 0)], 0, 0, Created(d, 0))
    ensures SoundLog(k) <==> |FileOf(before, IdxName(0))| < 16
  {
    var d := Removed(before, l.segs, 0, 1, true);
    RemovedNames(l, before, 0, 1, true);
    assert BaseSeq(Left(l.segs, 0, 0)) == [0] && BaseSeq(Left(l.segs, 0, 1)) == [];
    LeftoverAgrees(d);
    assert LogName(0) !in d && IdxName(0) in d;
    LeftoverSound(FileOf(before, IdxName(0)), k);
  }

  lemma LeftoverSound(idx: seq<Byte>, k: LogState)
    requires k.segs == [OpenSeg(0, [], idx)] && k.active == 0 && k.next == 0 && Agree(k.dir.Keys, [0])
    ensures SoundLog(k) <==> |idx| < 16
  {
    OpenIsSound(0, [], idx);
    HighestIsMax(0, k.segs[0].entries);
    assert BaseSeq(k.segs) == [0];
  }

  lemma LeftoverAgrees(d: Dir)
    requires Canonical(d.Keys)
    requires forall b: U64 {:trigger LogName(b)} :: LogName(b) !in d
    requires forall b: U64 {:trigger IdxName(b)} :: IdxName(b) in d <==> b == 0
    ensures Agree(Created(d, 0).Keys, [0])
  {
    NameRoundTrip(0);
    assert Created(d, 0).Keys == d.Keys + {LogName(0), IdxName(0)};
    forall b: U64
      ensures LogName(b) in Created(d, 0).Keys <==> b in [0]
      ensures IdxName(b) in Created(d, 0).Keys <==> b in [0]
    {
      NamesDistinct(b, 0);
      NamesDistinct(0, b);
    }
  }

  // ----- What goes wrong otherwise, and what survives in any case -----

  /** Offsets that the log counts as its own and cannot find. */
  ghost predicate Hole(k: LogState, from: nat, to: nat) {
    to <= k.next && forall p: nat :: from <= p < to ==> ReadLog(k, p) == Err(OffsetNotFound(p, BaseOf(k), k.next))
  }

  /** Offsets that were in the segments whose store files are gone. */
  predicate Lost(segs: seq<Seg>, n: nat, m: nat, o: nat)
    requires n + m <= |segs|
  {
    m > 0 && segs[n].base <= o && (n + m < |segs| ==> o < segs[n + m].base)
  }

  /**
   Whatever the point of the crash, every record in a segment that is left is
   read as before.  If segments were removed from the middle, the offsets
   between are a hole; if all that were to be dropped are gone, the next
   offset is the base of the first of them; if nothing is left, the log
   starts again at 0, wherever it was truncated.
   */
  lemma TruncateCrashHole(
    l: LogState, offset: nat, m: nat, half: bool, before: Dir, listing: seq<string>, n: nat, k: LogState)
    requires SoundLog(l) && l.next < MAX_OFFSET && CrashInTruncate(l, offset, m, half, before, listing)
    requires n == KeptCount(l.segs, offset)
    requires k == OpenLog(Removed(before, l.segs, n, m, half), listing)
    ensures forall o :: ReadLog(l, o).Ok? && !Lost(l.segs, n, m, o) ==> ReadLog(k, o) == ReadLog(l, o)
    ensures 0 < n && 0 < m && n + m < |l.segs| ==> Hole(k, l.segs[n].base, l.segs[n + m].base)
    ensures n + m < |l.segs| || m == 0 ==>
              k.next == if PaddedEmpty(l, Removed(before, l.segs, n, m, half)) then l.next + 1 else l.next
    ensures 0 < m && n + m == |l.segs| ==> k.next == if n == 0 then 0 else l.segs[n].base
    ensures n == 0 && m < |l.segs| ==> BaseOf(k) == l.segs[m].base
  {
    LeftLoads(l, offset, m, half, before, listing);
    if n + m < |l.segs| || n > 0 {
      LeftImages(l, before, n, m, half);
      LeftOutcome(l, Removed(before, l.segs, n, m, half), n, m, k);
    } else {
      AllLost(l, m);
    }
  }

  /** All that is left of the log is the index file of its only segment, which started at 0. */
  predicate OnlyIndexAtZero(segs: seq<Seg>, half: bool) {
    half && |segs| == 1 && segs[0].base == 0
  }

  /**
   If a crash falls after the last store file was removed by a truncation at
   or below the first base, and before the new segment is created, the log
   starts again at 0 instead of the truncation point.  It is empty and the
   next append returns 0, unless the index file of a segment at 0 is left:
   then its entries count, and the append goes behind them or is refused.
   */
  lemma TruncateCrashRestarts(
    cfg: Config, l: LogState, offset: nat, half: bool, before: Dir, listing: seq<string>, k: LogState, r: Record)
    requires cfg.Sane() && SoundLog(l) && offset <= BaseOf(l)
    requires CrashInTruncate(l, offset, |l.segs|, half, before, listing)
    requires k == OpenLog(Removed(before, l.segs, 0, |l.segs|, half), listing) && CanAppendLog(cfg, k, r)
    ensures k.next == 0 && BaseOf(k) == 0
    ensures !OnlyIndexAtZero(l.segs, half) ==> k.segs == [Seg(0, 0, [], [])] && AppendLog(cfg, k, r).1 == Ok(0)
    ensures OnlyIndexAtZero(l.segs, half) ==>
              var idx := FileOf(before, IdxName(0));
              && k.segs == [OpenSeg(0, [], idx)]
              && AppendLog(cfg, k, r).1 ==
                 if |idx| / 16 >= cfg.maxIndexEntries then Err(SegmentFull(0, cfg.maxStoreBytes, MIB))
                 else Ok(if l.segs[0].entries == [] && |idx| >= 16 then 1 else l.segs[0].next)
  {
    TiledAscending(l.segs);
    RetainPrefix(l.segs, offset);
    assert KeptCount(l.segs, offset) == 0 by { assert !(l.segs[0].base < offset); }
    LeftLoads(l, offset, |l.segs|, half, before, listing);
    LeftAtZero(l, before, half);
    if OnlyIndexAtZero(l.segs, half) {
      assert CrashImage(l.segs[0], before);
      LeftoverAppend(cfg, l.segs[0], FileOf(before, IdxName(0)), k, r);
    } else {
      FreshSegment(Removed(before, l.segs, 0, |l.segs|, half), 0);
    }
  }

  /** What is found under the names of a segment at 0 when every store file is gone. */
  lemma LeftAtZero(l: LogState, before: Dir, half: bool)
    requires Consistent(l) && Agree(before.Keys, BaseSeq(l.segs))
    ensures var d := Removed(before, l.segs, 0, |l.segs|, half);
            && LogName(0) !in d
            && (IdxName(0) in d <==> OnlyIndexAtZero(l.segs, half))
            && FileOf(d, IdxName(0)) == if OnlyIndexAtZero(l.segs, half) then FileOf(before, IdxName(0)) else []
  {
    var m := |l.segs|;
    RemovedName(l, before, 0, m, half, 0);
    assert BaseSeq(Left(l.segs, 0, m)) == [];
    if half { OneLeftAtZero(l.segs); }
  }

  lemma OneLeftAtZero(segs: seq<Seg>)
    requires Tiled(segs)
    ensures 0 in BaseSeq(Left(segs, 0, |segs| - 1)) <==> |segs| == 1 && segs[0].base == 0
  {
    var m := |segs|;
    var bases := BaseSeq(Left(segs, 0, m - 1));
    assert |bases| == 1 && bases[0] == segs[m - 1].base;
    if m > 1 { TiledOrder(segs, 0, m - 1); }
  }

  lemma LeftoverAppend(cfg: Config, dropped: Seg, idx: seq<Byte>, k: LogState, r: Record)
    requires cfg.Sane() && Sound(dropped) && dropped.base == 0 && Padded(idx, dropped.entries)
    requires k.segs == [OpenSeg(0, [], idx)] && k.active == 0 && k.next == 0
    requires FileOf(k.dir, LogName(0)) == Zeros(MIB) && FileOf(k.dir, IdxName(0)) == OpenedIndex(idx)
    requires CanAppendLog(cfg, k, r)
    ensures AppendLog(cfg, k, r).1 ==
            if |idx| / 16 >= cfg.maxIndexEntries then Err(SegmentFull(0, cfg.maxStoreBytes, MIB))
            else Ok(if dropped.entries == [] && |idx| >= 16 then 1 else dropped.next)
  {
    StaleOpened(dropped, idx, k.segs[0]);
    if |idx| / 16 >= cfg.maxIndexEntries {
      LeftoverFull(cfg, idx, k, r);
    }
  }

  /** The rotation opens the same files again, and the index is as full as before. */
  lemma LeftoverFull(cfg: Config, idx: seq<Byte>, k: LogState, r: Record)
    requires k.segs == [OpenSeg(0, [], idx)] && k.active == 0 && k.next == 0
    requires FileOf(k.dir, LogName(0)) == Zeros(MIB) && FileOf(k.dir, IdxName(0)) == OpenedIndex(idx)
    requires CanAppendLog(cfg, k, r) && |idx| / 16 >= cfg.maxIndexEntries >= 1
    ensures AppendLog(cfg, k, r).1 == Err(SegmentFull(0, cfg.maxStoreBytes, MIB))
  {
    ParseZeros(MIB);
    RotatedAppend(cfg, k, OpenAt(k.dir, 0), r);
  }

  lemma AllLost(l: LogState, m: nat)
    requires Consistent(l) && m == |l.segs|
    ensures forall o :: ReadLog(l, o).Ok? ==> Lost(l.segs, 0, m, o)
  {
    forall o: nat | ReadLog(l, o).Ok? ensures Lost(l.segs, 0, m, o) {
      if o < BaseOf(l) { TiledBounds(l.segs, o); }
    }
  }

  lemma LeftOutcome(l: LogState, d: Dir, n: nat, m: nat, k: LogState)
    requires Consistent(l) && l.next < MAX_OFFSET && n + m <= |l.segs| && (n + m < |l.segs| || n > 0)
    requires CrashImages(Left(l.segs, n, m), d) && k == OpenBases(d, BaseSeq(Left(l.segs, n, m)))
    ensures forall o :: ReadLog(l, o).Ok? && !Lost(l.segs, n, m, o) ==> ReadLog(k, o) == ReadLog(l, o)
    ensures 0 < n && 0 < m && n + m < |l.segs| ==> Hole(k, l.segs[n].base, l.segs[n + m].base)
    ensures n + m < |l.segs| || m == 0 ==> k.next == if PaddedEmpty(l, d) then l.next + 1 else l.next
    ensures 0 < m && n + m == |l.segs| ==> k.next == l.segs[n].base
    ensures n == 0 ==> BaseOf(k) == l.segs[m].base
  {
    LeftRecovered(l, d, n, m, k.segs);
    forall o: nat | ReadLog(l, o).Ok? && !Lost(l.segs, n, m, o) ensures ReadLog(k, o) == ReadLog(l, o) {
      LeftReads(l, k, n, m, o);
    }
    if 0 < n && 0 < m && n + m < |l.segs| { HoleReads(l.segs, k, n, m); }
    LeftNext(l, d, n, m, k);
  }

  lemma LeftNext(l: LogState, d: Dir, n: nat, m: nat, k: LogState)
    requires Consistent(l) && l.next < MAX_OFFSET && n + m <= |l.segs| && (n + m < |l.segs| || n > 0)
    requires CrashImages(Left(l.segs, n, m), d) && k == OpenBases(d, BaseSeq(Left(l.segs, n, m)))
    ensures n + m < |l.segs| || m == 0 ==> k.next == if PaddedEmpty(l, d) then l.next + 1 else l.next
    ensures 0 < m && n + m == |l.segs| ==> k.next == l.segs[n].base
    ensures k.segs[0].base == Left(l.segs, n, m)[0].base
  {
    LeftRecovered(l, d, n, m, k.segs);
    var last := Origin(n, m, |k.segs| - 1);
    if n + m < |l.segs| || m == 0 {
      assert last == l.active;
    } else {
      assert last == n - 1 && JoinedAt(l.segs, n - 1);
    }
  }

  lemma LeftReads(l: LogState, k: LogState, n: nat, m: nat, o: nat)
    requires Consistent(l) && n + m <= |l.segs| && (n + m < |l.segs| || n > 0)
    requires LeftRanges(l.segs, k.segs, n, m)
    requires forall i :: 0 <= i < |k.segs| ==> KeepsReads(l.segs[Origin(n, m, i)], k.segs[i])
    requires ReadLog(l, o).Ok? && !Lost(l.segs, n, m, o)
    ensures ReadLog(k, o) == ReadLog(l, o)
  {
    var p := Find(l.segs, o).value;
    LostSegments(l.segs, n, m, o, p);
    var i := if p < n then p else p - m;
    assert Origin(n, m, i) == p;
    FindLeft(l.segs, k.segs, n, m, o, p, i);
    assert KeepsReads(l.segs[p], k.segs[i]);
    assert ReadSeg(l.segs[p], o).Ok?;
    assert ReadSeg(k.segs[i], o) == ReadSeg(l.segs[p], o);
  }

  /** The search finds a segment that is left, whatever holes are in front of it. */
  lemma FindLeft(segs: seq<Seg>, t: seq<Seg>, n: nat, m: nat, o: nat, p: nat, i: nat)
    requires Tiled(segs) && n + m <= |segs| && LeftRanges(segs, t, n, m)
    requires i < |t| && Origin(n, m, i) == p < |segs| && Contains(segs[p], o) && Contains(t[i], o)
    ensures Find(t, o) == Some(i)
  {
    forall j | 0 <= j < i ensures !Contains(t[j], o) {
      TiledOrder(segs, Origin(n, m, j), p);
    }
  }

  lemma LostSegments(segs: seq<Seg>, n: nat, m: nat, o: nat, p: nat)
    requires Tiled(segs) && n + m <= |segs| && p < |segs| && Contains(segs[p], o)
    ensures Lost(segs, n, m, o) <==> n <= p < n + m
  {
    if p < n && m > 0 {
      TiledOrder(segs, p, n);
    } else if n < p {
      TiledOrder(segs, n, p);
    }
    if p < n + m < |segs| {
      TiledOrder(segs, p, n + m);
    } else if n + m < p {
      TiledOrder(segs, n + m, p);
    }
  }

  lemma HoleReads(segs: seq<Seg>, k: LogState, n: nat, m: nat)
    requires Tiled(segs) && 0 < n && 0 < m && n + m < |segs|
    requires LeftRanges(segs, k.segs, n, m) && k.next == k.segs[|k.segs| - 1].next
    ensures Hole(k, segs[n].base, segs[n + m].base)
  {
    forall p: nat | segs[n].base <= p < segs[n + m].base
      ensures ReadLog(k, p) == Err(OffsetNotFound(p, BaseOf(k), k.next))
    {
      NotInHole(segs, k.segs, n, m, p);
    }
    if |k.segs| - 1 > n { TiledOrder(segs, n + m, |segs| - 1); }
  }

  lemma NotInHole(segs: seq<Seg>, t: seq<Seg>, n: nat, m: nat, p: nat)
    requires Tiled(segs) && 0 < n && 0 < m && n + m < |segs| && LeftRanges(segs, t, n, m)
    requires segs[n].base <= p < segs[n + m].base
    ensures Find(t, p) == None
  {
    forall i | 0 <= i < |t| ensures !Contains(t[i], p) {
      if i < n {
        TiledOrder(segs, i, n);
      } else if i > n {
        TiledOrder(segs, n + m, i + m);
      }
    }
  }

  // ----- An index file without its store file -----

  /** The log that comes back when the store file of the last segment is gone and its index file is still there. */
  lemma StaleIndex(l: LogState, offset: nat, before: Dir, listing: seq<string>, n: nat, k: LogState)
    requires SoundLog(l) && l.next < MAX_OFFSET && CrashInTruncate(l, offset, 1, true, before, listing)
    requires n == KeptCount(l.segs, offset) && 0 < n == |l.segs| - 1
    requires k == OpenLog(Removed(before, l.segs, n, 1, true), listing)
    ensures Consistent(k) && k.next == l.segs[n].base && k.segs[k.active].base < k.next
    ensures FileOf(k.dir, LogName(k.next)) == [] && FileOf(k.dir, IdxName(k.next)) == FileOf(before, IdxName(k.next))
  {
    var d, b := Removed(before, l.segs, n, 1, true), l.segs[n].base;
    LeftLoads(l, offset, 1, true, before, listing);
    LeftImages(l, before, n, 1, true);
    StaleSegments(l, d, n, k);
    StaleFiles(l, before, n);
  }

  lemma StaleSegments(l: LogState, d: Dir, n: nat, k: LogState)
    requires Consistent(l) && l.next < MAX_OFFSET && 0 < n == |l.segs| - 1
    requires CrashImages(Left(l.segs, n, 1), d) && k == OpenBases(d, BaseSeq(Left(l.segs, n, 1)))
    ensures Consistent(k) && k.next == l.segs[n].base && k.segs[k.active].base < k.next
  {
    LeftConsistent(l, d, n, 1, k);
    LeftNext(l, d, n, 1, k);
    assert BaseSeq(k.segs)[n - 1] == l.segs[n - 1].base;
    assert JoinedAt(l.segs, n - 1);
  }

  lemma StaleFiles(l: LogState, before: Dir, n: nat)
    requires Consistent(l) && 0 < n == |l.segs| - 1 && Agree(before.Keys, BaseSeq(l.segs))
    ensures var d, b := Removed(before, l.segs, n, 1, true), l.segs[n].base;
            var k := CreateAll(d, BaseSeq(Left(l.segs, n, 1)));
            FileOf(k, LogName(b)) == [] && FileOf(k, IdxName(b)) == FileOf(before, IdxName(b))
  {
    var d, b := Removed(before, l.segs, n, 1, true), l.segs[n].base;
    SoundBases(l);
    RemovedName(l, before, n, 1, true, b);
    LeftBaseOf(l.segs, n, 1, n);
    LeftBaseOf(l.segs, n, 0, n);
    OthersUntouched(d, BaseSeq(Left(l.segs, n, 1)), b);
  }

  /**
   How an append answers that rotates onto the index file `idx` left by a
   segment: with the next offset only if the file holds no entry.  Otherwise
   it is refused, or the record goes behind the offsets of that segment, and
   an old entry at position 0 reads it a second time.
   */
  predicate ReusesIndex(cfg: Config, k: LogState, dropped: Seg, idx: seq<Byte>, r: Record)
    requires CanAppendLog(cfg, k, r)
  {
    var (m, reply) := AppendLog(cfg, k, r);
    && reply ==
       (if |idx| / 16 >= cfg.maxIndexEntries then Err(SegmentFull(k.next, cfg.maxStoreBytes, 0))
        else Ok(if dropped.entries == [] && |idx| >= 16 then dropped.next + 1 else dropped.next))
    && (reply == Ok(k.next) <==> |idx| < 16)
    && (reply.Ok? ==> ReadLog(m, reply.value) == Ok(r))
    && (reply.Ok? && Lookup(dropped.entries, k.next) == Some(0) ==> ReadLog(m, k.next) == Ok(r))
  }

  /** The next append that rotates after such a crash opens the stale index over a new store. */
  lemma StaleIndexReused(
    cfg: Config, l: LogState, offset: nat, before: Dir, listing: seq<string>, n: nat, k: LogState, r: Record)
    requires cfg.Sane() && SoundLog(l) && l.next < MAX_OFFSET && CrashInTruncate(l, offset, 1, true, before, listing)
    requires n == KeptCount(l.segs, offset) && 0 < n == |l.segs| - 1
    requires k == OpenLog(Removed(before, l.segs, n, 1, true), listing)
    requires k.active < |k.segs| && Full(cfg, k.segs[k.active]) && CanAppendLog(cfg, k, r)
    ensures ReusesIndex(cfg, k, l.segs[n], FileOf(before, IdxName(k.next)), r)
  {
    StaleIndex(l, offset, before, listing, n, k);
    assert CrashImage(l.segs[n], before);
    StaleRotation(cfg, k, l.segs[n], FileOf(before, IdxName(k.next)), r);
  }

  /** Rotating onto a stale index file: `dropped` is the segment it belonged to. */
  lemma StaleRotation(cfg: Config, k: LogState, dropped: Seg, idx: seq<Byte>, r: Record)
    requires cfg.Sane() && Consistent(k) && k.segs[k.active].base < k.next == dropped.base
    requires Sound(dropped) && Padded(idx, dropped.entries)
    requires FileOf(k.dir, LogName(k.next)) == [] && FileOf(k.dir, IdxName(k.next)) == idx
    requires Full(cfg, k.segs[k.active]) && CanAppendLog(cfg, k, r)
    ensures ReusesIndex(cfg, k, dropped, idx, r)
  {
    var s := OpenSeg(k.next, [], idx);
    StaleOpened(dropped, idx, s);
    RotatedAppend(cfg, k, s, r);
    if |s.entries| < cfg.maxIndexEntries {
      StaleAppend(k, s, AppendLog(cfg, k, r).0, r);
    }
  }

  /** Opening the padded index of a segment over an empty store. */
  lemma StaleOpened(dropped: Seg, idx: seq<Byte>, s: Seg)
    requires Sound(dropped) && Padded(idx, dropped.entries) && s == OpenSeg(dropped.base, [], idx)
    ensures s.base == dropped.base && s.data == [] && |s.entries| == |idx| / 16 && EntriesBelowNext(s)
    ensures s.next == if dropped.entries == [] && |idx| >= 16 then dropped.next + 1 else dropped.next
    ensures s.next == s.base <==> |idx| < 16
    ensures Lookup(dropped.entries, s.base) == Some(0) ==> Lookup(s.entries, s.base) == Some(0)
  {
    var k := |idx| - 16 * |dropped.entries|;
    DecodePadded(dropped.entries, k);
    NextOfPadded(dropped.base, dropped.entries, k / 16);
    OpenIsSound(dropped.base, [], idx);
    HighestIsMax(s.base, s.entries);
    LookupConcat(dropped.entries, seq(k / 16, i => ZERO_ENTRY), s.base);
  }

  /** A record appended to a segment that had entries but no data. */
  lemma StaleAppend(k: LogState, s: Seg, m: LogState, r: Record)
    requires Consistent(k) && k.segs[k.active].base < k.next == s.base && EntriesBelowNext(s) && s.data == []
    requires Room(s, r) && m.segs == k.segs + [AppendSeg(s, r)]
    ensures ReadLog(m, s.next) == Ok(r)
    ensures Lookup(s.entries, s.base) == Some(0) ==> ReadLog(m, s.base) == Ok(r)
  {
    var t := AppendSeg(s, r);
    AppendReadsBack(s, r);
    TiledSnoc(k.segs, t);
    FindExact(m.segs, s.next, |k.segs|);
    FindExact(m.segs, s.base, |k.segs|);
    LookupConcat(s.entries, [Entry(s.next, 0)], s.base);
    ReadAtFrame([], r);
    assert [] + Frame(r) == Frame(r);
  }
}
