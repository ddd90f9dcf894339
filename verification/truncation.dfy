/** Truncation keeps the log consistent exactly at segment boundaries. */
module Truncation {
  import opened Bytes
  import opened Results
  import opened SegmentModel
  import opened Names
  import opened Listing
  import opened LogModel
  import opened SoundLogs

  /** An offset at or below the first base, at a segment's base, or at the end of the log. */
  predicate Boundary(l: LogState, offset: nat) {
    offset <= BaseOf(l) || offset in BaseSeq(l.segs) || offset == l.next
  }

  /** The number of segments with a base below `offset`. */
  function KeptCount(segs: seq<Seg>, offset: nat): (n: nat)
    ensures n <= |segs|
  {
    if segs == [] then 0
    else KeptCount(segs[..|segs| - 1], offset) + if segs[|segs| - 1].base < offset then 1 else 0
  }

  lemma AscendingInit(segs: seq<Seg>)
    requires segs != [] && Ascending(BaseSeq(segs))
    ensures Ascending(BaseSeq(segs[..|segs| - 1]))
    ensures forall i :: 0 <= i < |segs| - 1 ==> segs[i].base < segs[|segs| - 1].base
  {
    assert BaseSeq(segs[..|segs| - 1]) == BaseSeq(segs)[..|segs| - 1];
    forall i | 0 <= i < |segs| - 1 ensures segs[i].base < segs[|segs| - 1].base {
      assert BaseSeq(segs)[i] < BaseSeq(segs)[|segs| - 1];
    }
  }

  lemma {:induction false} KeptBelow(segs: seq<Seg>, offset: nat)
    requires Ascending(BaseSeq(segs))
    ensures forall i :: 0 <= i < |segs| ==> (segs[i].base < offset <==> i < KeptCount(segs, offset))
  {
    if segs != [] {
      AscendingInit(segs);
      KeptBelow(segs[..|segs| - 1], offset);
      assert forall i :: 0 <= i < |segs| - 1 ==> segs[..|segs| - 1][i] == segs[i];
    }
  }

  lemma {:induction false} RetainPrefix(segs: seq<Seg>, offset: nat)
    requires Ascending(BaseSeq(segs))
    ensures Retain(segs, offset) == segs[..KeptCount(segs, offset)]
    ensures forall i :: 0 <= i < |segs| ==> (segs[i].base < offset <==> i < KeptCount(segs, offset))
  {
    KeptBelow(segs, offset);
    if segs != [] {
      var init := segs[..|segs| - 1];
      AscendingInit(segs);
      RetainPrefix(init, offset);
      if segs[|segs| - 1].base < offset {
        assert KeptCount(init, offset) == |init|;
        assert segs == init + [segs[|segs| - 1]];
      } else {
        assert init[..KeptCount(init, offset)] == segs[..KeptCount(init, offset)];
      }
    }
  }

  /** Exactly the files of the segments at or above the offset are deleted. */
  lemma {:induction false} DeletedNames(d: Dir, segs: seq<Seg>, offset: nat, name: string)
    ensures name in DeleteFrom(d, segs, offset) <==>
            && name in d
            && forall i :: 0 <= i < |segs| && segs[i].base >= offset ==>
                 name != LogName(segs[i].base) && name != IdxName(segs[i].base)
  {
    if segs != [] {
      var n := |segs| - 1;
      DeletedNames(d, segs[..n], offset, name);
      assert forall i :: 0 <= i < n ==> segs[..n][i] == segs[i];
    }
  }

  /** The files of segment `k` are still there when the earlier ones have been dealt with. */
  lemma StillThere(l: LogState, offset: nat, k: nat)
    requires Housed(l) && k < |l.segs|
    ensures LogName(l.segs[k].base) in DeleteFrom(l.dir, l.segs[..k], offset)
    ensures IdxName(l.segs[k].base) in DeleteFrom(l.dir, l.segs[..k], offset)
  {
    SoundBases(l);
    FilesPresent(l);
    DeletedNames(l.dir, l.segs[..k], offset, LogName(l.segs[k].base));
    DeletedNames(l.dir, l.segs[..k], offset, IdxName(l.segs[k].base));
    forall i | 0 <= i < k
      ensures LogName(l.segs[k].base) != LogName(l.segs[i].base) && LogName(l.segs[k].base) != IdxName(l.segs[i].base)
      ensures IdxName(l.segs[k].base) != LogName(l.segs[i].base) && IdxName(l.segs[k].base) != IdxName(l.segs[i].base)
    {
      TiledOrder(l.segs, i, k);
      NamesDistinct(l.segs[k].base, l.segs[i].base);
      NamesDistinct(l.segs[i].base, l.segs[k].base);
    }
  }

  lemma {:induction false} NothingMissing(l: LogState, offset: nat, k: nat)
    requires Housed(l) && k <= |l.segs|
    ensures RemoveFrom(l.dir, l.segs[..k], offset).1 == None
  {
    if k > 0 {
      NothingMissing(l, offset, k - 1);
      RemoveIsDelete(l.dir, l.segs[..k - 1], offset);
      StillThere(l, offset, k - 1);
      assert l.segs[..k][..k - 1] == l.segs[..k - 1];
    }
  }

  /** Truncation cannot fail as long as the directory agrees with the segments. */
  lemma HousedTruncates(l: LogState, offset: nat)
    requires Housed(l)
    ensures TryTruncate(l, offset) == (TruncateLog(l, offset), None)
  {
    NothingMissing(l, offset, |l.segs|);
    assert l.segs[..|l.segs|] == l.segs;
  }

  lemma DeletedAgree(l: LogState, offset: nat)
    requires Housed(l)
    ensures Agree(DeleteFrom(l.dir, l.segs, offset).Keys, BaseSeq(Retain(l.segs, offset)))
  {
    var d, kept := DeleteFrom(l.dir, l.segs, offset), Retain(l.segs, offset);
    TiledAscending(l.segs);
    SoundBases(l);
    RetainPrefix(l.segs, offset);
    forall name | name in d ensures name in l.dir {
      DeletedNames(l.dir, l.segs, offset, name);
    }
    forall b: U64
      ensures LogName(b) in d.Keys <==> b in BaseSeq(kept)
      ensures IdxName(b) in d.Keys <==> b in BaseSeq(kept)
    {
      DeletedNames(l.dir, l.segs, offset, LogName(b));
      DeletedNames(l.dir, l.segs, offset, IdxName(b));
      KeptBase(l, offset, b);
      forall i | 0 <= i < |l.segs|
        ensures LogName(b) == LogName(l.segs[i].base) ==> b == l.segs[i].base
        ensures IdxName(b) == IdxName(l.segs[i].base) ==> b == l.segs[i].base
        ensures LogName(b) != IdxName(l.segs[i].base) && IdxName(b) != LogName(l.segs[i].base)
      {
        NamesDistinct(b, l.segs[i].base);
        NamesDistinct(l.segs[i].base, b);
      }
    }
  }

  lemma KeptBase(l: LogState, offset: nat, b: nat)
    requires Tiled(l.segs)
    ensures b in BaseSeq(Retain(l.segs, offset)) <==> b in BaseSeq(l.segs) && b < offset
    ensures b in BaseSeq(l.segs) <==> exists i :: 0 <= i < |l.segs| && l.segs[i].base == b
  {
    TiledAscending(l.segs);
    RetainPrefix(l.segs, offset);
    var kept := Retain(l.segs, offset);
    if b in BaseSeq(l.segs) && b < offset {
      var i :| 0 <= i < |l.segs| && BaseSeq(l.segs)[i] == b;
      assert BaseSeq(kept)[i] == b;
    }
    if b in BaseSeq(kept) {
      var i :| 0 <= i < |kept| && BaseSeq(kept)[i] == b;
      assert BaseSeq(l.segs)[i] == b;
    }
    if i :| 0 <= i < |l.segs| && l.segs[i].base == b {
      assert BaseSeq(l.segs)[i] == b;
    }
  }

  lemma TiledPrefix(segs: seq<Seg>, n: nat)
    requires Tiled(segs) && 0 < n <= |segs|
    ensures Tiled(segs[..n])
    ensures n < |segs| ==> segs[n - 1].next == segs[n].base
  {
    var t := segs[..n];
    forall i | 0 <= i < n - 1 ensures JoinedAt(t, i) {
      assert JoinedAt(segs, i);
    }
    if n < |segs| { assert JoinedAt(segs, n - 1); }
  }

  lemma BaseIndex(l: LogState, offset: nat)
    requires Tiled(l.segs) && KeptCount(l.segs, offset) < |l.segs|
    ensures offset in BaseSeq(l.segs) <==> l.segs[KeptCount(l.segs, offset)].base == offset
  {
    var n := KeptCount(l.segs, offset);
    TiledAscending(l.segs);
    RetainPrefix(l.segs, offset);
    assert BaseSeq(l.segs)[n] == l.segs[n].base >= offset;
    assert forall i :: 0 <= i < n ==> BaseSeq(l.segs)[i] == l.segs[i].base < offset;
    assert forall i :: n < i < |l.segs| ==> offset < BaseSeq(l.segs)[i];
  }

  /** The counter of the last segment that truncation keeps is the truncation point exactly at a boundary. */
  lemma KeptEndIff(l: LogState, offset: nat)
    requires Shaped(l) && offset > BaseOf(l)
    ensures 0 < KeptCount(l.segs, offset)
    ensures l.segs[KeptCount(l.segs, offset) - 1].next == offset <==> Boundary(l, offset)
  {
    var n := KeptCount(l.segs, offset);
    TiledAscending(l.segs);
    RetainPrefix(l.segs, offset);
    assert n > 0 by { assert l.segs[0].base < offset; }
    TiledPrefix(l.segs, n);
    if n < |l.segs| {
      BaseIndex(l, offset);
      SoundBases(l);
    } else {
      NoBaseAbove(l, offset);
    }
  }

  lemma NoBaseAbove(l: LogState, offset: nat)
    requires Tiled(l.segs) && KeptCount(l.segs, offset) == |l.segs|
    ensures offset !in BaseSeq(l.segs)
  {
    TiledAscending(l.segs);
    RetainPrefix(l.segs, offset);
    assert forall i :: 0 <= i < |l.segs| ==> BaseSeq(l.segs)[i] == l.segs[i].base < offset;
  }

  lemma TruncateToNothing(l: LogState, offset: nat)
    requires Housed(l) && offset <= BaseOf(l)
    ensures Housed(TruncateLog(l, offset))
    ensures TruncateLog(l, offset).segs == [Seg(offset, offset, [], [])]
  {
    var d := DeleteFrom(l.dir, l.segs, offset);
    TiledAscending(l.segs);
    SoundBases(l);
    RetainPrefix(l.segs, offset);
    assert KeptCount(l.segs, offset) == 0 by { assert !(l.segs[0].base < offset); }
    DeletedAgree(l, offset);
    FreshSegment(d, offset);
    CreatedAgree(d, [], offset);
    assert BaseSeq([OpenAt(d, offset)]) == [] + [offset];
  }

  /** Above the first base, truncation keeps the segments that start below the offset. */
  lemma TruncateToSome(l: LogState, offset: nat)
    requires Housed(l) && BaseOf(l) < offset <= MAX_OFFSET
    ensures 0 < KeptCount(l.segs, offset) <= |l.segs|
    ensures TruncateLog(l, offset).segs == l.segs[..KeptCount(l.segs, offset)]
    ensures Housed(TruncateLog(l, offset)) <==> Boundary(l, offset)
  {
    TiledAscending(l.segs);
    RetainPrefix(l.segs, offset);
    DeletedAgree(l, offset);
    KeptEndIff(l, offset);
    TiledPrefix(l.segs, KeptCount(l.segs, offset));
  }

  /**
   Truncation leaves a consistent log exactly at a boundary.  Anywhere else
   the log's counter and the kept segment's counter part ways.
   */
  lemma TruncateSoundIff(l: LogState, offset: nat)
    requires SoundLog(l) && offset <= MAX_OFFSET
    ensures SoundLog(TruncateLog(l, offset)) <==> Boundary(l, offset)
  {
    if offset <= BaseOf(l) {
      TruncateToNothing(l, offset);
      FreshSegment(map[], offset);
    } else {
      TruncateToSome(l, offset);
    }
  }

  /** Truncation at a boundary keeps exactly the reads below it, and the next append returns it. */
  lemma TruncateReads(l: LogState, offset: nat, p: nat)
    requires SoundLog(l) && offset <= MAX_OFFSET && Boundary(l, offset)
    ensures TruncateLog(l, offset).next == offset
    ensures ReadLog(TruncateLog(l, offset), p) ==
            if BaseOf(l) <= p < offset then ReadLog(l, p)
            else Err(OffsetNotFound(p, if offset <= BaseOf(l) then offset else BaseOf(l), offset))
  {
    var k := TruncateLog(l, offset);
    TruncateSoundIff(l, offset);
    if offset <= BaseOf(l) {
      TruncateToNothing(l, offset);
    } else {
      TruncateToSome(l, offset);
    }
    if BaseOf(l) <= p < offset {
      TruncatedRead(l, k, p);
    } else {
      TiledBounds(k.segs, p);
    }
  }

  lemma TruncatedRead(l: LogState, k: LogState, p: nat)
    requires Tiled(l.segs) && Tiled(k.segs) && |k.segs| <= |l.segs| && k.segs == l.segs[..|k.segs|]
    requires l.segs[0].base <= p < k.segs[|k.segs| - 1].next
    ensures ReadLog(k, p) == ReadLog(l, p)
  {
    var i := TiledCovers(k.segs, p);
    FindExact(k.segs, p, i);
    FindExact(l.segs, p, i);
  }

  // ----- Truncating anywhere else -----

  /** Truncation strictly inside segment `i` keeps that segment whole, and its records are still read. */
  lemma TruncateInside(l: LogState, offset: nat, i: nat)
    requires SoundLog(l) && i < |l.segs| && l.segs[i].base < offset < l.segs[i].next
    ensures TruncateLog(l, offset).next == offset && TruncateLog(l, offset).active == i
    ensures TruncateLog(l, offset).segs == l.segs[..i + 1]
    ensures forall p :: offset <= p < l.segs[i].next ==> ReadLog(TruncateLog(l, offset), p) == ReadLog(l, p)
  {
    var k := TruncateLog(l, offset);
    TiledAscending(l.segs);
    RetainPrefix(l.segs, offset);
    if i + 1 < |l.segs| { TiledOrder(l.segs, i, i + 1); }
    assert KeptCount(l.segs, offset) == i + 1;
    TiledPrefix(l.segs, i + 1);
    forall p | offset <= p < l.segs[i].next ensures ReadLog(k, p) == ReadLog(l, p) {
      FindExact(l.segs, p, i);
      FindExact(k.segs, p, i);
    }
  }

  /** No file has the name of a segment at the truncation point: the kept segments all start below it. */
  lemma CutIsFresh(l: LogState, offset: nat)
    requires Housed(l) && offset <= MAX_OFFSET
    ensures LogName(offset) !in DeleteFrom(l.dir, l.segs, offset)
    ensures IdxName(offset) !in DeleteFrom(l.dir, l.segs, offset)
  {
    DeletedAgree(l, offset);
    KeptBase(l, offset, offset);
  }

  /** What rotation opens at the truncation point, and the append that follows. */
  lemma RotateAtCut(cfg: Config, l: LogState, k: LogState, r: Record)
    requires cfg.Sane() && Housed(l) && k == TruncateLog(l, k.next) && BaseOf(l) < k.next <= MAX_OFFSET
    requires k.active < |k.segs| && Full(cfg, k.segs[k.active]) && CanAppendLog(cfg, k, r)
    ensures AppendLog(cfg, k, r).1 == Ok(k.next)
    ensures AppendLog(cfg, k, r).0.segs == k.segs + [AppendSeg(Seg(k.next, k.next, [], []), r)]
  {
    TruncateToSome(l, k.next);
    CutIsFresh(l, k.next);
    FreshSegment(k.dir, k.next);
    RotatedAppend(cfg, k, Seg(k.next, k.next, [], []), r);
  }

  /**
   The next append after truncation strictly inside segment `i`.  If that
   segment is full (as every segment but the last is in a crash-free log), a
   new segment is started at the truncation point and the append returns it,
   but every offset up to the old end of segment `i` is still read from
   there: the record just acknowledged cannot be read.  Otherwise the append
   returns the old end of the segment, where the record is read back.
   */
  lemma AppendInside(cfg: Config, l: LogState, offset: nat, i: nat, r: Record)
    requires cfg.Sane() && SoundLog(l) && i < |l.segs| && l.segs[i].base < offset < l.segs[i].next
    requires CanAppendLog(cfg, TruncateLog(l, offset), r)
    ensures var (m, reply) := AppendLog(cfg, TruncateLog(l, offset), r);
            && reply == Ok(if Full(cfg, l.segs[i]) then offset else l.segs[i].next)
            && (ReadLog(m, reply.value) == Ok(r) <==> !Full(cfg, l.segs[i]) || ReadLog(l, offset) == Ok(r))
            && forall p :: offset <= p < l.segs[i].next && ReadLog(l, p).Ok? ==> ReadLog(m, p) == ReadLog(l, p)
  {
    TruncateInside(l, offset, i);
    if Full(cfg, l.segs[i]) {
      ShadowedAppend(cfg, l, offset, i, r);
    } else {
      ContinuedAppend(cfg, l, offset, i, r);
    }
  }

  lemma InsideIsAboveBase(l: LogState, offset: nat, i: nat)
    requires SoundLog(l) && i < |l.segs| && l.segs[i].base < offset < l.segs[i].next
    ensures BaseOf(l) < offset < MAX_OFFSET
  {
    SoundBases(l);
    if i > 0 { TiledOrder(l.segs, 0, i); }
  }

  lemma ShadowedAppend(cfg: Config, l: LogState, offset: nat, i: nat, r: Record)
    requires cfg.Sane() && SoundLog(l) && i < |l.segs| && l.segs[i].base < offset < l.segs[i].next
    requires CanAppendLog(cfg, TruncateLog(l, offset), r) && Full(cfg, l.segs[i])
    ensures AppendLog(cfg, TruncateLog(l, offset), r).1 == Ok(offset)
    ensures forall p :: offset <= p < l.segs[i].next ==>
              ReadLog(AppendLog(cfg, TruncateLog(l, offset), r).0, p) == ReadLog(l, p)
  {
    var k := TruncateLog(l, offset);
    var m := AppendLog(cfg, k, r).0;
    TruncateInside(l, offset, i);
    InsideIsAboveBase(l, offset, i);
    RotateAtCut(cfg, l, k, r);
    TiledPrefix(l.segs, i + 1);
    ShadowedReads(l, k, m, AppendSeg(Seg(offset, offset, [], []), r), offset, i);
  }

  lemma ShadowedReads(l: LogState, k: LogState, m: LogState, added: Seg, offset: nat, i: nat)
    requires Tiled(k.segs) && i < |k.segs| && i < |l.segs| && k.segs[i] == l.segs[i] && m.segs == k.segs + [added]
    requires l.segs[i].base < offset
    requires forall p :: offset <= p < l.segs[i].next ==> ReadLog(k, p) == ReadLog(l, p)
    ensures forall p :: offset <= p < l.segs[i].next ==> ReadLog(m, p) == ReadLog(l, p)
  {
    forall p | offset <= p < l.segs[i].next ensures ReadLog(m, p) == ReadLog(l, p) {
      ShadowedRead(k, m, added, p, i);
      assert ReadLog(k, p) == ReadLog(l, p);
    }
  }

  lemma ShadowedRead(k: LogState, m: LogState, added: Seg, p: nat, i: nat)
    requires Tiled(k.segs) && i < |k.segs| && Contains(k.segs[i], p) && m.segs == k.segs + [added]
    ensures ReadLog(m, p) == ReadLog(k, p)
  {
    FindExact(k.segs, p, i);
    FindInFront(k.segs, [added], p);
  }

  lemma ContinuedAppend(cfg: Config, l: LogState, offset: nat, i: nat, r: Record)
    requires SoundLog(l) && i < |l.segs| && l.segs[i].base < offset < l.segs[i].next
    requires CanAppendLog(cfg, TruncateLog(l, offset), r) && !Full(cfg, l.segs[i])
    ensures var (m, reply) := AppendLog(cfg, TruncateLog(l, offset), r);
            && reply == Ok(l.segs[i].next) && ReadLog(m, l.segs[i].next) == Ok(r)
            && forall p :: offset <= p < l.segs[i].next && ReadLog(l, p).Ok? ==> ReadLog(m, p) == ReadLog(l, p)
  {
    var k, s := TruncateLog(l, offset), l.segs[i];
    var m := AppendLog(cfg, k, r).0;
    TruncateInside(l, offset, i);
    TiledPrefix(l.segs, i + 1);
    AppendLast(cfg, k, i, r);
    forall p | offset <= p < s.next && ReadLog(l, p).Ok? ensures ReadLog(m, p) == ReadLog(l, p) {
      ContinuedRead(l, m, i, p);
    }
  }

  lemma AppendLast(cfg: Config, k: LogState, i: nat, r: Record)
    requires Tiled(k.segs) && |k.segs| == i + 1 && k.active == i && Sound(k.segs[i]) && !Full(cfg, k.segs[i])
    requires CanAppendLog(cfg, k, r)
    ensures var (m, reply) := AppendLog(cfg, k, r);
            && reply == Ok(k.segs[i].next) && ReadLog(m, k.segs[i].next) == Ok(r)
            && Tiled(m.segs) && |m.segs| == i + 1 && KeepsReads(k.segs[i], m.segs[i])
  {
    var s := k.segs[i];
    SoundBelowNext(s);
    AppendReadsBack(s, r);
    TiledUpdateLast(k.segs, AppendSeg(s, r));
    FindExact(k.segs[i := AppendSeg(s, r)], s.next, i);
  }

  lemma ContinuedRead(l: LogState, m: LogState, i: nat, p: nat)
    requires Tiled(l.segs) && Tiled(m.segs) && i < |l.segs| && i < |m.segs| && KeepsReads(l.segs[i], m.segs[i])
    requires Contains(l.segs[i], p) && ReadLog(l, p).Ok?
    ensures ReadLog(m, p) == ReadLog(l, p)
  {
    FindExact(l.segs, p, i);
    assert ReadSeg(l.segs[i], p).Ok?;
    FindExact(m.segs, p, i);
  }

  /**
   Truncation beyond the end removes nothing, but the next append goes to the
   old end unless the active segment is full; then it goes to the truncation
   point, and no offset between the two can be read.
   */
  lemma AppendBeyond(cfg: Config, l: LogState, offset: nat, r: Record)
    requires cfg.Sane() && SoundLog(l) && l.next < offset <= MAX_OFFSET
    requires CanAppendLog(cfg, TruncateLog(l, offset), r)
    ensures var (m, reply) := AppendLog(cfg, TruncateLog(l, offset), r);
            && reply == Ok(if Full(cfg, l.segs[l.active]) then offset else l.next)
            && ReadLog(m, reply.value) == Ok(r)
            && forall p :: l.next <= p < reply.value ==> ReadLog(m, p) == Err(OffsetNotFound(p, BaseOf(l), m.next))
  {
    var k := TruncateLog(l, offset);
    TruncateBeyond(l, offset);
    if Full(cfg, l.segs[l.active]) {
      RotateAtCut(cfg, l, k, r);
      GapAppend(cfg, l, k, AppendLog(cfg, k, r).0, r);
    } else {
      var s := l.segs[l.active];
      SoundBelowNext(s);
      AppendReadsBack(s, r);
      TiledUpdateLast(l.segs, AppendSeg(s, r));
      FindExact(l.segs[l.active := AppendSeg(s, r)], s.next, l.active);
    }
  }

  lemma TruncateBeyond(l: LogState, offset: nat)
    requires SoundLog(l) && l.next < offset <= MAX_OFFSET
    ensures BaseOf(l) < offset
    ensures TruncateLog(l, offset).segs == l.segs && TruncateLog(l, offset).active == l.active
    ensures TruncateLog(l, offset).next == offset
  {
    SoundBases(l);
    TruncateToSome(l, offset);
    TiledAscending(l.segs);
    RetainPrefix(l.segs, offset);
    assert KeptCount(l.segs, offset) == |l.segs| by {
      assert l.segs[|l.segs| - 1].base < offset;
    }
  }

  lemma GapAppend(cfg: Config, l: LogState, k: LogState, m: LogState, r: Record)
    requires SoundLog(l) && l.next < k.next && Room(Seg(k.next, k.next, [], []), r)
    requires m.segs == l.segs + [AppendSeg(Seg(k.next, k.next, [], []), r)]
    ensures ReadLog(m, k.next) == Ok(r)
    ensures forall p :: l.next <= p < k.next ==> ReadLog(m, p) == Err(OffsetNotFound(p, BaseOf(l), m.next))
  {
    var added := Seg(k.next, k.next, [], []);
    AppendReadsBack(added, r);
    SoundBases(l);
    assert forall j :: 0 <= j < |l.segs| ==> m.segs[j] == l.segs[j];
    assert Contains(m.segs[|l.segs|], k.next);
  }
}
