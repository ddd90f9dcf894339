/**
 The log stands for something simple: a base offset and a sequence of
 records.  In crash-free runs the whole stack of bytes, index entries and
 segments behaves exactly like it.
 */
module Refinement {
  import opened Bytes
  import opened Results
  import opened Framing
  import opened SegmentModel
  import opened Listing
  import opened LogModel
  import opened SoundLogs
  import opened Truncation

  datatype AbsLog = AbsLog(base: nat, records: seq<Record>)

  function Flat(parts: seq<seq<Record>>): seq<Record> {
    if parts == [] then [] else Flat(parts[..|parts| - 1]) + parts[|parts| - 1]
  }

  predicate HoldsPart(s: Seg, part: seq<Record>) {
    Fits(s.base, part) && s == SegOf(s.base, part)
  }

  /** The segments hold exactly `parts`, one each. */
  predicate HoldParts(segs: seq<Seg>, parts: seq<seq<Record>>) {
    && |parts| == |segs|
    && forall i {:trigger HoldsPart(segs[i], parts[i])} :: 0 <= i < |segs| ==> HoldsPart(segs[i], parts[i])
  }

  ghost predicate Clean(l: LogState, parts: seq<seq<Record>>) {
    Housed(l) && HoldParts(l.segs, parts)
  }

  /** The abstraction relation. */
  ghost predicate Represents(l: LogState, a: AbsLog) {
    exists parts {:trigger Clean(l, parts)} :: Clean(l, parts) && a == AbsLog(BaseOf(l), Flat(parts))
  }

  // ----- Where the records of a segment lie in the flat sequence -----

  lemma {:induction false} FlatAt(segs: seq<Seg>, parts: seq<seq<Record>>, i: nat, o: nat)
    requires Tiled(segs) && HoldParts(segs, parts)
    requires i < |segs| && Contains(segs[i], o)
    ensures segs[|segs| - 1].next == segs[0].base + |Flat(parts)|
    ensures segs[0].base <= o && o - segs[0].base < |Flat(parts)|
    ensures HoldsPart(segs[i], parts[i]) && Flat(parts)[o - segs[0].base] == parts[i][o - segs[i].base]
    decreases |segs|
  {
    var n := |segs| - 1;
    assert HoldsPart(segs[n], parts[n]);
    FlatLength(segs, parts);
    if n > 0 {
      TiledPrefix(segs, n);
      FlatLength(segs[..n], parts[..n]);
      if i < n {
        FlatAt(segs[..n], parts[..n], i, o);
      }
    }
  }

  lemma {:induction false} FlatLength(segs: seq<Seg>, parts: seq<seq<Record>>)
    requires Tiled(segs) && HoldParts(segs, parts)
    ensures segs[|segs| - 1].next == segs[0].base + |Flat(parts)|
    decreases |segs|
  {
    var n := |segs| - 1;
    assert HoldsPart(segs[n], parts[n]);
    if n > 0 {
      TiledPrefix(segs, n);
      FlatLength(segs[..n], parts[..n]);
    } else {
      assert Flat(parts[..0]) == [];
    }
  }

  // ----- Each operation refines its abstract counterpart -----

  /** Reading any offset is indexing the sequence; out of range is OffsetNotFound. */
  lemma ReadRefines(l: LogState, parts: seq<seq<Record>>, o: nat)
    requires Clean(l, parts)
    ensures l.next == BaseOf(l) + |Flat(parts)|
    ensures ReadLog(l, o) ==
            if BaseOf(l) <= o < l.next then Ok(Flat(parts)[o - BaseOf(l)])
            else Err(OffsetNotFound(o, BaseOf(l), l.next))
  {
    FlatLength(l.segs, parts);
    if BaseOf(l) <= o < l.next {
      var i := TiledCovers(l.segs, o);
      FindExact(l.segs, o, i);
      FlatAt(l.segs, parts, i, o);
      ReadPart(l.segs[i], parts[i], o);
    } else {
      TiledBounds(l.segs, o);
    }
  }

  lemma ReadRepresented(l: LogState, a: AbsLog, o: nat)
    requires Represents(l, a)
    ensures BaseOf(l) == a.base && l.next == a.base + |a.records|
    ensures ReadLog(l, o) ==
            if a.base <= o < l.next then Ok(a.records[o - a.base]) else Err(OffsetNotFound(o, a.base, l.next))
  {
    var parts :| Clean(l, parts) && a == AbsLog(BaseOf(l), Flat(parts));
    ReadRefines(l, parts, o);
  }

  lemma ReadPart(s: Seg, part: seq<Record>, o: nat)
    requires HoldsPart(s, part) && Contains(s, o)
    ensures s.base <= o < s.base + |part| && ReadSeg(s, o) == Ok(part[o - s.base])
  {
    ReadSegOf(s.base, part, o);
  }

  lemma FlatSnoc(parts: seq<seq<Record>>, last: seq<Record>, r: Record)
    ensures Flat(parts + [last + [r]]) == Flat(parts + [last]) + [r]
  {
    assert (parts + [last])[..|parts|] == parts && (parts + [last + [r]])[..|parts|] == parts;
    Associative(Flat(parts), last, [r]);
  }

  /** What the parts become when a record goes to the last segment. */
  function Extend(parts: seq<seq<Record>>, r: Record): seq<seq<Record>>
    requires parts != []
  {
    parts[..|parts| - 1] + [parts[|parts| - 1] + [r]]
  }

  lemma AppendActiveRefines(cfg: Config, l: LogState, parts: seq<seq<Record>>, r: Record)
    requires Clean(l, parts) && Room(l.segs[l.active], r) && !Full(cfg, l.segs[l.active])
    ensures AppendActive(cfg, l, r).1 == Ok(l.next)
    ensures Clean(AppendActive(cfg, l, r).0, Extend(parts, r))
    ensures Flat(Extend(parts, r)) == Flat(parts) + [r]
  {
    var s, n := l.segs[l.active], |parts| - 1;
    assert HoldsPart(s, parts[n]);
    AppendSegOf(s.base, parts[n], r);
    TiledUpdateLast(l.segs, AppendSeg(s, r));
    FlatSnoc(parts[..n], parts[n], r);
    assert parts == parts[..n] + [parts[n]];
    var t := l.segs[l.active := AppendSeg(s, r)];
    forall i | 0 <= i < |t| ensures HoldsPart(t[i], Extend(parts, r)[i]) {
      assert HoldsPart(l.segs[i], parts[i]);
    }
  }

  lemma RotateRefines(l: LogState, parts: seq<seq<Record>>)
    requires Clean(l, parts) && parts[l.active] != []
    ensures Clean(RotateLog(l), parts + [[]]) && Flat(parts + [[]]) == Flat(parts)
  {
    assert HoldsPart(l.segs[l.active], parts[l.active]);
    RotateHoused(l);
    var k := RotateLog(l);
    forall i | 0 <= i < |k.segs| ensures HoldsPart(k.segs[i], (parts + [[]])[i]) {
      if i < |parts| { assert HoldsPart(l.segs[i], parts[i]); }
    }
    assert (parts + [[]])[..|parts|] == parts;
  }

  /** In a crash-free log a full segment is never empty, so rotation is always possible. */
  lemma FullIsNotEmpty(cfg: Config, s: Seg, part: seq<Record>)
    requires cfg.Sane() && HoldsPart(s, part) && Full(cfg, s)
    ensures part != [] && s.base < s.next
  {
  }

  lemma ActiveKeepsBase(cfg: Config, l: LogState, r: Record)
    requires l.active < |l.segs| && Room(l.segs[l.active], r)
    ensures BaseOf(AppendActive(cfg, l, r).0) == BaseOf(l)
  {
  }

  /** The segments an append writes to, with the parts they hold. */
  lemma PrepareRefines(cfg: Config, l: LogState, parts: seq<seq<Record>>, r: Record)
    returns (now: seq<seq<Record>>)
    requires cfg.Sane() && Clean(l, parts) && RoomLog(l, r)
    ensures Clean(BeforeAppend(cfg, l), now) && Flat(now) == Flat(parts)
    ensures BeforeAppend(cfg, l).next == l.next && BaseOf(BeforeAppend(cfg, l)) == BaseOf(l)
    ensures !Full(cfg, BeforeAppend(cfg, l).segs[BeforeAppend(cfg, l).active])
    ensures RoomLog(BeforeAppend(cfg, l), r)
  {
    now := parts;
    if Full(cfg, l.segs[l.active]) {
      assert HoldsPart(l.segs[l.active], parts[l.active]);
      FullIsNotEmpty(cfg, l.segs[l.active], parts[l.active]);
      RotateHoused(l);
      RotateRefines(l, parts);
      now := parts + [[]];
    }
  }

  /** Append returns base + length and adds the record at the end, rotating when the active segment is full. */
  lemma AppendRefines(cfg: Config, l: LogState, a: AbsLog, r: Record)
    requires cfg.Sane() && Represents(l, a) && RoomLog(l, r)
    ensures CanAppendLog(cfg, l, r)
    ensures AppendLog(cfg, l, r).1 == Ok(a.base + |a.records|)
    ensures Represents(AppendLog(cfg, l, r).0, AbsLog(a.base, a.records + [r]))
  {
    var parts :| Clean(l, parts) && a == AbsLog(BaseOf(l), Flat(parts));
    FlatLength(l.segs, parts);
    var now := PrepareRefines(cfg, l, parts, r);
    var k := BeforeAppend(cfg, l);
    AppendActiveRefines(cfg, k, now, r);
    ActiveKeepsBase(cfg, k, r);
    assert Clean(AppendActive(cfg, k, r).0, Extend(now, r));
  }

  lemma {:induction false} FlatPrefix(parts: seq<seq<Record>>, n: nat)
    requires n <= |parts|
    ensures Flat(parts[..n]) <= Flat(parts)
  {
    if n < |parts| {
      FlatPrefix(parts[..|parts| - 1], n);
      assert parts[..|parts| - 1][..n] == parts[..n];
    } else {
      assert parts[..n] == parts;
    }
  }

  /** What truncation is for: the records below the offset, or an empty log that starts there. */
  function TruncateAbs(a: AbsLog, offset: nat): AbsLog {
    if offset <= a.base then AbsLog(offset, [])
    else AbsLog(a.base, a.records[..if offset - a.base < |a.records| then offset - a.base else |a.records|])
  }

  /** Truncation does what it is for exactly at a segment boundary. */
  lemma TruncateRefinesIff(l: LogState, a: AbsLog, offset: nat)
    requires Represents(l, a) && offset <= MAX_OFFSET
    ensures Represents(TruncateLog(l, offset), TruncateAbs(a, offset)) <==> Boundary(l, offset)
  {
    if offset <= BaseOf(l) {
      EmptyRepresents(l, offset);
    } else {
      TruncateToSome(l, offset);
      if Boundary(l, offset) {
        var parts :| Clean(l, parts) && a == AbsLog(BaseOf(l), Flat(parts));
        TruncateCleanly(l, parts, offset);
      }
    }
  }

  lemma EmptyRepresents(l: LogState, offset: nat)
    requires Housed(l) && offset <= BaseOf(l)
    ensures Represents(TruncateLog(l, offset), AbsLog(offset, []))
  {
    TruncateToNothing(l, offset);
    FreshSegment(map[], offset);
    assert HoldsPart(Seg(offset, offset, [], []), []);
    assert Flat([[]]) == [] by { assert Flat([[]][..0]) == []; }
    assert Clean(TruncateLog(l, offset), [[]]);
  }

  lemma PrefixIsSlice<T>(p: seq<T>, s: seq<T>)
    requires p <= s
    ensures p == s[..|p|]
  {
  }

  lemma TruncateCleanly(l: LogState, parts: seq<seq<Record>>, offset: nat)
    requires Clean(l, parts) && BaseOf(l) < offset <= MAX_OFFSET && Boundary(l, offset)
    ensures Represents(TruncateLog(l, offset), TruncateAbs(AbsLog(BaseOf(l), Flat(parts)), offset))
  {
    var k, n := TruncateLog(l, offset), KeptCount(l.segs, offset);
    TruncateToSome(l, offset);
    forall i | 0 <= i < n ensures HoldsPart(k.segs[i], parts[..n][i]) {
      assert HoldsPart(l.segs[i], parts[i]);
    }
    FlatLength(k.segs, parts[..n]);
    FlatLength(l.segs, parts);
    FlatPrefix(parts, n);
    PrefixIsSlice(Flat(parts[..n]), Flat(parts));
    assert Clean(k, parts[..n]);
  }

  // ----- Closing and reopening -----

  lemma {:induction false} BoundedFlat(parts: seq<seq<Record>>)
    ensures Bounded(Flat(parts)) <==> forall i :: 0 <= i < |parts| ==> Bounded(parts[i])
  {
    if parts != [] {
      var n := |parts| - 1;
      BoundedFlat(parts[..n]);
      var front, last := Flat(parts[..n]), parts[n];
      assert Bounded(front + last) <==> Bounded(front) && Bounded(last) by {
        assert forall i :: 0 <= i < |front| ==> (front + last)[i] == front[i];
        assert forall i :: 0 <= i < |last| ==> (front + last)[|front| + i] == last[i];
      }
    }
  }

  lemma CleanIsSound(l: LogState, parts: seq<seq<Record>>)
    requires Clean(l, parts) && Bounded(Flat(parts))
    ensures SoundLog(l)
  {
    BoundedFlat(parts);
    forall i | 0 <= i < |l.segs| ensures Sound(l.segs[i]) {
      assert HoldsPart(l.segs[i], parts[i]);
      SegOfSound(l.segs[i].base, parts[i]);
    }
  }

  /**
   A clean close and reopen, the directory listed in any order, brings back
   the same segments exactly when no record is longer than the recovery scan
   accepts.
   */
  lemma CloseOpenIff(l: LogState, parts: seq<seq<Record>>, listing: seq<string>)
    requires Clean(l, parts) && Lists(listing, CloseLog(l).Keys)
    ensures OpenLog(CloseLog(l), listing).segs == l.segs <==> Bounded(Flat(parts))
    ensures Bounded(Flat(parts)) ==> OpenLog(CloseLog(l), listing) == l.(dir := Reopened(l))
  {
    BoundedFlat(parts);
    if Bounded(Flat(parts)) {
      CleanIsSound(l, parts);
      CloseOpenLog(l, listing);
    } else {
      var i :| 0 <= i < |parts| && !Bounded(parts[i]);
      var s := l.segs[i];
      assert HoldsPart(s, parts[i]);
      ClosedLoads(l, listing);
      OpensEach(l, CloseLog(l));
      OversizeChanges(l, parts, i);
    }
  }

  /** A segment with an oversized record does not come back as it was. */
  lemma OversizeChanges(l: LogState, parts: seq<seq<Record>>, i: nat)
    requires Clean(l, parts) && i < |parts| && !Bounded(parts[i])
    ensures OpenAt(CloseLog(l), l.segs[i].base) != l.segs[i]
  {
    assert HoldsPart(l.segs[i], parts[i]);
    SoundBases(l);
    TiledAscending(l.segs);
    FilesPresent(l);
    ClosedFiles(l.dir, l.segs, i);
    ReopenIdentityIff(l.segs[i].base, parts[i]);
  }

  lemma ReopenRefines(l: LogState, a: AbsLog, listing: seq<string>)
    requires Represents(l, a) && Bounded(a.records) && Lists(listing, CloseLog(l).Keys)
    ensures Represents(OpenLog(CloseLog(l), listing), a)
  {
    var parts :| Clean(l, parts) && a == AbsLog(BaseOf(l), Flat(parts));
    CloseOpenIff(l, parts, listing);
    CleanIsSound(l, parts);
    CloseOpenLog(l, listing);
    assert Clean(OpenLog(CloseLog(l), listing), parts);
  }
}
