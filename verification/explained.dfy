/** What can be read from a log, explained by what was completely written to it. */
module Explanations {
  import opened Bytes
  import opened Results
  import opened Framing
  import opened Entries
  import opened SegmentModel
  import opened AppendProtocol
  import opened Listing
  import opened LogModel
  import opened SoundLogs
  import opened Truncation
  import opened CrashSafety
  import opened TruncateCrashes

  // ----- The explanation -----

  /**
   Offset `o` of a segment is readable with the record written there, or
   nothing was written there and it is the base of a segment that came back
   with padding for its first entry.
   */
  predicate ExplainedAt(s: Seg, w: map<nat, Record>, o: nat) {
    if o in w then ReadSeg(s, o) == Ok(w[o])
    else o == s.base && Lookup(s.entries, o) == if o == 0 then Some(0) else None
  }

  ghost predicate Explained(s: Seg, w: map<nat, Record>) {
    forall o :: s.base <= o < s.next ==> ExplainedAt(s, w, o)
  }

  ghost predicate AllExplained(l: LogState, w: map<nat, Record>) {
    && (forall i {:trigger Explained(l.segs[i], w)} :: 0 <= i < |l.segs| ==> Explained(l.segs[i], w))
    && forall o :: o in w ==> BaseOf(l) <= o < l.next
  }

  /** Data added behind and entries that add nothing to the lookups leave the explanation as it was. */
  lemma ExplainedAlike(s: Seg, t: Seg, w: map<nat, Record>)
    requires Explained(s, w) && t.base == s.base && t.next == s.next && KeepsReads(s, t)
    requires forall o :: s.base <= o < s.next && o !in w ==> Lookup(t.entries, o) == Lookup(s.entries, o)
    ensures Explained(t, w)
  {
    forall o | t.base <= o < t.next ensures ExplainedAt(t, w, o) {
      assert ExplainedAt(s, w, o);
    }
  }

  /** A segment that comes back from a crash: padding explains the one offset that was never written. */
  lemma ExplainedCrash(s: Seg, d: Dir, t: Seg, w: map<nat, Record>)
    requires Sound(s) && CrashImage(s, d) && t == OpenAt(d, s.base) && Explained(s, w)
    requires s.entries == [] ==> s.base !in w
    ensures Explained(t, w)
  {
    var n := CrashImageEntries(s, d, t);
    PaddedExplained(s, t, n, w);
  }

  lemma PaddedExplained(s: Seg, t: Seg, n: nat, w: map<nat, Record>)
    requires Sound(s) && Explained(s, w) && (s.entries == [] ==> s.base !in w)
    requires t.base == s.base && KeepsReads(s, t) && t.entries == s.entries + seq(n, i => ZERO_ENTRY)
    requires t.next == if s.entries == [] && n > 0 then s.base + 1 else s.next
    ensures Explained(t, w)
  {
    if s.entries == [] {
      assert t.entries == seq(n, i => ZERO_ENTRY);
      PaddingExplained(t, n, w);
    } else {
      forall o | s.base <= o < s.next && o !in w ensures Lookup(t.entries, o) == Lookup(s.entries, o) {
        assert ExplainedAt(s, w, o);
        LookupPadded(s.entries, n, o);
      }
      ExplainedAlike(s, t, w);
    }
  }

  /** A segment that consists of padding has one offset, at which nothing was written. */
  lemma PaddingExplained(t: Seg, n: nat, w: map<nat, Record>)
    requires t.entries == seq(n, i => ZERO_ENTRY) && t.next <= t.base + n && t.next <= t.base + 1 && t.base !in w
    ensures Explained(t, w)
  {
    LookupIsFirst(t.entries, t.base);
    if n > 0 && t.base == 0 { assert FirstAt(t.entries, 0, 0); }
  }

  lemma ExplainedAppend(s: Seg, r: Record, w: map<nat, Record>)
    requires Sound(s) && Room(s, r) && Explained(s, w)
    ensures Explained(AppendSeg(s, r), w[s.next := r])
  {
    var t, e := AppendSeg(s, r), Entry(s.next, |s.data|);
    SoundBelowNext(s);
    AppendReadsBack(s, r);
    var v := w[s.next := r];
    forall o | t.base <= o < t.next ensures ExplainedAt(t, v, o) {
      if o < s.next {
        assert ExplainedAt(s, w, o);
        LookupConcat(s.entries, [e], o);
        if o in w { assert ReadSeg(s, o).Ok?; }
      }
    }
  }

  /** Records written elsewhere, or forgotten elsewhere, do not matter to a segment. */
  lemma ExplainedElsewhere(s: Seg, w: map<nat, Record>, v: map<nat, Record>)
    requires Explained(s, w)
    requires forall o :: s.base <= o < s.next ==> (o in w <==> o in v) && (o in w ==> v[o] == w[o])
    ensures Explained(s, v)
  {
    forall o | s.base <= o < s.next ensures ExplainedAt(s, v, o) {
      assert ExplainedAt(s, w, o);
    }
  }

  lemma EmptyExplained(base: nat, w: map<nat, Record>)
    ensures Explained(Seg(base, base, [], []), w)
  {
  }

  // ----- Appends -----

  lemma RotateExplained(l: LogState, w: map<nat, Record>)
    requires SoundLog(l) && l.segs[l.active].base < l.next && AllExplained(l, w)
    ensures SoundLog(RotateLog(l)) && AllExplained(RotateLog(l), w) && RotateLog(l).next == l.next
  {
    RotateKeepsSound(l);
    EmptyExplained(l.next, w);
    var k := RotateLog(l);
    forall i | 0 <= i < |k.segs| ensures Explained(k.segs[i], w) {
      if i < |l.segs| { assert Explained(l.segs[i], w); }
    }
  }

  lemma AppendActiveExplained(cfg: Config, l: LogState, r: Record, w: map<nat, Record>)
    requires SoundLog(l) && Room(l.segs[l.active], r) && |r| <= MAX_RECORD && !Full(cfg, l.segs[l.active])
    requires AllExplained(l, w)
    ensures AppendActive(cfg, l, r).1 == Ok(l.next)
    ensures SoundLog(AppendActive(cfg, l, r).0)
    ensures AllExplained(AppendActive(cfg, l, r).0, w[l.next := r])
  {
    var k, v := AppendActive(cfg, l, r).0, w[l.next := r];
    AppendActiveCorrect(cfg, l, r);
    SoundBases(l);
    assert Explained(l.segs[l.active], w);
    ExplainedAppend(l.segs[l.active], r, w);
    forall i | 0 <= i < |k.segs| ensures Explained(k.segs[i], v) {
      if i < l.active {
        assert Explained(l.segs[i], w);
        ExplainedElsewhere(l.segs[i], w, v);
      }
    }
  }

  lemma PreparedAppend(cfg: Config, l: LogState, k: LogState, w: map<nat, Record>)
    requires SoundLog(l) && !Stuck(cfg, l) && k == BeforeAppend(cfg, l) && cfg.Sane() && AllExplained(l, w)
    ensures SoundLog(k) && AllExplained(k, w) && k.next == l.next && !Full(cfg, k.segs[k.active])
  {
    if Full(cfg, l.segs[l.active]) { RotateExplained(l, w); RotateKeepsSound(l); }
  }

  lemma OrphanExplained(k: LogState, r: Record, m: LogState, w: map<nat, Record>)
    requires SoundLog(k) && AllExplained(k, w) && |r| <= MAX_RECORD
    requires m == k.(segs := k.segs[k.active := OrphanSeg(k.segs[k.active], r)])
    ensures AllExplained(m, w)
  {
    OrphanKeepsSound(k.segs[k.active], r);
    assert Explained(k.segs[k.active], w);
    ExplainedAlike(k.segs[k.active], m.segs[k.active], w);
    forall i | 0 <= i < |k.segs| ensures Explained(m.segs[i], w) {
      if i < k.active { assert Explained(k.segs[i], w); }
    }
  }

  // ----- Crashes -----

  /** Recovery from any crash directory of `k` explains what can be read by what was written. */
  lemma CrashExplained(k: LogState, d: Dir, listing: seq<string>, w: map<nat, Record>)
    requires SoundLog(k) && k.next < MAX_OFFSET && CrashDir(k, d) && Lists(listing, d.Keys) && AllExplained(k, w)
    ensures SoundLog(OpenLog(d, listing)) && AllExplained(OpenLog(d, listing), w)
  {
    var m := OpenLog(d, listing);
    CrashOpenLog(k, d, listing);
    CrashLoads(k, d, listing);
    EachExplained(k, d, m.segs, w);
    assert BaseSeq(m.segs)[0] == BaseSeq(k.segs)[0];
  }

  lemma EachExplained(l: LogState, d: Dir, t: seq<Seg>, w: map<nat, Record>)
    requires Consistent(l) && AllExplained(l, w) && CrashImages(l.segs, d) && t == OpenAll(d, BaseSeq(l.segs))
    ensures forall i :: 0 <= i < |t| ==> Explained(t[i], w)
  {
    OpensEach(l, d);
    forall i | 0 <= i < |t| ensures Explained(t[i], w) {
      assert CrashImage(l.segs[i], d);
      RecoveredExplained(l, d, i, t[i], w);
    }
  }

  lemma RecoveredExplained(l: LogState, d: Dir, i: nat, t: Seg, w: map<nat, Record>)
    requires Consistent(l) && i < |l.segs| && AllExplained(l, w)
    requires CrashImage(l.segs[i], d) && t == OpenAt(d, l.segs[i].base)
    ensures Explained(t, w)
  {
    assert Explained(l.segs[i], w);
    EmptyIsLast(l, i, w);
    ExplainedCrash(l.segs[i], d, t, w);
  }

  /** Only the active segment can be without entries, and then nothing was written at its base. */
  lemma EmptyIsLast(l: LogState, i: nat, w: map<nat, Record>)
    requires Consistent(l) && i < |l.segs| && AllExplained(l, w)
    ensures l.segs[i].entries == [] ==> i == l.active && l.segs[i].base == l.next && l.segs[i].base !in w
  {
    if i < l.active { assert JoinedAt(l.segs, i); }
  }

  lemma PreparedCrash(
    cfg: Config, k: LogState, r: Record, ms: seq<Micro>, d: Dir, listing: seq<string>, w: map<nat, Record>)
    requires SoundLog(k) && AllExplained(k, w) && !Full(cfg, k.segs[k.active]) && k.next < MAX_OFFSET - 1
    requires RoomLog(k, r) && |r| <= MAX_RECORD && Run(k.segs[k.active], r, ms)
    requires CrashInAppend(k, ms[|ms| - 1], d) && Lists(listing, d.Keys)
    ensures SoundLog(OpenLog(d, listing))
    ensures AllExplained(OpenLog(d, listing), if EntryDurable(ms[|ms| - 1]) then w[k.next := r] else w)
  {
    CrashInAppendIsCrash(k, r, ms, d);
    if EntryDurable(ms[|ms| - 1]) {
      CrashAfterEntrySafe(cfg, k, r, d, listing, w);
    } else {
      CrashExplained(k, d, listing, w);
    }
  }

  lemma CrashAfterEntrySafe(cfg: Config, k: LogState, r: Record, d: Dir, listing: seq<string>, w: map<nat, Record>)
    requires SoundLog(k) && AllExplained(k, w) && !Full(cfg, k.segs[k.active]) && k.next < MAX_OFFSET - 1
    requires Room(k.segs[k.active], r) && |r| <= MAX_RECORD
    requires CrashNames(d.Keys, BaseSeq(k.segs)) && Lists(listing, d.Keys)
    requires CrashImages(k.segs[k.active := AppendSeg(k.segs[k.active], r)], d)
    ensures SoundLog(OpenLog(d, listing)) && AllExplained(OpenLog(d, listing), w[k.next := r])
  {
    AppendedImage(cfg, k, r, d);
    AppendActiveExplained(cfg, k, r, w);
    CrashExplained(AppendActive(cfg, k, r).0, d, listing, w[k.next := r]);
  }

  lemma AppendedImage(cfg: Config, k: LogState, r: Record, d: Dir)
    requires Consistent(k) && Room(k.segs[k.active], r) && !Full(cfg, k.segs[k.active])
    requires CrashNames(d.Keys, BaseSeq(k.segs))
    requires CrashImages(k.segs[k.active := AppendSeg(k.segs[k.active], r)], d)
    ensures CrashDir(AppendActive(cfg, k, r).0, d)
  {
    SoundBelowNext(k.segs[k.active]);
    TiledUpdateLast(k.segs, AppendSeg(k.segs[k.active], r));
  }

  // ----- Truncations, complete and cut short -----

  function Below(w: map<nat, Record>, offset: nat): map<nat, Record> {
    map o | o in w && o < offset :: w[o]
  }

  lemma TruncateExplained(l: LogState, offset: nat, w: map<nat, Record>)
    requires SoundLog(l) && AllExplained(l, w) && offset <= MAX_OFFSET && Boundary(l, offset)
    ensures SoundLog(TruncateLog(l, offset)) && AllExplained(TruncateLog(l, offset), Below(w, offset))
  {
    var k := TruncateLog(l, offset);
    TruncateSoundIff(l, offset);
    if offset <= BaseOf(l) {
      TruncateToNothing(l, offset);
      EmptyExplained(offset, Below(w, offset));
    } else {
      TruncateToSome(l, offset);
      SoundBases(k);
      PrefixExplained(l, k, offset, w);
    }
  }

  lemma PrefixExplained(l: LogState, k: LogState, offset: nat, w: map<nat, Record>)
    requires AllExplained(l, w) && |k.segs| <= |l.segs| && k.segs == l.segs[..|k.segs|]
    requires forall i :: 0 <= i < |k.segs| ==> k.segs[i].next <= offset
    ensures forall i :: 0 <= i < |k.segs| ==> Explained(k.segs[i], Below(w, offset))
  {
    forall i | 0 <= i < |k.segs| ensures Explained(k.segs[i], Below(w, offset)) {
      assert Explained(l.segs[i], w);
      ExplainedElsewhere(l.segs[i], w, Below(w, offset));
    }
  }

  function Without(w: map<nat, Record>, segs: seq<Seg>, n: nat, m: nat): map<nat, Record>
    requires n + m <= |segs|
  {
    map o | o in w && !Lost(segs, n, m, o) :: w[o]
  }

  lemma WrittenLeftExplained(
    l: LogState, offset: nat, m: nat, d: Dir, listing: seq<string>, k: LogState,
    w: map<nat, Record>, v: map<nat, Record>)
    requires Consistent(l) && l.next < MAX_OFFSET && CrashInTruncate(l, offset, m, false, d, listing)
    requires CleanCut(l.segs, KeptCount(l.segs, offset), m, false)
    requires k == OpenLog(Removed(d, l.segs, KeptCount(l.segs, offset), m, false), listing)
    requires AllExplained(l, w) && v == Without(w, l.segs, KeptCount(l.segs, offset), m)
    ensures AllExplained(k, v)
  {
    var n := KeptCount(l.segs, offset);
    LeftLoads(l, offset, m, false, d, listing);
    if n + m < |l.segs| || n > 0 {
      LeftImages(l, d, n, m, false);
      LeftExplained(l, Removed(d, l.segs, n, m, false), n, m, k, w, v);
    } else {
      NothingLeft(l, d, m, false, k);
      EmptyExplained(0, v);
    }
  }

  lemma LeftExplained(
    l: LogState, d: Dir, n: nat, m: nat, k: LogState, w: map<nat, Record>, v: map<nat, Record>)
    requires Consistent(l) && l.next < MAX_OFFSET && n + m <= |l.segs| && (n + m < |l.segs| || n > 0)
    requires CrashImages(Left(l.segs, n, m), d) && k == OpenBases(d, BaseSeq(Left(l.segs, n, m)))
    requires AllExplained(l, w) && v == Without(w, l.segs, n, m) && CleanCut(l.segs, n, m, false)
    ensures AllExplained(k, v)
  {
    EachLeftExplained(l, d, n, m, k.segs, w, v);
    LeftNext(l, d, n, m, k);
    LeftWritten(l, n, m, w, v);
  }

  lemma EachLeftExplained(
    l: LogState, d: Dir, n: nat, m: nat, t: seq<Seg>, w: map<nat, Record>, v: map<nat, Record>)
    requires Consistent(l) && n + m <= |l.segs| && CrashImages(Left(l.segs, n, m), d)
    requires t == OpenAll(d, BaseSeq(Left(l.segs, n, m)))
    requires AllExplained(l, w) && v == Without(w, l.segs, n, m)
    ensures forall i :: 0 <= i < |t| ==> Explained(t[i], v)
  {
    LeftOpensEach(l, d, n, m);
    forall i | 0 <= i < |t| ensures Explained(t[i], v) {
      assert CrashImage(Left(l.segs, n, m)[i], d);
      OneLeftExplained(l, d, n, m, Origin(n, m, i), t[i], w, v);
    }
  }

  lemma OneLeftExplained(
    l: LogState, d: Dir, n: nat, m: nat, p: nat, t: Seg, w: map<nat, Record>, v: map<nat, Record>)
    requires Consistent(l) && n + m <= |l.segs| && p < |l.segs| && (p < n || n + m <= p)
    requires CrashImage(l.segs[p], d) && t == OpenAt(d, l.segs[p].base)
    requires AllExplained(l, w) && v == Without(w, l.segs, n, m)
    ensures Explained(t, v)
  {
    var s := l.segs[p];
    RecoveredExplained(l, d, p, t, w);
    CrashImageOpen(s, d, t);
    EmptyIsLast(l, p, w);
    forall o | t.base <= o < t.next ensures (o in w <==> o in v) && (o in w ==> v[o] == w[o]) {
      if s.base <= o < s.next { LostSegments(l.segs, n, m, o, p); }
    }
    ExplainedElsewhere(t, w, v);
  }

  lemma LeftWritten(l: LogState, n: nat, m: nat, w: map<nat, Record>, v: map<nat, Record>)
    requires Consistent(l) && n + m <= |l.segs| && (n + m < |l.segs| || n > 0)
    requires AllExplained(l, w) && v == Without(w, l.segs, n, m) && CleanCut(l.segs, n, m, false)
    ensures forall o :: o in v ==>
              && Left(l.segs, n, m)[0].base <= o
              && o < if m > 0 && n + m == |l.segs| then l.segs[n].base else l.next
  {
    TiledAscending(l.segs);
    forall o | o in v
      ensures Left(l.segs, n, m)[0].base <= o
      ensures o < if m > 0 && n + m == |l.segs| then l.segs[n].base else l.next
    {
      assert o in w && !Lost(l.segs, n, m, o);
      assert Left(l.segs, n, m)[0] == if n > 0 then l.segs[0] else l.segs[m];
    }
  }

  // ----- What a read returns -----

  lemma WrittenReads(l: LogState, w: map<nat, Record>, o: nat)
    requires SoundLog(l) && AllExplained(l, w) && BaseOf(l) <= o < l.next
    ensures o in w ==> ReadLog(l, o) == Ok(w[o])
    ensures o !in w ==> exists i :: 0 <= i < |l.segs| && l.segs[i].base == o && Find(l.segs, o) == Some(i)
    ensures o !in w && o > 0 ==> ReadLog(l, o) == Err(EntryNotFound(o))
    ensures o !in w && o == 0 ==> ReadLog(l, o) == ReadAt(l.segs[0].data, 0)
  {
    var i := TiledCovers(l.segs, o);
    FindExact(l.segs, o, i);
    assert Explained(l.segs[i], w);
    assert ExplainedAt(l.segs[i], w, o);
    if o == 0 && i > 0 { TiledOrder(l.segs, 0, i); }
  }

  /** The first record of a store of whole records. */
  lemma FirstOfStore(data: seq<Byte>)
    requires Framed(data)
    ensures data == [] <==> Parse(data) == []
    ensures ReadAt(data, 0) == if data == [] then Err(ReadBeyondEnd(0, 0)) else Ok(Parse(data)[0])
  {
    LongestValidPrefix(data);
    FramedIff(data);
    if data != [] {
      assert Parse(data) != [] by { assert Parse(data) == [] ==> EncodeAll(Parse(data)) == []; }
      ReadEncoded(Parse(data), 0);
      assert EncodeAll(Parse(data)[..0]) == [];
    }
  }

  /** If offset 0 is in range and nothing was written there, its segment holds padding. */
  lemma ZeroUnwritten(l: LogState, w: map<nat, Record>)
    requires SoundLog(l) && BaseOf(l) == 0 < l.next
    ensures l.segs[0].base == 0 && l.segs[0].entries != []
  {
    if 0 < l.active { assert JoinedAt(l.segs, 0); }
  }
}
