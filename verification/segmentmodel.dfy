/**
 One log segment as a value: its offset range, the entries of its index and
 the bytes of its store.  The Segment class is proved against these functions.
 */
module SegmentModel {
  import opened Bytes
  import opened Results
  import opened Framing
  import opened Entries

  datatype Seg = Seg(base: nat, next: nat, entries: seq<Entry>, data: seq<Byte>)

  datatype Config = Config(maxStoreBytes: nat, maxIndexEntries: nat)
  {
    /** A limit of zero would make a fresh segment full. */
    predicate Sane() { maxStoreBytes >= 1 && maxIndexEntries >= 1 }
  }

  /** Stores are kept below this size so that no u64 computation on sizes wraps around. */
  const STORE_LIMIT: nat := 0x4000_0000_0000_0000

  /** The largest u64. */
  const MAX_OFFSET: nat := 0xFFFF_FFFF_FFFF_FFFF

  /** Room for one more record: neither the offset counter nor the store size runs out. */
  predicate Room(s: Seg, r: Record) {
    s.next < MAX_OFFSET && |s.data| + 8 + |r| <= STORE_LIMIT
  }

  /** `Segment::new` on the bytes of a store file and an index file. */
  function OpenSeg(base: nat, log: seq<Byte>, idx: seq<Byte>): Seg {
    var es := DecodeEntries(idx);
    Seg(base, NextOf(base, es), es, log[..ScanEnd(log)])
  }

  /** What opening leaves in a store file: the recovered records, or the zeros an empty file is pre-sized with. */
  function OpenedStore(log: seq<Byte>): seq<Byte> {
    if log == [] then Zeros(MIB) else log[..ScanEnd(log)]
  }

  /** What opening leaves in an index file: its whole entries, or the zeros it is pre-sized with if it has none. */
  function OpenedIndex(idx: seq<Byte>): seq<Byte> {
    if |idx| < ENTRY_WIDTH then Zeros(INITIAL_BYTES) else idx[..ENTRY_WIDTH * (|idx| / ENTRY_WIDTH)]
  }

  predicate Full(cfg: Config, s: Seg) {
    |s.data| >= cfg.maxStoreBytes || |s.entries| >= cfg.maxIndexEntries
  }

  /** A successful `Segment::append`: the record goes to the store, its position to the index. */
  function AppendSeg(s: Seg, r: Record): Seg
    requires Room(s, r)
  {
    Seg(s.base, s.next + 1, s.entries + [Entry(s.next, |s.data|)], s.data + Frame(r))
  }

  /** An append whose index write failed after the store write: the record is orphaned. */
  function OrphanSeg(s: Seg, r: Record): Seg {
    s.(data := s.data + Frame(r))
  }

  /** The second half of an append: the index entry for the record that was just stored. */
  function IndexSeg(s: Seg, r: Record): Seg
    requires 8 + |r| <= |s.data| <= STORE_LIMIT && s.next < MAX_OFFSET
  {
    s.(next := s.next + 1, entries := s.entries + [Entry(s.next, |s.data| - 8 - |r|)])
  }

  /** Store write and index write together are the append. */
  lemma StoreThenIndex(s: Seg, r: Record)
    requires Room(s, r)
    ensures IndexSeg(OrphanSeg(s, r), r) == AppendSeg(s, r)
  {
  }

  predicate Contains(s: Seg, offset: nat) {
    s.base <= offset < s.next
  }

  function ReadSeg(s: Seg, offset: nat): Result<Record> {
    if !Contains(s, offset) then Err(OffsetOutOfRange(offset, s.base, s.next))
    else
      match Lookup(s.entries, offset)
      case None => Err(EntryNotFound(offset))
      case Some(position) => ReadAt(s.data, position)
  }

  /** The first entry for an offset, as a position in the index. */
  predicate FoundAt(s: Seg, offset: nat, i: int) {
    s.base <= offset < s.next && FirstAt(s.entries, offset, i)
  }

  /** Every outcome of a read: the record whose frame stands where the first entry points, or why there is none. */
  lemma ReadSegOutcomes(s: Seg, offset: nat)
    ensures ReadSeg(s, offset) == Err(OffsetOutOfRange(offset, s.base, s.next)) <==> offset < s.base || s.next <= offset
    ensures ReadSeg(s, offset) == Err(EntryNotFound(offset)) <==>
              s.base <= offset < s.next && forall i :: 0 <= i < |s.entries| ==> s.entries[i].offset != offset
    ensures forall i :: FoundAt(s, offset, i) ==>
              var p := s.entries[i].position;
              && (ReadSeg(s, offset) == Err(ReadBeyondEnd(p, |s.data|)) <==> p >= |s.data|)
              && (ReadSeg(s, offset) == Err(CorruptedRecord(p)) <==>
                    p < |s.data| && forall r: Record :: |r| < LIMIT64 ==> !(Frame(r) <= s.data[p..]))
  {
    LookupIsFirst(s.entries, offset);
    if Contains(s, offset) && Lookup(s.entries, offset).Some? {
      ReadAtErrors(s.data, Lookup(s.entries, offset).value);
    }
    forall i | FoundAt(s, offset, i)
      ensures var p := s.entries[i].position;
              && (ReadSeg(s, offset) == Err(ReadBeyondEnd(p, |s.data|)) <==> p >= |s.data|)
              && (ReadSeg(s, offset) == Err(CorruptedRecord(p)) <==>
                    p < |s.data| && forall r: Record :: |r| < LIMIT64 ==> !(Frame(r) <= s.data[p..]))
    {
      assert ReadSeg(s, offset) == ReadAt(s.data, s.entries[i].position);
    }
  }

  /** Every offset that `s` can read, `t` reads with the same record. */
  ghost predicate KeepsReads(s: Seg, t: Seg) {
    forall o :: ReadSeg(s, o).Ok? ==> ReadSeg(t, o) == ReadSeg(s, o)
  }

  /** The records `rs` are read back at consecutive offsets from `first` on. */
  predicate Holds(s: Seg, first: nat, rs: seq<Record>) {
    forall i :: 0 <= i < |rs| ==> ReadSeg(s, first + i) == Ok(rs[i])
  }

  /** The bytes `Drop` leaves in the index file. */
  function IndexFile(s: Seg): seq<Byte> {
    EncodeEntries(s.entries)
  }

  // ----- What holds of every segment ever opened -----

  /** Every entry's offset is below the offset handed out next. */
  predicate EntriesBelowNext(s: Seg) {
    s.base <= s.next && forall i :: 0 <= i < |s.entries| ==> s.entries[i].offset < s.next
  }

  /** The invariant that survives crashes: the counter is the one recovery computes, the store is whole records. */
  predicate Sound(s: Seg) {
    s.next == NextOf(s.base, s.entries) && Framed(s.data)
  }

  lemma SoundBelowNext(s: Seg)
    requires Sound(s)
    ensures EntriesBelowNext(s)
  {
    HighestIsMax(s.base, s.entries);
  }

  /** Opening any two files whatsoever gives a sound segment. */
  lemma OpenIsSound(base: nat, log: seq<Byte>, idx: seq<Byte>)
    ensures Sound(OpenSeg(base, log, idx)) && EntriesBelowNext(OpenSeg(base, log, idx))
  {
    ScanIdempotent(log);
    SoundBelowNext(OpenSeg(base, log, idx));
  }

  lemma AppendKeepsSound(s: Seg, r: Record)
    requires Sound(s) && Room(s, r) && |r| <= MAX_RECORD
    ensures Sound(AppendSeg(s, r))
  {
    FramedAppend(s.data, r);
    NextOfSnoc(s.base, s.entries, |s.data|);
  }

  lemma OrphanKeepsSound(s: Seg, r: Record)
    requires Sound(s) && |r| <= MAX_RECORD
    ensures Sound(OrphanSeg(s, r))
    ensures KeepsReads(s, OrphanSeg(s, r))
  {
    FramedAppend(s.data, r);
    forall o | ReadSeg(s, o).Ok?
      ensures ReadSeg(OrphanSeg(s, r), o) == ReadSeg(s, o)
    {
      MoreDataKeepsReads(s, OrphanSeg(s, r), o);
    }
  }

  /** A successful read survives further store bytes, further entries and a larger range. */
  lemma MoreDataKeepsReads(s: Seg, t: Seg, o: nat)
    requires ReadSeg(s, o).Ok?
    requires t.base == s.base && t.next >= s.next && s.entries <= t.entries && s.data <= t.data
    ensures ReadSeg(t, o) == ReadSeg(s, o)
  {
    var more := t.entries[|s.entries|..];
    assert t.entries == s.entries + more;
    LookupConcat(s.entries, more, o);
    ReadAtPrefix(s.data, t.data, Lookup(s.entries, o).value);
  }

  /** An append reads back its own record at the offset it returned and disturbs no readable offset. */
  lemma AppendReadsBack(s: Seg, r: Record)
    requires EntriesBelowNext(s) && Room(s, r)
    ensures EntriesBelowNext(AppendSeg(s, r))
    ensures ReadSeg(AppendSeg(s, r), s.next) == Ok(r)
    ensures KeepsReads(s, AppendSeg(s, r))
  {
    var t := AppendSeg(s, r);
    LookupIsFirst(s.entries, s.next);
    LookupConcat(s.entries, [Entry(s.next, |s.data|)], s.next);
    ReadAtFrame(s.data, r);
    forall o | ReadSeg(s, o).Ok?
      ensures ReadSeg(t, o) == ReadSeg(s, o)
    {
      MoreDataKeepsReads(s, t, o);
    }
  }

  lemma KeepsReadsTransitive(s: Seg, t: Seg, u: Seg)
    requires KeepsReads(s, t) && KeepsReads(t, u)
    ensures KeepsReads(s, u)
  {
    forall o | ReadSeg(s, o).Ok? ensures ReadSeg(u, o) == ReadSeg(s, o) {
      assert ReadSeg(t, o) == ReadSeg(s, o);
    }
  }

  // ----- Any files, then any appends -----

  predicate RoomForAll(s: Seg, rs: seq<Record>) {
    s.next + |rs| <= MAX_OFFSET && |s.data| + |EncodeAll(rs)| <= STORE_LIMIT
  }

  function AppendMany(s: Seg, rs: seq<Record>): Seg
    requires RoomForAll(s, rs)
    decreases |rs|
  {
    if rs == [] then s else AppendMany(AppendSeg(s, rs[0]), rs[1..])
  }

  lemma {:induction false} AppendManyKeepsReads(s: Seg, rs: seq<Record>)
    requires EntriesBelowNext(s) && RoomForAll(s, rs)
    ensures KeepsReads(s, AppendMany(s, rs))
    decreases |rs|
  {
    if rs != [] {
      AppendReadsBack(s, rs[0]);
      AppendManyKeepsReads(AppendSeg(s, rs[0]), rs[1..]);
      KeepsReadsTransitive(s, AppendSeg(s, rs[0]), AppendMany(s, rs));
    }
  }

  lemma {:induction false} AppendManyReadsBack(s: Seg, rs: seq<Record>, i: nat)
    requires EntriesBelowNext(s) && RoomForAll(s, rs) && i < |rs|
    ensures ReadSeg(AppendMany(s, rs), s.next + i) == Ok(rs[i])
    decreases |rs|
  {
    var t := AppendSeg(s, rs[0]);
    AppendReadsBack(s, rs[0]);
    if i == 0 {
      assert ReadSeg(t, s.next).Ok?;
      AppendManyKeepsReads(t, rs[1..]);
    } else {
      AppendManyReadsBack(t, rs[1..], i - 1);
    }
  }

  /**
   Open arbitrary bytes, then append anything: every appended record is read
   back at the offset its append returned, and every offset that was readable
   after opening keeps its answer.
   */
  lemma OpenThenAppends(base: nat, log: seq<Byte>, idx: seq<Byte>, rs: seq<Record>, s: Seg)
    requires s == OpenSeg(base, log, idx) && RoomForAll(s, rs)
    ensures Holds(AppendMany(s, rs), s.next, rs)
    ensures KeepsReads(s, AppendMany(s, rs))
  {
    OpenIsSound(base, log, idx);
    AppendManyKeepsReads(s, rs);
    forall i | 0 <= i < |rs| ensures ReadSeg(AppendMany(s, rs), s.next + i) == Ok(rs[i]) {
      AppendManyReadsBack(s, rs, i);
    }
  }

  // ----- Closing and crashing -----

  /** A clean close writes back exactly the store bytes and the entries, and opening them is the identity. */
  lemma CloseOpenIdentity(s: Seg)
    requires Sound(s)
    ensures OpenSeg(s.base, s.data, IndexFile(s)) == s
  {
    DecodeEncodeEntries(s.entries, []);
    assert EncodeEntries(s.entries) + [] == EncodeEntries(s.entries);
    assert s.data[..|s.data|] == s.data;
  }

  /**
   Opening a segment after a crash.  The store file still starts with the
   bytes the segment had, followed by a torn tail of any content; the index
   file holds the segment's entries followed by zero padding.
   */
  lemma CrashOpen(s: Seg, tail: seq<Byte>, k: nat, t: Seg)
    requires Sound(s)
    requires t == OpenSeg(s.base, s.data + tail, EncodeEntries(s.entries) + Zeros(k))
    ensures Sound(t)
    ensures t.next == if s.entries == [] && k >= 16 then s.base + 1 else s.next
    ensures t.base == s.base && s.data <= t.data
    ensures t.entries == s.entries + seq(k / 16, i => ZERO_ENTRY)
    ensures KeepsReads(s, t)
  {
    OpenIsSound(s.base, s.data + tail, EncodeEntries(s.entries) + Zeros(k));
    DecodePadded(s.entries, k);
    NextOfPadded(s.base, s.entries, k / 16);
    FramedPrefixKept(s.data, tail);
    forall o | ReadSeg(s, o).Ok?
      ensures ReadSeg(t, o) == ReadSeg(s, o)
    {
      MoreDataKeepsReads(s, t, o);
    }
  }

  // ----- Segments that never saw a crash -----

  /** The entries of a segment that holds exactly `rs` from offset `base` on. */
  function EntriesOf(base: nat, rs: seq<Record>): (es: seq<Entry>)
    requires Fits(base, rs)
    ensures |es| == |rs|
  {
    seq(|rs|, i requires 0 <= i < |rs| => EntryOf(base, rs, i))
  }

  function EntryOf(base: nat, rs: seq<Record>, i: nat): Entry
    requires Fits(base, rs) && i < |rs|
  {
    EncodeSplit(rs, i);
    Entry(base + i, |EncodeAll(rs[..i])|)
  }

  /** Offsets and sizes stay in range. */
  predicate Fits(base: nat, rs: seq<Record>) {
    base + |rs| <= MAX_OFFSET && |EncodeAll(rs)| <= STORE_LIMIT
  }

  /** The segment reached from an empty one by appending `rs`. */
  function SegOf(base: nat, rs: seq<Record>): Seg
    requires Fits(base, rs)
  {
    Seg(base, base + |rs|, EntriesOf(base, rs), EncodeAll(rs))
  }

  lemma FitsStorable(base: nat, rs: seq<Record>)
    requires Fits(base, rs)
    ensures Storable(rs)
  {
    forall i | 0 <= i < |rs| ensures |rs[i]| < LIMIT64 {
      EncodeSplit(rs, i);
    }
  }

  lemma FitsSnoc(base: nat, rs: seq<Record>, r: Record)
    requires Fits(base, rs) && Room(SegOf(base, rs), r)
    ensures Fits(base, rs + [r])
  {
    EncodeSnoc(rs, r);
  }

  lemma AppendSegOf(base: nat, rs: seq<Record>, r: Record)
    requires Fits(base, rs) && Room(SegOf(base, rs), r)
    ensures Fits(base, rs + [r])
    ensures AppendSeg(SegOf(base, rs), r) == SegOf(base, rs + [r])
  {
    FitsSnoc(base, rs, r);
    EncodeSnoc(rs, r);
    var all := rs + [r];
    forall i | 0 <= i < |rs| ensures EntryOf(base, all, i) == EntryOf(base, rs, i) {
      assert all[..i] == rs[..i];
    }
    assert all[..|rs|] == rs;
    assert AppendSeg(SegOf(base, rs), r).entries == EntriesOf(base, all);
  }

  /** Appending `rs` one by one to an empty segment gives the segment that holds `rs`. */
  lemma {:induction false} ReachSegOf(base: nat, rs: seq<Record>, more: seq<Record>)
    requires Fits(base, rs) && RoomForAll(SegOf(base, rs), more)
    ensures Fits(base, rs + more)
    ensures AppendMany(SegOf(base, rs), more) == SegOf(base, rs + more)
    decreases |more|
  {
    if more == [] {
      assert rs + more == rs;
    } else {
      AppendSegOf(base, rs, more[0]);
      ReachSegOf(base, rs + [more[0]], more[1..]);
      assert rs + [more[0]] + more[1..] == rs + more;
    }
  }

  lemma LookupSegOf(base: nat, rs: seq<Record>, o: nat)
    requires Fits(base, rs)
    ensures Lookup(EntriesOf(base, rs), o) ==
            if base <= o < base + |rs| then Some(EntryOf(base, rs, o - base).position) else None
  {
    LookupIsFirst(EntriesOf(base, rs), o);
    if base <= o < base + |rs| {
      assert EntriesOf(base, rs)[o - base].offset == o;
      assert FirstAt(EntriesOf(base, rs), o, o - base);
    }
  }

  /** A crash-free segment answers every offset exactly like the sequence of its records. */
  lemma ReadSegOf(base: nat, rs: seq<Record>, o: nat)
    requires Fits(base, rs)
    ensures ReadSeg(SegOf(base, rs), o) ==
            if base <= o < base + |rs| then Ok(rs[o - base])
            else Err(OffsetOutOfRange(o, base, base + |rs|))
  {
    if base <= o < base + |rs| {
      LookupSegOf(base, rs, o);
      FitsStorable(base, rs);
      ReadEncoded(rs, o - base);
    }
  }

  lemma {:induction false} HighestSegOf(base: nat, rs: seq<Record>)
    requires Fits(base, rs) && rs != []
    ensures Highest(base, EntriesOf(base, rs)) == base + |rs| - 1
  {
    HighestIsMax(base, EntriesOf(base, rs));
    assert EntriesOf(base, rs)[|rs| - 1].offset == base + |rs| - 1;
  }

  lemma SegOfSound(base: nat, rs: seq<Record>)
    requires Fits(base, rs) && Bounded(rs)
    ensures Sound(SegOf(base, rs))
  {
    if rs != [] { HighestSegOf(base, rs); }
    FitsStorable(base, rs);
    ScanKeepsAllIff(rs);
  }

  /**
   Closing and reopening a crash-free segment brings it back exactly when no
   record is longer than the scan's limit, which append does not enforce.
   */
  lemma ReopenIdentityIff(base: nat, rs: seq<Record>)
    requires Fits(base, rs)
    ensures var s := SegOf(base, rs); OpenSeg(base, s.data, IndexFile(s)) == s <==> Bounded(rs)
  {
    FitsStorable(base, rs);
    ScanKeepsAllIff(rs);
    if Bounded(rs) {
      SegOfSound(base, rs);
      CloseOpenIdentity(SegOf(base, rs));
    }
  }

  /**
   The exact outcome of reopening a segment whose files still carry the zero
   padding they were pre-sized with: `t` zero bytes after the records and `k`
   zero entries after the real ones.
   */
  lemma ZeroPaddedReopen(base: nat, rs: seq<Record>, t: nat, k: nat)
    requires Fits(base, rs) && Bounded(rs)
    ensures var s := SegOf(base, rs);
            OpenSeg(base, s.data + Zeros(t), IndexFile(s) + Zeros(16 * k)) ==
            Seg(base,
                base + (if |rs| + k == 0 then 0 else if |rs| == 0 then 1 else |rs|),
                s.entries + seq(k, i => ZERO_ENTRY),
                EncodeAll(rs + Repeat([], t / 8)))
  {
    var s := SegOf(base, rs);
    DecodePadded(s.entries, 16 * k);
    assert 16 * k / 16 == k;
    NextOfPadded(base, s.entries, k);
    if rs != [] { HighestSegOf(base, rs); }
    ZeroPaddedData(rs, t);
  }

  lemma ZeroPaddedData(rs: seq<Record>, t: nat)
    requires Bounded(rs)
    ensures var f := EncodeAll(rs) + Zeros(t); f[..ScanEnd(f)] == EncodeAll(rs + Repeat([], t / 8))
  {
    ZeroTail(rs, t);
    ParseEncodes(EncodeAll(rs) + Zeros(t), 0);
  }
}
