/**
 `Segment::append` taken apart into the writes it performs, so that a crash or
 a failed call can be placed between any two of them.
 */
module AppendProtocol {
  import opened Bytes
  import opened Results
  import opened Framing
  import opened Entries
  import opened SegmentModel

  /** How far an append has come: the names say what has just been done. */
  datatype Pc = Started | Grown | PrefixWritten | DataWritten | EntryWritten | Returned

  /** The store's mapping and size field, the index and the offset counter in the middle of an append. */
  datatype Micro = Micro(pc: Pc, mapping: seq<Byte>, size: nat, entries: seq<Entry>, next: nat)

  function Overwrite(bytes: seq<Byte>, at: nat, with: seq<Byte>): seq<Byte>
    requires at + |with| <= |bytes|
  {
    bytes[..at] + with + bytes[at + |with|..]
  }

  predicate Init(s: Seg, m: Micro) {
    && m.pc == Started && m.size == |s.data| && m.entries == s.entries && m.next == s.next
    && s.data <= m.mapping
  }

  /** One write of an append of `r`. */
  predicate Step(r: Record, m: Micro, n: Micro)
    requires m.size < LIMIT64 && m.next < LIMIT64
  {
    match m.pc
    case Started =>
      && m.size + 8 + |r| <= |n.mapping| && m.mapping <= n.mapping
      && n == m.(pc := Grown, mapping := n.mapping)
    case Grown =>
      && m.size + 8 <= |m.mapping|
      && n == m.(pc := PrefixWritten, mapping := Overwrite(m.mapping, m.size, EncodeU64(|r|)), size := m.size + 8)
    case PrefixWritten =>
      && m.size + |r| <= |m.mapping|
      && n == m.(pc := DataWritten, mapping := Overwrite(m.mapping, m.size, r), size := m.size + |r|)
    case DataWritten =>
      && 8 + |r| <= m.size
      && n == m.(pc := EntryWritten, entries := m.entries + [Entry(m.next, m.size - 8 - |r|)])
    case EntryWritten =>
      n == m.(pc := Returned, next := m.next + 1)
    case Returned =>
      false
  }

  predicate StepAt(r: Record, ms: seq<Micro>, i: int) {
    && 0 <= i < |ms| - 1
    && ms[i].size < LIMIT64 && ms[i].next < LIMIT64
    && Step(r, ms[i], ms[i + 1])
  }

  predicate Run(s: Seg, r: Record, ms: seq<Micro>) {
    |ms| > 0 && Init(s, ms[0]) && forall i :: 0 <= i < |ms| - 1 ==> StepAt(r, ms, i)
  }

  /** Whether the index entry has been written. */
  predicate EntryDurable(m: Micro) {
    m.pc.EntryWritten? || m.pc.Returned?
  }

  /** The bytes before the append are never touched; what has been written follows them. */
  predicate Inv(s: Seg, r: Record, m: Micro)
    requires Room(s, r)
  {
    && s.data <= m.mapping && m.size <= |m.mapping|
    && m.mapping[..m.size] == Written(s, r, m.pc)
    && (m.pc.Grown? ==> m.size + 8 + |r| <= |m.mapping|)
    && (m.pc.PrefixWritten? ==> m.size + |r| <= |m.mapping|)
    && m.entries == (if EntryDurable(m) then AppendSeg(s, r).entries else s.entries)
    && m.next == (if m.pc.Returned? then s.next + 1 else s.next)
  }

  function Written(s: Seg, r: Record, pc: Pc): seq<Byte> {
    match pc
    case Started | Grown => s.data
    case PrefixWritten => s.data + EncodeU64(|r|)
    case _ => s.data + Frame(r)
  }

  lemma StepKeepsInv(s: Seg, r: Record, m: Micro, n: Micro)
    requires Room(s, r) && Inv(s, r, m)
    requires m.size < LIMIT64 && m.next < LIMIT64 && Step(r, m, n)
    ensures Inv(s, r, n)
  {
    match m.pc
    case Started =>
      assert n.mapping[..n.size] == m.mapping[..m.size];
    case Grown =>
      assert n.mapping[..n.size] == m.mapping[..m.size] + EncodeU64(|r|);
    case PrefixWritten =>
      assert n.mapping[..n.size] == m.mapping[..m.size] + r;
      assert s.data + EncodeU64(|r|) + r == s.data + Frame(r);
      assert s.data <= n.mapping by {
        assert n.mapping[..m.size] == m.mapping[..m.size];
      }
    case _ =>
  }

  lemma {:induction false} RunKeepsInv(s: Seg, r: Record, ms: seq<Micro>)
    requires Room(s, r) && Run(s, r, ms)
    ensures Inv(s, r, ms[|ms| - 1])
  {
    if |ms| > 1 {
      var init := ms[..|ms| - 1];
      assert forall i :: 0 <= i < |init| - 1 && StepAt(r, ms, i) ==> StepAt(r, init, i);
      RunKeepsInv(s, r, init);
      assert StepAt(r, ms, |ms| - 2);
      StepKeepsInv(s, r, ms[|ms| - 2], ms[|ms| - 1]);
    }
  }

  /** A run that goes all the way performs exactly the append of the segment model. */
  lemma CompleteRun(s: Seg, r: Record, ms: seq<Micro>)
    requires Room(s, r) && Run(s, r, ms) && ms[|ms| - 1].pc == Returned
    ensures var m := ms[|ms| - 1];
            && m.size <= |m.mapping|
            && Seg(s.base, m.next, m.entries, m.mapping[..m.size]) == AppendSeg(s, r)
  {
    RunKeepsInv(s, r, ms);
  }

  // ----- Store before index -----

  /**
   The bytes start with the complete records `all`, and entry `i` points at
   the start of record `at[i]` of them.  Later entries have larger offsets
   and point at later records.
   */
  predicate Points(es: seq<Entry>, bytes: seq<Byte>, all: seq<Record>, at: seq<nat>) {
    && EncodeAll(all) <= bytes && |at| == |es|
    && (forall i :: 0 <= i < |at| ==> at[i] < |all| && es[i].position == |EncodeAll(all[..at[i]])|)
    && (forall i, j :: 0 <= i < j < |at| ==> at[i] < at[j] && es[i].offset < es[j].offset)
  }

  /** The store is exactly the records `all`, some without an entry, and the entries lie in the segment's range. */
  predicate Indexed(s: Seg, all: seq<Record>, at: seq<nat>) {
    && s.data == EncodeAll(all) && Points(s.entries, s.data, all, at)
    && s.base <= s.next && forall i :: 0 <= i < |s.entries| ==> s.base <= s.entries[i].offset < s.next
  }

  lemma EncodedStorable(all: seq<Record>)
    requires |EncodeAll(all)| < LIMIT64
    ensures Storable(all)
  {
    forall i | 0 <= i < |all| ensures |all[i]| < LIMIT64 {
      EncodeSplit(all, i);
    }
  }

  lemma BytesBetween(all: seq<Record>, p: nat, q: nat)
    requires p <= q <= |all|
    ensures |EncodeAll(all[..q])| == |EncodeAll(all[..p])| + |EncodeAll(all[p..q])|
    ensures p < q ==> |EncodeAll(all[p..q])| >= 8 + |all[p]|
    ensures q == p + 1 ==> |EncodeAll(all[p..q])| == 8 + |all[p]|
  {
    assert all[..q] == all[..p] + all[p..q];
    EncodeAllConcat(all[..p], all[p..q]);
    if p < q {
      assert all[p..q] == [all[p]] + all[p + 1..q];
      EncodeAllConcat([all[p]], all[p + 1..q]);
      EncodeOne(all[p]);
      if q == p + 1 { assert all[p + 1..q] == []; }
    }
  }

  /**
   What pointing means: each entry reads its record back, the distance of two
   entries is the frames between them (so positions strictly increase), and
   the records are the first ones the recovery scan would find.
   */
  lemma PointsMeans(es: seq<Entry>, bytes: seq<Byte>, all: seq<Record>, at: seq<nat>)
    requires Points(es, bytes, all, at) && |EncodeAll(all)| < LIMIT64
    ensures forall i :: 0 <= i < |es| ==> ReadAt(bytes, es[i].position) == Ok(all[at[i]])
    ensures forall i, j :: 0 <= i < j < |es| ==>
              && es[j].position == es[i].position + |EncodeAll(all[at[i]..at[j]])|
              && es[j].position >= es[i].position + 8 + |all[at[i]]|
              && (at[j] == at[i] + 1 ==> es[j].position == es[i].position + 8 + |all[at[i]]|)
    ensures Bounded(all) ==> all <= Parse(bytes)
  {
    EncodedStorable(all);
    forall i | 0 <= i < |es| ensures ReadAt(bytes, es[i].position) == Ok(all[at[i]]) {
      ReadEncoded(all, at[i]);
      ReadAtPrefix(EncodeAll(all), bytes, es[i].position);
    }
    forall i, j | 0 <= i < j < |es|
      ensures es[j].position == es[i].position + |EncodeAll(all[at[i]..at[j]])|
      ensures es[j].position >= es[i].position + 8 + |all[at[i]]|
      ensures at[j] == at[i] + 1 ==> es[j].position == es[i].position + 8 + |all[at[i]]|
    {
      BytesBetween(all, at[i], at[j]);
    }
    if Bounded(all) { LongestValidPrefix(bytes); }
  }

  /** Reading the offset of an entry gives the record the entry points at. */
  lemma ReadEntry(s: Seg, all: seq<Record>, at: seq<nat>, n: nat)
    requires Indexed(s, all, at) && |s.data| < LIMIT64 && n < |s.entries|
    ensures ReadSeg(s, s.entries[n].offset) == Ok(all[at[n]])
  {
    EncodedStorable(all);
    ReadEncoded(all, at[n]);
    LookupIsFirst(s.entries, s.entries[n].offset);
    assert FirstAt(s.entries, s.entries[n].offset, n);
  }

  /** More bytes and more records behind leave the entries pointing where they pointed. */
  lemma PointsGrow(es: seq<Entry>, bytes: seq<Byte>, all: seq<Record>, at: seq<nat>, more: seq<Byte>, r: Record)
    requires Points(es, bytes, all, at) && bytes <= more
    ensures Points(es, more, all, at)
    ensures EncodeAll(all + [r]) <= more ==> Points(es, more, all + [r], at)
  {
    forall i | 0 <= i < |at| ensures (all + [r])[..at[i]] == all[..at[i]] {
    }
  }

  /** A failed index write orphans the record; the entries are as before. */
  lemma OrphanKeepsIndexed(s: Seg, all: seq<Record>, at: seq<nat>, r: Record)
    requires Indexed(s, all, at)
    ensures Indexed(OrphanSeg(s, r), all + [r], at)
  {
    EncodeSnoc(all, r);
    PointsGrow(s.entries, s.data, all, at, OrphanSeg(s, r).data, r);
  }

  lemma AppendKeepsIndexed(s: Seg, all: seq<Record>, at: seq<nat>, r: Record)
    requires Indexed(s, all, at) && Room(s, r)
    ensures Indexed(AppendSeg(s, r), all + [r], at + [|all|])
  {
    OrphanKeepsIndexed(s, all, at, r);
    assert (all + [r])[..|all|] == all;
  }

  /**
   Store before index: at every point of an append to a segment, whatever
   index writes failed before, each entry points at the start of a complete
   record among the bytes written so far.  The new record has an entry only
   once all of it is there.
   */
  lemma EntriesPointAtRecords(s: Seg, all: seq<Record>, at: seq<nat>, r: Record, ms: seq<Micro>)
    requires Indexed(s, all, at) && Room(s, r) && Run(s, r, ms)
    ensures var m := ms[|ms| - 1];
            && m.size <= |m.mapping|
            && if EntryDurable(m) then Points(m.entries, m.mapping[..m.size], all + [r], at + [|all|])
               else Points(m.entries, m.mapping[..m.size], all, at)
  {
    var m := ms[|ms| - 1];
    RunKeepsInv(s, r, ms);
    if EntryDurable(m) {
      AppendKeepsIndexed(s, all, at, r);
    } else {
      PointsGrow(s.entries, s.data, all, at, m.mapping[..m.size], r);
    }
  }

  // ----- Any series of appends, some of which fail -----

  /** An append whose store write succeeded, and whether its index write did. */
  datatype Attempt = Attempt(record: Record, indexed: bool)

  function Records(ws: seq<Attempt>): (rs: seq<Record>)
    ensures |rs| == |ws|
  {
    seq(|ws|, i requires 0 <= i < |ws| => ws[i].record)
  }

  /** Which attempts got an entry. */
  function Successes(ws: seq<Attempt>): (at: seq<nat>)
    ensures |at| <= |ws| && forall i :: 0 <= i < |at| ==> at[i] < |ws|
  {
    if ws == [] then []
    else Successes(ws[..|ws| - 1]) + if ws[|ws| - 1].indexed then [|ws| - 1] else []
  }

  predicate FitsAll(base: nat, ws: seq<Attempt>) {
    Fits(base, Records(ws))
  }

  lemma FitsInit(base: nat, ws: seq<Attempt>)
    requires FitsAll(base, ws) && ws != []
    ensures FitsAll(base, ws[..|ws| - 1])
    ensures EncodeAll(Records(ws)) == EncodeAll(Records(ws[..|ws| - 1])) + Frame(ws[|ws| - 1].record)
  {
    assert Records(ws) == Records(ws[..|ws| - 1]) + [ws[|ws| - 1].record];
    EncodeSnoc(Records(ws[..|ws| - 1]), ws[|ws| - 1].record);
  }

  /** The segment after these attempts on an empty one. */
  function Replay(base: nat, ws: seq<Attempt>): (s: Seg)
    requires FitsAll(base, ws)
    ensures s.base == base && s.next <= base + |ws| && s.data == EncodeAll(Records(ws))
  {
    if ws == [] then Seg(base, base, [], [])
    else
      FitsInit(base, ws);
      var s, last := Replay(base, ws[..|ws| - 1]), ws[|ws| - 1];
      if last.indexed then AppendSeg(s, last.record) else OrphanSeg(s, last.record)
  }

  /**
   After any series of successful and failed appends the entries point, in
   order, at the records of the successful ones, at consecutive offsets, and
   reading the n-th offset gives the record of the n-th success.
   */
  lemma {:induction false} AttemptsIndexed(base: nat, ws: seq<Attempt>)
    requires FitsAll(base, ws)
    ensures Indexed(Replay(base, ws), Records(ws), Successes(ws))
    ensures Replay(base, ws).next == base + |Successes(ws)|
    ensures forall n :: 0 <= n < |Successes(ws)| ==> Replay(base, ws).entries[n].offset == base + n
  {
    if ws != [] {
      FitsInit(base, ws);
      AttemptsIndexed(base, ws[..|ws| - 1]);
      AttemptKeepsIndexed(base, ws);
    }
  }

  lemma AttemptKeepsIndexed(base: nat, ws: seq<Attempt>)
    requires FitsAll(base, ws) && ws != [] && FitsAll(base, ws[..|ws| - 1])
    requires var init := ws[..|ws| - 1]; Indexed(Replay(base, init), Records(init), Successes(init))
    ensures Indexed(Replay(base, ws), Records(ws), Successes(ws))
  {
    var init, r := ws[..|ws| - 1], ws[|ws| - 1].record;
    ReplayLast(base, ws);
    if ws[|ws| - 1].indexed {
      AppendKeepsIndexed(Replay(base, init), Records(init), Successes(init), r);
    } else {
      OrphanKeepsIndexed(Replay(base, init), Records(init), Successes(init), r);
    }
  }

  lemma ReplayLast(base: nat, ws: seq<Attempt>)
    requires FitsAll(base, ws) && ws != []
    ensures var init, last := ws[..|ws| - 1], ws[|ws| - 1];
            && FitsAll(base, init) && Records(ws) == Records(init) + [last.record]
            && Room(Replay(base, init), last.record)
            && (last.indexed ==>
                  && Replay(base, ws) == AppendSeg(Replay(base, init), last.record)
                  && Successes(ws) == Successes(init) + [|Records(init)|])
            && (!last.indexed ==>
                  && Replay(base, ws) == OrphanSeg(Replay(base, init), last.record)
                  && Successes(ws) == Successes(init))
  {
    FitsInit(base, ws);
  }

  lemma AttemptsRead(base: nat, ws: seq<Attempt>, n: nat)
    requires FitsAll(base, ws) && n < |Successes(ws)|
    ensures ReadSeg(Replay(base, ws), base + n) == Ok(ws[Successes(ws)[n]].record)
  {
    var s, all, at := Replay(base, ws), Records(ws), Successes(ws);
    AttemptsIndexed(base, ws);
    assert all[at[n]] == ws[at[n]].record;
    assert s.entries[n].offset == base + n;
    ReadEntry(s, all, at, n);
  }

  // ----- The crash-free, failure-free case -----

  lemma SegOfIndexed(base: nat, rs: seq<Record>)
    requires Fits(base, rs)
    ensures Indexed(SegOf(base, rs), rs, seq(|rs|, i => i))
  {
    var at: seq<nat> := seq(|rs|, i => i);
    forall i | 0 <= i < |at| ensures EntriesOf(base, rs)[i].position == |EncodeAll(rs[..at[i]])| {
      assert EntriesOf(base, rs)[i] == EntryOf(base, rs, i);
    }
  }

  /** When no index write ever failed, consecutive positions are exactly one frame apart. */
  lemma OneFrameApart(base: nat, rs: seq<Record>, i: nat)
    requires Fits(base, rs) && i + 1 < |rs|
    ensures var es := SegOf(base, rs).entries;
            es[i].offset == base + i && es[i + 1].position == es[i].position + 8 + |rs[i]|
  {
    SegOfIndexed(base, rs);
    PointsMeans(EntriesOf(base, rs), EncodeAll(rs), rs, seq(|rs|, k => k));
  }

  /**
   What the two files may hold after a crash at `m`.  The index entry is
   written only after the store was flushed; until then any bytes at all may
   stand behind the old records.
   */
  predicate CrashFiles(s: Seg, m: Micro, log: seq<Byte>, idx: seq<Byte>)
    requires m.size <= |m.mapping|
  {
    && (if EntryDurable(m) then m.mapping[..m.size] <= log else s.data <= log)
    && Padded(idx, m.entries)
  }

  /**
   Crash at any point of an append and reopen: every offset that was readable
   still is, with the same record; the recovered counter is the old one (plus
   one for a padded segment without entries) before the entry is written, and
   the record itself is recovered from then on.
   */
  lemma CrashAnywhere(s: Seg, r: Record, ms: seq<Micro>, m: Micro, log: seq<Byte>, idx: seq<Byte>, t: Seg)
    requires Sound(s) && Room(s, r) && |r| <= MAX_RECORD && Run(s, r, ms)
    requires m == ms[|ms| - 1] && m.size <= |m.mapping| && CrashFiles(s, m, log, idx)
    requires t == OpenSeg(s.base, log, idx)
    ensures Sound(t) && KeepsReads(s, t)
    ensures EntryDurable(m) ==> t.next == s.next + 1 && ReadSeg(t, s.next) == Ok(r)
    ensures !EntryDurable(m) ==> t.next == if s.entries == [] && |idx| >= 16 then s.base + 1 else s.next
  {
    RunKeepsInv(s, r, ms);
    if EntryDurable(m) {
      CrashAfterEntry(s, r, log, idx, t);
    } else {
      assert log == s.data + log[|s.data|..];
      CrashOpen(s, log[|s.data|..], |idx| - 16 * |s.entries|, t);
    }
  }

  lemma CrashAfterEntry(s: Seg, r: Record, log: seq<Byte>, idx: seq<Byte>, t: Seg)
    requires Sound(s) && Room(s, r) && |r| <= MAX_RECORD
    requires AppendSeg(s, r).data <= log && 16 * |s.entries| + 16 <= |idx|
    requires idx == EncodeEntries(AppendSeg(s, r).entries) + Zeros(|idx| - 16 * |s.entries| - 16)
    requires t == OpenSeg(s.base, log, idx)
    ensures Sound(t) && KeepsReads(s, t)
    ensures t.next == s.next + 1 && ReadSeg(t, s.next) == Ok(r)
  {
    var u := AppendSeg(s, r);
    AppendKeepsSound(s, r);
    assert log == u.data + log[|u.data|..];
    CrashOpen(u, log[|u.data|..], |idx| - 16 * |u.entries|, t);
    SoundBelowNext(s);
    AppendSurvives(s, r, t);
  }

  lemma AppendSurvives(s: Seg, r: Record, t: Seg)
    requires EntriesBelowNext(s) && Room(s, r) && KeepsReads(AppendSeg(s, r), t)
    ensures KeepsReads(s, t) && ReadSeg(t, s.next) == Ok(r)
  {
    AppendReadsBack(s, r);
    assert ReadSeg(AppendSeg(s, r), s.next).Ok?;
    KeepsReadsTransitive(s, AppendSeg(s, r), t);
  }
}
