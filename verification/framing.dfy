/**
 The store's file format: every record is preceded by its length as eight
 little-endian bytes.  This module says what the recovery scan accepts and
 what a read at a byte position returns.
 */
module Framing {
  import opened Bytes
  import opened Results

  /** The longest record the recovery scan believes in. */
  const MAX_RECORD: nat := 100 * 1024 * 1024

  /** A store file opened empty is pre-sized to this length. */
  const MIB: nat := 1024 * 1024

  function Frame(r: Record): (f: seq<Byte>)
    ensures |f| == 8 + |r|
  {
    EncodeU64(|r|) + r
  }

  function EncodeAll(rs: seq<Record>): seq<Byte> {
    if rs == [] then [] else Frame(rs[0]) + EncodeAll(rs[1..])
  }

  predicate Bounded(rs: seq<Record>) {
    forall i :: 0 <= i < |rs| ==> |rs[i]| <= MAX_RECORD
  }

  /** Every length fits the eight-byte prefix. */
  predicate Storable(rs: seq<Record>) {
    forall i :: 0 <= i < |rs| ==> |rs[i]| < LIMIT64
  }

  /** What stands in the file for a record: its length, least significant byte first, then its bytes. */
  lemma FrameLayout(r: Record)
    requires |r| < LIMIT64
    ensures var n := |r|;
            Frame(r) ==
            [n % 0x100, n / 0x100 % 0x100, n / 0x1_0000 % 0x100, n / 0x100_0000 % 0x100,
             n / 0x1_0000_0000 % 0x100, n / 0x100_0000_0000 % 0x100, n / 0x1_0000_0000_0000 % 0x100,
             n / 0x100_0000_0000_0000 % 0x100] + r
  {
    LittleEndian(|r|);
  }

  // ----- Encoding lists of records -----

  lemma Associative<T>(x: seq<T>, y: seq<T>, z: seq<T>)
    ensures x + (y + z) == (x + y) + z
  {
  }

  lemma SplitAt<T>(s: seq<T>, i: nat)
    requires i < |s|
    ensures s == (s[..i] + [s[i]]) + s[i + 1..]
  {
  }

  lemma {:induction false} EncodeAllConcat(a: seq<Record>, b: seq<Record>)
    ensures EncodeAll(a + b) == EncodeAll(a) + EncodeAll(b)
  {
    if a == [] {
      assert a + b == b;
    } else {
      EncodeAllConcat(a[1..], b);
      assert (a + b)[1..] == a[1..] + b;
      Associative(Frame(a[0]), EncodeAll(a[1..]), EncodeAll(b));
    }
  }

  lemma EncodeOne(r: Record)
    ensures EncodeAll([r]) == Frame(r)
  {
    assert [r][1..] == [];
    assert EncodeAll([r]) == Frame(r) + EncodeAll([]);
  }

  lemma EncodeSnoc(rs: seq<Record>, r: Record)
    ensures EncodeAll(rs + [r]) == EncodeAll(rs) + Frame(r)
  {
    EncodeAllConcat(rs, [r]);
    EncodeOne(r);
  }

  /** The bytes of record `i` stand right after the bytes of the records before it. */
  lemma EncodeSplit(rs: seq<Record>, i: nat)
    requires i < |rs|
    ensures EncodeAll(rs) == EncodeAll(rs[..i]) + Frame(rs[i]) + EncodeAll(rs[i + 1..])
  {
    var before, after := rs[..i], rs[i + 1..];
    SplitAt(rs, i);
    EncodeSnoc(before, rs[i]);
    EncodeAllConcat(before + [rs[i]], after);
  }

  lemma FrameLength(r: Record, tail: seq<Byte>)
    requires |r| < LIMIT64
    ensures |Frame(r) + tail| >= 8 && DecodeU64((Frame(r) + tail)[..8]) == |r|
    ensures (Frame(r) + tail)[8..8 + |r|] == r
  {
    assert (Frame(r) + tail)[..8] == EncodeU64(|r|);
    DecodeEncode(|r|);
  }

  // ----- The recovery scan -----

  /** One turn of the scan loop: the end of the record at `pos`, or None where the loop stops. */
  function RecordEnd(f: seq<Byte>, pos: nat): (end: Option<nat>)
    requires pos <= |f|
    ensures end.Some? ==> pos + 8 <= end.value <= |f|
  {
    if pos + 8 > |f| then None
    else
      var len := DecodeU64(f[pos..pos + 8]);
      if len > MAX_RECORD || pos + 8 + len > |f| then None else Some(pos + 8 + len)
  }

  /** The records the scan accepts from `pos` on. */
  function ParseFrom(f: seq<Byte>, pos: nat): seq<Record>
    requires pos <= |f|
    decreases |f| - pos
  {
    match RecordEnd(f, pos)
    case None => []
    case Some(end) => [f[pos + 8..end]] + ParseFrom(f, end)
  }

  function Parse(f: seq<Byte>): seq<Record> {
    ParseFrom(f, 0)
  }

  /** The number of bytes the scan keeps. */
  function ScanFrom(f: seq<Byte>, pos: nat): (end: nat)
    requires pos <= |f|
    ensures pos <= end <= |f|
    decreases |f| - pos
  {
    match RecordEnd(f, pos)
    case None => pos
    case Some(end) => ScanFrom(f, end)
  }

  function ScanEnd(f: seq<Byte>): (end: nat)
    ensures end <= |f|
  {
    ScanFrom(f, 0)
  }

  /** Whether the bytes are exactly whole records, none of them too long for the scan. */
  predicate Framed(f: seq<Byte>) {
    ScanEnd(f) == |f|
  }

  lemma EncodeCons(r: Record, rest: seq<Record>)
    ensures EncodeAll([r] + rest) == Frame(r) + EncodeAll(rest)
  {
    assert ([r] + rest)[1..] == rest;
  }

  lemma JoinSlices<T>(s: seq<T>, i: nat, j: nat, k: nat)
    requires i <= j <= k <= |s|
    ensures s[i..j] + s[j..k] == s[i..k]
  {
  }

  /** One step of the scan: a whole record is accepted and the scan goes on behind it. */
  lemma ParseStep(f: seq<Byte>, pos: nat) returns (r: Record, end: nat)
    requires pos <= |f| && RecordEnd(f, pos).Some?
    ensures pos < end <= |f| && RecordEnd(f, pos) == Some(end) && |r| <= MAX_RECORD && Frame(r) == f[pos..end]
    ensures ParseFrom(f, pos) == [r] + ParseFrom(f, end) && ScanFrom(f, pos) == ScanFrom(f, end)
  {
    end := RecordEnd(f, pos).value;
    r := f[pos + 8..end];
    EncodeDecode(f[pos..pos + 8]);
    JoinSlices(f, pos, pos + 8, end);
  }

  /** What the scan kept is the encoding of the records it accepted. */
  lemma {:induction false} ParseEncodes(f: seq<Byte>, pos: nat)
    requires pos <= |f|
    ensures Bounded(ParseFrom(f, pos))
    ensures EncodeAll(ParseFrom(f, pos)) == f[pos..ScanFrom(f, pos)]
    decreases |f| - pos
  {
    if RecordEnd(f, pos).Some? {
      var r, end := ParseStep(f, pos);
      ParseEncodes(f, end);
      EncodeCons(r, ParseFrom(f, end));
      JoinSlices(f, pos, end, ScanFrom(f, end));
    }
  }

  lemma ConsConcat<T>(s: seq<T>, tail: seq<T>)
    requires s != []
    ensures [s[0]] + (s[1..] + tail) == s + tail
  {
  }

  /** The scan accepts a record of at most MAX_RECORD bytes whose frame stands at `pos`. */
  lemma ParseHere(f: seq<Byte>, pos: nat, r: Record)
    requires |r| <= MAX_RECORD && pos + 8 + |r| <= |f| && f[pos..pos + 8 + |r|] == Frame(r)
    ensures RecordEnd(f, pos) == Some(pos + 8 + |r|) && f[pos + 8..pos + 8 + |r|] == r
    ensures ParseFrom(f, pos) == [r] + ParseFrom(f, pos + 8 + |r|)
    ensures ScanFrom(f, pos) == ScanFrom(f, pos + 8 + |r|)
  {
    var frame := f[pos..pos + 8 + |r|];
    assert f[pos..pos + 8] == frame[..8] == EncodeU64(|r|);
    assert f[pos + 8..pos + 8 + |r|] == frame[8..] == r;
    DecodeEncode(|r|);
  }

  lemma {:induction false} ParseSlice(f: seq<Byte>, pos: nat, stop: nat, rs: seq<Record>)
    requires pos <= stop <= |f| && Bounded(rs) && f[pos..stop] == EncodeAll(rs)
    ensures ParseFrom(f, pos) == rs + ParseFrom(f, stop)
    ensures ScanFrom(f, pos) == ScanFrom(f, stop)
    decreases |rs|
  {
    if rs == [] {
      assert [] + ParseFrom(f, pos) == ParseFrom(f, pos);
    } else {
      var r, rest := rs[0], rs[1..];
      FirstOfSlice(f, pos, stop, rs);
      ParseSlice(f, pos + 8 + |r|, stop, rest);
      ParseHere(f, pos, r);
      ConsConcat(rs, ParseFrom(f, stop));
    }
  }

  lemma FirstOfSlice(f: seq<Byte>, pos: nat, stop: nat, rs: seq<Record>)
    requires pos <= stop <= |f| && rs != [] && f[pos..stop] == EncodeAll(rs) && Bounded(rs)
    ensures |rs[0]| <= MAX_RECORD && Bounded(rs[1..])
    ensures var end := pos + 8 + |rs[0]|;
            end <= stop && f[pos..end] == Frame(rs[0]) && f[end..stop] == EncodeAll(rs[1..])
  {
    var end, s := pos + 8 + |rs[0]|, f[pos..stop];
    assert s == Frame(rs[0]) + EncodeAll(rs[1..]);
    assert f[pos..end] == s[..8 + |rs[0]|] && f[end..stop] == s[8 + |rs[0]|..];
  }

  /** Unique parse: records that stand at `pos` are the first ones the scan accepts. */
  lemma ParseFindsAll(f: seq<Byte>, pos: nat, rs: seq<Record>)
    requires pos <= |f| && Bounded(rs)
    requires EncodeAll(rs) <= f[pos..]
    ensures ParseFrom(f, pos) == rs + ParseFrom(f, pos + |EncodeAll(rs)|)
    ensures ScanFrom(f, pos) == ScanFrom(f, pos + |EncodeAll(rs)|)
  {
    assert f[pos..pos + |EncodeAll(rs)|] == f[pos..][..|EncodeAll(rs)|];
    ParseSlice(f, pos, pos + |EncodeAll(rs)|, rs);
  }

  /**
   The scan keeps the longest prefix of the file that is a concatenation of
   whole records of at most MAX_RECORD bytes, and only one list of records
   encodes that prefix.
   */
  lemma LongestValidPrefix(f: seq<Byte>)
    ensures Bounded(Parse(f)) && EncodeAll(Parse(f)) == f[..ScanEnd(f)]
    ensures forall rs :: Bounded(rs) && EncodeAll(rs) <= f ==> rs <= Parse(f) && |EncodeAll(rs)| <= ScanEnd(f)
    ensures forall rs :: Bounded(rs) && EncodeAll(rs) == f[..ScanEnd(f)] ==> rs == Parse(f)
  {
    ParseEncodes(f, 0);
    forall rs | Bounded(rs) && EncodeAll(rs) <= f
      ensures rs <= Parse(f) && |EncodeAll(rs)| <= ScanEnd(f)
    {
      assert f[0..] == f;
      ParseFindsAll(f, 0, rs);
    }
    forall rs | Bounded(rs) && EncodeAll(rs) == f[..ScanEnd(f)]
      ensures rs == Parse(f)
    {
      EncodeGrows(rs, Parse(f));
    }
  }

  lemma EncodeGrows(a: seq<Record>, b: seq<Record>)
    requires a <= b
    ensures EncodeAll(a) <= EncodeAll(b)
    ensures EncodeAll(a) == EncodeAll(b) ==> a == b
  {
    var rest := b[|a|..];
    assert b == a + rest;
    EncodeAllConcat(a, rest);
  }

  /** A file is framed exactly when it is the encoding of some records the scan believes in. */
  lemma FramedIff(f: seq<Byte>)
    ensures Framed(f) <==> exists rs :: Bounded(rs) && EncodeAll(rs) == f
    ensures Framed(f) ==> EncodeAll(Parse(f)) == f
  {
    LongestValidPrefix(f);
    assert Framed(f) ==> f[..ScanEnd(f)] == f;
  }

  /** Whole records followed by any bytes: the records are kept and the rest is scanned on its own. */
  lemma ParseWithTail(rs: seq<Record>, tail: seq<Byte>)
    requires Bounded(rs)
    ensures Parse(EncodeAll(rs) + tail) == rs + Parse(tail)
    ensures ScanEnd(EncodeAll(rs) + tail) == |EncodeAll(rs)| + ScanEnd(tail)
  {
    var f := EncodeAll(rs) + tail;
    assert f[0..] == f;
    ParseFindsAll(f, 0, rs);
    ParseShift(f, |EncodeAll(rs)|);
    assert f[|EncodeAll(rs)|..] == tail;
  }

  /** The scan looks only at the bytes from its position on. */
  lemma {:induction false} ParseShift(f: seq<Byte>, pos: nat)
    requires pos <= |f|
    ensures ParseFrom(f, pos) == Parse(f[pos..])
    ensures ScanFrom(f, pos) == pos + ScanEnd(f[pos..])
    decreases |f| - pos
  {
    var g := f[pos..];
    if pos + 8 <= |f| { assert f[pos..pos + 8] == g[0..8]; }
    match RecordEnd(f, pos)
    case None =>
    case Some(end) =>
      ParseShift(f, end);
      if pos > 0 {
        ParseShift(g, end - pos);
        assert g[end - pos..] == f[end..];
        assert f[pos + 8..end] == g[8..end - pos];
      } else {
        assert g == f;
      }
  }

  /** A second scan over what the first one kept truncates nothing. */
  lemma ScanIdempotent(f: seq<Byte>)
    ensures Framed(f[..ScanEnd(f)]) && Parse(f[..ScanEnd(f)]) == Parse(f)
  {
    LongestValidPrefix(f);
    ParseWithTail(Parse(f), []);
    assert EncodeAll(Parse(f)) + [] == f[..ScanEnd(f)];
  }

  function Repeat<T>(x: T, n: nat): seq<T> {
    seq(n, i => x)
  }

  lemma {:induction false} ParseZeros(n: nat)
    ensures Parse(Zeros(n)) == Repeat([], n / 8)
    ensures ScanEnd(Zeros(n)) == 8 * (n / 8)
  {
    var f := Zeros(n);
    if n >= 8 {
      ZeroWord();
      assert f[0..8] == Zeros(8);
      assert RecordEnd(f, 0) == Some(8);
      ParseShift(f, 8);
      assert f[8..] == Zeros(n - 8);
      ParseZeros(n - 8);
      assert Repeat<Record>([], n / 8) == [[]] + Repeat([], (n - 8) / 8);
      assert f[8..8] == [];
    }
  }

  /** Padding left by an unclean shutdown: every eight zero bytes become one empty record. */
  lemma ZeroTail(rs: seq<Record>, t: nat)
    requires Bounded(rs)
    ensures Parse(EncodeAll(rs) + Zeros(t)) == rs + Repeat([], t / 8)
    ensures ScanEnd(EncodeAll(rs) + Zeros(t)) == |EncodeAll(rs)| + 8 * (t / 8)
  {
    ParseWithTail(rs, Zeros(t));
    ParseZeros(t);
  }

  /** The number of whole records in the first `k` encoded bytes. */
  lemma {:induction false} WholeRecords(rs: seq<Record>, k: nat) returns (n: nat)
    requires k < |EncodeAll(rs)|
    ensures n < |rs| && |EncodeAll(rs[..n])| <= k < |EncodeAll(rs[..n + 1])|
  {
    var r := rs[0];
    EncodeOne(r);
    if k < |Frame(r)| {
      n := 0;
      assert rs[..1] == [r];
    } else {
      var m := WholeRecords(rs[1..], k - |Frame(r)|);
      n := m + 1;
      EncodeAllConcat([r], rs[1..][..m]);
      EncodeAllConcat([r], rs[1..][..m + 1]);
      assert rs[..n] == [r] + rs[1..][..m] && rs[..n + 1] == [r] + rs[1..][..m + 1];
    }
  }

  /** A file cut short anywhere: exactly the records that lie wholly before the cut survive. */
  lemma TornTail(rs: seq<Record>, k: nat)
    requires Bounded(rs) && k <= |EncodeAll(rs)|
    ensures var p := Parse(EncodeAll(rs)[..k]);
            && p <= rs && ScanEnd(EncodeAll(rs)[..k]) == |EncodeAll(p)| <= k
            && (|p| < |rs| ==> k < |EncodeAll(rs[..|p| + 1])|)
  {
    if k == |EncodeAll(rs)| {
      ParseWithTail(rs, []);
      assert EncodeAll(rs)[..k] == EncodeAll(rs) + [] && rs + [] == rs;
    } else {
      var n := WholeRecords(rs, k);
      EncodeSplit(rs, n);
      EncodeSnoc(rs[..n], rs[n]);
      assert rs[..n + 1] == rs[..n] + [rs[n]];
      var torn := Frame(rs[n])[..k - |EncodeAll(rs[..n])|];
      assert EncodeAll(rs)[..k] == EncodeAll(rs[..n]) + torn;
      ParseWithTail(rs[..n], torn);
      TornFrame(rs[n], |torn|);
      assert Parse(EncodeAll(rs)[..k]) == rs[..n];
    }
  }

  lemma TornFrame(r: Record, cut: nat)
    requires |r| < LIMIT64 && cut < |Frame(r)|
    ensures Parse(Frame(r)[..cut]) == [] && ScanEnd(Frame(r)[..cut]) == 0
  {
    var torn := Frame(r)[..cut];
    if cut >= 8 {
      FrameLength(r, []);
      assert torn[0..8] == (Frame(r) + [])[..8];
    }
  }

  /** The scan stops for good in front of a record that is too long for it. */
  lemma {:induction false} OversizeStops(rs: seq<Record>)
    requires Storable(rs) && !Bounded(rs)
    ensures ScanEnd(EncodeAll(rs)) < |EncodeAll(rs)|
  {
    var r := rs[0];
    var f := EncodeAll(rs);
    FrameLength(r, EncodeAll(rs[1..]));
    assert f[0..8] == f[..8];
    if |r| <= MAX_RECORD {
      assert rs == [r] + rs[1..];
      OversizeStops(rs[1..]);
      ParseShift(f, 8 + |r|);
      assert f[8 + |r|..] == EncodeAll(rs[1..]);
    }
  }

  /** The bytes of storable records pass the scan untouched exactly when no record is too long. */
  lemma ScanKeepsAllIff(rs: seq<Record>)
    requires Storable(rs)
    ensures Framed(EncodeAll(rs)) <==> Bounded(rs)
  {
    if Bounded(rs) {
      ParseWithTail(rs, []);
      assert EncodeAll(rs) + [] == EncodeAll(rs);
    } else {
      OversizeStops(rs);
    }
  }

  /** A file with one record is kept whole up to 104857600 bytes of record, and cut to nothing beyond. */
  lemma RecordLimit(r: Record)
    requires |r| < LIMIT64
    ensures ScanEnd(Frame(r)) == if |r| <= 104857600 then 8 + |r| else 0
  {
    EncodeOne(r);
    var f := Frame(r);
    if |r| <= 104857600 {
      ScanKeepsAllIff([r]);
    } else {
      FrameLength(r, []);
      assert f + [] == f && f[0..8] == f[..8];
      assert RecordEnd(f, 0) == None;
    }
  }

  lemma FramedAppend(f: seq<Byte>, r: Record)
    requires Framed(f) && |r| <= MAX_RECORD
    ensures Framed(f + Frame(r))
  {
    FramedIff(f);
    EncodeSnoc(Parse(f), r);
    FramedIff(f + Frame(r));
    assert Bounded(Parse(f) + [r]) by { LongestValidPrefix(f); }
  }

  /** Bytes after a framed file leave it a prefix of what the scan keeps. */
  lemma FramedPrefixKept(f: seq<Byte>, tail: seq<Byte>)
    requires Framed(f)
    ensures f <= (f + tail)[..ScanEnd(f + tail)]
  {
    FramedIff(f);
    LongestValidPrefix(f);
    ParseWithTail(Parse(f), tail);
  }

  // ----- Reading at a position -----

  /** `Store::read`: the record whose length prefix stands at `pos`. */
  function ReadAt(data: seq<Byte>, pos: nat): Result<Record> {
    if pos >= |data| then Err(ReadBeyondEnd(pos, |data|))
    else if pos + 8 > |data| then Err(CorruptedRecord(pos))
    else
      var end := pos + 8 + DecodeU64(data[pos..pos + 8]);
      if end > |data| then Err(CorruptedRecord(pos)) else Ok(data[pos + 8..end])
  }

  /** A read succeeds with `r` exactly when the frame of `r` stands at that position. */
  lemma ReadAtIff(data: seq<Byte>, pos: nat, r: Record)
    ensures ReadAt(data, pos) == Ok(r) <==> |r| < LIMIT64 && pos <= |data| && Frame(r) <= data[pos..]
  {
    if ReadAt(data, pos) == Ok(r) {
      EncodeDecode(data[pos..pos + 8]);
      assert data[pos..][..8 + |r|] == data[pos..pos + 8] + data[pos + 8..pos + 8 + |r|];
    }
    if |r| < LIMIT64 && pos <= |data| && Frame(r) <= data[pos..] {
      var tail := data[pos..][|Frame(r)|..];
      assert data[pos..] == Frame(r) + tail;
      FrameLength(r, tail);
      assert data[pos..pos + 8] == data[pos..][..8];
      assert data[pos + 8..pos + 8 + |r|] == data[pos..][8..8 + |r|];
    }
  }

  /**
   Why a read fails: the position is at or past the end, or it is before the
   end and no record's frame stands there.
   */
  lemma ReadAtErrors(data: seq<Byte>, pos: nat)
    ensures ReadAt(data, pos) == Err(ReadBeyondEnd(pos, |data|)) <==> pos >= |data|
    ensures ReadAt(data, pos) == Err(CorruptedRecord(pos)) <==>
              pos < |data| && forall r: Record :: |r| < LIMIT64 ==> !(Frame(r) <= data[pos..])
    ensures ReadAt(data, pos).Err? ==>
              ReadAt(data, pos).error in {ReadBeyondEnd(pos, |data|), CorruptedRecord(pos)}
  {
    if pos < |data| {
      forall r: Record | |r| < LIMIT64 && Frame(r) <= data[pos..] ensures ReadAt(data, pos) == Ok(r) {
        ReadAtIff(data, pos, r);
      }
      if ReadAt(data, pos).Ok? { ReadAtIff(data, pos, ReadAt(data, pos).value); }
    }
  }

  lemma ReadAtPrefix(data: seq<Byte>, more: seq<Byte>, pos: nat)
    requires data <= more && ReadAt(data, pos).Ok?
    ensures ReadAt(more, pos) == ReadAt(data, pos)
  {
    assert data[pos..pos + 8] == more[pos..pos + 8];
    var end := pos + 8 + DecodeU64(data[pos..pos + 8]);
    assert data[pos + 8..end] == more[pos + 8..end];
  }

  lemma ReadAtFrame(data: seq<Byte>, r: Record)
    requires |r| < LIMIT64
    ensures ReadAt(data + Frame(r), |data|) == Ok(r)
  {
    assert (data + Frame(r))[|data|..] == Frame(r);
    ReadAtIff(data + Frame(r), |data|, r);
  }

  /** Record `i` of an encoded list is read back at the position where its frame starts. */
  lemma ReadEncoded(rs: seq<Record>, i: nat)
    requires Storable(rs) && i < |rs|
    ensures ReadAt(EncodeAll(rs), |EncodeAll(rs[..i])|) == Ok(rs[i])
  {
    EncodeSplit(rs, i);
    var before := EncodeAll(rs[..i]);
    ReadAtFrame(before, rs[i]);
    ReadAtPrefix(before + Frame(rs[i]), EncodeAll(rs), |before|);
  }
}
