/** The index's file format: sixteen-byte entries searched from the front. */
module Entries {
  import opened Bytes
  import opened Results

  const ENTRY_WIDTH: nat := 16

  /** An index file opened empty is pre-sized with room for 1000 entries. */
  const INITIAL_BYTES: nat := 1000 * ENTRY_WIDTH

  datatype Entry = Entry(offset: U64, position: U64)

  const ZERO_ENTRY := Entry(0, 0)

  function EncodeEntry(e: Entry): (b: seq<Byte>)
    ensures |b| == 16
  {
    EncodeU64(e.offset) + EncodeU64(e.position)
  }

  function EncodeEntries(es: seq<Entry>): (b: seq<Byte>)
    ensures |b| == 16 * |es|
  {
    if es == [] then [] else EncodeEntries(es[..|es| - 1]) + EncodeEntry(es[|es| - 1])
  }

  function DecodeEntryAt(b: seq<Byte>, i: nat): Entry
    requires 16 * i + 16 <= |b|
  {
    Entry(DecodeU64(b[16 * i..16 * i + 8]), DecodeU64(b[16 * i + 8..16 * i + 16]))
  }

  /** The whole entries of an index file; a partial one at the end is dropped. */
  function DecodeEntries(b: seq<Byte>): seq<Entry> {
    seq(|b| / 16, i requires 0 <= i < |b| / 16 => DecodeEntryAt(b, i))
  }

  // ----- Encoding and decoding -----

  /** Sixteen bytes: the offset, then the position, each with its least significant byte first. */
  lemma EntryLayout(e: Entry)
    ensures EncodeEntry(e)[..8] == EncodeU64(e.offset) && EncodeEntry(e)[8..] == EncodeU64(e.position)
    ensures DecodeEntries(EncodeEntry(e)) == [e]
  {
    DecodeEncodeEntries([e], []);
    assert EncodeEntries([e]) == EncodeEntries([]) + EncodeEntry(e);
    assert EncodeEntries([e]) + [] == EncodeEntry(e);
  }

  lemma DecodeEntryHere(before: seq<Byte>, e: Entry, after: seq<Byte>, i: nat)
    requires |before| == 16 * i
    ensures DecodeEntryAt(before + EncodeEntry(e) + after, i) == e
  {
    var b := before + EncodeEntry(e) + after;
    assert b[16 * i..16 * i + 8] == EncodeU64(e.offset);
    assert b[16 * i + 8..16 * i + 16] == EncodeU64(e.position);
    DecodeEncode(e.offset);
    DecodeEncode(e.position);
  }

  lemma DecodeEntryPrefix(b: seq<Byte>, more: seq<Byte>, i: nat)
    requires b <= more && 16 * i + 16 <= |b|
    ensures DecodeEntryAt(more, i) == DecodeEntryAt(b, i)
  {
    assert b[16 * i..16 * i + 8] == more[16 * i..16 * i + 8];
    assert b[16 * i + 8..16 * i + 16] == more[16 * i + 8..16 * i + 16];
  }

  lemma {:induction false} EncodedEntryAt(es: seq<Entry>, i: nat)
    requires i < |es|
    ensures DecodeEntryAt(EncodeEntries(es), i) == es[i]
  {
    var init, last := es[..|es| - 1], es[|es| - 1];
    if i == |es| - 1 {
      DecodeEntryHere(EncodeEntries(init), last, [], i);
      assert EncodeEntries(es) == EncodeEntries(init) + EncodeEntry(last) + [];
    } else {
      EncodedEntryAt(init, i);
      DecodeEntryPrefix(EncodeEntries(init), EncodeEntries(es), i);
    }
  }

  /** Entries written to a file are the entries read from it, whatever partial entry follows. */
  lemma DecodeEncodeEntries(es: seq<Entry>, rest: seq<Byte>)
    requires |rest| < 16
    ensures DecodeEntries(EncodeEntries(es) + rest) == es
  {
    var b := EncodeEntries(es) + rest;
    forall i | 0 <= i < |es| ensures DecodeEntryAt(b, i) == es[i] {
      EncodedEntryAt(es, i);
      DecodeEntryPrefix(EncodeEntries(es), b, i);
    }
  }

  /** An index file is, up to its last partial entry, the encoding of the entries read from it. */
  lemma {:induction false} EncodeDecodeEntries(b: seq<Byte>, n: nat)
    requires 16 * n <= |b|
    ensures n <= |DecodeEntries(b)| && EncodeEntries(DecodeEntries(b)[..n]) == b[..16 * n]
  {
    if n > 0 {
      EncodeDecodeEntries(b, n - 1);
      var es := DecodeEntries(b)[..n];
      assert es[..n - 1] == DecodeEntries(b)[..n - 1] && es[n - 1] == DecodeEntryAt(b, n - 1);
      EncodeDecodeEntry(b, n - 1);
      TakeMore(b, 16 * (n - 1), 16 * n);
    }
  }

  lemma TakeMore<T>(s: seq<T>, i: nat, j: nat)
    requires i <= j <= |s|
    ensures s[..j] == s[..i] + s[i..j]
  {
  }

  lemma EncodeDecodeEntry(b: seq<Byte>, i: nat)
    requires 16 * i + 16 <= |b|
    ensures EncodeEntry(DecodeEntryAt(b, i)) == b[16 * i..16 * i + 16]
  {
    EncodeDecode(b[16 * i..16 * i + 8]);
    EncodeDecode(b[16 * i + 8..16 * i + 16]);
  }

  /** An index file: the entries, then zero padding of any length. */
  predicate Padded(idx: seq<Byte>, es: seq<Entry>) {
    16 * |es| <= |idx| && idx == EncodeEntries(es) + Zeros(|idx| - 16 * |es|)
  }

  lemma PaddedExact(es: seq<Entry>)
    ensures Padded(EncodeEntries(es), es)
  {
    assert EncodeEntries(es) + Zeros(0) == EncodeEntries(es);
  }

  lemma PaddedZeros(n: nat)
    ensures Padded(Zeros(n), [])
  {
    assert EncodeEntries([]) + Zeros(n) == Zeros(n);
  }

  /** Zero padding after real entries is taken for entries that map offset 0 to position 0. */
  lemma DecodePadded(es: seq<Entry>, k: nat)
    ensures DecodeEntries(EncodeEntries(es) + Zeros(k)) == es + seq(k / 16, i => ZERO_ENTRY)
  {
    var b := EncodeEntries(es) + Zeros(k);
    ZeroWord();
    forall i | 0 <= i < |b| / 16
      ensures DecodeEntryAt(b, i) == (es + seq(k / 16, i => ZERO_ENTRY))[i]
    {
      if i < |es| {
        EncodedEntryAt(es, i);
        DecodeEntryPrefix(EncodeEntries(es), b, i);
      } else {
        assert b[16 * i..16 * i + 8] == Zeros(8);
        assert b[16 * i + 8..16 * i + 16] == Zeros(8);
      }
    }
  }

  // ----- First-match lookup -----

  /** The position stored in the first entry for `offset`. */
  function Lookup(es: seq<Entry>, offset: nat): Option<U64> {
    if es == [] then None
    else if es[0].offset == offset then Some(es[0].position)
    else Lookup(es[1..], offset)
  }

  predicate FirstAt(es: seq<Entry>, offset: nat, i: int) {
    0 <= i < |es| && es[i].offset == offset && forall j :: 0 <= j < i ==> es[j].offset != offset
  }

  lemma {:induction false} LookupIsFirst(es: seq<Entry>, offset: nat)
    ensures Lookup(es, offset) == None <==> forall i :: 0 <= i < |es| ==> es[i].offset != offset
    ensures forall i :: FirstAt(es, offset, i) ==> Lookup(es, offset) == Some(es[i].position)
  {
    if es != [] {
      LookupIsFirst(es[1..], offset);
      assert forall i :: 0 < i < |es| ==> es[i] == es[1..][i - 1];
      forall i | FirstAt(es, offset, i)
        ensures Lookup(es, offset) == Some(es[i].position)
      {
        if i > 0 {
          assert es[0].offset != offset;
          assert FirstAt(es[1..], offset, i - 1);
        }
      }
    }
  }

  /** Later entries never hide an earlier one, and are seen only where nothing earlier matches. */
  lemma {:induction false} LookupConcat(a: seq<Entry>, b: seq<Entry>, offset: nat)
    ensures Lookup(a + b, offset) == if Lookup(a, offset).Some? then Lookup(a, offset) else Lookup(b, offset)
  {
    if a == [] {
      assert a + b == b;
    } else {
      LookupConcat(a[1..], b, offset);
      assert (a + b)[1..] == a[1..] + b;
    }
  }

  // ----- The highest-offset scan -----

  /** The highest offset in the entries, but at least `floor`. */
  function Highest(floor: nat, es: seq<Entry>): nat {
    if es == [] then floor
    else
      var h := Highest(floor, es[..|es| - 1]);
      if es[|es| - 1].offset > h then es[|es| - 1].offset else h
  }

  lemma {:induction false} HighestIsMax(floor: nat, es: seq<Entry>)
    ensures floor <= Highest(floor, es)
    ensures forall i :: 0 <= i < |es| ==> es[i].offset <= Highest(floor, es)
    ensures Highest(floor, es) == floor || exists i :: 0 <= i < |es| && es[i].offset == Highest(floor, es)
  {
    if es != [] {
      HighestIsMax(floor, es[..|es| - 1]);
    }
  }

  /** The offset a segment hands out next, given its index. */
  function NextOf(base: nat, es: seq<Entry>): nat {
    if es == [] then base else Highest(base, es) + 1
  }

  lemma NextOfSnoc(base: nat, es: seq<Entry>, position: U64)
    requires NextOf(base, es) < LIMIT64
    ensures NextOf(base, es + [Entry(NextOf(base, es), position)]) == NextOf(base, es) + 1
  {
    var e := Entry(NextOf(base, es), position);
    assert (es + [e])[..|es|] == es;
    HighestIsMax(base, es);
  }

  /**
   Zero padding moves the recovered next offset only for an index with no entries, and then by one:
   an empty segment whose index file holds at least one padding entry comes back at base + 1.
   */
  lemma {:induction false} NextOfPadded(base: nat, es: seq<Entry>, k: nat)
    ensures NextOf(base, es + seq(k, i => ZERO_ENTRY)) == if es == [] && k > 0 then base + 1 else NextOf(base, es)
  {
    if k == 0 {
      assert es + seq(k, i => ZERO_ENTRY) == es;
    } else {
      NextOfPadded(base, es, k - 1);
      var padded := es + seq(k, i => ZERO_ENTRY);
      assert padded[..|padded| - 1] == es + seq(k - 1, i => ZERO_ENTRY);
      if es == [] && k == 1 {
        assert padded[..|padded| - 1] == [];
      }
    }
  }

  /** First-match lookup of an offset that was found before is blind to the padding. */
  lemma LookupPadded(es: seq<Entry>, k: nat, offset: nat)
    ensures Lookup(es, offset).Some? ==> Lookup(es + seq(k, i => ZERO_ENTRY), offset) == Lookup(es, offset)
    ensures offset != 0 ==> Lookup(es + seq(k, i => ZERO_ENTRY), offset) == Lookup(es, offset)
  {
    LookupConcat(es, seq(k, i => ZERO_ENTRY), offset);
    LookupIsFirst(seq(k, i => ZERO_ENTRY), offset);
  }
}
