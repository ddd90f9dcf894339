/** The index: sixteen-byte entries, appended to and searched from the front of a growing mapped file. */
module Indexes {
  import opened Bytes
  import opened Results
  import opened Entries
  import opened SegmentModel
  import opened Mapping

  class Index {
    var mmap: array<Byte>
    /** The number of entries. */
    var size: nat
    var fileLen: nat
    ghost var entries: seq<Entry>
    /** The capacity after opening, and how often it has grown since. */
    ghost var initial: nat
    ghost var growths: nat

    /** The bytes before the end are the entries and only zeros follow them. */
    ghost predicate Mapped()
      reads this, mmap
    {
      && |entries| == size && ENTRY_WIDTH * size <= mmap.Length && fileLen <= mmap.Length
      && mmap[..ENTRY_WIDTH * size] == EncodeEntries(entries)
      && (forall i :: ENTRY_WIDTH * size <= i < mmap.Length ==> mmap[i] == 0)
    }

    /** The mapping only ever doubles, and only when the entries fill it. */
    ghost predicate Doubling()
      reads this, mmap
    {
      && INITIAL_BYTES <= initial && mmap.Length == initial * Pow2(growths)
      && mmap.Length <= Max(INITIAL_BYTES, 2 * ENTRY_WIDTH * size)
    }

    ghost predicate Valid()
      reads this, mmap
    {
      Mapped() && Doubling()
    }

    /** Open an index file; a partial entry at its end is cut off. */
    constructor (file: seq<Byte>)
      ensures Valid() && fresh(mmap)
      ensures entries == DecodeEntries(file)
      ensures fileLen == |OpenedIndex(file)| && mmap[..fileLen] == OpenedIndex(file)
      ensures |entries| == |file| / 16 && growths == 0
      ensures |file| < 16 ==> fileLen == mmap.Length == 16000
      ensures |file| >= 16 ==> fileLen == 16 * |entries|
      ensures initial == mmap.Length == if 16 * |entries| > 16000 then 16 * |entries| else 16000
    {
      var m, length := MapEntries(file);
      mmap := m;
      size := length / ENTRY_WIDTH;
      fileLen := if length == 0 then INITIAL_BYTES else length;
      entries := DecodeEntries(file);
      initial := m.Length;
      growths := 0;
      assert m.Length * Pow2(0) == m.Length;
      assert length == 0 ==> m[..INITIAL_BYTES] == Zeros(INITIAL_BYTES);
    }

    /** Map the whole entries of a file, with room for at least 1000. */
    static method MapEntries(file: seq<Byte>) returns (m: array<Byte>, length: nat)
      ensures fresh(m) && length == ENTRY_WIDTH * |DecodeEntries(file)| <= |file|
      ensures m.Length == Max(INITIAL_BYTES, length)
      ensures m[..length] == EncodeEntries(DecodeEntries(file)) == file[..length]
      ensures forall i :: length <= i < m.Length ==> m[i] == 0
    {
      length := |file|;
      if length % ENTRY_WIDTH != 0 {
        length := length / ENTRY_WIDTH * ENTRY_WIDTH;
      }
      assert length == ENTRY_WIDTH * (|file| / ENTRY_WIDTH);
      var capacity := if length == 0 then INITIAL_BYTES else Max(length, INITIAL_BYTES);
      m := MapFile(file[..length], capacity);
      EncodeDecodeEntries(file, |file| / ENTRY_WIDTH);
      assert DecodeEntries(file)[..|file| / ENTRY_WIDTH] == DecodeEntries(file);
    }

    /** Add an entry at the end; at most one growth is needed to fit it. */
    method Write(offset: U64, position: U64)
      requires Valid()
      modifies this, mmap
      ensures Valid() && (mmap == old(mmap) || fresh(mmap))
      ensures entries == old(entries) + [Entry(offset, position)]
      ensures initial == old(initial)
      ensures growths == old(growths) + if 16 * old(size) + 16 > old(mmap.Length) then 1 else 0
      ensures fileLen == if growths == old(growths) then old(fileLen) else mmap.Length
    {
      if size * ENTRY_WIDTH + ENTRY_WIDTH > mmap.Length {
        Grow();
      }
      Put(Entry(offset, position));
    }

    method Put(e: Entry)
      requires Mapped() && size * ENTRY_WIDTH + ENTRY_WIDTH <= mmap.Length
      modifies this`size, this`entries, mmap
      ensures Mapped() && entries == old(entries) + [e]
    {
      PutEntry(mmap, size * ENTRY_WIDTH, e);
      assert (entries + [e])[..size] == entries;
      size := size + 1;
      entries := entries + [e];
    }

    static method PutEntry(m: array<Byte>, at: nat, e: Entry)
      requires at + ENTRY_WIDTH <= m.Length
      modifies m
      ensures m[..at + ENTRY_WIDTH] == old(m[..at]) + EncodeEntry(e)
      ensures forall i :: at + ENTRY_WIDTH <= i < m.Length ==> m[i] == old(m[i])
    {
      ghost var before := m[..at];
      CopyInto(m, at, EncodeU64(e.offset));
      CopyInto(m, at + 8, EncodeU64(e.position));
      assert before + EncodeU64(e.offset) + EncodeU64(e.position) == before + EncodeEntry(e);
    }

    /** The position stored by the first entry for an offset. */
    method Read(offset: nat) returns (r: Result<U64>)
      requires Mapped()
      ensures r == match Lookup(entries, offset) case None => Err(EntryNotFound(offset)) case Some(p) => Ok(p)
    {
      if size == 0 {
        return Err(EntryNotFound(offset));
      }
      for index := 0 to size
        invariant Lookup(entries, offset) == Lookup(entries[index..], offset)
      {
        var entryOffset := ReadOffsetAtIndex(index);
        if entryOffset == Ok(offset) {
          r := ReadPositionAtIndex(index);
          return;
        }
      }
      return Err(EntryNotFound(offset));
    }

    method ReadOffsetAtIndex(index: nat) returns (r: Result<U64>)
      requires Mapped()
      ensures r == if index < |entries| then Ok(entries[index].offset) else Err(CorruptedEntry(index))
    {
      if index >= size {
        return Err(CorruptedEntry(index));
      }
      var at := index * ENTRY_WIDTH;
      EntryBytes(index);
      return Ok(DecodeU64(mmap[at..at + 8]));
    }

    method ReadPositionAtIndex(index: nat) returns (r: Result<U64>)
      requires Mapped()
      ensures r == if index < |entries| then Ok(entries[index].position) else Err(CorruptedEntry(index))
    {
      if index >= size {
        return Err(CorruptedEntry(index));
      }
      var at := index * ENTRY_WIDTH + 8;
      EntryBytes(index);
      return Ok(DecodeU64(mmap[at..at + 8]));
    }

    lemma EntryBytes(index: nat)
      requires Mapped() && index < |entries|
      ensures 16 * index + 16 <= mmap.Length
      ensures Entry(DecodeU64(mmap[16 * index..16 * index + 8]),
                    DecodeU64(mmap[16 * index + 8..16 * index + 16])) == entries[index]
    {
      EncodedEntryAt(entries, index);
      SameSlice(mmap, ENTRY_WIDTH * size, 16 * index, 16 * index + 8);
      SameSlice(mmap, ENTRY_WIDTH * size, 16 * index + 8, 16 * index + 16);
    }

    static lemma SameSlice(m: array<Byte>, k: nat, i: nat, j: nat)
      requires i <= j <= k <= m.Length
      ensures m[i..j] == m[..k][i..j]
    {
    }

    /** A full mapping is replaced by one of twice the size: adding 1000 entries is never more than that. */
    method Grow()
      requires Valid() && size * ENTRY_WIDTH + ENTRY_WIDTH > mmap.Length
      modifies this
      ensures Mapped() && fresh(mmap) && mmap.Length == 2 * old(mmap.Length)
      ensures size == old(size) && entries == old(entries) && initial == old(initial)
      ensures growths == old(growths) + 1 && mmap.Length == initial * Pow2(growths)
      ensures fileLen == mmap.Length && size * ENTRY_WIDTH + ENTRY_WIDTH <= mmap.Length
    {
      var capacity := Max(mmap.Length * 2, mmap.Length + INITIAL_BYTES);
      CapacityFloor();
      var m := MapFile(mmap[..ENTRY_WIDTH * size], capacity);
      fileLen := capacity;
      mmap := m;
      growths := growths + 1;
    }

    lemma CapacityFloor()
      requires Doubling()
      ensures INITIAL_BYTES <= mmap.Length && 2 * mmap.Length == initial * Pow2(growths + 1)
    {
      assert initial * 1 <= initial * Pow2(growths);
      assert 2 * (initial * Pow2(growths)) == initial * (2 * Pow2(growths));
    }

    /** Closing trims the file to the entries. */
    method Drop() returns (file: seq<Byte>)
      requires Mapped()
      modifies this
      ensures file == EncodeEntries(old(entries))
      ensures Mapped() && mmap == old(mmap) && entries == old(entries)
      ensures initial == old(initial) && growths == old(growths)
      ensures fileLen == ENTRY_WIDTH * size
    {
      file := mmap[..ENTRY_WIDTH * size];
      fileLen := ENTRY_WIDTH * size;
    }
  }
}
