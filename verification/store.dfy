/** The append-only store: length-prefixed records in a growing memory-mapped file. */
module Stores {
  import opened Bytes
  import opened Results
  import opened Framing
  import opened SegmentModel
  import opened Mapping

  const LEN_WIDTH: nat := 8

  class Store {
    var mmap: array<Byte>
    var size: nat
    var fileLen: nat
    /** How often the mapping has been replaced by a larger one. */
    ghost var growths: nat

    /** The written bytes fit the mapping and only zeros follow them. */
    ghost predicate Mapped()
      reads this, mmap
    {
      && size <= mmap.Length && fileLen <= mmap.Length && size <= STORE_LIMIT
      && (forall i :: size <= i < mmap.Length ==> mmap[i] == 0)
      && MIB * Pow2(growths) <= mmap.Length
    }

    /** Between operations the mapping is at most twice the data plus 1 MiB. */
    ghost predicate Valid()
      reads this, mmap
    {
      Mapped() && mmap.Length <= 2 * size + MIB
    }

    ghost function Contents(): (s: seq<Byte>)
      requires size <= mmap.Length
      reads this, mmap
      ensures |s| == size
    {
      mmap[..size]
    }

    /**
     Whether every written byte lies inside the file, so that nothing depends
     on how the mapping behaves past the end of the file.
     */
    ghost predicate Backed()
      reads this
    {
      size <= fileLen
    }

    /** The next append of `total` bytes needs a larger mapping. */
    ghost predicate MustGrow(total: nat)
      reads this, mmap
    {
      size + total > mmap.Length
    }

    /** Open a store file: recover its records, make room for new ones. */
    constructor (file: seq<Byte>)
      requires |file| <= STORE_LIMIT
      ensures Valid() && Backed() && fresh(mmap) && growths == 0
      ensures Contents() == file[..ScanEnd(file)]
      ensures fileLen == |OpenedStore(file)| && mmap[..fileLen] == OpenedStore(file)
      ensures file == [] ==> fileLen == mmap.Length == 1048576
      ensures file != [] ==> fileLen == size && mmap.Length == if size > 1048576 then size else 1048576
    {
      var actual := 0;
      if |file| > 0 {
        actual := ScanAndRepair(file);
      }
      var initial := if |file| == 0 then MIB else Max(actual, MIB);
      var m := MapFile(file[..actual], initial);
      mmap := m;
      size := actual;
      fileLen := if |file| == 0 then MIB else actual;
      growths := 0;
    }

    /**
     The recovery scan: the length of the longest prefix of the file that is
     a concatenation of whole records of at most MAX_RECORD bytes.
     */
    static method ScanAndRepair(file: seq<Byte>) returns (kept: nat)
      ensures kept <= |file| && kept == ScanEnd(file)
      ensures exists rs :: (forall i :: 0 <= i < |rs| ==> |rs[i]| <= 104857600) && EncodeAll(rs) == file[..kept]
      ensures forall rs :: (forall i :: 0 <= i < |rs| ==> |rs[i]| <= 104857600) && EncodeAll(rs) <= file ==>
                |EncodeAll(rs)| <= kept
    {
      var pos := 0;
      kept := 0;
      while pos < |file|
        invariant pos == kept <= |file|
        invariant ScanEnd(file) == ScanFrom(file, pos)
        decreases |file| - pos
      {
        if pos + LEN_WIDTH > |file| { break; }
        var recordLen := DecodeU64(file[pos..pos + LEN_WIDTH]);
        if recordLen > MAX_RECORD { break; }
        var recordEnd := pos + LEN_WIDTH + recordLen;
        if recordEnd > |file| { break; }
        kept := recordEnd;
        pos := recordEnd;
      }
      assert RecordEnd(file, pos) == None;
      LongestValidPrefix(file);
      assert Bounded(Parse(file));
    }

    /**
     Append a record; returns where it starts and how many bytes it takes.
     A store whose file is as long as its mapping stays that way; one that
     was reopened writes past the end of its file until it grows.
     */
    method Append(data: Record) returns (pos: nat, total: nat)
      requires Valid() && size + LEN_WIDTH + |data| <= STORE_LIMIT
      modifies this, mmap
      ensures Valid() && (mmap == old(mmap) || fresh(mmap))
      ensures pos == old(size) && total == 8 + |data|
      ensures Contents() == old(Contents()) + Frame(data)
      ensures old(fileLen == mmap.Length) ==> fileLen == mmap.Length
      ensures Backed() <==> old(MustGrow(LEN_WIDTH + |data|)) || size <= old(fileLen)
      ensures growths == old(growths) + if old(MustGrow(LEN_WIDTH + |data|)) then 1 else 0
    {
      total := LEN_WIDTH + |data|;
      if size + total > mmap.Length {
        Grow(total);
      }
      pos := size;
      WriteFrame(data);
    }

    /** Write the length, then the data, behind the last record. */
    method WriteFrame(data: Record)
      requires Mapped() && size + LEN_WIDTH + |data| <= mmap.Length && size + LEN_WIDTH + |data| <= STORE_LIMIT
      modifies this`size, mmap
      ensures Mapped() && Contents() == old(Contents()) + Frame(data)
    {
      ghost var before := mmap[..size];
      CopyInto(mmap, size, EncodeU64(|data|));
      size := size + LEN_WIDTH;
      CopyInto(mmap, size, data);
      size := size + |data|;
      assert before + EncodeU64(|data|) + data == before + Frame(data);
    }

    /** The record at a position, with the bytes it takes; an error when no whole record starts there. */
    method Read(pos: nat) returns (r: Result<(Record, nat)>)
      requires Mapped()
      ensures r == match ReadAt(Contents(), pos) case Ok(data) => Ok((data, 8 + |data|)) case Err(e) => Err(e)
      ensures r == Err(ReadBeyondEnd(pos, size)) <==> pos >= size
      ensures r == Err(CorruptedRecord(pos)) <==>
                pos < size && forall data: Record :: |data| < LIMIT64 ==> !(Frame(data) <= Contents()[pos..])
    {
      if pos >= size {
        r := Err(ReadBeyondEnd(pos, size));
      } else if pos + LEN_WIDTH > size {
        r := Err(CorruptedRecord(pos));
      } else {
        assert mmap[pos..pos + LEN_WIDTH] == Contents()[pos..pos + 8];
        var recordLen := DecodeU64(mmap[pos..pos + LEN_WIDTH]);
        var start := pos + LEN_WIDTH;
        var end := start + recordLen;
        if end > size {
          r := Err(CorruptedRecord(pos));
        } else {
          assert mmap[start..end] == Contents()[start..end];
          r := Ok((mmap[start..end], LEN_WIDTH + recordLen));
        }
      }
      ReadAtErrors(Contents(), pos);
    }

    /**
     Replace the mapping by one with room for `needed` more bytes.  Every
     written byte is kept and the mapping at least doubles.
     */
    method Grow(needed: nat)
      requires Mapped() && size + needed <= STORE_LIMIT
      modifies this
      ensures Mapped() && fresh(mmap)
      ensures size == old(size) && Contents() == old(Contents())
      ensures mmap.Length ==
              if 2 * old(mmap.Length) >= size + needed + 1048576 then 2 * old(mmap.Length) else size + needed + 1048576
      ensures size + needed <= mmap.Length && fileLen == mmap.Length
      ensures growths == old(growths) + 1
    {
      var capacity := Max(mmap.Length * 2, size + needed + MIB);
      var m := MapFile(mmap[..size], capacity);
      fileLen := capacity;
      mmap := m;
      growths := growths + 1;
    }

    /** Closing trims the file to the data. */
    method Drop() returns (file: seq<Byte>)
      requires Mapped()
      modifies this
      ensures file == old(Contents())
      ensures Mapped() && Contents() == old(Contents()) && mmap == old(mmap) && fileLen == size
    {
      file := mmap[..size];
      fileLen := size;
    }

    /** A store can only have grown as often as its size has doubled past half a mebibyte. */
    lemma FewGrowths()
      requires Valid()
      ensures Pow2(growths) <= size / 0x8_0000 + 1
    {
    }
  }
}
