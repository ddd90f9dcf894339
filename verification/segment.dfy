/** A segment object: one store and one index over a contiguous range of offsets. */
module Segments {
  import opened Bytes
  import opened Results
  import opened Framing
  import opened Entries
  import opened SegmentModel
  import opened Stores
  import opened Indexes

  class Segment {
    const store: Store
    const index: Index
    const baseOffset: nat
    const cfg: Config
    var nextOffset: nat

    ghost function Repr(): set<object>
      reads this, store, index
    {
      {this, store, index, store.mmap, index.mmap}
    }

    ghost predicate Valid()
      reads this, store, index, store.mmap, index.mmap
    {
      store.Valid() && index.Valid() && store.mmap != index.mmap
    }

    /** The segment as a value. */
    ghost function View(): (s: Seg)
      requires Valid()
      reads this, store, index, store.mmap, index.mmap
    {
      Seg(baseOffset, nextOffset, index.entries, store.Contents())
    }

    /** Open a segment over any two files and recover its offset counter from the index. */
    constructor (log: seq<Byte>, idx: seq<Byte>, base: nat, config: Config)
      requires |log| <= STORE_LIMIT
      ensures Valid() && fresh(Repr())
      ensures View() == OpenSeg(base, log, idx) && cfg == config && baseOffset == base
      ensures index.entries == DecodeEntries(idx) && store.Contents() == log[..ScanEnd(log)]
      ensures |idx| < 16 ==> nextOffset == base
      ensures |idx| >= 16 ==>
                && nextOffset > base && (forall i :: 0 <= i < |index.entries| ==> index.entries[i].offset < nextOffset)
                && (nextOffset == base + 1
                    || exists i :: 0 <= i < |index.entries| && index.entries[i].offset + 1 == nextOffset)
      ensures store.fileLen <= store.mmap.Length && store.mmap[..store.fileLen] == OpenedStore(log)
      ensures index.fileLen <= index.mmap.Length && index.mmap[..index.fileLen] == OpenedIndex(idx)
    {
      store := new Store(log);
      index := new Index(idx);
      baseOffset := base;
      cfg := config;
      nextOffset := base;
      new;
      HighestIsMax(base, index.entries);
      if index.size > 0 {
        var highest := FindHighest();
        nextOffset := highest + 1;
      }
    }

    /** The highest offset in the index, at least the base offset. */
    method FindHighest() returns (highest: nat)
      requires Valid()
      ensures highest == Highest(baseOffset, index.entries)
      ensures highest >= baseOffset && forall i :: 0 <= i < |index.entries| ==> index.entries[i].offset <= highest
    {
      highest := baseOffset;
      for i := 0 to index.size
        invariant highest == Highest(baseOffset, index.entries[..i])
      {
        var offset := index.ReadOffsetAtIndex(i);
        assert index.entries[..i + 1][..i] == index.entries[..i];
        if offset.Ok? && offset.value > highest {
          highest := offset.value;
        }
      }
      assert index.entries[..index.size] == index.entries;
      HighestIsMax(baseOffset, index.entries);
    }

    method IsFull() returns (full: bool)
      requires Valid()
      ensures full == Full(cfg, View())
      ensures full <==> store.size >= cfg.maxStoreBytes || index.size >= cfg.maxIndexEntries
    {
      full := store.size >= cfg.maxStoreBytes || index.size >= cfg.maxIndexEntries;
    }

    /** Store first, then index: a full segment refuses, any other takes the record at its next offset. */
    method Append(data: Record) returns (r: Result<nat>)
      requires Valid() && Room(View(), data)
      modifies this, store, index, store.mmap, index.mmap
      ensures Valid() && fresh(Repr() - old(Repr()))
      ensures old(store.size) >= cfg.maxStoreBytes || old(index.size) >= cfg.maxIndexEntries ==>
                r == Err(SegmentFull(baseOffset, cfg.maxStoreBytes, old(store.size))) && View() == old(View())
      ensures old(store.size) < cfg.maxStoreBytes && old(index.size) < cfg.maxIndexEntries ==>
                && r == Ok(old(nextOffset)) && nextOffset == old(nextOffset) + 1
                && store.Contents() == old(store.Contents()) + Frame(data)
                && index.entries == old(index.entries) + [Entry(old(nextOffset), old(store.size))]
      ensures View() == if old(Full(cfg, View())) then old(View()) else AppendSeg(old(View()), data)
    {
      var full := IsFull();
      if full {
        return Err(SegmentFull(baseOffset, cfg.maxStoreBytes, store.size));
      }
      var offset := nextOffset;
      r := Ok(offset);
      AppendRecord(data, offset);
      nextOffset := nextOffset + 1;
    }

    method AppendRecord(data: Record, offset: U64)
      requires Valid() && |store.Contents()| + 8 + |data| <= STORE_LIMIT
      modifies store, index, store.mmap, index.mmap
      ensures Valid() && fresh(Repr() - old(Repr()))
      ensures store.Contents() == old(store.Contents()) + Frame(data)
      ensures index.entries == old(index.entries) + [Entry(offset, |old(store.Contents())|)]
    {
      var position, _ := store.Append(data);
      assert index.Valid();
      label stored:
      index.Write(offset, position);
      assert store.mmap == old@stored(store.mmap) && store.Contents() == old@stored(store.Contents());
      assert store.Valid();
    }

    method ContainsOffset(offset: nat) returns (c: bool)
      requires Valid()
      ensures c == Contains(View(), offset)
    {
      c := offset >= baseOffset && offset < nextOffset;
    }

    /** The record at an offset: out of range, not in the index, not in the store, or found. */
    method Read(offset: nat) returns (r: Result<Record>)
      requires Valid()
      ensures r == ReadSeg(View(), offset)
    {
      if offset < baseOffset || offset >= nextOffset {
        return Err(OffsetOutOfRange(offset, baseOffset, nextOffset));
      }
      var position := index.Read(offset);
      match position
      case Err(e) => return Err(e);
      case Ok(p) =>
        var found := store.Read(p);
        match found
        case Err(e) => return Err(e);
        case Ok(pair) => return Ok(pair.0);
    }

    /**
     The files of a segment that was never closed are cut somewhere between
     the end of its data and the end of its mappings, so they carry zero
     padding.  Opening them anyway keeps every readable offset readable and
     moves the counter only for a segment without entries.
     */
    lemma UncleanReopen(m: nat, n: nat)
      requires Valid() && Sound(View())
      requires store.size <= m <= store.mmap.Length && ENTRY_WIDTH * index.size <= n <= index.mmap.Length
      ensures var t := OpenSeg(baseOffset, store.mmap[..m], index.mmap[..n]);
              t.next == if index.size == 0 && n >= ENTRY_WIDTH then baseOffset + 1 else nextOffset
      ensures KeepsReads(View(), OpenSeg(baseOffset, store.mmap[..m], index.mmap[..n]))
    {
      var s, k := View(), n - ENTRY_WIDTH * index.size;
      assert store.mmap[..m] == s.data + Zeros(m - store.size);
      assert index.mmap[..n] == EncodeEntries(s.entries) + Zeros(k);
      CrashOpen(s, Zeros(m - store.size), k, OpenSeg(baseOffset, store.mmap[..m], index.mmap[..n]));
    }

    /** Closing trims both files. */
    method Drop() returns (log: seq<Byte>, idx: seq<Byte>)
      requires Valid()
      modifies store, index
      ensures log == old(View()).data && idx == IndexFile(old(View()))
      ensures Valid() && View() == old(View()) && Repr() == old(Repr())
    {
      log := store.Drop();
      idx := index.Drop();
    }
  }
}
