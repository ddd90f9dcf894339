/** The log object: its segments, the directory they live in, and the scanning iterator. */
module Logs {
  import opened Bytes
  import opened Results
  import opened Entries
  import opened SegmentModel
  import opened Names
  import opened Listing
  import opened LogModel
  import opened Truncation
  import opened Segments
  import opened Scanning

  /** The log directory: file names and the bytes of each file. */
  class Directory {
    var files: Dir

    /** Open a file, creating it if it is missing, and return its bytes. */
    method Open(name: string) returns (bytes: seq<Byte>)
      modifies this
      ensures files == Touch(old(files), name) && bytes == FileOf(old(files), name)
    {
      if name !in files {
        files := files[name := []];
      }
      bytes := files[name];
    }

    /** Set the length and contents of an open file; nothing happens to a name that was removed. */
    method SetContents(name: string, bytes: seq<Byte>)
      modifies this
      ensures files == Trim(old(files), name, bytes)
    {
      if name in files {
        files := files[name := bytes];
      }
    }

    method Remove(name: string) returns (ok: bool)
      modifies this
      ensures ok == (name in old(files)) && files == old(files) - {name}
    {
      ok := name in files;
      files := files - {name};
    }

    /** List the directory in an arbitrary order. */
    method List() returns (listing: seq<string>)
      ensures Lists(listing, files.Keys)
    {
      listing := [];
      var rest := files.Keys;
      while rest != {}
        invariant rest <= files.Keys
        invariant Lists(listing, files.Keys - rest)
        decreases rest
      {
        var name :| name in rest;
        listing := listing + [name];
        rest := rest - {name};
      }
      assert files.Keys - rest == files.Keys;
    }
  }

  class Log {
    var segments: seq<Segment>
    var activeSegmentIndex: nat
    var nextOffset: nat
    const cfg: Config
    const dir: Directory
    /** The segments as values, and every object they are made of. */
    ghost var segs: seq<Seg>
    ghost var Repr: set<object>
    /** The order in which the directory was listed when the log was opened. */
    ghost var listing: seq<string>

    /** The segment `s` holds `v` and is made of objects in `repr`. */
    static ghost predicate Owned(s: Segment, v: Seg, cfg: Config, repr: set<object>)
      reads repr
    {
      && s in repr && s.store in repr && s.index in repr && s.Repr() <= repr
      && s.Valid() && s.cfg == cfg && v == s.View()
    }

    /** Every segment owns its objects alone, and `segs` says what the segments hold. */
    static ghost predicate Owns(segments: seq<Segment>, segs: seq<Seg>, cfg: Config, repr: set<object>)
      reads repr
    {
      && |segs| == |segments|
      && (forall i {:trigger Owned(segments[i], segs[i], cfg, repr)} ::
            0 <= i < |segments| ==> Owned(segments[i], segs[i], cfg, repr))
      && (forall i, j {:trigger segments[i].Repr(), segments[j].Repr()} ::
            0 <= i < j < |segments| ==>
              && Owned(segments[i], segs[i], cfg, repr) && Owned(segments[j], segs[j], cfg, repr)
              && segments[i].Repr() !! segments[j].Repr())
    }

    ghost predicate Rep()
      reads this, dir, Repr
    {
      this !in Repr && dir !in Repr && Owns(segments, segs, cfg, Repr) && SmallStores(dir.files)
    }

    ghost predicate Valid()
      reads this, dir, Repr
    {
      Rep() && activeSegmentIndex < |segments|
    }

    /** The log as a value. */
    ghost function State(): LogState
      reads this, dir
    {
      LogState(segs, activeSegmentIndex, nextOffset, dir.files)
    }

    /** Open the log in a directory. */
    constructor (d: Directory, config: Config)
      requires SmallStores(d.files)
      modifies d
      ensures Valid() && fresh(Repr) && dir == d && cfg == config
      ensures Lists(listing, old(d.files).Keys) && State() == OpenLog(old(d.files), listing)
      ensures forall b: U64 {:trigger IdxName(b)} :: b in ListedBases(listing) ==>
                var idx := FileOf(old(d.files), IdxName(b));
                FileOf(d.files, IdxName(b)) == if |idx| < 16 then Zeros(16000) else idx[..16 * (|idx| / 16)]
    {
      segments := [];
      activeSegmentIndex := 0;
      nextOffset := 0;
      cfg := config;
      dir := d;
      segs := [];
      Repr := {};
      listing := [];
      new;
      LoadSegments();
      OpenedIndexes(old(d.files), listing);
    }

    /** An index file with entries keeps its length; only one without is pre-sized. */
    static lemma OpenedIndexes(d: Dir, names: seq<string>)
      ensures forall b: U64 {:trigger IdxName(b)} :: b in ListedBases(names) ==>
                var idx := FileOf(d, IdxName(b));
                FileOf(OpenLog(d, names).dir, IdxName(b)) ==
                if |idx| < 16 then Zeros(16000) else idx[..16 * (|idx| / 16)]
    {
      var bases := ListedBases(names);
      SortSorts(bases);
      ListedAreU64(names);
      forall i | 0 <= i < |Sort(bases)| ensures Sort(bases)[i] < LIMIT64 {
        assert Sort(bases)[i] in multiset(bases);
      }
      forall b: U64 | b in bases
        ensures var idx := FileOf(d, IdxName(b));
                FileOf(OpenLog(d, names).dir, IdxName(b)) ==
                if |idx| < 16 then Zeros(16000) else idx[..16 * (|idx| / 16)]
      {
        assert b in multiset(Sort(bases));
        OpenedIndexFile(d, Sort(bases), b);
      }
    }

    /** Open every segment listed in the directory in order of its base, or create the first one. */
    method LoadSegments()
      requires Rep() && segments == [] && Repr == {}
      modifies this, dir
      ensures Valid() && fresh(Repr)
      ensures Lists(listing, old(dir.files).Keys) && State() == OpenLog(old(dir.files), listing)
    {
      var names := dir.List();
      listing := names;
      var bases := CollectBases(names);
      bases := Sort(bases);
      if bases == [] {
        FirstSegment();
      } else {
        LoadAll(bases);
      }
    }

    method LoadAll(bases: seq<nat>)
      requires Rep() && segments == [] && Repr == {} && bases != []
      modifies this, dir
      ensures Valid() && fresh(Repr) && listing == old(listing)
      ensures State() == OpenBases(old(dir.files), bases)
    {
      PushSegments(bases);
      Activate();
    }

    /** An empty directory gets a segment at offset 0. */
    method FirstSegment()
      requires Rep() && segments == [] && Repr == {}
      modifies this, dir
      ensures Valid() && fresh(Repr) && listing == old(listing)
      ensures State() == LogState([OpenAt(old(dir.files), 0)], 0, 0, Created(old(dir.files), 0))
    {
      PushSegment(0);
      activeSegmentIndex := 0;
      nextOffset := 0;
    }

    /** The last of the loaded segments is the active one and gives the log its counter. */
    method Activate()
      requires Rep() && segments != []
      modifies this`activeSegmentIndex, this`nextOffset
      ensures Valid() && State() == LogState(segs, |segs| - 1, segs[|segs| - 1].next, dir.files)
    {
      activeSegmentIndex := |segments| - 1;
      assert Owned(segments[activeSegmentIndex], segs[activeSegmentIndex], cfg, Repr);
      nextOffset := segments[activeSegmentIndex].nextOffset;
    }

    method PushSegments(bases: seq<nat>)
      requires Rep() && segments == [] && Repr == {}
      modifies this`segments, this`segs, this`Repr, dir
      ensures Rep() && fresh(Repr)
      ensures segs == OpenAll(old(dir.files), bases) && dir.files == CreateAll(old(dir.files), bases)
    {
      ghost var d := dir.files;
      for k := 0 to |bases|
        invariant Rep() && fresh(Repr)
        invariant segs == OpenAll(d, bases[..k]) && dir.files == CreateAll(d, bases[..k])
      {
        PushSegment(bases[k]);
        OpenNext(d, bases, k);
      }
      assert bases[..|bases|] == bases;
    }

    static lemma OpenNext(d: Dir, bases: seq<nat>, k: nat)
      requires k < |bases|
      ensures OpenAll(d, bases[..k]) + [OpenAt(CreateAll(d, bases[..k]), bases[k])] == OpenAll(d, bases[..k + 1])
      ensures Created(CreateAll(d, bases[..k]), bases[k]) == CreateAll(d, bases[..k + 1])
    {
      assert bases[..k + 1][..k] == bases[..k];
    }

    /** The base offsets of the store files in a listing. */
    static method CollectBases(names: seq<string>) returns (bases: seq<nat>)
      ensures bases == ListedBases(names)
    {
      bases := [];
      for i := 0 to |names|
        invariant bases == ListedBases(names[..i])
      {
        assert names[..i + 1][..i] == names[..i];
        match ParseLogName(names[i])
        case None =>
        case Some(base) => bases := bases + [base];
      }
      assert names[..|names|] == names;
    }

    /** Open a segment of the directory: its files are created if missing, repaired, and pre-sized if empty. */
    method CreateSegment(base: nat) returns (s: Segment)
      requires SmallStores(dir.files)
      modifies dir
      ensures SmallStores(dir.files) && dir.files == Created(old(dir.files), base)
      ensures fresh(s.Repr()) && s.Valid() && s.cfg == cfg
      ensures s.View() == OpenAt(old(dir.files), base)
    {
      var log, idx := OpenPair(base);
      var newLog, newIdx;
      s, newLog, newIdx := OpenOver(base, log, idx);
      TouchedThenSet(dir.files, old(dir.files), LogName(base), IdxName(base), newLog, newIdx);
      SetPair(base, newLog, newIdx);
    }

    static lemma TouchedThenSet(t: Dir, d: Dir, a: string, b: string, x: seq<Byte>, y: seq<Byte>)
      requires t == Touch(Touch(d, a), b)
      ensures a in t && b in t && t[a := x][b := y] == d[a := x][b := y]
    {
    }

    method OpenPair(base: nat) returns (log: seq<Byte>, idx: seq<Byte>)
      requires SmallStores(dir.files)
      modifies dir
      ensures log == FileOf(old(dir.files), LogName(base)) && idx == FileOf(old(dir.files), IdxName(base))
      ensures dir.files == Touch(Touch(old(dir.files), LogName(base)), IdxName(base))
      ensures SmallStores(dir.files)
    {
      log := dir.Open(LogName(base));
      idx := dir.Open(IdxName(base));
    }

    /** A segment over these two files, and what opening them leaves in the files. */
    method OpenOver(base: nat, log: seq<Byte>, idx: seq<Byte>)
      returns (s: Segment, newLog: seq<Byte>, newIdx: seq<Byte>)
      requires |log| <= STORE_LIMIT
      ensures fresh(s.Repr()) && s.Valid() && s.cfg == cfg && s.View() == OpenSeg(base, log, idx)
      ensures newLog == OpenedStore(log) && newIdx == OpenedIndex(idx)
      ensures |newLog| <= STORE_LIMIT
    {
      s := new Segment(log, idx, base, cfg);
      newLog := s.store.mmap[..s.store.fileLen];
      newIdx := s.index.mmap[..s.index.fileLen];
    }

    method SetPair(base: nat, log: seq<Byte>, idx: seq<Byte>)
      requires LogName(base) in dir.files && IdxName(base) in dir.files
      requires SmallStores(dir.files) && |log| <= STORE_LIMIT
      modifies dir
      ensures dir.files == old(dir.files)[LogName(base) := log][IdxName(base) := idx] && SmallStores(dir.files)
    {
      dir.SetContents(LogName(base), log);
      dir.SetContents(IdxName(base), idx);
      NoStoreAmongIndexes(base);
    }

    static lemma NoStoreAmongIndexes(base: nat)
      ensures forall b: nat {:trigger LogName(b)} :: LogName(b) != IdxName(base)
    {
      forall b: nat ensures LogName(b) != IdxName(base) {
        SuffixesDiffer(b, base);
      }
    }

    method PushSegment(base: nat)
      requires Rep()
      modifies this`segments, this`segs, this`Repr, dir
      ensures Rep() && fresh(Repr - old(Repr))
      ensures segs == old(segs) + [OpenAt(old(dir.files), base)]
      ensures dir.files == Created(old(dir.files), base)
    {
      var s := CreateSegment(base);
      OwnsMore(segments, segs, cfg, Repr, s);
      Adopt(segments + [s], segs + [s.View()], Repr + s.Repr());
    }

    static lemma OwnsMore(segments: seq<Segment>, segs: seq<Seg>, cfg: Config, repr: set<object>, s: Segment)
      requires Owns(segments, segs, cfg, repr)
      requires s.Valid() && s.cfg == cfg && s.Repr() !! repr
      ensures Owns(segments + [s], segs + [s.View()], cfg, repr + s.Repr())
    {
      var more, all := segments + [s], repr + s.Repr();
      forall i | 0 <= i < |more|
        ensures Owned(more[i], (segs + [s.View()])[i], cfg, all)
      {
        assert i < |segments| ==> Owned(segments[i], segs[i], cfg, repr);
      }
      forall i, j | 0 <= i < j < |more| ensures more[i].Repr() !! more[j].Repr() {
        assert Owned(segments[i], segs[i], cfg, repr);
        assert j < |segments| ==> segments[i].Repr() !! segments[j].Repr();
      }
    }

    /** Make a new segment at the next offset the active one. */
    method RotateSegment()
      requires Valid()
      modifies this, dir
      ensures Valid() && fresh(Repr - old(Repr)) && listing == old(listing)
      ensures State() == RotateLog(old(State()))
    {
      PushSegment(nextOffset);
      activeSegmentIndex := |segments| - 1;
    }

    /** Append a record, rotating first when the active segment is full. */
    method Append(data: Record) returns (r: Result<nat>)
      requires Valid() && CanAppendLog(cfg, State(), data)
      modifies this, dir, Repr
      ensures Valid() && fresh(Repr - old(Repr)) && listing == old(listing)
      ensures State() == AppendLog(cfg, old(State()), data).0
      ensures r == AppendLog(cfg, old(State()), data).1
      ensures var s := old(segs[activeSegmentIndex]);
              && (|s.data| < cfg.maxStoreBytes && |s.entries| < cfg.maxIndexEntries ==>
                    r == Ok(s.next) && |segs| == old(|segs|))
              && (|s.data| >= cfg.maxStoreBytes || |s.entries| >= cfg.maxIndexEntries ==>
                    |segs| == old(|segs|) + 1 && segs[..old(|segs|)] == old(segs))
    {
      AppendLogIs(cfg, State(), data);
      assert Owned(segments[activeSegmentIndex], segs[activeSegmentIndex], cfg, Repr);
      var full := segments[activeSegmentIndex].IsFull();
      if full {
        RotateSegment();
      }
      ghost var ready := State();
      assert ready == BeforeAppend(cfg, old(State()));
      r := AppendToActive(data);
      assert AppendLog(cfg, old(State()), data) == AppendActive(cfg, ready, data);
    }

    method AppendToActive(data: Record) returns (r: Result<nat>)
      requires Valid() && Room(segs[activeSegmentIndex], data)
      modifies this, Repr
      ensures Valid() && fresh(Repr - old(Repr)) && listing == old(listing)
      ensures State() == AppendActive(cfg, old(State()), data).0
      ensures r == AppendActive(cfg, old(State()), data).1
    {
      r := AppendAndAdopt(activeSegmentIndex, data);
      if r.Ok? {
        nextOffset := r.value + 1;
      }
    }

    method AppendAndAdopt(k: nat, data: Record) returns (r: Result<nat>)
      requires Rep() && k < |segments| && Room(segs[k], data)
      modifies this`segments, this`segs, this`Repr, Repr
      ensures Rep() && fresh(Repr - old(Repr)) && |segments| == old(|segments|)
      ensures Full(cfg, old(segs[k])) ==>
                && r == Err(SegmentFull(old(segs[k]).base, cfg.maxStoreBytes, |old(segs[k]).data|))
                && segs == old(segs)
      ensures !Full(cfg, old(segs[k])) ==>
                r == Ok(old(segs[k]).next) && segs == old(segs)[k := AppendSeg(old(segs[k]), data)]
    {
      assert Owned(segments[k], segs[k], cfg, Repr);
      r := AppendAt(k, data);
      Adopt(segments, segs[k := segments[k].View()], Repr + segments[k].Repr());
      assert old(segs)[k := old(segs)[k]] == old(segs);
    }

    method Adopt(newSegments: seq<Segment>, ghost newSegs: seq<Seg>, ghost newRepr: set<object>)
      requires Owns(newSegments, newSegs, cfg, newRepr)
      requires this !in newRepr && dir !in newRepr && SmallStores(dir.files)
      modifies this`segments, this`segs, this`Repr
      ensures Rep() && segments == newSegments && segs == newSegs && Repr == newRepr
    {
      segments := newSegments;
      segs := newSegs;
      Repr := newRepr;
    }

    /** Append to segment `k`; the objects of the other segments are untouched. */
    method AppendAt(k: nat, data: Record) returns (r: Result<nat>)
      requires Rep() && k < |segments| && Room(segs[k], data)
      modifies Repr
      ensures segments[k].Valid() && fresh(segments[k].Repr() - old(Repr))
      ensures SmallStores(dir.files)
      ensures Owns(segments, segs[k := segments[k].View()], cfg, Repr + segments[k].Repr())
      ensures Full(cfg, segs[k]) ==>
                r == Err(SegmentFull(segs[k].base, cfg.maxStoreBytes, |segs[k].data|)) && segments[k].View() == segs[k]
      ensures !Full(cfg, segs[k]) ==> r == Ok(segs[k].next) && segments[k].View() == AppendSeg(segs[k], data)
    {
      assert Owned(segments[k], segs[k], cfg, Repr);
      r := segments[k].Append(data);
      forall j | 0 <= j < |segments| && j != k
        ensures segments[j].Repr() == old(segments[j].Repr()) && segments[j].Repr() !! segments[k].Repr()
        ensures Owned(segments[j], segs[j], cfg, Repr)
      {
        assert old(Owned(segments[j], segs[j], cfg, Repr));
        assert old(segments[j].Repr()) !! old(segments[k].Repr());
      }
      OwnsReplaced(segments, segs, cfg, Repr, k);
    }

    /** A change to the objects of one segment leaves the others as they were. */
    static lemma OwnsReplaced(segments: seq<Segment>, segs: seq<Seg>, cfg: Config, repr: set<object>, k: nat)
      requires |segs| == |segments| && k < |segments|
      requires segments[k].Valid() && segments[k].cfg == cfg
      requires forall j {:trigger Owned(segments[j], segs[j], cfg, repr)} ::
                 0 <= j < |segments| && j != k ==> Owned(segments[j], segs[j], cfg, repr)
      requires forall i, j :: 0 <= i < j < |segments| ==> segments[i].Repr() !! segments[j].Repr()
      ensures Owns(segments, segs[k := segments[k].View()], cfg, repr + segments[k].Repr())
    {
      var all := repr + segments[k].Repr();
      forall i | 0 <= i < |segments| ensures Owned(segments[i], segs[k := segments[k].View()][i], cfg, all) {
        assert i != k ==> Owned(segments[i], segs[i], cfg, repr);
      }
    }

    /**
     Remove the files of every segment at or above the offset, drop those
     segments, and make sure one is left.  A file that cannot be removed stops
     the truncation with the segments and the counter unchanged; the files
     removed before it are gone.
     */
    method Truncate(offset: nat) returns (failed: Option<nat>)
      requires Valid()
      modifies this, dir
      ensures Valid() && fresh(Repr - old(Repr)) && listing == old(listing)
      ensures (State(), failed) == TryTruncate(old(State()), offset)
      ensures old(Housed(State())) ==> failed.None?
    {
      if Housed(State()) { HousedTruncates(State(), offset); }
      RemoveIsDelete(dir.files, segs, offset);
      failed := RemoveFiles(offset);
      if failed.Some? { return; }
      RetainBelow(offset);
      Settle(offset);
    }

    /** After dropping segments: there is at least one, the active index is in range, the counter is `offset`. */
    method Settle(offset: nat)
      requires Rep()
      modifies this, dir
      ensures Valid() && fresh(Repr - old(Repr)) && listing == old(listing)
      ensures old(segs) == [] ==>
                State() == LogState([OpenAt(old(dir.files), offset)], 0, offset, Created(old(dir.files), offset))
      ensures old(segs) != [] ==>
                State() == LogState(old(segs),
                  if old(activeSegmentIndex) >= |old(segs)| then |old(segs)| - 1 else old(activeSegmentIndex),
                  offset, old(dir.files))
    {
      nextOffset := offset;
      if segments == [] {
        PushSegment(offset);
        activeSegmentIndex := 0;
      }
      if activeSegmentIndex >= |segments| {
        activeSegmentIndex := |segments| - 1;
      }
    }

    /** Remove the two files of every segment at or above the offset, in order, up to the first failure. */
    method RemoveFiles(offset: nat) returns (failed: Option<nat>)
      requires Rep()
      modifies dir
      ensures Rep() && (dir.files, failed) == RemoveFrom(old(dir.files), segs, offset)
    {
      ghost var d := dir.files;
      for k := 0 to |segments|
        invariant SmallStores(dir.files) && RemoveFrom(d, segs[..k], offset) == (dir.files, None)
      {
        failed := RemoveAt(k, offset, d);
        if failed.Some? {
          FailureStays(d, segs[..k + 1], segs[k + 1..], offset);
          assert segs[..k + 1] + segs[k + 1..] == segs;
          return;
        }
      }
      assert segs[..|segs|] == segs;
      return None;
    }

    /** Remove the files of segment `k` if it starts at or above the offset. */
    method RemoveAt(k: nat, offset: nat, ghost d: Dir) returns (failed: Option<nat>)
      requires Rep() && k < |segments| && RemoveFrom(d, segs[..k], offset) == (dir.files, None)
      modifies dir
      ensures SmallStores(dir.files) && RemoveFrom(d, segs[..k + 1], offset) == (dir.files, failed)
    {
      assert segs[..k + 1][..k] == segs[..k];
      assert Owned(segments[k], segs[k], cfg, Repr);
      failed := None;
      if segments[k].baseOffset >= offset {
        failed := RemoveBoth(segments[k].baseOffset);
      }
    }

    /** `cleanup_segment`: remove the store file, then the index file. */
    method RemoveBoth(base: nat) returns (failed: Option<nat>)
      requires SmallStores(dir.files)
      modifies dir
      ensures SmallStores(dir.files) && (dir.files, failed) == RemovePair(old(dir.files), base)
      ensures failed == None <==> LogName(base) in old(dir.files) && IdxName(base) in old(dir.files)
      ensures LogName(base) !in dir.files
      ensures LogName(base) in old(dir.files) ==> dir.files == old(dir.files) - {LogName(base), IdxName(base)}
      ensures LogName(base) !in old(dir.files) ==> dir.files == old(dir.files)
    {
      SuffixesDiffer(base, base);
      failed := Some(base);
      var ok := dir.Remove(LogName(base));
      if ok {
        ok := dir.Remove(IdxName(base));
        if ok { failed := None; }
        assert old(dir.files) - {LogName(base)} - {IdxName(base)} ==
               if ok then old(dir.files) - {LogName(base), IdxName(base)} else old(dir.files) - {LogName(base)};
      } else {
        assert old(dir.files) - {LogName(base)} == old(dir.files);
      }
    }

    /** Drop the segments at or above the offset. */
    method RetainBelow(offset: nat)
      requires Rep()
      modifies this`segments, this`segs, this`Repr
      ensures Rep() && Repr == old(Repr) && segs == Retain(old(segs), offset)
    {
      var kept := Select(segments, segs, cfg, Repr, offset);
      Adopt(kept, Retain(segs, offset), Repr);
    }

    static method Select(
      all: seq<Segment>, ghost values: seq<Seg>, cfg: Config, ghost repr: set<object>, offset: nat)
      returns (kept: seq<Segment>)
      requires Owns(all, values, cfg, repr)
      ensures Owns(kept, Retain(values, offset), cfg, repr)
    {
      kept := [];
      for k := 0 to |all|
        invariant Owns(kept, Retain(values[..k], offset), cfg, repr)
        invariant forall i, j :: 0 <= i < |kept| && k <= j < |all| ==> kept[i].Repr() !! all[j].Repr()
      {
        assert values[..k + 1][..k] == values[..k];
        assert Owned(all[k], values[k], cfg, repr);
        if all[k].baseOffset < offset {
          OwnsAlso(kept, Retain(values[..k], offset), cfg, repr, all[k], values[k]);
          kept := kept + [all[k]];
        }
      }
      assert values[..|all|] == values;
    }

    static lemma OwnsAlso(
      kept: seq<Segment>, keptSegs: seq<Seg>, cfg: Config, repr: set<object>, s: Segment, v: Seg)
      requires Owns(kept, keptSegs, cfg, repr) && Owned(s, v, cfg, repr)
      requires forall i :: 0 <= i < |kept| ==> kept[i].Repr() !! s.Repr()
      ensures Owns(kept + [s], keptSegs + [v], cfg, repr)
    {
      var more := kept + [s];
      forall i | 0 <= i < |more| ensures Owned(more[i], (keptSegs + [v])[i], cfg, repr) {
        assert i < |kept| ==> Owned(kept[i], keptSegs[i], cfg, repr);
      }
    }

    /**
     Rotating an empty segment opens its files a second time.  Closing trims
     them twice, which keeps the later segment's bytes only if those behind
     the earlier one's are zeros.
     */
    static ghost predicate SharedAlike(segs: seq<Seg>) {
      forall i, j :: 0 <= i < j < |segs| && segs[i].base == segs[j].base ==>
        && segs[i].data <= segs[j].data && segs[j].data == segs[i].data + Zeros(|segs[j].data| - |segs[i].data|)
        && |segs[i].entries| <= |segs[j].entries| && Padded(IndexFile(segs[j]), segs[i].entries)
    }

    /** Close the log: drop the segments in order, each trimming its files. */
    method Close()
      requires Valid() && SharedAlike(segs)
      modifies dir, Repr
      ensures dir.files == CloseLog(old(State())) && SmallStores(dir.files)
    {
      ghost var d := dir.files;
      for k := 0 to |segments|
        invariant Owns(segments, segs, cfg, Repr) && dir.files == CloseFiles(d, segs[..k]) && SmallStores(dir.files)
      {
        CloseStep(d, segs, k);
        CloseAt(k);
      }
      assert segs[..|segs|] == segs;
    }

    static lemma CloseStep(d: Dir, segs: seq<Seg>, k: nat)
      requires k < |segs|
      ensures CloseFiles(d, segs[..k + 1]) ==
              Trim(Trim(CloseFiles(d, segs[..k]), LogName(segs[k].base), segs[k].data),
                    IdxName(segs[k].base), IndexFile(segs[k]))
    {
      assert segs[..k + 1][..k] == segs[..k];
    }

    /** Drop segment `k` and trim its two files. */
    method CloseAt(k: nat)
      requires Owns(segments, segs, cfg, Repr) && this !in Repr && dir !in Repr && k < |segments|
      requires SmallStores(dir.files)
      modifies dir, Repr
      ensures Owns(segments, segs, cfg, Repr) && SmallStores(dir.files)
      ensures dir.files ==
              Trim(Trim(old(dir.files), LogName(segs[k].base), segs[k].data), IdxName(segs[k].base), IndexFile(segs[k]))
    {
      var base, log, idx := DropAt(k);
      dir.SetContents(LogName(base), log);
      dir.SetContents(IdxName(base), idx);
      NoStoreAmongIndexes(base);
    }

    method DropAt(k: nat) returns (base: nat, log: seq<Byte>, idx: seq<Byte>)
      requires Owns(segments, segs, cfg, Repr) && this !in Repr && k < |segments|
      modifies Repr
      ensures Owns(segments, segs, cfg, Repr)
      ensures base == segs[k].base && log == segs[k].data && idx == IndexFile(segs[k]) && |log| <= STORE_LIMIT
    {
      assert Owned(segments[k], segs[k], cfg, Repr);
      base := segments[k].baseOffset;
      log, idx := segments[k].Drop();
      forall j | 0 <= j < |segments| && j != k
        ensures segments[j].Repr() == old(segments[j].Repr())
        ensures Owned(segments[j], segs[j], cfg, Repr)
      {
        assert old(Owned(segments[j], segs[j], cfg, Repr));
        assert old(segments[j].Repr()) !! old(segments[k].Repr());
      }
      OwnsReplaced(segments, segs, cfg, Repr, k);
      assert segs[k := segments[k].View()] == segs && Repr + segments[k].Repr() == Repr;
    }

    /** The first segment whose range contains the offset. */
    method FindSegmentForOffset(offset: nat) returns (i: Option<nat>)
      requires Valid()
      ensures i == Find(segs, offset)
    {
      for k := 0 to |segments|
        invariant forall j :: 0 <= j < k ==> !Contains(segs[j], offset)
      {
        assert Owned(segments[k], segs[k], cfg, Repr);
        var contains := segments[k].ContainsOffset(offset);
        if contains {
          FindFirst(segs, offset, k);
          return Some(k);
        }
      }
      return None;
    }

    method BaseOffset() returns (base: nat)
      requires Valid()
      ensures base == BaseOf(State())
    {
      assert Owned(segments[0], segs[0], cfg, Repr);
      base := segments[0].baseOffset;
    }

    /** The record at an offset, or why there is none. */
    method Read(offset: nat) returns (r: Result<Record>)
      requires Valid()
      ensures r == ReadLog(State(), offset)
    {
      var i := FindSegmentForOffset(offset);
      match i
      case None =>
        var base := BaseOffset();
        return Err(OffsetNotFound(offset, base, nextOffset));
      case Some(k) =>
        assert Owned(segments[k], segs[k], cfg, Repr);
        r := segments[k].Read(offset);
    }

    /** The bytes of all stores together. */
    method TotalBytes() returns (total: nat)
      requires Valid()
      ensures total == TotalSize(segs)
    {
      total := 0;
      for k := 0 to |segments|
        invariant total == TotalSize(segs[..k])
      {
        assert segs[..k + 1][..k] == segs[..k];
        assert Owned(segments[k], segs[k], cfg, Repr);
        total := total + segments[k].store.size;
      }
      assert segs[..|segs|] == segs;
    }
  }

  /** Scans the records from an offset on. */
  class LogScanIterator {
    const log: Log
    var currentOffset: nat
    var currentSegmentIdx: nat
    var currentPosition: Option<nat>

    ghost predicate Valid()
      reads this, log, log.dir, log.Repr
    {
      log.Valid() && this !in log.Repr
    }

    constructor (l: Log, start: nat)
      requires l.Valid()
      ensures Valid() && log == l && currentOffset == start && currentPosition == None
    {
      log := l;
      currentOffset := start;
      currentSegmentIdx := 0;
      currentPosition := None;
    }

    /**
     The next record.  The position field is None from the start and stays
     None, so the second half, which searches no more and may call itself
     once, is never reached.
     */
    method Next() returns (item: Option<Result<(nat, Record)>>)
      requires Valid() && (currentPosition.Some? ==> currentSegmentIdx < |log.segments|)
      modifies this
      ensures Valid()
      ensures old(currentPosition) == None ==>
                && currentPosition == None
                && item == ScanItem(log.State(), old(currentOffset))
                && currentOffset == ScanNext(log.State(), old(currentOffset))
      ensures old(currentPosition) == None && old(currentOffset) < log.nextOffset ==>
                currentSegmentIdx ==
                match Find(log.segs, old(currentOffset)) case Some(k) => k case None => old(currentSegmentIdx)
      decreases if currentPosition == None then 0 else 1
    {
      if currentOffset >= log.nextOffset {
        return None;
      }
      if currentPosition == None {
        item := SearchAndRead();
        return;
      }
      assert Log.Owned(log.segments[currentSegmentIdx], log.segs[currentSegmentIdx], log.cfg, log.Repr);
      var contains := log.segments[currentSegmentIdx].ContainsOffset(currentOffset);
      if !contains {
        currentSegmentIdx := currentSegmentIdx + 1;
        if currentSegmentIdx >= |log.segments| {
          return None;
        }
        currentPosition := None;
        item := Next();
        return;
      }
      item := ReadHere();
    }

    /** Find the segment of the cursor's offset and read there. */
    method SearchAndRead() returns (item: Option<Result<(nat, Record)>>)
      requires Valid() && currentOffset < log.nextOffset
      modifies this`currentOffset, this`currentSegmentIdx
      ensures item == ScanItem(log.State(), old(currentOffset))
      ensures currentOffset == ScanNext(log.State(), old(currentOffset))
      ensures currentSegmentIdx ==
              match Find(log.segs, old(currentOffset)) case Some(k) => k case None => old(currentSegmentIdx)
    {
      var found := log.FindSegmentForOffset(currentOffset);
      match found
      case Some(k) =>
        currentSegmentIdx := k;
        item := ReadHere();
      case None =>
        var base := log.BaseOffset();
        item := Some(Err(OffsetNotFound(currentOffset, base, log.nextOffset)));
    }

    /** Read at the cursor in the current segment and move past a record that was found. */
    method ReadHere() returns (item: Option<Result<(nat, Record)>>)
      requires Valid() && currentSegmentIdx < |log.segments|
      modifies this`currentOffset
      ensures item ==
              match ReadSeg(log.segs[currentSegmentIdx], old(currentOffset))
              case Ok(data) => Some(Ok((old(currentOffset), data)))
              case Err(e) => Some(Err(e))
      ensures currentOffset == if item.value.Ok? then old(currentOffset) + 1 else old(currentOffset)
    {
      assert Log.Owned(log.segments[currentSegmentIdx], log.segs[currentSegmentIdx], log.cfg, log.Repr);
      var read := log.segments[currentSegmentIdx].Read(currentOffset);
      match read
      case Ok(data) =>
        item := Some(Ok((currentOffset, data)));
        currentOffset := currentOffset + 1;
      case Err(e) =>
        item := Some(Err(e));
    }
  }
}
