/** From a directory listing in any order to the sorted base offsets of the segments in it. */
module Listing {
  import opened Bytes
  import opened Results
  import opened Names

  // ----- Sorting -----

  predicate Sorted(s: seq<nat>) {
    forall i, j :: 0 <= i < j < |s| ==> s[i] <= s[j]
  }

  predicate Ascending(s: seq<nat>) {
    forall i, j :: 0 <= i < j < |s| ==> s[i] < s[j]
  }

  function Insert(x: nat, s: seq<nat>): seq<nat> {
    if s == [] || x <= s[0] then [x] + s else [s[0]] + Insert(x, s[1..])
  }

  function Sort(s: seq<nat>): seq<nat> {
    if s == [] then [] else Insert(s[0], Sort(s[1..]))
  }

  lemma {:induction false} InsertAdds(x: nat, s: seq<nat>)
    ensures multiset(Insert(x, s)) == multiset(s) + multiset{x}
  {
    if s != [] && x > s[0] {
      InsertAdds(x, s[1..]);
      assert s == [s[0]] + s[1..];
    }
  }

  lemma {:induction false} InsertSorts(x: nat, s: seq<nat>)
    requires Sorted(s)
    ensures Sorted(Insert(x, s))
  {
    if s != [] && x > s[0] {
      var rest := s[1..];
      InsertSorts(x, rest);
      InsertAdds(x, rest);
      forall i | 0 <= i < |Insert(x, rest)| ensures s[0] <= Insert(x, rest)[i] {
        var y := Insert(x, rest)[i];
        assert y in multiset(Insert(x, rest));
        assert y == x || y in rest;
      }
    }
  }

  lemma {:induction false} SortSorts(s: seq<nat>)
    ensures Sorted(Sort(s)) && multiset(Sort(s)) == multiset(s)
  {
    if s != [] {
      SortSorts(s[1..]);
      InsertSorts(s[0], Sort(s[1..]));
      InsertAdds(s[0], Sort(s[1..]));
      assert s == [s[0]] + s[1..];
    }
  }

  lemma LeastFirst(a: seq<nat>, b: seq<nat>)
    requires Sorted(a) && a != [] && b != [] && multiset(a) == multiset(b)
    ensures a[0] <= b[0]
  {
    assert b[0] in multiset(a);
    var i :| 0 <= i < |a| && a[i] == b[0];
  }

  lemma TailMultiset(s: seq<nat>)
    requires s != []
    ensures multiset(s[1..]) == multiset(s) - multiset{s[0]}
  {
    assert s == [s[0]] + s[1..];
  }

  lemma {:induction false} SortedUnique(a: seq<nat>, b: seq<nat>)
    requires Sorted(a) && Sorted(b) && multiset(a) == multiset(b)
    ensures a == b
  {
    assert |a| == |multiset(a)| == |b|;
    if a != [] {
      LeastFirst(a, b);
      LeastFirst(b, a);
      TailMultiset(a);
      TailMultiset(b);
      SortedUnique(a[1..], b[1..]);
    }
  }

  lemma {:induction false} AscendingOnce(s: seq<nat>, x: nat)
    requires Ascending(s)
    ensures multiset(s)[x] == if x in s then 1 else 0
  {
    if s != [] {
      AscendingOnce(s[1..], x);
      assert s == [s[0]] + s[1..];
    }
  }

  // ----- The directory scan of load_segments -----

  /** The base offsets of the store files in a listing, in the order of the listing. */
  function ListedBases(listing: seq<string>): seq<nat> {
    if listing == [] then []
    else
      match ParseLogName(listing[|listing| - 1])
      case None => ListedBases(listing[..|listing| - 1])
      case Some(base) => ListedBases(listing[..|listing| - 1]) + [base]
  }

  /** What each name of a listing contributes, in order. */
  lemma {:induction false} ListedConcat(a: seq<string>, b: seq<string>)
    ensures ListedBases(a + b) == ListedBases(a) + ListedBases(b)
  {
    if b == [] {
      assert a + b == a;
    } else {
      ListedConcat(a, b[..|b| - 1]);
      assert (a + b)[..|a + b| - 1] == a + b[..|b| - 1];
    }
  }

  lemma ListedOne(name: string)
    ensures ParseLogName(name) == None ==> ListedBases([name]) == []
    ensures forall base: U64 :: ParseLogName(name) == Some(base) ==> ListedBases([name]) == [base]
  {
    assert [name][..0] == [];
    assert ListedBases([name][..0]) == [];
  }

  /** `listing` names every file of `names` once, in any order. */
  ghost predicate Lists(listing: seq<string>, names: set<string>) {
    && (forall name :: name in listing <==> name in names)
    && (forall i, j :: 0 <= i < j < |listing| ==> listing[i] != listing[j])
  }

  /** Every name that parses as a store file is the name the log itself would use. */
  ghost predicate Canonical(names: set<string>) {
    forall name :: name in names && ParseLogName(name).Some? ==> name == LogName(ParseLogName(name).value)
  }

  lemma {:induction false} ListedOnce(listing: seq<string>, base: U64)
    requires Canonical(set name | name in listing)
    requires forall i, j :: 0 <= i < j < |listing| ==> listing[i] != listing[j]
    ensures multiset(ListedBases(listing))[base] == if LogName(base) in listing then 1 else 0
  {
    if listing != [] {
      var init, last := listing[..|listing| - 1], listing[|listing| - 1];
      assert listing == init + [last] && last !in init;
      ListedOnce(init, base);
      NameRoundTrip(base);
      assert last in (set name | name in listing);
    }
  }

  lemma {:induction false} ListedAreU64(listing: seq<string>)
    ensures forall i :: 0 <= i < |ListedBases(listing)| ==> ListedBases(listing)[i] < LIMIT64
  {
    if listing != [] { ListedAreU64(listing[..|listing| - 1]); }
  }

  /**
   Whatever the order of the listing, sorting the listed bases gives exactly
   the ascending list of the bases whose store files are there.
   */
  lemma LoadOrder(listing: seq<string>, names: set<string>, bases: seq<nat>)
    requires Lists(listing, names) && Canonical(names) && Ascending(bases)
    requires forall i :: 0 <= i < |bases| ==> bases[i] < LIMIT64
    requires forall base: U64 {:trigger LogName(base)} :: LogName(base) in names <==> base in bases
    ensures Sort(ListedBases(listing)) == bases
  {
    var listed := ListedBases(listing);
    assert (set name | name in listing) == names;
    ListedAreU64(listing);
    var m, n: multiset<nat> := multiset(listed), multiset(bases);
    forall x: nat ensures m[x] == n[x] {
      AscendingOnce(bases, x);
      if x < LIMIT64 {
        ListedOnce(listing, x);
      } else {
        assert x !in listed;
      }
    }
    assert m == n;
    SortSorts(listed);
    SortedUnique(Sort(listed), bases);
  }
}
