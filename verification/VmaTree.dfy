/** The registry of virtual memory areas: sorted disjoint intervals standing for a map over addresses. */
module VmaTrees {
  import opened Bytes
  import opened Wrappers

  datatype Vma = Vma(start: Word, end: Word, rights: U32, backing: Word) {
    predicate Contains(a: Word) {
      start <= a < end
    }

    /** `end - start` on unsigned words. */
    function Size(): Word {
      Wrap(end - start)
    }
  }

  predicate Overlap(a: Vma, b: Vma) {
    !(a.end <= b.start || b.end <= a.start)
  }

  /** Non-empty intervals, in address order, pairwise disjoint. */
  predicate Proper(es: seq<Vma>) {
    && (forall i | 0 <= i < |es| :: es[i].start < es[i].end)
    && (forall i, j | 0 <= i < j < |es| :: es[i].end <= es[j].start)
  }

  // ---- The address map ----

  /** Linear scan: the first entry that contains `a`. */
  function Scan(es: seq<Vma>, a: Word): Option<Vma> {
    if es == [] then None
    else if es[0].Contains(a) then Some(es[0])
    else Scan(es[1..], a)
  }

  datatype Mapping = Mapping(rights: U32, backing: Word)

  /** What address `a` is mapped to. */
  function MappedTo(es: seq<Vma>, a: Word): Option<Mapping> {
    match Scan(es, a)
    case None => None
    case Some(v) => Some(Mapping(v.rights, v.backing))
  }

  ghost predicate SameMap(a: seq<Vma>, b: seq<Vma>) {
    forall x: Word :: MappedTo(a, x) == MappedTo(b, x)
  }

  lemma {:induction false} ScanIff(es: seq<Vma>, a: Word, v: Vma)
    requires Proper(es)
    ensures Scan(es, a) == Some(v) <==> v in es && v.Contains(a)
  {
    if es != [] {
      ScanIff(es[1..], a, v);
      assert es == [es[0]] + es[1..];
    }
  }

  lemma {:induction false} ScanNone(es: seq<Vma>, a: Word)
    ensures Scan(es, a) == None <==> forall v | v in es :: !v.Contains(a)
  {
    if es != [] {
      ScanNone(es[1..], a);
      assert es == [es[0]] + es[1..];
    }
  }

  lemma {:induction false} ScanConcat(a: seq<Vma>, b: seq<Vma>, x: Word)
    ensures Scan(a + b, x) == if Scan(a, x).Some? then Scan(a, x) else Scan(b, x)
  {
    if a == [] {
      assert a + b == b;
    } else {
      ScanConcat(a[1..], b, x);
      assert (a + b)[1..] == a[1..] + b;
    }
  }

  // ---- Sizes ----

  function Total(es: seq<Vma>): int {
    if es == [] then 0 else es[0].end - es[0].start + Total(es[1..])
  }

  lemma {:induction false} TotalConcat(a: seq<Vma>, b: seq<Vma>)
    ensures Total(a + b) == Total(a) + Total(b)
  {
    if a == [] {
      assert a + b == b;
    } else {
      TotalConcat(a[1..], b);
      assert (a + b)[1..] == a[1..] + b;
    }
  }

  lemma {:induction false} TotalBound(es: seq<Vma>)
    requires Proper(es)
    ensures 0 <= Total(es)
    ensures es != [] ==> Total(es) <= es[|es| - 1].end - es[0].start
  {
    if es != [] {
      TotalBound(es[1..]);
    }
  }

  ghost function Addresses(es: seq<Vma>): set<int> {
    set a: int | 0 <= a < TWO_64 && Scan(es, a).Some?
  }

  ghost function Interval(lo: int, hi: int): (s: set<int>)
    requires lo <= hi
    ensures forall a :: a in s <==> lo <= a < hi
    ensures |s| == hi - lo
    decreases hi - lo
  {
    if lo == hi then {} else {lo} + Interval(lo + 1, hi)
  }

  lemma AddressesSplit(es: seq<Vma>)
    requires Proper(es) && es != []
    ensures Addresses(es) == Interval(es[0].start, es[0].end) + Addresses(es[1..])
    ensures Interval(es[0].start, es[0].end) !! Addresses(es[1..])
  {
    var first, rest := Interval(es[0].start, es[0].end), Addresses(es[1..]);
    forall a | a in rest ensures a !in first {
      ScanNone(es[1..], a);
    }
  }

  lemma NoAddresses()
    ensures Addresses([]) == {}
  {
  }

  lemma DisjointSum(a: set<int>, b: set<int>)
    requires a !! b
    ensures |a + b| == |a| + |b|
  {
  }

  /** The total size is the number of mapped addresses. */
  lemma {:induction false} TotalCounts(es: seq<Vma>)
    requires Proper(es)
    ensures Total(es) == |Addresses(es)|
  {
    hide Addresses;
    if es == [] {
      NoAddresses();
    } else {
      TotalCounts(es[1..]);
      AddressesSplit(es);
      DisjointSum(Interval(es[0].start, es[0].end), Addresses(es[1..]));
    }
  }

  // ---- Sorting ----

  predicate SortedByStart(es: seq<Vma>) {
    forall i, j | 0 <= i < j < |es| :: es[i].start <= es[j].start
  }

  /** `v` put in its place, after the entries that start no later. */
  function Inserted(es: seq<Vma>, v: Vma): (r: seq<Vma>)
    ensures |r| == |es| + 1
  {
    if es == [] || v.start < es[0].start then [v] + es else [es[0]] + Inserted(es[1..], v)
  }

  lemma {:induction false} InsertedElements(es: seq<Vma>, v: Vma)
    ensures multiset(Inserted(es, v)) == multiset(es) + multiset{v}
    ensures forall x :: x in Inserted(es, v) <==> x in es || x == v
  {
    if es != [] {
      assert es == [es[0]] + es[1..];
      if v.start >= es[0].start {
        InsertedElements(es[1..], v);
      }
    }
  }

  lemma {:induction false} InsertedSorted(es: seq<Vma>, v: Vma)
    requires SortedByStart(es)
    ensures SortedByStart(Inserted(es, v))
  {
    if es != [] && v.start >= es[0].start {
      InsertedSorted(es[1..], v);
      InsertedElements(es[1..], v);
      var r := Inserted(es[1..], v);
      forall j | 0 <= j < |r| ensures es[0].start <= r[j].start {
        assert r[j] in r;
      }
    }
  }

  /** std::sort with the comparison on `start`. */
  method SortByStart(es: seq<Vma>) returns (r: seq<Vma>)
    ensures SortedByStart(r) && multiset(r) == multiset(es)
  {
    r := [];
    for i := 0 to |es|
      invariant SortedByStart(r) && multiset(r) == multiset(es[..i])
    {
      InsertedSorted(r, es[i]);
      InsertedElements(r, es[i]);
      r := Inserted(r, es[i]);
      assert es[..i + 1] == es[..i] + [es[i]];
    }
    assert es[..|es|] == es;
  }

  lemma FirstInSorted(a: seq<Vma>, b: seq<Vma>)
    requires Proper(a) && SortedByStart(b) && multiset(a) == multiset(b) && a != []
    ensures b != [] && a[0] == b[0]
  {
    assert a[0] in multiset(b);
    assert b[0] in multiset(a);
    var i :| 0 <= i < |a| && a[i] == b[0];
    var j :| 0 <= j < |b| && b[j] == a[0];
    assert b[0].start <= b[j].start;
    StartsDiffer(a, 0);
    assert a == a[..0] + [a[0]] + a[1..];
  }

  lemma TailMultiset(a: seq<Vma>)
    requires a != []
    ensures multiset(a[1..]) == multiset(a) - multiset{a[0]}
  {
    assert a == [a[0]] + a[1..];
  }

  lemma TailsSorted(a: seq<Vma>, b: seq<Vma>)
    requires Proper(a) && SortedByStart(b) && a != [] && b != []
    ensures Proper(a[1..]) && SortedByStart(b[1..])
  {
  }

  lemma SameSize(a: seq<Vma>, b: seq<Vma>)
    requires multiset(a) == multiset(b)
    ensures |a| == |b|
  {
    assert |multiset(a)| == |a| && |multiset(b)| == |b|;
  }

  /** With distinct starts there is only one sorted order. */
  lemma {:induction false} SortedUnique(a: seq<Vma>, b: seq<Vma>)
    requires Proper(a) && SortedByStart(b) && multiset(a) == multiset(b)
    ensures a == b
    decreases |a|
  {
    hide Proper, SortedByStart;
    SameSize(a, b);
    if a != [] {
      FirstInSorted(a, b);
      TailMultiset(a);
      TailMultiset(b);
      TailsSorted(a, b);
      SortedUnique(a[1..], b[1..]);
      assert a == [a[0]] + a[1..] && b == [b[0]] + b[1..];
    }
  }

  // ---- Insertion keeps the map elsewhere ----

  lemma ProperCons(v: Vma, es: seq<Vma>)
    requires v.start < v.end && Proper(es) && forall e | e in es :: v.end <= e.start
    ensures Proper([v] + es)
  {
    forall j | 0 <= j < |es| ensures v.end <= es[j].start {
      assert es[j] in es;
    }
  }

  lemma ProperTail(es: seq<Vma>)
    requires Proper(es) && es != []
    ensures es[0].start < es[0].end && Proper(es[1..]) && forall e | e in es[1..] :: es[0].end <= e.start
    ensures forall e | e in es[1..] :: e in es
    ensures forall e | e in es :: es[0].start <= e.start && e.start < e.end
  {
  }

  lemma {:induction false} InsertedProper(es: seq<Vma>, v: Vma)
    requires Proper(es) && v.start < v.end
    requires forall e | e in es :: !Overlap(e, v)
    ensures Proper(Inserted(es, v))
  {
    if es == [] {
      ProperCons(v, []);
    } else {
      hide Proper;
      assert es[0] in es;
      ProperTail(es);
      if v.start >= es[0].start {
        InsertedProper(es[1..], v);
        InsertedElements(es[1..], v);
        ProperCons(es[0], Inserted(es[1..], v));
      } else {
        ProperCons(v, es);
      }
    }
  }

  /** Inserting adds exactly the addresses of `v`. */
  lemma InsertedScan(es: seq<Vma>, v: Vma, a: Word)
    requires Proper(es) && v.start < v.end
    requires forall e | e in es :: !Overlap(e, v)
    ensures Scan(Inserted(es, v), a) == if v.Contains(a) then Some(v) else Scan(es, a)
  {
    InsertedProper(es, v);
    InsertedElements(es, v);
    ScanNone(Inserted(es, v), a);
    ScanNone(es, a);
    if v.Contains(a) {
      ScanIff(Inserted(es, v), a, v);
    } else if Scan(es, a).Some? {
      ScanIff(es, a, Scan(es, a).value);
      ScanIff(Inserted(es, v), a, Scan(es, a).value);
    }
  }

  /** The overlap test refuses exactly the intervals that contain a mapped address. */
  lemma OverlapMeansMapped(es: seq<Vma>, v: Vma)
    requires Proper(es) && v.start < v.end
    ensures (exists e | e in es :: Overlap(e, v)) <==> exists a: Word | v.Contains(a) :: Scan(es, a).Some?
  {
    if e :| e in es && Overlap(e, v) {
      var a: Word := if e.start < v.start then v.start else e.start;
      ScanNone(es, a);
      assert v.Contains(a) && e.Contains(a);
    }
    if a: Word :| v.Contains(a) && Scan(es, a).Some? {
      ScanIff(es, a, Scan(es, a).value);
    }
  }

  lemma {:induction false} InsertedTotal(es: seq<Vma>, v: Vma)
    ensures Total(Inserted(es, v)) == Total(es) + v.end - v.start
  {
    if es != [] && v.start >= es[0].start {
      InsertedTotal(es[1..], v);
    }
  }

  // ---- Splitting ----

  function Left(v: Vma, a: Word): Vma {
    Vma(v.start, a, v.rights, v.backing)
  }

  function Right(v: Vma, a: Word): Vma {
    Vma(a, v.end, v.rights, v.backing)
  }

  /** `es` with the entry at `k` cut in two at `a`. */
  function SplitAt(es: seq<Vma>, k: nat, a: Word): seq<Vma>
    requires k < |es|
  {
    es[..k] + [Left(es[k], a), Right(es[k], a)] + es[k + 1..]
  }

  predicate Cuts(es: seq<Vma>, k: nat, a: Word) {
    k < |es| && es[k].start < a < es[k].end
  }

  /** `a` lies strictly inside some entry. */
  ghost predicate CanSplit(es: seq<Vma>, a: Word) {
    exists k: nat :: Cuts(es, k, a)
  }

  lemma SplitProper(es: seq<Vma>, k: nat, a: Word)
    requires Proper(es) && Cuts(es, k, a)
    ensures Proper(SplitAt(es, k, a))
  {
    var r := SplitAt(es, k, a);
    forall i | 0 <= i < |r|
      ensures r[i] == if i < k then es[i] else if i == k then Left(es[k], a)
                      else if i == k + 1 then Right(es[k], a) else es[i - 1]
    {
    }
  }

  /** Splitting changes no address and no total. */
  lemma SplitKeeps(es: seq<Vma>, k: nat, a: Word, x: Word)
    requires Cuts(es, k, a)
    ensures MappedTo(SplitAt(es, k, a), x) == MappedTo(es, x)
    ensures Total(SplitAt(es, k, a)) == Total(es)
  {
    var pair, one := [Left(es[k], a), Right(es[k], a)], [es[k]];
    assert es == es[..k] + one + es[k + 1..];
    assert pair[1..][1..] == [] && one[1..] == [];
    ScanConcat(es[..k] + one, es[k + 1..], x);
    ScanConcat(es[..k], one, x);
    ScanConcat(es[..k] + pair, es[k + 1..], x);
    ScanConcat(es[..k], pair, x);
    TotalConcat(es[..k] + one, es[k + 1..]);
    TotalConcat(es[..k], one);
    TotalConcat(es[..k] + pair, es[k + 1..]);
    TotalConcat(es[..k], pair);
  }

  // ---- Merging ----

  predicate Mergeable(a: Vma, b: Vma) {
    a.end == b.start && a.rights == b.rights && a.backing == b.backing
  }

  /** No two neighbours among the first `n` entries can be merged. */
  predicate Apart(es: seq<Vma>, n: nat)
    requires n <= |es|
  {
    forall i | 0 <= i < n - 1 :: !Mergeable(es[i], es[i + 1])
  }

  /** `es` with entries `i` and `i + 1` made one. */
  function MergeAt(es: seq<Vma>, i: nat): seq<Vma>
    requires i + 1 < |es|
  {
    es[..i] + [Vma(es[i].start, es[i + 1].end, es[i].rights, es[i].backing)] + es[i + 2..]
  }

  lemma MergeProper(es: seq<Vma>, i: nat)
    requires Proper(es) && i + 1 < |es|
    ensures Proper(MergeAt(es, i))
  {
    var r := MergeAt(es, i);
    var merged := Vma(es[i].start, es[i + 1].end, es[i].rights, es[i].backing);
    forall k | 0 <= k < |r|
      ensures r[k] == if k < i then es[k] else if k == i then merged else es[k + 1]
    {
    }
  }

  /** Merging undoes a split. */
  lemma MergeIsUnsplit(es: seq<Vma>, i: nat)
    requires Proper(es) && i + 1 < |es| && Mergeable(es[i], es[i + 1])
    ensures Cuts(MergeAt(es, i), i, es[i].end) && SplitAt(MergeAt(es, i), i, es[i].end) == es
    ensures Proper(MergeAt(es, i))
  {
    var r := MergeAt(es, i);
    assert es[i].start < es[i].end <= es[i + 1].start < es[i + 1].end;
    MergeProper(es, i);
    hide Proper;
    assert r[i + 1..] == es[i + 2..] && r[..i] == es[..i];
    assert es == es[..i] + [es[i], es[i + 1]] + es[i + 2..];
  }

  lemma MergeKeeps(es: seq<Vma>, i: nat)
    requires Proper(es) && i + 1 < |es| && Mergeable(es[i], es[i + 1])
    ensures SameMap(MergeAt(es, i), es) && Total(MergeAt(es, i)) == Total(es)
  {
    MergeIsUnsplit(es, i);
    forall x: Word ensures MappedTo(MergeAt(es, i), x) == MappedTo(es, x) {
      SplitKeeps(MergeAt(es, i), i, es[i].end, x);
    }
    SplitKeeps(MergeAt(es, i), i, es[i].end, 0);
  }

  lemma MappedAt(es: seq<Vma>, k: nat, x: Word)
    requires Proper(es) && k < |es| && es[k].Contains(x)
    ensures MappedTo(es, x) == Some(Mapping(es[k].rights, es[k].backing))
  {
    ScanIff(es, x, es[k]);
  }

  /** What is mapped right after the first entry is the second one. */
  lemma Neighbour(a: seq<Vma>)
    requires Proper(a) && a != [] && Scan(a, a[0].end).Some?
    ensures |a| > 1 && a[1].start == a[0].end && Scan(a, a[0].end) == Some(a[1])
  {
    var x := a[0].end;
    ScanIff(a, x, Scan(a, x).value);
    var i :| 0 <= i < |a| && a[i] == Scan(a, x).value;
    assert i == 1;
  }

  lemma FirstEnds(a: seq<Vma>, b: seq<Vma>)
    requires Proper(a) && Proper(b) && a != [] && b != [] && Apart(a, |a|) && SameMap(a, b)
    requires a[0].start == b[0].start
    ensures a[0].end >= b[0].end
  {
    var x := a[0].end;
    if x < b[0].end {
      MappedAt(a, 0, a[0].start);
      MappedAt(b, 0, a[0].start);
      MappedAt(b, 0, x);
      Neighbour(a);
      assert false;
    }
  }

  lemma FirstStarts(a: seq<Vma>, b: seq<Vma>)
    requires Proper(a) && Proper(b) && a != [] && SameMap(a, b)
    ensures b != [] && b[0].start <= a[0].start
  {
    var x := a[0].start;
    MappedAt(a, 0, x);
    ScanIff(b, x, Scan(b, x).value);
  }

  lemma RestSameMap(a: seq<Vma>, b: seq<Vma>)
    requires Proper(a) && Proper(b) && a != [] && b != [] && a[0] == b[0] && SameMap(a, b)
    ensures SameMap(a[1..], b[1..])
  {
    forall x: Word ensures MappedTo(a[1..], x) == MappedTo(b[1..], x) {
      if a[0].Contains(x) {
        ScanNone(a[1..], x);
        ScanNone(b[1..], x);
      } else {
        assert MappedTo(a, x) == MappedTo(b, x);
      }
    }
  }

  /** The coalesced form is unique: the address map alone determines it. */
  lemma {:induction false} CoalescedUnique(a: seq<Vma>, b: seq<Vma>)
    requires Proper(a) && Proper(b) && Apart(a, |a|) && Apart(b, |b|) && SameMap(a, b)
    ensures a == b
    decreases |a|
  {
    if a == [] {
      if b != [] {
        FirstStarts(b, a);
      }
    } else {
      FirstStarts(a, b);
      FirstStarts(b, a);
      FirstEnds(a, b);
      FirstEnds(b, a);
      MappedAt(a, 0, a[0].start);
      MappedAt(b, 0, a[0].start);
      RestSameMap(a, b);
      CoalescedUnique(a[1..], b[1..]);
    }
  }

  class VmaTree {
    var entries: seq<Vma>

    predicate Valid()
      reads this
    {
      Proper(entries)
    }

    constructor ()
      ensures Valid() && entries == []
    {
      entries := [];
    }

    /** Inserts `v` unless it is empty or overlaps an entry; then nothing changes. */
    method Insert(v: Vma) returns (ok: bool)
      requires Valid()
      modifies this
      ensures Valid()
      ensures ok <==> v.start < v.end && forall e | e in old(entries) :: !Overlap(e, v)
      ensures entries == if ok then Inserted(old(entries), v) else old(entries)
    {
      if v.start >= v.end {
        return false;
      }
      for i := 0 to |entries|
        invariant forall j | 0 <= j < i :: !Overlap(entries[j], v)
        modifies {}
      {
        if Overlap(entries[i], v) {
          return false;
        }
      }
      Resort(entries, v);
      entries := SortByStart(entries + [v]);
      SortedUnique(Inserted(old(entries), v), entries);
      ok := true;
    }

    /** The position after the last entry that starts at or before `a`, by bisection. */
    method UpperBound(a: Word) returns (k: nat)
      requires Valid()
      ensures k <= |entries|
      ensures forall i | 0 <= i < k :: entries[i].start <= a
      ensures forall i | k <= i < |entries| :: a < entries[i].start
    {
      var lo, hi := 0, |entries|;
      while lo < hi
        invariant 0 <= lo <= hi <= |entries|
        invariant forall i | 0 <= i < lo :: entries[i].start <= a
        invariant forall i | hi <= i < |entries| :: a < entries[i].start
      {
        var mid := (lo + hi) / 2;
        if a < entries[mid].start {
          hi := mid;
        } else {
          lo := mid + 1;
        }
      }
      k := lo;
    }

    /** The position of the first entry that starts at or after `a`. */
    method LowerBound(a: Word) returns (k: nat)
      requires Valid()
      ensures k <= |entries|
      ensures forall i | 0 <= i < k :: entries[i].start < a
      ensures forall i | k <= i < |entries| :: a <= entries[i].start
    {
      var lo, hi := 0, |entries|;
      while lo < hi
        invariant 0 <= lo <= hi <= |entries|
        invariant forall i | 0 <= i < lo :: entries[i].start < a
        invariant forall i | hi <= i < |entries| :: a <= entries[i].start
      {
        var mid := (lo + hi) / 2;
        if entries[mid].start < a {
          lo := mid + 1;
        } else {
          hi := mid;
        }
      }
      k := lo;
    }

    /** Erases the entry that starts at `start`: exactly its addresses become unmapped. */
    method Erase(start: Word) returns (ok: bool)
      requires Valid()
      modifies this
      ensures Valid()
      ensures ok <==> exists e | e in old(entries) :: e.start == start
      ensures !ok ==> entries == old(entries)
      ensures forall e :: e in entries <==> e in old(entries) && !(e.start == start)
      ensures |entries| == if ok then |old(entries)| - 1 else |old(entries)|
    {
      var k := LowerBound(start);
      if k == |entries| || entries[k].start != start {
        return false;
      }
      entries := entries[..k] + entries[k + 1..];
      ok := true;
      ErasedElements(old(entries), k);
    }

    /** Splits the entry around `a`, when `a` is strictly inside one. */
    method Split(a: Word) returns (ok: bool)
      requires Valid()
      modifies this
      ensures Valid()
      ensures ok <==> CanSplit(old(entries), a)
      ensures !ok ==> entries == old(entries)
      ensures forall k: nat | Cuts(old(entries), k, a) :: entries == SplitAt(old(entries), k, a)
    {
      hide Proper, CanSplit, SortedByStart, SplitAt;
      var k := UpperBound(a);
      if k == 0 {
        NoCut(entries, a);
        return false;
      }
      k := k - 1;
      OnlyCut(entries, k, a);
      var v := entries[k];
      if !v.Contains(a) || a == v.start || a == v.end {
        return false;
      }
      SplitProper(entries, k, a);
      Rearranged(entries, k, a);
      entries := entries[k := Left(v, a)];
      entries := SortByStart(entries + [Right(v, a)]);
      SortedUnique(SplitAt(old(entries), k, a), entries);
      ok := true;
    }

    /** Merges until no neighbours can be merged; the map and the total stay. */
    method CoalesceEqual() returns (merges: nat)
      requires Valid()
      modifies this
      ensures Valid() && Apart(entries, |entries|)
      ensures SameMap(entries, old(entries)) && Total(entries) == Total(old(entries))
      ensures |entries| + merges == |old(entries)|
    {
      hide Proper, Mergeable, SameMap;
      merges := 0;
      var i := 0;
      SameMapReflexive(entries);
      while i + 1 < |entries|
        invariant 0 <= i && (i < |entries| || entries == [])
        invariant i < |entries| ==> Apart(entries, i + 1)
        invariant Valid() && SameMap(entries, old(entries)) && Total(entries) == Total(old(entries))
        invariant |entries| + merges == |old(entries)|
        decreases |entries| - i
      {
        if Mergeable(entries[i], entries[i + 1]) {
          MergeKeeps(entries, i);
          MergeIsUnsplit(entries, i);
          MergeStaysApart(entries, i);
          SameMapTransitive(MergeAt(entries, i), entries, old(entries));
          entries := MergeAt(entries, i);
          merges := merges + 1;
        } else {
          i := i + 1;
        }
      }
    }

    /** Bisection finds what the linear scan finds. */
    method Find(a: Word) returns (r: Option<Vma>)
      requires Valid()
      ensures r == Scan(entries, a)
    {
      var k := UpperBound(a);
      if k > 0 && entries[k - 1].Contains(a) {
        ScanIff(entries, a, entries[k - 1]);
        return Some(entries[k - 1]);
      }
      ScanNone(entries, a);
      return None;
    }

    /** The 64-bit sum of the sizes never wraps. */
    method TotalSize() returns (s: Word)
      requires Valid()
      ensures s == Total(entries) == |Addresses(entries)|
    {
      s := 0;
      TotalCounts(entries);
      for i := 0 to |entries|
        invariant s == Total(entries[..i])
      {
        TotalPrefix(entries, i);
        s := Wrap(s + entries[i].Size());
      }
      assert entries[..|entries|] == entries;
    }
  }

  lemma Resort(es: seq<Vma>, v: Vma)
    requires Proper(es) && v.start < v.end
    requires forall i | 0 <= i < |es| :: !Overlap(es[i], v)
    ensures forall e | e in es :: !Overlap(e, v)
    ensures Proper(Inserted(es, v)) && multiset(Inserted(es, v)) == multiset(es + [v])
  {
    InsertedProper(es, v);
    InsertedElements(es, v);
  }

  lemma ErasedElements(es: seq<Vma>, k: nat)
    requires Proper(es) && k < |es|
    ensures Proper(es[..k] + es[k + 1..])
    ensures forall e :: e in es[..k] + es[k + 1..] <==> e in es && !(e.start == es[k].start)
  {
    ErasedProper(es, k);
    forall e ensures e in es[..k] + es[k + 1..] <==> e in es && !(e.start == es[k].start) {
      StartsDiffer(es, k);
      assert es == es[..k] + [es[k]] + es[k + 1..];
    }
  }

  lemma ErasedProper(es: seq<Vma>, k: nat)
    requires Proper(es) && k < |es|
    ensures Proper(es[..k] + es[k + 1..])
  {
    var r := es[..k] + es[k + 1..];
    forall i | 0 <= i < |r| ensures r[i] == if i < k then es[i] else es[i + 1] {
    }
  }

  lemma StartsDiffer(es: seq<Vma>, k: nat)
    requires Proper(es) && k < |es|
    ensures forall e | e in es[..k] :: e.start < es[k].start
    ensures forall e | e in es[k + 1..] :: es[k].start < e.start
  {
  }

  /** Erasing unmaps the addresses of the erased entry and no others. */
  lemma ErasedScan(es: seq<Vma>, k: nat, a: Word)
    requires Proper(es) && k < |es|
    ensures Scan(es[..k] + es[k + 1..], a) == if es[k].Contains(a) then None else Scan(es, a)
  {
    var one := [es[k]];
    assert es == es[..k] + one + es[k + 1..] && one[1..] == [];
    ScanConcat(es[..k] + one, es[k + 1..], a);
    ScanConcat(es[..k], one, a);
    ScanConcat(es[..k], es[k + 1..], a);
    StartsDiffer(es, k);
    ScanNone(es[..k], a);
    ScanNone(es[k + 1..], a);
  }

  /** Only the last entry that starts at or before `a` can be cut at `a`. */
  lemma OnlyCut(es: seq<Vma>, k: nat, a: Word)
    requires Proper(es) && k < |es| && es[k].start <= a
    requires forall i | k < i < |es| :: a < es[i].start
    ensures forall j: nat | Cuts(es, j, a) :: j == k
    ensures CanSplit(es, a) <==> Cuts(es, k, a)
  {
  }

  lemma NoCut(es: seq<Vma>, a: Word)
    requires forall i | 0 <= i < |es| :: a < es[i].start
    ensures !CanSplit(es, a)
  {
  }

  lemma Rearranged(es: seq<Vma>, k: nat, a: Word)
    requires k < |es|
    ensures multiset(SplitAt(es, k, a)) == multiset(es[k := Left(es[k], a)] + [Right(es[k], a)])
  {
    var l, r := Left(es[k], a), Right(es[k], a);
    assert es[k := l] == es[..k] + [l] + es[k + 1..];
  }

  lemma SameMapReflexive(a: seq<Vma>)
    ensures SameMap(a, a)
  {
  }

  lemma SameMapTransitive(a: seq<Vma>, b: seq<Vma>, c: seq<Vma>)
    requires SameMap(a, b) && SameMap(b, c)
    ensures SameMap(a, c)
  {
    forall x: Word ensures MappedTo(a, x) == MappedTo(c, x) {
      assert MappedTo(a, x) == MappedTo(b, x);
    }
  }

  lemma MergeStaysApart(es: seq<Vma>, i: nat)
    requires i + 1 < |es| && Apart(es, i + 1)
    ensures Apart(MergeAt(es, i), i + 1)
  {
    var r := MergeAt(es, i);
    forall k | 0 <= k < i ensures !Mergeable(r[k], r[k + 1]) {
      assert r[k] == es[k] && r[k + 1].start == es[k + 1].start;
      assert !Mergeable(es[k], es[k + 1]);
    }
  }

  lemma TotalPrefix(es: seq<Vma>, i: nat)
    requires Proper(es) && i < |es|
    ensures Total(es[..i + 1]) == Total(es[..i]) + es[i].Size() < TWO_64
  {
    assert es[..i + 1] == es[..i] + [es[i]];
    TotalConcat(es[..i], [es[i]]);
    assert [es[i]][1..] == [];
    TotalBound(es[..i + 1]);
  }
}
