/**
 The deadline queue: a binary heap over a vector, with a sequence number to break ties. Against it stands a
 reference queue, a list in pop order, that knows nothing of heaps or sequence numbers.
 */
module DeadlineQueues {
  import opened Bytes
  import opened Sequences
  import opened Wrappers

  datatype Entry<+T> = Entry(deadline: int, seqNo: Word, value: T) {
    /** This entry is popped before `other`. */
    predicate Before(other: Entry<T>) {
      if deadline != other.deadline then deadline < other.deadline else seqNo < other.seqNo
    }
  }

  // ---- The heap ----

  function Parent(k: nat): nat
    requires k > 0
  {
    (k - 1) / 2
  }

  predicate InOrder<T>(es: seq<Entry<T>>, k: nat)
    requires 0 < k < |es|
  {
    !es[k].Before(es[Parent(k)])
  }

  /** Element `k` does not come before its grandparent, if it has one. */
  predicate SkipOrder<T>(es: seq<Entry<T>>, k: nat)
    requires 0 < k < |es|
  {
    Parent(k) > 0 ==> !es[k].Before(es[Parent(Parent(k))])
  }

  predicate IsHeap<T>(es: seq<Entry<T>>) {
    forall k | 0 < k < |es| :: InOrder(es, k)
  }

  /** A heap but for the link between `i` and its parent. */
  predicate HeapAbove<T>(es: seq<Entry<T>>, i: nat) {
    && (forall k | 0 < k < |es| && k != i :: InOrder(es, k))
    && (forall k | 0 < k < |es| && Parent(k) == i :: SkipOrder(es, k))
  }

  /** A heap but for the links between `i` and its children. */
  predicate HeapBelow<T>(es: seq<Entry<T>>, i: nat) {
    && (forall k | 0 < k < |es| && Parent(k) != i :: InOrder(es, k))
    && (forall k | 0 < k < |es| && Parent(k) == i :: SkipOrder(es, k))
  }

  function Swap<T>(es: seq<T>, i: nat, j: nat): (r: seq<T>)
    requires i < |es| && j < |es|
    ensures |r| == |es|
  {
    es[i := es[j]][j := es[i]]
  }

  lemma SwapElements<T>(es: seq<T>, i: nat, j: nat)
    requires i < |es| && j < |es|
    ensures multiset(Swap(es, i, j)) == multiset(es)
  {
  }

  lemma SiftUpStep<T>(es: seq<Entry<T>>, i: nat)
    requires 0 < i < |es| && HeapAbove(es, i) && !InOrder(es, i)
    ensures HeapAbove(Swap(es, i, Parent(i)), Parent(i))
  {
    var p := Parent(i);
    var r := Swap(es, i, p);
    forall k | 0 < k < |r| && k != p ensures InOrder(r, k) {
      if k != i {
        assert InOrder(es, k);
        if Parent(k) == i {
          assert SkipOrder(es, k);
        }
      }
    }
    forall k | 0 < k < |r| && Parent(k) == p ensures SkipOrder(r, k) {
      if p > 0 {
        assert InOrder(es, p);
        if k != i {
          assert InOrder(es, k);
        }
      }
    }
  }

  lemma SiftUpDone<T>(es: seq<Entry<T>>, i: nat)
    requires i < |es| && HeapAbove(es, i) && (i > 0 ==> InOrder(es, i))
    ensures IsHeap(es)
  {
  }

  /** The smaller child `c` of `i` moves up. */
  lemma SiftDownStep<T>(es: seq<Entry<T>>, i: nat, c: nat)
    requires 0 < c < |es| && Parent(c) == i && HeapBelow(es, i) && !InOrder(es, c)
    requires forall k | 0 < k < |es| && Parent(k) == i :: !es[k].Before(es[c])
    ensures HeapBelow(Swap(es, i, c), c)
  {
    var r := Swap(es, i, c);
    forall k | 0 < k < |r| && Parent(k) != c ensures InOrder(r, k) {
      if Parent(k) == i {
        assert !es[k].Before(es[c]);
      } else if k == i {
        assert SkipOrder(es, c);
      } else {
        assert InOrder(es, k);
      }
    }
    forall k | 0 < k < |r| && Parent(k) == c ensures SkipOrder(r, k) {
      assert InOrder(es, k);
    }
  }

  lemma SiftDownDone<T>(es: seq<Entry<T>>, i: nat)
    requires i < |es| && HeapBelow(es, i)
    requires forall k | 0 < k < |es| && Parent(k) == i :: InOrder(es, k)
    ensures IsHeap(es)
  {
  }

  /** Nothing in a heap comes before its root. */
  lemma {:induction false} RootFirst<T>(es: seq<Entry<T>>, k: nat)
    requires IsHeap(es) && k < |es|
    ensures !es[k].Before(es[0])
    decreases k
  {
    if k > 0 {
      RootFirst(es, Parent(k));
      assert InOrder(es, k);
    }
  }

  // ---- The reference queue: entries in pop order ----

  predicate PopOrder<T>(o: seq<Entry<T>>) {
    forall i, j | 0 <= i < j < |o| :: o[i].Before(o[j])
  }

  /** `e` after every entry that is due no later: equal deadlines keep their order of arrival. */
  function StableInsert<T>(o: seq<Entry<T>>, e: Entry<T>): (r: seq<Entry<T>>)
    ensures |r| == |o| + 1
  {
    if o == [] || e.deadline < o[0].deadline then [e] + o else [o[0]] + StableInsert(o[1..], e)
  }

  lemma {:induction false} StableInsertElements<T>(o: seq<Entry<T>>, e: Entry<T>)
    ensures multiset(StableInsert(o, e)) == multiset(o) + multiset{e}
    ensures forall x | x in StableInsert(o, e) :: x in o || x == e
  {
    if o != [] {
      assert o == [o[0]] + o[1..];
      if e.deadline >= o[0].deadline {
        StableInsertElements(o[1..], e);
      }
    }
  }

  /** A newcomer, with the highest sequence number so far, keeps the list in pop order. */
  lemma {:induction false} StableInsertOrder<T>(o: seq<Entry<T>>, e: Entry<T>)
    requires PopOrder(o) && forall x | x in o :: x.seqNo < e.seqNo
    ensures PopOrder(StableInsert(o, e))
  {
    if o != [] {
      if e.deadline < o[0].deadline {
        forall j | 0 <= j < |o| ensures e.Before(o[j]) {
          assert j > 0 ==> o[0].Before(o[j]);
        }
      } else {
        assert o[0] in o;
        StableInsertOrder(o[1..], e);
        StableInsertElements(o[1..], e);
        var r := StableInsert(o[1..], e);
        forall j | 0 <= j < |r| ensures o[0].Before(r[j]) {
          assert r[j] in r;
        }
      }
    }
  }

  /** The list `o` holds the entries of the heap in pop order, numbered below `pushes`. */
  ghost predicate Agrees<T>(es: seq<Entry<T>>, o: seq<Entry<T>>, pushes: nat) {
    multiset(es) == multiset(o) && PopOrder(o) && forall e | e in o :: e.seqNo < pushes
  }

  lemma AgreesAfterPush<T>(es: seq<Entry<T>>, o: seq<Entry<T>>, pushes: nat, e: Entry<T>, r: seq<Entry<T>>)
    requires Agrees(es, o, pushes) && e.seqNo == pushes && multiset(r) == multiset(es) + multiset{e}
    ensures Agrees(r, StableInsert(o, e), pushes + 1)
  {
    StableInsertElements(o, e);
    StableInsertOrder(o, e);
  }

  /** The root of the heap is the head of the list. */
  lemma RootIsHead<T>(es: seq<Entry<T>>, o: seq<Entry<T>>, pushes: nat)
    requires IsHeap(es) && es != [] && Agrees(es, o, pushes)
    ensures o != [] && o[0] == es[0]
  {
    assert es[0] in multiset(o);
    assert o[0] in multiset(es);
    var i :| 0 <= i < |o| && o[i] == es[0];
    var k :| 0 <= k < |es| && es[k] == o[0];
    RootFirst(es, k);
  }

  lemma AgreesAfterPop<T>(es: seq<Entry<T>>, o: seq<Entry<T>>, pushes: nat, r: seq<Entry<T>>)
    requires IsHeap(es) && es != [] && Agrees(es, o, pushes)
    requires multiset(r) == multiset(es) - multiset{es[0]}
    ensures o != [] && o == [es[0]] + o[1..] && Agrees(r, o[1..], pushes)
  {
    RootIsHead(es, o, pushes);
    assert o == [o[0]] + o[1..];
  }

  // ---- Counting what is due ----

  function Due<T>(es: seq<Entry<T>>, now: int): (n: nat)
    ensures n <= |es|
  {
    if es == [] then 0 else (if es[|es| - 1].deadline <= now then 1 else 0) + Due(es[..|es| - 1], now)
  }

  lemma {:induction false} DueConcat<T>(a: seq<Entry<T>>, b: seq<Entry<T>>, now: int)
    ensures Due(a + b, now) == Due(a, now) + Due(b, now)
  {
    if b == [] {
      assert a + b == a;
    } else {
      DueConcat(a, b[..|b| - 1], now);
      assert (a + b)[..|a + b| - 1] == a + b[..|b| - 1];
    }
  }

  lemma DueWithout<T>(es: seq<Entry<T>>, i: nat, now: int)
    requires i < |es|
    ensures Due(es, now) == Due(Without(es, i), now) + Due([es[i]], now)
  {
    assert es == es[..i] + [es[i]] + es[i + 1..];
    DueConcat(es[..i] + [es[i]], es[i + 1..], now);
    DueConcat(es[..i], [es[i]], now);
    DueConcat(es[..i], es[i + 1..], now);
  }

  /** The count does not depend on the order of the entries. */
  lemma {:induction false} DuePermuted<T>(a: seq<Entry<T>>, b: seq<Entry<T>>, now: int)
    requires multiset(a) == multiset(b)
    ensures Due(a, now) == Due(b, now)
    decreases |a|
  {
    hide Due, Without;
    assert |multiset(a)| == |a| && |multiset(b)| == |b|;
    if a == [] {
      assert b == [];
    } else {
      assert a[0] in multiset(b);
      var i :| 0 <= i < |b| && b[i] == a[0];
      DueWithout(a, 0, now);
      DueWithout(b, i, now);
      WithoutElements(a, 0);
      WithoutElements(b, i);
      DuePermuted(Without(a, 0), Without(b, i), now);
    }
  }

  /** In pop order the entries that are due come first. */
  lemma {:induction false} DueIsPrefix<T>(o: seq<Entry<T>>, now: int)
    requires PopOrder(o)
    ensures forall i | 0 <= i < |o| :: o[i].deadline <= now <==> i < Due(o, now)
  {
    if o != [] {
      var last := |o| - 1;
      DueIsPrefix(o[..last], now);
      forall i | 0 <= i < last ensures o[i].deadline <= o[last].deadline {
        assert o[i].Before(o[last]);
      }
      assert forall i | 0 <= i < last :: o[i] == o[..last][i];
    }
  }

  class DeadlineQueue<T> {
    var entries: seq<Entry<T>>
    var nextSeq: Word
    ghost var pushes: nat
    ghost var order: seq<Entry<T>>

    /** A heap; and until the 64-bit counter wraps, the heap of the reference list `order`. */
    ghost predicate Valid()
      reads this
    {
      && IsHeap(entries)
      && nextSeq == Wrap(pushes)
      && (pushes <= TWO_64 ==> Agrees(entries, order, pushes))
    }

    constructor ()
      ensures Valid() && entries == [] && order == [] && pushes == 0
    {
      entries := [];
      nextSeq := 0;
      pushes := 0;
      order := [];
    }

    method Push(deadline: int, value: T)
      requires Valid()
      modifies this
      ensures Valid() && pushes == old(pushes) + 1
      ensures multiset(entries) == multiset(old(entries)) + multiset{Entry(deadline, old(nextSeq), value)}
      ensures order == StableInsert(old(order), Entry(deadline, old(nextSeq), value))
    {
      hide Agrees, IsHeap, HeapAbove;
      var e := Entry(deadline, nextSeq, value);
      entries := entries + [e];
      nextSeq := Wrap(nextSeq + 1);
      AppendHeap(old(entries), e);
      SiftUp(|entries| - 1);
      if pushes < TWO_64 {
        AgreesAfterPush(old(entries), order, pushes, e, entries);
      }
      order := StableInsert(order, e);
      pushes := pushes + 1;
    }

    method SiftUp(start: nat)
      requires start < |entries| && HeapAbove(entries, start)
      modifies `entries
      ensures IsHeap(entries) && multiset(entries) == multiset(old(entries))
    {
      hide IsHeap, HeapAbove, Swap;
      var i := start;
      while i > 0
        invariant 0 <= i < |entries| && HeapAbove(entries, i)
        invariant multiset(entries) == multiset(old(entries))
      {
        var parent := (i - 1) / 2;
        if !entries[i].Before(entries[parent]) {
          break;
        }
        SiftUpStep(entries, i);
        SwapElements(entries, i, parent);
        entries := Swap(entries, i, parent);
        i := parent;
      }
      SiftUpDone(entries, i);
    }

    method SiftDown(start: nat)
      requires start < |entries| && HeapBelow(entries, start)
      modifies `entries
      ensures IsHeap(entries) && multiset(entries) == multiset(old(entries))
      ensures |entries| == |old(entries)|
    {
      hide IsHeap, HeapBelow, Swap;
      var i := start;
      var n := |entries|;
      while true
        invariant 0 <= i < n == |entries| && HeapBelow(entries, i)
        invariant multiset(entries) == multiset(old(entries))
        decreases n - i
      {
        var child := 2 * i + 1;
        if child >= n {
          NoChild(entries, i);
          return;
        }
        if child + 1 < n && entries[child + 1].Before(entries[child]) {
          child := child + 1;
        }
        SmallerChild(entries, i, child);
        if !entries[child].Before(entries[i]) {
          SiftDownDone(entries, i);
          return;
        }
        SiftDownStep(entries, i, child);
        SwapElements(entries, i, child);
        entries := Swap(entries, i, child);
        i := child;
      }
    }

    /** Moves the last entry to the root and sifts it down. */
    method RemoveRoot()
      requires IsHeap(entries) && entries != []
      modifies `entries
      ensures IsHeap(entries) && multiset(entries) == multiset(old(entries)) - multiset{old(entries)[0]}
    {
      hide IsHeap, HeapBelow;
      PoppedHeap(entries);
      if |entries| > 1 {
        entries := entries[0 := entries[|entries| - 1]];
      }
      entries := entries[..|entries| - 1];
      if entries != [] {
        SiftDown(0);
      } else {
        EmptyHeap(entries);
      }
    }

    /** Removes the root: nothing that was queued comes before it. */
    method Pop() returns (r: Option<T>)
      requires Valid()
      modifies this
      ensures Valid() && pushes == old(pushes)
      ensures old(entries) == [] ==> r == None && entries == [] && order == old(order)
      ensures old(entries) != [] ==>
                && r == Some(old(entries)[0].value)
                && (forall e | e in old(entries) :: !e.Before(old(entries)[0]))
                && multiset(entries) == multiset(old(entries)) - multiset{old(entries)[0]}
                && (pushes <= TWO_64 ==> old(order) == [old(entries)[0]] + order)
    {
      hide Agrees, IsHeap, Entry.Before;
      if entries == [] {
        return None;
      }
      var top := entries[0];
      NothingBefore(entries);
      RemoveRoot();
      if pushes <= TWO_64 {
        AgreesAfterPop(old(entries), order, pushes, entries);
        order := order[1..];
      }
      r := Some(top.value);
    }

    /** Pops only what is due at `now`: nothing is returned exactly when nothing queued is due. */
    method TryPop(now: int) returns (r: Option<T>)
      requires Valid()
      modifies this
      ensures Valid() && pushes == old(pushes)
      ensures r == None <==> forall e | e in old(entries) :: now < e.deadline
      ensures r == None ==> entries == old(entries) && order == old(order)
      ensures r != None ==>
                && old(entries) != []
                && r == Some(old(entries)[0].value)
                && (forall e | e in old(entries) :: !e.Before(old(entries)[0]))
                && multiset(entries) == multiset(old(entries)) - multiset{old(entries)[0]}
                && (pushes <= TWO_64 ==> old(order) == [old(entries)[0]] + order)
    {
      hide Agrees, IsHeap;
      if entries == [] {
        return None;
      }
      NothingBefore(entries);
      if entries[0].deadline > now {
        return None;
      }
      assert entries[0] in entries;
      r := Pop();
    }

    /** The least deadline queued. */
    method NextDeadline() returns (r: Option<int>)
      requires Valid()
      ensures r == None <==> entries == []
      ensures r.Some? ==> (exists e | e in entries :: e.deadline == r.value)
                          && forall e | e in entries :: r.value <= e.deadline
    {
      if entries == [] {
        return None;
      }
      NothingBefore(entries);
      assert entries[0] in entries;
      r := Some(entries[0].deadline);
    }

    /** How many of the queued entries are due: that long a prefix of the pop order, despite the heap order. */
    method ReadyCount(now: int) returns (n: nat)
      requires Valid()
      ensures n == Due(entries, now)
      ensures pushes <= TWO_64 ==>
                n <= |order| && forall i | 0 <= i < |order| :: order[i].deadline <= now <==> i < n
    {
      n := 0;
      for i := 0 to |entries|
        invariant n == Due(entries[..i], now)
      {
        assert entries[..i + 1][..i] == entries[..i];
        if entries[i].deadline <= now {
          n := n + 1;
        }
      }
      assert entries[..|entries|] == entries;
      if pushes <= TWO_64 {
        DuePermuted(entries, order, now);
        DueIsPrefix(order, now);
      }
    }

    method Clear()
      requires Valid()
      modifies this
      ensures Valid() && entries == [] && order == [] && pushes == old(pushes)
    {
      entries := [];
      order := [];
    }
  }

  lemma AppendHeap<T>(es: seq<Entry<T>>, e: Entry<T>)
    requires IsHeap(es)
    ensures HeapAbove(es + [e], |es|)
  {
    var r := es + [e];
    forall k | 0 < k < |r| && k != |es| ensures InOrder(r, k) {
      assert InOrder(es, k);
    }
  }

  lemma NothingBefore<T>(es: seq<Entry<T>>)
    requires IsHeap(es) && es != []
    ensures forall e | e in es :: !e.Before(es[0])
  {
    forall e | e in es ensures !e.Before(es[0]) {
      var k :| 0 <= k < |es| && es[k] == e;
      RootFirst(es, k);
    }
  }

  lemma EmptyHeap<T>(es: seq<Entry<T>>)
    requires es == []
    ensures IsHeap(es)
  {
  }

  lemma NoChild<T>(es: seq<Entry<T>>, i: nat)
    requires HeapBelow(es, i) && i < |es| <= 2 * i + 1
    ensures IsHeap(es)
  {
  }

  lemma SmallerChild<T>(es: seq<Entry<T>>, i: nat, c: nat)
    requires c < |es| && (c == 2 * i + 1 || c == 2 * i + 2)
    requires c == 2 * i + 1 ==> c + 1 < |es| ==> !es[c + 1].Before(es[c])
    requires c == 2 * i + 2 ==> es[c].Before(es[c - 1])
    ensures Parent(c) == i
    ensures forall k | 0 < k < |es| && Parent(k) == i :: !es[k].Before(es[c])
  {
  }

  /** The elements of a heap with the last one moved to the root. */
  function LastToRoot<T>(es: seq<Entry<T>>): (r: seq<Entry<T>>)
    requires es != []
    ensures |r| == |es| - 1
  {
    (if |es| > 1 then es[0 := es[|es| - 1]] else es)[..|es| - 1]
  }

  lemma LastToRootElements<T>(es: seq<Entry<T>>)
    requires es != []
    ensures multiset(LastToRoot(es)) == multiset(es) - multiset{es[0]}
  {
    var last := |es| - 1;
    if last > 0 {
      assert es == [es[0]] + es[1..last] + [es[last]];
      assert LastToRoot(es) == [es[last]] + es[1..last];
    } else {
      assert es == [es[0]];
    }
  }

  /** Only the root can be out of place then. */
  lemma PoppedHeap<T>(es: seq<Entry<T>>)
    requires IsHeap(es) && es != []
    ensures HeapBelow(LastToRoot(es), 0) && multiset(LastToRoot(es)) == multiset(es) - multiset{es[0]}
  {
    hide Entry.Before;
    var r := LastToRoot(es);
    forall k | 0 < k < |r| && Parent(k) != 0 ensures InOrder(r, k) {
      assert InOrder(es, k);
    }
    LastToRootElements(es);
  }

  // ---- Draining is a stable sort ----

  datatype Job<+T> = Job(deadline: int, value: T)

  /** The jobs numbered by arrival. */
  function Numbered<T>(jobs: seq<Job<T>>): (es: seq<Entry<T>>)
    requires |jobs| <= TWO_64
    ensures |es| == |jobs|
  {
    seq(|jobs|, i requires 0 <= i < |jobs| => Entry(jobs[i].deadline, i, jobs[i].value))
  }

  /** The reference queue after pushing `jobs`. */
  function Queued<T>(jobs: seq<Job<T>>): (o: seq<Entry<T>>)
    requires |jobs| <= TWO_64
    ensures |o| == |jobs|
  {
    if jobs == [] then []
    else
      var last := |jobs| - 1;
      StableInsert(Queued(jobs[..last]), Entry(jobs[last].deadline, last, jobs[last].value))
  }

  lemma NothingQueued<T>()
    ensures Queued<T>([]) == Numbered<T>([]) == [] && PopOrder<T>([])
  {
  }

  lemma NumberedNext<T>(jobs: seq<Job<T>>)
    requires 0 < |jobs| <= TWO_64
    ensures var last := |jobs| - 1;
            Numbered(jobs) == Numbered(jobs[..last]) + [Entry(jobs[last].deadline, last, jobs[last].value)]
  {
  }

  lemma QueuedNext<T>(jobs: seq<Job<T>>)
    requires 0 < |jobs| <= TWO_64
    ensures var last := |jobs| - 1;
            var e := Entry(jobs[last].deadline, last, jobs[last].value);
            Queued(jobs) == StableInsert(Queued(jobs[..last]), e) && Numbered(jobs) == Numbered(jobs[..last]) + [e]
  {
    hide StableInsert;
    NumberedNext(jobs);
  }

  /** A permutation of the jobs by deadline, jobs with one deadline in order of arrival. */
  lemma {:induction false} QueuedIsStableSort<T>(jobs: seq<Job<T>>)
    requires |jobs| <= TWO_64
    ensures multiset(Queued(jobs)) == multiset(Numbered(jobs))
    ensures PopOrder(Queued(jobs)) && forall e | e in Queued(jobs) :: e.seqNo < |jobs|
  {
    hide StableInsert, PopOrder, Queued, Numbered;
    if jobs == [] {
      NothingQueued<T>();
    } else {
      var last := |jobs| - 1;
      var before := jobs[..last];
      var e := Entry(jobs[last].deadline, last, jobs[last].value);
      QueuedNext(jobs);
      QueuedIsStableSort(before);
      StableInsertElements(Queued(before), e);
      StableInsertOrder(Queued(before), e);
    }
  }

  function Values<T>(es: seq<Entry<T>>): (vs: seq<T>)
    ensures |vs| == |es|
  {
    seq(|es|, i requires 0 <= i < |es| => es[i].value)
  }

  /** Pushing every job and popping until nothing comes sorts them stably. */
  method PushAllThenDrain<T>(jobs: seq<Job<T>>) returns (out: seq<T>)
    requires |jobs| <= TWO_64
    ensures |out| == |jobs| && out == Values(Queued(jobs))
  {
    hide DeadlineQueue.Valid, StableInsert;
    var q := new DeadlineQueue<T>();
    for i := 0 to |jobs|
      invariant fresh(q) && q.Valid() && q.pushes == i && q.order == Queued(jobs[..i])
    {
      assert jobs[..i + 1][..i] == jobs[..i];
      CountsPushes(q);
      q.Push(jobs[i].deadline, jobs[i].value);
    }
    assert jobs[..|jobs|] == jobs;
    ghost var all := q.order;
    out := [];
    var more := true;
    while more
      invariant fresh(q) && q.Valid() && q.pushes == |jobs|
      invariant |out| <= |all| && out == Values(all)[..|out|] && q.order == all[|out|..]
      invariant !more ==> |out| == |all|
      decreases more, |all| - |out|
    {
      EmptyTogether(q);
      var r := q.Pop();
      match r
      case None => more := false;
      case Some(v) => out := out + [v];
    }
  }

  lemma CountsPushes<T>(q: DeadlineQueue<T>)
    requires q.Valid()
    ensures q.pushes < TWO_64 ==> q.nextSeq == q.pushes
  {
  }

  lemma EmptyTogether<T>(q: DeadlineQueue<T>)
    requires q.Valid() && q.pushes <= TWO_64
    ensures q.entries == [] <==> q.order == []
  {
    assert |multiset(q.entries)| == |q.entries| && |multiset(q.order)| == |q.order|;
  }
}
