/**
 What the RAM file system does to its files and its byte counter, with the files listed from the least to the
 most recently used. The list says nothing of access stamps or of the order of the hash map.
 */
module RamFsSpec {
  import opened Arithmetic
  import opened Bytes
  import opened Sequences
  import opened Wrappers

  type Path = string

  datatype ErrorKind = InvalidArgument | NotFound | OutOfMemory

  datatype Outcome<+T> = Ok(value: T) | Err(kind: ErrorKind)

  /** The open flags that the file system looks at. */
  datatype Flags = Flags(create: bool, truncate: bool, exclusive: bool)

  datatype File = File(path: Path, data: seq<Byte>)

  /** The files, oldest access first, and the counter `bytes_used_`. */
  datatype Cache = Cache(files: seq<File>, used: nat)

  // ---- Lists of files ----

  function Size(fs: seq<File>): nat {
    if fs == [] then 0 else |fs[0].data| + Size(fs[1..])
  }

  /** The position of `p`, or the length of the list. */
  function IndexOf(fs: seq<File>, p: Path): (i: nat)
    ensures i <= |fs|
    ensures i < |fs| ==> fs[i].path == p
    ensures forall j | 0 <= j < i :: fs[j].path != p
  {
    if fs == [] || fs[0].path == p then 0 else 1 + IndexOf(fs[1..], p)
  }

  predicate Present(fs: seq<File>, p: Path) {
    IndexOf(fs, p) < |fs|
  }

  predicate Distinct(fs: seq<File>) {
    forall i, j | 0 <= i < j < |fs| :: fs[i].path != fs[j].path
  }

  /** File `i` accessed now, with contents `data`. */
  function ToBack(fs: seq<File>, i: nat, data: seq<Byte>): seq<File>
    requires i < |fs|
  {
    Without(fs, i) + [File(fs[i].path, data)]
  }

  // ---- The operations ----

  function Lookup(c: Cache, p: Path): (Cache, bool) {
    var i := IndexOf(c.files, p);
    if i == |c.files| then (c, false) else (Cache(ToBack(c.files, i, c.files[i].data), c.used), true)
  }

  function Open(c: Cache, p: Path, flags: Flags): (Cache, Outcome<()>) {
    var i := IndexOf(c.files, p);
    if i < |c.files| then
      if flags.exclusive then (c, Err(InvalidArgument))
      else if flags.truncate then
        (Cache(ToBack(c.files, i, []), c.used - Min(c.used, |c.files[i].data|)), Ok(()))
      else (Cache(ToBack(c.files, i, c.files[i].data), c.used), Ok(()))
    else if !flags.create then (c, Err(NotFound))
    else (Cache(c.files + [File(p, [])], c.used), Ok(()))
  }

  /** Drops the least recently used file. */
  function Evict(c: Cache): Cache
    requires c.files != []
  {
    Cache(c.files[1..], c.used - Min(c.used, |c.files[0].data|))
  }

  /** Evicts until `n` more bytes fit; the sum is one of 64-bit words. */
  function Reserve(c: Cache, capacity: Word, n: Word): (Cache, bool)
    decreases |c.files|
  {
    if capacity == 0 || Wrap(c.used + n) <= capacity then (c, true)
    else if c.files == [] then (c, false)
    else Reserve(Evict(c), capacity, n)
  }

  /** By how much a write of `n` bytes at `offset` would grow a file of `size` bytes. */
  function Growth(size: nat, offset: Word, n: nat): nat {
    Max(size, Wrap(offset + n)) - size
  }

  /** `data` overwritten with `bytes` at `offset`, and extended if they reach past its end. */
  function Spliced(data: seq<Byte>, offset: nat, bytes: seq<Byte>): (r: seq<Byte>)
    requires offset <= |data|
    ensures |r| == Max(|data|, offset + |bytes|)
  {
    data[..offset] + bytes + (if offset + |bytes| <= |data| then data[offset + |bytes|..] else [])
  }

  /** Byte by byte: the written range holds the new bytes and the rest is as it was. */
  lemma SplicedAt(data: seq<Byte>, offset: nat, bytes: seq<Byte>, i: nat)
    requires offset <= |data| && i < Max(|data|, offset + |bytes|)
    ensures Spliced(data, offset, bytes)[i]
            == if offset <= i < offset + |bytes| then bytes[i - offset] else if i < |data| then data[i] else 0
  {
  }

  function MakeRoom(c: Cache, capacity: Word, growth: nat): (Cache, bool)
    requires growth < TWO_64
  {
    if growth == 0 then (c, true) else Reserve(c, capacity, growth)
  }

  /** The reservation for a write does not evict the file being written. */
  predicate Survives(c: Cache, capacity: Word, p: Path, offset: Word, n: nat) {
    Present(c.files, p) ==>
      var (room, ok) := MakeRoom(c, capacity, Growth(|c.files[IndexOf(c.files, p)].data|, offset, n));
      ok ==> Present(room.files, p)
  }

  function Write(c: Cache, capacity: Word, p: Path, offset: Word, bytes: seq<Byte>): (Cache, Outcome<nat>)
    requires Survives(c, capacity, p, offset, |bytes|)
  {
    var i := IndexOf(c.files, p);
    if i == |c.files| then (c, Err(NotFound))
    else
      var growth := Growth(|c.files[i].data|, offset, |bytes|);
      var (room, ok) := MakeRoom(c, capacity, growth);
      if !ok then (room, Err(OutOfMemory))
      else
        var k := IndexOf(room.files, p);
        var data := room.files[k].data;
        if offset > |data| then (Cache(room.files, room.used - Min(room.used, growth)), Err(InvalidArgument))
        else (Cache(ToBack(room.files, k, Spliced(data, offset, bytes)), room.used + growth), Ok(|bytes|))
  }

  /** The cases of a write, in terms of what its reservation came to. */
  lemma WriteByCases(c: Cache, capacity: Word, p: Path, offset: Word, bytes: seq<Byte>)
    requires Survives(c, capacity, p, offset, |bytes|)
    ensures !Present(c.files, p) ==> Write(c, capacity, p, offset, bytes) == (c, Err(NotFound))
    ensures Present(c.files, p) ==>
              var growth := Growth(|c.files[IndexOf(c.files, p)].data|, offset, |bytes|);
              var (room, ok) := MakeRoom(c, capacity, growth);
              (!ok ==> Write(c, capacity, p, offset, bytes) == (room, Err(OutOfMemory)))
              && (ok ==>
                    var k := IndexOf(room.files, p);
                    Present(room.files, p)
                    && var data := room.files[k].data;
                       Write(c, capacity, p, offset, bytes)
                       == if offset > |data|
                          then (Cache(room.files, room.used - Min(room.used, growth)), Err(InvalidArgument))
                          else (Cache(ToBack(room.files, k, Spliced(data, offset, bytes)), room.used + growth),
                                Ok(|bytes|)))
  {
    hide IndexOf, MakeRoom, ToBack, Spliced;
  }

  const EMPTY: Cache := Cache([], 0)

  // ---- The invariant ----

  /** The counter is the total size of the files. */
  predicate Accounted(c: Cache) {
    c.used == Size(c.files)
  }

  predicate Good(c: Cache, capacity: Word) {
    Distinct(c.files) && Accounted(c) && (capacity != 0 ==> c.used <= capacity)
  }

  lemma {:induction false} SizeConcat(a: seq<File>, b: seq<File>)
    ensures Size(a + b) == Size(a) + Size(b)
  {
    if a == [] {
      assert a + b == b;
    } else {
      SizeConcat(a[1..], b);
      assert (a + b)[1..] == a[1..] + b;
    }
  }

  lemma SizeWithout(fs: seq<File>, i: nat)
    requires i < |fs|
    ensures Size(fs) == Size(Without(fs, i)) + |fs[i].data|
  {
    assert fs == fs[..i] + [fs[i]] + fs[i + 1..];
    SizeConcat(fs[..i] + [fs[i]], fs[i + 1..]);
    SizeConcat(fs[..i], [fs[i]]);
    SizeConcat(fs[..i], fs[i + 1..]);
    assert [fs[i]][1..] == [];
  }

  lemma SizeToBack(fs: seq<File>, i: nat, data: seq<Byte>)
    requires i < |fs|
    ensures Size(ToBack(fs, i, data)) == Size(fs) - |fs[i].data| + |data|
  {
    SizeWithout(fs, i);
    var f := File(fs[i].path, data);
    SizeConcat(Without(fs, i), [f]);
    assert [f][1..] == [];
  }

  lemma DistinctToBack(fs: seq<File>, i: nat, data: seq<Byte>)
    requires i < |fs| && Distinct(fs)
    ensures Distinct(ToBack(fs, i, data))
  {
    var r := ToBack(fs, i, data);
    forall k | 0 <= k < |r| ensures r[k].path == fs[if k < i then k else if k < |r| - 1 then k + 1 else i].path {
    }
  }

  // ---- Eviction ----

  /** How many files the reservation drops. */
  function Victims(fs: seq<File>, capacity: Word, n: nat): (k: nat)
    ensures k <= |fs|
  {
    if fs == [] || Size(fs) + n <= capacity then 0 else 1 + Victims(fs[1..], capacity, n)
  }

  /** They are the shortest prefix, in order of last access, whose loss makes the request fit. */
  lemma {:induction false} VictimsShortest(fs: seq<File>, capacity: Word, n: nat, j: nat)
    requires j <= |fs|
    ensures j < Victims(fs, capacity, n) ==> Size(fs[j..]) + n > capacity
    ensures n <= capacity ==> Size(fs[Victims(fs, capacity, n)..]) + n <= capacity
    ensures n > capacity ==> Victims(fs, capacity, n) == |fs|
  {
    if fs != [] && Size(fs) + n > capacity {
      VictimsShortest(fs[1..], capacity, n, if j > 0 then j - 1 else 0);
      assert j > 0 ==> fs[j..] == fs[1..][j - 1..];
      var k := Victims(fs[1..], capacity, n);
      assert fs[1 + k..] == fs[1..][k..];
    }
  }

  /** A reservation that drops nothing: the request fits, or there is nothing left to drop. */
  lemma ReserveStops(c: Cache, capacity: Word, n: Word)
    requires Accounted(c) && capacity != 0 && c.used + n < TWO_64
    requires c.used + n <= capacity || c.files == []
    ensures Victims(c.files, capacity, n) == 0 && c.files[0..] == c.files && c == Cache(c.files, Size(c.files))
    ensures Reserve(c, capacity, n) == (c, n <= capacity)
  {
  }

  /** One turn of the eviction loop takes one victim and keeps the counter right. */
  lemma ReserveEvicts(c: Cache, capacity: Word, n: Word)
    requires Accounted(c) && capacity != 0 && c.used + n < TWO_64
    requires c.used + n > capacity && c.files != []
    ensures Accounted(Evict(c)) && Evict(c).files == c.files[1..] && Evict(c).used <= c.used
    ensures Reserve(c, capacity, n) == Reserve(Evict(c), capacity, n)
    ensures Victims(c.files, capacity, n) == 1 + Victims(c.files[1..], capacity, n)
  {
  }

  /** The reservation, when the counter is right: it drops the victims, and fails only if `n` alone is too much. */
  lemma {:induction false} ReserveIs(c: Cache, capacity: Word, n: Word)
    requires Accounted(c) && capacity != 0 && c.used + n < TWO_64
    ensures var rest := c.files[Victims(c.files, capacity, n)..];
            Reserve(c, capacity, n) == (Cache(rest, Size(rest)), n <= capacity)
    decreases |c.files|
  {
    hide Accounted, Evict, Reserve, Victims, Size;
    if c.used + n <= capacity || c.files == [] {
      ReserveStops(c, capacity, n);
    } else {
      ReserveEvicts(c, capacity, n);
      ReserveIs(Evict(c), capacity, n);
      var k := Victims(c.files[1..], capacity, n);
      assert c.files[1 + k..] == c.files[1..][k..];
    }
  }

  /** The target survives exactly when it, what was used after it, and the request fit together, or nothing fits. */
  lemma SurvivesIff(c: Cache, capacity: Word, p: Path, offset: Word, n: nat)
    requires Good(c, capacity) && Present(c.files, p)
    requires c.used + Growth(|c.files[IndexOf(c.files, p)].data|, offset, n) < TWO_64
    ensures var i := IndexOf(c.files, p);
            var growth := Growth(|c.files[i].data|, offset, n);
            Survives(c, capacity, p, offset, n)
            <==> capacity == 0 || growth > capacity || Size(c.files[i..]) + growth <= capacity
  {
    hide Size, Victims;
    var i := IndexOf(c.files, p);
    var growth := Growth(|c.files[i].data|, offset, n);
    if growth == 0 {
      SizeSuffix(c.files, i);
    } else if capacity != 0 {
      var k := Victims(c.files, capacity, growth);
      ReserveIs(c, capacity, growth);
      VictimsShortest(c.files, capacity, growth, i);
      PresentAfter(c.files, p, k);
      if k <= i {
        assert c.files[i..] == c.files[k..][i - k..];
        SizeSuffix(c.files[k..], i - k);
      }
    }
  }

  lemma SizeSuffix(fs: seq<File>, i: nat)
    requires i <= |fs|
    ensures Size(fs[i..]) <= Size(fs)
  {
    assert fs == fs[..i] + fs[i..];
    SizeConcat(fs[..i], fs[i..]);
  }

  lemma PresentAfter(fs: seq<File>, p: Path, k: nat)
    requires Distinct(fs) && Present(fs, p) && k <= |fs|
    ensures Present(fs[k..], p) <==> k <= IndexOf(fs, p)
    ensures k <= IndexOf(fs, p) ==> IndexOf(fs[k..], p) == IndexOf(fs, p) - k
  {
    var i, j := IndexOf(fs, p), IndexOf(fs[k..], p);
    if k <= i {
      assert fs[k..][i - k] == fs[i];
    }
    if j < |fs[k..]| {
      assert fs[k..][j] == fs[j + k];
    }
  }

  // ---- What lookup and open change ----

  /** The contents of file `p`, if there is one. */
  function DataOf(fs: seq<File>, p: Path): Option<seq<Byte>> {
    if Present(fs, p) then Some(fs[IndexOf(fs, p)].data) else None
  }

  lemma {:induction false} IndexUnique(fs: seq<File>, p: Path, i: nat)
    requires i < |fs| && fs[i].path == p && Distinct(fs)
    ensures IndexOf(fs, p) == i
  {
  }

  /** Moving a file to the back changes its contents to those given and no other file's. */
  lemma DataToBack(fs: seq<File>, i: nat, data: seq<Byte>, q: Path)
    requires i < |fs| && Distinct(fs)
    ensures DataOf(ToBack(fs, i, data), q) == if q == fs[i].path then Some(data) else DataOf(fs, q)
  {
    var r := ToBack(fs, i, data);
    DistinctToBack(fs, i, data);
    if q == fs[i].path {
      IndexUnique(r, q, |r| - 1);
    } else if Present(fs, q) {
      var j := IndexOf(fs, q);
      assert r[if j < i then j else j - 1] == fs[j];
      IndexUnique(r, q, if j < i then j else j - 1);
    } else {
      forall k | 0 <= k < |r| ensures r[k].path != q {
        assert r[k].path == fs[if k < i then k else if k < |r| - 1 then k + 1 else i].path;
      }
    }
  }

  lemma DataAppended(fs: seq<File>, p: Path, q: Path)
    requires Distinct(fs) && !Present(fs, p)
    ensures DataOf(fs + [File(p, [])], q) == if q == p then Some([]) else DataOf(fs, q)
  {
    var r := fs + [File(p, [])];
    NewFile(fs, p);
    if q == p {
      IndexUnique(r, q, |fs|);
    } else if Present(fs, q) {
      IndexUnique(r, q, IndexOf(fs, q));
    }
  }

  predicate MostRecent(fs: seq<File>, p: Path) {
    fs != [] && fs[|fs| - 1].path == p
  }

  /** Looking a file up makes it the most recently used one and changes no contents. */
  lemma LookupEffect(c: Cache, p: Path, q: Path)
    requires Distinct(c.files)
    ensures var (d, found) := Lookup(c, p);
            d.used == c.used && DataOf(d.files, q) == DataOf(c.files, q)
            && (found <==> Present(c.files, p)) && (found ==> MostRecent(d.files, p))
  {
    var i := IndexOf(c.files, p);
    if i < |c.files| {
      DataToBack(c.files, i, c.files[i].data, q);
    }
  }

  /**
   Opening succeeds on an existing file unless asked to be exclusive, and on a missing one if asked to create.
   It makes the file the most recently used; a truncated or new file is empty, and all other contents stay.
   */
  lemma OpenEffect(c: Cache, p: Path, flags: Flags, q: Path)
    requires Distinct(c.files)
    ensures var (d, r) := Open(c, p, flags);
            var existed := Present(c.files, p);
            (r.Ok? <==> if existed then !flags.exclusive else flags.create)
            && (r.Ok? ==> MostRecent(d.files, p))
            && (r.Err? ==> d == c && r == Err(if existed then InvalidArgument else NotFound))
            && DataOf(d.files, q)
               == if r.Ok? && q == p && (flags.truncate || !existed) then Some([]) else DataOf(c.files, q)
  {
    hide Distinct, DataOf;
    var i := IndexOf(c.files, p);
    if i < |c.files| {
      DataToBack(c.files, i, c.files[i].data, q);
      DataToBack(c.files, i, [], q);
      DataIs(c.files, p);
    } else {
      DataAppended(c.files, p, q);
    }
  }

  lemma DataIs(fs: seq<File>, p: Path)
    requires Present(fs, p)
    ensures DataOf(fs, p) == Some(fs[IndexOf(fs, p)].data)
  {
  }

  // ---- Every operation keeps the invariant ----

  lemma LookupKeeps(c: Cache, capacity: Word, p: Path)
    requires Good(c, capacity)
    ensures Good(Lookup(c, p).0, capacity)
  {
    var i := IndexOf(c.files, p);
    if i < |c.files| {
      SizeToBack(c.files, i, c.files[i].data);
      DistinctToBack(c.files, i, c.files[i].data);
    }
  }

  lemma OpenKeeps(c: Cache, capacity: Word, p: Path, flags: Flags)
    requires Good(c, capacity)
    ensures Good(Open(c, p, flags).0, capacity)
  {
    hide Size, Distinct, ToBack;
    var i := IndexOf(c.files, p);
    if i < |c.files| {
      SizeToBack(c.files, i, c.files[i].data);
      DistinctToBack(c.files, i, c.files[i].data);
      SizeToBack(c.files, i, []);
      DistinctToBack(c.files, i, []);
    } else {
      NewFile(c.files, p);
    }
  }

  lemma NewFile(fs: seq<File>, p: Path)
    requires Distinct(fs) && !Present(fs, p)
    ensures Distinct(fs + [File(p, [])]) && Size(fs + [File(p, [])]) == Size(fs)
  {
    var f := File(p, []);
    SizeConcat(fs, [f]);
    assert [f][1..] == [];
  }

  lemma {:induction false} ReserveKeeps(c: Cache, capacity: Word, n: Word)
    requires Good(c, capacity)
    ensures Good(Reserve(c, capacity, n).0, capacity)
    decreases |c.files|
  {
    if !(capacity == 0 || Wrap(c.used + n) <= capacity || c.files == []) {
      ReserveKeeps(Evict(c), capacity, n);
    }
  }

  /** What is in memory, with the bytes to be written, stays below the size of the address space. */
  predicate InMemory(c: Cache, bytes: seq<Byte>) {
    c.used + |bytes| < TWO_64
  }

  lemma GrowthInside(size: nat, offset: Word, n: nat)
    requires offset <= size && offset + n < TWO_64
    ensures Growth(size, offset, n) <= n && Growth(size, offset, n) == Max(size, offset + n) - size
  {
  }

  /** The room left after a reservation holds the growth. */
  lemma RoomHolds(c: Cache, capacity: Word, growth: nat)
    requires Good(c, capacity) && c.used + growth < TWO_64
    ensures var (room, ok) := MakeRoom(c, capacity, growth);
            Good(room, capacity) && (ok && capacity != 0 ==> room.used + growth <= capacity)
  {
    hide Size, Distinct;
    if growth > 0 {
      ReserveKeeps(c, capacity, growth);
      if capacity != 0 {
        ReserveIs(c, capacity, growth);
        VictimsShortest(c.files, capacity, growth, 0);
      }
    }
  }

  /** How many files a write drops before it can take place. */
  function Dropped(fs: seq<File>, capacity: Word, growth: nat): (k: nat)
    ensures k <= |fs|
  {
    if capacity == 0 || growth == 0 then 0 else Victims(fs, capacity, growth)
  }

  lemma MakeRoomIs(c: Cache, capacity: Word, growth: nat)
    requires Good(c, capacity) && c.used + growth < TWO_64
    ensures var rest := c.files[Dropped(c.files, capacity, growth)..];
            MakeRoom(c, capacity, growth) == (Cache(rest, Size(rest)), capacity == 0 || growth <= capacity)
  {
    hide Size, Distinct, Victims;
    if growth > 0 && capacity != 0 {
      ReserveIs(c, capacity, growth);
    } else {
      assert c.files[0..] == c.files;
    }
  }

  lemma DropKeepsTarget(fs: seq<File>, p: Path, k: nat)
    requires Distinct(fs) && Present(fs, p) && k <= |fs| && Present(fs[k..], p)
    ensures k <= IndexOf(fs, p) && IndexOf(fs[k..], p) == IndexOf(fs, p) - k
    ensures fs[k..][IndexOf(fs[k..], p)] == fs[IndexOf(fs, p)]
  {
    PresentAfter(fs, p, k);
  }

  /** Inside the file or at its end, a write fails exactly when its growth exceeds the capacity, and drops all. */
  lemma WriteFailsIff(c: Cache, capacity: Word, p: Path, offset: Word, bytes: seq<Byte>)
    requires Good(c, capacity) && InMemory(c, bytes) && Present(c.files, p)
    requires offset <= |c.files[IndexOf(c.files, p)].data| && Survives(c, capacity, p, offset, |bytes|)
    ensures var growth := Growth(|c.files[IndexOf(c.files, p)].data|, offset, |bytes|);
            var (d, r) := Write(c, capacity, p, offset, bytes);
            (r.Err? <==> capacity != 0 && growth > capacity)
            && (r.Err? ==> d == EMPTY && r == Err(OutOfMemory))
  {
    hide Size, Distinct, Victims, Spliced, ToBack, MakeRoom, Reserve, IndexOf;
    var i := IndexOf(c.files, p);
    var growth := Growth(|c.files[i].data|, offset, |bytes|);
    SizeOfOne(c.files, i);
    GrowthInside(|c.files[i].data|, offset, |bytes|);
    MakeRoomIs(c, capacity, growth);
    var k := Dropped(c.files, capacity, growth);
    if capacity != 0 && growth > capacity {
      VictimsShortest(c.files, capacity, growth, 0);
      NoFiles(c.files[k..]);
    } else {
      DropKeepsTarget(c.files, p, k);
    }
  }

  /**
   When it succeeds, the shortest sufficient prefix of files is gone, the target is the most recently used file
   with the bytes in place, and every other file is as it was.
   */
  lemma WriteSucceeds(c: Cache, capacity: Word, p: Path, offset: Word, bytes: seq<Byte>)
    requires Good(c, capacity) && InMemory(c, bytes) && Present(c.files, p)
    requires offset <= |c.files[IndexOf(c.files, p)].data| && Survives(c, capacity, p, offset, |bytes|)
    requires capacity == 0 || Growth(|c.files[IndexOf(c.files, p)].data|, offset, |bytes|) <= capacity
    ensures var i := IndexOf(c.files, p);
            var data := c.files[i].data;
            var growth := Growth(|data|, offset, |bytes|);
            var k := Dropped(c.files, capacity, growth);
            k <= i
            && Write(c, capacity, p, offset, bytes)
               == (Cache(ToBack(c.files[k..], i - k, Spliced(data, offset, bytes)), Size(c.files[k..]) + growth),
                   Ok(|bytes|))
  {
    hide Size, Distinct, Dropped, Spliced, ToBack, MakeRoom, Reserve, IndexOf;
    var i := IndexOf(c.files, p);
    var growth := Growth(|c.files[i].data|, offset, |bytes|);
    SizeOfOne(c.files, i);
    GrowthInside(|c.files[i].data|, offset, |bytes|);
    MakeRoomIs(c, capacity, growth);
    DropKeepsTarget(c.files, p, Dropped(c.files, capacity, growth));
  }

  lemma NoFiles(fs: seq<File>)
    requires fs == []
    ensures Size(fs) == 0
  {
  }

  lemma {:induction false} SizeOfOne(fs: seq<File>, i: nat)
    requires i < |fs|
    ensures |fs[i].data| <= Size(fs)
  {
    SizeWithout(fs, i);
  }

  lemma WriteKeeps(c: Cache, capacity: Word, p: Path, offset: Word, bytes: seq<Byte>)
    requires Good(c, capacity) && InMemory(c, bytes) && Survives(c, capacity, p, offset, |bytes|)
    requires Present(c.files, p) ==> offset <= |c.files[IndexOf(c.files, p)].data|
    ensures Good(Write(c, capacity, p, offset, bytes).0, capacity)
  {
    hide Size, Distinct, Dropped, Spliced, ToBack, Survives, Growth, Write, InMemory;
    if Present(c.files, p) {
      var i := IndexOf(c.files, p);
      var growth := Growth(|c.files[i].data|, offset, |bytes|);
      if capacity != 0 && growth > capacity {
        WriteFailsIff(c, capacity, p, offset, bytes);
        EmptyIsGood(capacity);
      } else {
        WriteSucceeds(c, capacity, p, offset, bytes);
        WrittenIsGood(c, capacity, i, offset, bytes);
      }
    } else {
      NotFoundIsIdle(c, capacity, p, offset, bytes);
    }
  }

  lemma NotFoundIsIdle(c: Cache, capacity: Word, p: Path, offset: Word, bytes: seq<Byte>)
    requires !Present(c.files, p)
    ensures Survives(c, capacity, p, offset, |bytes|)
    ensures Write(c, capacity, p, offset, bytes) == (c, Err(NotFound))
  {
  }

  lemma EmptyIsGood(capacity: Word)
    ensures Good(EMPTY, capacity)
  {
  }

  lemma WrittenIsGood(c: Cache, capacity: Word, i: nat, offset: Word, bytes: seq<Byte>)
    requires Good(c, capacity) && InMemory(c, bytes) && i < |c.files| && offset <= |c.files[i].data|
    requires var growth := Growth(|c.files[i].data|, offset, |bytes|);
             (capacity == 0 || growth <= capacity) && Dropped(c.files, capacity, growth) <= i
    ensures var data := c.files[i].data;
            var growth := Growth(|data|, offset, |bytes|);
            var k := Dropped(c.files, capacity, growth);
            Good(Cache(ToBack(c.files[k..], i - k, Spliced(data, offset, bytes)), Size(c.files[k..]) + growth),
                 capacity)
  {
    hide Size, Distinct, Dropped, Spliced, ToBack, Growth, MakeRoom;
    var data := c.files[i].data;
    var growth := Growth(|data|, offset, |bytes|);
    var k := Dropped(c.files, capacity, growth);
    SizeOfOne(c.files, i);
    GrowthInside(|data|, offset, |bytes|);
    RoomHolds(c, capacity, growth);
    MakeRoomIs(c, capacity, growth);
    assert c.files[k..][i - k] == c.files[i];
    SizeToBack(c.files[k..], i - k, Spliced(data, offset, bytes));
    DistinctToBack(c.files[k..], i - k, Spliced(data, offset, bytes));
    SplicedLength(data, offset, bytes);
  }

  lemma SplicedLength(data: seq<Byte>, offset: nat, bytes: seq<Byte>)
    requires offset <= |data|
    ensures |Spliced(data, offset, bytes)| == Max(|data|, offset + |bytes|)
  {
  }

  /** A reservation of `growth` succeeds: there is no limit, it fits an empty cache, or the 64-bit sum wraps. */
  predicate CanReserve(c: Cache, capacity: Word, growth: nat) {
    capacity == 0 || growth <= capacity || c.used + growth >= TWO_64
  }

  /** The files that it leaves: all if nothing was compared with the limit, else those after the victims. */
  function Kept(c: Cache, capacity: Word, growth: nat): seq<File> {
    if capacity == 0 || c.used + growth >= TWO_64 then c.files
    else c.files[Victims(c.files, capacity, growth)..]
  }

  lemma ReserveLeaves(c: Cache, capacity: Word, growth: Word)
    requires Good(c, capacity) && growth > 0
    ensures var kept := Kept(c, capacity, growth);
            MakeRoom(c, capacity, growth) == (Cache(kept, Size(kept)), CanReserve(c, capacity, growth))
  {
    hide Size, Distinct, Victims;
    if capacity != 0 && c.used + growth < TWO_64 {
      ReserveIs(c, capacity, growth);
    } else if capacity != 0 {
      SumWraps(c.used, growth, capacity);
    }
  }

  lemma SumWraps(used: nat, growth: Word, capacity: Word)
    requires used <= capacity && used + growth >= TWO_64
    ensures Wrap(used + growth) <= capacity
  {
  }

  /** The target of a write that survived its reservation is still as it was. */
  lemma TargetKept(c: Cache, capacity: Word, p: Path, growth: Word)
    requires Good(c, capacity) && growth > 0 && Present(c.files, p) && Present(Kept(c, capacity, growth), p)
    ensures var kept := Kept(c, capacity, growth);
            kept[IndexOf(kept, p)] == c.files[IndexOf(c.files, p)]
  {
    hide Size, Victims, Distinct, IndexOf;
    if capacity != 0 && c.used + growth < TWO_64 {
      DropKeepsTarget(c.files, p, Victims(c.files, capacity, growth));
    }
  }

  /**
   A write past the end of the file fails after its growth was reserved but before it was charged, and takes
   it off the counter. The count stays right exactly when the growth is zero, cannot be reserved, or leaves only
   files without contents.
   */
  lemma PastEndAccountedIff(c: Cache, capacity: Word, p: Path, offset: Word, bytes: seq<Byte>)
    requires Good(c, capacity) && Present(c.files, p) && Survives(c, capacity, p, offset, |bytes|)
    requires offset > |c.files[IndexOf(c.files, p)].data|
    ensures var growth := Growth(|c.files[IndexOf(c.files, p)].data|, offset, |bytes|);
            Accounted(Write(c, capacity, p, offset, bytes).0)
            <==> growth == 0 || !CanReserve(c, capacity, growth) || Size(Kept(c, capacity, growth)) == 0
    ensures var growth := Growth(|c.files[IndexOf(c.files, p)].data|, offset, |bytes|);
            Write(c, capacity, p, offset, bytes).1
            == Err(if growth == 0 || CanReserve(c, capacity, growth) then InvalidArgument else OutOfMemory)
  {
    hide Size, Distinct, IndexOf, Reserve, Kept, CanReserve;
    var growth := Growth(|c.files[IndexOf(c.files, p)].data|, offset, |bytes|);
    if growth > 0 {
      ReserveLeaves(c, capacity, growth);
      if CanReserve(c, capacity, growth) {
        TargetKept(c, capacity, p, growth);
      }
    }
  }

  /** One such write, to a file of two bytes in a cache of ten, loses track of both bytes. */
  lemma PastEndLosesBytes()
    ensures var c := Cache([File("a", [1, 2])], 2);
            Good(c, 10) && Survives(c, 10, "a", 3, 1)
            && var (d, r) := Write(c, 10, "a", 3, [7]);
               r == Err(InvalidArgument) && d == Cache([File("a", [1, 2])], 0) && Size(d.files) == 2
  {
    var fs := [File("a", [1, 2])];
    assert fs[1..] == [];
    assert IndexOf(fs, "a") == 0;
    assert Growth(2, 3, 1) == 2;
  }

  /** Growing the oldest file of a full cache evicts that very file. */
  lemma OldestCannotGrow(c: Cache, capacity: Word, offset: Word, n: nat)
    requires Good(c, capacity) && c.files != [] && c.used == capacity
    requires var growth := Growth(|c.files[0].data|, offset, n);
             0 < growth <= capacity && c.used + growth < TWO_64
    ensures !Survives(c, capacity, c.files[0].path, offset, n)
  {
    hide Survives, Size;
    assert IndexOf(c.files, c.files[0].path) == 0 && c.files[0..] == c.files;
    SurvivesIff(c, capacity, c.files[0].path, offset, n);
  }

  // ---- Runs ----

  datatype Op =
    | DoLookup(path: Path)
    | DoOpen(path: Path, flags: Flags)
    | DoWrite(path: Path, offset: Word, bytes: seq<Byte>)
    | DoClear

  /** Writes start inside or at the end of their file, and do not evict it. */
  predicate Orderly(c: Cache, capacity: Word, op: Op) {
    op.DoWrite? ==>
      && InMemory(c, op.bytes)
      && Survives(c, capacity, op.path, op.offset, |op.bytes|)
      && (Present(c.files, op.path) ==> op.offset <= |c.files[IndexOf(c.files, op.path)].data|)
  }

  function Step(c: Cache, capacity: Word, op: Op): Cache
    requires Orderly(c, capacity, op)
  {
    match op
    case DoLookup(p) => Lookup(c, p).0
    case DoOpen(p, flags) => Open(c, p, flags).0
    case DoWrite(p, offset, bytes) => Write(c, capacity, p, offset, bytes).0
    case DoClear => EMPTY
  }

  /** The run `ops` from `c` goes through orderly operations only and ends in `d`. */
  ghost predicate Runs(c: Cache, capacity: Word, ops: seq<Op>, d: Cache)
    decreases |ops|
  {
    if ops == [] then d == c
    else Orderly(c, capacity, ops[0]) && Runs(Step(c, capacity, ops[0]), capacity, ops[1..], d)
  }

  /** Over every orderly run the counter is the sum of the file sizes and respects the capacity. */
  lemma {:induction false} RunsStayGood(c: Cache, capacity: Word, ops: seq<Op>, d: Cache)
    requires Good(c, capacity) && Runs(c, capacity, ops, d)
    ensures Good(d, capacity)
    decreases |ops|
  {
    hide Distinct, Size, Write, Open, Lookup, Survives;
    if ops != [] {
      StepKeeps(c, capacity, ops[0]);
      RunsStayGood(Step(c, capacity, ops[0]), capacity, ops[1..], d);
    }
  }

  lemma StepKeeps(c: Cache, capacity: Word, op: Op)
    requires Good(c, capacity) && Orderly(c, capacity, op)
    ensures Good(Step(c, capacity, op), capacity)
  {
    hide Write, Open, Lookup, Survives;
    match op
    case DoLookup(p) => LookupKeeps(c, capacity, p);
    case DoOpen(p, flags) => OpenKeeps(c, capacity, p, flags);
    case DoWrite(p, offset, bytes) => WriteKeeps(c, capacity, p, offset, bytes);
    case DoClear =>
  }
}
