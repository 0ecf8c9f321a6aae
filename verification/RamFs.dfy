/**
 The RAM file system: nodes in a hash map, stamped with the tick of their last access, and a byte counter.
 Each method does to its files what the specification does to the list of them in order of last access.
 */
module RamFs {
  import opened Arithmetic
  import opened Bytes
  import opened RamFsSpec
  import opened Sequences

  /** A file's contents and access stamp. */
  class RamVNode {
    var data: seq<Byte>
    var lastAccess: nat

    constructor ()
      ensures data == [] && lastAccess == 0
    {
      data := [];
      lastAccess := 0;
    }

    /** The bytes from `offset`, at most `room` of them. */
    method Read(offset: Word, room: nat) returns (r: Outcome<seq<Byte>>)
      ensures offset > |data| <==> r == Err(InvalidArgument)
      ensures offset <= |data| ==> r == Ok(data[offset..Min(|data|, offset + room)])
    {
      if offset > |data| {
        return Err(InvalidArgument);
      }
      if offset == |data| || room == 0 {
        assert data[offset..offset] == [];
        return Ok([]);
      }
      var n := Min(room, |data| - offset);
      r := Ok(data[offset..offset + n]);
    }

    /** Writes `bytes` at `offset`, growing the file as far as they reach; no holes. */
    method Write(offset: Word, bytes: seq<Byte>) returns (r: Outcome<nat>)
      modifies `data
      ensures offset > |old(data)| ==> r == Err(InvalidArgument) && data == old(data)
      ensures offset <= |old(data)| ==> r == Ok(|bytes|) && data == Spliced(old(data), offset, bytes)
    {
      if offset > |data| {
        return Err(InvalidArgument);
      }
      if bytes == [] {
        assert data == Spliced(data, offset, bytes);
        return Ok(0);
      }
      var end := offset + |bytes|;
      if end > |data| {
        data := data + seq(end - |data|, _ => 0);
      }
      data := data[..offset] + bytes + data[end..];
      assert data == Spliced(old(data), offset, bytes);
      r := Ok(|bytes|);
    }

    method Truncate(size: Word)
      modifies `data
      ensures data == old(data)[..Min(size, |old(data)|)]
    {
      if size < |data| {
        data := data[..size];
      }
    }

    method Touch(now: nat)
      modifies `lastAccess
      ensures lastAccess == now
    {
      lastAccess := now;
    }
  }

  // ---- The nodes as values ----

  /** A node's contents and stamp. */
  datatype Stamped = Stamped(data: seq<Byte>, at: nat)

  ghost function Image(nodes: map<Path, RamVNode>): map<Path, Stamped>
    reads nodes.Values
  {
    map p | p in nodes :: Stamped(nodes[p].data, nodes[p].lastAccess)
  }

  lemma ImageAt(nodes: map<Path, RamVNode>, p: Path)
    ensures p in Image(nodes) <==> p in nodes
    ensures p in nodes ==> Image(nodes)[p] == Stamped(nodes[p].data, nodes[p].lastAccess)
  {
  }

  lemma ImageAdded(nodes: map<Path, RamVNode>, p: Path, node: RamVNode)
    ensures Image(nodes[p := node]) == Image(nodes)[p := Stamped(node.data, node.lastAccess)]
  {
  }

  /** No node is stored under two paths. */
  ghost predicate OnePathEach(nodes: map<Path, RamVNode>) {
    forall p, q | p in nodes && q in nodes && nodes[p] == nodes[q] :: p == q
  }

  predicate Listed(im: map<Path, Stamped>, f: File, tick: nat) {
    f.path in im && im[f.path].data == f.data && im[f.path].at < tick
  }

  predicate Older(im: map<Path, Stamped>, f: File, g: File)
    requires f.path in im && g.path in im
  {
    im[f.path].at < im[g.path].at
  }

  /** `files` lists the nodes in order of their stamps, all below `tick`. */
  ghost predicate Lists(im: map<Path, Stamped>, files: seq<File>, tick: nat) {
    && (forall i | 0 <= i < |files| :: Listed(im, files[i], tick))
    && (forall i, j | 0 <= i < j < |files| :: Older(im, files[i], files[j]))
    && (forall p | p in im :: Present(files, p))
  }

  lemma AbsentIsNotListed(im: map<Path, Stamped>, files: seq<File>, tick: nat, p: Path)
    requires Lists(im, files, tick)
    ensures Present(files, p) <==> p in im
  {
    assert Present(files, p) ==> Listed(im, files[IndexOf(files, p)], tick);
  }

  /** The files but one are as they were, and under other paths than that one. */
  lemma OthersListed(im: map<Path, Stamped>, files: seq<File>, tick: nat, i: nat, k: nat)
    requires Lists(im, files, tick) && i < |files| && k < |files| - 1
    ensures Without(files, i)[k] == files[if k < i then k else k + 1]
    ensures Listed(im - {files[i].path}, Without(files, i)[k], tick)
  {
    WithoutAt(files, i, k);
    var m := if k < i then k else k + 1;
    assert Listed(im, files[m], tick) && Listed(im, files[i], tick);
    assert if m < i then Older(im, files[m], files[i]) else Older(im, files[i], files[m]);
  }

  lemma OthersPresent(im: map<Path, Stamped>, files: seq<File>, tick: nat, i: nat, q: Path)
    requires Lists(im, files, tick) && i < |files| && q in im && q != files[i].path
    ensures Present(Without(files, i), q)
  {
    assert Present(files, q);
    var j := IndexOf(files, q);
    var k := if j < i then j else j - 1;
    WithoutAt(files, i, k);
    assert Without(files, i)[k].path == q;
  }

  lemma ListsRemoved(im: map<Path, Stamped>, files: seq<File>, tick: nat, i: nat)
    requires Lists(im, files, tick) && i < |files|
    ensures Lists(im - {files[i].path}, Without(files, i), tick)
  {
    hide Without, Present, Listed;
    var im', r := im - {files[i].path}, Without(files, i);
    forall k | 0 <= k < |r| ensures Listed(im', r[k], tick) {
      OthersListed(im, files, tick, i, k);
    }
    forall k, m | 0 <= k < m < |r| ensures r[k].path in im' && r[m].path in im' && Older(im', r[k], r[m]) {
      OthersListed(im, files, tick, i, k);
      OthersListed(im, files, tick, i, m);
      ListedIsIn(im', r[k], tick);
      ListedIsIn(im', r[m], tick);
      assert Older(im, files[if k < i then k else k + 1], files[if m < i then m else m + 1]);
    }
    forall q | q in im' ensures Present(r, q) {
      OthersPresent(im, files, tick, i, q);
    }
  }

  lemma ListedIsIn(im: map<Path, Stamped>, f: File, tick: nat)
    requires Listed(im, f, tick)
    ensures f.path in im
  {
  }

  /** A node stamped now ends the list. */
  lemma ListsAdded(im: map<Path, Stamped>, files: seq<File>, tick: nat, p: Path, data: seq<Byte>)
    requires Lists(im, files, tick) && p !in im
    ensures Lists(im[p := Stamped(data, tick)], files + [File(p, data)], tick + 1)
  {
    var im', r := im[p := Stamped(data, tick)], files + [File(p, data)];
    forall k | 0 <= k < |r| ensures Listed(im', r[k], tick + 1) {
      assert k < |files| ==> Listed(im, files[k], tick);
    }
    forall k, m | 0 <= k < m < |r| ensures Older(im', r[k], r[m]) {
      assert Listed(im, files[k], tick);
      assert m < |files| ==> Listed(im, files[m], tick) && Older(im, files[k], files[m]);
    }
    forall q | q in im' ensures Present(r, q) {
      assert q != p ==> Present(files, q);
      assert r[if q == p then |files| else IndexOf(files, q)].path == q;
    }
  }

  /** Node `p` stamped now, with contents `data`, goes to the end of the list. */
  lemma ListsTouched(im: map<Path, Stamped>, files: seq<File>, tick: nat, p: Path, data: seq<Byte>)
    requires Lists(im, files, tick) && p in im
    ensures var i := IndexOf(files, p);
            i < |files| && files[i] == File(p, im[p].data)
            && Lists(im[p := Stamped(data, tick)], ToBack(files, i, data), tick + 1)
  {
    assert Present(files, p);
    var i := IndexOf(files, p);
    assert Listed(im, files[i], tick);
    hide Lists, Without;
    ListsRemoved(im, files, tick, i);
    ListsAdded(im - {p}, Without(files, i), tick, p, data);
    assert im[p := Stamped(data, tick)] == (im - {p})[p := Stamped(data, tick)];
  }

  /** The node with the least stamp heads the list. */
  lemma ListsEvicted(im: map<Path, Stamped>, files: seq<File>, tick: nat, p: Path)
    requires Lists(im, files, tick) && p in im && forall q | q in im :: im[p].at <= im[q].at
    ensures files != [] && files[0] == File(p, im[p].data) && Lists(im - {p}, files[1..], tick)
  {
    assert Present(files, p);
    var i := IndexOf(files, p);
    assert Listed(im, files[i], tick) && Listed(im, files[0], tick);
    assert i > 0 ==> Older(im, files[0], files[i]);
    ListsRemoved(im, files, tick, 0);
    assert Without(files, 0) == files[1..];
  }

  lemma ListsNone(im: map<Path, Stamped>, files: seq<File>, tick: nat)
    requires Lists(im, files, tick)
    ensures im == map[] <==> files == []
  {
    assert files != [] ==> Listed(im, files[0], tick);
    assert forall p | p in im :: Present(files, p);
  }

  class RamFS {
    const byteCapacity: Word
    var nodes: map<Path, RamVNode>
    var bytesUsed: nat
    var tick: nat
    ghost var files: seq<File>

    ghost predicate Valid()
      reads this, nodes.Values
    {
      OnePathEach(nodes) && Lists(Image(nodes), files, tick)
    }

    /** The abstract state: files from the least to the most recently used, and the counter. */
    ghost function State(): Cache
      reads this
    {
      Cache(files, bytesUsed)
    }

    constructor (capacity: Word)
      ensures Valid() && byteCapacity == capacity && State() == EMPTY && nodes == map[]
    {
      byteCapacity := capacity;
      nodes := map[];
      bytesUsed := 0;
      tick := 1;
      files := [];
    }

    method Clear()
      requires Valid()
      modifies this
      ensures Valid() && State() == EMPTY && nodes == map[]
    {
      nodes := map[];
      bytesUsed := 0;
      files := [];
    }

    /** Stamps node `p` with the next tick. */
    method Touch(p: Path)
      requires Valid() && p in nodes
      modifies `tick, `files, nodes[p]
      ensures Valid()
      ensures Present(old(files), p)
              && files == ToBack(old(files), IndexOf(old(files), p), old(files)[IndexOf(old(files), p)].data)
    {
      hide Lists, IndexOf, ToBack, Present;
      SizeOfNode(p);
      ListsTouched(Image(nodes), files, tick, p, nodes[p].data);
      files := ToBack(files, IndexOf(files, p), nodes[p].data);
      nodes[p].Touch(tick);
      tick := tick + 1;
      assert Image(nodes) == old(Image(nodes))[p := Stamped(nodes[p].data, old(tick))];
    }

    method Lookup(p: Path) returns (node: RamVNode?)
      requires Valid()
      modifies this, nodes.Values
      ensures Valid() && nodes == old(nodes)
      ensures (State(), node != null) == RamFsSpec.Lookup(old(State()), p)
      ensures node != null ==> p in nodes && node == nodes[p]
    {
      hide Lists, IndexOf, ToBack, OnePathEach;
      AbsentIsNotListed(Image(nodes), files, tick, p);
      if p !in nodes {
        return null;
      }
      Touch(p);
      node := nodes[p];
    }

    /** Empties file `p` and stamps it, as opening with Truncate does. */
    method EmptyAndTouch(p: Path)
      requires Valid() && p in nodes
      modifies `tick, `files, nodes[p]
      ensures Valid()
      ensures Present(old(files), p) && files == ToBack(old(files), IndexOf(old(files), p), [])
    {
      hide Lists, IndexOf, ToBack, Present;
      SizeOfNode(p);
      ListsTouched(Image(nodes), files, tick, p, []);
      files := ToBack(files, IndexOf(files, p), []);
      nodes[p].Truncate(0);
      nodes[p].Touch(tick);
      assert nodes[p].data == [];
      tick := tick + 1;
      assert Image(nodes) == old(Image(nodes))[p := Stamped([], old(tick))];
    }

    method CreateNode(p: Path)
      requires Valid() && p !in nodes
      modifies `nodes, `tick, `files
      ensures Valid() && !Present(old(files), p) && files == old(files) + [File(p, [])]
      ensures fresh(nodes.Values - old(nodes).Values)
    {
      hide Lists, IndexOf, OnePathEach;
      ImageAt(nodes, p);
      ListsAdded(Image(nodes), files, tick, p, []);
      AbsentIsNotListed(Image(nodes), files, tick, p);
      files := files + [File(p, [])];
      var node := new RamVNode();
      node.Touch(tick);
      OneMorePath(nodes, p, node);
      ImageAdded(nodes, p, node);
      nodes := nodes[p := node];
      tick := tick + 1;
    }

    method Open(p: Path, flags: Flags) returns (r: Outcome<()>)
      requires Valid()
      modifies this, nodes.Values
      ensures Valid() && fresh(nodes.Values - old(nodes).Values)
      ensures (State(), r) == RamFsSpec.Open(old(State()), p, flags)
    {
      hide Lists, IndexOf, ToBack, OnePathEach;
      AbsentIsNotListed(Image(nodes), files, tick, p);
      if p in nodes {
        if flags.exclusive {
          return Err(InvalidArgument);
        }
        if flags.truncate {
          SizeOfNode(p);
          var before := |nodes[p].data|;
          EmptyAndTouch(p);
          bytesUsed := bytesUsed - Min(bytesUsed, before);
        } else {
          Touch(p);
        }
        return Ok(());
      }
      if !flags.create {
        return Err(NotFound);
      }
      CreateNode(p);
      r := Ok(());
    }

    lemma SizeOfNode(p: Path)
      requires Valid() && p in nodes
      ensures Present(files, p) && files[IndexOf(files, p)].data == nodes[p].data
    {
      ListsTouched(Image(nodes), files, tick, p, []);
    }

    /** Finds the node with the least stamp, whatever order the map is walked in, and erases it. */
    method EvictOldest() returns (freed: nat)
      requires Valid()
      modifies `nodes, `bytesUsed, `files
      ensures Valid() && (nodes == old(nodes) || exists p | p in old(nodes) :: nodes == old(nodes) - {p})
      ensures old(files) == [] <==> old(nodes) == map[]
      ensures old(files) == [] ==> State() == old(State()) && freed == 0
      ensures old(files) != [] ==> State() == Evict(old(State())) && freed == |old(files)[0].data|
      ensures old(files) != [] ==> |files| < |old(files)|
    {
      hide Lists, OnePathEach;
      ListsNone(Image(nodes), files, tick);
      if nodes == map[] {
        return 0;
      }
      var oldest := FindOldest();
      ListsEvicted(Image(nodes), files, tick, oldest);
      freed := |nodes[oldest].data|;
      FewerPaths(nodes, oldest);
      nodes := nodes - {oldest};
      assert Image(nodes) == old(Image(nodes)) - {oldest};
      files := files[1..];
      bytesUsed := bytesUsed - Min(bytesUsed, freed);
    }

    method FindOldest() returns (oldest: Path)
      requires nodes != map[]
      ensures oldest in nodes && forall q | q in nodes :: nodes[oldest].lastAccess <= nodes[q].lastAccess
    {
      var rest := nodes.Keys;
      oldest :| oldest in rest;
      while rest != {}
        invariant rest <= nodes.Keys && oldest in nodes
        invariant forall q | q in nodes.Keys - rest :: nodes[oldest].lastAccess <= nodes[q].lastAccess
        decreases |rest|
      {
        var it :| it in rest;
        if nodes[it].lastAccess < nodes[oldest].lastAccess {
          oldest := it;
        }
        rest := rest - {it};
      }
    }

    /** Evicts oldest files until `n` more bytes fit; false when none are left and they still do not. */
    method ReserveBytes(n: Word) returns (ok: bool)
      requires Valid()
      modifies `nodes, `bytesUsed, `files
      ensures Valid() && nodes.Values <= old(nodes).Values
      ensures forall p | p in nodes :: p in old(nodes) && nodes[p] == old(nodes)[p]
      ensures (State(), ok) == Reserve(old(State()), byteCapacity, n)
    {
      hide Lists, OnePathEach, Evict;
      if byteCapacity == 0 {
        return true;
      }
      while Wrap(bytesUsed + n) > byteCapacity
        invariant Valid()
        invariant forall p | p in nodes :: p in old(nodes) && nodes[p] == old(nodes)[p]
        invariant Reserve(old(State()), byteCapacity, n) == Reserve(State(), byteCapacity, n)
        decreases |files|
      {
        ListsNone(Image(nodes), files, tick);
        if nodes == map[] {
          return false;
        }
        var freed := EvictOldest();
      }
      ok := true;
    }

    /** The node's write; a write that succeeds stamps the node. */
    method WriteAndTouch(p: Path, offset: Word, bytes: seq<Byte>) returns (w: Outcome<nat>)
      requires Valid() && p in nodes
      modifies `tick, `files, nodes[p]
      ensures Valid() && Present(old(files), p)
      ensures var i := IndexOf(old(files), p);
              var data := old(files)[i].data;
              if offset > |data| then w == Err(InvalidArgument) && files == old(files)
              else w == Ok(|bytes|) && files == ToBack(old(files), i, Spliced(data, offset, bytes))
    {
      hide Lists, IndexOf, ToBack, Spliced, Present;
      ghost var data := nodes[p].data;
      SizeOfNode(p);
      if offset <= |nodes[p].data| {
        ListsTouched(Image(nodes), files, tick, p, Spliced(data, offset, bytes));
      }
      w := nodes[p].Write(offset, bytes);
      if w.Err? {
        assert Image(nodes) == old(Image(nodes));
        return;
      }
      files := ToBack(files, IndexOf(files, p), nodes[p].data);
      nodes[p].Touch(tick);
      tick := tick + 1;
      assert Image(nodes) == old(Image(nodes))[p := Stamped(Spliced(data, offset, bytes), old(tick))];
    }

    /**
     Writes `bytes` to file `p`, charging its growth to the budget. The reservation must not evict `p` itself:
     the code goes on to use the node.
     */
    method WriteCharging(p: Path, offset: Word, bytes: seq<Byte>) returns (r: Outcome<nat>)
      requires Valid() && Survives(State(), byteCapacity, p, offset, |bytes|)
      modifies this, nodes.Values
      ensures Valid() && nodes.Values <= old(nodes).Values
      ensures (State(), r) == RamFsSpec.Write(old(State()), byteCapacity, p, offset, bytes)
    {
      hide Lists, IndexOf, ToBack, Spliced, OnePathEach, Reserve, Image, Present, RamFsSpec.Write;
      ghost var before := State();
      ImageAt(nodes, p);
      AbsentIsNotListed(Image(nodes), files, tick, p);
      WriteByCases(before, byteCapacity, p, offset, bytes);
      if p !in nodes {
        return Err(NotFound);
      }
      SizeOfNode(p);
      var beforeSize := |nodes[p].data|;
      var endOff := Wrap(offset + |bytes|);
      var delta := Max(beforeSize, endOff) - beforeSize;
      if delta > 0 {
        var ok := ReserveBytes(delta);
        if !ok {
          return Err(OutOfMemory);
        }
        ImageAt(nodes, p);
        AbsentIsNotListed(Image(nodes), files, tick, p);
      }
      r := WriteAndTouch(p, offset, bytes);
      if r.Err? {
        bytesUsed := bytesUsed - Min(bytesUsed, delta);
      } else {
        bytesUsed := bytesUsed + delta;
      }
    }
  }

  lemma OneMorePath(nodes: map<Path, RamVNode>, p: Path, node: RamVNode)
    requires OnePathEach(nodes) && node !in nodes.Values
    ensures OnePathEach(nodes[p := node])
  {
  }

  lemma FewerPaths(nodes: map<Path, RamVNode>, p: Path)
    requires OnePathEach(nodes)
    ensures OnePathEach(nodes - {p})
  {
  }
}
