/**
 CapabilitySpace: a radix-16 trie of depth 16 keyed by 64-bit handles, with
 empty nodes recycled at once. `nodes` names every node by the nibble path that
 leads to it, and `contents` is the finite map the trie stands for.
 */
module CapSpace {
  import opened Wrappers
  import opened Bytes
  import opened Capabilities

  const DEPTH: nat := 16
  const INVALID_HANDLE: Word := 0

  type Path = seq<nat>

  // ---- Nibble paths ----

  /** `h >> (4 * depth)`. */
  function Shift(h: nat, depth: nat): nat {
    if depth == 0 then h else Shift(h / 16, depth - 1)
  }

  /** Nibble `depth` of `h`; nibble 0 is the least significant. */
  function NibbleAt(h: nat, depth: nat): (n: nat)
    ensures n < 16
  {
    Shift(h, depth) % 16
  }

  function Nibbles(h: nat, n: nat): (p: Path)
    ensures |p| == n
  {
    if n == 0 then [] else [h % 16] + Nibbles(h / 16, n - 1)
  }

  function PathOf(h: Word): (p: Path)
    ensures |p| == DEPTH
  {
    Nibbles(h, DEPTH)
  }

  lemma {:induction false} NibblesAt(h: nat, n: nat, d: nat)
    requires d < n
    ensures Nibbles(h, n)[d] == NibbleAt(h, d)
  {
    if d > 0 {
      NibblesAt(h / 16, n - 1, d - 1);
    }
  }

  /** The first `depth` nibbles of the path of `h`. */
  function Prefix(h: Word, depth: nat): Path {
    if depth <= DEPTH then PathOf(h)[..depth] else PathOf(h)
  }

  lemma PrefixEnds(h: Word)
    ensures Prefix(h, 0) == [] && Prefix(h, DEPTH) == PathOf(h)
  {
  }

  lemma PrefixLength(h: Word, depth: nat)
    requires depth <= DEPTH
    ensures |Prefix(h, depth)| == depth
  {
  }

  function Value(p: Path): nat {
    if p == [] then 0 else p[0] + 16 * Value(p[1..])
  }

  function Power16(n: nat): nat {
    if n == 0 then 1 else 16 * Power16(n - 1)
  }

  lemma {:induction false} ValueOfNibbles(h: nat, n: nat)
    requires h < Power16(n)
    ensures Value(Nibbles(h, n)) == h
  {
    if n > 0 {
      ValueOfNibbles(h / 16, n - 1);
      assert Nibbles(h, n)[1..] == Nibbles(h / 16, n - 1);
    }
  }

  predicate IsPath(p: Path) {
    forall i | 0 <= i < |p| :: p[i] < 16
  }

  lemma {:induction false} NibblesOfValue(p: Path)
    requires IsPath(p)
    ensures Value(p) < Power16(|p|) && Nibbles(Value(p), |p|) == p
  {
    if p != [] {
      NibblesOfValue(p[1..]);
      var v := Value(p[1..]);
      assert Value(p) == p[0] + 16 * v && Value(p) / 16 == v && Value(p) % 16 == p[0];
      assert [p[0]] + p[1..] == p;
    }
  }

  lemma Power16Of16()
    ensures Power16(DEPTH) == TWO_64
  {
    assert Power16(4) == 0x1_0000;
    assert Power16(8) == 0x1_0000_0000;
    assert Power16(12) == 0x1_0000_0000_0000;
  }

  /** Distinct handles have distinct paths, and every 16-nibble path is some handle's. */
  lemma PathInjective(h: Word, g: Word)
    ensures PathOf(h) == PathOf(g) ==> h == g
  {
    Power16Of16();
    ValueOfNibbles(h, DEPTH);
    ValueOfNibbles(g, DEPTH);
  }

  lemma PathSurjective(p: Path) returns (h: Word)
    requires IsPath(p) && |p| == DEPTH
    ensures PathOf(h) == p
  {
    Power16Of16();
    NibblesOfValue(p);
    h := Value(p);
  }

  lemma PathIsPath(h: Word)
    ensures IsPath(PathOf(h))
  {
    forall i | 0 <= i < DEPTH ensures PathOf(h)[i] < 16 {
      NibblesAt(h, DEPTH, i);
    }
  }

  // ---- Handle allocation ----

  predicate Taken(used: set<Word>, h: Word) {
    h == INVALID_HANDLE || h in used
  }

  function Nth(next: Word, k: nat): Word {
    Wrap(next + k)
  }

  lemma NthZero(next: Word)
    ensures Nth(next, 0) == next
  {
  }

  lemma NthNext(next: Word, k: nat)
    ensures Wrap(Nth(next, k) + 1) == Nth(next, k + 1)
  {
  }

  /**
   What a search for a handle starting at counter value `next` finds: the first non-zero unbound value, or
   no handle after 2^64 - 1 candidates.
   */
  ghost predicate MintedAt(used: set<Word>, next: Word, k: nat, h: Word, next': Word) {
    (forall j | 0 <= j < k :: Taken(used, Nth(next, j)))
    && if k < TWO_64 - 1
       then h == Nth(next, k) && !Taken(used, h) && next' == Nth(next, k + 1)
       else k == TWO_64 - 1 && h == INVALID_HANDLE && next' == Nth(next, k)
  }

  ghost predicate Minted(used: set<Word>, next: Word, h: Word, next': Word) {
    exists k: nat :: MintedAt(used, next, k, h, next')
  }

  lemma MintedFresh(used: set<Word>, next: Word, h: Word, next': Word)
    requires Minted(used, next, h, next') && h != INVALID_HANDLE
    ensures h !in used
  {
  }

  /** The search has one possible result. */
  lemma MintedUnique(used: set<Word>, next: Word, h: Word, next': Word, g: Word, next'': Word)
    requires Minted(used, next, h, next') && Minted(used, next, g, next'')
    ensures h == g && next' == next''
  {
    var k: nat :| MintedAt(used, next, k, h, next');
    var l: nat :| MintedAt(used, next, l, g, next'');
    if k < l {
      assert Taken(used, Nth(next, k));
    } else if l < k {
      assert false;
    }
  }

  lemma {:induction false} CandidatesCount(used: set<Word>, next: Word, n: nat) returns (seen: set<Word>)
    requires n <= TWO_64
    requires forall j | 0 <= j < n :: Taken(used, Nth(next, j))
    ensures |seen| == n && seen <= used + {0}
    ensures forall w :: w in seen <==> exists j :: 0 <= j < n && w == Nth(next, j)
    decreases n
  {
    if n == 0 {
      seen := {};
    } else {
      var before := CandidatesCount(used, next, n - 1);
      var w := Nth(next, n - 1);
      assert w !in before;
      seen := before + {w};
    }
  }

  lemma SubsetCardinality<T>(a: set<T>, b: set<T>)
    requires a <= b
    ensures |a| <= |b|
  {
    assert b == a + (b - a);
  }

  /** A search that finds a handle leaves the counter just past it. */
  lemma MintedAdvances(used: set<Word>, next: Word, h: Word, next': Word)
    requires Minted(used, next, h, next') && h != INVALID_HANDLE
    ensures next' == Wrap(h + 1) && next' != next
  {
    var k: nat :| MintedAt(used, next, k, h, next');
    NthNext(next, k);
    assert next' == Wrap(next + (k + 1));
  }

  /** Some handle is free other than the one just behind the counter, which the search does not get to. */
  ghost predicate HasRoom(used: set<Word>, next: Word) {
    exists g: Word :: g != INVALID_HANDLE && g !in used && g != Wrap(next - 1)
  }

  lemma Candidate(next: Word, g: Word) returns (j: nat)
    ensures j < TWO_64 && Nth(next, j) == g && (g == Wrap(next - 1) <==> j == TWO_64 - 1)
  {
    j := Wrap(g - next);
  }

  lemma CandidateUnique(next: Word, j: nat, k: nat)
    requires j < TWO_64 && k < TWO_64 && Nth(next, j) == Nth(next, k)
    ensures j == k
  {
  }

  /** Allocation succeeds exactly when there is room. */
  lemma MintSucceedsIff(used: set<Word>, next: Word, h: Word, next': Word)
    requires Minted(used, next, h, next')
    ensures h != INVALID_HANDLE <==> HasRoom(used, next)
  {
    hide Nth;
    var k: nat :| MintedAt(used, next, k, h, next');
    if h != INVALID_HANDLE {
      var j := Candidate(next, h);
      CandidateUnique(next, j, k);
    } else {
      forall g: Word | g != INVALID_HANDLE && g !in used ensures g == Wrap(next - 1) {
        var j := Candidate(next, g);
        assert j < TWO_64 - 1 ==> Taken(used, Nth(next, j));
      }
    }
  }

  /** Allocation fails only if at least 2^64 - 2 handles are bound. */
  lemma MintFailsOnlyWhenFull(used: set<Word>, next: Word, next': Word)
    requires Minted(used, next, INVALID_HANDLE, next')
    ensures |used| >= TWO_64 - 2
  {
    var k: nat :| MintedAt(used, next, k, INVALID_HANDLE, next');
    var seen := CandidatesCount(used, next, TWO_64 - 1);
    SubsetCardinality(seen, used + {0});
  }

  // ---- Nodes ----

  class Node {
    var children: seq<Node?>
    var value: Capability
    var hasValue: bool

    // Where the node hangs in its trie.
    ghost const path: Path

    constructor (ghost p: Path)
      ensures path == p && |children| == 16 && (forall i | 0 <= i < 16 :: children[i] == null) && !hasValue
    {
      path := p;
      children := seq(16, _ => null);
      value := Capability(0, 0, 0, 0);
      hasValue := false;
    }

    method SetValue(c: Capability)
      modifies `value, `hasValue
      ensures value == c && hasValue
    {
      value := c;
      hasValue := true;
    }

    method TakeValue() returns (c: Capability)
      modifies `hasValue
      ensures c == value && !hasValue
    {
      hasValue := false;
      c := value;
    }

    /** Whether the node could be recycled. */
    method Empty() returns (empty: bool)
      ensures empty <==> !hasValue && forall i | 0 <= i < |children| :: children[i] == null
    {
      if hasValue {
        return false;
      }
      for i := 0 to |children|
        invariant forall j | 0 <= j < i :: children[j] == null
      {
        if children[i] != null {
          return false;
        }
      }
      return true;
    }
  }

  function Ext(p: Path, i: nat): Path {
    p + [i]
  }

  function Up(p: Path): Path
    requires p != []
  {
    p[..|p| - 1]
  }

  lemma TakenExtends(p: Path, depth: nat)
    requires depth < |p|
    ensures p[..depth + 1] == Ext(p[..depth], p[depth])
    ensures p[..depth + 1] != p[..depth] && Up(p[..depth + 1]) == p[..depth]
  {
  }

  /** The prefix one longer names a child: the one of the next nibble. */
  lemma PrefixExtends(h: Word, depth: nat)
    requires depth < DEPTH
    ensures Prefix(h, depth + 1) == Ext(Prefix(h, depth), NibbleAt(h, depth))
    ensures Prefix(h, depth + 1) != Prefix(h, depth) && Up(Prefix(h, depth + 1)) == Prefix(h, depth)
  {
    hide Nibbles, NibbleAt, Ext, Up;
    NibblesAt(h, DEPTH, depth);
    TakenExtends(PathOf(h), depth);
  }

  lemma ExtInjective(p: Path, i: nat, q: Path, j: nat)
    ensures Ext(p, i) == Ext(q, j) ==> p == q && i == j
  {
    assert Up(Ext(p, i)) == p && Up(Ext(q, j)) == q;
    assert Ext(p, i)[|p|] == i && Ext(q, j)[|q|] == j;
  }

  ghost function At(nodes: map<Path, Node>, p: Path): Node? {
    if p in nodes then nodes[p] else null
  }

  ghost function Without(nodes: map<Path, Node>, q: Path): map<Path, Node> {
    nodes - {q}
  }

  ghost predicate HasChild(keys: set<Path>, p: Path) {
    exists i :: 0 <= i < 16 && Ext(p, i) in keys
  }

  /** Every inner node but the root, and apart from `x`, has a child. */
  ghost predicate NoEmptyNode(keys: set<Path>, x: Option<Path>) {
    forall p | p in keys && 0 < |p| < DEPTH && Some(p) != x :: HasChild(keys, p)
  }

  /** `slots` holds what `nodes` names directly below `p`. */
  ghost predicate Slots(slots: seq<Node?>, nodes: map<Path, Node>, p: Path) {
    |slots| == 16 && forall i | 0 <= i < 16 :: slots[i] == At(nodes, Ext(p, i))
  }

  lemma SlotsAfterAdd(slots: seq<Node?>, nodes: map<Path, Node>, p: Path, idx: nat, c: Node, r: Path)
    requires Slots(slots, nodes, r) && idx < 16
    ensures Slots(if r == p then slots[idx := c] else slots, nodes[Ext(p, idx) := c], r)
  {
    forall i | 0 <= i < 16 ensures Ext(r, i) == Ext(p, idx) ==> r == p && i == idx {
      ExtInjective(r, i, p, idx);
    }
  }

  lemma SlotsAfterRemove(slots: seq<Node?>, nodes: map<Path, Node>, p: Path, idx: nat, r: Path)
    requires Slots(slots, nodes, r) && idx < 16
    ensures Slots(if r == p then slots[idx := null] else slots, Without(nodes, Ext(p, idx)), r)
  {
    forall i | 0 <= i < 16 ensures Ext(r, i) == Ext(p, idx) ==> r == p && i == idx {
      ExtInjective(r, i, p, idx);
    }
  }

  lemma SlotsEmpty(slots: seq<Node?>, nodes: map<Path, Node>, q: Path)
    requires |slots| == 16 && forall i | 0 <= i < 16 :: slots[i] == null
    requires forall i | 0 <= i < 16 :: Ext(q, i) !in nodes
    ensures Slots(slots, nodes, q)
  {
  }

  /** A prefix-closed set of nibble paths of at most full depth. */
  ghost predicate Tree(keys: set<Path>) {
    forall p | p in keys && p != [] :: |p| <= DEPTH && Up(p) in keys && p[|p| - 1] < 16
  }

  lemma FullPathExempt(keys: set<Path>, path: Path)
    requires |path| == DEPTH
    ensures NoEmptyNode(keys, Some(path)) <==> NoEmptyNode(keys, None)
  {
  }

  lemma OnlyRoot(keys: set<Path>)
    requires keys == {[]}
    ensures NoEmptyNode(keys, None)
  {
  }

  lemma RootExempt(keys: set<Path>)
    ensures NoEmptyNode(keys, Some([])) <==> NoEmptyNode(keys, None)
  {
  }

  lemma LeafChildless(keys: set<Path>, path: Path)
    requires Tree(keys) && |path| == DEPTH
    ensures !HasChild(keys, path)
  {
  }

  lemma OneRoot(n: Node)
    requires n.path == [] && |n.children| == 16 && forall i | 0 <= i < 16 :: n.children[i] == null
    ensures var nodes: map<Path, Node> := map[[] := n];
            nodes.Keys == {[]} && Tree(nodes.Keys) && Slots(n.children, nodes, []) && Below(nodes) == 0
  {
    var nodes: map<Path, Node> := map[[] := n];
    assert nodes.Keys == {[]};
    assert nodes.Keys - {[]} == {};
  }

  lemma {:induction false} RootBelowAll(keys: set<Path>, p: Path)
    requires Tree(keys) && p in keys
    ensures [] in keys
    decreases |p|
  {
    if p != [] {
      RootBelowAll(keys, Up(p));
    }
  }

  lemma NoRootNoNodes(nodes: map<Path, Node>)
    requires Tree(nodes.Keys) && At(nodes, []) == null
    ensures nodes == map[] && Below(nodes) == 0
  {
    forall p ensures p !in nodes {
      if p in nodes {
        RootBelowAll(nodes.Keys, p);
      }
    }
    assert nodes.Keys - {[]} == {};
  }

  /** Values sit exactly at the nodes of full depth, apart from a node `x` still to be filled. */
  ghost predicate ValuesAtDepth(nodes: map<Path, Node>, x: Option<Path>)
    reads nodes.Values`hasValue
  {
    forall p | p in nodes :: nodes[p].hasValue <==> |p| == DEPTH && Some(p) != x
  }

  /** Every handle, except `h` while it is unbound, is bound as `contents` says. */
  ghost predicate RepresentsBut(nodes: map<Path, Node>, contents: map<Word, Capability>, h: Word)
    reads nodes.Values`value
  {
    forall g: Word | g != h || h in contents ::
      (g in contents <==> PathOf(g) in nodes) && (g in contents ==> contents[g] == nodes[PathOf(g)].value)
  }

  /** The trie binds what `contents` binds. */
  ghost predicate Represents(nodes: map<Path, Node>, contents: map<Word, Capability>)
    reads nodes.Values`value
  {
    forall g: Word ::
      (g in contents <==> PathOf(g) in nodes) && (g in contents ==> contents[g] == nodes[PathOf(g)].value)
  }

  lemma LeafFilledBinds(nodes: map<Path, Node>, contents: map<Word, Capability>, h: Word, cap: Capability)
    requires h !in contents && PathOf(h) in nodes && nodes[PathOf(h)].value == cap
    requires forall g: Word | g != h ::
      (g in contents <==> PathOf(g) in nodes) && (g in contents ==> contents[g] == nodes[PathOf(g)].value)
    ensures Represents(nodes, contents[h := cap])
  {
  }

  lemma OthersStay(nodes: map<Path, Node>, contents: map<Word, Capability>, h: Word)
    requires Represents(nodes, contents)
    ensures RepresentsBut(nodes, contents - {h}, h)
    ensures h in contents ==> PathOf(h) in nodes && nodes[PathOf(h)].value == contents[h]
  {
  }

  lemma OneFewer(contents: map<Word, Capability>, h: Word)
    requires h in contents
    ensures |contents - {h}| == |contents| - 1
  {
    assert contents.Keys == (contents - {h}).Keys + {h};
  }

  /** An empty node added on the path of an unbound handle changes no binding. */
  lemma AddedOnPath(nodes: map<Path, Node>, contents: map<Word, Capability>, h: Word, depth: nat, c: Node)
    requires depth <= DEPTH && Prefix(h, depth) !in nodes && h !in contents && !c.hasValue
    requires ValuesAtDepth(nodes, Some(PathOf(h))) && RepresentsBut(nodes, contents, h)
    ensures ValuesAtDepth(nodes[Prefix(h, depth) := c], Some(PathOf(h)))
    ensures RepresentsBut(nodes[Prefix(h, depth) := c], contents, h)
  {
    hide PathOf;
    PrefixEnds(h);
    forall g: Word | g != h ensures PathOf(g) != Prefix(h, depth) {
      if PathOf(g) == Prefix(h, depth) { PrefixIsOwn(h, g, depth); }
    }
  }

  /** Nor does a node removed from it. */
  lemma RemovedFromPath(nodes: map<Path, Node>, contents: map<Word, Capability>, h: Word, depth: nat)
    requires depth <= DEPTH && h !in contents
    requires ValuesAtDepth(nodes, Some(PathOf(h))) && RepresentsBut(nodes, contents, h)
    ensures ValuesAtDepth(Without(nodes, Prefix(h, depth)), Some(PathOf(h)))
    ensures RepresentsBut(Without(nodes, Prefix(h, depth)), contents, h)
  {
    hide PathOf;
    forall g: Word | g != h ensures PathOf(g) != Prefix(h, depth) {
      if PathOf(g) == Prefix(h, depth) { PrefixIsOwn(h, g, depth); }
    }
  }

  /** One step of growing the path of `h`: only its end may lack children. */
  lemma NoEmptyAfterStep(keys: set<Path>, h: Word, depth: nat)
    requires depth < DEPTH && NoEmptyNode(keys, Some(Prefix(h, depth)))
    ensures NoEmptyNode(keys + {Prefix(h, depth + 1)}, Some(Prefix(h, depth + 1)))
  {
    hide Prefix, NibbleAt;
    var next, after := Prefix(h, depth + 1), keys + {Prefix(h, depth + 1)};
    PrefixExtends(h, depth);
    hide Ext, Up;
    forall p | p in after && 0 < |p| < DEPTH && p != next ensures HasChild(after, p) {
      if p != Prefix(h, depth) {
        var i :| 0 <= i < 16 && Ext(p, i) in keys;
        assert Ext(p, i) in after;
      } else {
        assert Ext(p, NibbleAt(h, depth)) in after;
      }
    }
  }

  /** One step of pruning it from its end: the child stays if it has children itself, or goes. */
  lemma NoEmptyAfterPrune(keys: set<Path>, h: Word, depth: nat)
    requires depth < DEPTH && NoEmptyNode(keys, Some(Prefix(h, depth + 1)))
    ensures HasChild(keys, Prefix(h, depth + 1)) ==> NoEmptyNode(keys, Some(Prefix(h, depth)))
    ensures NoEmptyNode(keys - {Prefix(h, depth + 1)}, Some(Prefix(h, depth)))
  {
    hide Prefix, NibbleAt;
    var after := keys - {Prefix(h, depth + 1)};
    PrefixExtends(h, depth);
    forall p | p in after && 0 < |p| < DEPTH && p != Prefix(h, depth) ensures HasChild(after, p) {
      var i :| 0 <= i < 16 && Ext(p, i) in keys;
      assert Up(Ext(p, i)) == p;
      assert Ext(p, i) in after;
    }
  }

  /** The only handle whose path is a prefix of the path of `h` is `h`. */
  lemma PrefixIsOwn(h: Word, g: Word, depth: nat)
    requires depth <= DEPTH && PathOf(g) == Prefix(h, depth)
    ensures g == h && depth == DEPTH
  {
    hide PathOf;
    PrefixEnds(h);
    PathInjective(g, h);
  }

  lemma KeysAfterAdd(nodes: map<Path, Node>, q: Path, c: Node)
    ensures nodes[q := c].Keys == nodes.Keys + {q}
  {
  }

  lemma PathGone(nodes: map<Path, Node>, h: Word, depth: nat)
    requires depth < DEPTH
    ensures Prefix(h, depth + 1) !in Without(nodes, Prefix(h, depth + 1))
    ensures PathOf(h) !in nodes ==> PathOf(h) !in Without(nodes, Prefix(h, depth + 1))
    ensures Prefix(h, depth) in nodes ==> Prefix(h, depth) in Without(nodes, Prefix(h, depth + 1))
  {
    PrefixExtends(h, depth);
  }

  lemma KeysAfterRemove(nodes: map<Path, Node>, q: Path)
    ensures Without(nodes, q).Keys == nodes.Keys - {q}
  {
  }

  /** The number of nodes below the root. */
  ghost function Below(nodes: map<Path, Node>): nat {
    |nodes.Keys - {[]}|
  }

  lemma EmptyTrie(nodes: map<Path, Node>, contents: map<Word, Capability>)
    requires nodes == map[] && contents == map[]
    ensures Tree(nodes.Keys) && NoEmptyNode(nodes.Keys, None) && ValuesAtDepth(nodes, None)
    ensures Represents(nodes, contents) && Below(nodes) == 0
  {
  }

  lemma AfterAdd(nodes: map<Path, Node>, p: Path, idx: nat, c: Node)
    requires Tree(nodes.Keys) && p in nodes && |p| < DEPTH && idx < 16 && Ext(p, idx) !in nodes
    ensures Tree(nodes[Ext(p, idx) := c].Keys)
    ensures Below(nodes[Ext(p, idx) := c]) == Below(nodes) + 1
    ensures forall i | 0 <= i < 16 :: Ext(Ext(p, idx), i) !in nodes[Ext(p, idx) := c]
  {
    var q := Ext(p, idx);
    KeysAfterAdd(nodes, q, c);
    assert Up(q) == p;
    assert nodes.Keys + {q} - {[]} == (nodes.Keys - {[]}) + {q};
    forall i | 0 <= i < 16 ensures Ext(q, i) !in nodes.Keys + {q} {
      assert Up(Ext(q, i)) == q;
    }
  }

  lemma AfterRemove(nodes: map<Path, Node>, q: Path)
    requires Tree(nodes.Keys) && q in nodes && q != [] && !HasChild(nodes.Keys, q)
    ensures Tree(Without(nodes, q).Keys)
    ensures Below(nodes) == Below(Without(nodes, q)) + 1
  {
    KeysAfterRemove(nodes, q);
    hide Without;
    assert nodes.Keys - {[]} == (nodes.Keys - {q} - {[]}) + {q};
    forall p | p in nodes.Keys - {q} && p != [] ensures Up(p) != q {
      assert Ext(Up(p), p[|p| - 1]) == p;
    }
  }

  class CapabilitySpace {
    var root: Node?
    var size: nat
    var nodeCount: nat
    var nextHandle: Word

    ghost var nodes: map<Path, Node>
    ghost var repr: set<Node>
    ghost var contents: map<Word, Capability>

    /** `nodes` names exactly the nodes reachable from the root, each by its path. */
    ghost predicate Linked()
      reads `root, `nodes, `repr, repr`children
    {
      && root == At(nodes, [])
      && Tree(nodes.Keys)
      && (forall p | p in nodes :: nodes[p] in repr && nodes[p].path == p && Slots(nodes[p].children, nodes, p))
    }

    ghost predicate Counted()
      reads `nodes, `contents, `size, `nodeCount
    {
      size == |contents| && nodeCount == 1 + Below(nodes)
    }

    ghost predicate Valid()
      reads `root, `nodes, `repr, `contents, `size, `nodeCount, repr
    {
      Linked() && ValuesAtDepth(nodes, None) && NoEmptyNode(nodes.Keys, None)
      && Represents(nodes, contents) && Counted() && INVALID_HANDLE !in contents
    }

    constructor ()
      ensures Valid() && contents == map[] && nextHandle == 1 && repr == {}
    {
      hide Tree, NoEmptyNode, ValuesAtDepth, Represents, Below;
      root, size, nodeCount, nextHandle := null, 0, 1, 1;
      nodes, repr, contents := map[], {}, map[];
      new;
      EmptyTrie(nodes, contents);
    }

    lemma ValidParts()
      requires Valid()
      ensures Linked() && Represents(nodes, contents)
    {
    }

    lemma InvalidUnbound()
      requires Valid()
      ensures INVALID_HANDLE !in contents
    {
    }

    lemma RootAt()
      requires Linked()
      ensures root == At(nodes, [])
    {
    }

    /** What the walk down the whole path of `h` finds. */
    lemma Leaf(h: Word)
      requires Valid()
      ensures h in contents <==> At(nodes, Prefix(h, DEPTH)) != null
      ensures h in contents ==> At(nodes, Prefix(h, DEPTH)).hasValue
                                && At(nodes, Prefix(h, DEPTH)).value == contents[h]
    {
      hide PathOf;
      PrefixEnds(h);
    }

    lemma {:induction false} PrefixClosed(p: Path, k: nat)
      requires Linked() && p in nodes && k <= |p|
      ensures p[..k] in nodes
      decreases |p|
    {
      if k < |p| {
        PrefixClosed(Up(p), k);
        assert Up(p)[..k] == p[..k];
      } else {
        assert p[..k] == p;
      }
    }

    /** One step down the path of `h`. */
    lemma Descend(h: Word, depth: nat)
      requires Linked() && depth < DEPTH && Prefix(h, depth) in nodes
      ensures var n := nodes[Prefix(h, depth)];
              |n.children| == 16 && n.children[NibbleAt(h, depth)] == At(nodes, Prefix(h, depth + 1))
    {
      PrefixExtends(h, depth);
    }

    lemma NibblesAtPath(h: Word, depth: nat)
      requires depth < DEPTH
      ensures PathOf(h)[depth] == NibbleAt(h, depth)
    {
      NibblesAt(h, DEPTH, depth);
    }

    lemma NoPath(h: Word, depth: nat)
      requires Linked() && Represents(nodes, contents) && depth <= DEPTH && Prefix(h, depth) !in nodes
      ensures h !in contents
    {
      if h in contents {
        PrefixClosed(PathOf(h), depth);
      }
    }

    method Lookup(h: Word) returns (cap: Option<Capability>)
      requires Valid()
      ensures cap == if h in contents then Some(contents[h]) else None
    {
      hide PathOf, NibbleAt, Valid, Linked, Represents;
      if h == INVALID_HANDLE {
        InvalidUnbound();
        return None;
      }
      ValidParts();
      RootAt();
      Leaf(h);
      var n := root;
      PrefixEnds(h);
      for depth := 0 to DEPTH
        invariant n == At(nodes, Prefix(h, depth))
      {
        if n == null {
          NoPath(h, depth);
          return None;
        }
        Descend(h, depth);
        n := n.children[NibbleAt(h, depth)];
      }
      if n == null {
        return None;
      }
      return Some(n.value);
    }

    method HandleInUse(h: Word) returns (used: bool)
      requires Valid()
      ensures used <==> h in contents
    {
      hide PathOf, NibbleAt, Valid, Linked, Represents;
      ValidParts();
      RootAt();
      Leaf(h);
      var n := root;
      PrefixEnds(h);
      for depth := 0 to DEPTH
        invariant n == At(nodes, Prefix(h, depth))
      {
        if n == null {
          NoPath(h, depth);
          return false;
        }
        Descend(h, depth);
        n := n.children[NibbleAt(h, depth)];
      }
      return n != null && n.hasValue;
    }

    method Contains(h: Word) returns (found: bool)
      requires Valid()
      ensures found <==> h in contents
    {
      found := HandleInUse(h);
    }

    method MintHandle() returns (h: Word)
      requires Valid()
      modifies this`nextHandle
      ensures Valid()
      ensures Minted(contents.Keys, old(nextHandle), h, nextHandle)
    {
      hide Valid, Nth;
      NthZero(nextHandle);
      var attempt := 0;
      while attempt < TWO_64 - 1
        invariant 0 <= attempt <= TWO_64 - 1
        invariant Valid() && nextHandle == Nth(old(nextHandle), attempt)
        invariant forall j | 0 <= j < attempt :: Taken(contents.Keys, Nth(old(nextHandle), j))
      {
        NthNext(old(nextHandle), attempt);
        h := nextHandle;
        nextHandle := Wrap(nextHandle + 1);
        if h != INVALID_HANDLE {
          var used := HandleInUse(h);
          if !used {
            assert MintedAt(contents.Keys, old(nextHandle), attempt, h, nextHandle);
            return;
          }
        }
        attempt := attempt + 1;
      }
      h := INVALID_HANDLE;
      assert MintedAt(contents.Keys, old(nextHandle), attempt, h, nextHandle);
    }

    // ---- Growing and pruning, one node at a time ----

    ghost predicate NodesCounted()
      reads `nodes, `nodeCount
    {
      nodeCount == 1 + Below(nodes)
    }

    lemma SlotCount(p: Path)
      requires Linked() && p in nodes
      ensures |nodes[p].children| == 16
    {
    }

    /** Hangs a fresh empty node below the node at `p`. */
    method AddChild(ghost p: Path, n: Node, idx: nat)
      requires Linked() && NodesCounted() && idx < 16 && |p| < DEPTH
      requires p in nodes && nodes[p] == n && Ext(p, idx) !in nodes
      modifies `nodes, `repr, `nodeCount, n`children
      ensures Linked() && NodesCounted()
      ensures Ext(p, idx) in nodes && fresh(nodes[Ext(p, idx)]) && !nodes[Ext(p, idx)].hasValue
      ensures repr == old(repr) + {nodes[Ext(p, idx)]}
      ensures nodes == old(nodes)[Ext(p, idx) := nodes[Ext(p, idx)]]
    {
      hide Slots, NoEmptyNode, Tree, Below;
      SlotCount(p);
      ghost var q, before := Ext(p, idx), nodes;
      assert q != [];
      hide Ext;
      assert forall r | r in before :: before[r] in repr && before[r].path == r && Slots(before[r].children, before, r);
      var c := new Node(q);
      AfterAdd(before, p, idx, c);
      n.children := n.children[idx := c];
      nodes := before[q := c];
      repr := repr + {c};
      nodeCount := nodeCount + 1;
      forall r | r in nodes ensures nodes[r] in repr && nodes[r].path == r && Slots(nodes[r].children, nodes, r) {
        if r == q {
          SlotsEmpty(c.children, nodes, q);
        } else {
          assert before[r] == n <==> r == p;
          SlotsAfterAdd(old(before[r].children), before, p, idx, c, r);
        }
      }
    }

    /** Recycles the childless node `Ext(p, idx)`. */
    method RemoveChild(ghost p: Path, n: Node, idx: nat)
      requires Linked() && NodesCounted() && idx < 16
      requires p in nodes && nodes[p] == n && Ext(p, idx) in nodes && !HasChild(nodes.Keys, Ext(p, idx))
      modifies `nodes, `nodeCount, n`children
      ensures Linked() && NodesCounted()
      ensures nodes == Without(old(nodes), Ext(p, idx))
    {
      hide Slots, NoEmptyNode, Tree, Below;
      SlotCount(p);
      ghost var q, before := Ext(p, idx), nodes;
      assert q != [];
      AfterRemove(before, q);
      hide Ext;
      assert forall r | r in before :: before[r] in repr && before[r].path == r && Slots(before[r].children, before, r);
      n.children := n.children[idx := null];
      nodes := Without(before, q);
      nodeCount := nodeCount - 1;
      forall r | r in nodes ensures nodes[r] in repr && nodes[r].path == r && Slots(nodes[r].children, nodes, r) {
        assert before[r] == n <==> r == p;
        SlotsAfterRemove(old(before[r].children), before, p, idx, r);
      }
    }

    // ---- insert ----

    /** What holds while the path of `h` is being grown or pruned, with `end` the end of that path. */
    ghost predicate InProgress(h: Word, end: Path)
      reads `root, `nodes, `contents, `size, `nodeCount, `repr, repr
    {
      Linked() && NodesCounted() && ValuesAtDepth(nodes, if h in contents then None else Some(PathOf(h)))
      && RepresentsBut(nodes, contents, h) && NoEmptyNode(nodes.Keys, Some(end)) && end in nodes
      && INVALID_HANDLE !in contents && size == |contents|
    }

    lemma AllBound(h: Word, end: Path)
      requires InProgress(h, end) && (end == [] || |end| == DEPTH)
      requires h in contents || PathOf(h) !in nodes
      ensures Valid()
    {
      hide PathOf, Tree, Slots, Below;
    }

    lemma NewPath(h: Word, depth: nat)
      requires depth < DEPTH && InProgress(h, Prefix(h, depth)) && Prefix(h, depth + 1) !in nodes
      ensures h !in contents && PathOf(h) !in nodes
      ensures Prefix(h, depth) in nodes && |Prefix(h, depth)| == depth
    {
      if PathOf(h) in nodes {
        PrefixClosed(PathOf(h), depth + 1);
      }
    }

    lemma StepThere(h: Word, depth: nat)
      requires depth < DEPTH && InProgress(h, Prefix(h, depth)) && Prefix(h, depth + 1) in nodes
      ensures InProgress(h, Prefix(h, depth + 1))
    {
      hide PathOf, Prefix, Linked, NoEmptyNode, ValuesAtDepth, RepresentsBut, NodesCounted;
      NoEmptyAfterStep(nodes.Keys, h, depth);
      assert nodes.Keys + {Prefix(h, depth + 1)} == nodes.Keys;
    }

    /** Creates the missing child of `n` on the path of `h`. */
    method AddOnPath(ghost h: Word, ghost depth: nat, n: Node, idx: nat)
      requires depth < DEPTH && InProgress(h, Prefix(h, depth)) && n == At(nodes, Prefix(h, depth))
      requires idx == NibbleAt(h, depth) && Prefix(h, depth + 1) !in nodes
      modifies `nodes, `repr, `nodeCount, n`children
      ensures InProgress(h, Prefix(h, depth + 1)) && fresh(repr - old(repr))
      ensures n == At(nodes, Prefix(h, depth))
    {
      hide PathOf, Prefix, NibbleAt, Linked, NoEmptyNode, ValuesAtDepth, RepresentsBut, NodesCounted;
      ghost var before := nodes;
      NewPath(h, depth);
      PrefixExtends(h, depth);
      hide Ext, Up;
      NoEmptyAfterStep(before.Keys, h, depth);
      AddChild(Prefix(h, depth), n, idx);
      ghost var c := nodes[Ext(Prefix(h, depth), idx)];
      KeysAfterAdd(before, Prefix(h, depth + 1), c);
      AddedOnPath(before, contents, h, depth + 1, c);
      assert InProgress(h, Prefix(h, depth + 1));
      hide InProgress;
    }

    /** The child of `n` on the path of `h`, created if it is missing. */
    method StepInto(h: Word, depth: nat, n: Node) returns (c: Node)
      requires depth < DEPTH && InProgress(h, Prefix(h, depth)) && n == At(nodes, Prefix(h, depth))
      modifies `nodes, `repr, `nodeCount, n`children
      ensures InProgress(h, Prefix(h, depth + 1)) && fresh(repr - old(repr))
      ensures c == At(nodes, Prefix(h, depth + 1)) && c in repr
    {
      hide PathOf, Prefix, NibbleAt, Linked, NoEmptyNode, ValuesAtDepth, RepresentsBut, NodesCounted;
      var idx := NibbleAt(h, depth);
      SlotOnPath(h, depth);
      if n.children[idx] == null {
        AddOnPath(h, depth, n, idx);
        SlotOnPath(h, depth);
      } else {
        StepThere(h, depth);
      }
      c := n.children[idx];
    }

    lemma SlotOnPath(h: Word, depth: nat)
      requires Linked() && depth < DEPTH && Prefix(h, depth) in nodes
      ensures var n := nodes[Prefix(h, depth)];
              |n.children| == 16 && n.children[NibbleAt(h, depth)] == At(nodes, Prefix(h, depth + 1))
      ensures forall p | p in nodes :: nodes[p] in repr
    {
      Descend(h, depth);
    }

    /** The root, allocated on first use. */
    method EnsureRoot(ghost h: Word) returns (n: Node)
      requires Valid()
      modifies `root, `nodes, `repr
      ensures InProgress(h, []) && n == At(nodes, []) && n in repr && fresh(repr - old(repr))
    {
      hide PathOf, Tree, Slots, Below, NoEmptyNode;
      if root == null {
        NoRootNoNodes(nodes);
        root := new Node([]);
        nodes := map[[] := root];
        repr := {root};
        OneRoot(root);
        forall g: Word ensures PathOf(g) !in nodes {
          assert |PathOf(g)| == DEPTH;
        }
        assert RepresentsBut(nodes, contents, h);
        assert ValuesAtDepth(nodes, Some(PathOf(h)));
        assert NoEmptyNode(nodes.Keys, None) by { OnlyRoot(nodes.Keys); }
      }
      RootExempt(nodes.Keys);
      assert Linked();
      assert NodesCounted();
      n := root;
    }

    /** Binds `h`, creating the missing nodes on its path; refuses an occupied handle. */
    method InsertAt(h: Word, cap: Capability) returns (ok: bool)
      requires Valid() && h != INVALID_HANDLE
      modifies `root, `nodes, `repr, `contents, `size, `nodeCount, repr
      ensures Valid() && fresh(repr - old(repr))
      ensures ok == (h !in old(contents))
      ensures contents == if ok then old(contents)[h := cap] else old(contents)
    {
      hide PathOf, Prefix, InProgress, Valid;
      PrefixEnds(h);
      var n := EnsureRoot(h);
      for depth := 0 to DEPTH
        invariant InProgress(h, Prefix(h, depth)) && n == At(nodes, Prefix(h, depth))
        invariant fresh(repr - old(repr)) && n in repr && contents == old(contents)
      {
        n := StepInto(h, depth, n);
      }
      LeafFilled(h);
      if n.hasValue {
        AllBound(h, PathOf(h));
        return false;
      }
      FillLeaf(h, n, cap);
      return true;
    }

    lemma LeafFilled(h: Word)
      requires InProgress(h, PathOf(h))
      ensures PathOf(h) in nodes && (nodes[PathOf(h)].hasValue <==> h in contents)
    {
      hide PathOf;
    }

    /** Fills the empty leaf at the end of the path of `h`. */
    method FillLeaf(h: Word, n: Node, cap: Capability)
      requires InProgress(h, PathOf(h)) && n == At(nodes, PathOf(h))
      requires h !in contents && h != INVALID_HANDLE
      modifies n`value, n`hasValue, `size, `contents
      ensures Valid() && contents == old(contents)[h := cap]
    {
      hide PathOf, Tree, Slots, Below, NoEmptyNode;
      LeafIsOwn(h);
      FullPathExempt(nodes.Keys, PathOf(h));
      hide Linked;
      n.SetValue(cap);
      size := size + 1;
      contents := contents[h := cap];
      LeafFilledBinds(nodes, old(contents), h, cap);
      assert Valid();
      hide Valid;
    }

    /** No other handle shares the leaf of `h`. */
    lemma LeafIsOwn(h: Word)
      requires Linked() && PathOf(h) in nodes
      ensures forall p | p in nodes && nodes[p] == nodes[PathOf(h)] :: p == PathOf(h)
      ensures forall g: Word | g != h :: PathOf(g) != PathOf(h)
    {
      forall g: Word | g != h ensures PathOf(g) != PathOf(h) {
        PathInjective(g, h);
      }
    }

    /** Allocates a fresh handle for `cap`; the handle is 0 if there is none left. */
    method Insert(cap: Capability) returns (h: Word)
      requires Valid()
      modifies `root, `nodes, `repr, `contents, `size, `nodeCount, `nextHandle, repr
      ensures Valid() && fresh(repr - old(repr))
      ensures Minted(old(contents).Keys, old(nextHandle), h, nextHandle)
      ensures contents == if h != INVALID_HANDLE then old(contents)[h := cap] else old(contents)
    {
      hide Valid;
      h := MintHandle();
      if h == INVALID_HANDLE {
        return INVALID_HANDLE;
      }
      MintedFresh(contents.Keys, old(nextHandle), h, nextHandle);
      var ok := InsertAt(h, cap);
      if !ok {
        return INVALID_HANDLE;
      }
    }

    // ---- erase ----

    /** The node reached from the root through the first `depth` recorded indices. */
    method NodeAtDepth(idxs: seq<nat>, depth: nat) returns (n: Node?)
      requires Linked() && depth <= |idxs| && forall i | 0 <= i < |idxs| :: idxs[i] < 16
      ensures n == At(nodes, idxs[..depth])
    {
      hide Tree;
      n := root;
      assert idxs[..0] == [];
      for d := 0 to depth
        invariant n == At(nodes, idxs[..d])
      {
        if n == null {
          assert idxs[..depth][..d] == idxs[..d];
          if idxs[..depth] in nodes {
            PrefixClosed(idxs[..depth], d);
          }
          return null;
        }
        assert Ext(idxs[..d], idxs[d]) == idxs[..d + 1];
        n := n.children[idxs[d]];
      }
    }

    /** Recycles the node at depth `depth + 1` on the path of `h` if nothing hangs below it. */
    method PruneAt(ghost h: Word, idxs: seq<nat>, depth: nat)
      requires depth < DEPTH && idxs == PathOf(h) && h !in contents && InProgress(h, Prefix(h, depth + 1))
      modifies `nodes, `nodeCount, repr`children
      ensures InProgress(h, Prefix(h, depth))
      ensures depth + 1 == DEPTH || idxs !in old(nodes) ==> idxs !in nodes
    {
      hide PathOf, Prefix, InProgress, Linked, HasChild, Without, NibbleAt, ValuesAtDepth, RepresentsBut, NoEmptyNode,
        NodesCounted;
      PrefixEnds(h);
      ghost var before := nodes;
      ChildOnPath(h, idxs, depth);
      var parent := NodeAtDepth(idxs, depth);
      var c := parent.children[idxs[depth]];
      if c != null {
        var empty := c.Empty();
        if empty {
          RemoveChild(idxs[..depth], parent, idxs[depth]);
          PrunedFromPath(before, h, depth);
        } else {
          StaysOnPath(h, depth);
        }
      }
    }

    lemma PathSteps(h: Word, path: Path, depth: nat)
      requires depth < DEPTH && path == PathOf(h)
      ensures IsPath(path) && path[..depth] == Prefix(h, depth) && path[depth] == NibbleAt(h, depth)
      ensures Prefix(h, depth + 1)[..depth] == Prefix(h, depth) && |Prefix(h, depth + 1)| == depth + 1
      ensures Prefix(h, depth + 1) == Ext(Prefix(h, depth), NibbleAt(h, depth))
    {
      hide PathOf;
      PathIsPath(h);
      NibblesAtPath(h, depth);
      PrefixLength(h, depth + 1);
      PrefixExtends(h, depth);
    }

    /** What being in progress means for an unbound handle. */
    lemma ProgressParts(h: Word, end: Path)
      requires h !in contents && InProgress(h, end)
      ensures Linked() && NodesCounted() && ValuesAtDepth(nodes, Some(PathOf(h))) && RepresentsBut(nodes, contents, h)
      ensures NoEmptyNode(nodes.Keys, Some(end)) && end in nodes && INVALID_HANDLE !in contents && size == |contents|
    {
      hide PathOf, Linked, NodesCounted, ValuesAtDepth, RepresentsBut, NoEmptyNode;
    }

    /** A node without a value is empty exactly when no node hangs below it. */
    lemma EmptyIff(p: Path)
      requires Linked() && p in nodes && !nodes[p].hasValue
      ensures (forall i | 0 <= i < |nodes[p].children| :: nodes[p].children[i] == null) <==> !HasChild(nodes.Keys, p)
    {
      hide Tree;
      var slots := nodes[p].children;
      assert Slots(slots, nodes, p);
      hide Linked;
      assert forall i | 0 <= i < 16 :: slots[i] == null <==> Ext(p, i) !in nodes.Keys;
    }

    lemma NoValueOnPath(h: Word, p: Path)
      requires ValuesAtDepth(nodes, Some(PathOf(h))) && p in nodes && (|p| < DEPTH || p == PathOf(h))
      ensures !nodes[p].hasValue
    {
      hide PathOf;
    }

    /** The node to prune next, if it is empty, and its parent. */
    lemma ChildOnPath(h: Word, path: Path, depth: nat)
      requires depth < DEPTH && h !in contents && path == PathOf(h) && InProgress(h, Prefix(h, depth + 1))
      ensures Linked() && IsPath(path) && path[..depth] == Prefix(h, depth) && Prefix(h, depth) in nodes
      ensures path[depth] == NibbleAt(h, depth) && |nodes[path[..depth]].children| == 16
      ensures NodesCounted() && ValuesAtDepth(nodes, Some(path)) && RepresentsBut(nodes, contents, h)
      ensures NoEmptyNode(nodes.Keys, Some(Prefix(h, depth + 1)))
      ensures INVALID_HANDLE !in contents && size == |contents|
      ensures Prefix(h, depth + 1) == Ext(Prefix(h, depth), NibbleAt(h, depth))
      ensures nodes[path[..depth]] in repr
      ensures var c := At(nodes, Prefix(h, depth + 1));
              c != null && nodes[path[..depth]].children[path[depth]] == c
              && ((!c.hasValue && forall i | 0 <= i < |c.children| :: c.children[i] == null)
                  <==> !HasChild(nodes.Keys, Prefix(h, depth + 1)))
    {
      hide PathOf, Prefix, NibbleAt, Linked, NodesCounted, ValuesAtDepth, RepresentsBut, NoEmptyNode, HasChild,
        InProgress, Ext, IsPath;
      ProgressParts(h, Prefix(h, depth + 1));
      PathSteps(h, path, depth);
      PrefixClosed(Prefix(h, depth + 1), depth);
      SlotOnPath(h, depth);
      PrefixEnds(h);
      NoValueOnPath(h, Prefix(h, depth + 1));
      EmptyIff(Prefix(h, depth + 1));
    }

    lemma StaysOnPath(h: Word, depth: nat)
      requires depth < DEPTH && InProgress(h, Prefix(h, depth + 1))
      requires HasChild(nodes.Keys, Prefix(h, depth + 1)) && Prefix(h, depth) in nodes
      ensures InProgress(h, Prefix(h, depth)) && depth + 1 < DEPTH
    {
      hide PathOf, NoEmptyNode, ValuesAtDepth, RepresentsBut, NodesCounted;
      NoEmptyAfterPrune(nodes.Keys, h, depth);
      PrefixEnds(h);
      LeafChildless(nodes.Keys, PathOf(h));
    }

    /** Pruning the childless node at depth `depth + 1` leaves only its parent possibly childless. */
    lemma PrunedFromPath(before: map<Path, Node>, h: Word, depth: nat)
      requires depth < DEPTH && h !in contents && INVALID_HANDLE !in contents && size == |contents|
      requires Linked() && NodesCounted() && nodes == Without(before, Prefix(h, depth + 1))
      requires ValuesAtDepth(before, Some(PathOf(h))) && RepresentsBut(before, contents, h)
      requires NoEmptyNode(before.Keys, Some(Prefix(h, depth + 1))) && Prefix(h, depth) in before
      ensures InProgress(h, Prefix(h, depth)) && Prefix(h, depth + 1) !in nodes
      ensures PathOf(h) !in before ==> PathOf(h) !in nodes
    {
      hide PathOf, Prefix, NibbleAt, Linked, NoEmptyNode, ValuesAtDepth, RepresentsBut, NodesCounted, Without;
      NoEmptyAfterPrune(before.Keys, h, depth);
      PathGone(before, h, depth);
      KeysAfterRemove(before, Prefix(h, depth + 1));
      RemovedFromPath(before, contents, h, depth + 1);
    }

    /** Clears the empty nodes on the path of `h` from the leaf upward. */
    method PrunePath(ghost h: Word, idxs: seq<nat>)
      requires idxs == PathOf(h) && h !in contents && InProgress(h, PathOf(h))
      modifies `nodes, `nodeCount, repr`children
      ensures Valid()
    {
      hide PathOf, Prefix, InProgress;
      PrefixEnds(h);
      for depth := DEPTH downto 0
        invariant InProgress(h, Prefix(h, depth)) && (depth < DEPTH ==> idxs !in nodes)
      {
        PruneAt(h, idxs, depth);
      }
      AllBound(h, []);
    }

    /** Unbinds `h`, returning its capability, and recycles the nodes that only it needed. */
    method Erase(h: Word) returns (removed: Option<Capability>)
      requires Valid()
      modifies `nodes, `contents, `size, `nodeCount, repr
      ensures Valid()
      ensures removed == if h in old(contents) then Some(old(contents)[h]) else None
      ensures contents == old(contents) - {h}
    {
      hide PathOf, Prefix, NibbleAt, Valid, Linked, Represents;
      if h == INVALID_HANDLE {
        InvalidUnbound();
        return None;
      }
      var idxs: seq<nat> := [];
      ValidParts();
      RootAt();
      Leaf(h);
      PrefixEnds(h);
      var n := root;
      for depth := 0 to DEPTH
        invariant n == At(nodes, Prefix(h, depth)) && idxs == Prefix(h, depth)
        modifies {}
      {
        if n == null {
          NoPath(h, depth);
          return None;
        }
        Descend(h, depth);
        PrefixExtends(h, depth);
        idxs := idxs + [NibbleAt(h, depth)];
        n := n.children[NibbleAt(h, depth)];
      }
      if n == null || !n.hasValue {
        return None;
      }
      var value := UnbindLeaf(h, idxs, n);
      return Some(value);
    }

    /** Empties the leaf of `h` and clears up its path. */
    method UnbindLeaf(h: Word, idxs: seq<nat>, n: Node) returns (value: Capability)
      requires Valid() && h in contents && idxs == PathOf(h) && n == At(nodes, PathOf(h))
      modifies `nodes, `contents, `size, `nodeCount, repr
      ensures Valid() && value == old(contents)[h] && contents == old(contents) - {h}
    {
      hide PathOf, InProgress, Valid;
      LeafInRepr(h);
      value := EmptyLeaf(h, n);
      PrunePath(h, idxs);
    }

    lemma LeafInRepr(h: Word)
      requires Valid() && h in contents
      ensures PathOf(h) in nodes && nodes[PathOf(h)] in repr
    {
      hide PathOf;
      LeafIsOwn(h);
    }

    /** Takes the value out of the leaf at the end of the path of `h`, whose binding is now stale. */
    method TakeLeaf(h: Word, n: Node) returns (value: Capability)
      requires Valid() && h in contents && n == At(nodes, PathOf(h))
      modifies n`hasValue
      ensures value == contents[h] && Linked() && NodesCounted() && ValuesAtDepth(nodes, Some(PathOf(h)))
      ensures RepresentsBut(nodes, contents - {h}, h)
    {
      hide PathOf, Tree, Slots, Below, NoEmptyNode;
      LeafIsOwn(h);
      OthersStay(nodes, contents, h);
      hide Represents;
      value := n.TakeValue();
    }

    /** Unbinds `h` at its leaf, leaving its path to be cleared up. */
    method EmptyLeaf(h: Word, n: Node) returns (value: Capability)
      requires Valid() && h in contents && n == At(nodes, PathOf(h))
      modifies n`hasValue, `size, `contents
      ensures InProgress(h, PathOf(h)) && value == old(contents)[h] && contents == old(contents) - {h}
    {
      hide PathOf, Linked, NoEmptyNode, Represents, RepresentsBut, ValuesAtDepth, NodesCounted;
      FullPathExempt(nodes.Keys, PathOf(h));
      OneFewer(contents, h);
      LeafInRepr(h);
      value := TakeLeaf(h, n);
      size := size - 1;
      contents := contents - {h};
    }

    // ---- Shape ----

    /** Below every node but an empty root hangs a full-depth node. */
    lemma {:induction false} LeafBelow(p: Path) returns (q: Path)
      requires Linked() && NoEmptyNode(nodes.Keys, None) && p in nodes && p != []
      ensures q in nodes && |q| == DEPTH && p <= q
      decreases DEPTH - |p|
    {
      if |p| == DEPTH {
        q := p;
      } else {
        var i :| 0 <= i < 16 && Ext(p, i) in nodes.Keys;
        q := LeafBelow(Ext(p, i));
      }
    }

    lemma {:induction false} NodePathsAreNibbles(p: Path)
      requires Linked() && p in nodes
      ensures IsPath(p)
      decreases |p|
    {
      if p != [] {
        NodePathsAreNibbles(Up(p));
      }
    }

    /** The non-empty prefixes of the bound handles' paths. */
    ghost function BoundPrefixes(): set<Path>
      reads `contents
    {
      set h, d | h in contents && 1 <= d <= DEPTH :: Prefix(h, d)
    }

    lemma PrefixIsNode(h: Word, d: nat)
      requires Valid() && h in contents && 1 <= d <= DEPTH
      ensures Prefix(h, d) in nodes && Prefix(h, d) != []
    {
      hide PathOf;
      PrefixClosed(PathOf(h), d);
    }

    lemma NodeIsPrefix(p: Path)
      requires Valid() && p in nodes && p != []
      ensures p in BoundPrefixes()
    {
      hide PathOf, Slots, ValuesAtDepth, Counted, Tree;
      var q := LeafBelow(p);
      NodePathsAreNibbles(q);
      var h := PathSurjective(q);
      assert p == q[..|p|] == Prefix(h, |p|);
    }

    /**
     The nodes below the root are exactly the non-empty prefixes of the bound handles' paths: nothing is
     left behind by erase, and the node counter is one more than their number.
     */
    lemma NodesArePrefixes()
      requires Valid()
      ensures nodes.Keys - {[]} == BoundPrefixes()
      ensures nodeCount == 1 + |BoundPrefixes()|
      ensures size == |contents|
    {
      hide Prefix;
      forall p | p in BoundPrefixes() ensures p in nodes && p != [] {
        var h, d :| h in contents && 1 <= d <= DEPTH && p == Prefix(h, d);
        PrefixIsNode(h, d);
      }
      forall p | p in nodes && p != [] ensures p in BoundPrefixes() {
        NodeIsPrefix(p);
      }
    }
  }
}
