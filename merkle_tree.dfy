/**
 * merkle_drop/merkle_tree.py: `Node`, `Tree`, `build_tree`, `_build_leaves`,
 * `compute_merkle_root`, `in_tree`, `create_proof` and `validate_proof`.
 *
 * Python links nodes by reference (`parent`, `left_child`, `right_child`). Here all nodes of a
 * tree live in one sequence, the arena, and a link is the index of the node it points to.
 * `build_tree` appends each new parent to the arena and sets its children's `parent` field,
 * as the Python code assigns `node1.parent` and `node2.parent`.
 */
module MerkleTree {
  import opened Wrappers
  import opened MerkleHash
  import opened MerkleLevels

  /** A node: its hash and the arena indices of its parent and children. */
  datatype Node = Node(hash: Digest, parent: Option<nat>, left: Option<nat>, right: Option<nat>)

  /** A tree: the arena of all its nodes, the index of the root, the indices of the leaves. */
  datatype Tree = Tree(nodes: seq<Node>, root: nat, leaves: seq<nat>)

  // ---------------------------------------------------------------------------
  // Shape of a built tree

  predicate InArena(nodes: seq<Node>, level: seq<nat>) {
    forall j :: 0 <= j < |level| ==> level[j] < |nodes|
  }

  /** The hashes of the nodes of a level, in order (an index outside the arena has none). */
  function HashesAt(nodes: seq<Node>, level: seq<nat>): (hs: seq<Digest>)
    ensures |hs| == |level|
    ensures forall j :: 0 <= j < |level| && level[j] < |nodes| ==> hs[j] == nodes[level[j]].hash
  {
    if |level| == 0 then []
    else
      var last := level[|level| - 1];
      HashesAt(nodes, level[..|level| - 1]) + [if last < |nodes| then nodes[last].hash else []]
  }

  predicate Distinct(s: seq<nat>) {
    forall a, b :: 0 <= a < b < |s| ==> s[a] != s[b]
  }

  predicate ChildBelow(c: Option<nat>, i: nat) {
    c.Some? ==> c.value < i
  }

  /** Children are created before their parent, so they sit lower in the arena. */
  predicate ChildrenBelow(nodes: seq<Node>) {
    forall i :: 0 <= i < |nodes| ==> ChildBelow(nodes[i].left, i) && ChildBelow(nodes[i].right, i)
  }

  /** `p` is the parent made for the pair `a`, `b`: both point up to it, it points down to
      both, and its hash is `sha(a.hash, b.hash)`. */
  ghost predicate Linked(h: Hasher, nodes: seq<Node>, a: nat, b: nat, p: nat) {
    a < |nodes| && b < |nodes| && p < |nodes| &&
    nodes[a].parent == Some(p) && nodes[b].parent == Some(p) &&
    nodes[p].left == Some(a) && nodes[p].right == Some(b) &&
    nodes[p].hash == PairHash(h, nodes[a].hash, nodes[b].hash)
  }

  /** Pair `q` of level `lo` is linked to entry `q` of level `hi`. */
  ghost predicate PairLinked(h: Hasher, nodes: seq<Node>, lo: seq<nat>, hi: seq<nat>, q: nat) {
    2 * q + 1 < |lo| && q < |hi| && Linked(h, nodes, lo[2 * q], lo[2 * q + 1], hi[q])
  }

  /** One round of the `while` loop took level `lo` to level `hi`. */
  ghost predicate Step(h: Hasher, nodes: seq<Node>, lo: seq<nat>, hi: seq<nat>) {
    |lo| > 1 && |hi| == (|lo| + 1) / 2 && InArena(nodes, lo) && InArena(nodes, hi) &&
    (forall q: nat :: 2 * q + 1 < |lo| ==> PairLinked(h, nodes, lo, hi, q)) &&
    (|lo| % 2 == 1 ==> hi[|hi| - 1] == lo[|lo| - 1])
  }

  /** Level `k + 1` is one round above level `k`. */
  ghost predicate StepAt(h: Hasher, nodes: seq<Node>, levels: seq<seq<nat>>, k: nat) {
    k + 1 < |levels| && Step(h, nodes, levels[k], levels[k + 1])
  }

  /** `levels` lists the successive values of `current_nodes`, each one round above the last. */
  ghost predicate Layers(h: Hasher, nodes: seq<Node>, levels: seq<seq<nat>>) {
    |levels| >= 1 &&
    (forall k :: 0 <= k < |levels| ==> InArena(nodes, levels[k])) &&
    (forall k: nat :: k < |levels| - 1 ==> StepAt(h, nodes, levels, k))
  }

  /** The well-formedness of a tree built by `build_tree`: the leaves are the first level, the
      root alone is the last, each round links every pair to a parent whose hash is the pair's
      hash, and the root has no parent. */
  ghost predicate Layered(h: Hasher, t: Tree, levels: seq<seq<nat>>) {
    Layers(h, t.nodes, levels) && levels[0] == t.leaves && InArena(t.nodes, t.leaves) && |t.leaves| >= 1 &&
    levels[|levels| - 1] == [t.root] && t.root < |t.nodes| &&
    t.nodes[t.root].parent == None && ChildrenBelow(t.nodes)
  }

  // ---------------------------------------------------------------------------
  // Frame: later rounds only add nodes and set `parent` fields that were None

  ghost predicate Grows(before: seq<Node>, after: seq<Node>) {
    |before| <= |after| &&
    forall i :: 0 <= i < |before| ==>
      after[i].hash == before[i].hash && after[i].left == before[i].left &&
      after[i].right == before[i].right &&
      (before[i].parent.Some? ==> after[i].parent == before[i].parent)
  }

  lemma GrowsTransitive(a: seq<Node>, b: seq<Node>, c: seq<Node>)
    requires Grows(a, b) && Grows(b, c)
    ensures Grows(a, c)
  {
  }

  // ---------------------------------------------------------------------------
  // Linkage of the whole arena, independent of the levels

  /** Node `i` has both children or none, and with children its hash is `sha` of theirs. */
  ghost predicate HashesItsChildren(h: Hasher, nodes: seq<Node>, i: nat)
    requires i < |nodes|
  {
    var n := nodes[i];
    n.left.Some? == n.right.Some? &&
    (n.left.Some? ==> n.left.value < |nodes| && n.right.value < |nodes| &&
                      n.hash == PairHash(h, nodes[n.left.value].hash, nodes[n.right.value].hash))
  }

  /** Every node of the arena that has children carries the hash of its two children. */
  ghost predicate ChildHashes(h: Hasher, nodes: seq<Node>) {
    forall i :: 0 <= i < |nodes| ==> HashesItsChildren(h, nodes, i)
  }

  /** The leaves are in the arena and have no children. */
  ghost predicate LeavesChildless(nodes: seq<Node>, leaves: seq<nat>) {
    forall j :: 0 <= j < |leaves| ==> leaves[j] < |nodes| && nodes[leaves[j]].left == None && nodes[leaves[j]].right == None
  }

  /** Setting parents and appending nodes keeps the old nodes' children and their hashes. */
  lemma ChildHashesGrow(h: Hasher, before: seq<Node>, after: seq<Node>)
    requires ChildHashes(h, before) && Grows(before, after)
    ensures forall i :: 0 <= i < |before| ==> HashesItsChildren(h, after, i)
  {
    forall i | 0 <= i < |before| ensures HashesItsChildren(h, after, i) {
      assert HashesItsChildren(h, before, i);
    }
  }

  lemma LeavesChildlessGrow(before: seq<Node>, after: seq<Node>, leaves: seq<nat>)
    requires LeavesChildless(before, leaves) && Grows(before, after)
    ensures LeavesChildless(after, leaves)
  {
  }

  lemma LayersGrow(h: Hasher, before: seq<Node>, after: seq<Node>, levels: seq<seq<nat>>)
    requires Layers(h, before, levels) && Grows(before, after)
    ensures Layers(h, after, levels)
  {
    forall k: nat | k < |levels| - 1 ensures StepAt(h, after, levels, k) {
      var lo, hi := levels[k], levels[k + 1];
      assert StepAt(h, before, levels, k);
      forall q | 0 <= q && 2 * q + 1 < |lo| ensures PairLinked(h, after, lo, hi, q) {
        assert PairLinked(h, before, lo, hi, q);
      }
    }
  }

  lemma HashesGrow(before: seq<Node>, after: seq<Node>, level: seq<nat>)
    requires InArena(before, level) && Grows(before, after)
    ensures InArena(after, level) && HashesAt(after, level) == HashesAt(before, level)
  {
  }

  lemma StepHashAt(h: Hasher, nodes: seq<Node>, lo: seq<nat>, hi: seq<nat>, q: nat)
    requires Step(h, nodes, lo, hi) && q < |hi|
    ensures HashesAt(nodes, hi)[q] == Reduce(h, HashesAt(nodes, lo))[q]
  {
    var below := HashesAt(nodes, lo);
    ReduceAt(h, below, q);
    if 2 * q + 1 < |lo| {
      assert PairLinked(h, nodes, lo, hi, q);
    } else {
      UnpairedIsLast(|lo|, |hi|, q);
      assert hi[q] == lo[2 * q];
    }
  }

  /** Entry `q` of a level of `m == ceil(n/2)` with no pair below it is the last one, above
      the odd last of `n`. */
  lemma UnpairedIsLast(n: nat, m: nat, q: nat)
    requires m == (n + 1) / 2 && q < m && 2 * q + 1 >= n
    ensures 2 * q + 1 == n && q == m - 1 && n % 2 == 1
  {
    assert n <= m * 2 <= n + 1;
  }

  /** The hashes of a level reduce to the hashes of the level above it. */
  lemma StepHashes(h: Hasher, nodes: seq<Node>, lo: seq<nat>, hi: seq<nat>)
    requires Step(h, nodes, lo, hi)
    ensures HashesAt(nodes, hi) == Reduce(h, HashesAt(nodes, lo))
  {
    forall q | 0 <= q < |hi| ensures HashesAt(nodes, hi)[q] == Reduce(h, HashesAt(nodes, lo))[q] {
      StepHashAt(h, nodes, lo, hi, q);
    }
  }

  /** Every level of a tower reduces to the same root as its top level. */
  lemma {:induction false} TowerTop(h: Hasher, levels: seq<seq<nat>>, hss: seq<seq<Digest>>, k: nat)
    requires Tower(h, levels, hss) && k < |levels| && |hss[|levels| - 1]| >= 1
    ensures |hss[k]| >= 1 && MerkleRoot(h, hss[k]) == MerkleRoot(h, hss[|levels| - 1])
    decreases |levels| - k
  {
    var top := hss[|levels| - 1];
    if k < |levels| - 1 {
      assert RiseAt(h, levels, hss, k);
      var here, above := hss[k], hss[k + 1];
      TowerTop(h, levels, hss, k + 1);
      RootOfReduce(h, here, above);
      assert MerkleRoot(h, above) == MerkleRoot(h, top);
    } else {
      assert hss[k] == top;
    }
  }

  /** A level of more than one hash has the root of the level above it. */
  lemma RootOfReduce(h: Hasher, here: seq<Digest>, above: seq<Digest>)
    requires |here| > 1 && above == Reduce(h, here)
    ensures |above| >= 1 && MerkleRoot(h, here) == MerkleRoot(h, above)
  {
  }

  /** The root's hash is the Merkle root of the leaf hashes. */
  lemma LayeredRoot(h: Hasher, t: Tree, levels: seq<seq<nat>>)
    requires Layered(h, t, levels)
    ensures t.nodes[t.root].hash == MerkleRoot(h, HashesAt(t.nodes, t.leaves))
  {
    var hss := LevelHashes(t.nodes, levels);
    LayersTower(h, t.nodes, levels);
    assert hss[|levels| - 1] == [t.nodes[t.root].hash];
    TowerTop(h, levels, hss, 0);
  }

  // ---------------------------------------------------------------------------
  // _build_leaves and build_tree

  predicate AllEncodable(values: seq<Arg>) {
    forall j :: 0 <= j < |values| ==> Encodable(values[j])
  }

  /** `sha(value)` for each value, in input order. */
  function LeafHashes(h: Hasher, values: seq<Arg>): (hs: seq<Digest>)
    requires AllEncodable(values)
    ensures |hs| == |values| && forall j :: 0 <= j < |values| ==> hs[j] == LeafHash(h, values[j])
  {
    if |values| == 0 then [] else LeafHashes(h, values[..|values| - 1]) + [LeafHash(h, values[|values| - 1])]
  }

  function Indices(n: nat): (s: seq<nat>)
    ensures |s| == n && forall i :: 0 <= i < n ==> s[i] == i
  {
    if n == 0 then [] else Indices(n - 1) + [n - 1]
  }

  /** `[Node(sha(value)) for value in values]`: one parentless, childless leaf per value, in
      input order, or the OverflowError of the first value `sha` cannot encode. */
  function BuildLeaves(h: Hasher, values: seq<Arg>): (r: Result<seq<Node>, Error>)
    ensures r.Ok? <==> AllEncodable(values)
    ensures r.Err? ==> r.error == OverflowError
    ensures r.Ok? ==> (|r.value| == |values| &&
      forall j :: 0 <= j < |values| ==> r.value[j] == Node(LeafHash(h, values[j]), None, None, None))
  {
    if |values| == 0 then Ok([])
    else
      ShaOfValue(h, values[0]);
      match ShaSpec(h, [values[0]])
      case Err(e) => Err(e)
      case Ok(d) =>
        match BuildLeaves(h, values[1..])
        case Err(e) => Err(e)
        case Ok(rest) =>
          assert forall j :: 1 <= j < |values| ==> values[j] == values[1..][j - 1];
          Ok([Node(d, None, None, None)] + rest)
  }

  /** `sha(node1.hash, node2.hash)`, which never fails on two digests. */
  method HashPair(h: Hasher, a: Digest, b: Digest) returns (d: Digest)
    ensures d == PairHash(h, a, b)
  {
    var r := Sha(h, [BytesArg(a), BytesArg(b)]);
    ShaOfPair(h, a, b);
    d := r.value;
  }

  /** The body of the pairing loop: a new parent for `n1` and `n2`, appended to the arena,
      with both children's `parent` set to it. */
  method AddParent(h: Hasher, nodes: seq<Node>, n1: nat, n2: nat) returns (after: seq<Node>, parent: nat)
    requires n1 < |nodes| && n2 < |nodes| && n1 != n2
    requires nodes[n1].parent == None && nodes[n2].parent == None
    requires ChildrenBelow(nodes) && ChildHashes(h, nodes)
    ensures parent == |nodes| && |after| == |nodes| + 1 && ChildrenBelow(after) && ChildHashes(h, after)
    ensures Grows(nodes, after)
    ensures Linked(h, after, n1, n2, parent) && after[parent].parent == None
    ensures forall i :: 0 <= i < |nodes| && i != n1 && i != n2 ==> after[i] == nodes[i]
  {
    var d := HashPair(h, nodes[n1].hash, nodes[n2].hash);
    parent := |nodes|;
    var up := Node(d, None, Some(n1), Some(n2));
    var a1 := nodes[n1].(parent := Some(parent));
    var a2 := nodes[n2].(parent := Some(parent));
    after := (nodes + [up])[n1 := a1][n2 := a2];
    assert after[parent] == up && after[n1] == a1 && after[n2] == a2;
    ChildHashesGrow(h, nodes, after);
    assert HashesItsChildren(h, after, parent);
  }

  /** The first `q` pairs of `lo` are linked to the first `q` entries of `hi`. */
  ghost predicate PairsLinked(h: Hasher, nodes: seq<Node>, lo: seq<nat>, hi: seq<nat>, q: nat) {
    forall i: nat :: i < q ==> PairLinked(h, nodes, lo, hi, i)
  }

  lemma PairsLinkedGrow(h: Hasher, before: seq<Node>, after: seq<Node>, lo: seq<nat>, hi: seq<nat>, q: nat)
    requires 2 * q <= |lo| && q <= |hi|
    requires PairsLinked(h, before, lo, hi, q) && Grows(before, after)
    ensures PairsLinked(h, after, lo, hi, q)
  {
    forall i | 0 <= i < q ensures PairLinked(h, after, lo, hi, i) {
      assert PairLinked(h, before, lo, hi, i);
    }
  }

  /** Linked pairs stay linked when the upper level is extended at its end. */
  lemma PairsLinkedPrefix(h: Hasher, nodes: seq<Node>, lo: seq<nat>, hi: seq<nat>, hi': seq<nat>, q: nat)
    requires q <= |hi| <= |hi'| && hi'[..|hi|] == hi
    requires PairsLinked(h, nodes, lo, hi, q)
    ensures PairsLinked(h, nodes, lo, hi', q)
  {
    forall i: nat | i < q ensures PairLinked(h, nodes, lo, hi', i) {
      assert PairLinked(h, nodes, lo, hi, i);
      assert hi'[i] == hi'[..|hi|][i];
    }
  }

  lemma PairsLinkedExtend(h: Hasher, nodes: seq<Node>, lo: seq<nat>, hi: seq<nat>, q: nat, p: nat)
    requires 2 * q + 2 <= |lo| && q == |hi|
    requires PairsLinked(h, nodes, lo, hi, q) && Linked(h, nodes, lo[2 * q], lo[2 * q + 1], p)
    ensures PairsLinked(h, nodes, lo, hi + [p], q + 1)
  {
    PairsLinkedPrefix(h, nodes, lo, hi, hi + [p], q);
    assert PairLinked(h, nodes, lo, hi + [p], q);
  }

  /** The `for` loop over `zip(current_nodes[::2], current_nodes[1::2])`: a new parent for
      every pair, in order. */
  /** Linking the pair at `2 * q` touches only that pair among the old nodes. */
  lemma PairUpFrame(nodes: seq<Node>, before: seq<Node>, after: seq<Node>, current: seq<nat>, q: nat)
    requires 2 * q + 2 <= |current| && Distinct(current) && |nodes| <= |before| <= |after|
    requires forall i :: 0 <= i < |before| && i != current[2 * q] && i != current[2 * q + 1] ==> after[i] == before[i]
    requires forall i :: 0 <= i < |nodes| && i !in current[..2 * q] ==> before[i] == nodes[i]
    requires forall j :: 2 * q <= j < |current| ==> current[j] < |before| && before[current[j]].parent == None
    ensures forall i :: 0 <= i < |nodes| && i !in current[..2 * q + 2] ==> after[i] == nodes[i]
    ensures forall j :: 2 * q + 2 <= j < |current| ==> after[current[j]].parent == None
  {
    assert current[..2 * q + 2] == current[..2 * q] + [current[2 * q], current[2 * q + 1]];
    forall j | 2 * q + 2 <= j < |current| ensures after[current[j]].parent == None {
      assert current[j] != current[2 * q] && current[j] != current[2 * q + 1];
    }
  }

  /** The parents made so far stay parentless when the next pair is linked. */
  lemma FreshParentless(nodes: seq<Node>, before: seq<Node>, after: seq<Node>, next: seq<nat>, n1: nat, n2: nat, p: nat)
    requires n1 < |nodes| && n2 < |nodes| && |before| <= |after| && p < |after| && after[p].parent == None
    requires forall i :: 0 <= i < |before| && i != n1 && i != n2 ==> after[i] == before[i]
    requires forall i :: 0 <= i < |next| ==> |nodes| <= next[i] < |before| && before[next[i]].parent == None
    ensures forall i :: 0 <= i < |next| + 1 ==> after[(next + [p])[i]].parent == None
  {
  }

  method PairUp(h: Hasher, nodes: seq<Node>, current: seq<nat>) returns (after: seq<Node>, next: seq<nat>)
    requires InArena(nodes, current) && Distinct(current)
    requires forall j :: 0 <= j < |current| ==> nodes[current[j]].parent == None
    requires ChildrenBelow(nodes) && ChildHashes(h, nodes)
    ensures |after| == |nodes| + |current| / 2 && |next| == |current| / 2
    ensures forall i :: 0 <= i < |next| ==> next[i] == |nodes| + i && after[next[i]].parent == None
    ensures Grows(nodes, after) && ChildrenBelow(after) && ChildHashes(h, after)
    ensures PairsLinked(h, after, current, next, |current| / 2)
    ensures |current| % 2 == 1 ==> after[current[|current| - 1]].parent == None
    ensures forall i :: 0 <= i < |nodes| && i !in current[..|current| / 2 * 2] ==> after[i] == nodes[i]
  {
    after := nodes;
    next := [];
    for q := 0 to |current| / 2
      invariant |after| == |nodes| + q && |next| == q
      invariant forall i :: 0 <= i < q ==> next[i] == |nodes| + i
      invariant Grows(nodes, after) && ChildrenBelow(after) && ChildHashes(h, after)
      invariant PairsLinked(h, after, current, next, q)
      invariant forall j :: 2 * q <= j < |current| ==> after[current[j]].parent == None
      invariant forall i :: 0 <= i < q ==> after[next[i]].parent == None
      invariant forall i :: 0 <= i < |nodes| && i !in current[..2 * q] ==> after[i] == nodes[i]
    {
      var n1, n2 := current[2 * q], current[2 * q + 1];
      ghost var before := after;
      var parent;
      after, parent := AddParent(h, after, n1, n2);
      PairUpFrame(nodes, before, after, current, q);
      GrowsTransitive(nodes, before, after);
      PairsLinkedGrow(h, before, after, current, next, q);
      PairsLinkedExtend(h, after, current, next, q, parent);
      FreshParentless(nodes, before, after, next, n1, n2, parent);
      next := next + [parent];
    }
  }

  /** One round of the `while` loop of `build_tree`: pair up `current` and carry an odd last
      node up. */
  method PairLevel(h: Hasher, nodes: seq<Node>, current: seq<nat>) returns (after: seq<Node>, next: seq<nat>)
    requires |current| > 1 && InArena(nodes, current) && Distinct(current)
    requires forall j :: 0 <= j < |current| ==> nodes[current[j]].parent == None
    requires ChildrenBelow(nodes) && ChildHashes(h, nodes)
    ensures Grows(nodes, after) && ChildrenBelow(after) && ChildHashes(h, after)
    ensures Step(h, after, current, next) && Distinct(next)
    ensures forall j :: 0 <= j < |next| ==> after[next[j]].parent == None
    ensures forall i :: 0 <= i < |nodes| && i !in current[..|current| / 2 * 2] ==> after[i] == nodes[i]
  {
    after, next := PairUp(h, nodes, current);
    if |current| % 2 != 0 {
      PairsLinkedPrefix(h, after, current, next, next + [current[|current| - 1]], |current| / 2);
      next := next + [current[|current| - 1]];
    }
  }

  lemma LayersExtend(h: Hasher, nodes: seq<Node>, levels: seq<seq<nat>>, next: seq<nat>)
    requires Layers(h, nodes, levels) && Step(h, nodes, levels[|levels| - 1], next)
    ensures Layers(h, nodes, levels + [next])
  {
    var all := levels + [next];
    forall k: nat | k < |all| - 1 ensures StepAt(h, nodes, all, k) {
      if k < |levels| - 1 {
        assert StepAt(h, nodes, levels, k);
      }
    }
  }

  /** The state of `build_tree` between two rounds: the levels so far, from the leaves up to
      `current`, whose nodes have no parent yet. */
  ghost predicate Building(h: Hasher, nodes: seq<Node>, levels: seq<seq<nat>>, leaves: seq<nat>, current: seq<nat>) {
    Layers(h, nodes, levels) && levels[0] == leaves && levels[|levels| - 1] == current &&
    InArena(nodes, leaves) && Distinct(current) &&
    (forall j :: 0 <= j < |current| ==> nodes[current[j]].parent == None) && ChildrenBelow(nodes)
  }

  /** One round of the `while` loop of `build_tree`, with the ghost bookkeeping of levels. */
  method Round(h: Hasher, nodes: seq<Node>, ghost levels: seq<seq<nat>>, ghost leaves: seq<nat>, current: seq<nat>)
    returns (after: seq<Node>, ghost levels': seq<seq<nat>>, next: seq<nat>)
    requires Building(h, nodes, levels, leaves, current) && |current| > 1
    requires ChildHashes(h, nodes) && LeavesChildless(nodes, leaves)
    ensures Building(h, after, levels', leaves, next) && 0 < |next| < |current|
    ensures ChildHashes(h, after) && LeavesChildless(after, leaves)
    ensures HashesAt(after, leaves) == HashesAt(nodes, leaves)
  {
    after, next := PairLevel(h, nodes, current);
    LeavesChildlessGrow(nodes, after, leaves);
    LayersGrow(h, nodes, after, levels);
    HashesGrow(nodes, after, leaves);
    LayersExtend(h, after, levels, next);
    levels' := levels + [next];
  }

  /** A node without parent and children, as `_build_leaves` makes them. */
  predicate Unlinked(n: Node) {
    n.parent == None && n.left == None && n.right == None
  }

  /** The hashes of a sequence of nodes, in order. */
  function NodeHashes(nodes: seq<Node>): (hs: seq<Digest>)
    ensures |hs| == |nodes| && forall j :: 0 <= j < |nodes| ==> hs[j] == nodes[j].hash
  {
    if |nodes| == 0 then [] else NodeHashes(nodes[..|nodes| - 1]) + [nodes[|nodes| - 1].hash]
  }

  /** The `while len(current_nodes) > 1` loop of `build_tree`, from the parentless, childless
      leaves to the last level, whose first node is the root. */
  method Rounds(h: Hasher, leafNodes: seq<Node>)
    returns (nodes: seq<Node>, ghost levels: seq<seq<nat>>, leaves: seq<nat>, current: seq<nat>)
    requires forall j :: 0 <= j < |leafNodes| ==> Unlinked(leafNodes[j])
    ensures Building(h, nodes, levels, leaves, current) && |current| <= 1
    ensures ChildHashes(h, nodes) && LeavesChildless(nodes, leaves)
    ensures |current| == 1 <==> |leafNodes| > 0
    ensures |leaves| == |leafNodes| && HashesAt(nodes, leaves) == NodeHashes(leafNodes)
  {
    nodes := leafNodes;
    current := Indices(|nodes|);
    leaves := current;
    levels := [current];
    assert ChildHashes(h, nodes) by {
      forall i | 0 <= i < |nodes| ensures HashesItsChildren(h, nodes, i) {
        assert Unlinked(nodes[i]);
      }
    }
    while |current| > 1
      invariant Building(h, nodes, levels, leaves, current)
      invariant ChildHashes(h, nodes) && LeavesChildless(nodes, leaves)
      invariant |leaves| == |leafNodes| && HashesAt(nodes, leaves) == NodeHashes(leafNodes)
      invariant |current| > 0 <==> |leafNodes| > 0
      decreases |current|
    {
      nodes, levels, current := Round(h, nodes, levels, leaves, current);
    }
  }

  /** A finished loop with one node left gives a well-formed tree rooted at that node. */
  lemma BuildingDone(h: Hasher, nodes: seq<Node>, levels: seq<seq<nat>>, leaves: seq<nat>, current: seq<nat>)
    requires Building(h, nodes, levels, leaves, current) && |current| == 1 && |leaves| >= 1
    ensures Layered(h, Tree(nodes, current[0], leaves), levels)
  {
    assert current == [current[0]];
  }

  /** `build_tree(values)`. The ghost `levels` records each level of the loop. */
  method BuildTree(h: Hasher, values: seq<Arg>) returns (r: Result<Tree, Error>, ghost levels: seq<seq<nat>>)
    ensures !AllEncodable(values) ==> r == Err(OverflowError)
    ensures AllEncodable(values) && |values| == 0 ==> r == Err(IndexError)
    ensures AllEncodable(values) && |values| > 0 ==>
      r.Ok? && Layered(h, r.value, levels) && |r.value.leaves| == |values| &&
      HashesAt(r.value.nodes, r.value.leaves) == LeafHashes(h, values)
    ensures r.Ok? ==> ChildHashes(h, r.value.nodes) && LeavesChildless(r.value.nodes, r.value.leaves)
  {
    var built := BuildLeaves(h, values);
    if built.Err? {
      return Err(built.error), [];
    }
    assert NodeHashes(built.value) == LeafHashes(h, values);
    assert forall j :: 0 <= j < |built.value| ==> Unlinked(built.value[j]);
    var nodes, leaves, current;
    nodes, levels, leaves, current := Rounds(h, built.value);
    if |current| == 0 {
      return Err(IndexError), levels;
    }
    BuildingDone(h, nodes, levels, leaves, current);
    r := Ok(Tree(nodes, current[0], leaves));
  }

  /** `compute_merkle_root(values)`: the root node of the tree built from `values`. */
  method ComputeMerkleRoot(h: Hasher, values: seq<Arg>) returns (r: Result<Node, Error>)
    ensures !AllEncodable(values) ==> r == Err(OverflowError)
    ensures AllEncodable(values) && |values| == 0 ==> r == Err(IndexError)
    ensures AllEncodable(values) && |values| > 0 ==>
      r.Ok? && r.value.hash == MerkleRoot(h, LeafHashes(h, values)) && r.value.parent == None
  {
    var tree, levels := BuildTree(h, values);
    if tree.Err? {
      return Err(tree.error);
    }
    LayeredRoot(h, tree.value, levels);
    r := Ok(tree.value.nodes[tree.value.root]);
  }

  // ---------------------------------------------------------------------------
  // create_proof

  /** The first position holding `d`: what `next(...)` over `tree.leaves` finds. */
  function FirstIndex(hs: seq<Digest>, d: Digest): (i: nat)
    requires d in hs
    ensures i < |hs| && hs[i] == d && forall j :: 0 <= j < i ==> hs[j] != d
  {
    if hs[0] == d then 0 else 1 + FirstIndex(hs[1..], d)
  }

  /** The proof `create_proof` returns for a leaf hash `d`: the siblings of the first leaf
      with that hash, or None. */
  function ProofOf(h: Hasher, hs: seq<Digest>, d: Digest): Option<seq<Digest>> {
    if d in hs then Some(Siblings(h, hs, FirstIndex(hs, d))) else None
  }

  /** An unpaired node is the odd last one, carried unchanged to position `p2` of the next
      level `k2`. */
  lemma CarriedStep(h: Hasher, nodes: seq<Node>, levels: seq<seq<nat>>, k: nat, p: nat, k2: nat, p2: nat)
    requires StepAt(h, nodes, levels, k) && k2 == k + 1 && p2 == p / 2
    requires p < |levels[k]| && !Paired(|levels[k]|, p)
    ensures p2 < |levels[k2]| && levels[k2][p2] == levels[k][p]
  {
    assert p == |levels[k]| - 1 && p2 == |levels[k2]| - 1;
  }

  /** A paired node's parent is entry `p2` of the next level `k2`, and the node is one child of
      it and its partner `s` the other. */
  lemma PairedStep(h: Hasher, nodes: seq<Node>, levels: seq<seq<nat>>, k: nat, p: nat, k2: nat, p2: nat)
    returns (s: nat)
    requires StepAt(h, nodes, levels, k) && k2 == k + 1 && p2 == p / 2
    requires p < |levels[k]| && Paired(|levels[k]|, p)
    ensures p2 < |levels[k2]| && Partner(p) < |levels[k]| && s == levels[k][Partner(p)]
    ensures levels[k][p] < |nodes| && levels[k2][p2] < |nodes| && s < |nodes|
    ensures nodes[levels[k][p]].parent == Some(levels[k2][p2])
    ensures var leave, up := levels[k][p], nodes[levels[k2][p2]];
      (up.left == Some(leave) && up.right == Some(s)) || (up.right == Some(leave) && up.left == Some(s))
  {
    PartnerPositions(|levels[k]|, p);
    assert PairLinked(h, nodes, levels[k], levels[k2], p2);
    s := levels[k][Partner(p)];
  }

  /** The hashes of every level, bottom up. */
  ghost function LevelHashes(nodes: seq<Node>, levels: seq<seq<nat>>): (hss: seq<seq<Digest>>)
    ensures |hss| == |levels|
    ensures forall k :: 0 <= k < |levels| ==> hss[k] == HashesAt(nodes, levels[k])
  {
    if |levels| == 0 then []
    else LevelHashes(nodes, levels[..|levels| - 1]) + [HashesAt(nodes, levels[|levels| - 1])]
  }

  /** Level `k + 1` has half the size of level `k`, keeps an odd last node of it, and its
      hashes are the round's reduction of level `k`'s hashes. */
  ghost predicate RiseAt(h: Hasher, levels: seq<seq<nat>>, hss: seq<seq<Digest>>, k: nat) {
    k + 1 < |levels| && k + 1 < |hss| &&
    |levels[k]| > 1 && |levels[k + 1]| == (|levels[k]| + 1) / 2 &&
    (|levels[k]| % 2 == 1 ==> levels[k + 1][|levels[k + 1]| - 1] == levels[k][|levels[k]| - 1]) &&
    hss[k + 1] == Reduce(h, hss[k])
  }

  /** The levels of a built tree as positions and hashes, without the links between nodes. */
  ghost predicate Tower(h: Hasher, levels: seq<seq<nat>>, hss: seq<seq<Digest>>) {
    |levels| >= 1 && |hss| == |levels| &&
    (forall k :: 0 <= k < |levels| ==> |hss[k]| == |levels[k]|) &&
    (forall k: nat :: k < |levels| - 1 ==> RiseAt(h, levels, hss, k))
  }

  lemma LayersTower(h: Hasher, nodes: seq<Node>, levels: seq<seq<nat>>)
    requires Layers(h, nodes, levels)
    ensures Tower(h, levels, LevelHashes(nodes, levels))
  {
    var hss := LevelHashes(nodes, levels);
    forall k: nat | k < |levels| - 1 ensures RiseAt(h, levels, hss, k) {
      assert StepAt(h, nodes, levels, k);
      StepHashes(h, nodes, levels[k], levels[k + 1]);
    }
  }

  /** Carried to position `p2` of level `k2`, a node keeps its proof. */
  lemma CarriedRise(h: Hasher, levels: seq<seq<nat>>, hss: seq<seq<Digest>>, k: nat, p: nat, k2: nat, p2: nat)
    requires RiseAt(h, levels, hss, k) && |hss[k]| == |levels[k]| && k2 == k + 1 && p2 == p / 2
    requires p < |levels[k]| && !Paired(|levels[k]|, p)
    ensures p2 < |levels[k2]| && p2 < |hss[k2]| && levels[k2][p2] == levels[k][p]
    ensures Siblings(h, hss[k2], p2) == Siblings(h, hss[k], p)
  {
    assert p == |levels[k]| - 1 && p2 == |levels[k2]| - 1;
    assert Siblings(h, hss[k], p) == [] + Siblings(h, hss[k2], p2);
  }

  /** Paired with its partner, a node's proof is the partner's hash followed by the proof of
      position `p2` of level `k2`. */
  lemma PairedRise(h: Hasher, levels: seq<seq<nat>>, hss: seq<seq<Digest>>, k: nat, p: nat, k2: nat, p2: nat)
    requires RiseAt(h, levels, hss, k) && |hss[k]| == |levels[k]| && k2 == k + 1 && p2 == p / 2
    requires p < |levels[k]| && Paired(|levels[k]|, p)
    ensures Partner(p) < |hss[k]| && p2 < |hss[k2]|
    ensures Siblings(h, hss[k], p) == [hss[k][Partner(p)]] + Siblings(h, hss[k2], p2)
  {
    PartnerPositions(|levels[k]|, p);
  }

  /** Moves up from position `p` of level `k` through the levels where that node is only
      carried, to the level where it is paired or to the top; the proof does not change. */
  lemma {:induction false} Climb(h: Hasher, levels: seq<seq<nat>>, hss: seq<seq<Digest>>, k: nat, p: nat)
    returns (k': nat, p': nat)
    requires Tower(h, levels, hss) && k < |levels| && p < |levels[k]|
    ensures k <= k' < |levels| && p' < |levels[k']| && levels[k'][p'] == levels[k][p]
    ensures Siblings(h, hss[k'], p') == Siblings(h, hss[k], p)
    ensures k' == |levels| - 1 || Paired(|levels[k']|, p')
    decreases |levels| - k
  {
    if k == |levels| - 1 || Paired(|levels[k]|, p) {
      return k, p;
    }
    var k2, p2 := k + 1, p / 2;
    assert RiseAt(h, levels, hss, k);
    CarriedRise(h, levels, hss, k, p, k2, p2);
    k', p' := Climb(h, levels, hss, k2, p2);
  }

  /** A node of a built tree without a parent is the root: its proof is complete. */
  lemma ParentlessIsTop(h: Hasher, t: Tree, levels: seq<seq<nat>>, hss: seq<seq<Digest>>, k: nat, p: nat)
    requires Layered(h, t, levels) && Tower(h, levels, hss) && k < |levels| && p < |levels[k]|
    requires t.nodes[levels[k][p]].parent == None
    ensures levels[k][p] == t.root
    ensures Siblings(h, hss[k], p) == []
  {
    var k', p' := Climb(h, levels, hss, k, p);
    if k' < |levels| - 1 {
      assert StepAt(h, t.nodes, levels, k');
      var s := PairedStep(h, t.nodes, levels, k', p', k' + 1, p' / 2);
      assert false;
    }
  }

  /** In a built tree only the root lacks a parent, so a node with one is below the top. */
  lemma ParentedBelowTop(h: Hasher, t: Tree, levels: seq<seq<nat>>, k: nat, p: nat)
    requires Layered(h, t, levels) && k < |levels| && p < |levels[k]|
    requires t.nodes[levels[k][p]].parent.Some?
    ensures k < |levels| - 1
  {
    assert |levels[|levels| - 1]| == 1 && levels[|levels| - 1][0] == t.root;
  }

  /** Entry `p` of level `k` has as parent entry `p2` of the higher level `k2`, whose other
      child is node `s`. */
  ghost predicate ParentAbove(t: Tree, levels: seq<seq<nat>>, k: nat, p: nat, k2: nat, p2: nat, s: nat) {
    k < k2 < |levels| && p < |levels[k]| && p2 < |levels[k2]| &&
    levels[k][p] < |t.nodes| && levels[k2][p2] < |t.nodes| && s < |t.nodes| &&
    t.nodes[levels[k][p]].parent == Some(levels[k2][p2]) &&
    var leave, up := levels[k][p], t.nodes[levels[k2][p2]];
    (up.left == Some(leave) && up.right == Some(s)) || (up.right == Some(leave) && up.left == Some(s))
  }

  /** One pass of the `while` loop of `create_proof`, on a node with a parent: the parent is
      entry `p2` of level `k2`, its other child is `s`, and `s`'s hash followed by the parent's
      remaining proof is the node's remaining proof. */
  lemma ProofStep(h: Hasher, t: Tree, levels: seq<seq<nat>>, hss: seq<seq<Digest>>, k: nat, p: nat,
                  done: seq<Digest>, whole: seq<Digest>)
    returns (k2: nat, p2: nat, s: nat)
    requires Layered(h, t, levels) && Tower(h, levels, hss) && hss == LevelHashes(t.nodes, levels)
    requires k < |levels| && p < |levels[k]| && t.nodes[levels[k][p]].parent.Some?
    requires done + Siblings(h, hss[k], p) == whole
    ensures ParentAbove(t, levels, k, p, k2, p2, s)
    ensures done + [t.nodes[s].hash] + Siblings(h, hss[k2], p2) == whole
  {
    var k', p' := Climb(h, levels, hss, k, p);
    ParentedBelowTop(h, t, levels, k', p');
    k2, p2 := k' + 1, p' / 2;
    assert StepAt(h, t.nodes, levels, k');
    s := PairedStep(h, t.nodes, levels, k', p', k2, p2);
    assert RiseAt(h, levels, hss, k');
    PairedRise(h, levels, hss, k', p', k2, p2);
    var x := t.nodes[s].hash;
    var rest := Siblings(h, hss[k2], p2);
    assert hss[k'][Partner(p')] == x;
    AppendAssociative(done, [x], rest);
  }

  lemma AppendAssociative(a: seq<Digest>, b: seq<Digest>, c: seq<Digest>)
    ensures a + (b + c) == a + b + c
  {
  }

  /** The `while leave.parent is not None` loop of `create_proof`, from leaf `i`. */
  method ProofPath(h: Hasher, t: Tree, ghost levels: seq<seq<nat>>, i: nat) returns (proof: seq<Digest>)
    requires Layered(h, t, levels) && i < |t.leaves|
    ensures proof == Siblings(h, HashesAt(t.nodes, t.leaves), i)
  {
    ghost var hss := LevelHashes(t.nodes, levels);
    LayersTower(h, t.nodes, levels);
    ghost var whole := Siblings(h, hss[0], i);
    var leave := t.leaves[i];
    proof := [];
    ghost var k: nat := 0;
    ghost var p: nat := i;
    assert [] + whole == whole;
    while t.nodes[leave].parent.Some?
      invariant k < |levels| && p < |levels[k]|
      invariant leave == levels[k][p]
      invariant proof + Siblings(h, hss[k], p) == whole
      decreases |levels| - k
    {
      ghost var k2, p2, sibling := ProofStep(h, t, levels, hss, k, p, proof, whole);
      ghost var rest := Siblings(h, hss[k2], p2);
      var parent := t.nodes[leave].parent.value;
      if t.nodes[parent].left == Some(leave) {
        proof := proof + [t.nodes[t.nodes[parent].right.value].hash];
      } else if t.nodes[parent].right == Some(leave) {
        proof := proof + [t.nodes[t.nodes[parent].left.value].hash];
      } else {
        assert false;  // "wrong leave" cannot be raised
      }
      assert proof + rest == whole;
      leave := parent;
      k, p := k2, p2;
    }
    ParentlessIsTop(h, t, levels, hss, k, p);
    assert proof + [] == proof;
  }

  /** `create_proof(value, tree)`: None when no leaf has hash `sha(value)`, otherwise the
      sibling hashes on the path from the first such leaf to the root. */
  method CreateProof(h: Hasher, value: Arg, t: Tree, ghost levels: seq<seq<nat>>)
    returns (r: Result<Option<seq<Digest>>, Error>)
    requires Layered(h, t, levels)
    ensures !Encodable(value) ==> r == Err(OverflowError)
    ensures Encodable(value) ==> r == Ok(ProofOf(h, HashesAt(t.nodes, t.leaves), LeafHash(h, value)))
  {
    var d := Sha(h, [value]);
    ShaOfValue(h, value);
    if d.Err? {
      return Err(d.error);
    }
    ghost var hs := HashesAt(t.nodes, t.leaves);
    var i := 0;
    while i < |t.leaves| && t.nodes[t.leaves[i]].hash != d.value
      invariant 0 <= i <= |t.leaves|
      invariant forall j :: 0 <= j < i ==> hs[j] != d.value
    {
      i := i + 1;
    }
    if i == |t.leaves| {
      return Ok(None);
    }
    assert d.value in hs && FirstIndex(hs, d.value) == i;
    var proof := ProofPath(h, t, levels, i);
    return Ok(Some(proof));
  }

  // ---------------------------------------------------------------------------
  // validate_proof

  /** `validate_proof(value, proof, root_hash)`: fold the proof into `sha(value)` and compare. */
  method ValidateProof(h: Hasher, value: Arg, proof: seq<Digest>, rootHash: Digest)
    returns (r: Result<bool, Error>)
    ensures !Encodable(value) ==> r == Err(OverflowError)
    ensures Encodable(value) ==> r == Ok(Fold(h, LeafHash(h, value), proof) == rootHash)
  {
    var d := Sha(h, [value]);
    ShaOfValue(h, value);
    if d.Err? {
      return Err(d.error);
    }
    var hash := d.value;
    for i := 0 to |proof|
      invariant hash == Fold(h, d.value, proof[..i])
    {
      var combined := Sha(h, [BytesArg(hash), BytesArg(proof[i])]);
      ShaOfPair(h, hash, proof[i]);
      FoldSnoc(h, d.value, proof[..i], proof[i]);
      assert proof[..i + 1] == proof[..i] + [proof[i]];
      hash := combined.value;
    }
    assert proof[..|proof|] == proof;
    return Ok(hash == rootHash);
  }

  // ---------------------------------------------------------------------------
  // in_tree

  /** `in_tree(value, root)`: a recursive search for a node whose hash is `sha(value)`. */
  function InTree(h: Hasher, value: Arg, nodes: seq<Node>, root: Option<nat>): (r: Result<bool, Error>)
    requires ChildrenBelow(nodes) && (root.Some? ==> root.value < |nodes|)
    ensures root.None? ==> r == Ok(false)
    ensures root.Some? ==> (r.Err? <==> !Encodable(value))
    ensures r.Err? ==> r.error == OverflowError
    ensures root.Some? && Encodable(value) && nodes[root.value].hash == LeafHash(h, value) ==> r == Ok(true)
    decreases if root.Some? then root.value + 1 else 0
  {
    if root.None? then Ok(false)
    else
      ShaOfValue(h, value);
      match ShaSpec(h, [value])
      case Err(e) => Err(e)
      case Ok(d) =>
        if nodes[root.value].hash == d then Ok(true)
        else
          match InTree(h, value, nodes, nodes[root.value].left)
          case Err(e) => Err(e)
          case Ok(found) =>
            if found then Ok(true) else InTree(h, value, nodes, nodes[root.value].right)
  }

  /** Node `j` lies in the subtree below node `i` (or is `i`). */
  ghost predicate Reaches(nodes: seq<Node>, i: nat, j: nat)
    requires ChildrenBelow(nodes) && i < |nodes|
    decreases i
  {
    i == j ||
    (nodes[i].left.Some? && Reaches(nodes, nodes[i].left.value, j)) ||
    (nodes[i].right.Some? && Reaches(nodes, nodes[i].right.value, j))
  }

  /** `in_tree` answers exactly whether some node below the root has hash `sha(value)`. */
  lemma {:induction false} InTreeMeansReachable(h: Hasher, value: Arg, nodes: seq<Node>, i: nat)
    requires ChildrenBelow(nodes) && i < |nodes| && Encodable(value)
    ensures InTree(h, value, nodes, Some(i)) ==
            Ok(exists j :: 0 <= j < |nodes| && Reaches(nodes, i, j) && nodes[j].hash == LeafHash(h, value))
    decreases i
  {
    ShaOfValue(h, value);
    var d := LeafHash(h, value);
    var n := nodes[i];
    if n.hash != d {
      if n.left.Some? {
        InTreeMeansReachable(h, value, nodes, n.left.value);
      }
      if n.right.Some? {
        InTreeMeansReachable(h, value, nodes, n.right.value);
      }
      if exists j :: 0 <= j < |nodes| && Reaches(nodes, i, j) && nodes[j].hash == d {
        var j :| 0 <= j < |nodes| && Reaches(nodes, i, j) && nodes[j].hash == d;
        assert j != i;
      }
    }
  }

  lemma {:induction false} ReachesChild(nodes: seq<Node>, i: nat, p: nat, c: nat)
    requires ChildrenBelow(nodes) && i < |nodes| && p < |nodes| && Reaches(nodes, i, p)
    requires nodes[p].left == Some(c) || nodes[p].right == Some(c)
    ensures Reaches(nodes, i, c)
    decreases i
  {
    if i != p {
      var n := nodes[i];
      if n.left.Some? && Reaches(nodes, n.left.value, p) {
        ReachesChild(nodes, n.left.value, p, c);
      } else {
        ReachesChild(nodes, n.right.value, p, c);
      }
    } else {
      var n := nodes[i];
      if n.left == Some(c) {
        assert Reaches(nodes, c, c);
      } else {
        assert Reaches(nodes, c, c);
      }
    }
  }

  /** Every node of every level of a built tree lies below its root. */
  lemma {:induction false} LevelsBelowRoot(h: Hasher, t: Tree, levels: seq<seq<nat>>, k: nat, p: nat)
    requires Layered(h, t, levels) && k < |levels| && p < |levels[k]|
    ensures levels[k][p] < |t.nodes| && Reaches(t.nodes, t.root, levels[k][p])
    decreases |levels| - k
  {
    if k == |levels| - 1 {
      assert levels[k][p] == t.root;
    } else {
      var k2, p2 := k + 1, p / 2;
      assert StepAt(h, t.nodes, levels, k);
      if Paired(|levels[k]|, p) {
        var s := PairedStep(h, t.nodes, levels, k, p, k2, p2);
        LevelsBelowRoot(h, t, levels, k2, p2);
        ReachesChild(t.nodes, t.root, levels[k2][p2], levels[k][p]);
      } else {
        CarriedStep(h, t.nodes, levels, k, p, k2, p2);
        LevelsBelowRoot(h, t, levels, k2, p2);
      }
    }
  }

  // ---------------------------------------------------------------------------
  // The module's own tests, stated for every hasher

  /** `test_proof`: the proof of every value of a built tree validates against its root. */
  method EveryValueProofValidates(h: Hasher, values: seq<Arg>, j: nat) returns (valid: bool)
    requires AllEncodable(values) && j < |values|
    ensures valid
  {
    var tree, levels := BuildTree(h, values);
    var t := tree.value;
    var proof := CreateProof(h, values[j], t, levels);
    ghost var hs := HashesAt(t.nodes, t.leaves);
    assert hs[j] == LeafHash(h, values[j]);
    var i := FirstIndex(hs, hs[j]);
    SiblingsFoldToRoot(h, hs, i);
    LayeredRoot(h, t, levels);
    var checked := ValidateProof(h, values[j], proof.value.value, t.nodes[t.root].hash);
    valid := checked.value;
  }

  /** `test_in_tree`: every value of a built tree is found by `in_tree` from its root. */
  method EveryValueInTree(h: Hasher, values: seq<Arg>, j: nat) returns (found: bool)
    requires AllEncodable(values) && j < |values|
    ensures found
  {
    var tree, levels := BuildTree(h, values);
    var t := tree.value;
    LevelsBelowRoot(h, t, levels, 0, j);
    InTreeMeansReachable(h, values[j], t.nodes, t.root);
    assert t.nodes[t.leaves[j]].hash == LeafHash(h, values[j]);
    var answer := InTree(h, values[j], t.nodes, Some(t.root));
    found := answer.value;
  }

  /** With SHA-256's 32-byte digests, the root of a list of values and every hash of the proof
      of each value are 32 bytes. */
  lemma RootAndProofSizes(h: Hasher, values: seq<Arg>, i: nat)
    requires Sha256Shaped(h) && AllEncodable(values) && i < |values|
    ensures |MerkleRoot(h, LeafHashes(h, values))| == DigestLength
    ensures AllDigests(Siblings(h, LeafHashes(h, values), i))
  {
    RootAndProofDigests(h, LeafHashes(h, values), i);
  }

  /** A tree with a single leaf has one level, and its root is that leaf. */
  lemma SingleLeafIsRoot(h: Hasher, t: Tree, levels: seq<seq<nat>>)
    requires Layered(h, t, levels) && |t.leaves| == 1
    ensures |levels| == 1 && t.root == t.leaves[0]
  {
    assert !StepAt(h, t.nodes, levels, 0);
  }

  /** A one-value tree: the root is the leaf node itself, hashed `sha(value)`, with no
      parent and no children, and its proof is empty. */
  method SingleValueTree(h: Hasher, value: Arg) returns (t: Tree, proof: seq<Digest>)
    requires Encodable(value)
    ensures t.leaves == [t.root] && t.root < |t.nodes|
    ensures t.nodes[t.root] == Node(LeafHash(h, value), None, None, None) && proof == []
  {
    var tree, levels := BuildTree(h, [value]);
    t := tree.value;
    SingleLeafIsRoot(h, t, levels);
    var r := CreateProof(h, value, t, levels);
    assert HashesAt(t.nodes, t.leaves) == [LeafHash(h, value)];
    proof := r.value.value;
  }

  /** The values `[1, 2, 3, 4, 5]` of the five-value example. */
  function FiveValues(): seq<Arg> {
    [IntArg(1), IntArg(2), IntArg(3), IntArg(4), IntArg(5)]
  }

  /** On the leaf hashes of the five-value example, the proof of 1 has three hashes and the
      proof of 5 one, provided no other value's leaf hash equals that of 5. */
  lemma FiveValueProofs(h: Hasher, hs: seq<Digest>)
    requires forall v :: 1 <= v <= 4 ==> LeafHash(h, IntArg(v)) != LeafHash(h, IntArg(5))
    requires AllEncodable(FiveValues()) && hs == LeafHashes(h, FiveValues())
    ensures ProofOf(h, hs, LeafHash(h, IntArg(1))).Some? && |ProofOf(h, hs, LeafHash(h, IntArg(1))).value| == 3
    ensures ProofOf(h, hs, LeafHash(h, IntArg(5))).Some? && |ProofOf(h, hs, LeafHash(h, IntArg(5))).value| == 1
  {
    var values := FiveValues();
    var d1, d5 := LeafHash(h, IntArg(1)), LeafHash(h, IntArg(5));
    assert hs[0] == d1 && FirstIndex(hs, d1) == 0;
    forall j | 0 <= j < 4 ensures hs[j] != d5 {
      assert values[j] == IntArg(j + 1);
    }
    assert hs[4] == d5 && FirstIndex(hs, d5) == 4;
    SiblingsLength(h, hs, 0);
    SiblingsLength(h, hs, 4);
    ExamplePathLengths();
  }

  /** The five-value example `a = [1, 2, 3, 4, 5]`: the proof of 1 has three hashes and the
      proof of 5 one, provided no other value's leaf hash equals that of 5. */
  method FiveValueProofLengths(h: Hasher) returns (first: nat, last: nat)
    requires forall v :: 1 <= v <= 4 ==> LeafHash(h, IntArg(v)) != LeafHash(h, IntArg(5))
    ensures first == 3 && last == 1
  {
    var values := FiveValues();
    assert AllEncodable(values);
    var tree, levels := BuildTree(h, values);
    var t := tree.value;
    FiveValueProofs(h, HashesAt(t.nodes, t.leaves));
    var p1 := CreateProof(h, IntArg(1), t, levels);
    var p5 := CreateProof(h, IntArg(5), t, levels);
    first, last := |p1.value.value|, |p5.value.value|;
  }
}
