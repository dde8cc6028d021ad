/** The Merkle tree over the shreds of one FEC set. The hash function is a parameter. */
module Merkle {
  import opened Wire

  const PROOF_ENTRY_SIZE := 20

  type Hash32 = h: Bytes | |h| == 32 witness seq(32, i => 0)
  type Hasher = Bytes -> Hash32

  // "\x00SOLANA_MERKLE_SHREDS_LEAF" and "\x01SOLANA_MERKLE_SHREDS_NODE"
  const LEAF_PREFIX: Bytes := [0, 83, 79, 76, 65, 78, 65, 95, 77, 69, 82, 75, 76, 69, 95, 83, 72, 82, 69, 68, 83, 95,
                               76, 69, 65, 70]
  const NODE_PREFIX: Bytes := [1, 83, 79, 76, 65, 78, 65, 95, 77, 69, 82, 75, 76, 69, 95, 83, 72, 82, 69, 68, 83, 95,
                               78, 79, 68, 69]

  /** What is hashed for a leaf. */
  function LeafInput(bytes: Bytes): Bytes {
    LEAF_PREFIX + bytes
  }

  /** What is hashed for an internal node: only 20 bytes of each child. */
  function NodeInput(left: Bytes, right: Bytes): Bytes
    requires |left| >= PROOF_ENTRY_SIZE && |right| >= PROOF_ENTRY_SIZE
  {
    NODE_PREFIX + left[..PROOF_ENTRY_SIZE] + right[..PROOF_ENTRY_SIZE]
  }

  lemma NodeInputPrefix(left: Bytes, right: Bytes)
    requires |left| >= PROOF_ENTRY_SIZE && |right| >= PROOF_ENTRY_SIZE
    ensures NodeInput(left[..PROOF_ENTRY_SIZE], right) == NodeInput(left, right) ==
            NodeInput(left, right[..PROOF_ENTRY_SIZE])
  {
    assert left[..PROOF_ENTRY_SIZE][..PROOF_ENTRY_SIZE] == left[..PROOF_ENTRY_SIZE];
    assert right[..PROOF_ENTRY_SIZE][..PROOF_ENTRY_SIZE] == right[..PROOF_ENTRY_SIZE];
  }

  function Leaf(h: Hasher, bytes: Bytes): Hash32 {
    h(LeafInput(bytes))
  }

  function Join(h: Hasher, left: Bytes, right: Bytes): Hash32
    requires |left| >= PROOF_ENTRY_SIZE && |right| >= PROOF_ENTRY_SIZE
  {
    h(NodeInput(left, right))
  }

  // ---- walking a proof

  function ParentInput(index: nat, node: Hash32, sibling: Bytes): Bytes
    requires |sibling| == PROOF_ENTRY_SIZE
  {
    if index % 2 == 0 then NodeInput(node, sibling) else NodeInput(sibling, node)
  }

  /** The fold over whole 20-byte entries; a trailing partial entry is ignored. */
  function Walk(h: Hasher, index: nat, node: Hash32, proof: Bytes): (nat, Hash32)
    decreases |proof|
  {
    if |proof| < PROOF_ENTRY_SIZE then (index, node)
    else Walk(h, index / 2, h(ParentInput(index, node, proof[..PROOF_ENTRY_SIZE])), proof[PROOF_ENTRY_SIZE..])
  }

  function RootFromProof(h: Hasher, index: nat, leaf: Hash32, proof: Bytes): Option<Hash32> {
    var (top, root) := Walk(h, index, leaf, proof);
    if top == 0 then Some(root) else None
  }

  /** A walk succeeds exactly when the proof has enough entries for the index. */
  lemma {:induction false} WalkSucceedsIff(h: Hasher, index: nat, leaf: Hash32, proof: Bytes)
    ensures RootFromProof(h, index, leaf, proof).Some? <==> index < Pow2(|proof| / PROOF_ENTRY_SIZE)
    decreases |proof|
  {
    if |proof| >= PROOF_ENTRY_SIZE {
      var parent := h(ParentInput(index, leaf, proof[..PROOF_ENTRY_SIZE]));
      WalkSucceedsIff(h, index / 2, parent, proof[PROOF_ENTRY_SIZE..]);
      assert |proof[PROOF_ENTRY_SIZE..]| / PROOF_ENTRY_SIZE == |proof| / PROOF_ENTRY_SIZE - 1;
    }
  }

  // ---- the tree, level by level

  function Min(a: int, b: int): int {
    if a <= b then a else b
  }

  /** The level above: neighbours joined, a last node without sibling paired with itself. */
  function NextLevel(h: Hasher, level: seq<Hash32>): (r: seq<Hash32>)
    requires |level| > 0
    ensures |r| == (|level| + 1) / 2
  {
    if |level| <= 2 then [Join(h, level[0], level[|level| - 1])]
    else [Join(h, level[0], level[1])] + NextLevel(h, level[2..])
  }

  /** What is hashed for the node above `level[2 * i]`. */
  function PairInput(level: seq<Hash32>, i: nat): Bytes
    requires 2 * i < |level|
  {
    NodeInput(level[2 * i], level[Min(2 * i + 1, |level| - 1)])
  }

  lemma {:induction false} NextLevelAt(h: Hasher, level: seq<Hash32>, i: nat)
    requires 2 * i < |level|
    ensures NextLevel(h, level)[i] == h(PairInput(level, i))
  {
    if |level| > 2 && i > 0 {
      NextLevelAt(h, level[2..], i - 1);
    }
  }

  /** The node above `level[index]`, as a walk computes it. */
  lemma ParentIsPair(level: seq<Hash32>, index: nat)
    requires index < |level| && |level| > 1
    ensures ParentInput(index, level[index], level[SiblingOf(index, |level|)][..PROOF_ENTRY_SIZE]) ==
            PairInput(level, index / 2)
  {
    var sibling := level[SiblingOf(index, |level|)];
    if index % 2 == 0 {
      NodeInputPrefix(level[index], sibling);
    } else {
      NodeInputPrefix(sibling, level[index]);
    }
  }

  function TreeRoot(h: Hasher, level: seq<Hash32>): Hash32
    requires |level| > 0
    decreases |level|
  {
    if |level| == 1 then level[0] else TreeRoot(h, NextLevel(h, level))
  }

  /** All levels, leaves first, root last. */
  function TreeNodes(h: Hasher, level: seq<Hash32>): (r: seq<Hash32>)
    requires |level| > 0
    ensures |r| >= |level| && r[..|level|] == level
    decreases |level|
  {
    if |level| == 1 then level else level + TreeNodes(h, NextLevel(h, level))
  }

  function SiblingOf(index: nat, size: nat): (r: nat)
    requires index < size
    ensures r < size
  {
    Min(if index % 2 == 0 then index + 1 else index - 1, size - 1)
  }

  /** The 20-byte prefixes of the siblings on the way from `level[index]` to the root. */
  function PathOf(h: Hasher, level: seq<Hash32>, index: nat): (r: seq<Bytes>)
    requires index < |level|
    ensures forall i :: 0 <= i < |r| ==> |r[i]| == PROOF_ENTRY_SIZE
    decreases |level|
  {
    if |level| == 1 then []
    else [level[SiblingOf(index, |level|)][..PROOF_ENTRY_SIZE]] + PathOf(h, NextLevel(h, level), index / 2)
  }

  /** Completeness: for every tree size and index, the extracted proof leads from the leaf to the root. */
  lemma {:induction false} ProofReproducesRoot(h: Hasher, leaves: seq<Hash32>, index: nat)
    requires index < |leaves|
    ensures RootFromProof(h, index, leaves[index], Concat(PathOf(h, leaves, index))) == Some(TreeRoot(h, leaves))
    decreases |leaves|
  {
    if |leaves| > 1 {
      var up := NextLevel(h, leaves);
      var path := PathOf(h, leaves, index);
      var proof := Concat(path);
      ProofReproducesRoot(h, up, index / 2);
      assert path[1..] == PathOf(h, up, index / 2);
      assert proof[..PROOF_ENTRY_SIZE] == path[0];
      assert proof[PROOF_ENTRY_SIZE..] == Concat(path[1..]);
      ParentIsPair(leaves, index);
      NextLevelAt(h, leaves, index / 2);
    }
  }

  lemma PathUnfold(h: Hasher, level: seq<Hash32>, index: nat)
    requires index < |level|
    ensures PathOf(h, level, index) ==
            if |level| == 1 then []
            else [level[SiblingOf(index, |level|)][..PROOF_ENTRY_SIZE]] + PathOf(h, NextLevel(h, level), index / 2)
  {
    hide NextLevel, SiblingOf;
  }

  // ---- the flat vector the program keeps

  datatype Tree = Tree(nodes: seq<Hash32>, numLeaves: nat)
  {
    function Root(): Hash32
      requires |nodes| > 0
    {
      nodes[|nodes| - 1]
    }

    /** Collects the siblings by walking offsets through the flat vector. */
    method Proof(ghost h: Hasher, ghost leaves: seq<Hash32>, index: nat) returns (proof: seq<Bytes>)
      requires index < numLeaves == |leaves|
      requires nodes == TreeNodes(h, leaves)
      ensures proof == PathOf(h, leaves, index)
    {
      hide NextLevel, SiblingOf, TreeNodes, PathOf;
      proof := [];
      var offset, size, i := 0, numLeaves, index;
      ghost var level := leaves;
      while size > 1
        invariant 0 < size == |level| && i < size
        invariant 0 <= offset <= |nodes| && nodes[offset..] == TreeNodes(h, level)
        invariant proof + PathOf(h, level, i) == PathOf(h, leaves, index)
        decreases size
      {
        var at := SiblingOf(i, size);
        TreeNodesUnfold(h, level);
        PathUnfold(h, level, i);
        var sibling := nodes[offset + at];
        assert sibling == nodes[offset..][at] == level[at];
        Associate(proof, [sibling[..PROOF_ENTRY_SIZE]], PathOf(h, NextLevel(h, level), i / 2));
        proof := proof + [sibling[..PROOF_ENTRY_SIZE]];
        assert nodes[offset + size..] == nodes[offset..][size..];
        offset := offset + size;
        size := (size + 1) / 2;
        i := i / 2;
        level := NextLevel(h, level);
      }
      PathUnfold(h, level, i);
    }
  }

  /** The inner loop of the build: appends the parents of `nodes[offset..offset + size]`. */
  method AppendParents(h: Hasher, nodes: seq<Hash32>, offset: nat, size: nat) returns (grown: seq<Hash32>)
    requires 0 < size && offset + size == |nodes|
    ensures grown == nodes + NextLevel(h, nodes[offset..])
  {
    grown := nodes;
    ghost var level := nodes[offset..];
    ghost var up := NextLevel(h, level);
    var i := offset;
    ghost var done: nat := 0;
    while i < offset + size
      invariant i == offset + 2 * done && done <= |up|
      invariant grown == nodes + up[..done]
    {
      var right := Min(i + 1, offset + size - 1);
      NextLevelAt(h, level, done);
      grown := grown + [Join(h, grown[i], grown[right])];
      i, done := i + 2, done + 1;
    }
  }

  lemma TreeNodesUnfold(h: Hasher, level: seq<Hash32>)
    requires |level| > 0
    ensures TreeNodes(h, level) == if |level| == 1 then level else level + TreeNodes(h, NextLevel(h, level))
  {
    hide NextLevel;
  }

  lemma Associate<T>(a: seq<T>, b: seq<T>, c: seq<T>)
    ensures a + (b + c) == a + b + c
  {
  }

  lemma TreeNodesStep(h: Hasher, below: seq<Hash32>, level: seq<Hash32>)
    requires |level| > 1
    ensures below + TreeNodes(h, level) == below + level + TreeNodes(h, NextLevel(h, level))
  {
    hide NextLevel, TreeNodes;
    TreeNodesUnfold(h, level);
    Associate(below, level, TreeNodes(h, NextLevel(h, level)));
  }

  /** Builds the flat vector level by level; `offset` and `size` delimit the level being joined. */
  method NewTree(h: Hasher, leaves: seq<Hash32>) returns (tree: Tree)
    requires |leaves| > 0
    ensures tree == Tree(TreeNodes(h, leaves), |leaves|)
  {
    var nodes := leaves;
    var offset, size := 0, |leaves|;
    ghost var below, level := [], leaves;
    while size > 1
      invariant 0 < size == |level| && offset == |below| && nodes == below + level
      invariant below + TreeNodes(h, level) == TreeNodes(h, leaves)
      decreases size
    {
      assert nodes[offset..] == level;
      nodes := AppendParents(h, nodes, offset, size);
      TreeNodesStep(h, below, level);
      offset := offset + size;
      size := (size + 1) / 2;
      below, level := below + level, NextLevel(h, level);
    }
    tree := Tree(nodes, |leaves|);
  }

  lemma {:induction false} LastNodeIsRoot(h: Hasher, leaves: seq<Hash32>)
    requires |leaves| > 0
    ensures Tree(TreeNodes(h, leaves), |leaves|).Root() == TreeRoot(h, leaves)
    decreases |leaves|
  {
    hide NextLevel, TreeNodes;
    TreeNodesUnfold(h, leaves);
    if |leaves| > 1 {
      LastNodeIsRoot(h, NextLevel(h, leaves));
    }
  }

  // ---- binding

  /** Two distinct inputs, one from each set, whose hashes share their first 20 bytes. */
  ghost predicate Collide(h: Hasher, a: set<Bytes>, b: set<Bytes>) {
    exists x, y :: x in a && y in b && x != y && h(x)[..PROOF_ENTRY_SIZE] == h(y)[..PROOF_ENTRY_SIZE]
  }

  /** Everything a walk hashes, the leaf excluded. */
  ghost function WalkInputs(h: Hasher, index: nat, node: Hash32, proof: Bytes): set<Bytes>
    decreases |proof|
  {
    if |proof| < PROOF_ENTRY_SIZE then {}
    else
      var input := ParentInput(index, node, proof[..PROOF_ENTRY_SIZE]);
      {input} + WalkInputs(h, index / 2, h(input), proof[PROOF_ENTRY_SIZE..])
  }

  ghost function LevelInputs(level: seq<Hash32>): set<Bytes>
    requires |level| > 0
  {
    set i: nat | i < (|level| + 1) / 2 :: PairInput(level, i)
  }

  /** Everything building the tree hashes, the leaves excluded. */
  ghost function TreeInputs(h: Hasher, level: seq<Hash32>): set<Bytes>
    requires |level| > 0
    decreases |level|
  {
    if |level| == 1 then {} else LevelInputs(level) + TreeInputs(h, NextLevel(h, level))
  }

  lemma NodeInputInjective(a: Bytes, b: Bytes, c: Bytes, d: Bytes)
    requires |a| >= PROOF_ENTRY_SIZE && |b| >= PROOF_ENTRY_SIZE && |c| >= PROOF_ENTRY_SIZE && |d| >= PROOF_ENTRY_SIZE
    requires NodeInput(a, b) == NodeInput(c, d)
    ensures a[..PROOF_ENTRY_SIZE] == c[..PROOF_ENTRY_SIZE] && b[..PROOF_ENTRY_SIZE] == d[..PROOF_ENTRY_SIZE]
  {
    assert NodeInput(a, b)[26..46] == a[..20] && NodeInput(c, d)[26..46] == c[..20];
    assert NodeInput(a, b)[46..] == b[..20] && NodeInput(c, d)[46..] == d[..20];
  }

  lemma LeafIsNotNode(x: Bytes, a: Bytes, b: Bytes)
    requires |a| >= PROOF_ENTRY_SIZE && |b| >= PROOF_ENTRY_SIZE
    ensures LeafInput(x) != NodeInput(a, b)
  {
    assert LeafInput(x)[0] == 0 && NodeInput(a, b)[0] == 1;
  }

  lemma NoCollision(h: Hasher, a: set<Bytes>, b: set<Bytes>, x: Bytes, y: Bytes)
    requires !Collide(h, a, b) && x in a && y in b
    requires h(x)[..PROOF_ENTRY_SIZE] == h(y)[..PROOF_ENTRY_SIZE]
    ensures x == y
  {
  }

  lemma SameParent(level: seq<Hash32>, index: nat, node: Hash32, sibling: Bytes)
    requires |level| % 2 == 0 && index < |level| && |sibling| == PROOF_ENTRY_SIZE
    requires ParentInput(index, node, sibling) == PairInput(level, index / 2)
    ensures node[..PROOF_ENTRY_SIZE] == level[index][..PROOF_ENTRY_SIZE]
    ensures sibling == level[SiblingOf(index, |level|)][..PROOF_ENTRY_SIZE]
  {
    if index % 2 == 0 {
      NodeInputInjective(node, sibling, level[index], level[index + 1]);
    } else {
      NodeInputInjective(sibling, node, level[index - 1], level[index]);
    }
  }

  lemma PairInTree(h: Hasher, level: seq<Hash32>, i: nat)
    requires |level| > 1 && 2 * i < |level|
    ensures PairInput(level, i) in TreeInputs(h, level)
  {
    assert PairInput(level, i) in LevelInputs(level);
  }

  lemma PathCons(h: Hasher, level: seq<Hash32>, index: nat, proof: Bytes)
    requires 1 < |level| && index < |level| && PROOF_ENTRY_SIZE <= |proof|
    requires proof[..PROOF_ENTRY_SIZE] == level[SiblingOf(index, |level|)][..PROOF_ENTRY_SIZE]
    requires proof[PROOF_ENTRY_SIZE..] == Concat(PathOf(h, NextLevel(h, level), index / 2))
    ensures proof == Concat(PathOf(h, level, index))
  {
    var path := PathOf(h, level, index);
    assert path[1..] == PathOf(h, NextLevel(h, level), index / 2);
  }

  /** A proof as long as the tree is deep can only be the extracted one. */
  lemma {:induction false} BindSameDepth(h: Hasher, level: seq<Hash32>, depth: nat, index: nat, node: Hash32,
                                         proof: Bytes)
    requires |level| == Pow2(depth) && |proof| == PROOF_ENTRY_SIZE * depth
    requires RootFromProof(h, index, node, proof) == Some(TreeRoot(h, level))
    requires !Collide(h, WalkInputs(h, index, node, proof), TreeInputs(h, level))
    ensures index < |level| && node[..PROOF_ENTRY_SIZE] == level[index][..PROOF_ENTRY_SIZE]
    ensures proof == Concat(PathOf(h, level, index))
    decreases depth
  {
    hide NodeInput, PairInput, ParentInput, LevelInputs, TreeInputs, WalkInputs, Collide, Walk, PathOf, Concat,
         NextLevel;
    if depth == 0 {
      WalkNothing(h, index, node, proof);
      PathUnfold(h, level, index);
      assert Concat([]) == [] by { ConcatSize([], 0); }
    } else {
      var up := NextLevel(h, level);
      var sibling, rest := proof[..PROOF_ENTRY_SIZE], proof[PROOF_ENTRY_SIZE..];
      var input := ParentInput(index, node, sibling);
      WalkOnce(h, index, node, proof);
      TreeInputsUp(h, level);
      CollideGrows(h, WalkInputs(h, index / 2, h(input), rest), TreeInputs(h, up), WalkInputs(h, index, node, proof),
                   TreeInputs(h, level));
      BindSameDepth(h, up, depth - 1, index / 2, h(input), rest);
      NextLevelAt(h, level, index / 2);
      PairInTree(h, level, index / 2);
      NoCollision(h, WalkInputs(h, index, node, proof), TreeInputs(h, level), input, PairInput(level, index / 2));
      SameParent(level, index, node, sibling);
      PathCons(h, level, index, proof);
    }
  }

  lemma WalkNothing(h: Hasher, index: nat, node: Hash32, proof: Bytes)
    requires |proof| < PROOF_ENTRY_SIZE
    ensures RootFromProof(h, index, node, proof) == if index == 0 then Some(node) else None
  {
  }

  /** One step of a walk. */
  lemma WalkOnce(h: Hasher, index: nat, node: Hash32, proof: Bytes)
    requires |proof| >= PROOF_ENTRY_SIZE
    ensures var input, rest := ParentInput(index, node, proof[..PROOF_ENTRY_SIZE]), proof[PROOF_ENTRY_SIZE..];
            && RootFromProof(h, index, node, proof) == RootFromProof(h, index / 2, h(input), rest)
            && input in WalkInputs(h, index, node, proof)
            && WalkInputs(h, index / 2, h(input), rest) <= WalkInputs(h, index, node, proof)
  {
    hide ParentInput;
  }

  lemma TreeInputsUp(h: Hasher, level: seq<Hash32>)
    requires |level| > 1
    ensures TreeInputs(h, NextLevel(h, level)) <= TreeInputs(h, level)
    ensures TreeRoot(h, NextLevel(h, level)) == TreeRoot(h, level)
  {
    hide LevelInputs, NextLevel;
  }

  lemma CollideGrows(h: Hasher, a: set<Bytes>, b: set<Bytes>, a': set<Bytes>, b': set<Bytes>)
    requires a <= a' && b <= b' && !Collide(h, a', b')
    ensures !Collide(h, a, b)
  {
  }

  /** The level `n` steps above `level`. */
  function Up(h: Hasher, level: seq<Hash32>, n: nat): (r: seq<Hash32>)
    requires |level| > 0
    ensures |r| > 0
    decreases n
  {
    if n == 0 then level else Up(h, NextLevel(h, level), n - 1)
  }

  /** Every node above the lowest level is the hash of a node input of the tree. */
  lemma NodesAbove(h: Hasher, level: seq<Hash32>, i: nat)
    requires |level| > 1 && i < |NextLevel(h, level)|
    ensures exists a: Hash32, b: Hash32 ::
            NextLevel(h, level)[i] == h(NodeInput(a, b)) && NodeInput(a, b) in TreeInputs(h, level)
  {
    hide NodeInput, TreeInputs;
    NextLevelAt(h, level, i);
    PairInTree(h, level, i);
  }

  ghost predicate IsNode(h: Hasher, inputs: set<Bytes>, x: Hash32) {
    exists a: Hash32, b: Hash32 :: x == h(NodeInput(a, b)) && NodeInput(a, b) in inputs
  }

  lemma {:induction false} UpFacts(h: Hasher, level: seq<Hash32>, depth: nat, n: nat)
    requires |level| == Pow2(depth) && n <= depth
    ensures |Up(h, level, n)| == Pow2(depth - n)
    ensures TreeRoot(h, Up(h, level, n)) == TreeRoot(h, level)
    ensures TreeInputs(h, Up(h, level, n)) <= TreeInputs(h, level)
    ensures n > 0 ==> forall i :: 0 <= i < Pow2(depth - n) ==> IsNode(h, TreeInputs(h, level), Up(h, level, n)[i])
    decreases n
  {
    hide NextLevel, TreeInputs, TreeRoot, NodeInput;
    if n > 0 {
      var up := NextLevel(h, level);
      TreeInputsUp(h, level);
      UpFacts(h, up, depth - 1, n - 1);
      forall i | 0 <= i < Pow2(depth - n)
        ensures IsNode(h, TreeInputs(h, level), Up(h, level, n)[i])
      {
        if n == 1 {
          NodesAbove(h, level, i);
        } else {
          assert IsNode(h, TreeInputs(h, up), Up(h, up, n - 1)[i]);
        }
      }
    }
  }

  lemma {:induction false} WalkSplit(h: Hasher, index: nat, node: Hash32, proof: Bytes, n: nat)
    requires PROOF_ENTRY_SIZE * n <= |proof|
    ensures var (mid, at) := Walk(h, index, node, proof[..PROOF_ENTRY_SIZE * n]);
            && Walk(h, index, node, proof) == Walk(h, mid, at, proof[PROOF_ENTRY_SIZE * n..])
            && WalkInputs(h, mid, at, proof[PROOF_ENTRY_SIZE * n..]) <= WalkInputs(h, index, node, proof)
            && (n > 0 ==> exists a: Bytes, b: Bytes :: |a| >= PROOF_ENTRY_SIZE && |b| >= PROOF_ENTRY_SIZE &&
                                                        at == h(NodeInput(a, b)) &&
                                                        NodeInput(a, b) in WalkInputs(h, index, node, proof))
    decreases n
  {
    if n == 0 {
      assert proof[0..] == proof;
    } else {
      var cut := PROOF_ENTRY_SIZE * n;
      var sibling, rest := proof[..PROOF_ENTRY_SIZE], proof[PROOF_ENTRY_SIZE..];
      var input := ParentInput(index, node, sibling);
      WalkSplit(h, index / 2, h(input), rest, n - 1);
      assert proof[..cut][..PROOF_ENTRY_SIZE] == sibling;
      assert proof[..cut][PROOF_ENTRY_SIZE..] == rest[..cut - PROOF_ENTRY_SIZE];
      assert proof[cut..] == rest[cut - PROOF_ENTRY_SIZE..];
      if n == 1 {
        assert input in WalkInputs(h, index, node, proof);
      }
    }
  }

  function LeafHashes(h: Hasher, leaves: seq<Bytes>): (r: seq<Hash32>)
    ensures |r| == |leaves| && forall i :: 0 <= i < |r| ==> r[i] == Leaf(h, leaves[i])
  {
    seq(|leaves|, i requires 0 <= i < |leaves| => Leaf(h, leaves[i]))
  }

  /** All hash inputs of a walk that starts at the leaf for `x`. */
  ghost function ClaimInputs(h: Hasher, index: nat, x: Bytes, proof: Bytes): set<Bytes> {
    {LeafInput(x)} + WalkInputs(h, index, Leaf(h, x), proof)
  }

  /** All hash inputs of the tree over `leaves`. */
  ghost function HonestInputs(h: Hasher, leaves: seq<Bytes>): set<Bytes>
    requires |leaves| > 0
  {
    (set i | 0 <= i < |leaves| :: LeafInput(leaves[i])) + TreeInputs(h, LeafHashes(h, leaves))
  }

  lemma BindTooShort(h: Hasher, leaves: seq<Bytes>, depth: nat, index: nat, x: Bytes, proof: Bytes, entries: nat)
    requires |leaves| == Pow2(depth) && |proof| == PROOF_ENTRY_SIZE * entries && entries < depth
    requires RootFromProof(h, index, Leaf(h, x), proof) == Some(TreeRoot(h, LeafHashes(h, leaves)))
    ensures Collide(h, ClaimInputs(h, index, x, proof), HonestInputs(h, leaves))
  {
    hide NodeInput, LeafInput, TreeInputs, WalkInputs, Up, RootFromProof, TreeRoot, PathOf, Concat, Collide;
    var claimed, honest := ClaimInputs(h, index, x, proof), HonestInputs(h, leaves);
    if !Collide(h, claimed, honest) {
      var level := LeafHashes(h, leaves);
      var up := Up(h, level, depth - entries);
      UpFacts(h, level, depth, depth - entries);
      CollideGrows(h, WalkInputs(h, index, Leaf(h, x), proof), TreeInputs(h, up), claimed, honest);
      BindSameDepth(h, up, entries, index, Leaf(h, x), proof);
      assert IsNode(h, TreeInputs(h, level), up[index]);
      var a: Hash32, b: Hash32 :| up[index] == h(NodeInput(a, b)) && NodeInput(a, b) in TreeInputs(h, level);
      NoCollision(h, claimed, honest, LeafInput(x), NodeInput(a, b));
      LeafIsNotNode(x, a, b);
    }
  }

  lemma BindTooLong(h: Hasher, leaves: seq<Bytes>, depth: nat, index: nat, x: Bytes, proof: Bytes, entries: nat)
    requires |leaves| == Pow2(depth) && |proof| == PROOF_ENTRY_SIZE * entries && entries > depth
    requires RootFromProof(h, index, Leaf(h, x), proof) == Some(TreeRoot(h, LeafHashes(h, leaves)))
    ensures Collide(h, ClaimInputs(h, index, x, proof), HonestInputs(h, leaves))
  {
    hide NodeInput, LeafInput, TreeInputs, WalkInputs, Walk, TreeRoot, PathOf, Concat, Collide;
    var claimed, honest := ClaimInputs(h, index, x, proof), HonestInputs(h, leaves);
    if !Collide(h, claimed, honest) {
      var n := entries - depth;
      WalkSplit(h, index, Leaf(h, x), proof, n);
      var (mid, at) := Walk(h, index, Leaf(h, x), proof[..PROOF_ENTRY_SIZE * n]);
      var rest := proof[PROOF_ENTRY_SIZE * n..];
      CollideGrows(h, WalkInputs(h, mid, at, rest), TreeInputs(h, LeafHashes(h, leaves)), claimed, honest);
      BindSameDepth(h, LeafHashes(h, leaves), depth, mid, at, rest);
      var a: Bytes, b: Bytes :| |a| >= PROOF_ENTRY_SIZE && |b| >= PROOF_ENTRY_SIZE && at == h(NodeInput(a, b)) &&
                                NodeInput(a, b) in WalkInputs(h, index, Leaf(h, x), proof);
      assert LeafInput(leaves[mid]) in honest;
      NoCollision(h, claimed, honest, NodeInput(a, b), LeafInput(leaves[mid]));
      LeafIsNotNode(leaves[mid], a, b);
    }
  }

  /**
   * Binding, for every tree with a power of two of leaves and proofs of any length in whole entries: a walk that
   * reaches the root proves exactly the leaf at that index, with exactly the extracted proof, unless something the
   * walk hashed collides with something else the tree hashed.
   */
  lemma Binding(h: Hasher, leaves: seq<Bytes>, depth: nat, index: nat, x: Bytes, proof: Bytes)
    requires |leaves| == Pow2(depth) && |proof| % PROOF_ENTRY_SIZE == 0
    requires RootFromProof(h, index, Leaf(h, x), proof) == Some(TreeRoot(h, LeafHashes(h, leaves)))
    ensures || (index < |leaves| && x == leaves[index] && proof == Concat(PathOf(h, LeafHashes(h, leaves), index)))
            || Collide(h, ClaimInputs(h, index, x, proof), HonestInputs(h, leaves))
  {
    var entries := |proof| / PROOF_ENTRY_SIZE;
    if entries < depth {
      BindTooShort(h, leaves, depth, index, x, proof, entries);
    } else if entries > depth {
      BindTooLong(h, leaves, depth, index, x, proof, entries);
    } else if !Collide(h, ClaimInputs(h, index, x, proof), HonestInputs(h, leaves)) {
      BindSameDepth(h, LeafHashes(h, leaves), depth, index, Leaf(h, x), proof);
      NoCollision(h, ClaimInputs(h, index, x, proof), HonestInputs(h, leaves), LeafInput(x), LeafInput(leaves[index]));
      assert LeafInput(x)[26..] == x && LeafInput(leaves[index])[26..] == leaves[index];
    }
  }
}
