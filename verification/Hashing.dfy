/** Exactly which bytes are hashed, spelled out: the two prefixes as text, and the children in their order. */
module Hashing {
  import opened Wire
  import opened Merkle
  import opened Shreds
  import opened WireFormat

  function Ascii(text: string): (r: Bytes)
    requires forall i :: 0 <= i < |text| ==> text[i] < 128 as char
    ensures |r| == |text| && forall i :: 0 <= i < |r| ==> r[i] == text[i] as int
  {
    seq(|text|, i requires 0 <= i < |text| => text[i] as int)
  }

  function LeafHash(h: Hasher, bytes: Bytes): Hash32 {
    h([0] + Ascii("SOLANA_MERKLE_SHREDS_LEAF") + bytes)
  }

  /** The hash above two nodes: the first 20 bytes of the left one, then those of the right one. */
  function PairHash(h: Hasher, left: Bytes, right: Bytes): Hash32
    requires |left| >= 20 && |right| >= 20
  {
    h([1] + Ascii("SOLANA_MERKLE_SHREDS_NODE") + left[..20] + right[..20])
  }

  lemma LeafText()
    ensures LEAF_PREFIX == [0] + Ascii("SOLANA_MERKLE_SHREDS_LEAF")
  {
  }

  lemma NodeText()
    ensures NODE_PREFIX == [1] + Ascii("SOLANA_MERKLE_SHREDS_NODE")
  {
  }

  /** A leaf is hashed with its own prefix, and two nodes are joined left before right. */
  lemma HashesAre(h: Hasher, bytes: Bytes, left: Bytes, right: Bytes)
    requires |left| >= 20 && |right| >= 20
    ensures Leaf(h, bytes) == LeafHash(h, bytes) && Join(h, left, right) == PairHash(h, left, right)
  {
    hide Ascii;
    LeafText();
    NodeText();
  }

  /** Every node above the leaves is the hash of its two children; a last child without a sibling counts twice. */
  lemma NodeAbove(h: Hasher, level: seq<Hash32>, i: nat)
    requires 2 * i < |level|
    ensures NextLevel(h, level)[i] == PairHash(h, level[2 * i], level[if 2 * i + 1 < |level| then 2 * i + 1 else 2 * i])
  {
    hide PairHash, NextLevel;
    NextLevelAt(h, level, i);
    HashesAre(h, [], level[2 * i], level[if 2 * i + 1 < |level| then 2 * i + 1 else 2 * i]);
  }

  /** Roots of small trees. */
  lemma SmallRoots(h: Hasher, a: Hash32, b: Hash32, c: Hash32)
    ensures TreeRoot(h, [a]) == a
    ensures TreeRoot(h, [a, b]) == PairHash(h, a, b)
    ensures TreeRoot(h, [a, b, c]) == PairHash(h, PairHash(h, a, b), PairHash(h, c, c))
  {
    hide PairHash, NextLevel, TreeRoot;
    var two, three := [a, b], [a, b, c];
    NodeAbove(h, two, 0);
    NodeAbove(h, three, 0);
    NodeAbove(h, three, 1);
    assert NextLevel(h, two) == [PairHash(h, a, b)];
    var up := NextLevel(h, three);
    assert up == [PairHash(h, a, b), PairHash(h, c, c)];
    NodeAbove(h, up, 0);
    assert NextLevel(h, up) == [PairHash(h, up[0], up[1])];
    RootStep(h, two);
    RootStep(h, three);
    RootStep(h, up);
    RootStep(h, NextLevel(h, two));
    RootStep(h, NextLevel(h, up));
    RootStep(h, [a]);
  }

  lemma RootStep(h: Hasher, level: seq<Hash32>)
    requires |level| > 0
    ensures TreeRoot(h, level) == if |level| == 1 then level[0] else TreeRoot(h, NextLevel(h, level))
  {
    hide NextLevel;
  }

  /** A walk joins the node with the next 20 bytes, on the right at an even index and on the left at an odd one. */
  lemma WalkStep(h: Hasher, index: nat, node: Hash32, proof: Bytes)
    ensures |proof| >= 20 ==>
              RootFromProof(h, index, node, proof) ==
              RootFromProof(h, index / 2,
                if index % 2 == 0 then PairHash(h, node, proof[..20]) else PairHash(h, proof[..20], node), proof[20..])
    ensures |proof| < 20 ==> RootFromProof(h, index, node, proof) == if index == 0 then Some(node) else None
  {
    hide PairHash;
    if |proof| >= 20 {
      HashesAre(h, [], node, proof[..20]);
      HashesAre(h, [], proof[..20], node);
    }
  }

  /** The two one-entry proofs of a tree with two leaves, and the three proofs of a tree with three. */
  lemma SmallProofs(h: Hasher, a: Hash32, b: Hash32, c: Hash32)
    ensures RootFromProof(h, 0, a, b[..20]) == RootFromProof(h, 1, b, a[..20]) == Some(PairHash(h, a, b))
    ensures PathOf(h, [a, b], 0) == [b[..20]] && PathOf(h, [a, b], 1) == [a[..20]]
    ensures var ab, cc := PairHash(h, a, b), PairHash(h, c, c);
            && PathOf(h, [a, b, c], 0) == [b[..20], cc[..20]]
            && PathOf(h, [a, b, c], 1) == [a[..20], cc[..20]]
            && PathOf(h, [a, b, c], 2) == [c[..20], ab[..20]]
  {
    hide PathOf, NextLevel;
    WalkStep(h, 0, a, b[..20]);
    WalkStep(h, 1, b, a[..20]);
    PairPrefix(h, a, b);
    WalkStep(h, 0, PairHash(h, a, b), []);
    assert b[..20][20..] == [] && a[..20][20..] == [];
    assert b[..20][..20] == b[..20] && a[..20][..20] == a[..20];
    PairPaths(h, a, b);
    var three := [a, b, c];
    NodeAbove(h, three, 0);
    NodeAbove(h, three, 1);
    assert NextLevel(h, three) == [PairHash(h, a, b), PairHash(h, c, c)];
    PairPaths(h, PairHash(h, a, b), PairHash(h, c, c));
    PathUnfold(h, three, 0);
    PathUnfold(h, three, 1);
    PathUnfold(h, three, 2);
  }

  lemma PairPrefix(h: Hasher, a: Bytes, b: Bytes)
    requires |a| >= 20 && |b| >= 20
    ensures PairHash(h, a, b[..20]) == PairHash(h, a, b) == PairHash(h, a[..20], b)
  {
    assert a[..20][..20] == a[..20] && b[..20][..20] == b[..20];
  }

  lemma PairPaths(h: Hasher, a: Hash32, b: Hash32)
    ensures PathOf(h, [a, b], 0) == [b[..20]] && PathOf(h, [a, b], 1) == [a[..20]]
  {
    hide NextLevel, PathOf;
    PathUnfold(h, [a, b], 0);
    PathUnfold(h, [a, b], 1);
    PathUnfold(h, NextLevel(h, [a, b]), 0);
  }

  /** The root of a shred from the bytes of its datagram. */
  lemma DataShredRoot(h: Hasher, b: Bytes, s: Shred)
    requires DataLegal(b) && Parse(b) == Ok(s)
    ensures s.Wf()
    ensures var end := 120 + Room(b[64]);
            s.MerkleRoot(h) ==
            RootFromProof(h, Le4(b, 73) - Le4(b, 79), LeafHash(h, b[64..end]), b[end..end + 20 * (b[64] as nat % 16)])
  {
    hide Parse, LeafHash, RootFromProof, DataLegal, Shred.Position, Shred.LeafBytes, Shred.MerkleProof, Shred.Wf,
         PairHash;
    DataContent(b, s);
    HashesAre(h, s.LeafBytes(), Zeros(32), Zeros(32));
  }

  lemma CodeShredRoot(h: Hasher, b: Bytes, s: Shred)
    requires CodeLegal(b) && Parse(b) == Ok(s)
    ensures s.Wf()
    ensures var end := 121 + CodeRoom(b[64]);
            s.MerkleRoot(h) ==
            RootFromProof(h, 32 + Le2(b, 87), LeafHash(h, b[64..end]), b[end..end + 20 * (b[64] as nat % 16)])
  {
    hide Parse, LeafHash, RootFromProof, CodeLegal, Shred.Position, Shred.LeafBytes, Shred.MerkleProof, Shred.Wf,
         PairHash;
    CodeContent(b, s);
    HashesAre(h, s.LeafBytes(), Zeros(32), Zeros(32));
  }
}
