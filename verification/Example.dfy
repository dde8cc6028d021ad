/** An honest slot exists for every hash function: one set, complete with its tree and its erasure code. */
module Example {
  import opened Wire
  import opened Merkle
  import opened Shreds
  import opened Fec
  import opened Segments
  import opened SlotSpec
  import opened Leader
  import opened Fidelity

  const PROOF_SIZE := 120 // six entries

  /** Bytes up to the proof: slot 0, set 0, no payload; data shred 31 ends the slot. */
  function Front(p: nat): (r: Bytes)
    requires p < SET_SIZE
    ensures |r| == if p < SHREDS_PER_SIDE then 1083 else 1108
  {
    if p < SHREDS_PER_SIDE then
      Zeros(64) + [150] + Zeros(8) + [p, 0, 0, 0] + Zeros(8) + [if p == 31 then 192 else 0, 88, 0] + Zeros(995)
    else
      var q := p - SHREDS_PER_SIDE;
      Zeros(64) + [102] + Zeros(8) + [q, 0, 0, 0] + Zeros(6) + [32, 0, 32, 0, q, 0] + Zeros(1019)
  }

  function Member(p: nat, proof: Bytes): Shred
    requires p < SET_SIZE
  {
    var b := Front(p) + proof;
    if p < SHREDS_PER_SIDE then Shred(b, Data, false, 6, 0, p, 0, 0, 963, DataHeader(0, if p == 31 then 192 else 0, 88))
    else Shred(b, Code, false, 6, 0, p - SHREDS_PER_SIDE, 0, 0, 987, CodeHeader(p - SHREDS_PER_SIDE))
  }

  lemma CommonFields(p: nat, b: Bytes)
    requires p < SET_SIZE && Front(p) <= b
    ensures var position := if p < SHREDS_PER_SIDE then p else p - SHREDS_PER_SIDE;
            && b[VARIANT_OFFSET] == (if p < SHREDS_PER_SIDE then 150 else 102) && U64At(b, SLOT_OFFSET) == 0
            && U32At(b, INDEX_OFFSET) == position && U16At(b, VERSION_OFFSET) == 0 &&
               U32At(b, FEC_SET_INDEX_OFFSET) == 0
  {
    hide FromLe, Front;
    var f := Front(p);
    var position: byte := if p < SHREDS_PER_SIDE then p else p - SHREDS_PER_SIDE;
    FrontSlices(p);
    assert b[64] == f[64];
    PrefixSlice(f, b, 65, 73);
    PrefixSlice(f, b, 73, 77);
    PrefixSlice(f, b, 77, 79);
    PrefixSlice(f, b, 79, 83);
    ZerosValue(8);
    ZerosValue(4);
    ZerosValue(2);
    LowValue(position, 3);
  }

  lemma FrontSlices(p: nat)
    requires p < SET_SIZE
    ensures var f, position: byte := Front(p), if p < SHREDS_PER_SIDE then p else p - SHREDS_PER_SIDE;
            && f[64] == (if p < SHREDS_PER_SIDE then 150 else 102)
            && f[65..73] == Zeros(8) && f[73..77] == [position] + Zeros(3) && f[77..79] == Zeros(2) &&
               f[79..83] == Zeros(4)
  {
  }

  lemma DataFields(p: nat, b: Bytes)
    requires p < SHREDS_PER_SIDE && Front(p) <= b
    ensures U16At(b, PARENT_OFFSET_OFFSET) == 0 && b[FLAGS_OFFSET] == (if p == 31 then 192 else 0)
    ensures U16At(b, SIZE_OFFSET) == 88
  {
    hide FromLe;
    var f := Front(p);
    assert b[85] == f[85];
    PrefixSlice(f, b, 83, 85);
    PrefixSlice(f, b, 86, 88);
    assert f[83..85] == Zeros(2) && f[86..88] == [88] + Zeros(1);
    ZerosValue(2);
    LowValue(88, 1);
  }

  lemma CodeFields(p: nat, b: Bytes)
    requires SHREDS_PER_SIDE <= p < SET_SIZE && Front(p) <= b
    ensures U16At(b, NUM_DATA_OFFSET) == 32 && U16At(b, NUM_CODE_OFFSET) == 32
    ensures U16At(b, POSITION_OFFSET) == p - SHREDS_PER_SIDE
  {
    hide FromLe;
    var f := Front(p);
    var q: byte := p - SHREDS_PER_SIDE;
    PrefixSlice(f, b, 83, 85);
    PrefixSlice(f, b, 85, 87);
    PrefixSlice(f, b, 87, 89);
    assert f[83..85] == [32] + Zeros(1) && f[85..87] == [32] + Zeros(1) && f[87..89] == [q] + Zeros(1);
    LowValue(32, 1);
    LowValue(q, 1);
  }

  lemma MemberParses(p: nat, proof: Bytes)
    requires p < SET_SIZE && |proof| == PROOF_SIZE
    ensures Parsed(Member(p, proof)) && Member(p, proof).Wf()
  {
    hide Front;
    var b := Front(p) + proof;
    CommonFields(p, b);
    assert b[..|b|] == b;
    if p < SHREDS_PER_SIDE {
      DataFields(p, b);
    } else {
      CodeFields(p, b);
    }
  }

  lemma MemberRegions(p: nat, proof: Bytes)
    requires p < SET_SIZE && |proof| == PROOF_SIZE && Member(p, proof).Wf()
    ensures var s := Member(p, proof);
            && s.Position() == p && s.MerkleProof() == proof && s.LeafBytes() == Front(p)[64..]
            && s.Signature() == Zeros(64) && s.ChainedMerkleRoot() == Zeros(32) && |s.ErasureShard()| == 987
  {
    var s, f := Member(p, proof), Front(p);
    assert s.bytes[64..|f|] == f[64..];
    assert s.bytes[..64] == f[..64] == Zeros(64);
    assert s.bytes[|f| - 32..|f|] == f[|f| - 32..] == Zeros(32);
  }

  function FrontLeaves(): (r: seq<Bytes>)
    ensures |r| == SET_SIZE && forall p :: 0 <= p < SET_SIZE ==> r[p] == Front(p)[64..]
  {
    seq(SET_SIZE, p requires 0 <= p < SET_SIZE => Front(p)[64..])
  }

  /** The proofs of a tree with 2 to the `depth` leaves have `depth` entries. */
  lemma {:induction false} PathSize(h: Hasher, level: seq<Hash32>, depth: nat, index: nat)
    requires |level| == Pow2(depth) && index < |level|
    ensures |Concat(PathOf(h, level, index))| == PROOF_ENTRY_SIZE * depth
    decreases depth
  {
    if depth > 0 {
      var path := PathOf(h, level, index);
      PathSize(h, NextLevel(h, level), depth - 1, index / 2);
      assert path[1..] == PathOf(h, NextLevel(h, level), index / 2);
    }
  }

  function ProofFor(h: Hasher, p: nat): (r: Bytes)
    requires p < SET_SIZE
    ensures |r| == PROOF_SIZE
  {
    assert Pow2(6) == 64 by { assert Pow2(3) == 8; }
    PathSize(h, LeafHashes(h, FrontLeaves()), TREE_DEPTH, p);
    Concat(PathOf(h, LeafHashes(h, FrontLeaves()), p))
  }

  /** The 64 shreds of the set, each with its proof. */
  function Set(h: Hasher): (g: seq<Shred>)
    ensures |g| == SET_SIZE && forall p :: 0 <= p < SET_SIZE ==> g[p] == Member(p, ProofFor(h, p))
  {
    seq(SET_SIZE, p requires 0 <= p < SET_SIZE => Member(p, ProofFor(h, p)))
  }

  lemma SetMember(h: Hasher, p: nat)
    requires p < SET_SIZE
    ensures var s := Set(h)[p];
            && Parsed(s) && s.Wf() && s.Position() == p && s.LeafBytes() == FrontLeaves()[p] &&
               s.MerkleProof() == ProofFor(h, p)
            && s.Signature() == Zeros(64) && s.ChainedMerkleRoot() == Zeros(32) && |s.ErasureShard()| == 987
            && s.slot == 0 && s.version == 0 && s.fecSetIndex == 0 && s.proofSize == 6 && !s.resigned
  {
    hide Front, Parse, Concat;
    MemberParses(p, ProofFor(h, p));
    MemberRegions(p, ProofFor(h, p));
  }

  /** An erasure code that knows one codeword. */
  function CodeFor(shards: seq<Bytes>): (f: seq<(Bytes, bool)> -> Option<seq<Bytes>>)
    ensures KeepsShape(f)
  {
    (given: seq<(Bytes, bool)>) =>
      if |given| == |shards| && forall p :: 0 <= p < |shards| ==> |given[p].0| == |shards[p]| then Some(shards)
          else None
  }

  function ShardsIn(g: seq<Shred>): (r: seq<Bytes>)
    requires forall p :: 0 <= p < |g| ==> g[p].Wf()
    ensures |r| == |g| && forall p :: 0 <= p < |g| ==> r[p] == g[p].ErasureShard()
  {
    seq(|g|, p requires 0 <= p < |g| => g[p].ErasureShard())
  }

  lemma SetParsed(h: Hasher)
    ensures AllParsed(Set(h))
  {
    hide Parsed, Set;
    forall p | 0 <= p < SET_SIZE
      ensures Parsed(Set(h)[p]) && Set(h)[p].Wf()
    {
      SetMember(h, p);
    }
  }

  /** What an honest set asks of the shred at position `p`. */
  lemma MemberIsHonest(h: Hasher, p: nat)
    requires p < SET_SIZE && AllParsed(Set(h)) && Leaves(Set(h)) == FrontLeaves()
    ensures var g := Set(h);
            && g[p].Position() == p && g[p].fecSetIndex == 0 && Siblings(g[p], g[0]) &&
               g[p].Signature() == g[0].Signature()
            && g[p].MerkleProof() == Concat(PathOf(h, LeafHashes(h, Leaves(g)), p))
  {
    hide Parsed, Set, ProofFor, FrontLeaves, PathOf, Concat, LeafHashes, Leaves;
    SetMember(h, p);
    SetMember(h, 0);
    ProofForIs(h, p);
  }

  lemma SetLeaves(h: Hasher)
    requires AllParsed(Set(h))
    ensures Leaves(Set(h)) == FrontLeaves()
  {
    hide Parsed, Set, ProofFor;
    forall p | 0 <= p < SET_SIZE
      ensures Set(h)[p].LeafBytes() == FrontLeaves()[p]
    {
      SetMember(h, p);
    }
  }

  lemma KnownCodeword(g: seq<Shred>)
    requires AllParsed(g) && |g| == SET_SIZE
    ensures Codeword(CodeFor(ShardsIn(g)), g)
  {
    hide Parsed, Present;
  }

  lemma SetIsHonest(h: Hasher)
    ensures AllParsed(Set(h))
    ensures HonestSet(h, CodeFor(ShardsIn(Set(h))), 0, Set(h))
  {
    hide AllParsed, Codeword, CodeFor, ShardsIn, Set, FrontLeaves, PathOf, Concat, LeafHashes, Leaves, Siblings;
    var g := Set(h);
    SetParsed(h);
    SetLeaves(h);
    KnownCodeword(g);
    forall p | 0 <= p < SET_SIZE
      ensures g[p].Wf() && g[0].Wf() && g[p].Position() == p && g[p].fecSetIndex == 0 && Siblings(g[p], g[0])
      ensures g[p].Signature() == g[0].Signature()
      ensures g[p].MerkleProof() == Concat(PathOf(h, LeafHashes(h, Leaves(g)), p))
    {
      SetMember(h, p);
      SetMember(h, 0);
      MemberIsHonest(h, p);
    }
  }

  lemma ProofForIs(h: Hasher, p: nat)
    requires p < SET_SIZE
    ensures ProofFor(h, p) == Concat(PathOf(h, LeafHashes(h, FrontLeaves()), p))
  {
    hide FrontLeaves, PathOf, Concat;
  }

  lemma OneSetTaken(g: seq<Shred>, i: nat)
    requires |g| == SET_SIZE && i < SHREDS_PER_SIDE
    ensures i in LeaderTaken(map[0 := g]) && LeaderTaken(map[0 := g])[i] == g[i]
  {
    SetOfMember(0, i);
  }

  lemma OnlyLastCompletes(p: nat, proof: Bytes)
    requires p < SHREDS_PER_SIDE
    ensures Member(p, proof).DataComplete() <==> p == 31
  {
    hide Front;
  }

  lemma SetIsRun(h: Hasher)
    ensures IsRun(LeaderTaken(map[0 := Set(h)]), 0, 31)
  {
    hide Member, ProofFor, LeaderTaken;
    var taken := LeaderTaken(map[0 := Set(h)]);
    forall i: nat | i < SHREDS_PER_SIDE
      ensures i in taken && (taken[i].DataComplete() <==> i == 31)
    {
      OneSetTaken(Set(h), i);
      OnlyLastCompletes(i, ProofFor(h, i));
    }
  }

  /** For every hash function there are an erasure code and an honest slot whose 32 data shreds are one run. */
  lemma HonestSlotExists(h: Hasher)
    ensures exists rs: ReedSolomon, L: Sets :: Honest(h, rs, L) && IsRun(LeaderTaken(L), 0, 31)
  {
    hide HonestSet, Set, IsRun, AllParsed, LeaderTaken, CodeFor, ShardsIn;
    SetIsHonest(h);
    SetIsRun(h);
    var rs: ReedSolomon := CodeFor(ShardsIn(Set(h)));
    var L: Sets := map[0 := Set(h)];
    assert Honest(h, rs, L);
  }
}
