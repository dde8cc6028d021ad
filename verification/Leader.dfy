/** What a leader makes of a slot, and what reassembly therefore keeps: every stored shred agrees with the leader's. */
module Leader {
  import opened Wire
  import opened Merkle
  import opened Shreds
  import opened Fec

  const SET_SIZE := 64
  const TREE_DEPTH := 6

  ghost predicate AllParsed(g: seq<Shred>) {
    forall p :: 0 <= p < |g| ==> Parsed(g[p]) && g[p].Wf()
  }

  ghost function Leaves(g: seq<Shred>): (r: seq<Bytes>)
    requires AllParsed(g)
    ensures |r| == |g| && forall p :: 0 <= p < |g| ==> r[p] == g[p].LeafBytes()
  {
    seq(|g|, p requires 0 <= p < |g| => g[p].LeafBytes())
  }

  /** The root the leader signs for a set. */
  ghost function SetRoot(h: Hasher, g: seq<Shred>): Hash32
    requires AllParsed(g) && |g| == SET_SIZE
  {
    TreeRoot(h, LeafHashes(h, Leaves(g)))
  }

  /** Shreds made for the same set: same coordinates, same variant apart from the kind, same chained root. */
  ghost predicate Siblings(s: Shred, t: Shred)
    requires s.Wf() && t.Wf()
  {
    && s.slot == t.slot && s.version == t.version && s.fecSetIndex == t.fecSetIndex
    && s.proofSize == t.proofSize && s.resigned == t.resigned
    && s.ChainedMerkleRoot() == t.ChainedMerkleRoot()
  }

  ghost function Present(shards: seq<(Bytes, bool)>): set<nat> {
    set p: nat | p < |shards| && shards[p].1
  }

  /** `shards` is a possibly incomplete copy of the shards of `g`. */
  ghost predicate PartOf(shards: seq<(Bytes, bool)>, g: seq<Shred>)
    requires AllParsed(g)
  {
    && |shards| == |g|
    && forall p :: 0 <= p < |g| ==>
                     && |shards[p].0| == |g[p].ErasureShard()|
                     && (shards[p].1 ==> shards[p].0 == g[p].ErasureShard())
  }

  /** The contract of the erasure code: any 32 of the 64 shards of a codeword give back its data shards. */
  ghost predicate Codeword(rs: ReedSolomon, g: seq<Shred>)
    requires AllParsed(g) && |g| == SET_SIZE
  {
    forall shards :: PartOf(shards, g) && |Present(shards)| >= SHREDS_PER_SIDE ==>
                       && rs(shards).Some?
                       && forall p :: 0 <= p < SHREDS_PER_SIDE ==> rs(shards).value[p] == g[p].ErasureShard()
  }

  /** The 64 shreds of set `f`, in erasure order, each carrying the tree's proof for its own leaf. */
  ghost predicate HonestSet(h: Hasher, rs: ReedSolomon, f: nat, g: seq<Shred>) {
    && |g| == SET_SIZE && AllParsed(g)
    && f % SHREDS_PER_SIDE == 0 && f + SHREDS_PER_SIDE <= MAX_SHREDS_PER_SLOT
    && (forall p :: 0 <= p < SET_SIZE ==> g[p].Position() == p && g[p].fecSetIndex == f && Siblings(g[p], g[0]))
    && (forall p :: 0 <= p < SET_SIZE ==> g[p].Signature() == g[0].Signature())
    && (forall p :: 0 <= p < SET_SIZE ==> g[p].MerkleProof() == Concat(PathOf(h, LeafHashes(h, Leaves(g)), p)))
    && Codeword(rs, g)
  }

  /** A slot as its leader made it: 64 shreds for each of its FEC sets. */
  type Sets = map<nat, seq<Shred>>

  ghost predicate Honest(h: Hasher, rs: ReedSolomon, L: Sets) {
    forall f :: f in L ==> HonestSet(h, rs, f, L[f])
  }

  /** Every shred of an honest set leads to the signed root. */
  lemma HonestRoot(h: Hasher, rs: ReedSolomon, f: nat, g: seq<Shred>, p: nat)
    requires HonestSet(h, rs, f, g) && p < SET_SIZE
    ensures g[p].MerkleRoot(h) == Some(SetRoot(h, g))
  {
    ProofReproducesRoot(h, LeafHashes(h, Leaves(g)), p);
  }

  // ---- recovery gives back what the leader made

  /** The rebuilt bytes: the set's signature, the shard, the template's chained root, zero proof bytes, its trailer. */
  lemma RebuildTiles(template: Shred, signature: Bytes, shard: Bytes)
    requires template.Wf() && |signature| == SIGNATURE_SIZE && |shard| == |template.ErasureShard()|
    ensures RebuildBytes(template, signature, shard) ==
            signature + shard + template.ChainedMerkleRoot() + Zeros(template.proofSize * PROOF_ENTRY_SIZE) +
            (if template.resigned then template.RetransmitterSignature().value else [])
  {
    ShardLength(template);
    var chained := template.ChainedMerkleRoot();
    var b0 := Splice(Zeros(DATA_SHRED_SIZE), 0, signature);
    assert b0 == signature + Zeros(DATA_SHRED_SIZE - SIGNATURE_SIZE);
    var b1 := Splice(b0, SIGNATURE_SIZE, shard);
    var rest := DATA_SHRED_SIZE - SIGNATURE_SIZE - |shard|;
    assert b1 == signature + shard + Zeros(rest);
    var b2 := Splice(b1, SIGNATURE_SIZE + |shard|, chained);
    assert b2 == signature + shard + chained + Zeros(rest - MERKLE_ROOT_SIZE);
  }

  /**
   * Recovery fidelity: from the right shard, any signature and a sibling template, a missing data shred is rebuilt, it
   * parses, and it agrees with the original in every header, its payload, its shard and its chained root.
   */
  lemma RebuildAgrees(template: Shred, signature: Bytes, g: Shred, p: nat)
    requires Parsed(g) && g.Wf() && g.IsData() && g.Position() == p
    requires template.Wf() && Siblings(template, g) && |signature| == SIGNATURE_SIZE
    requires |g.ErasureShard()| == |template.ErasureShard()|
    ensures var r := RebuildShred(template, signature, g.ErasureShard(), p);
            r.Ok? && Agrees(r.value, g) && r.value.Signature() == signature
  {
    hide Parse, RebuildBytes, RebuildShred;
    var b := RebuildBytes(template, signature, g.ErasureShard());
    RebuiltLeaf(template, signature, g);
    SubSlice(b, g.bytes, SIGNATURE_SIZE, g.ProofOffset(), SIGNATURE_SIZE, DATA_HEADERS_SIZE);
    HeadersDecide(g, b);
    RebuildParsed(template, signature, g.ErasureShard(), p, g.(bytes := b));
  }

  /** The rebuilt bytes carry the signature and the leaf of the original. */
  lemma RebuiltLeaf(template: Shred, signature: Bytes, g: Shred)
    requires g.Wf() && g.IsData() && template.Wf() && |signature| == SIGNATURE_SIZE
    requires |g.ErasureShard()| == |template.ErasureShard()| && g.ChainedMerkleRoot() == template.ChainedMerkleRoot()
    ensures var b := RebuildBytes(template, signature, g.ErasureShard());
            b[..SIGNATURE_SIZE] == signature &&
            b[SIGNATURE_SIZE..g.ProofOffset()] == g.LeafBytes() == g.bytes[SIGNATURE_SIZE..g.ProofOffset()]
  {
    hide RebuildBytes;
    RebuildTiles(template, signature, g.ErasureShard());
    LeafTiles(g);
    assert g.bytes[SIGNATURE_SIZE..g.ShardStart()] == [];
    FrontOf(signature, g.ErasureShard(), g.ChainedMerkleRoot(), Zeros(template.proofSize * PROOF_ENTRY_SIZE),
            if template.resigned then template.RetransmitterSignature().value else []);
  }

  lemma FrontOf(a: Bytes, b: Bytes, c: Bytes, d: Bytes, e: Bytes)
    ensures (a + b + c + d + e)[..|a|] == a && (a + b + c + d + e)[|a|..|a| + |b| + |c|] == [] + (b + c)
  {
  }

  lemma RebuildParsed(template: Shred, signature: Bytes, shard: Bytes, p: nat, s: Shred)
    requires template.Wf() && |signature| == SIGNATURE_SIZE && |shard| == |template.ErasureShard()|
    requires p < SHREDS_PER_SIDE
    requires Parse(RebuildBytes(template, signature, shard)) == Ok(s)
    requires s.kind == Data && s.slot == template.slot && s.index == template.fecSetIndex + p
    requires s.fecSetIndex == template.fecSetIndex && s.version == template.version
    ensures RebuildShred(template, signature, shard, p) == Ok(s)
  {
    hide Parse, RebuildBytes;
  }

  // ---- a set that holds only what the leader made

  /** The set knows the leader's root and signature, and everything in it agrees with the leader's shreds. */
  ghost predicate FaithfulTo(h: Hasher, g: seq<Shred>, m: FecModel)
    requires AllParsed(g) && |g| == SET_SIZE && |m.data| == SHREDS_PER_SIDE && |m.code| == SHREDS_PER_SIDE
  {
    && m.root == Some(SetRoot(h, g))
    && m.signature == g[0].Signature()
    && (forall p :: 0 <= p < SHREDS_PER_SIDE && m.data[p].Some? ==> Agrees(m.data[p].value, g[p]))
    && (forall p :: 0 <= p < SHREDS_PER_SIDE && m.code[p].Some? ==> Agrees(m.code[p].value, g[SHREDS_PER_SIDE + p]))
  }

  ghost function Shift(c: set<nat>, k: nat): (r: set<nat>)
    ensures forall q :: q in r <==> q >= k && q - k in c
    ensures |r| == |c|
  {
    if c == {} then {}
    else
      var x :| x in c;
      Shift(c - {x}, k) + {x + k}
  }

  /** A set of positions is as large as its data part and its code part together. */
  lemma PartsSize(k: set<nat>, d: set<nat>, c: set<nat>)
    requires forall p :: p in d <==> p in k && p < SHREDS_PER_SIDE
    requires forall p: nat :: p in c <==> p + SHREDS_PER_SIDE in k
    ensures |k| == |d| + |c|
  {
    hide Shift;
    var high := Shift(c, SHREDS_PER_SIDE);
    forall q: nat
      ensures q in k <==> q in d || q in high
      ensures !(q in d && q in high)
    {
      if q >= SHREDS_PER_SIDE {
        var p: nat := q - SHREDS_PER_SIDE;
        assert p in c <==> p + SHREDS_PER_SIDE in k;
      }
    }
    DisjointUnion(k, d, high);
  }

  lemma DisjointUnion(k: set<nat>, a: set<nat>, b: set<nat>)
    requires forall q: nat :: (q in k <==> q in a || q in b) && !(q in a && q in b)
    ensures |k| == |a| + |b|
  {
    assert k == a + b && a !! b;
  }

  lemma SiblingShards(s: Shred, t: Shred)
    requires s.Wf() && t.Wf() && s.proofSize == t.proofSize && s.resigned == t.resigned
    ensures |s.ErasureShard()| == |t.ErasureShard()|
  {
    ShardLength(s);
    ShardLength(t);
  }

  lemma FaithfulAt(h: Hasher, g: seq<Shred>, m: FecModel, p: nat)
    requires AllParsed(g) && |g| == SET_SIZE && |m.data| == SHREDS_PER_SIDE && |m.code| == SHREDS_PER_SIDE
    requires FaithfulTo(h, g, m)
    requires p < SHREDS_PER_SIDE
    ensures m.data[p].Some? ==> Agrees(m.data[p].value, g[p])
    ensures m.code[p].Some? ==> Agrees(m.code[p].value, g[SHREDS_PER_SIDE + p])
  {
    hide Agrees, SetRoot;
  }

  lemma AgreeingShard(x: Option<Shred>, g: Shred, len: nat)
    requires g.Wf() && len == |g.ErasureShard()| && (x.Some? ==> Agrees(x.value, g))
    ensures x.Some? ==> x.value.Wf() && ShardAt(x, len).0 == g.ErasureShard()
    ensures |ShardAt(x, len).0| == |g.ErasureShard()|
  {
    if x.Some? {
      AgreesContent(x.value, g);
    }
  }

  lemma FaithfulShard(h: Hasher, rs: ReedSolomon, f: nat, g: seq<Shred>, m: FecModel, len: nat, p: nat)
    requires HonestSet(h, rs, f, g) && FecInv(m) && FaithfulTo(h, g, m) && p < SET_SIZE
    requires len == |g[0].ErasureShard()|
    ensures var x := (m.data + m.code)[p];
            && (x.Some? ==> x.value.Wf())
            && |ShardAt(x, len).0| == |g[p].ErasureShard()|
            && (x.Some? ==> ShardAt(x, len).0 == g[p].ErasureShard())
  {
    hide Codeword, FaithfulTo, Siblings, FecInv, PathOf, Concat, LeafHashes, Agrees, ShardAt, Parsed;
    FecShape(m);
    HonestSiblings(h, rs, f, g, p, 0);
    if p < SHREDS_PER_SIDE {
      FaithfulAt(h, g, m, p);
    } else {
      FaithfulAt(h, g, m, p - SHREDS_PER_SIDE);
    }
    AgreeingShard((m.data + m.code)[p], g[p], len);
  }

  /** The slots of a faithful set, as shards, are part of the leader's codeword. */
  lemma FaithfulShards(h: Hasher, rs: ReedSolomon, f: nat, g: seq<Shred>, m: FecModel, len: nat)
    requires HonestSet(h, rs, f, g) && FecInv(m) && FaithfulTo(h, g, m) && AllWf(m.data + m.code)
    requires len == |g[0].ErasureShard()|
    ensures PartOf(ShardsOf(m.data + m.code, len), g)
    ensures |Present(ShardsOf(m.data + m.code, len))| == |Filled(m.data)| + |Filled(m.code)|
  {
    hide Codeword, FaithfulTo, Siblings;
    var all := m.data + m.code;
    var shards := ShardsOf(all, len);
    forall p | 0 <= p < SET_SIZE
      ensures |shards[p].0| == |g[p].ErasureShard()| && (shards[p].1 ==> shards[p].0 == g[p].ErasureShard())
    {
      FaithfulShard(h, rs, f, g, m, len, p);
    }
    PresentParts(m.data, m.code, len);
  }

  lemma PresentParts(data: Slots, code: Slots, len: nat)
    requires |data| == SHREDS_PER_SIDE && AllWf(data + code)
    ensures |Present(ShardsOf(data + code, len))| == |Filled(data)| + |Filled(code)|
  {
    var shards := ShardsOf(data + code, len);
    forall p: nat
      ensures p in Filled(code) <==> p + SHREDS_PER_SIDE in Present(shards)
    {
      if p < |code| {
        assert (data + code)[p + SHREDS_PER_SIDE] == code[p];
      }
    }
    PartsSize(Present(shards), Filled(data), Filled(code));
  }

  lemma TemplateSibling(t: Shred, tg: Shred, g: Shred)
    requires Agrees(t, tg) && g.Wf() && Siblings(tg, g)
    ensures Siblings(t, g) && |t.ErasureShard()| == |g.ErasureShard()|
  {
    AgreesContent(t, tg);
    SiblingShards(t, g);
  }

  /** `t` agrees with one of the leader's shreds of set `g`. */
  ghost predicate TemplateFor(t: Shred, g: seq<Shred>)
    requires AllParsed(g)
  {
    t.Wf() && forall p :: 0 <= p < |g| ==> Siblings(t, g[p]) && |t.ErasureShard()| == |g[p].ErasureShard()|
  }

  lemma HonestSiblings(h: Hasher, rs: ReedSolomon, f: nat, g: seq<Shred>, p: nat, q: nat)
    requires HonestSet(h, rs, f, g) && p < SET_SIZE && q < SET_SIZE
    ensures Siblings(g[p], g[q]) && |g[p].ErasureShard()| == |g[q].ErasureShard()|
  {
    hide Codeword, PathOf, LeafHashes;
    SiblingShards(g[p], g[q]);
  }

  lemma TemplateIsSibling(h: Hasher, rs: ReedSolomon, f: nat, g: seq<Shred>, m: FecModel)
    requires HonestSet(h, rs, f, g) && Recoverable(m) && FaithfulTo(h, g, m)
    ensures TemplateFor(TemplateOf(m), g) && |TemplateOf(m).ErasureShard()| == |g[0].ErasureShard()|
  {
    hide TemplateOf, CanRecover, Codeword, Agrees, Siblings, SetRoot, PathOf, DataSlotOk, CodeSlotOk, Filled;
    var t := TemplateOf(m);
    var q :| 0 <= q < SHREDS_PER_SIDE && m.code[q] == Some(t);
    forall p | 0 <= p < SET_SIZE
      ensures Siblings(t, g[p]) && |t.ErasureShard()| == |g[p].ErasureShard()|
    {
      HonestSiblings(h, rs, f, g, SHREDS_PER_SIDE + q, p);
      TemplateSibling(t, g[SHREDS_PER_SIDE + q], g[p]);
    }
  }

  lemma RebuiltAt(g: seq<Shred>, t: Shred, signature: Bytes, shards: seq<Bytes>, data: Slots, p: nat)
    requires AllParsed(g) && |g| == SET_SIZE && TemplateFor(t, g) && RebuildReady(t, signature, shards, data)
    requires p < SHREDS_PER_SIDE && g[p].IsData() && g[p].Position() == p && shards[p] == g[p].ErasureShard()
    requires data[p].None?
    ensures RebuildAll(t, signature, shards, data)[p].Ok?
    ensures Agrees(RebuildAll(t, signature, shards, data)[p].value, g[p])
  {
    hide RebuildShred;
    RebuildAgrees(t, signature, g[p], p);
  }

  lemma RebuiltFaithful(g: seq<Shred>, t: Shred, signature: Bytes, shards: seq<Bytes>, data: Slots)
    requires AllParsed(g) && |g| == SET_SIZE && TemplateFor(t, g) && RebuildReady(t, signature, shards, data)
    requires forall p :: 0 <= p < SHREDS_PER_SIDE ==>
             g[p].IsData() && g[p].Position() == p && shards[p] == g[p].ErasureShard()
    requires forall p :: 0 <= p < SHREDS_PER_SIDE && data[p].Some? ==> Agrees(data[p].value, g[p])
    ensures FillFrom(RebuildAll(t, signature, shards, data), data, 0).1.None?
    ensures forall p :: 0 <= p < SHREDS_PER_SIDE ==>
      var x := FillFrom(RebuildAll(t, signature, shards, data), data, 0).0[p]; x.Some? && Agrees(x.value, g[p])
  {
    hide RebuildAt, FillFrom, TemplateFor, Agrees;
    var all := RebuildAll(t, signature, shards, data);
    forall p | 0 <= p < SHREDS_PER_SIDE && data[p].None?
      ensures all[p].Ok? && Agrees(all[p].value, g[p])
    {
      RebuiltAt(g, t, signature, shards, data, p);
    }
    FillFromKeeps(all, data, 0);
    var (filled, e) := FillFrom(all, data, 0);
    forall p | 0 <= p < SHREDS_PER_SIDE
      ensures filled[p].Some? && Agrees(filled[p].value, g[p])
    {
      assert data[p].None? ==> all[p] == Ok(filled[p].value);
    }
  }

  /** With 32 of its 64 shreds at hand a faithful set always recovers, completely and faithfully. */
  lemma RecoverFaithful(h: Hasher, rs: ReedSolomon, f: nat, g: seq<Shred>, m: FecModel)
    requires HonestSet(h, rs, f, g) && Recoverable(m) && FaithfulTo(h, g, m)
    ensures FecRecover(rs, m).1.Ok?
    ensures FecInv(FecRecover(rs, m).0) && FaithfulTo(h, g, FecRecover(rs, m).0)
  {
    hide TemplateOf, RebuildAt, FillFrom, Agrees, Siblings, Codeword, TemplateFor, FaithfulTo, PartOf, Present,
         AllParsed;
    FecRecoverKeeps(rs, m);
    TemplateIsSibling(h, rs, f, g, m);
    SlotsWf(m);
    var t := TemplateOf(m);
    FaithfulShards(h, rs, f, g, m, |t.ErasureShard()|);
    var shards := ShardsOf(m.data + m.code, |t.ErasureShard()|);
    CodewordComesBack(rs, g, t, shards, m.signature, m.data);
    FaithfulData(h, g, m);
    RebuiltFaithful(g, t, m.signature, rs(shards).value, m.data);
    var filled := FillFrom(RebuildAll(t, m.signature, rs(shards).value, m.data), m.data, 0).0;
    FaithfulFilled(h, g, m, filled);
  }

  lemma FaithfulData(h: Hasher, g: seq<Shred>, m: FecModel)
    requires AllParsed(g) && |g| == SET_SIZE && |m.data| == SHREDS_PER_SIDE && |m.code| == SHREDS_PER_SIDE
    requires FaithfulTo(h, g, m)
    ensures forall p :: 0 <= p < SHREDS_PER_SIDE && m.data[p].Some? ==> Agrees(m.data[p].value, g[p])
  {
  }

  lemma FaithfulFilled(h: Hasher, g: seq<Shred>, m: FecModel, filled: Slots)
    requires AllParsed(g) && |g| == SET_SIZE && |m.data| == SHREDS_PER_SIDE && |m.code| == SHREDS_PER_SIDE
    requires FaithfulTo(h, g, m)
    requires |filled| == SHREDS_PER_SIDE
    requires forall p :: 0 <= p < SHREDS_PER_SIDE ==> filled[p].Some? && Agrees(filled[p].value, g[p])
    ensures FaithfulTo(h, g, m.(data := filled, code := Empty()))
  {
    hide Agrees, SetRoot;
  }

  lemma CodewordComesBack(rs: ReedSolomon, g: seq<Shred>, t: Shred, shards: seq<(Bytes, bool)>, signature: Bytes,
                          data: Slots)
    requires AllParsed(g) && |g| == SET_SIZE && Codeword(rs, g) && TemplateFor(t, g)
    requires forall p :: 0 <= p < SET_SIZE ==> g[p].Position() == p
    requires PartOf(shards, g) && |Present(shards)| >= SHREDS_PER_SIDE && |signature| == SIGNATURE_SIZE
    requires |data| == SHREDS_PER_SIDE
    ensures rs(shards).Some? && RebuildReady(t, signature, rs(shards).value, data)
    ensures forall p :: 0 <= p < SHREDS_PER_SIDE ==> g[p].IsData() && rs(shards).value[p] == g[p].ErasureShard()
  {
    hide Siblings;
    forall p | 0 <= p < SHREDS_PER_SIDE
      ensures g[p].IsData()
    {
      assert g[p].Position() == p;
    }
  }
}
