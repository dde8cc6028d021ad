/**
 * One run in which a recovery stops half-way: all shreds are a leader's, but they are no codeword of the erasure code.
 * Recovering eagerly then hands out less than waiting.
 */
module HalfWay {
  import opened Wire
  import opened Merkle
  import opened Shreds
  import opened Fec
  import opened Segments
  import opened SlotSpec
  import opened Leader
  import opened Fidelity
  import opened Delivery
  import opened Example
  import opened Stranding

  /** The shard of position 0 as it was, and nothing but zeros everywhere else. */
  function Spoiled(shards: seq<Bytes>): (r: seq<Bytes>)
    ensures |r| == |shards|
    ensures forall p :: 0 <= p < |r| ==> r[p] == if p == 0 then shards[0] else Zeros(|shards[p]|)
  {
    seq(|shards|, p requires 0 <= p < |shards| => if p == 0 then shards[0] else Zeros(|shards[p]|))
  }

  lemma MembersOk(h: Hasher)
    ensures AllParsed(Set(h)) && HonestSet(h, CodeFor(ShardsIn(Set(h))), 0, Set(h))
    ensures forall p :: 0 <= p < SET_SIZE ==> InRange(Set(h)[p]) && |Set(h)[p].ErasureShard()| == 987
  {
    hide HonestSet, AllParsed, Parsed, Set, CodeFor, ShardsIn;
    SetIsHonest(h);
    forall p | 0 <= p < SET_SIZE
      ensures InRange(Set(h)[p]) && |Set(h)[p].ErasureShard()| == 987
    {
      SetMember(h, p);
    }
  }

  /** An erasure code for which the set is no codeword. */
  ghost function Spoiler(h: Hasher): ReedSolomon {
    MembersOk(h);
    CodeFor(Spoiled(ShardsIn(Set(h))))
  }

  // ---- the code shreds come first

  function CodeSlots(g: seq<Shred>, n: nat): (r: Slots)
    requires |g| == SET_SIZE && n <= SHREDS_PER_SIDE
    ensures |r| == SHREDS_PER_SIDE
    ensures forall p :: 0 <= p < SHREDS_PER_SIDE ==> r[p] == if p < n then Some(g[SHREDS_PER_SIDE + p]) else None
  {
    seq(SHREDS_PER_SIDE, p requires 0 <= p < SHREDS_PER_SIDE => if p < n then Some(g[SHREDS_PER_SIDE + p]) else None)
  }

  /** The set after its first `n` code shreds. */
  ghost function Held(h: Hasher, g: seq<Shred>, n: nat): FecModel
    requires AllParsed(g) && |g| == SET_SIZE && n <= SHREDS_PER_SIDE
  {
    if n == 0 then NEW_SET else FecModel(Empty(), CodeSlots(g, n), Some(SetRoot(h, g)), g[0].Signature())
  }

  lemma HeldCount(h: Hasher, g: seq<Shred>, n: nat)
    requires AllParsed(g) && |g| == SET_SIZE && n <= SHREDS_PER_SIDE
    ensures Filled(Held(h, g, n).data) == {} && !Full(Held(h, g, n).data)
    ensures Filled(Held(h, g, n).code) == Range(0, n)
  {
    hide SetRoot, AllParsed;
    EmptyFilled();
    if n > 0 {
      assert forall p: nat :: p in Filled(CodeSlots(g, n)) <==> p in Range(0, n);
    }
  }

  /** The next code shred is stored. */
  lemma HeldNext(h: Hasher, rs: ReedSolomon, g: seq<Shred>, n: nat)
    requires HonestSet(h, rs, 0, g) && n < SHREDS_PER_SIDE
    ensures FecInsert(h, Held(h, g, n), g[SHREDS_PER_SIDE + n]) == (Held(h, g, n + 1), New)
  {
    hide Codeword, RootFromProof, SetRoot, PathOf, Concat, LeafHashes, Siblings, Parsed, Verdict, WithShred, Held;
    HonestRoot(h, rs, 0, g, SHREDS_PER_SIDE + n);
    var x := g[SHREDS_PER_SIDE + n];
    PositionRange(x);
    HeldVerdict(h, g, n, x);
    HeldWith(h, g, n, x);
  }

  /** `x` is a code shred at position `n` that goes with the set. */
  ghost predicate NextCode(h: Hasher, g: seq<Shred>, n: nat, x: Shred)
    requires AllParsed(g) && |g| == SET_SIZE
  {
    && n < SHREDS_PER_SIDE && x == g[SHREDS_PER_SIDE + n] && x.Wf() && !x.IsData() &&
       x.Position() == SHREDS_PER_SIDE + n
    && x.MerkleRoot(h) == Some(SetRoot(h, g)) && x.Signature() == g[0].Signature()
  }

  lemma HeldVerdict(h: Hasher, g: seq<Shred>, n: nat, x: Shred)
    requires AllParsed(g) && |g| == SET_SIZE && NextCode(h, g, n, x)
    ensures |Held(h, g, n).data| == SHREDS_PER_SIDE == |Held(h, g, n).code| && Verdict(h, Held(h, g, n), x).New?
  {
    hide SetRoot, AllParsed, RootFromProof, Full, Filled;
    HeldCount(h, g, n);
  }

  lemma HeldWith(h: Hasher, g: seq<Shred>, n: nat, x: Shred)
    requires AllParsed(g) && |g| == SET_SIZE && NextCode(h, g, n, x)
    requires |Held(h, g, n).data| == SHREDS_PER_SIDE == |Held(h, g, n).code|
    ensures WithShred(h, Held(h, g, n), x) == Held(h, g, n + 1)
  {
    hide SetRoot, AllParsed, RootFromProof, Full, Filled;
    HeldCount(h, g, n);
    assert Held(h, g, n).code[n := Some(x)] == CodeSlots(g, n + 1);
  }

  /** The slot after the first `n` code shreds. */
  ghost function HeldSlot(h: Hasher, g: seq<Shred>, n: nat): SlotModel
    requires AllParsed(g) && |g| == SET_SIZE && n <= SHREDS_PER_SIDE
  {
    if n == 0 then NEW_SLOT else SlotModel(map[0 := Held(h, g, n)], map[])
  }

  lemma NothingConsumed()
    ensures Consumed(map[]) == {} && !SetIn({}, 0)
  {
    RunsAvailable(map[]);
    assert 0 !in Consumed(map[]);
  }

  lemma CodeOffered(h: Hasher, rs: ReedSolomon, g: seq<Shred>, n: nat)
    requires HonestSet(h, rs, 0, g) && n < SHREDS_PER_SIDE && SlotInv(HeldSlot(h, g, n))
    ensures var x := g[SHREDS_PER_SIDE + n];
            && InRange(x) && !x.IsData() && x.fecSetIndex == 0 && !Superfluous(HeldSlot(h, g, n), x)
            && Offered(h, HeldSlot(h, g, n), x) == (Held(h, g, n + 1), New)
  {
    hide Codeword, FecInsert, Held, PathOf, Concat, LeafHashes, Siblings, Parsed, SlotInv, SetRoot, Consumed;
    var x := g[SHREDS_PER_SIDE + n];
    PositionRange(x);
    NothingConsumed();
    HeldNext(h, rs, g, n);
    assert SetAt(HeldSlot(h, g, n), 0) == Held(h, g, n) by { HeldAt(h, g, n); }
  }

  lemma HeldAt(h: Hasher, g: seq<Shred>, n: nat)
    requires AllParsed(g) && |g| == SET_SIZE && n <= SHREDS_PER_SIDE
    ensures SetAt(HeldSlot(h, g, n), 0) == Held(h, g, n) && HeldSlot(h, g, n).taken == map[]
  {
    hide SetRoot, AllParsed;
  }

  /** Below 32 shreds nothing is recovered. */
  lemma HeldStep(h: Hasher, rs: ReedSolomon, code: Option<ReedSolomon>, g: seq<Shred>, n: nat)
    requires HonestSet(h, rs, 0, g) && n + 1 < SHREDS_PER_SIDE
    requires SlotInv(HeldSlot(h, g, n)) && InRange(g[SHREDS_PER_SIDE + n])
    ensures SlotInsert(h, code, HeldSlot(h, g, n), g[SHREDS_PER_SIDE + n]).0 == HeldSlot(h, g, n + 1)
  {
    hide HonestSet, StepSet, FecInsert, Absorb, Held, HeldSlot, SlotInv, Consumed, FecInv, GainOf, Superfluous;
    HeldParsed(h, rs, g);
    CodeOffered(h, rs, g, n);
    HeldAt(h, g, n);
    HeldSets(h, g, n);
    var m, x := HeldSlot(h, g, n), g[SHREDS_PER_SIDE + n];
    SetAtOk(m, 0);
    WithoutRecovery(h, code, g, SetAt(m, 0), x, n);
    var step := StepSet(h, code, SetAt(m, 0), x);
    HeldAbsorbs(h, g, n, m, x, step);
  }

  lemma WithoutRecovery(h: Hasher, code: Option<ReedSolomon>, g: seq<Shred>, m: FecModel, x: Shred, n: nat)
    requires AllParsed(g) && |g| == SET_SIZE && n + 1 < SHREDS_PER_SIDE
    requires FecInv(m) && x.Wf() && !x.IsData() && FecInsert(h, m, x) == (Held(h, g, n + 1), New)
    ensures var step := StepSet(h, code, m, x); step.fec == Held(h, g, n + 1) && GainOf(step, x) == map[]
  {
    hide FecInsert, Held, FecInv, Filled, Full;
    HeldCount(h, g, n + 1);
  }

  lemma HeldAbsorbs(h: Hasher, g: seq<Shred>, n: nat, m: SlotModel, x: Shred, step: FecStep)
    requires AllParsed(g) && |g| == SET_SIZE && n < SHREDS_PER_SIDE && x.fecSetIndex == 0
    requires m.taken == GainOf(step, x) == map[] && m.sets[0 := step.fec] == map[0 := Held(h, g, n + 1)]
    ensures Absorb(m, x, step) == HeldSlot(h, g, n + 1)
  {
    hide Held, GainOf, Consumed;
    NothingConsumed();
    assert m.taken + GainOf(step, x) == map[];
  }

  lemma HeldSets(h: Hasher, g: seq<Shred>, n: nat)
    requires AllParsed(g) && |g| == SET_SIZE && n < SHREDS_PER_SIDE
    ensures HeldSlot(h, g, n).sets[0 := Held(h, g, n + 1)] == map[0 := Held(h, g, n + 1)]
  {
    hide Held;
  }

  lemma HeldParsed(h: Hasher, rs: ReedSolomon, g: seq<Shred>)
    requires HonestSet(h, rs, 0, g)
    ensures AllParsed(g) && |g| == SET_SIZE
  {
  }

  lemma {:induction false} CodesFed(h: Hasher, rs: ReedSolomon, code: Option<ReedSolomon>, g: seq<Shred>, n: nat)
    requires HonestSet(h, rs, 0, g) && n < SHREDS_PER_SIDE && AllInRange(g)
    ensures AllInRange(g[SHREDS_PER_SIDE..SHREDS_PER_SIDE + n])
    ensures AllParsed(g) && Feed(h, code, g[SHREDS_PER_SIDE..SHREDS_PER_SIDE + n]) == HeldSlot(h, g, n)
  {
    hide HonestSet, InRange, HeldSlot, SlotInsert, SlotInv;
    HeldParsed(h, rs, g);
    var xs := g[SHREDS_PER_SIDE..SHREDS_PER_SIDE + n];
    if n == 0 {
      assert xs == [];
      NothingFed(h, code, g);
    } else {
      CodesFed(h, rs, code, g, n - 1);
      FeedStep(h, code, xs);
      assert xs[..n - 1] == g[SHREDS_PER_SIDE..SHREDS_PER_SIDE + n - 1];
      assert g[SHREDS_PER_SIDE + n - 1] in g;
      HeldStep(h, rs, code, g, n - 1);
    }
  }

  lemma NothingFed(h: Hasher, code: Option<ReedSolomon>, g: seq<Shred>)
    requires AllInRange([]) && AllParsed(g) && |g| == SET_SIZE
    ensures Feed(h, code, []) == HeldSlot(h, g, 0)
  {
  }

  // ---- the last code shred triggers a recovery

  /** A shard of zeros is no data shred. */
  lemma ZerosFail(template: Shred, signature: Bytes, shard: Bytes, p: nat)
    requires template.Wf() && |signature| == SIGNATURE_SIZE && |shard| == |template.ErasureShard()|
    requires p < SHREDS_PER_SIDE
    requires |shard| > 0 && shard[0] == 0
    ensures RebuildShred(template, signature, shard, p).Err?
  {
    hide RebuildBytes, ParseBody;
    RebuildTiles(template, signature, shard);
    assert RebuildBytes(template, signature, shard)[VARIANT_OFFSET] == shard[0];
  }

  /** What the spoiled code makes of any 64 shards of the right length. */
  lemma SpoilerAnswers(h: Hasher, shards: seq<(Bytes, bool)>)
    requires AllParsed(Set(h)) && |shards| == SET_SIZE && forall p :: 0 <= p < SET_SIZE ==> |shards[p].0| == 987
    ensures Spoiler(h)(shards) == Some(Spoiled(ShardsIn(Set(h))))
    ensures var spoiled := Spoiled(ShardsIn(Set(h)));
            |spoiled| == SET_SIZE && spoiled[0] == Set(h)[0].ErasureShard() && spoiled[1] == Zeros(987)
  {
    hide Set, HonestSet, AllParsed, Parsed;
    MembersOk(h);
  }

  lemma HeldShards(h: Hasher, g: seq<Shred>)
    requires AllParsed(g) && |g| == SET_SIZE
    requires forall p :: 0 <= p < SET_SIZE ==> g[p].Wf() && |g[p].ErasureShard()| == 987
    ensures var m := Held(h, g, SHREDS_PER_SIDE);
            && AllWf(m.data + m.code)
            && forall p :: 0 <= p < SET_SIZE ==> |ShardsOf(m.data + m.code, 987)[p].0| == 987
  {
    hide SetRoot, AllParsed;
  }

  /** All 32 code shreds: the template is one of them, and the spoiled shards rebuild position 0 but not position 1. */
  lemma RecoveryStops(h: Hasher)
    requires AllParsed(Set(h)) && FecInv(Held(h, Set(h), SHREDS_PER_SIDE))
    ensures CanRecover(Held(h, Set(h), SHREDS_PER_SIDE)) && StopsHalfWay(Spoiler(h), Held(h, Set(h), SHREDS_PER_SIDE))
    ensures FirstEmpty(Held(h, Set(h), SHREDS_PER_SIDE).data, 0) == 0
  {
    hide HonestSet, AllParsed, FecInv, TemplateOf, Set, Spoiler, Spoiled, Filled, Full, SetRoot, ShardsOf, StopsHalfWay;
    hide RebuildShred, FirstEmpty, CanRecover, CodeFor, ShardsIn, AllWf, ShardAt;
    var g := Set(h);
    var m := Held(h, g, SHREDS_PER_SIDE);
    HeldRecovers(h, g);
    MembersOk(h);
    HeldShards(h, g);
    SpoilerAnswers(h, ShardsOf(m.data + m.code, 987));
    var t := TemplateOf(m);
    var q :| 0 <= q < SHREDS_PER_SIDE && m.code[q] == Some(t);
    assert t == g[SHREDS_PER_SIDE + q];
    TemplateRebuilds(h, t, SHREDS_PER_SIDE + q);
    StopsAtOne(Spoiler(h), m, t, Spoiled(ShardsIn(g)));
  }

  lemma HeldRecovers(h: Hasher, g: seq<Shred>)
    requires AllParsed(g) && |g| == SET_SIZE
    ensures CanRecover(Held(h, g, SHREDS_PER_SIDE))
  {
    hide Held, Filled, Full;
    HeldCount(h, g, SHREDS_PER_SIDE);
    assert 0 in Range(0, SHREDS_PER_SIDE);
  }

  /** Position 0 is rebuilt, position 1 is not. */
  lemma StopsAtOne(rs: ReedSolomon, m: FecModel, t: Shred, rebuilt: seq<Bytes>)
    requires Recoverable(m) && t == TemplateOf(m) && AllWf(m.data + m.code)
    requires rs(ShardsOf(m.data + m.code, |t.ErasureShard()|)) == Some(rebuilt)
    requires m.data[0].None? && m.data[1].None? && |rebuilt| >= SHREDS_PER_SIDE
    requires |rebuilt[0]| == |rebuilt[1]| == |t.ErasureShard()|
    requires RebuildShred(t, m.signature, rebuilt[0], 0).Ok? && RebuildShred(t, m.signature, rebuilt[1], 1).Err?
    ensures StopsHalfWay(rs, m) && FirstEmpty(m.data, 0) == 0
  {
    hide TemplateOf, RebuildShred, ShardsOf, DataSlotOk, CodeSlotOk, Filled, Full, CanRecover;
    var all := Candidates(rs, m).value;
    assert all[0].Ok? && all[1].Err?;
  }

  lemma TemplateRebuilds(h: Hasher, t: Shred, q: nat)
    requires AllParsed(Set(h)) && q < SET_SIZE && t == Set(h)[q]
    ensures t.Wf() && |t.ErasureShard()| == 987 && Set(h)[0].Wf() && |Set(h)[0].ErasureShard()| == 987
    ensures |Set(h)[0].Signature()| == SIGNATURE_SIZE
    ensures RebuildShred(t, Set(h)[0].Signature(), Set(h)[0].ErasureShard(), 0).Ok?
    ensures RebuildShred(t, Set(h)[0].Signature(), Zeros(987), 1).Err?
  {
    hide HonestSet, AllParsed, Parsed, Set, RebuildShred, Siblings, CodeFor, ShardsIn;
    var g := Set(h);
    MembersOk(h);
    SetMember(h, 0);
    SetMember(h, q);
    PositionRange(g[0]);
    HonestSiblings(h, CodeFor(ShardsIn(g)), 0, g, q, 0);
    RebuildAgrees(t, g[0].Signature(), g[0], 0);
    ZerosFail(t, g[0].Signature(), Zeros(987), 1);
  }

  // ---- the whole run

  /** First the code shreds, then the data shreds. */
  function CodeFirst(h: Hasher): (r: seq<Shred>)
    ensures |r| == SET_SIZE
  {
    Set(h)[SHREDS_PER_SIDE..] + Set(h)[..SHREDS_PER_SIDE]
  }

  lemma SetInRange(h: Hasher)
    ensures AllInRange(Set(h)) && AllInRange(CodeFirst(h)) && AllInRange(Set(h)[SHREDS_PER_SIDE..])
  {
    hide InRange, Set, HonestSet, AllParsed;
    MembersOk(h);
    var g := Set(h);
    assert AllInRange(g);
    assert forall x :: x in CodeFirst(h) || x in g[SHREDS_PER_SIDE..] ==> x in g;
  }

  /** The last code shred breaks, and position 0 is stranded from then on. */
  lemma CodesBreak(h: Hasher)
    ensures AllInRange(Set(h)[SHREDS_PER_SIDE..])
    ensures BreaksAt(h, Some(Spoiler(h)), Set(h)[SHREDS_PER_SIDE..], 31)
    ensures Stranded(Feed(h, Some(Spoiler(h)), Set(h)[SHREDS_PER_SIDE..]), 0, 0)
  {
    hide InRange, HonestSet, AllParsed, Set, SlotInsert, SlotInv, HeldSlot, Spoiler, Stranded, Feed, Breaks, CodeFor,
         ShardsIn;
    var g, rs := Set(h), Some(Spoiler(h));
    SetInRange(h);
    MembersOk(h);
    var xs := g[SHREDS_PER_SIDE..];
    assert xs[..31] == g[SHREDS_PER_SIDE..SHREDS_PER_SIDE + 31] && xs[31] == g[63];
    CodesFed(h, CodeFor(ShardsIn(g)), rs, g, 31);
    LastBreaks(h);
    FeedStep(h, rs, xs);
  }

  lemma LastBreaks(h: Hasher)
    requires AllParsed(Set(h)) && SlotInv(HeldSlot(h, Set(h), 31))
    ensures InRange(Set(h)[63])
    ensures Breaks(h, Some(Spoiler(h)), HeldSlot(h, Set(h), 31), Set(h)[63])
    ensures Stranded(SlotInsert(h, Some(Spoiler(h)), HeldSlot(h, Set(h), 31), Set(h)[63]).0, 0, 0)
  {
    hide InRange, HonestSet, AllParsed, Set, SlotInsert, SlotInv, HeldSlot, Held, Spoiler, Stranded, CodeFor, ShardsIn;
    hide StopsHalfWay, CanRecover, Offered, Superfluous, FirstEmpty, FecInv;
    MembersOk(h);
    var g, m := Set(h), HeldSlot(h, Set(h), 31);
    CodeOffered(h, CodeFor(ShardsIn(g)), g, 31);
    assert FecInv(Offered(h, m, g[63]).0);
    RecoveryStops(h);
    BreakStrands(h, Some(Spoiler(h)), m, g[63]);
  }

  /** Waiting, the same shreds give the whole run. */
  lemma WaitingDelivers(h: Hasher)
    ensures AllInRange(CodeFirst(h))
    ensures exists g :: g in Runs(Feed(h, None, CodeFirst(h)).taken) && g.start == 0 && g.end == 31
  {
    hide InRange, HonestSet, Set, CodeFor, ShardsIn, Feed, Trusted, LeaderTaken, Faithful, Runs, CodeFirst, SlotInv;
    var L: Sets, rs: ReedSolomon := map[0 := Set(h)], CodeFor(ShardsIn(Set(h)));
    SetInRange(h);
    SetIsHonest(h);
    assert Honest(h, rs, L);
    WaitingTakesAll(h, rs, L);
    SetIsRun(h);
    RunOfLeader(LeaderTaken(L), Feed(h, None, CodeFirst(h)).taken);
  }

  lemma RunOfLeader(leader: Taken, taken: Taken)
    requires IsRun(leader, 0, 31) && Runs(leader) <= Runs(taken)
    ensures exists g :: g in Runs(taken) && g.start == 0 && g.end == 31
  {
    hide IsRun;
    assert SegmentOf(leader, 0, 31) in Runs(leader);
  }

  lemma WaitingTakesAll(h: Hasher, rs: ReedSolomon, L: Sets)
    requires Honest(h, rs, L) && L == map[0 := Set(h)] && AllInRange(CodeFirst(h))
    ensures Runs(LeaderTaken(L)) <= Runs(Feed(h, None, CodeFirst(h)).taken)
  {
    hide InRange, Honest, Set, Feed, Positions, Trusted, LeaderTaken, Faithful, Runs, CodeFirst, Available, SlotInv,
         SetOf;
    var xs := CodeFirst(h);
    CodeFirstIsLeader(h);
    LeaderIsTrusted(h, rs, L, xs);
    var leader, m := LeaderTaken(L), Feed(h, None, xs);
    forall i | i in leader
      ensures i in m.taken
    {
      IndexFed(h, rs, L, i);
      TakenByRun(h, rs, None, L, xs, i);
    }
    FeedFaithful(h, rs, None, L, xs);
    TakenConsistent(h, L, m);
    ConsistentRuns(leader, m.taken);
  }

  lemma CodeFirstIsLeader(h: Hasher)
    ensures forall x :: x in CodeFirst(h) ==> x.fecSetIndex == 0 && x in Set(h)
  {
    hide Set;
    forall x | x in CodeFirst(h)
      ensures x.fecSetIndex == 0 && x in Set(h)
    {
      var p :| 0 <= p < SET_SIZE && Set(h)[p] == x;
      SetMember(h, p);
    }
  }

  lemma IndexFed(h: Hasher, rs: ReedSolomon, L: Sets, i: nat)
    requires Honest(h, rs, L) && L == map[0 := Set(h)] && i in LeaderTaken(L)
    ensures SetOf(i) == 0 && Available(Positions(h, L, CodeFirst(h), 0), false, i)
  {
    hide Set, Genuine, Honest, Parsed, Ready, InRange;
    assert SetOf(i) == 0;
    var xs := CodeFirst(h);
    assert xs[SHREDS_PER_SIDE + i] == Set(h)[i];
    SetMember(h, i);
    LeaderIsGenuine(h, rs, L, 0, i);
  }

  /**
   * Without a codeword, recovering eagerly can hand out less than waiting: of these 64 shreds, all of one leader, the
   * waiting slot hands out the whole run, and the recovering one never does, because index 0 is stranded.
   */
  lemma EagerCanLose(h: Hasher)
    ensures AllInRange(CodeFirst(h)) && forall x :: x in CodeFirst(h) ==> x in Set(h)
    ensures Stranded(Feed(h, Some(Spoiler(h)), CodeFirst(h)), 0, 0)
    ensures exists g ::
            g in Runs(Feed(h, None, CodeFirst(h)).taken) && g !in Runs(Feed(h, Some(Spoiler(h)), CodeFirst(h)).taken)
  {
    hide InRange, Set, Feed, Runs, Stranded, Spoiler, SlotInv;
    SetInRange(h);
    CodeFirstIsLeader(h);
    CodesBreak(h);
    StrandedForGood(h, Some(Spoiler(h)), Set(h)[SHREDS_PER_SIDE..], Set(h)[..SHREDS_PER_SIDE], 0, 0);
    WaitingDelivers(h);
    var g :| g in Runs(Feed(h, None, CodeFirst(h)).taken) && g.start == 0 && g.end == 31;
    assert g !in Runs(Feed(h, Some(Spoiler(h)), CodeFirst(h)).taken);
  }
}
