/** End-to-end fidelity: whatever else arrives, a slot hands out the leader's bytes or a hash collision is at hand. */
module Fidelity {
  import opened Wire
  import opened Merkle
  import opened Shreds
  import opened Fec
  import opened Segments
  import opened SlotSpec
  import opened Leader

  /** Everything hashed to check the proof of `x`. */
  ghost function ProofInputs(h: Hasher, x: Shred): set<Bytes>
    requires x.Wf()
  {
    ClaimInputs(h, x.Position(), x.LeafBytes(), x.MerkleProof())
  }

  /** Something hashed for `x` collides with something else in the leader's tree of its set. */
  ghost predicate Forged(h: Hasher, L: Sets, x: Shred) {
    && x.Wf() && x.fecSetIndex in L && AllParsed(L[x.fecSetIndex]) && |L[x.fecSetIndex]| == SET_SIZE
    && Collide(h, ProofInputs(h, x), HonestInputs(h, Leaves(L[x.fecSetIndex])))
  }

  /** `x` says what the leader said at its place, under the leader's root and signature. */
  ghost predicate Genuine(h: Hasher, L: Sets, x: Shred) {
    && x.Wf() && x.fecSetIndex in L
    && var g := L[x.fecSetIndex];
       && AllParsed(g) && |g| == SET_SIZE
       && Agrees(x, g[x.Position()])
       && x.Signature() == g[0].Signature()
       && x.MerkleRoot(h) == Some(SetRoot(h, g))
  }

  /** A shred whose proof leads to the leader's root is the leader's shred of that position. */
  lemma RootDecides(h: Hasher, rs: ReedSolomon, L: Sets, x: Shred)
    requires Honest(h, rs, L) && Parsed(x) && x.Wf() && x.fecSetIndex in L
    requires x.MerkleRoot(h) == Some(SetRoot(h, L[x.fecSetIndex]))
    ensures Agrees(x, L[x.fecSetIndex][x.Position()]) || Forged(h, L, x)
  {
    hide Parse, Collide, TreeRoot, RootFromProof, TreeInputs, Codeword, Walk;
    var g := L[x.fecSetIndex];
    ShardLength(x);
    assert Pow2(TREE_DEPTH) == SET_SIZE by { assert Pow2(3) == 8; }
    Binding(h, Leaves(g), TREE_DEPTH, x.Position(), x.LeafBytes(), x.MerkleProof());
    if !Forged(h, L, x) {
      LeafDecides(x, g[x.Position()]);
    }
  }

  /** Unless nothing has been accepted yet, the set is faithful to the leader's. */
  ghost predicate FaithfulSet(h: Hasher, L: Sets, f: nat, m: FecModel) {
    m.root.Some? ==>
      && f in L && AllParsed(L[f]) && |L[f]| == SET_SIZE && |m.data| == SHREDS_PER_SIDE && |m.code| == SHREDS_PER_SIDE
      && FaithfulTo(h, L[f], m)
  }

  lemma InsertFaithful(h: Hasher, L: Sets, f: nat, m: FecModel, x: Shred)
    requires FecInv(m) && FaithfulSet(h, L, f, m) && Genuine(h, L, x) && x.fecSetIndex == f
    requires Verdict(h, m, x).New?
    ensures FaithfulSet(h, L, f, WithShred(h, m, x))
  {
    hide Agrees, SetRoot, RootFromProof, Siblings, FecInv, Verdict, WithShred, AllParsed, FaithfulTo;
    FecShape(m);
    var g, n := L[f], WithShred(h, m, x);
    assert m.root.Some? ==> FaithfulTo(h, g, m);
    WithShredKnows(h, m, x);
    forall p | 0 <= p < SHREDS_PER_SIDE
      ensures n.data[p].Some? ==> Agrees(n.data[p].value, g[p])
      ensures n.code[p].Some? ==> Agrees(n.code[p].value, g[SHREDS_PER_SIDE + p])
    {
      InsertAgrees(h, g, m, x, p);
    }
    IsFaithful(h, g, n);
  }

  lemma IsFaithful(h: Hasher, g: seq<Shred>, n: FecModel)
    requires AllParsed(g) && |g| == SET_SIZE && |n.data| == SHREDS_PER_SIDE && |n.code| == SHREDS_PER_SIDE
    requires n.root == Some(SetRoot(h, g)) && n.signature == g[0].Signature()
    requires forall p :: 0 <= p < SHREDS_PER_SIDE ==> n.data[p].Some? ==> Agrees(n.data[p].value, g[p])
    requires forall p :: 0 <= p < SHREDS_PER_SIDE ==> n.code[p].Some? ==>
             Agrees(n.code[p].value, g[SHREDS_PER_SIDE + p])
    ensures FaithfulTo(h, g, n)
  {
    hide Agrees, SetRoot;
  }

  lemma WithShredKnows(h: Hasher, m: FecModel, x: Shred)
    requires FecInv(m) && x.Wf()
    ensures var n := WithShred(h, m, x);
            n.root == x.MerkleRoot(h) && n.signature == x.Signature() && |n.data| == SHREDS_PER_SIDE &&
            |n.code| == SHREDS_PER_SIDE
  {
    hide Full, RootFromProof;
  }

  lemma InsertAgrees(h: Hasher, g: seq<Shred>, m: FecModel, x: Shred, p: nat)
    requires FecInv(m) && AllParsed(g) && |g| == SET_SIZE && (m.root.Some? ==> FaithfulTo(h, g, m))
    requires x.Wf() && Agrees(x, g[x.Position()]) && p < SHREDS_PER_SIDE
    ensures var n := WithShred(h, m, x);
            && |n.data| == SHREDS_PER_SIDE && |n.code| == SHREDS_PER_SIDE
            && (n.data[p].Some? ==> Agrees(n.data[p].value, g[p]))
            && (n.code[p].Some? ==> Agrees(n.code[p].value, g[SHREDS_PER_SIDE + p]))
  {
    hide Agrees, WithShred, FecInv, FaithfulTo, AllParsed, Shred.Wf;
    FecShape(m);
    WithShredSlots(h, m, x, p);
    if m.data[p].Some? || m.code[p].Some? {
      StoredMeansRoot(m, p);
      FaithfulAt(h, g, m, p);
    }
  }

  /** The first shred a set accepts fixes its root; this says that it is genuine. */
  ghost predicate FirstIsGenuine(h: Hasher, L: Sets, m: FecModel, x: Shred)
    requires FecInv(m) && x.Wf()
  {
    m.root.None? && Verdict(h, m, x).New? ==> Genuine(h, L, x)
  }

  lemma AcceptedIsGenuine(h: Hasher, rs: ReedSolomon, L: Sets, m: FecModel, x: Shred)
    requires Honest(h, rs, L) && FecInv(m) && Parsed(x) && x.Wf()
    requires FaithfulSet(h, L, x.fecSetIndex, m) && FirstIsGenuine(h, L, m, x) && Verdict(h, m, x).New?
    ensures Genuine(h, L, x) || Forged(h, L, x)
  {
    hide Parse, Forged, SetRoot, RootFromProof, Agrees, Codeword;
    if m.root.Some? {
      RootDecides(h, rs, L, x);
    }
  }

  ghost predicate SameCode(rsOpt: Option<ReedSolomon>, rs: ReedSolomon) {
    rsOpt.None? || rsOpt == Some(rs)
  }

  lemma StepSetFaithful(h: Hasher, rs: ReedSolomon, rsOpt: Option<ReedSolomon>, L: Sets, m: FecModel, x: Shred)
    requires Honest(h, rs, L) && SameCode(rsOpt, rs) && FecInv(m) && x.Wf()
    requires FaithfulSet(h, L, x.fecSetIndex, m) && (Verdict(h, m, x).New? ==> Genuine(h, L, x))
    ensures FaithfulSet(h, L, x.fecSetIndex, StepSet(h, rsOpt, m, x).fec)
    ensures var step := StepSet(h, rsOpt, m, x); step.recovery.Some? ==> step.recovery.value.Ok?
  {
    hide Verdict, WithShred, FecRecover, FaithfulTo, Genuine, Codeword;
    if Verdict(h, m, x).New? {
      InsertFaithful(h, L, x.fecSetIndex, m, x);
      FecInsertKeepsInv(h, m, x);
      var n := FecInsert(h, m, x).0;
      if rsOpt.Some? && CanRecover(n) {
        RootKnown(n);
        RecoverFaithful(h, rs, x.fecSetIndex, L[x.fecSetIndex], n);
      }
    }
  }

  lemma RootKnown(m: FecModel)
    requires FecInv(m) && CanRecover(m)
    ensures m.root.Some?
  {
  }

  // ---- the slot

  ghost predicate FromLeader(L: Sets, i: nat, s: Shred) {
    SetOf(i) in L && |L[SetOf(i)]| == SET_SIZE && Agrees(s, L[SetOf(i)][i - SetOf(i)])
  }

  /** Everything stored and everything taken agrees with the leader. */
  ghost predicate Faithful(h: Hasher, L: Sets, m: SlotModel) {
    && (forall f :: f in m.sets ==> FaithfulSet(h, L, f, m.sets[f]))
    && (forall i :: i in m.taken ==> FromLeader(L, i, m.taken[i]))
  }

  lemma StoredFromLeader(h: Hasher, L: Sets, f: nat, m: FecModel, i: nat)
    requires SetOk(m, f) && FaithfulSet(h, L, f, m) && f <= i < f + SHREDS_PER_SIDE && m.data[i - f].Some?
    ensures FromLeader(L, i, m.data[i - f].value)
  {
    hide Agrees, SetOf, FecInv, KeyedBy, FaithfulTo, AllParsed;
    SetOfMember(f, i);
    FecShape(m);
    StoredMeansRoot(m, i - f);
    FaithfulAt(h, L[f], m, i - f);
  }

  lemma GainFromLeader(h: Hasher, L: Sets, m: FecModel, step: FecStep, x: Shred)
    requires StepOk(m, step, x, x.fecSetIndex) && FaithfulSet(h, L, x.fecSetIndex, step.fec)
    ensures forall i :: i in GainOf(step, x) ==> FromLeader(L, i, GainOf(step, x)[i])
  {
    hide FromLeader, GainOf, FreshOf, FaithfulSet, FecInv;
    GainFacts(m, step, x);
    forall i | i in GainOf(step, x)
      ensures FromLeader(L, i, GainOf(step, x)[i])
    {
      StoredFromLeader(h, L, x.fecSetIndex, step.fec, i);
    }
  }

  lemma AbsorbFaithful(h: Hasher, L: Sets, m: SlotModel, x: Shred, step: FecStep)
    requires Faithful(h, L, m) && StepOk(SetAt(m, x.fecSetIndex), step, x, x.fecSetIndex)
    requires FaithfulSet(h, L, x.fecSetIndex, step.fec)
    ensures Faithful(h, L, Absorb(m, x, step))
  {
    hide FaithfulSet, FromLeader, StepOk, GainOf;
    GainFromLeader(h, L, SetAt(m, x.fecSetIndex), step, x);
  }

  /** What the theorem asks of a packet: if it is the first its set accepts, it is genuine. */
  ghost predicate Admissible(h: Hasher, L: Sets, m: SlotModel, x: Shred) {
    && SlotInv(m) && InRange(x) && Parsed(x)
    && (!Superfluous(m, x) ==> FecInv(SetAt(m, x.fecSetIndex)) && FirstIsGenuine(h, L, SetAt(m, x.fecSetIndex), x))
  }

  lemma SetAtFaithful(h: Hasher, L: Sets, m: SlotModel, f: nat)
    requires Faithful(h, L, m)
    ensures FaithfulSet(h, L, f, SetAt(m, f))
  {
  }

  ghost predicate GenuineIfAccepted(h: Hasher, L: Sets, m: SlotModel, x: Shred)
    requires SlotInv(m) && InRange(x)
  {
    NewSetOk(x.fecSetIndex);
    !Superfluous(m, x) && Verdict(h, SetAt(m, x.fecSetIndex), x).New? ==> Genuine(h, L, x)
  }

  /** A packet that is genuine if accepted keeps a slot faithful, and no recovery fails. */
  lemma GenuineKeepsFaithful(h: Hasher, rs: ReedSolomon, rsOpt: Option<ReedSolomon>, L: Sets, m: SlotModel, x: Shred)
    requires Honest(h, rs, L) && SameCode(rsOpt, rs) && SlotInv(m) && InRange(x) && Faithful(h, L, m)
    requires GenuineIfAccepted(h, L, m, x)
    ensures Faithful(h, L, SlotInsert(h, rsOpt, m, x).0)
  {
    hide StepSet, Absorb, Faithful, Genuine, Verdict, StepOk, FaithfulSet, OutcomeOf, SetOk, Honest;
    if !Superfluous(m, x) {
      var f := x.fecSetIndex;
      SetAtOk(m, f);
      SetAtFaithful(h, L, m, f);
      var before := SetAt(m, f);
      StepSetFaithful(h, rs, rsOpt, L, before, x);
      StepSetOk(h, rsOpt, before, x, f);
      AbsorbFaithful(h, L, m, x, StepSet(h, rsOpt, before, x));
    }
  }

  /** One packet keeps a slot faithful, unless it carries a forgery. */
  lemma InsertKeepsFaithful(h: Hasher, rs: ReedSolomon, rsOpt: Option<ReedSolomon>, L: Sets, m: SlotModel, x: Shred)
    requires Honest(h, rs, L) && SameCode(rsOpt, rs) && Admissible(h, L, m, x) && Faithful(h, L, m)
    ensures Faithful(h, L, SlotInsert(h, rsOpt, m, x).0) || Forged(h, L, x)
  {
    hide SlotInsert, Faithful, Forged, Parse, Verdict, FaithfulSet, Genuine, SetOk, Honest;
    if !Forged(h, L, x) {
      SetAtOk(m, x.fecSetIndex);
      SetAtFaithful(h, L, m, x.fecSetIndex);
      var before := SetAt(m, x.fecSetIndex);
      if !Superfluous(m, x) && Verdict(h, before, x).New? {
        AcceptedIsGenuine(h, rs, L, before, x);
      }
      GenuineKeepsFaithful(h, rs, rsOpt, L, m, x);
    }
  }

  // ---- whole runs

  /** The slot after a sequence of shreds, from the empty slot. */
  ghost function Feed(h: Hasher, rs: Option<ReedSolomon>, xs: seq<Shred>): (m: SlotModel)
    requires forall x :: x in xs ==> InRange(x)
    ensures SlotInv(m)
  {
    if xs == [] then NEW_SLOT
    else
      var last := |xs| - 1;
      assert xs[last] in xs;
      var m := Feed(h, rs, xs[..last]);
      SlotInsertKeepsInv(h, rs, m, xs[last]);
      SlotInsert(h, rs, m, xs[last]).0
  }

  /** Every data shred of the leader. */
  ghost function LeaderTaken(L: Sets): Taken {
    map i: nat | i < MAX_SHREDS_PER_SLOT && SetOf(i) in L && |L[SetOf(i)]| == SET_SIZE :: L[SetOf(i)][i - SetOf(i)]
  }

  lemma FaithfulRuns(h: Hasher, L: Sets, m: SlotModel)
    requires SlotInv(m) && Faithful(h, L, m)
    ensures Runs(m.taken) <= Runs(LeaderTaken(L))
  {
    var t := LeaderTaken(L);
    forall i | i in m.taken
      ensures i in t && SameContent(m.taken[i], t[i])
    {
      assert FromLeader(L, i, m.taken[i]);
      AgreesContent(m.taken[i], t[i]);
    }
    ConsistentRuns(m.taken, t);
  }

  // ---- which runs can be trusted

  /** A shred whose proof leads to some root. */
  ghost predicate Rooted(h: Hasher, x: Shred) {
    x.Wf() && x.MerkleRoot(h).Some?
  }

  /** The first shred of its set whose proof leads to a root. */
  ghost predicate FirstRooted(h: Hasher, xs: seq<Shred>, k: nat)
    requires k < |xs|
  {
    Rooted(h, xs[k]) && forall j :: 0 <= j < k && Rooted(h, xs[j]) ==> xs[j].fecSetIndex != xs[k].fecSetIndex
  }

  /** No set takes its root from a corrupted shred. */
  ghost predicate FirstsGenuine(h: Hasher, L: Sets, xs: seq<Shred>) {
    forall k :: 0 <= k < |xs| && FirstRooted(h, xs, k) ==> Genuine(h, L, xs[k])
  }

  /** A shred that is the leader's, or any other that does not forge the leader's tree. */
  ghost predicate Fair(h: Hasher, L: Sets, x: Shred) {
    InRange(x) && (Genuine(h, L, x) || (Parsed(x) && !Forged(h, L, x)))
  }

  ghost predicate Trusted(h: Hasher, L: Sets, xs: seq<Shred>) {
    FirstsGenuine(h, L, xs) && forall x :: x in xs ==> Fair(h, L, x)
  }

  lemma FirstsPrefix(h: Hasher, L: Sets, xs: seq<Shred>, n: nat)
    requires n <= |xs| && FirstsGenuine(h, L, xs)
    ensures FirstsGenuine(h, L, xs[..n])
  {
    hide Rooted, Genuine;
    var ys := xs[..n];
    forall k | 0 <= k < n && FirstRooted(h, ys, k)
      ensures Genuine(h, L, ys[k])
    {
      forall j | 0 <= j < k && Rooted(h, xs[j])
        ensures xs[j].fecSetIndex != xs[k].fecSetIndex
      {
        assert ys[j] == xs[j];
      }
      assert FirstRooted(h, xs, k);
    }
  }

  lemma TrustedPrefix(h: Hasher, L: Sets, xs: seq<Shred>, n: nat)
    requires n <= |xs| && Trusted(h, L, xs)
    ensures Trusted(h, L, xs[..n]) && forall x :: x in xs ==> InRange(x)
  {
    hide FirstsGenuine, Genuine, Parsed, Forged, InRange;
    FirstsPrefix(h, L, xs, n);
  }

  /** Set `f` knows its root, or has been consumed and will not look at one again. */
  ghost predicate Settled(m: SlotModel, f: nat) {
    SetIn(Consumed(m.taken), f) || (f in m.sets && m.sets[f].root.Some?)
  }

  lemma StepRoot(h: Hasher, rs: Option<ReedSolomon>, m: FecModel, x: Shred)
    requires FecInv(m) && x.Wf() && (m.root.Some? || Rooted(h, x))
    ensures StepSet(h, rs, m, x).fec.root.Some?
  {
    hide FecRecover, RootFromProof;
    FecInsertKeepsInv(h, m, x);
    var n := FecInsert(h, m, x).0;
    assert n.root.Some? by { InsertRoot(h, m, x); }
    if rs.Some? && CanRecover(n) {
      FecRecoverKeeps(rs.value, n);
    }
  }

  lemma NothingFilled(s: Slots, p: nat)
    requires Filled(s) == {} && p < |s|
    ensures s[p].None?
  {
    assert s[p].Some? ==> p in Filled(s);
  }

  lemma InsertRoot(h: Hasher, m: FecModel, x: Shred)
    requires FecInv(m) && x.Wf() && (m.root.Some? || Rooted(h, x))
    ensures FecInsert(h, m, x).0.root.Some?
  {
    hide RootFromProof;
    if m.root.None? {
      NothingFilled(m.data, 0);
      if x.IsData() {
        NothingFilled(m.data, x.Position());
      } else {
        NothingFilled(m.code, x.Position() - SHREDS_PER_SIDE);
      }
    }
  }

  /** A shred of a set keeps other sets settled and, if it has a root or the set had one, settles its own. */
  lemma InsertSettles(h: Hasher, rs: Option<ReedSolomon>, m: SlotModel, x: Shred, f: nat)
    requires SlotInv(m) && InRange(x) && (Settled(m, f) || (Rooted(h, x) && x.fecSetIndex == f))
    ensures Settled(SlotInsert(h, rs, m, x).0, f)
  {
    hide StepSet, Rooted, FecInv, SetIn, Consumed, Storage;
    if Superfluous(m, x) {
      if !Settled(m, f) {
        SuperfluousSettled(m, x);
      }
    } else {
      SlotInsertKeepsInv(h, rs, m, x);
      var n := SlotInsert(h, rs, m, x).0;
      RunsGrow(m.taken, n.taken);
      assert SetIn(Consumed(m.taken), f) ==> SetIn(Consumed(n.taken), f)
             by { SetInGrows(Consumed(m.taken), Consumed(n.taken), f); }
      SetAtOk(m, x.fecSetIndex);
      if f == x.fecSetIndex && !SetIn(Consumed(n.taken), f) {
        StepRoot(h, rs, SetAt(m, f), x);
      }
    }
  }

  lemma SetInGrows(a: set<nat>, b: set<nat>, f: nat)
    requires a <= b
    ensures SetIn(a, f) ==> SetIn(b, f)
  {
  }

  lemma SuperfluousSettled(m: SlotModel, x: Shred)
    requires SlotInv(m) && InRange(x) && Superfluous(m, x)
    ensures Settled(m, x.fecSetIndex)
  {
    if x.IsData() {
      SetOfMember(x.fecSetIndex, x.index);
      assert Stored(m.sets, m.taken, Consumed(m.taken), x.index);
      if x.fecSetIndex in m.sets {
        assert x.index - x.fecSetIndex in Filled(m.sets[x.fecSetIndex].data);
      }
    }
  }

  lemma {:induction false} FeedSettles(h: Hasher, rs: Option<ReedSolomon>, xs: seq<Shred>, j: nat)
    requires (forall x :: x in xs ==> InRange(x)) && j < |xs| && Rooted(h, xs[j])
    ensures Settled(Feed(h, rs, xs), xs[j].fecSetIndex)
  {
    hide SlotInsert, Rooted, InRange, SlotInv, Settled;
    var last := |xs| - 1;
    assert xs[last] in xs;
    if j < last {
      FeedSettles(h, rs, xs[..last], j);
    }
    InsertSettles(h, rs, Feed(h, rs, xs[..last]), xs[last], xs[j].fecSetIndex);
  }

  lemma UnsettledMeansNoRoot(m: SlotModel, x: Shred)
    requires SlotInv(m) && InRange(x) && !Superfluous(m, x) && SetAt(m, x.fecSetIndex).root.None?
    ensures !Settled(m, x.fecSetIndex)
  {
    if x.IsData() {
      assert x.index !in Consumed(m.taken);
    }
  }

  /** In a trusted run, whatever is accepted next is genuine. */
  lemma NextGenuine(h: Hasher, rs: ReedSolomon, rsOpt: Option<ReedSolomon>, L: Sets, xs: seq<Shred>, k: nat)
    requires Honest(h, rs, L) && Trusted(h, L, xs) && k < |xs| && forall x :: x in xs ==> InRange(x)
    requires Faithful(h, L, Feed(h, rsOpt, xs[..k]))
    ensures GenuineIfAccepted(h, L, Feed(h, rsOpt, xs[..k]), xs[k])
  {
    hide Honest, Faithful, Verdict, Genuine, Parsed, Forged, Feed, InRange, SlotInv, FaithfulSet, FecInv, Superfluous,
         Rooted, Settled, SetOk;
    var m, x := Feed(h, rsOpt, xs[..k]), xs[k];
    assert x in xs && Fair(h, L, x);
    var before := SetAt(m, x.fecSetIndex);
    WfInRange(x);
    SetAtOk(m, x.fecSetIndex);
    SetAtFaithful(h, L, m, x.fecSetIndex);
    if !Superfluous(m, x) && Verdict(h, before, x).New? && !Genuine(h, L, x) {
      if before.root.None? {
        UnsettledMeansNoRoot(m, x);
        FirstHere(h, rsOpt, xs, k);
        NewIsRooted(h, before, x);
      } else {
        RootedAccepted(h, rs, L, before, x);
      }
    }
  }

  lemma WfInRange(x: Shred)
    requires InRange(x)
    ensures x.Wf() && x.fecSetIndex % SHREDS_PER_SIDE == 0 && x.fecSetIndex + SHREDS_PER_SIDE <= MAX_SHREDS_PER_SLOT
  {
  }

  lemma NewIsRooted(h: Hasher, m: FecModel, x: Shred)
    requires FecInv(m) && x.Wf() && Verdict(h, m, x).New?
    ensures Rooted(h, x)
  {
  }

  lemma RootedAccepted(h: Hasher, rs: ReedSolomon, L: Sets, m: FecModel, x: Shred)
    requires Honest(h, rs, L) && FecInv(m) && Fair(h, L, x) && m.root.Some?
    requires FaithfulSet(h, L, x.fecSetIndex, m) && Verdict(h, m, x).New?
    ensures Genuine(h, L, x)
  {
    hide Honest, Verdict, Genuine, Forged, FaithfulSet;
    if !Genuine(h, L, x) {
      AcceptedIsGenuine(h, rs, L, m, x);
    }
  }

  /** While a set does not know its root, no earlier shred of it had one. */
  lemma FirstHere(h: Hasher, rs: Option<ReedSolomon>, xs: seq<Shred>, k: nat)
    requires (forall x :: x in xs ==> InRange(x)) && k < |xs| && !Settled(Feed(h, rs, xs[..k]), xs[k].fecSetIndex)
    ensures Rooted(h, xs[k]) ==> FirstRooted(h, xs, k)
  {
    hide Rooted, InRange, Settled, Feed;
    forall j | 0 <= j < k && Rooted(h, xs[j])
      ensures xs[j].fecSetIndex != xs[k].fecSetIndex
    {
      FeedSettles(h, rs, xs[..k], j);
    }
  }

  lemma {:induction false} FeedFaithful(h: Hasher, rs: ReedSolomon, rsOpt: Option<ReedSolomon>, L: Sets, xs: seq<Shred>)
    requires Honest(h, rs, L) && SameCode(rsOpt, rs) && Trusted(h, L, xs) && forall x :: x in xs ==> InRange(x)
    ensures Faithful(h, L, Feed(h, rsOpt, xs))
  {
    hide Honest, Faithful, Trusted, SlotInsert, SlotInv, InRange, GenuineIfAccepted;
    if xs == [] {
      EmptyFaithful(h, L);
    } else {
      var last := |xs| - 1;
      assert xs[last] in xs;
      TrustedPrefix(h, L, xs, last);
      FeedFaithful(h, rs, rsOpt, L, xs[..last]);
      NextGenuine(h, rs, rsOpt, L, xs, last);
      GenuineKeepsFaithful(h, rs, rsOpt, L, Feed(h, rsOpt, xs[..last]), xs[last]);
    }
  }

  lemma EmptyFaithful(h: Hasher, L: Sets)
    ensures Faithful(h, L, NEW_SLOT)
  {
  }

  /**
   * End-to-end fidelity, for every run: if no set took its root from a corrupted shred, every segment handed out is one
   * of the leader's, byte for byte, or one of the shreds fed carries a collision with the leader's Merkle tree.
   */
  lemma EndToEndFidelity(h: Hasher, rs: ReedSolomon, rsOpt: Option<ReedSolomon>, L: Sets, xs: seq<Shred>)
    requires forall x :: x in xs ==> InRange(x) && Parsed(x)
    requires Honest(h, rs, L) && SameCode(rsOpt, rs) && FirstsGenuine(h, L, xs)
    ensures || Runs(Feed(h, rsOpt, xs).taken) <= Runs(LeaderTaken(L))
            || exists x :: x in xs && Forged(h, L, x)
  {
    hide Faithful, Honest, FirstsGenuine, Forged, Genuine, InRange, Parsed, Runs;
    if forall x :: x in xs ==> !Forged(h, L, x) {
      FeedFaithful(h, rs, rsOpt, L, xs);
      FaithfulRuns(h, L, Feed(h, rsOpt, xs));
    }
  }

  /** The leader's own shreds are genuine. */
  lemma LeaderIsGenuine(h: Hasher, rs: ReedSolomon, L: Sets, f: nat, p: nat)
    requires Honest(h, rs, L) && f in L && p < SET_SIZE
    ensures Genuine(h, L, L[f][p]) && InRange(L[f][p])
  {
    hide Codeword, Parse, SetRoot, RootFromProof, PathOf, Siblings;
    assert HonestSet(h, rs, f, L[f]);
    HonestRoot(h, rs, f, L[f], p);
  }

  /** Safe freeing over whole runs: a set that has been consumed is never there again. */
  lemma {:induction false} FreedForGood(h: Hasher, rs: Option<ReedSolomon>, xs: seq<Shred>, more: seq<Shred>, f: nat)
    requires (forall x :: x in xs ==> InRange(x)) && (forall x :: x in xs + more ==> InRange(x))
    requires SetIn(Consumed(Feed(h, rs, xs).taken), f)
    ensures f !in Feed(h, rs, xs + more).sets && SetIn(Consumed(Feed(h, rs, xs + more).taken), f)
    decreases |more|
  {
    hide SlotInsert, InRange, SlotInv, SetIn;
    if more == [] {
      assert xs + more == xs;
      InvKeepsUnconsumed(Feed(h, rs, xs), f);
    } else {
      var all, last := xs + more, |more| - 1;
      assert all[..|all| - 1] == xs + more[..last];
      assert all[|all| - 1] in all;
      FreedForGood(h, rs, xs, more[..last], f);
      FreedStaysFreed(h, rs, Feed(h, rs, xs + more[..last]), all[|all| - 1], f);
    }
  }

  lemma InvKeepsUnconsumed(m: SlotModel, f: nat)
    requires SlotInv(m) && SetIn(Consumed(m.taken), f)
    ensures f !in m.sets
  {
  }

  /** The shreds an outcome list reports as newly available, in total. */
  ghost function GainedTotal(h: Hasher, rs: Option<ReedSolomon>, xs: seq<Shred>): nat
    requires forall x :: x in xs ==> InRange(x)
  {
    if xs == [] then 0
    else
      var last := |xs| - 1;
      assert xs[last] in xs;
      GainedTotal(h, rs, xs[..last]) + Gained(SlotInsert(h, rs, Feed(h, rs, xs[..last]), xs[last]).1)
  }

  /** Conservation: over any run, the taken shreds number the accepted data shreds plus those reported recovered. */
  lemma {:induction false} FeedConserves(h: Hasher, rs: Option<ReedSolomon>, xs: seq<Shred>)
    requires forall x :: x in xs ==> InRange(x)
    ensures |Feed(h, rs, xs).taken| == GainedTotal(h, rs, xs)
  {
    hide SlotInsert, Gained, InRange, SlotInv;
    if xs != [] {
      var last := |xs| - 1;
      assert xs[last] in xs;
      FeedConserves(h, rs, xs[..last]);
      SlotInsertConserves(h, rs, Feed(h, rs, xs[..last]), xs[last]);
    }
  }
}
