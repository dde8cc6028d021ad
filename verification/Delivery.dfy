/**
 * What an honest slot delivers: it depends only on which shreds were fed, not on their order or repetition, and
 * recovering eagerly never delivers less than waiting.
 */
module Delivery {
  import opened Wire
  import opened Merkle
  import opened Shreds
  import opened Fec
  import opened Segments
  import opened SlotSpec
  import opened Leader
  import opened Fidelity

  /** The positions of a set, of 64, whose genuine shreds are in `xs`. */
  ghost function Positions(h: Hasher, L: Sets, xs: seq<Shred>, f: nat): set<nat> {
    set k | 0 <= k < |xs| && xs[k].Wf() && xs[k].fecSetIndex == f && Genuine(h, L, xs[k]) :: xs[k].Position()
  }

  /** From the positions fed: is all the data of the set available? */
  ghost predicate Ready(k: set<nat>, recover: bool) {
    (recover && |k| >= SHREDS_PER_SIDE) || Range(0, SHREDS_PER_SIDE) <= k
  }

  ghost predicate Available(k: set<nat>, recover: bool, p: nat) {
    p in k || Ready(k, recover)
  }

  /** Exactly the fed shreds are in their slots. */
  ghost predicate HoldsExactly(m: FecModel, k: set<nat>) {
    && (forall p :: p in Filled(m.data) <==> p in k && p < SHREDS_PER_SIDE)
    && (forall p: nat :: p in Filled(m.code) <==> p + SHREDS_PER_SIDE in k)
  }

  ghost predicate Matches(m: FecModel, k: set<nat>, recover: bool) {
    if Ready(k, recover) then Full(m.data) else HoldsExactly(m, k)
  }

  lemma ReadyGrows(k: set<nat>, q: nat, recover: bool)
    requires Ready(k, recover)
    ensures Ready(k + {q}, recover)
  {
    SubsetSize(k, k + {q});
  }

  lemma HeldSize(m: FecModel, k: set<nat>)
    requires HoldsExactly(m, k)
    ensures |k| == |Filled(m.data)| + |Filled(m.code)|
  {
    PartsSize(k, Filled(m.data), Filled(m.code));
  }

  lemma AllHeldIsFull(m: FecModel, k: set<nat>)
    requires |m.data| == SHREDS_PER_SIDE && HoldsExactly(m, k)
    ensures Full(m.data) <==> Range(0, SHREDS_PER_SIDE) <= k
  {
    if Full(m.data) {
      forall p | p in Range(0, SHREDS_PER_SIDE)
        ensures p in k
      {
        assert p in Filled(m.data);
      }
    }
    if Range(0, SHREDS_PER_SIDE) <= k {
      forall p | 0 <= p < SHREDS_PER_SIDE
        ensures m.data[p].Some?
      {
        assert p in Range(0, SHREDS_PER_SIDE);
        assert p in Filled(m.data);
      }
    }
  }

  /** Recovery is possible exactly when 32 of the 64 are held. */
  lemma RecoveryThreshold(m: FecModel, k: set<nat>)
    requires |m.data| == SHREDS_PER_SIDE && HoldsExactly(m, k) && !Full(m.data)
    ensures CanRecover(m) <==> |k| >= SHREDS_PER_SIDE
  {
    HeldSize(m, k);
    FilledIsFull(m.data);
  }

  lemma PositionRange(x: Shred)
    requires x.Wf()
    ensures if x.IsData() then x.Position() < SHREDS_PER_SIDE else SHREDS_PER_SIDE <= x.Position() < SET_SIZE
  {
  }

  lemma SlotHeld(m: FecModel, x: Shred, k: set<nat>)
    requires |m.data| == SHREDS_PER_SIDE && |m.code| == SHREDS_PER_SIDE && x.Wf() && HoldsExactly(m, k)
    ensures SlotOf(m, x).Some? <==> x.Position() in k
  {
    PositionRange(x);
    var q := x.Position();
    if x.IsData() {
      assert m.data[q].Some? <==> q in Filled(m.data);
    } else {
      assert m.code[q - SHREDS_PER_SIDE].Some? <==> q - SHREDS_PER_SIDE in Filled(m.code);
      assert (q - SHREDS_PER_SIDE) + SHREDS_PER_SIDE == q;
    }
  }

  /** An honest shred is accepted unless its slot is taken. */
  lemma HonestVerdict(h: Hasher, L: Sets, m: FecModel, x: Shred, k: set<nat>)
    requires FecInv(m) && FaithfulSet(h, L, x.fecSetIndex, m) && Genuine(h, L, x)
    requires HoldsExactly(m, k) && !Full(m.data)
    ensures Verdict(h, m, x) == if x.Position() in k then Duplicate else New
  {
    hide Agrees, SetRoot, RootFromProof, HoldsExactly;
    SlotHeld(m, x, k);
  }

  lemma PlacedHolds(h: Hasher, m: FecModel, x: Shred, k: set<nat>)
    requires |m.data| == SHREDS_PER_SIDE && |m.code| == SHREDS_PER_SIDE && x.Wf() && HoldsExactly(m, k)
    requires !Full(WithShred(h, m, x).data)
    ensures HoldsExactly(WithShred(h, m, x), k + {x.Position()})
  {
    hide RootFromProof;
    PositionRange(x);
    var n, q := WithShred(h, m, x), x.Position();
    forall p
      ensures p in Filled(n.data) <==> p in k + {q} && p < SHREDS_PER_SIDE
    {
      assert p in Filled(m.data) <==> p in k && p < SHREDS_PER_SIDE;
    }
    forall p: nat
      ensures p in Filled(n.code) <==> p + SHREDS_PER_SIDE in k + {q}
    {
      assert p in Filled(m.code) <==> p + SHREDS_PER_SIDE in k;
    }
  }

  lemma MatchesAvailable(m: FecModel, k: set<nat>, recover: bool, p: nat)
    requires |m.data| == SHREDS_PER_SIDE && Matches(m, k, recover) && p < SHREDS_PER_SIDE
    ensures m.data[p].Some? <==> Available(k, recover, p)
  {
    hide Ready, Filled;
    FilledAt(m.data, p);
  }

  lemma UnneededWhenReady(h: Hasher, m: FecModel, x: Shred)
    requires FecInv(m) && x.Wf() && Full(m.data) && !x.IsData()
    ensures Verdict(h, m, x).Unneeded?
  {
  }

  /** What StepSet does, in terms of its parts. */
  lemma StepSetParts(h: Hasher, rs: Option<ReedSolomon>, m: FecModel, x: Shred)
    requires FecInv(m) && x.Wf()
    ensures var step := StepSet(h, rs, m, x);
            && step.verdict == Verdict(h, m, x)
            && (!step.verdict.New? ==> step.fec == m)
            && (step.verdict.New? && (rs.None? || !CanRecover(WithShred(h, m, x))) ==>
               step.fec == WithShred(h, m, x) && step.recovery.None?)
            && (step.verdict.New? && rs.Some? && CanRecover(WithShred(h, m, x)) ==>
                  step.recovery.Some? && (step.recovery.value.Ok? ==> Full(step.fec.data)))
  {
    hide Verdict, FecRecover;
    FecInsertKeepsInv(h, m, x);
    var n := FecInsert(h, m, x).0;
    if Verdict(h, m, x).New? && rs.Some? && CanRecover(n) {
      FecRecoverKeeps(rs.value, n);
    }
  }

  /** With 32 of the 64 held the data is complete at once; before that exactly the fed shreds are held. */
  lemma StepMatches(h: Hasher, rs: ReedSolomon, rsOpt: Option<ReedSolomon>, L: Sets, m: FecModel, x: Shred, k: set<nat>)
    requires Honest(h, rs, L) && SameCode(rsOpt, rs) && FecInv(m) && FaithfulSet(h, L, x.fecSetIndex, m) && x.Wf()
    requires Genuine(h, L, x)
    requires Matches(m, k, rsOpt.Some?) && (x.IsData() ==> !Available(k, rsOpt.Some?, x.Position()))
    ensures Matches(StepSet(h, rsOpt, m, x).fec, k + {x.Position()}, rsOpt.Some?)
  {
    hide StepSet, Verdict, FaithfulSet, Honest, HoldsExactly, Genuine, Ready, FecInv;
    var q, recover := x.Position(), rsOpt.Some?;
    if Ready(k, recover) {
      StepSetParts(h, rsOpt, m, x);
      UnneededWhenReady(h, m, x);
      ReadyGrows(k, q, recover);
    } else {
      UnreadyStepMatches(h, rs, rsOpt, L, m, x, k);
    }
  }

  lemma UnreadyStepMatches(h: Hasher, rs: ReedSolomon, rsOpt: Option<ReedSolomon>, L: Sets, m: FecModel, x: Shred,
                           k: set<nat>)
    requires Honest(h, rs, L) && SameCode(rsOpt, rs) && FecInv(m) && FaithfulSet(h, L, x.fecSetIndex, m) && x.Wf()
    requires Genuine(h, L, x)
    requires HoldsExactly(m, k) && !Ready(k, rsOpt.Some?)
    ensures Matches(StepSet(h, rsOpt, m, x).fec, k + {x.Position()}, rsOpt.Some?)
  {
    hide StepSet, Verdict, FaithfulSet, Honest, HoldsExactly, Genuine, CanRecover, WithShred, FecInv, Full, Ready;
    var q, recover := x.Position(), rsOpt.Some?;
    UnreadyIsNotFull(m, k, recover);
    HonestVerdict(h, L, m, x, k);
    StepSetParts(h, rsOpt, m, x);
    if q in k {
      assert k + {q} == k;
    } else {
      assert StepSet(h, rsOpt, m, x).recovery.Some? ==> StepSet(h, rsOpt, m, x).recovery.value.Ok? by {
        StepSetFaithful(h, rs, rsOpt, L, m, x);
      }
      NewMatches(h, m, x, k, recover, StepSet(h, rsOpt, m, x));
    }
  }

  lemma UnreadyIsNotFull(m: FecModel, k: set<nat>, recover: bool)
    requires FecInv(m) && HoldsExactly(m, k) && !Ready(k, recover)
    ensures !Full(m.data)
  {
    AllHeldIsFull(m, k);
  }

  lemma NewMatches(h: Hasher, m: FecModel, x: Shred, k: set<nat>, recover: bool, step: FecStep)
    requires FecInv(m) && x.Wf() && HoldsExactly(m, k) && !Ready(k, recover) && x.Position() !in k
    requires var n := WithShred(h, m, x);
             if recover && CanRecover(n) then Full(step.fec.data) else step.fec == n
    ensures Matches(step.fec, k + {x.Position()}, recover)
  {
    hide HoldsExactly;
    var n, q := WithShred(h, m, x), x.Position();
    var k' := k + {q};
    if Full(n.data) {
      FullAfterData(h, m, x, k);
    } else {
      PlacedHolds(h, m, x, k);
      AllHeldIsFull(n, k');
      RecoveryThreshold(n, k');
    }
  }

  lemma FullAfterData(h: Hasher, m: FecModel, x: Shred, k: set<nat>)
    requires FecInv(m) && x.Wf() && HoldsExactly(m, k) && Full(WithShred(h, m, x).data)
    ensures Range(0, SHREDS_PER_SIDE) <= k + {x.Position()}
  {
    var n := WithShred(h, m, x);
    forall p | p in Range(0, SHREDS_PER_SIDE)
      ensures p in k + {x.Position()}
    {
      assert n.data[p].Some?;
      assert p != x.Position() ==> p in Filled(m.data);
    }
  }

  /** Unless a recovery failed, the fresh indexes are those whose slots were filled by the step. */
  lemma FreshIsFilled(h: Hasher, rs: Option<ReedSolomon>, m: FecModel, x: Shred, f: nat, p: nat)
    requires SetOk(m, f) && x.Wf() && x.fecSetIndex == f && p < SHREDS_PER_SIDE
    requires var step := StepSet(h, rs, m, x); step.recovery.Some? ==> step.recovery.value.Ok?
    ensures var step := StepSet(h, rs, m, x);
            |step.fec.data| == SHREDS_PER_SIDE &&
            (f + p in FreshOf(step, x) <==> m.data[p].None? && step.fec.data[p].Some?)
  {
    hide FecRecover, FecInsert, FecInv, KeyedBy;
    FecShape(m);
    FecInsertKeepsInv(h, m, x);
    InsertFills(h, m, x, f, p);
    var (n, v) := FecInsert(h, m, x);
    if v.New? && rs.Some? && CanRecover(n) {
      InsertStepOk(h, m, x, f);
      RecoverFills(rs.value, n, f, p);
    }
  }

  /** Without recovery: only the slot of an accepted data shred is filled. */
  lemma InsertFills(h: Hasher, m: FecModel, x: Shred, f: nat, p: nat)
    requires SetOk(m, f) && x.Wf() && x.fecSetIndex == f && p < SHREDS_PER_SIDE
    ensures var (n, v) := FecInsert(h, m, x);
            && |n.data| == SHREDS_PER_SIDE && (m.data[p].Some? ==> n.data[p].Some?)
            && (m.data[p].None? && n.data[p].Some? <==> v.New? && x.IsData() && x.index == f + p)
  {
    hide WithShred, FecInv, KeyedBy, RootFromProof, Full;
    FecShape(m);
    WithShredSlots(h, m, x, p);
  }

  /** With recovery: exactly the slots that were still empty are filled and reported. */
  lemma RecoverFills(rs: ReedSolomon, n: FecModel, f: nat, p: nat)
    requires SetOk(n, f) && CanRecover(n) && p < SHREDS_PER_SIDE && FecRecover(rs, n).1.Ok?
    ensures var (n', r) := FecRecover(rs, n);
            |n'.data| == SHREDS_PER_SIDE && n'.data[p].Some? && (f + p in r.value <==> n.data[p].None?)
  {
    hide FecRecover, TemplateOf, MissingIndexes, DataSlotOk, CodeSlotOk, Filled;
    FecRecoverKeeps(rs, n);
    assert TemplateOf(n).fecSetIndex == f;
    MissingIndexesAre(n.data, f, SHREDS_PER_SIDE);
  }

  // ---- the slot

  /** The indexes of set `f` taken so far are those available from the positions fed. */
  ghost predicate TakenIs(taken: Taken, f: nat, k: set<nat>, recover: bool) {
    forall i :: f <= i < f + SHREDS_PER_SIDE ==> (i in taken <==> Available(k, recover, i - f))
  }

  /** What set `f` has delivered, from the positions fed to it. */
  ghost predicate SetDelivered(m: SlotModel, f: nat, k: set<nat>, recover: bool) {
    && TakenIs(m.taken, f, k, recover)
    && (f in m.sets ==> Matches(m.sets[f], k, recover))
    && (f !in m.sets && !Ready(k, recover) ==> k == {})
  }

  lemma ConsumedIsReady(taken: Taken, f: nat, k: set<nat>, recover: bool)
    requires TakenIs(taken, f, k, recover) && SetIn(Consumed(taken), f)
    ensures Ready(k, recover)
  {
    if !Ready(k, recover) {
      forall p | p in Range(0, SHREDS_PER_SIDE)
        ensures p in k
      {
        assert f + p in Consumed(taken);
        assert Available(k, recover, f + p - f);
      }
    }
  }

  lemma ReadySetGrows(m: SlotModel, f: nat, k: set<nat>, q: nat, recover: bool)
    requires SetDelivered(m, f, k, recover) && Ready(k, recover)
    ensures SetDelivered(m, f, k + {q}, recover)
  {
    hide Ready, Matches;
    ReadyGrows(k, q, recover);
    ReadyMatches(m, f, k, k + {q}, recover);
  }

  lemma ReadyMatches(m: SlotModel, f: nat, k: set<nat>, k': set<nat>, recover: bool)
    requires f in m.sets ==> Matches(m.sets[f], k, recover)
    requires Ready(k, recover) && Ready(k', recover)
    ensures f in m.sets ==> Matches(m.sets[f], k', recover)
  {
    hide Ready, HoldsExactly;
  }

  /** A superfluous shred adds nothing to what its set can deliver. */
  lemma SuperfluousDelivers(m: SlotModel, x: Shred, k: set<nat>, recover: bool)
    requires x.Wf() && Superfluous(m, x) && SetDelivered(m, x.fecSetIndex, k, recover)
    ensures SetDelivered(m, x.fecSetIndex, k + {x.Position()}, recover)
  {
    hide Ready, Matches;
    var f, q := x.fecSetIndex, x.Position();
    if x.IsData() {
      assert Available(k, recover, x.index - f);
    } else {
      ConsumedIsReady(m.taken, f, k, recover);
    }
    if q in k {
      assert k + {q} == k;
    } else {
      ReadySetGrows(m, f, k, q, recover);
    }
  }

  /** Before a useful shred, its set holds exactly what was fed, even if it is only created now. */
  lemma SetAtMatches(m: SlotModel, x: Shred, k: set<nat>, recover: bool)
    requires SlotInv(m) && InRange(x) && !Superfluous(m, x) && SetDelivered(m, x.fecSetIndex, k, recover)
    ensures Matches(SetAt(m, x.fecSetIndex), k, recover)
    ensures x.IsData() ==> !Available(k, recover, x.Position())
  {
    hide Matches, Ready, SetOk;
    var f := x.fecSetIndex;
    if x.IsData() {
      assert x.index !in m.taken;
    }
    if f !in m.sets {
      if Ready(k, recover) {
        UselessIfFreed(m, x, k, recover);
      }
      NewSetMatches(recover);
    }
  }

  lemma UselessIfFreed(m: SlotModel, x: Shred, k: set<nat>, recover: bool)
    requires SlotInv(m) && InRange(x) && TakenIs(m.taken, x.fecSetIndex, k, recover) && x.fecSetIndex !in m.sets
    requires Ready(k, recover)
    ensures Superfluous(m, x)
  {
    hide Ready;
    var f := x.fecSetIndex;
    SetOfMember(f, f);
    assert f in m.taken <==> Available(k, recover, f - f);
    assert Stored(m.sets, m.taken, Consumed(m.taken), f);
  }

  lemma NewSetMatches(recover: bool)
    ensures Matches(NEW_SET, {}, recover)
  {
    EmptyFilled();
    assert 0 in Range(0, SHREDS_PER_SIDE);
  }

  /** The step filled exactly the slots of the fresh indexes. */
  ghost predicate FreshFilled(m: FecModel, step: FecStep, x: Shred, f: nat)
    requires |m.data| == SHREDS_PER_SIDE && |step.fec.data| == SHREDS_PER_SIDE
  {
    forall i :: f <= i < f + SHREDS_PER_SIDE ==>
        (i in FreshOf(step, x) <==> m.data[i - f].None? && step.fec.data[i - f].Some?)
  }

  lemma AbsorbTaken(m: SlotModel, x: Shred, step: FecStep, k: set<nat>, k': set<nat>, recover: bool)
    requires TakenIs(m.taken, x.fecSetIndex, k, recover)
    requires StepOk(SetAt(m, x.fecSetIndex), step, x, x.fecSetIndex)
    requires FreshFilled(SetAt(m, x.fecSetIndex), step, x, x.fecSetIndex)
    requires Matches(SetAt(m, x.fecSetIndex), k, recover) && Matches(step.fec, k', recover)
    ensures TakenIs(m.taken + GainOf(step, x), x.fecSetIndex, k', recover)
  {
    hide Matches, GainOf, FreshOf, KeyedBy, Available, DataSlotOk, CodeSlotOk, Filled, Full, Distinct;
    var f, before := x.fecSetIndex, SetAt(m, x.fecSetIndex);
    GainFacts(before, step, x);
    forall i | f <= i < f + SHREDS_PER_SIDE
      ensures i in m.taken + GainOf(step, x) <==> Available(k', recover, i - f)
    {
      MatchesAvailable(before, k, recover, i - f);
      MatchesAvailable(step.fec, k', recover, i - f);
    }
  }

  /** The set of the shred after it has been absorbed. */
  lemma AbsorbDelivers(m: SlotModel, x: Shred, step: FecStep, k: set<nat>, k': set<nat>, recover: bool)
    requires SetDelivered(m, x.fecSetIndex, k, recover)
    requires StepOk(SetAt(m, x.fecSetIndex), step, x, x.fecSetIndex)
    requires FreshFilled(SetAt(m, x.fecSetIndex), step, x, x.fecSetIndex)
    requires Matches(SetAt(m, x.fecSetIndex), k, recover) && Matches(step.fec, k', recover)
    ensures SetDelivered(Absorb(m, x, step), x.fecSetIndex, k', recover)
  {
    hide Matches, GainOf, StepOk, FreshFilled, Ready, TakenIs;
    AbsorbTaken(m, x, step, k, k', recover);
    var n := Absorb(m, x, step);
    if x.fecSetIndex !in n.sets {
      ConsumedIsReady(n.taken, x.fecSetIndex, k', recover);
    }
  }

  lemma OthersTaken(m: SlotModel, x: Shred, step: FecStep, f: nat, k: set<nat>, recover: bool)
    requires StepOk(SetAt(m, x.fecSetIndex), step, x, x.fecSetIndex)
    requires f % SHREDS_PER_SIDE == 0 && f != x.fecSetIndex && TakenIs(m.taken, f, k, recover)
    ensures TakenIs(m.taken + GainOf(step, x), f, k, recover)
  {
    hide GainOf, FreshOf, Available, StepOk, SetOf;
    GainInSet(SetAt(m, x.fecSetIndex), step, x);
    forall i | f <= i < f + SHREDS_PER_SIDE
      ensures i !in GainOf(step, x)
    {
      SetOfMember(f, i);
      if i in GainOf(step, x) {
        SetOfMember(x.fecSetIndex, i);
      }
    }
  }

  lemma GainInSet(m: FecModel, step: FecStep, x: Shred)
    requires StepOk(m, step, x, x.fecSetIndex)
    ensures x.fecSetIndex % SHREDS_PER_SIDE == 0
    ensures forall i :: i in GainOf(step, x) ==> x.fecSetIndex <= i < x.fecSetIndex + SHREDS_PER_SIDE
  {
    hide FecInv, KeyedBy, Distinct, Extends, GainOf, FreshOf;
    GainFacts(m, step, x);
  }

  /** Every other set is left as it was, or freed because it is consumed. */
  lemma AbsorbKeepsOthers(m: SlotModel, x: Shred, step: FecStep, f: nat, k: set<nat>, recover: bool)
    requires StepOk(SetAt(m, x.fecSetIndex), step, x, x.fecSetIndex)
    requires f % SHREDS_PER_SIDE == 0 && f != x.fecSetIndex && SetDelivered(m, f, k, recover)
    ensures SetDelivered(Absorb(m, x, step), f, k, recover)
  {
    hide Matches, GainOf, StepOk, Ready, TakenIs;
    OthersTaken(m, x, step, f, k, recover);
    var n := Absorb(m, x, step);
    if f in m.sets && f !in n.sets {
      ConsumedIsReady(n.taken, f, k, recover);
    }
  }

  /** One honest shred: its set now delivers what the larger set of positions allows. */
  lemma UsefulDelivers(h: Hasher, rs: ReedSolomon, rsOpt: Option<ReedSolomon>, L: Sets, m: SlotModel, x: Shred,
                       k: set<nat>)
    requires Honest(h, rs, L) && SameCode(rsOpt, rs) && SlotInv(m) && Faithful(h, L, m) && InRange(x)
    requires Genuine(h, L, x)
    requires !Superfluous(m, x) && SetDelivered(m, x.fecSetIndex, k, rsOpt.Some?)
    ensures SetDelivered(SlotInsert(h, rsOpt, m, x).0, x.fecSetIndex, k + {x.Position()}, rsOpt.Some?)
  {
    hide StepSet, Absorb, Honest, Faithful, FaithfulSet, Genuine, SetDelivered, Matches, FreshOf, SlotInv, Available;
    var f := x.fecSetIndex;
    SetAtOk(m, f);
    SetAtFaithful(h, L, m, f);
    var before := SetAt(m, f);
    SetAtMatches(m, x, k, rsOpt.Some?);
    StepMatches(h, rs, rsOpt, L, before, x, k);
    StepSetOk(h, rsOpt, before, x, f);
    StepSetFaithful(h, rs, rsOpt, L, before, x);
    var step := StepSet(h, rsOpt, before, x);
    forall i | f <= i < f + SHREDS_PER_SIDE
      ensures i in FreshOf(step, x) <==> before.data[i - f].None? && step.fec.data[i - f].Some?
    {
      FreshIsFilled(h, rsOpt, before, x, f, i - f);
    }
    AbsorbDelivers(m, x, step, k, k + {x.Position()}, rsOpt.Some?);
  }

  lemma OthersDeliver(h: Hasher, rsOpt: Option<ReedSolomon>, m: SlotModel, x: Shred, f: nat, k: set<nat>)
    requires SlotInv(m) && InRange(x) && f % SHREDS_PER_SIDE == 0 && f != x.fecSetIndex
    requires SetDelivered(m, f, k, rsOpt.Some?)
    ensures SetDelivered(SlotInsert(h, rsOpt, m, x).0, f, k, rsOpt.Some?)
  {
    hide StepSet, Absorb, SetDelivered, SlotInv, StepOk, SetOk, FecInv;
    if !Superfluous(m, x) {
      SetAtOk(m, x.fecSetIndex);
      StepSetOk(h, rsOpt, SetAt(m, x.fecSetIndex), x, x.fecSetIndex);
      AbsorbKeepsOthers(m, x, StepSet(h, rsOpt, SetAt(m, x.fecSetIndex), x), f, k, rsOpt.Some?);
    }
  }

  /** A shred that is not accepted leaves everything taken as it is; at most it creates its set. */
  lemma RefusedDelivers(h: Hasher, rsOpt: Option<ReedSolomon>, m: SlotModel, x: Shred, f: nat, k: set<nat>)
    requires SlotInv(m) && InRange(x) && f % SHREDS_PER_SIDE == 0 && SetDelivered(m, f, k, rsOpt.Some?)
    requires Superfluous(m, x) || (FecInv(SetAt(m, x.fecSetIndex)) && !Verdict(h, SetAt(m, x.fecSetIndex), x).New?)
    ensures SlotInsert(h, rsOpt, m, x).0.taken == m.taken
    ensures SetDelivered(SlotInsert(h, rsOpt, m, x).0, f, k, rsOpt.Some?)
  {
    hide StepSet, SetDelivered, Verdict, SlotInv, FecInv, Consumed;
    if !Superfluous(m, x) {
      var before := SetAt(m, x.fecSetIndex);
      StepSetParts(h, rsOpt, before, x);
      var step := StepSet(h, rsOpt, before, x);
      assert GainOf(step, x) == map[];
      assert m.taken + map[] == m.taken;
      if f != x.fecSetIndex {
        OthersDeliver(h, rsOpt, m, x, f, k);
      } else {
        CreatedDelivers(m, x, k, rsOpt.Some?);
      }
    }
  }

  lemma CreatedDelivers(m: SlotModel, x: Shred, k: set<nat>, recover: bool)
    requires SlotInv(m) && InRange(x) && !Superfluous(m, x) && SetDelivered(m, x.fecSetIndex, k, recover)
    ensures var f := x.fecSetIndex;
            SetDelivered(SlotModel(Prune(m.sets[f := SetAt(m, f)], Consumed(m.taken)), m.taken), f, k, recover)
  {
    hide Matches, Ready, TakenIs, SlotInv, Consumed;
    SetAtMatches(m, x, k, recover);
    var f := x.fecSetIndex;
    if SetIn(Consumed(m.taken), f) {
      ConsumedIsReady(m.taken, f, k, recover);
    }
  }

  // ---- whole runs

  /** A shred of a trusted run: a genuine one adds its position, any other adds nothing. */
  lemma StepDelivered(h: Hasher, rs: ReedSolomon, rsOpt: Option<ReedSolomon>, L: Sets, m: SlotModel, x: Shred, f: nat,
                      k: set<nat>)
    requires Honest(h, rs, L) && SameCode(rsOpt, rs) && SlotInv(m) && Faithful(h, L, m) && InRange(x)
    requires GenuineIfAccepted(h, L, m, x)
    requires f % SHREDS_PER_SIDE == 0 && SetDelivered(m, f, k, rsOpt.Some?)
    ensures SetDelivered(SlotInsert(h, rsOpt, m, x).0, f,
                         k + (if x.fecSetIndex == f && Genuine(h, L, x) then {x.Position()} else {}), rsOpt.Some?)
  {
    hide Honest, Faithful, SetDelivered, Genuine, SlotInv, SlotInsert, Verdict, FecInv, SetOk;
    assert k + {} == k;
    if !Genuine(h, L, x) {
      SetAtOk(m, x.fecSetIndex);
      SetAtFaithful(h, L, m, x.fecSetIndex);
      RefusedDelivers(h, rsOpt, m, x, f, k);
    } else if x.fecSetIndex != f {
      OthersDeliver(h, rsOpt, m, x, f, k);
    } else if Superfluous(m, x) {
      assert SlotInsert(h, rsOpt, m, x).0 == m by { SuperfluousKeeps(h, rsOpt, m, x); }
      SuperfluousDelivers(m, x, k, rsOpt.Some?);
    } else {
      UsefulDelivers(h, rs, rsOpt, L, m, x, k);
    }
  }

  lemma SuperfluousKeeps(h: Hasher, rsOpt: Option<ReedSolomon>, m: SlotModel, x: Shred)
    requires SlotInv(m) && InRange(x) && Superfluous(m, x)
    ensures SlotInsert(h, rsOpt, m, x).0 == m
  {
    hide SlotInv, StepSet, Absorb;
  }

  lemma PositionsAppend(h: Hasher, L: Sets, xs: seq<Shred>, x: Shred, f: nat)
    requires x.Wf()
    ensures Positions(h, L, xs + [x], f) == Positions(h, L, xs, f) + if x.fecSetIndex == f && Genuine(h, L, x)
            then {x.Position()} else {}
  {
    hide Genuine;
    var ys := xs + [x];
    forall k | 0 <= k < |xs|
      ensures ys[k] == xs[k]
    {
    }
    assert ys[|xs|] == x;
  }

  /** In every trusted run, each set has delivered exactly what the genuine positions fed to it allow. */
  lemma {:induction false} Delivered(h: Hasher, rs: ReedSolomon, rsOpt: Option<ReedSolomon>, L: Sets, xs: seq<Shred>,
                                     f: nat)
    requires Honest(h, rs, L) && SameCode(rsOpt, rs) && Trusted(h, L, xs) && f % SHREDS_PER_SIDE == 0
    ensures forall x :: x in xs ==> InRange(x)
    ensures SetDelivered(Feed(h, rsOpt, xs), f, Positions(h, L, xs, f), rsOpt.Some?)
  {
    hide Honest, Faithful, SetDelivered, SlotInsert, Genuine, InRange, SlotInv, Trusted, GenuineIfAccepted;
    TrustedPrefix(h, L, xs, |xs|);
    if xs == [] {
      NothingDelivered(f, rsOpt.Some?);
      assert Positions(h, L, xs, f) == {};
    } else {
      var last := |xs| - 1;
      var before, x := xs[..last], xs[last];
      assert x in xs;
      TrustedPrefix(h, L, xs, last);
      Delivered(h, rs, rsOpt, L, before, f);
      FeedFaithful(h, rs, rsOpt, L, before);
      NextGenuine(h, rs, rsOpt, L, xs, last);
      StepDelivered(h, rs, rsOpt, L, Feed(h, rsOpt, before), x, f, Positions(h, L, before, f));
      assert xs == before + [x];
      WfOf(x);
      PositionsAppend(h, L, before, x, f);
    }
  }

  lemma WfOf(x: Shred)
    requires InRange(x)
    ensures x.Wf()
  {
  }

  lemma NothingDelivered(f: nat, recover: bool)
    ensures SetDelivered(NEW_SLOT, f, {}, recover)
  {
    hide Ready, Matches;
    NothingIsNotReady(recover);
  }

  lemma NothingIsNotReady(recover: bool)
    ensures !Ready({}, recover)
  {
    assert 0 in Range(0, SHREDS_PER_SIDE);
  }

  lemma FaithfulAgree(h: Hasher, L: Sets, a: SlotModel, b: SlotModel)
    requires Faithful(h, L, a) && Faithful(h, L, b)
    ensures Consistent(a.taken, b.taken)
  {
    hide Agrees;
    forall i | i in a.taken && i in b.taken
      ensures SameContent(a.taken[i], b.taken[i])
    {
      var g := L[SetOf(i)][i - SetOf(i)];
      assert FromLeader(L, i, a.taken[i]) && FromLeader(L, i, b.taken[i]);
      SameAsLeader(a.taken[i], b.taken[i], g);
    }
  }

  lemma SameAsLeader(s: Shred, t: Shred, g: Shred)
    requires Agrees(s, g) && Agrees(t, g)
    ensures SameContent(s, t)
  {
    AgreesContent(s, g);
    AgreesContent(t, g);
  }

  /** What a run has taken, index by index. */
  lemma TakenByRun(h: Hasher, rs: ReedSolomon, rsOpt: Option<ReedSolomon>, L: Sets, xs: seq<Shred>, i: nat)
    requires Honest(h, rs, L) && SameCode(rsOpt, rs) && Trusted(h, L, xs)
    ensures forall x :: x in xs ==> InRange(x)
    ensures i in Feed(h, rsOpt, xs).taken <==> Available(Positions(h, L, xs, SetOf(i)), rsOpt.Some?, i - SetOf(i))
  {
    hide Honest, Trusted, Available, Matches, Ready, Feed, Positions, InRange;
    Delivered(h, rs, rsOpt, L, xs, SetOf(i));
  }

  /**
   * Order independence: two trusted runs that were fed the same genuine positions of every set, in whatever order, with
   * whatever repetitions and corrupted shreds in between, have handed out the same segments.
   */
  lemma OrderIndependence(h: Hasher, rs: ReedSolomon, rsOpt: Option<ReedSolomon>, L: Sets, xs: seq<Shred>,
                          ys: seq<Shred>)
    requires Honest(h, rs, L) && SameCode(rsOpt, rs) && Trusted(h, L, xs) && Trusted(h, L, ys)
    requires forall f :: Positions(h, L, xs, f) == Positions(h, L, ys, f)
    ensures (forall x :: x in xs ==> InRange(x)) && (forall x :: x in ys ==> InRange(x))
    ensures Runs(Feed(h, rsOpt, xs).taken) == Runs(Feed(h, rsOpt, ys).taken)
  {
    hide Honest, Available, Trusted, InRange, Feed, Runs, Positions, Faithful;
    TrustedPrefix(h, L, xs, |xs|);
    TrustedPrefix(h, L, ys, |ys|);
    var a, b := Feed(h, rsOpt, xs), Feed(h, rsOpt, ys);
    forall i
      ensures i in a.taken <==> i in b.taken
    {
      if 0 <= i {
        TakenByRun(h, rs, rsOpt, L, xs, i);
        TakenByRun(h, rs, rsOpt, L, ys, i);
      }
    }
    FeedFaithful(h, rs, rsOpt, L, xs);
    FeedFaithful(h, rs, rsOpt, L, ys);
    FaithfulAgree(h, L, a, b);
    ConsistentRuns(a.taken, b.taken);
    ConsistentRuns(b.taken, a.taken);
  }

  /**
   * Eager recovery dominates waiting: after every trusted run, what the waiting slot has handed out the recovering one
   * has too.
   */
  lemma EagerDominates(h: Hasher, rs: ReedSolomon, L: Sets, xs: seq<Shred>)
    requires Honest(h, rs, L) && Trusted(h, L, xs)
    ensures forall x :: x in xs ==> InRange(x)
    ensures Runs(Feed(h, None, xs).taken) <= Runs(Feed(h, Some(rs), xs).taken)
  {
    hide Honest, Faithful, Trusted, InRange, Feed, Runs, Positions, Ready;
    TrustedPrefix(h, L, xs, |xs|);
    var waiting, eager := Feed(h, None, xs), Feed(h, Some(rs), xs);
    forall i | i in waiting.taken
      ensures i in eager.taken
    {
      TakenByRun(h, rs, None, L, xs, i);
      TakenByRun(h, rs, Some(rs), L, xs, i);
      ReadyByRecovery(Positions(h, L, xs, SetOf(i)));
    }
    FeedFaithful(h, rs, None, L, xs);
    FeedFaithful(h, rs, Some(rs), L, xs);
    FaithfulAgree(h, L, waiting, eager);
    ConsistentRuns(waiting.taken, eager.taken);
  }

  lemma ReadyByRecovery(k: set<nat>)
    ensures Ready(k, false) ==> Ready(k, true)
  {
  }

  /**
   * In every trusted run, any 32 of the 64 shreds of a set are enough for all its data, and with fewer only the genuine
   * data shreds fed are there.
   */
  lemma ThirtyTwoSuffice(h: Hasher, rs: ReedSolomon, L: Sets, xs: seq<Shred>, f: nat, p: nat)
    requires Honest(h, rs, L) && Trusted(h, L, xs) && f % SHREDS_PER_SIDE == 0 && p < SHREDS_PER_SIDE
    ensures forall x :: x in xs ==> InRange(x)
    ensures f + p in Feed(h, Some(rs), xs).taken <==>
            |Positions(h, L, xs, f)| >= SHREDS_PER_SIDE || p in Positions(h, L, xs, f)
  {
    hide Honest, Trusted, Feed, Positions, Available, InRange, SetOf, SlotInv;
    SetOfMember(f, f + p);
    TakenByRun(h, rs, Some(rs), L, xs, f + p);
    AvailableByCount(Positions(h, L, xs, f), p);
  }

  /** Half of every set is enough for the leader's whole slot, whatever corrupted shreds arrive in between. */
  lemma HalfIsEnough(h: Hasher, rs: ReedSolomon, L: Sets, xs: seq<Shred>)
    requires Honest(h, rs, L) && Trusted(h, L, xs)
    requires forall f :: f in L ==> |Positions(h, L, xs, f)| >= SHREDS_PER_SIDE
    ensures forall x :: x in xs ==> InRange(x)
    ensures Runs(Feed(h, Some(rs), xs).taken) == Runs(LeaderTaken(L))
  {
    hide Trusted, InRange, Feed, Runs, Positions, Faithful, Honest, SetOf, LeaderTaken, SlotInv;
    TrustedPrefix(h, L, xs, |xs|);
    FeedFaithful(h, rs, Some(rs), L, xs);
    var taken, leader := Feed(h, Some(rs), xs).taken, LeaderTaken(L);
    forall i | i in leader
      ensures i in taken
    {
      LeaderIndex(L, i);
      ThirtyTwoSuffice(h, rs, L, xs, SetOf(i), i - SetOf(i));
    }
    FaithfulRuns(h, L, Feed(h, Some(rs), xs));
    TakenConsistent(h, L, Feed(h, Some(rs), xs));
    ConsistentRuns(leader, taken);
  }

  lemma LeaderIndex(L: Sets, i: nat)
    requires i in LeaderTaken(L)
    ensures SetOf(i) in L
  {
  }

  lemma SameAsOriginal(s: Shred, g: Shred)
    requires Agrees(s, g)
    ensures SameContent(g, s)
  {
    AgreesContent(s, g);
  }

  lemma TakenConsistent(h: Hasher, L: Sets, m: SlotModel)
    requires Faithful(h, L, m)
    ensures Consistent(LeaderTaken(L), m.taken)
  {
    hide Agrees;
    var leader := LeaderTaken(L);
    forall i | i in leader && i in m.taken
      ensures SameContent(leader[i], m.taken[i])
    {
      assert FromLeader(L, i, m.taken[i]);
      SameAsOriginal(m.taken[i], leader[i]);
    }
  }

  /** Every run of the leader's own shreds is trusted. */
  lemma LeaderIsTrusted(h: Hasher, rs: ReedSolomon, L: Sets, xs: seq<Shred>)
    requires Honest(h, rs, L) && forall x :: x in xs ==> x.fecSetIndex in L && x in L[x.fecSetIndex]
    ensures Trusted(h, L, xs)
  {
    hide Genuine, InRange, Trusted;
    forall x | x in xs
      ensures InRange(x) && Genuine(h, L, x)
    {
      assert HonestSet(h, rs, x.fecSetIndex, L[x.fecSetIndex]);
      var p :| 0 <= p < SET_SIZE && L[x.fecSetIndex][p] == x;
      LeaderIsGenuine(h, rs, L, x.fecSetIndex, p);
    }
    GenuineIsTrusted(h, L, xs);
  }

  lemma GenuineIsTrusted(h: Hasher, L: Sets, xs: seq<Shred>)
    requires forall x :: x in xs ==> InRange(x) && Genuine(h, L, x)
    ensures Trusted(h, L, xs)
  {
    hide Genuine, InRange, Parsed, Forged, Rooted;
  }

  lemma AvailableByCount(k: set<nat>, p: nat)
    ensures Available(k, true, p) <==> |k| >= SHREDS_PER_SIDE || p in k
  {
    if Range(0, SHREDS_PER_SIDE) <= k {
      SubsetSize(Range(0, SHREDS_PER_SIDE), k);
    }
  }
}
