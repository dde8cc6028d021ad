/** One slot as values: its FEC sets and the data shreds taken so far. What it has emitted is `Runs(taken)`. */
module SlotSpec {
  import opened Wire
  import opened Merkle
  import opened Shreds
  import opened Fec
  import opened Segments

  datatype SlotModel = SlotModel(sets: map<nat, FecModel>, taken: Taken)

  const NEW_SLOT := SlotModel(map[], map[])

  /**
   * What became of one shred. `recovered` counts the rebuilt shreds, `failed` says that a recovery was tried in vain.
   */
  datatype Outcome =
    | Duplicated
    | NotNeeded
    | Refused(why: Reject)
    | Accepted(isData: bool, recovered: nat, failed: bool)

  function SetOf(i: nat): (f: nat)
    ensures f % SHREDS_PER_SIDE == 0 && f <= i < f + SHREDS_PER_SIDE
  {
    i - i % SHREDS_PER_SIDE
  }

  lemma SetOfMember(f: nat, i: nat)
    requires f % SHREDS_PER_SIDE == 0 && f <= i < f + SHREDS_PER_SIDE
    ensures SetOf(i) == f
  {
  }

  /** All 32 data indexes of set `f` are in `consumed`. */
  ghost predicate SetIn(consumed: set<nat>, f: nat) {
    forall i :: f <= i < f + SHREDS_PER_SIDE ==> i in consumed
  }

  /** What is left when the wholly consumed sets are dropped. */
  ghost function Prune<T>(sets: map<nat, T>, consumed: set<nat>): map<nat, T> {
    map f | f in sets && !SetIn(consumed, f) :: sets[f]
  }

  ghost predicate KeyedBy(m: FecModel, f: nat) {
    && (forall p :: 0 <= p < |m.data| && m.data[p].Some? ==> m.data[p].value.fecSetIndex == f)
    && (forall p :: 0 <= p < |m.code| && m.code[p].Some? ==> m.code[p].value.fecSetIndex == f)
  }

  ghost predicate SetOk(m: FecModel, f: nat) {
    f % SHREDS_PER_SIDE == 0 && f + SHREDS_PER_SIDE <= MAX_SHREDS_PER_SLOT && FecInv(m) && KeyedBy(m, f)
  }

  ghost predicate TakenOk(taken: Taken) {
    forall i :: i in taken ==> i < MAX_SHREDS_PER_SLOT && taken[i].Wf() && taken[i].IsData() && taken[i].index == i
  }

  /** A taken shred is stored at its position, unless its whole set has been consumed and freed. */
  ghost predicate Stored(sets: map<nat, FecModel>, taken: Taken, consumed: set<nat>, i: nat)
    requires i in taken && forall f :: f in sets ==> |sets[f].data| == SHREDS_PER_SIDE
  {
    var f := SetOf(i);
    if f in sets then sets[f].data[i - f] == Some(taken[i]) else SetIn(consumed, f)
  }

  /** Storage agreement: stored shreds match what was taken, and exactly the wholly consumed sets are gone. */
  ghost predicate Storage(sets: map<nat, FecModel>, taken: Taken, consumed: set<nat>) {
    && (forall f :: f in sets ==> SetOk(sets[f], f) && !SetIn(consumed, f))
    && TakenOk(taken)
    && (forall i :: i in taken ==> Stored(sets, taken, consumed, i))
  }

  ghost predicate SlotInv(m: SlotModel) {
    Storage(m.sets, m.taken, Consumed(m.taken))
  }

  // ---- one packet inside its FEC set

  datatype FecStep = FecStep(fec: FecModel, verdict: Insert, recovery: Option<Result<seq<nat>, RecoverError>>)

  /** Insert, then recover at once if that has become possible and is wanted. */
  ghost function StepSet(h: Hasher, rs: Option<ReedSolomon>, m: FecModel, shred: Shred): FecStep
    requires FecInv(m) && shred.Wf()
  {
    FecInsertKeepsInv(h, m, shred);
    var (n, v) := FecInsert(h, m, shred);
    if v.New? && rs.Some? && CanRecover(n) then
      var (n', r) := FecRecover(rs.value, n);
      FecStep(n', v, Some(r))
    else FecStep(n, v, None)
  }

  /** Indexes that become available with a packet, in the order the program lists them. */
  ghost function FreshOf(step: FecStep, shred: Shred): seq<nat> {
    if !step.verdict.New? then []
    else
      (if shred.IsData() then [shred.index] else []) +
      (if step.recovery.Some? && step.recovery.value.Ok? then step.recovery.value.value else [])
  }

  ghost function OutcomeOf(step: FecStep, shred: Shred): Outcome {
    match step.verdict
    case Duplicate => Duplicated
    case Unneeded => NotNeeded
    case Rejected(why) => Refused(why)
    case New =>
      match step.recovery
      case None => Accepted(shred.IsData(), 0, false)
      case Some(Ok(indexes)) => Accepted(shred.IsData(), |indexes|, false)
      case Some(Err(_)) => Accepted(shred.IsData(), 0, true)
  }

  /** The shreds behind the fresh indexes. */
  ghost function Gain(fec: FecModel, f: nat, newly: seq<nat>): Taken {
    map i | i in newly && f <= i < f + |fec.data| && fec.data[i - f].Some? :: fec.data[i - f].value
  }

  ghost predicate Ascending(s: seq<nat>) {
    forall i, j :: 0 <= i < j < |s| ==> s[i] < s[j]
  }

  /** The index of a data shred itself, which comes out first. */
  function Own(shred: Shred): Option<nat> {
    if shred.IsData() then Some(shred.index) else None
  }

  /** The fresh indexes: the shred's own first, the others in ascending order. */
  ghost predicate FreshShape(own: Option<nat>, newly: seq<nat>) {
    if own.None? then Ascending(newly)
    else newly != [] ==> newly[0] == own.value && Ascending(newly[1..])
  }

  ghost predicate Distinct<T>(s: seq<T>) {
    forall i, j :: 0 <= i < j < |s| ==> s[i] != s[j]
  }

  /**
   * What a step inside set `f` guarantees: nothing stored is lost, and the fresh indexes are distinct, lie in the set,
   * had empty slots before and have filled slots after.
   */
  ghost predicate StepOk(m: FecModel, step: FecStep, shred: Shred, f: nat) {
    && SetOk(m, f) && SetOk(step.fec, f)
    && Extends(m.data, step.fec.data)
    && (!step.verdict.New? ==> step.fec == m)
    && Distinct(FreshOf(step, shred))
    && forall i :: i in FreshOf(step, shred) ==>
                     f <= i < f + SHREDS_PER_SIDE && m.data[i - f].None? && step.fec.data[i - f].Some?
  }

  lemma InsertStepOk(h: Hasher, m: FecModel, shred: Shred, f: nat)
    requires SetOk(m, f) && shred.Wf() && shred.fecSetIndex == f
    ensures var (n, v) := FecInsert(h, m, shred); StepOk(m, FecStep(n, v, None), shred, f)
  {
    FecInsertKeepsInv(h, m, shred);
    EmptyFilled();
  }

  lemma RecoverStepOk(rs: ReedSolomon, m: FecModel, n: FecModel, shred: Shred, f: nat)
    requires StepOk(m, FecStep(n, New, None), shred, f) && CanRecover(n)
    requires shred.IsData() ==> f <= shred.index < f + SHREDS_PER_SIDE && n.data[shred.index - f].Some?
    ensures var (n', r) := FecRecover(rs, n); StepOk(m, FecStep(n', New, Some(r)), shred, f)
  {
    hide FecRecover, TemplateOf, MissingIndexes, DataSlotOk, CodeSlotOk, Empty, Filled;
    FecRecoverKeeps(rs, n);
    EmptyFilled();
    assert TemplateOf(n).fecSetIndex == f;
    var (n', r) := FecRecover(rs, n);
    if r.Ok? {
      RecoveredFresh(m, n, n', shred, f, r);
    }
  }

  lemma RecoveredFresh(m: FecModel, n: FecModel, n': FecModel, shred: Shred, f: nat, r: Result<seq<nat>, RecoverError>)
    requires StepOk(m, FecStep(n, New, None), shred, f) && |n'.data| == SHREDS_PER_SIDE && Full(n'.data)
    requires shred.IsData() ==> f <= shred.index < f + SHREDS_PER_SIDE && n.data[shred.index - f].Some?
    requires r == Ok(MissingIndexes(n.data, f, SHREDS_PER_SIDE))
    ensures var newly := FreshOf(FecStep(n', New, Some(r)), shred);
            && Distinct(newly)
            && forall i :: i in newly ==> f <= i < f + SHREDS_PER_SIDE && m.data[i - f].None? && n'.data[i - f].Some?
  {
    hide MissingIndexes, KeyedBy, Distinct, DataSlotOk, CodeSlotOk, Filled;
    MissingIndexesAre(n.data, f, SHREDS_PER_SIDE);
    MissingIndexesAscend(n.data, f, SHREDS_PER_SIDE);
    DistinctCons(shred, r.value);
    forall i | i in FreshOf(FecStep(n', New, Some(r)), shred)
      ensures f <= i < f + SHREDS_PER_SIDE && m.data[i - f].None?
    {
      assert i !in r.value ==> i in FreshOf(FecStep(n, New, None), shred);
    }
  }

  lemma DistinctCons(shred: Shred, s: seq<nat>)
    requires Ascending(s) && (shred.IsData() ==> shred.index !in s)
    ensures Distinct((if shred.IsData() then [shred.index] else []) + s)
  {
  }

  lemma StepSetOk(h: Hasher, rs: Option<ReedSolomon>, m: FecModel, shred: Shred, f: nat)
    requires SetOk(m, f) && shred.Wf() && shred.fecSetIndex == f
    ensures StepOk(m, StepSet(h, rs, m, shred), shred, f)
  {
    InsertStepOk(h, m, shred, f);
    var (n, v) := FecInsert(h, m, shred);
    if v.New? && rs.Some? && CanRecover(n) {
      assert n.data == WithShred(h, m, shred).data;
      RecoverStepOk(rs.value, m, n, shred, f);
    }
  }

  /** What a step reports comes in the shape the program lists it. */
  lemma FreshIsShaped(h: Hasher, rs: Option<ReedSolomon>, m: FecModel, shred: Shred)
    requires FecInv(m) && shred.Wf()
    ensures FreshShape(Own(shred), FreshOf(StepSet(h, rs, m, shred), shred))
  {
    hide FecRecover, FecInsert, FecInv, MissingIndexes, TemplateOf, CanRecover;
    FecShape(m);
    FecInsertKeepsInv(h, m, shred);
    var (n, v) := FecInsert(h, m, shred);
    if v.New? && rs.Some? && CanRecover(n) {
      FecRecoverKeeps(rs.value, n);
      FecShape(n);
      var r := FecRecover(rs.value, n).1;
      if r.Ok? {
        MissingIndexesAscend(n.data, TemplateOf(n).fecSetIndex, SHREDS_PER_SIDE);
        assert ([shred.index] + r.value)[1..] == r.value;
      }
    }
  }

  lemma {:induction false} DistinctSize(s: seq<nat>, lo: nat, hi: nat)
    requires Distinct(s) && lo <= hi && forall i :: i in s ==> lo <= i < hi
    ensures |(set i | i in s)| == |s| <= hi - lo
  {
    DistinctCount(s);
    assert (set i: nat | i in s) == (set i | i in s);
    assert (set i: nat | i in s) <= Range(lo, hi);
    SubsetSize((set i | i in s), Range(lo, hi));
  }

  lemma {:induction false} DistinctCount<T>(s: seq<T>)
    requires Distinct(s)
    ensures |(set i | i in s)| == |s|
  {
    if s == [] {
      assert (set i | i in s) == {};
    } else {
      var last := |s| - 1;
      DistinctCount(s[..last]);
      assert s == s[..last] + [s[last]];
      assert (set i | i in s) == (set i | i in s[..last]) + {s[last]};
    }
  }

  // ---- one packet in the slot

  function SetAt(m: SlotModel, f: nat): FecModel {
    if f in m.sets then m.sets[f] else NEW_SET
  }

  lemma NewSetOk(f: nat)
    requires f % SHREDS_PER_SIDE == 0 && f + SHREDS_PER_SIDE <= MAX_SHREDS_PER_SLOT
    ensures SetOk(NEW_SET, f)
  {
    EmptyFilled();
  }

  /** The set a slot has for `f`, or the empty one it would create. */
  lemma SetAtOk(m: SlotModel, f: nat)
    requires SlotInv(m) && f % SHREDS_PER_SIDE == 0 && f + SHREDS_PER_SIDE <= MAX_SHREDS_PER_SLOT
    ensures SetOk(SetAt(m, f), f) && FecInv(SetAt(m, f))
  {
    NewSetOk(f);
  }

  /** A code shred's set index is checked for alignment only; the slot needs it in range. */
  predicate InRange(shred: Shred) {
    shred.Wf() && shred.fecSetIndex + SHREDS_PER_SIDE <= MAX_SHREDS_PER_SLOT
  }

  /** The first checks of an insert: a known data shred, or a code shred of a set that is consumed. */
  ghost predicate Superfluous(m: SlotModel, shred: Shred) {
    if shred.IsData() then shred.index in m.taken else SetIn(Consumed(m.taken), shred.fecSetIndex)
  }

  ghost function GainOf(step: FecStep, shred: Shred): Taken {
    Gain(step.fec, shred.fecSetIndex, FreshOf(step, shred))
  }

  ghost function Absorb(m: SlotModel, shred: Shred, step: FecStep): SlotModel {
    var taken := m.taken + GainOf(step, shred);
    SlotModel(Prune(m.sets[shred.fecSetIndex := step.fec], Consumed(taken)), taken)
  }

  /**
   * The slot after one shred. The state is only what is stored and what was taken; the segments to hand out are the
   * runs of the new `taken` that the old one did not have.
   */
  ghost function SlotInsert(h: Hasher, rs: Option<ReedSolomon>, m: SlotModel, shred: Shred): (r: (SlotModel, Outcome))
    requires SlotInv(m) && InRange(shred)
  {
    if Superfluous(m, shred) then (m, if shred.IsData() then Duplicated else NotNeeded)
    else
      NewSetOk(shred.fecSetIndex);
      var step := StepSet(h, rs, SetAt(m, shred.fecSetIndex), shred);
      (Absorb(m, shred, step), OutcomeOf(step, shred))
  }

  lemma EmptySlotNotTaken(m: SlotModel, f: nat, i: nat)
    requires SlotInv(m) && SetOk(SetAt(m, f), f) && !SetIn(Consumed(m.taken), f)
    requires f <= i < f + SHREDS_PER_SIDE && SetAt(m, f).data[i - f].None?
    ensures i !in m.taken
  {
    SetOfMember(f, i);
  }

  lemma GainFacts(m: FecModel, step: FecStep, shred: Shred)
    requires StepOk(m, step, shred, shred.fecSetIndex)
    ensures forall i :: i in GainOf(step, shred) <==> i in FreshOf(step, shred)
    ensures forall i :: i in GainOf(step, shred) ==>
            step.fec.data[i - shred.fecSetIndex] == Some(GainOf(step, shred)[i])
  {
    hide FreshOf, KeyedBy, Extends, Distinct, DataSlotOk, CodeSlotOk, Filled, Full;
  }

  /** Before the first segment is cut: the set updated, the fresh indexes taken, nothing new consumed. */
  lemma AfterMark(m: SlotModel, shred: Shred, step: FecStep)
    requires SlotInv(m) && InRange(shred) && !Superfluous(m, shred)
    requires StepOk(SetAt(m, shred.fecSetIndex), step, shred, shred.fecSetIndex)
    ensures var gain := GainOf(step, shred);
            && (forall i :: i in gain <==> i in FreshOf(step, shred))
            && (forall i :: i in gain ==> i !in m.taken)
            && SubMap(m.taken, m.taken + gain)
            && Storage(m.sets[shred.fecSetIndex := step.fec], m.taken + gain, Consumed(m.taken))
  {
    hide GainOf, FreshOf, SlotInv, Storage, SetOk, Extends;
    var f := shred.fecSetIndex;
    var newly := FreshOf(step, shred);
    var gain := GainOf(step, shred);
    GainFacts(SetAt(m, f), step, shred);
    if shred.IsData() {
      assert shred.index !in Consumed(m.taken);
    }
    forall i | i in newly
      ensures i !in m.taken
    {
      EmptySlotNotTaken(m, f, i);
    }
    MarkedStorage(m, f, step.fec, gain);
  }

  lemma MarkedStorage(m: SlotModel, f: nat, n: FecModel, gain: Taken)
    requires SlotInv(m) && SetOk(SetAt(m, f), f) && SetOk(n, f) && Extends(SetAt(m, f).data, n.data)
    requires !SetIn(Consumed(m.taken), f)
    requires forall i :: i in gain ==> i !in m.taken && f <= i < f + SHREDS_PER_SIDE && n.data[i - f] == Some(gain[i])
    ensures Storage(m.sets[f := n], m.taken + gain, Consumed(m.taken))
  {
    hide TakenOk, KeyedBy, SetOf, SetIn, DataSlotOk, CodeSlotOk, Filled, Full;
    var sets, taken, consumed := m.sets[f := n], m.taken + gain, Consumed(m.taken);
    forall i | i in taken
      ensures Stored(sets, taken, consumed, i)
    {
      if i in gain {
        SetOfMember(f, i);
      } else {
        assert Stored(m.sets, m.taken, consumed, i);
      }
    }
    MarkedTaken(m.taken, f, n, gain);
  }

  lemma MarkedTaken(taken: Taken, f: nat, n: FecModel, gain: Taken)
    requires TakenOk(taken) && SetOk(n, f)
    requires forall i :: i in gain ==> f <= i < f + SHREDS_PER_SIDE && n.data[i - f] == Some(gain[i])
    ensures TakenOk(taken + gain)
  {
    forall i | i in gain
      ensures i < MAX_SHREDS_PER_SLOT && gain[i].Wf() && gain[i].IsData() && gain[i].index == i
    {
      assert DataSlotOk(n.data[i - f], i - f);
    }
  }

  /** Consuming more and dropping what is wholly consumed keeps the agreement. */
  lemma PruneStorage(sets: map<nat, FecModel>, taken: Taken, consumed: set<nat>, more: set<nat>)
    requires Storage(sets, taken, consumed) && consumed <= more
    ensures Storage(Prune(sets, more), taken, more)
  {
    forall i | i in taken
      ensures Stored(Prune(sets, more), taken, more, i)
    {
      assert Stored(sets, taken, consumed, i);
    }
  }

  lemma AbsorbKeepsInv(m: SlotModel, shred: Shred, step: FecStep)
    requires SlotInv(m) && InRange(shred) && !Superfluous(m, shred)
    requires StepOk(SetAt(m, shred.fecSetIndex), step, shred, shred.fecSetIndex)
    ensures SlotInv(Absorb(m, shred, step)) && SubMap(m.taken, Absorb(m, shred, step).taken)
  {
    AfterMark(m, shred, step);
    var taken := m.taken + GainOf(step, shred);
    RunsGrow(m.taken, taken);
    PruneStorage(m.sets[shred.fecSetIndex := step.fec], taken, Consumed(m.taken), Consumed(taken));
  }

  /** Every step keeps the storage agreement; what was taken stays taken. */
  lemma SlotInsertKeepsInv(h: Hasher, rs: Option<ReedSolomon>, m: SlotModel, shred: Shred)
    requires SlotInv(m) && InRange(shred)
    ensures SlotInv(SlotInsert(h, rs, m, shred).0)
    ensures SubMap(m.taken, SlotInsert(h, rs, m, shred).0.taken)
  {
    if !Superfluous(m, shred) {
      NewSetOk(shred.fecSetIndex);
      var before := SetAt(m, shred.fecSetIndex);
      StepSetOk(h, rs, before, shred, shred.fecSetIndex);
      AbsorbKeepsInv(m, shred, StepSet(h, rs, before, shred));
    }
  }

  /** The fresh indexes of one packet fit a buffer of one set. */
  lemma FreshFits(m: FecModel, step: FecStep, shred: Shred, f: nat)
    requires StepOk(m, step, shred, f)
    ensures |FreshOf(step, shred)| <= SHREDS_PER_SIDE
  {
    hide FreshOf, SetOk, Extends;
    DistinctSize(FreshOf(step, shred), f, f + SHREDS_PER_SIDE);
  }

  /** A set whose indexes are all consumed is gone, and no later shred brings it back. */
  lemma FreedStaysFreed(h: Hasher, rs: Option<ReedSolomon>, m: SlotModel, shred: Shred, f: nat)
    requires SlotInv(m) && InRange(shred) && SetIn(Consumed(m.taken), f)
    ensures f !in m.sets
    ensures var n := SlotInsert(h, rs, m, shred).0; f !in n.sets && SetIn(Consumed(n.taken), f)
  {
    hide SlotInsert, SetOk, Stored, TakenOk;
    SlotInsertKeepsInv(h, rs, m, shred);
    RunsGrow(m.taken, SlotInsert(h, rs, m, shred).0.taken);
  }

  lemma AbsorbConserves(m: SlotModel, shred: Shred, step: FecStep)
    requires SlotInv(m) && InRange(shred) && !Superfluous(m, shred)
    requires StepOk(SetAt(m, shred.fecSetIndex), step, shred, shred.fecSetIndex)
    ensures |Absorb(m, shred, step).taken| == |m.taken| + |FreshOf(step, shred)|
  {
    AfterMark(m, shred, step);
    UnionSize(m.taken, GainOf(step, shred), FreshOf(step, shred));
  }

  lemma UnionSize(a: Taken, b: Taken, keys: seq<nat>)
    requires Distinct(keys) && (forall i :: i in b <==> i in keys) && (forall i :: i in b ==> i !in a)
    ensures |a + b| == |a| + |keys|
  {
    var ks := set i | i in keys;
    assert |ks| == |keys| by { DistinctCount(keys); }
    assert b.Keys == ks;
    assert |a.Keys + ks| == |a.Keys| + |ks|;
    assert (a + b).Keys == a.Keys + ks;
    assert |a + b| == |(a + b).Keys|;
  }

  /** How many data shreds an outcome reports as newly available. */
  function Gained(outcome: Outcome): nat {
    if outcome.Accepted? then (if outcome.isData then 1 else 0) + outcome.recovered else 0
  }

  lemma FreshIsReported(step: FecStep, shred: Shred)
    ensures |FreshOf(step, shred)| == Gained(OutcomeOf(step, shred))
  {
  }

  /** The taken shreds of a slot number the accepted data shreds plus those reported recovered. */
  lemma SlotInsertConserves(h: Hasher, rs: Option<ReedSolomon>, m: SlotModel, shred: Shred)
    requires SlotInv(m) && InRange(shred)
    ensures var (n, outcome) := SlotInsert(h, rs, m, shred); |n.taken| == |m.taken| + Gained(outcome)
  {
    hide StepSet, Absorb, OutcomeOf, FreshOf;
    if !Superfluous(m, shred) {
      NewSetOk(shred.fecSetIndex);
      var before := SetAt(m, shred.fecSetIndex);
      StepSetOk(h, rs, before, shred, shred.fecSetIndex);
      var step := StepSet(h, rs, before, shred);
      AbsorbConserves(m, shred, step);
      FreshIsReported(step, shred);
    }
  }
}
