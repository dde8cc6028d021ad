/**
 * What a recovery that fails half-way does to a slot, and what every run without one delivers, whatever the shreds and
 * whatever the erasure code.
 */
module Stranding {
  import opened Wire
  import opened Merkle
  import opened Shreds
  import opened Fec
  import opened Segments
  import opened SlotSpec
  import opened Fidelity
  import opened Delivery

  /** Position `p` of set `f` is stored, but its index was not taken: it can never be taken any more. */
  ghost predicate Stranded(m: SlotModel, f: nat, p: nat) {
    && f in m.sets && p < |m.sets[f].data| == SHREDS_PER_SIDE
    && m.sets[f].data[p].Some? && f + p !in m.taken
  }

  // ---- a recovery that stops half-way

  /** The first empty slot from `p` on. */
  function FirstEmpty(data: Slots, p: nat): (r: nat)
    requires p <= |data|
    ensures p <= r <= |data| && (r < |data| ==> data[r].None?)
    ensures forall i :: p <= i < r ==> data[i].Some?
    decreases |data| - p
  {
    if p == |data| || data[p].None? then p else FirstEmpty(data, p + 1)
  }

  /** What the loop of a recovery works on: the shred or error each data position would give. */
  ghost function Candidates(rs: ReedSolomon, m: FecModel): (r: Option<seq<Result<Shred, RecoverError>>>)
    requires Recoverable(m)
    ensures r.Some? ==> |r.value| == |m.data|
  {
    var template := TemplateOf(m);
    match rs(ShardsOf(m.data + m.code, |template.ErasureShard()|))
    case None => None
    case Some(rebuilt) => Some(RebuildAll(template, m.signature, rebuilt, m.data))
  }

  /** The first missing shred can be rebuilt, but not every one. */
  ghost predicate StopsHalfWay(rs: ReedSolomon, m: FecModel)
    requires Recoverable(m)
  {
    var rebuilt := Candidates(rs, m);
    var first := FirstEmpty(m.data, 0);
    && rebuilt.Some? && first < |m.data| && rebuilt.value[first].Ok?
    && exists p :: 0 <= p < |m.data| && m.data[p].None? && rebuilt.value[p].Err?
  }

  lemma {:induction false} FillFirst(rebuilt: seq<Result<Shred, RecoverError>>, data: Slots, p: nat)
    requires |rebuilt| == |data| && p <= |data| && forall i :: 0 <= i < p ==> data[i].Some?
    ensures var first := FirstEmpty(data, p);
            var filled := FillFrom(rebuilt, data, p).0;
            && (first == |data| || rebuilt[first].Err? ==> filled == data)
            && (first < |data| && rebuilt[first].Ok? ==> filled[first].Some?)
    decreases |data| - p
  {
    if p < |data| {
      if data[p].Some? {
        FillFirst(rebuilt, data, p + 1);
      } else if rebuilt[p].Ok? {
        FillFromKeeps(rebuilt, data[p := Some(rebuilt[p].value)], p + 1);
      }
    }
  }

  /** A recovery that fails has filled something exactly when it stopped half-way, and then the first empty slot. */
  lemma FailureFills(rs: ReedSolomon, m: FecModel)
    requires Recoverable(m)
    ensures var (n, r) := FecRecover(rs, m);
            var first := FirstEmpty(m.data, 0);
            && (StopsHalfWay(rs, m) <==> r.Err? && n.data != m.data)
            && (StopsHalfWay(rs, m) ==> first < |m.data| == |n.data| && n.data[first].Some?)
  {
    hide TemplateOf, RebuildAll, FillFrom, MissingIndexes, FirstEmpty, DataSlotOk, CodeSlotOk, Filled;
    var rebuilt := Candidates(rs, m);
    if rebuilt.Some? {
      FillFirst(rebuilt.value, m.data, 0);
      FillFromKeeps(rebuilt.value, m.data, 0);
    }
  }

  // ---- one packet

  /** The set of a shred after the shred has been stored in it, and what became of the shred. */
  ghost function Offered(h: Hasher, m: SlotModel, x: Shred): (r: (FecModel, Insert))
    requires SlotInv(m) && InRange(x)
    ensures FecInv(r.0)
  {
    SetAtOk(m, x.fecSetIndex);
    FecInsertKeepsInv(h, SetAt(m, x.fecSetIndex), x);
    FecInsert(h, SetAt(m, x.fecSetIndex), x)
  }

  /** The shred triggers a recovery, and that stops half-way. */
  ghost predicate Breaks(h: Hasher, rs: Option<ReedSolomon>, m: SlotModel, x: Shred)
    requires SlotInv(m) && InRange(x)
  {
    var (n, v) := Offered(h, m, x);
    !Superfluous(m, x) && v.New? && rs.Some? && CanRecover(n) && StopsHalfWay(rs.value, n)
  }

  /** Unless a recovery stops half-way, exactly the slots of the fresh indexes are filled. */
  lemma StepFills(h: Hasher, rs: Option<ReedSolomon>, m: FecModel, x: Shred, f: nat, p: nat)
    requires SetOk(m, f) && x.Wf() && x.fecSetIndex == f && p < SHREDS_PER_SIDE
    requires FecInv(FecInsert(h, m, x).0)
    requires var (n, v) := FecInsert(h, m, x); v.New? && rs.Some? && CanRecover(n) ==> !StopsHalfWay(rs.value, n)
    ensures var step := StepSet(h, rs, m, x);
            && |step.fec.data| == SHREDS_PER_SIDE
            && (f + p in FreshOf(step, x) <==> m.data[p].None? && step.fec.data[p].Some?)
  {
    hide FecRecover, FecInsert, FecInv, KeyedBy, StopsHalfWay, CanRecover;
    FecShape(m);
    var step := StepSet(h, rs, m, x);
    if step.recovery.Some? && step.recovery.value.Err? {
      var n := FecInsert(h, m, x).0;
      FailureFills(rs.value, n);
      InsertFills(h, m, x, f, p);
    } else {
      FreshIsFilled(h, rs, m, x, f, p);
    }
  }

  /** A recovery that stops half-way has filled a slot whose index is not fresh. */
  lemma StepStrands(h: Hasher, rs: ReedSolomon, m: FecModel, x: Shred, f: nat)
    requires SetOk(m, f) && x.Wf() && x.fecSetIndex == f && FecInv(FecInsert(h, m, x).0)
    requires var (n, v) := FecInsert(h, m, x); v.New? && CanRecover(n) && StopsHalfWay(rs, n)
    ensures var step := StepSet(h, Some(rs), m, x);
            var p := FirstEmpty(FecInsert(h, m, x).0.data, 0);
            && p < SHREDS_PER_SIDE == |step.fec.data|
            && m.data[p].None? && step.fec.data[p].Some? && f + p !in FreshOf(step, x)
            && step.recovery.Some? && step.recovery.value.Err?
  {
    hide FecRecover, FecInsert, FecInv, KeyedBy, StopsHalfWay, CanRecover, FirstEmpty;
    FecShape(m);
    var n := FecInsert(h, m, x).0;
    FecShape(n);
    FailureFills(rs, n);
    InsertFills(h, m, x, f, FirstEmpty(n.data, 0));
  }

  /** A stranded position stays stranded, whatever arrives. */
  lemma StrandedStays(h: Hasher, rs: Option<ReedSolomon>, m: SlotModel, x: Shred, f: nat, p: nat)
    requires SlotInv(m) && InRange(x) && Stranded(m, f, p)
    ensures Stranded(SlotInsert(h, rs, m, x).0, f, p)
  {
    hide StepSet, GainOf, FreshOf, Consumed, KeyedBy, FecInv, SetOf;
    if !Superfluous(m, x) {
      SetAtOk(m, x.fecSetIndex);
      var before := SetAt(m, x.fecSetIndex);
      StepSetOk(h, rs, before, x, x.fecSetIndex);
      var step := StepSet(h, rs, before, x);
      GainFacts(before, step, x);
      assert f + p !in GainOf(step, x) by { NotGained(m, step, x, f, p); }
      assert f + p !in Consumed(m.taken + GainOf(step, x));
    }
  }

  lemma NotGained(m: SlotModel, step: FecStep, x: Shred, f: nat, p: nat)
    requires SlotInv(m) && StepOk(SetAt(m, x.fecSetIndex), step, x, x.fecSetIndex) && Stranded(m, f, p)
    ensures f + p !in GainOf(step, x)
  {
    hide GainOf, FreshOf, KeyedBy, FecInv, SetOf, Consumed, Distinct, Extends;
    GainFacts(SetAt(m, x.fecSetIndex), step, x);
    if f + p in GainOf(step, x) {
      SetOfMember(f, f + p);
      SetOfMember(x.fecSetIndex, f + p);
    }
  }

  /** Only a recovery that stops half-way strands anything. */
  lemma StrandedByBreak(h: Hasher, rs: Option<ReedSolomon>, m: SlotModel, x: Shred, f: nat, p: nat)
    requires SlotInv(m) && InRange(x) && !Stranded(m, f, p) && Stranded(SlotInsert(h, rs, m, x).0, f, p)
    ensures Breaks(h, rs, m, x)
  {
    hide StepSet, GainOf, FreshOf, Consumed, KeyedBy, FecInv, SetOf, StopsHalfWay, Superfluous, FecInsert, CanRecover,
         Storage;
    if !Superfluous(m, x) && f == x.fecSetIndex && !Breaks(h, rs, m, x) {
      SetAtOk(m, f);
      var before := SetAt(m, f);
      StepSetOk(h, rs, before, x, f);
      var step := StepSet(h, rs, before, x);
      GainFacts(before, step, x);
      FecInsertKeepsInv(h, before, x);
      StepFills(h, rs, before, x, f, p);
    }
  }

  /** And it does strand the first empty slot, and counts as a failure. */
  lemma BreakStrands(h: Hasher, rs: Option<ReedSolomon>, m: SlotModel, x: Shred)
    requires SlotInv(m) && InRange(x) && Breaks(h, rs, m, x)
    ensures var (n, outcome) := SlotInsert(h, rs, m, x);
            && Stranded(n, x.fecSetIndex, FirstEmpty(Offered(h, m, x).0.data, 0))
            && outcome.Accepted? && outcome.failed
  {
    hide StepSet, Absorb, FreshOf, SlotInv, StepOk, SetOk, FecInv, StopsHalfWay, FecInsert, CanRecover, FirstEmpty,
         Stranded;
    var f := x.fecSetIndex;
    SetAtOk(m, f);
    var before := SetAt(m, f);
    FecInsertKeepsInv(h, before, x);
    StepSetOk(h, rs, before, x, f);
    StepStrands(h, rs.value, before, x, f);
    StepSetParts(h, rs, before, x);
    AbsorbStrands(m, x, StepSet(h, rs, before, x), FirstEmpty(FecInsert(h, before, x).0.data, 0));
  }

  /** A slot that a step fills without reporting its index is stranded. */
  lemma AbsorbStrands(m: SlotModel, x: Shred, step: FecStep, p: nat)
    requires SlotInv(m) && InRange(x) && !Superfluous(m, x)
    requires StepOk(SetAt(m, x.fecSetIndex), step, x, x.fecSetIndex)
    requires p < SHREDS_PER_SIDE == |SetAt(m, x.fecSetIndex).data| == |step.fec.data|
    requires SetAt(m, x.fecSetIndex).data[p].None? && step.fec.data[p].Some? && x.fecSetIndex + p !in FreshOf(step, x)
    ensures Stranded(Absorb(m, x, step), x.fecSetIndex, p)
  {
    hide GainOf, FreshOf, Consumed, KeyedBy, FecInv, Extends, Distinct, Storage;
    var f := x.fecSetIndex;
    GainFacts(SetAt(m, f), step, x);
    NotConsumedHere(m, x);
    EmptySlotNotTaken(m, f, f + p);
    assert f + p !in Consumed(m.taken + GainOf(step, x));
  }

  lemma NotConsumedHere(m: SlotModel, x: Shred)
    requires SlotInv(m) && InRange(x) && !Superfluous(m, x)
    ensures !SetIn(Consumed(m.taken), x.fecSetIndex)
  {
    if x.IsData() {
      assert x.index !in Consumed(m.taken);
    }
  }

  /** A data shred is refused as a duplicate exactly when its index was taken or is stranded. */
  lemma DuplicateIff(h: Hasher, rs: Option<ReedSolomon>, m: SlotModel, x: Shred)
    requires SlotInv(m) && InRange(x) && x.IsData()
    ensures SlotInsert(h, rs, m, x).1.Duplicated? <==> x.index in m.taken || Stranded(m, x.fecSetIndex, x.Position())
  {
    hide StepSet, Absorb, Consumed, KeyedBy, FecInv, Storage, RootFromProof;
    if x.index !in m.taken {
      SetAtOk(m, x.fecSetIndex);
      FecShape(SetAt(m, x.fecSetIndex));
      StepSetParts(h, rs, SetAt(m, x.fecSetIndex), x);
    }
  }

  // ---- whole runs

  ghost predicate AllInRange(xs: seq<Shred>) {
    forall x :: x in xs ==> InRange(x)
  }

  /** Shred `k` of the run triggers a recovery that stops half-way. */
  ghost predicate BreaksAt(h: Hasher, rs: Option<ReedSolomon>, xs: seq<Shred>, k: nat)
    requires AllInRange(xs) && k < |xs|
  {
    Breaks(h, rs, Feed(h, rs, xs[..k]), xs[k])
  }

  ghost predicate Unbroken(h: Hasher, rs: Option<ReedSolomon>, xs: seq<Shred>)
    requires AllInRange(xs)
  {
    forall k :: 0 <= k < |xs| ==> !BreaksAt(h, rs, xs, k)
  }

  ghost predicate NothingStranded(m: SlotModel) {
    forall f, p :: !Stranded(m, f, p)
  }

  lemma FeedStep(h: Hasher, rs: Option<ReedSolomon>, xs: seq<Shred>)
    requires AllInRange(xs) && xs != []
    ensures var last := |xs| - 1;
            && AllInRange(xs[..last]) && InRange(xs[last])
            && Feed(h, rs, xs) == SlotInsert(h, rs, Feed(h, rs, xs[..last]), xs[last]).0
  {
    hide SlotInsert, InRange;
    assert xs[|xs| - 1] in xs;
  }

  lemma BreaksInPrefix(h: Hasher, rs: Option<ReedSolomon>, xs: seq<Shred>, n: nat, k: nat)
    requires AllInRange(xs) && k < n <= |xs|
    ensures AllInRange(xs[..n]) && (BreaksAt(h, rs, xs[..n], k) <==> BreaksAt(h, rs, xs, k))
  {
    hide Breaks, InRange, Feed;
    assert xs[..n][..k] == xs[..k];
  }

  /** Stored implies received, in every run, exactly as long as no recovery has stopped half-way. */
  lemma {:induction false} NothingStrandedIff(h: Hasher, rs: Option<ReedSolomon>, xs: seq<Shred>)
    requires AllInRange(xs)
    ensures NothingStranded(Feed(h, rs, xs)) <==> Unbroken(h, rs, xs)
  {
    hide InRange, Breaks, Feed, SlotInsert, SlotInv, Stranded;
    if xs == [] {
      EmptyStrandsNothing(h, rs);
    } else {
      var last := |xs| - 1;
      var before, x := xs[..last], xs[last];
      FeedStep(h, rs, xs);
      NothingStrandedIff(h, rs, before);
      var m, n := Feed(h, rs, before), Feed(h, rs, xs);
      forall k | 0 <= k < last
        ensures BreaksAt(h, rs, before, k) <==> BreaksAt(h, rs, xs, k)
      {
        BreaksInPrefix(h, rs, xs, last, k);
      }
      forall f, p | Stranded(m, f, p)
        ensures Stranded(n, f, p)
      {
        StrandedStays(h, rs, m, x, f, p);
      }
      if BreaksAt(h, rs, xs, last) {
        BreakStrands(h, rs, m, x);
      } else {
        forall f, p | Stranded(n, f, p)
          ensures Stranded(m, f, p)
        {
          if !Stranded(m, f, p) {
            StrandedByBreak(h, rs, m, x, f, p);
          }
        }
      }
    }
  }

  lemma EmptyStrandsNothing(h: Hasher, rs: Option<ReedSolomon>)
    requires AllInRange([])
    ensures NothingStranded(Feed(h, rs, []))
  {
  }

  /** A run whose failure counter stayed at zero is unbroken. */
  lemma NoFailureIsUnbroken(h: Hasher, rs: Option<ReedSolomon>, xs: seq<Shred>)
    requires AllInRange(xs)
    requires forall k :: 0 <= k < |xs| ==> var outcome := OutcomeAt(h, rs, xs, k); outcome.Accepted? ==> !outcome.failed
    ensures Unbroken(h, rs, xs)
  {
    hide Breaks, InRange, Feed, SlotInsert, Stranded;
    forall k | 0 <= k < |xs|
      ensures !BreaksAt(h, rs, xs, k)
    {
      var outcome := OutcomeAt(h, rs, xs, k);
      assert outcome.Accepted? ==> !outcome.failed;
      if BreaksAt(h, rs, xs, k) {
        BreakStrands(h, rs, Feed(h, rs, xs[..k]), xs[k]);
      }
    }
  }

  ghost function OutcomeAt(h: Hasher, rs: Option<ReedSolomon>, xs: seq<Shred>, k: nat): Outcome
    requires AllInRange(xs) && k < |xs|
  {
    SlotInsert(h, rs, Feed(h, rs, xs[..k]), xs[k]).1
  }

  /** What is stranded is lost: no later run hands out a segment that covers it. */
  lemma {:induction false} StrandedForGood(h: Hasher, rs: Option<ReedSolomon>, xs: seq<Shred>, more: seq<Shred>, f: nat,
                                           p: nat)
    requires AllInRange(xs) && AllInRange(xs + more) && Stranded(Feed(h, rs, xs), f, p)
    ensures Stranded(Feed(h, rs, xs + more), f, p)
    ensures forall g :: g in Runs(Feed(h, rs, xs + more).taken) ==> !(g.start <= f + p <= g.end)
    decreases |more|
  {
    hide InRange, Feed, SlotInsert, SlotInv, Runs;
    if more == [] {
      assert xs + more == xs;
    } else {
      var all, last := xs + more, |more| - 1;
      assert all[..|all| - 1] == xs + more[..last];
      FeedStep(h, rs, all);
      StrandedForGood(h, rs, xs, more[..last], f, p);
      StrandedStays(h, rs, Feed(h, rs, xs + more[..last]), all[|all| - 1], f, p);
    }
    RunsAvailable(Feed(h, rs, xs + more).taken);
  }

  // ---- what every unbroken run delivers

  /** Root and signature of the first shred of set `f` whose proof leads to a root. */
  ghost function FirstRoot(h: Hasher, xs: seq<Shred>, f: nat): Option<(Hash32, Bytes)> {
    if xs == [] then None
    else
      var last := |xs| - 1;
      var before := FirstRoot(h, xs[..last], f);
      if before.Some? || !Rooted(h, xs[last]) || xs[last].fecSetIndex != f then before
      else Some((xs[last].MerkleRoot(h).value, xs[last].Signature()))
  }

  /** Shred `k` goes with the first root of its set. This looks at the shreds alone, not at any state. */
  ghost predicate Matching(h: Hasher, xs: seq<Shred>, k: nat)
    requires k < |xs|
  {
    Rooted(h, xs[k]) && Goes(FirstRoot(h, xs[..k], xs[k].fecSetIndex), xs[k].MerkleRoot(h), xs[k].Signature())
  }

  predicate Goes(known: Option<(Hash32, Bytes)>, root: Option<Hash32>, signature: Bytes) {
    root.Some? && (known.None? || known.value == (root.value, signature))
  }

  function Known(m: FecModel): Option<(Hash32, Bytes)> {
    if m.root.None? then None else Some((m.root.value, m.signature))
  }

  lemma {:induction false} FirstRootFrom(h: Hasher, xs: seq<Shred>, f: nat)
    requires FirstRoot(h, xs, f).Some?
    ensures exists j :: 0 <= j < |xs| && Rooted(h, xs[j]) && xs[j].fecSetIndex == f
  {
    hide Rooted;
    var last := |xs| - 1;
    if FirstRoot(h, xs[..last], f).Some? {
      FirstRootFrom(h, xs[..last], f);
    }
  }

  /** How a set learns its root. */
  lemma StepKnows(h: Hasher, rs: Option<ReedSolomon>, m: FecModel, x: Shred)
    requires FecInv(m) && x.Wf()
    ensures Known(StepSet(h, rs, m, x).fec) ==
            if m.root.Some? || !Rooted(h, x) then Known(m) else Some((x.MerkleRoot(h).value, x.Signature()))
  {
    hide FecRecover, RootFromProof, FecInsert, CanRecover;
    FecInsertKeepsInv(h, m, x);
    InsertKnows(h, m, x);
    var n := FecInsert(h, m, x).0;
    if rs.Some? && CanRecover(n) {
      FecRecoverKeeps(rs.value, n);
    }
  }

  lemma InsertKnows(h: Hasher, m: FecModel, x: Shred)
    requires FecInv(m) && x.Wf()
    ensures Known(FecInsert(h, m, x).0) ==
            if m.root.Some? || !Rooted(h, x) then Known(m) else Some((x.MerkleRoot(h).value, x.Signature()))
  {
    hide RootFromProof, FecInv;
    FecShape(m);
    if m.root.None? {
      EmptyAccepts(h, m, x);
    }
  }

  /** A set without a root is empty and takes any shred that has one. */
  lemma EmptyAccepts(h: Hasher, m: FecModel, x: Shred)
    requires FecInv(m) && x.Wf() && m.root.None?
    ensures Verdict(h, m, x).New? <==> Rooted(h, x)
  {
    hide RootFromProof, DataSlotOk, CodeSlotOk;
    NothingFilled(m.data, 0);
    if x.IsData() {
      NothingFilled(m.data, x.Position());
    } else {
      NothingFilled(m.code, x.Position() - SHREDS_PER_SIDE);
    }
  }

  /** In every run, a set that is still there knows exactly the first root of its shreds. */
  lemma {:induction false} FeedKnows(h: Hasher, rs: Option<ReedSolomon>, xs: seq<Shred>, f: nat)
    requires AllInRange(xs) && f in Feed(h, rs, xs).sets
    ensures Known(Feed(h, rs, xs).sets[f]) == FirstRoot(h, xs, f)
  {
    hide InRange, SlotInv, Rooted, Feed, Known, Superfluous, StepSet, Consumed;
    if xs == [] {
      EmptyStrandsNothing(h, rs);
      NoSetsYet(h, rs, f);
    } else {
      var last := |xs| - 1;
      var before, x := xs[..last], xs[last];
      FeedStep(h, rs, xs);
      var m := Feed(h, rs, before);
      if f in m.sets {
        FeedKnows(h, rs, before, f);
      }
      NextKnows(h, rs, m, x, f);
      if f !in m.sets && FirstRoot(h, before, f).Some? {
        FirstRootFrom(h, before, f);
        var j :| 0 <= j < |before| && Rooted(h, before[j]) && before[j].fecSetIndex == f;
        FeedSettles(h, rs, before, j);
        FreshlyCreated(h, rs, m, x, f);
      }
    }
  }

  lemma NoSetsYet(h: Hasher, rs: Option<ReedSolomon>, f: nat)
    requires AllInRange([])
    ensures f !in Feed(h, rs, []).sets
  {
  }

  lemma FreshlyCreated(h: Hasher, rs: Option<ReedSolomon>, m: SlotModel, x: Shred, f: nat)
    requires SlotInv(m) && InRange(x) && f !in m.sets && f in SlotInsert(h, rs, m, x).0.sets
    ensures x.fecSetIndex == f && !Superfluous(m, x) && !SetIn(Consumed(m.taken), f)
  {
    hide StepSet, Consumed;
    if !Superfluous(m, x) {
      NotConsumedHere(m, x);
    }
  }

  /** What set `f` knows after one more shred. */
  lemma NextKnows(h: Hasher, rs: Option<ReedSolomon>, m: SlotModel, x: Shred, f: nat)
    requires SlotInv(m) && InRange(x) && f in SlotInsert(h, rs, m, x).0.sets
    ensures var before := if f in m.sets then Known(m.sets[f]) else None;
            Known(SlotInsert(h, rs, m, x).0.sets[f]) ==
            if before.Some? || !Rooted(h, x) || x.fecSetIndex != f then before
            else Some((x.MerkleRoot(h).value, x.Signature()))
  {
    hide StepSet, Consumed, Rooted, FecInv, KeyedBy, RootFromProof;
    if Superfluous(m, x) {
      if x.fecSetIndex == f {
        SuperfluousSettled(m, x);
      }
    } else {
      SetAtOk(m, x.fecSetIndex);
      StepKnows(h, rs, SetAt(m, x.fecSetIndex), x);
    }
  }

  /** A data shred that goes with its set is stored, unless its slot is taken. */
  lemma GoesIsStored(h: Hasher, m: FecModel, x: Shred)
    requires FecInv(m) && x.Wf() && x.IsData()
    ensures Verdict(h, m, x).New? <==> SlotOf(m, x).None? && Goes(Known(m), x.MerkleRoot(h), x.Signature())
  {
    hide RootFromProof, DataSlotOk, CodeSlotOk, Filled, Full;
    FecShape(m);
  }

  /** One matching data shred, in a slot where nothing is stranded: its index is available afterwards. */
  lemma MatchingTaken(h: Hasher, rs: Option<ReedSolomon>, m: SlotModel, x: Shred)
    requires SlotInv(m) && InRange(x) && x.IsData() && !Stranded(m, x.fecSetIndex, x.Position())
    requires Goes(Known(SetAt(m, x.fecSetIndex)), x.MerkleRoot(h), x.Signature())
    ensures x.index in SlotInsert(h, rs, m, x).0.taken
  {
    hide StepSet, Consumed, FecInv, KeyedBy, RootFromProof, GainOf, Goes, Known;
    if x.index !in m.taken {
      SetAtOk(m, x.fecSetIndex);
      var before := SetAt(m, x.fecSetIndex);
      FecShape(before);
      GoesIsStored(h, before, x);
      StepSetOk(h, rs, before, x, x.fecSetIndex);
      StepSetParts(h, rs, before, x);
      var step := StepSet(h, rs, before, x);
      GainFacts(before, step, x);
      assert x.index in FreshOf(step, x);
    }
  }

  lemma {:induction false} FeedGrows(h: Hasher, rs: Option<ReedSolomon>, xs: seq<Shred>, n: nat)
    requires AllInRange(xs) && n <= |xs|
    ensures AllInRange(xs[..n]) && Feed(h, rs, xs[..n]).taken.Keys <= Feed(h, rs, xs).taken.Keys
    decreases |xs|
  {
    hide InRange, SlotInv, Feed, SlotInsert;
    if n == |xs| {
      assert xs[..n] == xs;
    } else {
      var last := |xs| - 1;
      FeedStep(h, rs, xs);
      FeedGrows(h, rs, xs[..last], n);
      assert xs[..last][..n] == xs[..n];
      SlotInsertKeepsInv(h, rs, Feed(h, rs, xs[..last]), xs[last]);
    }
  }

  lemma UnbrokenPrefix(h: Hasher, rs: Option<ReedSolomon>, xs: seq<Shred>, n: nat)
    requires AllInRange(xs) && n <= |xs| && Unbroken(h, rs, xs)
    ensures AllInRange(xs[..n]) && Unbroken(h, rs, xs[..n])
  {
    hide InRange, BreaksAt;
    forall k | 0 <= k < n
      ensures !BreaksAt(h, rs, xs[..n], k)
    {
      BreaksInPrefix(h, rs, xs, n, k);
    }
  }

  /**
   * A lower bound for every run, whatever the shreds and the erasure code: unless a recovery stopped half-way, every
   * data shred that goes with the first root of its set is available.
   */
  lemma MatchingIsAvailable(h: Hasher, rs: Option<ReedSolomon>, xs: seq<Shred>, k: nat)
    requires AllInRange(xs) && Unbroken(h, rs, xs) && k < |xs| && xs[k].IsData() && Matching(h, xs, k)
    ensures xs[k].index in Feed(h, rs, xs).taken
  {
    hide InRange, SlotInv, Feed, SlotInsert, Unbroken, Rooted, Goes, Known, FirstRoot, Stranded;
    var before, x := xs[..k], xs[k];
    assert x in xs;
    UnbrokenPrefix(h, rs, xs, k);
    NothingStrandedIff(h, rs, before);
    var m := Feed(h, rs, before);
    UpTo(h, rs, xs, k);
    WfInRange(x);
    if x.index !in m.taken {
      KnowsFirst(h, rs, before, x);
      MatchingTaken(h, rs, m, x);
    }
    FeedGrows(h, rs, xs, k);
    FeedGrows(h, rs, xs, k + 1);
  }

  lemma UpTo(h: Hasher, rs: Option<ReedSolomon>, xs: seq<Shred>, k: nat)
    requires AllInRange(xs) && k < |xs|
    ensures AllInRange(xs[..k]) && AllInRange(xs[..k + 1]) && InRange(xs[k])
    ensures Feed(h, rs, xs[..k + 1]) == SlotInsert(h, rs, Feed(h, rs, xs[..k]), xs[k]).0
  {
    hide InRange, SlotInsert, Feed;
    var ys := xs[..k + 1];
    FeedStep(h, rs, ys);
    assert ys[..k] == xs[..k];
  }

  /** The set a useful shred meets, even if it is only created now, knows the first root of the shreds so far. */
  lemma KnowsFirst(h: Hasher, rs: Option<ReedSolomon>, before: seq<Shred>, x: Shred)
    requires AllInRange(before) && InRange(x) && !Superfluous(Feed(h, rs, before), x)
    ensures Known(SetAt(Feed(h, rs, before), x.fecSetIndex)) == FirstRoot(h, before, x.fecSetIndex)
  {
    hide InRange, SlotInv, Feed, Rooted, Consumed, Superfluous;
    var m, f := Feed(h, rs, before), x.fecSetIndex;
    if f in m.sets {
      FeedKnows(h, rs, before, f);
    } else if FirstRoot(h, before, f).Some? {
      FirstRootFrom(h, before, f);
      var j :| 0 <= j < |before| && Rooted(h, before[j]) && before[j].fecSetIndex == f;
      FeedSettles(h, rs, before, j);
      NotConsumedHere(m, x);
    }
  }

  // ---- waiting

  lemma WaitingIsUnbroken(h: Hasher, xs: seq<Shred>)
    requires AllInRange(xs)
    ensures Unbroken(h, None, xs)
  {
    hide InRange, Feed, Superfluous, StopsHalfWay;
  }

  /** Without recovery, exactly the indexes of the matching data shreds are available, in every run. */
  lemma {:induction false} WaitingIsMatching(h: Hasher, xs: seq<Shred>, i: nat)
    requires AllInRange(xs)
    ensures i in Feed(h, None, xs).taken <==> exists k ::
            0 <= k < |xs| && xs[k].IsData() && xs[k].index == i && Matching(h, xs, k)
  {
    hide InRange, SlotInv, Feed, SlotInsert, Matching, Unbroken;
    WaitingIsUnbroken(h, xs);
    forall k | 0 <= k < |xs| && xs[k].IsData() && xs[k].index == i && Matching(h, xs, k)
      ensures i in Feed(h, None, xs).taken
    {
      MatchingIsAvailable(h, None, xs, k);
    }
    if xs != [] && i in Feed(h, None, xs).taken {
      var last := |xs| - 1;
      FeedStep(h, None, xs);
      if i in Feed(h, None, xs[..last]).taken {
        WaitingIsMatching(h, xs[..last], i);
        var k :| 0 <= k < last && xs[..last][k].IsData() && xs[..last][k].index == i && Matching(h, xs[..last], k);
        MatchingInPrefix(h, xs, last, k);
      } else {
        WaitingGains(h, xs[..last], xs[last], i);
        assert Matching(h, xs, last) by { MatchingHere(h, xs, last); }
      }
    } else if xs == [] {
      NothingTaken(h, i);
    }
  }

  lemma NothingTaken(h: Hasher, i: nat)
    requires AllInRange([])
    ensures i !in Feed(h, None, []).taken
  {
  }

  lemma MatchingInPrefix(h: Hasher, xs: seq<Shred>, n: nat, k: nat)
    requires k < n <= |xs|
    ensures Matching(h, xs[..n], k) <==> Matching(h, xs, k)
  {
    hide Rooted, FirstRoot, Goes;
    assert xs[..n][..k] == xs[..k];
  }

  lemma MatchingHere(h: Hasher, xs: seq<Shred>, k: nat)
    requires k < |xs| && xs[k].Wf()
    requires Goes(FirstRoot(h, xs[..k], xs[k].fecSetIndex), xs[k].MerkleRoot(h), xs[k].Signature())
    ensures Matching(h, xs, k)
  {
    hide FirstRoot, RootFromProof;
  }

  /** Without recovery, an index becomes available only by its own shred, which goes with its set. */
  lemma WaitingGains(h: Hasher, before: seq<Shred>, x: Shred, i: nat)
    requires AllInRange(before) && InRange(x) && i !in Feed(h, None, before).taken
    requires i in SlotInsert(h, None, Feed(h, None, before), x).0.taken
    ensures x.Wf() && x.IsData() && x.index == i
    ensures Goes(FirstRoot(h, before, x.fecSetIndex), x.MerkleRoot(h), x.Signature())
  {
    hide Feed, SlotInv, StepSet, GainOf, Known, FirstRoot, Consumed, FecInv, KeyedBy, RootFromProof, Goes;
    var m := Feed(h, None, before);
    KnowsFirst(h, None, before, x);
    SetAtOk(m, x.fecSetIndex);
    var s := SetAt(m, x.fecSetIndex);
    StepSetOk(h, None, s, x, x.fecSetIndex);
    StepSetParts(h, None, s, x);
    var step := StepSet(h, None, s, x);
    GainFacts(s, step, x);
    if x.IsData() {
      GoesIsStored(h, s, x);
    }
  }

  /**
   * Whatever the shreds and the erasure code: unless a recovery stopped half-way, recovering eagerly makes every index
   * available that waiting does.
   */
  lemma EagerKeepsIndexes(h: Hasher, rs: ReedSolomon, xs: seq<Shred>)
    requires AllInRange(xs) && Unbroken(h, Some(rs), xs)
    ensures Feed(h, None, xs).taken.Keys <= Feed(h, Some(rs), xs).taken.Keys
  {
    hide InRange, Feed, Matching, Unbroken;
    forall i | i in Feed(h, None, xs).taken
      ensures i in Feed(h, Some(rs), xs).taken
    {
      WaitingIsMatching(h, xs, i);
      var k :| 0 <= k < |xs| && xs[k].IsData() && xs[k].index == i && Matching(h, xs, k);
      MatchingIsAvailable(h, Some(rs), xs, k);
    }
  }
}
