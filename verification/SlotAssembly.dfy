/** The slot the program keeps: a map of FEC sets and three bit sets, updated in place packet by packet. */
module SlotAssembly {
  import opened Wire
  import opened Merkle
  import opened Shreds
  import opened Fec
  import opened Segments
  import opened SlotSpec
  import opened Counters

  /** What an outcome adds to the counters. */
  function Tally(c: Snapshot, outcome: Outcome): Snapshot {
    match outcome
    case Duplicated => c.(duplicates := c.duplicates + 1)
    case NotNeeded => c.(unneeded := c.unneeded + 1)
    case Refused(_) => c.(rejected := c.rejected + 1)
    case Accepted(_, n, failed) =>
      c.(recovered := c.recovered + n, recoveryFailures := c.recoveryFailures + if failed then 1 else 0)
  }

  ghost function Elements<T>(s: seq<T>): set<T> {
    set x | x in s
  }

  /** The bit sets say what was taken, where runs end, and what the emitted segments cover. */
  ghost predicate Bits(taken: Taken, received: set<nat>, complete: set<nat>, consumed: set<nat>,
                       emitted: set<Segment>) {
    && received == taken.Keys
    && (forall i: nat :: i in complete <==> Ends(taken, i))
    && emitted <= Runs(taken)
    && (forall i: nat :: i in consumed <==> Covered(emitted, i))
  }

  /** Emitting a run that is not consumed yet keeps the bits right. */
  lemma EmitBits(taken: Taken, received: set<nat>, complete: set<nat>, consumed: set<nat>, emitted: set<Segment>,
                 g: Segment)
    requires Bits(taken, received, complete, consumed, emitted) && g in Runs(taken) && g.start !in consumed
    ensures g !in emitted
    ensures Bits(taken, received, complete, consumed + Range(g.start, g.end + 1), emitted + {g})
  {
    CoverGrows(emitted, g, consumed);
    NotCovered(emitted, g);
  }

  ghost predicate EndsAt(data: Slots, f: nat, i: nat) {
    f <= i < f + |data| && data[i - f].Some? && data[i - f].value.DataComplete()
  }

  lemma CountIsAll(consumed: set<nat>, f: nat)
    ensures |consumed * Range(f, f + SHREDS_PER_SIDE)| == SHREDS_PER_SIDE <==> SetIn(consumed, f)
  {
    var r := Range(f, f + SHREDS_PER_SIDE);
    SubsetSize(consumed * r, r);
    if SetIn(consumed, f) {
      assert consumed * r == r;
    } else {
      var i :| f <= i < f + SHREDS_PER_SIDE && i !in consumed;
      assert i in r && i !in consumed * r;
    }
  }

  /** A run that reaches over `lo..hi`, all of it open, also has `hi`. */
  lemma RunReachesUp(taken: Taken, s: nat, e: nat, lo: nat, hi: nat)
    requires IsRun(taken, s, e) && s <= lo <= e && lo <= hi
    requires forall i :: lo <= i < hi ==> Open(taken, i)
    ensures hi <= e && hi in taken
  {
    assert e < hi ==> Open(taken, e);
    RunsAvailable(taken);
  }

  lemma RunReachesDown(taken: Taken, s: nat, e: nat, lo: nat, hi: nat)
    requires IsRun(taken, s, e) && s <= hi <= e && 0 < lo <= hi
    requires forall i :: lo - 1 <= i < hi ==> !Ends(taken, i)
    ensures s < lo && lo - 1 in taken
  {
    RunsAvailable(taken);
  }

  class SlotState {
    var sets: map<nat, FecSet>
    var received: set<nat>
    var complete: set<nat>
    var consumed: set<nat>
    /** The shred behind every received index; freed sets are not forgotten here. */
    ghost var taken: Taken
    /** The segments handed out so far. */
    ghost var emitted: set<Segment>

    ghost function Models(): map<nat, FecModel>
      reads `sets, sets.Values
    {
      map f | f in sets :: sets[f].Model()
    }

    ghost function Model(): SlotModel
      reads this, sets.Values
    {
      SlotModel(Models(), taken)
    }

    lemma ModelTaken()
      ensures Model().taken == taken
    {
    }

    /** Every set object is valid and belongs to one index only. */
    ghost predicate SetsValid()
      reads `sets, sets.Values
    {
      && (forall f :: f in sets ==> sets[f].Valid())
      && (forall f, f' :: f in sets && f' in sets && f != f' ==> sets[f] != sets[f'])
    }

    ghost predicate BitsAgree()
      reads this
    {
      Bits(taken, received, complete, consumed, emitted)
    }

    /** Holds whenever no set is being updated, also while segments are still being cut. */
    ghost predicate Consistent()
      reads this, sets.Values
    {
      SetsValid() && BitsAgree() && Storage(Models(), taken, consumed)
    }

    /** Between packets, in addition, exactly the runs of what was taken have been emitted. */
    ghost predicate Valid()
      reads this, sets.Values
    {
      Consistent() && emitted == Runs(taken)
    }

    lemma ValidModel()
      requires Valid()
      ensures consumed == Consumed(taken) && SlotInv(Model())
    {
      forall i: nat
        ensures i in consumed <==> i in Consumed(taken)
      {
        CoveredIffInRun(taken, i);
      }
    }

    /** Complete and consumed indexes are received ones, and what is received but not consumed is stored in place. */
    lemma StorageAgrees(i: nat)
      requires Consistent()
      ensures complete <= received && consumed <= received
      ensures i in received && i !in consumed ==>
                SetOf(i) in sets && |sets[SetOf(i)].data| == SHREDS_PER_SIDE &&
                sets[SetOf(i)].data[i - SetOf(i)] == Some(taken[i])
    {
      hide KeyedBy, DataSlotOk, CodeSlotOk;
      RunsAvailable(taken);
      if i in received && i !in consumed {
        assert Stored(Models(), taken, consumed, i);
        assert SetOf(i) in Models();
      }
    }

    constructor ()
      ensures Valid() && Model() == NEW_SLOT && sets == map[]
    {
      sets, received, complete, consumed := map[], {}, {}, {};
      taken, emitted := map[], {};
      new;
      RunsAvailable(taken);
      assert Runs(taken) == {};
    }

    predicate SetIsConsumed(f: nat)
      requires f + SHREDS_PER_SIDE <= MAX_SHREDS_PER_SLOT
      reads this
      ensures SetIsConsumed(f) <==> SetIn(consumed, f)
    {
      CountIsAll(consumed, f);
      |consumed * Range(f, f + SHREDS_PER_SIDE)| == SHREDS_PER_SIDE
    }

    /** The run of `index`, found by walking up to its end and down to its start; `None` if there is a gap. */
    method FindSegment(index: nat) returns (r: Option<(nat, nat)>)
      requires BitsAgree() && TakenOk(taken) && index < MAX_SHREDS_PER_SLOT
      ensures r.Some? ==> IsRun(taken, r.value.0, r.value.1) && r.value.0 <= index <= r.value.1
      ensures r.None? ==> !InRun(taken, index)
    {
      var end := index;
      while end in received && end !in complete
        invariant index <= end < MAX_SHREDS_PER_SLOT
        invariant forall i :: index <= i < end ==> Open(taken, i)
        decreases MAX_SHREDS_PER_SLOT - end
      {
        end := end + 1;
        if end >= MAX_SHREDS_PER_SLOT {
          NoRunUp(index, end);
          return None;
        }
      }
      if end !in received {
        NoRunUp(index, end);
        return None;
      }
      var start := index;
      while start > 0 && start - 1 !in complete
        invariant 0 <= start <= index
        invariant forall i :: start <= i < index ==> !Ends(taken, i)
        invariant forall i :: start <= i < end ==> Open(taken, i)
      {
        if start - 1 !in received {
          NoRunDown(start, index);
          return None;
        }
        start := start - 1;
      }
      r := Some((start, end));
    }

    lemma NoRunUp(index: nat, end: nat)
      requires index <= end && end !in taken && forall i :: index <= i < end ==> Open(taken, i)
      ensures !InRun(taken, index)
    {
      forall s: nat, e: nat | s <= index <= e && IsRun(taken, s, e)
        ensures false
      {
        RunReachesUp(taken, s, e, index, end);
      }
    }

    lemma NoRunDown(start: nat, index: nat)
      requires 0 < start <= index && start - 1 !in taken && forall i :: start <= i < index ==> !Ends(taken, i)
      ensures !InRun(taken, index)
    {
      forall s: nat, e: nat | s <= index <= e && IsRun(taken, s, e)
        ensures false
      {
        RunReachesDown(taken, s, e, start, index);
      }
    }

    /** The stored shred of a received index; never missing while the index is not consumed. */
    method DataAt(index: nat) returns (shred: Shred)
      requires Consistent() && index in received && index !in consumed
      ensures index in taken && shred == taken[index] && shred.Wf()
    {
      hide KeyedBy, DataSlotOk, CodeSlotOk, Stored;
      StorageAgrees(index);
      var f := SetOf(index);
      shred := sets[f].data[index - f].value;
    }

    /** The payloads of a run, in order. */
    method Concatenate(start: nat, end: nat) returns (bytes: Bytes)
      requires Consistent() && start <= end
      requires forall i :: start <= i <= end ==> i in taken && i in received && i !in consumed
      ensures bytes == Payloads(taken, start, end + 1)
    {
      hide Consistent;
      bytes := [];
      var i := start;
      while i <= end
        invariant start <= i <= end + 1
        invariant bytes == Payloads(taken, start, i)
      {
        var shred := DataAt(i);
        bytes := bytes + shred.Payload();
        i := i + 1;
      }
    }

    /** Drops the wholly consumed sets; only sets that overlap the run can be among them. */
    method FreeSets(start: nat, end: nat, ghost before: set<nat>)
      requires start <= end < MAX_SHREDS_PER_SLOT && consumed == before + Range(start, end + 1)
      requires forall f :: f in sets ==> f % SHREDS_PER_SIDE == 0 && !SetIn(before, f)
      modifies `sets
      ensures sets == Prune(old(sets), consumed)
    {
      hide Freed, Prune, SetIn, SetOf, Range;
      var first := SetOf(start);
      var f := first;
      FreedNone(sets, consumed, first);
      while f <= end
        invariant f % SHREDS_PER_SIDE == 0 && first <= f
        invariant sets == Freed(old(sets), consumed, first, f)
        decreases end + SHREDS_PER_SIDE - f
      {
        FreedStep(old(sets), consumed, first, f);
        if SetIsConsumed(f) {
          sets := sets - {f};
        }
        f := f + SHREDS_PER_SIDE;
      }
      FreedAll(old(sets), before, consumed, start, end, f);
    }

    /** Emits the run of `index` if it is complete and new. */
    method TryComplete(index: nat, out: seq<Segment>) returns (out': seq<Segment>, ghost added: seq<Segment>)
      requires Consistent()
      modifies `sets, `consumed, `emitted
      ensures Consistent()
      ensures sets == Prune(old(sets), consumed) && old(consumed) <= consumed
      ensures out' == out + added && |added| <= 1
      ensures forall g :: g in added ==> g in Runs(taken) && g.start <= index <= g.end
      ensures emitted == old(emitted) + Elements(added) && Elements(added) !! old(emitted)
      ensures forall g :: g in Runs(taken) && g.start <= index <= g.end ==> g in emitted
    {
      hide Runs, SetsValid, Prune;
      out', added := out, [];
      NothingToPrune();
      if index >= MAX_SHREDS_PER_SLOT || index in consumed {
        NotEmittable(index);
        return;
      }
      var found := FindSegment(index);
      if found.None? {
        return;
      }
      var (start, end) := found.value;
      Unconsumed(start, end, index);
      var segment := Emit(start, end, index);
      out', added := out + [segment], [segment];
    }

    method Cut(start: nat, end: nat) returns (segment: Segment)
      requires Consistent() && IsRun(taken, start, end)
      requires forall i :: start <= i <= end ==> i !in consumed
      ensures segment == SegmentOf(taken, start, end) && segment.start == start && segment.end == end
    {
      RunsAvailable(taken);
      var bytes := Concatenate(start, end);
      var last := DataAt(end);
      segment := Segment(start, end, bytes, last.LastInSlot());
    }

    /** Marks a run consumed and frees what it uses up. */
    method Retire(start: nat, end: nat)
      requires SetsValid() && Storage(Models(), taken, consumed) && start <= end < MAX_SHREDS_PER_SLOT
      modifies `sets, `consumed
      ensures consumed == old(consumed) + Range(start, end + 1) && sets == Prune(old(sets), consumed)
      ensures SetsValid() && Storage(Models(), taken, consumed)
    {
      hide Storage, Prune, SetIn, FecSet.Valid, FecSet.Model;
      ghost var before, models, held := consumed, Models(), sets;
      StoredSets();
      consumed := consumed + Range(start, end + 1);
      FreeSets(start, end, before);
      PruneStorage(models, taken, before, consumed);
      PrunedSets(held, models);
    }

    lemma StoredSets()
      requires Storage(Models(), taken, consumed)
      ensures forall f :: f in sets ==> f % SHREDS_PER_SIDE == 0 && !SetIn(consumed, f)
    {
      forall f | f in sets
        ensures f % SHREDS_PER_SIDE == 0 && !SetIn(consumed, f)
      {
        assert f in Models();
        AlignedSet(Models()[f], f);
      }
    }

    lemma PrunedSets(held: map<nat, FecSet>, models: map<nat, FecModel>)
      requires sets == Prune(held, consumed) && models.Keys == held.Keys
      requires forall f :: f in held ==> held[f].Model() == models[f] && held[f].Valid()
      requires forall f, f' :: f in held && f' in held && f != f' ==> held[f] != held[f']
      ensures SetsValid() && Models() == Prune(models, consumed)
    {
      hide FecSet.Valid, FecSet.Model;
    }

    /** Cuts the segment of a complete run and retires the run. */
    method Emit(start: nat, end: nat, ghost index: nat) returns (segment: Segment)
      requires Consistent() && IsRun(taken, start, end) && start <= index <= end
      requires forall i :: start <= i <= end ==> i !in consumed
      modifies `sets, `consumed, `emitted
      ensures Consistent()
      ensures sets == Prune(old(sets), consumed) && old(consumed) <= consumed
      ensures segment !in old(emitted) && emitted == old(emitted) + {segment}
      ensures segment in Runs(taken) && segment.start == start && segment.end == end
      ensures forall g :: g in Runs(taken) && g.start <= index <= g.end ==> g in emitted
    {
      hide SetsValid, Prune, SegmentOf, Bits, Storage, Runs, IsRun;
      InSlot(start, end);
      segment := Cut(start, end);
      EmitBits(taken, received, complete, consumed, emitted, segment);
      emitted := emitted + {segment};
      Retire(start, end);
      OnlyRunHere(segment, index);
    }

    lemma InSlot(start: nat, end: nat)
      requires Consistent() && IsRun(taken, start, end)
      ensures start <= end < MAX_SHREDS_PER_SLOT
    {
    }

    lemma NothingToPrune()
      requires Consistent()
      ensures sets == Prune(sets, consumed)
    {
    }

    /** An index that is out of range, or already consumed, has no run left to emit. */
    lemma NotEmittable(index: nat)
      requires BitsAgree() && TakenOk(taken) && (index >= MAX_SHREDS_PER_SLOT || index in consumed)
      ensures forall g :: g in Runs(taken) && g.start <= index <= g.end ==> g in emitted
    {
      RunsAvailable(taken);
      if index in consumed {
        var c :| c in emitted && c.start <= index <= c.end;
        OnlyRunHere(c, index);
      }
    }

    lemma OnlyRunHere(c: Segment, index: nat)
      requires c in Runs(taken) && c.start <= index <= c.end
      ensures forall g :: g in Runs(taken) && g.start <= index <= g.end ==> g == c
    {
      forall g | g in Runs(taken) && g.start <= index <= g.end
        ensures g == c
      {
        RunUnique(taken, g.start, g.end, c.start, c.end, index);
      }
    }

    /** A run is consumed as a whole or not at all. */
    lemma Unconsumed(start: nat, end: nat, index: nat)
      requires BitsAgree() && IsRun(taken, start, end) && start <= index <= end && index !in consumed
      ensures forall i :: start <= i <= end ==> i !in consumed
    {
      forall i | start <= i <= end
        ensures i !in consumed
      {
        if i in consumed {
          var c :| c in emitted && c.start <= i <= c.end;
          RunUnique(taken, start, end, c.start, c.end, i);
        }
      }
    }

    /** The run of `index` and, if `index` ends a run, the run right after it. */
    method TryAround(index: nat, out: seq<Segment>) returns (out': seq<Segment>, ghost added: seq<Segment>)
      requires Consistent()
      modifies `sets, `consumed, `emitted
      ensures Consistent()
      ensures sets == Prune(old(sets), consumed) && old(consumed) <= consumed
      ensures out' == out + added && Distinct(added)
      ensures AllTouch(taken, index, added) && StartsAscend(added)
      ensures emitted == old(emitted) + Elements(added) && Elements(added) !! old(emitted)
      ensures forall g :: g in Runs(taken) && Touches(taken, index, g) ==> g in emitted
    {
      hide Prune, Storage, SetsValid, Runs, Distinct;
      out', added := TryComplete(index, out);
      AloneIsDistinct(added);
      if index in complete {
        ghost var held, more;
        held := consumed;
        out', more := TryComplete(index + 1, out');
        PruneTwice(old(sets), held, consumed);
        AppendDistinct(added, more);
        FollowsRun(taken, index, added, more);
        added := added + more;
      }
    }

    /** Emits every run that the fresh indexes have completed. */
    method EmitFresh(newly: seq<nat>, ghost before: Taken, ghost own: Option<nat>, out: seq<Segment>)
      returns (out': seq<Segment>, ghost added: seq<Segment>)
      requires Consistent() && emitted == Runs(before) && SubMap(before, taken)
      requires (forall i :: i in taken && i !in before ==> i in newly) && FreshShape(own, newly)
      modifies `sets, `consumed, `emitted
      ensures Valid()
      ensures sets == Prune(old(sets), consumed)
      ensures out' == out + added && Distinct(added) && Elements(added) == Runs(taken) - Runs(before)
      ensures InOrder(own, added)
    {
      hide Prune, Runs, Touches, Consistent, SubMap, FreshShape, InOrder, AllTouch, StartsAscend, Distinct;
      out', added := out, [];
      NothingToPrune();
      NoElements<Segment>();
      NothingInOrder(taken, newly, own);
      var k := 0;
      while k < |newly|
        invariant 0 <= k <= |newly|
        invariant Consistent() && sets == Prune(old(sets), consumed)
        invariant out' == out + added && Distinct(added)
        invariant emitted == Runs(before) + Elements(added) && Elements(added) !! Runs(before)
        invariant InOrder(own, added) && TouchSome(taken, newly, k, added)
        invariant forall j, g :: 0 <= j < k && g in Runs(taken) && Touches(taken, newly[j], g) ==> g in emitted
      {
        ghost var held, given, more;
        held, given := consumed, emitted;
        out', more := TryAround(newly[k], out');
        PruneTwice(old(sets), held, consumed);
        AppendDistinct(added, more);
        NotTouched(taken, newly, k, given, more);
        NextInOrder(taken, newly, k, own, added, more);
        added := added + more;
        k := k + 1;
      }
      AllEmitted(newly, before);
    }

    lemma AllEmitted(newly: seq<nat>, before: Taken)
      requires Consistent() && SubMap(before, taken) && Runs(before) <= emitted
      requires forall i :: i in taken && i !in before ==> i in newly
      requires forall j, g :: 0 <= j < |newly| && g in Runs(taken) && Touches(taken, newly[j], g) ==> g in emitted
      ensures emitted == Runs(taken)
    {
      hide Touches, SetsValid, Storage;
      forall g | g in Runs(taken)
        ensures g in emitted
      {
        if g !in Runs(before) {
          NewRunIsTouched(before, taken, g);
          var i :| i in taken && i !in before && Touches(taken, i, g);
          var j :| 0 <= j < |newly| && newly[j] == i;
        }
      }
    }

    /** The object for set `f`, created empty if there is none. */
    method SetFor(f: nat) returns (fec: FecSet)
      requires SetsValid()
      modifies `sets
      ensures SetsValid() && f in sets && sets[f] == fec
      ensures sets == old(sets)[f := fec] && Models() == old(Models())[f := fec.Model()]
      ensures (if f in old(sets) then fec == old(sets)[f] else fresh(fec)) && fec.Model() == SetAt(old(Model()), f)
    {
      hide FecSet.Valid, FecSet.Model;
      if f in sets {
        fec := sets[f];
      } else {
        fec := new FecSet();
        sets := sets[f := fec];
      }
    }

    /** Marks the fresh indexes as received, and as complete where the shred says so. */
    method Mark(newly: seq<nat>, fec: FecSet, f: nat)
      requires forall i :: i in newly ==> f <= i < f + |fec.data| && fec.data[i - f].Some?
      modifies `received, `complete
      ensures received == old(received) + Elements(newly)
      ensures forall i :: i in complete <==> i in old(complete) || (i in newly && EndsAt(fec.data, f, i))
    {
      var k := 0;
      while k < |newly|
        invariant 0 <= k <= |newly|
        invariant received == old(received) + Elements(newly[..k])
        invariant forall i :: i in complete <==> i in old(complete) || (i in newly[..k] && EndsAt(fec.data, f, i))
      {
        var i := newly[k];
        assert i in newly;
        assert newly[..k + 1] == newly[..k] + [i];
        received := received + {i};
        if fec.data[i - f].value.DataComplete() {
          complete := complete + {i};
        }
        k := k + 1;
      }
      assert newly[..k] == newly;
    }

    /**
     * One shred. The new state and outcome are those of the specification, and the segments appended to `out` are
     * exactly the runs that have become complete, each once.
     */
    method Insert(h: Hasher, shred: Shred, rs: Option<ReedSolomon>, stats: Stats, out: seq<Segment>)
      returns (out': seq<Segment>, ghost added: seq<Segment>, ghost outcome: Outcome)
      requires Valid() && InRange(shred)
      modifies this, sets.Values, stats
      ensures Valid() && SlotInv(old(Model()))
      ensures (Model(), outcome) == SlotInsert(h, rs, old(Model()), shred)
      ensures stats.now == Tally(old(stats.now), outcome)
      ensures out' == out + added && Distinct(added) && Elements(added) == Runs(taken) - old(Runs(taken))
      ensures InOrder(Own(shred), added)
      ensures forall o :: o in sets.Values ==> o in old(sets.Values) || fresh(o)
    {
      hide StepSet, Runs, Models, Consistent, Absorb, OutcomeOf, SlotInv, Distinct, Elements, Tally;
      ValidModel();
      NoElements<Segment>();
      out', added := out, [];
      AgreesOn(shred.index);
      if shred.IsData() && shred.index in received {
        Skip(stats, Duplicated);
        outcome := Duplicated;
        return;
      }
      if !shred.IsData() && SetIsConsumed(shred.fecSetIndex) {
        Skip(stats, NotNeeded);
        outcome := NotNeeded;
        return;
      }
      out', added, outcome := InsertUseful(h, shred, rs, stats, out);
    }

    /** The rest of an insert, once the shred has passed the first checks. */
    method InsertUseful(h: Hasher, shred: Shred, rs: Option<ReedSolomon>, stats: Stats, out: seq<Segment>)
      returns (out': seq<Segment>, ghost added: seq<Segment>, ghost outcome: Outcome)
      requires Valid() && InRange(shred) && !Superfluous(Model(), shred)
      modifies this, sets.Values, stats
      ensures Valid() && SlotInv(old(Model()))
      ensures (Model(), outcome) == SlotInsert(h, rs, old(Model()), shred)
      ensures stats.now == Tally(old(stats.now), outcome)
      ensures out' == out + added && Distinct(added) && Elements(added) == Runs(taken) - old(Runs(taken))
      ensures InOrder(Own(shred), added)
      ensures forall o :: o in sets.Values ==> o in old(sets.Values) || fresh(o)
    {
      hide StepSet, Runs, Storage, FecSet.Model, FecSet.Valid, Absorb, OutcomeOf, StepOk, Bits, SetsValid, FecInv,
           SlotInv, Tally, InOrder, FreshShape;
      ghost var m := Model();
      ValidModel();
      ghost var step;
      var newly, fec;
      newly, fec, step := OfferToSet(h, shred, rs, stats);
      outcome := OutcomeOf(step, shred);
      out', added := Settle(newly, fec, shred, m, step, out);
    }

    /** Counts a shred that the slot does not look at any further. */
    method Skip(stats: Stats, outcome: Outcome)
      requires Valid() && (outcome.Duplicated? || outcome.NotNeeded?)
      modifies stats
      ensures Valid() && Model() == old(Model()) && stats.now == Tally(old(stats.now), outcome)
    {
      hide Storage, Bits, FecSet.Valid, FecSet.Model, Runs;
      if outcome.Duplicated? {
        stats.now := stats.now.(duplicates := stats.now.duplicates + 1);
      } else {
        stats.now := stats.now.(unneeded := stats.now.unneeded + 1);
      }
    }

    lemma AgreesOn(i: nat)
      requires Consistent()
      ensures i in received <==> i in taken
    {
    }

    /** Finds or creates the set and offers it the shred. */
    method OfferToSet(h: Hasher, shred: Shred, rs: Option<ReedSolomon>, stats: Stats)
      returns (newly: seq<nat>, fec: FecSet, ghost step: FecStep)
      requires SetsValid() && InRange(shred) && SlotInv(Model())
      modifies `sets, sets.Values, stats
      ensures SetsValid() && shred.fecSetIndex in sets && sets[shred.fecSetIndex] == fec && fec.Model() == step.fec
      ensures var before := SetAt(old(Model()), shred.fecSetIndex);
              && FecInv(before) && step == StepSet(h, rs, before, shred) &&
                 StepOk(before, step, shred, shred.fecSetIndex)
      ensures Models() == old(Models())[shred.fecSetIndex := step.fec] && newly == FreshOf(step, shred)
      ensures |newly| <= SHREDS_PER_SIDE && FreshShape(Own(shred), newly)
      ensures stats.now == Tally(old(stats.now), OutcomeOf(step, shred))
      ensures forall o :: o in sets.Values ==> o in old(sets.Values) || fresh(o)
    {
      hide StepSet, FecSet.Valid, FecSet.Model, OutcomeOf, FreshOf, StepOk, SlotInv, FecInv, SetOk, Tally, SetsValid,
           Models, FreshShape;
      ghost var m := Model();
      var f := shred.fecSetIndex;
      SetAtOk(m, f);
      fec := SetFor(f);
      newly, step := OfferIn(h, shred, rs, fec, f, stats);
      assert Models() == m.sets[f := SetAt(m, f)][f := step.fec];
      StepSetOk(h, rs, SetAt(m, f), shred, f);
      FreshFits(SetAt(m, f), step, shred, f);
      FreshIsShaped(h, rs, SetAt(m, f), shred);
    }

    /** Offers a shred to one of the sets; no other set is touched. */
    method OfferIn(h: Hasher, shred: Shred, rs: Option<ReedSolomon>, fec: FecSet, f: nat, stats: Stats)
      returns (newly: seq<nat>, ghost step: FecStep)
      requires SetsValid() && f in sets && sets[f] == fec && shred.Wf()
      modifies fec, stats
      ensures SetsValid() && fec.Model() == step.fec && Models() == old(Models())[f := step.fec]
      ensures FecInv(old(fec.Model())) && step == StepSet(h, rs, old(fec.Model()), shred)
      ensures newly == FreshOf(step, shred) && stats.now == Tally(old(stats.now), OutcomeOf(step, shred))
    {
      hide StepSet, FecSet.Model, OutcomeOf, FreshOf, Tally, FecInv;
      newly, step := Offer(h, shred, rs, fec, stats);
    }

    /** Marks what is fresh and emits the runs it completes; a shred that was not accepted brings nothing fresh. */
    method Settle(newly: seq<nat>, fec: FecSet, shred: Shred, ghost m: SlotModel, ghost step: FecStep,
                  out: seq<Segment>)
      returns (out': seq<Segment>, ghost added: seq<Segment>)
      requires SetsValid() && BitsAgree() && emitted == Runs(m.taken) && taken == m.taken && SlotInv(m)
      requires consumed == Consumed(taken)
      requires InRange(shred) && !Superfluous(m, shred)
      requires StepOk(SetAt(m, shred.fecSetIndex), step, shred, shred.fecSetIndex)
      requires fec.Model() == step.fec && Models() == m.sets[shred.fecSetIndex := step.fec]
      requires newly == FreshOf(step, shred) && FreshShape(Own(shred), newly)
      modifies this
      ensures Valid() && Model() == Absorb(m, shred, step) && sets.Values <= old(sets.Values)
      ensures out' == out + added && Distinct(added) && Elements(added) == Runs(taken) - Runs(m.taken)
      ensures InOrder(Own(shred), added)
    {
      hide Runs, Consumed, Storage, Bits, SetsValid, StepOk, FreshOf, GainOf, Prune, SlotInv, FecSet.Model, EndsAt,
           SubMap, InRange, Superfluous, Distinct, Elements, FreshShape, InOrder;
      FreshStored(SetAt(m, shred.fecSetIndex), step, shred);
      ghost var models, before, received0, complete0 := Models(), sets, received, complete;
      fec.ModelData();
      Mark(newly, fec, shred.fecSetIndex);
      taken := taken + GainOf(step, shred);
      AfterMark(m, shred, step);
      MarkedBits(m, shred, step, received0, complete0, received, complete, consumed, emitted);
      out', added := EmitFresh(newly, m.taken, Own(shred), out);
      ValidModel();
      PrunedModels(before, models);
    }

    lemma PrunedModels(held: map<nat, FecSet>, models: map<nat, FecModel>)
      requires sets == Prune(held, consumed) && models.Keys == held.Keys
      requires forall f :: f in held ==> held[f].Model() == models[f]
      ensures Models() == Prune(models, consumed) && sets.Values <= held.Values
    {
      hide FecSet.Model;
    }
  }

  lemma FreshStored(m: FecModel, step: FecStep, shred: Shred)
    requires StepOk(m, step, shred, shred.fecSetIndex)
    ensures forall i :: i in FreshOf(step, shred) ==>
                          && shred.fecSetIndex <= i < shred.fecSetIndex + |step.fec.data|
                          && step.fec.data[i - shred.fecSetIndex].Some?
  {
  }

  /** The bits after the fresh indexes have been marked. */
  lemma MarkedBits(m: SlotModel, shred: Shred, step: FecStep, received: set<nat>, complete: set<nat>,
                   received': set<nat>, complete': set<nat>,
                   consumed: set<nat>, emitted: set<Segment>)
    requires Bits(m.taken, received, complete, consumed, emitted)
    requires StepOk(SetAt(m, shred.fecSetIndex), step, shred, shred.fecSetIndex)
    requires SubMap(m.taken, m.taken + GainOf(step, shred))
    requires received' == received + Elements(FreshOf(step, shred))
    requires forall i :: i in complete' <==>
             i in complete || (i in FreshOf(step, shred) && EndsAt(step.fec.data, shred.fecSetIndex, i))
    ensures Bits(m.taken + GainOf(step, shred), received', complete', consumed, emitted)
  {
    hide GainOf, FreshOf, Runs, KeyedBy, DataSlotOk, CodeSlotOk, Distinct, Full, Filled;
    var gain := GainOf(step, shred);
    GainFacts(SetAt(m, shred.fecSetIndex), step, shred);
    RunsGrow(m.taken, m.taken + gain);
    forall i: nat
      ensures i in complete' <==> Ends(m.taken + gain, i)
    {
      assert i in complete <==> Ends(m.taken, i);
    }
    assert received' == (m.taken + gain).Keys;
  }

  /** The part of an insert that happens inside the shred's FEC set, with its counters. */
  method Offer(h: Hasher, shred: Shred, rs: Option<ReedSolomon>, fec: FecSet, stats: Stats)
    returns (newly: seq<nat>, ghost step: FecStep)
    requires fec.Valid() && shred.Wf()
    modifies fec, stats
    ensures fec.Valid() && step == StepSet(h, rs, old(fec.Model()), shred) && fec.Model() == step.fec
    ensures newly == FreshOf(step, shred)
    ensures stats.now == Tally(old(stats.now), OutcomeOf(step, shred))
  {
    hide Verdict, WithShred, FecRecover, FecInv;
    newly := [];
    var verdict := fec.Insert(h, shred);
    step := FecStep(fec.Model(), verdict, None);
    match verdict {
      case Duplicate =>
        stats.now := stats.now.(duplicates := stats.now.duplicates + 1);
        return;
      case Unneeded =>
        stats.now := stats.now.(unneeded := stats.now.unneeded + 1);
        return;
      case Rejected(_) =>
        stats.now := stats.now.(rejected := stats.now.rejected + 1);
        return;
      case New =>
    }
    if shred.IsData() {
      newly := [shred.index];
    }
    if rs.Some? && fec.CanRecoverNow() {
      var recovered := fec.Recover(rs.value);
      step := FecStep(fec.Model(), verdict, Some(recovered));
      match recovered {
        case Ok(indexes) =>
          stats.now := stats.now.(recovered := stats.now.recovered + |indexes|);
          newly := newly + indexes;
        case Err(_) =>
          stats.now := stats.now.(recoveryFailures := stats.now.recoveryFailures + 1);
      }
    }
  }

  lemma NoElements<T>()
    ensures Distinct<T>([]) && Elements<T>([]) == {}
  {
  }

  lemma PruneTwice<T>(sets: map<nat, T>, a: set<nat>, b: set<nat>)
    requires a <= b
    ensures Prune(Prune(sets, a), b) == Prune(sets, b)
  {
  }

  lemma AppendDistinct<T>(a: seq<T>, b: seq<T>)
    requires Distinct(a) && Distinct(b) && Elements(a) !! Elements(b)
    ensures Distinct(a + b) && Elements(a + b) == Elements(a) + Elements(b)
  {
    forall i, j | 0 <= i < j < |a + b|
      ensures (a + b)[i] != (a + b)[j]
    {
      if i < |a| <= j {
        assert a[i] in Elements(a) && b[j - |a|] in Elements(b);
      }
    }
  }

  /** The sets left after looking at those from `lo` up to but excluding `hi`. */
  ghost function Freed<T>(sets: map<nat, T>, consumed: set<nat>, lo: nat, hi: nat): map<nat, T> {
    map k | k in sets && !(lo <= k < hi && SetIn(consumed, k)) :: sets[k]
  }

  lemma FreedNone<T>(sets: map<nat, T>, consumed: set<nat>, lo: nat)
    ensures Freed(sets, consumed, lo, lo) == sets
  {
  }

  lemma FreedAll<T>(sets: map<nat, T>, before: set<nat>, consumed: set<nat>, start: nat, end: nat, hi: nat)
    requires start <= end < hi && consumed == before + Range(start, end + 1)
    requires forall f :: f in sets ==> f % SHREDS_PER_SIDE == 0 && !SetIn(before, f)
    ensures Freed(sets, consumed, SetOf(start), hi) == Prune(sets, consumed)
  {
    forall k | k in sets && SetIn(consumed, k)
      ensures SetOf(start) <= k < hi
    {
      OverlapsRun(before, consumed, start, end, k);
    }
  }

  lemma FreedStep<T>(sets: map<nat, T>, consumed: set<nat>, lo: nat, hi: nat)
    requires lo <= hi && hi % SHREDS_PER_SIDE == 0 && forall k :: k in sets ==> k % SHREDS_PER_SIDE == 0
    ensures Freed(sets, consumed, lo, hi + SHREDS_PER_SIDE) ==
            if SetIn(consumed, hi) then Freed(sets, consumed, lo, hi) - {hi} else Freed(sets, consumed, lo, hi)
    ensures (hi + SHREDS_PER_SIDE) % SHREDS_PER_SIDE == 0
    ensures hi < MAX_SHREDS_PER_SLOT ==> hi + SHREDS_PER_SIDE <= MAX_SHREDS_PER_SLOT
  {
    forall k | k in sets && hi <= k < hi + SHREDS_PER_SIDE
      ensures k == hi
    {
      SetOfMember(hi, k);
      SetOfMember(k, k);
    }
  }

  lemma OverlapsRun(before: set<nat>, consumed: set<nat>, start: nat, end: nat, k: nat)
    requires start <= end && consumed == before + Range(start, end + 1)
    requires k % SHREDS_PER_SIDE == 0 && SetIn(consumed, k) && !SetIn(before, k)
    ensures SetOf(start) <= k <= end
  {
    hide SetOf;
    var i :| k <= i < k + SHREDS_PER_SIDE && i !in before;
    assert i in consumed;
    SetStart(start, k);
  }

  /** A set that reaches up to `start` begins no earlier than the set of `start`. */
  lemma SetStart(start: nat, k: nat)
    requires k % SHREDS_PER_SIDE == 0 && start < k + SHREDS_PER_SIDE
    ensures SetOf(start) <= k
  {
  }

  lemma NotCovered(emitted: set<Segment>, g: Segment)
    requires g.start <= g.end && !Covered(emitted, g.start)
    ensures g !in emitted
  {
  }

  lemma AlignedSet(m: FecModel, f: nat)
    requires SetOk(m, f)
    ensures f % SHREDS_PER_SIDE == 0
  {
  }

  lemma CoverGrows(emitted: set<Segment>, g: Segment, consumed: set<nat>)
    requires g.start <= g.end && forall i: nat :: i in consumed <==> Covered(emitted, i)
    ensures forall i: nat :: i in consumed + Range(g.start, g.end + 1) <==> Covered(emitted + {g}, i)
  {
    forall i: nat
      ensures i in consumed + Range(g.start, g.end + 1) <==> Covered(emitted + {g}, i)
    {
      if Covered(emitted, i) {
        var c :| c in emitted && c.start <= i <= c.end;
        assert c in emitted + {g};
      }
      if g.start <= i <= g.end {
        assert g in emitted + {g};
      }
    }
  }

  // ---- the order of what is emitted

  ghost predicate AllTouch(taken: Taken, index: nat, s: seq<Segment>) {
    forall g :: g in s ==> g in Runs(taken) && Touches(taken, index, g)
  }

  /** Everything in `s` touches one of the first `k` fresh indexes. */
  ghost predicate TouchSome(taken: Taken, newly: seq<nat>, k: nat, s: seq<Segment>)
    requires k <= |newly|
  {
    forall g :: g in s ==> g in Runs(taken) && exists j :: 0 <= j < k && Touches(taken, newly[j], g)
  }

  predicate StartsAscend(s: seq<Segment>) {
    forall i, j :: 0 <= i < j < |s| ==> s[i].start < s[j].start
  }

  lemma AloneIsDistinct(s: seq<Segment>)
    requires |s| <= 1
    ensures Distinct(s)
  {
  }

  /** A run that contains the index after a completing one starts there. */
  lemma FollowsRun(taken: Taken, index: nat, first: seq<Segment>, second: seq<Segment>)
    requires Ends(taken, index) && |first| <= 1 && |second| <= 1
    requires forall g :: g in first ==> g in Runs(taken) && g.start <= index <= g.end
    requires forall g :: g in second ==> g in Runs(taken) && g.start <= index + 1 <= g.end
    ensures AllTouch(taken, index, first + second) && StartsAscend(first + second)
  {
    forall g | g in second
      ensures g.start == index + 1
    {
      assert IsRun(taken, g.start, g.end);
      assert g.start <= index < g.end ==> Open(taken, index);
    }
  }

  /** What is new touches no earlier fresh index, because everything that does has been emitted. */
  lemma NotTouched(taken: Taken, newly: seq<nat>, k: nat, given: set<Segment>, more: seq<Segment>)
    requires k < |newly| && AllTouch(taken, newly[k], more) && Elements(more) !! given
    requires forall j, g :: 0 <= j < k && g in Runs(taken) && Touches(taken, newly[j], g) ==> g in given
    ensures forall j, g :: 0 <= j < k && g in more ==> !Touches(taken, newly[j], g)
  {
    hide Runs, Touches;
    forall j, g | 0 <= j < k && g in more
      ensures !Touches(taken, newly[j], g)
    {
      assert g in Elements(more);
    }
  }

  lemma NothingInOrder(taken: Taken, newly: seq<nat>, own: Option<nat>)
    ensures InOrder(own, []) && TouchSome(taken, newly, 0, [])
  {
  }

  /** Of two runs, the one that touches the larger of two indexes, and not the smaller, starts later. */
  lemma LaterRun(taken: Taken, g: Segment, g': Segment, a: nat, b: nat)
    requires a < b && g'.start <= g'.end && (g'.start > 0 ==> Ends(taken, g'.start - 1))
    requires Touches(taken, a, g) && Touches(taken, b, g') && !Touches(taken, a, g')
    ensures g.start < g'.start
  {
  }

  lemma RunShape(taken: Taken, g: Segment)
    requires g in Runs(taken)
    ensures g.start <= g.end && (g.start > 0 ==> Ends(taken, g.start - 1))
  {
    assert IsRun(taken, g.start, g.end);
  }

  /** An earlier segment precedes one that touches none of the earlier fresh indexes. */
  lemma EarlierPrecedes(taken: Taken, newly: seq<nat>, k: nat, own: Option<nat>, g: Segment, j: nat, g': Segment)
    requires FreshShape(own, newly) && j < k < |newly|
    requires g in Runs(taken) && g' in Runs(taken) && Touches(taken, newly[j], g) && Touches(taken, newly[k], g')
    requires forall i :: 0 <= i < k ==> !Touches(taken, newly[i], g')
    ensures Precedes(own, g, g')
  {
    hide Runs, Ends;
    RunShape(taken, g);
    RunShape(taken, g');
    assert !Touches(taken, newly[0], g');
    if own.Some? && j > 0 {
      assert newly[j] == newly[1..][j - 1] && newly[k] == newly[1..][k - 1];
    }
    if own.None? || j > 0 {
      assert newly[j] < newly[k];
      LaterRun(taken, g, g', newly[j], newly[k]);
    }
  }

  /** Two segments that touch the same fresh index. */
  lemma SamePrecedes(taken: Taken, newly: seq<nat>, k: nat, own: Option<nat>, g: Segment, g': Segment)
    requires FreshShape(own, newly) && k < |newly| && g.start < g'.start
    requires g in Runs(taken) && g' in Runs(taken) && Touches(taken, newly[k], g) && Touches(taken, newly[k], g')
    requires forall i :: 0 <= i < k ==> !Touches(taken, newly[i], g) && !Touches(taken, newly[i], g')
    ensures Precedes(own, g, g')
  {
    hide Runs, Ends;
    RunShape(taken, g);
    RunShape(taken, g');
    if k == 0 && g'.start <= newly[0] {
      InBoth(taken, g, g', newly[0]);
    }
    if k > 0 {
      assert !Touches(taken, newly[0], g) && !Touches(taken, newly[0], g');
    }
  }

  /** Two runs that both contain an index are the same run. */
  lemma InBoth(taken: Taken, g: Segment, g': Segment, i: nat)
    requires g in Runs(taken) && g' in Runs(taken) && g.start <= i <= g.end && g'.start <= i <= g'.end
    ensures g == g'
  {
    RunUnique(taken, g.start, g.end, g'.start, g'.end, i);
  }

  lemma NextInOrder(taken: Taken, newly: seq<nat>, k: nat, own: Option<nat>, added: seq<Segment>, more: seq<Segment>)
    requires FreshShape(own, newly) && k < |newly| && InOrder(own, added) && TouchSome(taken, newly, k, added)
    requires AllTouch(taken, newly[k], more) && StartsAscend(more)
    requires forall j, g :: 0 <= j < k && g in more ==> !Touches(taken, newly[j], g)
    ensures InOrder(own, added + more) && TouchSome(taken, newly, k + 1, added + more)
  {
    hide FreshShape, Runs, Touches, Precedes;
    var all := added + more;
    forall i, j | 0 <= i < j < |all|
      ensures Precedes(own, all[i], all[j])
    {
      if j >= |added| {
        assert all[j] in more;
        if i < |added| {
          assert all[i] in added;
          var l :| 0 <= l < k && Touches(taken, newly[l], all[i]);
          EarlierPrecedes(taken, newly, k, own, all[i], l, all[j]);
        } else {
          assert all[i] == more[i - |added|] && all[j] == more[j - |added|];
          SamePrecedes(taken, newly, k, own, all[i], all[j]);
        }
      }
    }
    forall g | g in all
      ensures g in Runs(taken) && exists j :: 0 <= j < k + 1 && Touches(taken, newly[j], g)
    {
      if g in added {
        var l :| 0 <= l < k && Touches(taken, newly[l], g);
      } else {
        assert Touches(taken, newly[k], g);
      }
    }
  }
}
