/** The deshredder the program keeps: slots in flight, the high-water mark and the shared counters. */
module Deshredding {
  import opened Wire
  import opened Merkle
  import opened Shreds
  import opened Fec
  import opened Segments
  import opened SlotSpec
  import opened Counters
  import opened SlotAssembly
  import opened Window

  /** What one datagram adds to the counters. */
  function TallyFate(c: Snapshot, fate: Fate, batches: nat): Snapshot {
    var c := c.(packets := c.packets + 1);
    match fate
    case Invalid => c.(invalid := c.invalid + 1)
    case WrongVersion => c.(wrongVersion := c.wrongVersion + 1)
    case Stale => c.(stale := c.stale + 1)
    case Inserted(outcome) => Tally(c, outcome).(batches := c.batches + batches)
  }

  /** Every datagram is counted once: refused for exactly one reason, or accepted. */
  predicate Balanced(c: Snapshot, accepted: nat) {
    c.packets == c.invalid + c.wrongVersion + c.stale + c.duplicates + c.unneeded + c.rejected + accepted
  }

  predicate IsAccepted(fate: Fate) {
    fate.Inserted? && fate.outcome.Accepted?
  }

  ghost function FecSetsOf(slots: map<nat, SlotState>): set<FecSet>
    reads slots.Values
  {
    set k, o | k in slots && o in slots[k].sets.Values :: o
  }

  ghost function OwnedBy(slots: map<nat, SlotState>): set<object>
    reads slots.Values
  {
    slots.Values + FecSetsOf(slots)
  }

  class Deshredder {
    const h: Hasher
    const rs: ReedSolomon
    const config: Config
    const stats: Stats
    var slots: map<nat, SlotState>
    var highestSlot: nat

    ghost function FecSets(): set<FecSet>
      reads `slots, slots.Values
    {
      FecSetsOf(slots)
    }

    /** The objects that make up the slots. */
    ghost function Owned(): set<object>
      reads `slots, slots.Values
    {
      OwnedBy(slots)
    }

    ghost function Models(): map<nat, SlotModel>
      reads `slots, slots.Values, FecSets()
    {
      map k | k in slots :: slots[k].Model()
    }

    ghost function Model(): WindowModel
      reads `slots, `highestSlot, slots.Values, FecSets()
    {
      WindowModel(Models(), highestSlot)
    }

    /** Every slot object is valid and shares nothing with another. */
    ghost predicate Valid()
      reads `slots, slots.Values, FecSets()
    {
      && (forall k :: k in slots ==> slots[k].Valid())
      && (forall k, j :: k in slots && j in slots && k != j ==>
         slots[k] != slots[j] && slots[k].sets.Values !! slots[j].sets.Values)
    }

    constructor (config: Config, h: Hasher, rs: ReedSolomon, stats: Stats)
      ensures Valid() && Model() == NEW_WINDOW && this.config == config && this.h == h && this.rs == rs
      ensures this.stats == stats
    {
      this.config, this.h, this.rs, this.stats := config, h, rs, stats;
      slots, highestSlot := map[], 0;
    }

    lemma ModelInv()
      requires Valid()
      ensures WindowInv(Model())
    {
      forall k | k in slots
        ensures SlotInv(slots[k].Model())
      {
        slots[k].ValidModel();
      }
    }

    /** Drops the slots that have fallen out of the window of `slot`, oldest first. */
    method EvictBefore(slot: nat)
      modifies `slots
      ensures slots == Evict(old(slots), slot, config.slotLookback)
    {
      hide Evict, Wrap;
      var lookback: nat := config.slotLookback;
      while slots != map[]
        invariant Evict(slots, slot, lookback) == Evict(old(slots), slot, lookback)
        decreases |slots.Keys|
      {
        assert slots.Keys != {};
        MinKeyExists(slots.Keys);
        var oldest :| oldest in slots.Keys && forall k :: k in slots.Keys ==> oldest <= k;
        EvictStep(slots, slot, lookback, oldest);
        if Wrap(oldest + lookback) >= slot {
          return;
        }
        slots := slots - {oldest};
      }
      EvictNothing(slots, slot, lookback);
    }

    /** Bounds the number of slots, dropping the newest first. */
    method TrimTo(limit: nat)
      modifies `slots
      ensures slots == Trim(old(slots), limit)
    {
      hide Trim;
      while |slots.Keys| > limit
        invariant Trim(slots, limit) == Trim(old(slots), limit)
        decreases |slots.Keys|
      {
        assert slots.Keys != {};
        MaxKeyExists(slots.Keys);
        var last :| last in slots.Keys && forall k :: k in slots.Keys ==> k <= last;
        TrimStep(slots, limit, last);
        slots := slots - {last};
      }
      TrimDone(slots, limit);
    }

    ghost function Code(): Option<ReedSolomon> {
      if config.recover then Some(rs) else None
    }

    method AddSlot(slot: nat) returns (s: SlotState)
      requires Valid() && slot !in slots
      modifies `slots
      ensures Valid() && slots == old(slots)[slot := s] && fresh(s) && s.sets == map[] && s.Model() == NEW_SLOT
      ensures fresh(Owned() - old(Owned()))
    {
      hide SlotState.Valid, SlotState.Model;
      s := new SlotState();
      slots := slots[slot := s];
      assert s.sets.Values == {};
    }

    /** The object for a slot, created empty if there is none. */
    method SlotFor(slot: nat) returns (s: SlotState)
      requires Valid()
      modifies `slots
      ensures Valid() && slots == old(slots)[slot := s]
      ensures s.Model() == SlotAt(WindowModel(old(Models()), 0), slot) && Models() == old(Models())[slot := s.Model()]
      ensures s in old(slots.Values) || (fresh(s) && s.sets == map[])
      ensures fresh(Owned() - old(Owned()))
    {
      hide SlotState.Valid, SlotState.Model, Owned;
      if slot in slots {
        s := slots[slot];
        assert slots[slot := s] == slots;
      } else {
        s := AddSlot(slot);
      }
    }

    /** Inserts a shred into its slot; no other slot is touched. */
    method InsertInto(s: SlotState, shred: Shred) returns (segments: seq<Segment>, ghost outcome: Outcome)
      requires Valid() && InRange(shred) && shred.slot in slots && slots[shred.slot] == s
      modifies s, s.sets.Values, stats
      ensures Valid() && SlotInv(old(s.Model()))
      ensures (s.Model(), outcome) == SlotInsert(h, Code(), old(s.Model()), shred)
      ensures Models() == old(Models())[shred.slot := s.Model()]
      ensures fresh(Owned() - old(Owned()))
      ensures Distinct(segments) && Elements(segments) == Runs(s.Model().taken) - old(Runs(s.Model().taken))
      ensures InOrder(Own(shred), segments)
      ensures stats.now == Tally(old(stats.now), outcome)
    {
      hide SlotInsert, Runs, SlotInv, SlotState.Valid, SlotState.Model, InRange, Tally, Distinct, Elements, Code,
           InOrder, Own;
      segments, outcome := InsertAlone(s, shred);
    }

    /** The same, slot by slot. */
    method InsertAlone(s: SlotState, shred: Shred) returns (segments: seq<Segment>, ghost outcome: Outcome)
      requires Valid() && InRange(shred) && shred.slot in slots && slots[shred.slot] == s
      modifies s, s.sets.Values, stats
      ensures s.Valid() && SlotInv(old(s.Model()))
      ensures (s.Model(), outcome) == SlotInsert(h, Code(), old(s.Model()), shred)
      ensures forall k :: k in slots && k != shred.slot ==>
              slots[k].Valid() && slots[k].Model() == old(slots[k].Model())
      ensures forall k :: k in slots && k != shred.slot ==> slots[k].sets == old(slots[k].sets)
      ensures forall o :: o in s.sets.Values ==> o in old(s.sets.Values) || fresh(o)
      ensures Distinct(segments) && Elements(segments) == Runs(s.Model().taken) - old(Runs(s.Model().taken))
      ensures InOrder(Own(shred), segments)
      ensures stats.now == Tally(old(stats.now), outcome)
    {
      hide SlotInsert, Runs, SlotInv, SlotState.Valid, SlotState.Model, InRange, Tally, Distinct, Elements, InOrder,
           Own;
      var code := if config.recover then Some(rs) else None;
      ghost var added;
      s.ModelTaken();
      segments, added, outcome := s.Insert(h, shred, code, stats, []);
      s.ModelTaken();
      assert segments == added;
      forall k | k in slots && k != shred.slot
        ensures slots[k].Valid() && slots[k].Model() == old(slots[k].Model())
      {
        assert old(slots[k] != s && slots[k].sets.Values !! s.sets.Values);
      }
    }

    /** Finds or creates the slot and inserts the shred there. */
    method InsertShred(shred: Shred) returns (segments: seq<Segment>, ghost outcome: Outcome)
      requires Valid() && InRange(shred)
      modifies `slots, slots.Values, FecSets(), stats
      ensures Valid()
      ensures var m := SlotAt(WindowModel(old(Models()), 0), shred.slot);
              SlotInv(m) &&
              var (n, o) := SlotInsert(h, Code(), m, shred);
              && Models() == old(Models())[shred.slot := n] && outcome == o
              && Distinct(segments) && Elements(segments) == Runs(n.taken) - Runs(m.taken)
      ensures InOrder(Own(shred), segments)
      ensures fresh(Owned() - old(Owned()))
      ensures stats.now == Tally(old(stats.now), outcome)
    {
      hide SlotInsert, Runs, SlotInv, InRange, Tally, Distinct, Elements, Valid, Models, Owned, SlotAt, SlotState.Valid,
           SlotState.Model, InOrder, Own;
      ghost var owned := Owned();
      var s := SlotFor(shred.slot);
      ghost var withSlot := Owned();
      label withSlotAdded:
      segments, outcome := InsertInto(s, shred);
      forall o | o in Owned() && o !in owned
        ensures fresh(o)
      {
        assert o in withSlot - owned || (o in Owned() - withSlot && fresh@withSlotAdded(o));
      }
    }

    /** Hands out the segments of one datagram, counting each as a batch. */
    method Drain(slot: nat, segments: seq<Segment>) returns (out: seq<RawBatch>)
      requires Valid()
      modifies stats
      ensures Valid() && Model() == old(Model()) && Owned() == old(Owned())
      ensures |out| == |segments| && forall i :: 0 <= i < |out| ==> out[i] == RawBatch(slot, segments[i])
      ensures stats.now == old(stats.now).(batches := old(stats.now).batches + |segments|)
    {
      hide Valid, Models, Owned;
      out := [];
      var i := 0;
      while i < |segments|
        invariant 0 <= i <= |segments| && |out| == i
        invariant Valid() && Model() == old(Model()) && Owned() == old(Owned())
        invariant forall j :: 0 <= j < i ==> out[j] == RawBatch(slot, segments[j])
        invariant stats.now == old(stats.now).(batches := old(stats.now).batches + i)
      {
        Count(stats.now.(batches := stats.now.batches + 1));
        out := out + [RawBatch(slot, segments[i])];
        i := i + 1;
      }
    }

    /** Moves the window after an insert: the two evictions, on the objects. */
    method Advance(slot: nat, moves: bool)
      requires Valid()
      modifies `slots, `highestSlot
      ensures Valid()
      ensures highestSlot == if moves then slot else old(highestSlot)
      ensures Models() == Trim(if moves then Evict(old(Models()), slot, config.slotLookback)
              else old(Models()), config.TrimLimit())
      ensures Owned() <= old(Owned())
    {
      hide Valid, Models, Owned, Trim, Evict;
      if moves {
        MoveTo(slot);
      }
      KeepOldest();
    }

    method MoveTo(slot: nat)
      requires Valid()
      modifies `slots, `highestSlot
      ensures Valid() && highestSlot == slot
      ensures Models() == Evict(old(Models()), slot, config.slotLookback) && Owned() <= old(Owned())
    {
      hide SlotState.Valid, SlotState.Model, Evict;
      ghost var held, models := slots, Models();
      highestSlot := slot;
      EvictBefore(slot);
      EvictedModels(held, models, slot);
      EvictedOwned(held, slot);
    }

    method KeepOldest()
      requires Valid()
      modifies `slots
      ensures Valid()
      ensures Models() == Trim(old(Models()), config.TrimLimit()) && Owned() <= old(Owned())
    {
      hide SlotState.Valid, SlotState.Model, Trim;
      ghost var held, models := slots, Models();
      TrimTo(config.TrimLimit());
      TrimmedModels(held, models);
      TrimmedOwned(held);
    }

    lemma TrimmedOwned(held: map<nat, SlotState>)
      requires slots == Trim(held, config.TrimLimit())
      ensures Owned() <= OwnedBy(held)
    {
      hide Trim;
      TrimSub(held, config.TrimLimit());
      SubOwned(held);
    }

    lemma SubOwned(held: map<nat, SlotState>)
      requires slots.Keys <= held.Keys && forall k :: k in slots ==> slots[k] == held[k]
      ensures Owned() <= OwnedBy(held)
    {
    }

    lemma EvictedModels(held: map<nat, SlotState>, models: map<nat, SlotModel>, slot: nat)
      requires slots == Evict(held, slot, config.slotLookback) && held.Keys == models.Keys
      requires forall k :: k in held ==> held[k].Valid() && held[k].Model() == models[k]
      requires forall k, j :: k in held && j in held && k != j ==>
               held[k] != held[j] && held[k].sets.Values !! held[j].sets.Values
      ensures Valid() && Models() == Evict(models, slot, config.slotLookback)
    {
      hide SlotState.Valid, SlotState.Model, Evict, Wrap;
      EvictSplits(held, slot, config.slotLookback);
      EvictSameKeys(held, models, slot, config.slotLookback);
      EvictSplits(models, slot, config.slotLookback);
    }

    lemma EvictedOwned(held: map<nat, SlotState>, slot: nat)
      requires slots == Evict(held, slot, config.slotLookback)
      ensures Owned() <= OwnedBy(held)
    {
      hide Evict;
      EvictSplits(held, slot, config.slotLookback);
      SubOwned(held);
    }

    lemma TrimmedModels(held: map<nat, SlotState>, models: map<nat, SlotModel>)
      requires slots == Trim(held, config.TrimLimit()) && held.Keys == models.Keys
      requires forall k :: k in held ==> held[k].Valid() && held[k].Model() == models[k]
      requires forall k, j :: k in held && j in held && k != j ==>
               held[k] != held[j] && held[k].sets.Values !! held[j].sets.Values
      ensures Valid() && Models() == Trim(models, config.TrimLimit())
    {
      hide SlotState.Valid, SlotState.Model, Trim, Config.TrimLimit;
      TrimSub(held, config.TrimLimit());
      TrimSameKeys(held, models, config.TrimLimit());
      TrimSub(models, config.TrimLimit());
    }

    /** One datagram: the state, the fate and the batches are those of the specification, and every counter follows. */
    method PushRaw(packet: Bytes) returns (out: seq<RawBatch>, ghost step: Step)
      requires Valid() && Fits(config, highestSlot, packet)
      modifies this, Owned(), stats
      ensures Valid() && WindowInv(old(Model()))
      ensures step == Push(h, rs, config, old(Model()), packet) && Model() == step.window
      ensures Distinct(out) && Elements(out) == step.batches && OrderedFor(packet, out)
      ensures fresh(Owned() - old(Owned()))
      ensures stats.now == TallyFate(old(stats.now), step.fate, |out|)
    {
      hide Valid, Models, Admission, InRange, PushShred, WindowInv, TallyFate, Distinct, Elements, OrderedFor,
           BatchesInOrder;
      ModelInv();
      step := Push(h, rs, config, Model(), packet);
      out := [];
      ghost var before, highestBefore := stats.now, highestSlot;
      NoElements<RawBatch>();
      NothingToOrder(packet);
      var admitted := Admit(packet);
      if admitted.Ok? {
        ghost var processed;
        out, processed := Process(admitted.value);
        AdmittedOrder(config, highestBefore, packet, out);
        InsertedTally(before, processed.fate.outcome, |out|);
      }
    }

    /** Sets the counters; the slots do not depend on them. */
    method Count(now: Snapshot)
      requires Valid()
      modifies stats
      ensures Valid() && Model() == old(Model()) && Owned() == old(Owned()) && stats.now == now
    {
      hide SlotState.Valid, SlotState.Model;
      stats.now := now;
    }

    /** Counts the datagram and applies the checks that come before any slot. */
    method Admit(packet: Bytes) returns (r: Result<Shred, Fate>)
      requires Valid()
      modifies stats
      ensures Valid() && Model() == old(Model())
      ensures Owned() == old(Owned())
      ensures r == Admission(config, highestSlot, packet)
      ensures r.Err? ==> !r.error.Inserted? && stats.now == TallyFate(old(stats.now), r.error, 0)
      ensures r.Ok? ==> stats.now == old(stats.now).(packets := old(stats.now).packets + 1)
    {
      hide Parse, Valid, Models, Owned;
      Count(stats.now.(packets := stats.now.packets + 1));
      var parsed := Parse(packet);
      if parsed.Err? {
        Count(stats.now.(invalid := stats.now.invalid + 1));
        return Err(Invalid);
      }
      var shred := parsed.value;
      if config.shredVersion.Some? && config.shredVersion.value != shred.version {
        Count(stats.now.(wrongVersion := stats.now.wrongVersion + 1));
        return Err(WrongVersion);
      }
      if Wrap(shred.slot + config.slotLookback) < highestSlot {
        Count(stats.now.(stale := stats.now.stale + 1));
        return Err(Stale);
      }
      r := Ok(shred);
    }

    /** The rest of a push, for an admitted shred. */
    method Process(shred: Shred) returns (out: seq<RawBatch>, ghost step: Step)
      requires Valid() && WindowInv(Model()) && InRange(shred)
      modifies `slots, `highestSlot, slots.Values, FecSets(), stats
      ensures Valid() && step == PushShred(h, rs, config, old(Model()), shred) && step.fate.Inserted?
      ensures Model() == step.window && Distinct(out) && Elements(out) == step.batches
      ensures BatchesInOrder(Own(shred), out)
      ensures fresh(Owned() - old(Owned()))
      ensures stats.now == Tally(old(stats.now), step.fate.outcome).(batches := old(stats.now).batches + |out|)
    {
      hide Valid, Models, Owned, InRange, SlotInsert, SlotInv, Runs, Window.Advance, Distinct, Elements, Tally, InOrder,
           BatchesInOrder, Own;
      ghost var w := Model();
      step := PushShred(h, rs, config, w, shred);
      ghost var outcome;
      var segments;
      segments, outcome := InsertShred(shred);
      ghost var n := SlotInsert(h, Code(), SlotAt(w, shred.slot), shred).0;
      out := Finish(shred.slot, segments, Own(shred), w, n, Inserted(outcome));
      TallyLeavesBatches(old(stats.now), outcome);
    }

    /** Moves the window and hands out the segments. */
    method Finish(slot: nat, segments: seq<Segment>, ghost own: Option<nat>, ghost w: WindowModel, ghost n: SlotModel,
                  ghost fate: Fate)
      returns (out: seq<RawBatch>)
      requires Valid() && Models() == w.slots[slot := n] && highestSlot == w.highest && Distinct(segments)
      requires InOrder(own, segments)
      modifies `slots, `highestSlot, stats
      ensures Valid()
      ensures var step := Window.Advance(config, w, slot, n, Elements(segments), fate);
              Model() == step.window && step.fate == fate && Distinct(out) && Elements(out) == step.batches
      ensures BatchesInOrder(own, out)
      ensures Owned() <= old(Owned())
      ensures stats.now == old(stats.now).(batches := old(stats.now).batches + |out|)
    {
      hide Valid, Models, Owned, Trim, Evict, BatchesOf, Distinct, Elements, InOrder, BatchesInOrder;
      HasElements(segments);
      Advance(slot, segments != [] && slot > highestSlot);
      out := Drain(slot, segments);
      BatchElements(slot, segments, out);
      BatchOrder(own, slot, segments, out);
    }

    /** The decoding path: what decodes to entries is handed out, the rest is counted. */
    method PushDecoded(packet: Bytes, decode: Bytes -> BlockData)
      returns (out: seq<EntryBatch>, ghost raw: seq<RawBatch>, ghost step: Step)
      requires Valid() && Fits(config, highestSlot, packet)
      modifies this, Owned(), stats
      ensures WindowInv(old(Model())) && step == Push(h, rs, config, old(Model()), packet) && Model() == step.window
      ensures Valid() && Distinct(raw) && Elements(raw) == step.batches && OrderedFor(packet, raw)
      ensures out == DecodeAll(decode, raw) && (step.fate.Inserted? || raw == [])
      ensures fresh(Owned() - old(Owned()))
      ensures stats.now == TallyDecoded(TallyFate(old(stats.now), step.fate, |raw|), decode, raw)
    {
      hide Valid, Models, Owned, WindowInv, Push, TallyFate, Distinct, Elements, Admission, DecodeAll, TallyDecoded,
           OrderedFor;
      var batches;
      batches, step := PushRaw(packet);
      raw := batches;
      OnlyInsertedHandsOut(h, rs, config, old(Model()), packet, raw);
      out := DecodeBatches(decode, batches);
    }

    /** The callback of the decoding path, batch by batch. */
    method DecodeBatches(decode: Bytes -> BlockData, batches: seq<RawBatch>) returns (out: seq<EntryBatch>)
      requires Valid()
      modifies stats
      ensures Valid() && Model() == old(Model()) && Owned() == old(Owned())
      ensures out == DecodeAll(decode, batches) && stats.now == TallyDecoded(old(stats.now), decode, batches)
    {
      hide Valid, Models, Owned;
      out := [];
      var i := 0;
      while i < |batches|
        invariant 0 <= i <= |batches|
        invariant Valid() && Model() == old(Model()) && Owned() == old(Owned())
        invariant out == DecodeAll(decode, batches[..i])
        invariant stats.now == TallyDecoded(old(stats.now), decode, batches[..i])
      {
        var b := batches[i];
        assert batches[..i + 1][..i] == batches[..i];
        match decode(b.segment.bytes) {
          case Entries(transactions) =>
            Count(stats.now.(entries := stats.now.entries + |transactions|,
                             transactions := stats.now.transactions + Sum(transactions)));
            out := out + [EntryBatch(b, transactions)];
          case BlockMarker =>
            Count(stats.now.(blockMarkers := stats.now.blockMarkers + 1));
          case Undecodable =>
            Count(stats.now.(decodeErrors := stats.now.decodeErrors + 1));
        }
        i := i + 1;
      }
      assert batches[..i] == batches;
    }
  }

  lemma HasElements<T>(s: seq<T>)
    ensures s == [] <==> Elements(s) == {}
  {
    if s != [] {
      assert s[0] in Elements(s);
    }
  }

  lemma TallyLeavesBatches(c: Snapshot, outcome: Outcome)
    ensures Tally(c, outcome).batches == c.batches
  {
  }

  lemma InsertedTally(c: Snapshot, outcome: Outcome, n: nat)
    ensures Tally(c.(packets := c.packets + 1), outcome).(batches := c.batches + n) ==
            TallyFate(c, Inserted(outcome), n)
  {
  }

  /** One datagram's batches come out in the order of their segments. */
  predicate BatchesInOrder(own: Option<nat>, out: seq<RawBatch>) {
    forall i, j :: 0 <= i < j < |out| ==> Precedes(own, out[i].segment, out[j].segment)
  }

  /** The order belongs to the shred in the datagram; without a shred there is nothing to order. */
  predicate OrderedFor(packet: Bytes, out: seq<RawBatch>) {
    match Parse(packet)
    case Ok(shred) => BatchesInOrder(Own(shred), out)
    case Err(_) => out == []
  }

  lemma BatchOrder(own: Option<nat>, slot: nat, segments: seq<Segment>, out: seq<RawBatch>)
    requires InOrder(own, segments) && |out| == |segments|
    requires forall i :: 0 <= i < |out| ==> out[i] == RawBatch(slot, segments[i])
    ensures BatchesInOrder(own, out)
  {
    hide Precedes;
  }

  lemma NothingToOrder(packet: Bytes)
    ensures OrderedFor(packet, [])
  {
    hide Parse;
  }

  lemma AdmittedOrder(config: Config, highest: nat, packet: Bytes, out: seq<RawBatch>)
    requires Admission(config, highest, packet).Ok?
    requires BatchesInOrder(Own(Admission(config, highest, packet).value), out)
    ensures OrderedFor(packet, out)
  {
    hide Parse, Wrap, BatchesInOrder, Own;
  }

  lemma BatchElements(slot: nat, segments: seq<Segment>, out: seq<RawBatch>)
    requires Distinct(segments) && |out| == |segments|
    requires forall i :: 0 <= i < |out| ==> out[i] == RawBatch(slot, segments[i])
    ensures Distinct(out) && Elements(out) == BatchesOf(slot, Elements(segments))
  {
    forall b
      ensures b in Elements(out) <==> b.slot == slot && b.segment in Elements(segments)
    {
      if b.slot == slot && b.segment in Elements(segments) {
        var i :| 0 <= i < |segments| && segments[i] == b.segment;
        assert out[i] == b;
      }
    }
  }

  // ---- the decoding path

  /** The owned decoder, as far as the counters go: the transactions of every entry, a marker, or a failure. */
  datatype BlockData = Entries(transactions: seq<nat>) | BlockMarker | Undecodable
  datatype EntryBatch = EntryBatch(raw: RawBatch, transactions: seq<nat>)

  function Sum(xs: seq<nat>): nat {
    if xs == [] then 0 else xs[0] + Sum(xs[1..])
  }

  function DecodeAll(decode: Bytes -> BlockData, raw: seq<RawBatch>): seq<EntryBatch> {
    if raw == [] then []
    else
      var b := raw[|raw| - 1];
      DecodeAll(decode, raw[..|raw| - 1]) +
      match decode(b.segment.bytes)
      case Entries(transactions) => [EntryBatch(b, transactions)]
      case BlockMarker => []
      case Undecodable => []
  }

  /** What decoding one batch adds to the counters. */
  function TallyBlock(c: Snapshot, block: BlockData): Snapshot {
    match block
    case Entries(transactions) =>
      c.(entries := c.entries + |transactions|, transactions := c.transactions + Sum(transactions))
    case BlockMarker => c.(blockMarkers := c.blockMarkers + 1)
    case Undecodable => c.(decodeErrors := c.decodeErrors + 1)
  }

  lemma BlockThenFate(c: Snapshot, block: BlockData, fate: Fate, n: nat)
    ensures TallyFate(TallyBlock(c, block), fate, n) == TallyBlock(TallyFate(c, fate, n), block)
  {
    hide Sum;
  }

  function TallyDecoded(c: Snapshot, decode: Bytes -> BlockData, raw: seq<RawBatch>): Snapshot {
    if raw == [] then c
    else
      TallyBlock(TallyDecoded(c, decode, raw[..|raw| - 1]), decode(raw[|raw| - 1].segment.bytes))
  }

  /** Every batch is handed out decoded, or counted as a marker or as a decode error; nothing else moves. */
  lemma {:induction false} DecodedBalance(c: Snapshot, decode: Bytes -> BlockData, raw: seq<RawBatch>)
    ensures var d := TallyDecoded(c, decode, raw);
            && |raw| == |DecodeAll(decode, raw)| + (d.blockMarkers - c.blockMarkers) + (d.decodeErrors - c.decodeErrors)
            && d == c.(entries := d.entries, transactions := d.transactions, blockMarkers := d.blockMarkers,
               decodeErrors := d.decodeErrors)
  {
    if raw != [] {
      DecodedBalance(c, decode, raw[..|raw| - 1]);
    }
  }

  /** A datagram that did not reach its slot hands out nothing. */
  lemma OnlyInsertedHandsOut(h: Hasher, rs: ReedSolomon, config: Config, w: WindowModel, packet: Bytes,
                             raw: seq<RawBatch>)
    requires WindowInv(w) && Fits(config, w.highest, packet) && Elements(raw) == Push(h, rs, config, w, packet).batches
    ensures Push(h, rs, config, w, packet).fate.Inserted? || raw == []
  {
    hide WindowInv, SlotInsert, Parse, InRange, Trim, Evict, Runs;
    assert raw != [] ==> raw[0] in Elements(raw);
  }

  /** The counters after a run of fates, each with the number of batches it completed. */
  function TallyRun(c: Snapshot, fates: seq<(Fate, nat)>): Snapshot {
    if fates == [] then c
    else
      var (fate, n) := fates[|fates| - 1];
      TallyFate(TallyRun(c, fates[..|fates| - 1]), fate, n)
  }

  function AcceptedIn(fates: seq<(Fate, nat)>): nat {
    if fates == [] then 0
    else AcceptedIn(fates[..|fates| - 1]) + if IsAccepted(fates[|fates| - 1].0) then 1 else 0
  }

  /** Only datagrams that reached their slot complete batches. */
  ghost predicate CountsOk(fates: seq<(Fate, nat)>) {
    forall i :: 0 <= i < |fates| ==> fates[i].0.Inserted? || fates[i].1 == 0
  }

  function BatchesIn(fates: seq<(Fate, nat)>): nat {
    if fates == [] then 0 else BatchesIn(fates[..|fates| - 1]) + fates[|fates| - 1].1
  }

  /** Each datagram is accepted or refused for exactly one counted reason, and each completed batch is counted. */
  lemma {:induction false} TallyBalances(fates: seq<(Fate, nat)>)
    requires CountsOk(fates)
    ensures var c := TallyRun(ZERO, fates);
            && Balanced(c, AcceptedIn(fates)) && c.packets == |fates| && c.batches == BatchesIn(fates)
            && c.blockMarkers == c.decodeErrors == 0
  {
    if fates != [] {
      TallyBalances(fates[..|fates| - 1]);
    }
  }

  lemma {:induction false} FatesCountOk(h: Hasher, rs: ReedSolomon, config: Config, packets: seq<Bytes>)
    requires forall p :: p in packets ==> PacketOk(p)
    ensures CountsOk(FatesOf(h, rs, config, packets))
  {
    hide PacketOk, HistoryInv, FateOf, PushAll;
    if packets != [] {
      var last := |packets| - 1;
      assert packets[last] in packets;
      FatesCountOk(h, rs, config, packets[..last]);
      FateCountOk(h, rs, config, PushAll(h, rs, config, packets[..last]), packets[last]);
    }
  }

  lemma FateCountOk(h: Hasher, rs: ReedSolomon, config: Config, s: History, packet: Bytes)
    requires HistoryInv(s, config) && PacketOk(packet)
    ensures var (fate, n) := FateOf(h, rs, config, s, packet); fate.Inserted? || n == 0
  {
    hide HistoryInv, Admission, PushShred;
    InvOf(s, config);
    OkFits(config, s.window.highest, packet);
    if Admission(config, s.window.highest, packet).Ok? {
      PushedIsInserted(h, rs, config, s.window, Admission(config, s.window.highest, packet).value);
    }
  }

  lemma PushedIsInserted(h: Hasher, rs: ReedSolomon, config: Config, w: WindowModel, shred: Shred)
    requires WindowInv(w) && InRange(shred)
    ensures PushShred(h, rs, config, w, shred).fate.Inserted?
  {
    hide SlotInsert, Trim, Evict, Runs, InRange, SlotInv;
  }

  /** The counters of a run that started from zero, packet by packet and batch by batch. */
  ghost predicate Accounted(c: Snapshot, fates: seq<(Fate, nat)>, outputs: nat) {
    Balanced(c, AcceptedIn(fates)) && c.packets == |fates| && c.batches == outputs + c.blockMarkers + c.decodeErrors
  }

  /**
   * A whole run of the raw path on one deshredder: the window, everything handed out and the counters are those of the
   * specification's run, a roomy configuration hands out nothing twice, and every packet and batch is accounted for.
   */
  method Replay(d: Deshredder, packets: seq<Bytes>) returns (out: seq<RawBatch>)
    requires d.Valid() && d.Model() == NEW_WINDOW
    requires forall p :: p in packets ==> PacketOk(p)
    modifies d, d.Owned(), d.stats
    ensures d.Valid() && d.Model() == PushAll(d.h, d.rs, d.config, packets).window
    ensures Elements(out) == PushAll(d.h, d.rs, d.config, packets).out && (Roomy(d.config) ==> Distinct(out))
    ensures InTurn(d.h, d.rs, d.config, packets, out)
    ensures d.stats.now == TallyRun(old(d.stats.now), FatesOf(d.h, d.rs, d.config, packets))
    ensures old(d.stats.now) == ZERO ==> Accounted(d.stats.now, FatesOf(d.h, d.rs, d.config, packets), |out|)
  {
    hide Deshredder.Valid, Deshredder.Models, Deshredder.Owned, PacketOk, Fits, Push, PushAll, HistoryInv, RunSoFar,
         Roomy, TallyRun, FatesOf, Distinct, Elements, AcceptedIn, Balanced, TallyFate, InTurn, OrderedFor;
    out := [];
    NoElements<RawBatch>();
    EmptyRun(d.h, d.rs, d.config, d.stats.now);
    var i := 0;
    while i < |packets|
      invariant 0 <= i <= |packets|
      invariant d.Valid() && fresh(d.Owned() - old(d.Owned()))
      invariant forall p :: p in packets[..i] ==> PacketOk(p)
      invariant d.Model() == PushAll(d.h, d.rs, d.config, packets[..i]).window
      invariant RunSoFar(d.h, d.rs, d.config, packets[..i], out)
      invariant d.stats.now == TallyRun(old(d.stats.now), FatesOf(d.h, d.rs, d.config, packets[..i]))
    {
      assert packets[..i + 1] == packets[..i] + [packets[i]];
      assert packets[i] in packets;
      OkFits(d.config, d.highestSlot, packets[i]);
      ghost var step;
      var batches;
      ghost var owned := d.Owned();
      label pushing:
      batches, step := d.PushRaw(packets[i]);
      forall o | o in d.Owned() && o !in old(d.Owned())
        ensures fresh(o)
      {
        assert o in owned - old(d.Owned()) || (o in d.Owned() - owned && fresh@pushing(o));
      }
      RunStep(d.h, d.rs, d.config, packets[..i], packets[i], out, batches, old(d.stats.now));
      out := out + batches;
      i := i + 1;
    }
    assert packets[..i] == packets;
    RunIs(d.h, d.rs, d.config, packets, out);
    FatesCountOk(d.h, d.rs, d.config, packets);
    TallyBalances(FatesOf(d.h, d.rs, d.config, packets));
  }

  /**
   * A whole run of the decoding path, as the worker thread drives it. `raw` are the batches behind the output: those of
   * the specification's run. Every packet is accounted for, and every batch was output, a marker or undecodable.
   */
  method Drive(d: Deshredder, decode: Bytes -> BlockData, packets: seq<Bytes>)
    returns (out: seq<EntryBatch>, ghost raw: seq<RawBatch>)
    requires d.Valid() && d.Model() == NEW_WINDOW
    requires forall p :: p in packets ==> PacketOk(p)
    modifies d, d.Owned(), d.stats
    ensures d.Valid() && d.Model() == PushAll(d.h, d.rs, d.config, packets).window
    ensures Elements(raw) == PushAll(d.h, d.rs, d.config, packets).out && (Roomy(d.config) ==> Distinct(raw))
    ensures InTurn(d.h, d.rs, d.config, packets, raw)
    ensures out == DecodeAll(decode, raw)
    ensures d.stats.now == TallyDecoded(TallyRun(old(d.stats.now), FatesOf(d.h, d.rs, d.config, packets)), decode, raw)
    ensures old(d.stats.now) == ZERO ==> Accounted(d.stats.now, FatesOf(d.h, d.rs, d.config, packets), |out|)
  {
    hide Deshredder.Valid, Deshredder.Models, Deshredder.Owned, PacketOk, Fits, Push, PushAll, HistoryInv, RunSoFar,
         Roomy, TallyRun, FatesOf, Distinct, Elements, AcceptedIn, Balanced, TallyDecoded, DecodeAll, TallyFate, InTurn,
         OrderedFor;
    out, raw := [], [];
    NoElements<RawBatch>();
    EmptyRun(d.h, d.rs, d.config, d.stats.now);
    NothingDecoded(decode, d.stats.now);
    var i := 0;
    while i < |packets|
      invariant 0 <= i <= |packets|
      invariant d.Valid() && fresh(d.Owned() - old(d.Owned()))
      invariant forall p :: p in packets[..i] ==> PacketOk(p)
      invariant d.Model() == PushAll(d.h, d.rs, d.config, packets[..i]).window
      invariant RunSoFar(d.h, d.rs, d.config, packets[..i], raw) && out == DecodeAll(decode, raw)
      invariant d.stats.now == TallyDecoded(TallyRun(old(d.stats.now), FatesOf(d.h, d.rs, d.config, packets[..i])),
                decode, raw)
    {
      assert packets[..i + 1] == packets[..i] + [packets[i]];
      assert packets[i] in packets;
      OkFits(d.config, d.highestSlot, packets[i]);
      ghost var step, batches;
      var decoded;
      ghost var owned := d.Owned();
      label pushing:
      decoded, batches, step := d.PushDecoded(packets[i], decode);
      forall o | o in d.Owned() && o !in old(d.Owned())
        ensures fresh(o)
      {
        assert o in owned - old(d.Owned()) || (o in d.Owned() - owned && fresh@pushing(o));
      }
      RunStep(d.h, d.rs, d.config, packets[..i], packets[i], raw, batches, old(d.stats.now));
      DecodeMore(TallyRun(old(d.stats.now), FatesOf(d.h, d.rs, d.config, packets[..i])), decode, raw, batches,
                 step.fate);
      out, raw := out + decoded, raw + batches;
      i := i + 1;
    }
    assert packets[..i] == packets;
    RunIs(d.h, d.rs, d.config, packets, raw);
    FatesCountOk(d.h, d.rs, d.config, packets);
    ghost var fates := FatesOf(d.h, d.rs, d.config, packets);
    TallyBalances(fates);
    DecodedBalance(TallyRun(old(d.stats.now), fates), decode, raw);
    BalancedAlike(TallyRun(old(d.stats.now), fates), d.stats.now, AcceptedIn(fates));
  }

  lemma BalancedAlike(c: Snapshot, d: Snapshot, accepted: nat)
    requires d == c.(entries := d.entries, transactions := d.transactions, blockMarkers := d.blockMarkers,
             decodeErrors := d.decodeErrors)
    ensures Balanced(c, accepted) <==> Balanced(d, accepted)
  {
  }

  lemma NothingDecoded(decode: Bytes -> BlockData, c: Snapshot)
    ensures DecodeAll(decode, []) == [] && TallyDecoded(c, decode, []) == c
  {
  }

  /** Counting decoded batches and counting fates do not disturb each other. */
  lemma {:induction false} DecodedThenFate(c: Snapshot, decode: Bytes -> BlockData, raw: seq<RawBatch>, fate: Fate,
                                           n: nat)
    ensures TallyFate(TallyDecoded(c, decode, raw), fate, n) == TallyDecoded(TallyFate(c, fate, n), decode, raw)
  {
    hide TallyFate, TallyBlock;
    if raw != [] {
      DecodedThenFate(c, decode, raw[..|raw| - 1], fate, n);
      BlockThenFate(TallyDecoded(c, decode, raw[..|raw| - 1]), decode(raw[|raw| - 1].segment.bytes), fate, n);
    }
  }

  lemma {:induction false} DecodedAppend(c: Snapshot, decode: Bytes -> BlockData, a: seq<RawBatch>, b: seq<RawBatch>)
    ensures TallyDecoded(TallyDecoded(c, decode, a), decode, b) == TallyDecoded(c, decode, a + b)
    ensures DecodeAll(decode, a) + DecodeAll(decode, b) == DecodeAll(decode, a + b)
  {
    if b == [] {
      assert a + b == a;
    } else {
      var last := |b| - 1;
      DecodedAppend(c, decode, a, b[..last]);
      assert (a + b)[..|a + b| - 1] == a + b[..last];
    }
  }

  lemma DecodeMore(c: Snapshot, decode: Bytes -> BlockData, raw: seq<RawBatch>, batches: seq<RawBatch>, fate: Fate)
    ensures TallyDecoded(TallyFate(TallyDecoded(c, decode, raw), fate, |batches|), decode, batches) ==
            TallyDecoded(TallyFate(c, fate, |batches|), decode, raw + batches)
    ensures DecodeAll(decode, raw) + DecodeAll(decode, batches) == DecodeAll(decode, raw + batches)
  {
    hide TallyFate, TallyDecoded, DecodeAll;
    DecodedThenFate(c, decode, raw, fate, |batches|);
    DecodedAppend(TallyFate(c, fate, |batches|), decode, raw, batches);
  }

  ghost function BatchesNow(h: Hasher, rs: ReedSolomon, config: Config, s: History, packet: Bytes): set<RawBatch>
    requires HistoryInv(s, config) && PacketOk(packet)
  {
    OkFits(config, s.window.highest, packet);
    Push(h, rs, config, s.window, packet).batches
  }

  /**
   * The batches come out datagram by datagram: those of the last datagram at the end, each once and in their order, and
   * before them those of the earlier datagrams in turn.
   */
  ghost predicate InTurn(h: Hasher, rs: ReedSolomon, config: Config, packets: seq<Bytes>, out: seq<RawBatch>)
    requires forall p :: p in packets ==> PacketOk(p)
    decreases |packets|
  {
    if packets == [] then out == []
    else
      var last := |packets| - 1;
      assert packets[last] in packets;
      var s := PushAll(h, rs, config, packets[..last]);
      exists before, now ::
        && out == before + now && InTurn(h, rs, config, packets[..last], before)
        && Distinct(now) && Elements(now) == BatchesNow(h, rs, config, s, packets[last])
        && OrderedFor(packets[last], now)
  }

  /** Nothing else can come out: the datagrams decide the whole output, with its order. */
  lemma {:induction false} TurnsDecide(h: Hasher, rs: ReedSolomon, config: Config, packets: seq<Bytes>,
                                       out: seq<RawBatch>, out': seq<RawBatch>)
    requires forall p :: p in packets ==> PacketOk(p)
    requires InTurn(h, rs, config, packets, out) && InTurn(h, rs, config, packets, out')
    ensures out == out'
    decreases |packets|
  {
    hide Distinct, Elements, OrderedFor, BatchesNow, HistoryInv, PacketOk, PushAll;
    if packets != [] {
      var last := |packets| - 1;
      assert packets[last] in packets;
      var s := PushAll(h, rs, config, packets[..last]);
      var all := BatchesNow(h, rs, config, s, packets[last]);
      var before, now :|
        && out == before + now && InTurn(h, rs, config, packets[..last], before)
        && Distinct(now) && Elements(now) == all && OrderedFor(packets[last], now);
      var before', now' :|
        && out' == before' + now' && InTurn(h, rs, config, packets[..last], before')
        && Distinct(now') && Elements(now') == all && OrderedFor(packets[last], now');
      TurnsDecide(h, rs, config, packets[..last], before, before');
      OneOrder(h, rs, config, s, packets[last], now, now');
    }
  }

  lemma OneOrder(h: Hasher, rs: ReedSolomon, config: Config, s: History, packet: Bytes, now: seq<RawBatch>,
                 now': seq<RawBatch>)
    requires HistoryInv(s, config) && PacketOk(packet)
    requires Elements(now) == Elements(now') == BatchesNow(h, rs, config, s, packet)
    requires OrderedFor(packet, now) && OrderedFor(packet, now')
    ensures now == now'
  {
    hide HistoryInv, PacketOk, Parse, Precedes, Own;
    OneSlot(h, rs, config, s, packet);
    if Parse(packet).Ok? {
      var shred := Parse(packet).value;
      SegmentsDecide(shred.slot, Own(shred), now, now');
    }
  }

  /** All batches of a datagram belong to the slot of its shred. */
  lemma OneSlot(h: Hasher, rs: ReedSolomon, config: Config, s: History, packet: Bytes)
    requires HistoryInv(s, config) && PacketOk(packet)
    ensures forall b :: b in BatchesNow(h, rs, config, s, packet) ==>
                          Parse(packet).Ok? && b.slot == Parse(packet).value.slot
  {
    hide HistoryInv, PacketOk, Parse, Wrap, Trim, Evict, SlotInsert, Runs;
    OkFits(config, s.window.highest, packet);
  }

  lemma SegmentsDecide(slot: nat, own: Option<nat>, now: seq<RawBatch>, now': seq<RawBatch>)
    requires Elements(now) == Elements(now') && forall b :: b in Elements(now) ==> b.slot == slot
    requires BatchesInOrder(own, now) && BatchesInOrder(own, now')
    ensures now == now'
  {
    hide Precedes;
    var a, b := SegmentsOf(now), SegmentsOf(now');
    forall g
      ensures g in a <==> RawBatch(slot, g) in now
    {
      SegmentIn(slot, now, g);
    }
    forall g
      ensures g in b <==> RawBatch(slot, g) in now'
    {
      assert forall x :: x in now' ==> x in Elements(now);
      SegmentIn(slot, now', g);
    }
    forall g
      ensures g in a <==> g in b
    {
      assert RawBatch(slot, g) in Elements(now) <==> RawBatch(slot, g) in Elements(now');
    }
    OrderUnique(own, a, b);
    forall i | 0 <= i < |now|
      ensures now[i] == now'[i]
    {
      assert now[i] in Elements(now) && now'[i] in Elements(now');
      assert a[i] == b[i];
    }
  }

  function SegmentsOf(out: seq<RawBatch>): (r: seq<Segment>)
    ensures |r| == |out| && forall i :: 0 <= i < |r| ==> r[i] == out[i].segment
  {
    seq(|out|, i requires 0 <= i < |out| => out[i].segment)
  }

  lemma SegmentIn(slot: nat, out: seq<RawBatch>, g: Segment)
    requires forall b :: b in out ==> b.slot == slot
    ensures g in SegmentsOf(out) <==> RawBatch(slot, g) in out
  {
    if g in SegmentsOf(out) {
      var i :| 0 <= i < |out| && out[i].segment == g;
      assert out[i] in out;
    }
    if RawBatch(slot, g) in out {
      var i :| 0 <= i < |out| && out[i] == RawBatch(slot, g);
      assert SegmentsOf(out)[i] == g;
    }
  }

  /** The batches `out` are those of the run. */
  ghost predicate RunSoFar(h: Hasher, rs: ReedSolomon, config: Config, packets: seq<Bytes>, out: seq<RawBatch>)
    requires forall p :: p in packets ==> PacketOk(p)
  {
    && Elements(out) == PushAll(h, rs, config, packets).out
    && InTurn(h, rs, config, packets, out)
    && (Roomy(config) ==> Distinct(out))
    && |out| == BatchesIn(FatesOf(h, rs, config, packets))
  }

  lemma RunIs(h: Hasher, rs: ReedSolomon, config: Config, packets: seq<Bytes>, out: seq<RawBatch>)
    requires (forall p :: p in packets ==> PacketOk(p)) && RunSoFar(h, rs, config, packets, out)
    ensures Elements(out) == PushAll(h, rs, config, packets).out && (Roomy(config) ==> Distinct(out))
    ensures InTurn(h, rs, config, packets, out) && |out| == BatchesIn(FatesOf(h, rs, config, packets))
  {
    hide PacketOk, PushAll, FatesOf, Distinct, Elements, BatchesIn, Roomy, InTurn;
  }

  lemma EmptyRun(h: Hasher, rs: ReedSolomon, config: Config, c: Snapshot)
    ensures PushAll(h, rs, config, []) == NEW_HISTORY && TallyRun(c, FatesOf(h, rs, config, [])) == c
    ensures RunSoFar(h, rs, config, [], [])
  {
  }

  /** One more datagram in a run. */
  lemma RunStep(h: Hasher, rs: ReedSolomon, config: Config, before: seq<Bytes>, packet: Bytes, out: seq<RawBatch>,
                batches: seq<RawBatch>, c: Snapshot)
    requires (forall p :: p in before ==> PacketOk(p)) && PacketOk(packet) && RunSoFar(h, rs, config, before, out)
    requires var s := PushAll(h, rs, config, before);
             && Distinct(batches) && Elements(batches) == Push(h, rs, config, s.window, packet).batches
             && OrderedFor(packet, batches)
    ensures var all := before + [packet];
            var step := Push(h, rs, config, PushAll(h, rs, config, before).window, packet);
            && (forall p :: p in all ==> PacketOk(p))
            && PushAll(h, rs, config, all).window == step.window
            && RunSoFar(h, rs, config, all, out + batches)
            && TallyRun(c, FatesOf(h, rs, config, all)) ==
               TallyFate(TallyRun(c, FatesOf(h, rs, config, before)), step.fate, |batches|)
  {
    hide PacketOk, Push, HistoryInv, Fits, Distinct, TallyFate, TallyRun, FatesOf, BatchesIn, Roomy, OrderedFor, InTurn;
    var s, all := PushAll(h, rs, config, before), before + [packet];
    InvOf(s, config);
    OkFits(config, s.window.highest, packet);
    var step := Push(h, rs, config, s.window, packet);
    assert all[..|all| - 1] == before && all[|all| - 1] == packet;
    ElementsAppend(out, batches);
    assert |step.batches| == |batches| by { DistinctCount(batches); }
    OneMoreFate(h, rs, config, before, packet, c);
    OneMoreTurn(h, rs, config, before, packet, out, batches);
    if Roomy(config) {
      forall b | b in Elements(batches)
        ensures b !in Elements(out)
      {
        NothingTwice(h, rs, config, s, packet, b);
      }
      AppendDistinct(out, batches);
    }
  }

  lemma OneMoreTurn(h: Hasher, rs: ReedSolomon, config: Config, before: seq<Bytes>, packet: Bytes, out: seq<RawBatch>,
                    batches: seq<RawBatch>)
    requires (forall p :: p in before ==> PacketOk(p)) && PacketOk(packet)
    requires forall p :: p in before + [packet] ==> PacketOk(p)
    requires InTurn(h, rs, config, before, out) && Distinct(batches) && OrderedFor(packet, batches)
    requires Elements(batches) == BatchesNow(h, rs, config, PushAll(h, rs, config, before), packet)
    ensures InTurn(h, rs, config, before + [packet], out + batches)
  {
    hide PacketOk, BatchesNow, PushAll, HistoryInv, Distinct, Elements, OrderedFor;
    var all := before + [packet];
    assert all[..|all| - 1] == before && all[|all| - 1] == packet;
  }

  lemma OneMoreFate(h: Hasher, rs: ReedSolomon, config: Config, before: seq<Bytes>, packet: Bytes, c: Snapshot)
    requires (forall p :: p in before ==> PacketOk(p)) && PacketOk(packet)
    requires forall p :: p in before + [packet] ==> PacketOk(p)
    ensures var step := Push(h, rs, config, PushAll(h, rs, config, before).window, packet);
            var fates, more := FatesOf(h, rs, config, before), FatesOf(h, rs, config, before + [packet]);
            && TallyRun(c, more) == TallyFate(TallyRun(c, fates), step.fate, |step.batches|)
            && BatchesIn(more) == BatchesIn(fates) + |step.batches|
  {
    hide PacketOk, Push, PushAll, HistoryInv, TallyFate;
    var all, fates := before + [packet], FatesOf(h, rs, config, before);
    assert all[..|all| - 1] == before && all[|all| - 1] == packet;
    var more := FatesOf(h, rs, config, all);
    assert more[..|more| - 1] == fates;
  }

  lemma ElementsAppend<T>(a: seq<T>, b: seq<T>)
    ensures Elements(a + b) == Elements(a) + Elements(b)
  {
  }

  /** What the eviction loop does with the oldest slot. */
  lemma EvictStep<T>(slots: map<nat, T>, slot: nat, lookback: nat, oldest: nat)
    requires oldest in slots && forall k :: k in slots ==> oldest <= k
    ensures Wrap(oldest + lookback) >= slot ==> Evict(slots, slot, lookback) == slots
    ensures Wrap(oldest + lookback) < slot ==> Evict(slots, slot, lookback) == Evict(slots - {oldest}, slot, lookback)
    ensures |(slots - {oldest}).Keys| < |slots.Keys|
  {
    hide Wrap, Evict, MinKey;
    assert oldest in slots.Keys && MinKey(slots.Keys) == oldest;
    EvictOnce(slots, slot, lookback);
  }

  lemma {:induction false} EvictSameKeys<S, T>(a: map<nat, S>, b: map<nat, T>, slot: nat, lookback: nat)
    requires a.Keys == b.Keys
    ensures Evict(a, slot, lookback).Keys == Evict(b, slot, lookback).Keys
    decreases |a.Keys|
  {
    hide Wrap, Evict, MinKey;
    if a.Keys == {} {
      EvictNothing(a, slot, lookback);
      EvictNothing(b, slot, lookback);
    } else {
      var oldest := MinKey(a.Keys);
      EvictOnce(a, slot, lookback);
      EvictOnce(b, slot, lookback);
      assert (a - {oldest}).Keys == (b - {oldest}).Keys;
      EvictSameKeys(a - {oldest}, b - {oldest}, slot, lookback);
    }
  }

  lemma TrimStep<T>(slots: map<nat, T>, limit: nat, last: nat)
    requires |slots.Keys| > limit && last in slots && forall k :: k in slots ==> k <= last
    ensures Trim(slots, limit) == Trim(slots - {last}, limit) && |(slots - {last}).Keys| < |slots.Keys|
  {
    assert (slots - {last}).Keys == slots.Keys - {last};
  }

  lemma TrimDone<T>(slots: map<nat, T>, limit: nat)
    requires |slots.Keys| <= limit
    ensures Trim(slots, limit) == slots
  {
  }

  lemma {:induction false} TrimSameKeys<S, T>(a: map<nat, S>, b: map<nat, T>, n: nat)
    requires a.Keys == b.Keys
    ensures Trim(a, n).Keys == Trim(b, n).Keys
    decreases |a.Keys|
  {
    if |a.Keys| > n {
      var last := MaxKey(a.Keys);
      assert (a - {last}).Keys == a.Keys - {last} == (b - {last}).Keys;
      TrimSameKeys(a - {last}, b - {last}, n);
    }
  }
}
