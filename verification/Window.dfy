/** The slots in flight, as values: admission, the high-water mark, the two evictions, and what whole runs keep. */
module Window {
  import opened Wire
  import opened Merkle
  import opened Shreds
  import opened Fec
  import opened Segments
  import opened SlotSpec

  datatype Config = Config(shredVersion: Option<u16>, slotLookback: u64, recover: bool)
  {
    /** The largest number of slots kept; the product is 64 bits wide. */
    function TrimLimit(): (r: nat)
      ensures r < U64_LIMIT
    {
      Wrap(4 * slotLookback)
    }
  }

  /** One deshredded run with its slot. */
  datatype RawBatch = RawBatch(slot: nat, segment: Segment)

  /** What became of one datagram. */
  datatype Fate = Invalid | WrongVersion | Stale | Inserted(outcome: Outcome)

  datatype WindowModel = WindowModel(slots: map<nat, SlotModel>, highest: nat)

  const NEW_WINDOW := WindowModel(map[], 0)

  ghost predicate WindowInv(w: WindowModel) {
    forall k :: k in w.slots ==> SlotInv(w.slots[k])
  }

  /** The checks before a slot is touched. */
  function Admission(config: Config, highest: nat, packet: Bytes): Result<Shred, Fate> {
    match Parse(packet)
    case Err(_) => Err(Invalid)
    case Ok(shred) =>
      if config.shredVersion.Some? && config.shredVersion.value != shred.version then Err(WrongVersion)
      else if Wrap(shred.slot + config.slotLookback) < highest then Err(Stale)
      else Ok(shred)
  }

  /**
   * A shred of an accepted version is stale exactly when its window has passed, or wraps around and has passed then.
   */
  lemma StaleIff(config: Config, highest: nat, packet: Bytes)
    requires Parse(packet).Ok?
    requires (config.shredVersion.None? || config.shredVersion.value == Parse(packet).value.version)
    ensures var end := Parse(packet).value.slot + config.slotLookback;
            && (Admission(config, highest, packet) == Err(Stale) <==>
               end < highest || (end >= U64_LIMIT && end - U64_LIMIT < highest))
            && (Admission(config, highest, packet) == Err(Stale) ||
               Admission(config, highest, packet) == Ok(Parse(packet).value))
  {
    hide Parse, Wrap;
    SlotIs64(packet);
    WrapIs(Parse(packet).value.slot + config.slotLookback);
  }

  lemma SlotIs64(packet: Bytes)
    requires Parse(packet).Ok?
    ensures Parse(packet).value.slot < U64_LIMIT
  {
    hide Parse;
    ParseOk(packet);
  }

  /** A code shred that gets past admission names a FEC set inside the slot. */
  predicate Fits(config: Config, highest: nat, packet: Bytes) {
    Admission(config, highest, packet).Ok? ==> InRange(Admission(config, highest, packet).value)
  }

  /** The same for a datagram whose admission is not known yet. */
  predicate PacketOk(packet: Bytes) {
    Parse(packet).Ok? ==> InRange(Parse(packet).value)
  }

  lemma EmptySlotInv()
    ensures SlotInv(NEW_SLOT) && Runs(NEW_SLOT.taken) == {}
  {
    RunsAvailable(NEW_SLOT.taken);
  }

  ghost function SlotAt(w: WindowModel, slot: nat): SlotModel {
    if slot in w.slots then w.slots[slot] else NEW_SLOT
  }

  lemma MaxKeyExists(keys: set<nat>)
    requires keys != {}
    ensures exists k :: k in keys && forall j :: j in keys ==> j <= k
  {
    var k :| k in keys;
    if keys - {k} != {} {
      MaxKeyExists(keys - {k});
      var m :| m in keys - {k} && forall j :: j in keys - {k} ==> j <= m;
      var top := if m < k then k else m;
      assert forall j :: j in keys ==> j == k || j in keys - {k};
      assert top in keys && forall j :: j in keys ==> j <= top;
    } else {
      assert keys == {k};
    }
  }

  lemma MinKeyExists(keys: set<nat>)
    requires keys != {}
    ensures exists k :: k in keys && forall j :: j in keys ==> k <= j
  {
    var k :| k in keys;
    MinKeyBelow(keys, k);
  }

  lemma {:induction false} MinKeyBelow(keys: set<nat>, k: nat)
    requires k in keys
    ensures exists m :: m in keys && forall j :: j in keys ==> m <= j
  {
    if j :| j in keys && j < k {
      MinKeyBelow(keys, j);
    }
  }

  ghost function MaxKey(keys: set<nat>): (k: nat)
    requires keys != {}
    ensures k in keys && forall j :: j in keys ==> j <= k
  {
    MaxKeyExists(keys);
    var k :| k in keys && forall j :: j in keys ==> j <= k;
    k
  }

  ghost function MinKey(keys: set<nat>): (k: nat)
    requires keys != {}
    ensures k in keys && forall j :: j in keys ==> k <= j
  {
    MinKeyExists(keys);
    var k :| k in keys && forall j :: j in keys ==> k <= j;
    k
  }

  /** Drops the oldest slots up to the first whose window still reaches `slot`, in 64-bit arithmetic. */
  ghost function Evict<T>(slots: map<nat, T>, slot: nat, lookback: nat): map<nat, T>
    decreases |slots.Keys|
  {
    if slots.Keys == {} then slots
    else
      var oldest := MinKey(slots.Keys);
      if Wrap(oldest + lookback) >= slot then slots
      else
        assert (slots - {oldest}).Keys == slots.Keys - {oldest};
        Evict(slots - {oldest}, slot, lookback)
  }

  lemma EvictOnce<T>(slots: map<nat, T>, slot: nat, lookback: nat)
    requires slots.Keys != {}
    ensures var oldest := MinKey(slots.Keys);
            && |(slots - {oldest}).Keys| < |slots.Keys|
            && (if Wrap(oldest + lookback) >= slot then Evict(slots, slot, lookback) == slots
                else Evict(slots, slot, lookback) == Evict(slots - {oldest}, slot, lookback))
  {
    hide Wrap, MinKey;
    var oldest := MinKey(slots.Keys);
    assert (slots - {oldest}).Keys == slots.Keys - {oldest};
  }

  lemma {:induction false} EvictSub<T>(slots: map<nat, T>, slot: nat, lookback: nat)
    ensures var kept := Evict(slots, slot, lookback);
            kept.Keys <= slots.Keys && forall k :: k in kept ==> kept[k] == slots[k]
    decreases |slots.Keys|
  {
    hide Wrap, MinKey, Evict;
    if slots.Keys == {} {
      EvictNothing(slots, slot, lookback);
    } else {
      EvictOnce(slots, slot, lookback);
      EvictSub(slots - {MinKey(slots.Keys)}, slot, lookback);
    }
  }

  lemma EvictNothing<T>(slots: map<nat, T>, slot: nat, lookback: nat)
    requires slots.Keys == {}
    ensures Evict(slots, slot, lookback) == slots
  {
  }

  /** What stays reaches `slot`, even without wrap-around. */
  lemma {:induction false} EvictKeeps<T>(slots: map<nat, T>, slot: nat, lookback: nat, k: nat)
    requires k in Evict(slots, slot, lookback)
    ensures k in slots && k + lookback >= slot
    decreases |slots.Keys|
  {
    hide Wrap, MinKey, Evict;
    EvictSub(slots, slot, lookback);
    assert k in slots.Keys;
    EvictOnce(slots, slot, lookback);
    var oldest := MinKey(slots.Keys);
    if Wrap(oldest + lookback) >= slot {
      WrapIs(oldest + lookback);
    } else {
      EvictKeeps(slots - {oldest}, slot, lookback, k);
    }
  }

  /** What goes does not reach it, with wrap-around. */
  lemma {:induction false} EvictDrops<T>(slots: map<nat, T>, slot: nat, lookback: nat, k: nat)
    requires k in slots && k !in Evict(slots, slot, lookback)
    ensures Wrap(k + lookback) < slot
    decreases |slots.Keys|
  {
    hide Wrap, MinKey, Evict;
    assert k in slots.Keys;
    EvictOnce(slots, slot, lookback);
    var oldest := MinKey(slots.Keys);
    if k != oldest && Wrap(oldest + lookback) < slot {
      EvictDrops(slots - {oldest}, slot, lookback, k);
    }
  }

  lemma EvictSplits<T>(slots: map<nat, T>, slot: nat, lookback: nat)
    ensures var kept := Evict(slots, slot, lookback);
            && kept.Keys <= slots.Keys
            && (forall k :: k in kept ==> kept[k] == slots[k] && k + lookback >= slot)
            && (forall k :: k in slots && k !in kept ==> Wrap(k + lookback) < slot)
  {
    hide Wrap, Evict;
    EvictSub(slots, slot, lookback);
    var kept := Evict(slots, slot, lookback);
    forall k | k in kept
      ensures k + lookback >= slot
    {
      EvictKeeps(slots, slot, lookback, k);
    }
    forall k | k in slots && k !in kept
      ensures Wrap(k + lookback) < slot
    {
      EvictDrops(slots, slot, lookback, k);
    }
  }

  /** At most `n` slots, dropping the largest first. */
  ghost function Trim<T>(slots: map<nat, T>, n: nat): map<nat, T>
    decreases |slots.Keys|
  {
    if |slots.Keys| <= n then slots
    else
      var last := MaxKey(slots.Keys);
      assert (slots - {last}).Keys == slots.Keys - {last};
      Trim(slots - {last}, n)
  }

  /** The trim keeps the smallest keys, and as many as fit. */
  lemma {:induction false} TrimKeepsSmallest<T>(slots: map<nat, T>, n: nat)
    ensures var kept := Trim(slots, n);
            && kept.Keys <= slots.Keys
            && |kept.Keys| == (if |slots.Keys| <= n then |slots.Keys| else n)
            && (forall k :: k in kept ==> kept[k] == slots[k])
            && (forall k, j :: k in kept && j in slots && j !in kept ==> k < j)
    decreases |slots.Keys|
  {
    hide MaxKey;
    if |slots.Keys| > n {
      var last := MaxKey(slots.Keys);
      assert (slots - {last}).Keys == slots.Keys - {last};
      TrimKeepsSmallest(slots - {last}, n);
    }
  }

  lemma TrimSub<T>(slots: map<nat, T>, n: nat)
    ensures var kept := Trim(slots, n); kept.Keys <= slots.Keys && forall k :: k in kept ==> kept[k] == slots[k]
  {
    hide Trim;
    TrimKeepsSmallest(slots, n);
  }

  /** If no key lies below `floor`, the trim spares the keys that are less than `n` above it. */
  lemma TrimSpares<T>(slots: map<nat, T>, n: nat, floor: nat, k: nat)
    requires k in slots && k < floor + n && forall j :: j in slots ==> j >= floor
    ensures k in Trim(slots, n)
  {
    hide Trim;
    TrimKeepsSmallest(slots, n);
    var kept := Trim(slots, n);
    if k !in kept {
      SubsetSize(kept.Keys, Range(floor, k));
      SubsetSize(kept.Keys, slots.Keys);
    }
  }

  datatype Step = Step(window: WindowModel, fate: Fate, batches: set<RawBatch>, trimmed: set<nat>)

  ghost function BatchesOf(slot: nat, segments: set<Segment>): (r: set<RawBatch>)
    ensures forall b :: b in r <==> b.slot == slot && b.segment in segments
  {
    set g | g in segments :: RawBatch(slot, g)
  }

  /** The window after the slot of an admitted shred has become `n` and completed the runs `completed`. */
  ghost function Advance(config: Config, w: WindowModel, slot: nat, n: SlotModel, completed: set<Segment>,
                         fate: Fate): Step {
    var moves := completed != {} && slot > w.highest;
    var inserted := w.slots[slot := n];
    var kept := if moves then Evict(inserted, slot, config.slotLookback) else inserted;
    var bounded := Trim(kept, config.TrimLimit());
    Step(WindowModel(bounded, if moves then slot else w.highest), fate, BatchesOf(slot, completed),
    kept.Keys - bounded.Keys)
  }

  /** An admitted shred. Only a slot that completed a run moves the window. */
  ghost function PushShred(h: Hasher, rs: ReedSolomon, config: Config, w: WindowModel, shred: Shred): Step
    requires WindowInv(w) && InRange(shred)
  {
    EmptySlotInv();
    var m := SlotAt(w, shred.slot);
    var (n, outcome) := SlotInsert(h, if config.recover then Some(rs) else None, m, shred);
    Advance(config, w, shred.slot, n, Runs(n.taken) - Runs(m.taken), Inserted(outcome))
  }

  /** One datagram. */
  ghost function Push(h: Hasher, rs: ReedSolomon, config: Config, w: WindowModel, packet: Bytes): Step
    requires WindowInv(w) && Fits(config, w.highest, packet)
  {
    match Admission(config, w.highest, packet)
    case Err(fate) => Step(w, fate, {}, {})
    case Ok(shred) => PushShred(h, rs, config, w, shred)
  }

  // ---- whole runs

  /** A window with everything handed out so far, and the slots the capacity trim has removed. */
  datatype History = History(window: WindowModel, out: set<RawBatch>, trimmed: set<nat>)

  ghost predicate SlotHistory(s: History, lookback: nat, k: nat) {
    if k in s.window.slots then
      forall g :: RawBatch(k, g) in s.out <==> g in Runs(s.window.slots[k].taken)
    else
      Wrap(k + lookback) < s.window.highest || forall b :: b in s.out ==> b.slot != k
  }

  ghost predicate HighestIsMax(out: set<RawBatch>, highest: nat) {
    && (forall b :: b in out ==> b.slot <= highest)
    && (if out == {} then highest == 0 else exists b :: b in out && b.slot == highest)
  }

  /** Batches of one slot never overlap. */
  ghost predicate Apart(b: RawBatch, b': RawBatch) {
    b.slot == b'.slot && b != b' ==> b.segment.end < b'.segment.start || b'.segment.end < b.segment.start
  }

  /**
   * The trim cannot reach a slot that has handed out something and may be admitted again: either the limit exceeds the
   * lookback, or every slot it can reach is stale for good because its window wraps around.
   */
  predicate Roomy(config: Config) {
    config.TrimLimit() > config.slotLookback || config.TrimLimit() + config.slotLookback >= U64_LIMIT
  }

  ghost predicate HistoryInv(s: History, config: Config) {
    && WindowInv(s.window)
    && HighestIsMax(s.out, s.window.highest)
    && (forall k :: k in s.window.slots ==> k + config.slotLookback >= s.window.highest && k < U64_LIMIT)
    && |s.window.slots.Keys| <= config.TrimLimit()
    && HandedOutOnce(s, config)
  }

  /** The trim has not made the deshredder forget what slot `k` has handed out. */
  ghost predicate Remembered(s: History, config: Config, k: nat) {
    Roomy(config) || k !in s.trimmed
  }

  /** A slot that was not forgotten knows what it has handed out, so nothing is handed out twice. */
  ghost predicate HandedOutOnce(s: History, config: Config) {
    && (forall k: nat :: Remembered(s, config, k) ==> SlotHistory(s, config.slotLookback, k))
    && (forall b, b' :: b in s.out && b' in s.out && Remembered(s, config, b.slot) ==> Apart(b, b'))
  }

  ghost function After(s: History, step: Step): History {
    History(step.window, s.out + step.batches, s.trimmed + step.trimmed)
  }

  /** What an admitted shred does to its slot, as far as the window is concerned. */
  ghost predicate Advances(config: Config, s: History, slot: nat, n: SlotModel) {
    && HistoryInv(s, config) && Wrap(slot + config.slotLookback) >= s.window.highest && slot < U64_LIMIT
    && SlotInv(n) && Runs(SlotAt(s.window, slot).taken) <= Runs(n.taken)
  }

  ghost function Completed(s: History, slot: nat, n: SlotModel): set<Segment> {
    Runs(n.taken) - Runs(SlotAt(s.window, slot).taken)
  }

  ghost function Advanced(config: Config, s: History, slot: nat, n: SlotModel, fate: Fate): History {
    After(s, Advance(config, s.window, slot, n, Completed(s, slot, n), fate))
  }

  /** What the slot had handed out before were the runs it had then. */
  lemma OldBatches(config: Config, s: History, slot: nat, n: SlotModel, g: Segment)
    requires Advances(config, s, slot, n) && Remembered(s, config, slot)
    ensures RawBatch(slot, g) in s.out <==> g in Runs(SlotAt(s.window, slot).taken)
  {
    hide Wrap, Roomy, HighestIsMax, WindowInv, SlotInv, Runs, Config.TrimLimit;
    EmptySlotInv();
    assert SlotHistory(s, config.slotLookback, slot);
  }

  lemma HighestAfter(out: set<RawBatch>, highest: nat, slot: nat, completed: set<Segment>)
    requires HighestIsMax(out, highest)
    ensures HighestIsMax(out + BatchesOf(slot, completed), if completed != {} && slot > highest then slot else highest)
  {
    var all := out + BatchesOf(slot, completed);
    if completed == {} {
      assert all == out;
    } else {
      var g :| g in completed;
      assert RawBatch(slot, g) in all;
      if slot <= highest && out != {} {
        var b :| b in out && b.slot == highest;
        assert b in all;
      }
    }
  }

  lemma AdvanceHighest(config: Config, s: History, slot: nat, n: SlotModel, fate: Fate)
    requires Advances(config, s, slot, n)
    ensures var t := Advanced(config, s, slot, n, fate); HighestIsMax(t.out, t.window.highest)
    ensures Advanced(config, s, slot, n, fate).window.highest >= s.window.highest
  {
    hide Trim, Evict, Runs, SlotInv, HandedOutOnce, HighestIsMax, WindowInv, BatchesOf, SlotAt;
    HighestAfter(s.out, s.window.highest, slot, Completed(s, slot, n));
  }

  lemma AdvanceWindow(config: Config, s: History, slot: nat, n: SlotModel, fate: Fate)
    requires Advances(config, s, slot, n)
    ensures var t := Advanced(config, s, slot, n, fate);
            && WindowInv(t.window)
            && (forall k :: k in t.window.slots ==> k + config.slotLookback >= t.window.highest && k < U64_LIMIT)
            && |t.window.slots.Keys| <= config.TrimLimit()
  {
    hide Trim, Evict, Runs, Completed, SlotInv, HandedOutOnce, HighestIsMax, Wrap, Roomy, Config.TrimLimit;
    WrapIs(slot + config.slotLookback);
    var moves := Completed(s, slot, n) != {} && slot > s.window.highest;
    var inserted := s.window.slots[slot := n];
    StaysInWindow(inserted, slot, config.slotLookback, config.TrimLimit(), moves, s.window.highest);
    var bounded := Trim(if moves then Evict(inserted, slot, config.slotLookback) else inserted, config.TrimLimit());
    var t := Advanced(config, s, slot, n, fate);
    assert t.window.slots == bounded;
    forall k | k in t.window.slots
      ensures SlotInv(t.window.slots[k]) && k + config.slotLookback >= t.window.highest && k < U64_LIMIT
    {
      assert k in bounded && bounded[k] == inserted[k];
    }
  }

  /** The two evictions keep the slots inside the window, and few enough. */
  lemma StaysInWindow<T>(slots: map<nat, T>, slot: nat, lookback: nat, limit: nat, moves: bool, highest: nat)
    requires forall j :: j in slots ==> j + lookback >= highest && j < U64_LIMIT
    ensures var bounded := Trim(if moves then Evict(slots, slot, lookback) else slots, limit);
            && |bounded.Keys| <= limit
            && forall k :: k in bounded ==>
                             k in slots && bounded[k] == slots[k] &&
                             k + lookback >= (if moves then slot else highest) && k < U64_LIMIT
  {
    hide Trim, Evict, Wrap;
    EvictSplits(slots, slot, lookback);
    TrimKeepsSmallest(if moves then Evict(slots, slot, lookback) else slots, limit);
  }

  /** Which slots survive the two evictions, and why the others do not. */
  lemma Survivors<T>(slots: map<nat, T>, slot: nat, lookback: nat, limit: nat, moves: bool, k: nat)
    ensures var kept := if moves then Evict(slots, slot, lookback) else slots;
            var bounded := Trim(kept, limit);
            && (k in bounded ==> k in slots && bounded[k] == slots[k])
            && (k in slots && k !in bounded && k !in kept.Keys - bounded.Keys ==> moves && Wrap(k + lookback) < slot)
  {
    hide Trim, Evict, Wrap;
    EvictSplits(slots, slot, lookback);
    TrimSub(if moves then Evict(slots, slot, lookback) else slots, limit);
  }

  /** Which slots survive a datagram, and why the others do not. */
  lemma AdvanceSlots(config: Config, s: History, slot: nat, n: SlotModel, fate: Fate, k: nat)
    ensures var t := Advanced(config, s, slot, n, fate);
            && (k in t.window.slots ==>
               k in s.window.slots[slot := n] && t.window.slots[k] == s.window.slots[slot := n][k])
            && (k !in t.window.slots && k in s.window.slots[slot := n] ==>
                  || k in Advance(config, s.window, slot, n, Completed(s, slot, n), fate).trimmed
                  || Wrap(k + config.slotLookback) < t.window.highest)
            && s.trimmed <= t.trimmed
            && Advance(config, s.window, slot, n, Completed(s, slot, n), fate).trimmed <= t.trimmed
            && (Remembered(t, config, k) ==> Remembered(s, config, k)) && t.window.highest >= s.window.highest
            && (forall b :: b in t.out && b.slot != slot ==> b in s.out)
            && (forall b :: b in s.out ==> b in t.out)
            && (forall g :: RawBatch(slot, g) in t.out <==> RawBatch(slot, g) in s.out || g in Completed(s, slot, n))
  {
    hide Trim, Evict, Completed, Wrap, Roomy, Config.TrimLimit;
    var moves := Completed(s, slot, n) != {} && slot > s.window.highest;
    Survivors(s.window.slots[slot := n], slot, config.slotLookback, config.TrimLimit(), moves, k);
  }

  /** What the trim removes lies at least its limit above the lower end of the window. */
  lemma TrimmedIsFar(config: Config, s: History, slot: nat, n: SlotModel, fate: Fate, k: nat)
    requires Advances(config, s, slot, n)
    requires k in Advance(config, s.window, slot, n, Completed(s, slot, n), fate).trimmed
    ensures config.TrimLimit() <= k < U64_LIMIT
    ensures k + config.slotLookback >= Advanced(config, s, slot, n, fate).window.highest + config.TrimLimit()
  {
    hide Trim, Evict, Runs, Completed, SlotInv, HandedOutOnce, HighestIsMax, WindowInv, Wrap, Roomy, Config.TrimLimit;
    WrapIs(slot + config.slotLookback);
    var moves := Completed(s, slot, n) != {} && slot > s.window.highest;
    TrimmedAbove(s.window.slots[slot := n], slot, config.slotLookback, config.TrimLimit(), moves, s.window.highest, k);
  }

  /** The same on any map of slots of which none lies below the window. */
  lemma TrimmedAbove<T>(slots: map<nat, T>, slot: nat, lookback: nat, limit: nat, moves: bool, highest: nat, k: nat)
    requires forall j :: j in slots ==> j + lookback >= highest && j < U64_LIMIT
    requires var kept := if moves then Evict(slots, slot, lookback) else slots; k in kept.Keys - Trim(kept, limit).Keys
    ensures limit <= k < U64_LIMIT && k + lookback >= (if moves then slot else highest) + limit
  {
    hide Trim, Evict, Wrap;
    var kept, top := if moves then Evict(slots, slot, lookback) else slots, if moves then slot else highest;
    EvictSplits(slots, slot, lookback);
    assert k in kept;
    var floor := if top < lookback then 0 else top - lookback;
    if k < floor + limit {
      TrimSpares(kept, limit, floor, k);
    }
  }

  /** After a datagram, too, a live slot has handed out its runs. */
  lemma AdvanceLive(config: Config, s: History, slot: nat, n: SlotModel, fate: Fate, k: nat, g: Segment)
    requires Advances(config, s, slot, n) && Remembered(s, config, k)
    requires k in Advanced(config, s, slot, n, fate).window.slots
    ensures var t := Advanced(config, s, slot, n, fate); RawBatch(k, g) in t.out <==> g in Runs(t.window.slots[k].taken)
  {
    hide Advanced, Advance, Roomy, Runs, SlotInv, WindowInv, HighestIsMax;
    AdvanceSlots(config, s, slot, n, fate, k);
    assert SlotHistory(s, config.slotLookback, k);
    if k == slot {
      OldBatches(config, s, slot, n, g);
    }
  }

  /** And a slot that the trim has removed just now is stale for good or has handed out nothing. */
  lemma AdvanceTrimmed(config: Config, s: History, slot: nat, n: SlotModel, fate: Fate, k: nat, b: RawBatch)
    requires Advances(config, s, slot, n) && Roomy(config)
    requires k in Advance(config, s.window, slot, n, Completed(s, slot, n), fate).trimmed
    requires var t := Advanced(config, s, slot, n, fate);
             Wrap(k + config.slotLookback) >= t.window.highest && b in t.out
    ensures b.slot != k
  {
    hide Advanced, Advance, Advances, Wrap, Config.TrimLimit;
    AdvanceHighest(config, s, slot, n, fate);
    TrimmedIsFar(config, s, slot, n, fate, k);
    WrapIs(k + config.slotLookback);
  }

  /** Before the trim, a slot that is not there has been evicted or has handed out nothing. */
  lemma AdvanceAbsent(config: Config, s: History, slot: nat, n: SlotModel, fate: Fate, k: nat, b: RawBatch)
    requires Advances(config, s, slot, n) && Remembered(s, config, k) && k !in s.window.slots[slot := n]
    requires var t := Advanced(config, s, slot, n, fate);
             Wrap(k + config.slotLookback) >= t.window.highest && b in t.out
    ensures b.slot != k
  {
    hide Advanced, Advance, Roomy, Runs, SlotInv, WindowInv, HighestIsMax;
    AdvanceSlots(config, s, slot, n, fate, k);
    assert SlotHistory(s, config.slotLookback, k);
  }

  lemma AdvanceSlot(config: Config, s: History, slot: nat, n: SlotModel, fate: Fate, k: nat)
    requires Advances(config, s, slot, n) && Remembered(Advanced(config, s, slot, n, fate), config, k)
    ensures SlotHistory(Advanced(config, s, slot, n, fate), config.slotLookback, k)
  {
    hide Advanced, Advance, Advances, Roomy, Runs, Wrap;
    var t := Advanced(config, s, slot, n, fate);
    AdvanceSlots(config, s, slot, n, fate, k);
    if k in t.window.slots {
      forall g
        ensures RawBatch(k, g) in t.out <==> g in Runs(t.window.slots[k].taken)
      {
        AdvanceLive(config, s, slot, n, fate, k, g);
      }
    } else if Wrap(k + config.slotLookback) >= t.window.highest {
      forall b | b in t.out
        ensures b.slot != k
      {
        if k in s.window.slots[slot := n] {
          AdvanceTrimmed(config, s, slot, n, fate, k, b);
        } else {
          AdvanceAbsent(config, s, slot, n, fate, k, b);
        }
      }
    }
  }

  lemma AdvanceApart(config: Config, s: History, slot: nat, n: SlotModel, fate: Fate, b: RawBatch, b': RawBatch)
    requires Advances(config, s, slot, n)
    requires var t := Advanced(config, s, slot, n, fate); b in t.out && b' in t.out && Remembered(t, config, b.slot)
    ensures Apart(b, b')
  {
    hide Trim, Evict, SlotInv, HighestIsMax, SlotHistory, Runs;
    if b.slot == slot == b'.slot && b != b' {
      OldBatches(config, s, slot, n, b.segment);
      OldBatches(config, s, slot, n, b'.segment);
      assert b == RawBatch(slot, b.segment) && b' == RawBatch(slot, b'.segment);
      RunsDisjoint(n.taken, b.segment, b'.segment);
    } else if b.slot == b'.slot != slot {
      assert b in s.out && b' in s.out;
    }
  }

  lemma AdvanceKeeps(config: Config, s: History, slot: nat, n: SlotModel, fate: Fate)
    requires Advances(config, s, slot, n)
    ensures HistoryInv(Advanced(config, s, slot, n, fate), config)
  {
    hide Advanced, Advances, WindowInv, HighestIsMax, SlotHistory, Apart;
    AdvanceHighest(config, s, slot, n, fate);
    AdvanceWindow(config, s, slot, n, fate);
    var t := Advanced(config, s, slot, n, fate);
    forall k: nat | Remembered(t, config, k)
      ensures SlotHistory(t, config.slotLookback, k)
    {
      AdvanceSlot(config, s, slot, n, fate, k);
    }
    forall b, b' | b in t.out && b' in t.out && Remembered(t, config, b.slot)
      ensures Apart(b, b')
    {
      AdvanceApart(config, s, slot, n, fate, b, b');
    }
  }

  lemma InsertAdvances(h: Hasher, rs: Option<ReedSolomon>, config: Config, s: History, shred: Shred)
    requires HistoryInv(s, config) && Wrap(shred.slot + config.slotLookback) >= s.window.highest && InRange(shred)
    ensures SlotInv(SlotAt(s.window, shred.slot))
    ensures Advances(config, s, shred.slot, SlotInsert(h, rs, SlotAt(s.window, shred.slot), shred).0)
  {
    hide SlotInsert, SlotInv, HighestIsMax, SlotHistory, Apart;
    EmptySlotInv();
    var m := SlotAt(s.window, shred.slot);
    SlotInsertKeepsInv(h, rs, m, shred);
    RunsGrow(m.taken, SlotInsert(h, rs, m, shred).0.taken);
  }

  /** The slot of an admitted shred, after it. */
  ghost function Grown(h: Hasher, rs: ReedSolomon, config: Config, w: WindowModel, shred: Shred): (SlotModel, Outcome)
    requires WindowInv(w) && InRange(shred)
  {
    EmptySlotInv();
    SlotInsert(h, if config.recover then Some(rs) else None, SlotAt(w, shred.slot), shred)
  }

  /** A push of an admitted shred, in the terms of the lemmas above. */
  lemma PushAdmitted(h: Hasher, rs: ReedSolomon, config: Config, s: History, packet: Bytes)
    requires HistoryInv(s, config) && Fits(config, s.window.highest, packet)
    requires Admission(config, s.window.highest, packet).Ok?
    ensures var shred := Admission(config, s.window.highest, packet).value;
            var (n, outcome) := Grown(h, rs, config, s.window, shred);
            && Advances(config, s, shred.slot, n)
            && Push(h, rs, config, s.window, packet) ==
               Advance(config, s.window, shred.slot, n, Completed(s, shred.slot, n), Inserted(outcome))
  {
    hide SlotInsert, Parse, HandedOutOnce, HighestIsMax, SlotInv, Advance, Runs, HistoryInv;
    InvOf(s, config);
    var shred := Admission(config, s.window.highest, packet).value;
    InsertAdvances(h, if config.recover then Some(rs) else None, config, s, shred);
  }

  lemma InvOf(s: History, config: Config)
    requires HistoryInv(s, config)
    ensures WindowInv(s.window) && forall k :: k in s.window.slots ==> SlotInv(s.window.slots[k])
  {
  }

  /** A push of a refused datagram changes nothing. */
  lemma PushRefused(h: Hasher, rs: ReedSolomon, config: Config, s: History, packet: Bytes)
    requires WindowInv(s.window) && Admission(config, s.window.highest, packet).Err?
    ensures var step := Push(h, rs, config, s.window, packet);
            step.batches == {} && step.trimmed == {} && After(s, step) == s
  {
    hide Admission, WindowInv;
    assert s.out + {} == s.out && s.trimmed + {} == s.trimmed;
  }

  /** Every datagram keeps the window and emission invariant, and the high-water mark never falls. */
  lemma PushKeeps(h: Hasher, rs: ReedSolomon, config: Config, s: History, packet: Bytes)
    requires HistoryInv(s, config) && Fits(config, s.window.highest, packet)
    ensures HistoryInv(After(s, Push(h, rs, config, s.window, packet)), config)
    ensures Push(h, rs, config, s.window, packet).window.highest >= s.window.highest
  {
    hide Push, Grown, Advance, Advances, Admission, HistoryInv;
    InvOf(s, config);
    var a := Admission(config, s.window.highest, packet);
    if a.Ok? {
      PushAdmitted(h, rs, config, s, packet);
      var (n, outcome) := Grown(h, rs, config, s.window, a.value);
      AdvanceKeeps(config, s, a.value.slot, n, Inserted(outcome));
      AdvanceHighest(config, s, a.value.slot, n, Inserted(outcome));
    } else {
      PushRefused(h, rs, config, s, packet);
    }
  }

  const NEW_HISTORY := History(NEW_WINDOW, {}, {})

  lemma OkFits(config: Config, highest: nat, packet: Bytes)
    requires PacketOk(packet)
    ensures Fits(config, highest, packet)
  {
  }

  ghost function Next(h: Hasher, rs: ReedSolomon, config: Config, s: History, packet: Bytes): (t: History)
    requires HistoryInv(s, config) && PacketOk(packet)
    ensures HistoryInv(t, config) && t.window.highest >= s.window.highest
  {
    OkFits(config, s.window.highest, packet);
    PushKeeps(h, rs, config, s, packet);
    After(s, Push(h, rs, config, s.window, packet))
  }

  /** Everything after a sequence of datagrams. */
  ghost function PushAll(h: Hasher, rs: ReedSolomon, config: Config, packets: seq<Bytes>): (s: History)
    requires forall p :: p in packets ==> PacketOk(p)
    ensures HistoryInv(s, config)
    decreases |packets|
  {
    if packets == [] then NEW_HISTORY
    else
      var last := |packets| - 1;
      assert packets[last] in packets;
      Next(h, rs, config, PushAll(h, rs, config, packets[..last]), packets[last])
  }

  ghost function FateOf(h: Hasher, rs: ReedSolomon, config: Config, s: History, packet: Bytes): (Fate, nat)
    requires HistoryInv(s, config) && PacketOk(packet)
  {
    OkFits(config, s.window.highest, packet);
    var step := Push(h, rs, config, s.window, packet);
    (step.fate, |step.batches|)
  }

  /** What became of each datagram of a run, with the number of batches it completed. */
  ghost function FatesOf(h: Hasher, rs: ReedSolomon, config: Config, packets: seq<Bytes>): (r: seq<(Fate, nat)>)
    requires forall p :: p in packets ==> PacketOk(p)
    ensures |r| == |packets|
    decreases |packets|
  {
    if packets == [] then []
    else
      var last := |packets| - 1;
      assert packets[last] in packets;
      FatesOf(h, rs, config, packets[..last]) +
      [FateOf(h, rs, config, PushAll(h, rs, config, packets[..last]), packets[last])]
  }

  /**
   * At most once, over a whole run: two batches with the same slot number have disjoint shred ranges, in every run of a
   * roomy configuration, and in every other for the slots the trim never removed.
   */
  lemma AtMostOnce(h: Hasher, rs: ReedSolomon, config: Config, packets: seq<Bytes>, b: RawBatch, b': RawBatch)
    requires forall p :: p in packets ==> PacketOk(p)
    requires var s := PushAll(h, rs, config, packets);
             b in s.out && b' in s.out && b != b' && b.slot == b'.slot && Remembered(s, config, b.slot)
    ensures b.segment.end < b'.segment.start || b'.segment.end < b.segment.start
  {
    hide PushAll, PacketOk;
    assert Apart(b, b');
  }

  /** Nothing is handed out again: the batches of one datagram are new. */
  lemma NothingTwice(h: Hasher, rs: ReedSolomon, config: Config, s: History, packet: Bytes, b: RawBatch)
    requires HistoryInv(s, config) && Fits(config, s.window.highest, packet)
    requires b in Push(h, rs, config, s.window, packet).batches && Remembered(s, config, b.slot)
    ensures b !in s.out
  {
    hide Push, Grown, Admission, HistoryInv, Runs, Trim, Evict;
    InvOf(s, config);
    var a := Admission(config, s.window.highest, packet);
    if a.Ok? {
      PushAdmitted(h, rs, config, s, packet);
      var n := Grown(h, rs, config, s.window, a.value).0;
      OldBatches(config, s, a.value.slot, n, b.segment);
      assert b == RawBatch(a.value.slot, b.segment);
    } else {
      PushRefused(h, rs, config, s, packet);
    }
  }

  lemma {:induction false} HighestGrows(h: Hasher, rs: ReedSolomon, config: Config, packets: seq<Bytes>,
                                        more: seq<Bytes>)
    requires forall p :: p in packets + more ==> PacketOk(p)
    requires forall p :: p in packets ==> PacketOk(p)
    ensures PushAll(h, rs, config, packets + more).window.highest >= PushAll(h, rs, config, packets).window.highest
    decreases |more|
  {
    hide Next, HistoryInv, PacketOk;
    if more == [] {
      assert packets + more == packets;
    } else {
      var last := |more| - 1;
      var all := packets + more;
      assert all[..|all| - 1] == packets + more[..last];
      assert all[|all| - 1] in all;
      HighestGrows(h, rs, config, packets, more[..last]);
    }
  }

  /** A slot that has fallen out of the window is never admitted again, whatever arrives later, and is not live. */
  lemma EvictedForGood(h: Hasher, rs: ReedSolomon, config: Config, packets: seq<Bytes>, more: seq<Bytes>, k: nat)
    requires forall p :: p in packets + more ==> PacketOk(p)
    requires forall p :: p in packets ==> PacketOk(p)
    requires Wrap(k + config.slotLookback) < PushAll(h, rs, config, packets).window.highest
    ensures forall p :: Parse(p).Ok? && Parse(p).value.slot == k ==>
                          Admission(config, PushAll(h, rs, config, packets + more).window.highest, p).Err?
    ensures k + config.slotLookback < U64_LIMIT ==> k !in PushAll(h, rs, config, packets + more).window.slots
  {
    hide PushAll, Parse, PacketOk, Wrap, Roomy, HandedOutOnce, HighestIsMax, WindowInv;
    WrapIs(k + config.slotLookback);
    HighestGrows(h, rs, config, packets, more);
  }

  /**
   * The capacity trim only ever removes slots at least its limit above the lower end of the window: three lookbacks
   * above the high-water mark, unless the limit has wrapped around.
   */
  lemma TrimIsFar(h: Hasher, rs: ReedSolomon, config: Config, s: History, packet: Bytes, k: nat)
    requires HistoryInv(s, config) && Fits(config, s.window.highest, packet)
    requires k in Push(h, rs, config, s.window, packet).trimmed
    ensures k >= config.TrimLimit()
    ensures k + config.slotLookback >= Push(h, rs, config, s.window, packet).window.highest + config.TrimLimit()
    ensures 4 * config.slotLookback < U64_LIMIT ==>
            k >= Push(h, rs, config, s.window, packet).window.highest + 3 * config.slotLookback
  {
    hide Push, Grown, Admission, HistoryInv, Advance, Advances;
    InvOf(s, config);
    var a := Admission(config, s.window.highest, packet);
    if a.Ok? {
      PushAdmitted(h, rs, config, s, packet);
      var (n, outcome) := Grown(h, rs, config, s.window, a.value);
      TrimmedIsFar(config, s, a.value.slot, n, Inserted(outcome), k);
    } else {
      PushRefused(h, rs, config, s, packet);
    }
  }

  /**
   * A slot that has handed out a batch stays live until it is stale for good: the capacity trim makes no room for a
   * repetition.
   */
  lemma HandedOutStaysLive(h: Hasher, rs: ReedSolomon, config: Config, packets: seq<Bytes>, b: RawBatch)
    requires forall p :: p in packets ==> PacketOk(p)
    requires b in PushAll(h, rs, config, packets).out && Remembered(PushAll(h, rs, config, packets), config, b.slot)
    ensures var w := PushAll(h, rs, config, packets).window;
            b.slot in w.slots || Wrap(b.slot + config.slotLookback) < w.highest
  {
    hide PushAll, PacketOk, Runs, Wrap, Roomy, HighestIsMax, WindowInv, Apart;
    assert SlotHistory(PushAll(h, rs, config, packets), config.slotLookback, b.slot);
  }
}
