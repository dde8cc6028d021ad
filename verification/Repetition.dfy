/** Exactly when nothing is ever handed out twice: whenever the capacity trim has room for the whole lookback. */
module Repetition {
  import opened Wire
  import opened Merkle
  import opened Shreds
  import opened Fec
  import opened Segments
  import opened SlotSpec
  import opened Delivery
  import opened Window
  import opened Datagrams

  /** After the run `packets`, the datagram `packet` hands out nothing that was handed out before. */
  ghost predicate AllNew(h: Hasher, rs: ReedSolomon, config: Config, packets: seq<Bytes>, packet: Bytes)
    requires (forall p :: p in packets ==> PacketOk(p)) && PacketOk(packet)
  {
    var s := PushAll(h, rs, config, packets);
    Push(h, rs, config, s.window, packet).batches !! s.out
  }

  /** That holds for every run and every further datagram. */
  ghost predicate NeverRepeats(h: Hasher, rs: ReedSolomon, config: Config) {
    forall packets, packet :: (forall p :: p in packets ==> PacketOk(p)) && PacketOk(packet) ==>
        AllNew(h, rs, config, packets, packet)
  }

  // ---- what the two datagrams do to an empty slot

  /** An empty slot accepts the data shred and hands it out at once. */
  lemma DataStep(h: Hasher, code: Option<ReedSolomon>, x: Shred)
    requires x.Wf() && x.IsData() && x.Position() == 0 && x.proofSize == 0
    ensures FecInv(NEW_SET)
    ensures var step := StepSet(h, code, NEW_SET, x); step.verdict.New? && step.fec.data == Empty()[0 := Some(x)]
  {
    hide StepSet, Leaf;
    NewSetOk(0);
    EmptyFilled();
    StepSetParts(h, code, NEW_SET, x);
    assert x.MerkleProof() == [];
    assert Verdict(h, NEW_SET, x).New?;
    var n := WithShred(h, NEW_SET, x);
    assert n.data[1].None? && n.code == Empty();
  }

  lemma DataBatch(h: Hasher, code: Option<ReedSolomon>, x: Shred)
    requires InRange(x) && x.IsData() && x.index == x.fecSetIndex == 0 && x.proofSize == 0 && x.DataComplete()
    ensures SlotInv(NEW_SLOT) && Runs(NEW_SLOT.taken) == {} && Runs(SlotInsert(h, code, NEW_SLOT, x).0.taken) != {}
  {
    hide StepSet;
    EmptySlotInv();
    DataStep(h, code, x);
    var taken := SlotInsert(h, code, NEW_SLOT, x).0.taken;
    assert 0 in FreshOf(StepSet(h, code, NEW_SET, x), x);
    assert taken[0] == x;
    assert IsRun(taken, 0, 0);
    assert SegmentOf(taken, 0, 0) in Runs(taken);
  }

  /** A code shred without proof entries is refused; all it does is create its slot. */
  lemma CodeBatch(h: Hasher, code: Option<ReedSolomon>, x: Shred)
    requires InRange(x) && !x.IsData() && x.proofSize == 0
    ensures SlotInv(NEW_SLOT) && Runs(NEW_SLOT.taken) == {} && Runs(SlotInsert(h, code, NEW_SLOT, x).0.taken) == {}
  {
    hide StepSet, Runs;
    EmptySlotInv();
    NewSetOk(0);
    NewSetOk(x.fecSetIndex);
    StepSetParts(h, code, NEW_SET, x);
    assert x.MerkleProof() == [];
    assert !Verdict(h, NEW_SET, x).New?;
    assert SlotInsert(h, code, NEW_SLOT, x).0.taken == map[];
  }

  // ---- a run that the trim makes the deshredder forget

  /** One code shred for each of the first `n` slots. */
  function Fillers(version: u16, n: nat): (r: seq<Bytes>)
    ensures |r| == n
  {
    if n == 0 then [] else Fillers(version, n - 1) + [CodePacket(n - 1, version, 0)]
  }

  ghost predicate FilledUpTo(s: History, n: nat) {
    s.window.highest == 0 && s.out == {} && s.window.slots.Keys == Range(0, n)
  }

  lemma NotYet(s: History, n: nat)
    requires FilledUpTo(s, n)
    ensures n !in s.window.slots
  {
    assert n !in s.window.slots.Keys;
  }

  predicate Takes(config: Config, version: u16) {
    config.shredVersion.None? || config.shredVersion == Some(version)
  }

  lemma FillerPush(h: Hasher, rs: ReedSolomon, config: Config, version: u16, s: History, n: nat)
    requires HistoryInv(s, config) && FilledUpTo(s, n) && Takes(config, version) && n < config.TrimLimit()
    ensures PacketOk(CodePacket(n, version, 0)) && FilledUpTo(Next(h, rs, config, s, CodePacket(n, version, 0)), n + 1)
  {
    hide CodePacket, HistoryInv, Push, Grown, Advances, Advance, Runs, InRange, Parse, Trim, Evict, Admission, Wrap,
         Config.TrimLimit, Completed;
    var packet, x := CodePacket(n, version, 0), CodeShred(n, version, 0);
    CodeParses(n, version, 0);
    CodeInRange(n, version);
    Admitted(config, version, s.window.highest, packet, x);
    InvOf(s, config);
    PushAdmitted(h, rs, config, s, packet);
    GrownNew(h, rs, config, s.window, x);
    CodeBatch(h, if config.recover then Some(rs) else None, x);
    var (m, outcome) := Grown(h, rs, config, s.window, x);
    CompletedByNew(s, n, m);
    AdvanceFills(config, s, n, m, Inserted(outcome));
  }

  lemma AdvanceFills(config: Config, s: History, n: nat, m: SlotModel, fate: Fate)
    requires FilledUpTo(s, n) && n < config.TrimLimit() && Completed(s, n, m) == {}
    ensures FilledUpTo(Advanced(config, s, n, m, fate), n + 1)
  {
    hide Runs, Trim, Evict, Completed, Config.TrimLimit;
    var inserted := s.window.slots[n := m];
    assert inserted.Keys == Range(0, n + 1);
    TrimKeepsSmallest(inserted, config.TrimLimit());
    SubsetSize(Trim(inserted, config.TrimLimit()).Keys, inserted.Keys);
  }

  lemma CodeInRange(slot: nat, version: nat)
    requires CodeShred(slot, version, 0).Wf()
    ensures InRange(CodeShred(slot, version, 0))
  {
    hide CodePacket;
  }

  lemma GrownNew(h: Hasher, rs: ReedSolomon, config: Config, w: WindowModel, x: Shred)
    requires WindowInv(w) && InRange(x) && x.slot !in w.slots
    ensures SlotInv(NEW_SLOT)
    ensures Grown(h, rs, config, w, x) == SlotInsert(h, if config.recover then Some(rs) else None, NEW_SLOT, x)
  {
    hide SlotInsert, SlotInv, InRange;
    EmptySlotInv();
  }

  lemma {:induction false} FillersRun(h: Hasher, rs: ReedSolomon, config: Config, version: u16, n: nat)
    requires Takes(config, version) && n <= config.TrimLimit()
    ensures forall p :: p in Fillers(version, n) ==> PacketOk(p)
    ensures FilledUpTo(PushAll(h, rs, config, Fillers(version, n)), n)
  {
    hide PacketOk, HistoryInv, Next, CodePacket;
    if n > 0 {
      FillersRun(h, rs, config, version, n - 1);
      var before, all := Fillers(version, n - 1), Fillers(version, n);
      FillerPush(h, rs, config, version, PushAll(h, rs, config, before), n - 1);
      assert all[..|all| - 1] == before && all[|all| - 1] == CodePacket(n - 1, version, 0);
    }
  }

  /**
   * The data shred of slot `n`, once all smaller slots are live and fill the trim's limit: handed out, and forgotten.
   */
  lemma ForgottenPush(h: Hasher, rs: ReedSolomon, config: Config, version: u16, s: History)
    requires HistoryInv(s, config) && FilledUpTo(s, config.TrimLimit()) && Takes(config, version) && !Roomy(config)
    ensures var n := config.TrimLimit();
            var packet := DataPacket(n, version);
            && PacketOk(packet)
            && var t := Next(h, rs, config, s, packet);
               t.out == Push(h, rs, config, s.window, packet).batches != {} && n !in t.window.slots &&
               t.window.highest == n
  {
    hide DataPacket, DataShred, HistoryInv, Push, Grown, Advances, Advance, Runs, InRange, Parse, Roomy, Admission,
         Wrap, Config.TrimLimit, Completed, SlotInsert, Range;
    var n := config.TrimLimit();
    var packet, x := DataPacket(n, version), DataShred(n, version);
    DataParses(n, version);
    DataShape(n, version);
    NotYet(s, n);
    Admitted(config, version, s.window.highest, packet, x);
    InvOf(s, config);
    PushAdmitted(h, rs, config, s, packet);
    GrownNew(h, rs, config, s.window, x);
    DataBatch(h, if config.recover then Some(rs) else None, x);
    var (m, outcome) := Grown(h, rs, config, s.window, x);
    assert Completed(s, n, m) != {} by { CompletedByNew(s, n, m); }
    AdvanceForgets(config, s, m, Inserted(outcome));
  }

  lemma CompletedByNew(s: History, slot: nat, m: SlotModel)
    requires slot !in s.window.slots && Runs(NEW_SLOT.taken) == {}
    ensures Completed(s, slot, m) == Runs(m.taken)
  {
    hide Runs;
  }

  lemma AdvanceForgets(config: Config, s: History, m: SlotModel, fate: Fate)
    requires FilledUpTo(s, config.TrimLimit()) && !Roomy(config) && Completed(s, config.TrimLimit(), m) != {}
    ensures var n := config.TrimLimit();
            var step := Advance(config, s.window, n, m, Completed(s, n, m), fate);
            step.batches != {} && n !in step.window.slots && step.window.highest == n
  {
    hide Runs, Trim, Evict, Completed, Wrap, Config.TrimLimit;
    var n := config.TrimLimit();
    var g :| g in Completed(s, n, m);
    assert RawBatch(n, g) in BatchesOf(n, Completed(s, n, m));
    var inserted := s.window.slots[n := m];
    assert inserted.Keys == Range(0, n + 1);
    DroppedLast(inserted, config.slotLookback, n);
  }

  /** All slots up to the limit are in the window, and the newest of them is the one too many. */
  lemma DroppedLast<T>(slots: map<nat, T>, lookback: u64, n: nat)
    requires n <= lookback && slots.Keys == Range(0, n + 1)
    ensures Evict(slots, n, lookback) == slots && n !in Trim(slots, n)
  {
    hide Trim, Evict, Wrap, Range, MinKey;
    AllReach(slots, lookback, n);
    OneTooMany(slots, n);
  }

  lemma AllReach<T>(slots: map<nat, T>, lookback: u64, n: nat)
    requires n <= lookback && slots.Keys == Range(0, n + 1)
    ensures Evict(slots, n, lookback) == slots
  {
    hide Evict, Wrap, MinKey;
    assert 0 in slots.Keys && MinKey(slots.Keys) == 0;
    WrapIs(0 + lookback);
    EvictOnce(slots, n, lookback);
  }

  lemma OneTooMany<T>(slots: map<nat, T>, n: nat)
    requires slots.Keys == Range(0, n + 1)
    ensures n !in Trim(slots, n)
  {
    hide Trim, Range;
    TrimKeepsSmallest(slots, n);
    var kept := Trim(slots, n);
    if n in kept {
      forall j | j in slots.Keys
        ensures j in kept.Keys
      {
        assert j in slots && j <= n;
      }
      SubsetSize(slots.Keys, kept.Keys);
    }
  }

  lemma Admitted(config: Config, version: u16, highest: nat, packet: Bytes, x: Shred)
    requires Parse(packet) == Ok(x) && x.version == version && Takes(config, version)
    requires Wrap(x.slot + config.slotLookback) >= highest
    ensures Admission(config, highest, packet) == Ok(x)
  {
    hide Parse, Wrap;
  }

  /** The data shred again: its slot starts afresh and hands out the same batch. */
  lemma SecondPush(h: Hasher, rs: ReedSolomon, config: Config, version: u16, s: History, t: History, n: nat)
    requires HistoryInv(s, config) && HistoryInv(t, config) && Takes(config, version)
    requires n + config.slotLookback < U64_LIMIT
    requires n !in s.window.slots && n !in t.window.slots && s.window.highest <= n && t.window.highest <= n
    ensures PacketOk(DataPacket(n, version))
    ensures Push(h, rs, config, s.window, DataPacket(n, version)).batches ==
            Push(h, rs, config, t.window, DataPacket(n, version)).batches
  {
    hide DataPacket, DataShred, HistoryInv, Push, Grown, Advances, Runs, InRange, Parse, Trim, Evict, Admission, Wrap,
         Config.TrimLimit, SlotInsert;
    DataParses(n, version);
    DataShape(n, version);
    WrapIs(n + config.slotLookback);
    Admitted(config, version, s.window.highest, DataPacket(n, version), DataShred(n, version));
    Admitted(config, version, t.window.highest, DataPacket(n, version), DataShred(n, version));
    InvOf(s, config);
    InvOf(t, config);
    PushAdmitted(h, rs, config, s, DataPacket(n, version));
    PushAdmitted(h, rs, config, t, DataPacket(n, version));
    GrownNew(h, rs, config, s.window, DataShred(n, version));
    GrownNew(h, rs, config, t.window, DataShred(n, version));
  }

  /**
   * Without room, a run hands out the same batch a second time: fill the limit, complete the next slot, complete it
   * again.
   */
  lemma CrampedRepeats(h: Hasher, rs: ReedSolomon, config: Config, version: u16)
    requires !Roomy(config) && Takes(config, version)
    ensures var n := config.TrimLimit();
            var run, packet := Fillers(version, n) + [DataPacket(n, version)], DataPacket(n, version);
            && (forall p :: p in run ==> PacketOk(p)) && PacketOk(packet)
            && !AllNew(h, rs, config, run, packet)
  {
    hide DataPacket, Fillers, PacketOk, Push, HistoryInv, Next;
    var n := config.TrimLimit();
    var fill, packet := Fillers(version, n), DataPacket(n, version);
    var run := fill + [packet];
    FillersRun(h, rs, config, version, n);
    var s := PushAll(h, rs, config, fill);
    ForgottenPush(h, rs, config, version, s);
    assert run[..|run| - 1] == fill && run[|run| - 1] == packet;
    var t := PushAll(h, rs, config, run);
    SecondPush(h, rs, config, version, s, t, n);
  }

  lemma RoomyIsNew(h: Hasher, rs: ReedSolomon, config: Config, packets: seq<Bytes>, packet: Bytes)
    requires Roomy(config) && (forall p :: p in packets ==> PacketOk(p)) && PacketOk(packet)
    ensures AllNew(h, rs, config, packets, packet)
  {
    hide Push, PushAll, PacketOk, Fits, HistoryInv;
    var s := PushAll(h, rs, config, packets);
    InvOf(s, config);
    OkFits(config, s.window.highest, packet);
    forall b | b in Push(h, rs, config, s.window, packet).batches
      ensures b !in s.out
    {
      NothingTwice(h, rs, config, s, packet, b);
    }
  }

  /** Nothing is handed out twice, in any run, if and only if the configuration is roomy. */
  lemma NeverRepeatsIff(h: Hasher, rs: ReedSolomon, config: Config)
    ensures NeverRepeats(h, rs, config) <==> Roomy(config)
  {
    hide AllNew, PacketOk, DataPacket, Fillers, Roomy;
    if Roomy(config) {
      forall packets, packet | (forall p :: p in packets ==> PacketOk(p)) && PacketOk(packet)
        ensures AllNew(h, rs, config, packets, packet)
      {
        RoomyIsNew(h, rs, config, packets, packet);
      }
    } else {
      var version: u16 := if config.shredVersion.Some? then config.shredVersion.value else 0;
      CrampedRepeats(h, rs, config, version);
    }
  }

  /** In numbers: up to 2^62 - 1 every lookback but zero is roomy; at 2^62 the limit wraps around to zero. */
  lemma RoomyInNumbers(config: Config)
    ensures 4 * config.slotLookback < U64_LIMIT ==> (Roomy(config) <==> config.slotLookback > 0)
    ensures config.slotLookback == 0x4000_0000_0000_0000 ==> !Roomy(config)
  {
  }
}
