/** Which answer is given when, and what the counters count, written as tables next to the code that decides it. */
module Tables {
  import opened Wire
  import opened Merkle
  import opened Shreds
  import opened WireFormat
  import opened Fec
  import opened Segments
  import opened SlotSpec
  import opened Counters
  import opened SlotAssembly
  import opened Window
  import opened Deshredding

  // ---- admission

  /** The three refusals, on the numbers of the datagram. */
  lemma AdmissionTable(config: Config, highest: nat, b: Bytes)
    ensures var a := Admission(config, highest, b);
            var legal := DataLegal(b) || CodeLegal(b);
            var wanted := legal && (config.shredVersion.Some? ==> config.shredVersion.value as nat == Le2(b, 77));
            var end := if legal then Le8(b, 65) + config.slotLookback else 0;
            var reached := if end >= 0x1_0000_0000_0000_0000 then end - 0x1_0000_0000_0000_0000 else end;
            && (a == Err(Invalid) <==> !legal)
            && (a == Err(WrongVersion) <==> legal && !wanted)
            && (a == Err(Stale) <==> wanted && reached < highest)
            && (a.Ok? <==> wanted && reached >= highest)
            && (a.Ok? ==> Parse(b) == Ok(a.value))
  {
    hide Parse, DataLegal, CodeLegal, Le2, Le4, Le8, Wrap;
    ParseDataIff(b);
    ParseCodeIff(b);
    if Parse(b).Ok? {
      var s := Parse(b).value;
      SlotIs64(b);
      WrapIs(s.slot + config.slotLookback);
    }
  }

  // ---- the slot and its FEC set

  /** The shred has been seen: its index was handed over, or its place in the set is taken. */
  ghost predicate Known(m: SlotModel, shred: Shred)
    requires SlotInv(m) && InRange(shred)
  {
    var f := shred.fecSetIndex;
    SetAtOk(m, f);
    match shred.header
    case DataHeader(_, _, _) => shred.index in m.taken || SetAt(m, f).data[shred.index - f].Some?
    case CodeHeader(position) => SetAt(m, f).code[position].Some?
  }

  /** A code shred that cannot help any more: all 32 data shreds of its set are there, or have been there and gone. */
  ghost predicate Late(m: SlotModel, shred: Shred) {
    var f := shred.fecSetIndex;
    && shred.kind.Code?
    && ((forall i :: f <= i < f + 32 ==> InRun(m.taken, i)) || forall x :: x in SetAt(m, f).data ==> x.Some?)
  }

  /** Exactly when each answer is given; being late comes before being known, and both before the proof. */
  lemma OutcomeTable(h: Hasher, rs: Option<ReedSolomon>, m: SlotModel, shred: Shred)
    requires SlotInv(m) && InRange(shred)
    ensures var o := SlotInsert(h, rs, m, shred).1;
            var s := SetAt(m, shred.fecSetIndex);
            var open := !Late(m, shred) && !Known(m, shred);
            var proven := open && shred.Position() < Pow2(shred.proofSize);
            var rooted := proven && (s.root.Some? ==> shred.MerkleRoot(h) == s.root);
            && (o == NotNeeded <==> Late(m, shred))
            && (o == Duplicated <==> !Late(m, shred) && Known(m, shred))
            && (o == Refused(BadProof) <==> open && !proven)
            && (o == Refused(MerkleRootMismatch) <==> proven && !rooted)
            && (o == Refused(SignatureMismatch) <==> rooted && s.root.Some? && s.signature != shred.Signature())
            && (o.Accepted? <==> rooted && (s.root.Some? ==> s.signature == shred.Signature()))
  {
    hide StepSet, OutcomeOf, Absorb, SlotInv, FecInv, RootFromProof, Shred.Signature, Shred.Position;
    var f := shred.fecSetIndex;
    SetAtOk(m, f);
    FecShape(SetAt(m, f));
    NewSetOk(f);
    ProofReach(h, shred);
    LateIs(m, shred);
    KnownIs(m, shred);
    if !Superfluous(m, shred) {
      VerdictDecides(h, rs, SetAt(m, f), shred);
    }
  }

  lemma ProofReach(h: Hasher, shred: Shred)
    requires shred.Wf()
    ensures shred.MerkleRoot(h).Some? <==> shred.Position() < Pow2(shred.proofSize)
  {
    WalkSucceedsIff(h, shred.Position(), Leaf(h, shred.LeafBytes()), shred.MerkleProof());
  }

  lemma LateIs(m: SlotModel, shred: Shred)
    requires SlotInv(m) && InRange(shred)
    ensures Late(m, shred) <==>
            !shred.IsData() && (SetIn(Consumed(m.taken), shred.fecSetIndex) || Full(SetAt(m, shred.fecSetIndex).data))
  {
    hide SlotInv, InRun;
    var data := SetAt(m, shred.fecSetIndex).data;
    assert (forall x :: x in data ==> x.Some?) <==> Full(data) by {
      assert forall p :: 0 <= p < |data| ==> data[p] in data;
    }
  }

  lemma KnownIs(m: SlotModel, shred: Shred)
    requires SlotInv(m) && InRange(shred)
    ensures FecInv(SetAt(m, shred.fecSetIndex))
    ensures Known(m, shred) <==>
            (shred.IsData() && shred.index in m.taken) || SlotOf(SetAt(m, shred.fecSetIndex), shred).Some?
  {
    hide SlotInv, FecInv;
    SetAtOk(m, shred.fecSetIndex);
    FecShape(SetAt(m, shred.fecSetIndex));
  }

  lemma VerdictDecides(h: Hasher, rs: Option<ReedSolomon>, m: FecModel, shred: Shred)
    requires FecInv(m) && shred.Wf()
    ensures var o := OutcomeOf(StepSet(h, rs, m, shred), shred);
            match Verdict(h, m, shred)
            case New => o.Accepted?
            case Duplicate => o == Duplicated
            case Unneeded => o == NotNeeded
            case Rejected(why) => o == Refused(why)
  {
    hide FecInv, FecRecover, CanRecover, WithShred, Verdict;
    FecShape(m);
    FecInsertKeepsInv(h, m, shred);
  }

  /** What an accepted shred reports: the data shreds that became available besides itself, or a failed recovery. */
  lemma AcceptedReports(h: Hasher, rs: Option<ReedSolomon>, m: SlotModel, shred: Shred)
    requires SlotInv(m) && InRange(shred) && SlotInsert(h, rs, m, shred).1.Accepted?
    ensures var (n, o) := SlotInsert(h, rs, m, shred);
            && (o.isData <==> shred.kind.Data?)
            && |n.taken| == |m.taken| + o.recovered + (if shred.kind.Data? then 1 else 0)
            && (rs.None? || o.failed ==> o.recovered == 0) && (rs.None? ==> !o.failed)
  {
    hide SlotInv, FecInv, FecInsert, FecRecover, CanRecover, Absorb, Superfluous;
    SlotInsertConserves(h, rs, m, shred);
    NewSetOk(shred.fecSetIndex);
    SetAtOk(m, shred.fecSetIndex);
  }

  // ---- the template and the rebuilt shred

  /** Recovery copies from the first code shred there is. */
  lemma TemplateIsFirst(m: FecModel, p: nat)
    requires Recoverable(m) && p < 32 && m.code[p].Some? && forall q :: 0 <= q < p ==> m.code[q].None?
    ensures Some(TemplateOf(m)) == m.code[p]
  {
    FilledAt(m.code, p);
    FirstSomeFront(m.code, m.data);
    FirstSomeAt(m.code, p);
  }

  lemma {:induction false} FirstSomeAt(s: Slots, p: nat)
    requires p < |s| && s[p].Some? && forall q :: 0 <= q < p ==> s[q].None?
    ensures FirstSome(s) == s[p]
  {
    if p > 0 {
      FirstSomeAt(s[1..], p - 1);
    }
  }

  /**
   * A shard gives a shred exactly when the bytes put together are a legal data shred with the numbers of the template
   * and the wanted index.
   */
  lemma RebuiltIff(template: Shred, signature: Bytes, shard: Bytes, position: nat)
    requires template.Wf() && |signature| == 64 && |shard| == |template.ErasureShard()| && position < 32
    ensures var r, b := RebuildShred(template, signature, shard, position), RebuildBytes(template, signature, shard);
            && (r.Ok? <==>
                && DataLegal(b) && Le8(b, 65) == template.slot && Le4(b, 73) == template.fecSetIndex + position
                && Le4(b, 79) == template.fecSetIndex && Le2(b, 77) == template.version)
            && (r.Ok? ==> Parse(b) == Ok(r.value))
            && (r.Err? && r.error.InvalidShred? <==> !DataLegal(b) && !CodeLegal(b))
            && (r.Err? && !r.error.InvalidShred? ==> r.error == WrongHeaders(template.fecSetIndex + position))
  {
    hide Parse, DataLegal, CodeLegal, Le2, Le4, Le8, RebuildBytes, Shred.ErasureShard;
    var b := RebuildBytes(template, signature, shard);
    ParseDataIff(b);
    ParseCodeIff(b);
  }

  // ---- the trim

  /**
   * Four lookbacks of slots, as a 64-bit product, is the bound after every datagram; a datagram costs at most one slot,
   * the newest there is, and only when the bound is reached.
   */
  lemma TrimToFour(h: Hasher, rs: ReedSolomon, config: Config, s: History, packet: Bytes)
    requires HistoryInv(s, config) && Fits(config, s.window.highest, packet)
    ensures var step := Push(h, rs, config, s.window, packet);
            var bound := (4 * config.slotLookback) % 0x1_0000_0000_0000_0000;
            && |step.window.slots| <= bound && |step.trimmed| <= 1
            && (step.trimmed != {} ==> |step.window.slots| == bound)
            && forall k, j :: k in step.window.slots && j in step.trimmed ==> k < j
  {
    hide Push, Grown, Admission, HistoryInv, Advance, Advances;
    InvOf(s, config);
    InvBound(s, config);
    var a := Admission(config, s.window.highest, packet);
    if a.Ok? {
      PushAdmitted(h, rs, config, s, packet);
      var (n, outcome) := Grown(h, rs, config, s.window, a.value);
      AdvanceTrims(config, s.window, a.value.slot, n, Completed(s, a.value.slot, n), Inserted(outcome));
    } else {
      PushRefused(h, rs, config, s, packet);
      RefusedWindow(h, rs, config, s, packet);
    }
  }

  lemma InvBound(s: History, config: Config)
    requires HistoryInv(s, config)
    ensures |s.window.slots.Keys| <= config.TrimLimit() == (4 * config.slotLookback) % 0x1_0000_0000_0000_0000
  {
    hide HandedOutOnce, HighestIsMax, WindowInv;
  }

  lemma RefusedWindow(h: Hasher, rs: ReedSolomon, config: Config, s: History, packet: Bytes)
    requires WindowInv(s.window) && Admission(config, s.window.highest, packet).Err?
    ensures Push(h, rs, config, s.window, packet).window == s.window
  {
    hide Admission, WindowInv;
  }

  lemma AdvanceTrims(config: Config, w: WindowModel, slot: nat, n: SlotModel, completed: set<Segment>, fate: Fate)
    requires |w.slots.Keys| <= config.TrimLimit()
    ensures var step := Advance(config, w, slot, n, completed, fate);
            && |step.window.slots.Keys| <= config.TrimLimit() && |step.trimmed| <= 1
            && (step.trimmed != {} ==> |step.window.slots.Keys| == config.TrimLimit())
            && forall k, j :: k in step.window.slots && j in step.trimmed ==> k < j
  {
    hide Trim, Evict, Config.TrimLimit, BatchesOf;
    var inserted := w.slots[slot := n];
    assert inserted.Keys == w.slots.Keys + {slot};
    var kept := if completed != {} && slot > w.highest then Evict(inserted, slot, config.slotLookback) else inserted;
    EvictSub(inserted, slot, config.slotLookback);
    SubsetSize(kept.Keys, inserted.Keys);
    TrimsOne(kept, config.TrimLimit());
  }

  lemma TrimsOne<T>(slots: map<nat, T>, limit: nat)
    requires |slots.Keys| <= limit + 1
    ensures var bounded := Trim(slots, limit);
            var trimmed := slots.Keys - bounded.Keys;
            && |bounded.Keys| <= limit && |trimmed| <= 1 && (trimmed != {} ==> |bounded.Keys| == limit)
            && forall k, j :: k in bounded && j in trimmed ==> k < j
  {
    hide Trim;
    TrimKeepsSmallest(slots, limit);
    Complement(slots.Keys, Trim(slots, limit).Keys);
  }

  lemma Complement(all: set<nat>, part: set<nat>)
    requires part <= all
    ensures |all - part| == |all| - |part|
  {
  }

  // ---- the counters

  /** The datagrams of a run whose fate is of one kind. */
  ghost function With(fates: seq<(Fate, nat)>, kind: Fate -> bool): set<nat> {
    set i: nat | i < |fates| && kind(fates[i].0)
  }

  lemma WithNext(fates: seq<(Fate, nat)>, kind: Fate -> bool)
    requires fates != []
    ensures |With(fates, kind)| == |With(fates[..|fates| - 1], kind)| + if kind(fates[|fates| - 1].0) then 1 else 0
  {
    var last := |fates| - 1;
    var before := With(fates[..last], kind);
    if kind(fates[last].0) {
      assert With(fates, kind) == before + {last};
    } else {
      assert With(fates, kind) == before;
    }
  }

  function RecoveredIn(fates: seq<(Fate, nat)>): nat {
    if fates == [] then 0 else RecoveredIn(fates[1..]) + RecoveredBy(fates[0].0)
  }

  function RecoveredBy(fate: Fate): nat {
    if fate.Inserted? && fate.outcome.Accepted? then fate.outcome.recovered else 0
  }

  lemma {:induction false} RecoveredNext(fates: seq<(Fate, nat)>)
    requires fates != []
    ensures RecoveredIn(fates) == RecoveredIn(fates[..|fates| - 1]) + RecoveredBy(fates[|fates| - 1].0)
  {
    var last := |fates| - 1;
    if last > 0 {
      RecoveredNext(fates[1..]);
      assert fates[1..][..last - 1] == fates[..last][1..];
      assert fates[..last][0] == fates[0] && fates[1..][last - 1] == fates[last];
    }
  }

  /** Every counter that a fate can move counts the datagrams with that fate. */
  lemma {:induction false} CountersAre(c: Snapshot, fates: seq<(Fate, nat)>)
    ensures var d := TallyRun(c, fates);
            && d.packets == c.packets + |fates|
            && d.invalid == c.invalid + |With(fates, (f: Fate) => f.Invalid?)|
            && d.wrongVersion == c.wrongVersion + |With(fates, (f: Fate) => f.WrongVersion?)|
            && d.stale == c.stale + |With(fates, (f: Fate) => f.Stale?)|
            && d.duplicates == c.duplicates + |With(fates, (f: Fate) => f == Inserted(Duplicated))|
            && d.unneeded == c.unneeded + |With(fates, (f: Fate) => f == Inserted(NotNeeded))|
            && d.rejected == c.rejected + |With(fates, (f: Fate) => f.Inserted? && f.outcome.Refused?)|
            && d.recoveryFailures == c.recoveryFailures +
               |With(fates, (f: Fate) => f.Inserted? && f.outcome.Accepted? && f.outcome.failed)|
            && d.recovered == c.recovered + RecoveredIn(fates)
            && d.dropped == c.dropped && d.blockMarkers == c.blockMarkers && d.decodeErrors == c.decodeErrors
            && d.entries == c.entries && d.transactions == c.transactions
  {
    hide With, RecoveredIn;
    if fates == [] {
      NoFates();
    } else {
      CountersAre(c, fates[..|fates| - 1]);
      WithNext(fates, (f: Fate) => f.Invalid?);
      WithNext(fates, (f: Fate) => f.WrongVersion?);
      WithNext(fates, (f: Fate) => f.Stale?);
      WithNext(fates, (f: Fate) => f == Inserted(Duplicated));
      WithNext(fates, (f: Fate) => f == Inserted(NotNeeded));
      WithNext(fates, (f: Fate) => f.Inserted? && f.outcome.Refused?);
      WithNext(fates, (f: Fate) => f.Inserted? && f.outcome.Accepted? && f.outcome.failed);
      RecoveredNext(fates);
    }
  }

  lemma NoFates()
    ensures forall kind: Fate -> bool :: With([], kind) == {}
    ensures RecoveredIn([]) == 0
  {
  }

  // ---- the decoding path

  /** Entries, and transactions in them, that were handed out. */
  function EntriesIn(out: seq<EntryBatch>): nat {
    if out == [] then 0 else EntriesIn(out[..|out| - 1]) + |out[|out| - 1].transactions|
  }

  function TransactionsIn(out: seq<EntryBatch>): nat {
    if out == [] then 0 else TransactionsIn(out[..|out| - 1]) + Sum(out[|out| - 1].transactions)
  }

  lemma OneMoreBatch(out: seq<EntryBatch>, b: EntryBatch)
    ensures EntriesIn(out + [b]) == EntriesIn(out) + |b.transactions|
    ensures TransactionsIn(out + [b]) == TransactionsIn(out) + Sum(b.transactions)
  {
    hide Sum;
    assert (out + [b])[..|out|] == out;
  }

  /** The batches a decoder makes one thing of. */
  ghost function Decoding(decode: Bytes -> BlockData, raw: seq<RawBatch>, kind: BlockData -> bool): set<nat> {
    set i: nat | i < |raw| && kind(decode(raw[i].segment.bytes))
  }

  lemma DecodingNext(decode: Bytes -> BlockData, raw: seq<RawBatch>, kind: BlockData -> bool)
    requires raw != []
    ensures var last := |raw| - 1;
            |Decoding(decode, raw, kind)| ==
            |Decoding(decode, raw[..last], kind)| + if kind(decode(raw[last].segment.bytes)) then 1 else 0
  {
    var last := |raw| - 1;
    var before := Decoding(decode, raw[..last], kind);
    if kind(decode(raw[last].segment.bytes)) {
      assert Decoding(decode, raw, kind) == before + {last};
    } else {
      assert Decoding(decode, raw, kind) == before;
    }
  }

  /** The counters of the decoding path count what is handed out, the markers and the failures. */
  lemma {:induction false} DecodedCountersAre(c: Snapshot, decode: Bytes -> BlockData, raw: seq<RawBatch>)
    ensures var d, out := TallyDecoded(c, decode, raw), DecodeAll(decode, raw);
            && d.entries == c.entries + EntriesIn(out) && d.transactions == c.transactions + TransactionsIn(out)
            && d.blockMarkers == c.blockMarkers + |Decoding(decode, raw, (x: BlockData) => x.BlockMarker?)|
            && d.decodeErrors == c.decodeErrors + |Decoding(decode, raw, (x: BlockData) => x.Undecodable?)|
            && |out| == |Decoding(decode, raw, (x: BlockData) => x.Entries?)|
  {
    hide Decoding, EntriesIn, TransactionsIn, Sum;
    if raw == [] {
      NothingDecoding(decode);
    } else {
      var last := |raw| - 1;
      DecodedCountersAre(c, decode, raw[..last]);
      DecodingNext(decode, raw, (x: BlockData) => x.BlockMarker?);
      DecodingNext(decode, raw, (x: BlockData) => x.Undecodable?);
      DecodingNext(decode, raw, (x: BlockData) => x.Entries?);
      var block := decode(raw[last].segment.bytes);
      if block.Entries? {
        OneMoreBatch(DecodeAll(decode, raw[..last]), EntryBatch(raw[last], block.transactions));
      } else {
        assert DecodeAll(decode, raw) == DecodeAll(decode, raw[..last]);
      }
    }
  }

  lemma NothingDecoding(decode: Bytes -> BlockData)
    ensures forall kind: BlockData -> bool :: Decoding(decode, [], kind) == {}
    ensures EntriesIn([]) == 0 && TransactionsIn([]) == 0
  {
  }
}
