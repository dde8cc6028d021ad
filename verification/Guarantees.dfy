/** What the slot theorems mean for a deshredder that sees many slots, garbage and repetitions at once. */
module Guarantees {
  import opened Wire
  import opened Merkle
  import opened Shreds
  import opened Fec
  import opened Segments
  import opened SlotSpec
  import opened Leader
  import opened Fidelity
  import opened Delivery
  import opened Window

  ghost function CodeOf(config: Config, rs: ReedSolomon): Option<ReedSolomon> {
    if config.recover then Some(rs) else None
  }

  /** The shred of a datagram, if it is one for slot `k` with an accepted version. */
  function ShredFor(config: Config, packet: Bytes, k: nat): seq<Shred> {
    match Parse(packet)
    case Err(_) => []
    case Ok(shred) =>
      if (config.shredVersion.Some? && config.shredVersion.value != shred.version) || shred.slot != k
      then []
      else [shred]
  }

  /** The shreds of slot `k` among the datagrams, in order. */
  function ShredsOf(config: Config, packets: seq<Bytes>, k: nat): seq<Shred> {
    if packets == [] then []
    else ShredsOf(config, packets[..|packets| - 1], k) + ShredFor(config, packets[|packets| - 1], k)
  }

  lemma {:induction false} ShredsInRange(config: Config, packets: seq<Bytes>, k: nat)
    requires forall p :: p in packets ==> PacketOk(p)
    ensures forall x :: x in ShredsOf(config, packets, k) ==> InRange(x) && Parsed(x)
  {
    hide Parse, InRange;
    if packets != [] {
      var last := packets[|packets| - 1];
      assert last in packets;
      ShredsInRange(config, packets[..|packets| - 1], k);
      if Parse(last).Ok? {
        ParseOk(last);
      }
    }
  }

  /** The segments handed out for slot `k`. */
  ghost function SegmentsFor(s: History, k: nat): (r: set<Segment>)
    ensures forall g :: g in r <==> RawBatch(k, g) in s.out
  {
    set b | b in s.out && b.slot == k :: b.segment
  }

  /** The window of slot `k` has passed, in 64-bit arithmetic: nothing of it is admitted any more. */
  predicate Passed(config: Config, s: History, k: nat) {
    Wrap(k + config.slotLookback) < s.window.highest
  }

  /**
   * A slot that was never trimmed, after its first `n` shreds got through: it has handed out the runs of those, and it
   * is live with exactly those unless its window has passed or it was never seen.
   */
  ghost predicate FedFirst(h: Hasher, rs: ReedSolomon, config: Config, s: History, k: nat, xs: seq<Shred>, n: nat) {
    && n <= |xs| && (forall x :: x in xs ==> InRange(x))
    && (n < |xs| ==> Passed(config, s, k))
    && var m := Feed(h, CodeOf(config, rs), xs[..n]);
       && SegmentsFor(s, k) == Runs(m.taken)
       && (if k in s.window.slots then s.window.slots[k] == m else Passed(config, s, k) || xs == [])
  }

  lemma RefusedKeepsFed(h: Hasher, rs: ReedSolomon, config: Config, s: History, packet: Bytes, k: nat, xs: seq<Shred>,
                        n: nat)
    requires FedFirst(h, rs, config, s, k, xs, n) && PacketOk(packet)
    requires Admission(config, s.window.highest, packet).Err?
    ensures FedFirst(h, rs, config, s, k, xs + ShredFor(config, packet, k), n)
  {
    hide Parse, InRange, Feed, Runs, SegmentsFor, Wrap;
    var more := ShredFor(config, packet, k);
    assert (xs + more)[..n] == xs[..n];
    if more == [] {
      assert xs + more == xs;
    }
  }

  lemma {:induction false} FeedOne(h: Hasher, code: Option<ReedSolomon>, xs: seq<Shred>, x: Shred)
    requires (forall y :: y in xs ==> InRange(y)) && InRange(x)
    ensures forall y :: y in xs + [x] ==> InRange(y)
    ensures Feed(h, code, xs + [x]) == SlotInsert(h, code, Feed(h, code, xs), x).0
  {
    hide InRange, SlotInsert;
    var ys := xs + [x];
    assert ys[..|ys| - 1] == xs;
    assert ys[|ys| - 1] == x;
  }

  lemma FeedNothing(h: Hasher, code: Option<ReedSolomon>)
    ensures Feed(h, code, []) == NEW_SLOT
  {
  }

  /** An admitted shred meets its slot with everything so far, and the slot grows by it. */
  lemma GrownFed(h: Hasher, rs: ReedSolomon, config: Config, s: History, x: Shred, xs: seq<Shred>, n: nat)
    requires WindowInv(s.window) && InRange(x) && !Passed(config, s, x.slot)
    requires FedFirst(h, rs, config, s, x.slot, xs, n)
    ensures n == |xs| && forall y :: y in xs + [x] ==> InRange(y)
    ensures SlotAt(s.window, x.slot) == Feed(h, CodeOf(config, rs), xs)
    ensures Grown(h, rs, config, s.window, x).0 == Feed(h, CodeOf(config, rs), xs + [x])
    ensures Runs(Feed(h, CodeOf(config, rs), xs).taken) <= Runs(Feed(h, CodeOf(config, rs), xs + [x]).taken)
  {
    hide InRange, SlotInsert, Feed, SlotInv, Runs, SegmentsFor, Passed;
    assert xs[..n] == xs;
    var code := CodeOf(config, rs);
    FeedNothing(h, code);
    FeedOne(h, code, xs, x);
    SlotInsertKeepsInv(h, code, Feed(h, code, xs), x);
    RunsGrow(Feed(h, code, xs).taken, Feed(h, code, xs + [x]).taken);
  }

  /** A datagram admitted for slot `k` itself. */
  lemma OwnFed(h: Hasher, rs: ReedSolomon, config: Config, s: History, x: Shred, xs: seq<Shred>, n: nat, t: History,
               outcome: Outcome)
    requires WindowInv(s.window) && InRange(x) && !Passed(config, s, x.slot)
    requires FedFirst(h, rs, config, s, x.slot, xs, n)
    requires t == Advanced(config, s, x.slot, Grown(h, rs, config, s.window, x).0, Inserted(outcome))
    requires x.slot !in t.trimmed
    ensures FedFirst(h, rs, config, t, x.slot, xs + [x], |xs| + 1)
  {
    hide InRange, Grown, Feed, Advanced, Advance, Runs, Remembered, Wrap, WindowInv, SlotAt, SegmentsFor;
    var m := Grown(h, rs, config, s.window, x).0;
    GrownFed(h, rs, config, s, x, xs, n);
    AdvanceSlots(config, s, x.slot, m, Inserted(outcome), x.slot);
    assert (xs + [x])[..|xs| + 1] == xs + [x] && xs[..n] == xs;
    assert SegmentsFor(t, x.slot) == Runs(m.taken);
  }

  /** A datagram admitted for another slot. */
  lemma OtherFed(h: Hasher, rs: ReedSolomon, config: Config, s: History, slot: nat, m: SlotModel, fate: Fate, k: nat,
                 xs: seq<Shred>, n: nat)
    requires FedFirst(h, rs, config, s, k, xs, n) && slot != k && k !in Advanced(config, s, slot, m, fate).trimmed
    ensures FedFirst(h, rs, config, Advanced(config, s, slot, m, fate), k, xs, n)
  {
    hide InRange, Feed, Advanced, Advance, Runs, Remembered, Wrap, Completed;
    var t := Advanced(config, s, slot, m, fate);
    AdvanceSlots(config, s, slot, m, fate, k);
    forall g
      ensures RawBatch(k, g) in t.out <==> RawBatch(k, g) in s.out
    {
    }
    assert SegmentsFor(t, k) == SegmentsFor(s, k);
  }

  lemma NextFed(h: Hasher, rs: ReedSolomon, config: Config, s: History, packet: Bytes, k: nat, xs: seq<Shred>, n: nat)
    returns (n': nat)
    requires HistoryInv(s, config) && FedFirst(h, rs, config, s, k, xs, n) && PacketOk(packet)
    requires k !in Next(h, rs, config, s, packet).trimmed
    ensures FedFirst(h, rs, config, Next(h, rs, config, s, packet), k, xs + ShredFor(config, packet, k), n')
  {
    hide FedFirst, HistoryInv, Parse, Push, InRange, Advances, Advance, Grown;
    OkFits(config, s.window.highest, packet);
    InvOf(s, config);
    var a := Admission(config, s.window.highest, packet);
    var t := Next(h, rs, config, s, packet);
    if a.Err? {
      n' := n;
      RefusedKeepsFed(h, rs, config, s, packet, k, xs, n);
      PushRefused(h, rs, config, s, packet);
    } else {
      PushAdmitted(h, rs, config, s, packet);
      var (m, outcome) := Grown(h, rs, config, s.window, a.value);
      if a.value.slot == k {
        n' := |xs| + 1;
        OwnFed(h, rs, config, s, a.value, xs, n, t, outcome);
      } else {
        n' := n;
        assert xs + ShredFor(config, packet, k) == xs;
        OtherFed(h, rs, config, s, a.value.slot, m, Inserted(outcome), k, xs, n);
      }
    }
  }

  /**
   * Whatever else arrives in between, a slot the trim never removed is fed its own shreds in order, up to some point.
   */
  lemma {:induction false} SlotIsFeed(h: Hasher, rs: ReedSolomon, config: Config, packets: seq<Bytes>, k: nat)
    returns (n: nat)
    requires forall p :: p in packets ==> PacketOk(p)
    requires k !in PushAll(h, rs, config, packets).trimmed
    ensures FedFirst(h, rs, config, PushAll(h, rs, config, packets), k, ShredsOf(config, packets, k), n)
  {
    hide PacketOk, HistoryInv, FedFirst, ShredFor, Next;
    if packets == [] {
      n := 0;
      NothingFed(h, rs, config, k);
    } else {
      var last := |packets| - 1;
      assert packets[last] in packets;
      var s := PushAll(h, rs, config, packets[..last]);
      NextTrims(h, rs, config, s, packets[last]);
      n := SlotIsFeed(h, rs, config, packets[..last], k);
      n := NextFed(h, rs, config, s, packets[last], k, ShredsOf(config, packets[..last], k), n);
    }
  }

  lemma NothingFed(h: Hasher, rs: ReedSolomon, config: Config, k: nat)
    ensures FedFirst(h, rs, config, NEW_HISTORY, k, [], 0)
  {
    EmptySlotInv();
  }

  lemma NextTrims(h: Hasher, rs: ReedSolomon, config: Config, s: History, packet: Bytes)
    requires HistoryInv(s, config) && PacketOk(packet)
    ensures s.trimmed <= Next(h, rs, config, s, packet).trimmed && s.out <= Next(h, rs, config, s, packet).out
  {
    hide HistoryInv, Push, PacketOk;
    OkFits(config, s.window.highest, packet);
  }

  /** Slot `k` can still be admitted after the run, and the trim never made it lose a shred. */
  ghost predicate InWindow(h: Hasher, rs: ReedSolomon, config: Config, packets: seq<Bytes>, k: nat) {
    && (forall p :: p in packets ==> PacketOk(p))
    && var s := PushAll(h, rs, config, packets); !Passed(config, s, k) && k !in s.trimmed
  }

  /** A live slot is in the window, unless its window wraps around. */
  lemma LiveIsInWindow(h: Hasher, rs: ReedSolomon, config: Config, packets: seq<Bytes>, k: nat)
    requires forall p :: p in packets ==> PacketOk(p)
    requires var s := PushAll(h, rs, config, packets); k in s.window.slots && k !in s.trimmed
    requires k + config.slotLookback < U64_LIMIT
    ensures InWindow(h, rs, config, packets, k)
  {
    hide PushAll, PacketOk, Wrap, HandedOutOnce, HighestIsMax, WindowInv;
    WrapIs(k + config.slotLookback);
  }

  /** What a slot in the window has handed out are the runs of all its own shreds. */
  lemma SlotHandsOut(h: Hasher, rs: ReedSolomon, config: Config, packets: seq<Bytes>, k: nat)
    requires InWindow(h, rs, config, packets, k)
    ensures forall x :: x in ShredsOf(config, packets, k) ==> InRange(x)
    ensures SegmentsFor(PushAll(h, rs, config, packets), k) ==
            Runs(Feed(h, CodeOf(config, rs), ShredsOf(config, packets, k)).taken)
  {
    hide PushAll, PacketOk, Feed, Runs, SegmentsFor, Passed, ShredsOf;
    var n := SlotIsFeed(h, rs, config, packets, k);
    var xs := ShredsOf(config, packets, k);
    assert xs[..n] == xs;
  }

  /**
   * Order independence of the whole deshredder: two runs with slot `k` in the window that gave it the same genuine
   * positions of its sets hand out the same segments for it, whatever the order, the repetitions, the corrupted shreds
   * and the traffic of other slots.
   */
  lemma DeshredderOrderIndependence(h: Hasher, rs: ReedSolomon, config: Config, L: Sets, ps: seq<Bytes>, qs: seq<Bytes>,
                                    k: nat)
    requires InWindow(h, rs, config, ps, k) && InWindow(h, rs, config, qs, k) && Honest(h, rs, L)
    requires Trusted(h, L, ShredsOf(config, ps, k)) && Trusted(h, L, ShredsOf(config, qs, k))
    requires forall f :: Positions(h, L, ShredsOf(config, ps, k), f) == Positions(h, L, ShredsOf(config, qs, k), f)
    ensures SegmentsFor(PushAll(h, rs, config, ps), k) == SegmentsFor(PushAll(h, rs, config, qs), k)
  {
    hide InWindow, PushAll, PacketOk, Feed, Runs, Honest, Trusted, Positions, ShredsOf, SegmentsFor;
    SlotHandsOut(h, rs, config, ps, k);
    SlotHandsOut(h, rs, config, qs, k);
    OrderIndependence(h, rs, CodeOf(config, rs), L, ShredsOf(config, ps, k), ShredsOf(config, qs, k));
  }

  /**
   * Fidelity of the whole deshredder, for every slot the trim never removed: only the leader's segments are handed out,
   * or a collision is at hand.
   */
  lemma DeshredderFidelity(h: Hasher, rs: ReedSolomon, config: Config, L: Sets, ps: seq<Bytes>, k: nat)
    requires (forall p :: p in ps ==> PacketOk(p)) && k !in PushAll(h, rs, config, ps).trimmed
    requires Honest(h, rs, L) && FirstsGenuine(h, L, ShredsOf(config, ps, k))
    ensures || SegmentsFor(PushAll(h, rs, config, ps), k) <= Runs(LeaderTaken(L))
            || exists x :: x in ShredsOf(config, ps, k) && Forged(h, L, x)
  {
    hide PushAll, PacketOk, Feed, Runs, Honest, FirstsGenuine, Forged, InRange, Parsed, SegmentsFor, ShredsOf, Passed;
    ShredsInRange(config, ps, k);
    var n := SlotIsFeed(h, rs, config, ps, k);
    var xs := ShredsOf(config, ps, k);
    FirstsPrefix(h, L, xs, n);
    EndToEndFidelity(h, rs, CodeOf(config, rs), L, xs[..n]);
  }

  lemma {:induction false} ShredsPrefix(config: Config, ps: seq<Bytes>, n: nat, k: nat)
    requires n <= |ps|
    ensures ShredsOf(config, ps[..n], k) <= ShredsOf(config, ps, k)
  {
    hide ShredFor;
    if n == |ps| {
      assert ps[..n] == ps;
    } else {
      assert ps[..|ps| - 1][..n] == ps[..n];
      ShredsPrefix(config, ps[..|ps| - 1], n, k);
    }
  }

  lemma TrustedSoFar(h: Hasher, config: Config, L: Sets, ps: seq<Bytes>, n: nat, k: nat)
    requires n <= |ps| && Trusted(h, L, ShredsOf(config, ps, k))
    ensures Trusted(h, L, ShredsOf(config, ps[..n], k))
  {
    hide Trusted, ShredsOf, InRange;
    ShredsPrefix(config, ps, n, k);
    var xs, ys := ShredsOf(config, ps, k), ShredsOf(config, ps[..n], k);
    assert xs[..|ys|] == ys;
    TrustedPrefix(h, L, xs, |ys|);
  }

  lemma {:induction false} OutGrows(h: Hasher, rs: ReedSolomon, config: Config, ps: seq<Bytes>, n: nat)
    requires (forall p :: p in ps ==> PacketOk(p)) && n <= |ps|
    ensures forall p :: p in ps[..n] ==> PacketOk(p)
    ensures PushAll(h, rs, config, ps[..n]).out <= PushAll(h, rs, config, ps).out
  {
    hide PacketOk, HistoryInv, Next;
    if n == |ps| {
      assert ps[..n] == ps;
    } else {
      var last := |ps| - 1;
      assert ps[last] in ps;
      assert ps[..last][..n] == ps[..n];
      OutGrows(h, rs, config, ps[..last], n);
      NextTrims(h, rs, config, PushAll(h, rs, config, ps[..last]), ps[last]);
    }
  }

  /** What a trusted slot hands out is never anything but the leader's. */
  lemma OnlyLeaders(h: Hasher, rs: ReedSolomon, config: Config, L: Sets, ps: seq<Bytes>, k: nat)
    requires (forall p :: p in ps ==> PacketOk(p)) && k !in PushAll(h, rs, config, ps).trimmed
    requires Honest(h, rs, L) && Trusted(h, L, ShredsOf(config, ps, k))
    ensures SegmentsFor(PushAll(h, rs, config, ps), k) <= Runs(LeaderTaken(L))
  {
    hide PushAll, PacketOk, Feed, Runs, Honest, Trusted, InRange, SegmentsFor, ShredsOf, Passed, Faithful, LeaderTaken;
    var n := SlotIsFeed(h, rs, config, ps, k);
    var xs := ShredsOf(config, ps, k);
    TrustedPrefix(h, L, xs, n);
    FeedFaithful(h, rs, CodeOf(config, rs), L, xs[..n]);
    FaithfulRuns(h, L, Feed(h, CodeOf(config, rs), xs[..n]));
  }

  /**
   * Completeness of the whole deshredder: if at some moment of the run the slot was in the window and had got 32
   * genuine shreds of each of its sets, then it has handed out exactly the leader's segments, whatever corrupted shreds
   * and other traffic arrived before and after.
   */
  lemma DeshredderCompleteness(h: Hasher, rs: ReedSolomon, config: Config, L: Sets, ps: seq<Bytes>, now: nat, k: nat)
    requires (forall p :: p in ps ==> PacketOk(p)) && k !in PushAll(h, rs, config, ps).trimmed && config.recover
    requires Honest(h, rs, L) && Trusted(h, L, ShredsOf(config, ps, k))
    requires now <= |ps| && InWindow(h, rs, config, ps[..now], k)
    requires forall f :: f in L ==> |Positions(h, L, ShredsOf(config, ps[..now], k), f)| >= SHREDS_PER_SIDE
    ensures SegmentsFor(PushAll(h, rs, config, ps), k) == Runs(LeaderTaken(L))
  {
    hide InWindow, PushAll, PacketOk, Feed, Runs, Honest, Trusted, Positions, ShredsOf, LeaderTaken;
    SlotHandsOut(h, rs, config, ps[..now], k);
    TrustedSoFar(h, config, L, ps, now, k);
    HalfIsEnough(h, rs, L, ShredsOf(config, ps[..now], k));
    OutGrows(h, rs, config, ps, now);
    OnlyLeaders(h, rs, config, L, ps, k);
    assert SegmentsFor(PushAll(h, rs, config, ps[..now]), k) <= SegmentsFor(PushAll(h, rs, config, ps), k);
  }
}
