/**
 * The receiver thread, the worker thread and a bounded channel between them, as a step system: any interleaving of the
 * actions below.
 */
module Pipeline {
  import opened Wire

  const BATCH := 64

  /** Where the receive loop is: at the stop check, in the receive call, draining a batch, or returned. */
  datatype Receiver = Checking | Receiving | Draining | Exited

  datatype State = State(
    stop: bool, receiver: Receiver, batch: seq<Bytes>, channel: seq<Bytes>, workerDone: bool, dropped: nat,
    received: seq<Bytes>, // everything the socket has delivered
    sent: seq<bool>, // for each packet offered to the channel, whether it went in
    pushed: seq<Bytes>) // everything the deshredder has been given

  datatype Action =
    | Stop
    | Check
    | Receive(packets: seq<Bytes>)
    | ReceiveError
    | Send
    | HandOver
    | Drop
    | BatchDone
    | Work
    | WorkerExit

  function Init(): State {
    State(false, Checking, [], [], false, 0, [], [], [])
  }

  /** When an action can happen. A channel of capacity 0 only passes a packet to a worker that is waiting for it. */
  predicate Enabled(capacity: nat, s: State, a: Action) {
    match a
    case Stop => true
    case Check => s.receiver.Checking?
    case Receive(packets) => s.receiver.Receiving? && |packets| <= BATCH
    case ReceiveError => s.receiver.Receiving?
    case Send => s.receiver.Draining? && s.batch != [] && |s.channel| < capacity
    case HandOver => s.receiver.Draining? && s.batch != [] && capacity == 0 && !s.workerDone
    case Drop => s.receiver.Draining? && s.batch != [] && |s.channel| >= capacity
    case BatchDone => s.receiver.Draining? && s.batch == []
    case Work => s.channel != [] && !s.workerDone
    case WorkerExit => s.channel == [] && s.receiver.Exited? && !s.workerDone
  }

  function Apply(capacity: nat, s: State, a: Action): State
    requires Enabled(capacity, s, a)
  {
    match a
    case Stop => s.(stop := true)
    case Check => s.(receiver := if s.stop then Exited else Receiving)
    case Receive(packets) => s.(receiver := Draining, batch := packets, received := s.received + packets)
    case ReceiveError => s.(receiver := Checking)
    case Send => s.(batch := s.batch[1..], channel := s.channel + [s.batch[0]], sent := s.sent + [true])
    case HandOver => s.(batch := s.batch[1..], pushed := s.pushed + [s.batch[0]], sent := s.sent + [true])
    case Drop => s.(batch := s.batch[1..], dropped := s.dropped + 1, sent := s.sent + [false])
    case BatchDone => s.(receiver := Checking)
    case Work => s.(channel := s.channel[1..], pushed := s.pushed + [s.channel[0]])
    case WorkerExit => s.(workerDone := true)
  }

  /** `s` is where the actions lead from the start, each enabled in its turn. */
  ghost predicate Reaches(capacity: nat, actions: seq<Action>, s: State) {
    if actions == [] then s == Init()
    else
      var last := |actions| - 1;
      exists before ::
        && Reaches(capacity, actions[..last], before) && Enabled(capacity, before, actions[last])
        && s == Apply(capacity, before, actions[last])
  }

  // ---- conservation

  /** The packets that went in, in order. */
  function Kept(packets: seq<Bytes>, sent: seq<bool>): seq<Bytes>
    requires |packets| == |sent|
  {
    if packets == [] then []
    else
      var last := |packets| - 1;
      Kept(packets[..last], sent[..last]) + if sent[last] then [packets[last]] else []
  }

  function Losses(sent: seq<bool>): nat {
    if sent == [] then 0 else Losses(sent[..|sent| - 1]) + if sent[|sent| - 1] then 0 else 1
  }

  ghost predicate Conserved(capacity: nat, s: State) {
    && |s.sent| + |s.batch| == |s.received|
    && s.received[|s.sent|..] == s.batch
    && s.pushed + s.channel == Kept(s.received[..|s.sent|], s.sent)
    && s.dropped == Losses(s.sent)
    && |s.channel| <= capacity
    && (!s.receiver.Draining? ==> s.batch == [])
    && (s.receiver.Draining? || s.receiver.Checking? || s.receiver.Receiving? ==> !s.workerDone)
    && (s.workerDone ==> s.channel == [])
  }

  lemma KeptNext(packets: seq<Bytes>, sent: seq<bool>, p: Bytes, entered: bool)
    requires |packets| == |sent|
    ensures Kept(packets + [p], sent + [entered]) == Kept(packets, sent) + if entered then [p] else []
    ensures Losses(sent + [entered]) == Losses(sent) + if entered then 0 else 1
  {
    assert (packets + [p])[..|packets|] == packets && (sent + [entered])[..|sent|] == sent;
  }

  lemma OfferKeeps(s: State, entered: bool)
    requires |s.sent| + |s.batch| == |s.received| && s.received[|s.sent|..] == s.batch && s.batch != []
    ensures var n := |s.sent|;
            && s.received[n + 1..] == s.batch[1..]
            && Kept(s.received[..n + 1], s.sent + [entered]) == Kept(s.received[..n], s.sent) +
               (if entered then [s.batch[0]] else [])
            && Losses(s.sent + [entered]) == Losses(s.sent) + if entered then 0 else 1
  {
    var n := |s.sent|;
    assert s.received[n] == s.batch[0];
    assert s.received[..n + 1] == s.received[..n] + [s.batch[0]];
    KeptNext(s.received[..n], s.sent, s.batch[0], entered);
  }

  lemma StepConserves(capacity: nat, s: State, a: Action)
    requires Conserved(capacity, s) && Enabled(capacity, s, a)
    ensures Conserved(capacity, Apply(capacity, s, a))
  {
    hide Kept, Losses;
    match a
    case Send => OfferConserves(capacity, s, a, true);
    case HandOver => OfferConserves(capacity, s, a, true);
    case Drop => OfferConserves(capacity, s, a, false);
    case Receive(packets) =>
      assert (s.received + packets)[..|s.sent|] == s.received[..|s.sent|];
    case Work =>
      assert s.pushed + [s.channel[0]] + s.channel[1..] == s.pushed + s.channel;
    case _ =>
  }

  /** Offering the next packet of the batch to the channel. */
  lemma OfferConserves(capacity: nat, s: State, a: Action, entered: bool)
    requires Conserved(capacity, s) && Enabled(capacity, s, a)
    requires if entered then a.Send? || a.HandOver? else a.Drop?
    ensures Conserved(capacity, Apply(capacity, s, a))
  {
    hide Kept, Losses;
    OfferKeeps(s, entered);
    if a.Send? {
      assert s.pushed + (s.channel + [s.batch[0]]) == (s.pushed + s.channel) + [s.batch[0]];
    } else if a.HandOver? {
      assert s.pushed + [s.batch[0]] + [] == (s.pushed + s.channel) + [s.batch[0]];
    }
  }

  /**
   * Conservation, in every interleaving: what the deshredder was given followed by what is in the channel is the
   * received sequence as far as it was offered, in order, minus exactly the packets counted as dropped.
   */
  lemma {:induction false} PipelineConserves(capacity: nat, actions: seq<Action>, s: State)
    requires Reaches(capacity, actions, s)
    ensures Conserved(capacity, s)
    decreases |actions|
  {
    if actions != [] {
      var last := |actions| - 1;
      var before :| Reaches(capacity, actions[..last], before) && Enabled(capacity, before, actions[last]) &&
          s == Apply(capacity, before, actions[last]);
      PipelineConserves(capacity, actions[..last], before);
      StepConserves(capacity, before, actions[last]);
    }
  }

  lemma {:induction false} KeptSize(packets: seq<Bytes>, sent: seq<bool>)
    requires |packets| == |sent|
    ensures |Kept(packets, sent)| + Losses(sent) == |packets|
  {
    if packets != [] {
      KeptSize(packets[..|packets| - 1], sent[..|packets| - 1]);
    }
  }

  predicate Joined(s: State) {
    s.receiver.Exited? && s.workerDone
  }

  /** After both threads are joined nothing is left anywhere: every packet received was pushed, in order, or dropped. */
  lemma NothingLostAtShutdown(capacity: nat, actions: seq<Action>, s: State)
    requires Reaches(capacity, actions, s) && Joined(s)
    ensures s.channel == [] && s.batch == [] && |s.sent| == |s.received|
    ensures s.pushed == Kept(s.received, s.sent) && |s.received| == |s.pushed| + s.dropped
  {
    PipelineConserves(capacity, actions, s);
    assert s.received[..|s.sent|] == s.received;
    KeptSize(s.received, s.sent);
  }

  /** A step counts a packet as dropped only when the channel is full. */
  lemma DropOnlyWhenFull(capacity: nat, actions: seq<Action>, s: State, a: Action)
    requires Reaches(capacity, actions, s) && Enabled(capacity, s, a)
    ensures Apply(capacity, s, a).dropped != s.dropped ==> |s.channel| == capacity
  {
    PipelineConserves(capacity, actions, s);
  }

  /** No schedule drops anything as long as the channel has room for everything received. */
  lemma {:induction false} NothingDropped(capacity: nat, actions: seq<Action>, s: State)
    requires Reaches(capacity, actions, s) && |s.received| <= capacity
    ensures s.dropped == 0 && |s.sent| <= |s.received| && s.pushed + s.channel == s.received[..|s.sent|]
    decreases |actions|
  {
    hide Conserved, Kept, Losses, Apply, Enabled;
    PipelineConserves(capacity, actions, s);
    if actions != [] {
      var last := |actions| - 1;
      var before :| Reaches(capacity, actions[..last], before) && Enabled(capacity, before, actions[last]) &&
          s == Apply(capacity, before, actions[last]);
      PipelineConserves(capacity, actions[..last], before);
      Received(capacity, before, actions[last]);
      NothingDropped(capacity, actions[..last], before);
      RoomLeft(capacity, before, actions[last]);
    }
    AllWentIn(capacity, s);
  }

  lemma Received(capacity: nat, s: State, a: Action)
    requires Enabled(capacity, s, a)
    ensures |s.received| <= |Apply(capacity, s, a).received|
  {
  }

  lemma RoomLeft(capacity: nat, s: State, a: Action)
    requires Conserved(capacity, s) && Enabled(capacity, s, a) && |s.received| <= capacity && s.dropped == 0
    ensures Apply(capacity, s, a).dropped == 0
  {
    hide Kept, Losses;
    KeptSize(s.received[..|s.sent|], s.sent);
    assert |s.pushed + s.channel| == |s.sent|;
  }

  lemma AllWentIn(capacity: nat, s: State)
    requires Conserved(capacity, s) && s.dropped == 0
    ensures |s.sent| <= |s.received| && s.pushed + s.channel == s.received[..|s.sent|]
  {
    hide Kept, Losses;
    KeptAll(s.received[..|s.sent|], s.sent);
  }

  lemma {:induction false} KeptAll(packets: seq<Bytes>, sent: seq<bool>)
    requires |packets| == |sent| && Losses(sent) == 0
    ensures Kept(packets, sent) == packets
  {
    if packets != [] {
      var last := |packets| - 1;
      KeptAll(packets[..last], sent[..last]);
      assert packets == packets[..last] + [packets[last]];
    }
  }

  /** Neither thread ends before a stop is requested, whatever the receive call returns. */
  lemma {:induction false} RunsUntilStopped(capacity: nat, actions: seq<Action>, s: State)
    requires Reaches(capacity, actions, s) && Stop !in actions
    ensures !s.stop && !s.receiver.Exited? && !s.workerDone
    decreases |actions|
  {
    if actions != [] {
      var last := |actions| - 1;
      var before :| Reaches(capacity, actions[..last], before) && Enabled(capacity, before, actions[last]) &&
          s == Apply(capacity, before, actions[last]);
      assert actions[last] in actions;
      RunsUntilStopped(capacity, actions[..last], before);
    }
  }

  // ---- shutdown ends

  /** An upper bound on the steps left once stop has been requested. */
  function StepsLeft(s: State): nat {
    |s.channel| + 2 * |s.batch| + (if s.workerDone then 0 else 1) +
    match s.receiver
    case Exited => 0
    case Checking => 1
    case Draining => 2
    case Receiving => 3 + 2 * BATCH
  }

  /** With stop set, every step but a repeated stop brings the end closer. */
  lemma StepGetsCloser(capacity: nat, s: State, a: Action)
    requires Conserved(capacity, s) && s.stop && Enabled(capacity, s, a) && !a.Stop?
    ensures StepsLeft(Apply(capacity, s, a)) < StepsLeft(s) && Apply(capacity, s, a).stop
  {
  }

  /** The states along `actions`, none of which is a repeated stop, from `s` to `t`. */
  ghost predicate Leads(capacity: nat, s: State, actions: seq<Action>, t: State)
    decreases |actions|
  {
    if actions == [] then s == t
    else
      && !actions[0].Stop? && Enabled(capacity, s, actions[0])
      && Leads(capacity, Apply(capacity, s, actions[0]), actions[1..], t)
  }

  /** However the threads are scheduled, they cannot take more than `StepsLeft` steps after the stop request. */
  lemma {:induction false} ShutdownBounded(capacity: nat, s: State, actions: seq<Action>, t: State)
    requires Conserved(capacity, s) && s.stop && Leads(capacity, s, actions, t)
    ensures |actions| + StepsLeft(t) <= StepsLeft(s) && t.stop && Conserved(capacity, t)
    decreases |actions|
  {
    if actions != [] {
      StepConserves(capacity, s, actions[0]);
      StepGetsCloser(capacity, s, actions[0]);
      ShutdownBounded(capacity, Apply(capacity, s, actions[0]), actions[1..], t);
    }
  }

  /** And they never get stuck before both have finished. */
  lemma ShutdownProgress(capacity: nat, s: State)
    requires Conserved(capacity, s) && !Joined(s)
    ensures exists a: Action :: !a.Stop? && Enabled(capacity, s, a)
  {
    var a: Action :=
      match s.receiver
      case Checking => Check
      case Receiving => Receive([])
      case Draining => if s.batch == [] then BatchDone else if |s.channel| < capacity then Send else Drop
      case Exited => if s.channel == [] then WorkerExit else Work;
    assert !a.Stop? && Enabled(capacity, s, a);
  }
}
