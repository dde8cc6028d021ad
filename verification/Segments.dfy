/**
 * The simple specification of slot assembly: the data shreds available so far, cut at the shreds that carry
 * DATA_COMPLETE. Nothing here knows about FEC sets, bit sets or arrival order.
 */
module Segments {
  import opened Wire
  import opened Shreds

  /** One run, cut out: its first and last index, its payloads put together, and whether it ends the slot. */
  datatype Segment = Segment(start: nat, end: nat, bytes: Bytes, lastInSlot: bool)

  /** The data shred available for each index. */
  type Taken = map<nat, Shred>

  predicate Ends(taken: Taken, i: nat) {
    i in taken && taken[i].DataComplete()
  }

  predicate Open(taken: Taken, i: nat) {
    i in taken && !taken[i].DataComplete()
  }

  predicate Starts(taken: Taken, i: nat) {
    i == 0 || Ends(taken, i - 1)
  }

  /** All of `s..=e` is available, `e` is the first DATA_COMPLETE in it, and `s` follows the previous one or is 0. */
  ghost predicate IsRun(taken: Taken, s: nat, e: nat) {
    s <= e && Starts(taken, s) && Ends(taken, e) && forall i :: s <= i < e ==> Open(taken, i)
  }

  function PayloadOf(s: Shred): Bytes {
    if s.Wf() then s.Payload() else []
  }

  /** Payloads of `s..e`, in order. */
  function Payloads(taken: Taken, s: nat, e: nat): Bytes
    requires s <= e && forall i :: s <= i < e ==> i in taken
    decreases e
  {
    if s == e then [] else Payloads(taken, s, e - 1) + PayloadOf(taken[e - 1])
  }

  ghost function SegmentOf(taken: Taken, s: nat, e: nat): Segment
    requires IsRun(taken, s, e)
  {
    RunsAvailable(taken);
    Segment(s, e, Payloads(taken, s, e + 1), taken[e].LastInSlot())
  }

  /** What the slot must have handed out: one segment per run. */
  ghost function Runs(taken: Taken): (r: set<Segment>)
    ensures forall g :: g in r <==> IsRun(taken, g.start, g.end) && g == SegmentOf(taken, g.start, g.end)
  {
    RunsAvailable(taken);
    set s: nat, e: nat | s in taken && e in taken && IsRun(taken, s, e) :: SegmentOf(taken, s, e)
  }

  lemma RunsAvailable(taken: Taken)
    ensures forall s: nat, e: nat, i: nat :: IsRun(taken, s, e) && s <= i <= e ==> i in taken
  {
    forall s: nat, e: nat, i: nat | IsRun(taken, s, e) && s <= i <= e
      ensures i in taken
    {
      assert i < e ==> Open(taken, i);
    }
  }

  ghost predicate InRun(taken: Taken, i: nat) {
    exists s: nat, e: nat :: s <= i <= e && IsRun(taken, s, e)
  }

  ghost predicate Covered(segments: set<Segment>, i: nat) {
    exists g :: g in segments && g.start <= i <= g.end
  }

  /** The indexes that belong to a complete run. */
  ghost function Consumed(taken: Taken): (r: set<nat>)
    ensures forall i :: i in r <==> InRun(taken, i)
    ensures r <= taken.Keys
  {
    RunsAvailable(taken);
    set i | i in taken && InRun(taken, i)
  }

  /** Runs partition what they cover: two runs that share an index are the same run. */
  lemma RunUnique(taken: Taken, s: nat, e: nat, s': nat, e': nat, i: nat)
    requires IsRun(taken, s, e) && IsRun(taken, s', e')
    requires s <= i <= e && s' <= i <= e'
    ensures s == s' && e == e'
  {
    assert e < e' ==> Open(taken, e);
    assert e' < e ==> Open(taken, e');
    assert s < s' ==> Open(taken, s' - 1);
    assert s' < s ==> Open(taken, s - 1);
  }

  lemma RunsDisjoint(taken: Taken, g: Segment, g': Segment)
    requires g in Runs(taken) && g' in Runs(taken) && g != g'
    ensures g.end < g'.start || g'.end < g.start
  {
    if g'.start <= g.end && g.start <= g'.end {
      var i := if g.start <= g'.start then g'.start else g.start;
      RunUnique(taken, g.start, g.end, g'.start, g'.end, i);
    }
  }

  lemma CoveredIffInRun(taken: Taken, i: nat)
    ensures Covered(Runs(taken), i) <==> InRun(taken, i)
  {
    if InRun(taken, i) {
      var s: nat, e: nat :| s <= i <= e && IsRun(taken, s, e);
      assert SegmentOf(taken, s, e) in Runs(taken);
    }
  }

  /** `b` has everything `a` has, with the same shreds. */
  ghost predicate SubMap(a: Taken, b: Taken) {
    forall i :: i in a ==> i in b && b[i] == a[i]
  }

  lemma {:induction false} PayloadsFrame(a: Taken, b: Taken, s: nat, e: nat)
    requires s <= e
    requires forall i :: s <= i < e ==> i in a && i in b && PayloadOf(a[i]) == PayloadOf(b[i])
    ensures Payloads(a, s, e) == Payloads(b, s, e)
    decreases e
  {
    if s < e {
      PayloadsFrame(a, b, s, e - 1);
    }
  }

  lemma RunGrows(a: Taken, b: Taken, s: nat, e: nat)
    requires SubMap(a, b) && IsRun(a, s, e)
    ensures IsRun(b, s, e) && SegmentOf(b, s, e) == SegmentOf(a, s, e)
  {
    RunsAvailable(a);
    assert forall i: nat :: s <= i < e ==> Open(a, i) ==> Open(b, i);
    PayloadsFrame(a, b, s, e + 1);
  }

  /** More shreds never undo or change a segment. */
  lemma RunsGrow(a: Taken, b: Taken)
    requires SubMap(a, b)
    ensures Runs(a) <= Runs(b) && Consumed(a) <= Consumed(b)
  {
    forall g | g in Runs(a)
      ensures g in Runs(b)
    {
      RunGrows(a, b, g.start, g.end);
    }
    forall i: nat | InRun(a, i)
      ensures InRun(b, i)
    {
      var s: nat, e: nat :| s <= i <= e && IsRun(a, s, e);
      RunGrows(a, b, s, e);
    }
  }

  /** Where an assembler has to look when index `i` becomes available: the run of `i` and the run right after it. */
  ghost predicate Touches(taken: Taken, i: nat, g: Segment) {
    g.start <= i <= g.end || (Ends(taken, i) && g.start == i + 1)
  }

  // ---- the order in which one packet's segments come out

  /**
   * With the index of a data shred: its own run first, then the run right after it, then the rest. Without one, all
   * runs rank alike.
   */
  function Rank(own: Option<nat>, g: Segment): nat {
    if own.None? then 2
    else if g.start <= own.value <= g.end then 0
    else if g.start == own.value + 1 then 1
    else 2
  }

  /** Runs of one rank come out in ascending order. */
  predicate Precedes(own: Option<nat>, g: Segment, g': Segment) {
    Rank(own, g) < Rank(own, g') || (Rank(own, g) == Rank(own, g') && g.start < g'.start)
  }

  predicate InOrder(own: Option<nat>, s: seq<Segment>) {
    forall i, j :: 0 <= i < j < |s| ==> Precedes(own, s[i], s[j])
  }

  /** There is only one order: the segments decide the sequence. */
  lemma {:induction false} OrderUnique(own: Option<nat>, s: seq<Segment>, t: seq<Segment>)
    requires InOrder(own, s) && InOrder(own, t) && forall g :: g in s <==> g in t
    ensures s == t
  {
    hide Precedes;
    assert s != [] ==> s[0] in s;
    assert t != [] ==> t[0] in t;
    if s != [] {
      FirstIsLeast(own, s, t[0]);
      FirstIsLeast(own, t, s[0]);
      assert s[0] == t[0] by { NotBoth(own, s[0], t[0]); }
      assert s == [s[0]] + s[1..] && t == [t[0]] + t[1..];
      forall g
        ensures g in s[1..] <==> g in t[1..]
      {
        NotAgain(own, s, g);
        NotAgain(own, t, g);
      }
      OrderUnique(own, s[1..], t[1..]);
    }
  }

  lemma NotBoth(own: Option<nat>, g: Segment, g': Segment)
    ensures !(Precedes(own, g, g') && Precedes(own, g', g))
  {
  }

  lemma FirstIsLeast(own: Option<nat>, s: seq<Segment>, g: Segment)
    requires InOrder(own, s) && g in s
    ensures s[0] == g || Precedes(own, s[0], g)
  {
    hide Precedes;
    var i :| 0 <= i < |s| && s[i] == g;
  }

  lemma NotAgain(own: Option<nat>, s: seq<Segment>, g: Segment)
    requires InOrder(own, s) && s != []
    ensures g in s[1..] <==> g in s && g != s[0]
  {
    if g in s && g != s[0] {
      var i :| 0 <= i < |s| && s[i] == g;
      assert s[1..][i - 1] == g;
    }
    if g in s[1..] {
      var i :| 0 <= i < |s[1..]| && s[1..][i] == g;
      assert s[1 + i] == g && Precedes(own, s[0], s[1 + i]);
    }
  }

  /** A run that is complete now and was not before touches something that has just become available. */
  lemma NewRunIsTouched(a: Taken, b: Taken, g: Segment)
    requires SubMap(a, b) && g in Runs(b) && g !in Runs(a)
    ensures exists i :: i in b && i !in a && Touches(b, i, g)
  {
    hide Runs, SegmentOf;
    RunsAre(a, b, g);
    var s, e := g.start, g.end;
    RunsAvailable(b);
    if j :| s <= j <= e && j !in a {
      assert Touches(b, j, g);
    } else if s > 0 && s - 1 !in a {
      assert Touches(b, s - 1, g);
    } else {
      forall i | s <= i < e
        ensures Open(a, i)
      {
        assert Open(b, i);
      }
    }
  }

  /** A segment of `b` that `a` does not have is no run of `a`. */
  lemma RunsAre(a: Taken, b: Taken, g: Segment)
    requires SubMap(a, b) && g in Runs(b) && g !in Runs(a)
    ensures IsRun(b, g.start, g.end) && !IsRun(a, g.start, g.end)
  {
    hide IsRun, SegmentOf, SubMap;
    if IsRun(a, g.start, g.end) {
      RunGrows(a, b, g.start, g.end);
    }
  }

  // ---- two sources that say the same

  /** Same payload and flags. */
  ghost predicate SameContent(s: Shred, t: Shred) {
    PayloadOf(s) == PayloadOf(t) && s.DataComplete() == t.DataComplete() && s.LastInSlot() == t.LastInSlot()
  }

  ghost predicate Consistent(a: Taken, b: Taken) {
    forall i :: i in a && i in b ==> SameContent(a[i], b[i])
  }

  lemma ConsistentRun(a: Taken, b: Taken, s: nat, e: nat)
    requires Consistent(a, b) && a.Keys <= b.Keys && IsRun(a, s, e)
    ensures IsRun(b, s, e) && SegmentOf(b, s, e) == SegmentOf(a, s, e)
  {
    RunsAvailable(a);
    assert forall i: nat :: s <= i < e ==> Open(a, i) ==> Open(b, i);
    PayloadsFrame(a, b, s, e + 1);
  }

  /** What is available decides the segments: which copy of a shred was kept does not matter. */
  lemma ConsistentRuns(a: Taken, b: Taken)
    requires Consistent(a, b) && a.Keys <= b.Keys
    ensures Runs(a) <= Runs(b)
  {
    forall g | g in Runs(a)
      ensures g in Runs(b)
    {
      ConsistentRun(a, b, g.start, g.end);
    }
  }
}
