/**
 * The state of one FEC set: which of its 64 shreds are there, and how missing data shreds are rebuilt. The erasure code
 * is a parameter.
 */
module Fec {
  import opened Wire
  import opened Merkle
  import opened Shreds

  type Slots = seq<Option<Shred>>

  /** The library's in-place reconstruction rewrites shards but keeps their number and lengths; `None` is an error. */
  ghost predicate KeepsShape(f: seq<(Bytes, bool)> -> Option<seq<Bytes>>) {
    forall shards: seq<(Bytes, bool)> :: f(shards).Some? ==>
                       && |f(shards).value| == |shards|
                       && forall i :: 0 <= i < |shards| ==> |f(shards).value[i]| == |shards[i].0|
  }

  type ReedSolomon = f: seq<(Bytes, bool)> -> Option<seq<Bytes>> | KeepsShape(f)
    witness (shards: seq<(Bytes, bool)>) => None

  datatype Reject = BadProof | MerkleRootMismatch | SignatureMismatch
  datatype Insert = New | Duplicate | Unneeded | Rejected(why: Reject)
  datatype RecoverError = ReedSolomonFailed | InvalidShred(error: ShredError) | WrongHeaders(index: nat)

  // ---- what a set is, without its counters

  datatype FecModel = FecModel(data: Slots, code: Slots, root: Option<Hash32>, signature: Bytes)

  function Empty(): Slots {
    seq(SHREDS_PER_SIDE, i => None)
  }

  const NEW_SET := FecModel(Empty(), Empty(), None, Zeros(SIGNATURE_SIZE))

  /** The occupied positions. */
  function Filled(s: Slots): set<nat> {
    set p: nat | p < |s| && s[p].Some?
  }

  predicate Full(s: Slots) {
    forall p :: 0 <= p < |s| ==> s[p].Some?
  }

  ghost predicate CanRecover(m: FecModel) {
    && !Full(m.data)
    && Filled(m.code) != {}
    && |Filled(m.data)| + |Filled(m.code)| >= SHREDS_PER_SIDE
  }

  predicate DataSlotOk(x: Option<Shred>, p: nat) {
    x.Some? ==> x.value.Wf() && x.value.IsData() && x.value.Position() == p
  }

  predicate CodeSlotOk(x: Option<Shred>, p: nat) {
    x.Some? ==> x.value.Wf() && !x.value.IsData() && x.value.Position() == SHREDS_PER_SIDE + p
  }

  /** Shreds sit at their own positions, a complete set holds no code shreds, and only an empty set has no root. */
  ghost predicate FecInv(m: FecModel) {
    && |m.data| == SHREDS_PER_SIDE && |m.code| == SHREDS_PER_SIDE && |m.signature| == SIGNATURE_SIZE
    && (forall p :: 0 <= p < SHREDS_PER_SIDE ==> DataSlotOk(m.data[p], p))
    && (forall p :: 0 <= p < SHREDS_PER_SIDE ==> CodeSlotOk(m.code[p], p))
    && (Full(m.data) ==> Filled(m.code) == {})
    && (m.root.None? ==> Filled(m.data) == {} && Filled(m.code) == {})
  }

  lemma FilledIsFull(s: Slots)
    ensures |Filled(s)| <= |s|
    ensures |Filled(s)| == |s| <==> Full(s)
  {
    assert Filled(s) <= Range(0, |s|);
    SubsetSize(Filled(s), Range(0, |s|));
    if Full(s) {
      assert Filled(s) == Range(0, |s|);
    } else {
      var p :| 0 <= p < |s| && !s[p].Some?;
      assert p in Range(0, |s|) && p !in Filled(s);
    }
  }

  lemma FilledAt(s: Slots, p: nat)
    requires p < |s|
    ensures p in Filled(s) <==> s[p].Some?
  {
  }

  lemma FilledUpdate(s: Slots, p: nat, x: Shred)
    requires p < |s| && s[p].None?
    ensures Filled(s[p := Some(x)]) == Filled(s) + {p}
    ensures |Filled(s[p := Some(x)])| == |Filled(s)| + 1
  {
  }

  function SlotOf(m: FecModel, shred: Shred): Option<Shred>
    requires |m.data| == SHREDS_PER_SIDE && |m.code| == SHREDS_PER_SIDE && shred.Wf()
  {
    if shred.IsData() then m.data[shred.Position()] else m.code[shred.Position() - SHREDS_PER_SIDE]
  }

  /** The outcome of offering a shred: the cheap checks come before the Merkle root. */
  function Verdict(h: Hasher, m: FecModel, shred: Shred): Insert
    requires |m.data| == SHREDS_PER_SIDE && |m.code| == SHREDS_PER_SIDE && shred.Wf()
  {
    if !shred.IsData() && Full(m.data) then Unneeded
    else if SlotOf(m, shred).Some? then Duplicate
    else if shred.MerkleRoot(h).None? then Rejected(BadProof)
    else if m.root.None? then New
    else if m.root != shred.MerkleRoot(h) then Rejected(MerkleRootMismatch)
    else if m.signature != shred.Signature() then Rejected(SignatureMismatch)
    else New
  }

  /** The set with an accepted shred in its slot; the code shreds go as soon as the data is complete. */
  function WithShred(h: Hasher, m: FecModel, shred: Shred): FecModel
    requires |m.data| == SHREDS_PER_SIDE && |m.code| == SHREDS_PER_SIDE && shred.Wf()
  {
    var data := if shred.IsData() then m.data[shred.Position() := Some(shred)] else m.data;
    var code := if shred.IsData() then m.code else m.code[shred.Position() - SHREDS_PER_SIDE := Some(shred)];
    FecModel(data, if Full(data) then Empty() else code, shred.MerkleRoot(h), shred.Signature())
  }

  function FecInsert(h: Hasher, m: FecModel, shred: Shred): (r: (FecModel, Insert))
    requires |m.data| == SHREDS_PER_SIDE && |m.code| == SHREDS_PER_SIDE && shred.Wf()
  {
    var v := Verdict(h, m, shred);
    (if v.New? then WithShred(h, m, shred) else m, v)
  }

  // ---- recovery

  function FirstSome(s: Slots): Option<Shred> {
    if s == [] then None else if s[0].Some? then s[0] else FirstSome(s[1..])
  }

  function ShardAt(x: Option<Shred>, len: nat): (Bytes, bool)
    requires x.Some? ==> x.value.Wf()
  {
    if x.Some? then (x.value.ErasureShard(), true) else (Zeros(len), false)
  }

  ghost predicate AllWf(s: Slots) {
    forall p :: 0 <= p < |s| && s[p].Some? ==> s[p].value.Wf()
  }

  function ShardsOf(s: Slots, len: nat): (r: seq<(Bytes, bool)>)
    requires AllWf(s)
    ensures |r| == |s| && forall p :: 0 <= p < |s| ==> r[p] == ShardAt(s[p], len)
  {
    seq(|s|, p requires 0 <= p < |s| => ShardAt(s[p], len))
  }

  function Splice(b: Bytes, at: nat, part: Bytes): (r: Bytes)
    requires at + |part| <= |b|
    ensures |r| == |b|
  {
    b[..at] + part + b[at + |part|..]
  }

  /** The bytes of a missing data shred: the shard holds every header, the proof bytes stay zero. */
  function RebuildBytes(template: Shred, signature: Bytes, shard: Bytes): (r: Bytes)
    requires template.Wf() && |signature| == SIGNATURE_SIZE && |shard| == |template.ErasureShard()|
    ensures |r| == DATA_SHRED_SIZE
  {
    var chained := template.ChainedMerkleRoot();
    var b := Splice(Zeros(DATA_SHRED_SIZE), 0, signature);
    var b := Splice(b, SIGNATURE_SIZE, shard);
    var b := Splice(b, SIGNATURE_SIZE + |shard|, chained);
    match template.RetransmitterSignature()
    case None => b
    case Some(sig) => Splice(b, |b| - SIGNATURE_SIZE, sig)
  }

  function RebuildShred(template: Shred, signature: Bytes, shard: Bytes, position: nat)
    : (r: Result<Shred, RecoverError>)
    requires template.Wf() && |signature| == SIGNATURE_SIZE && |shard| == |template.ErasureShard()|
    requires position < SHREDS_PER_SIDE
    ensures r.Ok? ==> DataSlotOk(Some(r.value), position) && r.value.fecSetIndex == template.fecSetIndex
  {
    var bytes := RebuildBytes(template, signature, shard);
    var index := template.fecSetIndex + position;
    match Parse(bytes)
    case Err(e) => Err(InvalidShred(e))
    case Ok(s) =>
      ParseOk(bytes);
      if s.kind != Data || s.slot != template.slot || s.index != index || s.fecSetIndex != template.fecSetIndex ||
          s.version != template.version
      then Err(WrongHeaders(index))
      else Ok(s)
  }

  ghost predicate RebuildReady(template: Shred, signature: Bytes, shards: seq<Bytes>, data: Slots) {
    && template.Wf() && |signature| == SIGNATURE_SIZE && |data| == SHREDS_PER_SIDE <= |shards|
    && forall i :: 0 <= i < SHREDS_PER_SIDE && data[i].None? ==> |shards[i]| == |template.ErasureShard()|
  }

  function RebuildAt(template: Shred, signature: Bytes, shards: seq<Bytes>, data: Slots, p: nat)
    : (r: Result<Shred, RecoverError>)
    requires RebuildReady(template, signature, shards, data) && p < SHREDS_PER_SIDE
    ensures r.Ok? && data[p].None? ==> DataSlotOk(Some(r.value), p) && r.value.fecSetIndex == template.fecSetIndex
  {
    if data[p].Some? then Ok(data[p].value) else RebuildShred(template, signature, shards[p], p)
  }

  /** For every data position, the shred it has or the one its shard gives. */
  function RebuildAll(template: Shred, signature: Bytes, shards: seq<Bytes>, data: Slots)
    : (r: seq<Result<Shred, RecoverError>>)
    requires RebuildReady(template, signature, shards, data)
    ensures |r| == SHREDS_PER_SIDE
    ensures forall p :: 0 <= p < SHREDS_PER_SIDE ==> r[p] == RebuildAt(template, signature, shards, data, p)
  {
    seq(SHREDS_PER_SIDE, p requires 0 <= p < SHREDS_PER_SIDE => RebuildAt(template, signature, shards, data, p))
  }

  /** Fills the empty slots from position `p` on, stopping at the first that cannot be rebuilt. */
  function FillFrom(rebuilt: seq<Result<Shred, RecoverError>>, data: Slots, p: nat): (r: (Slots, Option<RecoverError>))
    requires |rebuilt| == |data| && p <= |data|
    ensures |r.0| == |data|
    decreases |data| - p
  {
    if p == |data| then (data, None)
    else if data[p].Some? then FillFrom(rebuilt, data, p + 1)
    else
      match rebuilt[p]
      case Err(e) => (data, Some(e))
      case Ok(s) => FillFrom(rebuilt, data[p := Some(s)], p + 1)
  }

  /** Indexes of the empty slots below `p`, in order. */
  function MissingIndexes(data: Slots, fecSetIndex: nat, p: nat): seq<nat>
    requires p <= |data|
  {
    if p == 0 then []
    else MissingIndexes(data, fecSetIndex, p - 1) + if data[p - 1].None? then [fecSetIndex + p - 1] else []
  }

  ghost predicate Recoverable(m: FecModel) {
    FecInv(m) && CanRecover(m)
  }

  function TemplateOf(m: FecModel): (r: Shred)
    requires Recoverable(m)
    ensures r.Wf()
    ensures exists p :: 0 <= p < SHREDS_PER_SIDE && m.code[p] == Some(r)
  {
    FirstSomeIn(m.code);
    var p :| p in Filled(m.code);
    FirstSomeFront(m.code, m.data);
    FirstSome(m.code + m.data).value
  }

  lemma {:induction false} FirstSomeIn(s: Slots)
    requires Filled(s) != {}
    ensures FirstSome(s).Some? && exists p :: 0 <= p < |s| && s[p] == FirstSome(s)
  {
    if s[0].None? {
      var p :| p in Filled(s);
      assert s[1..][p - 1] == s[p];
      assert p - 1 in Filled(s[1..]);
      FirstSomeIn(s[1..]);
      var q :| 0 <= q < |s[1..]| && s[1..][q] == FirstSome(s[1..]);
      assert s[q + 1] == FirstSome(s);
    }
  }

  lemma {:induction false} FirstSomeFront(s: Slots, t: Slots)
    requires Filled(s) != {}
    ensures FirstSome(s + t) == FirstSome(s)
  {
    if s[0].None? {
      var p :| p in Filled(s);
      assert s[1..][p - 1] == s[p];
      assert p - 1 in Filled(s[1..]);
      FirstSomeFront(s[1..], t);
      assert (s + t)[1..] == s[1..] + t;
    }
  }

  function FecRecover(rs: ReedSolomon, m: FecModel): (r: (FecModel, Result<seq<nat>, RecoverError>))
    requires Recoverable(m)
  {
    var template := TemplateOf(m);
    var shards := ShardsOf(m.data + m.code, |template.ErasureShard()|);
    match rs(shards)
    case None => (m, Err(ReedSolomonFailed))
    case Some(rebuilt) =>
      match FillFrom(RebuildAll(template, m.signature, rebuilt, m.data), m.data, 0)
      case (data, Some(e)) => (m.(data := data), Err(e))
      case (data, None) =>
        (m.(data := data, code := Empty()), Ok(MissingIndexes(m.data, template.fecSetIndex, SHREDS_PER_SIDE)))
  }

  // ---- what the steps keep

  /** Nothing stored is lost or replaced. */
  ghost predicate Extends(a: Slots, b: Slots) {
    |a| == |b| && forall p :: 0 <= p < |a| && a[p].Some? ==> b[p] == a[p]
  }

  lemma EmptyFilled()
    ensures Filled(Empty()) == {} && !Full(Empty())
  {
    assert Empty()[0].None?;
  }

  /** The slots after an accepted shred; the code slots may have been emptied. */
  lemma WithShredSlots(h: Hasher, m: FecModel, shred: Shred, p: nat)
    requires |m.data| == SHREDS_PER_SIDE && |m.code| == SHREDS_PER_SIDE && shred.Wf() && p < SHREDS_PER_SIDE
    ensures var n := WithShred(h, m, shred);
            && |n.data| == SHREDS_PER_SIDE && |n.code| == SHREDS_PER_SIDE
            && n.data[p] == (if shred.IsData() && shred.Position() == p then Some(shred) else m.data[p])
            && (n.code[p].Some? ==>
                  n.code[p] == if !shred.IsData() && shred.Position() == SHREDS_PER_SIDE + p then Some(shred)
                  else m.code[p])
  {
    hide Full, RootFromProof;
  }

  lemma FecInsertKeepsInv(h: Hasher, m: FecModel, shred: Shred)
    requires FecInv(m) && shred.Wf()
    ensures FecInv(FecInsert(h, m, shred).0)
    ensures Extends(m.data, FecInsert(h, m, shred).0.data)
  {
    hide WithShred, Filled, RootFromProof, DataSlotOk, CodeSlotOk, Full;
    if Verdict(h, m, shred).New? {
      var n := WithShred(h, m, shred);
      WithShredRest(h, m, shred);
      forall p | 0 <= p < SHREDS_PER_SIDE
        ensures DataSlotOk(n.data[p], p) && CodeSlotOk(n.code[p], p) && (m.data[p].Some? ==> n.data[p] == m.data[p])
      {
        WithShredSlots(h, m, shred, p);
        PlacedOk(m, shred, n, p);
      }
    }
  }

  lemma PlacedOk(m: FecModel, shred: Shred, n: FecModel, p: nat)
    requires FecInv(m) && shred.Wf() && p < SHREDS_PER_SIDE && |n.data| == SHREDS_PER_SIDE
    requires |n.code| == SHREDS_PER_SIDE
    requires n.data[p] == if shred.IsData() && shred.Position() == p then Some(shred) else m.data[p]
    requires n.code[p].Some? ==>
               n.code[p] == if !shred.IsData() && shred.Position() == SHREDS_PER_SIDE + p then Some(shred)
               else m.code[p]
    ensures DataSlotOk(n.data[p], p) && CodeSlotOk(n.code[p], p)
  {
    hide Filled, Full;
  }

  lemma WithShredRest(h: Hasher, m: FecModel, shred: Shred)
    requires FecInv(m) && shred.Wf() && Verdict(h, m, shred).New?
    ensures var n := WithShred(h, m, shred);
            |n.signature| == SIGNATURE_SIZE && n.root.Some? && (Full(n.data) ==> Filled(n.code) == {})
            && |n.data| == SHREDS_PER_SIDE && |n.code| == SHREDS_PER_SIDE
  {
    hide RootFromProof, Filled, Full;
    EmptyFilled();
  }

  lemma SlotsWf(m: FecModel)
    requires FecInv(m)
    ensures AllWf(m.data + m.code)
  {
    forall p | 0 <= p < |m.data + m.code| && (m.data + m.code)[p].Some?
      ensures (m.data + m.code)[p].value.Wf()
    {
      assert p < SHREDS_PER_SIDE ==> DataSlotOk(m.data[p], p);
      assert p >= SHREDS_PER_SIDE ==> CodeSlotOk(m.code[p - SHREDS_PER_SIDE], p - SHREDS_PER_SIDE);
    }
  }

  lemma FecShape(m: FecModel)
    requires FecInv(m)
    ensures |m.data| == SHREDS_PER_SIDE && |m.code| == SHREDS_PER_SIDE && |m.signature| == SIGNATURE_SIZE
  {
  }

  /** A set that holds anything knows its root. */
  lemma StoredMeansRoot(m: FecModel, p: nat)
    requires FecInv(m) && p < SHREDS_PER_SIDE && (m.data[p].Some? || m.code[p].Some?)
    ensures m.root.Some?
  {
    hide Full;
    FilledAt(m.data, p);
    FilledAt(m.code, p);
  }

  lemma {:induction false} FillFromKeeps(rebuilt: seq<Result<Shred, RecoverError>>, data: Slots, p: nat)
    requires |rebuilt| == |data| && p <= |data|
    requires forall i :: 0 <= i < p ==> data[i].Some?
    ensures var (filled, e) := FillFrom(rebuilt, data, p);
            && Extends(data, filled)
            && (forall i :: 0 <= i < |data| && data[i].None? && filled[i].Some? ==> rebuilt[i] == Ok(filled[i].value))
            && (e.None? <==> Full(filled))
            && (e.None? <==> forall i :: 0 <= i < |data| && data[i].None? ==> rebuilt[i].Ok?)
    decreases |data| - p
  {
    if p < |data| {
      if data[p].Some? {
        FillFromKeeps(rebuilt, data, p + 1);
      } else if rebuilt[p].Ok? {
        FillFromKeeps(rebuilt, data[p := Some(rebuilt[p].value)], p + 1);
      }
    }
  }

  lemma FillStep(rebuilt: seq<Result<Shred, RecoverError>>, data: Slots, p: nat)
    requires |rebuilt| == |data| && p < |data|
    ensures FillFrom(rebuilt, data, p) ==
            if data[p].Some? then FillFrom(rebuilt, data, p + 1)
            else if rebuilt[p].Err? then (data, Some(rebuilt[p].error))
            else FillFrom(rebuilt, data[p := Some(rebuilt[p].value)], p + 1)
  {
  }

  lemma FillDone(rebuilt: seq<Result<Shred, RecoverError>>, data: Slots)
    requires |rebuilt| == |data|
    ensures FillFrom(rebuilt, data, |data|) == (data, None)
  {
  }

  lemma MissingNone(data: Slots, f: nat)
    ensures MissingIndexes(data, f, 0) == []
  {
  }

  lemma MissingStep(data: Slots, f: nat, p: nat)
    requires p < |data|
    ensures MissingIndexes(data, f, p + 1) == MissingIndexes(data, f, p) + if data[p].None? then [f + p] else []
  {
  }

  lemma {:induction false} MissingIndexesAre(data: Slots, f: nat, p: nat)
    requires p <= |data|
    ensures forall i :: i in MissingIndexes(data, f, p) <==> f <= i < f + p && data[i - f].None?
  {
    if p > 0 {
      MissingIndexesAre(data, f, p - 1);
    }
  }

  lemma {:induction false} MissingIndexesAscend(data: Slots, f: nat, p: nat)
    requires p <= |data|
    ensures forall i, j :: 0 <= i < j < |MissingIndexes(data, f, p)| ==>
            MissingIndexes(data, f, p)[i] < MissingIndexes(data, f, p)[j]
  {
    if p > 0 {
      MissingIndexesAscend(data, f, p - 1);
      MissingIndexesAre(data, f, p - 1);
      var earlier := MissingIndexes(data, f, p - 1);
      forall i | 0 <= i < |earlier|
        ensures earlier[i] < f + p - 1
      {
        assert earlier[i] in earlier;
      }
    }
  }

  /**
   * Recovery either completes the set and reports exactly the indexes that were missing, in order, or fails and leaves
   * a set that still has everything it had.
   */
  lemma FecRecoverKeeps(rs: ReedSolomon, m: FecModel)
    requires Recoverable(m)
    ensures var (n, r) := FecRecover(rs, m);
            && FecInv(n)
            && Extends(m.data, n.data)
            && (forall p :: 0 <= p < SHREDS_PER_SIDE && m.data[p].None? && n.data[p].Some? ==>
               n.data[p].value.fecSetIndex == TemplateOf(m).fecSetIndex)
            && n.root == m.root && n.signature == m.signature
            && (r.Ok? ==> Full(n.data) && n.code == Empty())
            && (r.Err? ==> !Full(n.data) && n.code == m.code)
            && (r.Ok? ==> r.value == MissingIndexes(m.data, TemplateOf(m).fecSetIndex, SHREDS_PER_SIDE))
  {
    hide RebuildAt, FillFrom, MissingIndexes, TemplateOf, Empty;
    EmptyFilled();
    var t := TemplateOf(m);
    var shards := ShardsOf(m.data + m.code, |t.ErasureShard()|);
    if rs(shards).Some? {
      FillFromKeeps(RebuildAll(t, m.signature, rs(shards).value, m.data), m.data, 0);
    }
  }

  // ---- the set the program keeps

  class FecSet {
    var data: Slots
    var code: Slots
    var numData: nat
    var numCode: nat
    var root: Option<Hash32>
    var signature: Bytes

    ghost function Model(): FecModel
      reads this
    {
      FecModel(data, code, root, signature)
    }

    lemma ModelData()
      ensures Model().data == data
    {
    }

    /** The counters are the numbers of filled slots. */
    ghost predicate Valid()
      reads this
    {
      FecInv(Model()) && numData == |Filled(data)| && numCode == |Filled(code)|
    }

    constructor ()
      ensures Valid() && Model() == NEW_SET
    {
      data, code := Empty(), Empty();
      numData, numCode := 0, 0;
      root, signature := None, Zeros(SIGNATURE_SIZE);
      new;
      EmptyFilled();
    }

    predicate IsComplete()
      reads this
    {
      numData == SHREDS_PER_SIDE
    }

    predicate CanRecoverNow()
      requires Valid()
      reads this
      ensures CanRecoverNow() <==> CanRecover(Model())
    {
      FilledIsFull(data);
      !IsComplete() && numCode > 0 && numData + numCode >= SHREDS_PER_SIDE
    }

    method Insert(h: Hasher, shred: Shred) returns (r: Insert)
      requires Valid() && shred.Wf()
      modifies this
      ensures Valid()
      ensures (Model(), r) == FecInsert(h, old(Model()), shred)
    {
      FilledIsFull(data);
      FecInsertKeepsInv(h, Model(), shred);
      if shred.kind == Code && IsComplete() {
        return Unneeded;
      }
      if Get(shred).Some? {
        return Duplicate;
      }
      var computed := shred.MerkleRoot(h);
      if computed.None? {
        return Rejected(BadProof);
      }
      if root.None? {
        root := computed;
        signature := shred.Signature();
      } else if root != computed {
        return Rejected(MerkleRootMismatch);
      } else if signature != shred.Signature() {
        return Rejected(SignatureMismatch);
      }
      Store(shred);
      r := New;
    }

    function Get(shred: Shred): Option<Shred>
      requires |data| == SHREDS_PER_SIDE && |code| == SHREDS_PER_SIDE && shred.Wf()
      reads this
    {
      var position := shred.Position();
      if shred.IsData() then data[position] else code[position - SHREDS_PER_SIDE]
    }

    /** The tail of an insert: fill the slot, count it, drop the code shreds when the data is complete. */
    method Store(shred: Shred)
      requires |data| == SHREDS_PER_SIDE && |code| == SHREDS_PER_SIDE && shred.Wf() && Get(shred).None?
      requires numData == |Filled(data)| && numCode == |Filled(code)|
      modifies `data, `code, `numData, `numCode
      ensures data == if shred.IsData() then old(data)[shred.Position() := Some(shred)] else old(data)
      ensures code == if Full(data) then Empty()
                      else if shred.IsData() then old(code)
                      else old(code)[shred.Position() - SHREDS_PER_SIDE := Some(shred)]
      ensures numData == |Filled(data)| && numCode == |Filled(code)|
    {
      var position := shred.Position();
      if shred.IsData() {
        FillSlot(position, shred);
      } else {
        FilledUpdate(code, position - SHREDS_PER_SIDE, shred);
        code := code[position - SHREDS_PER_SIDE := Some(shred)];
        numCode := numCode + 1;
      }
      FilledIsFull(data);
      if IsComplete() {
        DropCode();
      }
    }

    method DropCode()
      modifies `code, `numCode
      ensures code == Empty() && numCode == |Filled(code)| == 0
    {
      EmptyFilled();
      code := Empty();
      numCode := 0;
    }

    method Recover(rs: ReedSolomon) returns (r: Result<seq<nat>, RecoverError>)
      requires Valid() && CanRecoverNow()
      modifies this
      ensures Valid()
      ensures (Model(), r) == FecRecover(rs, old(Model()))
    {
      hide FirstSome, RebuildAt, FillFrom, MissingIndexes, DataSlotOk, CodeSlotOk, Filled, Full, Empty;
      ghost var before := Model();
      SlotsWf(before);
      FecRecoverKeeps(rs, before);
      FirstSomeIn(code);
      FirstSomeFront(code, data);
      var template := FirstSome(code + data).value;
      assert template == TemplateOf(before);
      var shards := ShardsOf(data + code, |template.ErasureShard()|);
      var rebuilt := rs(shards);
      if rebuilt.None? {
        return Err(ReedSolomonFailed);
      }
      var failed, recovered := FillMissing(template, rebuilt.value);
      if failed.Some? {
        return Err(failed.value);
      }
      DropCode();
      r := Ok(recovered);
    }

    method FillSlot(position: nat, shred: Shred)
      requires position < |data| && data[position].None? && numData == |Filled(data)|
      modifies `data, `numData
      ensures data == old(data)[position := Some(shred)] && numData == |Filled(data)|
    {
      FilledUpdate(data, position, shred);
      data := data[position := Some(shred)];
      numData := numData + 1;
    }

    method RebuildMissing(template: Shred, shards: seq<Bytes>, position: nat, ghost before: Slots)
      returns (r: Result<Shred, RecoverError>)
      requires RebuildReady(template, signature, shards, before) && position < SHREDS_PER_SIDE && before[position].None?
      ensures r == RebuildAll(template, signature, shards, before)[position]
    {
      r := RebuildShred(template, signature, shards[position], position);
    }

    /** The loop of a recovery over the data positions. */
    method FillMissing(template: Shred, shards: seq<Bytes>) returns (failed: Option<RecoverError>, recovered: seq<nat>)
      requires RebuildReady(template, signature, shards, data) && numData == |Filled(data)|
      modifies `data, `numData
      ensures (data, failed) == FillFrom(RebuildAll(template, signature, shards, old(data)), old(data), 0)
      ensures numData == |Filled(data)|
      ensures failed.None? ==> recovered == MissingIndexes(old(data), template.fecSetIndex, SHREDS_PER_SIDE)
    {
      hide FillFrom, MissingIndexes, Filled, RebuildAt;
      failed, recovered := None, [];
      ghost var before := data;
      ghost var all := RebuildAll(template, signature, shards, data);
      var position := 0;
      MissingNone(before, template.fecSetIndex);
      while position < SHREDS_PER_SIDE
        invariant 0 <= position <= SHREDS_PER_SIDE == |data|
        invariant forall i :: position <= i < SHREDS_PER_SIDE ==> data[i] == before[i]
        invariant numData == |Filled(data)|
        invariant FillFrom(all, data, position) == FillFrom(all, before, 0)
        invariant recovered == MissingIndexes(before, template.fecSetIndex, position)
      {
        FillStep(all, data, position);
        if data[position].None? {
          var rebuilt := RebuildMissing(template, shards, position, before);
          if rebuilt.Err? {
            failed := Some(rebuilt.error);
            return;
          }
          FillSlot(position, rebuilt.value);
          recovered := recovered + [template.fecSetIndex + position];
        }
        MissingStep(before, template.fecSetIndex, position);
        position := position + 1;
      }
      FillDone(all, data);
    }
  }
}
