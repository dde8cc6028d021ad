/** The stated wire layouts as encoders, and the round trip: scanning an encoding finds exactly what was encoded. */
module Layout {
  import opened Wire
  import opened View
  import opened Rescan

  datatype Ix = Ix(program: byte, accounts: Bytes, data: Bytes)
  datatype TableLookup = TableLookup(table: Bytes, writable: Bytes, readonly: Bytes)
  datatype Body = Body(header: Bytes, keys: seq<Bytes>, blockhash: Bytes, instructions: seq<Ix>)

  /** The optional values of a v1 transaction: a fee of eight bytes and three values of four. */
  datatype TxConfig = TxConfig(fee: Option<Bytes>, first: Option<Bytes>, second: Option<Bytes>, third: Option<Bytes>)

  datatype Tx =
    | LegacyTx(signatures: seq<Bytes>, body: Body)
    | V0Tx(signatures: seq<Bytes>, body: Body, lookups: seq<TableLookup>)
    | V1Tx(signatures: seq<Bytes>, body: Body, config: TxConfig)

  datatype EntryData = EntryData(numHashes: nat, hash: Bytes, txs: seq<Tx>)

  const SHORT_LIMIT := 0x20_0000 // three bytes of seven bits

  /** The shortest compact form of a length. */
  function EncodeShort(n: nat): (r: Bytes)
    requires n < SHORT_LIMIT
    ensures 1 <= |r| <= 3
  {
    if n < 128 then [n]
    else if n < 16384 then [128 + n % 128, n / 128]
    else [128 + n % 128, 128 + n / 128 % 128, n / 16384]
  }

  function EncodeVec(b: Bytes): Bytes
    requires |b| < SHORT_LIMIT
  {
    EncodeShort(|b|) + b
  }

  predicate IxOk(ix: Ix) {
    |ix.accounts| < SHORT_LIMIT && |ix.data| < SHORT_LIMIT
  }

  function EncodeIx(ix: Ix): Bytes
    requires IxOk(ix)
  {
    [ix.program] + (EncodeVec(ix.accounts) + EncodeVec(ix.data))
  }

  function EncodeIxs(ixs: seq<Ix>): Bytes
    requires forall i :: 0 <= i < |ixs| ==> IxOk(ixs[i])
  {
    if ixs == [] then [] else EncodeIx(ixs[0]) + EncodeIxs(ixs[1..])
  }

  predicate LookupOk(l: TableLookup) {
    |l.table| == 32 && |l.writable| < SHORT_LIMIT && |l.readonly| < SHORT_LIMIT
  }

  function EncodeLookup(l: TableLookup): Bytes
    requires LookupOk(l)
  {
    l.table + (EncodeVec(l.writable) + EncodeVec(l.readonly))
  }

  function EncodeLookups(ls: seq<TableLookup>): Bytes
    requires forall i :: 0 <= i < |ls| ==> LookupOk(ls[i])
  {
    if ls == [] then [] else EncodeLookup(ls[0]) + EncodeLookups(ls[1..])
  }

  predicate BodyOk(m: Body) {
    && |m.header| == 3 && |m.blockhash| == 32 && Sized(m.keys, 32)
    && |m.keys| < SHORT_LIMIT && |m.instructions| < SHORT_LIMIT
    && forall i :: 0 <= i < |m.instructions| ==> IxOk(m.instructions[i])
  }

  function EncodeBody(m: Body): Bytes
    requires BodyOk(m)
  {
    m.header + ((EncodeShort(|m.keys|) + Concat(m.keys)) +
    (m.blockhash + (EncodeShort(|m.instructions|) + EncodeIxs(m.instructions))))
  }

  // v1: fixed-width counts, four-byte instruction headers, payloads, signatures last
  predicate V1IxOk(ix: Ix) {
    |ix.accounts| < 256 && |ix.data| < 65536
  }

  function IxHeader(ix: Ix): (r: Bytes)
    requires V1IxOk(ix)
    ensures |r| == 4
  {
    var accounts: byte := |ix.accounts|;
    [ix.program, accounts] + ToLe(|ix.data|, 2)
  }

  function IxHeaders(ixs: seq<Ix>): (r: Bytes)
    requires forall i :: 0 <= i < |ixs| ==> V1IxOk(ixs[i])
    ensures |r| == 4 * |ixs|
  {
    if ixs == [] then [] else IxHeader(ixs[0]) + IxHeaders(ixs[1..])
  }

  function IxPayloads(ixs: seq<Ix>): Bytes {
    if ixs == [] then [] else (ixs[0].accounts + ixs[0].data) + IxPayloads(ixs[1..])
  }

  predicate ConfigOk(c: TxConfig) {
    && (c.fee.Some? ==> |c.fee.value| == 8) && (c.first.Some? ==> |c.first.value| == 4)
    && (c.second.Some? ==> |c.second.value| == 4) && (c.third.Some? ==> |c.third.value| == 4)
  }

  function BytesOf(value: Option<Bytes>): Bytes {
    if value.Some? then value.value else []
  }

  /** The mask says which values are there; the fee takes its two lowest bits. */
  function MaskOf(c: TxConfig): nat {
    (if c.fee.Some? then 0x3 else 0) + (if c.first.Some? then 0x4 else 0) +
    (if c.second.Some? then 0x8 else 0) + (if c.third.Some? then 0x10 else 0)
  }

  function ConfigBytes(c: TxConfig): Bytes {
    BytesOf(c.fee) + BytesOf(c.first) + BytesOf(c.second) + BytesOf(c.third)
  }

  /** The scanner finds as many config bytes as were written. */
  lemma ConfigFits(c: TxConfig)
    requires ConfigOk(c)
    ensures MaskOf(c) < 32 && MaskOk(MaskOf(c)) && ConfigLen(MaskOf(c)) == |ConfigBytes(c)|
  {
  }

  function EncodeV1Head(t: Tx): (r: Bytes)
    requires TxOk(t) && t.V1Tx?
    ensures |r| == 42
  {
    [129] + (t.body.header + (ToLe(MaskOf(t.config), 4) + (t.body.blockhash + [|t.body.instructions|, |t.body.keys|])))
  }

  function EncodeV1Tail(t: Tx): Bytes
    requires TxOk(t) && t.V1Tx?
  {
    Concat(t.body.keys) + (ConfigBytes(t.config) + (IxHeaders(t.body.instructions) + IxPayloads(t.body.instructions)))
  }

  /** What a transaction must satisfy to be written in its layout. */
  predicate TxOk(t: Tx) {
    && Sized(t.signatures, 64)
    && match t
       case LegacyTx(signatures, body) => |signatures| < SHORT_LIMIT && BodyOk(body) && body.header[0] < 128
       case V0Tx(signatures, body, lookups) =>
         && |signatures| < SHORT_LIMIT && BodyOk(body) && |lookups| < SHORT_LIMIT
         && forall i :: 0 <= i < |lookups| ==> LookupOk(lookups[i])
       case V1Tx(signatures, body, config) =>
         && |signatures| < 256 && |body.header| == 3 && body.header[0] == |signatures|
         && ConfigOk(config)
         && |body.blockhash| == 32 && Sized(body.keys, 32) && |body.keys| < 256 && |body.instructions| < 256
         && forall i :: 0 <= i < |body.instructions| ==> V1IxOk(body.instructions[i])
  }

  function EncodeTx(t: Tx): Bytes
    requires TxOk(t)
  {
    match t
    case LegacyTx(signatures, body) => EncodeShort(|signatures|) + (Concat(signatures) + EncodeBody(body))
    case V0Tx(signatures, body, lookups) =>
      EncodeShort(|signatures|) + (Concat(signatures) +
      ([128] + (EncodeBody(body) + (EncodeShort(|lookups|) + EncodeLookups(lookups)))))
    case V1Tx(signatures, _, _) => EncodeV1Head(t) + (EncodeV1Tail(t) + Concat(signatures))
  }

  function VersionOf(t: Tx): TxVersion {
    match t
    case LegacyTx(_, _) => Legacy
    case V0Tx(_, _, _) => V0
    case V1Tx(_, _, _) => V1
  }

  /** What the scan can tell apart: a signature count that starts with 0x80 or more reads as a version byte. */
  predicate Scannable(t: Tx) {
    t.V1Tx? || |t.signatures| < 128
  }

  /** Where the first signature of an encoding is. */
  function SignaturesAt(t: Tx): nat
    requires TxOk(t)
  {
    if t.V1Tx? then 42 + |EncodeV1Tail(t)| else |EncodeShort(|t.signatures|)|
  }

  function Expected(t: Tx): TxView
    requires TxOk(t)
  {
    TxView(EncodeTx(t), VersionOf(t), SignaturesAt(t) % 65536, |t.signatures|)
  }

  // ---- scanning what was encoded

  lemma AtSplit(c: Bytes, p: nat, x: Bytes, y: Bytes)
    requires At(c, p, x + y)
    ensures At(c, p, x) && At(c, p + |x|, y)
  {
    var b := x + y;
    assert b[0..|b|] == b && b[0..|x|] == x && b[|x|..|b|] == y;
    AtSub(c, p, b, 0, |b|, 0, |x|);
    AtSub(c, p, b, 0, |b|, |x|, |b|);
  }

  lemma ShortAt(c: Bytes, p: nat, n: nat)
    requires n < SHORT_LIMIT && At(c, p, EncodeShort(n))
    ensures ShortLen(c, p) == Done(n, p + |EncodeShort(n)|)
  {
    hide ShortFrom;
    var found := c[p..p + |EncodeShort(n)|];
    assert c[p] == found[0];
    ShortUnfold(c, p, p, 0, 0);
    if n < 128 {
      ShortDigits(n, 0, 0, 0);
    } else {
      assert c[p + 1] == found[1];
      ShortUnfold(c, p + 1, p, 1, ShortValue(0, c[p], 0));
      if n < 16384 {
        ShortDigits(n % 128, n / 128, 0, n);
      } else {
        assert c[p + 2] == found[2];
        ShortUnfold(c, p + 2, p, 2, ShortValue(ShortValue(0, c[p], 0), c[p + 1], 1));
        ShortDigits(n % 128, n / 128 % 128, n / 16384, n);
      }
    }
  }

  /** The value of up to three digits, whatever their continuation bits. */
  lemma ShortDigits(a: nat, b: nat, c: nat, n: nat)
    requires a < 128 && b < 128 && c < 128
    ensures ShortValue(0, a, 0) == ShortValue(0, 128 + a, 0) == a
    ensures ShortValue(a, b, 1) == ShortValue(a, 128 + b, 1) == a + 128 * b
    ensures ShortValue(a + 128 * b, c, 2) == a + 128 * b + 16384 * c
    ensures n % 128 + 128 * (n / 128 % 128) + 16384 * (n / 16384) == n
  {
    assert Pow128(0) == 1 && Pow128(1) == 128 && Pow128(2) == 16384;
  }

  lemma ShortVecAt(c: Bytes, p: nat, n: nat, width: nat, payload: Bytes)
    requires n < SHORT_LIMIT && |payload| == n * width && At(c, p, EncodeShort(n) + payload)
    ensures ShortVec(c, p, width) == Done((), p + |EncodeShort(n) + payload|)
  {
    hide ShortLen, EncodeShort;
    AtSplit(c, p, EncodeShort(n), payload);
    ShortAt(c, p, n);
  }

  lemma IxAt(c: Bytes, p: nat, ix: Ix)
    requires IxOk(ix) && At(c, p, EncodeIx(ix))
    ensures Instruction(c, p) == Done((), p + |EncodeIx(ix)|)
  {
    hide ShortVec, EncodeShort;
    AtSplit(c, p, [ix.program], EncodeVec(ix.accounts) + EncodeVec(ix.data));
    AtSplit(c, p + 1, EncodeVec(ix.accounts), EncodeVec(ix.data));
    ShortVecAt(c, p + 1, |ix.accounts|, 1, ix.accounts);
    ShortVecAt(c, p + 1 + |EncodeVec(ix.accounts)|, |ix.data|, 1, ix.data);
  }

  lemma {:induction false} IxsAt(c: Bytes, p: nat, ixs: seq<Ix>)
    requires (forall i :: 0 <= i < |ixs| ==> IxOk(ixs[i])) && At(c, p, EncodeIxs(ixs))
    ensures Instructions(c, p, |ixs|) == Done((), p + |EncodeIxs(ixs)|)
    decreases |ixs|
  {
    hide Instruction, EncodeIx;
    if ixs != [] {
      AtSplit(c, p, EncodeIx(ixs[0]), EncodeIxs(ixs[1..]));
      IxAt(c, p, ixs[0]);
      IxsAt(c, p + |EncodeIx(ixs[0])|, ixs[1..]);
    }
  }

  lemma LookupAt(c: Bytes, p: nat, l: TableLookup)
    requires LookupOk(l) && At(c, p, EncodeLookup(l))
    ensures Lookup(c, p) == Done((), p + |EncodeLookup(l)|)
  {
    hide ShortVec, EncodeShort;
    AtSplit(c, p, l.table, EncodeVec(l.writable) + EncodeVec(l.readonly));
    AtSplit(c, p + 32, EncodeVec(l.writable), EncodeVec(l.readonly));
    ShortVecAt(c, p + 32, |l.writable|, 1, l.writable);
    ShortVecAt(c, p + 32 + |EncodeVec(l.writable)|, |l.readonly|, 1, l.readonly);
  }

  lemma {:induction false} LookupsAt(c: Bytes, p: nat, ls: seq<TableLookup>)
    requires (forall i :: 0 <= i < |ls| ==> LookupOk(ls[i])) && At(c, p, EncodeLookups(ls))
    ensures Lookups(c, p, |ls|) == Done((), p + |EncodeLookups(ls)|)
    decreases |ls|
  {
    hide Lookup, EncodeLookup;
    if ls != [] {
      AtSplit(c, p, EncodeLookup(ls[0]), EncodeLookups(ls[1..]));
      LookupAt(c, p, ls[0]);
      LookupsAt(c, p + |EncodeLookup(ls[0])|, ls[1..]);
    }
  }

  lemma IxListAt(c: Bytes, p: nat, ixs: seq<Ix>)
    requires |ixs| < SHORT_LIMIT && (forall i :: 0 <= i < |ixs| ==> IxOk(ixs[i]))
    requires At(c, p, EncodeShort(|ixs|) + EncodeIxs(ixs))
    ensures InstructionList(c, p) == Done((), p + |EncodeShort(|ixs|) + EncodeIxs(ixs)|)
  {
    hide ShortLen, Instructions, EncodeShort, EncodeIxs;
    AtSplit(c, p, EncodeShort(|ixs|), EncodeIxs(ixs));
    ShortAt(c, p, |ixs|);
    IxsAt(c, p + |EncodeShort(|ixs|)|, ixs);
  }

  lemma LookupListAt(c: Bytes, p: nat, ls: seq<TableLookup>)
    requires |ls| < SHORT_LIMIT && (forall i :: 0 <= i < |ls| ==> LookupOk(ls[i]))
    requires At(c, p, EncodeShort(|ls|) + EncodeLookups(ls))
    ensures LookupList(c, p) == Done((), p + |EncodeShort(|ls|) + EncodeLookups(ls)|)
  {
    hide ShortLen, Lookups, EncodeShort, EncodeLookups;
    AtSplit(c, p, EncodeShort(|ls|), EncodeLookups(ls));
    ShortAt(c, p, |ls|);
    LookupsAt(c, p + |EncodeShort(|ls|)|, ls);
  }

  /** The part of a message that both layouts share. */
  lemma BodyAt(c: Bytes, p: nat, m: Body)
    requires BodyOk(m) && At(c, p, EncodeBody(m))
    ensures Message(c, p, Legacy) == Done((), p + |EncodeBody(m)|)
  {
    hide ShortVec, InstructionList, EncodeShort, EncodeIxs;
    var keys := EncodeShort(|m.keys|) + Concat(m.keys);
    var ixs := EncodeShort(|m.instructions|) + EncodeIxs(m.instructions);
    AtSplit(c, p, m.header, keys + (m.blockhash + ixs));
    AtSplit(c, p + 3, keys, m.blockhash + ixs);
    AtSplit(c, p + 3 + |keys|, m.blockhash, ixs);
    ConcatSize(m.keys, 32);
    ShortVecAt(c, p + 3, |m.keys|, 32, Concat(m.keys));
    IxListAt(c, p + 3 + |keys| + 32, m.instructions);
  }

  lemma V0MessageAt(c: Bytes, p: nat, m: Body, ls: seq<TableLookup>)
    requires BodyOk(m) && |ls| < SHORT_LIMIT && (forall i :: 0 <= i < |ls| ==> LookupOk(ls[i]))
    requires At(c, p, EncodeBody(m) + (EncodeShort(|ls|) + EncodeLookups(ls)))
    ensures Message(c, p, V0) == Done((), p + |EncodeBody(m) + (EncodeShort(|ls|) + EncodeLookups(ls))|)
  {
    hide ShortVec, InstructionList, LookupList, EncodeBody, EncodeShort, EncodeLookups;
    AtSplit(c, p, EncodeBody(m), EncodeShort(|ls|) + EncodeLookups(ls));
    BodyAt(c, p, m);
    LookupListAt(c, p + |EncodeBody(m)|, ls);
  }

  lemma ShortIsOne(n: nat)
    requires n < 128
    ensures EncodeShort(n) == [n]
  {
  }

  lemma SignaturesFirst(c: Bytes, p: nat, signatures: seq<Bytes>, rest: Bytes)
    requires |signatures| < 128 && Sized(signatures, 64)
    requires At(c, p, EncodeShort(|signatures|) + (Concat(signatures) + rest))
    ensures ShortLen(c, p) == Done(|signatures|, p + 1)
    ensures |Concat(signatures)| == |signatures| * 64 && |EncodeShort(|signatures|)| == 1
    ensures At(c, p + 1 + |signatures| * 64, rest)
  {
    hide EncodeShort, Concat, ShortLen, At, Sized;
    ShortIsOne(|signatures|);
    AtSplit(c, p, EncodeShort(|signatures|), Concat(signatures) + rest);
    AtSplit(c, p + 1, Concat(signatures), rest);
    ShortAt(c, p, |signatures|);
    ConcatSize(signatures, 64);
  }

  /** A legacy or v0 scan from what its parts find. */
  lemma LegacyParts(c: Bytes, p: nat, n: nat, version: TxVersion, o: nat, end: nat)
    requires n < 128 && ShortLen(c, p) == Done(n, p + 1) && p + 1 + n * 64 <= |c|
    requires MessageVersion(c, p + 1 + n * 64) == Done(version, o) && Message(c, o, version) == Done((), end)
    ensures p <= end <= |c| && LegacyOrV0(c, p) == Done(TxView(c[p..end], version, 1, n), end)
  {
    hide ShortLen, Message, MessageVersion;
  }

  /** What follows the signatures in a legacy or v0 encoding. */
  function AfterSignatures(t: Tx): Bytes
    requires TxOk(t) && !t.V1Tx?
  {
    match t
    case LegacyTx(_, body) => EncodeBody(body)
    case V0Tx(_, body, lookups) => [128] + (EncodeBody(body) + (EncodeShort(|lookups|) + EncodeLookups(lookups)))
  }

  lemma EarlyParts(t: Tx)
    requires TxOk(t) && !t.V1Tx?
    ensures EncodeTx(t) == EncodeShort(|t.signatures|) + (Concat(t.signatures) + AfterSignatures(t))
  {
    hide EncodeV1Tail, EncodeBody, EncodeLookups, Concat, EncodeShort;
  }

  lemma EarlyShape(t: Tx)
    requires TxOk(t) && !t.V1Tx? && Scannable(t)
    ensures EncodeTx(t) == EncodeShort(|t.signatures|) + (Concat(t.signatures) + AfterSignatures(t))
    ensures |EncodeTx(t)| == 1 + |t.signatures| * 64 + |AfterSignatures(t)|
    ensures Expected(t) == TxView(EncodeTx(t), VersionOf(t), 1, |t.signatures|)
  {
    hide EncodeV1Tail, EncodeBody, EncodeLookups, Concat;
    ConcatSize(t.signatures, 64);
  }

  /** A legacy or v0 encoding is found whole once its message is. */
  lemma EarlyAt(c: Bytes, p: nat, t: Tx, o: nat)
    requires TxOk(t) && !t.V1Tx? && Scannable(t) && At(c, p, EncodeTx(t))
    requires MessageVersion(c, p + 1 + |t.signatures| * 64) == Done(VersionOf(t), o)
    requires Message(c, o, VersionOf(t)) == Done((), p + 1 + |t.signatures| * 64 + |AfterSignatures(t)|)
    ensures LegacyOrV0(c, p) == Done(Expected(t), p + |EncodeTx(t)|)
  {
    hide ShortLen, Message, MessageVersion, LegacyOrV0, Expected, EncodeTx, EncodeShort, Concat, AfterSignatures, Sized,
         BodyOk;
    EarlyShape(t);
    SignaturesFirst(c, p, t.signatures, AfterSignatures(t));
    LegacyParts(c, p, |t.signatures|, VersionOf(t), o, p + |EncodeTx(t)|);
  }

  lemma LegacyAt(c: Bytes, p: nat, t: Tx)
    requires TxOk(t) && t.LegacyTx? && Scannable(t) && At(c, p, EncodeTx(t))
    ensures LegacyOrV0(c, p) == Done(Expected(t), p + |EncodeTx(t)|)
  {
    hide ShortLen, Message, EncodeBody, EncodeShort, Concat, Sized, BodyOk, LegacyOrV0, Expected, EncodeTx;
    EarlyShape(t);
    SignaturesFirst(c, p, t.signatures, AfterSignatures(t));
    var o := p + 1 + |t.signatures| * 64;
    BodyAt(c, o, t.body);
    FirstByte(c, o, t.body);
    EarlyAt(c, p, t, o);
  }

  lemma FirstByte(c: Bytes, o: nat, m: Body)
    requires BodyOk(m) && At(c, o, EncodeBody(m))
    ensures o < |c| && c[o] == m.header[0]
  {
    assert c[o] == c[o..o + |EncodeBody(m)|][0] == EncodeBody(m)[0];
  }

  lemma V0At(c: Bytes, p: nat, t: Tx)
    requires TxOk(t) && t.V0Tx? && Scannable(t) && At(c, p, EncodeTx(t))
    ensures LegacyOrV0(c, p) == Done(Expected(t), p + |EncodeTx(t)|)
  {
    hide ShortLen, Message, EncodeBody, EncodeLookups, EncodeShort, Concat, Sized, BodyOk, LegacyOrV0, Expected,
         MessageVersion, EncodeTx;
    EarlyShape(t);
    SignaturesFirst(c, p, t.signatures, AfterSignatures(t));
    var o := p + 1 + |t.signatures| * 64;
    V0Marker(c, o, EncodeBody(t.body) + (EncodeShort(|t.lookups|) + EncodeLookups(t.lookups)));
    V0MessageAt(c, o + 1, t.body, t.lookups);
    EarlyAt(c, p, t, o + 1);
  }

  lemma V0Marker(c: Bytes, o: nat, message: Bytes)
    requires At(c, o, [128] + message)
    ensures MessageVersion(c, o) == Done(V0, o + 1) && At(c, o + 1, message)
  {
    AtSplit(c, o, [128], message);
    assert c[o] == c[o..o + 1][0] == 128;
  }

  lemma V1HeadAt(c: Bytes, p: nat, t: Tx)
    requires TxOk(t) && t.V1Tx? && At(c, p, EncodeV1Head(t))
    ensures V1Head(c, p) == Done((|t.signatures|, MaskOf(t.config), |t.body.instructions|, |t.body.keys|), p + 42)
  {
    hide MaskOf, MaskOk, ConfigBytes;
    ConfigFits(t.config);
    var counts: Bytes := [|t.body.instructions|, |t.body.keys|];
    AtSplit(c, p, [129], t.body.header + (ToLe(MaskOf(t.config), 4) + (t.body.blockhash + counts)));
    AtSplit(c, p + 1, t.body.header, ToLe(MaskOf(t.config), 4) + (t.body.blockhash + counts));
    AtSplit(c, p + 4, ToLe(MaskOf(t.config), 4), t.body.blockhash + counts);
    AtSplit(c, p + 8, t.body.blockhash, counts);
    assert c[p + 1] == c[p + 1..p + 4][0];
    assert c[p + 40] == c[p + 40..p + 42][0] && c[p + 41] == c[p + 40..p + 42][1];
    MaskRoundTrip(MaskOf(t.config));
  }

  lemma MaskRoundTrip(mask: nat)
    requires mask < 32
    ensures FromLe(ToLe(mask, 4)) == mask
  {
    assert Pow256(4) == 256 * Pow256(3) && Pow256(3) >= 1;
    LeRoundTrip(mask, 4);
  }

  /** The instruction headers announce exactly the payload bytes. */
  lemma {:induction false} HeadersAnnounce(ixs: seq<Ix>)
    requires forall i :: 0 <= i < |ixs| ==> V1IxOk(ixs[i])
    ensures PayloadsLen(IxHeaders(ixs)) == |IxPayloads(ixs)|
  {
    if ixs != [] {
      HeadersAnnounce(ixs[1..]);
      var h := IxHeaders(ixs);
      assert h[..4] == IxHeader(ixs[0]) && h[4..] == IxHeaders(ixs[1..]);
      assert h[1] == |ixs[0].accounts|;
      assert h[2..4] == ToLe(|ixs[0].data|, 2);
      assert Pow256(2) == 65536 by { assert Pow256(1) == 256; }
      LeRoundTrip(|ixs[0].data|, 2);
    }
  }

  lemma V1TailAt(c: Bytes, p: nat, t: Tx)
    requires TxOk(t) && t.V1Tx? && At(c, p, EncodeV1Tail(t))
    ensures V1Tail(c, p, MaskOf(t.config), |t.body.instructions|, |t.body.keys|) == Done((), p + |EncodeV1Tail(t)|)
  {
    hide ConfigLen, PayloadsLen, IxHeaders, IxPayloads, MaskOk, MaskOf, ConfigBytes;
    var keys, headers, payloads := Concat(t.body.keys), IxHeaders(t.body.instructions), IxPayloads(t.body.instructions);
    var config := ConfigBytes(t.config);
    AtSplit(c, p, keys, config + (headers + payloads));
    AtSplit(c, p + |keys|, config, headers + payloads);
    AtSplit(c, p + |keys| + |config|, headers, payloads);
    ConfigFits(t.config);
    ConcatSize(t.body.keys, 32);
    HeadersAnnounce(t.body.instructions);
  }

  lemma V1At(c: Bytes, p: nat, t: Tx)
    requires TxOk(t) && t.V1Tx? && At(c, p, EncodeTx(t))
    ensures VersionOne(c, p) == Done(Expected(t), p + |EncodeTx(t)|)
  {
    hide V1Head, V1Tail, EncodeV1Head, EncodeV1Tail, MaskOk, ConfigLen, Concat, Sized;
    AtSplit(c, p, EncodeV1Head(t), EncodeV1Tail(t) + Concat(t.signatures));
    AtSplit(c, p + 42, EncodeV1Tail(t), Concat(t.signatures));
    V1HeadAt(c, p, t);
    V1TailAt(c, p + 42, t);
    ConcatSize(t.signatures, 64);
    var signatures := p + 42 + |EncodeV1Tail(t)|;
    assert Take(c, signatures, |t.signatures| * 64) == Done(Concat(t.signatures), p + |EncodeTx(t)|);
  }

  /**
   * Layout round trip: wherever an encoding stands and whatever follows it, scanning there consumes exactly the
   * encoding and reports its bytes, version, signature count and signature offset.
   */
  lemma TransactionRoundTrip(c: Bytes, p: nat, t: Tx)
    requires TxOk(t) && Scannable(t) && At(c, p, EncodeTx(t))
    ensures Transaction(c, p) == Done(Expected(t), p + |EncodeTx(t)|)
  {
    hide LegacyOrV0, VersionOne, EncodeBody, EncodeLookups, EncodeV1Tail;
    var e := EncodeTx(t);
    assert c[p] == c[p..p + |e|][0];
    match t {
      case LegacyTx(_, _) => LegacyAt(c, p, t);
      case V0Tx(_, _, _) => V0At(c, p, t);
      case V1Tx(_, _, _) => V1At(c, p, t);
    }
  }

  /**
   * With 128 signatures or more, a legacy or v0 encoding is never found as one: its first byte reads as an unknown
   * version, or, for 129 signatures and every 128 more, as that of a v1 transaction.
   */
  lemma ManySignatures(c: Bytes, p: nat, t: Tx)
    requires TxOk(t) && !Scannable(t) && At(c, p, EncodeTx(t))
    ensures var first := 128 + |t.signatures| % 128;
            Transaction(c, p) == if first == 129 then VersionOne(c, p) else Fail(UnknownVersion(first), p)
    ensures Transaction(c, p).Done? ==> Transaction(c, p).value.version == V1 != VersionOf(t)
  {
    hide EncodeTx, Concat, AfterSignatures, LegacyOrV0, VersionOne, BodyOk, Sized, LookupOk;
    EarlyParts(t);
    ManyFirst(|t.signatures|);
    var n := EncodeShort(|t.signatures|);
    AtSplit(c, p, n, Concat(t.signatures) + AfterSignatures(t));
    AtIs(c, p, n);
    assert c[p] == c[p..p + |n|][0];
    if Transaction(c, p).Done? {
      LateSignatures(c, p);
    }
  }

  lemma ManyFirst(n: nat)
    requires 128 <= n < SHORT_LIMIT
    ensures EncodeShort(n)[0] == 128 + n % 128
  {
  }

  /** Exactly the encodings with fewer than 128 signatures, and all v1 encodings, come back. */
  lemma RoundTripIff(c: Bytes, p: nat, t: Tx)
    requires TxOk(t) && At(c, p, EncodeTx(t))
    ensures Transaction(c, p) == Done(Expected(t), p + |EncodeTx(t)|) <==> Scannable(t)
  {
    hide EncodeTx, Transaction, TxOk, At, Scannable;
    if Scannable(t) {
      TransactionRoundTrip(c, p, t);
    } else {
      ManySignatures(c, p, t);
    }
  }

  /** The reported offset leads to the first signature, if there is one and the offset fits its 16-bit field. */
  lemma FirstSignature(t: Tx)
    requires TxOk(t) && |t.signatures| >= 1 && SignaturesAt(t) < 65536
    ensures Expected(t).signaturesOffset + 64 <= |Expected(t).bytes|
    ensures Expected(t).Signature() == t.signatures[0]
  {
    hide EncodeTx, SignaturesAt, Concat, TxOk, Around, VersionOf;
    FirstSized(t);
    ConcatFirst(t.signatures);
    var (front, rest) := Around(t);
    FrontPart(front, Concat(t.signatures), rest);
  }

  lemma FirstSized(t: Tx)
    requires TxOk(t)
    ensures Sized(t.signatures, 64)
  {
  }

  /** What stands before and after the signatures of an encoding. */
  ghost function Around(t: Tx): (r: (Bytes, Bytes))
    requires TxOk(t)
    ensures EncodeTx(t) == r.0 + Concat(t.signatures) + r.1 && |r.0| == SignaturesAt(t)
  {
    hide EncodeBody, EncodeLookups, EncodeV1Tail, EncodeV1Head, Concat, Sized, BodyOk, EncodeShort, AfterSignatures;
    if t.V1Tx? then
      assert EncodeTx(t) == EncodeV1Head(t) + EncodeV1Tail(t) + Concat(t.signatures) + [];
      (EncodeV1Head(t) + EncodeV1Tail(t), [])
    else
      EarlyParts(t);
      assert EncodeTx(t) == EncodeShort(|t.signatures|) + Concat(t.signatures) + AfterSignatures(t);
      (EncodeShort(|t.signatures|), AfterSignatures(t))
  }

  lemma FrontPart(front: Bytes, all: Bytes, rest: Bytes)
    requires |all| >= 64
    ensures (front + all + rest)[|front|..|front| + 64] == all[..64]
  {
  }

  lemma ConcatFirst(xs: seq<Bytes>)
    requires xs != [] && Sized(xs, 64)
    ensures |Concat(xs)| >= 64 && Concat(xs)[..64] == xs[0]
  {
  }

  /** A v1 transaction with two instructions of 65535 bytes, which push its signature past 65536. */
  function FarSignature(signature: Bytes): Tx {
    var ix := Ix(0, [], Zeros(65535));
    V1Tx([signature], Body([1, 0, 0], [], Zeros(32), [ix, ix]), TxConfig(None, None, None, None))
  }

  lemma FarTail(signature: Bytes)
    requires |signature| == 64
    ensures TxOk(FarSignature(signature))
    ensures |EncodeV1Tail(FarSignature(signature))| == 131078 && EncodeV1Tail(FarSignature(signature))[6] == 255
  {
    hide Zeros;
    var ixs := FarSignature(signature).body.instructions;
    assert ixs[1..] == [ixs[0]] && ixs[1..][1..] == [];
    assert |IxPayloads(ixs)| == 131070;
    assert IxHeaders(ixs)[4..] == IxHeaders(ixs[1..]) == IxHeader(ixs[0]);
    assert ToLe(65535, 2)[0] == 255;
  }

  /**
   * The 16-bit offset does go wrong: this transaction is scanned whole, and what is read as its signature is not it.
   */
  lemma FarSignatureMissed(signature: Bytes)
    requires |signature| == 64 && signature[0] != 255
    ensures TxOk(FarSignature(signature)) && SignaturesAt(FarSignature(signature)) == 131120
    ensures var t := FarSignature(signature);
            var scan := Transaction(EncodeTx(t), 0);
            && scan.Done? && scan.at == |EncodeTx(t)| && scan.value.numSignatures == 1 &&
               scan.value.signaturesOffset == 48
            && 48 + 64 <= |scan.value.bytes| && scan.value.Signature() != t.signatures[0]
  {
    hide Transaction, EncodeV1Head, EncodeV1Tail, FarSignature;
    var t := FarSignature(signature);
    FarTail(signature);
    var e := EncodeTx(t);
    assert t.V1Tx? && t.signatures == [signature] by { FarShape(signature); }
    assert At(e, 0, e);
    TransactionRoundTrip(e, 0, t);
    assert e[48] == EncodeV1Tail(t)[6];
  }

  lemma FarShape(signature: Bytes)
    ensures FarSignature(signature).V1Tx? && FarSignature(signature).signatures == [signature]
  {
  }

  // ---- whole segments

  predicate AllScannable(ts: seq<Tx>) {
    forall i :: 0 <= i < |ts| ==> TxOk(ts[i]) && Scannable(ts[i])
  }

  predicate EntryOk(e: EntryData) {
    e.numHashes < Pow256(8) && |e.hash| == 32 && |e.txs| < Pow256(8) && AllScannable(e.txs)
  }

  function EncodeTxs(ts: seq<Tx>): Bytes
    requires forall i :: 0 <= i < |ts| ==> TxOk(ts[i])
  {
    if ts == [] then [] else EncodeTx(ts[0]) + EncodeTxs(ts[1..])
  }

  function ExpectedTxs(ts: seq<Tx>): seq<TxView>
    requires forall i :: 0 <= i < |ts| ==> TxOk(ts[i])
  {
    if ts == [] then [] else [Expected(ts[0])] + ExpectedTxs(ts[1..])
  }

  function EncodeEntry(e: EntryData): Bytes
    requires EntryOk(e)
  {
    ToLe(e.numHashes, 8) + (e.hash + (ToLe(|e.txs|, 8) + EncodeTxs(e.txs)))
  }

  function ExpectedEntry(e: EntryData): EntryView
    requires EntryOk(e)
  {
    EntryView(e.numHashes, e.hash, |e.txs|, EncodeTxs(e.txs))
  }

  function EncodeEntries(es: seq<EntryData>): Bytes
    requires forall i :: 0 <= i < |es| ==> EntryOk(es[i])
  {
    if es == [] then [] else EncodeEntry(es[0]) + EncodeEntries(es[1..])
  }

  function ExpectedEntries(es: seq<EntryData>): seq<Result<EntryView, ViewError>>
    requires forall i :: 0 <= i < |es| ==> EntryOk(es[i])
  {
    if es == [] then [] else [Ok(ExpectedEntry(es[0]))] + ExpectedEntries(es[1..])
  }

  function EncodeSegment(es: seq<EntryData>): Bytes
    requires |es| < Pow256(8) && forall i :: 0 <= i < |es| ==> EntryOk(es[i])
  {
    ToLe(|es|, 8) + EncodeEntries(es)
  }

  lemma U64At(c: Bytes, p: nat, n: nat)
    requires n < Pow256(8) && At(c, p, ToLe(n, 8))
    ensures U64(c, p) == Done(n, p + 8)
  {
    LeRoundTrip(n, 8);
  }

  lemma {:induction false} TxsAt(c: Bytes, p: nat, ts: seq<Tx>)
    requires AllScannable(ts) && At(c, p, EncodeTxs(ts))
    ensures Transactions(c, p, |ts|) == Done(ExpectedTxs(ts), p + |EncodeTxs(ts)|)
    decreases |ts|
  {
    hide Transaction, EncodeTx, Expected, TxOk, Scannable;
    if ts != [] {
      AtSplit(c, p, EncodeTx(ts[0]), EncodeTxs(ts[1..]));
      TransactionRoundTrip(c, p, ts[0]);
      TxsAt(c, p + |EncodeTx(ts[0])|, ts[1..]);
    }
  }

  lemma EntryAt(c: Bytes, p: nat, e: EntryData)
    requires EntryOk(e) && At(c, p, EncodeEntry(e))
    ensures Entry(c, p) == Done(ExpectedEntry(e), p + |EncodeEntry(e)|)
  {
    hide Transactions, EncodeTxs, U64, ToLe, Pow256, TxOk, At;
    var txs := EncodeTxs(e.txs);
    AtSplit(c, p, ToLe(e.numHashes, 8), e.hash + (ToLe(|e.txs|, 8) + txs));
    AtSplit(c, p + 8, e.hash, ToLe(|e.txs|, 8) + txs);
    AtSplit(c, p + 40, ToLe(|e.txs|, 8), txs);
    AtIs(c, p + 8, e.hash);
    AtIs(c, p + 48, txs);
    U64At(c, p, e.numHashes);
    U64At(c, p + 40, |e.txs|);
    TxsAt(c, p + 48, e.txs);
  }

  lemma AtIs(c: Bytes, p: nat, part: Bytes)
    requires At(c, p, part)
    ensures p + |part| <= |c| && c[p..p + |part|] == part
  {
  }

  lemma {:induction false} EntriesAt(c: Bytes, p: nat, es: seq<EntryData>)
    requires (forall i :: 0 <= i < |es| ==> EntryOk(es[i])) && At(c, p, EncodeEntries(es))
    ensures EntryItems(c, p, |es|) == ExpectedEntries(es)
    decreases |es|
  {
    hide Entry, EncodeEntry, ExpectedEntry, EntryOk;
    if es != [] {
      AtSplit(c, p, EncodeEntry(es[0]), EncodeEntries(es[1..]));
      EntryAt(c, p, es[0]);
      EntriesAt(c, p + |EncodeEntry(es[0])|, es[1..]);
    }
  }

  /** The round trip of a whole segment, with any trailing bytes: every entry comes back, and no error. */
  lemma SegmentRoundTrip(es: seq<EntryData>, trailing: Bytes)
    requires |es| < Pow256(8) && forall i :: 0 <= i < |es| ==> EntryOk(es[i])
    ensures SegmentItems(EncodeSegment(es) + trailing) == Ok(ExpectedEntries(es))
  {
    hide EncodeEntries, EntryItems, ToLe, U64, EntryOk, Pow256;
    var c := EncodeSegment(es) + trailing;
    assert c[0..|EncodeSegment(es)|] == EncodeSegment(es);
    AtSplit(c, 0, ToLe(|es|, 8), EncodeEntries(es));
    U64At(c, 0, |es|);
    EntriesAt(c, 8, es);
  }
}
