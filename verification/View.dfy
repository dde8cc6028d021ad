/** Walking a deshredded segment: what a scan finds at an offset, as functions of the bytes. */
module View {
  import opened Wire

  datatype ViewError =
    | Truncated(at: nat)
    | BadShortVec(at: nat)
    | UnknownVersion(first: byte)
    | BadConfigMask

  datatype TxVersion = Legacy | V0 | V1

  /** The result of a scan: a value or an error, and where the cursor is afterwards. */
  datatype Scan<+T> = Done(value: T, at: nat) | Fail(error: ViewError, at: nat)
  {
    predicate IsFailure() { Fail? }

    function PropagateFailure<U>(): Scan<U>
      requires Fail?
    {
      Fail(error, at)
    }

    function Extract(): (T, nat)
      requires Done?
    {
      (value, at)
    }
  }

  /**
   * One transaction: its exact bytes and where its signatures are. Both counts are as narrow as the program's fields.
   */
  datatype TxView = TxView(bytes: Bytes, version: TxVersion, signaturesOffset: nat, numSignatures: nat)
  {
    /** What a reader takes for the first signature, and so for the id. */
    function Signature(): Bytes
      requires signaturesOffset + 64 <= |bytes|
    {
      bytes[signaturesOffset..signaturesOffset + 64]
    }
  }

  datatype EntryView = EntryView(numHashes: nat, hash: Bytes, numTransactions: nat, transactions: Bytes)

  // ---- primitives

  function Take(b: Bytes, o: nat, n: nat): (r: Scan<Bytes>)
    ensures r.Done? ==> o <= r.at <= |b|
  {
    if o + n <= |b| then Done(b[o..o + n], o + n) else Fail(Truncated(o), o)
  }

  function U8(b: Bytes, o: nat): (r: Scan<byte>)
    ensures r.Done? ==> r.at == o + 1 <= |b| && r.value == b[o]
  {
    var (x, o) :- Take(b, o, 1);
    Done(x[0], o)
  }

  function U64(b: Bytes, o: nat): (r: Scan<nat>)
    ensures r.Done? ==> r.at == o + 8 <= |b|
  {
    var (x, o) :- Take(b, o, 8);
    Done(FromLe(x), o)
  }

  function Pow128(k: nat): nat {
    if k == 0 then 1 else 128 * Pow128(k - 1)
  }

  /** Byte `k` of a compact length that starts at `start`: seven bits each, at most three bytes. */
  function ShortFrom(b: Bytes, o: nat, start: nat, k: nat, value: nat): (r: Scan<nat>)
    requires k <= 3
    ensures r.Done? ==> o < r.at <= |b|
    decreases 3 - k
  {
    if k == 3 then Fail(BadShortVec(start), o)
    else
      var (x, o) :- U8(b, o);
      var v := ShortValue(value, x, k);
      if x < 128 then Done(v, o) else ShortFrom(b, o, start, k + 1, v)
  }

  /** The value after byte `k` of a compact length. */
  function ShortValue(value: nat, x: byte, k: nat): nat {
    value + x % 128 * Pow128(k)
  }

  lemma ShortUnfold(b: Bytes, o: nat, start: nat, k: nat, value: nat)
    requires k < 3
    ensures ShortFrom(b, o, start, k, value) ==
            if o >= |b| then Fail(Truncated(o), o)
            else if b[o] < 128 then Done(ShortValue(value, b[o], k), o + 1)
            else ShortFrom(b, o + 1, start, k + 1, ShortValue(value, b[o], k))
  {
    hide Pow128;
  }

  lemma ShortTooLong(b: Bytes, o: nat, start: nat, value: nat)
    ensures ShortFrom(b, o, start, 3, value) == Fail(BadShortVec(start), o)
  {
  }

  function ShortLen(b: Bytes, o: nat): (r: Scan<nat>)
    ensures r.Done? ==> o < r.at <= |b|
  {
    ShortFrom(b, o, o, 0, 0)
  }

  lemma NatTimes(a: nat, b: nat)
    ensures a * b >= 0
  {
  }

  /** A compact length and that many items of `width` bytes. */
  function ShortVec(b: Bytes, o: nat, width: nat): (r: Scan<()>)
    ensures r.Done? ==> o < r.at <= |b|
  {
    var (n, o) :- ShortLen(b, o);
    NatTimes(n, width);
    var (_, o) :- Take(b, o, n * width);
    Done((), o)
  }

  // ---- transactions

  function Instruction(b: Bytes, o: nat): (r: Scan<()>)
    ensures r.Done? ==> o < r.at <= |b|
  {
    var (_, o) :- U8(b, o);
    var (_, o) :- ShortVec(b, o, 1);
    ShortVec(b, o, 1)
  }

  function Instructions(b: Bytes, o: nat, n: nat): (r: Scan<()>)
    requires o <= |b|
    ensures r.Done? ==> o <= r.at <= |b|
    decreases n
  {
    if n == 0 then Done((), o)
    else
      var (_, o) :- Instruction(b, o);
      Instructions(b, o, n - 1)
  }

  function Lookup(b: Bytes, o: nat): (r: Scan<()>)
    ensures r.Done? ==> o < r.at <= |b|
  {
    var (_, o) :- Take(b, o, 32);
    var (_, o) :- ShortVec(b, o, 1);
    ShortVec(b, o, 1)
  }

  function Lookups(b: Bytes, o: nat, n: nat): (r: Scan<()>)
    requires o <= |b|
    ensures r.Done? ==> o <= r.at <= |b|
    decreases n
  {
    if n == 0 then Done((), o)
    else
      var (_, o) :- Lookup(b, o);
      Lookups(b, o, n - 1)
  }

  function InstructionList(b: Bytes, o: nat): (r: Scan<()>)
    ensures r.Done? ==> o < r.at <= |b|
  {
    var (n, o) :- ShortLen(b, o);
    Instructions(b, o, n)
  }

  function LookupList(b: Bytes, o: nat): (r: Scan<()>)
    ensures r.Done? ==> o < r.at <= |b|
  {
    var (n, o) :- ShortLen(b, o);
    Lookups(b, o, n)
  }

  /** Header, keys, blockhash, instructions and, for v0, the table lookups. */
  function Message(b: Bytes, o: nat, version: TxVersion): (r: Scan<()>)
    ensures r.Done? ==> o + 37 <= r.at <= |b|
  {
    var (_, o) :- Take(b, o, 3);
    var (_, o) :- ShortVec(b, o, 32);
    var (_, o) :- Take(b, o, 32);
    var (_, o) :- InstructionList(b, o);
    if version == V0 then LookupList(b, o) else Done((), o)
  }

  /** Legacy messages start with a byte below 0x80, v0 messages with 0x80. */
  function MessageVersion(b: Bytes, o: nat): (r: Scan<TxVersion>)
    ensures r.Done? ==> o <= r.at <= |b|
  {
    if o >= |b| then Fail(Truncated(o), o)
    else if b[o] < 128 then Done(Legacy, o)
    else if b[o] == 128 then Done(V0, o + 1)
    else Fail(UnknownVersion(b[o]), o)
  }

  function ViewOf(b: Bytes, start: nat, end: nat, version: TxVersion, signatures: nat, count: nat): TxView
    requires start <= signatures && start <= end <= |b|
  {
    TxView(b[start..end], version, (signatures - start) % 65536, count % 256)
  }

  function LegacyOrV0(b: Bytes, start: nat): (r: Scan<TxView>)
    ensures r.Done? ==> start + 38 <= r.at <= |b| && r.value.bytes == b[start..r.at]
  {
    var (n, signatures) :- ShortLen(b, start);
    var (_, o) :- Take(b, signatures, n * 64);
    var (version, o) :- MessageVersion(b, o);
    var (_, o) :- Message(b, o, version);
    Done(ViewOf(b, start, o, version, signatures, n), o)
  }

  predicate MaskOk(mask: nat) {
    mask < 32 && (mask % 4 == 0 || mask % 4 == 3)
  }

  function ConfigLen(mask: nat): nat {
    (if mask % 4 != 0 then 8 else 0) + (if mask / 4 % 2 == 1 then 4 else 0) +
    (if mask / 8 % 2 == 1 then 4 else 0) + (if mask / 16 % 2 == 1 then 4 else 0)
  }

  /** Payload bytes announced by the four-byte instruction headers. */
  function PayloadsLen(headers: Bytes): nat {
    if |headers| < 4 then 0
    else headers[1] + FromLe(headers[2..4]) + PayloadsLen(headers[4..])
  }

  function V1Head(b: Bytes, start: nat): (r: Scan<(nat, nat, nat, nat)>)
    ensures r.Done? ==> start + 42 == r.at <= |b|
  {
    var (_, o) :- U8(b, start);
    var (count, o) :- U8(b, o);
    var (_, o) :- Take(b, o, 2);
    var (m, o) :- Take(b, o, 4);
    var mask := FromLe(m);
    if !MaskOk(mask) then Fail(BadConfigMask, o)
    else
      var (_, o) :- Take(b, o, 32);
      var (instructions, o) :- U8(b, o);
      var (keys, o) :- U8(b, o);
      Done((count, mask, instructions, keys), o)
  }

  function V1Tail(b: Bytes, o: nat, mask: nat, instructions: nat, keys: nat): (r: Scan<()>)
    ensures r.Done? ==> o <= r.at <= |b|
  {
    var (_, o) :- Take(b, o, keys * 32);
    var (_, o) :- Take(b, o, ConfigLen(mask));
    var (headers, o) :- Take(b, o, instructions * 4);
    var (_, o) :- Take(b, o, PayloadsLen(headers));
    Done((), o)
  }

  function VersionOne(b: Bytes, start: nat): (r: Scan<TxView>)
    ensures r.Done? ==> start + 38 <= r.at <= |b| && r.value.bytes == b[start..r.at]
  {
    var ((count, mask, instructions, keys), o) :- V1Head(b, start);
    var (_, signatures) :- V1Tail(b, o, mask, instructions, keys);
    var (_, o) :- Take(b, signatures, count * 64);
    Done(ViewOf(b, start, o, V1, signatures, count), o)
  }

  function Transaction(b: Bytes, start: nat): (r: Scan<TxView>)
    ensures r.Done? ==> start + 38 <= r.at <= |b| && r.value.bytes == b[start..r.at]
  {
    if start >= |b| then Fail(Truncated(start), start)
    else if b[start] < 128 then LegacyOrV0(b, start)
    else if b[start] == 129 then VersionOne(b, start)
    else Fail(UnknownVersion(b[start]), start)
  }

  /** `n` transactions in a row. */
  function Transactions(b: Bytes, o: nat, n: nat): (r: Scan<seq<TxView>>)
    requires o <= |b|
    ensures r.Done? ==> o + 38 * n <= r.at <= |b| && |r.value| == n
    decreases n
  {
    if n == 0 then Done([], o)
    else
      var (tx, o) :- Transaction(b, o);
      var (rest, o) :- Transactions(b, o, n - 1);
      Done([tx] + rest, o)
  }

  /**
   * Where the signatures really are. The signature count is never cut off, the offset of a v1 transaction is kept
   * modulo 65536; with at least one signature the slice read as the first one is always inside the transaction.
   */
  lemma SignatureOffset(b: Bytes, o: nat)
    requires Transaction(b, o).Done?
    ensures var tx := Transaction(b, o).value;
            var start := if tx.version == V1 then |tx.bytes| - 64 * tx.numSignatures else 1;
            && start + 64 * tx.numSignatures <= |tx.bytes|
            && tx.signaturesOffset == start % 65536
            && (tx.signaturesOffset == start <==> start < 65536)
            && (tx.numSignatures >= 1 ==> tx.signaturesOffset + 64 <= |tx.bytes|)
  {
    hide LegacyOrV0, VersionOne;
    if b[o] < 128 {
      EarlySignatures(b, o);
    } else {
      LateSignatures(b, o);
    }
  }

  lemma EarlySignatures(b: Bytes, o: nat)
    requires o < |b| && b[o] < 128 && LegacyOrV0(b, o).Done?
    ensures var tx := LegacyOrV0(b, o).value;
            && tx.version != V1 && tx.signaturesOffset == 1 && tx.numSignatures == b[o] && 1 + 64 * b[o] <= |tx.bytes|
  {
    hide Message;
    assert ShortLen(b, o) == Done(b[o], o + 1) by { assert Pow128(0) == 1; }
  }

  lemma LateSignatures(b: Bytes, o: nat)
    requires VersionOne(b, o).Done?
    ensures var tx := VersionOne(b, o).value;
            && tx.version == V1 && tx.numSignatures < 256 && 64 * tx.numSignatures <= |tx.bytes|
            && tx.signaturesOffset == (|tx.bytes| - 64 * tx.numSignatures) % 65536
  {
    hide V1Tail, MaskOk, FromLe;
  }

  // ---- entries

  function Entry(b: Bytes, o: nat): (r: Scan<EntryView>)
    ensures r.Done? ==> o + 48 + 38 * r.value.numTransactions <= r.at <= |b|
  {
    var (numHashes, o) :- U64(b, o);
    var (hash, o) :- Take(b, o, 32);
    var (n, start) :- U64(b, o);
    var (_, o) :- Transactions(b, start, n);
    Done(EntryView(numHashes, hash, n, b[start..o]), o)
  }

  /** What iterating over `remaining` transactions yields: an error ends the iteration. */
  function TxItems(b: Bytes, o: nat, remaining: nat): seq<Result<TxView, ViewError>>
    decreases remaining
  {
    if remaining == 0 then []
    else
      match Transaction(b, o)
      case Fail(e, _) => [Err(e)]
      case Done(tx, o') => [Ok(tx)] + TxItems(b, o', remaining - 1)
  }

  function EntryItems(b: Bytes, o: nat, remaining: nat): seq<Result<EntryView, ViewError>>
    decreases remaining
  {
    if remaining == 0 then []
    else
      match Entry(b, o)
      case Fail(e, _) => [Err(e)]
      case Done(entry, o') => [Ok(entry)] + EntryItems(b, o', remaining - 1)
  }

  /** The items of a whole segment; `Err` if even the entry count is missing. */
  function SegmentItems(b: Bytes): Result<seq<Result<EntryView, ViewError>>, ViewError> {
    match U64(b, 0)
    case Fail(e, _) => Err(e)
    case Done(n, o) => Ok(EntryItems(b, o, n))
  }

  // ---- the work a scan can do

  function OkCount<T>(items: seq<Result<T, ViewError>>): nat {
    if items == [] then 0 else (if items[0].Ok? then 1 else 0) + OkCount(items[1..])
  }

  function TxCount(items: seq<Result<EntryView, ViewError>>): nat {
    if items == [] then 0 else (if items[0].Ok? then items[0].value.numTransactions else 0) + TxCount(items[1..])
  }

  /** An error, if any, is the last item. */
  predicate ErrorsOnlyLast<T>(items: seq<Result<T, ViewError>>) {
    forall i :: 0 <= i < |items| - 1 ==> items[i].Ok?
  }

  lemma {:induction false} EntryItemsBound(b: Bytes, o: nat, remaining: nat)
    requires o <= |b|
    ensures o + 48 * OkCount(EntryItems(b, o, remaining)) + 38 * TxCount(EntryItems(b, o, remaining)) <= |b|
    ensures ErrorsOnlyLast(EntryItems(b, o, remaining))
    decreases remaining
  {
    hide Entry;
    if remaining > 0 && Entry(b, o).Done? {
      var items := EntryItems(b, o, remaining);
      EntryItemsBound(b, Entry(b, o).at, remaining - 1);
      assert items[1..] == EntryItems(b, Entry(b, o).at, remaining - 1);
    }
  }

  /** Whatever counts a segment claims, what is found in it pays for itself in bytes, and at most one error ends it. */
  lemma ScanWorkBound(b: Bytes)
    requires SegmentItems(b).Ok?
    ensures 8 + 48 * OkCount(SegmentItems(b).value) + 38 * TxCount(SegmentItems(b).value) <= |b|
    ensures ErrorsOnlyLast(SegmentItems(b).value)
  {
    EntryItemsBound(b, 8, U64(b, 0).value);
  }
}
