/** The cursor and the iterators the program walks a segment with; every method finds what the specification says. */
module Scanner {
  import opened Wire
  import V = View

  /** What a cursor operation returns and where it leaves the cursor, given what the specification finds. */
  ghost predicate Found<T>(r: Result<T, V.ViewError>, spec: V.Scan<T>, offset: nat) {
    offset == spec.at && r == if spec.Done? then Ok(spec.value) else Err(spec.error)
  }

  class Cursor {
    const bytes: Bytes
    var offset: nat

    constructor (bytes: Bytes, offset: nat)
      ensures this.bytes == bytes && this.offset == offset
    {
      this.bytes, this.offset := bytes, offset;
    }

    /** Consumes `n` bytes. The cursor never passes the end, and stays where it is on failure. */
    method Take(n: nat) returns (r: Result<Bytes, V.ViewError>)
      requires offset <= |bytes|
      modifies this
      ensures Found(r, V.Take(bytes, old(offset), n), offset) && old(offset) <= offset <= |bytes|
    {
      var end := offset + n;
      if end > |bytes| {
        return Err(V.Truncated(offset));
      }
      r := Ok(bytes[offset..end]);
      offset := end;
    }

    method U8() returns (r: Result<byte, V.ViewError>)
      requires offset <= |bytes|
      modifies this
      ensures Found(r, V.U8(bytes, old(offset)), offset) && old(offset) <= offset <= |bytes|
    {
      var taken :- Take(1);
      r := Ok(taken[0]);
    }

    method U64() returns (r: Result<nat, V.ViewError>)
      requires offset <= |bytes|
      modifies this
      ensures Found(r, V.U64(bytes, old(offset)), offset) && old(offset) <= offset <= |bytes|
    {
      var taken :- Take(8);
      r := Ok(FromLe(taken));
    }

    method ShortVecLen() returns (r: Result<nat, V.ViewError>)
      requires offset <= |bytes|
      modifies this
      ensures Found(r, V.ShortLen(bytes, old(offset)), offset) && old(offset) <= offset <= |bytes|
    {
      hide V.ShortFrom;
      var at := offset;
      var value: nat, weight: nat, k: nat := 0, 1, 0;
      while k < 3
        invariant 0 <= k <= 3 && weight == V.Pow128(k)
        invariant at == old(offset) <= offset <= |bytes|
        invariant V.ShortFrom(bytes, offset, at, k, value) == V.ShortLen(bytes, at)
      {
        V.ShortUnfold(bytes, offset, at, k, value);
        var x :- U8();
        value := Weighted(value, x, weight, k);
        if x < 128 {
          return Ok(value);
        }
        weight, k := weight * 128, k + 1;
      }
      V.ShortTooLong(bytes, offset, at, value);
      r := Err(V.BadShortVec(at));
    }

    /** A compact length and that many items of `width` bytes. */
    method SkipVec(width: nat) returns (r: Result<(), V.ViewError>)
      requires offset <= |bytes|
      modifies this
      ensures Found(r, V.ShortVec(bytes, old(offset), width), offset) && old(offset) <= offset <= |bytes|
    {
      hide V.ShortLen;
      var n :- ShortVecLen();
      var _ :- Take(n * width);
      r := Ok(());
    }

    method SkipInstruction() returns (r: Result<(), V.ViewError>)
      requires offset <= |bytes|
      modifies this
      ensures Found(r, V.Instruction(bytes, old(offset)), offset) && old(offset) <= offset <= |bytes|
    {
      hide V.ShortVec;
      var _ :- U8();
      var _ :- SkipVec(1);
      r := SkipVec(1);
    }

    method SkipLookup() returns (r: Result<(), V.ViewError>)
      requires offset <= |bytes|
      modifies this
      ensures Found(r, V.Lookup(bytes, old(offset)), offset) && old(offset) <= offset <= |bytes|
    {
      hide V.ShortVec;
      var _ :- Take(32);
      var _ :- SkipVec(1);
      r := SkipVec(1);
    }

    method SkipInstructions() returns (r: Result<(), V.ViewError>)
      requires offset <= |bytes|
      modifies this
      ensures Found(r, V.InstructionList(bytes, old(offset)), offset) && old(offset) <= offset <= |bytes|
    {
      hide V.ShortLen, V.Instruction;
      var n :- ShortVecLen();
      var left := n;
      while left > 0
        invariant old(offset) <= offset <= |bytes|
        invariant V.Instructions(bytes, offset, left) == V.InstructionList(bytes, old(offset))
      {
        var _ :- SkipInstruction();
        left := left - 1;
      }
      r := Ok(());
    }

    method SkipLookups() returns (r: Result<(), V.ViewError>)
      requires offset <= |bytes|
      modifies this
      ensures Found(r, V.LookupList(bytes, old(offset)), offset) && old(offset) <= offset <= |bytes|
    {
      hide V.ShortLen, V.Lookup;
      var n :- ShortVecLen();
      var left := n;
      while left > 0
        invariant old(offset) <= offset <= |bytes|
        invariant V.Lookups(bytes, offset, left) == V.LookupList(bytes, old(offset))
      {
        var _ :- SkipLookup();
        left := left - 1;
      }
      r := Ok(());
    }

    method SkipMessage(version: V.TxVersion) returns (r: Result<(), V.ViewError>)
      requires offset <= |bytes|
      modifies this
      ensures Found(r, V.Message(bytes, old(offset), version), offset) && old(offset) <= offset <= |bytes|
    {
      hide V.ShortVec, V.InstructionList, V.LookupList;
      var _ :- Take(3);
      var _ :- SkipVec(32);
      var _ :- Take(32);
      var _ :- SkipInstructions();
      if version == V.V0 {
        var _ :- SkipLookups();
      }
      r := Ok(());
    }

    method ScanLegacyOrV0(start: nat) returns (r: Result<V.TxView, V.ViewError>)
      requires start == offset <= |bytes|
      modifies this
      ensures Found(r, V.LegacyOrV0(bytes, old(offset)), offset) && old(offset) <= offset <= |bytes|
    {
      hide V.ShortLen, V.Message;
      var numSignatures :- ShortVecLen();
      var signaturesOffset := (offset - start) % 65536;
      var _ :- Take(numSignatures * 64);
      if offset >= |bytes| {
        return Err(V.Truncated(offset));
      }
      var first := bytes[offset];
      var version := V.Legacy;
      if first == 128 {
        var _ :- U8();
        version := V.V0;
      } else if first > 128 {
        return Err(V.UnknownVersion(first));
      }
      var _ :- SkipMessage(version);
      r := Ok(V.TxView(bytes[start..offset], version, signaturesOffset, numSignatures % 256));
    }

    /** The fixed-size front of a v1 transaction. */
    method ScanV1Head() returns (r: Result<(nat, nat, nat, nat), V.ViewError>)
      requires offset <= |bytes|
      modifies this
      ensures Found(r, V.V1Head(bytes, old(offset)), offset) && old(offset) <= offset <= |bytes|
    {
      hide V.MaskOk, FromLe;
      var _ :- U8();
      var numSignatures :- U8();
      var _ :- Take(2);
      var m :- Take(4);
      var mask := FromLe(m);
      if !V.MaskOk(mask) {
        return Err(V.BadConfigMask);
      }
      var _ :- Take(32);
      var numInstructions :- U8();
      var numKeys :- U8();
      r := Ok((numSignatures, mask, numInstructions, numKeys));
    }

    method ScanV1Tail(mask: nat, numInstructions: nat, numKeys: nat) returns (r: Result<(), V.ViewError>)
      requires offset <= |bytes|
      modifies this
      ensures Found(r, V.V1Tail(bytes, old(offset), mask, numInstructions, numKeys), offset)
      ensures old(offset) <= offset <= |bytes|
    {
      hide V.ConfigLen, V.PayloadsLen;
      var _ :- Take(numKeys * 32);
      var _ :- Take(V.ConfigLen(mask));
      var headers :- Take(numInstructions * 4);
      var payloads := SumPayloads(headers);
      var _ :- Take(payloads);
      r := Ok(());
    }

    method ScanV1(start: nat) returns (r: Result<V.TxView, V.ViewError>)
      requires start == offset <= |bytes|
      modifies this
      ensures Found(r, V.VersionOne(bytes, old(offset)), offset) && old(offset) <= offset <= |bytes|
    {
      hide V.V1Head, V.V1Tail;
      var head :- ScanV1Head();
      var (numSignatures, mask, numInstructions, numKeys) := head;
      var _ :- ScanV1Tail(mask, numInstructions, numKeys);
      var signaturesOffset := (offset - start) % 65536;
      var _ :- Take(numSignatures * 64);
      r := Ok(V.TxView(bytes[start..offset], V.V1, signaturesOffset, numSignatures % 256));
    }

    method ScanTransaction() returns (r: Result<V.TxView, V.ViewError>)
      requires offset <= |bytes|
      modifies this
      ensures Found(r, V.Transaction(bytes, old(offset)), offset) && old(offset) <= offset <= |bytes|
    {
      hide V.LegacyOrV0, V.VersionOne;
      var start := offset;
      if start >= |bytes| {
        return Err(V.Truncated(start));
      }
      var first := bytes[start];
      if first < 128 {
        r := ScanLegacyOrV0(start);
      } else if first == 129 {
        r := ScanV1(start);
      } else {
        r := Err(V.UnknownVersion(first));
      }
    }

    method ScanEntry() returns (r: Result<V.EntryView, V.ViewError>)
      requires offset <= |bytes|
      modifies this
      ensures Found(r, V.Entry(bytes, old(offset)), offset) && old(offset) <= offset <= |bytes|
    {
      hide V.Transaction, V.U64;
      var numHashes :- U64();
      var hash :- Take(32);
      var numTransactions :- U64();
      var start := offset;
      ghost var all := V.Transactions(bytes, start, numTransactions);
      var left := numTransactions;
      while left > 0
        invariant old(offset) <= start <= offset <= |bytes|
        invariant var rest := V.Transactions(bytes, offset, left);
                  rest.at == all.at && if rest.Done? then all.Done? else all.Fail? && all.error == rest.error
      {
        var _ :- ScanTransaction();
        left := left - 1;
      }
      r := Ok(V.EntryView(numHashes, hash, numTransactions, bytes[start..offset]));
    }
  }

  /** Adds one more group of seven bits. */
  method Weighted(value: nat, x: byte, weight: nat, ghost k: nat) returns (r: nat)
    requires weight == V.Pow128(k)
    ensures r == V.ShortValue(value, x, k)
  {
    V.NatTimes(x % 128, weight);
    r := value + x % 128 * weight;
  }

  /** The sum over the four-byte chunks of the instruction headers. */
  method SumPayloads(headers: Bytes) returns (sum: nat)
    ensures sum == V.PayloadsLen(headers)
  {
    sum := 0;
    var i := 0;
    assert headers[0..] == headers;
    while i + 4 <= |headers|
      invariant 0 <= i <= |headers|
      invariant sum + V.PayloadsLen(headers[i..]) == V.PayloadsLen(headers)
    {
      ghost var rest := headers[i..];
      assert rest[2..4] == headers[i + 2..i + 4] && rest[4..] == headers[i + 4..];
      sum := sum + headers[i + 1] + FromLe(headers[i + 2..i + 4]);
      i := i + 4;
    }
  }

  class TxIter {
    const cursor: Cursor
    var remaining: nat

    constructor (transactions: Bytes, numTransactions: nat)
      ensures fresh(cursor) && Valid() && Items() == V.TxItems(transactions, 0, numTransactions)
    {
      cursor := new Cursor(transactions, 0);
      remaining := numTransactions;
    }

    ghost predicate Valid()
      reads this, cursor
    {
      cursor.offset <= |cursor.bytes|
    }

    /** What is still to come. */
    ghost function Items(): seq<Result<V.TxView, V.ViewError>>
      reads this, cursor
    {
      V.TxItems(cursor.bytes, cursor.offset, remaining)
    }

    method Next() returns (r: Option<Result<V.TxView, V.ViewError>>)
      requires Valid()
      modifies this, cursor
      ensures Valid()
      ensures old(Items()) == if r.None? then [] else [r.value] + Items()
      ensures r.None? ==> Items() == []
    {
      hide V.Transaction;
      if remaining == 0 {
        return None;
      }
      remaining := remaining - 1;
      var item := cursor.ScanTransaction();
      if item.Err? {
        remaining := 0;
      }
      r := Some(item);
    }
  }

  class EntryIter {
    const cursor: Cursor
    var remaining: nat

    constructor (cursor: Cursor, remaining: nat)
      ensures this.cursor == cursor && this.remaining == remaining
    {
      this.cursor, this.remaining := cursor, remaining;
    }

    ghost predicate Valid()
      reads this, cursor
    {
      cursor.offset <= |cursor.bytes|
    }

    ghost function Items(): seq<Result<V.EntryView, V.ViewError>>
      reads this, cursor
    {
      V.EntryItems(cursor.bytes, cursor.offset, remaining)
    }

    method Next() returns (r: Option<Result<V.EntryView, V.ViewError>>)
      requires Valid()
      modifies this, cursor
      ensures Valid()
      ensures old(Items()) == if r.None? then [] else [r.value] + Items()
      ensures r.None? ==> Items() == []
    {
      hide V.Entry;
      if remaining == 0 {
        return None;
      }
      remaining := remaining - 1;
      var item := cursor.ScanEntry();
      if item.Err? {
        remaining := 0;
      }
      r := Some(item);
    }
  }

  /** Starts the lazy iteration over a segment. */
  method Entries(segment: Bytes) returns (r: Result<EntryIter, V.ViewError>)
    ensures r.Ok? <==> V.SegmentItems(segment).Ok?
    ensures r.Err? ==> V.SegmentItems(segment) == Err(r.error)
    ensures r.Ok? ==>
            fresh(r.value) && fresh(r.value.cursor) && r.value.Valid() && V.SegmentItems(segment) == Ok(r.value.Items())
  {
    var cursor := new Cursor(segment, 0);
    var remaining :- cursor.U64();
    var iter := new EntryIter(cursor, remaining);
    r := Ok(iter);
  }
}
