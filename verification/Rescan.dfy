/**
 * Scans are local: what is found depends only on the bytes consumed. Therefore scanning an entry's slice again gives
 * the same transactions, and their slices tile it.
 */
module Rescan {
  import opened Wire
  import opened View

  /** `c` has `part` at offset `p`. */
  predicate At(c: Bytes, p: nat, part: Bytes) {
    p + |part| <= |c| && c[p..p + |part|] == part
  }

  lemma AtSub(c: Bytes, p: nat, b: Bytes, o: nat, end: nat, x: nat, y: nat)
    requires o <= x <= y <= end <= |b| && At(c, p, b[o..end])
    ensures At(c, p + (x - o), b[x..y])
  {
    var copy, part := c[p + (x - o)..p + (y - o)], b[x..y];
    forall k | 0 <= k < |part|
      ensures copy[k] == part[k]
    {
      assert c[p..p + (end - o)][x - o + k] == b[o..end][x - o + k];
    }
    assert copy == part;
  }

  lemma AtByte(c: Bytes, p: nat, b: Bytes, o: nat)
    requires o < |b| && At(c, p, b[o..o + 1])
    ensures p < |c| && c[p] == b[o]
  {
    assert c[p..p + 1][0] == b[o..o + 1][0];
  }

  lemma {:induction false} ShortFromLocal(b: Bytes, o: nat, start: nat, k: nat, value: nat, c: Bytes, p: nat,
                                          start': nat)
    requires k < 3 && ShortFrom(b, o, start, k, value).Done?
    requires At(c, p, b[o..ShortFrom(b, o, start, k, value).at])
    ensures var r := ShortFrom(b, o, start, k, value);
            ShortFrom(c, p, start', k, value) == Done(r.value, p + (r.at - o))
    decreases 3 - k
  {
    hide ShortFrom, ShortValue, At;
    var end := ShortFrom(b, o, start, k, value).at;
    ShortUnfold(b, o, start, k, value);
    ShortUnfold(c, p, start', k, value);
    AtSub(c, p, b, o, end, o, o + 1);
    AtByte(c, p, b, o);
    if b[o] >= 128 {
      AtSub(c, p, b, o, end, o + 1, end);
      if k == 2 {
        ShortTooLong(b, o + 1, start, ShortValue(value, b[o], k));
      }
      ShortFromLocal(b, o + 1, start, k + 1, ShortValue(value, b[o], k), c, p + 1, start');
    }
  }

  lemma ShortLenLocal(b: Bytes, o: nat, c: Bytes, p: nat)
    requires ShortLen(b, o).Done? && At(c, p, b[o..ShortLen(b, o).at])
    ensures ShortLen(c, p) == Done(ShortLen(b, o).value, p + (ShortLen(b, o).at - o))
  {
    ShortFromLocal(b, o, o, 0, 0, c, p, p);
  }

  lemma ShortVecLocal(b: Bytes, o: nat, width: nat, c: Bytes, p: nat)
    requires ShortVec(b, o, width).Done? && At(c, p, b[o..ShortVec(b, o, width).at])
    ensures ShortVec(c, p, width) == Done((), p + (ShortVec(b, o, width).at - o))
  {
    hide ShortLen;
    var end := ShortVec(b, o, width).at;
    var n := ShortLen(b, o);
    AtSub(c, p, b, o, end, o, n.at);
    ShortLenLocal(b, o, c, p);
  }

  lemma InstructionLocal(b: Bytes, o: nat, c: Bytes, p: nat)
    requires Instruction(b, o).Done? && At(c, p, b[o..Instruction(b, o).at])
    ensures Instruction(c, p) == Done((), p + (Instruction(b, o).at - o))
  {
    hide ShortVec;
    var end := Instruction(b, o).at;
    var o1 := o + 1;
    var o2 := ShortVec(b, o1, 1).at;
    AtSub(c, p, b, o, end, o1, o2);
    ShortVecLocal(b, o1, 1, c, p + (o1 - o));
    AtSub(c, p, b, o, end, o2, end);
    ShortVecLocal(b, o2, 1, c, p + (o2 - o));
  }

  lemma {:induction false} InstructionsLocal(b: Bytes, o: nat, n: nat, c: Bytes, p: nat)
    requires o <= |b| && Instructions(b, o, n).Done? && At(c, p, b[o..Instructions(b, o, n).at])
    ensures Instructions(c, p, n) == Done((), p + (Instructions(b, o, n).at - o))
    decreases n
  {
    hide Instruction;
    if n > 0 {
      var end := Instructions(b, o, n).at;
      var o1 := Instruction(b, o).at;
      AtSub(c, p, b, o, end, o, o1);
      InstructionLocal(b, o, c, p);
      AtSub(c, p, b, o, end, o1, end);
      InstructionsLocal(b, o1, n - 1, c, p + (o1 - o));
    }
  }

  lemma LookupLocal(b: Bytes, o: nat, c: Bytes, p: nat)
    requires Lookup(b, o).Done? && At(c, p, b[o..Lookup(b, o).at])
    ensures Lookup(c, p) == Done((), p + (Lookup(b, o).at - o))
  {
    hide ShortVec;
    var end := Lookup(b, o).at;
    var o1 := o + 32;
    var o2 := ShortVec(b, o1, 1).at;
    AtSub(c, p, b, o, end, o1, o2);
    ShortVecLocal(b, o1, 1, c, p + (o1 - o));
    AtSub(c, p, b, o, end, o2, end);
    ShortVecLocal(b, o2, 1, c, p + (o2 - o));
  }

  lemma {:induction false} LookupsLocal(b: Bytes, o: nat, n: nat, c: Bytes, p: nat)
    requires o <= |b| && Lookups(b, o, n).Done? && At(c, p, b[o..Lookups(b, o, n).at])
    ensures Lookups(c, p, n) == Done((), p + (Lookups(b, o, n).at - o))
    decreases n
  {
    hide Lookup;
    if n > 0 {
      var end := Lookups(b, o, n).at;
      var o1 := Lookup(b, o).at;
      AtSub(c, p, b, o, end, o, o1);
      LookupLocal(b, o, c, p);
      AtSub(c, p, b, o, end, o1, end);
      LookupsLocal(b, o1, n - 1, c, p + (o1 - o));
    }
  }

  lemma InstructionListLocal(b: Bytes, o: nat, c: Bytes, p: nat)
    requires InstructionList(b, o).Done? && At(c, p, b[o..InstructionList(b, o).at])
    ensures InstructionList(c, p) == Done((), p + (InstructionList(b, o).at - o))
  {
    hide ShortLen, Instructions;
    var end := InstructionList(b, o).at;
    var n := ShortLen(b, o);
    AtSub(c, p, b, o, end, o, n.at);
    ShortLenLocal(b, o, c, p);
    AtSub(c, p, b, o, end, n.at, end);
    InstructionsLocal(b, n.at, n.value, c, p + (n.at - o));
  }

  lemma LookupListLocal(b: Bytes, o: nat, c: Bytes, p: nat)
    requires LookupList(b, o).Done? && At(c, p, b[o..LookupList(b, o).at])
    ensures LookupList(c, p) == Done((), p + (LookupList(b, o).at - o))
  {
    hide ShortLen, Lookups;
    var end := LookupList(b, o).at;
    var n := ShortLen(b, o);
    AtSub(c, p, b, o, end, o, n.at);
    ShortLenLocal(b, o, c, p);
    AtSub(c, p, b, o, end, n.at, end);
    LookupsLocal(b, n.at, n.value, c, p + (n.at - o));
  }

  lemma MessageLocal(b: Bytes, o: nat, version: TxVersion, c: Bytes, p: nat)
    requires Message(b, o, version).Done? && At(c, p, b[o..Message(b, o, version).at])
    ensures Message(c, p, version) == Done((), p + (Message(b, o, version).at - o))
  {
    hide ShortVec, InstructionList, LookupList;
    var end := Message(b, o, version).at;
    var o1 := o + 3;
    var o2 := ShortVec(b, o1, 32).at;
    AtSub(c, p, b, o, end, o1, o2);
    ShortVecLocal(b, o1, 32, c, p + (o1 - o));
    var o3 := o2 + 32;
    var o4 := InstructionList(b, o3).at;
    AtSub(c, p, b, o, end, o3, o4);
    InstructionListLocal(b, o3, c, p + (o3 - o));
    if version == V0 {
      AtSub(c, p, b, o, end, o4, end);
      LookupListLocal(b, o4, c, p + (o4 - o));
    }
  }

  lemma MessageVersionLocal(b: Bytes, o: nat, c: Bytes, p: nat)
    requires MessageVersion(b, o).Done? && At(c, p, b[o..o + 1])
    ensures MessageVersion(c, p) == Done(MessageVersion(b, o).value, p + (MessageVersion(b, o).at - o))
  {
    AtByte(c, p, b, o);
  }

  lemma LegacyOrV0Local(b: Bytes, o: nat, c: Bytes, p: nat)
    requires LegacyOrV0(b, o).Done? && At(c, p, b[o..LegacyOrV0(b, o).at])
    ensures LegacyOrV0(c, p) == Done(LegacyOrV0(b, o).value, p + (LegacyOrV0(b, o).at - o))
  {
    hide ShortLen, Message, MessageVersion, ViewOf, At;
    var end := LegacyOrV0(b, o).at;
    var n := ShortLen(b, o);
    NatTimes(n.value, 64);
    AtSub(c, p, b, o, end, o, n.at);
    ShortLenLocal(b, o, c, p);
    var o2 := n.at + n.value * 64;
    AtSub(c, p, b, o, end, o2, o2 + 1);
    MessageVersionLocal(b, o2, c, p + (o2 - o));
    var v := MessageVersion(b, o2);
    AtSub(c, p, b, o, end, v.at, end);
    MessageLocal(b, v.at, v.value, c, p + (v.at - o));
    SameView(b, o, end, c, p, v.value, n.at, n.value);
  }

  /** A view does not depend on where its bytes stand. */
  lemma SameView(b: Bytes, o: nat, end: nat, c: Bytes, p: nat, version: TxVersion, signatures: nat, count: nat)
    requires o <= signatures <= end <= |b| && At(c, p, b[o..end])
    ensures p + (end - o) <= |c|
    ensures ViewOf(c, p, p + (end - o), version, p + (signatures - o), count) ==
            ViewOf(b, o, end, version, signatures, count)
  {
  }

  lemma V1HeadLocal(b: Bytes, o: nat, c: Bytes, p: nat)
    requires V1Head(b, o).Done? && At(c, p, b[o..V1Head(b, o).at])
    ensures V1Head(c, p) == Done(V1Head(b, o).value, p + (V1Head(b, o).at - o))
  {
    var end := V1Head(b, o).at;
    AtSub(c, p, b, o, end, o + 1, o + 2);
    AtByte(c, p + 1, b, o + 1);
    AtSub(c, p, b, o, end, o + 4, o + 8);
    AtSub(c, p, b, o, end, o + 40, o + 41);
    AtByte(c, p + 40, b, o + 40);
    AtSub(c, p, b, o, end, o + 41, o + 42);
    AtByte(c, p + 41, b, o + 41);
  }

  lemma V1TailLocal(b: Bytes, o: nat, mask: nat, instructions: nat, keys: nat, c: Bytes, p: nat)
    requires V1Tail(b, o, mask, instructions, keys).Done? && At(c, p, b[o..V1Tail(b, o, mask, instructions, keys).at])
    ensures V1Tail(c, p, mask, instructions, keys) == Done((), p + (V1Tail(b, o, mask, instructions, keys).at - o))
  {
    hide ConfigLen;
    var end := V1Tail(b, o, mask, instructions, keys).at;
    var o2 := o + keys * 32 + ConfigLen(mask);
    AtSub(c, p, b, o, end, o2, o2 + instructions * 4);
  }

  lemma VersionOneLocal(b: Bytes, o: nat, c: Bytes, p: nat)
    requires VersionOne(b, o).Done? && At(c, p, b[o..VersionOne(b, o).at])
    ensures VersionOne(c, p) == Done(VersionOne(b, o).value, p + (VersionOne(b, o).at - o))
  {
    hide V1Head, V1Tail;
    var end := VersionOne(b, o).at;
    var head := V1Head(b, o);
    AtSub(c, p, b, o, end, o, head.at);
    V1HeadLocal(b, o, c, p);
    var (count, mask, instructions, keys) := head.value;
    var tail := V1Tail(b, head.at, mask, instructions, keys);
    AtSub(c, p, b, o, end, head.at, tail.at);
    V1TailLocal(b, head.at, mask, instructions, keys, c, p + (head.at - o));
  }

  /** Scanning the same bytes elsewhere finds the same transaction and consumes the same bytes. */
  lemma TransactionLocal(b: Bytes, o: nat, c: Bytes, p: nat)
    requires Transaction(b, o).Done? && At(c, p, b[o..Transaction(b, o).at])
    ensures Transaction(c, p) == Done(Transaction(b, o).value, p + (Transaction(b, o).at - o))
  {
    hide LegacyOrV0, VersionOne;
    AtSub(c, p, b, o, Transaction(b, o).at, o, o + 1);
    AtByte(c, p, b, o);
    if b[o] < 128 {
      LegacyOrV0Local(b, o, c, p);
    } else {
      VersionOneLocal(b, o, c, p);
    }
  }

  function AllOk<T>(xs: seq<T>): (r: seq<Result<T, ViewError>>)
    ensures |r| == |xs| && forall i :: 0 <= i < |xs| ==> r[i] == Ok(xs[i])
  {
    seq(|xs|, i requires 0 <= i < |xs| => Ok(xs[i]))
  }

  function SlicesOf(txs: seq<TxView>): Bytes {
    if txs == [] then [] else txs[0].bytes + SlicesOf(txs[1..])
  }

  /** A successful scan of `n` transactions, seen again from a copy of its bytes. */
  lemma TransactionsAgain(b: Bytes, o: nat, n: nat, c: Bytes, p: nat)
    requires o <= |b| && Transactions(b, o, n).Done? && At(c, p, b[o..Transactions(b, o, n).at])
    ensures TxItems(c, p, n) == AllOk(Transactions(b, o, n).value)
    ensures SlicesOf(Transactions(b, o, n).value) == b[o..Transactions(b, o, n).at]
  {
    hide Transactions, TxItems, At;
    TransactionItems(b, o, n, c, p);
    TransactionSlices(b, o, n);
  }

  lemma {:induction false} TransactionItems(b: Bytes, o: nat, n: nat, c: Bytes, p: nat)
    requires o <= |b| && Transactions(b, o, n).Done? && At(c, p, b[o..Transactions(b, o, n).at])
    ensures TxItems(c, p, n) == AllOk(Transactions(b, o, n).value)
    decreases n
  {
    hide Transaction, At;
    if n > 0 {
      var all := Transactions(b, o, n);
      var tx := Transaction(b, o);
      AtSub(c, p, b, o, all.at, o, tx.at);
      TransactionLocal(b, o, c, p);
      AtSub(c, p, b, o, all.at, tx.at, all.at);
      TransactionItems(b, tx.at, n - 1, c, p + (tx.at - o));
    }
  }

  lemma {:induction false} TransactionSlices(b: Bytes, o: nat, n: nat)
    requires o <= |b| && Transactions(b, o, n).Done?
    ensures SlicesOf(Transactions(b, o, n).value) == b[o..Transactions(b, o, n).at]
    decreases n
  {
    hide Transaction;
    if n > 0 {
      var all, tx := Transactions(b, o, n), Transaction(b, o);
      TransactionSlices(b, tx.at, n - 1);
      assert all.value[1..] == Transactions(b, tx.at, n - 1).value;
      assert b[o..tx.at] + b[tx.at..all.at] == b[o..all.at];
    }
  }

  /**
   * Re-scan agreement: for every entry found, iterating over its slice yields exactly its number of transactions, no
   * error, each the view the first scan found, and their slices tile the entry's slice.
   */
  lemma RescanAgrees(b: Bytes, o: nat)
    requires Entry(b, o).Done?
    ensures var entry := Entry(b, o).value;
            var start := o + 48;
            && start <= |b|
            && Transactions(b, start, entry.numTransactions).Done?
            && var found := Transactions(b, start, entry.numTransactions).value;
               && |found| == entry.numTransactions
               && TxItems(entry.transactions, 0, entry.numTransactions) == AllOk(found)
               && SlicesOf(found) == entry.transactions
  {
    hide Transactions, TxItems;
    var entry := Entry(b, o).value;
    TransactionsAgain(b, o + 48, entry.numTransactions, entry.transactions, 0);
  }
}
