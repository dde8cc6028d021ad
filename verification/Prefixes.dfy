/**
 * Scanning a segment of which only the front has arrived: every answer but "truncated" is final, and what is found in
 * the front is what would be found in the whole.
 */
module Prefixes {
  import opened Wire
  import opened View
  import opened Layout

  /** The front of `m` bytes gives the answer of the whole, or says where it is cut. */
  predicate Cut<T(==)>(part: Scan<T>, whole: Scan<T>, o: nat, m: nat) {
    part == whole || (part.Fail? && part.error.Truncated? && o <= part.error.at <= m)
  }

  lemma TakeCut(b: Bytes, m: nat, o: nat, n: nat)
    requires o <= m <= |b|
    ensures Cut(Take(b[..m], o, n), Take(b, o, n), o, m)
  {
    if o + n <= m {
      assert b[..m][o..o + n] == b[o..o + n];
    }
  }

  lemma {:induction false} ShortFromCut(b: Bytes, m: nat, o: nat, start: nat, k: nat, value: nat)
    requires o <= m <= |b| && k <= 3
    ensures Cut(ShortFrom(b[..m], o, start, k, value), ShortFrom(b, o, start, k, value), o, m)
    decreases 3 - k
  {
    hide ShortFrom, ShortValue;
    if k == 3 {
      ShortTooLong(b, o, start, value);
      ShortTooLong(b[..m], o, start, value);
    } else {
      ShortUnfold(b, o, start, k, value);
      ShortUnfold(b[..m], o, start, k, value);
      if o < m {
        ShortFromCut(b, m, o + 1, start, k + 1, ShortValue(value, b[o], k));
      }
    }
  }

  lemma ShortLenCut(b: Bytes, m: nat, o: nat)
    requires o <= m <= |b|
    ensures Cut(ShortLen(b[..m], o), ShortLen(b, o), o, m)
  {
    ShortFromCut(b, m, o, o, 0, 0);
  }

  lemma ShortVecCut(b: Bytes, m: nat, o: nat, width: nat)
    requires o <= m <= |b|
    ensures Cut(ShortVec(b[..m], o, width), ShortVec(b, o, width), o, m)
  {
    hide ShortLen, Take;
    ShortLenCut(b, m, o);
    var n := ShortLen(b[..m], o);
    if n.Done? {
      NatTimes(n.value, width);
      TakeCut(b, m, n.at, n.value * width);
    }
  }

  lemma InstructionCut(b: Bytes, m: nat, o: nat)
    requires o <= m <= |b|
    ensures Cut(Instruction(b[..m], o), Instruction(b, o), o, m)
  {
    hide ShortVec;
    if o < m {
      ShortVecCut(b, m, o + 1, 1);
      if ShortVec(b[..m], o + 1, 1).Done? {
        ShortVecCut(b, m, ShortVec(b, o + 1, 1).at, 1);
      }
    }
  }

  lemma {:induction false} InstructionsCut(b: Bytes, m: nat, o: nat, n: nat)
    requires o <= m <= |b|
    ensures Cut(Instructions(b[..m], o, n), Instructions(b, o, n), o, m)
    decreases n
  {
    hide Instruction;
    if n > 0 {
      InstructionCut(b, m, o);
      if Instruction(b[..m], o).Done? {
        InstructionsCut(b, m, Instruction(b, o).at, n - 1);
      }
    }
  }

  lemma LookupCut(b: Bytes, m: nat, o: nat)
    requires o <= m <= |b|
    ensures Cut(Lookup(b[..m], o), Lookup(b, o), o, m)
  {
    hide ShortVec;
    TakeCut(b, m, o, 32);
    if o + 32 <= m {
      ShortVecCut(b, m, o + 32, 1);
      if ShortVec(b[..m], o + 32, 1).Done? {
        ShortVecCut(b, m, ShortVec(b, o + 32, 1).at, 1);
      }
    }
  }

  lemma {:induction false} LookupsCut(b: Bytes, m: nat, o: nat, n: nat)
    requires o <= m <= |b|
    ensures Cut(Lookups(b[..m], o, n), Lookups(b, o, n), o, m)
    decreases n
  {
    hide Lookup;
    if n > 0 {
      LookupCut(b, m, o);
      if Lookup(b[..m], o).Done? {
        LookupsCut(b, m, Lookup(b, o).at, n - 1);
      }
    }
  }

  lemma ListsCut(b: Bytes, m: nat, o: nat)
    requires o <= m <= |b|
    ensures Cut(InstructionList(b[..m], o), InstructionList(b, o), o, m)
    ensures Cut(LookupList(b[..m], o), LookupList(b, o), o, m)
  {
    hide ShortLen, Instructions, Lookups;
    ShortLenCut(b, m, o);
    var n := ShortLen(b[..m], o);
    if n.Done? {
      InstructionsCut(b, m, n.at, n.value);
      LookupsCut(b, m, n.at, n.value);
    }
  }

  lemma MessageCut(b: Bytes, m: nat, o: nat, version: TxVersion)
    requires o <= m <= |b|
    ensures Cut(Message(b[..m], o, version), Message(b, o, version), o, m)
  {
    hide ShortVec, InstructionList, LookupList, Take;
    TakeCut(b, m, o, 3);
    var header := Take(b[..m], o, 3);
    if header.Done? {
      ShortVecCut(b, m, header.at, 32);
      var keys := ShortVec(b[..m], header.at, 32);
      if keys.Done? {
        TakeCut(b, m, keys.at, 32);
        var hash := Take(b[..m], keys.at, 32);
        if hash.Done? {
          ListsCut(b, m, hash.at);
          var list := InstructionList(b[..m], hash.at);
          if list.Done? {
            ListsCut(b, m, list.at);
          }
        }
      }
    }
  }

  lemma LegacyOrV0Cut(b: Bytes, m: nat, o: nat)
    requires o <= m <= |b|
    ensures Cut(LegacyOrV0(b[..m], o), LegacyOrV0(b, o), o, m)
  {
    hide ShortLen, Message, Take;
    ShortLenCut(b, m, o);
    var n := ShortLen(b[..m], o);
    if n.Done? {
      NatTimes(n.value, 64);
      TakeCut(b, m, n.at, n.value * 64);
      var taken := Take(b[..m], n.at, n.value * 64);
      if taken.Done? && taken.at < m {
        var version := MessageVersion(b, taken.at);
        assert version == MessageVersion(b[..m], taken.at);
        if version.Done? {
          MessageCut(b, m, version.at, version.value);
          var end := Message(b[..m], version.at, version.value);
          if end.Done? {
            assert b[..m][o..end.at] == b[o..end.at];
          }
        }
      }
    }
  }

  lemma V1HeadCut(b: Bytes, m: nat, o: nat)
    requires o <= m <= |b|
    ensures Cut(V1Head(b[..m], o), V1Head(b, o), o, m)
  {
    hide MaskOk, FromLe;
    if o + 8 <= m {
      assert b[..m][o + 4..o + 8] == b[o + 4..o + 8];
    }
  }

  lemma V1TailCut(b: Bytes, m: nat, o: nat, mask: nat, instructions: nat, keys: nat)
    requires o <= m <= |b|
    ensures Cut(V1Tail(b[..m], o, mask, instructions, keys), V1Tail(b, o, mask, instructions, keys), o, m)
  {
    hide ConfigLen, PayloadsLen, Take;
    TakeCut(b, m, o, keys * 32);
    var table := Take(b[..m], o, keys * 32);
    if table.Done? {
      TakeCut(b, m, table.at, ConfigLen(mask));
      var config := Take(b[..m], table.at, ConfigLen(mask));
      if config.Done? {
        TakeCut(b, m, config.at, instructions * 4);
        var headers := Take(b[..m], config.at, instructions * 4);
        if headers.Done? {
          TakeCut(b, m, headers.at, PayloadsLen(headers.value));
        }
      }
    }
  }

  lemma VersionOneCut(b: Bytes, m: nat, o: nat)
    requires o <= m <= |b|
    ensures Cut(VersionOne(b[..m], o), VersionOne(b, o), o, m)
  {
    hide V1Head, V1Tail, Take;
    V1HeadCut(b, m, o);
    var head := V1Head(b[..m], o);
    if head.Done? {
      var (count, mask, instructions, keys) := head.value;
      V1TailCut(b, m, head.at, mask, instructions, keys);
      var tail := V1Tail(b[..m], head.at, mask, instructions, keys);
      if tail.Done? {
        TakeCut(b, m, tail.at, count * 64);
        var end := Take(b[..m], tail.at, count * 64);
        if end.Done? {
          assert b[..m][o..end.at] == b[o..end.at];
        }
      }
    }
  }

  /** A transaction, or an error other than a cut, is found in the front if and only if more bytes cannot change it. */
  lemma TransactionCut(b: Bytes, m: nat, o: nat)
    requires o <= m <= |b|
    ensures Cut(Transaction(b[..m], o), Transaction(b, o), o, m)
  {
    hide LegacyOrV0, VersionOne;
    LegacyOrV0Cut(b, m, o);
    VersionOneCut(b, m, o);
  }

  lemma {:induction false} TransactionsCut(b: Bytes, m: nat, o: nat, n: nat)
    requires o <= m <= |b|
    ensures Cut(Transactions(b[..m], o, n), Transactions(b, o, n), o, m)
    decreases n
  {
    hide Transaction;
    if n > 0 {
      TransactionCut(b, m, o);
      if Transaction(b[..m], o).Done? {
        TransactionsCut(b, m, Transaction(b, o).at, n - 1);
      }
    }
  }

  lemma U64Cut(b: Bytes, m: nat, o: nat)
    requires o <= m <= |b|
    ensures Cut(U64(b[..m], o), U64(b, o), o, m)
  {
    hide FromLe, Take;
    TakeCut(b, m, o, 8);
  }

  lemma EntryCut(b: Bytes, m: nat, o: nat)
    requires o <= m <= |b|
    ensures Cut(Entry(b[..m], o), Entry(b, o), o, m)
  {
    hide Transactions, U64, Take;
    U64Cut(b, m, o);
    var hashes := U64(b[..m], o);
    if hashes.Done? {
      TakeCut(b, m, hashes.at, 32);
      var hash := Take(b[..m], hashes.at, 32);
      if hash.Done? {
        U64Cut(b, m, hash.at);
        var n := U64(b[..m], hash.at);
        if n.Done? {
          TransactionsCut(b, m, n.at, n.value);
          var end := Transactions(b[..m], n.at, n.value);
          if end.Done? {
            assert b[..m][n.at..end.at] == b[n.at..end.at];
          }
        }
      }
    }
  }

  /** What the front yields is what the whole yields, up to a last error that says where the front is cut. */
  predicate FrontOf(part: seq<Result<EntryView, ViewError>>, whole: seq<Result<EntryView, ViewError>>, m: nat) {
    part == whole ||
    (part != [] && part[..|part| - 1] <= whole &&
     part[|part| - 1].Err? && part[|part| - 1].error.Truncated? && part[|part| - 1].error.at <= m)
  }

  lemma {:induction false} EntryItemsCut(b: Bytes, m: nat, o: nat, n: nat)
    requires o <= m <= |b|
    ensures FrontOf(EntryItems(b[..m], o, n), EntryItems(b, o, n), m)
    decreases n
  {
    hide Entry;
    if n > 0 {
      EntryCut(b, m, o);
      var first := Entry(b[..m], o);
      if first.Done? {
        EntryItemsCut(b, m, first.at, n - 1);
        var part, whole := EntryItems(b[..m], first.at, n - 1), EntryItems(b, first.at, n - 1);
        MoreFront(Ok(first.value), part, whole, m);
      }
    }
  }

  lemma MoreFront(x: Result<EntryView, ViewError>, part: seq<Result<EntryView, ViewError>>,
                  whole: seq<Result<EntryView, ViewError>>, m: nat)
    requires FrontOf(part, whole, m)
    ensures FrontOf([x] + part, [x] + whole, m)
  {
    if part != whole {
      assert ([x] + part)[..|[x] + part| - 1] == [x] + part[..|part| - 1];
    }
  }

  /**
   * Scanning the front of a segment yields the first entries of the whole segment, and then ends as the whole does or
   * with the offset where it is cut; at least the entry count must have arrived.
   */
  lemma SegmentFront(b: Bytes, m: nat)
    requires m <= |b|
    ensures m < 8 ==> SegmentItems(b[..m]) == Err(Truncated(0))
    ensures m >= 8 ==> SegmentItems(b[..m]).Ok? && SegmentItems(b).Ok? &&
                       FrontOf(SegmentItems(b[..m]).value, SegmentItems(b).value, m)
  {
    hide EntryItems, FrontOf, FromLe;
    if m >= 8 {
      U64Cut(b, m, 0);
      EntryItemsCut(b, m, 8, U64(b, 0).value);
    }
  }

  /** A transaction cut anywhere is reported as cut, at an offset inside what is there. */
  lemma CutTransaction(t: Tx, n: nat)
    requires TxOk(t) && Scannable(t) && n < |EncodeTx(t)|
    ensures var r := Transaction(EncodeTx(t)[..n], 0); r.Fail? && r.error.Truncated? && r.error.at <= n
  {
    hide Transaction, EncodeTx, TxOk, Scannable;
    var whole := EncodeTx(t);
    TransactionCut(whole, n, 0);
    assert whole[0..0 + |whole|] == whole;
    TransactionRoundTrip(whole, 0, t);
  }
}
