/** The bytes of a block, end to end: what a leader cuts over data shreds is what a slot hands out. */
module Blocks {
  import opened Wire
  import opened Merkle
  import opened Shreds
  import opened Fec
  import opened Segments
  import opened SlotSpec
  import opened Leader
  import opened Fidelity
  import opened Delivery
  import opened WireFormat

  /** `cuts` divides `data` into `n` pieces, some of them possibly empty. */
  predicate Divides(cuts: seq<nat>, data: Bytes, n: nat) {
    && |cuts| == n + 1 && cuts[0] == 0 && cuts[n] == |data|
    && forall i, j :: 0 <= i <= j <= n ==> cuts[i] <= cuts[j]
  }

  function Piece(cuts: seq<nat>, data: Bytes, n: nat, i: nat): Bytes
    requires Divides(cuts, data, n) && i < n
  {
    assert cuts[i] <= cuts[i + 1] <= cuts[n];
    data[cuts[i]..cuts[i + 1]]
  }

  /** Datagram `b` is legal and carries exactly `chunk` behind its headers. */
  predicate Carries(b: Bytes, chunk: Bytes) {
    DataLegal(b) && b[88..Le2(b, 86)] == chunk
  }

  /** DATA_COMPLETE and LAST_IN_SLOT, as the flag byte has them. */
  predicate Completes(b: Bytes) {
    |b| > 85 && b[85] as nat % 0x80 >= 0x40
  }

  predicate EndsSlot(b: Bytes) {
    |b| > 85 && b[85] >= 0xc0
  }

  /** What is available at `i` is what datagram `packets[i]` parses to. */
  predicate From(taken: Taken, packets: map<nat, Bytes>, i: nat) {
    i in taken && i in packets && DataLegal(packets[i]) && Parse(packets[i]) == Ok(taken[i])
  }

  lemma FromContent(taken: Taken, packets: map<nat, Bytes>, i: nat)
    requires From(taken, packets, i)
    ensures PayloadOf(taken[i]) == packets[i][88..Le2(packets[i], 86)]
    ensures (taken[i].DataComplete() <==> Completes(packets[i])) && (taken[i].LastInSlot() <==> EndsSlot(packets[i]))
  {
    hide Parse, DataFieldsLegal, Le2, Le4, Le8;
    DataContent(packets[i], taken[i]);
  }

  /** The datagrams from `s` on carry the pieces of `data`, one after the other. */
  predicate CarriesPieces(packets: map<nat, Bytes>, s: nat, n: nat, cuts: seq<nat>, data: Bytes) {
    && Divides(cuts, data, n)
    && forall i :: 0 <= i < n ==> CarriesPiece(packets, s, cuts, data, n, i)
  }

  predicate CarriesPiece(packets: map<nat, Bytes>, s: nat, cuts: seq<nat>, data: Bytes, n: nat, i: nat)
    requires Divides(cuts, data, n) && i < n
  {
    s + i in packets && Carries(packets[s + i], Piece(cuts, data, n, i))
  }

  lemma NextPiece(cuts: seq<nat>, data: Bytes, n: nat, k: nat)
    requires Divides(cuts, data, n) && k < n
    ensures cuts[k] <= cuts[k + 1] <= |data| && data[..cuts[k + 1]] == data[..cuts[k]] + Piece(cuts, data, n, k)
  {
    assert cuts[k] <= cuts[k + 1] <= cuts[n];
  }

  lemma {:induction false} PiecesJoin(
      taken: Taken, packets: map<nat, Bytes>, s: nat, n: nat, cuts: seq<nat>, data: Bytes, k: nat)
    requires CarriesPieces(packets, s, n, cuts, data) && k <= n
    requires forall i :: s <= i < s + n ==> From(taken, packets, i)
    ensures forall i :: s <= i < s + k ==> i in taken
    ensures cuts[k] <= |data| && Payloads(taken, s, s + k) == data[..cuts[k]]
  {
    hide From, Carries, Piece;
    assert cuts[k] <= cuts[n];
    forall i | s <= i < s + k
      ensures i in taken
    {
      FromTaken(taken, packets, i);
    }
    if k > 0 {
      PiecesJoin(taken, packets, s, n, cuts, data, k - 1);
      assert CarriesPiece(packets, s, cuts, data, n, k - 1);
      PieceIs(taken, packets, s + k - 1, Piece(cuts, data, n, k - 1));
      assert cuts[k - 1] <= cuts[k];
      NextPiece(cuts, data, n, k - 1);
    }
  }

  lemma FromTaken(taken: Taken, packets: map<nat, Bytes>, i: nat)
    requires From(taken, packets, i)
    ensures i in taken && i in packets
  {
    hide Parse, DataLegal;
  }

  lemma PieceIs(taken: Taken, packets: map<nat, Bytes>, i: nat, chunk: Bytes)
    requires From(taken, packets, i) && i in packets && Carries(packets[i], chunk)
    ensures PayloadOf(taken[i]) == chunk
  {
    hide Parse;
    FromContent(taken, packets, i);
  }

  /** The datagrams `s..=e` are one run: only the last completes, and the one before completes too or there is none. */
  predicate RawRun(packets: map<nat, Bytes>, s: nat, e: nat) {
    && s <= e && (forall i :: s <= i <= e ==> i in packets && (Completes(packets[i]) <==> i == e))
    && (s == 0 || (s - 1 in packets && Completes(packets[s - 1])))
  }

  predicate Last(packets: map<nat, Bytes>, e: nat) {
    e in packets && EndsSlot(packets[e])
  }

  /**
   * A byte string that is cut over the datagrams of a run comes back as the bytes of the segment of that run, without
   * anything that fills the packets.
   */
  lemma BlockSegment(taken: Taken, packets: map<nat, Bytes>, s: nat, e: nat, cuts: seq<nat>, data: Bytes)
    requires RawRun(packets, s, e) && CarriesPieces(packets, s, e + 1 - s, cuts, data)
    requires forall i :: s <= i <= e || i == s - 1 >= 0 ==> From(taken, packets, i)
    ensures Segment(s, e, data, Last(packets, e)) in Runs(taken)
  {
    hide From, CarriesPieces, EndsSlot, Runs;
    var n := e + 1 - s;
    RawRunIs(taken, packets, s, e);
    PiecesJoin(taken, packets, s, n, cuts, data, n);
    WholeData(packets, s, n, cuts, data);
    FromTaken(taken, packets, e);
    FromContent(taken, packets, e);
    assert SegmentOf(taken, s, e) == Segment(s, e, data, Last(packets, e));
    assert SegmentOf(taken, s, e) in Runs(taken);
  }

  lemma WholeData(packets: map<nat, Bytes>, s: nat, n: nat, cuts: seq<nat>, data: Bytes)
    requires CarriesPieces(packets, s, n, cuts, data)
    ensures |cuts| == n + 1 && cuts[n] == |data| && data[..cuts[n]] == data
  {
    hide Carries;
  }

  lemma RawRunIs(taken: Taken, packets: map<nat, Bytes>, s: nat, e: nat)
    requires RawRun(packets, s, e) && forall i :: s <= i <= e || i == s - 1 >= 0 ==> From(taken, packets, i)
    ensures IsRun(taken, s, e)
  {
    hide From, Completes;
    forall i | s <= i <= e
      ensures i in taken && (taken[i].DataComplete() <==> i == e)
    {
      FromTaken(taken, packets, i);
      FromContent(taken, packets, i);
    }
    if s > 0 {
      FromTaken(taken, packets, s - 1);
      FromContent(taken, packets, s - 1);
    }
  }

  /** With every available index behind a datagram, the runs are exactly the runs of datagrams, and nothing else. */
  lemma RunsAreRaw(taken: Taken, packets: map<nat, Bytes>, s: nat, e: nat)
    requires packets.Keys == taken.Keys && forall i :: i in taken ==> From(taken, packets, i)
    ensures IsRun(taken, s, e) <==> RawRun(packets, s, e)
    ensures IsRun(taken, s, e) ==> (SegmentOf(taken, s, e).lastInSlot <==> Last(packets, e))
  {
    hide From, Completes, EndsSlot;
    if RawRun(packets, s, e) {
      forall i | s <= i <= e || i == s - 1 >= 0
        ensures From(taken, packets, i)
      {
        assert i in taken.Keys;
      }
      RawRunIs(taken, packets, s, e);
    }
    if IsRun(taken, s, e) {
      RunsAvailable(taken);
      forall i | s <= i <= e
        ensures i in packets && (Completes(packets[i]) <==> i == e)
      {
        assert i in taken.Keys && (i < e ==> Open(taken, i));
        FromContent(taken, packets, i);
      }
      FromContent(taken, packets, e);
      if s > 0 {
        FromTaken(taken, packets, s - 1);
        FromContent(taken, packets, s - 1);
      }
    }
  }

  // ---- from the leader's encoder to what a slot hands out

  /** The datagrams of the leader's data shreds. */
  ghost function LeaderPackets(L: Sets): map<nat, Bytes> {
    map i | i in LeaderTaken(L) :: LeaderTaken(L)[i].bytes
  }

  lemma HonestData(h: Hasher, rs: ReedSolomon, f: nat, g: seq<Shred>, p: nat)
    requires HonestSet(h, rs, f, g) && p < 32
    ensures Parse(g[p].bytes) == Ok(g[p]) && g[p].kind.Data?
  {
    hide Parse, Codeword, PathOf, LeafHashes, Concat, Siblings;
    assert g[p].Position() == p && Parsed(g[p]);
  }

  lemma LeaderFrom(h: Hasher, rs: ReedSolomon, L: Sets, i: nat)
    requires Honest(h, rs, L) && i in LeaderTaken(L)
    ensures From(LeaderTaken(L), LeaderPackets(L), i)
  {
    hide Parse, DataLegal, HonestSet, LeaderTaken;
    LeaderAt(L, i);
    HonestData(h, rs, SetOf(i), L[SetOf(i)], i - SetOf(i));
    ParseDataIff(LeaderTaken(L)[i].bytes);
  }

  lemma LeaderAt(L: Sets, i: nat)
    requires i in LeaderTaken(L)
    ensures SetOf(i) in L && i - SetOf(i) < |L[SetOf(i)]| && LeaderTaken(L)[i] == L[SetOf(i)][i - SetOf(i)]
  {
  }

  /**
   * The whole way: if the leader cut `data` over the data shreds `s..=e`, then every trusted run with 32 genuine shreds
   * of each set has handed out a segment with exactly these bytes.
   */
  lemma BlockComesBack(h: Hasher, rs: ReedSolomon, L: Sets, xs: seq<Shred>, s: nat, e: nat, cuts: seq<nat>, data: Bytes)
    requires Honest(h, rs, L) && Trusted(h, L, xs)
    requires forall f :: f in L ==> |Positions(h, L, xs, f)| >= 32
    requires RawRun(LeaderPackets(L), s, e) && CarriesPieces(LeaderPackets(L), s, e + 1 - s, cuts, data)
    ensures forall x :: x in xs ==> InRange(x)
    ensures Segment(s, e, data, Last(LeaderPackets(L), e)) in Runs(Feed(h, Some(rs), xs).taken)
  {
    hide Honest, Trusted, Positions, CarriesPieces, Completes, Last, Runs, Feed, From, InRange, LeaderTaken;
    HalfIsEnough(h, rs, L, xs);
    forall i | s <= i <= e || i == s - 1 >= 0
      ensures From(LeaderTaken(L), LeaderPackets(L), i)
    {
      assert i in LeaderPackets(L);
      LeaderFrom(h, rs, L, i);
    }
    BlockSegment(LeaderTaken(L), LeaderPackets(L), s, e, cuts, data);
  }

  /** What the encoder writes carries its chunk. */
  lemma EncodedCarries(d: DataShape)
    requires DataShapeOk(d) && DataFieldsLegal(d.slot, d.index, d.fecSetIndex, d.parent, d.flags)
    requires |d.chunk| <= Room(d.variant)
    ensures Carries(EncodeData(d), d.chunk)
    ensures Completes(EncodeData(d)) <==> d.flags as nat % 0x80 >= 0x40
    ensures EndsSlot(EncodeData(d)) <==> d.flags >= 0xc0
  {
    hide EncodeData, Le2, Le4, Le8, DataFieldsLegal;
    DataFieldsIn(d);
  }
}
