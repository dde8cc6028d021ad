/** Shred wire format: the fixed layout of one datagram and its stateless validation. */
module Shreds {
  import opened Wire
  import opened Merkle

  const DATA_SHRED_SIZE := 1203
  const CODE_SHRED_SIZE := 1228
  const SHREDS_PER_SIDE := 32 // data shreds, and code shreds, in one FEC set
  const MAX_SHREDS_PER_SLOT := 32768
  const SIGNATURE_SIZE := 64
  const DATA_HEADERS_SIZE := 88
  const CODE_HEADERS_SIZE := 89
  const MERKLE_ROOT_SIZE := 32

  const VARIANT_OFFSET := 64
  const SLOT_OFFSET := 65
  const INDEX_OFFSET := 73
  const VERSION_OFFSET := 77
  const FEC_SET_INDEX_OFFSET := 79
  const PARENT_OFFSET_OFFSET := 83
  const FLAGS_OFFSET := 85
  const SIZE_OFFSET := 86
  const NUM_DATA_OFFSET := 83
  const NUM_CODE_OFFSET := 85
  const POSITION_OFFSET := 87

  datatype Kind = Data | Code

  datatype Header =
    | DataHeader(parentOffset: nat, flags: byte, size: nat)
    | CodeHeader(position: nat)

  datatype ShredError =
    | TooShort(len: nat)
    | InvalidVariant(variant: byte)
    | InvalidProofSize(proofSize: nat)
    | IndexOutOfRange(index: nat)
    | FecSetMisaligned(index: nat, fecSetIndex: nat)
    | InvalidParentOffset(slot: nat, parentOffset: nat)
    | InvalidFlags(flags: byte)
    | InvalidSize(size: nat)
    | InvalidErasureConfig(numData: nat, numCode: nat, position: nat)

  function WireSize(kind: Kind): nat {
    if kind.Data? then DATA_SHRED_SIZE else CODE_SHRED_SIZE
  }

  function HeadersSize(kind: Kind): nat {
    if kind.Data? then DATA_HEADERS_SIZE else CODE_HEADERS_SIZE
  }

  function Overhead(kind: Kind, proofSize: nat, resigned: bool): nat {
    HeadersSize(kind) + MERKLE_ROOT_SIZE + proofSize * PROOF_ENTRY_SIZE + if resigned then SIGNATURE_SIZE else 0
  }

  /** What a variant leaves for its content; `None` if its fixed parts alone exceed the packet. */
  function Capacity(kind: Kind, proofSize: nat, resigned: bool): Option<nat> {
    if Overhead(kind, proofSize, resigned) <= WireSize(kind)
    then Some(WireSize(kind) - Overhead(kind, proofSize, resigned))
    else None
  }

  // Flag bits, as arithmetic on the byte.
  predicate FlagDataComplete(flags: byte) { flags / 64 % 2 == 1 }
  predicate FlagHigh(flags: byte) { flags >= 128 }
  predicate FlagLastInSlot(flags: byte) { flags >= 192 }

  datatype Shred = Shred(
    bytes: Bytes, kind: Kind, resigned: bool, proofSize: nat, slot: nat, index: nat, version: nat,
    fecSetIndex: nat, capacity: nat, header: Header)
  {
    /** What parsing establishes about the fields. */
    predicate Wf() {
      && |bytes| == WireSize(kind)
      && proofSize < 16
      && slot < U64_LIMIT
      && capacity + Overhead(kind, proofSize, resigned) == WireSize(kind)
      && index < MAX_SHREDS_PER_SLOT
      && fecSetIndex % SHREDS_PER_SIDE == 0
      && match header {
           case DataHeader(_, _, size) =>
             && kind.Data?
             && fecSetIndex <= index < fecSetIndex + SHREDS_PER_SIDE
             && DATA_HEADERS_SIZE <= size <= DATA_HEADERS_SIZE + capacity
           case CodeHeader(position) => kind.Code? && position < SHREDS_PER_SIDE && position <= index
         }
    }

    predicate IsData() { kind.Data? }

    predicate DataComplete() { header.DataHeader? && FlagDataComplete(header.flags) }

    predicate LastInSlot() { header.DataHeader? && FlagLastInSlot(header.flags) }

    function Signature(): Bytes
      requires Wf()
    {
      bytes[..SIGNATURE_SIZE]
    }

    /** The content of a data shred. A code shred has none. */
    function Payload(): Bytes
      requires Wf()
    {
      if header.DataHeader? then bytes[DATA_HEADERS_SIZE..header.size] else []
    }

    function ShardStart(): nat {
      if kind.Data? then SIGNATURE_SIZE else CODE_HEADERS_SIZE
    }

    /** The part that takes part in erasure coding. */
    function ErasureShard(): Bytes
      requires Wf()
    {
      bytes[ShardStart()..HeadersSize(kind) + capacity]
    }

    /** The place among the 64: 0 to 31 for data, 32 to 63 for code. */
    function Position(): (r: nat)
      requires Wf()
    {
      if header.DataHeader? then index - fecSetIndex else SHREDS_PER_SIDE + header.position
    }

    function ProofOffset(): nat {
      HeadersSize(kind) + capacity + MERKLE_ROOT_SIZE
    }

    function ChainedMerkleRoot(): Bytes
      requires Wf()
    {
      bytes[ProofOffset() - MERKLE_ROOT_SIZE..ProofOffset()]
    }

    function MerkleProof(): Bytes
      requires Wf()
    {
      bytes[ProofOffset()..ProofOffset() + proofSize * PROOF_ENTRY_SIZE]
    }

    function RetransmitterSignature(): Option<Bytes>
      requires Wf()
    {
      if resigned then Some(bytes[|bytes| - SIGNATURE_SIZE..]) else None
    }

    /** The part of the packet that the tree protects: it starts after the signature and ends where the proof starts. */
    function LeafBytes(): Bytes
      requires Wf()
    {
      bytes[SIGNATURE_SIZE..ProofOffset()]
    }

    function MerkleRoot(h: Hasher): Option<Hash32>
      requires Wf()
    {
      RootFromProof(h, Position(), Leaf(h, LeafBytes()), MerkleProof())
    }
  }

  function U16At(b: Bytes, off: nat): nat
    requires off + 2 <= |b|
  {
    FromLe(b[off..off + 2])
  }

  function U32At(b: Bytes, off: nat): nat
    requires off + 4 <= |b|
  {
    FromLe(b[off..off + 4])
  }

  function U64At(b: Bytes, off: nat): (r: nat)
    requires off + 8 <= |b|
    ensures r < U64_LIMIT
  {
    LeBound(b[off..off + 8]);
    EightBytes();
    FromLe(b[off..off + 8])
  }

  function ParseDataHeader(b: Bytes, slot: nat, index: nat, fecSetIndex: nat, capacity: nat): Result<Header, ShredError>
    requires |b| == DATA_SHRED_SIZE
  {
    if fecSetIndex % SHREDS_PER_SIDE != 0 || index < fecSetIndex || index - fecSetIndex >= SHREDS_PER_SIDE then
      Err(FecSetMisaligned(index, fecSetIndex))
    else
      var parentOffset := U16At(b, PARENT_OFFSET_OFFSET);
      if (parentOffset == 0 && slot != 0) || parentOffset > slot then
        Err(InvalidParentOffset(slot, parentOffset))
      else
        var flags := b[FLAGS_OFFSET];
        if || (FlagHigh(flags) && !FlagDataComplete(flags))
           || (FlagLastInSlot(flags) && (index + 1) % SHREDS_PER_SIDE != 0)
        then
          Err(InvalidFlags(flags))
        else
          var size := U16At(b, SIZE_OFFSET);
          if size < DATA_HEADERS_SIZE || size > DATA_HEADERS_SIZE + capacity then Err(InvalidSize(size))
          else Ok(DataHeader(parentOffset, flags, size))
  }

  function ParseCodeHeader(b: Bytes, index: nat, fecSetIndex: nat): Result<Header, ShredError>
    requires |b| == CODE_SHRED_SIZE
  {
    var numData, numCode, position := U16At(b, NUM_DATA_OFFSET), U16At(b, NUM_CODE_OFFSET), U16At(b, POSITION_OFFSET);
    if || numData != SHREDS_PER_SIDE
       || numCode != SHREDS_PER_SIDE
       || position >= SHREDS_PER_SIDE
       || position > index
       || fecSetIndex % SHREDS_PER_SIDE != 0
    then
      Err(InvalidErasureConfig(numData, numCode, position))
    else
      Ok(CodeHeader(position))
  }

  /** Everything after the datagram has been truncated to the wire size of its variant. */
  function ParseBody(b: Bytes, kind: Kind, resigned: bool, proofSize: nat): Result<Shred, ShredError>
    requires |b| == WireSize(kind)
  {
    match Capacity(kind, proofSize, resigned)
    case None => Err(InvalidProofSize(proofSize))
    case Some(capacity) =>
      var slot := U64At(b, SLOT_OFFSET);
      var index := U32At(b, INDEX_OFFSET);
      var version := U16At(b, VERSION_OFFSET);
      var fecSetIndex := U32At(b, FEC_SET_INDEX_OFFSET);
      if index >= MAX_SHREDS_PER_SLOT then Err(IndexOutOfRange(index))
      else
        var header := if kind.Data? then ParseDataHeader(b, slot, index, fecSetIndex, capacity)
                      else ParseCodeHeader(b, index, fecSetIndex);
        match header
        case Err(e) => Err(e)
        case Ok(hd) => Ok(Shred(b, kind, resigned, proofSize, slot, index, version, fecSetIndex, capacity, hd))
  }

  /** Parses and validates one datagram; a trailing repair nonce is dropped. */
  function Parse(b: Bytes): Result<Shred, ShredError> {
    if |b| <= VARIANT_OFFSET then Err(TooShort(|b|))
    else
      var variant := b[VARIANT_OFFSET];
      var high := variant / 16;
      if high != 9 && high != 11 && high != 6 && high != 7 then Err(InvalidVariant(variant))
      else
        var kind := if high == 9 || high == 11 then Data else Code;
        if |b| < WireSize(kind) then Err(TooShort(|b|))
        else ParseBody(b[..WireSize(kind)], kind, high == 11 || high == 7, variant % 16)
  }

  /** The shred is what its own bytes parse to. */
  ghost predicate Parsed(s: Shred) {
    Parse(s.bytes) == Ok(s)
  }

  /** No proof size a variant byte can name leaves no room for data. */
  lemma EveryProofSizeFits(b: Bytes)
    ensures Parse(b).Err? ==> !Parse(b).error.InvalidProofSize?
  {
  }

  lemma ParsedWf(s: Shred)
    requires Parsed(s)
    ensures s.Wf()
  {
    assert s.bytes[..WireSize(s.kind)] == s.bytes;
  }

  /** Parsing looks at no more than the wire size, and what it returns parses to itself. */
  lemma ParseOk(b: Bytes)
    requires Parse(b).Ok?
    ensures Parse(b).value.Wf() && Parsed(Parse(b).value)
    ensures Parse(b).value.bytes <= b
    ensures Parse(b).value.IsData() ==> Parse(b).value.fecSetIndex + SHREDS_PER_SIDE <= MAX_SHREDS_PER_SLOT
  {
    var s := Parse(b).value;
    assert b[..WireSize(s.kind)][..WireSize(s.kind)] == b[..WireSize(s.kind)];
    assert s.bytes[VARIANT_OFFSET] == b[VARIANT_OFFSET];
  }

  /** The regions of a packet tile it exactly, for every variant. */
  lemma RegionsTile(s: Shred)
    requires s.Wf()
    ensures s.IsData() ==>
              s.bytes == s.Signature() + s.ErasureShard() + s.ChainedMerkleRoot() + s.MerkleProof() +
                         (if s.resigned then s.RetransmitterSignature().value else [])
    ensures !s.IsData() ==>
              s.bytes == s.Signature() + s.bytes[SIGNATURE_SIZE..CODE_HEADERS_SIZE] + s.ErasureShard() +
              s.ChainedMerkleRoot() +
                         s.MerkleProof() + (if s.resigned then s.RetransmitterSignature().value else [])
    ensures s.LeafBytes() == s.bytes[SIGNATURE_SIZE..s.ShardStart()] + s.ErasureShard() + s.ChainedMerkleRoot()
  {
    LeafTiles(s);
    Frame(s);
    var head := s.bytes[SIGNATURE_SIZE..s.ShardStart()];
    var trailer := if s.resigned then s.RetransmitterSignature().value else [];
    assert s.IsData() ==> head == [];
    Assemble(s.Signature(), head, s.ErasureShard(), s.ChainedMerkleRoot(), s.MerkleProof(), trailer);
  }

  lemma Assemble(signature: Bytes, head: Bytes, shard: Bytes, root: Bytes, proof: Bytes, trailer: Bytes)
    ensures head + (shard + root) == head + shard + root
    ensures signature + (head + (shard + root)) + proof + trailer == signature + head + shard + root + proof + trailer
    ensures head == [] ==>
            signature + (head + (shard + root)) + proof + trailer == signature + shard + root + proof + trailer
  {
    assert signature + (head + (shard + root)) == signature + head + shard + root;
    if head == [] {
      assert signature + head == signature;
    }
  }

  /** The packet around its leaf. */
  lemma Frame(s: Shred)
    requires s.Wf()
    ensures s.bytes == s.Signature() + s.LeafBytes() + s.MerkleProof() +
            (if s.resigned then s.RetransmitterSignature().value else [])
  {
    var b, proof := s.bytes, s.ProofOffset();
    var trailer := proof + s.proofSize * PROOF_ENTRY_SIZE;
    assert b[trailer..|b|] == if s.resigned then s.RetransmitterSignature().value else [];
    Cut(b, 0, SIGNATURE_SIZE, proof);
    Cut(b, 0, proof, trailer);
    Cut(b, 0, trailer, |b|);
    assert b[0..|b|] == b;
  }

  lemma LeafTiles(s: Shred)
    requires s.Wf()
    ensures s.LeafBytes() == s.bytes[SIGNATURE_SIZE..s.ShardStart()] + (s.ErasureShard() + s.ChainedMerkleRoot())
  {
    Cut(s.bytes, SIGNATURE_SIZE, s.ShardStart(), s.ProofOffset());
    Cut(s.bytes, s.ShardStart(), HeadersSize(s.kind) + s.capacity, s.ProofOffset());
  }

  /** A slice, cut in two. */
  lemma Cut(b: Bytes, i: nat, j: nat, k: nat)
    requires i <= j <= k <= |b|
    ensures b[i..k] == b[i..j] + b[j..k]
  {
  }

  /** Data and code shards of one variant are equally long, as Reed-Solomon needs. */
  lemma ShardLength(s: Shred)
    requires s.Wf()
    ensures |s.ErasureShard()| + s.proofSize * PROOF_ENTRY_SIZE + (if s.resigned then SIGNATURE_SIZE else 0) == 1107
    ensures |s.MerkleProof()| == s.proofSize * PROOF_ENTRY_SIZE && |s.ChainedMerkleRoot()| == MERKLE_ROOT_SIZE
  {
  }

  lemma SubSlice(a: Bytes, b: Bytes, lo: nat, hi: nat, from: nat, to: nat)
    requires lo <= from <= to <= hi <= |a| && hi <= |b|
    requires a[lo..hi] == b[lo..hi]
    ensures a[from..to] == b[from..to]
  {
    forall k | from <= k < to
      ensures a[k] == b[k]
    {
      assert a[k] == a[lo..hi][k - lo] && b[k] == b[lo..hi][k - lo];
    }
  }

  lemma SameCommonHeader(a: Bytes, b: Bytes)
    requires |a| >= 83 && |b| >= 83 && a[64..83] == b[64..83]
    ensures a[VARIANT_OFFSET] == b[VARIANT_OFFSET]
    ensures U64At(a, SLOT_OFFSET) == U64At(b, SLOT_OFFSET)
    ensures U32At(a, INDEX_OFFSET) == U32At(b, INDEX_OFFSET)
    ensures U16At(a, VERSION_OFFSET) == U16At(b, VERSION_OFFSET)
    ensures U32At(a, FEC_SET_INDEX_OFFSET) == U32At(b, FEC_SET_INDEX_OFFSET)
  {
    assert a[64] == a[64..83][0] && b[64] == b[64..83][0];
    SubSlice(a, b, 64, 83, SLOT_OFFSET, SLOT_OFFSET + 8);
    SubSlice(a, b, 64, 83, INDEX_OFFSET, INDEX_OFFSET + 4);
    SubSlice(a, b, 64, 83, VERSION_OFFSET, VERSION_OFFSET + 2);
    SubSlice(a, b, 64, 83, FEC_SET_INDEX_OFFSET, FEC_SET_INDEX_OFFSET + 4);
  }

  /** Only the bytes from the variant to the end of the headers decide what a full-size packet parses to. */
  lemma HeadersDecide(s: Shred, b: Bytes)
    requires Parsed(s) && |b| == |s.bytes|
    requires b[SIGNATURE_SIZE..HeadersSize(s.kind)] == s.bytes[SIGNATURE_SIZE..HeadersSize(s.kind)]
    ensures Parse(b) == Ok(s.(bytes := b))
  {
    ParsedWf(s);
    var a := s.bytes;
    assert a[..WireSize(s.kind)] == a && b[..WireSize(s.kind)] == b;
    var n := HeadersSize(s.kind);
    SubSlice(a, b, SIGNATURE_SIZE, n, 64, 83);
    SameCommonHeader(a, b);
    SubSlice(a, b, SIGNATURE_SIZE, n, PARENT_OFFSET_OFFSET, PARENT_OFFSET_OFFSET + 2);
    if s.IsData() {
      assert a[FLAGS_OFFSET] == a[64..88][21] && b[FLAGS_OFFSET] == b[64..88][21];
      SubSlice(a, b, SIGNATURE_SIZE, n, SIZE_OFFSET, SIZE_OFFSET + 2);
    } else {
      SubSlice(a, b, SIGNATURE_SIZE, n, NUM_CODE_OFFSET, NUM_CODE_OFFSET + 2);
      SubSlice(a, b, SIGNATURE_SIZE, n, POSITION_OFFSET, POSITION_OFFSET + 2);
    }
  }

  /**
   * Two shreds say the same: everything the leaf covers is equal. They may differ in signatures and in proof bytes,
   * which a rebuilt shred does not have.
   */
  ghost predicate Agrees(s: Shred, t: Shred) {
    && s.Wf() && t.Wf()
    && s == t.(bytes := s.bytes)
    && s.LeafBytes() == t.LeafBytes()
  }

  /** Agreeing shreds have the same payload, erasure shard and chained root. */
  lemma AgreesContent(s: Shred, t: Shred)
    requires Agrees(s, t)
    ensures s.Payload() == t.Payload()
    ensures s.ErasureShard() == t.ErasureShard()
    ensures s.ChainedMerkleRoot() == t.ChainedMerkleRoot()
  {
    var end := s.ProofOffset();
    SubSlice(s.bytes, t.bytes, SIGNATURE_SIZE, end, s.ShardStart(), HeadersSize(s.kind) + s.capacity);
    SubSlice(s.bytes, t.bytes, SIGNATURE_SIZE, end, end - MERKLE_ROOT_SIZE, end);
    if s.IsData() {
      SubSlice(s.bytes, t.bytes, SIGNATURE_SIZE, end, DATA_HEADERS_SIZE, s.header.size);
    }
  }

  /** Equal leaf bytes mean agreement: the leaf covers the variant and every header. */
  lemma LeafDecides(s: Shred, t: Shred)
    requires Parsed(s) && Parsed(t) && s.Wf() && t.Wf()
    requires s.LeafBytes() == t.LeafBytes()
    ensures Agrees(s, t)
  {
    hide Parse;
    var a, b := s.bytes, t.bytes;
    assert a[VARIANT_OFFSET] == s.LeafBytes()[0] && b[VARIANT_OFFSET] == t.LeafBytes()[0];
    VariantDecides(s, t);
    var n := HeadersSize(s.kind);
    SubSlice(a, b, SIGNATURE_SIZE, s.ProofOffset(), SIGNATURE_SIZE, n);
    HeadersDecide(t, a);
  }

  /** The variant byte fixes the kind, the proof size and the layout. */
  lemma VariantDecides(s: Shred, t: Shred)
    requires Parsed(s) && Parsed(t) && s.Wf() && t.Wf() && s.bytes[VARIANT_OFFSET] == t.bytes[VARIANT_OFFSET]
    ensures s.kind == t.kind && s.proofSize == t.proofSize && s.resigned == t.resigned && s.capacity == t.capacity
  {
    VariantIs(s);
    VariantIs(t);
  }

  lemma VariantIs(s: Shred)
    requires Parsed(s) && s.Wf()
    ensures var high := s.bytes[VARIANT_OFFSET] / 16;
            s.kind == (if high == 9 || high == 11 then Data else Code) && s.resigned == (high == 11 || high == 7) &&
            s.proofSize == s.bytes[VARIANT_OFFSET] % 16
  {
    hide U16At, U32At, U64At;
    assert s.bytes[..WireSize(s.kind)] == s.bytes;
  }
}
