/**
 * The wire format of a shred in its own terms: byte offsets and numbers as they stand on the wire. What parsing
 * accepts, and what the accessors return, is stated here without the names the parser uses.
 */
module WireFormat {
  import opened Wire
  import opened Merkle
  import opened Shreds

  // ---- little-endian numbers, written out

  function Le2(b: Bytes, o: nat): nat
    requires o + 2 <= |b|
  {
    var low: nat, high: nat := b[o], b[o + 1];
    low + 0x100 * high
  }

  function Le4(b: Bytes, o: nat): nat
    requires o + 4 <= |b|
  {
    Le2(b, o) + 0x1_0000 * Le2(b, o + 2)
  }

  function Le8(b: Bytes, o: nat): nat
    requires o + 8 <= |b|
  {
    Le4(b, o) + 0x1_0000_0000 * Le4(b, o + 4)
  }

  lemma LowByte(b: Bytes, o: nat, n: nat)
    requires 0 < n && o + n <= |b|
    ensures FromLe(b[o..o + n]) == b[o] as nat + 0x100 * FromLe(b[o + 1..o + n])
  {
    assert b[o..o + n][1..] == b[o + 1..o + n];
  }

  lemma Le2Is(b: Bytes, o: nat)
    requires o + 2 <= |b|
    ensures FromLe(b[o..o + 2]) == Le2(b, o)
  {
    hide FromLe;
    LowByte(b, o, 2);
    LowByte(b, o + 1, 1);
    NoBytes(b, o + 2);
  }

  lemma NoBytes(b: Bytes, o: nat)
    requires o <= |b|
    ensures FromLe(b[o..o]) == 0
  {
  }

  lemma Le4Is(b: Bytes, o: nat)
    requires o + 4 <= |b|
    ensures FromLe(b[o..o + 4]) == Le4(b, o)
  {
    hide FromLe;
    LowByte(b, o, 4);
    LowByte(b, o + 1, 3);
    Le2Is(b, o + 2);
  }

  lemma Le8Is(b: Bytes, o: nat)
    requires o + 8 <= |b|
    ensures FromLe(b[o..o + 8]) == Le8(b, o)
  {
    hide FromLe;
    LowByte(b, o, 8);
    LowByte(b, o + 1, 7);
    LowByte(b, o + 2, 6);
    LowByte(b, o + 3, 5);
    Le4Is(b, o + 4);
  }

  /** The numbers the parser and the scanner read are these. */
  lemma LittleEndian(b: Bytes, o: nat)
    ensures o + 2 <= |b| ==> FromLe(b[o..o + 2]) == Le2(b, o)
    ensures o + 4 <= |b| ==> FromLe(b[o..o + 4]) == Le4(b, o)
    ensures o + 8 <= |b| ==> FromLe(b[o..o + 8]) == Le8(b, o)
  {
    hide FromLe, Le2, Le4, Le8;
    if o + 2 <= |b| {
      Le2Is(b, o);
    }
    if o + 4 <= |b| {
      Le4Is(b, o);
    }
    if o + 8 <= |b| {
      Le8Is(b, o);
    }
  }

  /** And what an encoder writes is read back: there is only one way to write a number in a given width. */
  lemma {:induction false} LeUnique(x: Bytes, y: Bytes)
    requires |x| == |y| && FromLe(x) == FromLe(y)
    ensures x == y
  {
    if x != [] {
      LowByte(x, 0, |x|);
      LowByte(y, 0, |y|);
      assert x[0..|x|] == x && y[0..|y|] == y;
      LeUnique(x[1..], y[1..]);
      assert x == [x[0]] + x[1..] && y == [y[0]] + y[1..];
    }
  }

  // ---- what is accepted

  /** Bytes a data shred can carry behind its headers. */
  function Room(variant: byte): int {
    var proofSize: nat := variant % 16;
    1083 - 20 * proofSize - if variant >= 0xb0 then 64 else 0
  }

  /** And a code shred behind its own. */
  function CodeRoom(variant: byte): int {
    var proofSize: nat := variant % 16;
    1107 - 20 * proofSize - if variant >= 0x70 then 64 else 0
  }

  predicate DataVariant(variant: byte) {
    0x90 <= variant < 0xa0 || 0xb0 <= variant < 0xc0
  }

  predicate CodeVariant(variant: byte) {
    0x60 <= variant < 0x80
  }

  predicate DataLegal(b: Bytes) {
    && |b| >= 1203 && DataVariant(b[64])
    && DataFieldsLegal(Le8(b, 65), Le4(b, 73), Le4(b, 79), Le2(b, 83), b[85])
    && 88 <= Le2(b, 86) <= 88 + Room(b[64])
  }

  predicate DataFieldsLegal(slot: nat, index: nat, fecSetIndex: nat, parent: nat, flags: byte) {
    && index < 32768
    && fecSetIndex % 32 == 0 && fecSetIndex <= index <= fecSetIndex + 31
    && parent <= slot && (parent == 0 ==> slot == 0)
    && !(0x80 <= flags < 0xc0)
    && (flags >= 0xc0 ==> index % 32 == 31)
  }

  predicate CodeLegal(b: Bytes) {
    && |b| >= 1228 && CodeVariant(b[64])
    && CodeFieldsLegal(Le4(b, 73), Le4(b, 79), Le2(b, 83), Le2(b, 85), Le2(b, 87))
  }

  predicate CodeFieldsLegal(index: nat, fecSetIndex: nat, numData: nat, numCode: nat, position: nat) {
    && index < 32768 && fecSetIndex % 32 == 0
    && numData == 32 && numCode == 32
    && position <= 31 && position <= index
  }

  /** The fields of the shred that a datagram parses to. */
  predicate CommonFields(s: Shred, b: Bytes)
    requires |b| >= 88
  {
    && s.slot == Le8(b, 65) && s.index == Le4(b, 73) && s.version == Le2(b, 77) && s.fecSetIndex == Le4(b, 79)
    && s.proofSize == b[64] % 16
  }

  lemma Numbers(b: Bytes)
    requires |b| >= 89
    ensures U64At(b, SLOT_OFFSET) == Le8(b, 65) && U32At(b, INDEX_OFFSET) == Le4(b, 73)
    ensures U16At(b, VERSION_OFFSET) == Le2(b, 77) && U32At(b, FEC_SET_INDEX_OFFSET) == Le4(b, 79)
    ensures U16At(b, PARENT_OFFSET_OFFSET) == U16At(b, NUM_DATA_OFFSET) == Le2(b, 83)
    ensures U16At(b, NUM_CODE_OFFSET) == Le2(b, 85) && U16At(b, SIZE_OFFSET) == Le2(b, 86)
    ensures U16At(b, POSITION_OFFSET) == Le2(b, 87)
  {
    hide FromLe, Le2, Le4, Le8;
    LittleEndian(b, 65);
    LittleEndian(b, 73);
    LittleEndian(b, 77);
    LittleEndian(b, 79);
    LittleEndian(b, 83);
    LittleEndian(b, 85);
    LittleEndian(b, 86);
    LittleEndian(b, 87);
  }

  /** A cut datagram has the same numbers in its headers. */
  lemma SameNumbers(b: Bytes, c: Bytes)
    requires |b| >= 89 && b <= c
    ensures Le8(b, 65) == Le8(c, 65) && Le4(b, 73) == Le4(c, 73) && Le2(b, 77) == Le2(c, 77) && Le4(b, 79) == Le4(c, 79)
    ensures Le2(b, 83) == Le2(c, 83) && Le2(b, 85) == Le2(c, 85) && Le2(b, 86) == Le2(c, 86) && Le2(b, 87) == Le2(c, 87)
  {
  }

  predicate IsDataShred(s: Shred, b: Bytes)
    requires |b| >= 1203
  {
    && s.kind.Data? && CommonFields(s, b) && s.bytes == b[..1203] && s.capacity == Room(b[64])
    && s.resigned == (b[64] >= 0xb0) && s.header == DataHeader(Le2(b, 83), b[85], Le2(b, 86))
  }

  predicate IsCodeShred(s: Shred, b: Bytes)
    requires |b| >= 1228
  {
    && s.kind.Code? && CommonFields(s, b) && s.bytes == b[..1228] && s.capacity == CodeRoom(b[64])
    && s.resigned == (b[64] >= 0x70) && s.header == CodeHeader(Le2(b, 87))
  }

  /** A datagram is parsed as a data shred exactly when it is legal as one, and then to exactly its own fields. */
  lemma ParseDataIff(b: Bytes)
    ensures match Parse(b)
            case Ok(s) => (s.kind.Data? <==> DataLegal(b)) && (DataLegal(b) ==> IsDataShred(s, b))
            case Err(_) => !DataLegal(b)
  {
    hide U16At, U32At, U64At, Le2, Le4, Le8;
    if |b| >= 1203 {
      Numbers(b[..1203]);
      SameNumbers(b[..1203], b);
    }
  }

  /** The same for code shreds. */
  lemma ParseCodeIff(b: Bytes)
    ensures match Parse(b)
            case Ok(s) => (s.kind.Code? <==> CodeLegal(b)) && (CodeLegal(b) ==> IsCodeShred(s, b))
            case Err(_) => !CodeLegal(b)
  {
    hide U16At, U32At, U64At, Le2, Le4, Le8;
    if |b| >= 1228 {
      Numbers(b[..1228]);
      SameNumbers(b[..1228], b);
    }
  }

  /** Why a datagram is refused: the first of these reasons, in this order. */
  lemma ParseErrors(b: Bytes)
    requires Parse(b).Err?
    ensures var e := Parse(b).error;
            var known := |b| > 64 && (DataVariant(b[64]) || CodeVariant(b[64]));
            var long := known && |b| >= if DataVariant(b[64]) then 1203 else 1228;
            var indexed := long && Le4(b, 73) < 32768;
            var aligned := indexed && DataVariant(b[64]) && Le4(b, 79) % 32 == 0 &&
                           Le4(b, 79) <= Le4(b, 73) <= Le4(b, 79) + 31;
            var parented := aligned && Le2(b, 83) <= Le8(b, 65) && (Le2(b, 83) == 0 ==> Le8(b, 65) == 0);
            var flagged := parented && !(0x80 <= b[85] < 0xc0) && (b[85] >= 0xc0 ==> Le4(b, 73) % 32 == 31);
            && (e.InvalidVariant? <==> |b| > 64 && !known)
            && (e.TooShort? <==> |b| <= 64 || (known && !long))
            && (e.IndexOutOfRange? <==> long && !indexed)
            && (e.InvalidErasureConfig? <==> indexed && CodeVariant(b[64]))
            && (e.FecSetMisaligned? <==> indexed && DataVariant(b[64]) && !aligned)
            && (e.InvalidParentOffset? <==> aligned && !parented)
            && (e.InvalidFlags? <==> parented && !flagged)
            && (e.InvalidSize? <==> flagged)
  {
    hide U16At, U32At, U64At, Le2, Le4, Le8;
    if |b| >= 1203 {
      Numbers(b[..1203]);
      SameNumbers(b[..1203], b);
    }
    if |b| >= 1228 {
      Numbers(b[..1228]);
      SameNumbers(b[..1228], b);
    }
  }

  /** And the error names the numbers of the datagram. */
  lemma ErrorNumbers(b: Bytes)
    requires Parse(b).Err?
    ensures match Parse(b).error
            case TooShort(len) => len == |b|
            case InvalidVariant(variant) => |b| > 64 && variant == b[64]
            case InvalidProofSize(_) => false
            case IndexOutOfRange(index) => |b| >= 1203 && index == Le4(b, 73)
            case FecSetMisaligned(index, fecSetIndex) =>
              |b| >= 1203 && index == Le4(b, 73) && fecSetIndex == Le4(b, 79)
            case InvalidParentOffset(slot, parentOffset) =>
              |b| >= 1203 && slot == Le8(b, 65) && parentOffset == Le2(b, 83)
            case InvalidFlags(flags) => |b| >= 1203 && flags == b[85]
            case InvalidSize(size) => |b| >= 1203 && size == Le2(b, 86)
            case InvalidErasureConfig(numData, numCode, position) =>
              |b| >= 1228 && numData == Le2(b, 83) && numCode == Le2(b, 85) && position == Le2(b, 87)
  {
    hide U16At, U32At, U64At, Le2, Le4, Le8;
    if |b| >= 1203 {
      Numbers(b[..1203]);
      SameNumbers(b[..1203], b);
    }
    if |b| >= 1228 {
      Numbers(b[..1228]);
      SameNumbers(b[..1228], b);
    }
  }

  // ---- what the accessors return, as byte ranges of the datagram

  lemma DataContent(b: Bytes, s: Shred)
    requires DataLegal(b) && Parse(b) == Ok(s)
    ensures s.Wf()
    ensures var end := 120 + Room(b[64]);
            && s.Signature() == b[..64]
            && s.Payload() == b[88..Le2(b, 86)]
            && s.ErasureShard() == b[64..end - 32]
            && s.ChainedMerkleRoot() == b[end - 32..end]
            && s.MerkleProof() == b[end..end + 20 * (b[64] as nat % 16)]
            && s.RetransmitterSignature() == (if b[64] >= 0xb0 then Some(b[1139..1203]) else None)
            && s.LeafBytes() == b[64..end]
    ensures s.Position() == Le4(b, 73) - Le4(b, 79)
    ensures (s.DataComplete() <==> b[85] as nat % 0x80 >= 0x40) && (s.LastInSlot() <==> b[85] >= 0xc0)
  {
    hide Parse, Le2, Le4, Le8;
    ParseDataIff(b);
    ParseOk(b);
    var end := 120 + Room(b[64]);
    PrefixSlice(s.bytes, b, 0, 64);
    PrefixSlice(s.bytes, b, 88, Le2(b, 86));
    PrefixSlice(s.bytes, b, 64, end - 32);
    PrefixSlice(s.bytes, b, end - 32, end);
    PrefixSlice(s.bytes, b, end, end + 20 * s.proofSize);
    PrefixSlice(s.bytes, b, 64, end);
    PrefixSlice(s.bytes, b, 1139, 1203);
  }

  lemma CodeContent(b: Bytes, s: Shred)
    requires CodeLegal(b) && Parse(b) == Ok(s)
    ensures s.Wf()
    ensures var end := 121 + CodeRoom(b[64]);
            && s.Signature() == b[..64]
            && s.Payload() == []
            && s.ErasureShard() == b[89..end - 32]
            && s.ChainedMerkleRoot() == b[end - 32..end]
            && s.MerkleProof() == b[end..end + 20 * (b[64] as nat % 16)]
            && s.RetransmitterSignature() == (if b[64] >= 0x70 then Some(b[1164..1228]) else None)
            && s.LeafBytes() == b[64..end]
    ensures s.Position() == 32 + Le2(b, 87) && !s.DataComplete() && !s.LastInSlot()
  {
    hide Parse, Le2, Le4, Le8;
    ParseCodeIff(b);
    ParseOk(b);
    var end := 121 + CodeRoom(b[64]);
    PrefixSlice(s.bytes, b, 0, 64);
    PrefixSlice(s.bytes, b, 89, end - 32);
    PrefixSlice(s.bytes, b, end - 32, end);
    PrefixSlice(s.bytes, b, end, end + 20 * s.proofSize);
    PrefixSlice(s.bytes, b, 64, end);
    PrefixSlice(s.bytes, b, 1164, 1228);
  }

  // ---- what a leader writes

  /** A data shred: a chunk of entry bytes behind 88 bytes of headers, and then whatever fills the packet. */
  datatype DataShape = DataShape(
    signature: Bytes, variant: byte, slot: nat, index: nat, version: nat, fecSetIndex: nat,
    parent: nat, flags: byte, chunk: Bytes, rest: Bytes)

  datatype CodeShape = CodeShape(
    signature: Bytes, variant: byte, slot: nat, index: nat, version: nat, fecSetIndex: nat,
    numData: nat, numCode: nat, position: nat, rest: Bytes)

  /** The fields fit their widths, and the packet is long enough. */
  predicate DataShapeOk(d: DataShape) {
    && |d.signature| == 64 && DataVariant(d.variant)
    && d.slot < 0x1_0000_0000_0000_0000 && d.index < 0x1_0000_0000 && d.version < 0x1_0000
    && d.fecSetIndex < 0x1_0000_0000
    && d.parent < 0x1_0000 && 88 + |d.chunk| < 0x1_0000 && 88 + |d.chunk| + |d.rest| >= 1203
  }

  predicate CodeShapeOk(c: CodeShape) {
    && |c.signature| == 64 && CodeVariant(c.variant)
    && c.slot < 0x1_0000_0000_0000_0000 && c.index < 0x1_0000_0000 && c.version < 0x1_0000
    && c.fecSetIndex < 0x1_0000_0000
    && c.numData < 0x1_0000 && c.numCode < 0x1_0000 && c.position < 0x1_0000 && 89 + |c.rest| >= 1228
  }

  /** The 83 bytes that both kinds start with. */
  function Start(signature: Bytes, variant: byte, slot: nat, index: nat, version: nat, fecSetIndex: nat): (r: Bytes)
    requires |signature| == 64
    ensures |r| == 83
  {
    signature + [variant] + ToLe(slot, 8) + ToLe(index, 4) + ToLe(version, 2) + ToLe(fecSetIndex, 4)
  }

  function EncodeData(d: DataShape): Bytes
    requires DataShapeOk(d)
  {
    Start(d.signature, d.variant, d.slot, d.index, d.version, d.fecSetIndex)
    + (ToLe(d.parent, 2) + [d.flags] + ToLe(88 + |d.chunk|, 2)) + d.chunk + d.rest
  }

  function EncodeCode(c: CodeShape): Bytes
    requires CodeShapeOk(c)
  {
    Start(c.signature, c.variant, c.slot, c.index, c.version, c.fecSetIndex)
    + (ToLe(c.numData, 2) + ToLe(c.numCode, 2) + ToLe(c.position, 2)) + c.rest
  }

  lemma WidthRoundTrip(n: nat, b: Bytes, o: nat)
    ensures n < 0x1_0000 && o + 2 <= |b| && b[o..o + 2] == ToLe(n, 2) ==> Le2(b, o) == n
    ensures n < 0x1_0000_0000 && o + 4 <= |b| && b[o..o + 4] == ToLe(n, 4) ==> Le4(b, o) == n
    ensures n < 0x1_0000_0000_0000_0000 && o + 8 <= |b| && b[o..o + 8] == ToLe(n, 8) ==> Le8(b, o) == n
  {
    hide FromLe, ToLe, Le2, Le4, Le8;
    LittleEndian(b, o);
    EightBytes();
    assert Pow256(2) == 0x1_0000 && Pow256(4) == 0x1_0000_0000;
    if n < 0x1_0000 {
      LeRoundTrip(n, 2);
    }
    if n < 0x1_0000_0000 {
      LeRoundTrip(n, 4);
    }
    if n < 0x1_0000_0000_0000_0000 {
      LeRoundTrip(n, 8);
    }
  }

  lemma StartFields(signature: Bytes, variant: byte, slot: nat, index: nat, version: nat, fecSetIndex: nat, b: Bytes)
    requires |signature| == 64 && Start(signature, variant, slot, index, version, fecSetIndex) <= b
    requires slot < 0x1_0000_0000_0000_0000 && index < 0x1_0000_0000 && version < 0x1_0000
    requires fecSetIndex < 0x1_0000_0000
    ensures b[..64] == signature && b[64] == variant
    ensures Le8(b, 65) == slot && Le4(b, 73) == index && Le2(b, 77) == version && Le4(b, 79) == fecSetIndex
  {
    hide ToLe, Le2, Le4, Le8;
    var s := Start(signature, variant, slot, index, version, fecSetIndex);
    assert s[..64] == signature && s[64] == variant;
    assert s[65..73] == ToLe(slot, 8) && s[73..77] == ToLe(index, 4);
    assert s[77..79] == ToLe(version, 2) && s[79..83] == ToLe(fecSetIndex, 4);
    PrefixSlice(s, b, 0, 64);
    PrefixSlice(s, b, 65, 73);
    PrefixSlice(s, b, 73, 77);
    PrefixSlice(s, b, 77, 79);
    PrefixSlice(s, b, 79, 83);
    WidthRoundTrip(slot, b, 65);
    WidthRoundTrip(index, b, 73);
    WidthRoundTrip(version, b, 77);
    WidthRoundTrip(fecSetIndex, b, 79);
  }

  /** Six bytes behind the common start, three numbers or two around a flag byte. */
  lemma TailSlices(start: Bytes, tail: Bytes, more: Bytes, i: nat, j: nat)
    requires i <= j <= |tail|
    ensures (start + tail + more)[|start| + i..|start| + j] == tail[i..j]
  {
  }

  lemma DataFieldsIn(d: DataShape)
    requires DataShapeOk(d)
    ensures var b := EncodeData(d);
            && |b| == 88 + |d.chunk| + |d.rest| && b[..64] == d.signature && b[64] == d.variant
            && Le8(b, 65) == d.slot && Le4(b, 73) == d.index && Le2(b, 77) == d.version && Le4(b, 79) == d.fecSetIndex
            && Le2(b, 83) == d.parent && b[85] == d.flags && Le2(b, 86) == 88 + |d.chunk|
            && b[88..88 + |d.chunk|] == d.chunk
  {
    hide ToLe, Le2, Le4, Le8, Start;
    var b, start := EncodeData(d), Start(d.signature, d.variant, d.slot, d.index, d.version, d.fecSetIndex);
    var tail := ToLe(d.parent, 2) + [d.flags] + ToLe(88 + |d.chunk|, 2);
    var more := d.chunk + d.rest;
    assert b == start + tail + more;
    StartFields(d.signature, d.variant, d.slot, d.index, d.version, d.fecSetIndex, b);
    assert tail[0..2] == ToLe(d.parent, 2) && tail[2] == d.flags && tail[3..5] == ToLe(88 + |d.chunk|, 2);
    TailSlices(start, tail, more, 0, 2);
    TailSlices(start, tail, more, 3, 5);
    WidthRoundTrip(d.parent, b, 83);
    WidthRoundTrip(88 + |d.chunk|, b, 86);
  }

  /**
   * Encoder round trip: what a leader writes is accepted exactly when its fields are legal and its chunk fits, and
   * comes back field by field, with the chunk as its payload.
   */
  lemma DataRoundTrip(d: DataShape)
    requires DataShapeOk(d)
    ensures match Parse(EncodeData(d))
            case Err(_) =>
              !(DataFieldsLegal(d.slot, d.index, d.fecSetIndex, d.parent, d.flags) && |d.chunk| <= Room(d.variant))
            case Ok(s) =>
              && DataFieldsLegal(d.slot, d.index, d.fecSetIndex, d.parent, d.flags) && |d.chunk| <= Room(d.variant)
              && s.kind.Data? && s.slot == d.slot && s.index == d.index && s.version == d.version
              && s.fecSetIndex == d.fecSetIndex && s.header == DataHeader(d.parent, d.flags, 88 + |d.chunk|)
              && s.Wf() && s.Signature() == d.signature && s.Payload() == d.chunk
  {
    hide Parse, Le2, Le4, Le8, EncodeData, Room, Shred.Signature, Shred.Payload, Shred.ErasureShard, DataFieldsLegal;
    var b := EncodeData(d);
    DataFieldsIn(d);
    ParseDataIff(b);
    if Parse(b).Ok? && DataLegal(b) {
      DataContent(b, Parse(b).value);
    }
    VariantsApart(b);
  }

  /** No datagram is both. */
  lemma VariantsApart(b: Bytes)
    ensures Parse(b).Ok? && |b| > 64 && DataVariant(b[64]) ==> Parse(b).value.kind.Data?
    ensures Parse(b).Ok? && |b| > 64 && CodeVariant(b[64]) ==> Parse(b).value.kind.Code?
  {
    hide ParseBody;
    if Parse(b).Ok? {
      ParseDataIff(b);
      ParseCodeIff(b);
    }
  }

  lemma CodeFieldsIn(c: CodeShape)
    requires CodeShapeOk(c)
    ensures var b := EncodeCode(c);
            && |b| == 89 + |c.rest| && b[..64] == c.signature && b[64] == c.variant
            && Le8(b, 65) == c.slot && Le4(b, 73) == c.index && Le2(b, 77) == c.version && Le4(b, 79) == c.fecSetIndex
            && Le2(b, 83) == c.numData && Le2(b, 85) == c.numCode && Le2(b, 87) == c.position
  {
    hide ToLe, Le2, Le4, Le8, Start;
    var b, start := EncodeCode(c), Start(c.signature, c.variant, c.slot, c.index, c.version, c.fecSetIndex);
    var tail := ToLe(c.numData, 2) + ToLe(c.numCode, 2) + ToLe(c.position, 2);
    assert b == start + tail + c.rest;
    StartFields(c.signature, c.variant, c.slot, c.index, c.version, c.fecSetIndex, b);
    assert tail[0..2] == ToLe(c.numData, 2) && tail[2..4] == ToLe(c.numCode, 2) && tail[4..6] == ToLe(c.position, 2);
    TailSlices(start, tail, c.rest, 0, 2);
    TailSlices(start, tail, c.rest, 2, 4);
    TailSlices(start, tail, c.rest, 4, 6);
    WidthRoundTrip(c.numData, b, 83);
    WidthRoundTrip(c.numCode, b, 85);
    WidthRoundTrip(c.position, b, 87);
  }

  /** The same for code shreds. */
  lemma CodeRoundTrip(c: CodeShape)
    requires CodeShapeOk(c)
    ensures match Parse(EncodeCode(c))
            case Err(_) => !CodeFieldsLegal(c.index, c.fecSetIndex, c.numData, c.numCode, c.position)
            case Ok(s) =>
              && CodeFieldsLegal(c.index, c.fecSetIndex, c.numData, c.numCode, c.position)
              && s.kind.Code? && s.slot == c.slot && s.index == c.index && s.version == c.version
              && s.fecSetIndex == c.fecSetIndex && s.header == CodeHeader(c.position)
              && s.Wf() && s.Signature() == c.signature && s.Position() == 32 + c.position
  {
    hide Parse, Le2, Le4, Le8, EncodeCode, CodeRoom, Shred.Signature, Shred.Payload, Shred.ErasureShard,
         CodeFieldsLegal;
    var b := EncodeCode(c);
    CodeFieldsIn(c);
    ParseCodeIff(b);
    if Parse(b).Ok? && CodeLegal(b) {
      CodeContent(b, Parse(b).value);
    }
    VariantsApart(b);
  }
}
