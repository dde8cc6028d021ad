/** Two concrete datagrams of any slot, and the code shreds whose FEC set lies outside the slot. */
module Datagrams {
  import opened Wire
  import opened Shreds
  import opened SlotSpec
  import opened Window

  const U32_LIMIT := 0x1_0000_0000

  /** Data shred 0 of a slot: no payload, no proof entries, and it carries DATA_COMPLETE. */
  function DataPacket(slot: nat, version: nat): (r: Bytes)
    ensures |r| == DATA_SHRED_SIZE
  {
    Zeros(64) + [144] + ToLe(slot, 8) + Zeros(4) + ToLe(version, 2) + Zeros(4) + [if slot == 0 then 0 else 1, 0] +
    [64, 88, 0] + Zeros(1115)
  }

  function DataShred(slot: nat, version: nat): Shred {
    Shred(DataPacket(slot, version), Data, false, 0, slot, 0, version, 0, 1083,
          DataHeader(if slot == 0 then 0 else 1, 64, 88))
  }

  /** Code shred 0 of a FEC set, without proof entries. */
  function CodePacket(slot: nat, version: nat, fecSetIndex: nat): (r: Bytes)
    ensures |r| == CODE_SHRED_SIZE
  {
    Zeros(64) + [96] + ToLe(slot, 8) + Zeros(4) + ToLe(version, 2) + ToLe(fecSetIndex, 4) + [32, 0, 32, 0, 0, 0] +
    Zeros(1139)
  }

  function CodeShred(slot: nat, version: nat, fecSetIndex: nat): Shred {
    Shred(CodePacket(slot, version, fecSetIndex), Code, false, 0, slot, 0, version, fecSetIndex, 1107, CodeHeader(0))
  }

  lemma HeaderValues(slot: nat, version: nat, fecSetIndex: nat)
    requires slot < U64_LIMIT && version < 65536 && fecSetIndex < U32_LIMIT
    ensures FromLe(ToLe(slot, 8)) == slot && FromLe(ToLe(version, 2)) == version
    ensures FromLe(ToLe(fecSetIndex, 4)) == fecSetIndex
    ensures FromLe(Zeros(4)) == 0
  {
    hide ToLe, FromLe;
    EightBytes();
    assert Pow256(2) == 65536 && Pow256(4) == U32_LIMIT;
    LeRoundTrip(slot, 8);
    LeRoundTrip(version, 2);
    LeRoundTrip(fecSetIndex, 4);
    ZerosValue(4);
  }

  lemma DataFields(slot: nat, version: nat)
    requires slot < U64_LIMIT && version < 65536
    ensures var b := DataPacket(slot, version);
            && b[VARIANT_OFFSET] == 144 && b[FLAGS_OFFSET] == 64 && U64At(b, SLOT_OFFSET) == slot &&
               U32At(b, INDEX_OFFSET) == 0
            && U16At(b, VERSION_OFFSET) == version && U32At(b, FEC_SET_INDEX_OFFSET) == 0
            && U16At(b, PARENT_OFFSET_OFFSET) == (if slot == 0 then 0 else 1) && U16At(b, SIZE_OFFSET) == 88
  {
    hide FromLe, ToLe;
    var b := DataPacket(slot, version);
    assert b[65..73] == ToLe(slot, 8) && b[73..77] == Zeros(4) && b[77..79] == ToLe(version, 2) &&
           b[79..83] == Zeros(4);
    var parent: byte := if slot == 0 then 0 else 1;
    assert b[83..85] == [parent] + Zeros(1) && b[86..88] == [88] + Zeros(1);
    HeaderValues(slot, version, 0);
    LowValue(parent, 1);
    LowValue(88, 1);
  }

  lemma DataParses(slot: nat, version: nat)
    requires slot < U64_LIMIT && version < 65536
    ensures Parse(DataPacket(slot, version)) == Ok(DataShred(slot, version)) && InRange(DataShred(slot, version))
  {
    hide DataPacket, FromLe;
    var b := DataPacket(slot, version);
    DataFields(slot, version);
    assert b[..DATA_SHRED_SIZE] == b;
  }

  lemma DataShape(slot: nat, version: nat)
    ensures var x := DataShred(slot, version);
            && x.slot == slot && x.version == version && x.IsData() && x.index == x.fecSetIndex == 0
            && x.proofSize == 0 && x.DataComplete()
  {
    hide DataPacket;
  }

  lemma CodeFields(slot: nat, version: nat, fecSetIndex: nat)
    requires slot < U64_LIMIT && version < 65536 && fecSetIndex < U32_LIMIT
    ensures var b := CodePacket(slot, version, fecSetIndex);
            && b[VARIANT_OFFSET] == 96 && U64At(b, SLOT_OFFSET) == slot && U32At(b, INDEX_OFFSET) == 0
            && U16At(b, VERSION_OFFSET) == version && U32At(b, FEC_SET_INDEX_OFFSET) == fecSetIndex
            && U16At(b, NUM_DATA_OFFSET) == 32 && U16At(b, NUM_CODE_OFFSET) == 32 && U16At(b, POSITION_OFFSET) == 0
  {
    hide FromLe, ToLe;
    var b := CodePacket(slot, version, fecSetIndex);
    assert b[65..73] == ToLe(slot, 8) && b[73..77] == Zeros(4) && b[77..79] == ToLe(version, 2) &&
           b[79..83] == ToLe(fecSetIndex, 4);
    assert b[83..85] == [32] + Zeros(1) && b[85..87] == [32] + Zeros(1) && b[87..89] == [0] + Zeros(1);
    HeaderValues(slot, version, fecSetIndex);
    LowValue(32, 1);
    LowValue(0, 1);
  }

  lemma CodeParses(slot: nat, version: nat, fecSetIndex: nat)
    requires slot < U64_LIMIT && version < 65536 && fecSetIndex < U32_LIMIT && fecSetIndex % SHREDS_PER_SIDE == 0
    ensures Parse(CodePacket(slot, version, fecSetIndex)) == Ok(CodeShred(slot, version, fecSetIndex))
    ensures CodeShred(slot, version, fecSetIndex).Wf()
  {
    hide CodePacket, FromLe;
    var b := CodePacket(slot, version, fecSetIndex);
    CodeFields(slot, version, fecSetIndex);
    assert b[..CODE_SHRED_SIZE] == b;
  }

  // ---- out of range

  /** Exactly the code shreds whose header names a FEC set index above 32736 are parsed and then out of range. */
  lemma OutOfRangeIff(b: Bytes)
    requires |b| >= CODE_HEADERS_SIZE
    ensures !PacketOk(b) <==> Parse(b).Ok? && b[VARIANT_OFFSET] < 128 && U32At(b, FEC_SET_INDEX_OFFSET) > 32736
  {
    hide FromLe;
    if Parse(b).Ok? {
      ParseOk(b);
      SameIndex(b, Parse(b).value.bytes);
    }
  }

  lemma SameIndex(b: Bytes, front: Bytes)
    requires front <= b && |front| >= CODE_HEADERS_SIZE
    ensures U32At(b, FEC_SET_INDEX_OFFSET) == U32At(front, FEC_SET_INDEX_OFFSET)
  {
    assert b[FEC_SET_INDEX_OFFSET..FEC_SET_INDEX_OFFSET + 4] == front[FEC_SET_INDEX_OFFSET..FEC_SET_INDEX_OFFSET + 4];
  }

  /** There is such a datagram, of every slot: the precondition shuts out something the program parses. */
  lemma OutOfRangeExists(slot: nat, version: nat)
    requires slot < U64_LIMIT && version < 65536
    ensures Parse(CodePacket(slot, version, MAX_SHREDS_PER_SLOT)).Ok?
    ensures !PacketOk(CodePacket(slot, version, MAX_SHREDS_PER_SLOT))
  {
    hide CodePacket, Parse;
    CodeParses(slot, version, MAX_SHREDS_PER_SLOT);
  }

  // ---- stale

  /** The newest slot there is counts as stale, with a lookback of one slot, as soon as the mark is at slot 1. */
  lemma NewestIsStale(config: Config, version: u16)
    requires config.slotLookback == 1 && (config.shredVersion.None? || config.shredVersion == Some(version))
    ensures var packet := DataPacket(U64_LIMIT - 1, version);
            && Parse(packet).Ok? && Parse(packet).value.slot == U64_LIMIT - 1
            && Admission(config, 0, packet).Ok? && Admission(config, 1, packet) == Err(Stale)
  {
    hide DataPacket, Parse, Wrap;
    DataParses(U64_LIMIT - 1, version);
    DataShape(U64_LIMIT - 1, version);
    StaleIff(config, 0, DataPacket(U64_LIMIT - 1, version));
    StaleIff(config, 1, DataPacket(U64_LIMIT - 1, version));
  }
}
