/** What the scan refuses, and how it reads lengths, in the bytes themselves. */
module Refusals {
  import opened Wire
  import opened View
  import opened WireFormat

  /** The three forms of a compact length, non-minimal ones included, and the refusal of a fourth byte. */
  lemma CompactLengths(b: Bytes, o: nat)
    ensures o + 1 <= |b| && b[o] < 0x80 ==> ShortLen(b, o) == Done(b[o], o + 1)
    ensures o + 2 <= |b| && b[o] >= 0x80 > b[o + 1] ==>
              ShortLen(b, o) == Done((b[o] as nat - 0x80) + 0x80 * b[o + 1] as nat, o + 2)
    ensures o + 3 <= |b| && b[o] >= 0x80 && b[o + 1] >= 0x80 > b[o + 2] ==>
              ShortLen(b, o) ==
              Done((b[o] as nat - 0x80) + 0x80 * (b[o + 1] as nat - 0x80) + 0x4000 * b[o + 2] as nat, o + 3)
    ensures o + 3 <= |b| && b[o] >= 0x80 && b[o + 1] >= 0x80 && b[o + 2] >= 0x80 ==>
              ShortLen(b, o) == Fail(BadShortVec(o), o + 3)
  {
    hide ShortFrom, ShortValue;
    ShortUnfold(b, o, o, 0, 0);
    if o < |b| {
      var v0 := ShortValue(0, b[o], 0);
      FirstDigit(b[o]);
      ShortUnfold(b, o + 1, o, 1, v0);
      if o + 1 < |b| {
        var v1 := ShortValue(v0, b[o + 1], 1);
        ShortUnfold(b, o + 2, o, 2, v1);
        NextDigits(v0, b[o + 1]);
        if o + 2 < |b| {
          NextDigits(v1, b[o + 2]);
          ShortTooLong(b, o + 3, o, ShortValue(v1, b[o + 2], 2));
        }
      }
    }
  }

  lemma FirstDigit(x: byte)
    ensures ShortValue(0, x, 0) == if x < 0x80 then x as nat else x as nat - 0x80
  {
  }

  lemma NextDigits(value: nat, x: byte)
    ensures ShortValue(value, x, 1) == value + 0x80 * if x < 0x80 then x as nat else x as nat - 0x80
    ensures ShortValue(value, x, 2) == value + 0x4000 * if x < 0x80 then x as nat else x as nat - 0x80
  {
    assert Pow128(1) == 0x80 && Pow128(2) == 0x4000;
  }

  /** Which config masks are refused: any bit above the fifth, or one of the two fee bits without the other. */
  lemma MaskRefused(b: Bytes, o: nat)
    requires o + 8 <= |b|
    ensures VersionOne(b, o) == Fail(BadConfigMask, o + 8) <==>
              Le4(b, o + 4) >= 0x20 || Le4(b, o + 4) % 4 == 1 || Le4(b, o + 4) % 4 == 2
  {
    hide V1Tail, ConfigLen, FromLe, Le4;
    LittleEndian(b, o + 4);
    if MaskOk(Le4(b, o + 4)) {
      TailNotMask(b, o);
    }
  }

  lemma TailNotMask(b: Bytes, o: nat)
    requires o + 8 <= |b| && MaskOk(FromLe(b[o + 4..o + 8]))
    ensures VersionOne(b, o).Fail? ==> VersionOne(b, o).error.Truncated?
  {
    hide MaskOk, ConfigLen, PayloadsLen, FromLe;
  }

  /** Which first bytes start no transaction at all. */
  lemma FirstByteRefused(b: Bytes, o: nat)
    requires o < |b|
    ensures b[o] == 0x80 || b[o] > 0x81 ==> Transaction(b, o) == Fail(UnknownVersion(b[o]), o)
    ensures b[o] == 0x81 ==> Transaction(b, o) == VersionOne(b, o)
    ensures b[o] < 0x80 ==> Transaction(b, o) == LegacyOrV0(b, o)
  {
  }

  /** Behind the signatures, a byte below 0x80 starts a legacy message, 0x80 a v0 message, and any other is refused. */
  lemma MessageByte(b: Bytes, o: nat)
    requires o < |b| && b[o] < 0x80
    ensures var at := o + 1 + 64 * b[o] as nat;
            && (at >= |b| ==> LegacyOrV0(b, o).Fail? && LegacyOrV0(b, o).error.Truncated?)
            && (at < |b| && b[at] > 0x80 ==> LegacyOrV0(b, o) == Fail(UnknownVersion(b[at]), at))
            && (at < |b| && LegacyOrV0(b, o).Done? ==>
                  b[at] <= 0x80 && LegacyOrV0(b, o).value.version == if b[at] == 0x80 then V0 else Legacy)
  {
    hide ShortLen, Message;
    CompactLengths(b, o);
  }
}
