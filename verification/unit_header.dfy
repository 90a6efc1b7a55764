/** The 68-byte little-endian `UnitHeader` record declared with construct's `Struct`. */
module UnitHeaderCodec {
  import opened Wrappers
  import opened Bytes

  /** Size in bytes of the record (`UnitHeader.sizeof()`). */
  const HeaderSize: nat := 68

  /** Field names follow the program, including its spelling `reversed`. */
  datatype UnitHeader = UnitHeader(
    formatPattern: seq<u8>,       // bytes 0..14
    noOfTransferUnits: u8,        // 15
    wearLevelingInfo: u32,        // 16..19
    logicalUnitNo: u16,           // 20..21
    log2SectorSize: u8,           // 22
    log2UnitSize: u8,             // 23
    firstPhysicalEUN: u16,        // 24..25
    noOfUnits: u16,               // 26..27
    virtualMediumSize: u32,       // 28..31
    directAddressingMemory: u32,  // 32..35
    noOfPages: u16,               // 36..37
    flags: u8,                    // 38
    eccCode: u8,                  // 39
    serialNumber: u32,            // 40..43
    altEUHoffset: u32,            // 44..47
    BAMoffset: u32,               // 48..51
    reversed: seq<u8>,            // 52..63
    embeddedCIS: seq<u8>          // 64..67
  )

  /** The fixed-length byte fields have the lengths the layout declares. */
  predicate WellFormed(h: UnitHeader) {
    |h.formatPattern| == 15 && |h.reversed| == 12 && |h.embeddedCIS| == 4
  }

  /** Serialises a header in the declared layout. */
  function Encode(h: UnitHeader): (r: seq<u8>)
    requires WellFormed(h)
    ensures |r| == HeaderSize
  {
    h.formatPattern
    + [h.noOfTransferUnits]
    + ToLe32(h.wearLevelingInfo)
    + ToLe16(h.logicalUnitNo)
    + [h.log2SectorSize, h.log2UnitSize]
    + ToLe16(h.firstPhysicalEUN)
    + ToLe16(h.noOfUnits)
    + ToLe32(h.virtualMediumSize)
    + ToLe32(h.directAddressingMemory)
    + ToLe16(h.noOfPages)
    + [h.flags, h.eccCode]
    + ToLe32(h.serialNumber)
    + ToLe32(h.altEUHoffset)
    + ToLe32(h.BAMoffset)
    + h.reversed
    + h.embeddedCIS
  }

  /** `UnitHeader.parse(b)`: reads the first 68 bytes and ignores the rest; fails
      when fewer than 68 bytes are supplied. */
  function Decode(b: seq<u8>): (r: Option<UnitHeader>)
    ensures r.None? <==> |b| < HeaderSize
    ensures r.Some? ==> WellFormed(r.value)
  {
    if |b| < HeaderSize then None
    else
      Some(UnitHeader(
        b[0..15], b[15], Le32(b, 16), Le16(b, 20), b[22], b[23], Le16(b, 24), Le16(b, 26),
        Le32(b, 28), Le32(b, 32), Le16(b, 36), b[38], b[39], Le32(b, 40), Le32(b, 44),
        Le32(b, 48), b[52..64], b[64..68]))
  }

  /** Decoding the first 68 bytes and encoding the header again gives those bytes
      back: no byte of the record is lost or reordered. */
  lemma {:induction false} EncodeDecode(b: seq<u8>)
    requires |b| >= HeaderSize
    ensures Encode(Decode(b).value) == b[..HeaderSize]
  {
    var h := Decode(b).value;
    Le32Inverse(b, 16);
    Le16Inverse(b, 20);
    Le16Inverse(b, 24);
    Le16Inverse(b, 26);
    Le32Inverse(b, 28);
    Le32Inverse(b, 32);
    Le16Inverse(b, 36);
    Le32Inverse(b, 40);
    Le32Inverse(b, 44);
    Le32Inverse(b, 48);
    var p := b[..15];
    assert b[..16] == p + [b[15]];                          p := b[..16];
    assert b[..20] == p + ToLe32(h.wearLevelingInfo);       p := b[..20];
    assert b[..22] == p + ToLe16(h.logicalUnitNo);          p := b[..22];
    assert b[..24] == p + [h.log2SectorSize, h.log2UnitSize]; p := b[..24];
    assert b[..26] == p + ToLe16(h.firstPhysicalEUN);       p := b[..26];
    assert b[..28] == p + ToLe16(h.noOfUnits);              p := b[..28];
    assert b[..32] == p + ToLe32(h.virtualMediumSize);      p := b[..32];
    assert b[..36] == p + ToLe32(h.directAddressingMemory); p := b[..36];
    assert b[..38] == p + ToLe16(h.noOfPages);              p := b[..38];
    assert b[..40] == p + [h.flags, h.eccCode];             p := b[..40];
    assert b[..44] == p + ToLe32(h.serialNumber);           p := b[..44];
    assert b[..48] == p + ToLe32(h.altEUHoffset);           p := b[..48];
    assert b[..52] == p + ToLe32(h.BAMoffset);              p := b[..52];
    assert b[..64] == p + h.reversed;                       p := b[..64];
    assert b[..68] == p + h.embeddedCIS;
  }

  /** Encoding a header and decoding the bytes yields the same field values. */
  lemma {:induction false} DecodeEncode(h: UnitHeader)
    requires WellFormed(h)
    ensures Decode(Encode(h)) == Some(h)
  {
    DecodeEncodeLow(h);
    DecodeEncodeHigh(h);
  }

  /** The fields in bytes 0..27 survive encoding and decoding. */
  lemma DecodeEncodeLow(h: UnitHeader)
    requires WellFormed(h)
    ensures var d := Decode(Encode(h)).value;
      && d.formatPattern == h.formatPattern && d.noOfTransferUnits == h.noOfTransferUnits
      && d.wearLevelingInfo == h.wearLevelingInfo && d.logicalUnitNo == h.logicalUnitNo
      && d.log2SectorSize == h.log2SectorSize && d.log2UnitSize == h.log2UnitSize
      && d.firstPhysicalEUN == h.firstPhysicalEUN && d.noOfUnits == h.noOfUnits
  {
    var e := Encode(h);
    assert e[0..15] == h.formatPattern;
    assert e[16..20] == ToLe32(h.wearLevelingInfo);
    assert e[20..22] == ToLe16(h.logicalUnitNo);
    assert e[24..26] == ToLe16(h.firstPhysicalEUN);
    assert e[26..28] == ToLe16(h.noOfUnits);
  }

  /** The fields in bytes 28..67 survive encoding and decoding. */
  lemma DecodeEncodeHigh(h: UnitHeader)
    requires WellFormed(h)
    ensures var d := Decode(Encode(h)).value;
      && d.virtualMediumSize == h.virtualMediumSize
      && d.directAddressingMemory == h.directAddressingMemory && d.noOfPages == h.noOfPages
      && d.flags == h.flags && d.eccCode == h.eccCode && d.serialNumber == h.serialNumber
      && d.altEUHoffset == h.altEUHoffset && d.BAMoffset == h.BAMoffset
      && d.reversed == h.reversed && d.embeddedCIS == h.embeddedCIS
  {
    var e := Encode(h);
    assert e[28..32] == ToLe32(h.virtualMediumSize);
    assert e[32..36] == ToLe32(h.directAddressingMemory);
    assert e[36..38] == ToLe16(h.noOfPages);
    assert e[40..44] == ToLe32(h.serialNumber);
    assert e[44..48] == ToLe32(h.altEUHoffset);
    assert e[48..52] == ToLe32(h.BAMoffset);
    assert e[52..64] == h.reversed;
    assert e[64..68] == h.embeddedCIS;
  }

  /** The fields the extractor uses sit at the documented offsets. */
  lemma FieldOffsets(b: seq<u8>)
    requires |b| >= HeaderSize
    ensures var h := Decode(b).value;
      && h.logicalUnitNo == b[20] as int + 0x100 * b[21] as int
      && h.log2SectorSize == b[22]
      && h.log2UnitSize == b[23]
      && h.virtualMediumSize == Le32(b, 28)
      && h.BAMoffset == Le32(b, 48)
  {
  }
}
