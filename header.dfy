/**
 * The fixed 12-byte DNS message header (section 4.1.1 of RFC 1035):
 * decoding from bytes, encoding back into a 12-byte buffer, and the two
 * round trips between them.
 */
module HeaderCodec {
  import opened Errors
  import opened Bytes
  import opened BitCasts

  const HeaderSize := 12

  /**
   * The decoded header. As in the Rust code, `opCode`, `z` and `rcode` are
   * whole bytes although the wire gives them 4, 3 and 4 bits; they are
   * kept as bit vectors because they are only ever masked, shifted and or-ed.
   */
  datatype Header = Header(
    id: uint16,
    qr: bool,
    opCode: bv8,
    aa: bool,
    tc: bool,
    rd: bool,
    ra: bool,
    z: bv8,
    rcode: bv8,
    qdCount: uint16,
    anCount: uint16,
    nsCount: uint16,
    arCount: uint16)

  /** Every bit field lies within the width the wire format gives it. */
  predicate FitsWidths(h: Header)
  {
    h.opCode < 16 && h.z < 8 && h.rcode < 16
  }

  /** `b as u8`. */
  function Bit(b: bool): bv8
  {
    if b then 1 else 0
  }

  /** Byte 2: `qr|opcode|aa|tc|rd`, most significant bit first; `opCode << 3` drops its high bits. */
  function FlagBits1(h: Header): bv8
  {
    (Bit(h.qr) << 7) | (h.opCode << 3) | (Bit(h.aa) << 2) | (Bit(h.tc) << 1) | Bit(h.rd)
  }

  /** Byte 3: `ra|z|rcode`, most significant bit first. */
  function FlagBits2(h: Header): bv8
  {
    (Bit(h.ra) << 7) | (h.z << 4) | h.rcode
  }

  function Flags1(h: Header): uint8
  {
    FlagBits1(h) as int
  }

  function Flags2(h: Header): uint8
  {
    FlagBits2(h) as int
  }

  /** `DnsMessageHeader::try_from`: exactly 12 bytes, or `InvalidHeader`. */
  function Decode(bytes: seq<uint8>): (r: Result<Header>)
    ensures r.Err? <==> |bytes| != HeaderSize
    ensures r.Err? ==> r.error == InvalidHeader
    ensures r.Ok? ==> FitsWidths(r.value)
  {
    if |bytes| != HeaderSize then Err(InvalidHeader)
    else
      var flags1, flags2 := bytes[2] as bv8, bytes[3] as bv8;
      Ok(Header(
        id := Word16(bytes[0], bytes[1]),
        qr := flags1 & 0x80 != 0,
        opCode := (flags1 & 0x78) >> 3,
        aa := flags1 & 0x04 != 0,
        tc := flags1 & 0x02 != 0,
        rd := flags1 & 0x01 != 0,
        ra := flags2 & 0x80 != 0,
        z := (flags2 & 0x70) >> 4,
        rcode := flags2 & 0x0F,
        qdCount := Word16(bytes[4], bytes[5]),
        anCount := Word16(bytes[6], bytes[7]),
        nsCount := Word16(bytes[8], bytes[9]),
        arCount := Word16(bytes[10], bytes[11])))
  }

  /** The bytes `<[u8; 12]>::from(&header)` produces. */
  function Encode(h: Header): (r: seq<uint8>)
    ensures |r| == HeaderSize
  {
    [HighByte(h.id), LowByte(h.id), Flags1(h), Flags2(h),
     HighByte(h.qdCount), LowByte(h.qdCount), HighByte(h.anCount), LowByte(h.anCount),
     HighByte(h.nsCount), LowByte(h.nsCount), HighByte(h.arCount), LowByte(h.arCount)]
  }

  /** The id and the four counts sit big-endian at bytes 0-1, 4-5, 6-7, 8-9 and 10-11. */
  lemma WordOffsets(h: Header)
    ensures var e := Encode(h);
      Word16(e[0], e[1]) == h.id && Word16(e[4], e[5]) == h.qdCount && Word16(e[6], e[7]) == h.anCount &&
      Word16(e[8], e[9]) == h.nsCount && Word16(e[10], e[11]) == h.arCount
  {
    Be16Inverse(h.id);
    Be16Inverse(h.qdCount);
    Be16Inverse(h.anCount);
    Be16Inverse(h.nsCount);
    Be16Inverse(h.arCount);
  }

  /** Encoding as the Rust code does it: a zeroed 12-byte buffer filled field by field. */
  method Pack(h: Header) returns (bytes: seq<uint8>)
    ensures bytes == Encode(h)
  {
    var buf := new uint8[12]; // `[0u8; 12]`
    buf[0], buf[1] := HighByte(h.id), LowByte(h.id);
    buf[2] := Flags1(h);
    buf[3] := Flags2(h);
    buf[4], buf[5] := HighByte(h.qdCount), LowByte(h.qdCount);
    buf[6], buf[7] := HighByte(h.anCount), LowByte(h.anCount);
    buf[8], buf[9] := HighByte(h.nsCount), LowByte(h.nsCount);
    buf[10], buf[11] := HighByte(h.arCount), LowByte(h.arCount);
    bytes := buf[..];
  }

  /** Splitting a flags byte into its fields and packing them again gives the byte back. */
  lemma FlagsRoundTrip(flags1: bv8, flags2: bv8, h: Header)
    requires h.qr == (flags1 & 0x80 != 0) && h.opCode == (flags1 & 0x78) >> 3
    requires h.aa == (flags1 & 0x04 != 0) && h.tc == (flags1 & 0x02 != 0) && h.rd == (flags1 & 0x01 != 0)
    requires h.ra == (flags2 & 0x80 != 0) && h.z == (flags2 & 0x70) >> 4 && h.rcode == flags2 & 0x0F
    ensures FlagBits1(h) == flags1 && FlagBits2(h) == flags2
  {
  }

  /** The decoded flags pack back into bytes 2 and 3. */
  lemma DecodedFlags(bytes: seq<uint8>)
    requires |bytes| == HeaderSize
    ensures Flags1(Decode(bytes).value) == bytes[2] && Flags2(Decode(bytes).value) == bytes[3]
  {
    FlagsRoundTrip(bytes[2] as bv8, bytes[3] as bv8, Decode(bytes).value);
    ByteBits(bytes[2]);
    ByteBits(bytes[3]);
  }

  /** The decoded words split back into the bytes they were read from. */
  lemma DecodedWords(bytes: seq<uint8>)
    requires |bytes| == HeaderSize
    ensures var h := Decode(bytes).value;
      HighByte(h.id) == bytes[0] && LowByte(h.id) == bytes[1] &&
      HighByte(h.qdCount) == bytes[4] && LowByte(h.qdCount) == bytes[5] &&
      HighByte(h.anCount) == bytes[6] && LowByte(h.anCount) == bytes[7] &&
      HighByte(h.nsCount) == bytes[8] && LowByte(h.nsCount) == bytes[9] &&
      HighByte(h.arCount) == bytes[10] && LowByte(h.arCount) == bytes[11]
  {
    Word16Inverse(bytes[0], bytes[1]);
    Word16Inverse(bytes[4], bytes[5]);
    Word16Inverse(bytes[6], bytes[7]);
    Word16Inverse(bytes[8], bytes[9]);
    Word16Inverse(bytes[10], bytes[11]);
  }

  /** Every 12-byte input decodes (with its bit fields in range, by `Decode`) and encodes back to itself. */
  lemma BytesRoundTrip(bytes: seq<uint8>)
    requires |bytes| == HeaderSize
    ensures Decode(bytes).Ok? && Encode(Decode(bytes).value) == bytes
  {
    DecodedFlags(bytes);
    DecodedWords(bytes);
    var e := Encode(Decode(bytes).value);
    assert e == [bytes[0], bytes[1], bytes[2], bytes[3], bytes[4], bytes[5],
                 bytes[6], bytes[7], bytes[8], bytes[9], bytes[10], bytes[11]];
  }

  /** Unpacking the flags bytes of a header whose fields fit their widths gives the fields back. */
  lemma FlagsInverse(h: Header)
    requires FitsWidths(h)
    ensures var f1, f2 := FlagBits1(h), FlagBits2(h);
      (f1 & 0x80 != 0) == h.qr && (f1 & 0x78) >> 3 == h.opCode && (f1 & 0x04 != 0) == h.aa &&
      (f1 & 0x02 != 0) == h.tc && (f1 & 0x01 != 0) == h.rd &&
      (f2 & 0x80 != 0) == h.ra && (f2 & 0x70) >> 4 == h.z && f2 & 0x0F == h.rcode
  {
  }

  /** The flags bytes of an encoding, read as bits, are the packed fields. */
  lemma EncodedFlags(h: Header)
    ensures Encode(h)[2] as bv8 == FlagBits1(h) && Encode(h)[3] as bv8 == FlagBits2(h)
  {
    BitsByte(FlagBits1(h));
    BitsByte(FlagBits2(h));
  }

  /** Decoding the encoding of a header gives it back exactly when its bit fields fit their widths. */
  lemma ValueRoundTrip(h: Header)
    ensures Decode(Encode(h)) == Ok(h) <==> FitsWidths(h)
  {
    if FitsWidths(h) {
      FlagsInverse(h);
      EncodedFlags(h);
      Be16Inverse(h.id);
      Be16Inverse(h.qdCount);
      Be16Inverse(h.anCount);
      Be16Inverse(h.nsCount);
      Be16Inverse(h.arCount);
    }
  }

  /**
   * Without the width conditions the encoding loses information: bit 4 of
   * `opCode` lands on the qr bit and its higher bits are shifted out, bit 3
   * of `z` lands on ra and its higher bits are shifted out, and the high bits
   * of `rcode` are or-ed over z and ra. The id, the other flags and the four
   * counts always survive.
   */
  lemma Overflow(h: Header)
    ensures var d := Decode(Encode(h)).value;
      d.opCode == h.opCode & 0x0F && d.qr == (h.qr || h.opCode & 0x10 != 0) &&
      d.rcode == h.rcode & 0x0F && d.z == (h.z & 0x07) | ((h.rcode >> 4) & 0x07) &&
      d.ra == (h.ra || h.z & 0x08 != 0 || h.rcode & 0x80 != 0)
    ensures var d := Decode(Encode(h)).value;
      d.id == h.id && d.aa == h.aa && d.tc == h.tc && d.rd == h.rd &&
      d.qdCount == h.qdCount && d.anCount == h.anCount && d.nsCount == h.nsCount && d.arCount == h.arCount
  {
    EncodedFlags(h);
    WordOffsets(h);
  }
}
