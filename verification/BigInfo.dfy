/**
 * bt_bis.h: `struct pdu_big_info`, the packed BIGInfo record the tool reads
 * raw from a file. Because the struct is packed, its memory is its fields in
 * declared order with no padding, so reading the record is a pure decode of
 * 57 bytes and the memory it came from is its encode. The bit-packed groups
 * are little-endian words whose sub-fields are laid out from bit 0 upwards.
 */
module BigInfo {
  import opened Octet
  import opened Bytes

  /** The byte widths of the twelve members, in declared order. */
  const FieldWidths: seq<nat> := [4, 4, 3, 1, 1, 4, 4, 2, 5, 5, 8, 16]

  /** sizeof(pdu_big_info). */
  const RecordSize: nat := 57

  /** The byte offset of member i: the widths of the members declared before it, added up. */
  function Offset(i: nat): nat
    requires i <= |FieldWidths|
  {
    if i == 0 then 0 else Offset(i - 1) + FieldWidths[i - 1]
  }

  datatype BigInfo = BigInfo(
    biPacked0: seq<byte>,          // bi_packed_0_3[4]: offs, offs_units, iso_interval, num_bis
    biPacked4: seq<byte>,          // bi_packed_4_7[4]: nse, bn, sub_interval, pto
    biPacked8: seq<byte>,          // bi_packed_8_11[3]: spacing, irc
    maxPdu: byte,
    rfu: byte,
    seedAccessAddr: seq<byte>,     // seed_access_addr[4]
    sduPacked: seq<byte>,          // sdu_packed[4]: sdu_interval, max_sdu
    baseCrcInit: seq<byte>,        // base_crc_init[2]
    chmPhy: seq<byte>,             // chm_phy[5]: 37-bit channel map, 3-bit PHY
    payloadCountFraming: seq<byte>, // payload_count_framing[5]: 39-bit count, framing bit
    giv: seq<byte>,                // giv[8]
    gskd: seq<byte>)               // gskd[16]

  /** Every array member has its declared length. */
  predicate Valid(b: BigInfo)
  {
    && |b.biPacked0| == 4 && |b.biPacked4| == 4 && |b.biPacked8| == 3
    && |b.seedAccessAddr| == 4 && |b.sduPacked| == 4 && |b.baseCrcInit| == 2
    && |b.chmPhy| == 5 && |b.payloadCountFraming| == 5 && |b.giv| == 8 && |b.gskd| == 16
  }

  /** The bytes of member i in a raw record. */
  function Field(s: seq<byte>, i: nat): seq<byte>
    requires i < |FieldWidths| && |s| == RecordSize
  {
    LayoutOffsets();
    s[Offset(i) .. Offset(i + 1)]
  }

  /** Reading the record from its raw memory. */
  function Decode(s: seq<byte>): (b: BigInfo)
    requires |s| == RecordSize
    ensures Valid(b)
  {
    LayoutOffsets();
    BigInfo(Field(s, 0), Field(s, 1), Field(s, 2), s[Offset(3)], s[Offset(4)], Field(s, 5), Field(s, 6),
            Field(s, 7), Field(s, 8), Field(s, 9), Field(s, 10), Field(s, 11))
  }

  /** The raw memory of a record. */
  function Encode(b: BigInfo): (s: seq<byte>)
    requires Valid(b)
    ensures |s| == RecordSize
  {
    b.biPacked0 + b.biPacked4 + b.biPacked8 + [b.maxPdu] + [b.rfu] + b.seedAccessAddr + b.sduPacked
    + b.baseCrcInit + b.chmPhy + b.payloadCountFraming + b.giv + b.gskd
  }

  /**
   * The members tile the record: 57 bytes in all, seed_access_addr at
   * bytes 13..16, giv at 33..40 and gskd at 41..56.
   */
  lemma LayoutOffsets()
    ensures Offset(|FieldWidths|) == RecordSize
    ensures Offset(3) == 11 && Offset(4) == 12
    ensures Offset(5) == 13 && Offset(6) == 17
    ensures Offset(10) == 33 && Offset(11) == 41
    ensures forall i :: 0 <= i < |FieldWidths| ==> FieldWidths[i] > 0 && Offset(i) + FieldWidths[i] <= RecordSize
  {
  }

  /** The members the search reads come from the documented offsets. */
  lemma DecodeOffsets(s: seq<byte>)
    requires |s| == RecordSize
    ensures Decode(s).seedAccessAddr == s[13..17]
    ensures Decode(s).giv == s[33..41]
    ensures Decode(s).gskd == s[41..57]
  {
    LayoutOffsets();
  }

  /** Re-encoding a decoded record gives back its raw bytes. */
  lemma EncodeDecode(s: seq<byte>)
    requires |s| == RecordSize
    ensures Encode(Decode(s)) == s
  {
    LayoutOffsets();
    assert s == s[0..4] + s[4..8] + s[8..11] + [s[11]] + [s[12]] + s[13..17] + s[17..21]
              + s[21..23] + s[23..28] + s[28..33] + s[33..41] + s[41..57];
  }

  /** When the first n bytes of s are a + m, s splits there into a and m. */
  lemma SplitPrefix(s: seq<byte>, a: seq<byte>, m: seq<byte>, n: nat)
    requires n == |a| + |m| <= |s| && s[..n] == a + m
    ensures s[..|a|] == a && s[|a|..n] == m
  {
    assert s[..|a|] == s[..n][..|a|];
    assert s[|a|..n] == s[..n][|a|..];
  }

  /** Decoding the raw memory of a record gives back the record. */
  lemma DecodeEncode(b: BigInfo)
    requires Valid(b)
    ensures Decode(Encode(b)) == b
  {
    LayoutOffsets();
    var s := Encode(b);
    var q1 := b.biPacked0;
    var q2 := q1 + b.biPacked4;
    var q3 := q2 + b.biPacked8;
    var q4 := q3 + [b.maxPdu];
    var q5 := q4 + [b.rfu];
    var q6 := q5 + b.seedAccessAddr;
    var q7 := q6 + b.sduPacked;
    var q8 := q7 + b.baseCrcInit;
    var q9 := q8 + b.chmPhy;
    var q10 := q9 + b.payloadCountFraming;
    var q11 := q10 + b.giv;
    assert s[..57] == q11 + b.gskd;
    SplitPrefix(s, q11, b.gskd, 57);
    SplitPrefix(s, q10, b.giv, 41);
    SplitPrefix(s, q9, b.payloadCountFraming, 33);
    SplitPrefix(s, q8, b.chmPhy, 28);
    SplitPrefix(s, q7, b.baseCrcInit, 23);
    SplitPrefix(s, q6, b.sduPacked, 21);
    SplitPrefix(s, q5, b.seedAccessAddr, 17);
    SplitPrefix(s, q4, [b.rfu], 13);
    SplitPrefix(s, q3, [b.maxPdu], 12);
    SplitPrefix(s, q2, b.biPacked8, 11);
    SplitPrefix(s, q1, b.biPacked4, 8);
  }

  /* ------------------------------------------------ bit-packed groups */

  function Word24(g: seq<byte>): bv24
    requires |g| == 3
  {
    (g[0] as bv24) | ((g[1] as bv24) << 8) | ((g[2] as bv24) << 16)
  }

  function Word32(g: seq<byte>): bv32
    requires |g| == 4
  {
    (g[0] as bv32) | ((g[1] as bv32) << 8) | ((g[2] as bv32) << 16) | ((g[3] as bv32) << 24)
  }

  function Word40(g: seq<byte>): bv40
    requires |g| == 5
  {
    (g[0] as bv40) | ((g[1] as bv40) << 8) | ((g[2] as bv40) << 16) | ((g[3] as bv40) << 24)
    | ((g[4] as bv40) << 32)
  }

  /** bi_packed_0_3: offs:14, offs_units:1, iso_interval:12, num_bis:5. */
  datatype BigOffset = BigOffset(offs: bv32, offsUnits: bv32, isoInterval: bv32, numBis: bv32)

  predicate BigOffsetFits(f: BigOffset)
  {
    f.offs < 1 << 14 && f.offsUnits < 1 << 1 && f.isoInterval < 1 << 12 && f.numBis < 1 << 5
  }

  function UnpackBigOffset(w: bv32): (f: BigOffset)
    ensures BigOffsetFits(f)
  {
    BigOffset(w & 0x3FFF, (w >> 14) & 1, (w >> 15) & 0xFFF, w >> 27)
  }

  function PackBigOffset(f: BigOffset): bv32
  {
    f.offs | (f.offsUnits << 14) | (f.isoInterval << 15) | (f.numBis << 27)
  }

  /** 14 + 1 + 12 + 5 = 32: the sub-fields cover every bit of the group once. */
  lemma BigOffsetTiles(w: bv32, f: BigOffset)
    ensures PackBigOffset(UnpackBigOffset(w)) == w
    ensures BigOffsetFits(f) ==> UnpackBigOffset(PackBigOffset(f)) == f
  {
  }

  /** The group's sub-fields in terms of its four bytes. */
  lemma BigOffsetBytes(g: seq<byte>)
    requires |g| == 4
    ensures var f := UnpackBigOffset(Word32(g));
      && f.offs == (g[0] as bv32) | (((g[1] & 0x3F) as bv32) << 8)
      && f.offsUnits == ((g[1] >> 6) & 1) as bv32
      && f.isoInterval == ((g[1] >> 7) as bv32) | ((g[2] as bv32) << 1) | (((g[3] & 0x07) as bv32) << 9)
      && f.numBis == (g[3] >> 3) as bv32
  {
  }

  /** bi_packed_4_7: nse:5, bn:3, sub_interval:20, pto:4. */
  datatype BigSubEvents = BigSubEvents(nse: bv32, bn: bv32, subInterval: bv32, pto: bv32)

  predicate BigSubEventsFit(f: BigSubEvents)
  {
    f.nse < 1 << 5 && f.bn < 1 << 3 && f.subInterval < 1 << 20 && f.pto < 1 << 4
  }

  function UnpackBigSubEvents(w: bv32): (f: BigSubEvents)
    ensures BigSubEventsFit(f)
  {
    BigSubEvents(w & 0x1F, (w >> 5) & 0x7, (w >> 8) & 0xF_FFFF, w >> 28)
  }

  function PackBigSubEvents(f: BigSubEvents): bv32
  {
    f.nse | (f.bn << 5) | (f.subInterval << 8) | (f.pto << 28)
  }

  /** 5 + 3 + 20 + 4 = 32. */
  lemma BigSubEventsTile(w: bv32, f: BigSubEvents)
    ensures PackBigSubEvents(UnpackBigSubEvents(w)) == w
    ensures BigSubEventsFit(f) ==> UnpackBigSubEvents(PackBigSubEvents(f)) == f
  {
  }

  /** bi_packed_8_11: spacing:20, irc:4. */
  datatype BigSpacing = BigSpacing(spacing: bv24, irc: bv24)

  predicate BigSpacingFits(f: BigSpacing)
  {
    f.spacing < 1 << 20 && f.irc < 1 << 4
  }

  function UnpackBigSpacing(w: bv24): (f: BigSpacing)
    ensures BigSpacingFits(f)
  {
    BigSpacing(w & 0xF_FFFF, w >> 20)
  }

  function PackBigSpacing(f: BigSpacing): bv24
  {
    f.spacing | (f.irc << 20)
  }

  /** 20 + 4 = 24. */
  lemma BigSpacingTiles(w: bv24, f: BigSpacing)
    ensures PackBigSpacing(UnpackBigSpacing(w)) == w
    ensures BigSpacingFits(f) ==> UnpackBigSpacing(PackBigSpacing(f)) == f
  {
  }

  /** sdu_packed: sdu_interval:20, max_sdu:12. */
  datatype BigSdu = BigSdu(sduInterval: bv32, maxSdu: bv32)

  predicate BigSduFits(f: BigSdu)
  {
    f.sduInterval < 1 << 20 && f.maxSdu < 1 << 12
  }

  function UnpackBigSdu(w: bv32): (f: BigSdu)
    ensures BigSduFits(f)
  {
    BigSdu(w & 0xF_FFFF, w >> 20)
  }

  function PackBigSdu(f: BigSdu): bv32
  {
    f.sduInterval | (f.maxSdu << 20)
  }

  /** 20 + 12 = 32. */
  lemma BigSduTiles(w: bv32, f: BigSdu)
    ensures PackBigSdu(UnpackBigSdu(w)) == w
    ensures BigSduFits(f) ==> UnpackBigSdu(PackBigSdu(f)) == f
  {
  }

  /** chm_phy: a 37-bit channel map then a 3-bit PHY. */
  datatype BigChannels = BigChannels(chm: bv40, phy: bv40)

  predicate BigChannelsFit(f: BigChannels)
  {
    f.chm < 1 << 37 && f.phy < 1 << 3
  }

  function UnpackBigChannels(w: bv40): (f: BigChannels)
    ensures BigChannelsFit(f)
  {
    BigChannels(w & 0x1F_FFFF_FFFF, w >> 37)
  }

  function PackBigChannels(f: BigChannels): bv40
  {
    f.chm | (f.phy << 37)
  }

  /** 37 + 3 = 40. */
  lemma BigChannelsTile(w: bv40, f: BigChannels)
    ensures PackBigChannels(UnpackBigChannels(w)) == w
    ensures BigChannelsFit(f) ==> UnpackBigChannels(PackBigChannels(f)) == f
  {
  }

  /** payload_count_framing: a 39-bit payload count then the framing bit. */
  datatype BigPayloadCount = BigPayloadCount(count: bv40, framing: bv40)

  predicate BigPayloadCountFits(f: BigPayloadCount)
  {
    f.count < 1 << 39 && f.framing < 1 << 1
  }

  function UnpackBigPayloadCount(w: bv40): (f: BigPayloadCount)
    ensures BigPayloadCountFits(f)
  {
    BigPayloadCount(w & 0x7F_FFFF_FFFF, w >> 39)
  }

  function PackBigPayloadCount(f: BigPayloadCount): bv40
  {
    f.count | (f.framing << 39)
  }

  /** 39 + 1 = 40. */
  lemma BigPayloadCountTiles(w: bv40, f: BigPayloadCount)
    ensures PackBigPayloadCount(UnpackBigPayloadCount(w)) == w
    ensures BigPayloadCountFits(f) ==> UnpackBigPayloadCount(PackBigPayloadCount(f)) == f
  {
  }

  /** The framing flag is the top bit of the last byte; the count is the other 39 bits. */
  lemma BigPayloadCountBytes(g: seq<byte>)
    requires |g| == 5
    ensures UnpackBigPayloadCount(Word40(g)).framing == (g[4] >> 7) as bv40
    ensures UnpackBigPayloadCount(Word40(g)).count == Word40(g[..4] + [g[4] & 0x7F])
  {
  }

  /* The sub-fields of a decoded record. */

  function OffsetOf(b: BigInfo): BigOffset requires Valid(b) { UnpackBigOffset(Word32(b.biPacked0)) }
  function SubEventsOf(b: BigInfo): BigSubEvents requires Valid(b) { UnpackBigSubEvents(Word32(b.biPacked4)) }
  function SpacingOf(b: BigInfo): BigSpacing requires Valid(b) { UnpackBigSpacing(Word24(b.biPacked8)) }
  function SduOf(b: BigInfo): BigSdu requires Valid(b) { UnpackBigSdu(Word32(b.sduPacked)) }
  function ChannelsOf(b: BigInfo): BigChannels requires Valid(b) { UnpackBigChannels(Word40(b.chmPhy)) }
  function PayloadCountOf(b: BigInfo): BigPayloadCount requires Valid(b) { UnpackBigPayloadCount(Word40(b.payloadCountFraming)) }
}
