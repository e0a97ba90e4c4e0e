/** Packets that are forged when byte 1 of their frame is inverted: an acknowledgment, and a family
    of DATA packets.  Their checksums are computed on machine words. */
module ReframingWitness {
  import opened Wrappers
  import opened Crc32
  import opened Packet
  import opened Codec
  import opened Crc32Words
  import opened LinkFaults
  import opened Reframing

  // ---------- four checksums ----------

  lemma Bytes0()
    ensures ByteWord(0x00) == 0x00
    ensures ByteWord(0x03) == 0x03
    ensures ByteWord(0x15) == 0x15
    ensures ByteWord(0x2D) == 0x2D
    ensures ByteWord(0x40) == 0x40
    ensures ByteWord(0x50) == 0x50
    ensures ByteWord(0x5F) == 0x5F
    ensures ByteWord(0x6C) == 0x6C
  {
  }

  lemma Bytes1()
    ensures ByteWord(0x73) == 0x73
    ensures ByteWord(0x7E) == 0x7E
    ensures ByteWord(0x81) == 0x81
    ensures ByteWord(0x83) == 0x83
    ensures ByteWord(0xB2) == 0xB2
    ensures ByteWord(0xB9) == 0xB9
    ensures ByteWord(0xC1) == 0xC1
    ensures ByteWord(0xC3) == 0xC3
  {
  }

  lemma Bytes2()
    ensures ByteWord(0xC7) == 0xC7
    ensures ByteWord(0xD2) == 0xD2
    ensures ByteWord(0xF4) == 0xF4
    ensures ByteWord(0xFB) == 0xFB
    ensures ByteWord(0xFF) == 0xFF
  {
  }

  lemma KnownBytes()
    ensures ByteWord(0x00) == 0x00 && ByteWord(0x03) == 0x03 && ByteWord(0x15) == 0x15 && ByteWord(0x2D) == 0x2D
    ensures ByteWord(0x40) == 0x40 && ByteWord(0x50) == 0x50 && ByteWord(0x5F) == 0x5F && ByteWord(0x6C) == 0x6C
    ensures ByteWord(0x73) == 0x73 && ByteWord(0x7E) == 0x7E && ByteWord(0x81) == 0x81 && ByteWord(0x83) == 0x83
    ensures ByteWord(0xB2) == 0xB2 && ByteWord(0xB9) == 0xB9 && ByteWord(0xC1) == 0xC1 && ByteWord(0xC3) == 0xC3
    ensures ByteWord(0xC7) == 0xC7 && ByteWord(0xD2) == 0xD2 && ByteWord(0xF4) == 0xF4 && ByteWord(0xFB) == 0xFB
    ensures ByteWord(0xFF) == 0xFF
  {
    hide ByteWord;
    Bytes0();
    Bytes1();
    Bytes2();
  }

  lemma AckCrcSteps()
    ensures UpdateWord(0xFFFF_FFFF, 0x83) == 0x594C_C2E8
    ensures UpdateWord(0x594C_C2E8, 0x00) == 0xAE88_2688
    ensures UpdateWord(0xAE88_2688, 0x00) == 0xE3CD_8334
    ensures UpdateWord(0xE3CD_8334, 0x73) == 0xE85B_19B0
    ensures UpdateWord(0xE85B_19B0, 0x15) == 0xA654_0C7E
    ensures UpdateWord(0xA654_0C7E, 0x5F) == 0x4CCF_4452
    ensures UpdateWord(0x4CCF_4452, 0xB2) == 0xA046_2D3C
    ensures XorWord(0xA046_2D3C, 0xFFFF_FFFF) == Join(0x5F, 0xB9, 0xD2, 0xC3)
  {
  }

  lemma AckCrc()
    ensures Network(Crc([0x83, 0x00, 0x00, 0x73, 0x15, 0x5F, 0xB2])) == [0x5F, 0xB9, 0xD2, 0xC3]
  {
    hide UpdateWord, XorWord, Join, Network, ByteWord;
    AckCrcSteps();
    KnownBytes();
    var s: seq<byte> := [0x83, 0x00, 0x00, 0x73, 0x15, 0x5F, 0xB2];
    var trail: seq<bv32> := [0xFFFF_FFFF, 0x594C_C2E8, 0xAE88_2688, 0xE3CD_8334, 0xE85B_19B0,
      0xA654_0C7E, 0x4CCF_4452, 0xA046_2D3C];
    CrcOfTrail(s, trail, 0x5F, 0xB9, 0xD2, 0xC3);
  }

  lemma AckSeenCrcSteps()
    ensures UpdateWord(0xFFFF_FFFF, 0x83) == 0x594C_C2E8
    ensures UpdateWord(0x594C_C2E8, 0xFF) == 0x838A_C905
    ensures UpdateWord(0x838A_C905, 0x00) == 0x70E9_7E46
    ensures UpdateWord(0x70E9_7E46, 0x73) == 0x56C3_2D5D
    ensures UpdateWord(0x56C3_2D5D, 0x15) == 0x7851_0A8F
    ensures UpdateWord(0x7851_0A8F, 0x5F) == 0x86AB_83DE
    ensures UpdateWord(0x86AB_83DE, 0xB2) == 0x4482_86F0
    ensures UpdateWord(0x4482_86F0, 0x5F) == 0x462D_3CFF
    ensures XorWord(0x462D_3CFF, 0xFFFF_FFFF) == Join(0xB9, 0xD2, 0xC3, 0x00)
  {
  }

  lemma AckSeenCrc()
    ensures Network(Crc([0x83, 0xFF, 0x00, 0x73, 0x15, 0x5F, 0xB2, 0x5F])) == [0xB9, 0xD2, 0xC3, 0x00]
  {
    hide UpdateWord, XorWord, Join, Network, ByteWord;
    AckSeenCrcSteps();
    KnownBytes();
    var s: seq<byte> := [0x83, 0xFF, 0x00, 0x73, 0x15, 0x5F, 0xB2, 0x5F];
    var trail: seq<bv32> := [0xFFFF_FFFF, 0x594C_C2E8, 0x838A_C905, 0x70E9_7E46, 0x56C3_2D5D,
      0x7851_0A8F, 0x86AB_83DE, 0x4482_86F0, 0x462D_3CFF];
    CrcOfTrail(s, trail, 0xB9, 0xD2, 0xC3, 0x00);
  }

  lemma DataCrcSteps()
    ensures UpdateWord(0xFFFF_FFFF, 0x40) == 0x5B21_51E2
    ensures UpdateWord(0x5B21_51E2, 0x81) == 0xD4E0_11B3
    ensures UpdateWord(0xD4E0_11B3, 0x00) == 0x52BC_0227
    ensures UpdateWord(0x52BC_0227, 0x00) == 0xA558_0969
    ensures UpdateWord(0xA558_0969, 0xF4) == 0x8E1B_B7F0
    ensures UpdateWord(0x8E1B_B7F0, 0x2D) == 0xF8EC_B5DE
    ensures UpdateWord(0xF8EC_B5DE, 0xFB) == 0x4BFC_38F2
    ensures UpdateWord(0x4BFC_38F2, 0x50) == 0x3893_3EFC
    ensures XorWord(0x3893_3EFC, 0xFFFF_FFFF) == Join(0xC7, 0x6C, 0xC1, 0x03)
  {
  }

  lemma DataCrc()
    ensures Network(Crc([0x40, 0x81, 0x00, 0x00, 0xF4, 0x2D, 0xFB, 0x50])) == [0xC7, 0x6C, 0xC1, 0x03]
  {
    hide UpdateWord, XorWord, Join, Network, ByteWord;
    DataCrcSteps();
    KnownBytes();
    var s: seq<byte> := [0x40, 0x81, 0x00, 0x00, 0xF4, 0x2D, 0xFB, 0x50];
    var trail: seq<bv32> := [0xFFFF_FFFF, 0x5B21_51E2, 0xD4E0_11B3, 0x52BC_0227, 0xA558_0969,
      0x8E1B_B7F0, 0xF8EC_B5DE, 0x4BFC_38F2, 0x3893_3EFC];
    CrcOfTrail(s, trail, 0xC7, 0x6C, 0xC1, 0x03);
  }

  lemma DataSeenCrcSteps()
    ensures UpdateWord(0xFFFF_FFFF, 0x40) == 0x5B21_51E2
    ensures UpdateWord(0x5B21_51E2, 0x7E) == 0xF9E2_FE3E
    ensures UpdateWord(0xF9E2_FE3E, 0x00) == 0xC198_FF55
    ensures UpdateWord(0xC198_FF55, 0x00) == 0x1BC0_3D84
    ensures UpdateWord(0x1BC0_3D84, 0xF4) == 0x501E_B101
    ensures UpdateWord(0x501E_B101, 0x2D) == 0x3288_7252
    ensures UpdateWord(0x3288_7252, 0xFB) == 0xAF38_933E
    ensures XorWord(0xAF38_933E, 0xFFFF_FFFF) == Join(0x50, 0xC7, 0x6C, 0xC1)
  {
  }

  lemma DataSeenCrc()
    ensures Network(Crc([0x40, 0x7E, 0x00, 0x00, 0xF4, 0x2D, 0xFB])) == [0x50, 0xC7, 0x6C, 0xC1]
  {
    hide UpdateWord, XorWord, Join, Network, ByteWord;
    DataSeenCrcSteps();
    KnownBytes();
    var s: seq<byte> := [0x40, 0x7E, 0x00, 0x00, 0xF4, 0x2D, 0xFB];
    var trail: seq<bv32> := [0xFFFF_FFFF, 0x5B21_51E2, 0xF9E2_FE3E, 0xC198_FF55, 0x1BC0_3D84,
      0x501E_B101, 0x3288_7252, 0xAF38_933E];
    CrcOfTrail(s, trail, 0x50, 0xC7, 0x6C, 0xC1);
  }

  // ---------- an acknowledgment ----------

  /** Window 3, sequence number 0, and an unlucky timestamp. */
  const ACK: Packet := Packet(2, 0, 3, 0, 0, 0xB25F_1573, 0, None, 0)

  lemma AckHeader()
    ensures Header(ACK) == [0x83, 0x00, 0x00, 0x73, 0x15, 0x5F, 0xB2]
    ensures Raw(ACK.timestamp) == [0x73, 0x15, 0x5F, 0xB2] && Byte0(ACK) == 0x83
  {
    var t: seq<byte> := [0x73, 0x15, 0x5F, 0xB2];
    assert FromRaw(t) == ACK.timestamp;
    RawBack(t);
    hide Raw, FromRaw;
  }

  lemma AckHeaderCrc()
    ensures Network(HeaderCrc(ACK)) == [0x5F, 0xB9, 0xD2, 0xC3]
  {
    hide Crc, Network, Header, Raw, Pack;
    AckHeader();
    AckCrc();
    Byte0Masked(ACK, Header(ACK)[1..]);
    assert Header(ACK) == [Byte0(ACK)] + Header(ACK)[1..];
  }

  /** The frame of the acknowledgment with byte 1 inverted, in the buffer of a receiver. */
  function DamagedAck(tail: seq<byte>): (m: seq<byte>)
    requires tail != []
    ensures Readable(m, 11)
  {
    AckReadable(tail);
    Arrived(ACK, Inverted(1), tail)
  }

  lemma AckReadable(tail: seq<byte>)
    requires tail != []
    ensures |Frame(ACK)| == 11 && Readable(Arrived(ACK, Inverted(1), tail), 11)
  {
    hide Crc, Header, Frame, Arrived, HeaderChecks, SeenHeader, Network, Raw, Masked, HeaderAgrees;
    ProtocolFrame(ACK);
    SeenLayout(ACK, tail);
    Byte0RoundTrip(ACK);
  }

  lemma AckReframes(tail: seq<byte>, memory: bool)
    requires tail != [] && tail[0] == 0
    ensures Reframes(ACK, tail, memory)
  {
    hide Crc, Network, Raw, Header, Byte0, HeaderCrc;
    AckHeader();
    AckHeaderCrc();
    AckSeenCrc();
    var h: seq<byte> := [0x83, 0xFF, 0x00, 0x73, 0x15, 0x5F, 0xB2, 0x5F];
    assert SeenHeader(ACK) == h;
    ShiftedChecksum(HeaderCrc(ACK), 0);
    NetworkRoundTrip(Crc(h));
    assert Network(HeaderCrc(ACK))[1..] + [0] == Network(Crc(h));
  }

  /** With byte 1 inverted and a zero behind its frame it passes for an acknowledgment of 115. */
  lemma AckForged(tail: seq<byte>, memory: bool)
    requires tail != [] && tail[0] == 0
    ensures Sendable(ACK) && Reframes(ACK, tail, memory)
    ensures
      var d := Decode(DamagedAck(tail), 11, BLANK, memory);
      d.status == PKT_OK && d.pkt.ptype == PTYPE_ACK && d.pkt.seqnum == 115 != ACK.seqnum
  {
    hide Crc, Network, Raw, Decode, Header, Frame, Arrived, FromNetwork, Reframes, Reads;
    AckHeader();
    AckReframes(tail, memory);
    AckReadable(tail);
    ByteOneAccepted(ACK, tail, BLANK, memory);
    ByteOneSeen(ACK, tail, memory);
  }

  // ---------- DATA ----------

  /** Window 0, sequence number 0, an unlucky timestamp, and 256 bytes of payload among which the
      checksum of those before it has been placed. */
  function Crafted(front: seq<byte>, back: seq<byte>): (p: Packet)
    requires |front| == 125 && |back| == 127
    ensures Sendable(p) && |Frame(p)| == 272
  {
    CraftedSize(front, back);
    Packet(1, 0, 0, 256, 0, 0x50FB_2DF4, 0, Some(front + Network(Crc([0x03] + front)) + back), 0)
  }

  lemma CraftedSize(front: seq<byte>, back: seq<byte>)
    requires |front| == 125 && |back| == 127
    ensures
      var p := Packet(1, 0, 0, 256, 0, 0x50FB_2DF4, 0, Some(front + Network(Crc([0x03] + front)) + back), 0);
      Sendable(p) && |Frame(p)| == 272
  {
    hide Crc, Network;
    FrameLength(Packet(1, 0, 0, 256, 0, 0x50FB_2DF4, 0, Some(front + Network(Crc([0x03] + front)) + back), 0));
  }

  lemma CraftedHeader(front: seq<byte>, back: seq<byte>)
    requires |front| == 125 && |back| == 127
    ensures
      var p := Crafted(front, back);
      && Header(p) == [0x40, 0x81, 0x00, 0x00, 0xF4, 0x2D, 0xFB, 0x50]
      && Raw(p.timestamp) == [0xF4, 0x2D, 0xFB, 0x50] && Byte0(p) == 0x40
  {
    hide Crc, Network;
    var p := Crafted(front, back);
    var t: seq<byte> := [0xF4, 0x2D, 0xFB, 0x50];
    assert FromRaw(t) == p.timestamp;
    RawBack(t);
    assert VaruintBytes(256) == [0x81, 0x00];
    hide Raw, FromRaw, VaruintBytes;
  }

  lemma CraftedHeaderCrc(front: seq<byte>, back: seq<byte>)
    requires |front| == 125 && |back| == 127
    ensures Network(HeaderCrc(Crafted(front, back))) == [0xC7, 0x6C, 0xC1, 0x03]
  {
    hide Crc, Network, Header, Raw, Pack, Crafted;
    var p := Crafted(front, back);
    CraftedHeader(front, back);
    DataCrc();
    CraftedFields(front, back);
    Byte0Masked(p, Header(p)[1..]);
    assert Header(p) == [Byte0(p)] + Header(p)[1..];
  }

  lemma CraftedFields(front: seq<byte>, back: seq<byte>)
    requires |front| == 125 && |back| == 127
    ensures
      var p := Crafted(front, back);
      p.ptype == PTYPE_DATA && p.tr == 0 && p.length == 256 && p.seqnum == 0 &&
      p.payload == Some(front + Network(Crc([0x03] + front)) + back)
  {
    hide Crc, Network;
  }

  lemma CraftedAgrees(front: seq<byte>, back: seq<byte>, next: byte)
    requires |front| == 125 && |back| == 127
    ensures HeaderAgrees(Crafted(front, back), next)
  {
    hide Crc, Network, Header, Raw, Pack, Crafted, HeaderCrc;
    var p := Crafted(front, back);
    CraftedHeader(front, back);
    CraftedHeaderCrc(front, back);
    CraftedFields(front, back);
    DataSeenCrc();
    var h: seq<byte> := [0x40, 0x7E, 0x00, 0x00, 0xF4, 0x2D, 0xFB];
    assert SeenHeader(p) == h;
    var c := HeaderCrc(p);
    ChecksumShifted(c, 0x50);
    NetworkRoundTrip(Crc(h));
    assert [0x50] + Network(c)[..3] == Network(Crc(h));
  }

  lemma CraftedBody(front: seq<byte>, back: seq<byte>, tail: seq<byte>)
    requires |front| == 125 && |back| == 127
    ensures
      var p := Crafted(front, back);
      && SeenLength(p) == 126 && BodyAgrees(p, tail)
      && |SeenBody(p, tail)| >= 130 && SeenBody(p, tail)[..126] == [0x03] + front
  {
    hide Crc, Network, FromNetwork, Crafted, HeaderCrc, Frame, Header, Raw, Pack;
    var p := Crafted(front, back);
    CraftedHeaderCrc(front, back);
    CraftedFields(front, back);
    var body := SeenBody(p, tail);
    var sum := Network(Crc([0x03] + front));
    var data: seq<byte> := p.payload.value;
    assert data[..256] == data;
    assert body == ([0x03] + front) + sum + (back + Network(Crc(data)) + tail);
    ThreeParts([0x03] + front, sum, back + Network(Crc(data)) + tail, body);
    NetworkRoundTrip(Crc([0x03] + front));
  }

  function DamagedData(front: seq<byte>, back: seq<byte>, tail: seq<byte>): (m: seq<byte>)
    requires |front| == 125 && |back| == 127
    ensures Readable(m, 272)
  {
    CraftedReadable(front, back, tail);
    Arrived(Crafted(front, back), Inverted(1), tail)
  }

  lemma CraftedReadable(front: seq<byte>, back: seq<byte>, tail: seq<byte>)
    requires |front| == 125 && |back| == 127
    ensures Readable(Arrived(Crafted(front, back), Inverted(1), tail), 272)
  {
    hide Crc, Network, FromNetwork, Crafted, HeaderCrc, Raw, Frame, Header, Arrived, HeaderChecks, HeaderAgrees;
    hide SeenBody, SeenHeader;
    var p := Crafted(front, back);
    CraftedFields(front, back);
    CraftedBody(front, back, tail);
    SeenLayout(p, tail);
    InvertedByte(p, 1, tail);
  }

  /** With byte 1 inverted it passes, whatever follows, for a packet of 126 bytes. */
  lemma DataForged(front: seq<byte>, back: seq<byte>, tail: seq<byte>)
    requires |front| == 125 && |back| == 127
    ensures Reframes(Crafted(front, back), tail, true)
    ensures
      var d := Decode(DamagedData(front, back, tail), 272, BLANK, true);
      && d.status == PKT_OK && d.pkt.ptype == PTYPE_DATA && d.pkt.length == 126
      && d.pkt.payload == Some([0x03] + front)
  {
    hide Crc, Network, FromNetwork, Crafted, HeaderCrc, Raw, Frame, Decode, Arrived, Reads, BodyAgrees, HeaderAgrees;
    hide SeenBody, SeenStamp;
    var p := Crafted(front, back);
    CraftedFields(front, back);
    CraftedBody(front, back, tail);
    CraftedAgrees(front, back, Next(p, tail));
    CraftedReadable(front, back, tail);
    ByteOneAccepted(p, tail, BLANK, true);
    ByteOneSeen(p, tail, true);
  }
}
