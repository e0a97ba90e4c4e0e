/** The one damage that the checksums do not always find: byte 1 of a frame holds the size of the
    length field, so that inverting it moves everything behind.  This module says, from the packet
    and the bytes behind its frame alone, what the decoder then sees, when it accepts it, and when
    that matters. */
module Reframing {
  import opened Wrappers
  import opened Crc32
  import opened Packet
  import opened Codec
  import opened LinkFaults
  import Parity

  function HeaderCrc(p: Packet): uint32
    requires p.length < 0x8000
  {
    Crc(Masked(Header(p)))
  }

  /** The byte behind the first checksum. */
  function Next(p: Packet, tail: seq<byte>): byte
    requires Protocol(p)
  {
    if p.payload.Some? then p.payload.value[0] else if tail == [] then 0 else tail[0]
  }

  /** The header seen: a length of one byte becomes one of two bytes, and the reverse. */
  function SeenHeader(p: Packet): (h: seq<byte>)
    requires Protocol(p)
    ensures |h| == if p.length < 128 then 8 else 7
  {
    if p.length < 128 then
      [Byte0(p), 255 - p.length, p.seqnum] + Raw(p.timestamp) + Network(HeaderCrc(p))[..1]
    else
      [Byte0(p), 127 - p.length / 0x100, p.length % 0x100, p.seqnum] + Raw(p.timestamp)[..3]
  }

  /** The checksum seen behind it. */
  function SeenCrc(p: Packet, next: byte): uint32
    requires Protocol(p)
  {
    if p.length < 128 then HeaderCrc(p) % 0x100_0000 * 0x100 + next
    else Raw(p.timestamp)[3] * 0x100_0000 + HeaderCrc(p) / 0x100
  }

  function SeenLength(p: Packet): (n: uint16)
    requires Protocol(p)
    ensures n < 0x8000
  {
    if p.length < 128 then (127 - p.length) * 0x100 + p.seqnum else 127 - p.length / 0x100
  }

  /** The bytes seen behind that checksum. */
  function SeenBody(p: Packet, tail: seq<byte>): seq<byte>
    requires Protocol(p)
  {
    var rest := PayloadPart(p) + tail;
    if p.length < 128 then if rest == [] then [] else rest[1..]
    else Network(HeaderCrc(p))[3..] + rest
  }

  predicate HeaderAgrees(p: Packet, next: byte)
    requires Protocol(p)
  {
    Crc(SeenHeader(p)) == SeenCrc(p, next)
  }

  predicate BodyAgrees(p: Packet, tail: seq<byte>)
    requires Protocol(p)
  {
    var n, body := SeenLength(p), SeenBody(p, tail);
    n + 4 <= |body| && FromNetwork(body[n..n + 4]) == Crc(body[..n])
  }

  /** The damaged frame passes for a packet. */
  predicate Reframes(p: Packet, tail: seq<byte>, memory: bool)
    requires Protocol(p)
  {
    && HeaderAgrees(p, Next(p, tail))
    && (p.ptype == PTYPE_DATA ==>
          SeenLength(p) <= MAX_PAYLOAD_SIZE && (memory || SeenLength(p) == 0) && BodyAgrees(p, tail))
  }

  // ---------- what the decoder sees ----------

  lemma Byte0Masked(p: Packet, rest: seq<byte>)
    requires p.tr == 0
    ensures Masked([Byte0(p)] + rest) == [Byte0(p)] + rest
  {
    Byte0RoundTrip(p);
    assert ClearTr(Byte0(p)) == Byte0(p);
  }

  lemma ShiftedChecksum(c: uint32, next: byte)
    ensures FromNetwork(Network(c)[1..] + [next]) == c % 0x100_0000 * 0x100 + next
  {
    TopByte(c);
  }

  lemma TopByte(c: uint32)
    ensures
      var d := Network(c);
      c % 0x100_0000 == 0x1_0000 * (d[1] as int) + 0x100 * (d[2] as int) + (d[3] as int)
  {
    var x: int := c / 0x100;
    var y: int := x / 0x100;
    var z: int := y / 0x100;
    assert c == 0x100 * x + c % 0x100 && x == 0x100 * y + x % 0x100 && y == 0x100 * z + y % 0x100;
    var low: int := 0x1_0000 * (y % 0x100) + 0x100 * (x % 0x100) + c % 0x100;
    assert c == 0x100_0000 * z + low && 0 <= low < 0x100_0000;
  }

  lemma ChecksumShifted(c: uint32, first: byte)
    ensures FromNetwork([first] + Network(c)[..3]) == first * 0x100_0000 + c / 0x100
  {
  }

  lemma SlicesOf(m: seq<byte>, a: seq<byte>, b: seq<byte>, c: seq<byte>)
    requires m == a + b + c
    ensures |m| >= |a| + |b| && m[..|a|] == a && m[|a|..|a| + |b|] == b && m[|a| + |b|..] == c
    ensures forall i :: 0 <= i < |a| ==> m[i] == a[i]
  {
  }

  lemma FrameParts(p: Packet, tail: seq<byte>)
    requires Protocol(p)
    ensures Frame(p) + tail == Header(p) + Network(HeaderCrc(p)) + (PayloadPart(p) + tail)
    ensures |PayloadPart(p)| == if p.payload.Some? then p.length + 4 else 0
    ensures p.payload.Some? ==> PayloadPart(p)[0] == p.payload.value[0]
  {
    hide Crc, Network, Masked, Header;
  }

  lemma ShortPieces(head: seq<byte>, l: byte, s: byte, t: seq<byte>, c: seq<byte>, rest: seq<byte>, x: byte)
    requires |head| == 1 && |t| == |c| == 4 && rest != []
    ensures (head + [l, s] + t + c + rest)[1 := x] ==
            (head + [x, s] + t + c[..1]) + (c[1..] + [rest[0]]) + rest[1..]
  {
  }

  lemma LongPieces(head: seq<byte>, l: byte, k: byte, s: byte, t: seq<byte>, c: seq<byte>, rest: seq<byte>, x: byte)
    requires |head| == 1 && |t| == |c| == 4
    ensures (head + [l, k, s] + t + c + rest)[1 := x] ==
            (head + [x, k, s] + t[..3]) + ([t[3]] + c[..3]) + (c[3..] + rest)
  {
  }

  lemma SeenShort(p: Packet, tail: seq<byte>)
    requires Protocol(p) && p.length < 128 && (p.payload.Some? || tail != [])
    ensures
      var m := Arrived(p, Inverted(1), tail);
      m == SeenHeader(p) + (Network(HeaderCrc(p))[1..] + [Next(p, tail)]) + SeenBody(p, tail)
  {
    hide Crc, Masked, Raw, Pack, HeaderCrc, Frame, Network, PayloadPart, Arrived;
    ProtocolFrame(p);
    InvertedByte(p, 1, tail);
    FrameParts(p, tail);
    ShortPieces([Byte0(p)], p.length, p.seqnum, Raw(p.timestamp), Network(HeaderCrc(p)), PayloadPart(p) + tail,
                255 - p.length);
    assert Header(p) == [Byte0(p)] + [p.length, p.seqnum] + Raw(p.timestamp);
    assert SeenHeader(p) ==
      [Byte0(p)] + [255 - p.length, p.seqnum] + Raw(p.timestamp) + Network(HeaderCrc(p))[..1];
  }

  lemma SeenLong(p: Packet, tail: seq<byte>)
    requires Protocol(p) && p.length >= 128
    ensures
      var m := Arrived(p, Inverted(1), tail);
      m == SeenHeader(p) + ([Raw(p.timestamp)[3]] + Network(HeaderCrc(p))[..3]) + SeenBody(p, tail)
  {
    hide Crc, Masked, Raw, Pack, HeaderCrc, Frame, Network, PayloadPart, Arrived;
    ProtocolFrame(p);
    InvertedByte(p, 1, tail);
    FrameParts(p, tail);
    var h, l := p.length / 0x100, p.length % 0x100;
    LongPieces([Byte0(p)], 0x80 + h, l, p.seqnum, Raw(p.timestamp), Network(HeaderCrc(p)), PayloadPart(p) + tail,
               127 - h);
    assert Header(p) == [Byte0(p)] + [0x80 + h, l, p.seqnum] + Raw(p.timestamp);
    assert SeenHeader(p) == [Byte0(p)] + [127 - h, l, p.seqnum] + Raw(p.timestamp)[..3];
  }

  /** Where the decoder finds what it sees. */
  lemma SeenLayout(p: Packet, tail: seq<byte>)
    requires Protocol(p) && (p.payload.Some? || tail != [])
    ensures
      var m := Arrived(p, Inverted(1), tail);
      var h := |SeenHeader(p)|;
      && HasHeader(m) && HeaderSize(m) == h && LengthField(m) == SeenLength(p)
      && m[0] == Byte0(p) && m[..h] == SeenHeader(p) && m[h + 4..] == SeenBody(p, tail)
      && FromNetwork(m[h..h + 4]) == SeenCrc(p, Next(p, tail))
      && (HeaderChecks(m) <==> HeaderAgrees(p, Next(p, tail)))
  {
    hide Crc, Masked, Raw, Pack, HeaderCrc, PayloadPart, Network, FromNetwork, Arrived, Header;
    var m := Arrived(p, Inverted(1), tail);
    var c := HeaderCrc(p);
    Byte0Masked(p, SeenHeader(p)[1..]);
    assert SeenHeader(p) == [Byte0(p)] + SeenHeader(p)[1..];
    if p.length < 128 {
      SeenShort(p, tail);
      ShiftedChecksum(c, Next(p, tail));
      SlicesOf(m, SeenHeader(p), Network(c)[1..] + [Next(p, tail)], SeenBody(p, tail));
    } else {
      SeenLong(p, tail);
      ChecksumShifted(c, Raw(p.timestamp)[3]);
      SlicesOf(m, SeenHeader(p), [Raw(p.timestamp)[3]] + Network(c)[..3], SeenBody(p, tail));
    }
  }

  lemma SomethingBehind(p: Packet, tail: seq<byte>)
    requires Protocol(p) && Readable(Arrived(p, Inverted(1), tail), |Frame(p)|)
    ensures p.payload.Some? || tail != []
  {
    hide Crc, Masked, Raw, Network, HeaderChecks, Frame;
    ProtocolFrame(p);
    FrameLayout(p, tail);
    InvertedByte(p, 1, tail);
    Byte0RoundTrip(p);
    HeaderLayout(p);
    var m := Arrived(p, Inverted(1), tail);
    assert m[0] == Byte0(p);
    if p.payload.None? { assert m[1] == 255; }
  }

  /** Byte 1 inverted: the damaged frame is accepted exactly when it reframes. */
  lemma ByteOneAccepted(p: Packet, tail: seq<byte>, p0: Packet, memory: bool)
    requires Protocol(p) && Readable(Arrived(p, Inverted(1), tail), |Frame(p)|)
    ensures Decode(Arrived(p, Inverted(1), tail), |Frame(p)|, p0, memory).status == PKT_OK <==>
            Reframes(p, tail, memory)
  {
    hide Crc, Frame, Decode, Arrived, HeaderChecks, DecodeHeader, HeaderAgrees, FromNetwork;
    hide SeenHeader, SeenCrc, SeenBody, SeenLength;
    ProtocolFrame(p);
    SomethingBehind(p, tail);
    SeenLayout(p, tail);
    Byte0RoundTrip(p);
    DecodeCases(Arrived(p, Inverted(1), tail), |Frame(p)|, p0, memory);
  }

  /** The sequence number seen is a byte of the timestamp, or of the length. */
  function SeenSeqnum(p: Packet): byte
    requires Protocol(p)
  {
    if p.length < 128 then Raw(p.timestamp)[0] else p.length % 0x100
  }

  function SeenStamp(p: Packet): (t: seq<byte>)
    requires Protocol(p)
    ensures |t| == 4
  {
    if p.length < 128 then Raw(p.timestamp)[1..] + Network(HeaderCrc(p))[..1]
    else [p.seqnum] + Raw(p.timestamp)[..3]
  }

  function SeenPayload(p: Packet, tail: seq<byte>, memory: bool): Option<seq<byte>>
    requires Protocol(p)
  {
    var n, body := SeenLength(p), SeenBody(p, tail);
    if p.ptype == PTYPE_DATA && HeaderAgrees(p, Next(p, tail)) && memory && 0 < n <= MAX_PAYLOAD_SIZE && n <= |body|
    then Some(body[..n]) else None
  }

  /** What pkt_decode then leaves in a new structure, up to the two checksum fields. */
  function SeenPacket(p: Packet, tail: seq<byte>, memory: bool): Packet
    requires Protocol(p)
  {
    Packet(p.ptype, 0, p.window, if SeenLength(p) <= MAX_PAYLOAD_SIZE then SeenLength(p) else 0, SeenSeqnum(p),
           FromRaw(SeenStamp(p)), 0, SeenPayload(p, tail, memory), 0)
  }

  lemma SeenHeaderFields(p: Packet)
    requires Protocol(p)
    ensures
      var h := SeenHeader(p);
      h[|h| - 5] == SeenSeqnum(p) && h[|h| - 4..] == SeenStamp(p)
  {
    hide Crc, Raw, Network, HeaderCrc, Pack;
  }

  lemma SeenFields(p: Packet, tail: seq<byte>)
    requires Protocol(p) && (p.payload.Some? || tail != [])
    ensures HasHeader(Arrived(p, Inverted(1), tail))
    ensures
      var m := Arrived(p, Inverted(1), tail);
      SameContent(DecodeHeader(m, DecodeByte0(m[0], BLANK)), SeenPacket(p, tail, true).(payload := None))
  {
    hide Crc, Arrived, HeaderChecks, HeaderAgrees, FromNetwork, Network, Raw, FromRaw, Pack;
    hide SeenCrc, SeenBody, SeenLength, HeaderCrc, SeenPayload, SeenHeader, SeenSeqnum, SeenStamp;
    SeenLayout(p, tail);
    SeenHeaderFields(p);
    Byte0RoundTrip(p);
    var m, h := Arrived(p, Inverted(1), tail), SeenHeader(p);
    assert m[|h| - 5] == m[..|h|][|h| - 5];
    assert m[|h| - 4..|h|] == m[..|h|][|h| - 4..];
  }

  lemma ByteOneSeen(p: Packet, tail: seq<byte>, memory: bool)
    requires Protocol(p) && Readable(Arrived(p, Inverted(1), tail), |Frame(p)|)
    ensures SameContent(Decode(Arrived(p, Inverted(1), tail), |Frame(p)|, BLANK, memory).pkt,
                        SeenPacket(p, tail, memory))
  {
    hide Crc, Frame, Decode, Arrived, HeaderChecks, DecodeHeader, HeaderAgrees, FromNetwork, FromRaw, Raw;
    hide SeenHeader, SeenCrc, SeenBody, SeenLength, SeenSeqnum, SeenStamp;
    ProtocolFrame(p);
    SomethingBehind(p, tail);
    SeenLayout(p, tail);
    SeenFields(p, tail);
    Byte0RoundTrip(p);
    DecodeCases(Arrived(p, Inverted(1), tail), |Frame(p)|, BLANK, memory);
  }

  lemma RawInjective(a: uint32, b: seq<byte>)
    requires |b| == 4
    ensures a == FromRaw(b) <==> Raw(a) == b
  {
    RawRoundTrip(a);
    RawBack(b);
  }

  /** To pass for itself a packet has to repeat one byte all along. */
  lemma SameRepeats(p: Packet, tail: seq<byte>, memory: bool)
    requires Protocol(p) && Reframes(p, tail, memory) && SameContent(SeenPacket(p, tail, memory), p)
    ensures
      var s := p.seqnum;
      && Raw(p.timestamp) == [s, s, s, s] && Network(HeaderCrc(p))[0] == s
      && (if p.ptype == PTYPE_DATA then p.length == 127 == s else p.length == 0)
  {
    hide Crc, HeaderAgrees, FromNetwork, Network, HeaderCrc, Raw, FromRaw, SeenBody;
    RawInjective(p.timestamp, SeenStamp(p));
    var t, c := Raw(p.timestamp), Network(HeaderCrc(p));
    if p.length < 128 {
      assert SeenStamp(p) == [t[1], t[2], t[3], c[0]];
      assert t == [t[0], t[1], t[2], t[3]];
    }
  }

  /** The headers, the one sent and the one seen, of a packet that repeats one byte. */
  lemma RepeatedHeaders(p: Packet, s: byte)
    requires Protocol(p) && p.length < 128
    requires Raw(p.timestamp) == [s, s, s, s] && Network(HeaderCrc(p))[0] == s == p.seqnum
    ensures Header(p) == [Byte0(p), p.length, s, s, s, s, s] && HeaderCrc(p) == Crc(Header(p))
    ensures SeenHeader(p) == [Byte0(p), 255 - p.length, s, s, s, s, s, s]
  {
    hide Crc, Network, Raw, Pack;
    Byte0Masked(p, Header(p)[1..]);
    assert Header(p) == [Byte0(p)] + Header(p)[1..];
  }

  /** What reframes never passes for the packet sent: two parities of checksums exclude it. */
  lemma SeenIsAnother(p: Packet, tail: seq<byte>, memory: bool)
    requires Protocol(p) && Reframes(p, tail, memory)
    ensures !SameContent(SeenPacket(p, tail, memory), p)
  {
    hide Crc, FromNetwork, Network, HeaderCrc, Raw, FromRaw, SeenBody, SeenHeader, Header, SeenPacket, Pack;
    if SameContent(SeenPacket(p, tail, memory), p) {
      SameRepeats(p, tail, memory);
      var s, b := p.seqnum, Byte0(p);
      RepeatedHeaders(p, s);
      Byte0RoundTrip(p);
      if p.ptype == PTYPE_DATA {
        Parity.DataNeverRepeats(b);
      } else {
        Parity.AckNeverRepeats(b, s);
        AgreedBytes(p, Next(p, tail));
      }
      assert false;
    }
  }

  lemma AgreedBytes(p: Packet, next: byte)
    requires Protocol(p) && p.length < 128 && HeaderAgrees(p, next)
    ensures Network(Crc(SeenHeader(p)))[..3] == Network(HeaderCrc(p))[1..]
  {
    hide Crc, FromNetwork, Network, HeaderCrc, SeenHeader;
    ShiftedChecksum(HeaderCrc(p), next);
    NetworkBack(Network(HeaderCrc(p))[1..] + [next]);
    assert (Network(HeaderCrc(p))[1..] + [next])[..3] == Network(HeaderCrc(p))[1..];
  }

  /** DATA whose length seen is too large: always found. */
  lemma LengthByteRejected(p: Packet, tail: seq<byte>, p0: Packet, memory: bool)
    requires Protocol(p) && p.ptype == PTYPE_DATA && (p.length < 125 || (p.length == 125 && p.seqnum != 0))
    requires Readable(Arrived(p, Inverted(1), tail), |Frame(p)|)
    ensures Decode(Arrived(p, Inverted(1), tail), |Frame(p)|, p0, memory).status ==
            if HeaderAgrees(p, Next(p, tail)) then E_NOMEM else E_CRC
  {
    hide Crc, Frame, Decode, Arrived, HeaderChecks, DecodeHeader, HeaderAgrees, FromNetwork;
    hide SeenHeader, SeenCrc, SeenBody;
    ProtocolFrame(p);
    SomethingBehind(p, tail);
    SeenLayout(p, tail);
    Byte0RoundTrip(p);
    DecodeCases(Arrived(p, Inverted(1), tail), |Frame(p)|, p0, memory);
  }

  /** Acknowledgments: accepted if and only if one checksum of header bytes is the rest of the
      other and the byte behind the frame, which at most one byte can satisfy. */
  lemma AckAccepted(p: Packet, tail: seq<byte>, p0: Packet, memory: bool, x: byte)
    requires Sendable(p) && p.ptype != PTYPE_DATA && tail != []
    requires Readable(Arrived(p, Inverted(1), tail), |Frame(p)|)
    ensures
      var c := Network(HeaderCrc(p));
      Decode(Arrived(p, Inverted(1), tail), |Frame(p)|, p0, memory).status == PKT_OK <==>
      Network(Crc([Byte0(p), 255, p.seqnum] + Raw(p.timestamp) + [c[0]])) == [c[1], c[2], c[3], tail[0]]
    ensures HeaderAgrees(p, x) && HeaderAgrees(p, tail[0]) ==> x == tail[0]
  {
    hide Crc, Frame, Decode, Arrived, FromNetwork, Raw, HeaderCrc, Network, Reads;
    ByteOneAccepted(p, tail, p0, memory);
    var c := Network(HeaderCrc(p));
    var e: seq<byte> := [c[1], c[2], c[3], tail[0]];
    assert e == c[1..] + [tail[0]] && [c[0]] == c[..1];
    ShiftedChecksum(HeaderCrc(p), tail[0]);
    NetworkRoundTrip(Crc(SeenHeader(p)));
    NetworkBack(e);
  }

  lemma EndOfTransferReads(p: Packet, tail: seq<byte>)
    requires EndOfTransfer(p) && Readable(Frame(p) + tail, |Frame(p)|)
    ensures |tail| >= 4
  {
    hide Crc, Masked, Raw, Network, HeaderChecks, Frame, Pack;
    ProtocolFrame(p);
    FrameLayout(p, tail);
    FrameHeader(p, tail, BLANK);
    Byte0RoundTrip(p);
  }

  /** End to end: encode, one pass through the simulator, decode in a receive buffer with
      anything behind the datagram.  Only undamaged frames are accepted, and those whose byte 1
      was inverted if they reframe. */
  lemma Integrity(p: Packet, fate: Fate, tail: seq<byte>, p0: Packet, memory: bool)
    requires Protocol(p) && Possible(fate, Frame(p)) && fate != Lost
    requires Readable(Arrived(p, fate, tail), |Damaged(Frame(p), fate)|)
    ensures
      var d := Decode(Arrived(p, fate, tail), |Damaged(Frame(p), fate)|, p0, memory);
      && (d.status == PKT_OK ==> fate == Intact || (fate == Inverted(1) && Reframes(p, tail, memory)))
      && (fate == Inverted(1) && Reframes(p, tail, memory) ==> d.status == PKT_OK)
      && (fate == Intact && d.status == PKT_OK ==> SameContent(d.pkt, Into(p, p0)))
      && (fate == Intact && Sendable(p) && memory ==> d.status == PKT_OK)
  {
    hide Crc, Frame, Header, Decode, Reframes, Reads;
    ProtocolFrame(p);
    match fate
    case Cut => CutRejected(p, tail, p0, memory);
    case Inverted(i) =>
      if i == 0 { TypeByteRejected(p, tail, p0, memory); }
      else if i == 1 { ByteOneAccepted(p, tail, p0, memory); }
      else if i < |Header(p)| + 4 { HeaderByteRejected(p, i, tail, p0, memory); }
      else { BodyByteRejected(p, i, tail, p0, memory); }
    case Intact =>
      if EndOfTransfer(p) {
        EndOfTransferReads(p, tail);
        EndOfTransferRoundTrip(p, tail, p0, memory);
      } else {
        RoundTrip(p, tail, p0);
        NoMemory(Frame(p) + tail, |Frame(p)|, p0, memory);
      }
  }

  /** What is accepted is what was sent, except for exactly the packets that reframe. */
  lemma IntegrityExact(p: Packet, fate: Fate, tail: seq<byte>, memory: bool)
    requires Protocol(p) && Possible(fate, Frame(p)) && fate != Lost
    requires Readable(Arrived(p, fate, tail), |Damaged(Frame(p), fate)|)
    ensures
      var d := Decode(Arrived(p, fate, tail), |Damaged(Frame(p), fate)|, BLANK, memory);
      (d.status == PKT_OK ==> SameContent(d.pkt, p)) <==> !(fate == Inverted(1) && Reframes(p, tail, memory))
  {
    hide Crc, Frame, Header, Decode, Reframes, Reads, SeenPacket;
    Integrity(p, fate, tail, BLANK, memory);
    if fate == Inverted(1) {
      assert |Damaged(Frame(p), fate)| == |Frame(p)|;
      ByteOneAccepted(p, tail, BLANK, memory);
      ByteOneSeen(p, tail, memory);
      if Reframes(p, tail, memory) { SeenIsAnother(p, tail, memory); }
    }
  }
}
