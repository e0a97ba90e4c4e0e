/** What damage on the link does to the receiver, which does not look at the status of pkt_decode:
    for every fate of a DATA packet exactly what is written, when the transfer ends too soon, and
    when the receiver is led astray. */
module ReceiverFaults {
  import opened Wrappers
  import opened Crc32
  import opened Packet
  import opened Codec
  import opened LinkFaults
  import opened Reframing
  import opened Receiver

  /** No effect; the path not modelled in Receiver.dfy; or a packet accepted, with these bytes. */
  datatype Effect = Discarded | Strays | Writes(data: seq<byte>)

  /** A DATA packet seen with some sequence number by a receiver that expects `x`. */
  function SeenAt(seqnum: byte, x: byte, effect: Effect): Effect {
    if seqnum == x then effect
    else if seqnum == (x + 1) % 256 || seqnum == (x + 2) % 256 then Strays
    else Discarded
  }

  /** An empty packet ends the transfer, and a payload that is missing cannot be written. */
  function Unpaid(length: nat): Effect {
    if length == 0 then Writes([]) else Strays
  }

  /** Byte 1 inverted. */
  function ReframedEffect(p: Packet, tail: seq<byte>): Effect
    requires Protocol(p)
  {
    var payload := SeenPayload(p, tail, true);
    if payload.Some? then Writes(payload.value)
    else Unpaid(if SeenLength(p) <= MAX_PAYLOAD_SIZE then SeenLength(p) else 0)
  }

  /** What a receiver that expects the sequence number `x` does with what is left of the frame of
      `p`, in a buffer with `tail` behind it. */
  function FateEffect(p: Packet, fate: Fate, tail: seq<byte>, x: byte): Effect
    requires Protocol(p) && p.ptype == PTYPE_DATA && Possible(fate, Frame(p)) && fate != Lost
  {
    var h, n := |Header(p)|, p.length;
    var data := if n == 0 then [] else p.payload.value;
    match fate
    case Intact => SeenAt(p.seqnum, x, Writes(data))
    case Cut => SeenAt(0, x, Writes([]))
    case Inverted(i) =>
      if i == 0 then Discarded
      else if i == 1 then SeenAt(SeenSeqnum(p), x, ReframedEffect(p, tail))
      else if i == 2 && n >= 128 then SeenAt(p.seqnum, x, if n == 255 || n == 512 then Writes([]) else Strays)
      else if i == h - 5 then SeenAt(255 - p.seqnum, x, Unpaid(n))
      else if i < h + 4 then SeenAt(p.seqnum, x, Unpaid(n))
      else if i < h + 4 + n then SeenAt(p.seqnum, x, Writes(data[i - h - 4 := 255 - data[i - h - 4]]))
      else SeenAt(p.seqnum, x, Writes(data))
  }

  /** The timestamp with one of its four bytes inverted. */
  function StampInverted(t: uint32, j: nat): uint32
    requires j < 4
  {
    FromRaw(Raw(t)[j := 255 - Raw(t)[j]])
  }

  /** The timestamp that a receiver finds, and acknowledges if it accepts the packet. */
  function FateStamp(p: Packet, fate: Fate): uint32
    requires Protocol(p)
  {
    var h := |Header(p)|;
    match fate
    case Cut => 0
    case Inverted(i) =>
      if i == 1 then FromRaw(SeenStamp(p))
      else if h - 4 <= i < h then StampInverted(p.timestamp, i - (h - 4))
      else p.timestamp
    case _ => p.timestamp
  }

  // ---------- from the packet seen to the effect ----------

  function EffectOf(q: Packet, x: byte): Effect {
    if q.ptype != PTYPE_DATA then Discarded
    else SeenAt(q.seqnum, x,
                if q.length == 0 then Writes([])
                else if q.payload.None? || |q.payload.value| < q.length then Strays
                else Writes(q.payload.value[..q.length]))
  }

  /** The receiver that expected `x` goes from `s` to `r` with this effect: when it accepts, it
      acknowledges `x`, repeating the timestamp `stamp`, and moves its window on. */
  predicate Shows(s: State, effect: Effect, r: State, x: byte, stamp: uint32) {
    match effect
    case Discarded => r == s
    case Strays => r == s.(progress := Astray)
    case Writes(data) =>
      && r.output == s.output + data && r.progress == (if data == [] then Ended else s.progress)
      && r.windowStart == (x + 1) % 256 && r.windowEnd == (x + 3) % 256 && r.lastAck == x
      && Acknowledges(s.acks, r.acks, x, stamp)
  }

  lemma WindowSees(n: nat, seqnum: byte)
    ensures IsInWindow(seqnum, n % 256, (n + 2) % 256) <==>
            seqnum == n % 256 || seqnum == (n % 256 + 1) % 256 || seqnum == (n % 256 + 2) % 256
    ensures (n + 2) % 256 == (n % 256 + 2) % 256
  {
    var q, x := n / 256, n % 256;
    assert n == 256 * q + x;
    if x >= 254 { Remainder(n + 2, q + 1, x - 254); } else { Remainder(n + 2, q, x + 2); }
  }

  lemma HandleShows(s: State, stream: seq<seq<byte>>, n: nat, q: Packet)
    requires Follows(s, stream, n)
    ensures Shows(s, EffectOf(q, n % 256), Handle(s, q), n % 256, q.timestamp)
  {
    hide IsInWindow, Concat, AcksCount, Acknowledges, AckOf;
    var x := n % 256;
    AckAdded(s.acks, x, q);
    WindowSees(n, q.seqnum);
    NextNumbers(n);
    assert ((x + 2) % 256 + 1) % 256 == (x + 3) % 256;
  }

  // ---------- from the damage to the packet seen ----------

  lemma SameHeader(mem: seq<byte>, i: nat, b: byte, q: Packet)
    requires HasHeader(mem) && HeaderSize(mem) + 4 <= i < |mem|
    ensures DecodeHeader(mem[i := b], DecodeByte0(mem[i := b][0], q)) == DecodeHeader(mem, DecodeByte0(mem[0], q))
  {
    var m := mem[i := b];
    var h := HeaderSize(mem);
    assert m[1] == mem[1] && m[2] == mem[2] && HeaderSize(m) == h;
    assert m[h - 4..h] == mem[h - 4..h] && m[h..h + 4] == mem[h..h + 4];
  }

  lemma CorruptPayload(m: seq<byte>, q: Packet, data: seq<byte>)
    requires HasHeader(m) && Reads(m) <= |m| && HeaderChecks(m) && CarriesPayload(m[0])
    requires 0 < LengthField(m) == |data| <= MAX_PAYLOAD_SIZE
    requires m[HeaderSize(m) + 4..HeaderSize(m) + 4 + |data|] == data
    ensures DecodePayload(m, q, true).pkt.(crc2 := 0) == q.(payload := Some(data), length := |data|, crc2 := 0)
  {
    hide Crc, HeaderChecks, FromNetwork;
    assert m[HeaderSize(m) + 4..][..|data|] == data;
  }

  /** Damage behind the header gets through to the payload, with the header of the packet sent. */
  lemma BodyDecoded(p: Packet, i: nat, tail: seq<byte>)
    requires Sendable(p) && p.ptype == PTYPE_DATA && |Header(p)| + 4 <= i < |Frame(p)|
    requires Readable(Arrived(p, Inverted(i), tail), |Frame(p)|)
    ensures
      var m := Arrived(p, Inverted(i), tail);
      && HasHeader(m) && HeaderChecks(m) && CarriesPayload(m[0]) && Reads(m) <= |m|
      && Decode(m, |Frame(p)|, BLANK, true) ==
         DecodePayload(m, p.(crc1 := Crc(Masked(Header(p))), payload := None, crc2 := 0), true)
  {
    hide Crc, Masked, Network, Raw, PayloadPart, Header, Frame, Decode, Arrived;
    hide HeaderChecks, DecodeHeader, DecodePayload;
    FrameSize(p);
    FrameLength(p);
    FrameLayout(p, tail);
    InvertedByte(p, i, tail);
    var mem, m := Frame(p) + tail, Arrived(p, Inverted(i), tail);
    var q := DecodeHeader(mem, DecodeByte0(mem[0], BLANK));
    DecodeCases(m, |Frame(p)|, BLANK, true);
    FrameHeader(p, tail, BLANK);
    PayloadRoundTrip(p, tail, q);
    SameHeader(mem, i, 255 - mem[i], BLANK);
    BodyByteChanged(mem, i, 255 - mem[i], q, q, true);
  }

  lemma CorruptParsed(p: Packet, j: nat, tail: seq<byte>)
    requires Sendable(p) && p.ptype == PTYPE_DATA && j < p.length
    requires Possible(Inverted(|Header(p)| + 4 + j), Frame(p))
    requires Readable(Arrived(p, Inverted(|Header(p)| + 4 + j), tail), |Frame(p)|)
    ensures
      var d := Decode(Arrived(p, Inverted(|Header(p)| + 4 + j), tail), |Frame(p)|, BLANK, true);
      d.pkt.(crc1 := 0, crc2 := 0) ==
        p.(payload := Some(p.payload.value[j := 255 - p.payload.value[j]]), crc1 := 0, crc2 := 0)
  {
    hide Crc, Masked, Network, Raw, PayloadPart, Header, Frame, Decode, Arrived, Reads, Possible, Damaged;
    hide HeaderChecks, DecodeHeader, DecodePayload, Pack, CarriesPayload;
    FrameLength(p);
    BodyDecoded(p, |Header(p)| + 4 + j, tail);
    FrameLayout(p, tail);
    InvertedByte(p, |Header(p)| + 4 + j, tail);
    PayloadOfFrame(p, tail);
    var mem, m := Frame(p) + tail, Arrived(p, Inverted(|Header(p)| + 4 + j), tail);
    var h, n := HeaderSize(mem), p.length;
    assert HeaderSize(m) == h && LengthField(m) == n;
    var data: seq<byte> := p.payload.value[j := 255 - p.payload.value[j]];
    assert mem[h + 4 + j] == mem[h + 4..h + 4 + n][j];
    assert m[h + 4..h + 4 + n] == data;
    CorruptPayload(m, p.(crc1 := Crc(Masked(Header(p))), payload := None, crc2 := 0), data);
  }

  lemma PayloadOfFrame(p: Packet, tail: seq<byte>)
    requires Sendable(p) && p.ptype == PTYPE_DATA
    ensures |Frame(p)| >= |Header(p)| + 4 + p.length
    ensures (Frame(p) + tail)[|Header(p)| + 4..|Header(p)| + 4 + p.length] == p.payload.value
  {
    hide Crc, Header, Frame;
    FrameLength(p);
    FrameLayout(p, tail);
    var h := |Header(p)|;
    var mem := Frame(p) + tail;
    assert mem[h + 4..][..p.length] == p.payload.value;
  }

  /** The packet structure that receive_pkt leaves after the damage. */
  function SeenAfter(p: Packet, fate: Fate, tail: seq<byte>): Packet
    requires Protocol(p) && Possible(fate, Frame(p))
    requires Readable(Arrived(p, fate, tail), |Damaged(Frame(p), fate)|)
  {
    Decode(Arrived(p, fate, tail), |Damaged(Frame(p), fate)|, BLANK, true).pkt
  }

  lemma EffectOfContent(q: Packet, r: Packet, x: byte)
    requires SameContent(q, r)
    ensures EffectOf(q, x) == EffectOf(r, x)
  {
  }

  lemma IntactSeen(p: Packet, tail: seq<byte>)
    requires Protocol(p) && Readable(Arrived(p, Intact, tail), |Frame(p)|)
    ensures SameContent(SeenAfter(p, Intact, tail), p)
  {
    hide Decode, Frame, Reads, Header;
    if EndOfTransfer(p) {
      EndOfTransferReads(p, tail);
      EndOfTransferRoundTrip(p, tail, BLANK, true);
    } else {
      RoundTrip(p, tail, BLANK);
    }
  }

  lemma ContentEffect(p: Packet, x: byte)
    requires Protocol(p) && p.ptype == PTYPE_DATA
    ensures EffectOf(p, x) == SeenAt(p.seqnum, x, Writes(if p.length == 0 then [] else p.payload.value))
  {
    if p.length != 0 { assert p.payload.value[..p.length] == p.payload.value; }
  }

  lemma CutEffect(p: Packet, tail: seq<byte>, x: byte)
    requires Protocol(p) && p.ptype == PTYPE_DATA && Possible(Cut, Frame(p))
    requires Readable(Arrived(p, Cut, tail), MIN_PKT_PDATA_LEN)
    ensures EffectOf(SeenAfter(p, Cut, tail), x) == SeenAt(0, x, Writes([]))
  {
    hide Decode, Frame, Reads, Header;
    CutRejected(p, tail, BLANK, true);
  }

  lemma ByteOneEffect(p: Packet, tail: seq<byte>, x: byte)
    requires Protocol(p) && p.ptype == PTYPE_DATA
    requires |Frame(p)| > 1 && Readable(Arrived(p, Inverted(1), tail), |Frame(p)|)
    ensures EffectOf(SeenAfter(p, Inverted(1), tail), x) == SeenAt(SeenSeqnum(p), x, ReframedEffect(p, tail))
  {
    hide Decode, Frame, Reads, Header, SeenSeqnum, SeenLength, SeenBody, SeenStamp, HeaderAgrees;
    ByteOneSeen(p, tail, true);
    var q := SeenPacket(p, tail, true);
    EffectOfContent(SeenAfter(p, Inverted(1), tail), q, x);
    if q.payload.Some? { assert q.payload.value[..q.length] == q.payload.value; }
  }

  /** The length field with its low byte inverted. */
  function LowInverted(n: uint16): nat {
    n / 256 * 256 + 255 - n % 256
  }

  lemma TwoByteLength(m: seq<byte>, n: uint16)
    requires |m| >= 3 && m[1] >= 0x80 && LengthField(m) == n
    ensures LengthField(m[2 := 255 - m[2]]) == LowInverted(n)
  {
  }

  lemma HeaderByteSeen(p: Packet, i: nat, tail: seq<byte>)
    requires Protocol(p) && 2 <= i < |Header(p)| + 4 <= |Frame(p)|
    requires Readable(Arrived(p, Inverted(i), tail), |Frame(p)|)
    ensures
      var q := SeenAfter(p, Inverted(i), tail);
      var n := if i == 2 && p.length >= 128 then LowInverted(p.length) else p.length;
      && q.ptype == p.ptype && q.payload == None
      && q.seqnum == (if i == |Header(p)| - 5 then 255 - p.seqnum else p.seqnum)
      && q.length == if n <= MAX_PAYLOAD_SIZE then n else 0
  {
    hide Crc, Masked, Network, Raw, FromRaw, FromNetwork, PayloadPart, LowInverted;
    hide Header, Frame, Decode, Reads, Arrived, HeaderChecks, Pack;
    HeaderByteRejected(p, i, tail, BLANK, true);
    FrameLayout(p, tail);
    InvertedByte(p, i, tail);
    Byte0RoundTrip(p);
    var mem, m := Frame(p) + tail, Arrived(p, Inverted(i), tail);
    assert m[0] == mem[0] && m[1] == mem[1];
    if i == 2 && p.length >= 128 { TwoByteLength(mem, p.length); }
  }

  lemma HeaderByteEffect(p: Packet, i: nat, tail: seq<byte>, x: byte)
    requires Protocol(p) && p.ptype == PTYPE_DATA && 2 <= i < |Header(p)| + 4 <= |Frame(p)|
    requires Readable(Arrived(p, Inverted(i), tail), |Frame(p)|)
    ensures EffectOf(SeenAfter(p, Inverted(i), tail), x) == FateEffect(p, Inverted(i), tail, x)
  {
    hide Decode, Frame, Reads, Crc, Masked, Raw, Network, Arrived, SeenAfter;
    HeaderByteSeen(p, i, tail);
  }

  lemma HeaderByteStamp(p: Packet, i: nat, tail: seq<byte>)
    requires Protocol(p) && 2 <= i < |Header(p)| + 4 <= |Frame(p)|
    requires Readable(Arrived(p, Inverted(i), tail), |Frame(p)|)
    ensures SeenAfter(p, Inverted(i), tail).timestamp == FateStamp(p, Inverted(i))
  {
    hide Crc, Masked, Network, Raw, FromRaw, FromNetwork, PayloadPart;
    hide Header, Frame, Decode, Reads, Arrived, HeaderChecks, Pack, SeenStamp;
    HeaderByteRejected(p, i, tail, BLANK, true);
    FrameLayout(p, tail);
    InvertedByte(p, i, tail);
    var mem, m, h := Frame(p) + tail, Arrived(p, Inverted(i), tail), |Header(p)|;
    assert m[0] == mem[0] && m[1] == mem[1] && HeaderSize(m) == h;
    SliceUpdated(mem, i, 255 - mem[i], h - 4);
    assert SeenAfter(p, Inverted(i), tail).timestamp == FromRaw(m[h - 4..h]);
    assert mem[h - 4..h - 4 + 4] == Raw(p.timestamp);
    if i >= h - 4 && i < h {
      assert m[h - 4..h] == Raw(p.timestamp)[i - (h - 4) := 255 - Raw(p.timestamp)[i - (h - 4)]];
    } else {
      assert m[h - 4..h] == Raw(p.timestamp);
      RawRoundTrip(p.timestamp);
    }
  }

  lemma SliceUpdated(m: seq<byte>, i: nat, b: byte, a: nat)
    requires i < |m| && a + 4 <= |m|
    ensures m[i := b][a..a + 4] == if a <= i < a + 4 then m[a..a + 4][i - a := b] else m[a..a + 4]
    ensures a <= i < a + 4 ==> m[i] == m[a..a + 4][i - a]
  {
  }

  /** A byte of the second checksum: the payload is right. */
  lemma ChecksumSeen(p: Packet, i: nat, tail: seq<byte>)
    requires Sendable(p) && p.ptype == PTYPE_DATA && |Header(p)| + 4 + p.length <= i < |Frame(p)|
    requires Readable(Arrived(p, Inverted(i), tail), |Frame(p)|)
    ensures SameContent(SeenAfter(p, Inverted(i), tail), p)
  {
    hide Crc, Masked, Network, Raw, PayloadPart, Header, Frame, Decode, Arrived, Reads;
    hide HeaderChecks, DecodeHeader, DecodePayload, Pack, CarriesPayload;
    BodyDecoded(p, i, tail);
    FrameLength(p);
    FrameLayout(p, tail);
    InvertedByte(p, i, tail);
    PayloadOfFrame(p, tail);
    var mem, m := Frame(p) + tail, Arrived(p, Inverted(i), tail);
    var h, n := HeaderSize(mem), p.length;
    assert HeaderSize(m) == h && LengthField(m) == n;
    assert m[h + 4..h + 4 + n] == mem[h + 4..h + 4 + n] == p.payload.value;
    CorruptPayload(m, p.(crc1 := Crc(Masked(Header(p))), payload := None, crc2 := 0), p.payload.value);
  }

  /** The packet seen has the effect that belongs to the fate. */
  lemma SeenEffect(p: Packet, fate: Fate, tail: seq<byte>, x: byte)
    requires Protocol(p) && p.ptype == PTYPE_DATA && Possible(fate, Frame(p)) && fate != Lost
    requires Readable(Arrived(p, fate, tail), |Damaged(Frame(p), fate)|)
    ensures EffectOf(SeenAfter(p, fate, tail), x) == FateEffect(p, fate, tail, x)
  {
    hide Decode, Frame, Reads, Header, EffectOf, SeenAfter, SeenAt, Arrived, ReframedEffect, SeenSeqnum;
    ProtocolFrame(p);
    match fate
    case Intact =>
      IntactSeen(p, tail);
      EffectOfContent(SeenAfter(p, Intact, tail), p, x);
      ContentEffect(p, x);
    case Cut => CutEffect(p, tail, x);
    case Inverted(i) =>
      if i == 0 { TypeEffect(p, tail, x); }
      else if i == 1 { ByteOneEffect(p, tail, x); }
      else if i < |Header(p)| + 4 { HeaderByteEffect(p, i, tail, x); }
      else { BodyByteEffect(p, i, tail, x); }
  }

  /** The packet seen has the timestamp that belongs to the fate. */
  lemma SeenTimestamp(p: Packet, fate: Fate, tail: seq<byte>)
    requires Protocol(p) && p.ptype == PTYPE_DATA && Possible(fate, Frame(p)) && fate != Lost && fate != Inverted(0)
    requires Readable(Arrived(p, fate, tail), |Damaged(Frame(p), fate)|)
    ensures SeenAfter(p, fate, tail).timestamp == FateStamp(p, fate)
  {
    hide Decode, Frame, Reads, Header, SeenAfter, Arrived, SeenStamp, StampInverted, FromRaw;
    ProtocolFrame(p);
    match fate
    case Intact => IntactSeen(p, tail);
    case Cut => CutTimestamp(p, tail);
    case Inverted(i) =>
      if i == 1 { ByteOneSeen(p, tail, true); ByteOneTimestamp(p, tail); }
      else if i < |Header(p)| + 4 { HeaderByteStamp(p, i, tail); }
      else { BodyTimestamp(p, i, tail); }
  }

  lemma CutTimestamp(p: Packet, tail: seq<byte>)
    requires Protocol(p) && Possible(Cut, Frame(p)) && Readable(Arrived(p, Cut, tail), MIN_PKT_PDATA_LEN)
    ensures SeenAfter(p, Cut, tail).timestamp == 0
  {
    hide Decode, Frame, Reads, Arrived;
    CutRejected(p, tail, BLANK, true);
  }

  lemma ByteOneTimestamp(p: Packet, tail: seq<byte>)
    requires Protocol(p) && |Frame(p)| > 1 && Readable(Arrived(p, Inverted(1), tail), |Frame(p)|)
    ensures SeenAfter(p, Inverted(1), tail).timestamp == FromRaw(SeenStamp(p))
  {
    hide Decode, Frame, Reads, Arrived, SeenStamp, FromRaw, SeenPayload, SeenSeqnum, SeenLength;
    ByteOneSeen(p, tail, true);
  }

  lemma BodyTimestamp(p: Packet, i: nat, tail: seq<byte>)
    requires Protocol(p) && p.ptype == PTYPE_DATA && |Header(p)| + 4 <= i < |Frame(p)|
    requires Readable(Arrived(p, Inverted(i), tail), |Frame(p)|)
    ensures SeenAfter(p, Inverted(i), tail).timestamp == p.timestamp
  {
    hide Decode, Frame, Reads, Header, Arrived;
    ProtocolFrame(p);
    var j := i - |Header(p)| - 4;
    if j < p.length { CorruptParsed(p, j, tail); } else { ChecksumSeen(p, i, tail); }
  }

  lemma TypeEffect(p: Packet, tail: seq<byte>, x: byte)
    requires Protocol(p) && p.ptype == PTYPE_DATA
    requires |Frame(p)| > 1 && Readable(Arrived(p, Inverted(0), tail), |Frame(p)|)
    ensures EffectOf(SeenAfter(p, Inverted(0), tail), x) == Discarded
  {
    hide Decode, Frame, Reads, Header, Arrived;
    TypeByteRejected(p, tail, BLANK, true);
  }

  lemma BodyByteEffect(p: Packet, i: nat, tail: seq<byte>, x: byte)
    requires Protocol(p) && p.ptype == PTYPE_DATA && |Header(p)| + 4 <= i < |Frame(p)|
    requires Readable(Arrived(p, Inverted(i), tail), |Frame(p)|)
    ensures EffectOf(SeenAfter(p, Inverted(i), tail), x) == FateEffect(p, Inverted(i), tail, x)
  {
    hide Decode, Frame, Reads, Header, EffectOf, Arrived, SeenAt;
    ProtocolFrame(p);
    var q := SeenAfter(p, Inverted(i), tail);
    var j := i - |Header(p)| - 4;
    if j < p.length {
      CorruptParsed(p, j, tail);
      var r := p.(payload := Some(p.payload.value[j := 255 - p.payload.value[j]]));
      EffectOfContent(q, r, x);
      ContentEffect(r, x);
    } else {
      ChecksumSeen(p, i, tail);
      EffectOfContent(q, p, x);
      ContentEffect(p, x);
    }
  }

  // ---------- one damaged packet ----------

  /** What is left of the frame of `p`, in the buffer of receive_pkt. */
  datatype Sighting = Sighting(p: Packet, fate: Fate, tail: seq<byte>)

  predicate Legible(f: Sighting) {
    && Protocol(f.p) && f.p.ptype == PTYPE_DATA && f.fate != Lost && Possible(f.fate, Frame(f.p))
    && |Arrived(f.p, f.fate, f.tail)| == 528
  }

  function Arrive(f: Sighting): (a: Arrival)
    requires Legible(f)
    ensures Fits(a)
  {
    Arrival(Arrived(f.p, f.fate, f.tail), |Damaged(Frame(f.p), f.fate)|)
  }

  function EffectOn(f: Sighting, x: byte): Effect
    requires Legible(f)
  {
    FateEffect(f.p, f.fate, f.tail, x)
  }

  function StampOn(f: Sighting): uint32
    requires Legible(f)
  {
    FateStamp(f.p, f.fate)
  }

  /** Any DATA packet of the protocol, after any fate: exactly what a receiver does that has
      accepted n packets. */
  lemma DamagedArrival(s: State, stream: seq<seq<byte>>, n: nat, f: Sighting)
    requires Follows(s, stream, n) && Legible(f)
    ensures Shows(s, EffectOn(f, n % 256), HandleArrival(s, Arrive(f)), n % 256, StampOn(f))
  {
    hide Decode, Frame, Arrived, Reads, Damaged, FateEffect, EffectOf, Handle, Follows, Shows, FateStamp;
    var a := Arrive(f);
    ReadsStayInBuffer(a.mem, a.len);
    SeenEffect(f.p, f.fate, f.tail, n % 256);
    HandleShows(s, stream, n, Parsed(a));
    if f.fate == Inverted(0) {
      TypeDiscarded(f, n % 256);
      DiscardedShows(s, HandleArrival(s, a), n % 256, Parsed(a).timestamp, StampOn(f));
    } else {
      SeenTimestamp(f.p, f.fate, f.tail);
    }
  }

  lemma TypeDiscarded(f: Sighting, x: byte)
    requires Legible(f) && f.fate == Inverted(0)
    ensures EffectOn(f, x) == Discarded
  {
  }

  lemma DiscardedShows(s: State, r: State, x: byte, a: uint32, b: uint32)
    ensures Shows(s, Discarded, r, x, a) ==> Shows(s, Discarded, r, x, b)
  {
  }

  lemma EffectFollows(s: State, stream: seq<seq<byte>>, n: nat, effect: Effect, r: State, stamp: uint32)
    requires Follows(s, stream, n) && s.progress == Running && n < |stream|
    requires Shows(s, effect, r, n % 256, stamp)
    ensures Follows(r, stream, |r.acks|) <==> !(effect.Writes? && effect.data != stream[n])
    ensures effect.Writes? ==> |r.acks| == n + 1
    ensures effect.Discarded? <==> r == s
    ensures effect == Strays <==> r.progress == Astray
    ensures effect == Writes([]) <==> r.progress == Ended
  {
    hide Concat;
    if effect.Writes? {
      NextPart(stream, n);
      WindowMoves(n);
      if s.output + effect.data == s.output + stream[n] { SameSuffix(s.output, effect.data, stream[n]); }
    }
  }

  lemma SameSuffix(a: seq<byte>, b: seq<byte>, c: seq<byte>)
    requires a + b == a + c
    ensures b == c
  {
    assert (a + b)[|a|..] == b && (a + c)[|a|..] == c;
  }

  lemma WindowMoves(n: nat)
    ensures (n % 256 + 1) % 256 == (n + 1) % 256 && (n % 256 + 3) % 256 == (n + 1 + 2) % 256
  {
    var q, x := n / 256, n % 256;
    assert n == 256 * q + x;
    if x == 255 { Remainder(n + 1, q + 1, 0); } else { Remainder(n + 1, q, x + 1); }
    if x >= 253 { Remainder(n + 3, q + 1, x - 253); } else { Remainder(n + 3, q, x + 3); }
  }

  /** The next packet of the stream, damaged: the receiver is still the one that has accepted the
      packets it has acknowledged if and only if the effect is not to write something else; it
      ends if and only if the effect is to write nothing. */
  lemma NextDamaged(s: State, stream: seq<seq<byte>>, n: nat, f: Sighting)
    requires Follows(s, stream, n) && s.progress == Running && Legible(f) && Carries(f.p, stream, n)
    ensures
      var e, r := EffectOn(f, n % 256), HandleArrival(s, Arrive(f));
      && (Follows(r, stream, |r.acks|) <==> !(e.Writes? && e.data != stream[n]))
      && (r == s <==> e == Discarded)
      && (r.progress == Astray <==> e == Strays)
      && (r.progress == Ended <==> e == Writes([]))
  {
    hide Arrive, EffectOn, HandleArrival, Follows, Shows, Legible, StampOn;
    DamagedArrival(s, stream, n, f);
    EffectFollows(s, stream, n, EffectOn(f, n % 256), HandleArrival(s, Arrive(f)), StampOn(f));
  }

  /** The effects on a receiver that expects just this packet, in numbers: a truncated packet ends
      the transfer when the sequence number is 0 and leads astray at 254 and 255; an inverted
      sequence number leads astray at 127 and 255; the other header bytes lead astray, unless the
      packet is empty, or its length becomes 0 or more than 512; payload bytes are written as
      they are; the second checksum does not matter. */
  lemma NextTable(p: Packet, tail: seq<byte>, i: nat)
    requires Protocol(p) && p.ptype == PTYPE_DATA && i < |Frame(p)|
    ensures
      var x, n, h := p.seqnum, p.length, |Header(p)|;
      var data := if n == 0 then [] else p.payload.value;
      && FateEffect(p, Intact, tail, x) == Writes(data)
      && (Possible(Cut, Frame(p)) ==>
            FateEffect(p, Cut, tail, x) == if x == 0 then Writes([]) else if x >= 254 then Strays else Discarded)
      && FateEffect(p, Inverted(i), tail, x) ==
           (if i == 0 then Discarded
            else if i == 1 then SeenAt(SeenSeqnum(p), x, ReframedEffect(p, tail))
            else if i == 2 && n >= 128 then if n == 255 || n == 512 then Writes([]) else Strays
            else if i == h - 5 then if x == 127 || x == 255 then Strays else Discarded
            else if i < h + 4 then if n == 0 then Writes([]) else Strays
            else if i < h + 4 + n then Writes(data[i - h - 4 := 255 - data[i - h - 4]])
            else Writes(data))
  {
    hide Frame, SeenSeqnum, ReframedEffect;
    ProtocolFrame(p);
  }

  /** Byte 1 inverted in DATA of fewer than 125 bytes: the length seen is ignored, so that the
      packet counts as empty if the first byte of its timestamp is the number expected. */
  lemma ShortReframed(p: Packet, tail: seq<byte>, x: byte)
    requires Protocol(p) && p.ptype == PTYPE_DATA && p.length < 125
    ensures FateEffect(p, Inverted(1), tail, x) == SeenAt(Raw(p.timestamp)[0], x, Writes([]))
  {
    hide Frame, Raw;
    ProtocolFrame(p);
  }

  /** A payload byte inverted on the link is found by pkt_decode, which answers E_CRC; the
      receiver, which does not see that answer, accepts and acknowledges the packet and writes
      the corrupted payload. */
  lemma CorruptionWritten(s: State, stream: seq<seq<byte>>, n: nat, p: Packet, j: nat, a: Arrival, tail: seq<byte>)
    requires Follows(s, stream, n) && s.progress == Running && Carries(p, stream, n) && j < |stream[n]|
    requires Sendable(p) && Possible(Inverted(|Header(p)| + 4 + j), Frame(p))
    requires a == Arrival(Arrived(p, Inverted(|Header(p)| + 4 + j), tail), |Frame(p)|) && Fits(a)
    ensures Readable(a.mem, a.len) && Decode(a.mem, a.len, BLANK, true).status == E_CRC
    ensures
      var r := HandleArrival(s, a);
      && r.output == s.output + stream[n][j := 255 - stream[n][j]]
      && Acknowledges(s.acks, r.acks, n % 256, p.timestamp)
  {
    hide Decode, Frame, Header, Reads, Arrived, HandleArrival, Concat, AcksCount, Acknowledges;
    ReadsStayInBuffer(a.mem, a.len);
    var i := |Header(p)| + 4 + j;
    BodyByteRejected(p, i, tail, BLANK, true);
    var f := Sighting(p, Inverted(i), tail);
    DamagedArrival(s, stream, n, f);
    NextTable(p, tail, i);
  }

  // ---------- a damaged stream ----------

  /** The packets that the receiver accepts, n of them before, up to the first that seems empty. */
  function Takers(fs: seq<Sighting>, n: nat): seq<Sighting>
    requires forall k :: 0 <= k < |fs| ==> Legible(fs[k])
    decreases |fs|
  {
    if fs == [] then []
    else
      var e := EffectOn(fs[0], n % 256);
      if !e.Writes? then Takers(fs[1..], n)
      else [fs[0]] + if e.data == [] then [] else Takers(fs[1..], n + 1)
  }

  lemma TakersStep(fs: seq<Sighting>, n: nat)
    requires fs != [] && forall k :: 0 <= k < |fs| ==> Legible(fs[k])
    ensures
      var e := EffectOn(fs[0], n % 256);
      && (!e.Writes? ==> Takers(fs, n) == Takers(fs[1..], n))
      && (e == Writes([]) ==> Takers(fs, n) == [fs[0]])
      && (e.Writes? && e.data != [] ==> Takers(fs, n) == [fs[0]] + Takers(fs[1..], n + 1))
  {
    hide Legible, EffectOn;
  }

  /** Every packet, after its fate, is discarded or has the effect of the next one undamaged. */
  predicate Benign(stream: seq<seq<byte>>, fs: seq<Sighting>, n: nat)
    requires forall k :: 0 <= k < |fs| ==> Legible(fs[k])
    decreases |fs|
  {
    || fs == []
    || (EffectOn(fs[0], n % 256) == Discarded && Benign(stream, fs[1..], n))
    || (&& n < |stream| && EffectOn(fs[0], n % 256) == Writes(stream[n])
        && (stream[n] == [] || Benign(stream, fs[1..], n + 1)))
  }

  function Arrivals(fs: seq<Sighting>): (a: seq<Arrival>)
    requires forall k :: 0 <= k < |fs| ==> Legible(fs[k])
    ensures |a| == |fs| && forall k :: 0 <= k < |a| ==> Fits(a[k])
  {
    seq(|fs|, k requires 0 <= k < |fs| => Arrive(fs[k]))
  }

  /** The first of some packets: discarded, or taken as the next one. */
  lemma DamagedStep(s: State, stream: seq<seq<byte>>, fs: seq<Sighting>, n: nat)
    requires Follows(s, stream, n) && s.progress == Running && fs != []
    requires forall k :: 0 <= k < |fs| ==> Legible(fs[k])
    requires Benign(stream, fs, n)
    ensures
      var r, e := HandleArrival(s, Arrive(fs[0])), EffectOn(fs[0], n % 256);
      && Receive(s, Arrivals(fs)) == Receive(r, Arrivals(fs[1..]))
      && (e == Discarded ==> r == s && Benign(stream, fs[1..], n))
      && (e != Discarded ==>
            && n < |stream| && e == Writes(stream[n]) && Follows(r, stream, n + 1)
            && Acknowledges(s.acks, r.acks, n % 256, StampOn(fs[0]))
            && (if stream[n] == [] then r.progress == Ended && Receive(r, Arrivals(fs[1..])) == r
                else r.progress == Running && Benign(stream, fs[1..], n + 1)))
  {
    hide HandleArrival, Follows, Legible, EffectOn, Arrive, Shows, Fits, StampOn, Acknowledges;
    var r, e := HandleArrival(s, Arrive(fs[0])), EffectOn(fs[0], n % 256);
    assert Arrivals(fs)[0] == Arrive(fs[0]) && Arrivals(fs)[1..] == Arrivals(fs[1..]);
    DamagedArrival(s, stream, n, fs[0]);
    BenignStep(s, stream, n, e, r, StampOn(fs[0]));
    if e.Writes? { WritesAcknowledges(s, e, r, n % 256, StampOn(fs[0])); }
  }

  lemma {:induction false} DamagedRun(s: State, stream: seq<seq<byte>>, fs: seq<Sighting>, n: nat)
    requires Follows(s, stream, n) && s.progress == Running
    requires forall k :: 0 <= k < |fs| ==> Legible(fs[k])
    requires Benign(stream, fs, n)
    ensures
      var r, m := Receive(s, Arrivals(fs)), n + |Takers(fs, n)|;
      m <= |stream| && Follows(r, stream, m) && r.progress == if m > n && stream[m - 1] == [] then Ended else Running
    decreases |fs|
  {
    hide HandleArrival, Follows, Legible, EffectOn, Arrive, Fits, StampOn, Acknowledges, Arrivals;
    FollowsCounts(s, stream, n);
    if fs == [] {
    } else {
      DamagedStep(s, stream, fs, n);
      TakersStep(fs, n);
      hide Benign, Receive, Takers;
      var r := HandleArrival(s, Arrive(fs[0]));
      if EffectOn(fs[0], n % 256) == Discarded {
        DamagedRun(s, stream, fs[1..], n);
      } else if stream[n] != [] {
        DamagedRun(r, stream, fs[1..], n + 1);
      }
    }
  }

  lemma BenignStep(s: State, stream: seq<seq<byte>>, n: nat, effect: Effect, r: State, stamp: uint32)
    requires Follows(s, stream, n) && s.progress == Running && Shows(s, effect, r, n % 256, stamp)
    ensures effect == Discarded ==> r == s
    ensures n < |stream| && effect == Writes(stream[n]) ==>
      Follows(r, stream, n + 1) && r.progress == if stream[n] == [] then Ended else Running
  {
    if n < |stream| && effect == Writes(stream[n]) { EffectFollows(s, stream, n, effect, r, stamp); }
  }

  /** The acknowledgments, from n on, of the packets accepted. */
  predicate Acked(acks: seq<Packet>, fs: seq<Sighting>, n: nat) {
    && |acks| == n + |fs|
    && forall k :: 0 <= k < |fs| ==>
         Legible(fs[k]) && acks[n + k].seqnum == (n + k) % 256 && acks[n + k].window == 3
         && acks[n + k].timestamp == StampOn(fs[k])
  }

  lemma {:induction false} DamagedAcks(s: State, stream: seq<seq<byte>>, fs: seq<Sighting>, n: nat)
    requires Follows(s, stream, n) && s.progress == Running
    requires forall k :: 0 <= k < |fs| ==> Legible(fs[k])
    requires Benign(stream, fs, n)
    ensures
      var acks := Receive(s, Arrivals(fs)).acks;
      |s.acks| == n <= |acks| && acks[..n] == s.acks && Acked(acks, Takers(fs, n), n)
    decreases |fs|
  {
    hide HandleArrival, Follows, Legible, EffectOn, Arrive, Fits, StampOn, Acknowledges, Arrivals;
    FollowsCounts(s, stream, n);
    if fs == [] {
    } else {
      DamagedStep(s, stream, fs, n);
      TakersStep(fs, n);
      hide Benign, Receive, Takers;
      var r := HandleArrival(s, Arrive(fs[0]));
      if EffectOn(fs[0], n % 256) == Discarded {
        DamagedAcks(s, stream, fs[1..], n);
      } else {
        FollowsCounts(r, stream, n + 1);
        if stream[n] != [] { DamagedAcks(r, stream, fs[1..], n + 1); }
        var rest := if stream[n] == [] then [] else Takers(fs[1..], n + 1);
        AckedLater(s.acks, r.acks, Receive(r, Arrivals(fs[1..])).acks, fs[0], rest, n);
      }
    }
  }

  lemma WritesAcknowledges(s: State, effect: Effect, r: State, x: byte, stamp: uint32)
    requires Shows(s, effect, r, x, stamp) && effect.Writes?
    ensures Acknowledges(s.acks, r.acks, x, stamp)
  {
  }

  lemma AckedLater(before: seq<Packet>, after: seq<Packet>, acks: seq<Packet>, f: Sighting, fs: seq<Sighting>, n: nat)
    requires |before| == n && Legible(f) && Acknowledges(before, after, n % 256, StampOn(f))
    requires |acks| >= n + 1 && acks[..n + 1] == after && Acked(acks, fs, n + 1)
    ensures acks[..n] == before && Acked(acks, [f] + fs, n)
  {
    hide Legible, StampOn;
    assert acks[..n] == acks[..n + 1][..n];
    forall k | 0 <= k < |fs| + 1
      ensures
        var g := ([f] + fs)[k];
        && Legible(g) && acks[n + k].seqnum == (n + k) % 256 && acks[n + k].window == 3
        && acks[n + k].timestamp == StampOn(g)
    {
      if k == 0 {
        assert acks[n] == acks[..n + 1][n] == after[n];
      } else {
        assert acks[n + k] == acks[n + 1 + (k - 1)];
      }
    }
  }

  /** Over whole runs: as long as no damage does harm, by exactly the table above, the receiver
      writes the stream in order and once each, and acknowledges it with the timestamps of what it
      has accepted. */
  lemma DamagedStream(stream: seq<seq<byte>>, fs: seq<Sighting>)
    requires forall k :: 0 <= k < |fs| ==> Legible(fs[k])
    requires Benign(stream, fs, 0)
    ensures
      var r, m := Receive(START, Arrivals(fs)), |Takers(fs, 0)|;
      && m <= |stream| && r.output == Concat(stream[..m]) && Acked(r.acks, Takers(fs, 0), 0)
      && r.progress == if m > 0 && stream[m - 1] == [] then Ended else Running
  {
    hide Receive, Benign, Takers, Legible, Acked;
    assert Follows(START, stream, 0);
    DamagedRun(START, stream, fs, 0);
    DamagedAcks(START, stream, fs, 0);
  }
}
