/** Encoding and decoding of packets (src/packet_implem.c) on values, and what the two
    promise each other. */
module Codec {
  import opened Wrappers
  import opened Crc32
  import opened Packet

  // ---------- integers on the wire ----------

  /** varuint_predict_len */
  function PredictLen(v: uint16): int {
    if v >= 0x8000 then -1 else if v >= 0x80 then 2 else 1
  }

  /** varuint_len */
  function VaruintLen(first: byte): nat {
    if first >= 0x80 then 2 else 1
  }

  function VaruintBytes(v: uint16): (r: seq<byte>)
    requires v < 0x8000
    ensures |r| == PredictLen(v)
  {
    if v >= 0x80 then [0x80 + v / 0x100, v % 0x100] else [v]
  }

  function VaruintValue(first: byte, second: byte): uint16 {
    if first >= 0x80 then (first - 0x80) * 0x100 + second else first
  }

  /** htonl on a little-endian host: most significant byte first. */
  function Network(n: uint32): (r: seq<byte>)
    ensures |r| == 4
  {
    [n / 0x100 / 0x100 / 0x100, n / 0x100 / 0x100 % 0x100, n / 0x100 % 0x100, n % 0x100]
  }

  function FromNetwork(s: seq<byte>): uint32
    requires |s| == 4
  {
    0x100_0000 * (s[0] as int) + 0x1_0000 * (s[1] as int) + 0x100 * (s[2] as int) + (s[3] as int)
  }

  /** The raw bytes of an integer of the host. */
  function Raw(n: uint32): (r: seq<byte>)
    ensures |r| == 4
  {
    [n % 0x100, n / 0x100 % 0x100, n / 0x100 / 0x100 % 0x100, n / 0x100 / 0x100 / 0x100]
  }

  function FromRaw(s: seq<byte>): uint32
    requires |s| == 4
  {
    (s[0] as int) + 0x100 * (s[1] as int) + 0x1_0000 * (s[2] as int) + 0x100_0000 * (s[3] as int)
  }

  lemma NetworkRoundTrip(n: uint32)
    ensures FromNetwork(Network(n)) == n
  {
  }

  lemma RawRoundTrip(n: uint32)
    ensures FromRaw(Raw(n)) == n
  {
  }

  lemma NetworkInjective(s: seq<byte>, t: seq<byte>)
    requires |s| == |t| == 4 && FromNetwork(s) == FromNetwork(t)
    ensures s == t
  {
    var a: int, b: int := s[0], t[0];
    var c: int, d: int := 0x100 * a + s[1], 0x100 * b + t[1];
    LastByte(0x100 * c + s[2], s[3], 0x100 * d + t[2], t[3]);
    LastByte(c, s[2], d, t[2]);
    LastByte(a, s[1], b, t[1]);
  }

  lemma LastByte(a: int, x: byte, b: int, y: byte)
    requires 0x100 * a + x == 0x100 * b + y
    ensures a == b && x == y
  {
  }

  // ---------- byte 0 ----------

  /** `type << 6 | tr << 5 | window` */
  function Pack(ptype: bits2, tr: bit, window: bits5): byte {
    64 * (ptype as int) + 32 * (tr as int) + (window as int)
  }

  function Byte0(p: Packet): byte {
    Pack(p.ptype, p.tr, p.window)
  }

  function TypeOf(b: byte): bits2 { b / 64 }

  function TrOf(b: byte): bit { b / 32 % 2 }

  function WindowOf(b: byte): bits5 { b % 32 }

  /** `b & 0b11011111` */
  function ClearTr(b: byte): byte {
    b - 32 * TrOf(b)
  }

  function Masked(h: seq<byte>): (r: seq<byte>)
    requires |h| > 0
    ensures |r| == |h|
  {
    h[0 := ClearTr(h[0])]
  }

  // ---------- encoding ----------

  /** predict_header_length */
  function PredictHeaderLength(p: Packet): int {
    6 + PredictLen(p.length)
  }

  /** The space pkt_encode asks for before it writes. */
  function SpaceChecked(p: Packet): int {
    PredictHeaderLength(p) + 4 + p.length + (if p.tr == 0 && p.length != 0 then 4 else 0)
  }

  /** A size_t read as an int of 32 bits. */
  function AsInt(n: nat): int {
    var m := n % 0x1_0000_0000;
    if m >= 0x8000_0000 then m - 0x1_0000_0000 else m
  }

  /** What memory safety asks of the packet: a payload buffer holds at least `length` bytes. */
  predicate Encodable(p: Packet) {
    p.payload.Some? ==> |p.payload.value| >= p.length
  }

  function Header(p: Packet): (h: seq<byte>)
    requires p.length < 0x8000
    ensures |h| == PredictHeaderLength(p)
  {
    [Byte0(p)] + VaruintBytes(p.length) + [p.seqnum] + Raw(p.timestamp)
  }

  function PayloadPart(p: Packet): seq<byte>
    requires Encodable(p)
  {
    if p.payload.None? then []
    else
      var data := p.payload.value[..p.length];
      data + if p.tr == 0 then Network(Crc(data)) else []
  }

  function Frame(p: Packet): seq<byte>
    requires Encodable(p) && p.length < 0x8000
  {
    Header(p) + Network(Crc(Masked(Header(p)))) + PayloadPart(p)
  }

  function EncodeStatus(p: Packet, space: nat): Status {
    if AsInt(space) < SpaceChecked(p) then E_NOMEM
    else if p.ptype != PTYPE_DATA && p.tr != 0 then E_TR
    else if p.ptype == 0 then E_TYPE
    else if p.length >= 0x8000 then E_LENGTH
    else PKT_OK
  }

  // ---------- decoding ----------

  function HeaderSize(mem: seq<byte>): nat
    requires |mem| >= 2
  {
    6 + VaruintLen(mem[1])
  }

  function LengthField(mem: seq<byte>): uint16
    requires |mem| >= 3
  {
    VaruintValue(mem[1], mem[2])
  }

  predicate HasHeader(mem: seq<byte>) {
    |mem| >= 11 && |mem| >= HeaderSize(mem) + 4
  }

  /** The checksum in the header agrees with the header, TR taken as 0. */
  predicate HeaderChecks(mem: seq<byte>)
    requires HasHeader(mem)
  {
    var h := HeaderSize(mem);
    FromNetwork(mem[h..h + 4]) == Crc(Masked(mem[..h]))
  }

  /** pkt_decode gives up at byte 0: no such type, or truncated DATA. */
  predicate BadByte0(b: byte) {
    TypeOf(b) == 0 || (TypeOf(b) == PTYPE_DATA && TrOf(b) != 0)
  }

  /** Whether pkt_decode goes on to a payload. */
  predicate CarriesPayload(b: byte) {
    TypeOf(b) == PTYPE_DATA && TrOf(b) == 0
  }

  /** How far pkt_decode reads into the receive buffer `mem`, which it does not compare
      with the number of bytes received. */
  function Reads(mem: seq<byte>): nat
    requires |mem| >= 11
  {
    if BadByte0(mem[0]) then 1
    else if HasHeader(mem) && HeaderChecks(mem) && CarriesPayload(mem[0]) && LengthField(mem) <= MAX_PAYLOAD_SIZE
    then HeaderSize(mem) + 4 + LengthField(mem) + 4
    else HeaderSize(mem) + 4
  }

  /** The bytes that pkt_decode looks at are in the buffer. */
  predicate Readable(mem: seq<byte>, len: nat) {
    len >= 11 ==> |mem| >= 11 && Reads(mem) <= |mem|
  }

  datatype Decoded = Decoded(status: Status, pkt: Packet)

  function DecodeHeader(mem: seq<byte>, p: Packet): Packet
    requires HasHeader(mem)
  {
    var h := HeaderSize(mem);
    WithLength(p, LengthField(mem)).(
      seqnum := mem[h - 5],
      timestamp := FromRaw(mem[h - 4..h]),
      crc1 := FromNetwork(mem[h..h + 4]))
  }

  function DecodeByte0(b: byte, p: Packet): Packet {
    p.(ptype := TypeOf(b), tr := TrOf(b), window := WindowOf(b))
  }

  function DecodePayload(mem: seq<byte>, p: Packet, memory: bool): Decoded
    requires HasHeader(mem) && Reads(mem) <= |mem|
    requires HeaderChecks(mem) && CarriesPayload(mem[0])
  {
    var h, n := HeaderSize(mem), LengthField(mem);
    var data := mem[h + 4..];
    var q := WithPayload(p, Some(data), n, memory);
    var s := PayloadStatus(n, true, memory);
    if s != PKT_OK then Decoded(s, q)
    else
      var r := q.(crc2 := FromNetwork(data[n..n + 4]));
      Decoded(if r.crc2 != Crc(data[..n]) then E_CRC else PKT_OK, r)
  }

  /** pkt_decode on the first `len` bytes received into `mem`, into the structure `p`;
      `memory` is the outcome of the payload's calloc. */
  function Decode(mem: seq<byte>, len: nat, p: Packet, memory: bool): Decoded
    requires Readable(mem, len)
  {
    if len < 7 then Decoded(E_NOHEADER, p)
    else if len < 11 then Decoded(E_UNCONSISTENT, p)
    else
      var q := DecodeByte0(mem[0], p);
      if q.ptype == 0 then Decoded(E_TYPE, q)
      else if q.ptype == PTYPE_DATA && q.tr != 0 then Decoded(E_TR, q)
      else
        var r := DecodeHeader(mem, q);
        if !HeaderChecks(mem) then Decoded(E_CRC, r)
        else if CarriesPayload(mem[0]) then DecodePayload(mem, r, memory)
        else Decoded(PKT_OK, r)
  }

  // ---------- statuses ----------

  /** The answers of pkt_decode, one condition each. */
  lemma DecodeCases(m: seq<byte>, len: nat, p: Packet, memory: bool)
    requires len >= 11 && Readable(m, len)
    ensures
      var d := Decode(m, len, p, memory);
      && (TypeOf(m[0]) == 0 ==> d.status == E_TYPE)
      && (TypeOf(m[0]) == PTYPE_DATA && TrOf(m[0]) == 1 ==> d == Decoded(E_TR, DecodeByte0(m[0], p)))
      && (!BadByte0(m[0]) ==>
            && HasHeader(m)
            && var q := DecodeHeader(m, DecodeByte0(m[0], p));
              && (!HeaderChecks(m) ==> d == Decoded(E_CRC, q))
              && (HeaderChecks(m) && CarriesPayload(m[0]) ==> d == DecodePayload(m, q, memory))
              && (HeaderChecks(m) && !CarriesPayload(m[0]) ==> d == Decoded(PKT_OK, q)))
  {
    hide HeaderChecks, DecodePayload, DecodeHeader;
  }

  /** A payload that can be stored does not agree with the checksum behind it. */
  predicate BodyFails(mem: seq<byte>, memory: bool)
    requires |mem| >= 11 && (HasHeader(mem) ==> Reads(mem) <= |mem|)
  {
    HasHeader(mem) && HeaderChecks(mem) && CarriesPayload(mem[0]) &&
    var i := HeaderSize(mem) + 4;
    var j := i + LengthField(mem);
    j <= i + 512 && (i == j || memory) && FromNetwork(mem[j..j + 4]) != Crc(mem[i..j])
  }

  lemma BodySlices(mem: seq<byte>, i: nat, n: nat)
    ensures i + n + 4 <= |mem| ==> mem[i..][..n] == mem[i..i + n] && mem[i..][n..n + 4] == mem[i + n..i + n + 4]
  {
  }

  /** Which answer means what: a datagram of fewer than 11 bytes is refused, for one of two reasons,
      and leaves the structure alone; types and truncation are told from byte 0; and E_NOMEM stands
      for payloads that are too long, too. */
  lemma DecodeStatus(mem: seq<byte>, len: nat, p: Packet, memory: bool)
    requires Readable(mem, len)
    ensures
      var d := Decode(mem, len, p, memory);
      && (d.status == E_NOHEADER <==> len < 7)
      && (d.status == E_UNCONSISTENT <==> 7 <= len < 11)
      && (len < 11 ==> d.pkt == p)
      && (d.status == E_TYPE <==> len >= 11 && mem[0] < 64)
      && (d.status == E_TR <==> len >= 11 && 96 <= mem[0] < 128)
      && (d.status == E_NOMEM <==>
            && len >= 11 && 64 <= mem[0] < 96 && HeaderChecks(mem)
            && (LengthField(mem) > 512 || (LengthField(mem) > 0 && !memory)))
      && (d.status == E_CRC <==> len >= 11 && !BadByte0(mem[0]) && (!HeaderChecks(mem) || BodyFails(mem, memory)))
      && d.status in {PKT_OK, E_CRC, E_TYPE, E_TR, E_NOMEM, E_NOHEADER, E_UNCONSISTENT}
  {
    hide Crc, FromNetwork, Masked, Decode, DecodePayload, DecodeHeader, HeaderChecks, LengthField, BodyFails, Reads;
    if len < 11 {
      ShortStatus(mem, len, p, memory);
    } else {
      DecodeCases(mem, len, p, memory);
      BodyOnlyIfCarried(mem, memory);
      if !BadByte0(mem[0]) && HeaderChecks(mem) && CarriesPayload(mem[0]) {
        PayloadStatuses(mem, DecodeHeader(mem, DecodeByte0(mem[0], p)), memory);
      }
    }
  }

  lemma ShortStatus(mem: seq<byte>, len: nat, p: Packet, memory: bool)
    requires len < 11
    ensures Decode(mem, len, p, memory) == Decoded(if len < 7 then E_NOHEADER else E_UNCONSISTENT, p)
  {
  }

  lemma BodyOnlyIfCarried(mem: seq<byte>, memory: bool)
    requires |mem| >= 11 && Reads(mem) <= |mem|
    ensures BodyFails(mem, memory) ==> HasHeader(mem) && HeaderChecks(mem) && CarriesPayload(mem[0])
  {
  }

  lemma PayloadStatuses(mem: seq<byte>, p: Packet, memory: bool)
    requires HasHeader(mem) && Reads(mem) <= |mem| && HeaderChecks(mem) && CarriesPayload(mem[0])
    ensures
      var s := DecodePayload(mem, p, memory).status;
      && (s == E_NOMEM <==> LengthField(mem) > 512 || (LengthField(mem) > 0 && !memory))
      && (s == E_CRC <==> BodyFails(mem, memory))
      && s in {PKT_OK, E_CRC, E_NOMEM}
  {
    hide Crc, FromNetwork, HeaderChecks;
    if LengthField(mem) <= 512 { BodySlices(mem, HeaderSize(mem) + 4, LengthField(mem)); }
  }

  /** What pkt_decode leaves in the structure, whatever it answers: byte 0 from 11 bytes on, and the
      other fields of the header unless byte 0 is refused. */
  lemma DecodedFields(mem: seq<byte>, len: nat, p: Packet, memory: bool)
    requires Readable(mem, len) && len >= 11
    ensures
      var q, h := Decode(mem, len, p, memory).pkt, HeaderSize(mem);
      && q.ptype == mem[0] / 64 && q.tr == mem[0] / 32 % 2 && q.window == mem[0] % 32
      && if BadByte0(mem[0]) then q == p.(ptype := q.ptype, tr := q.tr, window := q.window)
         else HasHeader(mem) && q.seqnum == mem[h - 5] && q.timestamp == FromRaw(mem[h - 4..h])
              && q.crc1 == FromNetwork(mem[h..h + 4])
  {
    hide HeaderChecks, FromNetwork, FromRaw, Crc;
  }

  /** The length, unless it is over 512; and the payload and its checksum, if the header agrees with
      its checksum. */
  lemma DecodedPayload(mem: seq<byte>, len: nat, p: Packet, memory: bool)
    requires Readable(mem, len) && len >= 11 && !BadByte0(mem[0])
    ensures HasHeader(mem)
    ensures
      var q, h, n := Decode(mem, len, p, memory).pkt, HeaderSize(mem), LengthField(mem);
      if n > 512 then q.length == p.length && q.payload == p.payload && q.crc2 == p.crc2
      else if !HeaderChecks(mem) || !CarriesPayload(mem[0])
      then q.length == n && q.payload == p.payload && q.crc2 == p.crc2
      else if n > 0 && !memory
      then q.length == (if p.payload.Some? then 0 else n) && q.payload == None && q.crc2 == p.crc2
      else q.length == n && q.crc2 == FromNetwork(mem[h + 4 + n..h + 8 + n])
           && q.payload == if n > 0 then Some(mem[h + 4..h + 4 + n]) else p.payload
  {
    hide Crc, FromNetwork, FromRaw, Masked;
    if LengthField(mem) <= 512 { BodySlices(mem, HeaderSize(mem) + 4, LengthField(mem)); }
  }

  /** pkt_encode refuses for lack of space exactly if the frame is longer than the space, read as an
      int; otherwise it refuses TR outside DATA, type 0, and lengths from 0x8000. */
  lemma EncodeStatusExact(p: Packet, space: nat)
    requires Encodable(p)
    ensures
      var s, room := EncodeStatus(p, space), space % 0x1_0000_0000;
      && (p.length < 0x8000 && (if p.payload.Some? then p.tr != 0 || p.length != 0 else p.length == 0) ==>
            (s == E_NOMEM <==> room < |Frame(p)| || room >= 0x8000_0000))
      && (p.length >= 0x8000 ==>
            (s == E_NOMEM <==> room < p.length + (if p.tr == 0 then 13 else 9) || room >= 0x8000_0000))
      && (s != E_NOMEM ==>
            s == if p.tr == 1 && p.ptype != 1 then E_TR else if p.ptype == 0 then E_TYPE
                 else if p.length >= 0x8000 then E_LENGTH else PKT_OK)
  {
    hide Crc;
    if p.payload.Some? { assert |p.payload.value[..p.length]| == p.length; }
  }

  // ---------- space ----------

  /** pkt_decode never reads past byte 527, whatever the receive buffer holds: the 528 bytes
      of receive_pkt are enough for every datagram. */
  lemma ReadsStayInBuffer(mem: seq<byte>, len: nat)
    requires |mem| >= 528
    ensures Reads(mem) <= 528
    ensures Readable(mem, len)
  {
    hide Crc;
  }

  /** pkt_encode writes exactly the bytes it asked for if and only if the payload is present
      just when the length field is not 0 (with TR set, a present payload may be empty). */
  lemma SpaceExact(p: Packet)
    requires p.length < 0x8000 && (p.payload.Some? ==> |p.payload.value| >= p.length)
    ensures
      var written := |Header(p)| + 4 + (if p.payload.None? then 0 else p.length + if p.tr == 0 then 4 else 0);
      written == SpaceChecked(p) <==>
        if p.payload.Some? then p.tr != 0 || p.length != 0 else p.length == 0
  {
  }

  lemma FrameLength(p: Packet)
    requires Sendable(p)
    ensures |Frame(p)| == SpaceChecked(p)
    ensures |Frame(p)| == if p.ptype == PTYPE_DATA then |Header(p)| + 8 + p.length else 11
  {
    hide Crc;
    if p.ptype == PTYPE_DATA {
      assert |p.payload.value[..p.length]| == p.length;
    }
  }

  lemma AsIntSmall(n: nat)
    requires n < 0x8000_0000
    ensures AsInt(n) == n
  {
  }

  /** Frames of sendable packets have between 11 and 528 bytes, and both the check of
      pkt_encode and the allocation of send_pkt are right for them. */
  lemma FrameSize(p: Packet)
    requires Sendable(p)
    ensures 11 <= |Frame(p)| == SpaceChecked(p) <= 528
    ensures EncodeStatus(p, PredictHeaderLength(p) + 4 + p.length + 4) == PKT_OK
  {
    hide Crc;
    FrameLength(p);
    var space := PredictHeaderLength(p) + 4 + p.length + 4;
    assert 0 <= space <= 528;
    AsIntSmall(space);
  }

  // ---------- round trip ----------

  lemma VaruintRoundTrip(v: uint16, rest: seq<byte>)
    requires v < 0x8000 && |rest| > 0
    ensures
      var m := VaruintBytes(v) + rest;
      VaruintLen(m[0]) == |VaruintBytes(v)| && VaruintValue(m[0], m[1]) == v
  {
  }

  lemma Byte0RoundTrip(p: Packet)
    ensures TypeOf(Byte0(p)) == p.ptype && TrOf(Byte0(p)) == p.tr && WindowOf(Byte0(p)) == p.window
  {
    Unpacked(Byte0(p), p.ptype, p.tr, p.window);
  }

  lemma Unpacked(b: byte, t: bits2, r: bit, w: bits5)
    requires b == Pack(t, r, w)
    ensures TypeOf(b) == t && TrOf(b) == r && WindowOf(b) == w
  {
    var x: int, y: int, z: int := t, r, w;
    Split32(2 * x + y, z);
    Split64(x, 32 * y + z);
    assert (2 * x + y) % 2 == y;
  }

  lemma Split32(q: int, r: int)
    requires 0 <= r < 32
    ensures (32 * q + r) / 32 == q && (32 * q + r) % 32 == r
  {
  }

  lemma Split64(q: int, r: int)
    requires 0 <= r < 64
    ensures (64 * q + r) / 64 == q
  {
  }

  lemma HeaderLayout(p: Packet)
    requires p.length < 0x8000
    ensures
      var h := Header(p);
      && |h| == HeaderSize(h) && LengthField(h) == p.length
      && h[0] == Byte0(p) && h[|h| - 5] == p.seqnum && h[|h| - 4..] == Raw(p.timestamp)
  {
    var h := Header(p);
    var rest := [p.seqnum] + Raw(p.timestamp);
    assert h[1..] == VaruintBytes(p.length) + rest;
    VaruintRoundTrip(p.length, rest);
    assert h[1] == h[1..][0] && h[2] == h[1..][1];
  }

  lemma ThreeParts<T>(a: seq<T>, b: seq<T>, c: seq<T>, m: seq<T>)
    requires m == a + b + c
    ensures m[..|a|] == a && m[|a|..|a| + |b|] == b && m[|a| + |b|..] == c
  {
  }

  /** The parts of a frame stand where the decoder looks for them. */
  lemma FrameLayout(p: Packet, tail: seq<byte>)
    requires p.length < 0x8000 && Encodable(p)
    ensures
      var mem := Frame(p) + tail;
      var h := |Header(p)|;
      && |mem| >= 11 && HeaderSize(mem) == h && LengthField(mem) == p.length
      && mem[..h] == Header(p)
      && mem[h..h + 4] == Network(Crc(Masked(Header(p))))
      && mem[h + 4..] == PayloadPart(p) + tail
      && mem[0] == Byte0(p) && mem[h - 5] == p.seqnum && mem[h - 4..h] == Raw(p.timestamp)
  {
    hide Crc, Network, Raw, Masked, Pack, VaruintBytes, VaruintValue, PayloadPart;
    var h := Header(p);
    var mem := Frame(p) + tail;
    HeaderLayout(p);
    ThreeParts(h, Network(Crc(Masked(h))), PayloadPart(p) + tail, mem);
    assert forall i :: 0 <= i < |h| ==> mem[i] == mem[..|h|][i];
    assert mem[|h| - 4..|h|] == mem[..|h|][|h| - 4..];
  }

  /** The header part of decoding a frame. */
  lemma FrameHeader(p: Packet, tail: seq<byte>, p0: Packet)
    requires p.length <= MAX_PAYLOAD_SIZE && Encodable(p)
    ensures
      var mem := Frame(p) + tail;
      && HasHeader(mem) && HeaderChecks(mem)
      && DecodeHeader(mem, DecodeByte0(mem[0], p0)) ==
         p.(crc1 := Crc(Masked(Header(p))), payload := p0.payload, crc2 := p0.crc2)
  {
    hide Crc;
    FrameLayout(p, tail);
    Byte0RoundTrip(p);
    NetworkRoundTrip(Crc(Masked(Header(p))));
    RawRoundTrip(p.timestamp);
  }

  /** The packet a decoder ends up with when the frame of `p` arrives unharmed. */
  function Received(p: Packet, p0: Packet): Packet
    requires Sendable(p)
  {
    var q := p.(crc1 := Crc(Masked(Header(p))));
    if p.ptype == PTYPE_DATA then q.(crc2 := Crc(p.payload.value))
    else q.(payload := p0.payload, crc2 := p0.crc2)
  }

  /** Round trip: the frame of a sendable packet, followed by anything, decodes to PKT_OK and
      the fields and payload that were sent. */
  lemma RoundTrip(p: Packet, tail: seq<byte>, p0: Packet)
    requires Sendable(p)
    ensures
      var mem := Frame(p) + tail;
      Readable(mem, |Frame(p)|) && Decode(mem, |Frame(p)|, p0, true) == Decoded(PKT_OK, Received(p, p0))
  {
    hide Crc;
    var mem := Frame(p) + tail;
    FrameLayout(p, tail);
    FrameHeader(p, tail, p0);
    Byte0RoundTrip(p);
    FrameLength(p);
    if p.ptype == PTYPE_DATA {
      PayloadRoundTrip(p, tail, DecodeHeader(mem, DecodeByte0(mem[0], p0)));
    }
  }

  lemma PayloadRoundTrip(p: Packet, tail: seq<byte>, q: Packet)
    requires Sendable(p) && p.ptype == PTYPE_DATA && q.length == p.length
    requires HasHeader(Frame(p) + tail) && HeaderChecks(Frame(p) + tail)
    ensures
      var mem := Frame(p) + tail;
      && CarriesPayload(mem[0]) && Reads(mem) <= |mem|
      && DecodePayload(mem, q, true) ==
         Decoded(PKT_OK, q.(payload := p.payload, crc2 := Crc(p.payload.value)))
  {
    hide Crc;
    var mem := Frame(p) + tail;
    FrameLayout(p, tail);
    FrameLength(p);
    Byte0RoundTrip(p);
    NetworkRoundTrip(Crc(p.payload.value));
    assert p.payload.value[..p.length] == p.payload.value;
    ThreeParts(p.payload.value, Network(Crc(p.payload.value)), tail, mem[HeaderSize(mem) + 4..]);
  }

  /** No frame is a prefix of another: frames delimit themselves, and encoding is injective
      on what the sender chose. */
  lemma PrefixFree(p: Packet, q: Packet, tail: seq<byte>)
    requires Sendable(p) && Sendable(q)
    requires Frame(q) == Frame(p) + tail
    ensures tail == [] && SameContent(p, q)
  {
    hide Crc;
    RoundTrip(p, tail, BLANK);
    RoundTrip(q, [], BLANK);
    assert Frame(p) + tail == Frame(q) + [];
    FrameSize(p);
    FrameSize(q);
    DecodeIgnoresLen(Frame(q) + [], |Frame(p)|, |Frame(q)|, BLANK, true);
    assert Received(p, BLANK) == Received(q, BLANK);
  }

  // ---------- the TR bit ----------

  /** The first checksum is that of the header with TR clear, also when TR is set. */
  lemma ChecksumIgnoresTr(p: Packet)
    requires p.tr == 1 && p.length < 0x8000 && Encodable(p)
    ensures
      var h, q := |Header(p)|, p.(tr := 0);
      && Header(p)[0] == Header(q)[0] + 32 && Header(p)[1..] == Header(q)[1..]
      && Frame(p)[h..h + 4] == Frame(q)[h..h + 4]
  {
    hide Crc, Network;
    Byte0RoundTrip(p);
    Byte0RoundTrip(p.(tr := 0));
    assert Masked(Header(p)) == Masked(Header(p.(tr := 0)));
  }

  /** TR set on the way: DATA is then refused, but an acknowledgment accepted, with TR. */
  lemma TrUnchecked(p: Packet, tail: seq<byte>, p0: Packet)
    requires Sendable(p)
    ensures Byte0(p) + 32 < 256
    ensures
      var mem := (Frame(p) + tail)[0 := Byte0(p) + 32];
      && Readable(mem, |Frame(p)|)
      && var d := Decode(mem, |Frame(p)|, p0, true);
        if p.ptype == PTYPE_DATA then d.status == E_TR
        else d == Decoded(PKT_OK, Received(p, p0).(tr := 1))
  {
    hide Crc, Network, FromNetwork, Raw, FromRaw, Header, Frame, Decode, DecodeHeader, HeaderChecks, Masked, Pack;
    FrameSize(p);
    FrameLayout(p, tail);
    FrameHeader(p, tail, p0);
    TrSet(p);
    var mem, b := Frame(p) + tail, Byte0(p) + 32;
    Byte0RoundTrip(p);
    TrSameHeader(mem, b, DecodeByte0(mem[0], p0), DecodeByte0(b, p0));
    DecodeCases(mem[0 := b], |Frame(p)|, p0, true);
  }

  lemma TrSet(p: Packet)
    requires p.tr == 0
    ensures
      var b := Byte0(p) + 32;
      b < 256 && TypeOf(b) == p.ptype && TrOf(b) == 1 && WindowOf(b) == p.window && ClearTr(b) == ClearTr(Byte0(p))
  {
    Unpacked(Byte0(p) + 32, p.ptype, 1, p.window);
    Byte0RoundTrip(p);
  }

  lemma TrSameHeader(mem: seq<byte>, b: byte, q: Packet, r: Packet)
    requires HasHeader(mem) && ClearTr(b) == ClearTr(mem[0]) && r == q.(tr := r.tr)
    ensures
      var m := mem[0 := b];
      && HasHeader(m) && (HeaderChecks(m) <==> HeaderChecks(mem))
      && DecodeHeader(m, r) == DecodeHeader(mem, q).(tr := r.tr)
  {
    hide Crc, FromNetwork, FromRaw, ClearTr;
    var m, h := mem[0 := b], HeaderSize(mem);
    assert m[1] == mem[1] && m[2] == mem[2] && m[h - 5] == mem[h - 5];
    assert m[h - 4..h] == mem[h - 4..h] && m[h..h + 4] == mem[h..h + 4];
    assert Masked(m[..h]) == Masked(mem[..h]);
  }

  /** From 11 bytes on, the decoder does not look at the number of bytes received. */
  lemma DecodeIgnoresLen(mem: seq<byte>, a: nat, b: nat, p: Packet, memory: bool)
    requires 11 <= a && 11 <= b && Readable(mem, a) && Readable(mem, b)
    ensures Decode(mem, a, p, memory) == Decode(mem, b, p, memory)
  {
    hide Crc;
  }

  // ---------- DATA without payload ----------

  /** The packet that ends a transfer. */
  predicate EndOfTransfer(p: Packet) {
    p.ptype == PTYPE_DATA && p.tr == 0 && p.length == 0 && p.payload.None?
  }

  /** What the programs send: packets with their payload, acknowledgments, and the packet that
      ends a transfer. */
  predicate Protocol(p: Packet) {
    Sendable(p) || EndOfTransfer(p)
  }

  /** A packet received into the structure `p0`: one without payload leaves that of `p0`. */
  function Into(p: Packet, p0: Packet): Packet {
    if p.payload.Some? then p else p.(payload := p0.payload)
  }

  lemma ProtocolFrame(p: Packet)
    requires Protocol(p)
    ensures 11 <= |Frame(p)| <= 528
    ensures |Frame(p)| == |Header(p)| + 4 + if p.payload.Some? then p.length + 4 else 0
    ensures p.payload.Some? <==> p.ptype == PTYPE_DATA && p.length > 0
    ensures |Frame(p)| > 12 <==> p.payload.Some?
  {
    hide Crc;
    if Sendable(p) { FrameLength(p); }
  }

  /** A DATA frame without payload has no second checksum, but the decoder looks for one: it
      answers PKT_OK if and only if the four bytes behind the frame happen to be zero.  The
      fields are set in either case. */
  lemma EndOfTransferRoundTrip(p: Packet, tail: seq<byte>, p0: Packet, memory: bool)
    requires EndOfTransfer(p) && |tail| >= 4
    ensures
      var mem := Frame(p) + tail;
      && Readable(mem, |Frame(p)|)
      && var d := Decode(mem, |Frame(p)|, p0, memory);
        && d.status == (if tail[..4] == [0, 0, 0, 0] then PKT_OK else E_CRC)
        && SameContent(d.pkt, Into(p, p0))
  {
    hide Crc;
    var mem := Frame(p) + tail;
    FrameLayout(p, tail);
    FrameHeader(p, tail, p0);
    Byte0RoundTrip(p);
    var data := mem[11..];
    assert data == tail && data[..0] == [] && data[0..0 + 4] == tail[..4];
    CrcOfNothing();
    if FromNetwork(tail[..4]) == 0 { NetworkInjective(tail[..4], [0, 0, 0, 0]); }
  }

  // ---------- only frames are accepted ----------

  lemma RawBack(s: seq<byte>)
    requires |s| == 4
    ensures Raw(FromRaw(s)) == s
  {
    NetworkInjective(Network(FromRaw(s)), [s[3], s[2], s[1], s[0]]);
  }

  lemma NetworkBack(s: seq<byte>)
    requires |s| == 4
    ensures Network(FromNetwork(s)) == s
  {
    NetworkRoundTrip(FromNetwork(s));
    NetworkInjective(Network(FromNetwork(s)), s);
  }

  lemma Byte0Back(b: byte)
    ensures Pack(TypeOf(b), TrOf(b), WindowOf(b)) == b
  {
    var q: int, w: int := b / 32, b % 32;
    var t: int, r: int := q / 2, q % 2;
    assert b == 32 * q + w && q == 2 * t + r;
    Split64(t, 32 * r + w);
  }

  /** The length field of the buffer is written as pkt_encode writes it. */
  predicate SameLengthBytes(mem: seq<byte>, p: Packet)
    requires p.length < 0x8000 && |mem| >= 1
  {
    VaruintBytes(p.length) <= mem[1..]
  }

  lemma HeaderBack(mem: seq<byte>, p: Packet)
    requires HasHeader(mem) && p.length < 0x8000
    requires Byte0(p) == mem[0] && p.seqnum == mem[HeaderSize(mem) - 5]
    requires p.timestamp == FromRaw(mem[HeaderSize(mem) - 4..HeaderSize(mem)])
    ensures SameLengthBytes(mem, p) <==> Header(p) <= mem
    ensures SameLengthBytes(mem, p) ==> Header(p) == mem[..HeaderSize(mem)]
  {
    hide Raw, FromRaw;
    var v, h := VaruintBytes(p.length), HeaderSize(mem);
    RawBack(mem[h - 4..h]);
    if SameLengthBytes(mem, p) {
      assert mem[1] == mem[1..][0] == v[0];
      assert h == 6 + |v|;
      assert mem[1..h - 5] == v;
      assert mem[..h] == [mem[0]] + mem[1..h - 5] + [mem[h - 5]] + mem[h - 4..h];
    }
    if Header(p) <= mem {
      assert Header(p)[1..1 + |v|] == v;
      assert mem[1..1 + |v|] == v;
    }
  }

  /** A buffer that decodes to PKT_OK, with a packet that could have been sent, starts with the
      frame of that packet if its length field is written as pkt_encode writes it. */
  lemma AcceptedIsFrame(mem: seq<byte>, len: nat, memory: bool)
    requires Readable(mem, len) && Decode(mem, len, BLANK, memory).status == PKT_OK
    requires Sendable(Decode(mem, len, BLANK, memory).pkt)
    ensures
      var p := Decode(mem, len, BLANK, memory).pkt;
      Frame(p) <= mem <==> SameLengthBytes(mem, p)
  {
    hide Crc, Raw, FromRaw, Network, FromNetwork, Masked, Pack;
    var p := Decode(mem, len, BLANK, memory).pkt;
    var h := HeaderSize(mem);
    Byte0Back(mem[0]);
    HeaderBack(mem, p);
    if SameLengthBytes(mem, p) {
      NetworkBack(mem[h..h + 4]);
      if p.ptype == PTYPE_DATA {
        LengthBack(mem, p);
        BodyBack(mem, p);
      }
    }
  }

  lemma LengthBack(mem: seq<byte>, p: Packet)
    requires |mem| >= 3 && p.length < 0x8000 && SameLengthBytes(mem, p)
    ensures LengthField(mem) == p.length
  {
    var v := VaruintBytes(p.length);
    assert mem[1] == mem[1..][0] == v[0];
    if |v| == 2 { assert mem[2] == mem[1..][1] == v[1]; }
  }

  lemma BodyBack(mem: seq<byte>, p: Packet)
    requires HasHeader(mem) && Sendable(p) && p.ptype == PTYPE_DATA
    requires Header(p) == mem[..HeaderSize(mem)]
    requires Network(Crc(Masked(Header(p)))) == mem[HeaderSize(mem)..HeaderSize(mem) + 4]
    requires HeaderSize(mem) + 8 + p.length <= |mem|
    requires
      var data := mem[HeaderSize(mem) + 4..];
      p.payload.value == data[..p.length] && FromNetwork(data[p.length..p.length + 4]) == Crc(p.payload.value)
    ensures Frame(p) <= mem
  {
    hide Crc, Network, FromNetwork, Masked, Header, Frame, HeaderSize, PayloadPart;
    var h, n := HeaderSize(mem), p.length;
    var data := mem[h + 4..];
    NetworkBack(data[n..n + 4]);
    FrameOfData(p);
    FirstParts(mem, h, h + 4, n);
  }

  lemma FrameOfData(p: Packet)
    requires Sendable(p) && p.ptype == PTYPE_DATA
    ensures Frame(p) ==
      Header(p) + Network(Crc(Masked(Header(p)))) + (p.payload.value + Network(Crc(p.payload.value)))
  {
    hide Crc, Network, Masked, Header;
    assert p.payload.value[..p.length] == p.payload.value;
  }

  lemma FirstParts(m: seq<byte>, i: nat, j: nat, n: nat)
    requires i <= j && j + n + 4 <= |m|
    ensures m[..i] + m[i..j] + (m[j..][..n] + m[j..][n..n + 4]) <= m
  {
    var d := m[j..];
    assert m[..i] + m[i..j] == m[..j] && d[..n] + d[n..n + 4] == d[..n + 4];
    assert m[..j] + d[..n + 4] == m[..j + n + 4];
  }

  /** The length field as pkt_encode writes it: as short as possible, and 0 in anything but DATA;
      TR set in DATA only. */
  predicate EncoderForm(mem: seq<byte>)
    requires |mem| >= 3
  {
    if TypeOf(mem[0]) == PTYPE_DATA then mem[1] < 0x80 || LengthField(mem) >= 0x80
    else TrOf(mem[0]) == 0 && mem[1] == 0
  }

  /** The buffer starts with a frame; one without payload lies before the four zero bytes that
      the decoder takes for its second checksum. */
  predicate StartsWith(mem: seq<byte>, p: Packet) {
    || (Sendable(p) && Frame(p) <= mem)
    || (EndOfTransfer(p) && Frame(p) + [0, 0, 0, 0] <= mem)
  }

  /** Converse of RoundTrip.  A buffer is accepted by pkt_decode and of the encoder's form if and
      only if 11 bytes or more were received and it starts with the frame of some packet, and then
      it decodes to such a packet. */
  lemma FramesExactly(mem: seq<byte>, len: nat)
    requires Readable(mem, len)
    ensures
      var d := Decode(mem, len, BLANK, true);
      && (len >= 11 && (exists p :: StartsWith(mem, p)) <==> d.status == PKT_OK && |mem| >= 3 && EncoderForm(mem))
      && (d.status == PKT_OK && EncoderForm(mem) ==> StartsWith(mem, d.pkt))
  {
    DecodeStatus(mem, len, BLANK, true);
    hide Decode, StartsWith, EncoderForm, Reads;
    var d := Decode(mem, len, BLANK, true);
    if d.status == PKT_OK && EncoderForm(mem) { AcceptedStarts(mem, len); }
    if len >= 11 {
      if p :| StartsWith(mem, p) { FrameAccepted(mem, len, p); }
    }
  }

  lemma FrameAccepted(mem: seq<byte>, len: nat, p: Packet)
    requires len >= 11 && Readable(mem, len) && StartsWith(mem, p)
    ensures Decode(mem, len, BLANK, true).status == PKT_OK && EncoderForm(mem)
  {
    hide Crc, Decode, Frame, Reads, Header, Network, Masked, Raw, PayloadPart;
    var tail: seq<byte> := mem[|Frame(p)|..];
    assert mem == Frame(p) + tail;
    FrameLayout(p, tail);
    Byte0RoundTrip(p);
    HeaderLayout(p);
    assert mem[1] == Header(p)[1];
    if Sendable(p) {
      RoundTrip(p, tail, BLANK);
      FrameSize(p);
    } else {
      assert tail[..4] == mem[|Frame(p)|..|Frame(p)| + 4] == [0, 0, 0, 0];
      EndOfTransferRoundTrip(p, tail, BLANK, true);
      ProtocolFrame(p);
    }
    DecodeIgnoresLen(mem, |Frame(p)|, len, BLANK, true);
  }

  lemma FormOfLength(mem: seq<byte>, p: Packet)
    requires |mem| >= 3 && EncoderForm(mem) && p.length < 0x8000
    requires TypeOf(mem[0]) == PTYPE_DATA ==> p.length == LengthField(mem)
    requires TypeOf(mem[0]) != PTYPE_DATA ==> p.length == 0
    ensures SameLengthBytes(mem, p)
  {
  }

  lemma AcceptedEmpty(mem: seq<byte>, len: nat)
    requires len >= 11 && Readable(mem, len)
    requires Decode(mem, len, BLANK, true).status == PKT_OK && EncoderForm(mem)
    requires
      var p := Decode(mem, len, BLANK, true).pkt;
      p.ptype == PTYPE_DATA && p.length == 0
    ensures StartsWith(mem, Decode(mem, len, BLANK, true).pkt)
  {
    hide Crc, Raw, FromRaw, Network, FromNetwork, Masked, Pack;
    var p := Decode(mem, len, BLANK, true).pkt;
    Byte0Back(mem[0]);
    FormOfLength(mem, p);
    HeaderBack(mem, p);
    assert HeaderSize(mem) == 7;
    NetworkBack(mem[7..11]);
    var data: seq<byte> := mem[11..];
    assert data[..0] == [];
    CrcOfNothing();
    ZeroWord(data[0..4]);
    assert mem[..15] == mem[..7] + mem[7..11] + data[0..4];
  }

  lemma ZeroWord(s: seq<byte>)
    requires |s| == 4 && FromNetwork(s) == 0
    ensures s == [0, 0, 0, 0]
  {
    NetworkInjective(s, [0, 0, 0, 0]);
  }

  lemma AcceptedStarts(mem: seq<byte>, len: nat)
    requires len >= 11 && Readable(mem, len)
    requires Decode(mem, len, BLANK, true).status == PKT_OK && EncoderForm(mem)
    ensures StartsWith(mem, Decode(mem, len, BLANK, true).pkt)
  {
    hide Crc, Frame, Raw, FromRaw, Network, FromNetwork, Masked, Pack;
    var p := Decode(mem, len, BLANK, true).pkt;
    if p.ptype == PTYPE_DATA && p.length == 0 {
      AcceptedEmpty(mem, len);
    } else {
      assert Sendable(p);
      FormOfLength(mem, p);
      AcceptedIsFrame(mem, len, true);
    }
  }

  // ---------- other accepted forms ----------

  /** The header of `p` with the length field `n`, on two bytes however small. */
  function WideHeader(p: Packet, n: uint16): seq<byte>
    requires n < 0x8000
  {
    [Byte0(p), 0x80 + n / 0x100, n % 0x100, p.seqnum] + Raw(p.timestamp)
  }

  function WideFrame(p: Packet, n: uint16): seq<byte>
    requires n < 0x8000 && Encodable(p)
  {
    WideHeader(p, n) + Network(Crc(WideHeader(p, n))) + PayloadPart(p)
  }

  lemma WideLayout(p: Packet, n: uint16, tail: seq<byte>)
    requires n < 0x8000 && Encodable(p) && p.tr == 0
    ensures
      var mem := WideFrame(p, n) + tail;
      && |mem| >= 12 && mem[0] == Byte0(p) && mem[1] == 0x80 + n / 0x100
      && HasHeader(mem) && HeaderChecks(mem) && HeaderSize(mem) == 8 && LengthField(mem) == n
      && mem[12..] == PayloadPart(p) + tail
      && DecodeHeader(mem, DecodeByte0(mem[0], BLANK)) ==
           WithLength(p.(length := 0), n).(payload := None, crc2 := 0, crc1 := Crc(WideHeader(p, n)))
  {
    hide Crc, Network, Raw, FromRaw, FromNetwork, Pack, PayloadPart;
    var h := WideHeader(p, n);
    var mem := WideFrame(p, n) + tail;
    ThreeParts(h, Network(Crc(h)), PayloadPart(p) + tail, mem);
    assert forall i :: 0 <= i < 8 ==> mem[i] == mem[..8][i];
    assert mem[4..8] == mem[..8][4..8] == Raw(p.timestamp);
    NetworkRoundTrip(Crc(h));
    RawRoundTrip(p.timestamp);
    Byte0RoundTrip(p);
    assert Masked(h) == h;
  }

  /** pkt_decode also takes what pkt_encode never writes: DATA with its length on two bytes when
      one would do, and acknowledgments with any two-byte length field; the packet is the one
      sent, unless an acknowledgment is given a length from 1 to 512. */
  lemma WideAccepted(p: Packet, n: uint16, tail: seq<byte>)
    requires Sendable(p) && n < 0x8000
    requires p.ptype == PTYPE_DATA ==> n == p.length
    ensures
      var mem := WideFrame(p, n) + tail;
      && Readable(mem, |WideFrame(p, n)|)
      && var d := Decode(mem, |WideFrame(p, n)|, BLANK, true);
        && d.status == PKT_OK
        && (SameContent(d.pkt, p) <==> p.ptype == PTYPE_DATA || n == 0 || n > MAX_PAYLOAD_SIZE)
        && (Frame(p) <= mem <==> p.length == n >= 0x80)
  {
    hide Crc, Header, Frame;
    var mem := WideFrame(p, n) + tail;
    WideLayout(p, n, tail);
    Byte0RoundTrip(p);
    if p.ptype == PTYPE_DATA {
      var data: seq<byte> := p.payload.value;
      assert data[..p.length] == data;
      NetworkRoundTrip(Crc(data));
      ThreeParts(data, Network(Crc(data)), tail, mem[12..]);
    }
    WideIsFrame(p, n, tail);
  }

  lemma WideIsFrame(p: Packet, n: uint16, tail: seq<byte>)
    requires Sendable(p) && n < 0x8000 && (p.ptype == PTYPE_DATA ==> n == p.length)
    ensures Frame(p) <= WideFrame(p, n) + tail <==> p.length == n >= 0x80
  {
    hide Crc, Network, Raw, PayloadPart, Pack;
    var mem := WideFrame(p, n) + tail;
    if p.length == n >= 0x80 {
      Byte0RoundTrip(p);
      assert Header(p) == WideHeader(p, n) == Masked(WideHeader(p, n));
    } else {
      assert mem[1] == WideHeader(p, n)[1] >= 0x80;
    }
  }
}
