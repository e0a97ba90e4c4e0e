/** What simulate_link of linksim/link_sim.c does to the bytes of a packet, and what the
    checksums of the packet format make of it: the two halves of the repository together. */
module LinkFaults {
  import opened Crc32
  import opened Packet
  import opened Codec

  const MIN_PKT_LEN: nat := 10
  const MIN_PKT_PDATA_LEN: nat := 12

  /** The command-line parameters, unsigned in the source. */
  datatype Config = Config(delay: uint32, jitter: uint32, errRate: uint32, cutRate: uint32, lossRate: uint32)

  /** The results of the calls of rand(), whether or not each one is reached. */
  datatype Draws = Draws(loss: nat, cut: nat, err: nat, index: nat, delay: nat)

  /** RAND_PERCENT */
  function Percent(r: nat): nat { r % 101 }

  datatype Fate = Lost | Cut | Inverted(i: nat) | Intact

  function FateOf(cfg: Config, d: Draws, buf: seq<byte>): Fate
    requires |buf| > 0
  {
    if cfg.lossRate != 0 && Percent(d.loss) < cfg.lossRate then Lost
    else if cfg.cutRate != 0 && Percent(d.cut) < cfg.cutRate && |buf| > MIN_PKT_PDATA_LEN && buf[0] / 64 == 1 then Cut
    else if cfg.errRate != 0 && Percent(d.err) < cfg.errRate then Inverted(d.index % |buf|)
    else Intact
  }

  /** The fates that FateOf can return for a packet. */
  predicate Possible(fate: Fate, buf: seq<byte>) {
    match fate
    case Cut => |buf| > MIN_PKT_PDATA_LEN && buf[0] / 64 == 1
    case Inverted(i) => i < |buf|
    case _ => true
  }

  /** `b | 0x20` */
  function SetTrBit(b: byte): byte {
    ClearTr(b) + 32
  }

  /** The bytes that leave the simulator. */
  function Damaged(buf: seq<byte>, fate: Fate): seq<byte>
    requires Possible(fate, buf)
  {
    match fate
    case Lost => []
    case Cut => buf[..MIN_PKT_PDATA_LEN][0 := SetTrBit(buf[0])]
    case Inverted(i) => buf[i := 255 - buf[i]]
    case Intact => buf
  }

  lemma FatesArePossible(cfg: Config, d: Draws, buf: seq<byte>)
    requires |buf| > 0
    ensures Possible(FateOf(cfg, d, buf), buf)
  {
    var r := d.index % |buf|;
    assert 0 <= r < |buf|;
  }

  // ---------- the draws ----------

  /** The results of a draw from `n` numbers. */
  function Outcomes(n: nat): (s: set<nat>)
    ensures forall r: nat :: r in s <==> r < n
    ensures |s| == n
    decreases n
  {
    if n == 0 then {}
    else
      var t := Outcomes(n - 1);
      assert n - 1 !in t;
      t + {n - 1}
  }

  /** How many of the draws from 0 to 100 a rate covers. */
  function Covered(rate: uint32): nat {
    if rate < 101 then rate else 101
  }

  lemma CoveredBelow(rate: uint32, s: set<nat>)
    requires forall r: nat :: r in s <==> r in Outcomes(101) && r < rate
    ensures |s| == Covered(rate)
  {
    hide Outcomes;
    assert s == Outcomes(Covered(rate));
  }

  /** Only remainders modulo 101 count, and for the byte to invert modulo the length. */
  lemma DrawsCycle(cfg: Config, d: Draws, e: Draws, buf: seq<byte>)
    requires |buf| > 0 && d.index % |buf| == e.index % |buf|
    requires d.loss % 101 == e.loss % 101 && d.cut % 101 == e.cut % 101 && d.err % 101 == e.err % 101
    ensures FateOf(cfg, d, buf) == FateOf(cfg, e, buf)
  {
  }

  /** Of the 101 draws for the loss, as many lose the packet as the loss rate says, whatever the
      other draws. */
  lemma LossCount(cfg: Config, d: Draws, buf: seq<byte>)
    requires |buf| > 0
    ensures |set r | r in Outcomes(101) && FateOf(cfg, d.(loss := r), buf) == Lost| == Covered(cfg.lossRate)
  {
    hide Outcomes;
    CoveredBelow(cfg.lossRate, set r | r in Outcomes(101) && FateOf(cfg, d.(loss := r), buf) == Lost);
  }

  /** Of the draws for the truncation of a packet that is not lost, as many truncate it as the cut
      rate says if it is DATA of more than 12 bytes, and none otherwise. */
  lemma CutCount(cfg: Config, d: Draws, buf: seq<byte>)
    requires |buf| > 0 && FateOf(cfg, d, buf) != Lost
    ensures |set r | r in Outcomes(101) && FateOf(cfg, d.(cut := r), buf) == Cut| ==
            if |buf| > 12 && 64 <= buf[0] < 128 then Covered(cfg.cutRate) else 0
  {
    hide Outcomes;
    var s := set r | r in Outcomes(101) && FateOf(cfg, d.(cut := r), buf) == Cut;
    if |buf| > 12 && 64 <= buf[0] < 128 { CoveredBelow(cfg.cutRate, s); } else { assert s == {}; }
  }

  /** Of the draws for the corruption of a packet that is neither lost nor truncated, as many invert
      a byte as the error rate says; the others leave the packet alone. */
  lemma InvertedCount(cfg: Config, d: Draws, buf: seq<byte>)
    requires |buf| > 0 && FateOf(cfg, d, buf) != Lost && FateOf(cfg, d, buf) != Cut
    ensures |set r | r in Outcomes(101) && FateOf(cfg, d.(err := r), buf).Inverted?| == Covered(cfg.errRate)
    ensures FateOf(cfg, d, buf).Inverted? || FateOf(cfg, d, buf) == Intact
  {
    hide Outcomes;
    CoveredBelow(cfg.errRate, set r | r in Outcomes(101) && FateOf(cfg, d.(err := r), buf).Inverted?);
  }

  /** Which byte is inverted the last draw tells: every one is reached. */
  lemma EveryByteReached(cfg: Config, d: Draws, buf: seq<byte>, i: nat)
    requires i < |buf| && FateOf(cfg, d, buf).Inverted?
    ensures FateOf(cfg, d.(index := i), buf) == Inverted(i)
  {
    OwnRemainder(i, |buf|);
  }

  lemma OwnRemainder(i: nat, n: nat)
    requires i < n
    ensures i % n == i
  {
  }

  /** What truncation leaves: 12 bytes, the first with the bit 0x20 set and its others kept. */
  lemma CutLeaves(buf: seq<byte>)
    requires |buf| > 12 && 64 <= buf[0] < 128
    ensures Possible(Cut, buf)
    ensures
      var out := Damaged(buf, Cut);
      && |out| == 12 && out[1..] == buf[1..12]
      && out[0] / 64 == buf[0] / 64 && out[0] / 32 % 2 == 1 && out[0] % 32 == buf[0] % 32
  {
    var b: int := buf[0];
    assert b / 64 == b / 32 / 2;
  }

  /** A loss rate loses some packet unless it is 0, but every packet only above 100: draws are
      numbers from 0 to 100, and a rate of 100 lets the draw 100 pass. */
  lemma LossRates(cfg: Config, buf: seq<byte>)
    requires |buf| > 0
    ensures (exists d :: FateOf(cfg, d, buf) == Lost) <==> cfg.lossRate > 0
    ensures (forall d :: FateOf(cfg, d, buf) == Lost) <==> cfg.lossRate > 100
  {
    var lucky, unlucky := Draws(100, 0, 0, 0, 0), Draws(0, 0, 0, 0, 0);
    assert Percent(lucky.loss) == 100 && Percent(unlucky.loss) == 0;
    if cfg.lossRate > 0 { assert FateOf(cfg, unlucky, buf) == Lost; }
    if cfg.lossRate <= 100 { assert FateOf(cfg, lucky, buf) != Lost; }
  }

  // ---------- one inverted byte ----------

  lemma HeaderByteChanged(mem: seq<byte>, i: nat, b: byte)
    requires HasHeader(mem) && i < HeaderSize(mem) && i != 1 && HeaderChecks(mem)
    requires i == 0 ==> ClearTr(b) != ClearTr(mem[0])
    requires i != 0 ==> b != mem[i]
    ensures !HeaderChecks(mem[i := b])
  {
    hide Crc;
    var h := HeaderSize(mem);
    var m := mem[i := b];
    var c := if i == 0 then ClearTr(b) else b;
    assert m[1] == mem[1] && HeaderSize(m) == h;
    assert m[h..h + 4] == mem[h..h + 4];
    assert Masked(m[..h]) == Masked(mem[..h])[i := c];
    ByteDetected(Masked(mem[..h]), i, c);
  }

  lemma HeaderChecksumChanged(mem: seq<byte>, i: nat, b: byte)
    requires HasHeader(mem) && HeaderSize(mem) <= i < HeaderSize(mem) + 4 && b != mem[i] && HeaderChecks(mem)
    ensures !HeaderChecks(mem[i := b])
  {
    hide Crc;
    var h := HeaderSize(mem);
    var m := mem[i := b];
    assert m[..h] == mem[..h];
    assert m[h..h + 4] == mem[h..h + 4][i - h := b];
    ChecksumByteChanged(mem[h..h + 4], i - h, b);
  }

  lemma ChecksumByteChanged(c: seq<byte>, i: nat, b: byte)
    requires |c| == 4 && i < 4 && b != c[i]
    ensures FromNetwork(c[i := b]) != FromNetwork(c)
  {
    assert c[i := b][i] != c[i];
    if FromNetwork(c[i := b]) == FromNetwork(c) { NetworkInjective(c[i := b], c); }
  }

  /** A changed byte in the payload or its checksum leaves the header alone and fails the
      second check. */
  lemma BodyByteChanged(mem: seq<byte>, i: nat, b: byte, p: Packet, q: Packet, memory: bool)
    requires HasHeader(mem) && HeaderChecks(mem) && CarriesPayload(mem[0]) && Reads(mem) <= |mem|
    requires LengthField(mem) <= MAX_PAYLOAD_SIZE
    requires HeaderSize(mem) + 4 <= i < HeaderSize(mem) + 8 + LengthField(mem) && b != mem[i]
    requires DecodePayload(mem, p, true).status == PKT_OK
    ensures
      var m := mem[i := b];
      && HeaderChecks(m) && Reads(m) == Reads(mem)
      && DecodePayload(m, q, memory).status == if memory || LengthField(m) == 0 then E_CRC else E_NOMEM
  {
    hide Crc;
    var h, n := HeaderSize(mem), LengthField(mem);
    var m := mem[i := b];
    assert m[..h] == mem[..h] && m[h..h + 4] == mem[h..h + 4];
    var x: seq<byte>, y: seq<byte> := mem[h + 4..], m[h + 4..];
    var j := i - (h + 4);
    assert y == x[j := b];
    var data: seq<byte>, crc: seq<byte> := x[..n], x[n..n + 4];
    if j < n {
      assert y[..n] == data[j := b] && y[n..n + 4] == crc;
      ByteDetected(data, j, b);
    } else {
      assert y[..n] == data && y[n..n + 4] == crc[j - n := b];
      ChecksumByteChanged(crc, j - n, b);
    }
  }

  /** Where the receiver's decoder meets the frame of `p` after the link. */
  function Arrived(p: Packet, fate: Fate, tail: seq<byte>): seq<byte>
    requires Protocol(p) && Possible(fate, Frame(p))
  {
    Damaged(Frame(p), fate) + tail
  }

  lemma DecodedType(m: seq<byte>, len: nat, p: Packet, memory: bool)
    requires len >= 11 && Readable(m, len)
    ensures Decode(m, len, p, memory).pkt.ptype == TypeOf(m[0])
  {
    hide HeaderChecks, FromNetwork, FromRaw, Crc, TypeOf, TrOf, Reads;
  }

  lemma InvertedByte(p: Packet, i: nat, tail: seq<byte>)
    requires Protocol(p) && i < |Frame(p)|
    ensures
      var mem := Frame(p) + tail;
      |mem| >= 11 && Arrived(p, Inverted(i), tail) == mem[i := 255 - mem[i]]
  {
    hide Frame;
    ProtocolFrame(p);
  }

  lemma TruncatedByte(p: Packet)
    requires p.ptype == PTYPE_DATA
    ensures DecodeByte0(SetTrBit(Byte0(p)), p) == p.(tr := 1)
  {
    Byte0RoundTrip(p);
    hide TypeOf, TrOf, WindowOf;
    Unpacked(SetTrBit(Byte0(p)), p.ptype, 1, p.window);
  }

  lemma CutRejected(p: Packet, tail: seq<byte>, p0: Packet, memory: bool)
    requires Protocol(p) && Possible(Cut, Frame(p))
    requires Readable(Arrived(p, Cut, tail), MIN_PKT_PDATA_LEN)
    ensures Decode(Arrived(p, Cut, tail), MIN_PKT_PDATA_LEN, p0, memory) ==
            Decoded(E_TR, p0.(ptype := PTYPE_DATA, tr := 1, window := p.window))
  {
    hide Crc, Frame, Decode, Reads, Header, Network, Masked, Raw, PayloadPart, Pack, SetTrBit, HeaderChecks;
    var m := Arrived(p, Cut, tail);
    FrameLayout(p, []);
    assert Frame(p) + [] == Frame(p);
    Byte0RoundTrip(p);
    assert m[0] == SetTrBit(Byte0(p));
    TruncatedByte(p);
    DecodeCases(m, MIN_PKT_PDATA_LEN, p0, memory);
  }

  lemma InvertedType(p: Packet)
    requires p.tr == 0
    ensures
      var b := 255 - Byte0(p);
      TypeOf(b) == 3 - p.ptype && TrOf(b) == 1 && ClearTr(b) != ClearTr(Byte0(p))
  {
    Unpacked(255 - Byte0(p), 3 - p.ptype, 1, 31 - p.window);
    Byte0RoundTrip(p);
    hide TypeOf, TrOf;
  }

  /** Byte 0 inverted: the type becomes 3 minus the type and TR is set. */
  lemma TypeByteRejected(p: Packet, tail: seq<byte>, p0: Packet, memory: bool)
    requires Protocol(p)
    requires Readable(Arrived(p, Inverted(0), tail), |Frame(p)|)
    ensures Decode(Arrived(p, Inverted(0), tail), |Frame(p)|, p0, memory).pkt.ptype == 3 - p.ptype
    ensures Decode(Arrived(p, Inverted(0), tail), |Frame(p)|, p0, memory).status ==
            if p.ptype == PTYPE_DATA then E_CRC else if p.ptype == PTYPE_ACK then E_TR else E_TYPE
  {
    hide Crc, Masked, Network, Raw, PayloadPart, Pack, TypeOf, TrOf, ClearTr;
    hide Header, Frame, Decode, Reads, Arrived, HeaderChecks, DecodeHeader, DecodePayload;
    ProtocolFrame(p);
    FrameLayout(p, tail);
    InvertedByte(p, 0, tail);
    var mem, m := Frame(p) + tail, Arrived(p, Inverted(0), tail);
    var b := 255 - mem[0];
    Byte0RoundTrip(p);
    InvertedType(p);
    DecodeCases(m, |Frame(p)|, p0, memory);
    DecodedType(m, |Frame(p)|, p0, memory);
    if p.ptype == PTYPE_DATA {
      FrameHeader(p, tail, p0);
      HeaderByteChanged(mem, 0, b);
    }
  }

  lemma HeaderByteRejected(p: Packet, i: nat, tail: seq<byte>, p0: Packet, memory: bool)
    requires Protocol(p) && 2 <= i < |Header(p)| + 4
    requires i < |Frame(p)| && Readable(Arrived(p, Inverted(i), tail), |Frame(p)|)
    ensures
      var m := Arrived(p, Inverted(i), tail);
      && HasHeader(m)
      && Decode(m, |Frame(p)|, p0, memory) == Decoded(E_CRC, DecodeHeader(m, DecodeByte0(m[0], p0)))
  {
    hide Crc, Masked, Network, Raw, PayloadPart;
    hide Header, Frame, Decode, Reads, Arrived, HeaderChecks, DecodeHeader, DecodePayload;
    ProtocolFrame(p);
    FrameLayout(p, tail);
    InvertedByte(p, i, tail);
    var mem, m := Frame(p) + tail, Arrived(p, Inverted(i), tail);
    var b := 255 - mem[i];
    Byte0RoundTrip(p);
    DecodeCases(m, |Frame(p)|, p0, memory);
    FrameHeader(p, tail, p0);
    if i < |Header(p)| { HeaderByteChanged(mem, i, b); } else { HeaderChecksumChanged(mem, i, b); }
  }

  lemma BodyByteRejected(p: Packet, i: nat, tail: seq<byte>, p0: Packet, memory: bool)
    requires Sendable(p) && |Header(p)| + 4 <= i < |Frame(p)|
    requires Readable(Arrived(p, Inverted(i), tail), |Frame(p)|)
    ensures Decode(Arrived(p, Inverted(i), tail), |Frame(p)|, p0, memory).status ==
            if memory then E_CRC else E_NOMEM
  {
    hide Crc, Masked, Network, Raw, PayloadPart;
    hide Header, Frame, Decode, Arrived, HeaderChecks, DecodeHeader, DecodePayload;
    FrameSize(p);
    FrameLength(p);
    FrameLayout(p, tail);
    InvertedByte(p, i, tail);
    var mem, m := Frame(p) + tail, Arrived(p, Inverted(i), tail);
    var b := 255 - mem[i];
    DecodeCases(m, |Frame(p)|, p0, memory);
    Byte0RoundTrip(p);
    FrameHeader(p, tail, p0);
    PayloadRoundTrip(p, tail, DecodeHeader(mem, DecodeByte0(mem[0], p0)));
    BodyByteChanged(mem, i, b, DecodeHeader(mem, DecodeByte0(mem[0], p0)),
                    DecodeHeader(m, DecodeByte0(m[0], p0)), memory);
  }

  /** Without memory for the payload the decoder either fails or does what it does with memory. */
  lemma NoMemory(mem: seq<byte>, len: nat, p: Packet, memory: bool)
    requires Readable(mem, len)
    ensures Decode(mem, len, p, memory).status == PKT_OK ==>
              Decode(mem, len, p, memory) == Decode(mem, len, p, true)
  {
    hide Crc;
  }
}
