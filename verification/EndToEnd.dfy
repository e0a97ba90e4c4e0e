/** The simulator before the decoder, over whole runs: whatever the link loses, truncates, corrupts
    and delays, what is accepted was sent, packets forged by corruption apart. */
module EndToEnd {
  import opened Crc32
  import opened Packet
  import opened Codec
  import opened LinkFaults
  import opened Reframing
  import opened Timeval
  import opened Proxy
  import opened ProxyRuns
  import opened Provenance
  import opened ReframingWitness

  predicate FrameOf(buf: seq<byte>, sent: set<Packet>, p: Packet) {
    p in sent && Protocol(p) && buf == Frame(p)
  }

  /** Some packet that is not lost can have a byte inverted. */
  predicate Corrupts(cfg: Config) {
    cfg.errRate > 0 && cfg.lossRate <= 100
  }

  lemma InvertedIfCorrupts(cfg: Config, d: Draws, buf: seq<byte>)
    requires |buf| > 0
    ensures FateOf(cfg, d, buf).Inverted? ==> Corrupts(cfg)
  {
  }

  /** `buf` is what the link makes of the frame of `p`. */
  predicate Remains(cfg: Config, buf: seq<byte>, sent: set<Packet>, p: Packet, fate: Fate) {
    && p in sent && Protocol(p) && fate != Lost && Possible(fate, Frame(p)) && buf == Damaged(Frame(p), fate)
    && (fate.Inverted? ==> Corrupts(cfg))
  }

  ghost predicate Accountable(cfg: Config, buf: seq<byte>, sent: set<Packet>) {
    exists p, fate :: Remains(cfg, buf, sent, p, fate)
  }

  /** What arrives at the link are frames of packets in `sent`. */
  ghost predicate HonestInput(input: Input, sent: set<Packet>) {
    input.Woken? && (input.incoming.Relayed? || input.incoming.Simulated?) ==>
      exists p :: FrameOf(input.incoming.buf, sent, p)
  }

  /** Only frames of packets in `sent` go in. */
  ghost predicate Honest(inputs: seq<Input>, sent: set<Packet>) {
    forall k :: 0 <= k < |inputs| ==> HonestInput(inputs[k], sent)
  }

  lemma YieldAccountable(cfg: Config, input: Input, sent: set<Packet>, d: Datagram)
    requires HonestInput(input, sent) && Yields(cfg, input, d)
    ensures Accountable(cfg, d.buf, sent)
  {
    hide Frame, FateOf, Damaged, Corrupts;
    var buf := input.incoming.buf;
    var p :| FrameOf(buf, sent, p);
    DamagedIntact(buf);
    if input.incoming.Relayed? {
      assert Remains(cfg, d.buf, sent, p, Intact);
    } else {
      FatesArePossible(cfg, input.incoming.draws, buf);
      InvertedIfCorrupts(cfg, input.incoming.draws, buf);
      assert Remains(cfg, d.buf, sent, p, FateOf(cfg, input.incoming.draws, buf));
    }
  }

  lemma DamagedIntact(buf: seq<byte>)
    ensures Damaged(buf, Intact) == buf
  {
  }

  lemma LeavesAccountable(cfg: Config, clock: Timeval, inputs: seq<Input>, s: State, sent: set<Packet>, d: Datagram)
    requires DelayDefined(cfg) && Reached(cfg, clock, inputs, s) && Honest(inputs, sent) && Leaves(s, d)
    ensures Accountable(cfg, d.buf, sent)
  {
    hide Reached, Leaves, DelayDefined, Yields, HonestInput, Accountable;
    LeavesFrom(cfg, clock, inputs, s, d);
    var k :| 0 <= k < |inputs| && Yields(cfg, inputs[k], d);
    YieldAccountable(cfg, inputs[k], sent, d);
  }

  /** `buf` is the frame of `p` with byte 1 inverted, and passes for another packet. */
  predicate ForgedFrom(buf: seq<byte>, p: Packet, tail: seq<byte>, memory: bool) {
    Protocol(p) && |Frame(p)| > 1 && buf == Damaged(Frame(p), Inverted(1)) && Reframes(p, tail, memory)
  }

  /** Integrity of whole runs: if only frames of packets in `sent` go in, then a datagram that
      comes out, received in a buffer with anything behind it, decodes to PKT_OK only as one of
      the packets sent, or, on a link that corrupts, as one forged from them by an inverted byte 1. */
  lemma RunIntegrity(cfg: Config, clock: Timeval, inputs: seq<Input>, s: State, sent: set<Packet>,
                     out: Datagram, tail: seq<byte>, memory: bool)
    requires DelayDefined(cfg) && Reached(cfg, clock, inputs, s) && Honest(inputs, sent)
    requires Leaves(s, out) && Readable(out.buf + tail, |out.buf|)
    ensures
      var d := Decode(out.buf + tail, |out.buf|, BLANK, memory);
      d.status == PKT_OK ==>
        || (exists p :: p in sent && SameContent(d.pkt, p))
        || (Corrupts(cfg) && exists p :: p in sent && ForgedFrom(out.buf, p, tail, memory))
  {
    hide Frame, Decode, Reached, DelayDefined, Honest, Reads, Damaged, Reframes, Leaves;
    var buf := out.buf;
    LeavesAccountable(cfg, clock, inputs, s, sent, out);
    var p, fate :| Remains(cfg, buf, sent, p, fate);
    IntegrityExact(p, fate, tail, memory);
    if fate == Inverted(1) && Reframes(p, tail, memory) {
      assert ForgedFrom(buf, p, tail, memory);
    }
  }

  // ---------- the exception occurs ----------

  /** The acknowledgment of ReframingWitness comes in, and its byte 1 is drawn for inversion; then
      time passes. */
  function UnluckyRun(clock: Timeval): seq<Input> {
    Through(clock, Frame(ACK), UNLUCKY)
  }

  const UNLUCKY: Draws := Draws(100, 100, 0, 1, 0)

  lemma AckFate(cfg: Config)
    requires Corrupts(cfg)
    ensures |Frame(ACK)| == 11 && FateOf(cfg, UNLUCKY, Frame(ACK)) == Inverted(1)
  {
    hide Frame, Header, Network, Crc, Raw, Masked, PayloadPart;
    ProtocolFrame(ACK);
    FrameLayout(ACK, []);
    assert Frame(ACK) + [] == Frame(ACK);
    Byte0RoundTrip(ACK);
  }

  lemma AckArrives(tail: seq<byte>)
    requires tail != []
    ensures |Frame(ACK)| > 1 && DamagedAck(tail) == Damaged(Frame(ACK), Inverted(1)) + tail
  {
    hide Frame, Damaged;
    ProtocolFrame(ACK);
  }

  lemma UnluckyHonest(clock: Timeval)
    ensures Honest(UnluckyRun(clock), {ACK})
  {
    hide Frame;
    assert FrameOf(Frame(ACK), {ACK}, ACK);
  }

  /** On every link that corrupts, whatever its delay, there is a run in which only this
      acknowledgment, for packet 0, is sent, and one for packet 115 comes out and is accepted. */
  lemma ForgedRun(cfg: Config, clock: Timeval, tail: seq<byte>, memory: bool)
    requires DelayDefined(cfg) && Corrupts(cfg) && Normal(clock) && tail != [] && tail[0] == 0
    ensures Honest(UnluckyRun(clock), {ACK})
    ensures
      var s := Run(cfg, Start(clock), UnluckyRun(clock)).state;
      Reached(cfg, clock, UnluckyRun(clock), s) && Leaves(s, Datagram(Damaged(Frame(ACK), Inverted(1)), 1))
    ensures
      var d := Decode(DamagedAck(tail), 11, BLANK, memory);
      && DamagedAck(tail) == Damaged(Frame(ACK), Inverted(1)) + tail
      && d.status == PKT_OK && d.pkt.seqnum == 115 != ACK.seqnum
  {
    hide Frame, Damaged, Decode, Reads, Run, Reached, Arrived, Reframes, DelayDefined, Corrupts, Honest;
    AckReadable(tail);
    AckForged(tail, memory);
    UnluckyHonest(clock);
    AckFate(cfg);
    GoesThrough(cfg, clock, Frame(ACK), UNLUCKY);
    AckArrives(tail);
  }

  // ---------- exactly when ----------

  /** Received in this buffer, the datagram is accepted only as one of the packets sent. */
  ghost predicate AcceptedAsSent(mem: seq<byte>, len: nat, memory: bool, sent: set<Packet>)
    requires Readable(mem, len)
  {
    var d := Decode(mem, len, BLANK, memory);
    d.status == PKT_OK ==> exists p :: p in sent && SameContent(d.pkt, p)
  }

  /** Whatever has come out and lies behind it in the buffer. */
  ghost predicate Sound(s: State, sent: set<Packet>) {
    forall d: Datagram, tail, memory :: Leaves(s, d) && Readable(d.buf + tail, |d.buf|) ==>
      AcceptedAsSent(d.buf + tail, |d.buf|, memory, sent)
  }

  /** Every honest run over a link is sound if and only if the link does not corrupt. */
  lemma SoundExactly(cfg: Config)
    requires DelayDefined(cfg)
    ensures (forall clock, inputs, s, sent :: Reached(cfg, clock, inputs, s) && Honest(inputs, sent) ==> Sound(s, sent))
            <==> cfg.errRate == 0 || cfg.lossRate > 100
  {
    if Corrupts(cfg) {
      var clock, inputs, s := UnsoundRun(cfg);
      hide Reached, Honest, Sound, DelayDefined;
      assert !Sound(s, {ACK});
    } else {
      hide Reached, Honest, Sound, DelayDefined;
      forall clock, inputs, s, sent | Reached(cfg, clock, inputs, s) && Honest(inputs, sent) ensures Sound(s, sent) {
        SoundRun(cfg, clock, inputs, s, sent);
      }
    }
  }

  lemma UnsoundRun(cfg: Config) returns (clock: Timeval, inputs: seq<Input>, s: State)
    requires DelayDefined(cfg) && Corrupts(cfg)
    ensures Reached(cfg, clock, inputs, s) && Honest(inputs, {ACK}) && !Sound(s, {ACK})
  {
    hide Reached, Honest, Sound, DelayDefined, Corrupts, Run, Leaves, Frame, Damaged, Decode, DamagedAck, UnluckyRun;
    clock := Timeval(0, 0);
    inputs := UnluckyRun(clock);
    s := Run(cfg, Start(clock), inputs).state;
    ForgedRun(cfg, clock, [0], true);
    SizeKept();
    UnsoundWitness(s);
  }

  lemma SoundRun(cfg: Config, clock: Timeval, inputs: seq<Input>, s: State, sent: set<Packet>)
    requires DelayDefined(cfg) && !Corrupts(cfg) && Reached(cfg, clock, inputs, s) && Honest(inputs, sent)
    ensures Sound(s, sent)
  {
    hide Reached, Honest, DelayDefined, Decode, Corrupts, Reads, Leaves, ForgedFrom;
    forall d: Datagram, tail, memory | Leaves(s, d) && Readable(d.buf + tail, |d.buf|)
      ensures AcceptedAsSent(d.buf + tail, |d.buf|, memory, sent)
    {
      RunIntegrity(cfg, clock, inputs, s, sent, d, tail, memory);
    }
  }

  lemma UnsoundWitness(s: State)
    requires |Frame(ACK)| > 1 && Leaves(s, Datagram(Damaged(Frame(ACK), Inverted(1)), 1))
    requires DamagedAck([0]) == Damaged(Frame(ACK), Inverted(1)) + [0]
    requires Decode(DamagedAck([0]), 11, BLANK, true).status == PKT_OK
    requires Decode(DamagedAck([0]), 11, BLANK, true).pkt.seqnum == 115
    ensures !Sound(s, {ACK})
  {
    hide Frame, Decode, Damaged, Reads, Leaves;
    var d := Datagram(Damaged(Frame(ACK), Inverted(1)), 1);
    AckReadable([0]);
    SizeKept();
    assert !AcceptedAsSent(d.buf + [0], |d.buf|, true, {ACK});
  }

  lemma SizeKept()
    ensures |Frame(ACK)| == 11 && |Damaged(Frame(ACK), Inverted(1))| == 11
  {
    hide Frame;
    ProtocolFrame(ACK);
  }
}
