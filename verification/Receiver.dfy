/** The receiver of src/receiver.c: window bookkeeping modulo 256, and the path on which
    packets arrive in order.  On that path it turns the datagrams of an unbounded stream back
    into the stream. */
module Receiver {
  import opened Wrappers
  import opened Crc32
  import opened Packet
  import opened Codec
  import PacketBuffers

  const MAX_SEQ_NUM: int := 256
  const WINDOW_SIZE: int := 3

  /** is_in_window */
  predicate IsInWindow(seqnum: int, low: int, high: int) {
    if low <= high then low <= seqnum <= high
    else low <= seqnum < MAX_SEQ_NUM || 0 <= seqnum <= high
  }

  /** What has become of the transfer.  `Astray` means that the code left the path modelled
      here: a packet inside the window that is not the next one (the buffering branch), or
      bytes to be written from a payload that is not there. */
  datatype Progress = Running | Ended | Astray

  /** The variables of selective_repeat_receiver, the bytes written to the file, and the
      acknowledgments sent. */
  datatype State = State(progress: Progress, windowStart: int, windowEnd: int, lastAck: int,
                         output: seq<byte>, acks: seq<Packet>)

  const START: State := State(Running, 0, WINDOW_SIZE - 1, -1, [], [])

  /** The acknowledgment of create_ack_pkt in a new packet; `free` keeps its first value. */
  function AckOf(lastAck: int, p: Packet): Packet
    requires 0 <= lastAck < MAX_SEQ_NUM
  {
    BLANK.(ptype := PTYPE_ACK, window := WINDOW_SIZE, seqnum := lastAck, timestamp := p.timestamp)
  }

  /** fwrite writes `length` bytes of the payload. */
  predicate Writable(p: Packet) {
    if p.payload.Some? then |p.payload.value| >= p.length else p.length == 0
  }

  function PayloadBytes(p: Packet): seq<byte>
    requires Writable(p)
  {
    if p.payload.Some? then p.payload.value[..p.length] else []
  }

  /** One round of the receiver's loop, from the packet structure on. */
  function Handle(s: State, p: Packet): State {
    if !IsInWindow(p.seqnum, s.windowStart, s.windowEnd) || p.ptype != PTYPE_DATA then s
    else
      var next := (s.lastAck + 1) % MAX_SEQ_NUM;
      if p.seqnum != next || !Writable(p) then s.(progress := Astray)
      else
        State(if p.length == 0 then Ended else s.progress,
              (s.windowStart + 1) % MAX_SEQ_NUM, (s.windowEnd + 1) % MAX_SEQ_NUM, next,
              s.output + PayloadBytes(p), s.acks + [AckOf(next, p)])
  }

  // ---------- the window ----------

  /** The window seen from the n packets accepted so far: of the packets not after the next
      one, it admits the next one, and those 254 or 255 (modulo 256) before it. */
  lemma WindowMeaning(n: nat, t: nat)
    requires t <= n
    ensures IsInWindow(t % 256, n % 256, (n + 2) % 256) <==> (n - t) % 256 in {0, 254, 255}
  {
    var q, a := n / 256, n % 256;
    var r, b := t / 256, t % 256;
    assert n == 256 * q + a && t == 256 * r + b;
    if a >= 254 { Remainder(n + 2, q + 1, a - 254); } else { Remainder(n + 2, q, a + 2); }
    if a >= b { Remainder(n - t, q - r, a - b); } else { Remainder(n - t, q - r - 1, a - b + 256); }
  }

  lemma Remainder(n: int, q: int, r: int)
    requires n == 256 * q + r && 0 <= r < 256
    ensures n % 256 == r
  {
  }

  // ---------- the stream ----------

  /** The bookkeeping after n accepted packets of the stream `stream`, whose t-th element is the
      payload of the packet with true index t. */
  ghost predicate Follows(s: State, stream: seq<seq<byte>>, n: nat) {
    && n <= |stream|
    && s.windowStart == n % 256 && s.windowEnd == (n + 2) % 256
    && s.lastAck == (if n == 0 then -1 else (n - 1) % 256)
    && s.output == Concat(stream[..n])
    && |s.acks| == n && AcksCount(s.acks)
  }

  /** Acknowledgment k is a well-formed ACK packet for sequence number k modulo 256. */
  predicate AcksCount(acks: seq<Packet>) {
    forall k :: 0 <= k < |acks| ==> acks[k].ptype == PTYPE_ACK && acks[k].seqnum == k % 256 && Sendable(acks[k])
  }

  function Concat(parts: seq<seq<byte>>): seq<byte>
    decreases |parts|
  {
    if parts == [] then [] else Concat(parts[..|parts| - 1]) + parts[|parts| - 1]
  }

  /** A packet of the stream: DATA with true index t. */
  predicate Carries(p: Packet, stream: seq<seq<byte>>, t: nat) {
    && t < |stream| && |stream[t]| <= MAX_PAYLOAD_SIZE
    && p.ptype == PTYPE_DATA && p.tr == 0 && p.seqnum == t % 256
    && p.length == |stream[t]|
    && p.payload == (if stream[t] == [] then None else Some(stream[t]))
  }

  /** What was sent when a packet was accepted: one acknowledgment more, which repeats the timestamp
      of the packet and gives the size of the window. */
  predicate Acknowledges(before: seq<Packet>, after: seq<Packet>, seqnum: int, timestamp: uint32) {
    |after| == |before| + 1 && after[..|before|] == before &&
    var ack := after[|before|];
    && ack.ptype == 2 && ack.seqnum == seqnum && ack.window == 3 && ack.timestamp == timestamp
    && ack.tr == 0 && ack.length == 0 && ack.payload.None? && Sendable(ack)
  }

  /** One packet, not after the next one and at most 253 before it. */
  lemma HandleFollows(s: State, stream: seq<seq<byte>>, n: nat, p: Packet, t: nat)
    requires Follows(s, stream, n) && s.progress == Running && Carries(p, stream, t)
    requires t <= n <= t + 253
    ensures
      var r := Handle(s, p);
      && Follows(r, stream, if t == n then n + 1 else n)
      && r.progress == (if t == n && stream[t] == [] then Ended else Running)
      && (t != n ==> r == s)
      && (t == n ==> Acknowledges(s.acks, r.acks, n % 256, p.timestamp))
  {
    hide Follows, Handle, IsInWindow, Acknowledges;
    if stream[t] != [] { assert p.payload.value == stream[t]; }
    if t == n { AcceptNext(s, stream, n, p); } else { IgnoreEarlier(s, stream, n, p, t); }
  }

  lemma IgnoreEarlier(s: State, stream: seq<seq<byte>>, n: nat, p: Packet, t: nat)
    requires Follows(s, stream, n) && Carries(p, stream, t)
    requires t < n <= t + 253
    ensures Handle(s, p) == s
  {
    hide IsInWindow, Concat;
    WindowMeaning(n, t);
  }

  lemma AcceptNext(s: State, stream: seq<seq<byte>>, n: nat, p: Packet)
    requires Follows(s, stream, n) && s.progress == Running && Carries(p, stream, n) && Writable(p)
    ensures Follows(Handle(s, p), stream, n + 1)
    ensures Handle(s, p).progress == if stream[n] == [] then Ended else Running
    ensures Acknowledges(s.acks, Handle(s, p).acks, n % 256, p.timestamp)
  {
    hide IsInWindow, Concat, AcksCount, AckOf, Acknowledges;
    WindowMeaning(n, n);
    NextNumbers(n);
    assert p.seqnum == (s.lastAck + 1) % 256 == n % 256;
    NextPart(stream, n);
    assert PayloadBytes(p) == stream[n];
    NextAck(s.acks, n, p);
    AckAdded(s.acks, n % 256, p);
  }

  lemma Successor(n: nat)
    ensures (n % 256 + 1) % 256 == (n + 1) % 256
  {
    var q, r := n / 256, n % 256;
    assert n == 256 * q + r;
    if r == 255 { assert n + 1 == 256 * (q + 1); } else { assert n + 1 == 256 * q + (r + 1); }
  }

  lemma NextNumbers(n: nat)
    ensures (n % 256 + 1) % 256 == (n + 1) % 256
    ensures ((n + 2) % 256 + 1) % 256 == (n + 1 + 2) % 256
    ensures n > 0 ==> ((n - 1) % 256 + 1) % 256 == n % 256
  {
    Successor(n);
    Successor(n + 2);
    if n > 0 { Successor(n - 1); }
  }

  lemma NextAck(acks: seq<Packet>, n: nat, p: Packet)
    requires |acks| == n && AcksCount(acks)
    ensures AcksCount(acks + [AckOf(n % 256, p)])
  {
  }

  lemma AckAdded(acks: seq<Packet>, x: byte, p: Packet)
    ensures Acknowledges(acks, acks + [AckOf(x, p)], x, p.timestamp)
  {
  }

  lemma NextPart(stream: seq<seq<byte>>, n: nat)
    requires n < |stream|
    ensures Concat(stream[..n + 1]) == Concat(stream[..n]) + stream[n]
  {
    assert stream[..n + 1][..n] == stream[..n];
  }

  // ---------- datagrams ----------

  /** A datagram as it lies in the buffer of receive_pkt, and what recv returned as a size_t. */
  datatype Arrival = Arrival(mem: seq<byte>, len: nat)

  predicate Fits(a: Arrival) {
    |a.mem| == 528
  }

  /** The packet structure that receive_pkt leaves, its status ignored by the caller. */
  function Parsed(a: Arrival): Packet
    requires Fits(a)
  {
    ReadsStayInBuffer(a.mem, a.len);
    Decode(a.mem, a.len, BLANK, true).pkt
  }

  /** The timestamp field of a datagram, where it lies. */
  function StampField(a: Arrival): uint32
    requires Fits(a)
  {
    FromRaw(a.mem[HeaderSize(a.mem) - 4..HeaderSize(a.mem)])
  }

  function HandleArrival(s: State, a: Arrival): State
    requires Fits(a)
  {
    Handle(s, Parsed(a))
  }

  function Receive(s: State, arrivals: seq<Arrival>): State
    requires forall k :: 0 <= k < |arrivals| ==> Fits(arrivals[k])
    decreases |arrivals|
  {
    if arrivals == [] || s.progress != Running then s
    else Receive(HandleArrival(s, arrivals[0]), arrivals[1..])
  }

  /** The arrival is the frame of a packet of the stream with true index t. */
  ghost predicate FrameAt(a: Arrival, stream: seq<seq<byte>>, t: nat) {
    exists p :: FramesPacket(a, stream, t, p)
  }

  ghost predicate FramesPacket(a: Arrival, stream: seq<seq<byte>>, t: nat, p: Packet) {
    && Carries(p, stream, t)
    && a.len == |Frame(p)| && a.len <= |a.mem| && a.mem[..a.len] == Frame(p)
  }

  /** True indices that a receiver which has accepted n packets can be offered: never after the
      next one, and at most 253 before it. */
  predicate InReach(ts: seq<nat>, n: nat)
    decreases |ts|
  {
    ts == [] || (ts[0] <= n <= ts[0] + 253 && InReach(ts[1..], if ts[0] == n then n + 1 else n))
  }

  /** The arrivals are frames of the packets of the stream with the indices `ts`. */
  ghost predicate FramesOf(arrivals: seq<Arrival>, stream: seq<seq<byte>>, ts: seq<nat>) {
    |ts| == |arrivals| && forall k :: 0 <= k < |ts| ==> Fits(arrivals[k]) && FrameAt(arrivals[k], stream, ts[k])
  }

  /** How many packets a run accepts: those whose index is the number accepted before, up to
      the first empty one. */
  function Accepted(stream: seq<seq<byte>>, ts: seq<nat>, n: nat): nat
    decreases |ts|
  {
    if ts == [] then n
    else if ts[0] != n then Accepted(stream, ts[1..], n)
    else if n < |stream| && stream[n] == [] then n + 1
    else Accepted(stream, ts[1..], n + 1)
  }

  /** Where a number first occurs. */
  function First(ts: seq<nat>, t: nat): (i: nat)
    requires t in ts
    ensures i < |ts| && ts[i] == t && t !in ts[..i]
    decreases |ts|
  {
    if ts[0] == t then 0
    else
      var i := First(ts[1..], t);
      assert ts[..i + 1] == [ts[0]] + ts[1..][..i];
      i + 1
  }

  /** Acknowledgments from n on repeat the timestamps of the first arrivals with their numbers. */
  ghost predicate Echoes(acks: seq<Packet>, arrivals: seq<Arrival>, ts: seq<nat>, n: nat)
    requires |arrivals| == |ts| && forall k :: 0 <= k < |arrivals| ==> Fits(arrivals[k])
  {
    forall k :: n <= k < |acks| ==>
      k in ts && acks[k].window == 3 && acks[k].timestamp == StampField(arrivals[First(ts, k)])
  }

  /** Decoding the frame of a stream packet gives its content back, also when the packet is
      empty and the status is E_CRC. */
  lemma ParsedContent(a: Arrival, stream: seq<seq<byte>>, t: nat, p: Packet)
    requires Fits(a) && FramesPacket(a, stream, t, p)
    ensures Carries(Parsed(a), stream, t) && Parsed(a).timestamp == p.timestamp == StampField(a)
  {
    hide Decode, Frame, Reads, Raw, FromRaw;
    ReadsStayInBuffer(a.mem, a.len);
    var tail: seq<byte> := a.mem[a.len..];
    assert a.mem == Frame(p) + tail;
    FrameLayout(p, tail);
    RawRoundTrip(p.timestamp);
    if stream[t] == [] {
      ProtocolFrame(p);
      EndOfTransferRoundTrip(p, tail, BLANK, true);
    } else {
      FrameSize(p);
      RoundTrip(p, tail, BLANK);
    }
  }

  /** Refinement: if every datagram that arrives is the frame of a packet of the stream, not
      after the next one expected and at most 253 before it, then the receiver accepts the
      packets of the stream in order and once each; its output is their payloads, its window
      starts at the number accepted modulo 256, and acknowledgment k carries k modulo 256,
      through any number of wraps, and the timestamp of the first datagram with packet k.  It
      never enters the buffering branch, and it ends at the first empty packet. */
  lemma StreamReceived(arrivals: seq<Arrival>, stream: seq<seq<byte>>, ts: seq<nat>)
    requires FramesOf(arrivals, stream, ts) && InReach(ts, 0)
    ensures
      var r := Receive(START, arrivals);
      var n := Accepted(stream, ts, 0);
      && n <= |stream| && r.output == Concat(stream[..n])
      && r.windowStart == n % 256 && r.windowEnd == (n + 2) % 256
      && |r.acks| == n
      && (forall k :: 0 <= k < n ==>
            Sendable(r.acks[k]) && r.acks[k].ptype == PTYPE_ACK && r.acks[k].seqnum == k % 256)
      && Echoes(r.acks, arrivals, ts, 0)
      && r.progress == (if n > 0 && stream[n - 1] == [] then Ended else Running)
  {
    hide Receive, InReach, Accepted, Fits, FrameAt;
    assert Follows(START, stream, 0);
    hide Echoes;
    RunFollows(START, arrivals, stream, ts, 0);
    RunEchoes(START, arrivals, stream, ts, 0);
  }

  lemma {:induction false} RunFollows(s: State, arrivals: seq<Arrival>, stream: seq<seq<byte>>, ts: seq<nat>, n: nat)
    requires s.progress == Running && Follows(s, stream, n)
    requires FramesOf(arrivals, stream, ts) && InReach(ts, n)
    ensures
      var r := Receive(s, arrivals);
      var m := Accepted(stream, ts, n);
      && Follows(r, stream, m)
      && r.progress == (if m > n && stream[m - 1] == [] then Ended else Running)
    decreases |arrivals|
  {
    hide HandleArrival, Follows, FrameAt, Fits, Acknowledges, StampField;
    if arrivals == [] {
    } else {
      var k := if ts[0] == n then n + 1 else n;
      ArrivalFollows(s, arrivals[0], stream, n, ts[0]);
      var r := HandleArrival(s, arrivals[0]);
      if r.progress == Running {
        RunFollows(r, arrivals[1..], stream, ts[1..], k);
        AcceptedGrows(stream, ts[1..], k);
      }
    }
  }

  lemma {:induction false} RunEchoes(s: State, arrivals: seq<Arrival>, stream: seq<seq<byte>>, ts: seq<nat>, n: nat)
    requires s.progress == Running && Follows(s, stream, n)
    requires FramesOf(arrivals, stream, ts) && InReach(ts, n)
    ensures
      var acks := Receive(s, arrivals).acks;
      |s.acks| == n <= |acks| && acks[..n] == s.acks && Echoes(acks, arrivals, ts, n)
    decreases |arrivals|
  {
    hide HandleArrival, Follows, FrameAt, Fits, Acknowledges, StampField, Echoes;
    FollowsCounts(s, stream, n);
    if arrivals == [] {
      NoEcho(s.acks, arrivals, ts, n);
    } else {
      ArrivalFollows(s, arrivals[0], stream, n, ts[0]);
      var r := HandleArrival(s, arrivals[0]);
      var k := if ts[0] == n then n + 1 else n;
      FollowsCounts(r, stream, k);
      if r.progress == Running {
        RunEchoes(r, arrivals[1..], stream, ts[1..], k);
      } else {
        NoEcho(r.acks, arrivals[1..], ts[1..], k);
      }
      EchoesLater(s.acks, r.acks, Receive(r, arrivals[1..]).acks, arrivals, ts, n);
    }
  }

  lemma FollowsCounts(s: State, stream: seq<seq<byte>>, n: nat)
    requires Follows(s, stream, n)
    ensures |s.acks| == n <= |stream|
  {
  }

  lemma NoEcho(acks: seq<Packet>, arrivals: seq<Arrival>, ts: seq<nat>, n: nat)
    requires |arrivals| == |ts| && forall k :: 0 <= k < |arrivals| ==> Fits(arrivals[k])
    requires |acks| == n
    ensures Echoes(acks, arrivals, ts, n)
  {
  }

  /** One arrival more at the front: acknowledged, or not the one expected. */
  lemma EchoesLater(before: seq<Packet>, after: seq<Packet>, acks: seq<Packet>,
                    arrivals: seq<Arrival>, ts: seq<nat>, n: nat)
    requires |arrivals| == |ts| > 0 && forall k :: 0 <= k < |arrivals| ==> Fits(arrivals[k])
    requires |before| == n && ts[0] <= n
    requires if ts[0] == n then Acknowledges(before, after, n % 256, StampField(arrivals[0])) else after == before
    requires |after| <= |acks| && acks[..|after|] == after && Echoes(acks, arrivals[1..], ts[1..], |after|)
    ensures acks[..n] == before && Echoes(acks, arrivals, ts, n)
  {
    hide StampField;
    assert acks[..n] == acks[..|after|][..n];
    forall k | n <= k < |acks|
      ensures k in ts && acks[k].window == 3 && acks[k].timestamp == StampField(arrivals[First(ts, k)])
    {
      if k == ts[0] {
        assert acks[k] == after[n];
      } else {
        assert k in ts[1..];
        assert arrivals[1..][First(ts[1..], k)] == arrivals[First(ts, k)];
      }
    }
  }

  lemma ArrivalFollows(s: State, a: Arrival, stream: seq<seq<byte>>, n: nat, t: nat)
    requires Follows(s, stream, n) && s.progress == Running && Fits(a) && FrameAt(a, stream, t)
    requires t <= n <= t + 253
    ensures t < |stream|
    ensures
      var r := HandleArrival(s, a);
      && Follows(r, stream, if t == n then n + 1 else n)
      && r.progress == (if t == n && stream[t] == [] then Ended else Running)
      && (if t == n then Acknowledges(s.acks, r.acks, n % 256, StampField(a)) else r == s)
  {
    hide Parsed, Handle, Follows, StampField, Acknowledges;
    var p :| FramesPacket(a, stream, t, p);
    ParsedContent(a, stream, t, p);
    HandleFollows(s, stream, n, Parsed(a), t);
  }

  lemma {:induction false} AcceptedGrows(stream: seq<seq<byte>>, ts: seq<nat>, n: nat)
    ensures Accepted(stream, ts, n) >= n
    decreases |ts|
  {
    if ts == [] {
    } else {
      AcceptedGrows(stream, ts[1..], n);
      AcceptedGrows(stream, ts[1..], n + 1);
    }
  }

  // ---------- the loop ----------

  /** The local state of selective_repeat_receiver. */
  class Transfer {
    var progress: Progress
    var windowStart: int
    var windowEnd: int
    var lastAck: int
    var output: seq<byte>
    var acks: seq<Packet>

    ghost function Value(): State
      reads this
    {
      State(progress, windowStart, windowEnd, lastAck, output, acks)
    }

    constructor ()
      ensures Value() == START
    {
      progress := Running;
      windowStart, windowEnd, lastAck := 0, WINDOW_SIZE - 1, -1;
      output, acks := [], [];
    }

    /** The while loop, for the datagrams listed. */
    method ReceiveAll(arrivals: seq<Arrival>)
      requires forall k :: 0 <= k < |arrivals| ==> Fits(arrivals[k])
      modifies this
      ensures Value() == Receive(old(Value()), arrivals)
    {
      hide HandleArrival;
      var i := 0;
      assert arrivals[0..] == arrivals;
      while i < |arrivals| && progress == Running
        invariant 0 <= i <= |arrivals|
        invariant Receive(Value(), arrivals[i..]) == Receive(old(Value()), arrivals)
        decreases |arrivals| - i
      {
        assert arrivals[i..][0] == arrivals[i] && arrivals[i..][1..] == arrivals[i + 1..];
        ReceiveOne(arrivals[i]);
        i := i + 1;
      }
    }

    /** receive_pkt into a new structure, whose result does not tell failures apart. */
    method ReceiveOne(a: Arrival)
      requires Fits(a)
      modifies this
      ensures Value() == HandleArrival(old(Value()), a)
    {
      hide Decode, Handle;
      var buf := new byte[528];
      forall k | 0 <= k < 528 { buf[k] := a.mem[k]; }
      assert buf[..] == a.mem;
      var pkt := new Pkt();
      var rslt := PacketBuffers.ReceivePkt(buf, a.len, pkt, true);
      assert pkt.Value() == Parsed(a);
      HandlePacket(pkt);
    }

    method HandlePacket(pkt: Pkt)
      modifies this
      ensures Value() == Handle(old(Value()), pkt.Value())
    {
      ghost var p := pkt.Value();
      if IsInWindow(pkt.seqnum, windowStart, windowEnd) && pkt.ptype == PTYPE_DATA {
        if pkt.seqnum == (lastAck + 1) % MAX_SEQ_NUM {
          if !(if pkt.payload.Some? then |pkt.payload.value| >= pkt.length else pkt.length == 0) {
            progress := Astray;
            return;
          }
          output := output + if pkt.payload.Some? then pkt.payload.value[..pkt.length] else [];
          lastAck := (lastAck + 1) % MAX_SEQ_NUM;
          windowStart := (windowStart + 1) % MAX_SEQ_NUM;
          windowEnd := (windowEnd + 1) % MAX_SEQ_NUM;
          if pkt.length == 0 {
            progress := Ended;
          }
          Acknowledge(pkt.timestamp);
          assert acks == old(acks) + [AckOf(lastAck, p)];
        } else {
          progress := Astray;
        }
      }
    }

    method Acknowledge(timestamp: uint32)
      requires 0 <= lastAck < MAX_SEQ_NUM
      modifies this`acks
      ensures acks == old(acks) +
        [BLANK.(ptype := PTYPE_ACK, window := WINDOW_SIZE, seqnum := lastAck, timestamp := timestamp)]
    {
      var ack := new Pkt();
      var rslt := ack.CreateAck(WINDOW_SIZE, lastAck, timestamp);
      acks := acks + [Packet(ack.ptype, ack.tr, ack.window, ack.length, ack.seqnum, ack.timestamp,
                             ack.crc1, ack.payload, ack.crc2)];
    }
  }
}
