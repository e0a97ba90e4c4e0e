/** linksim/link_sim.c as it runs: an object that owns the priority queue, the cached clock and
    the static timeout, and whose methods change them in place.  Each is proved to do what its
    counterpart in Proxy.dfy says of the value of the object. */
module LinkSim {
  import opened Wrappers
  import opened Crc32
  import opened Heap
  import opened MinQueue
  import opened LinkFaults
  import opened Timeval
  import opened Proxy
  import opened Addressing

  const MAX_PKT_LEN: nat := 528

  class LinkSim {
    const cfg: Config
    const pktQueue: MinQueue<Slot>
    const destAddr: int
    const linkDirection: nat
    var srcAddr: Option<int>
    var lastClock: Timeval
    var timeout: Timeval
    var forwarded: seq<Datagram>
    // What has happened so far.
    ghost var accepted: seq<Slot>
    ghost var written: seq<Slot>
    ghost var writtenAt: seq<Timeval>

    ghost predicate Valid()
      reads this, pktQueue, pktQueue.e
    {
      DelayDefined(cfg) && pktQueue.Valid() && pktQueue.gt == SlotGt
    }

    ghost function Value(): State
      requires Valid()
      reads this, pktQueue, pktQueue.e
    {
      State(lastClock, pktQueue.Contents(), pktQueue.alloc, accepted, written, writtenAt, forwarded)
    }

    ghost function Who(): Parties
      reads this
    {
      Parties(destAddr, srcAddr, linkDirection)
    }

    /** The set-up of proxy_traffic, and the first reading of the clock in proxy_loop. */
    constructor (cfg: Config, dest: int, link: nat, clock: Timeval)
      requires DelayDefined(cfg)
      ensures Valid() && fresh(pktQueue) && fresh(pktQueue.e) && this.cfg == cfg
      ensures Value() == Start(clock) && Who() == Parties(dest, None, link)
    {
      this.cfg := cfg;
      destAddr, linkDirection, srcAddr := dest, link, None;
      pktQueue := new MinQueue<Slot>(SlotGt);
      lastClock := clock;
      timeout := Timeval(0, 0);
      forwarded, accepted, written, writtenAt := [], [], [], [];
    }

    /** deliver_delayed_pkt; false stands for EXIT_FAILURE. */
    method DeliverDelayed(sends: seq<SendResult>) returns (ok: bool)
      requires Valid()
      modifies this`written, this`writtenAt, pktQueue, pktQueue.e
      ensures Valid() && pktQueue.e == old(pktQueue.e)
      ensures Outcome(Value(), ok) == Delivered(old(Value()), sends)
    {
      hide Drain, Popped, HeapOrder, StrictWeakOrder, IsMinimal, Log2, Delivered;
      var p := pktQueue.Peek();
      var left := sends;
      while p.Some? && Gt(lastClock, p.value.ts)
        invariant Valid() && pktQueue.e == old(pktQueue.e)
        invariant p == if pktQueue.size == 0 then None else Some(pktQueue.Contents()[0])
        invariant Delivered(Value(), left) == Delivered(old(Value()), sends)
        decreases pktQueue.size
      {
        DeliveredUnrolls(Value(), left);
        var result := FirstResult(left);
        left := LaterResults(left);
        if result == Again {
          return true;
        } else if result == Broken {
          return false;
        }
        written, writtenAt := written + [p.value], writtenAt + [lastClock];
        var _ := pktQueue.Pop();
        p := pktQueue.Peek();
      }
      DeliveredStops(Value(), left);
      return true;
    }

    /** simulate_link on the first `len` bytes of `buf`, which it may damage in place. */
    method SimulateLink(buf: array<byte>, len: nat, direction: int, draws: Draws,
                        slotMemory: bool, queueMemory: bool, sent: bool) returns (ok: bool)
      requires Valid() && 0 < len <= buf.Length
      modifies this`forwarded, this`accepted, pktQueue, pktQueue.e, buf
      ensures Valid() && (pktQueue.e == old(pktQueue.e) || fresh(pktQueue.e))
      ensures Outcome(Value(), ok) ==
        Proxy.SimulateLink(cfg, old(Value()), old(buf[..len]), direction, draws, slotMemory, queueMemory, sent)
    {
      hide AppliedDelay, Pushed, HeapOrder, StrictWeakOrder, IsMinimal, Log2;
      ghost var s := Value();
      ghost var was := buf[..len];
      FatesArePossible(cfg, draws, was);
      if cfg.lossRate != 0 && Percent(draws.loss) < cfg.lossRate {
        return true;
      }
      var n := Damage(buf, len, draws);
      ghost var data := Damaged(was, FateOf(cfg, draws, was));
      assert buf[..n] == data;
      if cfg.delay > 0 {
        var applied := AppliedDelay(cfg, draws.delay);
        if !slotMemory {
          return false;
        }
        var ts := Timeval(lastClock.sec + applied / 1000, lastClock.usec + applied % 1000 * 1000);
        var slot := Slot(ts, direction, buf[..n], lastClock, applied);
        assert slot == NewSlot(cfg, lastClock, data, direction, draws.delay);
        var status, _ := pktQueue.Push(slot, queueMemory);
        if status != 0 {
          return false;
        }
        accepted := accepted + [slot];
      } else {
        if !sent {
          return false;
        }
        forwarded := forwarded + [Datagram(buf[..n], direction)];
      }
      return true;
    }

    /** The truncation and corruption of simulate_link; returns the new length. */
    method Damage(buf: array<byte>, len: nat, draws: Draws) returns (n: nat)
      requires 0 < len <= buf.Length
      requires FateOf(cfg, draws, buf[..len]) != Lost && Possible(FateOf(cfg, draws, buf[..len]), buf[..len])
      modifies buf
      ensures n <= buf.Length
      ensures buf[..n] == Damaged(old(buf[..len]), FateOf(cfg, draws, old(buf[..len])))
    {
      n := len;
      if cfg.cutRate != 0 && Percent(draws.cut) < cfg.cutRate && len > MIN_PKT_PDATA_LEN && buf[0] / 64 == 1 {
        n := MIN_PKT_PDATA_LEN;
        buf[0] := SetTrBit(buf[0]);
      } else if cfg.errRate != 0 && Percent(draws.err) < cfg.errRate {
        var idx := draws.index % len;
        buf[idx] := 255 - buf[idx];
      }
    }

    /** get_queue_timeout: the answer is also left in the static variable. */
    method GetQueueTimeout() returns (r: Option<Timeval>)
      requires Valid()
      modifies this`timeout
      ensures Valid() && Value() == old(Value())
      ensures r == if |Value().queue| == 0 then None else Some(Timeout(Value()))
      ensures r.Some? ==> timeout == r.value
    {
      if pktQueue.Empty() {
        return None;
      }
      var p := pktQueue.Peek();
      timeout := Diff(p.value.ts, lastClock);
      if timeout.sec < 0 || (timeout.sec == 0 && timeout.usec <= 0) {
        timeout := Timeval(0, 1000);
      }
      return Some(timeout);
    }

    /** process_incoming_pkt, with its buffer on the stack. */
    method ProcessIncoming(r: Reading) returns (ok: bool)
      requires Valid()
      requires r.Read? ==> |r.buf| <= MAX_PKT_LEN
      modifies this`srcAddr, this`forwarded, this`accepted, pktQueue, pktQueue.e
      ensures Valid() && (pktQueue.e == old(pktQueue.e) || fresh(pktQueue.e))
      ensures Who() == LearnedFrom(old(Who()), r)
      ensures Outcome(Value(), ok) == Processed(cfg, old(Value()), Classified(old(Who()), r))
    {
      hide AppliedDelay, Pushed, FateOf, Damaged, Proxy.SimulateLink, DirectionOf, SameDirection, DelayDefined;
      if r.NoData? {
        return true;
      } else if r.ReadFailed? {
        return false;
      }
      var buf := new byte[MAX_PKT_LEN];
      var len := |r.buf|;
      forall k | 0 <= k < len { buf[k] := r.buf[k]; }
      if len < MIN_PKT_LEN {
        return true;
      }
      var direction := TellDirection(r.from);
      if direction == 0 {
        return true;
      }
      assert buf[..len] == r.buf;
      if !SameDirection(direction, linkDirection) {
        if !r.sent {
          return false;
        }
        forwarded := forwarded + [Datagram(buf[..len], direction)];
        return true;
      }
      ok := SimulateLink(buf, len, direction, r.draws, r.slotMemory, r.queueMemory, r.sent);
    }

    /** The sender of a packet long enough is remembered if he is the first. */
    method TellDirection(from: int) returns (direction: int)
      requires Valid()
      modifies this`srcAddr
      ensures Valid() && Value() == old(Value())
      ensures Who() == if old(srcAddr).None? then old(Who()).(source := Some(from)) else old(Who())
      ensures direction == DirectionOf(Who(), from)
    {
      if srcAddr.None? {
        srcAddr := Some(from);
      }
      direction := 0;
      if from == destAddr {
        direction := REVERSE;
      }
      if from == srcAddr.value {
        direction := FORWARD;
      }
    }

    /** proxy_loop, for the rounds listed; it is left early on failure. */
    method ProxyLoop(rounds: seq<Round>) returns (ok: bool)
      requires Valid()
      requires forall k :: 0 <= k < |rounds| && rounds[k].WakeUp? && rounds[k].reading.Read? ==>
        |rounds[k].reading.buf| <= MAX_PKT_LEN
      modifies this, pktQueue, pktQueue.e
      ensures Valid()
      ensures Outcome(Value(), ok) == Run(cfg, old(Value()), Resolved(old(Who()), rounds))
    {
      hide Processed, Delivered, DelayDefined;
      var i := 0;
      assert rounds[0..] == rounds;
      while i < |rounds|
        invariant 0 <= i <= |rounds|
        invariant Valid() && (pktQueue.e == old(pktQueue.e) || fresh(pktQueue.e))
        invariant
          Run(cfg, Value(), Resolved(Who(), rounds[i..])) == Run(cfg, old(Value()), Resolved(old(Who()), rounds))
        decreases |rounds| - i
      {
        ResolvedFirst(Who(), rounds, i);
        ghost var rest := Resolved(After(Who(), rounds[i]), rounds[i + 1..]);
        assert Resolved(Who(), rounds[i..])[1..] == rest;
        var _ := GetQueueTimeout();
        match rounds[i] {
          case Signal(_) =>
          case Failure =>
            return false;
          case WakeUp(clock, sends, reading) =>
            lastClock := clock;
            ok := DeliverDelayed(sends);
            if !ok {
              return false;
            }
            ok := ProcessIncoming(reading);
            if !ok {
              return false;
            }
        }
        i := i + 1;
      }
      return true;
    }
  }

  lemma ResolvedFirst(w: Parties, rounds: seq<Round>, i: nat)
    requires i < |rounds|
    ensures Resolved(w, rounds[i..]) == [AsInput(w, rounds[i])] + Resolved(After(w, rounds[i]), rounds[i + 1..])
  {
    hide AsInput, After;
    assert rounds[i..][0] == rounds[i] && rounds[i..][1..] == rounds[i + 1..];
  }

  /** One turn of the drain loop. */
  lemma DeliveredUnrolls(s: State, sends: seq<SendResult>)
    requires |s.queue| > 0 && Gt(s.clock, s.queue[0].ts)
    ensures FirstResult(sends) == Again ==> Delivered(s, sends) == Outcome(s, true)
    ensures FirstResult(sends) == Broken ==> Delivered(s, sends) == Outcome(s, false)
    ensures
      var t := s.(queue := Popped(SlotGt, s.queue), written := s.written + [s.queue[0]],
                  writtenAt := s.writtenAt + [s.clock]);
      FirstResult(sends) == Sent ==> Delivered(s, sends) == Delivered(t, LaterResults(sends))
  {
    hide Popped;
    if FirstResult(sends) == Sent {
      var d := Drain(Popped(SlotGt, s.queue), s.clock, LaterResults(sends));
      assert s.written + ([s.queue[0]] + d.out) == s.written + [s.queue[0]] + d.out;
      assert seq(1 + |d.out|, _ => s.clock) == [s.clock] + seq(|d.out|, _ => s.clock);
      var stamps := seq(|d.out|, _ => s.clock);
      assert s.writtenAt + ([s.clock] + stamps) == s.writtenAt + [s.clock] + stamps;
    } else {
      assert s.written + [] == s.written;
      assert s.writtenAt + seq(0, _ => s.clock) == s.writtenAt;
    }
  }

  lemma DeliveredStops(s: State, sends: seq<SendResult>)
    requires |s.queue| == 0 || !Gt(s.clock, s.queue[0].ts)
    ensures Delivered(s, sends) == Outcome(s, true)
  {
    assert s.written + [] == s.written;
    assert s.writtenAt + seq(0, _ => s.clock) == s.writtenAt;
  }
}
