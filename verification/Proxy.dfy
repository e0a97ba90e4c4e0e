/** The proxy loop of linksim/link_sim.c as a step machine: a cached clock, the heap of delayed
    packets, and logs of what was accepted into and written from it.  Received packets, random
    draws, clock readings, and the outcomes of allocation and sendto are inputs. */
module Proxy {
  import opened Crc32
  import opened Heap
  import opened MinQueue
  import opened LinkFaults
  import opened Timeval

  /** A pkt_slot.  `arrival` and `applied` record the clock and the delay (in ms) of which the
      source keeps only the sum, `ts`. */
  datatype Slot = Slot(ts: Timeval, direction: int, buf: seq<byte>, arrival: Timeval, applied: nat)

  datatype Datagram = Datagram(buf: seq<byte>, direction: int)

  /** pkt_slot_cmp */
  function SlotGt(a: Slot, b: Slot): bool {
    Gt(a.ts, b.ts)
  }

  /** How a sendto ends: done, to be tried again later, or failed. */
  datatype SendResult = Sent | Again | Broken

  /** What a wake-up finds on the socket.  `Nothing` stands for every case in which
      process_incoming_pkt succeeds without touching the packet. */
  datatype Incoming =
    | Nothing
    | RecvFailed
    | Relayed(buf: seq<byte>, direction: int, sent: bool)
    | Simulated(buf: seq<byte>, direction: int, draws: Draws, slotMemory: bool, queueMemory: bool, sent: bool)

  /** One round of the loop: select interrupted by a signal at the instant `now`, which the code
      does not look at; select or the clock failed; or a wake-up with the new clock, the outcomes
      of the writes (`Sent` for those beyond the list), and input. */
  datatype Input =
    | Interrupted(now: int)
    | Failed
    | Woken(clock: Timeval, sends: seq<SendResult>, incoming: Incoming)

  /** `written[i]` was written when the clock read `writtenAt[i]`; `forwarded` went out undelayed. */
  datatype State = State(clock: Timeval, queue: seq<Slot>, alloc: nat, accepted: seq<Slot>,
                         written: seq<Slot>, writtenAt: seq<Timeval>, forwarded: seq<Datagram>)

  datatype Outcome = Outcome(state: State, ok: bool)

  // ---------- the delay ----------

  const WORD: nat := 0x1_0000_0000

  /** The source divides by `delay + jitter` or `2 * jitter`, computed modulo 2^32. */
  predicate DelayDefined(cfg: Config) {
    && (cfg.jitter > cfg.delay > 0 ==> (cfg.delay + cfg.jitter) % WORD != 0)
    && (0 < cfg.jitter <= cfg.delay ==> (2 * cfg.jitter) % WORD != 0)
  }

  /** The delay in ms; `r` is the result of rand(). */
  function AppliedDelay(cfg: Config, r: nat): (a: nat)
    requires DelayDefined(cfg) && cfg.delay > 0
    ensures a < 10_000
  {
    var a :=
      if cfg.jitter == 0 then cfg.delay
      else if cfg.jitter > cfg.delay then r % ((cfg.delay + cfg.jitter) % WORD)
      else (cfg.delay + r % ((2 * cfg.jitter) % WORD) - cfg.jitter) % WORD;
    a % 10_000
  }

  /** The delay asked for: `delay` plus a draw from [-jitter, jitter), or, when jitter exceeds
      the delay, a draw from [0, delay + jitter). */
  function AskedDelay(cfg: Config, r: nat): int
    requires cfg.delay > 0
  {
    if cfg.jitter == 0 then cfg.delay
    else if cfg.jitter > cfg.delay then r % (cfg.delay + cfg.jitter)
    else cfg.delay - cfg.jitter + r % (2 * cfg.jitter)
  }

  /** The width of the interval a draw is taken from. */
  function Spread(cfg: Config): nat {
    if cfg.jitter == 0 then 0 else if cfg.jitter > cfg.delay then cfg.delay + cfg.jitter else 2 * cfg.jitter
  }

  /** For the results of rand(), at most 2^31 - 1: the delay is the one asked for if and only if
      that is below ten seconds - it is not capped there but wraps around - and the interval has
      not been shortened by wrapping modulo 2^32 to one that ends before the draw. */
  lemma DelayAsAsked(cfg: Config, r: nat)
    requires DelayDefined(cfg) && cfg.delay > 0 && r < 0x8000_0000
    ensures AskedDelay(cfg, r) >= 0
    ensures AppliedDelay(cfg, r) == AskedDelay(cfg, r) <==>
            AskedDelay(cfg, r) < 10_000 && (Spread(cfg) < WORD || r < Spread(cfg) - WORD)
    ensures AppliedDelay(cfg, r) <= AskedDelay(cfg, r)
  {
    if cfg.jitter > cfg.delay { WideJitter(cfg, r); } else if cfg.jitter > 0 { NarrowJitter(cfg, r); }
  }

  /** The delay drawn from the interval that is left when its width wraps modulo 2^32. */
  function DrawnDelay(cfg: Config, r: nat): int
    requires DelayDefined(cfg) && cfg.delay > 0
  {
    if cfg.jitter == 0 then cfg.delay
    else
      var draw := r % (Spread(cfg) % 0x1_0000_0000);
      if cfg.jitter > cfg.delay then draw else cfg.delay - cfg.jitter + draw
  }

  /** Ten seconds and more are not capped: the delay applied differs from the delay drawn by whole
      tens of seconds; where the sum of delay and draw wraps, by 2^32 milliseconds besides. */
  lemma DelayReduced(cfg: Config, r: nat)
    requires DelayDefined(cfg) && cfg.delay > 0
    ensures
      var d := DrawnDelay(cfg, r);
      && 0 <= d < 0x2_0000_0000
      && ((if d < 0x1_0000_0000 then d else d - 0x1_0000_0000) - AppliedDelay(cfg, r)) % 10_000 == 0
      && (Spread(cfg) < 0x1_0000_0000 ==> d == AskedDelay(cfg, r))
  {
    if cfg.jitter == 0 {
      WholeTens(cfg.delay);
    } else {
      var m := Spread(cfg) % WORD;
      var draw := r % m;
      assert 0 <= draw < m;
      if Spread(cfg) < WORD { SmallRemainder(Spread(cfg), WORD); }
      if cfg.jitter > cfg.delay {
        WholeTens(draw);
      } else {
        var d := cfg.delay - cfg.jitter + draw;
        OnceWrapped(d);
        assert cfg.delay + draw - cfg.jitter == d;
        WholeTens(d % WORD);
      }
    }
  }

  lemma WholeTens(n: nat)
    ensures (n - n % 10_000) % 10_000 == 0
  {
  }

  lemma OnceWrapped(n: nat)
    requires n < 2 * WORD
    ensures n % WORD == if n < WORD then n else n - WORD
  {
  }

  /** So what was asked for is reduced modulo ten seconds exactly as long as it stays below 2^32. */
  lemma ReducedExactly(cfg: Config, r: nat)
    requires DelayDefined(cfg) && cfg.delay > 0 && Spread(cfg) < 0x1_0000_0000
    ensures (AskedDelay(cfg, r) - AppliedDelay(cfg, r)) % 10_000 == 0 <==> AskedDelay(cfg, r) < 0x1_0000_0000
  {
    DelayReduced(cfg, r);
    hide AskedDelay, AppliedDelay, DrawnDelay, Spread, DelayDefined;
    var d, a := AskedDelay(cfg, r), AppliedDelay(cfg, r);
    if d >= WORD { OneWordMore(d - WORD - a); }
  }

  lemma OneWordMore(x: int)
    requires x % 10_000 == 0
    ensures (x + 0x1_0000_0000) % 10_000 == 7296
  {
  }

  /** Such a delay: 2^32 - 1 with a jitter of 2^30, and the greatest result of rand(). */
  lemma ReducedFails()
    ensures
      var cfg := Config(0xFFFF_FFFF, 0x4000_0000, 0, 0, 0);
      DelayDefined(cfg) && Spread(cfg) < 0x1_0000_0000 && AskedDelay(cfg, 0x7FFF_FFFF) >= 0x1_0000_0000
  {
    var cfg := Config(0xFFFF_FFFF, 0x4000_0000, 0, 0, 0);
    assert Spread(cfg) == 0x8000_0000;
    SmallRemainder(0x7FFF_FFFF, 0x8000_0000);
  }

  lemma WideJitter(cfg: Config, r: nat)
    requires DelayDefined(cfg) && cfg.jitter > cfg.delay > 0 && r < 0x8000_0000
    ensures AppliedDelay(cfg, r) == AskedDelay(cfg, r) <==>
            AskedDelay(cfg, r) < 10_000 && (Spread(cfg) < WORD || r < Spread(cfg) - WORD)
    ensures AppliedDelay(cfg, r) <= AskedDelay(cfg, r)
  {
    WrappedDraw(Spread(cfg), r);
    BelowTen(r % (Spread(cfg) % WORD));
  }

  lemma NarrowJitter(cfg: Config, r: nat)
    requires DelayDefined(cfg) && 0 < cfg.jitter <= cfg.delay && r < 0x8000_0000
    ensures AskedDelay(cfg, r) >= 0
    ensures AppliedDelay(cfg, r) == AskedDelay(cfg, r) <==>
            AskedDelay(cfg, r) < 10_000 && (Spread(cfg) < WORD || r < Spread(cfg) - WORD)
    ensures AppliedDelay(cfg, r) <= AskedDelay(cfg, r)
  {
    var m := Spread(cfg);
    WrappedDraw(m, r);
    var draw := r % (m % WORD);
    assert draw >= 0;
    var a := cfg.delay + draw - cfg.jitter;
    WrapsDown(a);
    BelowTen(a % WORD);
  }

  lemma BelowTen(n: nat)
    ensures n % 10_000 <= n && (n % 10_000 == n <==> n < 10_000)
  {
  }

  /** A draw below an interval that wraps. */
  lemma WrappedDraw(m: nat, r: nat)
    requires 0 < m < 2 * WORD && m % WORD != 0 && r < 0x8000_0000
    ensures m < WORD ==> m % WORD == m
    ensures m >= WORD ==> r % m == r && m % WORD == m - WORD
    ensures m >= WORD ==> (r % (m - WORD) == r <==> r < m - WORD) && r % (m - WORD) <= r
  {
    if m >= WORD {
      assert m % WORD == m - WORD;
      if r < m - WORD { SmallRemainder(r, m - WORD); }
      SmallRemainder(r, m);
    }
  }

  lemma SmallRemainder(r: nat, m: nat)
    requires r < m
    ensures r % m == r
  {
  }

  lemma WrapsDown(n: nat)
    ensures n % WORD <= n
    ensures n < WORD ==> n % WORD == n
  {
  }

  // ---------- one round ----------

  datatype Drained = Drained(queue: seq<Slot>, out: seq<Slot>, ok: bool)

  function FirstResult(sends: seq<SendResult>): SendResult {
    if sends == [] then Sent else sends[0]
  }

  function LaterResults(sends: seq<SendResult>): seq<SendResult> {
    if sends == [] then [] else sends[1..]
  }

  /** deliver_delayed_pkt */
  function Drain(q: seq<Slot>, clock: Timeval, sends: seq<SendResult>): Drained
    decreases |q|
  {
    if |q| == 0 || !Gt(clock, q[0].ts) then Drained(q, [], true)
    else match FirstResult(sends)
      case Again => Drained(q, [], true)
      case Broken => Drained(q, [], false)
      case Sent =>
        var d := Drain(Popped(SlotGt, q), clock, LaterResults(sends));
        d.(out := [q[0]] + d.out)
  }

  function Delivered(s: State, sends: seq<SendResult>): Outcome {
    var d := Drain(s.queue, s.clock, sends);
    Outcome(s.(queue := d.queue, written := s.written + d.out,
               writtenAt := s.writtenAt + seq(|d.out|, _ => s.clock)), d.ok)
  }

  function NewSlot(cfg: Config, clock: Timeval, buf: seq<byte>, direction: int, r: nat): Slot
    requires DelayDefined(cfg) && cfg.delay > 0
  {
    var a := AppliedDelay(cfg, r);
    Slot(Expiry(clock, a), direction, buf, clock, a)
  }

  /** Queueing a slot fails if there is no memory for it, or for a larger heap when that is full. */
  function Enqueued(s: State, slot: Slot, slotMemory: bool, queueMemory: bool): Outcome {
    if !slotMemory || (|s.queue| == s.alloc && !queueMemory) then Outcome(s, false)
    else Outcome(s.(queue := Pushed(SlotGt, s.queue, slot), alloc := Grown(|s.queue|, s.alloc),
                    accepted := s.accepted + [slot]), true)
  }

  function Forwarded(s: State, d: Datagram, sent: bool): Outcome {
    if sent then Outcome(s.(forwarded := s.forwarded + [d]), true) else Outcome(s, false)
  }

  /** simulate_link */
  function SimulateLink(cfg: Config, s: State, buf: seq<byte>, direction: int, draws: Draws,
                        slotMemory: bool, queueMemory: bool, sent: bool): Outcome
    requires DelayDefined(cfg) && |buf| > 0
  {
    var fate := FateOf(cfg, draws, buf);
    FatesArePossible(cfg, draws, buf);
    if fate == Lost then Outcome(s, true)
    else if cfg.delay > 0 then
      Enqueued(s, NewSlot(cfg, s.clock, Damaged(buf, fate), direction, draws.delay), slotMemory, queueMemory)
    else Forwarded(s, Datagram(Damaged(buf, fate), direction), sent)
  }

  /** process_incoming_pkt, sender and direction given. */
  function Processed(cfg: Config, s: State, incoming: Incoming): Outcome
    requires DelayDefined(cfg)
  {
    match incoming
    case Nothing => Outcome(s, true)
    case RecvFailed => Outcome(s, false)
    case Relayed(buf, direction, sent) =>
      if |buf| < MIN_PKT_LEN then Outcome(s, true)
      else Forwarded(s, Datagram(buf, direction), sent)
    case Simulated(buf, direction, draws, slotMemory, queueMemory, sent) =>
      if |buf| < MIN_PKT_LEN then Outcome(s, true)
      else SimulateLink(cfg, s, buf, direction, draws, slotMemory, queueMemory, sent)
  }

  /** One round of proxy_loop; the loop goes on while `ok`. */
  function Step(cfg: Config, s: State, input: Input): Outcome
    requires DelayDefined(cfg)
  {
    match input
    case Interrupted(_) => Outcome(s, true)
    case Failed => Outcome(s, false)
    case Woken(clock, sends, incoming) =>
      var o := Delivered(s.(clock := clock), sends);
      if o.ok then Processed(cfg, o.state, incoming) else o
  }

  function Start(clock: Timeval): State {
    State(clock, [], SLOTS_PER_MALLOC, [], [], [], [])
  }

  /** The state after a list of rounds, or at the round that ended the loop. */
  function Run(cfg: Config, s: State, inputs: seq<Input>): Outcome
    requires DelayDefined(cfg)
    decreases |inputs|
  {
    if inputs == [] then Outcome(s, true)
    else
      var o := Step(cfg, s, inputs[0]);
      if o.ok then Run(cfg, o.state, inputs[1..]) else o
  }

  /** get_queue_timeout; meaningful while packets are queued. */
  function Timeout(s: State): Timeval
    requires |s.queue| > 0
  {
    SleepTime(s.queue[0].ts, s.clock)
  }

  /** The clock is normalised and never runs backwards. */
  predicate ClockRuns(prev: Timeval, inputs: seq<Input>)
    decreases |inputs|
  {
    if inputs == [] then true
    else match inputs[0]
      case Woken(clock, _, _) => Normal(clock) && !Gt(prev, clock) && ClockRuns(clock, inputs[1..])
      case _ => ClockRuns(prev, inputs[1..])
  }

  // ---------- draining ----------

  lemma SlotOrder()
    ensures StrictWeakOrder(SlotGt)
  {
    GtIsStrictWeakOrder();
  }

  /** The drain writes a prefix of the queue's expiry order. */
  lemma {:induction false} DrainIsPrefix(q: seq<Slot>, clock: Timeval, sends: seq<SendResult>)
    ensures
      var d := Drain(q, clock, sends);
      d.out + DrainAll(SlotGt, d.queue) == DrainAll(SlotGt, q)
    decreases |q|
  {
    if q == [] || !Gt(clock, q[0].ts) || FirstResult(sends) != Sent {
    } else {
      DrainIsPrefix(Popped(SlotGt, q), clock, LaterResults(sends));
      var e := Drain(Popped(SlotGt, q), clock, LaterResults(sends));
      assert ([q[0]] + e.out) + DrainAll(SlotGt, e.queue) == [q[0]] + (e.out + DrainAll(SlotGt, e.queue));
    }
  }

  lemma {:induction false} DrainContents(q: seq<Slot>, clock: Timeval, sends: seq<SendResult>)
    requires HeapOrder(SlotGt, q)
    ensures
      var d := Drain(q, clock, sends);
      && HeapOrder(SlotGt, d.queue) && |d.queue| <= |q|
      && multiset(q) == multiset(d.out) + multiset(d.queue)
      && (forall x :: x in d.out ==> Gt(clock, x.ts))
    decreases |q|
  {
    hide Popped, HeapOrder, IsMinimal, StrictWeakOrder, SlotGt;
    if q == [] || !Gt(clock, q[0].ts) || FirstResult(sends) != Sent {
    } else {
      SlotOrder();
      PopCorrect(SlotGt, q);
      DrainContents(Popped(SlotGt, q), clock, LaterResults(sends));
      var e := Drain(Popped(SlotGt, q), clock, LaterResults(sends));
      assert q[0] in multiset(q);
      PutBack(q[0], multiset(q), multiset(Popped(SlotGt, q)), e.out, multiset(e.queue));
    }
  }

  /** What a drain does, whatever the writes return: it takes from the queue, in expiry order,
      expired slots none of which is later than what it leaves. */
  lemma DrainKeeps(q: seq<Slot>, clock: Timeval, sends: seq<SendResult>)
    requires HeapOrder(SlotGt, q)
    ensures
      var d := Drain(q, clock, sends);
      && HeapOrder(SlotGt, d.queue) && |d.queue| <= |q|
      && multiset(q) == multiset(d.out) + multiset(d.queue)
      && Sorted(SlotGt, d.out)
      && (forall x :: x in d.out ==> Gt(clock, x.ts))
      && (forall x, y :: x in d.out && y in d.queue ==> !SlotGt(x, y))
  {
    hide Drain, DrainAll, HeapOrder, StrictWeakOrder, SlotGt;
    var d := Drain(q, clock, sends);
    SlotOrder();
    DrainContents(q, clock, sends);
    DrainIsPrefix(q, clock, sends);
    DrainSorts(SlotGt, q);
    DrainSorts(SlotGt, d.queue);
    var all, rest := DrainAll(SlotGt, q), DrainAll(SlotGt, d.queue);
    assert forall i :: 0 <= i < |d.out| ==> all[i] == d.out[i];
    forall x, y | x in d.out && y in d.queue ensures !SlotGt(x, y) {
      assert y in multiset(rest);
      var i :| 0 <= i < |d.out| && d.out[i] == x;
      var j :| 0 <= j < |rest| && rest[j] == y;
      assert all[|d.out| + j] == y;
    }
  }

  function ResultAt(sends: seq<SendResult>, k: nat): SendResult {
    if k < |sends| then sends[k] else Sent
  }

  /** A slot leaves the queue exactly when its write succeeded: the writes of the slots taken
      out all did, and a drain that stops before an expired slot stops at a write that did not. */
  lemma {:induction false} PoppedIffWritten(q: seq<Slot>, clock: Timeval, sends: seq<SendResult>)
    ensures
      var d := Drain(q, clock, sends);
      var expiredHead := |d.queue| > 0 && Gt(clock, d.queue[0].ts);
      && (forall k :: 0 <= k < |d.out| ==> ResultAt(sends, k) == Sent)
      && (expiredHead ==> ResultAt(sends, |d.out|) != Sent)
      && (d.ok <==> !(expiredHead && ResultAt(sends, |d.out|) == Broken))
    decreases |q|
  {
    if q == [] || !Gt(clock, q[0].ts) || FirstResult(sends) != Sent {
    } else {
      PoppedIffWritten(Popped(SlotGt, q), clock, LaterResults(sends));
      forall k | 0 < k ensures ResultAt(sends, k) == ResultAt(LaterResults(sends), k - 1) { }
    }
  }

  /** When no write fails, the drain writes all expired slots and only those. */
  lemma CleanDrain(q: seq<Slot>, clock: Timeval, sends: seq<SendResult>)
    requires HeapOrder(SlotGt, q)
    requires forall k :: 0 <= k < |sends| ==> sends[k] == Sent
    ensures
      var d := Drain(q, clock, sends);
      && d.ok
      && (forall x :: x in d.queue ==> !Gt(clock, x.ts))
      && (forall x :: x in q && Gt(clock, x.ts) ==> x in d.out)
      && (forall x :: x in q && Gt(clock, x.ts) ==> multiset(d.out)[x] == multiset(q)[x])
  {
    var d := Drain(q, clock, sends);
    DrainKeeps(q, clock, sends);
    PoppedIffWritten(q, clock, sends);
    SlotOrder();
    forall x | x in d.queue ensures !Gt(clock, x.ts) {
      PeekMinimal(SlotGt, d.queue);
      assert x in multiset(d.queue);
      assert !Gt(d.queue[0].ts, x.ts);
    }
    forall x | x in q && Gt(clock, x.ts) ensures x in d.out && multiset(d.out)[x] == multiset(q)[x] {
      assert x !in d.queue;
      assert x in multiset(q);
      assert x in multiset(d.out);
    }
  }

  /** Once all dates have passed, a drain empties the queue in expiry order. */
  lemma {:induction false} FullDrain(q: seq<Slot>, clock: Timeval)
    requires HeapOrder(SlotGt, q) && forall x :: x in q ==> Gt(clock, x.ts)
    ensures Drain(q, clock, []) == Drained([], DrainAll(SlotGt, q), true)
    decreases |q|
  {
    hide Popped, HeapOrder, IsMinimal, StrictWeakOrder, SlotGt;
    if q == [] {
    } else {
      SlotOrder();
      PopCorrect(SlotGt, q);
      var p := Popped(SlotGt, q);
      forall x | x in p ensures Gt(clock, x.ts) {
        assert x in multiset(p);
        assert x in multiset(q);
      }
      FullDrain(p, clock);
    }
  }

  /** A wake-up after all dates, without input, writes the whole queue. */
  lemma Flush(cfg: Config, s: State, end: Timeval)
    requires DelayDefined(cfg) && HeapOrder(SlotGt, s.queue) && forall x :: x in s.queue ==> Gt(end, x.ts)
    ensures
      var o := Run(cfg, s, [Woken(end, [], Nothing)]);
      var out := DrainAll(SlotGt, s.queue);
      && o.ok && o.state.queue == [] && o.state.accepted == s.accepted && o.state.clock == end
      && o.state.forwarded == s.forwarded
      && o.state.written == s.written + out
      && o.state.writtenAt == s.writtenAt + seq(|out|, _ => end)
  {
    hide HeapOrder, Drain, DrainAll, DelayDefined;
    FullDrain(s.queue, end);
    var input := Woken(end, [], Nothing);
    assert [input][1..] == [];
    assert Run(cfg, s, [input]) == Step(cfg, s, input);
  }
}
