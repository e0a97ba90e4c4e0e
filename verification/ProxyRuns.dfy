/** What every run of the proxy keeps: order, conservation and timing of the delayed packets. */
module ProxyRuns {
  import opened Crc32
  import opened Heap
  import opened MinQueue
  import opened LinkFaults
  import opened Timeval
  import opened Proxy

  // ---------- the invariant ----------

  predicate Shape(s: State) {
    && |s.queue| <= s.alloc && s.alloc > 0 && s.alloc % SLOTS_PER_MALLOC == 0
    && |s.written| == |s.writtenAt|
    && Normal(s.clock)
  }

  /** A slot accepted no later than `now`. */
  predicate SlotOk(x: Slot, now: Timeval) {
    && Normal(x.arrival) && x.applied < 10_000 && x.ts == Expiry(x.arrival, x.applied)
    && !Gt(x.arrival, now)
  }

  ghost predicate Dated(s: State) {
    forall x :: x in s.accepted ==> SlotOk(x, s.clock)
  }

  /** Nothing is lost, nothing is sent twice. */
  ghost predicate Conserved(s: State) {
    multiset(s.accepted) == multiset(s.written) + multiset(s.queue)
  }

  /** Delayed packets go out in expiry order, and what is queued does not come before them. */
  ghost predicate InOrder(s: State) {
    && Sorted(SlotGt, s.written)
    && (forall x :: x in s.written ==> Gt(s.clock, x.ts))
    && (forall x, y :: x in s.written && y in s.queue ==> !SlotGt(x, y))
  }

  /** The clock at which a packet was written had passed its expiry date, field by field. */
  predicate Stamped(s: State)
    requires |s.written| == |s.writtenAt|
  {
    forall i :: 0 <= i < |s.written| ==>
      Normal(s.writtenAt[i]) && Gt(s.writtenAt[i], s.written[i].ts) && !Gt(s.writtenAt[i], s.clock)
  }

  ghost predicate Inv(s: State) {
    Shape(s) && HeapOrder(SlotGt, s.queue) && Dated(s) && Conserved(s) && InOrder(s) && Stamped(s)
  }

  lemma StartHolds(clock: Timeval)
    requires Normal(clock)
    ensures Inv(Start(clock))
  {
  }

  lemma GtTransitive(a: Timeval, b: Timeval, c: Timeval)
    ensures !Gt(a, b) && !Gt(b, c) ==> !Gt(a, c)
    ensures Gt(b, a) && !Gt(b, c) ==> Gt(c, a)
  {
  }

  lemma TickKeeps(s: State, clock: Timeval)
    requires Inv(s) && Normal(clock) && !Gt(s.clock, clock)
    ensures Inv(s.(clock := clock))
  {
    var t := s.(clock := clock);
    forall x | x in t.accepted ensures SlotOk(x, clock) {
      assert SlotOk(x, s.clock);
      GtTransitive(x.arrival, s.clock, clock);
    }
    forall x | x in t.written ensures Gt(clock, x.ts) {
      GtTransitive(x.ts, s.clock, clock);
    }
    forall i | 0 <= i < |t.written| ensures !Gt(t.writtenAt[i], clock) {
      GtTransitive(t.writtenAt[i], s.clock, clock);
    }
  }

  lemma SortedAppend(a: seq<Slot>, b: seq<Slot>)
    requires Sorted(SlotGt, a) && Sorted(SlotGt, b)
    requires forall x, y :: x in a && y in b ==> !SlotGt(x, y)
    ensures Sorted(SlotGt, a + b)
  {
    forall i, j | 0 <= i < j < |a + b| ensures !SlotGt((a + b)[i], (a + b)[j]) {
      if j < |a| { } else if i < |a| { assert a[i] in a && b[j - |a|] in b; } else { }
    }
  }

  lemma DrainMembers(q: seq<Slot>, d: Drained)
    requires multiset(q) == multiset(d.out) + multiset(d.queue)
    ensures forall x :: x in d.out || x in d.queue ==> x in q
  {
    forall x | x in d.out || x in d.queue ensures x in q {
      assert x in multiset(d.out) || x in multiset(d.queue);
      assert x in multiset(q);
    }
  }

  lemma DeliverOrder(s: State, sends: seq<SendResult>)
    requires Inv(s)
    ensures InOrder(Delivered(s, sends).state)
  {
    hide Drain, HeapOrder, SlotGt;
    var d := Drain(s.queue, s.clock, sends);
    DrainKeeps(s.queue, s.clock, sends);
    DrainMembers(s.queue, d);
    SortedAppend(s.written, d.out);
  }

  lemma DeliverKeeps(s: State, sends: seq<SendResult>)
    requires Inv(s)
    ensures Inv(Delivered(s, sends).state)
  {
    hide Drain, HeapOrder, InOrder;
    var d := Drain(s.queue, s.clock, sends);
    DrainKeeps(s.queue, s.clock, sends);
    DeliverOrder(s, sends);
    var t := Delivered(s, sends).state;
    assert multiset(t.written) == multiset(s.written) + multiset(d.out);
    forall i | 0 <= i < |t.written|
      ensures Normal(t.writtenAt[i]) && Gt(t.writtenAt[i], t.written[i].ts) && !Gt(t.writtenAt[i], t.clock)
    {
      if i >= |s.written| { assert t.written[i] == d.out[i - |s.written|]; }
    }
  }

  lemma EnqueueKeeps(s: State, slot: Slot, slotMemory: bool, queueMemory: bool)
    requires Inv(s) && SlotOk(slot, s.clock) && !Gt(s.clock, slot.ts)
    ensures Inv(Enqueued(s, slot, slotMemory, queueMemory).state)
  {
    hide Pushed, HeapOrder, Sorted, StrictWeakOrder;
    var o := Enqueued(s, slot, slotMemory, queueMemory);
    if o.ok {
      var t := o.state;
      SlotOrder();
      PushCorrect(SlotGt, s.queue, slot);
      assert multiset(t.accepted) == multiset(s.accepted) + multiset{slot};
      forall x, y | x in t.written && y in t.queue ensures !SlotGt(x, y) {
        assert y in multiset(t.queue);
        if y in s.queue {
        } else {
          assert y == slot;
          GtTransitive(x.ts, s.clock, slot.ts);
        }
      }
    }
  }

  lemma NewSlotOk(cfg: Config, clock: Timeval, buf: seq<byte>, direction: int, r: nat)
    requires DelayDefined(cfg) && cfg.delay > 0 && Normal(clock)
    ensures
      var x := NewSlot(cfg, clock, buf, direction, r);
      SlotOk(x, clock) && !Gt(clock, x.ts)
  {
    ExpiryFacts(clock, AppliedDelay(cfg, r));
  }

  lemma ProcessKeeps(cfg: Config, s: State, incoming: Incoming)
    requires DelayDefined(cfg) && Inv(s)
    ensures Inv(Processed(cfg, s, incoming).state)
  {
    hide Damaged, AppliedDelay, NewSlot, Enqueued, FateOf, DelayDefined;
    match incoming
    case Simulated(buf, direction, draws, slotMemory, queueMemory, sent) =>
      if |buf| >= MIN_PKT_LEN {
        var fate := FateOf(cfg, draws, buf);
        FatesArePossible(cfg, draws, buf);
        if fate != Lost && cfg.delay > 0 {
          var b := Damaged(buf, fate);
          NewSlotOk(cfg, s.clock, b, direction, draws.delay);
          EnqueueKeeps(s, NewSlot(cfg, s.clock, b, direction, draws.delay), slotMemory, queueMemory);
        }
      }
    case _ =>
  }

  predicate ClockStep(prev: Timeval, input: Input) {
    input.Woken? ==> Normal(input.clock) && !Gt(prev, input.clock)
  }

  lemma StepKeeps(cfg: Config, s: State, input: Input)
    requires DelayDefined(cfg) && Inv(s) && ClockStep(s.clock, input)
    ensures Inv(Step(cfg, s, input).state)
  {
    hide Inv, Delivered, Processed;
    if input.Woken? {
      var t := s.(clock := input.clock);
      TickKeeps(s, input.clock);
      DeliverKeeps(t, input.sends);
      var o := Delivered(t, input.sends);
      if o.ok { ProcessKeeps(cfg, o.state, input.incoming); }
    }
  }

  lemma StepClock(cfg: Config, s: State, input: Input)
    requires DelayDefined(cfg)
    ensures Step(cfg, s, input).state.clock == if input.Woken? then input.clock else s.clock
  {
    hide Damaged, AppliedDelay, Drain, FateOf, DelayDefined;
  }

  /** The invariant holds after every run, one that ended in a failure included. */
  lemma {:induction false} RunKeeps(cfg: Config, s: State, inputs: seq<Input>)
    requires DelayDefined(cfg) && Inv(s) && ClockRuns(s.clock, inputs)
    ensures Inv(Run(cfg, s, inputs).state)
    decreases |inputs|
  {
    hide Inv, Step, DelayDefined;
    if inputs == [] {
    } else {
      StepKeeps(cfg, s, inputs[0]);
      StepClock(cfg, s, inputs[0]);
      var o := Step(cfg, s, inputs[0]);
      if o.ok { RunKeeps(cfg, o.state, inputs[1..]); }
    }
  }

  // ---------- order and conservation ----------

  ghost predicate Reached(cfg: Config, clock: Timeval, inputs: seq<Input>, s: State)
    requires DelayDefined(cfg)
  {
    Normal(clock) && ClockRuns(clock, inputs) && s == Run(cfg, Start(clock), inputs).state
  }

  lemma ReachedHolds(cfg: Config, clock: Timeval, inputs: seq<Input>, s: State)
    requires DelayDefined(cfg) && Reached(cfg, clock, inputs, s)
    ensures Inv(s)
  {
    StartHolds(clock);
    RunKeeps(cfg, Start(clock), inputs);
  }

  /** Over a whole run the delayed packets are written in non-decreasing expiry order, packets
      arriving between drains and drains cut short notwithstanding; every accepted packet is
      either written or queued, once. */
  lemma EmissionOrder(cfg: Config, clock: Timeval, inputs: seq<Input>, s: State)
    requires DelayDefined(cfg) && Reached(cfg, clock, inputs, s)
    ensures forall i, j :: 0 <= i < j < |s.written| ==> !Gt(s.written[i].ts, s.written[j].ts)
    ensures multiset(s.accepted) == multiset(s.written) + multiset(s.queue)
    ensures |s.queue| > 0 ==> IsMinimal(SlotGt, s.queue[0], multiset(s.queue))
  {
    ReachedHolds(cfg, clock, inputs, s);
    assert forall i, j :: 0 <= i < j < |s.written| ==> !SlotGt(s.written[i], s.written[j]);
    SlotOrder();
    if |s.queue| > 0 { PeekMinimal(SlotGt, s.queue); }
  }

  // ---------- when the loop ends ----------

  /** A write of the drain fails for good, at a slot that has expired. */
  predicate WriteBreaks(s: State, clock: Timeval, sends: seq<SendResult>) {
    var d := Drain(s.queue, clock, sends);
    |d.queue| > 0 && Gt(clock, d.queue[0].ts) && ResultAt(sends, |d.out|) == Broken
  }

  /** The packet cannot be read, queued or sent on; `full` says whether the queue has no room left. */
  predicate PacketBreaks(cfg: Config, incoming: Incoming, full: bool) {
    match incoming
    case Nothing => false
    case RecvFailed => true
    case Relayed(buf, _, sent) => |buf| >= 10 && !sent
    case Simulated(buf, _, draws, slotMemory, queueMemory, sent) =>
      && |buf| >= 10 && FateOf(cfg, draws, buf) != Lost
      && if cfg.delay > 0 then !slotMemory || (full && !queueMemory) else !sent
  }

  /** What ends the loop. */
  predicate Breaks(cfg: Config, s: State, input: Input) {
    match input
    case Interrupted(_) => false
    case Failed => true
    case Woken(clock, sends, incoming) =>
      || WriteBreaks(s, clock, sends)
      || PacketBreaks(cfg, incoming, |Drain(s.queue, clock, sends).queue| == s.alloc)
  }

  lemma StepEnds(cfg: Config, s: State, input: Input)
    requires DelayDefined(cfg)
    ensures Step(cfg, s, input).ok <==> !Breaks(cfg, s, input)
  {
    if input.Woken? {
      PoppedIffWritten(s.queue, input.clock, input.sends);
      hide Drain, Pushed, Damaged, FateOf, AppliedDelay, DelayDefined, ResultAt;
    }
  }

  /** The loop ends in the first round in which select, the clock, the read, an allocation or a write
      fails, a write that can be tried again excepted, and not before; nothing that comes after has
      any effect. */
  lemma {:induction false} RunEnds(cfg: Config, s: State, inputs: seq<Input>, k: nat)
    requires DelayDefined(cfg) && k <= |inputs|
    requires forall i :: 0 <= i < k ==> !Breaks(cfg, Run(cfg, s, inputs[..i]).state, inputs[i])
    ensures Run(cfg, s, inputs[..k]).ok
    ensures k == |inputs| ==> Run(cfg, s, inputs).ok
    ensures k < |inputs| && Breaks(cfg, Run(cfg, s, inputs[..k]).state, inputs[k]) ==>
              !Run(cfg, s, inputs).ok && Run(cfg, s, inputs) == Run(cfg, s, inputs[..k + 1])
    decreases k
  {
    hide Breaks, Step, DelayDefined;
    if k == 0 {
      assert inputs[..0] == [];
      if |inputs| > 0 {
        StepEnds(cfg, s, inputs[0]);
        assert inputs[..1] == [inputs[0]];
      }
    } else {
      var rest := inputs[1..];
      assert inputs[..0] == [];
      StepEnds(cfg, s, inputs[0]);
      var t := Step(cfg, s, inputs[0]).state;
      forall i | 0 <= i < k - 1 ensures !Breaks(cfg, Run(cfg, t, rest[..i]).state, rest[i]) {
        assert !Breaks(cfg, Run(cfg, s, inputs[..i + 1]).state, inputs[i + 1]);
        RunTail(cfg, s, inputs, i + 1);
      }
      RunEnds(cfg, t, rest, k - 1);
      RunTail(cfg, s, inputs, k);
      RunTail(cfg, s, inputs, |inputs|);
      assert inputs[..|inputs|] == inputs && rest[..|rest|] == rest;
      if k < |inputs| { RunTail(cfg, s, inputs, k + 1); }
    }
  }

  lemma RunTail(cfg: Config, s: State, inputs: seq<Input>, i: nat)
    requires DelayDefined(cfg) && 0 < i <= |inputs| && Step(cfg, s, inputs[0]).ok
    ensures Run(cfg, s, inputs[..i]) == Run(cfg, Step(cfg, s, inputs[0]).state, inputs[1..][..i - 1])
  {
    hide Step, DelayDefined;
    assert inputs[..i][1..] == inputs[1..][..i - 1];
  }

  // ---------- nothing is swallowed ----------

  /** What survives of a packet received in this round: nothing, or its damaged bytes. */
  function Survivor(cfg: Config, input: Input): seq<Datagram> {
    if input.Woken? && input.incoming.Simulated? && |input.incoming.buf| >= MIN_PKT_LEN then
      var i := input.incoming;
      var fate := FateOf(cfg, i.draws, i.buf);
      FatesArePossible(cfg, i.draws, i.buf);
      if fate == Lost then [] else [Datagram(Damaged(i.buf, fate), i.direction)]
    else []
  }

  /** The packet that goes through untouched in this round, if any. */
  function Untouched(input: Input): seq<Datagram> {
    if input.Woken? && input.incoming.Relayed? && |input.incoming.buf| >= MIN_PKT_LEN
    then [Datagram(input.incoming.buf, input.incoming.direction)]
    else []
  }

  /** The slots that rounds of a proxy with a delay have to accept, from the input alone. */
  function Survivors(cfg: Config, inputs: seq<Input>): seq<Slot>
    requires DelayDefined(cfg) && cfg.delay > 0
    decreases |inputs|
  {
    if inputs == [] then []
    else
      var d := Survivor(cfg, inputs[0]);
      (if d == [] then []
       else [NewSlot(cfg, inputs[0].clock, d[0].buf, d[0].direction, inputs[0].incoming.draws.delay)]) +
      Survivors(cfg, inputs[1..])
  }

  /** The datagrams that have to go out undelayed. */
  function Passing(cfg: Config, inputs: seq<Input>): seq<Datagram>
    decreases |inputs|
  {
    if inputs == [] then []
    else
      Untouched(inputs[0]) + (if cfg.delay > 0 then [] else Survivor(cfg, inputs[0])) + Passing(cfg, inputs[1..])
  }

  lemma StepAccepts(cfg: Config, s: State, input: Input)
    requires DelayDefined(cfg) && Step(cfg, s, input).ok
    ensures
      var t := Step(cfg, s, input).state;
      && (cfg.delay > 0 ==> t.accepted == s.accepted + Survivors(cfg, [input]))
      && (cfg.delay == 0 ==> t.accepted == s.accepted)
      && t.forwarded == s.forwarded + Passing(cfg, [input])
  {
    hide Drain, Pushed, Damaged, FateOf, AppliedDelay, DelayDefined;
    assert [input][1..] == [];
  }

  /** In a run without failure every packet that the link does not lose is accepted into the
      queue with the clock of its round, or goes out at once, in the order of arrival; nothing
      else is accepted or goes out.  With EmissionOrder: what comes in and is not lost is
      written once, or still queued. */
  lemma {:induction false} NothingSwallowed(cfg: Config, s: State, inputs: seq<Input>)
    requires DelayDefined(cfg) && Run(cfg, s, inputs).ok
    ensures
      var t := Run(cfg, s, inputs).state;
      && (cfg.delay > 0 ==> t.accepted == s.accepted + Survivors(cfg, inputs))
      && (cfg.delay == 0 ==> t.accepted == s.accepted)
      && t.forwarded == s.forwarded + Passing(cfg, inputs)
    decreases |inputs|
  {
    hide Step, Survivor, Untouched, DelayDefined, NewSlot;
    if inputs == [] {
    } else {
      StepAccepts(cfg, s, inputs[0]);
      var o := Step(cfg, s, inputs[0]);
      NothingSwallowed(cfg, o.state, inputs[1..]);
      assert [inputs[0]][1..] == [];
    }
  }

  // ---------- first in, first out ----------

  /** The cached clock strictly increased between any two acceptances. */
  predicate ArrivalsIncrease(a: seq<Slot>) {
    forall i, j :: 0 <= i < j < |a| ==> Gt(a[j].arrival, a[i].arrival)
  }

  predicate SameDelay(a: seq<Slot>, d: nat) {
    forall x :: x in a ==> x.applied == d
  }

  /** Every packet is delayed alike: no jitter, or a jitter that wraps to an interval of one. */
  predicate OneDelay(cfg: Config) {
    cfg.jitter == 0 || (cfg.jitter > cfg.delay && (cfg.delay + cfg.jitter) % WORD == 1)
  }

  function OnlyDelay(cfg: Config): nat {
    if cfg.jitter == 0 then cfg.delay % 10_000 else 0
  }

  lemma AppliedOnly(cfg: Config, r: nat)
    requires DelayDefined(cfg) && cfg.delay > 0 && OneDelay(cfg)
    ensures AppliedDelay(cfg, r) == OnlyDelay(cfg)
  {
  }

  lemma StepSameDelay(cfg: Config, s: State, input: Input)
    requires DelayDefined(cfg) && cfg.delay > 0 && OneDelay(cfg) && SameDelay(s.accepted, OnlyDelay(cfg))
    ensures SameDelay(Step(cfg, s, input).state.accepted, OnlyDelay(cfg))
  {
    hide Damaged, Drain, FateOf, Pushed, AppliedDelay, DelayDefined, OneDelay, OnlyDelay;
    if input.Woken? && input.incoming.Simulated? { AppliedOnly(cfg, input.incoming.draws.delay); }
  }

  lemma {:induction false} RunSameDelay(cfg: Config, s: State, inputs: seq<Input>)
    requires DelayDefined(cfg) && cfg.delay > 0 && OneDelay(cfg) && SameDelay(s.accepted, OnlyDelay(cfg))
    ensures SameDelay(Run(cfg, s, inputs).state.accepted, OnlyDelay(cfg))
    decreases |inputs|
  {
    hide Step, DelayDefined, OneDelay, OnlyDelay, SameDelay;
    if inputs == [] {
    } else {
      StepSameDelay(cfg, s, inputs[0]);
      var o := Step(cfg, s, inputs[0]);
      if o.ok { RunSameDelay(cfg, o.state, inputs[1..]); }
    }
  }

  /** Two orderings of the same slots, the first strictly increasing, are equal. */
  lemma {:induction false} SortedUnique(a: seq<Slot>, b: seq<Slot>)
    requires forall i, j :: 0 <= i < j < |a| ==> SlotGt(a[j], a[i])
    requires Sorted(SlotGt, b) && multiset(a) == multiset(b)
    ensures a == b
    decreases |a|
  {
    hide SlotGt;
    assert |a| == |multiset(a)| == |multiset(b)| == |b|;
    if a == [] {
    } else {
      SameHead(a, b);
      WithoutHead(a);
      WithoutHead(b);
      SortedUnique(a[1..], b[1..]);
    }
  }

  lemma WithoutHead(a: seq<Slot>)
    requires |a| > 0
    ensures a == [a[0]] + a[1..] && multiset(a[1..]) == multiset(a) - multiset{a[0]}
  {
    assert a == [a[0]] + a[1..];
  }

  lemma SameHead(a: seq<Slot>, b: seq<Slot>)
    requires |a| > 0 && |b| > 0
    requires forall i, j :: 0 <= i < j < |a| ==> SlotGt(a[j], a[i])
    requires Sorted(SlotGt, b) && multiset(a) == multiset(b)
    ensures a[0] == b[0]
  {
    assert a[0] in multiset(b) && b[0] in multiset(a);
    var i :| 0 <= i < |b| && b[i] == a[0];
    var j :| 0 <= j < |a| && a[j] == b[0];
  }

  lemma SameDelayIncreases(x: Slot, y: Slot, now: Timeval)
    requires SlotOk(x, now) && SlotOk(y, now) && x.applied == y.applied && Gt(y.arrival, x.arrival)
    ensures SlotGt(y, x)
  {
  }

  /** With one delay for all packets, and a clock that moves between arrivals, the heap is a plain
      queue: the packets written so far, followed by the queue in the order in which peek and
      pop empty it, are the accepted packets in order of acceptance. */
  lemma FirstInFirstOut(cfg: Config, clock: Timeval, inputs: seq<Input>, s: State)
    requires DelayDefined(cfg) && Reached(cfg, clock, inputs, s)
    requires cfg.delay > 0 && OneDelay(cfg) && ArrivalsIncrease(s.accepted)
    ensures s.written + DrainAll(SlotGt, s.queue) == s.accepted
  {
    ReachedHolds(cfg, clock, inputs, s);
    RunSameDelay(cfg, Start(clock), inputs);
    hide Run, DelayDefined, HeapOrder;
    var a, rest := s.accepted, DrainAll(SlotGt, s.queue);
    SlotOrder();
    DrainSorts(SlotGt, s.queue);
    forall x, y | x in s.written && y in rest ensures !SlotGt(x, y) {
      assert y in multiset(rest);
      assert y in s.queue;
    }
    SortedAppend(s.written, rest);
    forall i, j | 0 <= i < j < |a| ensures SlotGt(a[j], a[i]) {
      assert a[i] in a && a[j] in a;
      SameDelayIncreases(a[i], a[j], s.clock);
    }
    assert multiset(s.written + rest) == multiset(a);
    SortedUnique(a, s.written + rest);
  }

  // ---------- timing ----------

  /** The instant the packet should leave: its arrival plus the delay applied to it. */
  function Nominal(x: Slot): int {
    Micros(x.arrival) + 1000 * x.applied
  }

  lemma NominalIsExpiry(x: Slot, now: Timeval)
    requires SlotOk(x, now)
    ensures Nominal(x) == Micros(x.ts) && ExpiryDate(x.ts) && !Gt(x.arrival, x.ts)
  {
    ExpiryFacts(x.arrival, x.applied);
  }

  lemma AllOk(s: State, x: Slot)
    requires Inv(s) && (x in s.queue || x in s.written)
    ensures SlotOk(x, s.clock)
  {
    assert x in multiset(s.queue) || x in multiset(s.written);
    assert x in multiset(s.accepted);
    assert x in s.accepted;
  }

  /** A delayed packet is written strictly after it arrived, at most 998 999 microseconds before
      its time, and not before its time if the microseconds of its arrival and its delay add up
      to at most one second. */
  lemma Earliness(cfg: Config, clock: Timeval, inputs: seq<Input>, s: State, i: nat)
    requires DelayDefined(cfg) && Reached(cfg, clock, inputs, s)
    requires i < |s.written|
    ensures |s.writtenAt| == |s.written|
    ensures
      var x, at := s.written[i], s.writtenAt[i];
      && Gt(at, x.arrival)
      && Micros(at) >= Nominal(x) - 998_999
      && (x.arrival.usec + x.applied % 1000 * 1000 <= MILLION ==> Micros(at) >= Nominal(x))
  {
    ReachedHolds(cfg, clock, inputs, s);
    var x, at := s.written[i], s.writtenAt[i];
    AllOk(s, x);
    NominalIsExpiry(x, s.clock);
    EarlyBound(at, x.ts);
    GtTransitive(x.arrival, x.ts, at);
  }

  /** The proxy never sleeps over the time of a queued packet, the head or another one, by more
      than 998 999 microseconds, or one millisecond from now; and it never asks for no sleep. */
  lemma Oversleep(cfg: Config, clock: Timeval, inputs: seq<Input>, s: State, x: Slot)
    requires DelayDefined(cfg) && Reached(cfg, clock, inputs, s) && x in s.queue
    ensures
      var wake := Micros(s.clock) + Micros(Timeout(s));
      && (wake <= Nominal(x) + 998_999 || wake == Micros(s.clock) + 1000)
      && Timeout(s).sec >= 0 && Timeout(s).usec >= 0 && wake > Micros(s.clock)
  {
    ReachedHolds(cfg, clock, inputs, s);
    WakeBound(s, x);
  }

  lemma WakeBound(s: State, x: Slot)
    requires Inv(s) && x in s.queue
    ensures
      var wake := Micros(s.clock) + Micros(Timeout(s));
      && (wake <= Nominal(x) + 998_999 || wake == Micros(s.clock) + 1000)
      && Timeout(s).sec >= 0 && Timeout(s).usec >= 0 && wake > Micros(s.clock)
  {
    var head := s.queue[0];
    AllOk(s, x);
    AllOk(s, head);
    NominalIsExpiry(x, s.clock);
    NominalIsExpiry(head, s.clock);
    SlotOrder();
    PeekMinimal(SlotGt, s.queue);
    assert x in multiset(s.queue);
    assert !SlotGt(head, x);
    LexBound(head.ts, x.ts);
    SleepExact(head.ts, s.clock);
  }
}
