/** Where a datagram that leaves the proxy comes from: one packet that came in, after its fate, in the
    direction told by its sender. */
module Provenance {
  import opened Wrappers
  import opened Crc32
  import opened Heap
  import opened LinkFaults
  import opened Timeval
  import opened Proxy
  import opened ProxyRuns
  import opened ProxyExact
  import A = Addressing

  /** A datagram leaves the proxy from the queue or at once. */
  predicate Leaves(s: State, d: Datagram) {
    || (exists i :: 0 <= i < |s.written| && s.written[i].buf == d.buf && s.written[i].direction == d.direction)
    || d in s.forwarded
  }

  /** What comes of the packet of one round; packets of fewer than 10 bytes come to nothing. */
  predicate Yields(cfg: Config, input: Input, d: Datagram) {
    input.Woken? &&
    match input.incoming
    case Relayed(buf, direction, _) => |buf| >= 10 && d == Datagram(buf, direction)
    case Simulated(buf, direction, draws, _, _, _) =>
      |buf| >= 10 &&
      var fate := FateOf(cfg, draws, buf);
      FatesArePossible(cfg, draws, buf);
      fate != Lost && d == Datagram(Damaged(buf, fate), direction)
    case _ => false
  }

  ghost predicate From(cfg: Config, inputs: seq<Input>, d: Datagram) {
    exists k :: 0 <= k < |inputs| && Yields(cfg, inputs[k], d)
  }

  function AsDatagram(x: Slot): Datagram {
    Datagram(x.buf, x.direction)
  }

  lemma StepFrom(cfg: Config, s: State, input: Input)
    requires DelayDefined(cfg)
    ensures
      var t := Step(cfg, s, input).state;
      && (forall x :: x in t.accepted ==> x in s.accepted || Yields(cfg, input, AsDatagram(x)))
      && (forall d :: d in t.forwarded ==> d in s.forwarded || Yields(cfg, input, d))
  {
    hide Drain, Pushed, Damaged, FateOf, AppliedDelay, DelayDefined;
  }

  lemma {:induction false} RunFrom(cfg: Config, s: State, inputs: seq<Input>)
    requires DelayDefined(cfg)
    ensures
      var t := Run(cfg, s, inputs).state;
      && (forall x :: x in t.accepted ==> x in s.accepted || From(cfg, inputs, AsDatagram(x)))
      && (forall d :: d in t.forwarded ==> d in s.forwarded || From(cfg, inputs, d))
    decreases |inputs|
  {
    hide Step, Yields, DelayDefined;
    if inputs == [] {
    } else {
      StepFrom(cfg, s, inputs[0]);
      var o := Step(cfg, s, inputs[0]);
      if o.ok {
        RunFrom(cfg, o.state, inputs[1..]);
        forall d | From(cfg, inputs[1..], d) ensures From(cfg, inputs, d) { FromLater(cfg, inputs, d); }
      }
    }
  }

  lemma FromLater(cfg: Config, inputs: seq<Input>, d: Datagram)
    requires inputs != [] && From(cfg, inputs[1..], d)
    ensures From(cfg, inputs, d)
  {
    hide Yields;
    var k :| 0 <= k < |inputs| - 1 && Yields(cfg, inputs[1..][k], d);
    assert inputs[k + 1] == inputs[1..][k];
  }

  /** Whatever leaves the proxy in a run is what one of its rounds yields. */
  lemma LeavesFrom(cfg: Config, clock: Timeval, inputs: seq<Input>, s: State, d: Datagram)
    requires DelayDefined(cfg) && Reached(cfg, clock, inputs, s) && Leaves(s, d)
    ensures From(cfg, inputs, d)
  {
    ReachedHolds(cfg, clock, inputs, s);
    RunFrom(cfg, Start(clock), inputs);
    hide Run, From, HeapOrder, InOrder, Stamped, Dated, DelayDefined;
    if d !in s.forwarded {
      var i :| 0 <= i < |s.written| && s.written[i].buf == d.buf && s.written[i].direction == d.direction;
      var x := s.written[i];
      assert x in multiset(s.written);
      assert x in multiset(s.accepted);
      assert x in s.accepted && AsDatagram(x) == d;
    }
  }

  // ---------- one packet goes through ----------

  /** A packet comes in; then time passes. */
  function Through(clock: Timeval, buf: seq<byte>, draws: Draws): seq<Input> {
    [ComesIn(clock, buf, draws)] + [Later(clock)]
  }

  function ComesIn(clock: Timeval, buf: seq<byte>, draws: Draws): Input {
    Woken(clock, [], Simulated(buf, 1, draws, true, true, true))
  }

  function Later(clock: Timeval): Input {
    Woken(Timeval(clock.sec + 100, 0), [], Nothing)
  }

  /** What the first round leaves: the packet after its fate, queued or forwarded. */
  lemma FirstRound(cfg: Config, clock: Timeval, buf: seq<byte>, draws: Draws)
    requires DelayDefined(cfg) && |buf| >= 10 && FateOf(cfg, draws, buf) != Lost && Normal(clock)
    ensures Possible(FateOf(cfg, draws, buf), buf)
    ensures
      var out := Damaged(buf, FateOf(cfg, draws, buf));
      var o := Step(cfg, Start(clock), ComesIn(clock, buf, draws));
      && o.ok && o.state.clock == clock && o.state.written == [] && HeapOrder(SlotGt, o.state.queue)
      && (cfg.delay == 0 ==> o.state.queue == [] && o.state.forwarded == [Datagram(out, 1)])
      && (cfg.delay > 0 ==>
            && |o.state.queue| == 1 && o.state.queue[0].buf == out && o.state.queue[0].direction == 1
            && SlotOk(o.state.queue[0], clock))
  {
    hide Damaged, FateOf, AppliedDelay;
    FatesArePossible(cfg, draws, buf);
    var s := Start(clock);
    NoDrain(s);
    var out := Damaged(buf, FateOf(cfg, draws, buf));
    if cfg.delay > 0 {
      var x := NewSlot(cfg, clock, out, 1, draws.delay);
      NewSlotOk(cfg, clock, out, 1, draws.delay);
      assert Pushed(SlotGt, [], x) == [x];
      SlotOrder();
      PushCorrect(SlotGt, [], x);
    }
    hide Drain, Delivered, Pushed, NewSlot, DelayDefined, SlotOk;
  }

  lemma NoDrain(s: State)
    requires s.queue == [] && s.written == [] && s.writtenAt == []
    ensures Delivered(s, []) == Outcome(s, true)
  {
  }

  lemma DueLater(x: Slot, clock: Timeval)
    requires SlotOk(x, clock) && Normal(clock)
    ensures Gt(Timeval(clock.sec + 100, 0), x.ts)
  {
  }

  /** A packet that is not lost leaves in the end, with or without a delay. */
  lemma GoesThrough(cfg: Config, clock: Timeval, buf: seq<byte>, draws: Draws)
    requires DelayDefined(cfg) && |buf| >= 10 && FateOf(cfg, draws, buf) != Lost && Normal(clock)
    ensures Possible(FateOf(cfg, draws, buf), buf)
    ensures
      var s := Run(cfg, Start(clock), Through(clock, buf, draws)).state;
      && Reached(cfg, clock, Through(clock, buf, draws), s)
      && Leaves(s, Datagram(Damaged(buf, FateOf(cfg, draws, buf)), 1))
  {
    hide Damaged, DelayDefined, FateOf, Step, HeapOrder, DrainAll, SlotOk;
    FirstRound(cfg, clock, buf, draws);
    var first, last := ComesIn(clock, buf, draws), Later(clock);
    var t := Step(cfg, Start(clock), first).state;
    if cfg.delay > 0 {
      OneSlot(t.queue[0]);
      assert t.queue == [t.queue[0]];
      DueLater(t.queue[0], clock);
    }
    RunFirst(cfg, Start(clock), first, [last]);
    Flush(cfg, t, last.clock);
    ClockLast(clock, last.clock);
    ClockFirst(clock, first, [last]);
    hide Run, ClockRuns;
    var s := Run(cfg, Start(clock), Through(clock, buf, draws)).state;
    var out := Damaged(buf, FateOf(cfg, draws, buf));
    if cfg.delay > 0 { assert s.written[0].buf == out; } else { assert s.forwarded == [Datagram(out, 1)]; }
  }

  // ---------- truncation ----------

  /** The packets that come in have more than n bytes. */
  predicate Longer(input: Input, n: nat) {
    input.Woken? && (input.incoming.Relayed? || input.incoming.Simulated?) ==> |input.incoming.buf| > n
  }

  /** Something comes out that is shorter than everything that came in. */
  ghost predicate Shortens(inputs: seq<Input>, s: State) {
    exists d :: Leaves(s, d) && forall k :: 0 <= k < |inputs| ==> Longer(inputs[k], |d.buf|)
  }

  lemma ShorterIfCut(cfg: Config, input: Input, d: Datagram)
    requires Yields(cfg, input, d) && Longer(input, |d.buf|)
    ensures cfg.cutRate > 0 && cfg.lossRate <= 100
  {
  }

  /** A run of the proxy lets a truncated packet out if and only if the link truncates, and does not
      lose everything. */
  lemma TruncatesExactly(cfg: Config)
    requires DelayDefined(cfg)
    ensures (exists clock, inputs, s :: Reached(cfg, clock, inputs, s) && Shortens(inputs, s)) <==>
            cfg.cutRate > 0 && cfg.lossRate <= 100
  {
    if cfg.cutRate > 0 && cfg.lossRate <= 100 {
      var clock, inputs, s := Truncated(cfg);
      hide Reached, Shortens;
    } else {
      hide Reached, Shortens;
      forall clock, inputs, s | Reached(cfg, clock, inputs, s) ensures !Shortens(inputs, s) {
        NothingShortened(cfg, clock, inputs, s);
      }
    }
  }

  lemma NothingShortened(cfg: Config, clock: Timeval, inputs: seq<Input>, s: State)
    requires DelayDefined(cfg) && Reached(cfg, clock, inputs, s) && !(cfg.cutRate > 0 && cfg.lossRate <= 100)
    ensures !Shortens(inputs, s)
  {
    hide Reached, DelayDefined, Yields, Leaves, Longer;
    if d :| Leaves(s, d) && forall k :: 0 <= k < |inputs| ==> Longer(inputs[k], |d.buf|) {
      LeavesFrom(cfg, clock, inputs, s, d);
      var k :| 0 <= k < |inputs| && Yields(cfg, inputs[k], d);
      ShorterIfCut(cfg, inputs[k], d);
    }
  }

  /** The shortest packet that can be truncated. */
  const THIRTEEN: seq<byte> := [64, 0, 0, 0, 0, 0, 0, 0, 0, 0, 0, 0, 0]

  lemma Truncated(cfg: Config) returns (clock: Timeval, inputs: seq<Input>, s: State)
    requires DelayDefined(cfg) && cfg.cutRate > 0 && cfg.lossRate <= 100
    ensures Reached(cfg, clock, inputs, s) && Shortens(inputs, s)
  {
    hide DelayDefined, Run, Reached, Leaves;
    clock := Timeval(0, 0);
    var draws := Draws(100, 0, 0, 0, 0);
    assert Percent(100) == 100;
    assert FateOf(cfg, draws, THIRTEEN) == Cut;
    inputs := Through(clock, THIRTEEN, draws);
    s := Run(cfg, Start(clock), inputs).state;
    GoesThrough(cfg, clock, THIRTEEN, draws);
    CutLeaves(THIRTEEN);
    var d := Datagram(Damaged(THIRTEEN, Cut), 1);
    assert Leaves(s, d) && |d.buf| == 12;
    forall k | 0 <= k < |inputs| ensures Longer(inputs[k], 12) { }
  }

  // ---------- directions ----------

  /** The packet that a round has read comes out as `d`. */
  ghost predicate ReadAs(cfg: Config, w: A.Parties, rounds: seq<A.Round>, k: nat, d: Datagram) {
    && k < |rounds| && rounds[k].WakeUp? && rounds[k].reading.Read?
    && Yields(cfg, A.Resolved(w, rounds)[k], d)
  }

  /** A datagram goes to the other end than the one it comes from. */
  predicate Crosses(end: A.Parties, from: int, d: Datagram) {
    && end.source.Some?
    && ((from == end.source.value && d.direction == 1 && A.Target(end, 1) == Some(end.dest)) ||
        (from == end.dest && d.direction == 2 && A.Target(end, 2) == end.source))
  }

  lemma YieldCrosses(cfg: Config, w: A.Parties, rounds: seq<A.Round>, k: nat, d: Datagram)
    requires ReadAs(cfg, w, rounds, k, d) && 1 <= w.link <= 3
    ensures Crosses(A.PartiesAfter(w, rounds), rounds[k].reading.from, d)
  {
    hide A.PartiesAfter, A.Resolved, FateOf, Damaged;
    A.DirectionsTold(w, rounds, k);
    A.DestKept(w, rounds);
  }

  lemma ReadIfYields(cfg: Config, w: A.Parties, rounds: seq<A.Round>, k: nat, d: Datagram)
    requires k < |rounds| && Yields(cfg, A.Resolved(w, rounds)[k], d)
    ensures ReadAs(cfg, w, rounds, k, d)
  {
    hide A.Resolved;
    if !(rounds[k].WakeUp? && rounds[k].reading.Read?) { A.NothingRead(w, rounds, k); }
  }

  /** Everything that leaves the proxy was read from one end and goes to the other: nothing is sent
      back, unless both ends are the same. */
  lemma NeverSentBack(cfg: Config, w: A.Parties, clock: Timeval, rounds: seq<A.Round>, s: State, d: Datagram)
    returns (k: nat)
    requires DelayDefined(cfg) && 1 <= w.link <= 3
    requires Reached(cfg, clock, A.Resolved(w, rounds), s) && Leaves(s, d)
    ensures ReadAs(cfg, w, rounds, k, d)
    ensures
      var end := A.PartiesAfter(w, rounds);
      && Crosses(end, rounds[k].reading.from, d)
      && (end.source != Some(w.dest) ==> A.Target(end, d.direction) != Some(rounds[k].reading.from))
  {
    hide Reached, Leaves, Yields, DelayDefined, A.Resolved, A.PartiesAfter, ReadAs;
    var inputs := A.Resolved(w, rounds);
    LeavesFrom(cfg, clock, inputs, s, d);
    k :| 0 <= k < |inputs| && Yields(cfg, inputs[k], d);
    ReadIfYields(cfg, w, rounds, k, d);
    YieldCrosses(cfg, w, rounds, k, d);
    A.DestKept(w, rounds);
  }

  /** On a link that simulates one direction only, what goes the other way is what was read, from the
      end it comes from, byte by byte. */
  lemma OtherWayUntouched(cfg: Config, w: A.Parties, clock: Timeval, rounds: seq<A.Round>, s: State, d: Datagram)
    returns (k: nat)
    requires DelayDefined(cfg) && 1 <= w.link <= 2 && d.direction == 3 - w.link
    requires Reached(cfg, clock, A.Resolved(w, rounds), s) && Leaves(s, d)
    ensures ReadAs(cfg, w, rounds, k, d) && d.buf == rounds[k].reading.buf
    ensures Crosses(A.PartiesAfter(w, rounds), rounds[k].reading.from, d)
  {
    hide Reached, Leaves, DelayDefined, A.Resolved, A.PartiesAfter, FateOf, Damaged;
    k := NeverSentBack(cfg, w, clock, rounds, s, d);
    A.DirectionsTold(w, rounds, k);
    A.DestKept(w, rounds);
  }
}
