/** When delayed packets leave.  The timeout given to select is computed from the cached clock,
    which an interrupted select does not refresh: each signal makes the proxy sleep its whole
    timeout again.  This module bounds how late packets leave by the number of signals in a row,
    and shows that the bound is reached. */
module Punctuality {
  import opened Crc32
  import opened Heap
  import opened LinkFaults
  import opened Timeval
  import opened Proxy
  import opened ProxyExact
  import opened ProxyRuns

  /** The longest timeout that can be asked for, in microseconds. */
  const LONGEST: int := 9_999_000

  /** When select returned; the next call follows. */
  function Returned(called: int, input: Input): int {
    match input
    case Interrupted(now) => now
    case Failed => called
    case Woken(clock, _, _) => Micros(clock)
  }

  /** Writes succeed, and select, called at the instant `called`, returns at most `slack`
      microseconds after the timeout it was given. */
  predicate PromptInput(s: State, called: int, input: Input, slack: nat) {
    && (input.Woken? ==> forall k :: 0 <= k < |input.sends| ==> input.sends[k] == Sent)
    && (|s.queue| > 0 && !input.Failed? ==>
          Returned(called, input) <= called + Micros(Timeout(s)) + slack)
  }

  predicate Prompt(cfg: Config, s: State, called: int, inputs: seq<Input>, slack: nat)
    requires DelayDefined(cfg)
    decreases |inputs|
  {
    inputs == [] ||
    (&& PromptInput(s, called, inputs[0], slack)
     && var o := Step(cfg, s, inputs[0]);
        o.ok ==> Prompt(cfg, o.state, Returned(called, inputs[0]), inputs[1..], slack))
  }

  /** Never more than `most` interruptions in a row, `k` of which came just before. */
  predicate InterruptedAtMost(inputs: seq<Input>, k: nat, most: nat)
    decreases |inputs|
  {
    k <= most && (inputs == [] || InterruptedAtMost(inputs[1..], if inputs[0].Interrupted? then k + 1 else 0, most))
  }

  /** The most a packet can be late after k interruptions: each call of select can overrun by
      `slack`, and each interruption costs one more sleep.  In a sleep of the longest kind, to the
      microsecond, no packet is late otherwise; in any other one can be, by 998 999 microseconds. */
  function Worst(k: nat, slack: nat): (w: nat)
  {
    var some, longest := 998_999 + k * (LONGEST - 1), k * LONGEST;
    (k + 1) * slack + if some >= longest then some else longest
  }

  lemma WorstGrows(k: nat, most: nat, slack: nat)
    requires k <= most
    ensures Worst(k, slack) <= Worst(most, slack)
    decreases most - k
  {
    if k == most {
    } else {
      WorstGrows(k + 1, most, slack);
      Distributed(k, slack);
      Distributed(k, LONGEST);
      Distributed(k, LONGEST - 1);
      Distributed(k + 1, slack);
    }
  }

  lemma Distributed(k: nat, w: int)
    ensures (k + 1) * w == k * w + w
  {
  }

  /** The last call of select, after k interruptions. */
  predicate Resumed(s: State, called: int, k: nat, slack: nat) {
    |s.queue| > 0 ==> called <= Micros(s.clock) + Sleeps(k, Micros(Timeout(s)) + slack)
  }

  function Sleeps(k: nat, w: int): int {
    k * w
  }

  lemma SleepsWorst(k: nat, timeout: int, slack: nat)
    requires 0 < timeout <= LONGEST
    ensures (if timeout == LONGEST then 0 else 998_999) + Sleeps(k, timeout + slack) + slack <= Worst(k, slack)
  {
    assert k * (timeout + slack) == k * timeout + k * slack && (k + 1) * slack == k * slack + slack;
    if timeout < LONGEST {
      var d := LONGEST - 1 - timeout;
      assert k * (LONGEST - 1) == k * timeout + k * d && k * d >= 0;
    }
  }

  /** Nothing queued is overdue. */
  ghost predicate NothingOverdue(s: State) {
    forall x :: x in s.queue ==> Nominal(x) >= Micros(s.clock)
  }

  predicate OnTime(s: State, late: nat)
    requires |s.written| == |s.writtenAt|
  {
    forall i :: 0 <= i < |s.written| ==>
      -998_999 <= Micros(s.writtenAt[i]) - Nominal(s.written[i]) <= late
  }

  /** What is still queued when the clock has moved on is due soon enough. */
  ghost predicate DueSoon(s: State, late: nat) {
    forall x :: x in s.queue ==> Micros(s.clock) <= Nominal(x) + late
  }

  lemma TimeoutBound(s: State)
    requires Inv(s) && |s.queue| > 0
    ensures 0 < Micros(Timeout(s)) <= LONGEST
  {
    hide HeapOrder, Conserved, InOrder, Stamped;
    var head := s.queue[0];
    assert head in s.queue;
    AllOk(s, head);
    NominalIsExpiry(head, s.clock);
    SleepExact(head.ts, s.clock);
    ArrivedBefore(head, s.clock);
  }

  lemma ArrivedBefore(x: Slot, now: Timeval)
    requires SlotOk(x, now) && Normal(now)
    ensures Micros(x.arrival) <= Micros(now)
  {
  }

  /** When the wake-up asked for comes after the time of some packet. */
  lemma GapBound(s: State, x: Slot)
    requires Inv(s) && NothingOverdue(s) && x in s.queue
    ensures
      var t := Micros(Timeout(s));
      0 < t <= LONGEST && Micros(s.clock) + t <= Nominal(x) + if t == LONGEST then 0 else 998_999
  {
    hide HeapOrder, Dated, Conserved, InOrder, Stamped, Timeout;
    TimeoutBound(s);
    WakeBound(s, x);
    if Micros(Timeout(s)) == LONGEST { LongestIsHead(s, x); }
  }

  /** A sleep of the longest kind is to a head that has just arrived, and ends before everything. */
  lemma LongestIsHead(s: State, x: Slot)
    requires Inv(s) && x in s.queue && Micros(Timeout(s)) == LONGEST
    ensures Micros(s.clock) + LONGEST <= Nominal(x)
  {
    var head := s.queue[0];
    AllOk(s, x);
    AllOk(s, head);
    NominalIsExpiry(x, s.clock);
    NominalIsExpiry(head, s.clock);
    SlotOrder();
    PeekMinimal(SlotGt, s.queue);
    assert x in multiset(s.queue);
    assert !SlotGt(head, x);
    SleepExact(head.ts, s.clock);
    hide Inv, Timeout;
    ArrivedBefore(head, s.clock);
    LongestDates(head, x, s.clock);
  }

  lemma LongestDates(head: Slot, x: Slot, now: Timeval)
    requires SlotOk(head, now) && SlotOk(x, now) && Normal(now) && !Gt(head.ts, x.ts)
    requires Nominal(head) == Micros(now) + LONGEST
    ensures Nominal(x) >= Nominal(head)
  {
    ArrivedBefore(head, now);
    assert head.applied == 9999 && head.arrival == now;
    assert head.ts == Timeval(now.sec + 9, now.usec + 999_000);
    assert x.applied / 1000 <= 9;
  }

  lemma TickDueSoon(s: State, called: int, input: Input, k: nat, slack: nat, late: nat)
    requires Inv(s) && NothingOverdue(s) && input.Woken? && PromptInput(s, called, input, slack)
    requires Resumed(s, called, k, slack) && Worst(k, slack) <= late
    ensures DueSoon(s.(clock := input.clock), late)
  {
    hide HeapOrder, Dated, Conserved, InOrder, Stamped, Timeout, Sleeps, Worst, Nominal;
    forall x | x in s.queue ensures Micros(input.clock) <= Nominal(x) + late {
      GapBound(s, x);
      SleepsWorst(k, Micros(Timeout(s)), slack);
    }
  }

  lemma DeliverOnTime(s: State, sends: seq<SendResult>, late: nat)
    requires Inv(s) && OnTime(s, late) && DueSoon(s, late)
    requires forall k :: 0 <= k < |sends| ==> sends[k] == Sent
    ensures
      var o := Delivered(s, sends);
      o.ok && Inv(o.state) && OnTime(o.state, late) && NothingOverdue(o.state)
  {
    DeliverKeeps(s, sends);
    CleanDrain(s.queue, s.clock, sends);
    DrainKeeps(s.queue, s.clock, sends);
    hide Drain, HeapOrder, Conserved, InOrder, Dated, Stamped, Sorted;
    var d := Drain(s.queue, s.clock, sends);
    DrainMembers(s.queue, d);
    var t := Delivered(s, sends).state;
    forall x | x in d.out ensures -998_999 <= Micros(s.clock) - Nominal(x) <= late {
      LeavesOnTime(s, x, late);
    }
    OnTimeAppend(s, d.out, late);
    forall x | x in t.queue ensures Nominal(x) >= Micros(t.clock) {
      StaysInTime(s, x);
    }
  }

  lemma LeavesOnTime(s: State, x: Slot, late: nat)
    requires Inv(s) && DueSoon(s, late) && x in s.queue && Gt(s.clock, x.ts)
    ensures -998_999 <= Micros(s.clock) - Nominal(x) <= late
  {
    AllOk(s, x);
    NominalIsExpiry(x, s.clock);
    EarlyBound(s.clock, x.ts);
  }

  lemma StaysInTime(s: State, x: Slot)
    requires Inv(s) && x in s.queue && !Gt(s.clock, x.ts)
    ensures Nominal(x) >= Micros(s.clock)
  {
    AllOk(s, x);
    NominalIsExpiry(x, s.clock);
    if Micros(s.clock) > Micros(x.ts) { PastIsExpired(s.clock, x.ts); }
  }

  lemma OnTimeAppend(s: State, out: seq<Slot>, late: nat)
    requires |s.written| == |s.writtenAt| && OnTime(s, late)
    requires forall x :: x in out ==> -998_999 <= Micros(s.clock) - Nominal(x) <= late
    ensures OnTime(s.(written := s.written + out, writtenAt := s.writtenAt + seq(|out|, _ => s.clock)), late)
  {
    hide Nominal, Micros;
    var w, at := s.written + out, s.writtenAt + seq(|out|, _ => s.clock);
    forall i | 0 <= i < |w| ensures -998_999 <= Micros(at[i]) - Nominal(w[i]) <= late {
      if i >= |s.written| { assert w[i] == out[i - |s.written|] && w[i] in out; }
    }
  }

  lemma ProcessOnTime(cfg: Config, s: State, incoming: Incoming, late: nat)
    requires DelayDefined(cfg) && Inv(s) && OnTime(s, late) && NothingOverdue(s)
    ensures
      var t := Processed(cfg, s, incoming).state;
      |t.written| == |t.writtenAt| && OnTime(t, late) && NothingOverdue(t)
  {
    hide HeapOrder, Conserved, InOrder, Dated, Stamped, Damaged, AppliedDelay, FateOf, DelayDefined, Pushed;
    if incoming.Simulated? {
      if |incoming.buf| >= MIN_PKT_LEN && FateOf(cfg, incoming.draws, incoming.buf) != Lost && cfg.delay > 0 {
        FatesArePossible(cfg, incoming.draws, incoming.buf);
        var b := Damaged(incoming.buf, FateOf(cfg, incoming.draws, incoming.buf));
        var x := NewSlot(cfg, s.clock, b, incoming.direction, incoming.draws.delay);
        EnqueueOnTime(s, x, incoming.slotMemory, incoming.queueMemory);
      }
    }
  }

  lemma EnqueueOnTime(s: State, slot: Slot, slotMemory: bool, queueMemory: bool)
    requires Inv(s) && NothingOverdue(s) && slot.arrival == s.clock
    ensures NothingOverdue(Enqueued(s, slot, slotMemory, queueMemory).state)
  {
    hide Pushed, HeapOrder, Conserved, InOrder, Dated, Stamped;
    var t := Enqueued(s, slot, slotMemory, queueMemory).state;
    SlotOrder();
    PushCorrect(SlotGt, s.queue, slot);
    forall x | x in t.queue ensures Nominal(x) >= Micros(t.clock) {
      assert x in multiset(t.queue);
      assert x in s.queue || x == slot;
    }
  }

  lemma StepOnTime(cfg: Config, s: State, called: int, input: Input, k: nat, most: nat, slack: nat)
    requires DelayDefined(cfg) && Inv(s) && ClockStep(s.clock, input) && PromptInput(s, called, input, slack)
    requires k <= most && Resumed(s, called, k, slack)
    requires OnTime(s, Worst(most, slack)) && NothingOverdue(s)
    ensures
      var t := Step(cfg, s, input).state;
      && |t.written| == |t.writtenAt| && OnTime(t, Worst(most, slack)) && NothingOverdue(t)
      && (Step(cfg, s, input).ok ==>
            Resumed(t, Returned(called, input), if input.Interrupted? then k + 1 else 0, slack))
  {
    var late := Worst(most, slack);
    hide Worst, Sleeps, OnTime, NothingOverdue, Processed, Delivered, Timeout;
    WorstGrows(k, most, slack);
    match input {
      case Woken(clock, sends, incoming) =>
        var t := s.(clock := clock);
        TickKeeps(s, clock);
        TickDueSoon(s, called, input, k, slack, late);
        SameTimes(s, clock, late);
        DeliverOnTime(t, sends, late);
        var o := Delivered(t, sends);
        ProcessOnTime(cfg, o.state, incoming, late);
        StepClock(cfg, s, input);
        NoSleeps(Step(cfg, s, input).state, slack);
      case Interrupted(now) =>
        if |s.queue| > 0 { OneMoreSleep(k, Micros(Timeout(s)) + slack); }
      case Failed =>
    }
  }

  lemma NoSleeps(s: State, slack: nat)
    ensures Resumed(s, Micros(s.clock), 0, slack)
  {
  }

  lemma OneMoreSleep(k: nat, w: int)
    ensures Sleeps(k + 1, w) == Sleeps(k, w) + w
  {
  }

  lemma SameTimes(s: State, clock: Timeval, late: nat)
    requires |s.written| == |s.writtenAt| && OnTime(s, late)
    ensures OnTime(s.(clock := clock), late)
  {
  }

  lemma {:induction false} RunOnTime(cfg: Config, s: State, called: int, inputs: seq<Input>,
                                     k: nat, most: nat, slack: nat)
    requires DelayDefined(cfg) && Inv(s) && ClockRuns(s.clock, inputs) && Prompt(cfg, s, called, inputs, slack)
    requires InterruptedAtMost(inputs, k, most) && Resumed(s, called, k, slack)
    requires OnTime(s, Worst(most, slack)) && NothingOverdue(s)
    ensures
      var t := Run(cfg, s, inputs).state;
      |t.written| == |t.writtenAt| && OnTime(t, Worst(most, slack)) && NothingOverdue(t)
    decreases |inputs|
  {
    assert |s.written| == |s.writtenAt|;
    hide Worst, OnTime, NothingOverdue, Resumed, PromptInput, Inv, Step, DelayDefined, Returned;
    if inputs == [] {
    } else {
      StepOnTime(cfg, s, called, inputs[0], k, most, slack);
      StepKeeps(cfg, s, inputs[0]);
      StepClock(cfg, s, inputs[0]);
      var o := Step(cfg, s, inputs[0]);
      if o.ok {
        RunOnTime(cfg, o.state, Returned(called, inputs[0]), inputs[1..],
                  if inputs[0].Interrupted? then k + 1 else 0, most, slack);
      }
    }
  }

  /** When writes succeed and select keeps to its timeouts up to `slack`, every delayed packet of
      a run leaves at most 998 999 microseconds early, and late by at most the worst for the number
      of interruptions in a row; and what is queued was not overdue at the last reading of the
      clock. */
  lemma LatenessBound(cfg: Config, clock: Timeval, inputs: seq<Input>, most: nat, slack: nat, s: State)
    requires DelayDefined(cfg) && Reached(cfg, clock, inputs, s)
    requires Prompt(cfg, Start(clock), Micros(clock), inputs, slack) && InterruptedAtMost(inputs, 0, most)
    ensures |s.written| == |s.writtenAt|
    ensures forall i :: 0 <= i < |s.written| ==>
      -998_999 <= Micros(s.writtenAt[i]) - Nominal(s.written[i]) <= Worst(most, slack)
    ensures forall x :: x in s.queue ==> Nominal(x) >= Micros(s.clock)
  {
    StartHolds(clock);
    NoSleeps(Start(clock), slack);
    hide Run, Prompt, Inv, Worst, Resumed;
    RunOnTime(cfg, Start(clock), Micros(clock), inputs, 0, most, slack);
  }

  // ---------- one packet at a time ----------

  /** The interruptions since the last wake-up, `k` of them before. */
  function Trailing(inputs: seq<Input>, k: nat): (n: nat)
    ensures n <= k + |inputs|
    decreases |inputs|
  {
    if inputs == [] then k else Trailing(inputs[1..], if inputs[0].Interrupted? then k + 1 else 0)
  }

  /** When select is called after some rounds. */
  function CalledAfter(called: int, inputs: seq<Input>): int
    decreases |inputs|
  {
    if inputs == [] then called else CalledAfter(Returned(called, inputs[0]), inputs[1..])
  }

  lemma {:induction false} RunResumed(cfg: Config, s: State, called: int, inputs: seq<Input>,
                                      k: nat, most: nat, slack: nat)
    requires DelayDefined(cfg) && Inv(s) && ClockRuns(s.clock, inputs) && Prompt(cfg, s, called, inputs, slack)
    requires k + |inputs| <= most && Resumed(s, called, k, slack)
    requires OnTime(s, Worst(most, slack)) && NothingOverdue(s) && Run(cfg, s, inputs).ok
    ensures
      var t := Run(cfg, s, inputs).state;
      NothingOverdue(t) && Resumed(t, CalledAfter(called, inputs), Trailing(inputs, k), slack)
    decreases |inputs|
  {
    hide Worst, OnTime, NothingOverdue, Resumed, PromptInput, Inv, Step, DelayDefined, Returned;
    if inputs == [] {
    } else {
      StepOnTime(cfg, s, called, inputs[0], k, most, slack);
      StepKeeps(cfg, s, inputs[0]);
      StepClock(cfg, s, inputs[0]);
      RunResumed(cfg, Step(cfg, s, inputs[0]).state, Returned(called, inputs[0]), inputs[1..],
                 if inputs[0].Interrupted? then k + 1 else 0, most, slack);
    }
  }

  /** A packet written at a wake-up is late by at most the worst for the number of interruptions
      since the wake-up before. */
  lemma RoundLateness(cfg: Config, clock: Timeval, inputs: seq<Input>, s: State, last: Input, slack: nat, x: Slot)
    requires DelayDefined(cfg) && Reached(cfg, clock, inputs, s) && Run(cfg, Start(clock), inputs).ok
    requires Prompt(cfg, Start(clock), Micros(clock), inputs, slack)
    requires last.Woken? && ClockStep(s.clock, last)
    requires PromptInput(s, CalledAfter(Micros(clock), inputs), last, slack)
    requires x in Drain(s.queue, last.clock, last.sends).out
    ensures Micros(last.clock) - Nominal(x) <= Worst(Trailing(inputs, 0), slack)
  {
    StartHolds(clock);
    ReachedHolds(cfg, clock, inputs, s);
    NoSleeps(Start(clock), slack);
    hide Run, Prompt, Inv, HeapOrder, Drain, Nominal, CalledAfter, Trailing, Worst, Resumed;
    RunResumed(cfg, Start(clock), Micros(clock), inputs, 0, |inputs|, slack);
    var k := Trailing(inputs, 0);
    TickDueSoon(s, CalledAfter(Micros(clock), inputs), last, k, slack, Worst(k, slack));
    DrainTakes(s, last, x);
  }

  lemma DrainTakes(s: State, last: Input, x: Slot)
    requires Inv(s) && last.Woken? && x in Drain(s.queue, last.clock, last.sends).out
    ensures x in s.queue
  {
    hide Drain;
    DrainKeeps(s.queue, last.clock, last.sends);
    DrainMembers(s.queue, Drain(s.queue, last.clock, last.sends));
  }

  // ---------- the bound is reached ----------

  /** n signals, each just when the proxy was about to wake. */
  function Signals(called: int, period: nat, n: nat): seq<Input>
    decreases n
  {
    if n == 0 then [] else [Interrupted(called + period)] + Signals(called + period, period, n - 1)
  }

  /** The instant after them. */
  function LastCall(called: int, period: nat, n: nat): int
    decreases n
  {
    if n == 0 then called else LastCall(called + period, period, n - 1)
  }

  lemma {:induction false} LastCallIs(called: int, period: nat, n: nat)
    ensures LastCall(called, period, n) == called + n * period
    decreases n
  {
    if n == 0 {
    } else {
      LastCallIs(called + period, period, n - 1);
      assert n * period == period + (n - 1) * period;
    }
  }

  function ToTimeval(micros: nat): (t: Timeval)
    ensures Normal(t) && Micros(t) == micros
  {
    Timeval(micros / MILLION, micros % MILLION)
  }

  /** A signal changes nothing but the instant of the next call. */
  lemma SignalPasses(cfg: Config, s: State, called: int, now: int, rest: seq<Input>, k: nat, most: nat, slack: nat)
    requires DelayDefined(cfg) && |s.queue| > 0 && now <= called + Micros(Timeout(s)) + slack
    requires Prompt(cfg, s, now, rest, slack) && InterruptedAtMost(rest, k + 1, most) && k <= most
    ensures
      var inputs := [Interrupted(now)] + rest;
      && Run(cfg, s, inputs) == Run(cfg, s, rest) && Prompt(cfg, s, called, inputs, slack)
      && InterruptedAtMost(inputs, k, most) && (ClockRuns(s.clock, rest) ==> ClockRuns(s.clock, inputs))
  {
    hide DelayDefined, Timeout;
    assert ([Interrupted(now)] + rest)[1..] == rest;
  }

  lemma {:induction false} SignalsPass(cfg: Config, s: State, called: int, period: nat, n: nat, k: nat,
                                       last: Input, slack: nat)
    requires DelayDefined(cfg) && |s.queue| > 0 && Micros(Timeout(s)) + slack == period && last.Woken?
    requires Prompt(cfg, s, LastCall(called, period, n), [last], slack)
    ensures
      var inputs := Signals(called, period, n) + [last];
      && Run(cfg, s, inputs) == Run(cfg, s, [last]) && Prompt(cfg, s, called, inputs, slack)
      && InterruptedAtMost(inputs, k, k + n)
      && (ClockRuns(s.clock, [last]) ==> ClockRuns(s.clock, inputs))
    decreases n
  {
    hide DelayDefined, Timeout, Run, Prompt, ClockRuns;
    var inputs := Signals(called, period, n) + [last];
    if n == 0 {
      assert inputs == [last];
      assert [last][1..] == [];
    } else {
      hide InterruptedAtMost;
      var now := called + period;
      var rest := Signals(now, period, n - 1) + [last];
      SignalsPass(cfg, s, now, period, n - 1, k + 1, last, slack);
      SignalPasses(cfg, s, called, now, rest, k, k + n, slack);
      assert inputs == [Interrupted(now)] + rest;
    }
  }

  /** From a state on, k signals and a wake-up, each as late as `slack` permits. */
  function Waiting(clock: Timeval, timeout: nat, k: nat, slack: nat): seq<Input>
    requires Micros(clock) >= 0
  {
    Signals(Micros(clock), timeout + slack, k) + [Woken(WokenAt(clock, timeout, k, slack), [], Nothing)]
  }

  function WokenAt(clock: Timeval, timeout: nat, k: nat, slack: nat): (t: Timeval)
    requires Micros(clock) >= 0
    ensures Normal(t) && Micros(t) >= Micros(clock)
  {
    ToTimeval(Micros(clock) + (k + 1) * (timeout + slack))
  }

  lemma WaitingEnds(cfg: Config, s: State, k: nat, slack: nat, timeout: nat)
    requires DelayDefined(cfg) && |s.queue| > 0 && HeapOrder(SlotGt, s.queue)
    requires Normal(s.clock) && Micros(s.clock) >= 0 && Micros(Timeout(s)) == timeout
    requires forall x :: x in s.queue ==> Gt(WokenAt(s.clock, timeout, k, slack), x.ts)
    ensures
      var inputs, end := Waiting(s.clock, timeout, k, slack), WokenAt(s.clock, timeout, k, slack);
      var t, out := Run(cfg, s, inputs).state, DrainAll(SlotGt, s.queue);
      && Prompt(cfg, s, Micros(s.clock), inputs, slack) && InterruptedAtMost(inputs, 0, k)
      && ClockRuns(s.clock, inputs)
      && t.written == s.written + out && t.writtenAt == s.writtenAt + seq(|out|, _ => end)
  {
    hide Run, Prompt, InterruptedAtMost, Signals, Timeout, ClockRuns, HeapOrder, DrainAll, DelayDefined, ToTimeval;
    var end, period := WokenAt(s.clock, timeout, k, slack), timeout + slack;
    var last := Woken(end, [], Nothing);
    LastCallIs(Micros(s.clock), period, k);
    Distributed(k, period);
    LastPrompt(cfg, s, LastCall(Micros(s.clock), period, k), last, slack);
    StartsLate(s.clock, last);
    SignalsPass(cfg, s, Micros(s.clock), period, k, 0, last, slack);
    Flush(cfg, s, end);
  }

  lemma StartsLate(start: Timeval, last: Input)
    requires Normal(start) && last.Woken? && Normal(last.clock) && Micros(last.clock) >= Micros(start)
    ensures ClockRuns(start, [last])
  {
    assert [last][1..] == [];
  }

  lemma LastPrompt(cfg: Config, s: State, called: int, last: Input, slack: nat)
    requires DelayDefined(cfg) && last.Woken? && last.sends == []
    requires |s.queue| > 0 && Micros(last.clock) <= called + Micros(Timeout(s)) + slack
    ensures Prompt(cfg, s, called, [last], slack)
  {
    assert [last][1..] == [];
  }

  /** A round in which a packet comes in, before the rest of a run. */
  lemma RoundBefore(cfg: Config, s: State, called: int, first: Input, rest: seq<Input>, most: nat, slack: nat)
    requires DelayDefined(cfg) && first.Woken? && Normal(first.clock) && !Gt(s.clock, first.clock)
    requires PromptInput(s, called, first, slack) && Step(cfg, s, first).ok
    requires
      var t := Step(cfg, s, first).state;
      && Prompt(cfg, t, Micros(first.clock), rest, slack) && InterruptedAtMost(rest, 0, most)
      && ClockRuns(first.clock, rest)
    ensures
      var inputs := [first] + rest;
      && ClockRuns(s.clock, inputs) && Prompt(cfg, s, called, inputs, slack) && InterruptedAtMost(inputs, 0, most)
      && Run(cfg, s, inputs) == Run(cfg, Step(cfg, s, first).state, rest)
  {
    hide Step, DelayDefined, PromptInput;
    assert ([first] + rest)[1..] == rest;
  }

  /** A round with a packet that is neither lost nor damaged, and nothing due. */
  function Arrives(clock: Timeval, buf: seq<byte>, r: nat): Input {
    Woken(clock, [], Simulated(buf, 1, Draws(0, 0, 0, 0, r), true, true, true))
  }

  predicate Faultless(cfg: Config) {
    cfg.delay > 0 && cfg.lossRate == 0 && cfg.cutRate == 0 && cfg.errRate == 0
  }

  lemma ArrivesStep(cfg: Config, s: State, clock: Timeval, buf: seq<byte>, r: nat)
    requires DelayDefined(cfg) && Faultless(cfg) && |buf| >= MIN_PKT_LEN && |s.queue| < s.alloc
    requires |s.queue| > 0 ==> !Gt(clock, s.queue[0].ts)
    ensures
      var x := NewSlot(cfg, clock, buf, 1, r);
      Step(cfg, s, Arrives(clock, buf, r)) ==
        Outcome(s.(clock := clock, queue := Pushed(SlotGt, s.queue, x), accepted := s.accepted + [x]), true)
  {
    hide Pushed, AppliedDelay, DelayDefined, NewSlot;
    var t := s.(clock := clock);
    assert Drain(t.queue, clock, []) == Drained(t.queue, [], true);
    assert t.written + [] == t.written && t.writtenAt + seq(0, _ => clock) == t.writtenAt;
    assert Delivered(t, []) == Outcome(t, true);
    hide Drain, Delivered;
  }

  lemma OneIsHeap(x: Slot)
    ensures Pushed(SlotGt, [], x) == [x] && HeapOrder(SlotGt, [x])
  {
    SlotOrder();
    assert Pushed(SlotGt, [], x) == [x];
    PushCorrect(SlotGt, [], x);
  }

  /** One packet, delayed by `d` milliseconds, n signals, and a wake-up. */
  function Signalled(d: nat, buf: seq<byte>, n: nat, slack: nat): seq<Input> {
    [Arrives(Timeval(0, 0), buf, 0)] + Waiting(Timeval(0, 0), 1000 * d, n, slack)
  }

  lemma AloneQueued(d: nat, buf: seq<byte>)
    requires 0 < d < 10_000
    ensures
      var x := NewSlot(Config(d, 0, 0, 0, 0), Timeval(0, 0), buf, 1, 0);
      && x.ts == Timeval(d / 1000, d % 1000 * 1000) && Micros(x.ts) == 1000 * d == Nominal(x) && ExpiryDate(x.ts)
      && Micros(SleepTime(x.ts, Timeval(0, 0))) == 1000 * d
  {
  }

  /** For every delay and every number n of signals there is a run in which select always keeps to
      its timeout, up to `slack` exactly, and the packet leaves n times its delay too late, besides. */
  lemma SignalsDelay(d: nat, buf: seq<byte>, n: nat, slack: nat)
    requires 0 < d < 10_000 && |buf| >= MIN_PKT_LEN && (n > 0 || slack > 0)
    ensures
      var cfg := Config(d, 0, 0, 0, 0);
      var start, inputs := Timeval(0, 0), Signalled(d, buf, n, slack);
      && ClockRuns(start, inputs) && Prompt(cfg, Start(start), 0, inputs, slack) && InterruptedAtMost(inputs, 0, n)
      && var s := Run(cfg, Start(start), inputs).state;
        && |s.written| == |s.writtenAt| == 1
        && Micros(s.writtenAt[0]) - Nominal(s.written[0]) == n * (1000 * d) + (n + 1) * slack
  {
    var cfg, start := Config(d, 0, 0, 0, 0), Timeval(0, 0);
    var x := NewSlot(cfg, start, buf, 1, 0);
    var first := Arrives(start, buf, 0);
    ArrivesStep(cfg, Start(start), start, buf, 0);
    AloneQueued(d, buf);
    OneIsHeap(x);
    OneSlot(x);
    hide Prompt, Run, InterruptedAtMost, Waiting, WokenAt, ClockRuns, Nominal, NewSlot, DelayDefined, Step;
    hide HeapOrder, DrainAll, Pushed;
    var one := Step(cfg, Start(start), first).state;
    Multiples(n, 1000 * d, slack);
    WokenIs(start, 1000 * d, n, slack);
    PastIsExpired(WokenAt(start, 1000 * d, n, slack), x.ts);
    WaitingEnds(cfg, one, n, slack, 1000 * d);
    RoundBefore(cfg, Start(start), 0, first, Waiting(start, 1000 * d, n, slack), n, slack);
  }

  lemma WokenIs(clock: Timeval, timeout: nat, k: nat, slack: nat)
    requires Micros(clock) >= 0
    ensures Micros(WokenAt(clock, timeout, k, slack)) == Micros(clock) + timeout + k * timeout + (k + 1) * slack
  {
    assert (k + 1) * (timeout + slack) == (k + 1) * timeout + (k + 1) * slack;
    Distributed(k, timeout);
  }

  lemma Multiples(n: nat, period: nat, slack: nat)
    requires n > 0 || slack > 0
    ensures period > 0 ==> n * period + (n + 1) * slack > 0
  {
    if n > 0 { assert n * period == period + (n - 1) * period; }
    assert (n + 1) * slack == n * slack + slack;
  }

  // ---------- two packets ----------

  /** Delays from 9000 to 9999 ms. */
  const WIDE: Config := Config(9500, 500, 0, 0, 0)

  const EARLY: Timeval := Timeval(0, 999_999)
  const LATER: Timeval := Timeval(1, 0)

  lemma WideDraws()
    ensures DelayDefined(WIDE) && AppliedDelay(WIDE, 999) == 9999 && AppliedDelay(WIDE, 0) == 9000
  {
    assert (2 * WIDE.jitter) % WORD == 1000;
    NarrowDraw(WIDE, 999);
    NarrowDraw(WIDE, 0);
  }

  lemma PairTimes()
    ensures Expiry(EARLY, 9999) == Timeval(9, 1_998_999) && Expiry(LATER, 9000) == Timeval(10, 0)
    ensures Micros(SleepTime(Timeval(9, 1_998_999), EARLY)) == LONGEST
    ensures Micros(SleepTime(Timeval(9, 1_998_999), LATER)) == LONGEST - 1
  {
    ExpiryAt(EARLY, 9999, 9, 999);
    ExpiryAt(LATER, 9000, 9, 0);
  }

  /** A packet late in its second, delayed by 9999 ms, and one a microsecond after it, by 9000 ms:
      the first is awaited, and the second is due first. */
  lemma PairQueued(buf: seq<byte>)
    ensures DelayDefined(WIDE)
    ensures
      var x, y := NewSlot(WIDE, EARLY, buf, 1, 999), NewSlot(WIDE, LATER, buf, 1, 0);
      x.ts == Timeval(9, 1_998_999) && y.ts == Timeval(10, 0) && Nominal(y) == 10_000_000
  {
    hide NewSlot, AppliedDelay, DelayDefined, Expiry, Nominal, Micros;
    WideDraws();
    PairTimes();
    SlotDates(WIDE, EARLY, buf, 999, 9999);
    SlotDates(WIDE, LATER, buf, 0, 9000);
    MicrosLater();
  }

  lemma MicrosLater()
    ensures Micros(LATER) == 1_000_000
  {
  }

  lemma SlotDates(cfg: Config, clock: Timeval, buf: seq<byte>, r: nat, a: nat)
    requires DelayDefined(cfg) && cfg.delay > 0 && AppliedDelay(cfg, r) == a
    ensures
      var x := NewSlot(cfg, clock, buf, 1, r);
      x.ts == Expiry(clock, a) && Nominal(x) == Micros(clock) + 1000 * a
  {
    hide AppliedDelay, DelayDefined, Expiry;
  }

  function Paired(buf: seq<byte>, k: nat, slack: nat): seq<Input> {
    [Arrives(EARLY, buf, 999)] + ([Arrives(LATER, buf, 0)] + Waiting(LATER, LONGEST - 1, k, slack))
  }

  lemma PairIsHeap(x: Slot, y: Slot)
    requires SlotGt(y, x)
    ensures Pushed(SlotGt, [x], y) == [x, y] == DrainAll(SlotGt, [x, y]) && HeapOrder(SlotGt, [x, y])
  {
    TwoSlots(x, y);
    OneIsHeap(x);
    SlotOrder();
    assert Pushed(SlotGt, [x], y) == [x, y];
    PushCorrect(SlotGt, [x], y);
  }

  /** Both packets of the pair are queued, the one that is due first behind the other. */
  lemma PairArrives(buf: seq<byte>)
    requires |buf| >= MIN_PKT_LEN
    ensures DelayDefined(WIDE)
    ensures
      var x, y := NewSlot(WIDE, EARLY, buf, 1, 999), NewSlot(WIDE, LATER, buf, 1, 0);
      var one := Step(WIDE, Start(EARLY), Arrives(EARLY, buf, 999));
      var two := Step(WIDE, one.state, Arrives(LATER, buf, 0));
      && one == Outcome(Start(EARLY).(queue := [x], accepted := [x]), true)
      && two == Outcome(one.state.(clock := LATER, queue := [x, y], accepted := [x, y]), true)
      && HeapOrder(SlotGt, [x, y]) && DrainAll(SlotGt, [x, y]) == [x, y]
  {
    var x, y := NewSlot(WIDE, EARLY, buf, 1, 999), NewSlot(WIDE, LATER, buf, 1, 0);
    PairQueued(buf);
    hide NewSlot, DelayDefined, Step, HeapOrder, DrainAll, Pushed;
    PairIsHeap(x, y);
    OneIsHeap(x);
    ArrivesStep(WIDE, Start(EARLY), EARLY, buf, 999);
    assert [] + [x] == [x] && [x] + [y] == [x, y];
    ArrivesStep(WIDE, Step(WIDE, Start(EARLY), Arrives(EARLY, buf, 999)).state, LATER, buf, 0);
  }

  lemma PairPrompt(s: State, input: Input, slack: nat)
    requires input.Woken? && input.sends == [] && (s.queue == [] || Micros(input.clock) == Micros(EARLY) + 1)
    requires |s.queue| > 0 ==> Micros(Timeout(s)) > 0
    ensures PromptInput(s, Micros(EARLY), input, slack)
  {
  }

  lemma PairTimeout(s: State)
    requires |s.queue| > 0 && s.queue[0].ts == Timeval(9, 1_998_999)
    ensures s.clock == EARLY ==> Micros(Timeout(s)) == LONGEST
    ensures s.clock == LATER ==> Micros(Timeout(s)) == LONGEST - 1
  {
    PairTimes();
    hide SleepTime;
  }

  /** The second packet of the pair, after k signals. */
  lemma PairDelay(buf: seq<byte>, k: nat, slack: nat)
    requires |buf| >= MIN_PKT_LEN
    ensures DelayDefined(WIDE)
    ensures
      var inputs := Paired(buf, k, slack);
      && ClockRuns(EARLY, inputs) && Prompt(WIDE, Start(EARLY), Micros(EARLY), inputs, slack)
      && InterruptedAtMost(inputs, 0, k)
      && var s := Run(WIDE, Start(EARLY), inputs).state;
        && |s.written| == |s.writtenAt| == 2
        && Micros(s.writtenAt[1]) - Nominal(s.written[1]) == 998_999 + k * (LONGEST - 1) + (k + 1) * slack
  {
    var x, y := NewSlot(WIDE, EARLY, buf, 1, 999), NewSlot(WIDE, LATER, buf, 1, 0);
    var first, second := Arrives(EARLY, buf, 999), Arrives(LATER, buf, 0);
    PairQueued(buf);
    hide Prompt, PromptInput, Run, InterruptedAtMost, Waiting, WokenAt, ClockRuns, Nominal, NewSlot, DelayDefined;
    hide Step, Timeout, HeapOrder, DrainAll, ToTimeval;
    PairArrives(buf);
    var one := Step(WIDE, Start(EARLY), first).state;
    var two := Step(WIDE, one, second).state;
    PairTimeout(one);
    PairTimeout(two);
    PairPrompt(Start(EARLY), first, slack);
    PairPrompt(one, second, slack);
    var end := WokenAt(LATER, LONGEST - 1, k, slack);
    WokenIs(LATER, LONGEST - 1, k, slack);
    Multiples(k, LONGEST - 1, slack + 1);
    PairDates(end);
    WaitingEnds(WIDE, two, k, slack, LONGEST - 1);
    var rest := Waiting(LATER, LONGEST - 1, k, slack);
    RoundBefore(WIDE, one, Micros(EARLY), second, rest, k, slack);
    RoundBefore(WIDE, Start(EARLY), Micros(EARLY), first, [second] + rest, k, slack);
  }

  lemma PairDates(end: Timeval)
    requires Normal(end) && Micros(end) >= 10_998_999
    ensures Gt(end, Timeval(9, 1_998_999)) && Gt(end, Timeval(10, 0))
  {
  }

  /** The bound is reached, for every number of signals and every slack. */
  lemma WorstReached(k: nat, slack: nat)
    returns (cfg: Config, clock: Timeval, inputs: seq<Input>, s: State, i: nat)
    ensures DelayDefined(cfg) && Reached(cfg, clock, inputs, s)
    ensures Prompt(cfg, Start(clock), Micros(clock), inputs, slack) && InterruptedAtMost(inputs, 0, k)
    ensures |s.written| == |s.writtenAt| > i && Micros(s.writtenAt[i]) - Nominal(s.written[i]) == Worst(k, slack)
  {
    hide Prompt, Run, InterruptedAtMost, ClockRuns, Nominal, Signalled, Paired;
    var buf := Marked(0);
    if 998_999 + k * (LONGEST - 1) >= k * LONGEST {
      PairDelay(buf, k, slack);
      cfg, clock, inputs, i := WIDE, EARLY, Paired(buf, k, slack), 1;
    } else {
      SignalsDelay(9999, buf, k, slack);
      cfg, clock, inputs, i := Config(9999, 0, 0, 0, 0), Timeval(0, 0), Signalled(9999, buf, k, slack), 0;
    }
    s := Run(cfg, Start(clock), inputs).state;
  }
}
