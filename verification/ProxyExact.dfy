/** Which parameters of the link make the proxy keep time and order: for each property, exactly
    those for which it holds in every run.  The runs that break it are built here. */
module ProxyExact {
  import opened Crc32
  import opened Heap
  import opened LinkFaults
  import opened Timeval
  import opened Proxy
  import opened ProxyRuns

  /** No packet is ever delayed, or none gets through. */
  predicate NoDelay(cfg: Config) {
    cfg.delay == 0 || cfg.lossRate > 100
  }

  /** Delayed packets leave in the order of the instants at which they should.  Packets that are
      relayed, or forwarded without a delay, never enter the queue and are not compared. */
  ghost predicate Chronological(s: State) {
    forall i, j :: 0 <= i < j < |s.written| ==> Nominal(s.written[i]) <= Nominal(s.written[j])
  }

  ghost predicate NoneEarly(s: State) {
    |s.written| == |s.writtenAt| && forall i :: 0 <= i < |s.written| ==> Nominal(s.written[i]) <= Micros(s.writtenAt[i])
  }

  /** First in, first out, for delayed packets. */
  ghost predicate Fifo(s: State) {
    s.written + DrainAll(SlotGt, s.queue) == s.accepted
  }

  // ---------- runs with nothing delayed ----------

  lemma StepAcceptsNone(cfg: Config, s: State, input: Input)
    requires DelayDefined(cfg) && NoDelay(cfg)
    ensures Step(cfg, s, input).state.accepted == s.accepted
  {
    hide Damaged, Drain, Pushed, AppliedDelay, DelayDefined;
  }

  lemma {:induction false} RunAcceptsNone(cfg: Config, s: State, inputs: seq<Input>)
    requires DelayDefined(cfg) && NoDelay(cfg)
    ensures Run(cfg, s, inputs).state.accepted == s.accepted
    decreases |inputs|
  {
    hide Step, DelayDefined, NoDelay;
    if inputs == [] {
    } else {
      StepAcceptsNone(cfg, s, inputs[0]);
      var o := Step(cfg, s, inputs[0]);
      if o.ok { RunAcceptsNone(cfg, o.state, inputs[1..]); }
    }
  }

  lemma NothingDelayed(cfg: Config, clock: Timeval, inputs: seq<Input>, s: State)
    requires DelayDefined(cfg) && NoDelay(cfg) && Reached(cfg, clock, inputs, s)
    ensures s.accepted == s.written == s.queue == [] && s.writtenAt == []
  {
    ReachedHolds(cfg, clock, inputs, s);
    RunAcceptsNone(cfg, Start(clock), inputs);
    assert |multiset(s.written) + multiset(s.queue)| == 0;
  }

  // ---------- runs with one delay ----------

  lemma OneDelayOrder(x: Slot, y: Slot, now: Timeval)
    requires SlotOk(x, now) && SlotOk(y, now) && x.applied == y.applied && !Gt(x.ts, y.ts)
    ensures Nominal(x) <= Nominal(y)
  {
  }

  lemma OneDelayChronological(cfg: Config, clock: Timeval, inputs: seq<Input>, s: State)
    requires DelayDefined(cfg) && cfg.delay > 0 && OneDelay(cfg) && Reached(cfg, clock, inputs, s)
    ensures Chronological(s)
  {
    ReachedHolds(cfg, clock, inputs, s);
    RunSameDelay(cfg, Start(clock), inputs);
    EmissionOrder(cfg, clock, inputs, s);
    hide Run, DelayDefined, HeapOrder, Nominal;
    forall i, j | 0 <= i < j < |s.written| ensures Nominal(s.written[i]) <= Nominal(s.written[j]) {
      WrittenSame(s, s.written[i], OnlyDelay(cfg));
      WrittenSame(s, s.written[j], OnlyDelay(cfg));
      OneDelayOrder(s.written[i], s.written[j], s.clock);
    }
  }

  lemma WrittenSame(s: State, x: Slot, d: nat)
    requires Inv(s) && SameDelay(s.accepted, d) && x in s.written
    ensures x.applied == d && SlotOk(x, s.clock)
  {
    assert x in multiset(s.written);
    assert x in multiset(s.accepted);
    assert x in s.accepted;
  }

  lemma WholeSecondsNotEarly(cfg: Config, clock: Timeval, inputs: seq<Input>, s: State)
    requires DelayDefined(cfg) && cfg.delay > 0 && OneDelay(cfg) && OnlyDelay(cfg) % 1000 == 0
    requires Reached(cfg, clock, inputs, s)
    ensures NoneEarly(s)
  {
    ReachedHolds(cfg, clock, inputs, s);
    RunSameDelay(cfg, Start(clock), inputs);
    hide Run, DelayDefined, HeapOrder, OnlyDelay;
    forall i | 0 <= i < |s.written| ensures Nominal(s.written[i]) <= Micros(s.writtenAt[i]) {
      WrittenSame(s, s.written[i], OnlyDelay(cfg));
      Earliness(cfg, clock, inputs, s, i);
    }
  }

  // ---------- building runs ----------

  /** A packet told by its last byte. */
  function Marked(mark: byte): seq<byte> {
    [0, 0, 0, 0, 0, 0, 0, 0, 0, mark]
  }

  const LUCKY: Draws := Draws(100, 100, 100, 0, 0)

  /** A packet comes in, and the socket has no room for what might be due. */
  function Offer(clock: Timeval, mark: byte, r: nat): Input {
    Woken(clock, [Again], Simulated(Marked(mark), 1, LUCKY.(delay := r), true, true, true))
  }

  /** The slot it becomes. */
  function Offered(cfg: Config, clock: Timeval, mark: byte, r: nat): Slot
    requires DelayDefined(cfg) && cfg.delay > 0
  {
    FatesArePossible(cfg, LUCKY.(delay := r), Marked(mark));
    NewSlot(cfg, clock, Damaged(Marked(mark), FateOf(cfg, LUCKY.(delay := r), Marked(mark))), 1, r)
  }

  /** Whatever the rates, such a packet keeps its mark: its draws invert byte 0 at most. */
  lemma MarkKept(cfg: Config, mark: byte, r: nat)
    requires DelayDefined(cfg) && !NoDelay(cfg)
    ensures
      var x := Offered(cfg, Timeval(0, 0), mark, r);
      |x.buf| == 10 && x.buf[9] == mark
  {
    hide AppliedDelay, DelayDefined;
    var fate := FateOf(cfg, LUCKY.(delay := r), Marked(mark));
    assert Percent(100) == 100;
    assert fate == Intact || fate == Inverted(0);
  }

  lemma OfferStep(cfg: Config, s: State, clock: Timeval, mark: byte, r: nat)
    requires DelayDefined(cfg) && !NoDelay(cfg) && |s.queue| < s.alloc
    ensures
      var x := Offered(cfg, clock, mark, r);
      Step(cfg, s, Offer(clock, mark, r)) ==
        Outcome(s.(clock := clock, queue := Pushed(SlotGt, s.queue, x), accepted := s.accepted + [x]), true)
  {
    hide Pushed, AppliedDelay, DelayDefined, Damaged, NewSlot;
    var t := s.(clock := clock);
    var input := Offer(clock, mark, r);
    assert Drain(t.queue, clock, [Again]) == Drained(t.queue, [], true);
    assert t.written + [] == t.written && t.writtenAt + seq(0, _ => clock) == t.writtenAt;
    assert Delivered(t, [Again]) == Outcome(t, true);
    hide Drain, Delivered;
    var draws := input.incoming.draws;
    assert Percent(draws.loss) == 100;
    assert FateOf(cfg, draws, Marked(mark)) != Lost;
  }

  /** A packet to be offered: when, with which mark, and the draw for its delay. */
  datatype Offering = Offering(at: Timeval, mark: byte, r: nat)

  /** The rounds that offer packets, and a last wake-up at `end`. */
  function Plan(offers: seq<Offering>, end: Timeval): seq<Input>
    decreases |offers|
  {
    if offers == [] then [Woken(end, [], Nothing)]
    else [Offer(offers[0].at, offers[0].mark, offers[0].r)] + Plan(offers[1..], end)
  }

  function Slots(cfg: Config, offers: seq<Offering>): (r: seq<Slot>)
    requires DelayDefined(cfg) && cfg.delay > 0
    ensures |r| == |offers|
    decreases |offers|
  {
    if offers == [] then []
    else [Offered(cfg, offers[0].at, offers[0].mark, offers[0].r)] + Slots(cfg, offers[1..])
  }

  function PushAll(q: seq<Slot>, xs: seq<Slot>): seq<Slot>
    decreases |xs|
  {
    if xs == [] then q else PushAll(Pushed(SlotGt, q, xs[0]), xs[1..])
  }

  predicate InTime(prev: Timeval, offers: seq<Offering>, end: Timeval)
    decreases |offers|
  {
    if offers == [] then Normal(end) && !Gt(prev, end)
    else Normal(offers[0].at) && !Gt(prev, offers[0].at) && InTime(offers[0].at, offers[1..], end)
  }

  lemma RunFirst(cfg: Config, s: State, input: Input, rest: seq<Input>)
    requires DelayDefined(cfg) && Step(cfg, s, input).ok
    ensures Run(cfg, s, [input] + rest) == Run(cfg, Step(cfg, s, input).state, rest)
  {
    hide Step, DelayDefined;
    assert ([input] + rest)[1..] == rest;
  }

  lemma ClockFirst(prev: Timeval, input: Input, rest: seq<Input>)
    requires input.Woken? && Normal(input.clock) && !Gt(prev, input.clock) && ClockRuns(input.clock, rest)
    ensures ClockRuns(prev, [input] + rest)
  {
    assert ([input] + rest)[1..] == rest;
  }

  /** `t` has emptied the queue `q` of `s` at `end`, after accepting `xs`. */
  predicate Emptied(t: State, s: State, q: seq<Slot>, xs: seq<Slot>, end: Timeval) {
    var out := DrainAll(SlotGt, q);
    && t.queue == [] && t.accepted == s.accepted + xs
    && t.written == s.written + out && t.writtenAt == s.writtenAt + seq(|out|, _ => end)
  }

  lemma EmptiedLater(t: State, s: State, s1: State, q: seq<Slot>, x: Slot, xs: seq<Slot>, end: Timeval)
    requires Emptied(t, s1, q, xs, end)
    requires s1.accepted == s.accepted + [x] && s1.written == s.written && s1.writtenAt == s.writtenAt
    ensures Emptied(t, s, q, [x] + xs, end)
  {
    hide DrainAll;
    assert s.accepted + [x] + xs == s.accepted + ([x] + xs);
  }

  lemma FlushEmpties(cfg: Config, s: State, end: Timeval)
    requires DelayDefined(cfg) && HeapOrder(SlotGt, s.queue) && forall x :: x in s.queue ==> Gt(end, x.ts)
    ensures Emptied(Run(cfg, s, [Woken(end, [], Nothing)]).state, s, s.queue, [], end)
  {
    hide Run, DrainAll, HeapOrder, DelayDefined;
    Flush(cfg, s, end);
    assert s.accepted + [] == s.accepted;
  }

  lemma OffersRun(cfg: Config, s: State, offers: seq<Offering>, end: Timeval)
    requires DelayDefined(cfg) && !NoDelay(cfg) && |s.queue| + |offers| <= s.alloc && HeapOrder(SlotGt, s.queue)
    requires InTime(s.clock, offers, end)
    requires forall x :: x in PushAll(s.queue, Slots(cfg, offers)) ==> Gt(end, x.ts)
    ensures
      var t := Run(cfg, s, Plan(offers, end)).state;
      && Emptied(t, s, PushAll(s.queue, Slots(cfg, offers)), Slots(cfg, offers), end)
      && ClockRuns(s.clock, Plan(offers, end))
    decreases |offers|
  {
    hide HeapOrder, Pushed, StrictWeakOrder, SlotGt, Step, Offered, DelayDefined, Run, OneDelay, Emptied, ClockRuns;
    if offers == [] {
      FlushEmpties(cfg, s, end);
      ClockLast(s.clock, end);
    } else {
      var o := offers[0];
      var x := Offered(cfg, o.at, o.mark, o.r);
      var input, rest := Offer(o.at, o.mark, o.r), Plan(offers[1..], end);
      OfferStep(cfg, s, o.at, o.mark, o.r);
      SlotOrder();
      PushCorrect(SlotGt, s.queue, x);
      var t := Step(cfg, s, input).state;
      OffersRun(cfg, t, offers[1..], end);
      RunFirst(cfg, s, input, rest);
      ClockFirst(s.clock, input, rest);
      EmptiedLater(Run(cfg, t, rest).state, s, t, PushAll(t.queue, Slots(cfg, offers[1..])), x,
                   Slots(cfg, offers[1..]), end);
    }
  }

  lemma ClockLast(prev: Timeval, end: Timeval)
    requires Normal(end) && !Gt(prev, end)
    ensures ClockRuns(prev, [Woken(end, [], Nothing)])
  {
    assert [Woken(end, [], Nothing)][1..] == [];
  }

  /** The state in which a plan ends. */
  lemma PlanReaches(cfg: Config, offers: seq<Offering>, end: Timeval, s: State)
    requires DelayDefined(cfg) && !NoDelay(cfg) && 0 < |offers| <= 20 && InTime(offers[0].at, offers, end)
    requires forall x :: x in PushAll([], Slots(cfg, offers)) ==> Gt(end, x.ts)
    requires s == Run(cfg, Start(offers[0].at), Plan(offers, end)).state
    ensures Reached(cfg, offers[0].at, Plan(offers, end), s)
    ensures
      var out := DrainAll(SlotGt, PushAll([], Slots(cfg, offers)));
      && s.queue == [] && s.accepted == Slots(cfg, offers)
      && s.written == out && s.writtenAt == seq(|out|, _ => end)
  {
    hide Run, DrainAll, Slots, PushAll, DelayDefined, NoDelay;
    OffersRun(cfg, Start(offers[0].at), offers, end);
  }

  lemma OneSlot(a: Slot)
    ensures PushAll([], [a]) == [a] && DrainAll(SlotGt, [a]) == [a]
  {
    assert Pushed(SlotGt, [], a) == [a];
    assert PushAll([a], []) == [a] && [a][1..] == [];
    assert Popped(SlotGt, [a]) == [];
    assert DrainAll(SlotGt, []) == [];
  }

  predicate SameDate(q: seq<Slot>, ts: Timeval) {
    forall i :: 0 <= i < |q| ==> q[i].ts == ts
  }

  function Backwards(q: seq<Slot>): seq<Slot>
    decreases |q|
  {
    if q == [] then [] else [q[|q| - 1]] + Backwards(q[..|q| - 1])
  }

  lemma {:induction false} EqualPushes(q: seq<Slot>, xs: seq<Slot>, ts: Timeval)
    requires SameDate(q, ts) && SameDate(xs, ts)
    ensures PushAll(q, xs) == q + xs
    decreases |xs|
  {
    if xs == [] {
    } else {
      assert Pushed(SlotGt, q, xs[0]) == q + [xs[0]];
      EqualPushes(q + [xs[0]], xs[1..], ts);
      assert q + [xs[0]] + xs[1..] == q + xs;
    }
  }

  lemma {:induction false} EqualDrain(q: seq<Slot>, ts: Timeval)
    requires SameDate(q, ts) && |q| > 0
    ensures DrainAll(SlotGt, q) == [q[0]] + Backwards(q[1..])
    decreases |q|
  {
    if |q| == 1 {
      assert Popped(SlotGt, q) == [];
    } else {
      var last, mid := q[|q| - 1], q[1..|q| - 1];
      assert Popped(SlotGt, q) == [last] + mid;
      EqualDrain([last] + mid, ts);
      assert ([last] + mid)[1..] == mid && q[1..][..|q| - 2] == mid && q[1..][|q| - 2] == last;
    }
  }

  /** Packets with one expiry date: the first that came leaves first, and after it the others, the
      last that came before those that came earlier. */
  lemma TiesReversed(xs: seq<Slot>)
    requires |xs| > 0 && SameDate(xs, xs[0].ts)
    ensures PushAll([], xs) == xs && DrainAll(SlotGt, xs) == [xs[0]] + Backwards(xs[1..])
  {
    hide SlotGt;
    EqualPushes([], xs, xs[0].ts);
    EqualDrain(xs, xs[0].ts);
  }

  lemma ThreeTied(a: Slot, b: Slot, c: Slot)
    requires a.ts == b.ts == c.ts
    ensures PushAll([], [a, b, c]) == [a, b, c] && DrainAll(SlotGt, [a, b, c]) == [a, c, b]
  {
    TiesReversed([a, b, c]);
    hide DrainAll, PushAll;
    assert [a, b, c][1..] == [b, c] && [b, c][..1] == [b] && [b][..0] == [];
    assert Backwards([b]) == [b] + Backwards([]);
  }

  /** Two packets with different dates leave in the order of their dates. */
  lemma TwoSlots(a: Slot, b: Slot)
    requires SlotGt(b, a) || SlotGt(a, b)
    ensures
      var q := if SlotGt(a, b) then [b, a] else [a, b];
      PushAll([], [a, b]) == q && DrainAll(SlotGt, q) == q
  {
    var q := if SlotGt(a, b) then [b, a] else [a, b];
    assert Pushed(SlotGt, [], a) == [a];
    assert Pushed(SlotGt, [a], b) == q;
    assert [a, b][1..] == [b] && [b][1..] == [];
    assert PushAll([a], [b]) == PushAll(q, []) == q;
    assert Popped(SlotGt, q) == [q[1]];
    OneSlot(q[1]);
  }

  lemma TwoOffers(cfg: Config, o: Offering, p: Offering, end: Timeval) returns (s: State)
    requires DelayDefined(cfg) && !NoDelay(cfg) && InTime(o.at, [o, p], end)
    requires
      var a, b := Offered(cfg, o.at, o.mark, o.r), Offered(cfg, p.at, p.mark, p.r);
      (SlotGt(b, a) || SlotGt(a, b)) && Gt(end, a.ts) && Gt(end, b.ts)
    ensures Reached(cfg, o.at, Plan([o, p], end), s)
    ensures
      var a, b := Offered(cfg, o.at, o.mark, o.r), Offered(cfg, p.at, p.mark, p.r);
      s.accepted == [a, b] && s.queue == [] && s.written == if SlotGt(a, b) then [b, a] else [a, b]
  {
    hide Offered, DelayDefined, Run, DrainAll, PushAll, OneDelay, InTime, Plan, SlotGt;
    var a, b := Offered(cfg, o.at, o.mark, o.r), Offered(cfg, p.at, p.mark, p.r);
    assert [o, p][1..] == [p] && [p][1..] == [];
    assert Slots(cfg, []) == [] && Slots(cfg, [p]) == [b];
    assert Slots(cfg, [o, p]) == [a, b];
    TwoSlots(a, b);
    s := Run(cfg, Start(o.at), Plan([o, p], end)).state;
    PlanReaches(cfg, [o, p], end, s);
  }

  // ---------- the delays of two draws ----------

  lemma TwoDraws(cfg: Config)
    requires DelayDefined(cfg) && cfg.delay > 0 && !OneDelay(cfg)
    ensures AppliedDelay(cfg, 1) == (AppliedDelay(cfg, 0) + 1) % 10_000
  {
    if cfg.jitter > cfg.delay {
      var m := (cfg.delay + cfg.jitter) % WORD;
      SmallRemainder(0, m);
      SmallRemainder(1, m);
    } else {
      NarrowRange(cfg);
      NarrowDraw(cfg, 0);
      NarrowDraw(cfg, 1);
      hide AppliedDelay, DelayDefined, OneDelay;
      NextRemainder(cfg.delay - cfg.jitter);
    }
  }

  lemma NarrowRange(cfg: Config)
    requires DelayDefined(cfg) && 0 < cfg.jitter <= cfg.delay
    ensures (2 * cfg.jitter) % WORD >= 2
  {
  }

  lemma NextRemainder(n: nat)
    ensures (n + 1) % 10_000 == (n % 10_000 + 1) % 10_000
  {
  }

  lemma OfferedDates(cfg: Config, at: Timeval, mark: byte, r: nat)
    requires DelayDefined(cfg) && !NoDelay(cfg)
    ensures
      var x := Offered(cfg, at, mark, r);
      && x.arrival == at && x.applied == AppliedDelay(cfg, r) && x.ts == Expiry(at, AppliedDelay(cfg, r))
      && |x.buf| == 10 && x.buf[9] == mark
  {
    MarkKept(cfg, mark, r);
    hide AppliedDelay, Damaged, FateOf, DelayDefined;
  }

  // ---------- the runs ----------

  const END: Timeval := Timeval(100, 0)

  /** A run with two offers, whose slots are known by their dates. */
  lemma TwoRun(cfg: Config, o: Offering, p: Offering) returns (s: State, a: Slot, b: Slot)
    requires DelayDefined(cfg) && !NoDelay(cfg) && InTime(o.at, [o, p], END) && o.at.sec <= p.at.sec <= 50
    requires
      var x, y := Expiry(o.at, AppliedDelay(cfg, o.r)), Expiry(p.at, AppliedDelay(cfg, p.r));
      Gt(x, y) || Gt(y, x)
    ensures Reached(cfg, o.at, Plan([o, p], END), s)
    ensures a.arrival == o.at && a.applied == AppliedDelay(cfg, o.r) && a.ts == Expiry(o.at, AppliedDelay(cfg, o.r))
    ensures b.arrival == p.at && b.applied == AppliedDelay(cfg, p.r) && b.ts == Expiry(p.at, AppliedDelay(cfg, p.r))
    ensures s.accepted == [a, b] && s.queue == [] && s.written == if SlotGt(a, b) then [b, a] else [a, b]
  {
    hide Offered, DelayDefined, AppliedDelay, InTime, Plan, OneDelay, Run;
    a, b := Offered(cfg, o.at, o.mark, o.r), Offered(cfg, p.at, p.mark, p.r);
    OfferedDates(cfg, o.at, o.mark, o.r);
    OfferedDates(cfg, p.at, p.mark, p.r);
    s := TwoOffers(cfg, o, p, END);
  }

  lemma InTimeTwo(o: Offering, p: Offering)
    requires Normal(o.at) && Normal(p.at) && !Gt(o.at, p.at) && p.at.sec < 100
    ensures InTime(o.at, [o, p], END)
  {
    assert [o, p][1..] == [p] && [p][1..] == [];
  }

  function Drawn(d: nat, e: nat, r: nat): nat {
    if r == 0 then d else e
  }

  lemma ExpiryAt(at: Timeval, delay: nat, q: nat, r: nat)
    requires delay == 1000 * q + r && r < 1000
    ensures Expiry(at, delay) == Timeval(at.sec + q, at.usec + r * 1000)
  {
    assert delay / 1000 == q && delay % 1000 == r;
  }

  /** When to offer two packets whose delays are a millisecond apart. */
  lemma ReversedDates(d: nat, e: nat) returns (o: Offering, p: Offering)
    requires d < 10_000 && e == (d + 1) % 10_000
    ensures Normal(o.at) && Normal(p.at) && !Gt(o.at, p.at) && o.at.sec <= p.at.sec <= 50 && o.r <= 1 && p.r <= 1
    ensures
      var k, l := Drawn(d, e, o.r), Drawn(d, e, p.r);
      var x, y := Expiry(o.at, k), Expiry(p.at, l);
      || (Gt(y, x) && Micros(o.at) + 1000 * k > Micros(p.at) + 1000 * l)
      || (Gt(x, y) && Micros(p.at) + 1000 * l > Micros(o.at) + 1000 * k)
  {
    hide Expiry;
    var q, r := d / 1000, d % 1000;
    assert d == 1000 * q + r;
    if d == 9999 {
      o, p := Offering(Timeval(0, 999_999), 1, 0), Offering(Timeval(10, 0), 1, 1);
      ExpiryAt(o.at, d, 9, 999);
      ExpiryAt(p.at, e, 0, 0);
    } else if r == 999 {
      assert e == d + 1;
      o, p := Offering(Timeval(0, 0), 1, 1), Offering(Timeval(0, 2000), 1, 0);
      ExpiryAt(o.at, e, q + 1, 0);
      ExpiryAt(p.at, d, q, 999);
    } else {
      assert e == d + 1;
      o, p := Offering(Timeval(0, 999_999), 1, 1), Offering(Timeval(1, 0), 1, 0);
      ExpiryAt(o.at, e, q, r + 1);
      ExpiryAt(p.at, d, q, r);
    }
  }

  lemma ReversedOffers(cfg: Config) returns (o: Offering, p: Offering)
    requires DelayDefined(cfg) && !NoDelay(cfg) && !OneDelay(cfg)
    ensures InTime(o.at, [o, p], END) && o.at.sec <= p.at.sec <= 50
    ensures
      var k, l := AppliedDelay(cfg, o.r), AppliedDelay(cfg, p.r);
      var x, y := Expiry(o.at, k), Expiry(p.at, l);
      || (Gt(y, x) && Micros(o.at) + 1000 * k > Micros(p.at) + 1000 * l)
      || (Gt(x, y) && Micros(p.at) + 1000 * l > Micros(o.at) + 1000 * k)
  {
    TwoDraws(cfg);
    o, p := ReversedDates(AppliedDelay(cfg, 0), AppliedDelay(cfg, 1));
    hide DelayDefined, AppliedDelay, OneDelay, Expiry, NoDelay, InTime, Gt, Micros;
    InTimeTwo(o, p);
    assert o.r == 0 || o.r == 1;
    assert p.r == 0 || p.r == 1;
  }

  /** Two packets that leave in the wrong order. */
  lemma Reversal(cfg: Config) returns (clock: Timeval, inputs: seq<Input>, s: State)
    requires DelayDefined(cfg) && !NoDelay(cfg) && !OneDelay(cfg)
    ensures Reached(cfg, clock, inputs, s) && !Chronological(s)
  {
    hide DelayDefined, AppliedDelay, InTime, Plan, OneDelay, Run, Expiry, Gt, Micros, Chronological, Reached;
    var o, p := ReversedOffers(cfg);
    var a, b;
    s, a, b := TwoRun(cfg, o, p);
    clock, inputs := o.at, Plan([o, p], END);
    WrongOrder(s, a, b);
  }

  lemma WrongOrder(s: State, a: Slot, b: Slot)
    requires s.written == if SlotGt(a, b) then [b, a] else [a, b]
    requires (Gt(b.ts, a.ts) && Nominal(a) > Nominal(b)) || (Gt(a.ts, b.ts) && Nominal(b) > Nominal(a))
    ensures !Chronological(s)
  {
    assert Nominal(s.written[0]) > Nominal(s.written[1]);
  }

  lemma OvertakenDates(d: nat, e: nat)
    requires d < 10_000 && e == (d + 1) % 10_000
    ensures
      var late, soon := if e == 0 then d else e, if e == 0 then e else d;
      Gt(Expiry(Timeval(0, 0), late), Expiry(Timeval(0, 1), soon))
  {
    hide Expiry;
    var start, next := Timeval(0, 0), Timeval(0, 1);
    var q, r := d / 1000, d % 1000;
    assert d == 1000 * q + r;
    if d == 9999 {
      ExpiryAt(start, d, 9, 999);
      ExpiryAt(next, e, 0, 0);
    } else {
      assert e == d + 1;
      if r == 999 { ExpiryAt(start, e, q + 1, 0); } else { ExpiryAt(start, e, q, r + 1); }
      ExpiryAt(next, d, q, r);
    }
  }

  /** A packet overtaken by one that comes a microsecond later. */
  lemma Overtaking(cfg: Config) returns (clock: Timeval, inputs: seq<Input>, s: State)
    requires DelayDefined(cfg) && !NoDelay(cfg) && !OneDelay(cfg)
    ensures Reached(cfg, clock, inputs, s) && ArrivalsIncrease(s.accepted) && !Fifo(s)
  {
    TwoDraws(cfg);
    OvertakenDates(AppliedDelay(cfg, 0), AppliedDelay(cfg, 1));
    var r := if AppliedDelay(cfg, 1) == 0 then 0 else 1;
    var o, p := Offering(Timeval(0, 0), 1, r), Offering(Timeval(0, 1), 1, 1 - r);
    hide DelayDefined, AppliedDelay, InTime, Plan, OneDelay, Run, Expiry, NoDelay, DrainAll;
    InTimeTwo(o, p);
    var a, b;
    s, a, b := TwoRun(cfg, o, p);
    clock, inputs := o.at, Plan([o, p], END);
    EmptyDrain();
    assert s.written + [] == s.written;
    assert s.written[0] == b != a == s.accepted[0];
  }

  /** A packet that leaves before its time, if its delay is not a number of seconds. */
  lemma EarlyRun(cfg: Config, r: nat) returns (clock: Timeval, inputs: seq<Input>, s: State)
    requires DelayDefined(cfg) && !NoDelay(cfg) && AppliedDelay(cfg, r) % 1000 != 0
    ensures Reached(cfg, clock, inputs, s) && !NoneEarly(s)
  {
    var d := AppliedDelay(cfg, r);
    clock := Timeval(0, 999_999);
    var o, end := Offering(clock, 1, r), Timeval(d / 1000 + 1, 0);
    inputs := Plan([o], end);
    s := Run(cfg, Start(clock), inputs).state;
    var x := Offered(cfg, clock, 1, r);
    OfferedDates(cfg, clock, 1, r);
    hide DelayDefined, NoDelay, AppliedDelay, Plan, OneDelay, Run, Offered, DrainAll, PushAll;
    assert [o][1..] == [];
    assert Slots(cfg, []) == [] && Slots(cfg, [o]) == [x];
    OneSlot(x);
    PlanReaches(cfg, [o], end, s);
    assert s.written[0] == x && s.writtenAt[0] == end;
    assert Nominal(x) > Micros(end);
  }

  /** Three packets at one reading of the clock, all sent the same way: the third leaves second. */
  lemma Tie(cfg: Config) returns (clock: Timeval, inputs: seq<Input>, s: State)
    requires DelayDefined(cfg) && !NoDelay(cfg)
    ensures Reached(cfg, clock, inputs, s) && !Fifo(s)
    ensures |s.accepted| == 3 && s.accepted[1].buf != s.accepted[2].buf
    ensures s.written == [s.accepted[0], s.accepted[2], s.accepted[1]]
    ensures s.accepted[0].direction == s.accepted[1].direction == s.accepted[2].direction == 1
  {
    clock := Timeval(0, 0);
    var o, p, q := Offering(clock, 1, 0), Offering(clock, 2, 0), Offering(clock, 3, 0);
    inputs := Plan([o, p, q], END);
    s := Run(cfg, Start(clock), inputs).state;
    var a, b, c := Offered(cfg, clock, 1, 0), Offered(cfg, clock, 2, 0), Offered(cfg, clock, 3, 0);
    OfferedDates(cfg, clock, 1, 0);
    OfferedDates(cfg, clock, 2, 0);
    OfferedDates(cfg, clock, 3, 0);
    InTimeThree(o, p, q);
    ThreeTied(a, b, c);
    hide DelayDefined, NoDelay, AppliedDelay, Plan, OneDelay, Run, Offered, DrainAll, Pushed, InTime;
    ThreeSlots(cfg, o, p, q);
    hide Slots, SlotGt, HeapOrder;
    PlanReaches(cfg, [o, p, q], END, s);
    EmptyDrain();
    assert s.written + [] == s.written;
    assert s.written[1].buf[9] == 3 != 2 == s.accepted[1].buf[9];
  }

  lemma ThreeSlots(cfg: Config, o: Offering, p: Offering, q: Offering)
    requires DelayDefined(cfg) && !NoDelay(cfg)
    ensures Slots(cfg, [o, p, q]) ==
            [Offered(cfg, o.at, o.mark, o.r), Offered(cfg, p.at, p.mark, p.r), Offered(cfg, q.at, q.mark, q.r)]
  {
    hide Offered, DelayDefined;
    assert [o, p, q][1..] == [p, q] && [p, q][1..] == [q] && [q][1..] == [];
    assert Slots(cfg, []) == [];
    assert Slots(cfg, [q]) == [Offered(cfg, q.at, q.mark, q.r)];
  }

  lemma EmptyDrain()
    ensures DrainAll(SlotGt, []) == []
  {
  }

  lemma InTimeThree(o: Offering, p: Offering, q: Offering)
    requires o.at == p.at == q.at == Timeval(0, 0)
    ensures InTime(o.at, [o, p, q], END)
  {
    assert [o, p, q][1..] == [p, q] && [p, q][1..] == [q] && [q][1..] == [];
    assert InTime(q.at, [], END) && InTime(p.at, [q], END);
    assert InTime(o.at, [p, q], END);
  }

  // ---------- exactly when ----------

  /** Every run is in the order of the nominal times exactly when packets cannot be delayed
      differently. */
  lemma ChronologicalExactly(cfg: Config)
    requires DelayDefined(cfg)
    ensures (forall clock, inputs, s :: Reached(cfg, clock, inputs, s) ==> Chronological(s)) <==>
            NoDelay(cfg) || OneDelay(cfg)
  {
    hide Reached, Chronological, OneDelay;
    if NoDelay(cfg) || OneDelay(cfg) {
      forall clock, inputs, s | Reached(cfg, clock, inputs, s) ensures Chronological(s) {
        if NoDelay(cfg) { NothingChronological(cfg, clock, inputs, s); }
        else { OneDelayChronological(cfg, clock, inputs, s); }
      }
    } else {
      var clock, inputs, s := Reversal(cfg);
    }
  }

  lemma NothingChronological(cfg: Config, clock: Timeval, inputs: seq<Input>, s: State)
    requires DelayDefined(cfg) && NoDelay(cfg) && Reached(cfg, clock, inputs, s)
    ensures Chronological(s) && NoneEarly(s) && Fifo(s)
  {
    hide Reached;
    NothingDelayed(cfg, clock, inputs, s);
    EmptyDrain();
  }

  /** No packet ever leaves early exactly when all are delayed by the same number of seconds. */
  lemma NeverEarlyExactly(cfg: Config)
    requires DelayDefined(cfg)
    ensures (forall clock, inputs, s :: Reached(cfg, clock, inputs, s) ==> NoneEarly(s)) <==>
            NoDelay(cfg) || (OneDelay(cfg) && OnlyDelay(cfg) % 1000 == 0)
  {
    hide Reached, NoneEarly, OneDelay, OnlyDelay, AppliedDelay;
    if NoDelay(cfg) || (OneDelay(cfg) && OnlyDelay(cfg) % 1000 == 0) {
      forall clock, inputs, s | Reached(cfg, clock, inputs, s) ensures NoneEarly(s) {
        if NoDelay(cfg) { NothingChronological(cfg, clock, inputs, s); }
        else { WholeSecondsNotEarly(cfg, clock, inputs, s); }
      }
    } else {
      var r := 0;
      if OneDelay(cfg) {
        AppliedOnly(cfg, 0);
      } else {
        TwoDraws(cfg);
        if AppliedDelay(cfg, 0) % 1000 == 0 { r := 1; }
      }
      var clock, inputs, s := EarlyRun(cfg, r);
    }
  }

  /** With a clock that moves between arrivals, the proxy is first in, first out in every run
      exactly when packets cannot be delayed differently. */
  lemma FifoExactly(cfg: Config)
    requires DelayDefined(cfg)
    ensures (forall clock, inputs, s :: Reached(cfg, clock, inputs, s) && ArrivalsIncrease(s.accepted) ==> Fifo(s)) <==>
            NoDelay(cfg) || OneDelay(cfg)
  {
    hide Reached, Fifo, OneDelay, ArrivalsIncrease;
    if NoDelay(cfg) || OneDelay(cfg) {
      forall clock, inputs, s | Reached(cfg, clock, inputs, s) && ArrivalsIncrease(s.accepted) ensures Fifo(s) {
        if NoDelay(cfg) { NothingChronological(cfg, clock, inputs, s); }
        else { FirstIsFifo(cfg, clock, inputs, s); }
      }
    } else {
      var clock, inputs, s := Overtaking(cfg);
    }
  }

  lemma FirstIsFifo(cfg: Config, clock: Timeval, inputs: seq<Input>, s: State)
    requires DelayDefined(cfg) && cfg.delay > 0 && OneDelay(cfg) && Reached(cfg, clock, inputs, s)
    requires ArrivalsIncrease(s.accepted)
    ensures Fifo(s)
  {
    hide Reached, OneDelay, ArrivalsIncrease;
    FirstInFirstOut(cfg, clock, inputs, s);
  }

  /** If the clock may stand still between arrivals, exactly when nothing is delayed at all. */
  lemma FifoWithTiesExactly(cfg: Config)
    requires DelayDefined(cfg)
    ensures (forall clock, inputs, s :: Reached(cfg, clock, inputs, s) ==> Fifo(s)) <==> NoDelay(cfg)
  {
    hide Reached, Fifo;
    if NoDelay(cfg) {
      forall clock, inputs, s | Reached(cfg, clock, inputs, s) ensures Fifo(s) {
        NothingChronological(cfg, clock, inputs, s);
      }
    } else {
      var clock, inputs, s := Tie(cfg);
    }
  }

  // ---------- timeouts ----------

  /** The timeout that select is given has a full second or more in its microseconds. */
  predicate LongTimeout(s: State) {
    |s.queue| > 0 && Timeout(s).usec >= MILLION
  }

  /** Delays that, added to an arrival late in its second, give such a timeout in the next. */
  predicate LongDelay(d: nat) {
    d > 1000 && d % 1000 != 0
  }

  ghost predicate CanDraw(cfg: Config, d: nat)
    requires DelayDefined(cfg) && cfg.delay > 0
  {
    exists r :: AppliedDelay(cfg, r) == d
  }

  ghost predicate AllDrawn(cfg: Config, s: State)
    requires DelayDefined(cfg) && cfg.delay > 0
  {
    forall x :: x in s.accepted ==> CanDraw(cfg, x.applied)
  }

  lemma StepDrawn(cfg: Config, s: State, input: Input)
    requires DelayDefined(cfg) && cfg.delay > 0 && AllDrawn(cfg, s)
    ensures AllDrawn(cfg, Step(cfg, s, input).state)
  {
    hide Damaged, Drain, FateOf, Pushed, AppliedDelay, DelayDefined;
    if input.Woken? && input.incoming.Simulated? {
      assert CanDraw(cfg, AppliedDelay(cfg, input.incoming.draws.delay));
    }
    hide CanDraw;
  }

  lemma {:induction false} RunDrawn(cfg: Config, s: State, inputs: seq<Input>)
    requires DelayDefined(cfg) && cfg.delay > 0 && AllDrawn(cfg, s)
    ensures AllDrawn(cfg, Run(cfg, s, inputs).state)
    decreases |inputs|
  {
    hide Step, DelayDefined, AllDrawn;
    if inputs == [] {
    } else {
      StepDrawn(cfg, s, inputs[0]);
      var o := Step(cfg, s, inputs[0]);
      if o.ok { RunDrawn(cfg, o.state, inputs[1..]); }
    }
  }

  lemma LongNeedsLong(x: Slot, clock: Timeval)
    requires SlotOk(x, clock) && Normal(clock) && SleepTime(x.ts, clock).usec >= MILLION
    ensures LongDelay(x.applied)
  {
    ExpiryFacts(x.arrival, x.applied);
    SleepNormalised(x.ts, clock);
  }

  lemma LongRun(cfg: Config, r: nat) returns (clock: Timeval, inputs: seq<Input>, s: State)
    requires DelayDefined(cfg) && !NoDelay(cfg) && LongDelay(AppliedDelay(cfg, r))
    ensures Reached(cfg, clock, inputs, s) && LongTimeout(s)
  {
    var d := AppliedDelay(cfg, r);
    clock := Timeval(0, 999_999);
    var offer, idle := Offer(clock, 1, r), Woken(Timeval(1, 0), [], Nothing);
    inputs := [offer] + [idle];
    s := Run(cfg, Start(clock), inputs).state;
    var x := Offered(cfg, clock, 1, r);
    OfferedDates(cfg, clock, 1, r);
    OfferStep(cfg, Start(clock), clock, 1, r);
    ClockLast(clock, idle.clock);
    ClockFirst(clock, offer, [idle]);
    hide DelayDefined, NoDelay, AppliedDelay, OneDelay, Offered, Offer, StrictWeakOrder;
    var t := Step(cfg, Start(clock), offer).state;
    assert t.queue == [x] by { assert Pushed(SlotGt, [], x) == [x]; }
    RunFirst(cfg, Start(clock), offer, [idle]);
    Idle(cfg, t, idle.clock);
    SleepNormalised(x.ts, idle.clock);
  }

  lemma Idle(cfg: Config, s: State, clock: Timeval)
    requires DelayDefined(cfg) && |s.queue| > 0 && !Gt(clock, s.queue[0].ts)
    ensures
      var t := Run(cfg, s, [Woken(clock, [], Nothing)]).state;
      t.queue == s.queue && t.clock == clock
  {
    hide DelayDefined;
    assert [Woken(clock, [], Nothing)][1..] == [];
  }

  /** Whether the parameters allow such a delay.  Draws reach the delays from some first one on, as
      many as the interval has; the first is 0 if jitter exceeds the delay, else their difference. */
  predicate LongDrawn(cfg: Config) {
    if cfg.jitter == 0 then LongDelay(cfg.delay % 10_000)
    else if cfg.jitter > cfg.delay then (cfg.delay + cfg.jitter) % WORD > 1001
    else
      var first := (cfg.delay - cfg.jitter) % 10_000;
      first >= 1000 || first + (2 * cfg.jitter) % WORD > 1001
  }

  lemma LongIfDrawn(cfg: Config) returns (r: nat)
    requires DelayDefined(cfg) && cfg.delay > 0 && LongDrawn(cfg)
    ensures LongDelay(AppliedDelay(cfg, r))
  {
    r := 0;
    if cfg.jitter > cfg.delay {
      r := 1001;
      SmallRemainder(r, (cfg.delay + cfg.jitter) % WORD);
    } else if cfg.jitter > 0 {
      r := FirstLong((cfg.delay - cfg.jitter) % 10_000);
      NearFirst(cfg.delay - cfg.jitter, r);
      hide AppliedDelay;
      assert r < (2 * cfg.jitter) % WORD;
      NarrowDraw(cfg, r);
    }
  }

  /** How far above `first` the next such delay is. */
  function FirstLong(first: nat): (r: nat)
    requires first < 10_000
    ensures LongDelay(first + r) && first + r < 10_000
    ensures if first >= 1000 then r <= 1 else first + r == 1001
  {
    if first < 1000 then 1001 - first else if LongDelay(first) then 0 else 1
  }

  /** Delays a little above the first are reached without wrapping. */
  lemma NearFirst(k: nat, i: nat)
    requires k < WORD - 1 && (i <= 1 || k % 10_000 + i <= 1001)
    ensures k + i < WORD
    ensures k % 10_000 + i < 10_000 ==> (k + i) % 10_000 == k % 10_000 + i
  {
    var q, b := k / 10_000, k % 10_000;
    assert k == 10_000 * q + b;
    if b + i < 10_000 { TenThousands(k + i, q, b + i); }
  }

  lemma TenThousands(n: int, q: int, r: int)
    requires n == 10_000 * q + r && 0 <= r < 10_000
    ensures n % 10_000 == r
  {
  }

  lemma NarrowDraw(cfg: Config, r: nat)
    requires DelayDefined(cfg) && 0 < cfg.jitter <= cfg.delay
    requires r < (2 * cfg.jitter) % WORD && cfg.delay - cfg.jitter + r < WORD
    ensures AppliedDelay(cfg, r) == (cfg.delay - cfg.jitter + r) % 10_000
  {
    SmallRemainder(r, (2 * cfg.jitter) % WORD);
    WrapsDown(cfg.delay - cfg.jitter + r);
  }

  lemma DrawnIfLong(cfg: Config, r: nat)
    requires DelayDefined(cfg) && cfg.delay > 0 && LongDelay(AppliedDelay(cfg, r))
    ensures LongDrawn(cfg)
  {
    if cfg.jitter > cfg.delay {
      var m := (cfg.delay + cfg.jitter) % WORD;
      DrawBelow(r, m);
    } else if cfg.jitter > 0 {
      var m, k := (2 * cfg.jitter) % WORD, cfg.delay - cfg.jitter;
      if !LongDrawn(cfg) {
        var i := r % m;
        DrawBelow(r, m);
        DrawBelow(i, m);
        NearFirst(k, i);
        NarrowDraw(cfg, i);
      }
    }
  }

  lemma DrawBelow(r: nat, m: nat)
    requires m > 0
    ensures 0 <= r % m < m && (r % m) % m == r % m && (r % m) % 10_000 <= r % m
  {
  }

  /** Some run asks select for such a timeout exactly if the parameters allow such a delay. */
  lemma LongTimeoutExactly(cfg: Config)
    requires DelayDefined(cfg)
    ensures (exists clock, inputs, s :: Reached(cfg, clock, inputs, s) && LongTimeout(s)) <==>
            !NoDelay(cfg) && LongDrawn(cfg)
  {
    hide Reached, LongTimeout, LongDelay, AppliedDelay, LongDrawn;
    if clock, inputs, s :| Reached(cfg, clock, inputs, s) && LongTimeout(s) {
      LongIsDrawn(cfg, clock, inputs, s);
    }
    if !NoDelay(cfg) && LongDrawn(cfg) {
      var r := LongIfDrawn(cfg);
      var clock, inputs, s := LongRun(cfg, r);
    }
  }

  lemma LongIsDrawn(cfg: Config, clock: Timeval, inputs: seq<Input>, s: State)
    requires DelayDefined(cfg) && Reached(cfg, clock, inputs, s) && LongTimeout(s)
    ensures !NoDelay(cfg) && LongDrawn(cfg)
  {
    ReachedHolds(cfg, clock, inputs, s);
    hide LongDelay, AppliedDelay, HeapOrder, InOrder, Stamped, LongDrawn;
    if NoDelay(cfg) {
      NothingDelayed(cfg, clock, inputs, s);
    } else {
      RunDrawn(cfg, Start(clock), inputs);
      hide Run, DelayDefined;
      var x := s.queue[0];
      assert x in s.queue;
      AllOk(s, x);
      LongNeedsLong(x, s.clock);
      assert x in multiset(s.queue);
      assert x in multiset(s.accepted);
      assert CanDraw(cfg, x.applied);
      var r :| AppliedDelay(cfg, r) == x.applied;
      DrawnIfLong(cfg, r);
    }
  }
}
