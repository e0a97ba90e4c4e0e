/** The simulator before the receiver, over whole runs: what the proxy writes toward one end are the
    packets it let through, in order, each after its fate; and so it is known what the receiver makes
    of them. */
module Delivery {
  import opened Crc32
  import opened Packet
  import opened Codec
  import opened Heap
  import opened LinkFaults
  import opened Timeval
  import opened Proxy
  import opened ProxyRuns
  import A = Addressing
  import R = Receiver
  import F = ReceiverFaults

  /** A packet that the link lets through: as it came in, and its fate. */
  datatype Passage = Passage(sent: seq<byte>, fate: Fate)

  predicate Possibly(t: Passage) {
    t.fate != Lost && Possible(t.fate, t.sent)
  }

  function PassageOf(cfg: Config, input: Input, direction: int): (r: seq<Passage>)
    ensures |r| <= 1 && forall t :: t in r ==> Possibly(t)
  {
    if input.Woken? && input.incoming.Simulated? && |input.incoming.buf| >= MIN_PKT_LEN
       && input.incoming.direction == direction
    then
      var fate := FateOf(cfg, input.incoming.draws, input.incoming.buf);
      FatesArePossible(cfg, input.incoming.draws, input.incoming.buf);
      if fate == Lost then [] else [Passage(input.incoming.buf, fate)]
    else []
  }

  /** The passages in one direction, in order of arrival, from the inputs alone. */
  function Passages(cfg: Config, inputs: seq<Input>, direction: int): (r: seq<Passage>)
    ensures forall t :: t in r ==> Possibly(t)
    decreases |inputs|
  {
    if inputs == [] then [] else PassageOf(cfg, inputs[0], direction) + Passages(cfg, inputs[1..], direction)
  }

  /** What has left the proxy of the packets it simulates; without a delay, between those it relays. */
  function Leaving(cfg: Config, s: State): seq<Datagram> {
    if cfg.delay > 0 then DatagramsOf(s.written) else s.forwarded
  }

  function DatagramsOf(xs: seq<Slot>): (r: seq<Datagram>)
    ensures |r| == |xs|
    decreases |xs|
  {
    if xs == [] then [] else [Datagram(xs[0].buf, xs[0].direction)] + DatagramsOf(xs[1..])
  }

  /** The bytes that go in one direction. */
  function Toward(ds: seq<Datagram>, direction: int): seq<seq<byte>>
    decreases |ds|
  {
    if ds == [] then [] else (if ds[0].direction == direction then [ds[0].buf] else []) + Toward(ds[1..], direction)
  }

  lemma Associated<T>(a: seq<T>, b: seq<T>, c: seq<T>)
    ensures a + (b + c) == (a + b) + c
  {
  }

  lemma {:induction false} TowardConcat(a: seq<Datagram>, b: seq<Datagram>, direction: int)
    ensures Toward(a + b, direction) == Toward(a, direction) + Toward(b, direction)
    decreases |a|
  {
    if a == [] {
      assert a + b == b;
    } else {
      assert (a + b)[1..] == a[1..] + b && (a + b)[0] == a[0];
      TowardConcat(a[1..], b, direction);
      var first := if a[0].direction == direction then [a[0].buf] else [];
      Associated(first, Toward(a[1..], direction), Toward(b, direction));
    }
  }

  lemma {:induction false} DatagramsConcat(a: seq<Slot>, b: seq<Slot>)
    ensures DatagramsOf(a + b) == DatagramsOf(a) + DatagramsOf(b)
    decreases |a|
  {
    if a == [] {
      assert a + b == b;
    } else {
      assert (a + b)[1..] == a[1..] + b && (a + b)[0] == a[0];
      DatagramsConcat(a[1..], b);
      Associated([Datagram(a[0].buf, a[0].direction)], DatagramsOf(a[1..]), DatagramsOf(b));
    }
  }

  /** The bytes are those of the passages after their fates. */
  predicate Results(out: seq<seq<byte>>, th: seq<Passage>) {
    && |out| <= |th|
    && forall k :: 0 <= k < |out| ==> Possibly(th[k]) && out[k] == Damaged(th[k].sent, th[k].fate)
  }

  lemma ResultsConcat(a: seq<seq<byte>>, b: seq<seq<byte>>, t: seq<Passage>, u: seq<Passage>)
    requires Results(a, t) && |a| == |t| && Results(b, u)
    ensures Results(a + b, t + u)
  {
    hide Possibly, Damaged;
  }

  lemma ResultsPrefix(a: seq<seq<byte>>, b: seq<seq<byte>>, t: seq<Passage>)
    requires Results(a + b, t)
    ensures Results(a, t)
  {
    hide Damaged;
    forall k | 0 <= k < |a| ensures Possibly(t[k]) && a[k] == Damaged(t[k].sent, t[k].fate) {
      assert (a + b)[k] == a[k];
    }
  }

  // ---------- one round ----------

  lemma SurvivorPasses(cfg: Config, input: Input, direction: int)
    ensures
      var out, th := Toward(Survivor(cfg, input), direction), PassageOf(cfg, input, direction);
      |out| == |th| && Results(out, th)
  {
    hide FateOf, Damaged;
    var d := Survivor(cfg, input);
    if d != [] {
      assert d[1..] == [];
      assert Toward([], direction) == [];
    }
  }

  /** In the direction that is simulated nothing is merely relayed. */
  predicate NotRelayed(inputs: seq<Input>, direction: int) {
    forall k :: 0 <= k < |inputs| && inputs[k].Woken? && inputs[k].incoming.Relayed? ==>
      inputs[k].incoming.direction != direction
  }

  /** So it is in the program: directions are either simulated or relayed. */
  lemma {:induction false} SimulatedNotRelayed(w: A.Parties, rounds: seq<A.Round>, direction: int)
    requires A.SameDirection(direction, w.link)
    ensures NotRelayed(A.Resolved(w, rounds), direction)
    decreases |rounds|
  {
    if rounds == [] {
    } else {
      var v := A.After(w, rounds[0]);
      SimulatedNotRelayed(v, rounds[1..], direction);
      var rest := A.Resolved(v, rounds[1..]);
      hide A.Resolved, A.DirectionOf, A.SameDirection;
      forall k | 0 < k <= |rest| ensures ([A.AsInput(w, rounds[0])] + rest)[k] == rest[k - 1] { }
    }
  }

  lemma UntouchedElsewhere(input: Input, direction: int)
    requires NotRelayed([input], direction)
    ensures Toward(Untouched(input), direction) == []
  {
    var d := Untouched(input);
    if d != [] {
      assert [input][0] == input;
      assert d[1..] == [];
      assert Toward([], direction) == [];
    }
  }

  // ---------- whole runs ----------

  lemma {:induction false} PassingPasses(cfg: Config, inputs: seq<Input>, direction: int)
    requires cfg.delay == 0 && NotRelayed(inputs, direction)
    ensures
      var out, th := Toward(Passing(cfg, inputs), direction), Passages(cfg, inputs, direction);
      |out| == |th| && Results(out, th)
    decreases |inputs|
  {
    if inputs == [] {
    } else {
      assert [inputs[0]][0] == inputs[0];
      assert NotRelayed(inputs[1..], direction);
      PassingPasses(cfg, inputs[1..], direction);
      SurvivorPasses(cfg, inputs[0], direction);
      UntouchedElsewhere(inputs[0], direction);
      hide Toward, Survivor, PassageOf, Untouched, Results, NotRelayed;
      var u, d, rest := Untouched(inputs[0]), Survivor(cfg, inputs[0]), Passing(cfg, inputs[1..]);
      TowardConcat(u + d, rest, direction);
      TowardConcat(u, d, direction);
      assert Toward(u + d, direction) == Toward(d, direction);
      ResultsConcat(Toward(d, direction), Toward(rest, direction), PassageOf(cfg, inputs[0], direction),
                    Passages(cfg, inputs[1..], direction));
    }
  }

  lemma {:induction false} SurvivorsPass(cfg: Config, inputs: seq<Input>, direction: int)
    requires DelayDefined(cfg) && cfg.delay > 0
    ensures Results(Toward(DatagramsOf(Survivors(cfg, inputs)), direction), Passages(cfg, inputs, direction))
    ensures |Toward(DatagramsOf(Survivors(cfg, inputs)), direction)| == |Passages(cfg, inputs, direction)|
    decreases |inputs|
  {
    if inputs == [] {
    } else {
      SurvivorsPass(cfg, inputs[1..], direction);
      SurvivorPasses(cfg, inputs[0], direction);
      FirstSlot(cfg, inputs[0]);
      hide Toward, Survivor, PassageOf, Results, DatagramsOf, DelayDefined, NewSlot;
      var d := Survivor(cfg, inputs[0]);
      var x := Survivors(cfg, [inputs[0]]);
      var rest := Survivors(cfg, inputs[1..]);
      assert [inputs[0]][1..] == [] && Survivors(cfg, inputs) == x + rest;
      DatagramsConcat(x, rest);
      TowardConcat(d, DatagramsOf(rest), direction);
      ResultsConcat(Toward(d, direction), Toward(DatagramsOf(rest), direction), PassageOf(cfg, inputs[0], direction),
                    Passages(cfg, inputs[1..], direction));
    }
  }

  lemma FirstSlot(cfg: Config, input: Input)
    requires DelayDefined(cfg) && cfg.delay > 0
    ensures DatagramsOf(Survivors(cfg, [input])) == Survivor(cfg, input)
  {
    hide DelayDefined, AppliedDelay, FateOf, Damaged;
    assert [input][1..] == [];
    var x := Survivors(cfg, [input]);
    assert Survivors(cfg, []) == [];
    if x != [] { assert x[1..] == [] && DatagramsOf([]) == []; }
  }

  /** The link keeps the order of packets: it does not delay them, or it delays all alike and the
      clock moves between them. */
  ghost predicate Orderly(cfg: Config, inputs: seq<Input>, direction: int)
    requires DelayDefined(cfg)
  {
    if cfg.delay > 0 then OneDelay(cfg) && ArrivalsIncrease(Survivors(cfg, inputs)) else NotRelayed(inputs, direction)
  }

  /** What has left an orderly link toward one end are the first of the packets that pass, in order,
      after their fates; without a delay all of them. */
  lemma LeavingInOrder(cfg: Config, clock: Timeval, inputs: seq<Input>, s: State, direction: int)
    requires DelayDefined(cfg) && Reached(cfg, clock, inputs, s) && Run(cfg, Start(clock), inputs).ok
    requires Orderly(cfg, inputs, direction)
    ensures
      var out, th := Toward(Leaving(cfg, s), direction), Passages(cfg, inputs, direction);
      Results(out, th) && (cfg.delay == 0 ==> |out| == |th|)
  {
    hide Run, DelayDefined, OneDelay, ArrivalsIncrease, DrainAll, Survivors, Passages, Toward, Results, NotRelayed;
    NothingSwallowed(cfg, Start(clock), inputs);
    if cfg.delay == 0 {
      assert s.forwarded == Passing(cfg, inputs);
      PassingPasses(cfg, inputs, direction);
    } else {
      assert s.accepted == Survivors(cfg, inputs);
      FirstInFirstOut(cfg, clock, inputs, s);
      SurvivorsPass(cfg, inputs, direction);
      var rest := DrainAll(SlotGt, s.queue);
      hide DatagramsOf;
      DatagramsConcat(s.written, rest);
      TowardConcat(DatagramsOf(s.written), DatagramsOf(rest), direction);
      ResultsPrefix(Toward(DatagramsOf(s.written), direction), Toward(DatagramsOf(rest), direction),
                    Passages(cfg, inputs, direction));
    }
  }

  // ---------- the receiver ----------

  /** The receive buffers hold the datagrams, with anything behind them. */
  predicate Fed(arrivals: seq<R.Arrival>, out: seq<seq<byte>>) {
    && |arrivals| == |out|
    && forall k :: 0 <= k < |out| ==>
         var a := arrivals[k];
         R.Fits(a) && a.len == |out[k]| <= |a.mem| && a.mem[..a.len] == out[k]
  }

  /** The passages are those of the frames of the packets `ps`, all of them DATA. */
  predicate FramesOf(th: seq<Passage>, ps: seq<Packet>) {
    && |th| == |ps|
    && forall k :: 0 <= k < |ps| ==> Protocol(ps[k]) && ps[k].ptype == PTYPE_DATA && th[k].sent == Frame(ps[k])
  }

  /** What the receiver is shown. */
  function Sightings(arrivals: seq<R.Arrival>, th: seq<Passage>, ps: seq<Packet>): (fs: seq<F.Sighting>)
    requires |arrivals| <= |th| == |ps| && forall k :: 0 <= k < |arrivals| ==> arrivals[k].len <= |arrivals[k].mem|
    ensures |fs| == |arrivals|
  {
    seq(|arrivals|, k requires 0 <= k < |arrivals| =>
      F.Sighting(ps[k], th[k].fate, arrivals[k].mem[arrivals[k].len..]))
  }

  lemma Shown(a: R.Arrival, t: Passage, p: Packet)
    requires Possibly(t) && Protocol(p) && p.ptype == PTYPE_DATA && t.sent == Frame(p)
    requires R.Fits(a) && a.len <= |a.mem| && a.mem[..a.len] == Damaged(t.sent, t.fate)
    ensures
      var f := F.Sighting(p, t.fate, a.mem[a.len..]);
      F.Legible(f) && F.Arrive(f) == a
  {
    hide Frame, Damaged;
    assert a.mem == a.mem[..a.len] + a.mem[a.len..];
  }

  lemma AllShown(arrivals: seq<R.Arrival>, out: seq<seq<byte>>, th: seq<Passage>, ps: seq<Packet>)
    requires Fed(arrivals, out) && Results(out, th) && FramesOf(th, ps)
    ensures
      var fs := Sightings(arrivals, th, ps);
      (forall k :: 0 <= k < |fs| ==> F.Legible(fs[k])) && F.Arrivals(fs) == arrivals
  {
    hide Frame, Damaged, F.Legible, F.Arrive, Possibly;
    var fs := Sightings(arrivals, th, ps);
    forall k | 0 <= k < |fs| ensures F.Legible(fs[k]) && F.Arrive(fs[k]) == arrivals[k] {
      Shown(arrivals[k], th[k], ps[k]);
    }
  }

  /** Behind any orderly link, whatever it loses, truncates and corrupts: as long as no damage has a
      harmful effect, by exactly the table of ReceiverFaults, the receiver writes the stream in order
      and once each. */
  lemma DamagedDelivery(cfg: Config, clock: Timeval, inputs: seq<Input>, s: State, direction: int,
                        stream: seq<seq<byte>>, ps: seq<Packet>, arrivals: seq<R.Arrival>)
    requires DelayDefined(cfg) && Reached(cfg, clock, inputs, s) && Run(cfg, Start(clock), inputs).ok
    requires Orderly(cfg, inputs, direction)
    requires Fed(arrivals, Toward(Leaving(cfg, s), direction))
    requires FramesOf(Passages(cfg, inputs, direction), ps)
    ensures |arrivals| <= |ps| && forall k :: 0 <= k < |arrivals| ==> R.Fits(arrivals[k])
    ensures
      var fs := Sightings(arrivals, Passages(cfg, inputs, direction), ps);
      && (forall k :: 0 <= k < |fs| ==> F.Legible(fs[k]))
      && (F.Benign(stream, fs, 0) ==>
            var r, m := R.Receive(R.START, arrivals), |F.Takers(fs, 0)|;
            && m <= |stream| && r.output == R.Concat(stream[..m])
            && r.progress == if m > 0 && stream[m - 1] == [] then R.Ended else R.Running)
  {
    hide Run, DelayDefined, Orderly, Reached, Toward, Leaving, Passages, FramesOf, Results;
    hide R.Receive, R.Concat, F.Legible, F.Benign, F.Takers;
    var out, th := Toward(Leaving(cfg, s), direction), Passages(cfg, inputs, direction);
    LeavingInOrder(cfg, clock, inputs, s, direction);
    NoMore(arrivals, out, th, ps);
    AllShown(arrivals, out, th, ps);
    var fs := Sightings(arrivals, th, ps);
    hide Sightings;
    if F.Benign(stream, fs, 0) { F.DamagedStream(stream, fs); }
  }

  lemma NoMore(arrivals: seq<R.Arrival>, out: seq<seq<byte>>, th: seq<Passage>, ps: seq<Packet>)
    requires Fed(arrivals, out) && Results(out, th) && FramesOf(th, ps)
    ensures |arrivals| <= |th| == |ps|
    ensures forall k :: 0 <= k < |arrivals| ==> R.Fits(arrivals[k]) && arrivals[k].len <= |arrivals[k].mem|
  {
    hide Frame, Damaged, Possibly;
  }

  // ---------- a link that does no damage ----------

  predicate FrameOfPart(buf: seq<byte>, stream: seq<seq<byte>>, t: nat, p: Packet) {
    R.Carries(p, stream, t) && buf == Frame(p)
  }

  ghost predicate FrameCarrying(buf: seq<byte>, stream: seq<seq<byte>>, t: nat) {
    exists p :: FrameOfPart(buf, stream, t, p)
  }

  lemma {:induction false} PassUndamaged(cfg: Config, inputs: seq<Input>, direction: int)
    requires cfg.cutRate == 0 && cfg.errRate == 0
    ensures forall t :: t in Passages(cfg, inputs, direction) ==> t.fate == Intact
    decreases |inputs|
  {
    if inputs == [] {
    } else {
      PassUndamaged(cfg, inputs[1..], direction);
    }
  }

  lemma {:induction false} InReachPrefix(ts: seq<nat>, n: nat, k: nat)
    requires R.InReach(ts, n) && k <= |ts|
    ensures R.InReach(ts[..k], n)
    decreases |ts|
  {
    if k == 0 {
      assert ts[..k] == [];
    } else {
      InReachPrefix(ts[1..], if ts[0] == n then n + 1 else n, k - 1);
      assert ts[..k][1..] == ts[1..][..k - 1];
    }
  }

  lemma FedFrames(arrivals: seq<R.Arrival>, out: seq<seq<byte>>, th: seq<Passage>, stream: seq<seq<byte>>, ts: seq<nat>)
    requires Fed(arrivals, out) && Results(out, th) && |th| == |ts|
    requires forall t :: t in th ==> t.fate == Intact
    requires forall k :: 0 <= k < |ts| ==> FrameCarrying(th[k].sent, stream, ts[k])
    ensures |arrivals| <= |ts| && R.FramesOf(arrivals, stream, ts[..|arrivals|])
  {
    hide Frame;
    forall k | 0 <= k < |arrivals| ensures R.FrameAt(arrivals[k], stream, ts[k]) {
      assert th[k] in th;
      var p :| FrameOfPart(th[k].sent, stream, ts[k], p);
      assert R.FramesPacket(arrivals[k], stream, ts[k], p);
    }
  }

  /** Behind an orderly link that damages nothing, but may lose: fed with what the proxy has sent its
      way so far, the receiver has written the payloads of the stream in order and once each, as far
      as the frames that passed reach. */
  lemma LinkDelivers(cfg: Config, clock: Timeval, inputs: seq<Input>, s: State, direction: int,
                     stream: seq<seq<byte>>, ts: seq<nat>, arrivals: seq<R.Arrival>)
    requires DelayDefined(cfg) && Reached(cfg, clock, inputs, s) && Run(cfg, Start(clock), inputs).ok
    requires cfg.cutRate == 0 && cfg.errRate == 0 && Orderly(cfg, inputs, direction)
    requires |ts| == |Passages(cfg, inputs, direction)| && R.InReach(ts, 0)
    requires forall k :: 0 <= k < |ts| ==> FrameCarrying(Passages(cfg, inputs, direction)[k].sent, stream, ts[k])
    requires Fed(arrivals, Toward(Leaving(cfg, s), direction))
    ensures |arrivals| <= |ts| && forall k :: 0 <= k < |arrivals| ==> R.Fits(arrivals[k])
    ensures
      var r, m := R.Receive(R.START, arrivals), R.Accepted(stream, ts[..|arrivals|], 0);
      && m <= |stream| && r.output == R.Concat(stream[..m])
      && r.progress == (if m > 0 && stream[m - 1] == [] then R.Ended else R.Running)
  {
    hide Run, DelayDefined, Orderly, Reached, Toward, Leaving, Passages, FrameCarrying, Results;
    hide R.InReach, R.Receive, R.Accepted, R.FramesOf;
    LeavingInOrder(cfg, clock, inputs, s, direction);
    PassUndamaged(cfg, inputs, direction);
    FedFrames(arrivals, Toward(Leaving(cfg, s), direction), Passages(cfg, inputs, direction), stream, ts);
    InReachPrefix(ts, 0, |arrivals|);
    R.StreamReceived(arrivals, stream, ts[..|arrivals|]);
  }
}
