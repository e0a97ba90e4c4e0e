/** Whom process_incoming_pkt of linksim/link_sim.c listens to: it takes the sender of the first
    packet that is long enough for the near end, and tells directions by senders from then on. */
module Addressing {
  import opened Wrappers
  import opened Crc32
  import opened LinkFaults
  import opened Timeval
  import opened Proxy

  const FORWARD: int := 1
  const REVERSE: int := 2

  /** What the read finds.  An address stands for an IPv6 address and a port. */
  datatype Reading =
    | NoData
    | ReadFailed
    | Read(buf: seq<byte>, from: int, draws: Draws, slotMemory: bool, queueMemory: bool, sent: bool)

  /** One round of proxy_loop, as in Proxy.Input. */
  datatype Round =
    | Signal(now: int)
    | Failure
    | WakeUp(clock: Timeval, sends: seq<SendResult>, reading: Reading)

  /** The host behind the proxy, the other party once known, and the directions simulated: 1, 2,
      or 3 for both. */
  datatype Parties = Parties(dest: int, source: Option<int>, link: nat)

  function LearnedFrom(w: Parties, r: Reading): Parties {
    if r.Read? && |r.buf| >= MIN_PKT_LEN && w.source.None? then w.(source := Some(r.from)) else w
  }

  /** The direction of a packet, or 0 for a stranger's. */
  function DirectionOf(w: Parties, from: int): int {
    if w.source == Some(from) then FORWARD else if from == w.dest then REVERSE else 0
  }

  /** Where write_out sends what goes in a direction. */
  function Target(w: Parties, direction: int): Option<int> {
    if direction == FORWARD then Some(w.dest) else if direction == REVERSE then w.source else None
  }

  /** `direction & link` */
  predicate SameDirection(direction: int, link: nat) {
    if direction == FORWARD then link % 2 == 1 else link / 2 % 2 == 1
  }

  function Classified(w: Parties, r: Reading): Incoming {
    match r
    case NoData => Nothing
    case ReadFailed => RecvFailed
    case Read(buf, from, draws, slotMemory, queueMemory, sent) =>
      var direction := DirectionOf(LearnedFrom(w, r), from);
      if |buf| < MIN_PKT_LEN || direction == 0 then Nothing
      else if SameDirection(direction, w.link) then Simulated(buf, direction, draws, slotMemory, queueMemory, sent)
      else Relayed(buf, direction, sent)
  }

  /** A round as the step machine sees it, and the parties after it. */
  function AsInput(w: Parties, round: Round): Input {
    match round
    case Signal(now) => Interrupted(now)
    case Failure => Failed
    case WakeUp(clock, sends, reading) => Woken(clock, sends, Classified(w, reading))
  }

  function After(w: Parties, round: Round): Parties {
    if round.WakeUp? then LearnedFrom(w, round.reading) else w
  }

  function Resolved(w: Parties, rounds: seq<Round>): (r: seq<Input>)
    ensures |r| == |rounds|
    decreases |rounds|
  {
    if rounds == [] then [] else [AsInput(w, rounds[0])] + Resolved(After(w, rounds[0]), rounds[1..])
  }

  /** The parties after some rounds. */
  function PartiesAfter(w: Parties, rounds: seq<Round>): Parties
    decreases |rounds|
  {
    if rounds == [] then w else PartiesAfter(After(w, rounds[0]), rounds[1..])
  }

  predicate LongRead(round: Round) {
    round.WakeUp? && round.reading.Read? && |round.reading.buf| >= MIN_PKT_LEN
  }

  /** The near end is the sender of the first packet that is long enough, for good. */
  lemma {:induction false} FirstSenderKept(w: Parties, rounds: seq<Round>, k: nat)
    requires w.source.None? && k < |rounds| && LongRead(rounds[k])
    requires forall i :: 0 <= i < k ==> !LongRead(rounds[i])
    ensures PartiesAfter(w, rounds) == w.(source := Some(rounds[k].reading.from))
    decreases |rounds|
  {
    if k == 0 {
      KnownKept(After(w, rounds[0]), rounds[1..]);
    } else {
      assert rounds[0] == rounds[..k][0] && !LongRead(rounds[0]);
      forall i | 0 <= i < k - 1 ensures !LongRead(rounds[1..][i]) { assert !LongRead(rounds[i + 1]); }
      FirstSenderKept(w, rounds[1..], k - 1);
    }
  }

  lemma {:induction false} KnownKept(w: Parties, rounds: seq<Round>)
    requires w.source.Some?
    ensures PartiesAfter(w, rounds) == w
    decreases |rounds|
  {
    if rounds == [] {
    } else {
      KnownKept(w, rounds[1..]);
    }
  }

  predicate Stranger(w: Parties, r: Reading) {
    r.Read? && w.source.Some? && r.from != w.source.value && r.from != w.dest
  }

  /** A round without what a stranger, or a packet too short, brings. */
  function Muted(w: Parties, round: Round): Round {
    if round.WakeUp? && round.reading.Read?
       && (|round.reading.buf| < MIN_PKT_LEN || Stranger(After(w, round), round.reading))
    then round.(reading := NoData) else round
  }

  function WithoutStrangers(w: Parties, rounds: seq<Round>): (r: seq<Round>)
    ensures |r| == |rounds|
    decreases |rounds|
  {
    if rounds == [] then [] else [Muted(w, rounds[0])] + WithoutStrangers(After(w, rounds[0]), rounds[1..])
  }

  /** Once the parties are known no one else has any influence on a run. */
  lemma {:induction false} StrangersIgnored(w: Parties, rounds: seq<Round>)
    ensures Resolved(w, rounds) == Resolved(w, WithoutStrangers(w, rounds))
    decreases |rounds|
  {
    if rounds == [] {
    } else {
      StrangersIgnored(After(w, rounds[0]), rounds[1..]);
      assert After(w, Muted(w, rounds[0])) == After(w, rounds[0]);
    }
  }

  // ---------- who is heard, and where it goes ----------

  lemma {:induction false} ResolvedAt(w: Parties, rounds: seq<Round>, k: nat)
    requires k < |rounds|
    ensures Resolved(w, rounds)[k] == AsInput(PartiesAfter(w, rounds[..k]), rounds[k])
    ensures PartiesAfter(w, rounds) == PartiesAfter(After(PartiesAfter(w, rounds[..k]), rounds[k]), rounds[k + 1..])
    decreases |rounds|
  {
    hide AsInput, After;
    if k == 0 {
      assert rounds[..0] == [];
    } else {
      ResolvedAt(After(w, rounds[0]), rounds[1..], k - 1);
      assert rounds[..k][0] == rounds[0] && rounds[..k][1..] == rounds[1..][..k - 1];
      assert rounds[1..][k - 1..] == rounds[k..] && rounds[1..][k..] == rounds[k + 1..];
    }
  }

  lemma {:induction false} DestKept(w: Parties, rounds: seq<Round>)
    ensures PartiesAfter(w, rounds).dest == w.dest && PartiesAfter(w, rounds).link == w.link
    decreases |rounds|
  {
    if rounds == [] {
    } else {
      DestKept(After(w, rounds[0]), rounds[1..]);
    }
  }

  /** What a round hands to the step machine for the packet it has read. */
  predicate Brings(incoming: Incoming, r: Reading, direction: int, simulated: bool)
    requires r.Read?
  {
    incoming ==
      if simulated then Simulated(r.buf, direction, r.draws, r.slotMemory, r.queueMemory, r.sent)
      else Relayed(r.buf, direction, r.sent)
  }

  /** Of the packets of ten bytes or more, those from the near end go in direction 1 and those from
      the far end, if it is another, in direction 2; they are simulated if the link is so configured
      and relayed otherwise, with all that was read.  Nothing else is heard. */
  lemma DirectionsTold(w: Parties, rounds: seq<Round>, k: nat)
    requires k < |rounds| && rounds[k].WakeUp? && rounds[k].reading.Read? && 1 <= w.link <= 3
    ensures
      var r, end := rounds[k].reading, PartiesAfter(w, rounds);
      var input := Resolved(w, rounds)[k];
      && input.Woken? && input.clock == rounds[k].clock && input.sends == rounds[k].sends
      && (|r.buf| < 10 ==> input.incoming == Nothing)
      && (|r.buf| >= 10 ==>
            && end.source.Some?
            && (r.from == end.source.value ==> Brings(input.incoming, r, 1, w.link == 1 || w.link == 3))
            && (r.from == w.dest != end.source.value ==> Brings(input.incoming, r, 2, w.link == 2 || w.link == 3))
            && (r.from != w.dest && r.from != end.source.value ==> input.incoming == Nothing))
  {
    var v := PartiesAfter(w, rounds[..k]);
    ResolvedAt(w, rounds, k);
    DestKept(w, rounds[..k]);
    if |rounds[k].reading.buf| >= 10 { KnownKept(After(v, rounds[k]), rounds[k + 1..]); }
  }

  /** Rounds without a packet. */
  lemma NothingRead(w: Parties, rounds: seq<Round>, k: nat)
    requires k < |rounds| && !(rounds[k].WakeUp? && rounds[k].reading.Read?)
    ensures Resolved(w, rounds)[k] ==
      match rounds[k]
      case Signal(now) => Interrupted(now)
      case Failure => Failed
      case WakeUp(clock, sends, reading) => Woken(clock, sends, if reading.NoData? then Nothing else RecvFailed)
  {
    ResolvedAt(w, rounds, k);
  }
}
