/** Timestamps of linksim/link_sim.c.  An expiry date is not normalised: its microseconds can
    pass one second, while dates are compared field by field.  The lemmas say exactly what
    that costs. */
module Timeval {
  import opened Heap

  datatype Timeval = Timeval(sec: int, usec: int)

  const MILLION: int := 1_000_000

  /** The instant a timestamp stands for. */
  function Micros(t: Timeval): int {
    t.sec * MILLION + t.usec
  }

  /** What the clock delivers. */
  predicate Normal(t: Timeval) {
    0 <= t.usec < MILLION
  }

  /** timeval_cmp */
  function Gt(left: Timeval, right: Timeval): bool {
    if left.sec == right.sec then left.usec > right.usec else left.sec > right.sec
  }

  /** timeval_diff */
  function Diff(a: Timeval, b: Timeval): Timeval {
    var sec, usec := a.sec - b.sec, a.usec - b.usec;
    if usec < 0 then
      if sec - 1 != 0 then Timeval(sec - 1, usec + MILLION) else Timeval(sec - 1, usec)
    else Timeval(sec, usec)
  }

  /** The expiry date of a packet that arrives at `clock` and is held back `delay` ms. */
  function Expiry(clock: Timeval, delay: nat): Timeval {
    Timeval(clock.sec + delay / 1000, clock.usec + delay % 1000 * 1000)
  }

  /** An expiry date some packet can have. */
  predicate ExpiryDate(t: Timeval) {
    0 <= t.usec < 2 * MILLION - 1000
  }

  /** The sleeping time of get_queue_timeout for the date `ts` at the head of the queue. */
  function SleepTime(ts: Timeval, clock: Timeval): Timeval {
    var d := Diff(ts, clock);
    if d.sec < 0 || (d.sec == 0 && d.usec <= 0) then Timeval(0, 1000) else d
  }

  lemma GtIsStrictWeakOrder()
    ensures StrictWeakOrder(Gt)
  {
  }

  /** The expiry date is the arrival plus the delay, not before the arrival in the field-wise
      order either, and its microseconds stay below 1 999 000. */
  lemma ExpiryFacts(clock: Timeval, delay: nat)
    requires Normal(clock)
    ensures Micros(Expiry(clock, delay)) == Micros(clock) + 1000 * delay
    ensures !Gt(clock, Expiry(clock, delay))
    ensures ExpiryDate(Expiry(clock, delay))
  {
    assert delay == 1000 * (delay / 1000) + delay % 1000;
  }

  /** timeval_diff is the difference except when the microseconds underflow and the seconds
      differ by one: then the carry is lost. */
  lemma DiffExact(a: Timeval, b: Timeval)
    ensures Micros(Diff(a, b)) == Micros(a) - Micros(b) <==> !(a.usec < b.usec && a.sec == b.sec + 1)
  {
  }

  /** A packet can be taken for expired before its time, for some clock reading, if and only if
      the microseconds of its expiry date pass one second. */
  lemma EarlyPossible(ts: Timeval)
    requires ExpiryDate(ts)
    ensures (exists c :: Normal(c) && Gt(c, ts) && Micros(c) < Micros(ts)) <==> ts.usec > MILLION
  {
    if ts.usec > MILLION {
      var c := Timeval(ts.sec + 1, 0);
      assert Normal(c) && Gt(c, ts) && Micros(c) < Micros(ts);
    }
  }

  /** Of two expiry dates the field-wise greater is the earlier instant if and only if they
      are one second apart and the microseconds of the lesser run ahead by more than that. */
  lemma OrderReversed(a: Timeval, b: Timeval)
    requires ExpiryDate(a) && ExpiryDate(b)
    ensures Gt(a, b) && Micros(a) < Micros(b) <==> a.sec == b.sec + 1 && b.usec - a.usec > MILLION
  {
  }

  /** How early at worst: not by more than 998 999 microseconds. */
  lemma EarlyBound(c: Timeval, ts: Timeval)
    requires Normal(c) && ExpiryDate(ts) && Gt(c, ts)
    ensures Micros(c) >= Micros(ts) - 998_999
    ensures ts.usec <= MILLION ==> Micros(c) >= Micros(ts)
  {
  }

  /** Never late: once its time is over a packet counts as expired. */
  lemma PastIsExpired(c: Timeval, ts: Timeval)
    requires Normal(c) && ExpiryDate(ts) && Micros(c) > Micros(ts)
    ensures Gt(c, ts)
  {
  }

  /** Two dates in field-wise order are at most 998 999 microseconds out of order. */
  lemma LexBound(a: Timeval, b: Timeval)
    requires ExpiryDate(a) && ExpiryDate(b) && !Gt(a, b)
    ensures Micros(a) <= Micros(b) + 998_999
  {
  }

  /** The sleeping time is the time left, or one millisecond if none is left, if the packet
      already counts as expired, or if timeval_diff loses its carry. */
  lemma SleepExact(ts: Timeval, clock: Timeval)
    requires Normal(clock) && ExpiryDate(ts)
    ensures
      var left := Micros(ts) - Micros(clock);
      var carryLost := ts.usec < clock.usec && ts.sec == clock.sec + 1;
      Micros(SleepTime(ts, clock)) == if left > 0 && !Gt(clock, ts) && !carryLost then left else 1000
    ensures SleepTime(ts, clock).sec >= 0 && SleepTime(ts, clock).usec >= 0
  {
    DiffExact(ts, clock);
  }

  /** The sleeping time is not normalised: its microseconds reach a full second, which select may
      refuse, exactly when nothing is borrowed and the microseconds of the date run that far
      ahead of the clock. */
  lemma SleepNormalised(ts: Timeval, clock: Timeval)
    requires Normal(clock) && ExpiryDate(ts)
    ensures SleepTime(ts, clock).usec >= MILLION <==> ts.sec >= clock.sec && ts.usec - clock.usec >= MILLION
    ensures SleepTime(ts, clock).usec < 2 * MILLION - 1000
  {
  }
}
