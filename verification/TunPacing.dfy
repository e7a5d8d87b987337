/** Pacing of packets read from the TUN device: after each one, handle_fd stops reading for
    slip_config_basedelay milliseconds. */
module TunPacing {

  const TWO32: int := 0x1_0000_0000

  /** struct timeval. */
  datatype Time = Time(sec: nat, usec: nat)

  predicate IsTime(t: Time) { t.usec < 1_000_000 }

  function Micros(t: Time): nat { t.sec * 1_000_000 + t.usec }

  /** Whole milliseconds, the fraction cut off. */
  function Millis(t: Time): nat { t.sec * 1000 + t.usec / 1000 }

  lemma MillisMonotone(a: Time, b: Time)
    requires IsTime(a) && IsTime(b) && Micros(a) <= Micros(b)
    ensures Millis(a) <= Millis(b)
  {
    assert a.sec <= b.sec;
  }

  /** Conversion of a wider integer to a 32-bit int. */
  function Wrap32(x: int): int { (x + 0x8000_0000) % TWO32 - 0x8000_0000 }

  lemma WrapPeriod(x: int, m: int)
    ensures Wrap32(x + m * TWO32) == Wrap32(x)
  {
    var y := x + 0x8000_0000;
    assert y + m * TWO32 == TWO32 * (y / TWO32 + m) + y % TWO32;
    assert (y + m * TWO32) % TWO32 == y % TWO32;
  }

  // ---------------------------------------------------------------- one call

  /** delaymsec, delaystartsec and delaystartmsec. */
  datatype Pace = Pace(delay: nat, startSec: nat, startMsec: nat)

  /** One call of handle_fd: when it starts, whether the device is readable, and the time when the
      packet, if any, has been processed. */
  datatype Call = Call(now: Time, readable: bool, later: Time)

  /** The difference in milliseconds that the code computes. */
  function Elapsed(p: Pace, now: Time): int {
    Wrap32((now.sec - p.startSec) * 1000 + now.usec / 1000 - p.startMsec)
  }

  predicate Waiting(p: Pace, now: Time) { p.delay != 0 && 0 <= Elapsed(p, now) <= p.delay }

  predicate Reads(p: Pace, call: Call) { call.readable && !Waiting(p, call.now) }

  function Stamp(base: nat, t: Time): Pace { Pace(base, t.sec % TWO32, t.usec / 1000) }

  function Handle(p: Pace, base: nat, call: Call): Pace {
    if Reads(p, call) && base != 0 then Stamp(base, call.later)
    else if Waiting(p, call.now) then p
    else p.(delay := 0)
  }

  /** The stored start wraps at 32 bits, and so does the difference; together they are exact. */
  lemma ElapsedIsExact(base: nat, start: Time, now: Time)
    ensures Elapsed(Stamp(base, start), now) == Wrap32(Millis(now) - Millis(start))
  {
    var m := start.sec / TWO32;
    assert start.sec == TWO32 * m + start.sec % TWO32;
    WrapPeriod(Millis(now) - Millis(start), 1000 * m);
    assert (now.sec - start.sec % TWO32) * 1000 + now.usec / 1000 - start.usec / 1000
        == Millis(now) - Millis(start) + (1000 * m) * TWO32;
  }

  /** After a packet, a readable device is left alone exactly while the difference, as a 32-bit int,
      is between 0 and the delay. So the delay is always waited out; it ends on time, and starts
      again only if the device is looked at when the difference has gone round completely; a clock
      that is set back ends it early. */
  lemma WaitsExactly(base: nat, start: Time, now: Time)
    requires 0 < base < 0x10000
    ensures Waiting(Stamp(base, start), now) <==> 0 <= Wrap32(Millis(now) - Millis(start)) <= base
    ensures base < Millis(now) - Millis(start) < TWO32 ==> !Waiting(Stamp(base, start), now)
    ensures 0 <= Millis(now) - Millis(start) <= base ==> Waiting(Stamp(base, start), now)
    ensures -0x8000_0000 <= Millis(now) - Millis(start) < 0 ==> !Waiting(Stamp(base, start), now)
  {
    ElapsedIsExact(base, start, now);
  }

  class TunReader {
    const basedelay: nat
    var delaymsec: nat
    var delaystartsec: nat
    var delaystartmsec: nat

    ghost function State(): Pace
      reads this
    {
      Pace(delaymsec, delaystartsec, delaystartmsec)
    }

    constructor (basedelay: nat)
      requires basedelay < 0x10000
      ensures this.basedelay == basedelay && State() == Pace(0, 0, 0)
    {
      this.basedelay := basedelay;
      delaymsec, delaystartsec, delaystartmsec := 0, 0, 0;
    }

    /** handle_fd; the result tells whether a packet was read. */
    method HandleFd(call: Call) returns (read: bool)
      modifies this
      ensures read == Reads(old(State()), call)
      ensures State() == Handle(old(State()), basedelay, call)
    {
      if delaymsec != 0 {
        var dmsec := Wrap32((call.now.sec - delaystartsec) * 1000 + call.now.usec / 1000 - delaystartmsec);
        if dmsec < 0 {
          delaymsec := 0;
        }
        if dmsec > delaymsec {
          delaymsec := 0;
        }
      }
      read := false;
      if delaymsec == 0 && call.readable {
        read := true;
        if basedelay != 0 {
          delaymsec := basedelay;
          delaystartsec := call.later.sec % TWO32;
          delaystartmsec := call.later.usec / 1000;
        }
      }
    }
  }

  // ---------------------------------------------------------------- runs

  /** Calls with a clock that never goes back. */
  ghost predicate Clocked(calls: seq<Call>) {
    && (forall i | 0 <= i < |calls| :: IsTime(calls[i].now) && IsTime(calls[i].later)
          && Micros(calls[i].now) <= Micros(calls[i].later))
    && (forall i | 0 < i < |calls| :: Micros(calls[i - 1].later) <= Micros(calls[i].now))
  }

  function Run(base: nat, calls: seq<Call>): Pace {
    if calls == [] then Pace(0, 0, 0) else Handle(Run(base, calls[..|calls| - 1]), base, calls[|calls| - 1])
  }

  /** The calls that read a packet. */
  function ReadCalls(base: nat, calls: seq<Call>): seq<Call> {
    if calls == [] then []
    else
      var init, last := calls[..|calls| - 1], calls[|calls| - 1];
      if Reads(Run(base, init), last) then ReadCalls(base, init) + [last] else ReadCalls(base, init)
  }

  function Clock(calls: seq<Call>): int { if calls == [] then 0 else Millis(calls[|calls| - 1].later) }

  ghost predicate Spaced(base: nat, rs: seq<Call>) {
    forall i | 0 < i < |rs| :: Millis(rs[i].now) - Millis(rs[i - 1].later) > base
  }

  ghost predicate PaceOk(base: nat, p: Pace, rs: seq<Call>, clock: int) {
    if rs == [] then p.delay == 0
    else
      var last := rs[|rs| - 1].later;
      p == Stamp(base, last) || (p.delay == 0 && clock - Millis(last) > base)
  }

  lemma CallKeepsPace(base: nat, p: Pace, rs: seq<Call>, clock: int, call: Call)
    requires 0 < base < 0x10000 && PaceOk(base, p, rs, clock) && Spaced(base, rs)
    requires clock <= Millis(call.now) <= Millis(call.later)
    requires rs != [] ==> Millis(rs[|rs| - 1].later) <= clock
    ensures var rs1 := if Reads(p, call) then rs + [call] else rs;
      PaceOk(base, Handle(p, base, call), rs1, Millis(call.later)) && Spaced(base, rs1)
  {
    if rs != [] {
      WaitsExactly(base, rs[|rs| - 1].later, call.now);
    }
  }

  lemma ClockedLast(calls: seq<Call>)
    requires calls != [] && Clocked(calls)
    ensures Clocked(calls[..|calls| - 1])
    ensures var last := calls[|calls| - 1];
      Clock(calls[..|calls| - 1]) <= Millis(last.now) <= Millis(last.later) == Clock(calls)
  {
    hide Millis;
    var init, last := calls[..|calls| - 1], calls[|calls| - 1];
    assert Millis(last.now) >= 0;
    MillisMonotone(last.now, last.later);
    if init != [] {
      assert init[|init| - 1] == calls[|calls| - 2];
      MillisMonotone(init[|init| - 1].later, last.now);
    }
  }

  lemma {:induction false} RunKeepsPace(base: nat, calls: seq<Call>)
    requires 0 < base < 0x10000 && Clocked(calls)
    ensures PaceOk(base, Run(base, calls), ReadCalls(base, calls), Clock(calls))
    ensures Spaced(base, ReadCalls(base, calls))
    ensures ReadCalls(base, calls) != [] ==>
      Millis(ReadCalls(base, calls)[|ReadCalls(base, calls)| - 1].later) <= Clock(calls)
  {
    if calls != [] {
      hide Clocked, Handle, Reads, PaceOk, Spaced, Millis;
      var init, last := calls[..|calls| - 1], calls[|calls| - 1];
      ClockedLast(calls);
      RunKeepsPace(base, init);
      CallKeepsPace(base, Run(base, init), ReadCalls(base, init), Clock(init), last);
    }
  }

  /** Over every run whose clock does not go back, two consecutive packets are read more than
      basedelay milliseconds apart, counted from the end of processing the first one. */
  lemma {:induction false} ReadsAreSpaced(base: nat, calls: seq<Call>, i: nat)
    requires 0 < base < 0x10000 && Clocked(calls) && 0 < i < |ReadCalls(base, calls)|
    ensures Millis(ReadCalls(base, calls)[i].now) - Millis(ReadCalls(base, calls)[i - 1].later) > base
  {
    RunKeepsPace(base, calls);
  }

  // ---------------------------------------------------------------- when a packet is read

  /** The number of the last call that read a packet. */
  function LastRead(base: nat, calls: seq<Call>): (j: int)
    ensures -1 <= j < |calls|
  {
    if calls == [] then -1
    else
      var n := |calls| - 1;
      if Reads(Run(base, calls[..n]), calls[n]) then n else LastRead(base, calls[..n])
  }

  /** Whole milliseconds from a to b, as a 32-bit int, are between 0 and the delay. */
  predicate Delayed(base: nat, a: Time, b: Time) {
    var d := (b.sec * 1000 + b.usec / 1000) - (a.sec * 1000 + a.usec / 1000);
    0 <= (d + 0x8000_0000) % 0x1_0000_0000 - 0x8000_0000 <= base
  }

  /** Since the last packet was read, no call has found its delay over. */
  ghost predicate Holding(base: nat, calls: seq<Call>) {
    var j := LastRead(base, calls);
    && base != 0 && j >= 0
    && forall i | j < i < |calls| :: Delayed(base, calls[j].later, calls[i].now)
  }

  lemma DelayedIsWaiting(base: nat, a: Time, b: Time)
    requires 0 < base < 0x10000
    ensures Waiting(Stamp(base, a), b) <==> Delayed(base, a, b)
  {
    WaitsExactly(base, a, b);
  }

  lemma {:induction false} HoldingIsExact(base: nat, calls: seq<Call>)
    requires base < 0x10000
    ensures Holding(base, calls) ==> Run(base, calls) == Stamp(base, calls[LastRead(base, calls)].later)
    ensures !Holding(base, calls) ==> Run(base, calls).delay == 0
  {
    if calls != [] {
      var n := |calls| - 1;
      var init, call, j := calls[..n], calls[n], LastRead(base, calls[..n]);
      HoldingIsExact(base, init);
      hide Waiting, Stamp, Delayed;
      WaitingNow(base, init, call);
      HoldingSnoc(base, calls);
    }
  }

  lemma HoldingSnoc(base: nat, calls: seq<Call>)
    requires calls != []
    ensures var n := |calls| - 1;
      var init, call := calls[..n], calls[n];
      var j := LastRead(base, init);
      Holding(base, calls) <==>
        if Reads(Run(base, init), call) then base != 0
        else Holding(base, init) && Delayed(base, init[j].later, call.now)
  {
    hide Run, Reads, Delayed;
    var n := |calls| - 1;
    var init, j := calls[..n], LastRead(base, calls[..n]);
    if !Reads(Run(base, init), calls[n]) && j >= 0 {
      assert LastRead(base, calls) == j && calls[j] == init[j];
      assert forall i | j < i < n :: init[i] == calls[i];
    }
  }

  lemma WaitingNow(base: nat, calls: seq<Call>, call: Call)
    requires base < 0x10000
    requires Holding(base, calls) ==> Run(base, calls) == Stamp(base, calls[LastRead(base, calls)].later)
    requires !Holding(base, calls) ==> Run(base, calls).delay == 0
    ensures Waiting(Run(base, calls), call.now) <==>
      Holding(base, calls) && Delayed(base, calls[LastRead(base, calls)].later, call.now)
    ensures Run(base, calls).delay == 0 ==> !Waiting(Run(base, calls), call.now)
  {
    hide Run, Delayed, Stamp;
    if Holding(base, calls) {
      DelayedIsWaiting(base, calls[LastRead(base, calls)].later, call.now);
    }
  }

  /** In every run, whatever the clock does: a readable device is read exactly unless a packet was read before
      and this call and all since then came within its delay. */
  lemma ReadsExactly(base: nat, calls: seq<Call>, call: Call)
    requires base < 0x10000
    ensures Reads(Run(base, calls), call) <==>
      call.readable && !(Holding(base, calls) && Delayed(base, calls[LastRead(base, calls)].later, call.now))
  {
    hide Run, Waiting, Delayed, Holding;
    HoldingIsExact(base, calls);
    WaitingNow(base, calls, call);
  }

  lemma {:induction false} ClockOrder(calls: seq<Call>, j: nat, i: nat)
    requires Clocked(calls) && j < i < |calls|
    ensures Micros(calls[j].later) <= Micros(calls[i].now)
    decreases i - j
  {
    hide Micros;
    if j + 1 < i {
      ClockOrder(calls, j, i - 1);
    }
    assert Micros(calls[i - 1].later) <= Micros(calls[i].now);
    assert Micros(calls[i - 1].now) <= Micros(calls[i - 1].later);
  }

  lemma MillisBetween(calls: seq<Call>, j: nat, i: nat)
    requires Clocked(calls) && j < i < |calls|
    ensures Millis(calls[j].later) <= Millis(calls[i].now) <= Millis(calls[|calls| - 1].now)
  {
    var n := |calls| - 1;
    ClockOrder(calls, j, i);
    hide Micros, Millis;
    MillisMonotone(calls[j].later, calls[i].now);
    if i < n {
      ClockOrder(calls, i, n);
      MillisMonotone(calls[i].now, calls[i].later);
      MillisMonotone(calls[i].later, calls[n].now);
    }
  }

  lemma DelayedIs(base: nat, a: Time, b: Time)
    requires base < 0x10000 && 0 <= Millis(b) - Millis(a) < 0x1_0000_0000
    ensures Delayed(base, a, b) <==> Millis(b) - Millis(a) <= base
  {}

  /** So with a clock that does not go back, if the last packet was read less than 2^32 milliseconds ago: exactly
      if none was read before, or the delay has passed since. */
  lemma ReadsOnceDue(base: nat, calls: seq<Call>, call: Call)
    requires base < 0x10000 && Clocked(calls + [call])
    requires var j := LastRead(base, calls); j >= 0 ==> Millis(call.now) - Millis(calls[j].later) < 0x1_0000_0000
    ensures var j := LastRead(base, calls);
      Reads(Run(base, calls), call) <==>
        call.readable && (base == 0 || j < 0 || Millis(call.now) - Millis(calls[j].later) > base)
  {
    hide Run, Reads, Millis, Clocked, Delayed;
    ReadsExactly(base, calls, call);
    var all, j := calls + [call], LastRead(base, calls);
    if base != 0 && j >= 0 {
      assert all[j] == calls[j] && all[|calls|] == call;
      forall i | j < i < |all|
        ensures 0 <= Millis(all[i].now) - Millis(calls[j].later) <= Millis(call.now) - Millis(calls[j].later)
      {
        MillisBetween(all, j, i);
      }
      DelayedIs(base, calls[j].later, call.now);
      forall i | j < i < |calls| && Millis(call.now) - Millis(calls[j].later) <= base
        ensures Delayed(base, calls[j].later, calls[i].now)
      {
        assert all[i] == calls[i];
        DelayedIs(base, calls[j].later, calls[i].now);
      }
    }
  }
}
