/** The clock interrupt and the sleep loop (src/common/Timer.cpp:169-181, 243-297), and the scaled
    performance counter (src/common/Timer.cpp:299-311). */
module Pacing {
  import opened Arithmetic

  const PIT_PERIOD := 1000
  const SLEEP_QUANTUM := 500
  const SPIN_WINDOW := 250

  // ---------------------------------------------------------------- the clock interrupt

  /** The time of the last clock update, and every amount of time delivered to the clock interrupt. */
  datatype Clock = Clock(pitLast: int, delivered: seq<int>)

  /** `now` is the time the caller read; `later` is the time read after the interrupt was delivered. */
  function Next(c: Clock, now: int, later: int): (Clock, int) {
    if now >= c.pitLast + PIT_PERIOD then (Clock(later, c.delivered + [now - c.pitLast]), PIT_PERIOD)
    else (c, c.pitLast + PIT_PERIOD - now)
  }

  class Pit {
    var pitLast: int
    ghost var delivered: seq<int>

    ghost function View(): Clock
      reads this
    {
      Clock(pitLast, delivered)
    }

    constructor (now: int)
      ensures View() == Clock(now, [])
    {
      pitLast, delivered := now, [];
    }

    method PitNext(now: int, later: int) returns (next: int)
      modifies this
      ensures (View(), next) == Next(old(View()), now, later)
    {
      var deadline := pitLast + PIT_PERIOD;
      if now >= deadline {
        delivered := delivered + [now - pitLast];
        pitLast := later;
        return PIT_PERIOD;
      }
      return pitLast + PIT_PERIOD - now;
    }
  }

  /** One call of pit_next: the time passed in and the time read inside. */
  datatype Reading = Reading(now: int, later: int)

  /** Readings of one clock that never runs backwards. */
  ghost predicate Forward(readings: seq<Reading>, from: int) {
    && (forall k :: 0 <= k < |readings| ==> from <= readings[k].now <= readings[k].later)
    && (forall j, k :: 0 <= j < k < |readings| ==> readings[j].later <= readings[k].now)
  }

  function RunClock(c: Clock, readings: seq<Reading>): Clock {
    if readings == [] then c
    else
      var last := readings[|readings| - 1];
      Next(RunClock(c, readings[..|readings| - 1]), last.now, last.later).0
  }

  function Sum(s: seq<int>): int {
    if s == [] then 0 else Sum(s[..|s| - 1]) + s[|s| - 1]
  }

  /** Time that passes between reading the time for an interrupt and reading it again afterwards. */
  function Dropped(c: Clock, readings: seq<Reading>): int {
    if readings == [] then 0
    else
      var last, before := readings[|readings| - 1], RunClock(c, readings[..|readings| - 1]);
      Dropped(c, readings[..|readings| - 1]) +
      if last.now >= before.pitLast + PIT_PERIOD then last.later - last.now else 0
  }

  /** Over a whole run: each delivery is at least one period; what was delivered plus what was dropped while
      delivering is exactly the time up to the last update, so never more than has passed; and the value
      returned is between 1 and 1000 and does not lie past the next deadline. */
  lemma {:induction false} ClockRun(start: int, readings: seq<Reading>)
    requires Forward(readings, start)
    ensures var c := RunClock(Clock(start, []), readings);
      && (forall k :: 0 <= k < |c.delivered| ==> c.delivered[k] >= PIT_PERIOD)
      && Sum(c.delivered) + Dropped(Clock(start, []), readings) == c.pitLast - start
      && Dropped(Clock(start, []), readings) >= 0
      && start <= c.pitLast && (readings != [] ==> c.pitLast <= readings[|readings| - 1].later)
  {
    if readings == [] {
    } else {
      var n := |readings| - 1;
      ForwardPrefix(readings, start);
      ClockRun(start, readings[..n]);
      OneReading(RunClock(Clock(start, []), readings[..n]), readings[n]);
    }
  }

  lemma {:induction false} OneReading(c: Clock, r: Reading)
    requires c.pitLast <= r.now <= r.later && forall k :: 0 <= k < |c.delivered| ==> c.delivered[k] >= PIT_PERIOD
    ensures var after := Next(c, r.now, r.later).0;
      && (forall k :: 0 <= k < |after.delivered| ==> after.delivered[k] >= PIT_PERIOD)
      && c.pitLast <= after.pitLast <= r.later
      && Sum(after.delivered) - Sum(c.delivered) + (if r.now >= c.pitLast + PIT_PERIOD then r.later - r.now else 0)
         == after.pitLast - c.pitLast
  {
    SumMore(c.delivered, r.now - c.pitLast);
  }

  lemma {:induction false} SumMore(s: seq<int>, x: int)
    ensures Sum(s + [x]) == Sum(s) + x
  {
    assert (s + [x])[..|s|] == s;
  }

  lemma ForwardPrefix(readings: seq<Reading>, from: int)
    requires Forward(readings, from) && readings != []
    ensures var n := |readings| - 1;
      && Forward(readings[..n], from) && from <= readings[n].now <= readings[n].later
      && (n > 0 ==> readings[n - 1].later <= readings[n].now)
  {
  }

  /** The clock is due exactly when 1000 us have passed since its last update: then all the time since is delivered,
      the clock is updated and the delay is 1000; otherwise nothing changes and the delay is exactly the time left. */
  lemma DelayExact(c: Clock, now: int, later: int)
    ensures var (after, next) := Next(c, now, later);
      if now - c.pitLast >= 1000
      then after.delivered == c.delivered + [now - c.pitLast] && after.pitLast == later && next == 1000
      else after == c && now + next == c.pitLast + 1000
  {
  }

  lemma {:induction false} NextDeadline(start: int, readings: seq<Reading>, r: Reading)
    requires Forward(readings + [r], start)
    ensures var before := RunClock(Clock(start, []), readings); var (after, next) := Next(before, r.now, r.later);
      && 1 <= next <= 1000
      && r.now + next <= after.pitLast + 1000
      && Sum(after.delivered) <= r.later - start
  {
    var all, begin := readings + [r], Clock(start, []);
    assert all[..|readings|] == readings && all[|readings|] == r;
    ForwardPrefix(all, start);
    ClockRun(start, readings);
    SumMore(RunClock(begin, readings).delivered, r.now - RunClock(begin, readings).pitLast);
  }

  // ---------------------------------------------------------------- the sleep loop

  datatype Wait = Due | SleepFor(us: int) | Yield

  /** One turn of the inner loop, `elapsed` microseconds after the events were computed. */
  function Turn(elapsed: int, nearestNext: int): Wait {
    if elapsed >= nearestNext then Due
    else if nearestNext - elapsed > SPIN_WINDOW then
      SleepFor(if nearestNext - elapsed - SPIN_WINDOW < SLEEP_QUANTUM then nearestNext - elapsed - SPIN_WINDOW
               else SLEEP_QUANTUM)
    else Yield
  }

  /** The elapsed times seen by successive turns; a sleep overshoots by at most `slack`. */
  ghost predicate Turns(seen: seq<int>, nearestNext: int, slack: int) {
    && (forall k :: 0 <= k < |seen| - 1 ==> seen[k] <= seen[k + 1] && !Turn(seen[k], nearestNext).Due?)
    && (forall k :: 0 <= k < |seen| - 1 && Turn(seen[k], nearestNext).SleepFor? ==>
          seen[k + 1] <= seen[k] + Turn(seen[k], nearestNext).us + slack)
  }

  /** In any run of the inner loop: a turn before the last sees time left. With more than 250 us left it sleeps
      for what is left beyond those 250 us, at most 500 us, and with no more it yields. No sleep carries the loop
      past the next event as long as sleeps overshoot by no more than the 250 us spin window, and the loop then
      only leaves after busy waiting. */
  lemma SleepsNeverOvershoot(seen: seq<int>, nearestNext: int, slack: int, k: nat)
    requires 0 <= slack && Turns(seen, nearestNext, slack) && k < |seen| - 1
    ensures var w, left := Turn(seen[k], nearestNext), nearestNext - seen[k];
      && left > 0
      && (left > 250 <==> w.SleepFor?) && (left <= 250 <==> w.Yield?)
      && (w.SleepFor? ==> 0 < w.us <= 500 && w.us == if left - 250 < 500 then left - 250 else 500)
      && (w.SleepFor? && slack <= 250 ==> seen[k + 1] <= nearestNext)
      && (slack < 250 && Turn(seen[k + 1], nearestNext).Due? ==> w.Yield?)
  {
  }

  /** The inner loop on a given sequence of elapsed times: it waits as `Turn` says, leaves at the first time that is
      not before the event, and goes on as long as there is none. */
  method WaitForEvent(seen: seq<int>, nearestNext: int) returns (waits: seq<Wait>, left: bool)
    ensures |waits| <= |seen| && forall k :: 0 <= k < |waits| ==> seen[k] < nearestNext
    ensures left <==> exists k :: 0 <= k < |seen| && seen[k] >= nearestNext
    ensures if left then |waits| < |seen| && seen[|waits|] >= nearestNext else |waits| == |seen|
    ensures forall k :: 0 <= k < |waits| ==>
      waits[k] == if nearestNext - seen[k] > 250 then SleepFor(Min(nearestNext - seen[k] - 250, 500)) else Yield
  {
    waits, left := [], false;
    for k := 0 to |seen|
      invariant |waits| == k && forall j :: 0 <= j < k ==> seen[j] < nearestNext
      invariant forall j :: 0 <= j < k ==>
        waits[j] == if nearestNext - seen[j] > 250 then SleepFor(Min(nearestNext - seen[j] - 250, 500)) else Yield
    {
      var elapsedUs := seen[k];
      if elapsedUs >= nearestNext {
        left := true;
        return;
      }
      var remainingUs := nearestNext - elapsedUs;
      if remainingUs > SPIN_WINDOW {
        waits := waits + [SleepFor(Min(remainingUs - SPIN_WINDOW, SLEEP_QUANTUM))];
        continue;
      }
      waits := waits + [Yield];
    }
  }

  function Min(a: int, b: int): int {
    if b < a then b else a
  }

  /** The loop leaves: when every sleep lasts at least as long as asked for and every yield takes at least a
      microsecond, no run has more turns than microseconds to the event. */
  lemma {:induction false} LoopLeaves(seen: seq<int>, nearestNext: int, slack: int)
    requires seen != [] && seen[0] >= 0 && nearestNext >= 0 && Turns(seen, nearestNext, slack)
    requires forall k :: 0 <= k < |seen| - 1 ==>
      seen[k + 1] >= seen[k] + (match Turn(seen[k], nearestNext) case SleepFor(us) => us case _ => 1)
    ensures |seen| - 1 <= nearestNext && seen[|seen| - 1] >= |seen| - 1
    decreases |seen|
  {
    var n := |seen| - 1;
    if n == 0 {
    } else {
      LoopLeaves(seen[..n], nearestNext, slack);
    }
  }

  /** The spin window is exactly the overshoot the loop tolerates: any larger one makes some sleep late. */
  lemma SpinWindowIsTight(slack: int)
    requires slack > SPIN_WINDOW
    ensures exists seen, nearestNext :: Turns(seen, nearestNext, slack) && LateSleep(seen, nearestNext)
  {
    var seen := [0, 1 + slack];
    assert Turn(0, SPIN_WINDOW + 1) == SleepFor(1);
    assert Turns(seen, SPIN_WINDOW + 1, slack) && LateSleep(seen, SPIN_WINDOW + 1);
  }

  predicate LateSleep(seen: seq<int>, nearestNext: int) {
    |seen| == 2 && Turn(seen[0], nearestNext).SleepFor? && seen[1] > nearestNext
  }

  // ---------------------------------------------------------------- the scaled counter

  /** Whole seconds and the rest of a second are scaled apart, so that neither product gets large.
      `ticks` counts from the start of the counter. */
  function ScaledCounter(ticks: nat, period: nat, frequency: nat): int
    requires frequency > 0
  {
    ticks / frequency * period + ticks % frequency * period / frequency
  }

  /** The split loses nothing: the result is the product divided once. */
  lemma ScaledCounterExact(ticks: nat, period: nat, frequency: nat)
    requires frequency > 0
    ensures ScaledCounter(ticks, period, frequency) == ticks * period / frequency
  {
    var q, r := ticks / frequency, ticks % frequency;
    assert ticks == q * frequency + r;
    Distribute(q * frequency, r, period);
    assert q * frequency * period == q * period * frequency;
    DivideSum(q * period, r * period, frequency);
  }

  const INT64_LIMIT := 0x8000_0000_0000_0000

  predicate Fits(x: int) {
    -INT64_LIMIT <= x < INT64_LIMIT
  }

  /** Every value the split computation passes through fits a signed 64-bit integer. */
  predicate SplitFits(ticks: nat, period: nat, frequency: nat)
    requires frequency > 0
  {
    && Fits(ticks / frequency * period)
    && Fits(ticks % frequency * period)
    && Fits(ticks % frequency * period / frequency)
    && Fits(ScaledCounter(ticks, period, frequency))
  }

  /** The split computation overflows exactly when its result does not fit or the part of a second, scaled, does
      not; the latter never happens when the frequency times the period fits. */
  lemma SplitFitsIff(ticks: nat, period: nat, frequency: nat)
    requires frequency > 0
    ensures SplitFits(ticks, period, frequency) <==>
      Fits(ticks * period / frequency) && Fits(ticks % frequency * period)
    ensures frequency * period <= INT64_LIMIT ==> Fits(ticks % frequency * period)
  {
    ScaledCounterExact(ticks, period, frequency);
    ProductNatural(ticks / frequency, period);
    ProductNatural(ticks % frequency, period);
    PartAtMost(ticks % frequency * period, frequency);
    RestBelow(ticks % frequency, frequency, period);
  }

  lemma ProductNatural(a: nat, b: nat)
    ensures a * b >= 0
  {
  }

  lemma PartAtMost(x: nat, frequency: nat)
    requires frequency > 0
    ensures 0 <= x / frequency <= x
  {
    Floor(x, frequency);
    var part := x / frequency;
    if part > 0 {
      ScaleDown(1, frequency, part);
    }
  }

  lemma RestBelow(r: nat, frequency: nat, period: nat)
    requires r < frequency
    ensures r * period <= frequency * period && (period > 0 ==> r * period < frequency * period)
  {
  }

  /** What the split is for: it is exact, without overflow, also where the undivided product does not fit, as
      long as the result does. */
  lemma SplitAvoidsOverflow(ticks: nat, period: nat, frequency: nat)
    requires frequency > 0 && frequency * period <= INT64_LIMIT
    requires Fits(ticks * period / frequency)
    ensures SplitFits(ticks, period, frequency)
    ensures ScaledCounter(ticks, period, frequency) == ticks * period / frequency
  {
    SplitFitsIff(ticks, period, frequency);
    ScaledCounterExact(ticks, period, frequency);
  }

  // The time stamp counter of the Xbox (src/core/kernel/exports/EmuKrnlKe.cpp:573), and a 10 MHz host counter.
  const XBOX_TSC_FREQUENCY := 733_333_333
  const TEN_MHZ := 10_000_000

  /** At 10 MHz the undivided product overflows after 21 minutes; the split computation goes on for centuries. */
  lemma SplitLastsLonger(ticks: nat)
    requires 21 * 60 * TEN_MHZ <= ticks <= 100 * 365 * 86400 * TEN_MHZ
    ensures !Fits(ticks * XBOX_TSC_FREQUENCY) && SplitFits(ticks, XBOX_TSC_FREQUENCY, TEN_MHZ)
  {
    SplitAvoidsOverflow(ticks, XBOX_TSC_FREQUENCY, TEN_MHZ);
  }
}
