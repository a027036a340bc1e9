/** The clock interrupt on the time of `get_now`: every time that `pit_next` works with was returned by that
    function (src/common/Timer.cpp:110, 169-181, 276-278), so what `Pacing` asks of its readings holds. */
module ClockTime {
  import opened Arithmetic
  import opened GetNow
  import opened Pacing

  /** Which calls of `get_now`, in the order they completed, one call of `pit_next` works with: the one whose value
      is passed in, and the one made after an interrupt was delivered (without one there is no second reading). */
  datatype Use = Use(now: nat, later: nat)

  /** One thread makes the calls one after the other, and the first time of all is that of call `from`. */
  ghost predicate InOrder(uses: seq<Use>, from: nat, count: nat) {
    && from < count
    && (forall k :: 0 <= k < |uses| ==> from <= uses[k].now <= uses[k].later < count)
    && (forall j, k :: 0 <= j < k < |uses| ==> uses[j].later <= uses[k].now)
  }

  function Readings(returned: seq<Return>, uses: seq<Use>): (r: seq<Reading>)
    requires forall k :: 0 <= k < |uses| ==> uses[k].now < |returned| && uses[k].later < |returned|
    ensures |r| == |uses|
  {
    seq(|uses|, k requires 0 <= k < |uses| => Reading(returned[uses[k].now].value, returned[uses[k].later].value))
  }

  /** Values that never decrease are readings of a clock that never runs backwards. */
  lemma ReadingsForward(returned: seq<Return>, uses: seq<Use>, from: nat)
    requires InOrder(uses, from, |returned|)
    requires forall j, k :: 0 <= j < k < |returned| ==> returned[j].value <= returned[k].value
    ensures Forward(Readings(returned, uses), returned[from].value)
  {
  }

  /** End to end: any threads call `get_now` in any interleaving, and one of them runs the clock on the values
      returned. Until 64-bit time wraps, every delivery to the interrupt is at least one period, every returned
      delay is 1 to 1000 and does not lie past the next deadline, and the time delivered is at most the time that
      passed between the first and the last value used, which is at most the time the host's counter had measured
      when the last of these calls returned. */
  lemma {:induction false} DeliveriesWithinTime(s: State, actions: seq<Action>, start: int, frequency: int,
                                                uses: seq<Use>, from: nat)
    requires frequency > 0 && Initial(s, start) && uses != []
    requires var e := GetNow.Run(s, actions, frequency);
      (e.counter - start) * MICROSECONDS < WIDTH && InOrder(uses, from, |e.returned|)
    ensures var e, n := GetNow.Run(s, actions, frequency), |uses| - 1;
      var first, last := e.returned[from], e.returned[uses[n].later];
      var readings := Readings(e.returned, uses);
      var (clock, next) := Next(RunClock(Clock(first.value, []), readings[..n]), readings[n].now, readings[n].later);
      && (forall k :: 0 <= k < |clock.delivered| ==> clock.delivered[k] >= 1000)
      && 1 <= next <= 1000 && readings[n].now + next <= clock.pitLast + 1000
      && Sum(clock.delivered) <= last.value - first.value
      && Sum(clock.delivered) * frequency <= (last.at - start) * 1_000_000
  {
    EveryInterleaving(s, actions, start, frequency);
    var e, n := GetNow.Run(s, actions, frequency), |uses| - 1;
    var first, last, readings := e.returned[from], e.returned[uses[n].later], Readings(e.returned, uses);
    ReadingsForward(e.returned, uses, from);
    assert readings == readings[..n] + [readings[n]];
    NextDeadline(first.value, readings[..n], readings[n]);
    ClockRun(first.value, readings);
    assert Returned(e, start, frequency, from) && Returned(e, start, frequency, uses[n].later);
    ScaleDown(Sum(RunClock(Clock(first.value, []), readings).delivered), last.value, frequency);
  }
}
