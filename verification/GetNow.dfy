/** The spin-locked accumulator `get_now` (src/common/Timer.cpp:209-229), under every interleaving of any
    number of threads with each other and with the host's counter. One action is one atomic step. */
module GetNow {
  import opened Arithmetic

  const MICROSECONDS := 1_000_000
  const WIDTH := 0x1_0000_0000_0000_0000

  /** Where a thread is, with the counter when its call was made and what its local variables hold. */
  datatype Thread =
    | Outside
    | Spinning(called: int)
    | Locked(called: int)
    | ReadCounter(called: int, now: int)
    | LoadedLast(called: int, now: int, prev: int)
    | StoredLast(called: int, now: int, prev: int)
    | Accumulated(called: int, result: int)

  /** A completed call: who made it, the counter when it was made, the value returned, and the counter then. */
  datatype Return = Return(thread: nat, called: int, value: int, at: int)

  predicate Inside(t: Thread) {
    !t.Outside? && !t.Spinning?
  }

  datatype Interval = Interval(prev: int, now: int)

  const NOBODY := -1

  /** Shared variables, the host counter, and what happened: who took the lock, the counter intervals
      accounted for and the calls completed, both in lock order, and whether 64-bit arithmetic ever wrapped. */
  datatype State = State(
    threads: seq<Thread>,
    lock: bool,
    owner: int,
    lastQpc: int,
    execTime: int,
    counter: int,
    intervals: seq<Interval>,
    returned: seq<Return>,
    wrapped: bool)

  datatype Action = Tick(d: nat) | Call(thread: nat) | Step(thread: nat)

  function Elapsed(i: Interval, frequency: int): int
    requires frequency > 0
  {
    (i.now - i.prev) * MICROSECONDS % WIDTH / frequency
  }

  function With(s: State, thread: nat, t: Thread): State
    requires thread < |s.threads|
  {
    s.(threads := s.threads[thread := t])
  }

  /** One atomic step; a thread that finds the lock taken keeps spinning. */
  function Act(s: State, a: Action, frequency: int): State
    requires frequency > 0
  {
    match a
    case Tick(d) => s.(counter := s.counter + d)
    case Call(thread) =>
      if thread < |s.threads| && s.threads[thread].Outside? then With(s, thread, Spinning(s.counter)) else s
    case Step(thread) =>
      if thread >= |s.threads| then s
      else
        match s.threads[thread]
        case Outside => s
        case Spinning(called) =>
          if s.lock then s else With(s, thread, Locked(called)).(lock := true, owner := thread)
        case Locked(called) => With(s, thread, ReadCounter(called, s.counter))
        case ReadCounter(called, now) => With(s, thread, LoadedLast(called, now, s.lastQpc))
        case LoadedLast(called, now, prev) => With(s, thread, StoredLast(called, now, prev)).(lastQpc := now)
        case StoredLast(called, now, prev) =>
          var t := Add(s, Interval(prev, now), frequency);
          With(t, thread, Accumulated(called, t.execTime))
        case Accumulated(called, result) =>
          With(s, thread, Outside).(lock := false, owner := NOBODY,
                                    returned := s.returned + [Return(thread, called, result, s.counter)])
  }

  function Run(s: State, actions: seq<Action>, frequency: int): State
    requires frequency > 0
    decreases |actions|
  {
    if actions == [] then s else Run(Act(s, actions[0], frequency), actions[1..], frequency)
  }

  /** What timer_init leaves: no time accumulated, last reading equal to the start of the count. */
  predicate Initial(s: State, start: int) {
    && s == State(s.threads, false, NOBODY, start, 0, s.counter, [], [], false)
    && start <= s.counter && forall k :: 0 <= k < |s.threads| ==> s.threads[k].Outside?
  }

  // ---------------------------------------------------------------- invariant

  /** The counter value up to which time has been accounted for. */
  function Accounted(intervals: seq<Interval>, start: int): int {
    if intervals == [] then start else intervals[|intervals| - 1].now
  }

  function EndBefore(intervals: seq<Interval>, k: int, start: int): int
    requires 0 <= k < |intervals|
  {
    if k == 0 then start else intervals[k - 1].now
  }

  /** The intervals lie end to end from `start`: none overlaps another, none is skipped. */
  ghost predicate Tiles(intervals: seq<Interval>, start: int) {
    && (forall k :: 0 <= k < |intervals| ==> intervals[k].prev <= intervals[k].now)
    && (forall k :: 0 <= k < |intervals| ==> intervals[k].prev == EndBefore(intervals, k, start))
  }

  /** One thread inside holds the lock, has seen the shared variables as they are, and read the counter after
      its call was made; what it is about to return is the accumulated time. */
  ghost predicate ThreadOk(s: State, t: Thread, start: int) {
    match t
    case Outside => true
    case Spinning(called) => called <= s.counter
    case Locked(called) => called <= s.counter && Settled(s, start)
    case ReadCounter(called, now) => called <= now && Settled(s, start) && s.lastQpc <= now <= s.counter
    case LoadedLast(called, now, prev) =>
      called <= now && Settled(s, start) && s.lastQpc == prev && prev <= now <= s.counter
    case StoredLast(called, now, prev) =>
      && called <= now && s.lastQpc == now && prev == Accounted(s.intervals, start) && prev <= now <= s.counter
      && |s.returned| == |s.intervals|
    case Accumulated(called, result) =>
      && s.lastQpc == Accounted(s.intervals, start) && result == s.execTime
      && |s.returned| + 1 == |s.intervals| && called <= s.lastQpc
  }

  /** All time up to the last reading is accounted for and returned. */
  ghost predicate Settled(s: State, start: int) {
    s.lastQpc == Accounted(s.intervals, start) && |s.returned| == |s.intervals|
  }

  ghost predicate Locking(s: State) {
    && (if s.lock then 0 <= s.owner < |s.threads| else s.owner == NOBODY)
    && (forall k :: 0 <= k < |s.threads| ==> (Inside(s.threads[k]) <==> k == s.owner))
  }

  /** The accumulated microseconds against the ticks accounted for (in millionths): never ahead, and, unless the
      arithmetic wrapped, behind by less than one microsecond per interval. */
  ghost predicate InStep(execTime: int, elapsed: int, frequency: int, intervals: nat, wrapped: bool) {
    && 0 <= execTime && execTime * frequency <= elapsed
    && (!wrapped ==> elapsed - execTime * frequency <= intervals * (frequency - 1))
  }

  ghost predicate Accounting(s: State, start: int, frequency: int) {
    && Tiles(s.intervals, start)
    && start <= Accounted(s.intervals, start) <= s.lastQpc <= s.counter
    && InStep(s.execTime, (Accounted(s.intervals, start) - start) * MICROSECONDS, frequency, |s.intervals|, s.wrapped)
    && (s.wrapped ==> (s.counter - start) * MICROSECONDS >= WIDTH)
  }

  /** The k-th completed call returned the time up to its own reading, which it made between call and return. */
  ghost predicate ReturnOk(s: State, start: int, frequency: int, k: int)
    requires 0 <= k < |s.returned| <= |s.intervals|
  {
    var ret, now := s.returned[k], s.intervals[k].now;
    && ret.called <= now <= ret.at <= s.counter
    && InStep(ret.value, (now - start) * MICROSECONDS, frequency, k + 1, s.wrapped)
  }

  ghost predicate ReturnsOk(s: State, start: int, frequency: int) {
    && |s.returned| <= |s.intervals|
    && (forall k :: 0 <= k < |s.returned| ==> ReturnOk(s, start, frequency, k))
    && (!s.wrapped ==> Ascending(s.returned, s.execTime))
  }

  ghost predicate Ascending(returned: seq<Return>, last: int) {
    && (forall j, k :: 0 <= j < k < |returned| ==> returned[j].value <= returned[k].value)
    && (forall k :: 0 <= k < |returned| ==> returned[k].value <= last)
  }

  ghost predicate Inv(s: State, start: int, frequency: int) {
    && Locking(s)
    && (forall k :: 0 <= k < |s.threads| ==> ThreadOk(s, s.threads[k], start))
    && (!s.lock ==> Settled(s, start))
    && Accounting(s, start, frequency)
    && ReturnsOk(s, start, frequency)
  }

  lemma InitialInv(s: State, start: int, frequency: int)
    requires Initial(s, start) && frequency > 0
    ensures Inv(s, start, frequency)
  {
  }

  /** The step under the lock that adds an interval to the accumulated time. */
  function Add(s: State, i: Interval, frequency: int): State
    requires frequency > 0
  {
    var result := (s.execTime + Elapsed(i, frequency)) % WIDTH;
    s.(execTime := result,
       intervals := s.intervals + [i],
       wrapped := s.wrapped || (i.now - i.prev) * MICROSECONDS >= WIDTH || s.execTime + Elapsed(i, frequency) >= WIDTH)
  }

  /** Accounting for one more interval: the whole microseconds in it, at most one microsecond lost. */
  lemma {:induction false} AddKeepsAccounting(s: State, i: Interval, start: int, frequency: int)
    requires frequency > 0 && Accounting(s, start, frequency)
    requires i.prev == Accounted(s.intervals, start) <= i.now == s.lastQpc
    ensures Accounting(Add(s, i, frequency), start, frequency)
    ensures !Add(s, i, frequency).wrapped ==> s.execTime <= Add(s, i, frequency).execTime
  {
    var elapsed, us := (Accounted(s.intervals, start) - start) * MICROSECONDS, (i.now - i.prev) * MICROSECONDS;
    var s' := Add(s, i, frequency);
    TilesExtend(s.intervals, i, start);
    assert (Accounted(s'.intervals, start) - start) * MICROSECONDS == elapsed + us;
    AddInStep(s, i, elapsed, us, frequency);
    assert s'.wrapped ==> (s'.counter - start) * MICROSECONDS >= WIDTH;
  }

  lemma {:induction false} AddInStep(s: State, i: Interval, elapsed: int, us: int, frequency: int)
    requires frequency > 0 && us == (i.now - i.prev) * MICROSECONDS >= 0 && elapsed >= 0
    requires InStep(s.execTime, elapsed, frequency, |s.intervals|, s.wrapped)
    ensures var s' := Add(s, i, frequency);
      && InStep(s'.execTime, elapsed + us, frequency, |s.intervals| + 1, s'.wrapped)
      && (!s'.wrapped ==> s.execTime <= s'.execTime)
      && (s'.wrapped ==> s.wrapped || elapsed + us >= WIDTH)
  {
    AddMicroseconds(s.execTime, elapsed, us, frequency, |s.intervals|, s.wrapped);
  }

  lemma {:induction false} TilesExtend(intervals: seq<Interval>, i: Interval, start: int)
    requires Tiles(intervals, start) && i.prev == Accounted(intervals, start) <= i.now
    ensures Tiles(intervals + [i], start) && Accounted(intervals + [i], start) == i.now
  {
    var longer := intervals + [i];
    forall k | 0 <= k < |longer|
      ensures longer[k].prev == EndBefore(longer, k, start)
    {
      assert k < |intervals| ==> EndBefore(longer, k, start) == EndBefore(intervals, k, start);
    }
  }

  lemma AddMicroseconds(exec: int, elapsed: int, us: int, f: int, n: nat, wrapped: bool)
    requires f > 0 && us >= 0 && elapsed >= 0 && InStep(exec, elapsed, f, n, wrapped)
    ensures var e := us % WIDTH / f; var result := (exec + e) % WIDTH;
      && InStep(result, elapsed + us, f, n + 1, wrapped || us >= WIDTH || exec + e >= WIDTH)
      && (us < WIDTH && exec + e < WIDTH ==> exec <= result)
      && (us >= WIDTH || exec + e >= WIDTH ==> elapsed + us >= WIDTH)
  {
    var e := us % WIDTH / f;
    Floor(us % WIDTH, f);
    AddNever(exec, e, (exec + e) % WIDTH, elapsed, us, f);
    if us < WIDTH && exec + e < WIDTH {
      Distribute(n, 1, f - 1);
      if !wrapped {
        AddExactly(exec, elapsed, us, f, n * (f - 1));
      }
    } else {
      WrappedLate(exec + e, us, f, elapsed + us);
    }
  }

  /** Never ahead, wrapped or not. */
  lemma AddNever(exec: int, e: int, result: int, elapsed: int, us: int, f: int)
    requires f > 0 && exec * f <= elapsed && e * f <= us && result <= exec + e
    ensures (exec + e) * f <= elapsed + us && result * f <= elapsed + us
  {
    Distribute(exec, e, f);
    ScaleDown(result, exec + e, f);
  }

  /** At most f - 1 millionths of a tick are lost in an interval. */
  lemma AddExactly(exec: int, elapsed: int, us: int, f: int, lost: int)
    requires f > 0 && 0 <= us && elapsed - exec * f <= lost
    ensures elapsed + us - (exec + us / f) * f <= lost + (f - 1)
  {
    Floor(us, f);
    Distribute(exec, us / f, f);
  }

  lemma WrappedLate(total: int, us: int, f: int, elapsed: int)
    requires f > 0 && (us >= WIDTH || total >= WIDTH) && us <= elapsed && total * f <= elapsed
    ensures elapsed >= WIDTH
  {
    if total >= WIDTH {
      ScaleDown(1, f, total);
    }
  }

  /** Every atomic step of every thread, and every tick of the counter, keeps the invariant. */
  lemma {:induction false} ActKeepsInv(s: State, a: Action, start: int, frequency: int)
    requires frequency > 0 && Inv(s, start, frequency)
    ensures Inv(Act(s, a, frequency), start, frequency)
  {
    ActKeepsLocking(s, a, frequency);
    if a.Step? && a.thread < |s.threads| {
      StepKeepsAccounting(s, a.thread, start, frequency);
      StepKeepsThreads(s, a.thread, start, frequency);
      StepKeepsReturns(s, a.thread, start, frequency);
    } else {
      QuietKeepsReturns(s, Act(s, a, frequency), start, frequency);
    }
  }

  lemma ActKeepsLocking(s: State, a: Action, frequency: int)
    requires frequency > 0 && Locking(s)
    ensures Locking(Act(s, a, frequency))
  {
  }

  lemma {:induction false} StepKeepsAccounting(s: State, thread: nat, start: int, frequency: int)
    requires frequency > 0 && Inv(s, start, frequency) && thread < |s.threads|
    ensures Accounting(Act(s, Step(thread), frequency), start, frequency)
  {
    var t := s.threads[thread];
    assert ThreadOk(s, t, start);
    if t.StoredLast? {
      AddKeepsAccounting(s, Interval(t.prev, t.now), start, frequency);
    }
  }

  lemma {:induction false} StepKeepsThreads(s: State, thread: nat, start: int, frequency: int)
    requires frequency > 0 && Inv(s, start, frequency) && thread < |s.threads|
    ensures var s' := Act(s, Step(thread), frequency);
      && (forall k :: 0 <= k < |s'.threads| ==> ThreadOk(s', s'.threads[k], start))
      && (!s'.lock ==> Settled(s', start))
  {
    var s' := Act(s, Step(thread), frequency);
    assert ThreadOk(s, s.threads[thread], start);
    forall k | 0 <= k < |s.threads|
      ensures ThreadOk(s', s'.threads[k], start)
    {
      assert ThreadOk(s, s.threads[k], start);
      assert k != thread && Inside(s.threads[k]) ==> !Inside(s.threads[thread]);
    }
  }

  /** Time passing, or a step that adds neither an interval nor a return. */
  lemma {:induction false} QuietKeepsReturns(s: State, s': State, start: int, frequency: int)
    requires ReturnsOk(s, start, frequency) && s'.returned == s.returned && s'.counter >= s.counter
    requires s.intervals <= s'.intervals && (s.wrapped ==> s'.wrapped)
    requires !s'.wrapped ==> s.execTime <= s'.execTime
    ensures ReturnsOk(s', start, frequency)
  {
    forall k | 0 <= k < |s.returned|
      ensures ReturnOk(s', start, frequency, k)
    {
      assert ReturnOk(s, start, frequency, k);
      assert s'.intervals[k] == s.intervals[k];
    }
  }

  lemma {:induction false} StepKeepsReturns(s: State, thread: nat, start: int, frequency: int)
    requires frequency > 0 && Inv(s, start, frequency) && thread < |s.threads|
    ensures ReturnsOk(Act(s, Step(thread), frequency), start, frequency)
  {
    var t, s' := s.threads[thread], Act(s, Step(thread), frequency);
    assert ThreadOk(s, t, start);
    if t.Accumulated? {
      NewReturn(s, thread, start, frequency);
    } else {
      if t.StoredLast? {
        AddKeepsAccounting(s, Interval(t.prev, t.now), start, frequency);
      }
      QuietKeepsReturns(s, s', start, frequency);
    }
  }

  /** The call that completes returns the accumulated time, which counts all intervals up to its own. */
  lemma {:induction false} NewReturn(s: State, thread: nat, start: int, frequency: int)
    requires frequency > 0 && Inv(s, start, frequency) && thread < |s.threads| && s.threads[thread].Accumulated?
    ensures ReturnsOk(Act(s, Step(thread), frequency), start, frequency)
  {
    var s', n := Act(s, Step(thread), frequency), |s.returned|;
    assert ThreadOk(s, s.threads[thread], start);
    forall k | 0 <= k <= n
      ensures ReturnOk(s', start, frequency, k)
    {
      if k < n {
        assert ReturnOk(s, start, frequency, k);
      }
    }
  }

  lemma {:induction false} RunKeepsInv(s: State, actions: seq<Action>, start: int, frequency: int)
    requires frequency > 0 && Inv(s, start, frequency)
    ensures Inv(Run(s, actions, frequency), start, frequency)
    decreases |actions|
  {
    if actions == [] {
    } else {
      ActKeepsInv(s, actions[0], start, frequency);
      RunKeepsInv(Act(s, actions[0], frequency), actions[1..], start, frequency);
    }
  }

  // ---------------------------------------------------------------- no deadlock

  /** Who holds the lock is a thread inside. */
  lemma OwnerInside(s: State, start: int, frequency: int)
    requires Inv(s, start, frequency) && s.lock
    ensures 0 <= s.owner < |s.threads| && Inside(s.threads[s.owner])
  {
  }

  function Steps(thread: nat, n: nat): (actions: seq<Action>)
    ensures |actions| == n && forall k :: 0 <= k < n ==> actions[k] == Step(thread)
  {
    seq(n, _ => Step(thread))
  }

  /** Alone with a free lock, a call completes in six steps and returns the accumulated time with the whole
      microseconds since the last reading added. */
  lemma {:induction false} CallAlone(s: State, thread: nat, frequency: int)
    requires frequency > 0 && thread < |s.threads| && s.threads[thread].Outside? && !s.lock && s.owner == NOBODY
    ensures var e := Run(s, [Call(thread)] + Steps(thread, 6), frequency);
      && e.threads == s.threads && !e.lock && e.counter == s.counter && e.lastQpc == s.counter
      && e.execTime == (s.execTime + (s.counter - s.lastQpc) * 1_000_000 % 0x1_0000_0000_0000_0000 / frequency)
                         % 0x1_0000_0000_0000_0000
      && e.returned == s.returned + [Return(thread, s.counter, e.execTime, s.counter)]
  {
    RunFirst(s, Call(thread), Steps(thread, 6), frequency);
    AllSteps(Act(s, Call(thread), frequency), thread, frequency);
  }

  lemma {:induction false} RunFirst(s: State, a: Action, rest: seq<Action>, frequency: int)
    requires frequency > 0
    ensures Run(s, [a] + rest, frequency) == Run(Act(s, a, frequency), rest, frequency)
  {
    assert ([a] + rest)[1..] == rest;
  }

  lemma {:induction false} StepsFirst(s: State, thread: nat, n: nat, frequency: int)
    requires frequency > 0
    ensures Run(s, Steps(thread, n + 1), frequency) == Run(Act(s, Step(thread), frequency), Steps(thread, n), frequency)
  {
    assert Steps(thread, n + 1) == [Step(thread)] + Steps(thread, n);
    RunFirst(s, Step(thread), Steps(thread, n), frequency);
  }

  /** The six steps of a call, one after the other. */
  lemma {:induction false} AllSteps(s: State, thread: nat, frequency: int)
    requires frequency > 0 && thread < |s.threads| && s.threads[thread].Spinning? && !s.lock
    ensures var called, now := s.threads[thread].called, s.counter;
      var t := Add(s, Interval(s.lastQpc, now), frequency);
      Run(s, Steps(thread, 6), frequency) ==
        s.(threads := s.threads[thread := Outside], owner := NOBODY, lastQpc := now, execTime := t.execTime,
           intervals := t.intervals, wrapped := t.wrapped,
           returned := s.returned + [Return(thread, called, t.execTime, now)])
  {
    StepsFirst(s, thread, 5, frequency);
    var a := Act(s, Step(thread), frequency);
    FiveSteps(a, thread, frequency);
    assert a.threads[thread := Outside] == s.threads[thread := Outside];
  }

  /** From inside the lock, with nothing read yet. */
  lemma {:induction false} FiveSteps(s: State, thread: nat, frequency: int)
    requires frequency > 0 && thread < |s.threads| && s.threads[thread].Locked?
    ensures var called, now := s.threads[thread].called, s.counter;
      var t := Add(s, Interval(s.lastQpc, now), frequency);
      Run(s, Steps(thread, 5), frequency) ==
        s.(threads := s.threads[thread := Outside], lock := false, owner := NOBODY, lastQpc := now,
           execTime := t.execTime, intervals := t.intervals, wrapped := t.wrapped,
           returned := s.returned + [Return(thread, called, t.execTime, now)])
  {
    StepsFirst(s, thread, 4, frequency);
    var a := Act(s, Step(thread), frequency);
    StepsFirst(a, thread, 3, frequency);
    var b := Act(a, Step(thread), frequency);
    StepsFirst(b, thread, 2, frequency);
    var c := Act(b, Step(thread), frequency);
    assert c == s.(threads := c.threads, lastQpc := s.counter);
    assert c.threads == s.threads[thread := StoredLast(s.threads[thread].called, s.counter, s.lastQpc)];
    TwoSteps(c, thread, frequency);
    assert c.threads[thread := Outside] == s.threads[thread := Outside];
  }

  /** From the stored reading: add the interval, then release the lock and return. */
  lemma {:induction false} TwoSteps(s: State, thread: nat, frequency: int)
    requires frequency > 0 && thread < |s.threads| && s.threads[thread].StoredLast?
    ensures var t := s.threads[thread];
      var u := Add(s, Interval(t.prev, t.now), frequency);
      Run(s, Steps(thread, 2), frequency) ==
        s.(threads := s.threads[thread := Outside], lock := false, owner := NOBODY,
           execTime := u.execTime, intervals := u.intervals, wrapped := u.wrapped,
           returned := s.returned + [Return(thread, t.called, u.execTime, s.counter)])
  {
    StepsFirst(s, thread, 1, frequency);
    var d := Act(s, Step(thread), frequency);
    StepsFirst(d, thread, 0, frequency);
    var e := Act(d, Step(thread), frequency);
    assert e.threads == s.threads[thread := Outside];
    assert Run(e, Steps(thread, 0), frequency) == e;
  }

  /** Where the lock holder is: that many steps of it release the lock. */
  function StepsLeft(t: Thread): (n: nat)
    ensures n <= 5
  {
    match t
    case Outside => 0
    case Spinning(_) => 0
    case Locked(_) => 5
    case ReadCounter(_, _) => 4
    case LoadedLast(_, _, _) => 3
    case StoredLast(_, _, _) => 2
    case Accumulated(_, _) => 1
  }

  lemma {:induction false} HolderReleases(s: State, frequency: int)
    requires frequency > 0 && s.lock && 0 <= s.owner < |s.threads| && Inside(s.threads[s.owner])
    ensures var e := Run(s, Steps(s.owner, StepsLeft(s.threads[s.owner])), frequency);
      && !e.lock && e.owner == NOBODY && e.threads == s.threads[s.owner := Outside]
    decreases StepsLeft(s.threads[s.owner])
  {
    var thread, n := s.owner, StepsLeft(s.threads[s.owner]);
    StepsFirst(s, thread, n - 1, frequency);
    var t := Act(s, Step(thread), frequency);
    if n == 1 {
      assert Run(t, Steps(thread, 0), frequency) == t;
    } else {
      HolderReleases(t, frequency);
    }
  }

  lemma {:induction false} RunAppend(s: State, a: seq<Action>, b: seq<Action>, frequency: int)
    requires frequency > 0
    ensures Run(s, a + b, frequency) == Run(Run(s, a, frequency), b, frequency)
    decreases |a|
  {
    if a == [] {
      assert a + b == b;
    } else {
      assert (a + b)[1..] == a[1..] + b;
      RunAppend(Act(s, a[0], frequency), a[1..], b, frequency);
    }
  }

  /** No deadlock: wherever a run has got to, a waiting call can still complete, in at most eleven steps of the
      lock holder and its own thread. */
  lemma {:induction false} WaitingCallCompletes(s: State, actions: seq<Action>, start: int, frequency: int, thread: nat)
    requires frequency > 0 && Initial(s, start)
    requires var e := Run(s, actions, frequency); thread < |e.threads| && e.threads[thread].Spinning?
    ensures exists more :: |more| <= 11 && CompletesFor(Run(s, actions + more, frequency), thread)
  {
    InitialInv(s, start, frequency);
    RunKeepsInv(s, actions, start, frequency);
    var e := Run(s, actions, frequency);
    var first := [];
    if e.lock {
      OwnerInside(e, start, frequency);
      HolderReleases(e, frequency);
      first := Steps(e.owner, StepsLeft(e.threads[e.owner]));
    }
    var free := Run(e, first, frequency);
    AllSteps(free, thread, frequency);
    var more := first + Steps(thread, 6);
    RunAppend(e, first, Steps(thread, 6), frequency);
    RunAppend(s, actions, more, frequency);
    assert CompletesFor(Run(s, actions + more, frequency), thread);
  }

  /** The last call to complete is one of this thread. */
  predicate CompletesFor(s: State, thread: nat) {
    s.returned != [] && s.returned[|s.returned| - 1].thread == thread
  }

  // ---------------------------------------------------------------- what callers can rely on

  /** Any number of threads, any interleaving: time is never counted twice or skipped; the k-th call to complete
      read the counter between its call and its return, and the value it returned is never ahead of that reading
      and, unless 64-bit arithmetic wrapped, behind it by less than one microsecond per completed call; returned
      values then never decrease in lock order. It cannot wrap before the counter has advanced by 2^64 / 1000000
      ticks. */
  lemma {:induction false} EveryInterleaving(s: State, actions: seq<Action>, start: int, frequency: int)
    requires frequency > 0 && Initial(s, start)
    ensures var e := Run(s, actions, frequency);
      && Tiles(e.intervals, start) && Accounted(e.intervals, start) <= e.counter
      && |e.returned| <= |e.intervals| <= |e.returned| + 1
      && (forall k :: 0 <= k < |e.returned| ==> Returned(e, start, frequency, k))
      && (!e.wrapped ==>
            forall j, k :: 0 <= j < k < |e.returned| ==> e.returned[j].value <= e.returned[k].value)
      && ((e.counter - start) * MICROSECONDS < WIDTH ==> !e.wrapped)
  {
    InitialInv(s, start, frequency);
    RunKeepsInv(s, actions, start, frequency);
    var e := Run(s, actions, frequency);
    forall k | 0 <= k < |e.returned|
      ensures Returned(e, start, frequency, k)
    {
      assert ReturnOk(e, start, frequency, k);
      Distribute(e.returned[k].value, k + 1, frequency);
      assert (k + 1) * (frequency - 1) == (k + 1) * frequency - (k + 1);
    }
    OneInTransit(e, start, frequency);
  }

  /** What the k-th call to complete returned, against its own reading of the counter. */
  ghost predicate Returned(e: State, start: int, frequency: int, k: int)
    requires 0 <= k < |e.returned| <= |e.intervals|
  {
    var ret, now := e.returned[k], e.intervals[k].now;
    && ret.called <= now <= ret.at <= e.counter
    && 0 <= ret.value && ret.value * frequency <= (now - start) * MICROSECONDS
    && (!e.wrapped ==> (now - start) * MICROSECONDS <= (ret.value + (k + 1)) * frequency - (k + 1))
  }

  lemma {:induction false} OneInTransit(e: State, start: int, frequency: int)
    requires Inv(e, start, frequency)
    ensures |e.intervals| <= |e.returned| + 1
  {
    if e.lock {
      OwnerInside(e, start, frequency);
      assert ThreadOk(e, e.threads[e.owner], start);
    }
  }

  /** Two threads are never between taking and releasing the lock at the same time. */
  lemma {:induction false} MutualExclusion(s: State, actions: seq<Action>, start: int, frequency: int, j: nat, k: nat)
    requires frequency > 0 && Initial(s, start)
    requires var e := Run(s, actions, frequency);
      j < |e.threads| && k < |e.threads| && Inside(e.threads[j]) && Inside(e.threads[k])
    ensures j == k
  {
    InitialInv(s, start, frequency);
    RunKeepsInv(s, actions, start, frequency);
  }
}
