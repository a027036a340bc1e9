/** The downgrade with a walk-back that spares the systems still wanted, as `FreeAddressRanges` does
    (src/common/ReserveAddressRanges.cpp:255-257), beside the one of the source (lines 287-294): it asks
    the host for exactly the same, returns the same, and keeps the promise on every table. */
module DowngradeRepair {
  import opened AddressRanges
  import opened Reservation
  import opened Downgrade
  import opened DowngradeTheorems
  import opened ReservationRuns

  function ConsiderSparing(t: Table, p: Pass, grant: Grants): (q: Pass)
    requires |p.trials| < |t|
    ensures |q.trials| == |p.trials| + 1
  {
    var i := |p.trials|;
    var r := t[i];
    if !Matches(r, p.systems) then p.(trials := p.trials + [Skipped])
    else
      var w := Reserve(r, p.w, grant);
      var trial := TrialOf(r, p.w, grant);
      var trials := p.trials + [trial];
      if Fails(r, trial)
      then
        var kept := p.systems - SystemFlags(r);
        Pass(kept, FreeAll(t, i, kept, SystemFlags(r), w), trials)
      else Pass(p.systems, w, trials)
  }

  function AttemptSparing(t: Table, p: Pass, grant: Grants): Outcome
    requires |p.trials| <= |t|
    decreases |t| - |p.trials|
  {
    if |p.trials| == |t| then Outcome(true, p)
    else
      var q := ConsiderSparing(t, p, grant);
      if GivesUp(t, q) then Outcome(false, q)
      else AttemptSparing(t, q, grant)
  }

  // ---------------------------------------------------------------- the host cannot tell them apart

  /** Two passes with the same answers so far: the second holds at least as much, and no more of what is to come. */
  ghost predicate Twins(t: Table, p: Pass, q: Pass) {
    && |p.trials| <= |t|
    && p.systems == q.systems && p.trials == q.trials && p.w.clock == q.w.clock
    && p.w.held <= q.w.held
    && (forall j :: |p.trials| <= j < |t| ==> SameUnits(t[j], p.w, q.w))
  }

  ghost predicate SameUnits(r: Range, w: World, u: World) {
    forall a :: a in Blocks(r) ==> (a in w.held <==> a in u.held)
  }

  /** The host's answers depend on the range's own units and on the number of requests made only. */
  lemma {:induction false} SameAnswers(r: Range, n: nat, w: World, u: World, grant: Grants)
    requires n <= UnitCount(r) && w.clock == u.clock && SameUnits(r, w, u)
    ensures var v, x := ReserveUnits(r, n, w, grant), ReserveUnits(r, n, u, grant);
      && v.clock == x.clock
      && v.held - w.held == x.held - u.held
      && w.held <= v.held && u.held <= x.held
      && (AllGranted(r, n, w, grant) <==> AllGranted(r, n, u, grant))
  {
    if n == 0 {
    } else {
      SameAnswers(r, n - 1, w, u, grant);
      var a, v, x := Unit(r, n - 1), ReserveUnits(r, n - 1, w, grant), ReserveUnits(r, n - 1, u, grant);
      assert a in Blocks(r);
      assert a in v.held <==> a in w.held || a in v.held - w.held;
      assert a in x.held <==> a in u.held || a in x.held - u.held;
      var got := if Granted(r, n - 1, v, grant) then {a} else {};
      assert ReserveUnits(r, n, w, grant).held - w.held == (v.held - w.held) + got;
      assert ReserveUnits(r, n, u, grant).held - u.held == (x.held - u.held) + got;
    }
  }

  lemma {:induction false} TwinsReserve(t: Table, p: Pass, q: Pass, grant: Grants)
    requires ValidTable(t) && Twins(t, p, q) && |p.trials| < |t|
    ensures var r := t[|p.trials|]; var v, x := Reserve(r, p.w, grant), Reserve(r, q.w, grant);
      && TrialOf(r, p.w, grant) == TrialOf(r, q.w, grant)
      && v.clock == x.clock && v.held <= x.held
      && (forall j :: |p.trials| < j < |t| ==> SameUnits(t[j], v, x))
  {
    var i := |p.trials|;
    var v, x := Reserve(t[i], p.w, grant), Reserve(t[i], q.w, grant);
    SameAnswers(t[i], UnitCount(t[i]), p.w, q.w, grant);
    forall a | a in v.held
      ensures a in x.held
    {
      assert a in p.w.held || a in v.held - p.w.held;
    }
    forall j, a | i < j < |t| && a in Blocks(t[j])
      ensures a in v.held <==> a in x.held
    {
      assert a in v.held <==> a in p.w.held || a in v.held - p.w.held;
      assert a in x.held <==> a in q.w.held || a in x.held - q.w.held;
    }
  }

  lemma {:induction false} TwinsStep(t: Table, p: Pass, q: Pass, grant: Grants)
    requires ValidTable(t) && Twins(t, p, q) && |p.trials| < |t|
    ensures Twins(t, Consider(t, p, grant), ConsiderSparing(t, q, grant))
  {
    var i := |p.trials|;
    var r := t[i];
    TwinsReserve(t, p, q, grant);
    if Matches(r, p.systems) && Fails(r, TrialOf(r, p.w, grant)) {
      SparingFreesLess(t, i, p.systems - SystemFlags(r), SystemFlags(r),
                       Reserve(r, p.w, grant), Reserve(r, q.w, grant));
    }
  }

  lemma {:induction false} SparingFreesLess(t: Table, i: nat, kept: Flags, clear: Flags, w: World, u: World)
    requires ValidTable(t) && i < |t| && w.clock == u.clock && w.held <= u.held
    requires forall j :: i < j < |t| ==> SameUnits(t[j], w, u)
    ensures var v, x := WalkBack(t, i, clear, w), FreeAll(t, i, kept, clear, u);
      && v.clock == x.clock && v.held <= x.held
      && (forall j :: i < j < |t| ==> SameUnits(t[j], v, x))
  {
    WalkBackLaw(t, i, clear, w);
    FreeAllLaw(t, i, kept, clear, u);
    FreeAllClock(t, i, kept, clear, u);
    forall j, a | i < j < |t| && a in Blocks(t[j])
      ensures a in WalkBack(t, i, clear, w).held <==> a in FreeAll(t, i, kept, clear, u).held
    {
      WalkBackUnit(t, i, clear, w, j, a);
      forall m | 0 <= m < i
        ensures a !in Blocks(t[m])
      {
        UnitOfOneRange(t, j, m, a);
      }
    }
  }

  lemma {:induction false} FreeAllClock(t: Table, n: nat, kept: Flags, clear: Flags, w: World)
    requires ValidTable(t) && n <= |t|
    ensures FreeAll(t, n, kept, clear, w).clock == w.clock
  {
    if n == 0 {
    } else {
      FreeAllClock(t, n - 1, kept, clear, w);
      FreeUnitsLaw(t[n - 1], UnitCount(t[n - 1]), FreeAll(t, n - 1, kept, clear, w));
    }
  }

  // ---------------------------------------------------------------- the promise

  /** Every mandatory range considered so far that a remaining system wants is held whole. */
  ghost predicate PromiseSoFar(t: Table, p: Pass) {
    && |p.trials| <= |t|
    && forall j :: 0 <= j < |p.trials| && !IsOptional(t[j]) && Matches(t[j], p.systems) ==> Blocks(t[j]) <= p.w.held
  }

  lemma {:induction false} PromiseStep(t: Table, p: Pass, grant: Grants)
    requires ValidTable(t) && PromiseSoFar(t, p) && |p.trials| < |t|
    ensures PromiseSoFar(t, ConsiderSparing(t, p, grant))
  {
    var i, q := |p.trials|, ConsiderSparing(t, p, grant);
    var clear := SystemFlags(t[i]);
    var w := Reserve(t[i], p.w, grant);
    ReserveUnitsLaw(t[i], UnitCount(t[i]), p.w, grant);
    FreeAllLaw(t, i, p.systems - clear, clear, w);
    assert ValidRange(t[i]);
    forall j, a | 0 <= j <= i && !IsOptional(t[j]) && Matches(t[j], q.systems) && a in Blocks(t[j])
      ensures a in q.w.held
    {
      if j < i {
        assert a in w.held;
        SparedUnit(t, i, p.systems - clear, clear, j, a);
      }
    }
  }

  /** A unit of a range that a kept system wants is spared. */
  lemma {:induction false} SparedUnit(t: Table, n: nat, kept: Flags, clear: Flags, j: nat, a: nat)
    requires ValidTable(t) && j < n <= |t| && a in Blocks(t[j])
    ensures Matches(t[j], kept) ==> !Freed(t, n, kept, clear, a)
  {
    forall m | 0 <= m < n && m != j
      ensures a !in Blocks(t[m])
    {
      UnitOfOneRange(t, j, m, a);
    }
  }

  /** Sparing the systems still wanted changes neither the result, nor the returned systems, nor one
      request to the host; it only keeps more, and then "true" means what its caller reads into it. */
  lemma {:induction false} SparingKeepsPromise(t: Table, systems: Flags, w: World, grant: Grants)
    requires ValidTable(t)
    ensures var o, s := Attempt(t, Start(systems, w), grant), AttemptSparing(t, Start(systems, w), grant);
      && s.ok == o.ok && Twins(t, o.pass, s.pass)
      && (s.ok ==> MandatoryHeld(t, s.pass))
  {
    SparingRun(t, Start(systems, w), Start(systems, w), grant);
  }

  lemma {:induction false} SparingRun(t: Table, p: Pass, q: Pass, grant: Grants)
    requires ValidTable(t) && Twins(t, p, q) && PromiseSoFar(t, q)
    ensures var o, s := Attempt(t, p, grant), AttemptSparing(t, q, grant);
      && s.ok == o.ok && Twins(t, o.pass, s.pass)
      && (s.ok ==> MandatoryHeld(t, s.pass))
    decreases |t| - |p.trials|
  {
    if |p.trials| == |t| {
    } else {
      TwinsStep(t, p, q, grant);
      PromiseStep(t, q, grant);
      if !GivesUp(t, Consider(t, p, grant)) {
        SparingRun(t, Consider(t, p, grant), ConsiderSparing(t, q, grant), grant);
      }
    }
  }
}
