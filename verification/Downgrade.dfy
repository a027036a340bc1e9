/** The single pass that the backtracking loop of `AttemptReserveAddressRanges` amounts to
    (src/common/ReserveAddressRanges.cpp:268-317), and its exact outcome for every host. */
module Downgrade {
  import opened AddressRanges
  import opened Reservation

  /** What happened to one range: passed over, or asked for with these units newly held. */
  datatype Trial = Skipped | Tried(got: set<nat>, whole: bool)

  /** The state after the first |trials| ranges were considered. */
  datatype Pass = Pass(systems: Flags, w: World, trials: seq<Trial>)

  datatype Outcome = Outcome(ok: bool, pass: Pass)

  /** Walking back from range 0: free every one of the first `n` ranges that carries a cleared system. */
  function WalkBack(t: Table, n: nat, clear: Flags, w: World): World
    requires n <= |t|
  {
    if n == 0 then w
    else
      var u := WalkBack(t, n - 1, clear, w);
      if Matches(t[n - 1], clear) then Free(t[n - 1], u) else u
  }

  function TrialOf(r: Range, w: World, grant: Grants): Trial {
    Tried(Reserve(r, w, grant).held - w.held, Whole(r, w, grant))
  }

  /** A mandatory range that the host did not grant whole. */
  predicate Fails(r: Range, trial: Trial) {
    trial.Tried? && !trial.whole && !IsOptional(r)
  }

  /** Consider the next range: skip it, reserve it, or, when it is mandatory and fails, downgrade. */
  function Consider(t: Table, p: Pass, grant: Grants): (q: Pass)
    requires |p.trials| < |t|
    ensures |q.trials| == |p.trials| + 1 && p.trials <= q.trials
  {
    var i := |p.trials|;
    var r := t[i];
    if !Matches(r, p.systems) then p.(trials := p.trials + [Skipped])
    else
      var w := Reserve(r, p.w, grant);
      var trial := TrialOf(r, p.w, grant);
      var trials := p.trials + [trial];
      if Fails(r, trial)
      then Pass(p.systems - SystemFlags(r), WalkBack(t, i, SystemFlags(r), w), trials)
      else Pass(p.systems, w, trials)
  }

  /** The last range considered was a mandatory failure that left no system. */
  predicate GivesUp(t: Table, p: Pass) {
    0 < |p.trials| <= |t| && Fails(t[|p.trials| - 1], p.trials[|p.trials| - 1]) && p.systems == {}
  }

  /** Consider the remaining ranges in order; give up when a downgrade leaves no system. */
  function Attempt(t: Table, p: Pass, grant: Grants): Outcome
    requires |p.trials| <= |t|
    decreases |t| - |p.trials|
  {
    if |p.trials| == |t| then Outcome(true, p)
    else
      var q := Consider(t, p, grant);
      if GivesUp(t, q) then Outcome(false, q)
      else Attempt(t, q, grant)
  }

  function Start(systems: Flags, w: World): Pass {
    Pass(systems, w, [])
  }

  // ---------------------------------------------------------------- the outcome in closed form

  /** Range k was tried, is mandatory and failed. */
  predicate FailedAt(t: Table, trials: seq<Trial>, k: int) {
    0 <= k < |trials| <= |t| && Fails(t[k], trials[k])
  }

  /** The systems left once the failures among `trials` took theirs away. */
  ghost function Remaining(t: Table, systems: Flags, trials: seq<Trial>): Flags {
    set f | f in systems && forall k :: FailedAt(t, trials, k) ==> f !in SystemFlags(t[k])
  }

  /** A later mandatory failure cleared a system that range j carries. */
  ghost predicate Released(t: Table, trials: seq<Trial>, j: int)
    requires 0 <= j < |t|
  {
    exists k :: j < k && FailedAt(t, trials, k) && Matches(t[j], SystemFlags(t[k]))
  }

  function Got(trials: seq<Trial>, j: int): set<nat> {
    if 0 <= j < |trials| && trials[j].Tried? then trials[j].got else {}
  }

  /** A range was asked for exactly when it carried a system still wanted at that moment. */
  ghost predicate TriesExplained(t: Table, systems: Flags, trials: seq<Trial>)
    requires |trials| <= |t|
  {
    && (forall j :: 0 <= j < |trials| ==>
          (trials[j].Tried? <==> Matches(t[j], Remaining(t, systems, trials[..j]))))
    && (forall j :: 0 <= j < |trials| && trials[j].Tried? ==>
          && trials[j].got <= Blocks(t[j])
          && (trials[j].whole <==> trials[j].got == Blocks(t[j])))
  }

  /** Unit `a` of range j is held exactly when it was held before or granted, and not released since. */
  ghost predicate UnitExplained(t: Table, w: World, p: Pass, j: int, a: nat)
    requires 0 <= j < |t|
  {
    a in p.w.held <==> (a in w.held || a in Got(p.trials, j)) && !Released(t, p.trials, j)
  }

  ghost predicate HeldExplained(t: Table, w: World, p: Pass) {
    && (forall a :: Foreign(t, a) ==> (a in p.w.held <==> a in w.held))
    && (forall j, a :: 0 <= j < |t| && a in Blocks(t[j]) ==> UnitExplained(t, w, p, j, a))
  }

  /** An address that no range of the table uses. */
  ghost predicate Foreign(t: Table, a: nat) {
    forall j :: 0 <= j < |t| ==> a !in Blocks(t[j])
  }

  /** Everything there is to know about a pass that started from `systems` and `w`. */
  ghost predicate Explained(t: Table, systems: Flags, w: World, p: Pass) {
    && |p.trials| <= |t|
    && p.systems == Remaining(t, systems, p.trials)
    && TriesExplained(t, systems, p.trials)
    && HeldExplained(t, w, p)
    && (Agrees(w) ==> Agrees(p.w))
  }

  lemma {:induction false} WalkBackLaw(t: Table, n: nat, clear: Flags, w: World)
    requires ValidTable(t) && n <= |t|
    ensures var v := WalkBack(t, n, clear, w);
      && v.clock == w.clock
      && (forall a :: a in v.held <==>
            a in w.held && forall j :: 0 <= j < n && Matches(t[j], clear) ==> a !in Blocks(t[j]))
      && (Agrees(w) ==> Agrees(v))
  {
    if n == 0 {
    } else {
      WalkBackLaw(t, n - 1, clear, w);
      FreeUnitsLaw(t[n - 1], UnitCount(t[n - 1]), WalkBack(t, n - 1, clear, w));
    }
  }

  lemma {:induction false} StartExplained(t: Table, systems: Flags, w: World)
    ensures Explained(t, systems, w, Start(systems, w))
  {
  }

  lemma {:induction false} FailuresExtend(t: Table, trials: seq<Trial>, longer: seq<Trial>)
    requires |trials| < |longer| <= |t| && longer[..|trials|] == trials
    ensures forall k :: 0 <= k < |trials| ==> trials[k] == longer[k]
    ensures forall k :: k < |trials| ==> (FailedAt(t, trials, k) <==> FailedAt(t, longer, k))
  {
    forall k | 0 <= k < |trials|
      ensures trials[k] == longer[k]
    {
      assert longer[..|trials|][k] == longer[k];
    }
  }

  lemma {:induction false} ConsiderSystems(t: Table, systems: Flags, p: Pass, grant: Grants)
    requires |p.trials| < |t| && p.systems == Remaining(t, systems, p.trials)
    ensures var q := Consider(t, p, grant); q.systems == Remaining(t, systems, q.trials)
  {
    var i, q := |p.trials|, Consider(t, p, grant);
    FailuresExtend(t, p.trials, q.trials);
    assert forall k :: FailedAt(t, q.trials, k) <==> FailedAt(t, p.trials, k) || (k == i && FailedAt(t, q.trials, i));
  }

  lemma {:induction false} ConsiderTries(t: Table, systems: Flags, p: Pass, grant: Grants)
    requires ValidTable(t) && |p.trials| < |t|
    requires p.systems == Remaining(t, systems, p.trials) && TriesExplained(t, systems, p.trials)
    ensures TriesExplained(t, systems, Consider(t, p, grant).trials)
  {
    var i, q := |p.trials|, Consider(t, p, grant);
    ReserveUnitsLaw(t[i], UnitCount(t[i]), p.w, grant);
    assert q.trials[..i] == p.trials;
    assert forall j :: 0 <= j <= i ==> q.trials[..j] == p.trials[..j];
  }

  lemma {:induction false} ConsiderUnit(t: Table, w: World, p: Pass, grant: Grants, j: nat, a: nat)
    requires ValidTable(t) && |p.trials| < |t|
    requires j < |t| && a in Blocks(t[j]) && UnitExplained(t, w, p, j, a)
    ensures UnitExplained(t, w, Consider(t, p, grant), j, a)
  {
    var i, q := |p.trials|, Consider(t, p, grant);
    var r := Reserve(t[i], p.w, grant);
    ReserveUnitsLaw(t[i], UnitCount(t[i]), p.w, grant);
    FailuresExtend(t, p.trials, q.trials);
    assert Released(t, q.trials, j) <==>
        Released(t, p.trials, j) || (j < i && FailedAt(t, q.trials, i) && Matches(t[j], SystemFlags(t[i])));
    if i == j {
      assert !Released(t, p.trials, j);
    } else {
      UnitOfOneRange(t, j, i, a);
      assert a in r.held <==> a in p.w.held;
    }
    if FailedAt(t, q.trials, i) {
      WalkBackUnit(t, i, SystemFlags(t[i]), r, j, a);
    }
  }

  lemma {:induction false} UnitOfOneRange(t: Table, j: nat, m: nat, a: nat)
    requires ValidTable(t) && j < |t| && m < |t| && j != m && a in Blocks(t[j])
    ensures a !in Blocks(t[m])
  {
    if j < m {
      BlocksDisjoint(t[j], t[m]);
    } else {
      BlocksDisjoint(t[m], t[j]);
    }
  }

  /** Walking back takes a unit away exactly when its range comes earlier and carries a cleared system. */
  lemma {:induction false} WalkBackUnit(t: Table, n: nat, clear: Flags, w: World, j: nat, a: nat)
    requires ValidTable(t) && n <= |t| && j < |t| && a in Blocks(t[j])
    ensures a in WalkBack(t, n, clear, w).held <==> a in w.held && !(j < n && Matches(t[j], clear))
  {
    WalkBackLaw(t, n, clear, w);
    forall m | 0 <= m < n && m != j
      ensures a !in Blocks(t[m])
    {
      UnitOfOneRange(t, j, m, a);
    }
  }

  lemma {:induction false} ConsiderForeign(t: Table, p: Pass, grant: Grants, a: nat)
    requires ValidTable(t) && |p.trials| < |t| && Foreign(t, a)
    ensures a in Consider(t, p, grant).w.held <==> a in p.w.held
  {
    var i := |p.trials|;
    ReserveUnitsLaw(t[i], UnitCount(t[i]), p.w, grant);
    WalkBackLaw(t, i, SystemFlags(t[i]), Reserve(t[i], p.w, grant));
  }

  lemma {:induction false} ConsiderExplained(t: Table, systems: Flags, w: World, p: Pass, grant: Grants)
    requires ValidTable(t) && Explained(t, systems, w, p) && |p.trials| < |t|
    ensures Explained(t, systems, w, Consider(t, p, grant))
  {
    var i, q := |p.trials|, Consider(t, p, grant);
    ConsiderSystems(t, systems, p, grant);
    ConsiderTries(t, systems, p, grant);
    forall a | Foreign(t, a)
      ensures a in q.w.held <==> a in w.held
    {
      ConsiderForeign(t, p, grant, a);
    }
    forall j, a | 0 <= j < |t| && a in Blocks(t[j])
      ensures UnitExplained(t, w, q, j, a)
    {
      ConsiderUnit(t, w, p, grant, j, a);
    }
    ReserveUnitsLaw(t[i], UnitCount(t[i]), p.w, grant);
    WalkBackLaw(t, i, SystemFlags(t[i]), Reserve(t[i], p.w, grant));
  }

  /** How a call ends: after the last range, or at a mandatory failure that leaves no system. */
  ghost predicate Ends(t: Table, o: Outcome) {
    if o.ok then |o.pass.trials| == |t| else GivesUp(t, o.pass)
  }

  lemma {:induction false} AttemptKeepsExplained(t: Table, systems: Flags, w: World, p: Pass, grant: Grants)
    requires ValidTable(t) && Explained(t, systems, w, p)
    ensures Explained(t, systems, w, Attempt(t, p, grant).pass)
    decreases |t| - |p.trials|
  {
    if |p.trials| == |t| {
    } else {
      ConsiderExplained(t, systems, w, p, grant);
      if !GivesUp(t, Consider(t, p, grant)) {
        AttemptKeepsExplained(t, systems, w, Consider(t, p, grant), grant);
      }
    }
  }

  lemma {:induction false} AttemptEnds(t: Table, p: Pass, grant: Grants)
    requires |p.trials| <= |t|
    ensures var o := Attempt(t, p, grant); Ends(t, o) && p.trials <= o.pass.trials
    decreases |t| - |p.trials|
  {
    if |p.trials| == |t| {
    } else if !GivesUp(t, Consider(t, p, grant)) {
      AttemptEnds(t, Consider(t, p, grant), grant);
    }
  }

  /** Only a mandatory failure takes the last system, so the call gives up as soon as none is left. */
  lemma {:induction false} EmptiedByFailure(t: Table, p: Pass, grant: Grants)
    requires |p.trials| < |t|
    ensures GivesUp(t, Consider(t, p, grant)) <==> p.systems != {} && Consider(t, p, grant).systems == {}
  {
    var q := Consider(t, p, grant);
    assert q.trials[|q.trials| - 1] == q.trials[|p.trials|];
  }

  lemma {:induction false} AttemptGivesUp(t: Table, p: Pass, grant: Grants)
    requires |p.trials| <= |t|
    ensures Attempt(t, p, grant).ok <==> p.systems == {} || Attempt(t, p, grant).pass.systems != {}
    decreases |t| - |p.trials|
  {
    if |p.trials| == |t| {
    } else {
      EmptiedByFailure(t, p, grant);
      if !GivesUp(t, Consider(t, p, grant)) {
        AttemptGivesUp(t, Consider(t, p, grant), grant);
      }
    }
  }

  /** A system was left before every range that was considered. */
  lemma {:induction false} SystemsOnTheWay(t: Table, systems: Flags, p: Pass, grant: Grants)
    requires |p.trials| <= |t| && p.systems == Remaining(t, systems, p.trials) != {}
    ensures var trials := Attempt(t, p, grant).pass.trials;
      forall n :: |p.trials| <= n < |trials| ==> Remaining(t, systems, trials[..n]) != {}
    decreases |t| - |p.trials|
  {
    var trials := Attempt(t, p, grant).pass.trials;
    AttemptEnds(t, p, grant);
    assert Remaining(t, systems, trials[..|p.trials|]) == p.systems by {
      assert trials[..|p.trials|] == p.trials;
    }
    if |p.trials| == |t| {
    } else {
      EmptiedByFailure(t, p, grant);
      ConsiderSystems(t, systems, p, grant);
      if !GivesUp(t, Consider(t, p, grant)) {
        SystemsOnTheWay(t, systems, Consider(t, p, grant), grant);
        assert trials == Attempt(t, Consider(t, p, grant), grant).pass.trials;
      }
    }
  }

  /** The exact outcome, whatever the host answers: the returned systems are the given ones minus
      the system flags of every mandatory range that failed; range j was asked for exactly when it
      carried a system still wanted then; and a unit of range j is held at the end exactly when it was
      held before or granted now, and no later mandatory failure cleared a system that range j carries.
      The call gives up exactly at the first failure that leaves no system: asked for some system, it
      returns true exactly when one is left, and before its last step one always was. */
  lemma {:induction false} AttemptExplained(t: Table, systems: Flags, w: World, p: Pass, grant: Grants)
    requires ValidTable(t) && Explained(t, systems, w, p)
    ensures var o := Attempt(t, p, grant);
      Explained(t, systems, w, o.pass) && Ends(t, o) && p.trials <= o.pass.trials
    ensures var o := Attempt(t, p, grant);
      && (o.ok <==> p.systems == {} || o.pass.systems != {})
      && (p.systems != {} ==>
            forall n :: |p.trials| <= n < |o.pass.trials| ==> Remaining(t, systems, o.pass.trials[..n]) != {})
  {
    AttemptKeepsExplained(t, systems, w, p, grant);
    AttemptEnds(t, p, grant);
    AttemptGivesUp(t, p, grant);
    if p.systems != {} {
      SystemsOnTheWay(t, systems, p, grant);
    }
  }

  /** From the start of a call: true exactly when a system is left, or none was asked for. */
  lemma {:induction false} TrueIffSystemLeft(t: Table, systems: Flags, w: World, grant: Grants)
    requires ValidTable(t)
    ensures var o := Attempt(t, Start(systems, w), grant); o.ok <==> systems == {} || o.pass.systems != {}
  {
    StartExplained(t, systems, w);
    AttemptExplained(t, systems, w, Start(systems, w), grant);
  }
}
