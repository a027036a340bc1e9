/** What the backtracking reservation guarantees, for every table and every host. */
module DowngradeTheorems {
  import opened AddressRanges
  import opened Reservation
  import opened Downgrade

  const EmptyHost := World({}, {}, 0)

  /** "True" read as its caller reads it: every mandatory range of the returned systems is held whole. */
  ghost predicate MandatoryHeld(t: Table, p: Pass) {
    forall j :: 0 <= j < |t| && !IsOptional(t[j]) && Matches(t[j], p.systems) ==> Blocks(t[j]) <= p.w.held
  }

  /** A mandatory range of the returned systems was freed again while walking back. */
  ghost predicate LostShared(t: Table, p: Pass) {
    exists j :: 0 <= j < |t| && !IsOptional(t[j]) && Matches(t[j], p.systems) && Released(t, p.trials, j)
  }

  lemma {:induction false} RemainingShrinks(t: Table, systems: Flags, trials: seq<Trial>, j: nat)
    requires j <= |trials| <= |t|
    ensures Remaining(t, systems, trials) <= Remaining(t, systems, trials[..j])
  {
    forall k | FailedAt(t, trials[..j], k)
      ensures FailedAt(t, trials, k)
    {
    }
  }

  /** A mandatory range that carries a system still wanted at the end was granted whole. */
  lemma {:induction false} WantedRangeGranted(t: Table, systems: Flags, w: World, p: Pass, j: nat)
    requires ValidTable(t) && Explained(t, systems, w, p)
    requires j < |p.trials| && !IsOptional(t[j]) && Matches(t[j], p.systems)
    ensures Got(p.trials, j) == Blocks(t[j])
  {
    RemainingShrinks(t, systems, p.trials, j);
    assert ValidRange(t[j]);
    assert !FailedAt(t, p.trials, j);
  }

  /** For a mandatory range of the returned systems: held whole exactly when no later failure took it away. */
  lemma {:induction false} HeldUnlessReleased(t: Table, systems: Flags, w: World, p: Pass, j: nat)
    requires ValidTable(t) && Explained(t, systems, w, p)
    requires j < |p.trials| && !IsOptional(t[j]) && Matches(t[j], p.systems)
    ensures Blocks(t[j]) <= p.w.held <==> !Released(t, p.trials, j)
  {
    WantedRangeGranted(t, systems, w, p, j);
    assert ValidRange(t[j]);
    assert Unit(t[j], 0) in Blocks(t[j]);
    assert UnitExplained(t, w, p, j, Unit(t[j], 0));
    forall a | a in Blocks(t[j])
      ensures a in p.w.held <==> !Released(t, p.trials, j)
    {
      assert UnitExplained(t, w, p, j, a);
    }
  }

  /** A call that returns true keeps its promise exactly when the walk-back freed no mandatory
      range of a system that survived. */
  lemma {:induction false} PromiseKeptIff(t: Table, systems: Flags, w: World, grant: Grants)
    requires ValidTable(t)
    ensures var o := Attempt(t, Start(systems, w), grant);
      o.ok ==> (MandatoryHeld(t, o.pass) <==> !LostShared(t, o.pass))
  {
    var o := Attempt(t, Start(systems, w), grant);
    StartExplained(t, systems, w);
    AttemptExplained(t, systems, w, Start(systems, w), grant);
    if o.ok {
      forall j | 0 <= j < |t| && !IsOptional(t[j]) && Matches(t[j], o.pass.systems)
        ensures Blocks(t[j]) <= o.pass.w.held <==> !Released(t, o.pass.trials, j)
      {
        HeldUnlessReleased(t, systems, w, o.pass, j);
      }
    }
  }

  /** After the last downgrade the promise holds; with no downgrade it holds for the whole table
      and no system is lost. */
  lemma {:induction false} PromiseAfterLastDowngrade(t: Table, systems: Flags, w: World, grant: Grants, last: int)
    requires ValidTable(t)
    requires var o := Attempt(t, Start(systems, w), grant);
      o.ok && forall k :: FailedAt(t, o.pass.trials, k) ==> k <= last
    ensures var o := Attempt(t, Start(systems, w), grant);
      && (forall j :: last <= j < |t| && 0 <= j && !IsOptional(t[j]) && Matches(t[j], o.pass.systems) ==>
            Blocks(t[j]) <= o.pass.w.held)
      && (last < 0 ==> o.pass.systems == systems && MandatoryHeld(t, o.pass))
  {
    var o := Attempt(t, Start(systems, w), grant);
    StartExplained(t, systems, w);
    AttemptExplained(t, systems, w, Start(systems, w), grant);
    forall j | 0 <= j < |t| && last <= j && !IsOptional(t[j]) && Matches(t[j], o.pass.systems)
      ensures Blocks(t[j]) <= o.pass.w.held
    {
      HeldUnlessReleased(t, systems, w, o.pass, j);
    }
    if last < 0 {
      assert forall k :: !FailedAt(t, o.pass.trials, k);
    }
  }

  // ---------------------------------------------------------------- which tables are safe

  /** Mandatory range j shares a system with the later mandatory range k, and also carries a wanted
      system that k does not: if k fails, j is freed although it is still needed. */
  ghost predicate Entangled(t: Table, systems: Flags, j: int, k: int) {
    && 0 <= j < k < |t| && !IsOptional(t[j]) && !IsOptional(t[k])
    && Matches(t[k], systems)
    && Matches(t[j], SystemFlags(t[k]))
    && Matches(t[j], systems - SystemFlags(t[k]))
  }

  /** Units asked for by the first n ranges when nothing fails. */
  function Requests(t: Table, systems: Flags, n: nat): nat
    requires n <= |t|
  {
    if n == 0 then 0
    else Requests(t, systems, n - 1) + if Matches(t[n - 1], systems) then UnitCount(t[n - 1]) else 0
  }

  /** A host that refuses exactly one request. */
  function AllBut(refused: nat): Grants {
    n => n != refused
  }

  lemma {:induction false} GrantedWhole(r: Range, n: nat, w: World, grant: Grants)
    requires ValidRange(r) && n <= UnitCount(r) && Units(r, n) !! w.held
    ensures (forall k :: w.clock <= k < w.clock + n ==> grant(k)) ==> AllGranted(r, n, w, grant)
    ensures n > 0 && !grant(w.clock) ==> !AllGranted(r, n, w, grant)
  {
    if n == 0 {
    } else {
      assert Units(r, n) == Units(r, n - 1) + {Unit(r, n - 1)};
      assert Unit(r, n - 1) !in Units(r, n - 1);
      GrantedWhole(r, n - 1, w, grant);
      ReserveUnitsLaw(r, n - 1, w, grant);
    }
  }

  /** Range k failed if it was considered already, and no other range did. */
  ghost predicate OnlyFailure(t: Table, trials: seq<Trial>, k: nat) {
    forall m :: FailedAt(t, trials, m) <==> m == k < |trials|
  }

  /** The host that refuses the first unit of range k: every other range it is asked for is granted whole. */
  ghost predicate OneFailure(t: Table, systems: Flags, k: nat, p: Pass)
    requires k < |t|
  {
    && |p.trials| <= |t|
    && OnlyFailure(t, p.trials, k)
    && p.systems == (if |p.trials| <= k then systems else systems - SystemFlags(t[k]))
    && (|p.trials| <= k ==> p.w.clock == Requests(t, systems, |p.trials|))
    && (|p.trials| > k ==> p.w.clock > Requests(t, systems, k))
  }

  /** From an empty host, the range to be considered next has never been touched. */
  lemma {:induction false} NextRangeFree(t: Table, systems: Flags, p: Pass)
    requires ValidTable(t) && |p.trials| < |t| && Explained(t, systems, EmptyHost, p)
    ensures Blocks(t[|p.trials|]) !! p.w.held
  {
    var i := |p.trials|;
    forall a | a in Blocks(t[i])
      ensures a !in p.w.held
    {
      assert UnitExplained(t, EmptyHost, p, i, a);
    }
  }

  /** What one step does when the range is still free: it fails or is granted whole with its first request. */
  lemma {:induction false} StepOnFreeRange(t: Table, p: Pass, refused: nat)
    requires ValidTable(t) && |p.trials| < |t| && Blocks(t[|p.trials|]) !! p.w.held
    ensures var i, q := |p.trials|, Consider(t, p, AllBut(refused)); var n := UnitCount(t[i]);
      && q.w.clock == p.w.clock + (if Matches(t[i], p.systems) then n else 0)
      && (p.w.clock == refused ==> (FailedAt(t, q.trials, i) <==> Matches(t[i], p.systems) && !IsOptional(t[i])))
      && (!(p.w.clock <= refused < p.w.clock + n) ==> !FailedAt(t, q.trials, i))
      && q.systems == (if FailedAt(t, q.trials, i) then p.systems - SystemFlags(t[i]) else p.systems)
  {
    var i, grant := |p.trials|, AllBut(refused);
    assert ValidRange(t[i]);
    ReserveUnitsLaw(t[i], UnitCount(t[i]), p.w, grant);
    WalkBackLaw(t, i, SystemFlags(t[i]), Reserve(t[i], p.w, grant));
    GrantedWhole(t[i], UnitCount(t[i]), p.w, grant);
  }

  /** The refused request comes after those for the earlier ranges, and no later range meets it. */
  lemma {:induction false} RefusedRequest(t: Table, systems: Flags, k: nat, p: Pass)
    requires ValidTable(t) && k < |t| && |p.trials| < |t|
    requires !IsOptional(t[k]) && Matches(t[k], systems) && OneFailure(t, systems, k, p)
    ensures var i, refused := |p.trials|, Requests(t, systems, k);
      && (i == k ==> p.w.clock == refused && p.systems == systems)
      && (i != k && Matches(t[i], p.systems) ==> !(p.w.clock <= refused < p.w.clock + UnitCount(t[i])))
      && (i < k ==>
            p.w.clock + (if Matches(t[i], p.systems) then UnitCount(t[i]) else 0) == Requests(t, systems, i + 1))
  {
    var i := |p.trials|;
    if i < k {
      RequestsGrow(t, systems, i + 1, k);
    }
  }

  lemma {:induction false} OneFailureStep(t: Table, systems: Flags, k: nat, p: Pass)
    requires ValidTable(t) && k < |t| && |p.trials| < |t|
    requires !IsOptional(t[k]) && Matches(t[k], systems)
    requires Explained(t, systems, EmptyHost, p) && OneFailure(t, systems, k, p)
    ensures OneFailure(t, systems, k, Consider(t, p, AllBut(Requests(t, systems, k))))
  {
    var i, refused := |p.trials|, Requests(t, systems, k);
    NextRangeFree(t, systems, p);
    RefusedRequest(t, systems, k, p);
    StepOnFreeRange(t, p, refused);
    var q := Consider(t, p, AllBut(refused));
    assert FailedAt(t, q.trials, i) <==> i == k;
    OnlyFailureExtends(t, p.trials, q.trials, k);
    PositiveUnits(t[i]);
  }

  lemma PositiveUnits(r: Range)
    requires ValidRange(r)
    ensures UnitCount(r) > 0
  {
  }

  lemma {:induction false} OnlyFailureExtends(t: Table, trials: seq<Trial>, longer: seq<Trial>, k: nat)
    requires |longer| == |trials| + 1 <= |t| && trials <= longer && OnlyFailure(t, trials, k)
    requires FailedAt(t, longer, |trials|) <==> |trials| == k
    ensures OnlyFailure(t, longer, k)
  {
    FailuresExtend(t, trials, longer);
    assert forall m :: FailedAt(t, longer, m) <==> FailedAt(t, trials, m) || (m == |trials| == k);
  }

  lemma {:induction false} RequestsGrow(t: Table, systems: Flags, i: nat, k: nat)
    requires i <= k <= |t|
    ensures Requests(t, systems, i) <= Requests(t, systems, k)
  {
    if i == k {
    } else {
      RequestsGrow(t, systems, i, k - 1);
    }
  }

  lemma {:induction false} OneFailureRun(t: Table, systems: Flags, k: nat, p: Pass)
    requires ValidTable(t) && k < |t|
    requires !IsOptional(t[k]) && Matches(t[k], systems) && systems - SystemFlags(t[k]) != {}
    requires Explained(t, systems, EmptyHost, p) && OneFailure(t, systems, k, p)
    ensures var o := Attempt(t, p, AllBut(Requests(t, systems, k)));
      && o.ok && |o.pass.trials| == |t|
      && Explained(t, systems, EmptyHost, o.pass) && OneFailure(t, systems, k, o.pass)
    decreases |t| - |p.trials|
  {
    if |p.trials| == |t| {
    } else {
      var grant := AllBut(Requests(t, systems, k));
      OneFailureStep(t, systems, k, p);
      ConsiderExplained(t, systems, EmptyHost, p, grant);
      OneFailureRun(t, systems, k, Consider(t, p, grant));
    }
  }

  /** Which tables are safe: starting from an empty host, "true" always means that every mandatory
      range of the returned systems is held whole, exactly when no two mandatory ranges are entangled. */
  lemma {:induction false} SafeTableIff(t: Table, systems: Flags)
    requires ValidTable(t)
    ensures (forall grant: Grants ::
        var o := Attempt(t, Start(systems, EmptyHost), grant); o.ok ==> MandatoryHeld(t, o.pass))
      <==> forall j, k :: !Entangled(t, systems, j, k)
  {
    StartExplained(t, systems, EmptyHost);
    if j, k :| Entangled(t, systems, j, k) {
      EntangledTableBreaks(t, systems, j, k);
    } else {
      forall grant: Grants
        ensures var o := Attempt(t, Start(systems, EmptyHost), grant); o.ok ==> MandatoryHeld(t, o.pass)
      {
        DisentangledTableHolds(t, systems, grant);
      }
    }
  }

  /** One refused request is enough to break the promise of an entangled table. */
  lemma {:induction false} EntangledTableBreaks(t: Table, systems: Flags, j: nat, k: nat)
    requires ValidTable(t) && Entangled(t, systems, j, k)
    ensures var o := Attempt(t, Start(systems, EmptyHost), AllBut(Requests(t, systems, k)));
      o.ok && !MandatoryHeld(t, o.pass)
  {
    var start, grant := Start(systems, EmptyHost), AllBut(Requests(t, systems, k));
    StartExplained(t, systems, EmptyHost);
    StillWanted(t, systems, j, k);
    OneFailureRun(t, systems, k, start);
    EntangledRangeLost(t, systems, j, k, Attempt(t, start, grant).pass);
  }

  lemma {:induction false} StillWanted(t: Table, systems: Flags, j: nat, k: nat)
    requires Entangled(t, systems, j, k)
    ensures systems - SystemFlags(t[k]) != {}
  {
    var f :| f in t[j].flags && f in systems - SystemFlags(t[k]);
  }

  lemma {:induction false} EntangledRangeLost(t: Table, systems: Flags, j: nat, k: nat, p: Pass)
    requires ValidTable(t) && Entangled(t, systems, j, k)
    requires Explained(t, systems, EmptyHost, p) && |p.trials| == |t| && OneFailure(t, systems, k, p)
    ensures !MandatoryHeld(t, p)
  {
    assert FailedAt(t, p.trials, k);
    assert Released(t, p.trials, j);
    HeldUnlessReleased(t, systems, EmptyHost, p, j);
  }

  lemma {:induction false} DisentangledTableHolds(t: Table, systems: Flags, grant: Grants)
    requires ValidTable(t) && forall j, k :: !Entangled(t, systems, j, k)
    ensures var o := Attempt(t, Start(systems, EmptyHost), grant); o.ok ==> MandatoryHeld(t, o.pass)
  {
    var o := Attempt(t, Start(systems, EmptyHost), grant);
    StartExplained(t, systems, EmptyHost);
    AttemptExplained(t, systems, EmptyHost, Start(systems, EmptyHost), grant);
    PromiseKeptIff(t, systems, EmptyHost, grant);
    if o.ok && LostShared(t, o.pass) {
      var j :| 0 <= j < |t| && !IsOptional(t[j]) && Matches(t[j], o.pass.systems) && Released(t, o.pass.trials, j);
      var k :| j < k && FailedAt(t, o.pass.trials, k) && Matches(t[j], SystemFlags(t[k]));
      FailedRangeWasWanted(t, systems, o.pass.trials, k);
      assert Entangled(t, systems, j, k);
    }
  }

  /** A range that failed carried a system that was wanted until then, and is not wanted afterwards. */
  lemma {:induction false} FailedRangeWasWanted(t: Table, systems: Flags, trials: seq<Trial>, k: nat)
    requires ValidTable(t) && |trials| <= |t| && TriesExplained(t, systems, trials) && FailedAt(t, trials, k)
    ensures Matches(t[k], systems)
    ensures Remaining(t, systems, trials[..k]) * SystemFlags(t[k]) != {}
    ensures Remaining(t, systems, trials) * SystemFlags(t[k]) == {}
  {
    assert ValidRange(t[k]);
    var f :| f in t[k].flags && f in Remaining(t, systems, trials[..k]);
    assert f in Remaining(t, systems, trials[..k]) * SystemFlags(t[k]);
  }

  /** The built-in table is entangled when all systems are asked for, so the promise can break;
      it is not entangled when a single system is asked for. */
  lemma {:induction false} BuiltInTableEntangled(system: Flag)
    requires system in SYSTEM_ALL
    ensures Entangled(XboxAddressRanges, SYSTEM_ALL, 2, 3)
    ensures forall j, k :: !Entangled(XboxAddressRanges, {system}, j, k)
  {
    var t := XboxAddressRanges;
    assert SYSTEM_CHIHIRO in t[2].flags && SYSTEM_CHIHIRO in SystemFlags(t[3]);
    assert SYSTEM_XBOX in t[2].flags && SYSTEM_XBOX in SYSTEM_ALL - SystemFlags(t[3]);
  }

  /** A mandatory range that carries every system wanted, and no mandatory range before it that does not. */
  predicate Keystone(t: Table, systems: Flags, first: int) {
    && 0 <= first < |t| && !IsOptional(t[first])
    && forall j :: 0 <= j <= first && !IsOptional(t[j]) ==> systems <= t[j].flags
  }

  /** In a table with such a range every downgrade that leaves a system loses that range, so a true result
      keeps its promise exactly when no system was given up. */
  lemma {:induction false} KeystoneLost(t: Table, systems: Flags, w: World, grant: Grants, first: int)
    requires ValidTable(t) && systems <= SYSTEM_ALL && Keystone(t, systems, first)
    ensures var o := Attempt(t, Start(systems, w), grant);
      o.ok ==> (MandatoryHeld(t, o.pass) <==> o.pass.systems == systems)
  {
    var o := Attempt(t, Start(systems, w), grant);
    StartExplained(t, systems, w);
    AttemptExplained(t, systems, w, Start(systems, w), grant);
    PromiseKeptIff(t, systems, w, grant);
    if o.ok {
      KeystoneReleased(t, systems, w, o.pass, first);
    }
  }

  lemma {:induction false} KeystoneReleased(t: Table, systems: Flags, w: World, p: Pass, first: int)
    requires ValidTable(t) && systems <= SYSTEM_ALL && Keystone(t, systems, first)
    requires Explained(t, systems, w, p) && (systems == {} || p.systems != {})
    ensures LostShared(t, p) <==> p.systems != systems
  {
    if k :| FailedAt(t, p.trials, k) {
      FailedRangeWasWanted(t, systems, p.trials, k);
      var f :| f in t[k].flags && f in systems;
      assert f in SystemFlags(t[k]) && f !in p.systems;
      var g :| g in p.systems;
      assert g in systems && g !in SystemFlags(t[k]);
      assert first < k && f in t[first].flags && g in t[first].flags;
      assert Released(t, p.trials, first);
    } else {
      assert p.systems == systems;
    }
  }

  /** The built-in table, asked for all systems: the promise holds exactly when nothing was given up, and a
      host that refuses only the first request for range 3 breaks it. */
  lemma {:induction false} BuiltInTablePromise(w: World, grant: Grants)
    ensures var o := Attempt(XboxAddressRanges, Start(SYSTEM_ALL, w), grant);
      o.ok ==> (MandatoryHeld(XboxAddressRanges, o.pass) <==> o.pass.systems == SYSTEM_ALL)
  {
    BuiltInTableValid();
    KeystoneLost(XboxAddressRanges, SYSTEM_ALL, w, grant, 2);
  }

  lemma {:induction false} BuiltInTableBreaks()
    ensures var grant := AllBut(Requests(XboxAddressRanges, SYSTEM_ALL, 3));
      var o := Attempt(XboxAddressRanges, Start(SYSTEM_ALL, EmptyHost), grant);
      o.ok && !MandatoryHeld(XboxAddressRanges, o.pass)
  {
    BuiltInTableValid();
    BuiltInTableEntangled(SYSTEM_XBOX);
    EntangledTableBreaks(XboxAddressRanges, SYSTEM_ALL, 2, 3);
  }

  // ---------------------------------------------------------------- failure, leaks and bounds

  /** Whatever the call still holds of a range that none of the remaining systems wants belongs to a
      mandatory range that itself failed. */
  lemma {:induction false} OnlyFailedRangesLeak(t: Table, systems: Flags, w: World, p: Pass, j: nat, a: nat)
    requires ValidTable(t) && Explained(t, systems, w, p)
    requires j < |t| && a in Blocks(t[j]) && a in p.w.held && a !in w.held
    requires !Matches(t[j], p.systems)
    ensures FailedAt(t, p.trials, j) && !Released(t, p.trials, j)
  {
    assert UnitExplained(t, w, p, j, a);
    assert p.trials[j].Tried?;
    FailuresExtend(t, p.trials[..j], p.trials);
    var f :| f in t[j].flags && f in Remaining(t, systems, p.trials[..j]);
    var k :| FailedAt(t, p.trials, k) && f in SystemFlags(t[k]);
  }

  /** Mandatory ranges always share a system: implied by any chain of flag sets. */
  ghost predicate MandatoryOverlap(t: Table) {
    forall j, k :: 0 <= j < k < |t| && !IsOptional(t[j]) && !IsOptional(t[k]) ==> Matches(t[j], SystemFlags(t[k]))
  }

  lemma {:induction false} LastFailure(t: Table, trials: seq<Trial>, j: nat, k: nat)
    requires MandatoryOverlap(t) && FailedAt(t, trials, j) && FailedAt(t, trials, k) && !Released(t, trials, j)
    ensures k <= j
  {
  }

  /** Clean failure: when the call gives up, everything it newly holds lies in the range it gave up on. */
  lemma {:induction false} CleanFailure(t: Table, systems: Flags, w: World, grant: Grants, a: nat)
    requires ValidTable(t) && MandatoryOverlap(t)
    requires var o := Attempt(t, Start(systems, w), grant); !o.ok && a in o.pass.w.held && a !in w.held
    ensures var n := |Attempt(t, Start(systems, w), grant).pass.trials|;
      0 < n <= |t| && a in Blocks(t[n - 1])
  {
    StartExplained(t, systems, w);
    AttemptExplained(t, systems, w, Start(systems, w), grant);
    HeldAfterGivingUp(t, systems, w, Attempt(t, Start(systems, w), grant).pass, a);
  }

  lemma {:induction false} HeldAfterGivingUp(t: Table, systems: Flags, w: World, p: Pass, a: nat)
    requires ValidTable(t) && MandatoryOverlap(t) && Explained(t, systems, w, p) && GivesUp(t, p)
    requires a in p.w.held && a !in w.held
    ensures a in Blocks(t[|p.trials| - 1])
  {
    var j := NewlyHeldRange(t, systems, w, p, a);
    OnlyFailedRangesLeak(t, systems, w, p, j, a);
    LastFailure(t, p.trials, j, |p.trials| - 1);
  }

  /** Whatever is newly held belongs to a range of the table. */
  lemma {:induction false} NewlyHeldRange(t: Table, systems: Flags, w: World, p: Pass, a: nat) returns (j: nat)
    requires Explained(t, systems, w, p) && a in p.w.held && a !in w.held
    ensures j < |t| && a in Blocks(t[j])
  {
    assert !Foreign(t, a);
    j :| j < |t| && a in Blocks(t[j]);
  }

  /** A table whose mandatory flag sets form a chain, as in the built-in one. */
  lemma {:induction false} ChainsOverlap(t: Table)
    requires ValidTable(t)
    requires forall j :: 0 <= j < |t| && !IsOptional(t[j]) ==> SystemFlags(t[j]) != {}
    requires forall j, k :: 0 <= j < k < |t| && !IsOptional(t[j]) && !IsOptional(t[k]) ==>
      SystemFlags(t[j]) <= SystemFlags(t[k]) || SystemFlags(t[k]) <= SystemFlags(t[j])
    ensures MandatoryOverlap(t)
  {
    forall j, k | 0 <= j < k < |t| && !IsOptional(t[j]) && !IsOptional(t[k])
      ensures Matches(t[j], SystemFlags(t[k]))
    {
      var f :| f in if SystemFlags(t[j]) <= SystemFlags(t[k]) then SystemFlags(t[j]) else SystemFlags(t[k]);
    }
  }

  lemma {:induction false} BuiltInTableOverlaps()
    ensures MandatoryOverlap(XboxAddressRanges)
  {
    var t := XboxAddressRanges;
    forall j, k | 0 <= j < k < |t| && !IsOptional(t[j]) && !IsOptional(t[k])
      ensures Matches(t[j], SystemFlags(t[k]))
    {
      assert SYSTEM_DEVKIT in t[j].flags && SYSTEM_DEVKIT in SystemFlags(t[k]);
    }
  }

  ghost function Failures(t: Table, trials: seq<Trial>, n: nat): set<nat> {
    set k | 0 <= k < n && FailedAt(t, trials, k)
  }

  /** Every downgrade costs a system, so there are at most as many downgrades as systems asked for. */
  lemma {:induction false} DowngradesBounded(t: Table, systems: Flags, w: World, p: Pass)
    requires ValidTable(t) && Explained(t, systems, w, p)
    ensures |Failures(t, p.trials, |p.trials|)| + |p.systems| <= |systems|
  {
    DowngradesBoundedUpTo(t, systems, p.trials, |p.trials|);
    assert p.trials[..|p.trials|] == p.trials;
  }

  lemma {:induction false} DowngradesBoundedUpTo(t: Table, systems: Flags, trials: seq<Trial>, n: nat)
    requires ValidTable(t) && n <= |trials| <= |t| && TriesExplained(t, systems, trials)
    ensures |Failures(t, trials, n)| + |Remaining(t, systems, trials[..n])| <= |systems|
  {
    if n == 0 {
      assert Remaining(t, systems, trials[..0]) == systems;
      assert Failures(t, trials, 0) == {};
    } else {
      DowngradesBoundedUpTo(t, systems, trials, n - 1);
      DowngradeCosts(t, systems, trials, n);
      FailuresStep(t, trials, n);
    }
  }

  lemma {:induction false} FailuresStep(t: Table, trials: seq<Trial>, n: nat)
    requires n > 0
    ensures |Failures(t, trials, n)| == |Failures(t, trials, n - 1)| + if FailedAt(t, trials, n - 1) then 1 else 0
  {
    assert Failures(t, trials, n) ==
           Failures(t, trials, n - 1) + if FailedAt(t, trials, n - 1) then {n - 1} else {};
  }

  lemma {:induction false} DowngradeCosts(t: Table, systems: Flags, trials: seq<Trial>, n: nat)
    requires ValidTable(t) && 0 < n <= |trials| <= |t| && TriesExplained(t, systems, trials)
    ensures |Remaining(t, systems, trials[..n])| + (if FailedAt(t, trials, n - 1) then 1 else 0)
         <= |Remaining(t, systems, trials[..n - 1])|
  {
    RemainingStep(t, systems, trials, n);
    if FailedAt(t, trials, n - 1) {
      FailedRangeWasWanted(t, systems, trials, n - 1);
      LosesSome(Remaining(t, systems, trials[..n - 1]), SystemFlags(t[n - 1]));
    }
  }

  lemma {:induction false} RemainingStep(t: Table, systems: Flags, trials: seq<Trial>, n: nat)
    requires 0 < n <= |trials| <= |t|
    ensures Remaining(t, systems, trials[..n]) ==
      if FailedAt(t, trials, n - 1) then Remaining(t, systems, trials[..n - 1]) - SystemFlags(t[n - 1])
      else Remaining(t, systems, trials[..n - 1])
  {
    assert forall k :: FailedAt(t, trials[..n], k) <==>
        FailedAt(t, trials[..n - 1], k) || (k == n - 1 && FailedAt(t, trials, k));
  }

  lemma LosesSome(before: Flags, lost: Flags)
    requires before * lost != {}
    ensures |before - lost| < |before|
  {
    assert before == (before - lost) + (before * lost);
  }

  /** No range is asked for twice: the host sees one request per unit of each range tried. */
  lemma {:induction false} RequestsMade(t: Table, p: Pass, grant: Grants)
    requires ValidTable(t) && |p.trials| <= |t|
    requires p.w.clock == UnitsTried(t, p.trials, |p.trials|)
    ensures var q := Attempt(t, p, grant).pass;
      |q.trials| <= |t| && q.w.clock == UnitsTried(t, q.trials, |q.trials|)
    decreases |t| - |p.trials|
  {
    if |p.trials| == |t| {
    } else {
      var q := Consider(t, p, grant);
      ConsiderRequests(t, p, grant);
      UnitsTriedPrefix(t, p.trials, q.trials, |p.trials|);
      if !GivesUp(t, q) {
        RequestsMade(t, q, grant);
      }
    }
  }

  lemma {:induction false} ConsiderRequests(t: Table, p: Pass, grant: Grants)
    requires ValidTable(t) && |p.trials| < |t|
    ensures var i, q := |p.trials|, Consider(t, p, grant);
      q.w.clock == p.w.clock + if q.trials[i].Tried? then UnitCount(t[i]) else 0
  {
    var i := |p.trials|;
    ReserveUnitsLaw(t[i], UnitCount(t[i]), p.w, grant);
    WalkBackLaw(t, i, SystemFlags(t[i]), Reserve(t[i], p.w, grant));
  }

  function UnitsTried(t: Table, trials: seq<Trial>, n: nat): nat
    requires n <= |trials| <= |t|
  {
    if n == 0 then 0
    else UnitsTried(t, trials, n - 1) + if trials[n - 1].Tried? then UnitCount(t[n - 1]) else 0
  }

  lemma {:induction false} UnitsTriedPrefix(t: Table, trials: seq<Trial>, longer: seq<Trial>, n: nat)
    requires n <= |trials| <= |longer| <= |t| && trials <= longer
    ensures UnitsTried(t, trials, n) == UnitsTried(t, longer, n)
  {
    if n == 0 {
    } else {
      UnitsTriedPrefix(t, trials, longer, n - 1);
      assert trials[n - 1] == longer[n - 1];
    }
  }
}
