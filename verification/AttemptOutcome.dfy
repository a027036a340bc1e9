/** What `AttemptReserveAddressRanges` (src/common/ReserveAddressRanges.cpp:268-317) leaves behind, said with
    flag bits, blocks and the answers of the host alone. */
module AttemptOutcome {
  import opened AddressRanges
  import opened Reservation
  import opened Downgrade
  import opened DowngradeTheorems

  // ---------------------------------------------------------------- what a range is made of

  /** The blocks of a range: a mapped range is one unit at its start, any other range is cut into 64 KiB blocks
      from its start, and every address of it lies in one of them. */
  lemma BlocksCover(r: Range)
    requires ValidRange(r)
    ensures r.start in {0x8000_0000, 0x8400_0000, 0xF000_0000, 0xF400_0000} ==> Blocks(r) == {r.start}
    ensures r.start !in {0x8000_0000, 0x8400_0000, 0xF000_0000, 0xF400_0000} ==> forall a: nat ::
      a in Blocks(r) <==> a % 0x1_0000 == 0 && r.start <= a < r.start + r.size
  {
    if Mapped(r) {
      assert Blocks(r) == {Unit(r, 0)};
    } else {
      forall a: nat
        ensures a in Blocks(r) <==> a % 0x1_0000 == 0 && r.start <= a < r.start + r.size
      {
        if a % 0x1_0000 == 0 && r.start <= a < r.start + r.size {
          var k := (a - r.start) / 0x1_0000;
          assert Unit(r, k) == a && k < UnitCount(r);
        }
      }
    }
  }

  lemma {:induction false} UnitsByRequests(r: Range, n: nat, w: World, grant: Grants)
    ensures ReserveUnits(r, n, w, grant).clock == w.clock + n
    ensures forall k :: 0 <= k < n ==> UnitByRequest(r, n, w, grant, k)
    ensures forall a :: a in ReserveUnits(r, n, w, grant).held ==> a in w.held || a in Units(r, n)
  {
    ReserveUnitsHeld(r, n, w, grant);
    if n == 0 {
    } else {
      UnitsByRequests(r, n - 1, w, grant);
      forall k | 0 <= k < n
        ensures UnitByRequest(r, n, w, grant, k)
      {
        if k < n - 1 {
          assert UnitByRequest(r, n - 1, w, grant, k);
        } else {
          UnitsStep(r, n);
        }
      }
    }
  }

  ghost predicate UnitByRequest(r: Range, n: nat, w: World, grant: Grants, k: nat) {
    Unit(r, k) in ReserveUnits(r, n, w, grant).held <==> Unit(r, k) in w.held || grant(w.clock + k)
  }

  /** A reservation asks for the blocks in order, one request each, and gets what was free and is agreed to. */
  lemma {:induction false} GotByRequests(r: Range, w: World, grant: Grants, k: nat)
    requires k < UnitCount(r)
    ensures Reserve(r, w, grant).clock == w.clock + UnitCount(r)
    ensures r.start + k * 0x1_0000 in Reserve(r, w, grant).held <==>
      r.start + k * 0x1_0000 in w.held || grant(w.clock + k)
  {
    UnitsByRequests(r, UnitCount(r), w, grant);
    assert UnitByRequest(r, UnitCount(r), w, grant, k);
  }

  // ---------------------------------------------------------------- the outcome by flags

  /** Range k was asked for, carries no MAY_FAIL, and was not granted whole. */
  ghost predicate Refused(t: Table, trials: seq<Trial>, k: int) {
    0 <= k < |trials| <= |t| && trials[k].Tried? && MAY_FAIL !in t[k].flags && trials[k].got != Blocks(t[k])
  }

  /** The systems that no refused range among the first n carries. */
  ghost function Left(t: Table, systems: Flags, trials: seq<Trial>, n: int): Flags {
    set f | f in systems && forall k :: 0 <= k < n && Refused(t, trials, k) ==> f !in t[k].flags
  }

  /** A later range was refused that has a flag in common with range j. */
  ghost predicate TakenBack(t: Table, trials: seq<Trial>, j: int)
    requires 0 <= j < |t|
  {
    exists k :: j < k < |t| && Refused(t, trials, k) && t[j].flags * t[k].flags != {}
  }

  /** What is left of the systems, what was asked for and what is held, read off what was granted. */
  ghost predicate ByFlags(t: Table, systems: Flags, w: World, p: Pass) {
    && |p.trials| <= |t|
    && p.systems == Left(t, systems, p.trials, |p.trials|)
    && (forall j :: 0 <= j < |p.trials| ==>
          (p.trials[j].Tried? <==> t[j].flags * Left(t, systems, p.trials, j) != {}))
    && (forall j, a :: 0 <= j < |t| && a in Blocks(t[j]) ==>
          (a in p.w.held <==> (a in w.held || a in Got(p.trials, j)) && !TakenBack(t, p.trials, j)))
    && (forall a :: Foreign(t, a) ==> (a in p.w.held <==> a in w.held))
  }

  /** The whole outcome, for every table and host. A range is asked for exactly when it carries a system still
      left; a range without MAY_FAIL that is not granted whole costs all its systems, and nothing else costs
      any; a block is held at the end exactly when it was held or granted, and no later refused range shares a
      flag with its range; and the call returns true exactly when a system is left (or none was asked for). */
  lemma {:induction false} OutcomeByFlags(t: Table, systems: Flags, w: World, grant: Grants)
    requires ValidTable(t)
    ensures var o := Attempt(t, Start(systems, w), grant);
      && ByFlags(t, systems, w, o.pass)
      && (o.ok <==> systems == {} || o.pass.systems != {})
      && (o.ok ==> |o.pass.trials| == |t|)
      && (!o.ok ==> Refused(t, o.pass.trials, |o.pass.trials| - 1))
  {
    var p := Start(systems, w);
    AttemptByFlags(t, systems, w, grant);
    AttemptGivesUp(t, p, grant);
    AttemptLast(t, systems, w, grant);
  }

  lemma {:induction false} AttemptByFlags(t: Table, systems: Flags, w: World, grant: Grants)
    requires ValidTable(t)
    ensures ByFlags(t, systems, w, Attempt(t, Start(systems, w), grant).pass)
  {
    StartExplained(t, systems, w);
    AttemptKeepsExplained(t, systems, w, Start(systems, w), grant);
    ExplainedByFlags(t, systems, w, Attempt(t, Start(systems, w), grant).pass);
  }

  lemma {:induction false} AttemptLast(t: Table, systems: Flags, w: World, grant: Grants)
    requires ValidTable(t)
    ensures var o := Attempt(t, Start(systems, w), grant);
      && (o.ok ==> |o.pass.trials| == |t|)
      && (!o.ok ==> Refused(t, o.pass.trials, |o.pass.trials| - 1))
  {
    StartExplained(t, systems, w);
    AttemptKeepsExplained(t, systems, w, Start(systems, w), grant);
    AttemptEnds(t, Start(systems, w), grant);
    RefusedFails(t, systems, w, Attempt(t, Start(systems, w), grant).pass);
  }

  lemma {:induction false} ExplainedByFlags(t: Table, systems: Flags, w: World, p: Pass)
    requires ValidTable(t) && Explained(t, systems, w, p)
    ensures ByFlags(t, systems, w, p)
  {
    LeftRemains(t, systems, w, p, |p.trials|);
    assert p.trials[..|p.trials|] == p.trials;
    TriedByFlags(t, systems, w, p);
    HeldByFlags(t, systems, w, p);
  }

  lemma {:induction false} TriedByFlags(t: Table, systems: Flags, w: World, p: Pass)
    requires ValidTable(t) && Explained(t, systems, w, p)
    ensures forall j :: 0 <= j < |p.trials| ==>
      (p.trials[j].Tried? <==> t[j].flags * Left(t, systems, p.trials, j) != {})
  {
    forall j | 0 <= j < |p.trials|
      ensures p.trials[j].Tried? <==> t[j].flags * Left(t, systems, p.trials, j) != {}
    {
      LeftRemains(t, systems, w, p, j);
      SharesIff(t[j], Left(t, systems, p.trials, j));
    }
  }

  lemma {:induction false} HeldByFlags(t: Table, systems: Flags, w: World, p: Pass)
    requires ValidTable(t) && Explained(t, systems, w, p)
    ensures forall j, a :: 0 <= j < |t| && a in Blocks(t[j]) ==>
      (a in p.w.held <==> (a in w.held || a in Got(p.trials, j)) && !TakenBack(t, p.trials, j))
  {
    forall j, a | 0 <= j < |t| && a in Blocks(t[j])
      ensures a in p.w.held <==> (a in w.held || a in Got(p.trials, j)) && !TakenBack(t, p.trials, j)
    {
      assert UnitExplained(t, w, p, j, a);
      TakenBackReleased(t, systems, w, p, j);
    }
  }

  lemma SharesIff(r: Range, flags: Flags)
    ensures Matches(r, flags) <==> r.flags * flags != {}
  {
    if f :| f in r.flags * flags {
      assert f in r.flags && f in flags;
    }
    if f :| f in r.flags && f in flags {
      assert f in r.flags * flags;
    }
  }

  lemma {:induction false} RefusedFails(t: Table, systems: Flags, w: World, p: Pass)
    requires ValidTable(t) && Explained(t, systems, w, p)
    ensures forall k :: Refused(t, p.trials, k) <==> FailedAt(t, p.trials, k)
  {
    forall k | 0 <= k < |p.trials|
      ensures Refused(t, p.trials, k) <==> FailedAt(t, p.trials, k)
    {
      SharesIff(t[k], {MAY_FAIL});
      assert MAY_FAIL in t[k].flags <==> t[k].flags * {MAY_FAIL} != {};
    }
  }

  lemma {:induction false} LeftRemains(t: Table, systems: Flags, w: World, p: Pass, n: nat)
    requires ValidTable(t) && Explained(t, systems, w, p) && n <= |p.trials|
    ensures Left(t, systems, p.trials, n) == Remaining(t, systems, p.trials[..n])
  {
    RefusedFails(t, systems, w, p);
    forall k
      ensures FailedAt(t, p.trials[..n], k) <==> 0 <= k < n && Refused(t, p.trials, k)
      ensures Refused(t, p.trials, k) ==> t[k].flags == SystemFlags(t[k])
    {
      if Refused(t, p.trials, k) {
        assert ValidRange(t[k]);
      }
    }
  }

  lemma {:induction false} TakenBackReleased(t: Table, systems: Flags, w: World, p: Pass, j: nat)
    requires ValidTable(t) && Explained(t, systems, w, p) && j < |t|
    ensures TakenBack(t, p.trials, j) <==> Released(t, p.trials, j)
  {
    RefusedFails(t, systems, w, p);
    forall k | Refused(t, p.trials, k)
      ensures t[j].flags * t[k].flags != {} <==> Matches(t[j], SystemFlags(t[k]))
    {
      assert ValidRange(t[k]);
      assert t[k].flags == SystemFlags(t[k]);
      SharesIff(t[j], t[k].flags);
    }
  }

  // ---------------------------------------------------------------- what the host granted

  /** The blocks granted of each range asked for, read off the host's answers to successive requests. */
  ghost predicate GrantsExplained(t: Table, w: World, p: Pass, grant: Grants)
    requires |p.trials| <= |t|
  {
    && p.w.clock == w.clock + UnitsTried(t, p.trials, |p.trials|)
    && forall j, k :: 0 <= j < |p.trials| && p.trials[j].Tried? && 0 <= k < UnitCount(t[j]) ==>
         GrantExplained(t, w, p, grant, j, k)
  }

  ghost predicate GrantExplained(t: Table, w: World, p: Pass, grant: Grants, j: int, k: int)
    requires 0 <= j < |p.trials| <= |t| && 0 <= k && p.trials[j].Tried?
  {
    Unit(t[j], k) in p.trials[j].got <==>
      Unit(t[j], k) !in w.held && grant(w.clock + UnitsTried(t, p.trials, j) + k)
  }

  lemma {:induction false} GrantsStep(t: Table, systems: Flags, w: World, p: Pass, grant: Grants)
    requires ValidTable(t) && Explained(t, systems, w, p) && |p.trials| < |t| && GrantsExplained(t, w, p, grant)
    ensures GrantsExplained(t, w, Consider(t, p, grant), grant)
  {
    var i, q := |p.trials|, Consider(t, p, grant);
    ConsiderRequests(t, p, grant);
    UnitsTriedPrefix(t, p.trials, q.trials, i);
    assert forall j :: 0 <= j < i ==> q.trials[j] == p.trials[j];
    forall j, k | 0 <= j <= i && q.trials[j].Tried? && 0 <= k < UnitCount(t[j])
      ensures GrantExplained(t, w, q, grant, j, k)
    {
      if j < i {
        OldGrant(t, w, p, q, grant, j, k);
      } else {
        NewGrant(t, systems, w, p, grant, k);
      }
    }
  }

  lemma {:induction false} OldGrant(t: Table, w: World, p: Pass, q: Pass, grant: Grants, j: nat, k: nat)
    requires |p.trials| < |q.trials| <= |t| && p.trials <= q.trials && j < |p.trials| && p.trials[j].Tried?
    requires GrantExplained(t, w, p, grant, j, k)
    ensures q.trials[j] == p.trials[j] && GrantExplained(t, w, q, grant, j, k)
  {
    UnitsTriedPrefix(t, p.trials, q.trials, j);
    assert q.trials[j] == p.trials[j];
  }

  lemma {:induction false} NewGrant(t: Table, systems: Flags, w: World, p: Pass, grant: Grants, k: nat)
    requires ValidTable(t) && Explained(t, systems, w, p) && |p.trials| < |t| && k < UnitCount(t[|p.trials|])
    requires p.w.clock == w.clock + UnitsTried(t, p.trials, |p.trials|)
    requires Consider(t, p, grant).trials[|p.trials|].Tried?
    ensures GrantExplained(t, w, Consider(t, p, grant), grant, |p.trials|, k)
  {
    var i, q := |p.trials|, Consider(t, p, grant);
    UnitsTriedPrefix(t, p.trials, q.trials, i);
    UnitsByRequests(t[i], UnitCount(t[i]), p.w, grant);
    assert UnitByRequest(t[i], UnitCount(t[i]), p.w, grant, k);
    UntouchedSoFar(t, systems, w, p, k);
    assert q.trials[i].got == Reserve(t[i], p.w, grant).held - p.w.held;
  }

  /** The range to be considered next is as it was when the call began. */
  lemma {:induction false} UntouchedSoFar(t: Table, systems: Flags, w: World, p: Pass, k: nat)
    requires ValidTable(t) && Explained(t, systems, w, p) && |p.trials| < |t| && k < UnitCount(t[|p.trials|])
    ensures Unit(t[|p.trials|], k) in p.w.held <==> Unit(t[|p.trials|], k) in w.held
  {
    var i := |p.trials|;
    assert Unit(t[i], k) in Blocks(t[i]);
    assert UnitExplained(t, w, p, i, Unit(t[i], k));
  }

  /** In any call, request number `UnitsTried` plus k decides block k of a range that is asked for. */
  lemma {:induction false} GrantedBlocks(t: Table, systems: Flags, w: World, grant: Grants)
    requires ValidTable(t)
    ensures var p := Attempt(t, Start(systems, w), grant).pass; |p.trials| <= |t| && GrantsExplained(t, w, p, grant)
  {
    StartExplained(t, systems, w);
    GrantsRun(t, systems, w, Start(systems, w), grant);
  }

  lemma {:induction false} GrantsRun(t: Table, systems: Flags, w: World, p: Pass, grant: Grants)
    requires ValidTable(t) && Explained(t, systems, w, p) && GrantsExplained(t, w, p, grant)
    ensures var q := Attempt(t, p, grant).pass; |q.trials| <= |t| && GrantsExplained(t, w, q, grant)
    decreases |t| - |p.trials|
  {
    if |p.trials| == |t| {
    } else {
      var q := Consider(t, p, grant);
      GrantsStep(t, systems, w, p, grant);
      if !GivesUp(t, q) {
        ConsiderExplained(t, systems, w, p, grant);
        GrantsRun(t, systems, w, q, grant);
      }
    }
  }

  // ---------------------------------------------------------------- which refusals matter

  /** Request number c is for range j, counted as if no earlier range had failed. */
  ghost predicate Concerns(t: Table, systems: Flags, j: int, c: int) {
    0 <= j < |t| && Requests(t, systems, j) <= c < Requests(t, systems, j) + UnitCount(t[j])
  }

  /** The host agrees to every request for the wanted ranges without MAY_FAIL among the first n. */
  ghost predicate AgreesToMandatory(t: Table, systems: Flags, grant: Grants, n: int) {
    forall j, c {:trigger Concerns(t, systems, j, c)} ::
      (j < n && Concerns(t, systems, j, c) && MAY_FAIL !in t[j].flags && t[j].flags * systems != {}) ==> grant(c)
  }

  /** As long as the host agrees to them, no system is lost, whatever it refuses of ranges with MAY_FAIL. */
  ghost predicate Calm(t: Table, systems: Flags, p: Pass) {
    Explained(t, systems, EmptyHost, p) && p.systems == systems && p.w.clock == Requests(t, systems, |p.trials|)
  }

  lemma {:induction false} CalmStep(t: Table, systems: Flags, p: Pass, grant: Grants)
    requires ValidTable(t) && Calm(t, systems, p) && |p.trials| < |t|
    requires AgreesToMandatory(t, systems, grant, |p.trials| + 1)
    ensures var q := Consider(t, p, grant); Calm(t, systems, q) && !GivesUp(t, q)
  {
    NextRangeFree(t, systems, p);
    NoRefusal(t, p, grant);
    ConsiderExplained(t, systems, EmptyHost, p, grant);
  }

  lemma {:induction false} NoRefusal(t: Table, p: Pass, grant: Grants)
    requires ValidTable(t) && |p.trials| < |t| && Blocks(t[|p.trials|]) !! p.w.held
    requires p.w.clock == Requests(t, p.systems, |p.trials|)
    requires AgreesToMandatory(t, p.systems, grant, |p.trials| + 1)
    ensures var q := Consider(t, p, grant);
      && !GivesUp(t, q) && q.systems == p.systems && q.w.clock == Requests(t, q.systems, |q.trials|)
  {
    var i, q := |p.trials|, Consider(t, p, grant);
    FlagsDecide(t[i], p.systems);
    FreeRangeWhole(t[i], p.w, grant);
    if Matches(t[i], p.systems) && !IsOptional(t[i]) {
      forall c | p.w.clock <= c < p.w.clock + UnitCount(t[i])
        ensures grant(c)
      {
        assert Concerns(t, p.systems, i, c);
      }
    }
    assert !Fails(t[i], q.trials[i]);
    assert q.trials[|q.trials| - 1] == q.trials[i];
    ConsiderRequests(t, p, grant);
  }

  /** A free range is granted whole exactly when the host agrees to each of its requests. */
  lemma {:induction false} FreeRangeWhole(r: Range, w: World, grant: Grants)
    requires ValidRange(r) && Blocks(r) !! w.held
    ensures Whole(r, w, grant) <==> forall c :: w.clock <= c < w.clock + UnitCount(r) ==> grant(c)
  {
    var n := UnitCount(r);
    GrantedWhole(r, n, w, grant);
    if c :| w.clock <= c < w.clock + n && !grant(c) {
      var k := c - w.clock;
      UnitsByRequests(r, n, w, grant);
      assert UnitByRequest(r, n, w, grant, k);
      assert Unit(r, k) in Blocks(r);
      ReserveUnitsLaw(r, n, w, grant);
    }
  }

  lemma FlagsDecide(r: Range, systems: Flags)
    ensures IsOptional(r) <==> MAY_FAIL in r.flags
    ensures Matches(r, systems) <==> r.flags * systems != {}
  {
    SharesIff(r, systems);
  }

  /** From an empty host: agreeing to every mandatory request is enough to lose no system. */
  lemma {:induction false} OptionalRefusalsFree(t: Table, systems: Flags, grant: Grants)
    requires ValidTable(t) && AgreesToMandatory(t, systems, grant, |t|)
    ensures var o := Attempt(t, Start(systems, EmptyHost), grant); o.ok && o.pass.systems == systems
  {
    StartExplained(t, systems, EmptyHost);
    NothingLost(t, systems, Start(systems, EmptyHost), grant);
  }

  lemma {:induction false} NothingLost(t: Table, systems: Flags, p: Pass, grant: Grants)
    requires ValidTable(t) && AgreesToMandatory(t, systems, grant, |t|) && Calm(t, systems, p)
    ensures var o := Attempt(t, p, grant); o.ok && o.pass.systems == systems
    decreases |t| - |p.trials|
  {
    if |p.trials| == |t| {
    } else {
      CalmStep(t, systems, p, grant);
      NothingLost(t, systems, Consider(t, p, grant), grant);
    }
  }

  /** From an empty host: a first refusal of a mandatory range that carries every wanted system ends the call. */
  lemma {:induction false} RefusalOfAllFails(t: Table, systems: Flags, grant: Grants, k: nat, c: int)
    requires ValidTable(t) && k < |t| && MAY_FAIL !in t[k].flags && {} != systems <= t[k].flags
    requires AgreesToMandatory(t, systems, grant, k) && Concerns(t, systems, k, c) && !grant(c)
    ensures !Attempt(t, Start(systems, EmptyHost), grant).ok
  {
    StartExplained(t, systems, EmptyHost);
    GivesUpAt(t, systems, grant, k, c, Start(systems, EmptyHost));
  }

  lemma {:induction false} GivesUpAt(t: Table, systems: Flags, grant: Grants, k: nat, c: int, p: Pass)
    requires ValidTable(t) && k < |t| && MAY_FAIL !in t[k].flags && {} != systems <= t[k].flags
    requires AgreesToMandatory(t, systems, grant, k) && Concerns(t, systems, k, c) && !grant(c)
    requires Calm(t, systems, p) && |p.trials| <= k
    ensures !Attempt(t, p, grant).ok
    decreases k - |p.trials|
  {
    if |p.trials| == k {
      RefusedAll(t, systems, grant, c, p);
    } else {
      CalmStep(t, systems, p, grant);
      GivesUpAt(t, systems, grant, k, c, Consider(t, p, grant));
    }
  }

  lemma {:induction false} RefusedAll(t: Table, systems: Flags, grant: Grants, c: int, p: Pass)
    requires ValidTable(t) && Calm(t, systems, p) && |p.trials| < |t|
    requires MAY_FAIL !in t[|p.trials|].flags && {} != systems <= t[|p.trials|].flags
    requires Concerns(t, systems, |p.trials|, c) && !grant(c)
    ensures GivesUp(t, Consider(t, p, grant))
  {
    var r := t[|p.trials|];
    FlagsDecide(r, systems);
    assert r.flags * systems == systems;
    NextRangeFree(t, systems, p);
    FreeRangeWhole(r, p.w, grant);
    MandatoryTakesAll(t, p, grant);
  }

  lemma {:induction false} MandatoryTakesAll(t: Table, p: Pass, grant: Grants)
    requires ValidTable(t) && |p.trials| < |t| && !IsOptional(t[|p.trials|]) && Matches(t[|p.trials|], p.systems)
    requires {} != p.systems <= t[|p.trials|].flags && !Whole(t[|p.trials|], p.w, grant)
    ensures GivesUp(t, Consider(t, p, grant))
  {
    FlagsDecide(t[|p.trials|], p.systems);
    assert ValidRange(t[|p.trials|]);
    assert p.systems <= SystemFlags(t[|p.trials|]);
    EmptiedByFailure(t, p, grant);
  }

  // ---------------------------------------------------------------- the built-in table, request by request

  /** How many requests come before each range of the built-in table when all systems are asked for. */
  const FIRST_REQUEST := [0, 1023, 2047, 2048, 2049, 6145, 6209, 14401, 14402, 14403, 14515, 14531, 14659, 14667,
                          14668, 14669, 14670, 14734, 14798, 14862]

  lemma {:induction false} BuiltInRequests(n: nat)
    requires n < 20
    ensures Requests(XboxAddressRanges, SYSTEM_ALL, n) == FIRST_REQUEST[n]
  {
    if n == 0 {
    } else {
      BuiltInRequests(n - 1);
      BuiltInRange(n - 1);
    }
  }

  lemma BuiltInRange(n: nat)
    requires n < 20
    ensures Matches(XboxAddressRanges[n], SYSTEM_ALL)
    ensures n < 19 ==> UnitCount(XboxAddressRanges[n]) == FIRST_REQUEST[n + 1] - FIRST_REQUEST[n]
    ensures MAY_FAIL !in XboxAddressRanges[n].flags <==> n !in {0, 1, 6, 18, 19}
  {
    assert SYSTEM_DEVKIT in XboxAddressRanges[n].flags;
  }

  /** On the built-in table a host may refuse any request for ranges 0, 1, 6, 18 and 19 (requests 0 to 2046, 6209
      to 14400 and from 14798 on): the call returns true with all systems. */
  lemma BuiltInOptional(grant: Grants)
    requires forall c :: 2047 <= c < 6209 || 14401 <= c < 14798 ==> grant(c)
    ensures var o := Attempt(XboxAddressRanges, Start(SYSTEM_ALL, EmptyHost), grant);
      o.ok && o.pass.systems == SYSTEM_ALL
  {
    var t := XboxAddressRanges;
    BuiltInTableValid();
    forall j, c | Concerns(t, SYSTEM_ALL, j, c) && MAY_FAIL !in t[j].flags
      ensures grant(c)
    {
      BuiltInRequests(j);
      BuiltInRange(j);
    }
    OptionalRefusalsFree(t, SYSTEM_ALL, grant);
  }

  /** Refusing any of requests 14403 to 14514, those for the GPU range 9, makes the call return false, if the
      mandatory ranges before it were granted. */
  lemma BuiltInMandatory(grant: Grants, c: int)
    requires forall b :: 2047 <= b < 6209 || 14401 <= b < 14403 ==> grant(b)
    requires 14403 <= c < 14515 && !grant(c)
    ensures !Attempt(XboxAddressRanges, Start(SYSTEM_ALL, EmptyHost), grant).ok
  {
    var t := XboxAddressRanges;
    BuiltInTableValid();
    forall j, b | j < 9 && Concerns(t, SYSTEM_ALL, j, b) && MAY_FAIL !in t[j].flags
      ensures grant(b)
    {
      BuiltInRequests(j);
      BuiltInRange(j);
    }
    BuiltInRequests(9);
    BuiltInRange(9);
    RefusalOfAllFails(t, SYSTEM_ALL, grant, 9, c);
  }
}
