/** The two plain table loops, `ReserveAddressRanges` and `FreeAddressRanges`
    (src/common/ReserveAddressRanges.cpp:226-266), and whole runs of calls. */
module ReservationRuns {
  import opened AddressRanges
  import opened Reservation
  import opened Downgrade
  import opened DowngradeTheorems

  /** Reserve every matching range from range `i` on, stopping at the first mandatory failure. */
  function ReserveAll(t: Table, i: nat, systems: Flags, w: World, grant: Grants): (bool, World)
    requires i <= |t|
    decreases |t| - i
  {
    if i == |t| then (true, w)
    else if !Matches(t[i], systems) then ReserveAll(t, i + 1, systems, w, grant)
    else
      var v := Reserve(t[i], w, grant);
      if Fails(t[i], TrialOf(t[i], w, grant)) then (false, v) else ReserveAll(t, i + 1, systems, v, grant)
  }

  ghost predicate OfMatching(t: Table, i: nat, systems: Flags, a: nat) {
    exists j :: i <= j < |t| && Matches(t[j], systems) && a in Blocks(t[j])
  }

  /** The result is true exactly when every mandatory matching range was free and is now held whole;
      nothing is given up, and nothing outside the matching ranges is taken. */
  lemma {:induction false} ReserveAllLaw(t: Table, i: nat, systems: Flags, w: World, grant: Grants)
    requires ValidTable(t) && i <= |t|
    ensures var r := ReserveAll(t, i, systems, w, grant);
      && w.held <= r.1.held
      && (forall a :: a in r.1.held && a !in w.held ==> OfMatching(t, i, systems, a))
      && (r.0 <==> forall j :: i <= j < |t| && Matches(t[j], systems) && !IsOptional(t[j]) ==>
            Blocks(t[j]) <= r.1.held - w.held)
      && (Agrees(w) ==> Agrees(r.1))
    decreases |t| - i
  {
    if i == |t| {
    } else {
      var r := ReserveAll(t, i, systems, w, grant);
      if !Matches(t[i], systems) {
        ReserveAllLaw(t, i + 1, systems, w, grant);
      } else {
        var v := Reserve(t[i], w, grant);
        ReserveUnitsLaw(t[i], UnitCount(t[i]), w, grant);
        if Fails(t[i], TrialOf(t[i], w, grant)) {
          assert !(Blocks(t[i]) <= v.held - w.held);
        } else {
          ReserveAllLaw(t, i + 1, systems, v, grant);
          forall j | i <= j < |t| && Matches(t[j], systems) && !IsOptional(t[j])
            ensures Blocks(t[j]) <= r.1.held - w.held <==> i == j || Blocks(t[j]) <= r.1.held - v.held
          {
            if i < j {
              BlocksDisjoint(t[i], t[j]);
            }
          }
        }
      }
    }
  }

  /** Free, among the first `n` ranges, those that carry a released system and no kept one. */
  function FreeAll(t: Table, n: nat, keep: Flags, release: Flags, w: World): World
    requires n <= |t|
  {
    if n == 0 then w
    else
      var u := FreeAll(t, n - 1, keep, release, w);
      if !Matches(t[n - 1], keep) && Matches(t[n - 1], release) then Free(t[n - 1], u) else u
  }

  ghost predicate Freed(t: Table, n: nat, keep: Flags, release: Flags, a: nat)
    requires n <= |t|
  {
    exists j :: 0 <= j < n && Matches(t[j], release) && !Matches(t[j], keep) && a in Blocks(t[j])
  }

  lemma {:induction false} FreedStep(t: Table, n: nat, keep: Flags, release: Flags)
    requires 0 < n <= |t|
    ensures var last := Matches(t[n - 1], release) && !Matches(t[n - 1], keep);
      forall a :: Freed(t, n, keep, release, a) <==>
        Freed(t, n - 1, keep, release, a) || (last && a in Blocks(t[n - 1]))
  {
  }

  lemma {:induction false} FreeAllLaw(t: Table, n: nat, keep: Flags, release: Flags, w: World)
    requires ValidTable(t) && n <= |t|
    ensures var v := FreeAll(t, n, keep, release, w);
      && (forall a :: a in v.held <==> a in w.held && !Freed(t, n, keep, release, a))
      && (Agrees(w) ==> Agrees(v))
  {
    if n == 0 {
    } else {
      FreeAllLaw(t, n - 1, keep, release, w);
      FreeUnitsLaw(t[n - 1], UnitCount(t[n - 1]), FreeAll(t, n - 1, keep, release, w));
      FreedStep(t, n, keep, release);
    }
  }

  /** Booting: the loader reserves for all systems, then the kernel frees what the emulated system does
      not need. What is then still newly held lies in a range of the emulated system or in a mandatory
      range that failed, and no unit of a range of the emulated system is given up by the second step. */
  lemma {:induction false} BootLeavesOnly(t: Table, systems: Flags, w: World, grant: Grants, emulated: Flags,
                                          j: nat, a: nat)
    requires ValidTable(t) && j < |t| && a in Blocks(t[j])
    ensures var p := Attempt(t, Start(systems, w), grant).pass;
      var v := FreeAll(t, |t|, emulated, p.systems, p.w);
      && (a in v.held && a !in w.held ==> Matches(t[j], emulated) || FailedAt(t, p.trials, j))
      && (Matches(t[j], emulated) ==> (a in v.held <==> a in p.w.held))
  {
    var p := Attempt(t, Start(systems, w), grant).pass;
    var v := FreeAll(t, |t|, emulated, p.systems, p.w);
    StartExplained(t, systems, w);
    AttemptExplained(t, systems, w, Start(systems, w), grant);
    FreeAllLaw(t, |t|, emulated, p.systems, p.w);
    if a in v.held && a !in w.held && !Matches(t[j], emulated) {
      OnlyFailedRangesLeak(t, systems, w, p, j, a);
    }
    if Matches(t[j], emulated) {
      forall m | 0 <= m < |t| && !Matches(t[m], emulated)
        ensures a !in Blocks(t[m])
      {
        UnitOfOneRange(t, j, m, a);
      }
    }
  }

  // ---------------------------------------------------------------- whole runs

  datatype Call =
    | ReserveRange(index: nat)
    | FreeRange(index: nat)
    | ReserveRanges(systems: Flags)
    | FreeRanges(keep: Flags, release: Flags)
    | AttemptRanges(systems: Flags)

  /** One call; an index outside the table is never passed and changes nothing here. */
  function Exec(t: Table, c: Call, w: World, grant: Grants): World {
    match c
    case ReserveRange(i) => if i < |t| then Reserve(t[i], w, grant) else w
    case FreeRange(i) => if i < |t| then Free(t[i], w) else w
    case ReserveRanges(systems) => ReserveAll(t, 0, systems, w, grant).1
    case FreeRanges(keep, release) => FreeAll(t, |t|, keep, release, w)
    case AttemptRanges(systems) => Attempt(t, Start(systems, w), grant).pass.w
  }

  function Run(t: Table, calls: seq<Call>, w: World, grant: Grants): World
    decreases |calls|
  {
    if calls == [] then w else Run(t, calls[1..], Exec(t, calls[0], w, grant), grant)
  }

  /** After any sequence of calls from an empty host, for any host, the bitmap tells the truth: bits 0 to 4095 stand
      for the blocks from 0xB0000000 on, bits 4096 to 12287 for those from 0xD0000000 on. */
  lemma {:induction false} BitmapAlwaysTruthful(t: Table, calls: seq<Call>, grant: Grants)
    requires ValidTable(t)
    ensures var w := Run(t, calls, EmptyHost, grant);
      && (forall k :: k in w.bits ==> k < 12288)
      && (forall k :: 0 <= k < 4096 ==> (k in w.bits <==> 0xB000_0000 + k * 0x1_0000 in w.held))
      && (forall k :: 4096 <= k < 12288 ==> (k in w.bits <==> 0xD000_0000 + (k - 4096) * 0x1_0000 in w.held))
  {
    RunKeepsAgreement(t, calls, EmptyHost, grant);
    assert forall k :: 0 <= k < 4096 ==> BitAddress(k) == 0xB000_0000 + k * 0x1_0000;
    assert forall k :: 4096 <= k < 12288 ==> BitAddress(k) == 0xD000_0000 + (k - 4096) * 0x1_0000;
  }

  lemma {:induction false} RunKeepsAgreement(t: Table, calls: seq<Call>, w: World, grant: Grants)
    requires ValidTable(t) && Agrees(w)
    ensures Agrees(Run(t, calls, w, grant))
    decreases |calls|
  {
    if calls == [] {
    } else {
      ExecKeepsAgreement(t, calls[0], w, grant);
      RunKeepsAgreement(t, calls[1..], Exec(t, calls[0], w, grant), grant);
    }
  }

  lemma {:induction false} ExecKeepsAgreement(t: Table, c: Call, w: World, grant: Grants)
    requires ValidTable(t) && Agrees(w)
    ensures Agrees(Exec(t, c, w, grant))
  {
    match c
    case ReserveRange(i) => if i < |t| { ReserveUnitsLaw(t[i], UnitCount(t[i]), w, grant); }
    case FreeRange(i) => if i < |t| { FreeUnitsLaw(t[i], UnitCount(t[i]), w); }
    case ReserveRanges(systems) => ReserveAllLaw(t, 0, systems, w, grant);
    case FreeRanges(keep, release) => FreeAllLaw(t, |t|, keep, release, w);
    case AttemptRanges(systems) =>
      StartExplained(t, systems, w);
      AttemptExplained(t, systems, w, Start(systems, w), grant);
  }
}
