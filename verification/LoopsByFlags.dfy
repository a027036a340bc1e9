/** The two plain table loops (src/common/ReserveAddressRanges.cpp:226-266), said with flag bits, blocks and the
    answers of the host alone. */
module LoopsByFlags {
  import opened AddressRanges
  import opened Reservation
  import opened Downgrade
  import opened DowngradeTheorems
  import opened ReservationRuns
  import opened AttemptOutcome

  /** `FreeAddressRanges` takes away a block of a range exactly when the range carries a released system and no
      kept one, and no other address. */
  lemma {:induction false} FreedByFlags(t: Table, keep: Flags, release: Flags, w: World, j: nat, a: nat)
    requires ValidTable(t) && j < |t| && a in Blocks(t[j])
    ensures a in FreeAll(t, |t|, keep, release, w).held <==>
      a in w.held && !(t[j].flags * release != {} && t[j].flags * keep == {})
  {
    FreeAllLaw(t, |t|, keep, release, w);
    SharesIff(t[j], release);
    SharesIff(t[j], keep);
    forall m | 0 <= m < |t| && m != j
      ensures a !in Blocks(t[m])
    {
      UnitOfOneRange(t, j, m, a);
    }
  }

  /** Asking for every range that carries one of the systems, among the first n. */
  function AskAll(t: Table, n: nat, systems: Flags, w: World, grant: Grants): World
    requires n <= |t|
  {
    if n == 0 then w
    else
      var u := AskAll(t, n - 1, systems, w, grant);
      if Matches(t[n - 1], systems) then Reserve(t[n - 1], u, grant) else u
  }

  ghost predicate BlockAsked(t: Table, n: nat, systems: Flags, w: World, grant: Grants, v: World, j: nat, k: nat)
    requires j < |t|
  {
    Unit(t[j], k) in v.held <==>
      || Unit(t[j], k) in w.held
      || (j < n && t[j].flags * systems != {} && grant(w.clock + Requests(t, systems, j) + k))
  }

  /** After that, block k of range j is held exactly when it was held, or range j was asked for and the host agreed
      to the request for it. */
  lemma {:induction false} AskedBlocks(t: Table, n: nat, systems: Flags, w: World, grant: Grants)
    requires ValidTable(t) && n <= |t|
    ensures AskAll(t, n, systems, w, grant).clock == w.clock + Requests(t, systems, n)
    ensures forall j, k :: 0 <= j < |t| && 0 <= k < UnitCount(t[j]) ==>
      BlockAsked(t, n, systems, w, grant, AskAll(t, n, systems, w, grant), j, k)
  {
    if n == 0 {
    } else {
      AskedBlocks(t, n - 1, systems, w, grant);
      var u := AskAll(t, n - 1, systems, w, grant);
      ReserveUnitsLaw(t[n - 1], UnitCount(t[n - 1]), u, grant);
      forall j, k | 0 <= j < |t| && 0 <= k < UnitCount(t[j])
        ensures BlockAsked(t, n, systems, w, grant, AskAll(t, n, systems, w, grant), j, k)
      {
        assert BlockAsked(t, n - 1, systems, w, grant, u, j, k);
        AskedBlock(t, n, systems, w, grant, j, k);
      }
    }
  }

  lemma {:induction false} AskedBlock(t: Table, n: nat, systems: Flags, w: World, grant: Grants, j: nat, k: nat)
    requires ValidTable(t) && 0 < n <= |t| && j < |t| && k < UnitCount(t[j])
    requires AskAll(t, n - 1, systems, w, grant).clock == w.clock + Requests(t, systems, n - 1)
    requires BlockAsked(t, n - 1, systems, w, grant, AskAll(t, n - 1, systems, w, grant), j, k)
    ensures BlockAsked(t, n, systems, w, grant, AskAll(t, n, systems, w, grant), j, k)
  {
    var r, u := t[n - 1], AskAll(t, n - 1, systems, w, grant);
    SharesIff(r, systems);
    assert Unit(t[j], k) in Blocks(t[j]);
    if j == n - 1 {
      UnitsByRequests(r, UnitCount(r), u, grant);
      assert UnitByRequest(r, UnitCount(r), u, grant, k);
    } else {
      UnitOfOneRange(t, j, n - 1, Unit(t[j], k));
      ReserveUnitsLaw(r, UnitCount(r), u, grant);
    }
  }

  /** Range i is wanted, carries no MAY_FAIL, and is not granted whole when its turn comes. */
  predicate StopsAt(t: Table, i: nat, systems: Flags, w: World, grant: Grants)
    requires i < |t|
  {
    MAY_FAIL !in t[i].flags && t[i].flags * systems != {} && !Whole(t[i], AskAll(t, i, systems, w, grant), grant)
  }

  lemma {:induction false} OneTurn(t: Table, i: nat, systems: Flags, w: World, grant: Grants)
    requires ValidTable(t) && i < |t|
    ensures ReserveAll(t, i, systems, AskAll(t, i, systems, w, grant), grant) ==
      var u := AskAll(t, i + 1, systems, w, grant);
      if StopsAt(t, i, systems, w, grant) then (false, u) else ReserveAll(t, i + 1, systems, u, grant)
  {
    FlagsDecide(t[i], systems);
  }

  /** The number of ranges considered from range i on, up to the first that stops the loop. */
  function Considered(t: Table, i: nat, systems: Flags, w: World, grant: Grants): (n: nat)
    requires i <= |t|
    ensures i <= n <= |t|
    decreases |t| - i
  {
    if i == |t| then i
    else if StopsAt(t, i, systems, w, grant) then i + 1
    else Considered(t, i + 1, systems, w, grant)
  }

  predicate Completes(t: Table, i: nat, systems: Flags, w: World, grant: Grants)
    requires i <= |t|
  {
    forall m :: i <= m < |t| ==> !StopsAt(t, m, systems, w, grant)
  }

  lemma {:induction false} ConsideredStops(t: Table, i: nat, systems: Flags, w: World, grant: Grants)
    requires i <= |t|
    ensures var n := Considered(t, i, systems, w, grant);
      if Completes(t, i, systems, w, grant) then n == |t|
      else i < n && StopsAt(t, n - 1, systems, w, grant)
           && forall m :: i <= m < n - 1 ==> !StopsAt(t, m, systems, w, grant)
    decreases |t| - i
  {
    if i == |t| {
    } else if StopsAt(t, i, systems, w, grant) {
    } else {
      ConsideredStops(t, i + 1, systems, w, grant);
    }
  }

  lemma {:induction false} AskedInOrder(t: Table, i: nat, systems: Flags, w: World, grant: Grants)
    requires ValidTable(t) && i <= |t|
    ensures ReserveAll(t, i, systems, AskAll(t, i, systems, w, grant), grant) ==
      (Completes(t, i, systems, w, grant), AskAll(t, Considered(t, i, systems, w, grant), systems, w, grant))
    decreases |t| - i
  {
    if i == |t| {
    } else {
      OneTurn(t, i, systems, w, grant);
      if StopsAt(t, i, systems, w, grant) {
        assert !Completes(t, i, systems, w, grant);
      } else {
        AskedInOrder(t, i + 1, systems, w, grant);
        assert Completes(t, i, systems, w, grant) == Completes(t, i + 1, systems, w, grant);
      }
    }
  }

  /** `ReserveAddressRanges` asks for the ranges with one of the systems, with MAY_FAIL or without, in table order.
      It returns true exactly when no wanted range without MAY_FAIL is refused, and otherwise stops after the first
      such range. Block k of range j is held exactly when it was held, or range j was asked for and the host agreed
      to the request for the block. */
  lemma {:induction false} ReservedByFlags(t: Table, systems: Flags, w: World, grant: Grants)
    requires ValidTable(t)
    ensures var (ok, v) := ReserveAll(t, 0, systems, w, grant);
      var n := Considered(t, 0, systems, w, grant);
      && (ok <==> forall m :: 0 <= m < |t| ==> !StopsAt(t, m, systems, w, grant))
      && (ok ==> n == |t|)
      && (!ok ==> 0 < n && StopsAt(t, n - 1, systems, w, grant))
      && v.clock == w.clock + Requests(t, systems, n)
      && forall j, k :: 0 <= j < |t| && 0 <= k < UnitCount(t[j]) ==> BlockAsked(t, n, systems, w, grant, v, j, k)
  {
    AskedInOrder(t, 0, systems, w, grant);
    ConsideredStops(t, 0, systems, w, grant);
    AskedBlocks(t, Considered(t, 0, systems, w, grant), systems, w, grant);
  }
}
