/** What one call of each function of src/common/ReserveAddressRanges.cpp does, as functions on
    values. The host is an adversary: `grant(t)` says whether it agrees to the t-th request.
    It refuses every request for a unit that is already held. */
module Reservation {
  import opened AddressRanges

  type Grants = nat -> bool

  /** The units held on the host, the bits set in the bitmap, and the number of requests made. */
  datatype World = World(held: set<nat>, bits: set<nat>, clock: nat)

  /** The bitmap tells the truth: bit k is set exactly when its block is held. */
  ghost predicate Agrees(w: World) {
    && (forall k :: k in w.bits ==> k < BLOCK_REGION_SYSTEM_INDEX_END)
    && (forall k :: 0 <= k < BLOCK_REGION_SYSTEM_INDEX_END ==> (k in w.bits <==> BitAddress(k) in w.held))
  }

  // ---------------------------------------------------------------- one range

  function Granted(r: Range, k: nat, w: World, grant: Grants): bool {
    Unit(r, k) !in w.held && grant(w.clock)
  }

  function ReserveUnit(r: Range, k: nat, w: World, grant: Grants): World {
    var ok := Granted(r, k, w, grant);
    World(if ok then w.held + {Unit(r, k)} else w.held,
          if ok && Tracked(r) then w.bits + {FirstIndex(r) + k} else w.bits,
          w.clock + 1)
  }

  /** The world after the first `n` units of the range were asked for. */
  function ReserveUnits(r: Range, n: nat, w: World, grant: Grants): World {
    if n == 0 then w else ReserveUnit(r, n - 1, ReserveUnits(r, n - 1, w, grant), grant)
  }

  function AllGranted(r: Range, n: nat, w: World, grant: Grants): bool {
    n == 0 || (AllGranted(r, n - 1, w, grant) && Granted(r, n - 1, ReserveUnits(r, n - 1, w, grant), grant))
  }

  function Reserve(r: Range, w: World, grant: Grants): World {
    ReserveUnits(r, UnitCount(r), w, grant)
  }

  function Whole(r: Range, w: World, grant: Grants): bool {
    AllGranted(r, UnitCount(r), w, grant)
  }

  function FreeUnit(r: Range, k: nat, w: World): World {
    if Unit(r, k) in w.held
    then w.(held := w.held - {Unit(r, k)}, bits := if Tracked(r) then w.bits - {FirstIndex(r) + k} else w.bits)
    else w
  }

  function FreeUnits(r: Range, n: nat, w: World): World {
    if n == 0 then w else FreeUnit(r, n - 1, FreeUnits(r, n - 1, w))
  }

  function Free(r: Range, w: World): World {
    FreeUnits(r, UnitCount(r), w)
  }

  /** Reserving a prefix of a range only adds its own units, keeps the bitmap truthful, and is
      reported as complete exactly when every unit was free before and is held afterwards. */
  lemma {:induction false} ReserveUnitsLaw(r: Range, n: nat, w: World, grant: Grants)
    requires ValidRange(r) && n <= UnitCount(r)
    ensures var v := ReserveUnits(r, n, w, grant);
      && w.held <= v.held <= w.held + Units(r, n)
      && v.clock == w.clock + n
      && (AllGranted(r, n, w, grant) <==> Units(r, n) <= v.held - w.held)
      && (Agrees(w) ==> Agrees(v))
  {
    ReserveUnitsHeld(r, n, w, grant);
    if Agrees(w) {
      ReserveUnitsAgree(r, n, w, grant);
    }
  }

  lemma {:induction false} ReserveUnitsHeld(r: Range, n: nat, w: World, grant: Grants)
    ensures var v := ReserveUnits(r, n, w, grant);
      && w.held <= v.held <= w.held + Units(r, n)
      && v.clock == w.clock + n
      && (AllGranted(r, n, w, grant) <==> Units(r, n) <= v.held - w.held)
  {
    if n == 0 {
    } else {
      ReserveUnitsHeld(r, n - 1, w, grant);
      UnitsStep(r, n);
    }
  }

  lemma {:induction false} ReserveUnitsAgree(r: Range, n: nat, w: World, grant: Grants)
    requires ValidRange(r) && n <= UnitCount(r) && Agrees(w)
    ensures Agrees(ReserveUnits(r, n, w, grant))
  {
    if n == 0 {
    } else {
      var u := ReserveUnits(r, n - 1, w, grant);
      ReserveUnitsAgree(r, n - 1, w, grant);
      UnitAgreement(r, n - 1, u, ReserveUnit(r, n - 1, u, grant));
    }
  }

  lemma UnitsStep(r: Range, n: nat)
    requires n > 0
    ensures Units(r, n) == Units(r, n - 1) + {Unit(r, n - 1)} && Unit(r, n - 1) !in Units(r, n - 1)
  {
  }

  /** Freeing a prefix of a range releases exactly its units. */
  lemma {:induction false} FreeUnitsLaw(r: Range, n: nat, w: World)
    requires ValidRange(r) && n <= UnitCount(r)
    ensures var v := FreeUnits(r, n, w);
      && v.held == w.held - Units(r, n)
      && v.clock == w.clock
      && (Agrees(w) ==> Agrees(v))
  {
    if n == 0 {
      assert Units(r, 0) == {};
    } else {
      FreeUnitsLaw(r, n - 1, w);
      UnitsStep(r, n);
      var u := FreeUnits(r, n - 1, w);
      if Agrees(w) {
        UnitAgreement(r, n - 1, u, FreeUnit(r, n - 1, u));
      }
    }
  }

  /** Adding or removing one unit together with its bit keeps the bitmap truthful. */
  lemma {:induction false} UnitAgreement(r: Range, k: nat, u: World, v: World)
    requires ValidRange(r) && k < UnitCount(r) && Agrees(u)
    requires v.held in {u.held, u.held + {Unit(r, k)}, u.held - {Unit(r, k)}}
    requires v.bits == if !Tracked(r) || v.held == u.held then u.bits
                       else if Unit(r, k) in v.held then u.bits + {FirstIndex(r) + k}
                       else u.bits - {FirstIndex(r) + k}
    ensures Agrees(v)
  {
    if Tracked(r) {
      assert BitAddress(FirstIndex(r) + k) == Unit(r, k);
    } else {
      assert Unit(r, k) in Blocks(r);
    }
  }

  /** Bit k belongs to a block of this range. */
  predicate Owns(r: Range, k: nat) {
    Tracked(r) && FirstIndex(r) <= k < FirstIndex(r) + UnitCount(r)
  }

  /** Reserving and freeing a range touch only the bits of that range, inside its region of the bitmap. */
  lemma {:induction false} OwnBitsOnly(r: Range, w: World, grant: Grants)
    requires ValidRange(r)
    ensures forall k :: k in Reserve(r, w, grant).bits ==> k in w.bits || Owns(r, k)
    ensures forall k :: k in w.bits ==> k in Reserve(r, w, grant).bits
    ensures forall k :: k in w.bits ==> k in Free(r, w).bits || Owns(r, k)
    ensures forall k :: k in Free(r, w).bits ==> k in w.bits
    ensures forall k: nat :: Owns(r, k) ==> FirstIndex(r) <= k < EndIndex(r) <= BLOCK_REGION_SYSTEM_INDEX_END
  {
    OwnBitsUpTo(r, UnitCount(r), w, grant);
  }

  lemma {:induction false} OwnBitsUpTo(r: Range, n: nat, w: World, grant: Grants)
    requires ValidRange(r) && n <= UnitCount(r)
    ensures forall k :: k in ReserveUnits(r, n, w, grant).bits ==> k in w.bits || Owns(r, k)
    ensures forall k :: k in w.bits ==> k in ReserveUnits(r, n, w, grant).bits
    ensures forall k :: k in w.bits ==> k in FreeUnits(r, n, w).bits || Owns(r, k)
    ensures forall k :: k in FreeUnits(r, n, w).bits ==> k in w.bits
  {
    if n == 0 {
    } else {
      OwnBitsUpTo(r, n - 1, w, grant);
    }
  }
}
