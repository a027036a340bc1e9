/** The code of src/common/ReserveAddressRanges.cpp: in-place loops over a packed bitmap of 384 words
    and an index that is reset to walk back. Each method computes its function of `Reservation`,
    `Downgrade` or `ReservationRuns`. */
module ReserveAddressRanges {
  import opened AddressRanges
  import opened Reservation
  import opened Downgrade
  import opened ReservationRuns
  import opened Words

  const BLOCKS_RESERVED_WORDS := 384

  /** The bits set in the packed words. */
  ghost function Bits(words: seq<uint32>): set<nat>
    requires |words| == BLOCKS_RESERVED_WORDS
  {
    set k | 0 <= k < BLOCK_REGION_SYSTEM_INDEX_END && Bit(words[k / 32], k % 32)
  }

  /** Or-ing `1 << k % 32` into word k / 32 sets exactly bit k; and-ing its complement clears exactly bit k. */
  lemma {:induction false} BitmapUpdate(words: seq<uint32>, k: nat)
    requires |words| == BLOCKS_RESERVED_WORDS && k < BLOCK_REGION_SYSTEM_INDEX_END
    ensures Or(words[k / 32], Pow2(k % 32)) < 0x1_0000_0000 && AndNot(words[k / 32], Pow2(k % 32)) < 0x1_0000_0000
    ensures Bits(words[k / 32 := Or(words[k / 32], Pow2(k % 32))]) == Bits(words) + {k}
    ensures Bits(words[k / 32 := AndNot(words[k / 32], Pow2(k % 32))]) == Bits(words) - {k}
  {
    WordUpdate(words[k / 32], k % 32);
  }

  /** The loop variables `Start` and `Size` when block k of a range is next. */
  function StartAt(r: Range, k: nat): nat {
    Unit(r, k) % ADDRESS_LIMIT
  }

  function SizeLeft(r: Range, k: nat): int {
    r.size - k * BLOCK_SIZE
  }

  /** How they go on: `Size` is positive exactly when there is a block k, whose address has not wrapped around
      and whose bit lies in the bitmap. */
  lemma BlockCounters(r: Range, k: nat)
    requires ValidRange(r) && !Mapped(r) && k <= UnitCount(r)
    ensures SizeLeft(r, k) > 0 <==> k < UnitCount(r)
    ensures SizeLeft(r, k + 1) == SizeLeft(r, k) - BLOCK_SIZE
    ensures k < UnitCount(r) ==> StartAt(r, k) == Unit(r, k)
    ensures StartAt(r, k + 1) == (StartAt(r, k) + BLOCK_SIZE) % ADDRESS_LIMIT
    ensures k < UnitCount(r) && Tracked(r) ==> FirstIndex(r) + k < BLOCK_REGION_SYSTEM_INDEX_END
  {
  }

  class AddressSpace {
    const table: Table
    const grant: Grants
    /** The host: what it has reserved for us, and how often it was asked. */
    var held: set<nat>
    var clock: nat
    const blocks_reserved: array<uint32>

    ghost predicate Sized() {
      blocks_reserved.Length == BLOCKS_RESERVED_WORDS
    }

    ghost predicate Valid() {
      ValidTable(table) && Sized()
    }

    ghost function View(): World
      requires Sized()
      reads this, blocks_reserved
    {
      World(held, Bits(blocks_reserved[..]), clock)
    }

    /** A fresh process: nothing reserved, a zeroed bitmap. */
    constructor (table: Table, grant: Grants)
      requires ValidTable(table)
      ensures Valid() && fresh(blocks_reserved) && this.table == table && this.grant == grant
      ensures View() == World({}, {}, 0) && Agrees(View())
    {
      this.table := table;
      this.grant := grant;
      held, clock := {}, 0;
      blocks_reserved := new uint32[BLOCKS_RESERVED_WORDS](_ => 0);
      new;
      forall i {
        ZeroBits(i);
      }
    }

    /** The host's answer to a request for one unit. */
    method VirtualAlloc(start: nat) returns (ok: bool)
      requires Sized()
      modifies this
      ensures var w := old(View());
        && ok == (start !in w.held && grant(w.clock))
        && View() == World(if ok then w.held + {start} else w.held, w.bits, w.clock + 1)
    {
      ok := start !in held && grant(clock);
      clock := clock + 1;
      if ok {
        held := held + {start};
      }
    }

    method VirtualFree(start: nat) returns (ok: bool)
      requires Sized()
      modifies this
      ensures var w := old(View()); ok == (start in w.held) && View() == w.(held := w.held - {start})
    {
      ok := start in held;
      held := held - {start};
    }

    method SetBit(k: nat)
      requires Sized() && k < BLOCK_REGION_SYSTEM_INDEX_END
      modifies blocks_reserved
      ensures View() == old(View()).(bits := old(View().bits) + {k})
    {
      ghost var words := blocks_reserved[..];
      BitmapUpdate(words, k);
      blocks_reserved[k / 32] := Or(blocks_reserved[k / 32], Pow2(k % 32));
      assert blocks_reserved[..] == words[k / 32 := Or(words[k / 32], Pow2(k % 32))];
    }

    method ClearBit(k: nat)
      requires Sized() && k < BLOCK_REGION_SYSTEM_INDEX_END
      modifies blocks_reserved
      ensures View() == old(View()).(bits := old(View().bits) - {k})
    {
      ghost var words := blocks_reserved[..];
      BitmapUpdate(words, k);
      blocks_reserved[k / 32] := AndNot(blocks_reserved[k / 32], Pow2(k % 32));
      assert blocks_reserved[..] == words[k / 32 := AndNot(words[k / 32], Pow2(k % 32))];
    }

    method ReserveMemoryRange(index: nat) returns (ok: bool)
      requires Valid() && index < |table|
      modifies this, blocks_reserved
      ensures Valid() && View() == Reserve(table[index], old(View()), grant)
      ensures ok == Whole(table[index], old(View()), grant)
    {
      var r := table[index];
      assert ValidRange(r);
      if Mapped(r) {
        ghost var w := View();
        ok := VirtualAlloc(r.start);
        assert ReserveUnits(r, 1, w, grant) == ReserveUnit(r, 0, w, grant);
        assert AllGranted(r, 1, w, grant) == Granted(r, 0, w, grant);
      } else {
        ok := ReserveBlocks(r);
      }
    }

    /** Requests block k of a range and, in a tracked one, sets its bit when the host agrees. */
    method RequestBlock(start: nat, tracked: bool, arrIndex: nat, ghost r: Range, ghost k: nat) returns (ok: bool)
      requires Sized() && start == Unit(r, k) && tracked == Tracked(r)
      requires tracked ==> arrIndex == FirstIndex(r) + k < BLOCK_REGION_SYSTEM_INDEX_END
      modifies this, blocks_reserved
      ensures ok == Granted(r, k, old(View()), grant) && View() == ReserveUnit(r, k, old(View()), grant)
    {
      ok := VirtualAlloc(start);
      if tracked && ok {
        SetBit(arrIndex);
      }
    }

    /** The default case: request the range in 64 KiB blocks. */
    method ReserveBlocks(r: Range) returns (ok: bool)
      requires Sized() && ValidRange(r) && !Mapped(r)
      modifies this, blocks_reserved
      ensures View() == Reserve(r, old(View()), grant)
      ensures ok == Whole(r, old(View()), grant)
    {
      ghost var w := View();
      var hadAnyFailure := false;
      var needsReservationTracking := r.start == SYSTEM_MEMORY_BASE || r.start == DEVKIT_MEMORY_BASE;
      var start, size: int, arrIndex := r.start, r.size, FirstIndex(r);
      ghost var k := 0;
      assert start == StartAt(r, 0);
      while size > 0
        invariant 0 <= k <= UnitCount(r)
        invariant size == SizeLeft(r, k) && start == StartAt(r, k)
        invariant needsReservationTracking ==> arrIndex == FirstIndex(r) + k
        invariant View() == ReserveUnits(r, k, w, grant)
        invariant hadAnyFailure == !AllGranted(r, k, w, grant)
      {
        BlockCounters(r, k);
        var result := RequestBlock(start, needsReservationTracking, arrIndex, r, k);
        if !result {
          hadAnyFailure := true;
        }
        start := (start + BLOCK_SIZE) % ADDRESS_LIMIT;
        size := size - BLOCK_SIZE;
        if needsReservationTracking {
          arrIndex := arrIndex + 1;
        }
        k := k + 1;
      }
      BlockCounters(r, k);
      ok := !hadAnyFailure;
    }

    method FreeMemoryRange(index: nat)
      requires Valid() && index < |table|
      modifies this, blocks_reserved
      ensures Valid() && View() == Free(table[index], old(View()))
    {
      var r := table[index];
      assert ValidRange(r);
      if Mapped(r) {
        ghost var w := View();
        var _ := VirtualFree(r.start);
        assert FreeUnits(r, 1, w) == FreeUnit(r, 0, w);
      } else {
        FreeBlocks(r);
      }
    }

    method FreeBlocks(r: Range)
      requires Sized() && ValidRange(r) && !Mapped(r)
      modifies this, blocks_reserved
      ensures View() == Free(r, old(View()))
    {
      ghost var w := View();
      var needsReservationTracking := r.start == SYSTEM_MEMORY_BASE || r.start == DEVKIT_MEMORY_BASE;
      var start, size: int, arrIndex := r.start, r.size, FirstIndex(r);
      ghost var k := 0;
      assert start == StartAt(r, 0);
      while size > 0
        invariant 0 <= k <= UnitCount(r)
        invariant size == SizeLeft(r, k) && start == StartAt(r, k)
        invariant needsReservationTracking ==> arrIndex == FirstIndex(r) + k
        invariant View() == FreeUnits(r, k, w)
      {
        BlockCounters(r, k);
        var result := VirtualFree(start);
        start := (start + BLOCK_SIZE) % ADDRESS_LIMIT;
        size := size - BLOCK_SIZE;
        if needsReservationTracking {
          if result {
            ClearBit(arrIndex);
          }
          arrIndex := arrIndex + 1;
        }
        k := k + 1;
      }
      BlockCounters(r, k);
    }

    method ReserveAddressRanges(system: Flags) returns (ok: bool)
      requires Valid()
      modifies this, blocks_reserved
      ensures Valid() && (ok, View()) == ReserveAll(table, 0, system, old(View()), grant)
    {
      ghost var expected := ReserveAll(table, 0, system, View(), grant);
      for i := 0 to |table|
        invariant ReserveAll(table, i, system, View(), grant) == expected
      {
        if !Matches(table[i], system) {
          continue;
        }
        var reserved := ReserveMemoryRange(i);
        if reserved {
          continue;
        }
        if !IsOptional(table[i]) {
          return false;
        }
      }
      return true;
    }

    method FreeAddressRanges(system: Flags, releaseSystems: Flags)
      requires Valid()
      modifies this, blocks_reserved
      ensures Valid() && View() == FreeAll(table, |table|, system, releaseSystems, old(View()))
    {
      ghost var w := View();
      if releaseSystems == {} {
        NothingReleased(table, |table|, system, w);
        return;
      }
      for i := 0 to |table|
        invariant View() == FreeAll(table, i, system, releaseSystems, w)
      {
        if Matches(table[i], system) {
          continue;
        }
        if !Matches(table[i], releaseSystems) {
          continue;
        }
        FreeMemoryRange(i);
      }
    }

    /** The backtracking loop. `i` is set back to -1 at a mandatory failure and the increment brings it
        to 0; back at the failing range, the loop resumes behind it with fewer systems. */
    method AttemptReserveAddressRanges(reservedSystems: Flags) returns (ok: bool, systems: Flags)
      requires Valid()
      modifies this, blocks_reserved
      ensures Valid()
      ensures var o := Attempt(table, Start(reservedSystems, old(View())), grant);
        ok == o.ok && systems == o.pass.systems && View() == o.pass.w
      ensures ok <==> reservedSystems == {} || systems != {}
    {
      var iLast, clearSystems, i: int := 0, {}, 0;
      systems := reservedSystems;
      // The pass up to the range now considered; while walking back, up to the range that failed.
      ghost var p := Start(systems, View());
      ghost var expected := Attempt(table, p, grant);
      TrueIffSystemLeft(table, systems, p.w, grant);
      while i < |table|
        invariant 0 <= i <= |table| && |p.trials| <= |table|
        invariant Attempt(table, p, grant) == expected && p.systems == systems
        invariant clearSystems == {} ==> |p.trials| == i && p.w == View()
        invariant clearSystems != {} ==>
          && i <= iLast < |table| && |p.trials| == iLast
          && Matches(table[iLast], systems) && clearSystems == SystemFlags(table[iLast])
          && Fails(table[iLast], TrialOf(table[iLast], p.w, grant))
          && View() == WalkBack(table, i, clearSystems, Reserve(table[iLast], p.w, grant))
        decreases |table| - (if clearSystems == {} then i else iLast),
                  if clearSystems == {} then |table| + 1 else iLast - i
      {
        if i == iLast && clearSystems != {} {
          systems := systems - clearSystems;
          RangeFailed(table, p, grant);
          p := Consider(table, p, grant);
          if systems == {} {
            return false, {};
          }
          clearSystems := {};
          i := i + 1;
          continue;
        }
        if clearSystems != {} {
          if !Matches(table[i], clearSystems) {
            i := i + 1;
            continue;
          }
          FreeMemoryRange(i);
        } else {
          if !Matches(table[i], systems) {
            RangePassed(table, p, grant);
            p := Consider(table, p, grant);
            i := i + 1;
            continue;
          }
          var reserved := ReserveMemoryRange(i);
          if reserved {
            RangePassed(table, p, grant);
            p := Consider(table, p, grant);
            i := i + 1;
            continue;
          }
          if IsOptional(table[i]) {
            RangePassed(table, p, grant);
            p := Consider(table, p, grant);
          } else {
            MandatoryHasSystem(table[i], systems);
            clearSystems := SystemFlags(table[i]);
            iLast := i;
            i := -1;
          }
        }
        i := i + 1;
      }
      return true, systems;
    }
  }

  /** A mandatory range that is wanted clears at least one system, so the walk-back always starts. */
  lemma MandatoryHasSystem(r: Range, systems: Flags)
    requires ValidRange(r) && !IsOptional(r) && Matches(r, systems)
    ensures SystemFlags(r) * systems != {}
  {
    var f :| f in r.flags && f in systems;
    assert f in SystemFlags(r) * systems;
  }

  /** A range that is passed over, or does not fail, takes no system away. */
  lemma {:induction false} RangePassed(t: Table, p: Pass, grant: Grants)
    requires |p.trials| < |t|
    requires Matches(t[|p.trials|], p.systems) ==> !Fails(t[|p.trials|], TrialOf(t[|p.trials|], p.w, grant))
    ensures var r, q := t[|p.trials|], Consider(t, p, grant);
      && q.systems == p.systems && q.w == (if Matches(r, p.systems) then Reserve(r, p.w, grant) else p.w)
      && Attempt(t, p, grant) == Attempt(t, q, grant)
  {
    EmptiedByFailure(t, p, grant);
  }

  /** A mandatory range that fails takes its systems away, and with the last one the call gives up. */
  lemma {:induction false} RangeFailed(t: Table, p: Pass, grant: Grants)
    requires |p.trials| < |t| && Matches(t[|p.trials|], p.systems)
    requires Fails(t[|p.trials|], TrialOf(t[|p.trials|], p.w, grant))
    ensures var i, r, q := |p.trials|, t[|p.trials|], Consider(t, p, grant);
      && q.systems == p.systems - SystemFlags(r)
      && q.w == WalkBack(t, i, SystemFlags(r), Reserve(r, p.w, grant))
      && Attempt(t, p, grant) == if q.systems == {} then Outcome(false, q) else Attempt(t, q, grant)
  {
    EmptiedByFailure(t, p, grant);
  }

  lemma {:induction false} NothingReleased(t: Table, n: nat, keep: Flags, w: World)
    requires n <= |t|
    ensures FreeAll(t, n, keep, {}, w) == w
  {
    if n == 0 {
    } else {
      NothingReleased(t, n - 1, keep, w);
    }
  }
}
