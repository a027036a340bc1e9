/** The program-counter sample tables (src/common/PerfTrace.cpp:397-472, reset at 1480-1490). */
module PcSamples {
  import opened FirstSeen
  import opened Words

  // Hit counters wrap at 32 bits, cycle counters at 64.
  const HITS_LIMIT := 0x1_0000_0000
  const CYCLES_LIMIT := 0x1_0000_0000_0000_0000

  /** A zero program counter marks an unused slot and is never recorded. */
  const UNUSED := 0

  function Always(pc: nat): bool {
    true
  }

  /** The program counters of a history, each where it first came. */
  function DistinctPcs(history: seq<Event<nat>>): seq<nat> {
    if history == [] then []
    else
      var pcs, pc := DistinctPcs(history[..|history| - 1]), history[|history| - 1].key;
      if pc in pcs then pcs else pcs + [pc]
  }

  lemma {:induction false} FirstPcs(history: seq<Event<nat>>)
    ensures Firsts(history, Always) == DistinctPcs(history)
  {
    if history == [] {
    } else {
      FirstPcs(history[..|history| - 1]);
    }
  }

  /** A slot with these contents stands for an entry: its counters are kept as far as they fit. */
  predicate Stands(e: Entry<nat>, pc: nat, hits: nat, cycles: nat) {
    pc == e.key != UNUSED && hits == e.hits % HITS_LIMIT && cycles == e.cycles % CYCLES_LIMIT
  }

  /** Counting on from the wrapped values is wrapping the full counts. */
  lemma CountersWrap(hits: nat, cycles: nat, count: nat)
    ensures (hits % HITS_LIMIT + 1) % HITS_LIMIT == (hits + 1) % HITS_LIMIT
    ensures (cycles % CYCLES_LIMIT + count) % CYCLES_LIMIT == (cycles + count) % CYCLES_LIMIT
  {
  }

  class PcTable {
    const pcs: array<nat>
    const hits: array<nat>
    const cycles: array<nat>
    var total: uint32
    var totalCycles: uint64
    /** The non-zero samples since the last reset, and the table they make. */
    ghost var history: seq<Event<nat>>
    ghost var table: Table<nat>

    /** The slots in use are the entries of the table, in order, and the rest are free. */
    ghost predicate Slots()
      reads this, pcs, hits, cycles
    {
      && pcs.Length == hits.Length == cycles.Length && |table.entries| <= pcs.Length
      && (forall i :: 0 <= i < |table.entries| ==> Stands(table.entries[i], pcs[i], hits[i], cycles[i]))
      && (forall i :: |table.entries| <= i < pcs.Length ==> pcs[i] == UNUSED)
    }

    ghost predicate Valid()
      reads this, pcs, hits, cycles
    {
      && pcs != hits && pcs != cycles && hits != cycles
      && Slots()
      && table == After(history, pcs.Length, Always)
      && total == |history| % HITS_LIMIT && totalCycles == TotalCycles(history) % CYCLES_LIMIT
    }

    constructor (size: nat)
      ensures Valid() && history == [] && pcs.Length == size
      ensures fresh(pcs) && fresh(hits) && fresh(cycles)
    {
      pcs := new nat[size](_ => UNUSED);
      hits := new nat[size](_ => 0);
      cycles := new nat[size](_ => 0);
      total, totalCycles, history, table := 0, 0, [], Table([], 0, 0);
    }

    method Reset()
      requires Valid()
      modifies this, pcs, hits, cycles
      ensures Valid() && history == []
    {
      forall i | 0 <= i < pcs.Length {
        pcs[i] := UNUSED;
      }
      forall i | 0 <= i < hits.Length {
        hits[i] := 0;
      }
      forall i | 0 <= i < cycles.Length {
        cycles[i] := 0;
      }
      total, totalCycles, history, table := 0, 0, [], Table([], 0, 0);
    }

    method Record(pc: nat, count: uint64)
      requires Valid()
      modifies this, pcs, hits, cycles
      ensures Valid()
      ensures history == if pc == UNUSED then old(history) else old(history) + [Event(pc, count)]
    {
      if pc == UNUSED {
        return;
      }
      AfterMore(history, Event(pc, count), pcs.Length, Always);
      CountersWrap(|history|, TotalCycles(history), count);
      Store(pc, count);
      history := history + [Event(pc, count)];
      Count(count);
    }

    method Count(count: uint64)
      modifies `total, `totalCycles
      ensures total == (old(total) + 1) % HITS_LIMIT && totalCycles == (old(totalCycles) + count) % CYCLES_LIMIT
    {
      total := (total + 1) % HITS_LIMIT;
      totalCycles := (totalCycles + count) % CYCLES_LIMIT;
    }

    /** The slots hold the first distinct program counters since the reset, in the order they first came. */
    lemma {:induction false} SlotsHoldFirst()
      requires Valid()
      ensures var firsts := DistinctPcs(history);
        forall i :: 0 <= i < pcs.Length ==> pcs[i] == if i < |firsts| then firsts[i] else 0
    {
      HoldsFirst(history, pcs.Length, Always);
      FirstPcs(history);
      assert forall i :: 0 <= i < |table.entries| ==> Keys(table.entries)[i] == pcs[i];
    }

    /** The slots in use have different program counters, each with the number of its samples since the reset and
        the sum of their cycles, as far as the counters hold them; a program counter that was sampled has a slot
        unless all slots are in use; and the totals count all samples. */
    lemma {:induction false} SlotsExact()
      requires Valid()
      ensures forall i :: 0 <= i < pcs.Length && pcs[i] != 0 ==>
        && hits[i] == Hits(history, pcs[i]) % 0x1_0000_0000
        && cycles[i] == Cycles(history, pcs[i]) % 0x1_0000_0000_0000_0000
      ensures forall i, j :: 0 <= i < j < pcs.Length && pcs[i] != 0 ==> pcs[i] != pcs[j]
      ensures forall k :: 0 <= k < |history| && history[k].key !in pcs[..] ==>
        forall i :: 0 <= i < pcs.Length ==> pcs[i] != 0
      ensures total == |history| % 0x1_0000_0000
      ensures totalCycles == TotalCycles(history) % 0x1_0000_0000_0000_0000
    {
      TableExact(history, pcs.Length, Always);
      forall k | 0 <= k < |history| && history[k].key !in pcs[..]
        ensures forall i :: 0 <= i < pcs.Length ==> pcs[i] != 0
      {
        MissingEverywhere(k);
      }
    }

    lemma {:induction false} MissingEverywhere(k: nat)
      requires Valid() && k < |history| && history[k].key !in pcs[..]
      ensures |table.entries| == pcs.Length
    {
      assert forall i :: 0 <= i < |table.entries| ==> table.entries[i].key == pcs[..][i];
      MissingMetFullTable(history, k, pcs.Length, Always);
      NeverShrinks(history, k, pcs.Length, Always);
      Conservation(history, pcs.Length, Always);
    }

    /** The two searches: a slot with this program counter, else the first free slot. */
    method Store(pc: nat, count: uint64)
      requires pc != UNUSED && pcs != hits && pcs != cycles && hits != cycles && Slots()
      modifies `table, pcs, hits, cycles
      ensures Slots() && table == FirstSeen.Record(old(table), Event(pc, count), pcs.Length, Always)
    {
      ghost var entries := table.entries;
      ghost var found := Find(entries, pc, Always);
      for i := 0 to pcs.Length
        invariant i <= found || found == |entries|
      {
        if pcs[i] == pc {
          assert found == i;
          Hit(i, count);
          return;
        }
      }
      assert found == |entries|;
      for i := 0 to pcs.Length
        invariant i <= |entries|
      {
        if pcs[i] == UNUSED {
          Use(i, pc, count);
          return;
        }
      }
      table := FirstSeen.Record(table, Event(pc, count), pcs.Length, Always);
    }

    /** One more hit for the slot that has this program counter. */
    method Hit(i: nat, count: uint64)
      requires pcs != hits && pcs != cycles && hits != cycles && Slots()
      requires i < |table.entries| && Find(table.entries, pcs[i], Always) == i
      modifies `table, hits, cycles
      ensures Slots() && table == FirstSeen.Record(old(table), Event(pcs[i], count), pcs.Length, Always)
    {
      ghost var entries := table.entries;
      CountersWrap(entries[i].hits, entries[i].cycles, count);
      hits[i] := (hits[i] + 1) % HITS_LIMIT;
      cycles[i] := (cycles[i] + count) % CYCLES_LIMIT;
      table := FirstSeen.Record(table, Event(pcs[i], count), pcs.Length, Always);
      assert table.entries == entries[i := Entry(pcs[i], entries[i].hits + 1, entries[i].cycles + count)];
    }

    /** The first free slot is taken. */
    method Use(i: nat, pc: nat, count: uint64)
      requires pc != UNUSED && pcs != hits && pcs != cycles && hits != cycles && Slots()
      requires i == |table.entries| < pcs.Length && Find(table.entries, pc, Always) == i
      modifies `table, pcs, hits, cycles
      ensures Slots() && table == FirstSeen.Record(old(table), Event(pc, count), pcs.Length, Always)
    {
      ghost var entries := table.entries;
      pcs[i] := pc;
      hits[i] := 1;
      cycles[i] := count;
      table := FirstSeen.Record(table, Event(pc, count), pcs.Length, Always);
      assert table.entries == entries + [Entry(pc, 1, count)];
    }
  }
}
