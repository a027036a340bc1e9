/** Bounded tables that keep the first distinct keys they meet: the program-counter sample tables
    (src/common/PerfTrace.cpp:397-472) and the draw-signature buckets (src/common/RenderTrace.cpp:745-763). */
module FirstSeen {
  /** One key with how often it was met and the cycles attributed to it. */
  datatype Entry<K> = Entry(key: K, hits: nat, cycles: nat)

  datatype Event<K> = Event(key: K, cycles: nat)

  /** The entries in use, and what arrived for keys that found no room. */
  datatype Table<K> = Table(entries: seq<Entry<K>>, droppedHits: nat, droppedCycles: nat)

  /** `solid(k)` tells whether a key compares equal to itself; only floating-point NaN does not. */
  type Solid<!K> = K -> bool

  /** The first entry that matches the key, or the number of entries. */
  function Find<K(==)>(entries: seq<Entry<K>>, key: K, solid: Solid<K>): (i: nat)
    ensures i <= |entries|
    ensures i < |entries| ==> entries[i].key == key && solid(key)
    ensures solid(key) ==> forall j :: 0 <= j < i ==> entries[j].key != key
  {
    if entries == [] || (entries[0].key == key && solid(key)) then 0
    else 1 + Find(entries[1..], key, solid)
  }

  function Record<K(==)>(t: Table<K>, e: Event<K>, cap: nat, solid: Solid<K>): Table<K> {
    var i := Find(t.entries, e.key, solid);
    if i < |t.entries| then
      var entry := t.entries[i];
      t.(entries := t.entries[i := Entry(e.key, entry.hits + 1, entry.cycles + e.cycles)])
    else if |t.entries| < cap then
      t.(entries := t.entries + [Entry(e.key, 1, e.cycles)])
    else
      t.(droppedHits := t.droppedHits + 1, droppedCycles := t.droppedCycles + e.cycles)
  }

  function After<K(==)>(history: seq<Event<K>>, cap: nat, solid: Solid<K>): Table<K> {
    if history == [] then Table([], 0, 0)
    else Record(After(history[..|history| - 1], cap, solid), history[|history| - 1], cap, solid)
  }

  lemma {:induction false} AfterMore<K>(history: seq<Event<K>>, e: Event<K>, cap: nat, solid: Solid<K>)
    ensures After(history + [e], cap, solid) == Record(After(history, cap, solid), e, cap, solid)
    ensures TotalCycles(history + [e]) == TotalCycles(history) + e.cycles
  {
    assert (history + [e])[..|history|] == history;
  }

  // ---------------------------------------------------------------- what the history holds

  function Hits<K(==)>(history: seq<Event<K>>, key: K): nat {
    if history == [] then 0
    else Hits(history[..|history| - 1], key) + if history[|history| - 1].key == key then 1 else 0
  }

  function Cycles<K(==)>(history: seq<Event<K>>, key: K): nat {
    if history == [] then 0
    else Cycles(history[..|history| - 1], key) +
         if history[|history| - 1].key == key then history[|history| - 1].cycles else 0
  }

  function TotalCycles<K>(history: seq<Event<K>>): nat {
    if history == [] then 0 else TotalCycles(history[..|history| - 1]) + history[|history| - 1].cycles
  }

  function SumHits<K>(entries: seq<Entry<K>>): nat {
    if entries == [] then 0 else SumHits(entries[..|entries| - 1]) + entries[|entries| - 1].hits
  }

  function SumCycles<K>(entries: seq<Entry<K>>): nat {
    if entries == [] then 0 else SumCycles(entries[..|entries| - 1]) + entries[|entries| - 1].cycles
  }

  lemma {:induction false} SumUpdate<K>(entries: seq<Entry<K>>, i: nat, e: Entry<K>)
    requires i < |entries|
    ensures SumHits(entries[i := e]) + entries[i].hits == SumHits(entries) + e.hits
    ensures SumCycles(entries[i := e]) + entries[i].cycles == SumCycles(entries) + e.cycles
  {
    var n := |entries| - 1;
    if i < n {
      assert entries[i := e][..n] == entries[..n][i := e];
      SumUpdate(entries[..n], i, e);
    } else {
      assert entries[i := e][..n] == entries[..n];
    }
  }

  lemma {:induction false} SumAppend<K>(entries: seq<Entry<K>>, e: Entry<K>)
    ensures SumHits(entries + [e]) == SumHits(entries) + e.hits
    ensures SumCycles(entries + [e]) == SumCycles(entries) + e.cycles
  {
    assert (entries + [e])[..|entries|] == entries;
  }

  /** Conservation: every event is counted once, in the table or among the dropped. */
  lemma {:induction false} Conservation<K>(history: seq<Event<K>>, cap: nat, solid: Solid<K>)
    ensures var t := After(history, cap, solid);
      && |t.entries| <= cap
      && SumHits(t.entries) + t.droppedHits == |history|
      && SumCycles(t.entries) + t.droppedCycles == TotalCycles(history)
      && (|t.entries| < cap ==> t.droppedHits == 0)
  {
    if history == [] {
    } else {
      Conservation(history[..|history| - 1], cap, solid);
      RecordConserves(After(history[..|history| - 1], cap, solid), history[|history| - 1], cap, solid);
    }
  }

  lemma {:induction false} RecordConserves<K>(t: Table<K>, e: Event<K>, cap: nat, solid: Solid<K>)
    ensures var after := Record(t, e, cap, solid);
      && SumHits(after.entries) + after.droppedHits == SumHits(t.entries) + t.droppedHits + 1
      && SumCycles(after.entries) + after.droppedCycles == SumCycles(t.entries) + t.droppedCycles + e.cycles
      && (|t.entries| <= cap ==> |after.entries| <= cap)
      && (|after.entries| < cap ==> |t.entries| < cap && after.droppedHits == t.droppedHits)
  {
    var i := Find(t.entries, e.key, solid);
    if i < |t.entries| {
      SumUpdate(t.entries, i, Entry(e.key, t.entries[i].hits + 1, t.entries[i].cycles + e.cycles));
    } else {
      SumAppend(t.entries, Entry(e.key, 1, e.cycles));
    }
  }

  predicate Holds<K(==)>(entries: seq<Entry<K>>, key: K) {
    exists i :: 0 <= i < |entries| && entries[i].key == key
  }

  /** The keys of a table are pairwise different, as far as they can be told apart. */
  ghost predicate Distinct<K>(entries: seq<Entry<K>>, solid: Solid<K>) {
    forall i, j :: 0 <= i < j < |entries| && entries[i].key == entries[j].key ==> !solid(entries[i].key)
  }

  ghost predicate Exact<K>(history: seq<Event<K>>, entries: seq<Entry<K>>, solid: Solid<K>) {
    forall i :: 0 <= i < |entries| ==>
      if solid(entries[i].key)
      then entries[i].hits == Hits(history, entries[i].key) && entries[i].cycles == Cycles(history, entries[i].key)
      else entries[i].hits == 1
  }

  /** While there is room, a key without an entry has never been met. */
  ghost predicate Complete<K(!new)>(history: seq<Event<K>>, t: Table<K>, cap: nat) {
    |t.entries| < cap ==> forall k: K :: !Holds(t.entries, k) ==> Hits(history, k) == Cycles(history, k) == 0
  }

  /** For every history: keys are distinct, an entry has met its key exactly as often and with as many cycles
      as the history did, and a table with room has an entry for every key that came. */
  lemma {:induction false} TableExact<K(!new)>(history: seq<Event<K>>, cap: nat, solid: Solid<K>)
    ensures var t := After(history, cap, solid);
      Distinct(t.entries, solid) && Exact(history, t.entries, solid) && Complete(history, t, cap)
  {
    if history == [] {
    } else {
      var init, e := history[..|history| - 1], history[|history| - 1];
      TableExact(init, cap, solid);
      Conservation(init, cap, solid);
      RecordDistinct(After(init, cap, solid), e, cap, solid);
      RecordExact(init, e, After(init, cap, solid), cap, solid);
      RecordComplete(init, e, After(init, cap, solid), cap, solid);
      assert history == init + [e];
    }
  }

  lemma RecordDistinct<K>(t: Table<K>, e: Event<K>, cap: nat, solid: Solid<K>)
    requires Distinct(t.entries, solid)
    ensures Distinct(Record(t, e, cap, solid).entries, solid)
  {
  }

  lemma {:induction false} HitsMore<K>(history: seq<Event<K>>, e: Event<K>, key: K)
    ensures Hits(history + [e], key) == Hits(history, key) + if e.key == key then 1 else 0
    ensures Cycles(history + [e], key) == Cycles(history, key) + if e.key == key then e.cycles else 0
  {
    assert (history + [e])[..|history|] == history;
  }

  lemma {:induction false} RecordExact<K(!new)>(history: seq<Event<K>>, e: Event<K>, t: Table<K>, cap: nat,
                                                solid: Solid<K>)
    requires Distinct(t.entries, solid) && Exact(history, t.entries, solid) && Complete(history, t, cap)
    ensures Exact(history + [e], Record(t, e, cap, solid).entries, solid)
  {
    var entries := Record(t, e, cap, solid).entries;
    var found := Find(t.entries, e.key, solid);
    forall i | 0 <= i < |entries|
      ensures if solid(entries[i].key)
        then && entries[i].hits == Hits(history + [e], entries[i].key)
             && entries[i].cycles == Cycles(history + [e], entries[i].key)
        else entries[i].hits == 1
    {
      HitsMore(history, e, entries[i].key);
      if i == |t.entries| && solid(e.key) {
        assert !Holds(t.entries, e.key);
      }
    }
  }

  lemma {:induction false} RecordComplete<K(!new)>(history: seq<Event<K>>, e: Event<K>, t: Table<K>, cap: nat,
                                                   solid: Solid<K>)
    requires Complete(history, t, cap)
    ensures Complete(history + [e], Record(t, e, cap, solid), cap)
  {
    var after := Record(t, e, cap, solid);
    if |after.entries| < cap {
      forall k: K | !Holds(after.entries, k)
        ensures Hits(history + [e], k) == Cycles(history + [e], k) == 0
      {
        HitsMore(history, e, k);
        HeldStays(t, e, cap, solid, k);
      }
    }
  }

  lemma {:induction false} HeldStays<K>(t: Table<K>, e: Event<K>, cap: nat, solid: Solid<K>, k: K)
    requires |t.entries| < cap
    ensures var after := Record(t, e, cap, solid);
      Holds(after.entries, e.key) && (Holds(t.entries, k) ==> Holds(after.entries, k))
  {
    var after := Record(t, e, cap, solid);
    var i := Find(t.entries, e.key, solid);
    assert after.entries[i].key == e.key;
    if Holds(t.entries, k) {
      var j :| 0 <= j < |t.entries| && t.entries[j].key == k;
      assert after.entries[j].key == k;
    }
  }

  /** A key once in the table keeps its place. */
  lemma {:induction false} EntriesStay<K>(history: seq<Event<K>>, n: nat, cap: nat, solid: Solid<K>, i: nat)
    requires n <= |history| && i < |After(history[..n], cap, solid).entries|
    ensures i < |After(history, cap, solid).entries|
    ensures After(history, cap, solid).entries[i].key == After(history[..n], cap, solid).entries[i].key
    decreases |history|
  {
    if n == |history| {
      assert history[..n] == history;
    } else {
      var init := history[..|history| - 1];
      assert init[..n] == history[..n];
      EntriesStay(init, n, cap, solid, i);
    }
  }

  lemma {:induction false} NeverShrinks<K>(history: seq<Event<K>>, n: nat, cap: nat, solid: Solid<K>)
    requires n <= |history|
    ensures |After(history[..n], cap, solid).entries| <= |After(history, cap, solid).entries|
  {
    if n == |history| {
      assert history[..n] == history;
    } else {
      var init := history[..|history| - 1];
      assert init[..n] == history[..n];
      NeverShrinks(init, n, cap, solid);
    }
  }

  // ---------------------------------------------------------------- which keys the table holds

  /** The keys of a history in the order in which they first came; a key that does not compare equal to
      itself is new every time. */
  function Firsts<K(==)>(history: seq<Event<K>>, solid: Solid<K>): seq<K> {
    if history == [] then []
    else
      var firsts, key := Firsts(history[..|history| - 1], solid), history[|history| - 1].key;
      if solid(key) && key in firsts then firsts else firsts + [key]
  }

  function Keys<K>(entries: seq<Entry<K>>): (keys: seq<K>)
    ensures |keys| == |entries|
    ensures forall i :: 0 <= i < |keys| ==> keys[i] == entries[i].key
  {
    seq(|entries|, i requires 0 <= i < |entries| => entries[i].key)
  }

  function Take<K>(keys: seq<K>, cap: nat): seq<K> {
    if |keys| <= cap then keys else keys[..cap]
  }

  /** For every history, full table or not: the table holds the first `cap` distinct keys, in the order in
      which they first came. */
  lemma {:induction false} HoldsFirst<K>(history: seq<Event<K>>, cap: nat, solid: Solid<K>)
    ensures Keys(After(history, cap, solid).entries) == Take(Firsts(history, solid), cap)
  {
    if history == [] {
      assert Take(Firsts(history, solid), cap) == [];
    } else {
      var init, e := history[..|history| - 1], history[|history| - 1];
      HoldsFirst(init, cap, solid);
      RecordKeys(After(init, cap, solid), e, cap, solid, Firsts(init, solid));
    }
  }

  lemma {:induction false} RecordKeys<K>(t: Table<K>, e: Event<K>, cap: nat, solid: Solid<K>, firsts: seq<K>)
    requires Keys(t.entries) == Take(firsts, cap)
    ensures Keys(Record(t, e, cap, solid).entries) ==
      Take(if solid(e.key) && e.key in firsts then firsts else firsts + [e.key], cap)
  {
    var found, keys := Find(t.entries, e.key, solid), Keys(t.entries);
    if found < |t.entries| {
      assert keys[found] == e.key;
      assert Keys(Record(t, e, cap, solid).entries) == keys;
    } else {
      assert solid(e.key) ==> e.key !in keys;
      if |keys| < cap {
        assert Keys(Record(t, e, cap, solid).entries) == keys + [e.key];
      }
    }
  }

  /** The first keys are the keys that came. */
  lemma {:induction false} FirstsCame<K>(history: seq<Event<K>>, solid: Solid<K>, key: K)
    ensures key in Firsts(history, solid) <==> Hits(history, key) > 0
  {
    if history == [] {
    } else {
      FirstsCame(history[..|history| - 1], solid, key);
    }
  }

  /** A key without an entry met a full table every time it came. */
  lemma {:induction false} MissingMetFullTable<K>(history: seq<Event<K>>, n: nat, cap: nat, solid: Solid<K>)
    requires n < |history| && !Holds(After(history, cap, solid).entries, history[n].key)
    ensures |After(history[..n], cap, solid).entries| == cap
  {
    Conservation(history[..n], cap, solid);
    if |After(history[..n], cap, solid).entries| < cap {
      assert history[..n + 1][..n] == history[..n];
      HeldStays(After(history[..n], cap, solid), history[n], cap, solid, history[n].key);
      var entries := After(history[..n + 1], cap, solid).entries;
      var i :| 0 <= i < |entries| && entries[i].key == history[n].key;
      EntriesStay(history, n + 1, cap, solid, i);
    }
  }
}
