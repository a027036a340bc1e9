/** The bounded insertion loop behind every `FindTop...Indices` function
    (src/common/PerfTrace.cpp:524-591 and 666-784). */
module TopK {
  const NONE: int := -1

  /** An entry takes part when its slot is in use and its value is positive. */
  predicate Eligible(values: seq<int>, live: seq<bool>, i: int)
    requires |values| == |live|
  {
    0 <= i < |values| && live[i] && values[i] > 0
  }

  /** Larger values come first, equal values in the order of their index. */
  predicate Before(values: seq<int>, i: int, j: int)
    requires 0 <= i < |values| && 0 <= j < |values|
  {
    values[i] > values[j] || (values[i] == values[j] && i < j)
  }

  // ---------------------------------------------------------------- the stable descending order

  predicate Indices(values: seq<int>, r: seq<int>) {
    forall k :: 0 <= k < |r| ==> 0 <= r[k] < |values|
  }

  /** Where `x` goes in the ranking: before the first entry with a smaller value. */
  function Position(values: seq<int>, ranking: seq<int>, x: int): (p: nat)
    requires 0 <= x < |values| && Indices(values, ranking)
    ensures p <= |ranking|
    ensures forall k :: 0 <= k < p ==> values[ranking[k]] >= values[x]
    ensures p < |ranking| ==> values[ranking[p]] < values[x]
  {
    if ranking == [] || values[x] > values[ranking[0]] then 0
    else 1 + Position(values, ranking[1..], x)
  }

  /** The eligible entries among the first n, ranked. */
  function Ranking(values: seq<int>, live: seq<bool>, n: nat): (r: seq<int>)
    requires n <= |values| == |live|
    ensures Indices(values, r)
  {
    if n == 0 then []
    else
      var r := Ranking(values, live, n - 1);
      if Eligible(values, live, n - 1) then
        Inserted(r, n - 1, Position(values, r, n - 1))
      else r
  }

  function Inserted(r: seq<int>, x: int, p: nat): (s: seq<int>)
    requires p <= |r|
    ensures |s| == |r| + 1
    ensures forall k :: 0 <= k < |s| ==> s[k] == if k < p then r[k] else if k == p then x else r[k - 1]
  {
    r[..p] + [x] + r[p..]
  }

  /** The first K entries, padded with -1. */
  function Padded(ranking: seq<int>, k: nat): (top: seq<int>)
    ensures |top| == k
  {
    seq(k, s => if 0 <= s < |ranking| then ranking[s] else NONE)
  }

  ghost predicate Ordered(values: seq<int>, r: seq<int>) {
    && Indices(values, r)
    && (forall j, k :: 0 <= j < k < |r| ==> Before(values, r[j], r[k]))
  }

  /** The ranking holds exactly the eligible entries, in strictly descending order. */
  lemma {:induction false} RankingSorted(values: seq<int>, live: seq<bool>, n: nat)
    requires n <= |values| == |live|
    ensures forall i :: i in Ranking(values, live, n) <==> 0 <= i < n && live[i] && values[i] > 0
    ensures var r := Ranking(values, live, n);
      forall j, k :: 0 <= j < k < |r| ==>
        values[r[j]] > values[r[k]] || (values[r[j]] == values[r[k]] && r[j] < r[k])
  {
    RankingMembers(values, live, n);
    RankingOrdered(values, live, n);
    var r := Ranking(values, live, n);
    assert forall j, k :: 0 <= j < k < |r| ==> Before(values, r[j], r[k]);
  }

  lemma {:induction false} RankingMembers(values: seq<int>, live: seq<bool>, n: nat)
    requires n <= |values| == |live|
    ensures forall i :: i in Ranking(values, live, n) <==> i < n && Eligible(values, live, i)
  {
    if n == 0 {
    } else {
      RankingMembers(values, live, n - 1);
      var r := Ranking(values, live, n - 1);
      if Eligible(values, live, n - 1) {
        InsertMembers(r, n - 1, Position(values, r, n - 1));
      }
    }
  }

  lemma {:induction false} RankingOrdered(values: seq<int>, live: seq<bool>, n: nat)
    requires n <= |values| == |live|
    ensures Ordered(values, Ranking(values, live, n))
  {
    if n == 0 {
    } else {
      RankingOrdered(values, live, n - 1);
      RankingMembers(values, live, n - 1);
      var r := Ranking(values, live, n - 1);
      if Eligible(values, live, n - 1) {
        assert forall k :: 0 <= k < |r| ==> r[k] in r;
        InsertOrdered(values, r, n - 1, Position(values, r, n - 1));
      }
    }
  }

  lemma {:induction false} InsertMembers(r: seq<int>, x: int, p: nat)
    requires p <= |r|
    ensures forall i :: i in Inserted(r, x, p) <==> i == x || i in r
  {
    assert r == r[..p] + r[p..];
  }

  lemma {:induction false} InsertOrdered(values: seq<int>, r: seq<int>, x: int, p: nat)
    requires Ordered(values, r) && 0 <= x < |values| && p <= |r| && forall k :: 0 <= k < |r| ==> r[k] < x
    requires forall k :: 0 <= k < p ==> values[r[k]] >= values[x]
    requires p < |r| ==> values[r[p]] < values[x]
    ensures Ordered(values, Inserted(r, x, p))
  {
    forall k | p <= k < |r|
      ensures values[r[k]] < values[x]
    {
      assert k == p || Before(values, r[p], r[k]);
    }
  }

  // ---------------------------------------------------------------- what the result means

  predicate Beats(values: seq<int>, entry: int, i: int)
    requires 0 <= i < |values|
  {
    0 <= entry < |values| && Before(values, entry, i)
  }

  /** The K best: entries in use with positive values, larger values first and equal ones by index, then -1 only when
      every such entry is listed; any such entry left out comes after all K that are listed. */
  ghost predicate IsTop(values: seq<int>, live: seq<bool>, top: seq<int>)
    requires |values| == |live|
  {
    && (forall s :: 0 <= s < |top| ==> top[s] == -1 || (0 <= top[s] < |values| && live[top[s]] && values[top[s]] > 0))
    && (forall s, u :: 0 <= s < u < |top| && top[u] != -1 ==>
          && top[s] != -1
          && (values[top[s]] > values[top[u]] || (values[top[s]] == values[top[u]] && top[s] < top[u])))
    && (forall i, s :: 0 <= i < |values| && live[i] && values[i] > 0 && i !in top && 0 <= s < |top| ==>
          && top[s] != -1
          && (values[top[s]] > values[i] || (values[top[s]] == values[i] && top[s] < i)))
  }

  /** The same through the notions of the code. */
  lemma {:induction false} TopInTerms(values: seq<int>, live: seq<bool>, top: seq<int>)
    requires |values| == |live|
    ensures IsTop(values, live, top) <==> IsTopInTerms(values, live, top)
  {
  }

  ghost predicate IsTopInTerms(values: seq<int>, live: seq<bool>, top: seq<int>)
    requires |values| == |live|
  {
    && (forall s :: 0 <= s < |top| ==> top[s] == NONE || Eligible(values, live, top[s]))
    && (forall s, u :: 0 <= s < u < |top| && top[u] != NONE ==> top[s] != NONE && Before(values, top[s], top[u]))
    && (forall i, s :: Eligible(values, live, i) && i !in top && 0 <= s < |top| ==> Beats(values, top[s], i))
  }

  lemma {:induction false} PaddedIsTop(values: seq<int>, live: seq<bool>, k: nat)
    requires |values| == |live|
    ensures IsTop(values, live, Padded(Ranking(values, live, |values|), k))
  {
    PaddedInTerms(values, live, k);
    TopInTerms(values, live, Padded(Ranking(values, live, |values|), k));
  }

  lemma {:induction false} PaddedInTerms(values: seq<int>, live: seq<bool>, k: nat)
    requires |values| == |live|
    ensures IsTopInTerms(values, live, Padded(Ranking(values, live, |values|), k))
  {
    var r := Ranking(values, live, |values|);
    RankingMembers(values, live, |values|);
    RankingOrdered(values, live, |values|);
    assert forall m :: 0 <= m < |r| ==> r[m] in r;
    PaddedMissing(values, live, r, k);
  }

  lemma {:induction false} PaddedMissing(values: seq<int>, live: seq<bool>, r: seq<int>, k: nat)
    requires |values| == |live| && Ordered(values, r) && forall i :: Eligible(values, live, i) ==> i in r
    ensures var top := Padded(r, k);
      forall i, s :: Eligible(values, live, i) && i !in top && 0 <= s < k ==> Beats(values, top[s], i)
  {
    var top := Padded(r, k);
    assert forall m :: 0 <= m < |r| && m < k ==> top[m] == r[m] && top[m] in top;
    forall i, s | Eligible(values, live, i) && i !in top && 0 <= s < k
      ensures Beats(values, top[s], i)
    {
      var m :| 0 <= m < |r| && r[m] == i;
    }
  }

  lemma {:induction false} PrefixAt(a: seq<int>, b: seq<int>, s: nat)
    requires s <= |a| == |b| && a[..s] == b[..s]
    ensures forall m :: 0 <= m < s ==> a[m] == b[m]
  {
    forall m | 0 <= m < s
      ensures a[m] == b[m]
    {
      assert a[m] == a[..s][m] == b[..s][m];
    }
  }

  /** That meaning leaves only one result. */
  lemma {:induction false} TopUnique(values: seq<int>, live: seq<bool>, a: seq<int>, b: seq<int>, s: nat)
    requires |values| == |live| && |a| == |b| && s < |a|
    requires IsTop(values, live, a) && IsTop(values, live, b) && a[..s] == b[..s]
    ensures a[s] == b[s]
  {
    PrefixAt(a, b, s);
  }

  /** The K best exactly: any list that means the same is the padded ranking. */
  lemma {:induction false} TopExactly(values: seq<int>, live: seq<bool>, top: seq<int>)
    requires |values| == |live|
    ensures IsTop(values, live, top) <==> top == Padded(Ranking(values, live, |values|), |top|)
  {
    var best := Padded(Ranking(values, live, |values|), |top|);
    PaddedIsTop(values, live, |top|);
    if IsTop(values, live, top) {
      SamePrefix(values, live, top, best, |top|);
      assert top[..|top|] == top && best[..|top|] == best;
    }
  }

  lemma {:induction false} SamePrefix(values: seq<int>, live: seq<bool>, a: seq<int>, b: seq<int>, s: nat)
    requires |values| == |live| && |a| == |b| && s <= |a| && IsTop(values, live, a) && IsTop(values, live, b)
    ensures a[..s] == b[..s]
  {
    if s == 0 {
    } else {
      SamePrefix(values, live, a, b, s - 1);
      TopUnique(values, live, a, b, s - 1);
      assert a[..s] == a[..s - 1] + [a[s - 1]] && b[..s] == b[..s - 1] + [b[s - 1]];
    }
  }

  // ---------------------------------------------------------------- the code

  /** Inserting into the ranking shifts the padded list from there on and drops its last entry. */
  lemma {:induction false} PaddedInserted(r: seq<int>, x: int, p: nat, k: nat)
    requires p <= |r|
    ensures Padded(Inserted(r, x, p), k) ==
      if p < k then Padded(r, k)[..p] + [x] + Padded(r, k)[p..k - 1] else Padded(r, k)
  {
  }

  /** Makes room at `slot` by moving the later entries back, dropping the last, and stores `idx` there. */
  method InsertAt(topIdx: array<int>, slot: nat, idx: int)
    requires slot < topIdx.Length
    modifies topIdx
    ensures topIdx[..] == old(topIdx[..slot]) + [idx] + old(topIdx[slot..topIdx.Length - 1])
  {
    ghost var top := topIdx[..];
    var move := topIdx.Length - 1;
    while move > slot
      invariant slot <= move < topIdx.Length
      invariant forall s :: 0 <= s <= move ==> topIdx[s] == top[s]
      invariant forall s :: move < s < topIdx.Length ==> topIdx[s] == top[s - 1]
    {
      topIdx[move] := topIdx[move - 1];
      move := move - 1;
    }
    topIdx[slot] := idx;
  }

  /** Fills `topIdx` in place with the indices of the largest positive values. */
  method FindTopIndices(values: seq<int>, live: seq<bool>, topIdx: array<int>)
    requires |values| == |live|
    modifies topIdx
    ensures topIdx[..] == Padded(Ranking(values, live, |values|), topIdx.Length)
    ensures IsTop(values, live, topIdx[..])
  {
    PaddedIsTop(values, live, topIdx.Length);
    for i := 0 to topIdx.Length
      invariant forall s :: 0 <= s < i ==> topIdx[s] == NONE
    {
      topIdx[i] := NONE;
    }
    for idx := 0 to |values|
      invariant topIdx[..] == Padded(Ranking(values, live, idx), topIdx.Length)
    {
      if !live[idx] || values[idx] <= 0 {
        continue;
      }
      ghost var ranking, top := Ranking(values, live, idx), topIdx[..];
      ghost var p := Position(values, ranking, idx);
      assert Ranking(values, live, idx + 1) == Inserted(ranking, idx, p);
      PaddedInserted(ranking, idx, p, topIdx.Length);
      for slot := 0 to topIdx.Length
        invariant topIdx[..] == top && slot <= p
      {
        SlotSearch(values, ranking, idx, topIdx.Length, slot);
        assert topIdx[slot] == top[slot];
        if topIdx[slot] < 0 || values[idx] > values[topIdx[slot]] {
          InsertAt(topIdx, slot, idx);
          break;
        }
      }
    }
  }

  /** The test of the slot loop stops at the position where the entry belongs, and not before. */
  lemma {:induction false} SlotSearch(values: seq<int>, r: seq<int>, x: int, k: nat, slot: nat)
    requires 0 <= x < |values| && Indices(values, r) && slot < k && slot <= Position(values, r, x)
    ensures var e := Padded(r, k)[slot];
      && (e < 0 || e < |values|)
      && ((e < 0 || values[x] > values[e]) <==> slot == Position(values, r, x))
  {
  }
}
