/** Completion-counter thresholds: the selection sort of the sixteen global thresholds and the
    per-queue adaptation that walks along the sorted order. */
module Threshold {

  const N := 16

  // ----- the sort -----

  /** Index the selection loop settles on: the smallest value not below `least`, skipping
      `skip`, and the last such index. */
  ghost predicate Best(th: seq<nat>, skip: int, least: nat, i: nat) {
    && i < |th| && i != skip && th[i] >= least
    && forall k :: 0 <= k < |th| && k != skip && th[k] >= least ==> th[i] < th[k] || (th[i] == th[k] && k <= i)
  }

  ghost predicate NoCandidate(th: seq<nat>, skip: int, least: nat) {
    forall k :: 0 <= k < |th| && k != skip ==> th[k] < least
  }

  /** One round of the goto loop. */
  method Select(th: seq<nat>, refIdx: int, leastMax: nat, idx0: nat, val0: nat) returns (idx: nat, val: nat)
    requires |th| == N
    ensures NoCandidate(th, refIdx, leastMax) ==> idx == idx0 && val == val0
    ensures !NoCandidate(th, refIdx, leastMax) ==> Best(th, refIdx, leastMax, idx) && val == th[idx]
  {
    idx, val := idx0, val0;
    var i := 0;
    while i < N
      invariant 0 <= i <= N && idx == idx0 && val == val0
      invariant forall k :: 0 <= k < i && k != refIdx ==> th[k] < leastMax
    {
      if !(refIdx >= 0 && refIdx == i) && th[i] >= leastMax {
        val, idx := th[i], i;
        break;
      }
      i := i + 1;
    }
    ghost var first := i;
    while i < N
      invariant first <= i <= N
      invariant first < N ==>
                  && first <= idx < N && (idx < i || idx == first)
                  && idx != refIdx && th[idx] >= leastMax && val == th[idx]
      invariant first == N ==> idx == idx0 && val == val0
      invariant forall k :: first <= k < i && k != refIdx && th[k] >= leastMax ==>
                th[idx] < th[k] || (th[idx] == th[k] && k <= idx)
    {
      if !(refIdx >= 0 && refIdx == i) && th[i] >= leastMax {
        if val >= th[i] {
          val, idx := th[i], i;
        }
      }
      i := i + 1;
    }
  }

  /** The order in which the loop picks: `s` the indices, `v` the least value admitted after
      each round. A round without a candidate falls back to its own number. */
  ghost predicate Picked(th: seq<nat>, s: seq<nat>, v: seq<nat>) {
    |s| == |v| && forall j :: 0 <= j < |s| ==> Round(th, s, v, j)
  }

  ghost predicate Round(th: seq<nat>, s: seq<nat>, v: seq<nat>, j: nat)
    requires j < |s| == |v|
  {
    var skip: int := if j == 0 then -1 else s[j - 1];
    var least := if j == 0 then 0 else v[j - 1];
    s[j] < N && if NoCandidate(th, skip, least) then s[j] == j && v[j] == least
                else Best(th, skip, least, s[j]) && v[j] == th[s[j]]
  }

  lemma RoundFrame(th: seq<nat>, s: seq<nat>, v: seq<nat>, s': seq<nat>, v': seq<nat>, j: nat)
    requires j < |s| == |v| && j < |s'| == |v'| && s[..j + 1] == s'[..j + 1] && v[..j + 1] == v'[..j + 1]
    requires Round(th, s, v, j)
    ensures Round(th, s', v', j)
  {
    assert s[j] == s[..j + 1][j] && s'[j] == s'[..j + 1][j] && v[j] == v[..j + 1][j] && v'[j] == v'[..j + 1][j];
    if j > 0 {
      assert s[j - 1] == s[..j + 1][j - 1] && s'[j - 1] == s'[..j + 1][j - 1];
      assert v[j - 1] == v[..j + 1][j - 1] && v'[j - 1] == v'[..j + 1][j - 1];
    }
  }

  /** `qdma_sort_c2h_cntr_th_values`, for thresholds that fit its 8-bit variables. */
  method SortCntrTh(th: seq<nat>) returns (sorted: array<nat>, ghost v: seq<nat>)
    requires |th| == N && forall i :: 0 <= i < N ==> th[i] < 256
    ensures fresh(sorted) && sorted.Length == N && Picked(th, sorted[..], v)
  {
    hide Best, NoCandidate;
    sorted := new nat[N](_ => 0);
    v := [];
    var idx, j, cntrVal, leastMax, refIdx: int := 0, 0, th[0], 0, -1;
    FirstRound(th);
    while j < N
      invariant 0 <= j <= N && idx == j == |v|
      invariant j == 0 ==> refIdx == -1 && leastMax == 0
      invariant j > 0 ==> refIdx == sorted[j - 1] && leastMax == cntrVal == v[j - 1]
      invariant Picked(th, sorted[..j], v)
    {
      ghost var s, w := sorted[..j], v;
      idx, cntrVal := Select(th, refIdx, leastMax, idx, cntrVal);
      BestInRange(th, refIdx, leastMax, idx);
      sorted[j] := idx;
      v := v + [cntrVal];
      refIdx := idx;
      j := j + 1;
      idx := j;
      leastMax := cntrVal;
      assert sorted[..j] == s + [sorted[j - 1]];
      forall k | 0 <= k < j ensures Round(th, sorted[..j], v, k) {
        if k < j - 1 { RoundFrame(th, s, w, sorted[..j], v, k); }
      }
    }
    assert sorted[..j] == sorted[..];
  }

  lemma FirstRound(th: seq<nat>)
    requires |th| == N
    ensures !NoCandidate(th, -1, 0)
  {
    assert th[0] >= 0;
  }

  lemma BestInRange(th: seq<nat>, skip: int, least: nat, i: nat)
    requires |th| == N
    ensures Best(th, skip, least, i) ==> i < N
  {
  }

  // ----- when the picks sort the thresholds -----

  /** An ascending order of all sixteen indices. */
  ghost predicate Sorts(th: seq<nat>, s: seq<nat>) {
    && |th| == |s| == N && (forall j :: 0 <= j < N ==> s[j] < N)
    && (forall j, k :: 0 <= j < k < N ==> s[j] != s[k] && th[s[j]] <= th[s[k]])
  }

  /** No value repeats, except that the largest may occur twice. */
  ghost predicate AlmostDistinct(th: seq<nat>) {
    forall a, b, k :: 0 <= a < b < |th| && 0 <= k < |th| && th[a] == th[b] ==> k == a || k == b || th[k] < th[a]
  }

  function Below(n: nat): set<nat> {
    if n == 0 then {} else Below(n - 1) + {n - 1}
  }

  lemma {:induction false} BelowIs(n: nat)
    ensures forall x: nat :: x in Below(n) <==> x < n
  {
    if n > 0 { BelowIs(n - 1); }
  }

  lemma {:induction false} BelowSize(n: nat)
    ensures |Below(n)| == n
  {
    if n > 0 {
      BelowSize(n - 1);
      BelowIs(n - 1);
    }
  }

  function Elems(s: seq<nat>): set<nat> {
    if s == [] then {} else Elems(s[..|s| - 1]) + {s[|s| - 1]}
  }

  lemma {:induction false} ElemsAre(s: seq<nat>)
    ensures forall x :: x in Elems(s) <==> x in s
  {
    if s != [] {
      ElemsAre(s[..|s| - 1]);
      assert s == s[..|s| - 1] + [s[|s| - 1]];
    }
  }

  lemma {:induction false} ElemsSize(s: seq<nat>)
    ensures |Elems(s)| <= |s|
  {
    if s != [] { ElemsSize(s[..|s| - 1]); }
  }

  lemma {:induction false} ElemsDistinct(s: seq<nat>)
    requires forall j, k :: 0 <= j < k < |s| ==> s[j] != s[k]
    ensures |Elems(s)| == |s|
  {
    if s != [] {
      var t, x := s[..|s| - 1], s[|s| - 1];
      ElemsDistinct(t);
      ElemsAre(t);
      hide Elems;
      ElemsMore(s);
      assert x !in Elems(t);
    }
  }

  lemma ElemsMore(s: seq<nat>)
    requires s != []
    ensures Elems(s) == Elems(s[..|s| - 1]) + {s[|s| - 1]}
  {
  }

  /** Fewer than sixteen picks leave an index over. */
  lemma Unpicked(s: seq<nat>) returns (i: nat)
    requires |s| < N
    ensures i < N && i !in s
  {
    hide Elems, Below;
    BelowIs(N);
    BelowSize(N);
    ElemsAre(s);
    ElemsSize(s);
    if forall x :: x in Below(N) ==> x in Elems(s) {
      SubsetSize(Below(N), Elems(s));
    }
    i :| i in Below(N) && i !in Elems(s);
  }

  lemma {:induction false} SubsetSize(a: set<nat>, b: set<nat>)
    requires forall x :: x in a ==> x in b
    ensures |a| <= |b| && (|a| == |b| ==> a == b)
  {
    if a == {} {
    } else {
      var x :| x in a;
      SubsetSize(a - {x}, b - {x});
    }
  }

  /** Sixteen different picks are all indices. */
  lemma AllPicked(s: seq<nat>, i: nat) returns (p: nat)
    requires |s| == N && i < N && (forall j :: 0 <= j < N ==> s[j] < N)
    requires forall j, k :: 0 <= j < k < N ==> s[j] != s[k]
    ensures p < N && s[p] == i
  {
    hide Elems, Below;
    BelowIs(N);
    BelowSize(N);
    ElemsAre(s);
    ElemsDistinct(s);
    SubsetSize(Elems(s), Below(N));
    assert i in Elems(s);
    p :| 0 <= p < N && s[p] == i;
  }

  /** The first `j` picks ascend, and everything not picked yet is at or above the last one. */
  ghost predicate Ascending(th: seq<nat>, s: seq<nat>, v: seq<nat>, j: nat)
    requires 0 < j <= |s| == |v| && |th| == N && forall j :: 0 <= j < |s| ==> s[j] < N
  {
    && v[j - 1] == th[s[j - 1]]
    && (forall k, l :: 0 <= k < l < j ==> s[k] != s[l] && th[s[k]] <= th[s[l]])
    && (forall i :: 0 <= i < N ==> i in s[..j] || th[i] >= th[s[j - 1]])
  }

  /** While an index is left over, the picks so far have different values. */
  lemma StrictSoFar(th: seq<nat>, s: seq<nat>, v: seq<nat>, j: nat, m: nat)
    requires |th| == |s| == |v| == N && 0 < j < N && AlmostDistinct(th) && m < j - 1
    requires (forall k :: 0 <= k < N ==> s[k] < N) && Ascending(th, s, v, j)
    ensures th[s[m]] < th[s[j - 1]]
  {
    var i := Unpicked(s[..j]);
    assert s[m] in s[..j] && s[j - 1] in s[..j];
    assert th[i] >= th[s[j - 1]];
  }

  lemma {:induction false} PicksAscend(th: seq<nat>, s: seq<nat>, v: seq<nat>, j: nat)
    requires |th| == |s| == N && 0 < j <= N && Picked(th, s, v) && AlmostDistinct(th)
    ensures forall k :: 0 <= k < N ==> s[k] < N
    ensures Ascending(th, s, v, j)
  {
    forall k | 0 <= k < N ensures s[k] < N { assert Round(th, s, v, k); }
    assert Round(th, s, v, j - 1);
    if j == 1 {
      FirstRound(th);
    } else {
      PicksAscend(th, s, v, j - 1);
      NextPick(th, s, v, j);
    }
  }

  /** The next pick is new, and no value left over is below it. */
  lemma NextIsBest(th: seq<nat>, s: seq<nat>, v: seq<nat>, j: nat)
    requires |th| == |s| == |v| == N && 1 < j <= N && AlmostDistinct(th)
    requires (forall k :: 0 <= k < N ==> s[k] < N) && Ascending(th, s, v, j - 1) && Round(th, s, v, j - 1)
    ensures Best(th, s[j - 2], th[s[j - 2]], s[j - 1]) && v[j - 1] == th[s[j - 1]] && th[s[j - 2]] <= th[s[j - 1]]
  {
    var q := s[j - 2];
    var i := Unpicked(s[..j - 1]);
    assert q in s[..j - 1];
    assert i != q && th[i] >= th[q];
  }

  /** It differs from every earlier pick and is not below it. */
  lemma NextAbove(th: seq<nat>, s: seq<nat>, v: seq<nat>, j: nat, m: nat)
    requires |th| == |s| == |v| == N && 1 < j <= N && AlmostDistinct(th) && m < j - 1
    requires (forall k :: 0 <= k < N ==> s[k] < N) && Ascending(th, s, v, j - 1)
    requires Best(th, s[j - 2], th[s[j - 2]], s[j - 1])
    ensures s[m] != s[j - 1] && th[s[m]] <= th[s[j - 1]]
  {
    hide AlmostDistinct, Best, Ascending;
    BestIs(th, s[j - 2], th[s[j - 2]], s[j - 1]);
    if m < j - 2 { StrictSoFar(th, s, v, j - 1, m); }
  }

  /** No index left over has a smaller value. */
  lemma NextLeast(th: seq<nat>, s: seq<nat>, v: seq<nat>, j: nat, x: nat)
    requires |th| == |s| == |v| == N && 1 < j <= N && x < N
    requires (forall k :: 0 <= k < N ==> s[k] < N) && Ascending(th, s, v, j - 1)
    requires Best(th, s[j - 2], th[s[j - 2]], s[j - 1])
    ensures x in s[..j] || th[x] >= th[s[j - 1]]
  {
    hide Best;
    BestOf(th, s[j - 2], th[s[j - 2]], s[j - 1], x);
    InPrefix(s, j, x);
  }

  lemma NextPick(th: seq<nat>, s: seq<nat>, v: seq<nat>, j: nat)
    requires |th| == |s| == |v| == N && 1 < j <= N && AlmostDistinct(th)
    requires (forall k :: 0 <= k < N ==> s[k] < N) && Ascending(th, s, v, j - 1) && Round(th, s, v, j - 1)
    ensures Ascending(th, s, v, j)
  {
    hide Round, AlmostDistinct, Best;
    NextIsBest(th, s, v, j);
    forall m | 0 <= m < j - 1 ensures s[m] != s[j - 1] && th[s[m]] <= th[s[j - 1]] { NextAbove(th, s, v, j, m); }
    forall x | 0 <= x < N ensures x in s[..j] || th[x] >= th[s[j - 1]] { NextLeast(th, s, v, j, x); }
  }

  lemma BestIs(th: seq<nat>, skip: int, least: nat, i: nat)
    requires Best(th, skip, least, i)
    ensures i < |th| && i != skip && th[i] >= least
  {
  }

  lemma BestOf(th: seq<nat>, skip: int, least: nat, i: nat, k: nat)
    requires Best(th, skip, least, i) && k < |th|
    ensures i < |th| && (k == skip || th[k] < least || th[i] <= th[k])
  {
  }

  lemma InPrefix(s: seq<nat>, j: nat, x: nat)
    requires 1 < j <= |s|
    ensures x in s[..j] <==> x in s[..j - 1] || x == s[j - 1]
    ensures s[j - 2] in s[..j]
  {
    assert s[..j] == s[..j - 1] + [s[j - 1]];
    assert s[j - 2] == s[..j][j - 2];
  }

  // The other direction: an ascending order that the loop really picked.

  /** In a picked ascending order every round had a candidate. */
  lemma {:induction false} SortedRounds(th: seq<nat>, s: seq<nat>, v: seq<nat>, j: nat)
    requires Sorts(th, s) && Picked(th, s, v) && j < N
    ensures v[j] == th[s[j]]
    ensures Best(th, if j == 0 then -1 else s[j - 1], if j == 0 then 0 else th[s[j - 1]], s[j])
  {
    assert Round(th, s, v, j);
    if j == 0 {
      FirstRound(th);
    } else {
      SortedRounds(th, s, v, j - 1);
      assert s[j - 1] != s[j];
      assert th[s[j]] >= th[s[j - 1]];
    }
  }

  /** A value picked twice in a row is picked a third time from the first of the two places,
      so there is no third place. */
  lemma NoThirdPlace(th: seq<nat>, s: seq<nat>, v: seq<nat>, p: nat)
    requires Sorts(th, s) && Picked(th, s, v) && p + 1 < N && th[s[p]] == th[s[p + 1]]
    requires p > 0 ==> th[s[p - 1]] < th[s[p]]
    ensures p + 2 == N
  {
    if p + 2 < N {
      SortedRounds(th, s, v, p);
      SortedRounds(th, s, v, p + 2);
    }
  }

  /** First place of a value in an ascending order. */
  lemma {:induction false} FirstPlace(th: seq<nat>, s: seq<nat>, q: nat) returns (p: nat)
    requires Sorts(th, s) && q < N
    ensures p <= q && th[s[p]] == th[s[q]] && (p > 0 ==> th[s[p - 1]] < th[s[p]])
  {
    if q > 0 && th[s[q - 1]] == th[s[q]] {
      p := FirstPlace(th, s, q - 1);
    } else {
      p := q;
      assert q > 0 ==> th[s[q - 1]] <= th[s[q]];
    }
  }

  /** Equal values can only stand at the last two places. */
  lemma EqualPlaces(th: seq<nat>, s: seq<nat>, v: seq<nat>, x: nat, y: nat)
    requires Sorts(th, s) && Picked(th, s, v) && x < y < N && th[s[x]] == th[s[y]]
    ensures x == N - 2 && y == N - 1 && forall z :: 0 <= z < x ==> th[s[z]] < th[s[x]]
  {
    var p := FirstPlace(th, s, x);
    assert th[s[p]] <= th[s[p + 1]] <= th[s[y]];
    NoThirdPlace(th, s, v, p);
    forall z | 0 <= z < p ensures th[s[z]] < th[s[p]] {
      assert th[s[z]] <= th[s[p - 1]];
    }
  }

  lemma SortedIsAlmostDistinct(th: seq<nat>, s: seq<nat>, v: seq<nat>)
    requires Sorts(th, s) && Picked(th, s, v)
    ensures AlmostDistinct(th)
  {
    forall a, b, k | 0 <= a < b < |th| && 0 <= k < |th| && th[a] == th[b]
      ensures k == a || k == b || th[k] < th[a]
    {
      var pa := AllPicked(s, a);
      var pb := AllPicked(s, b);
      var pk := AllPicked(s, k);
      if pa < pb { EqualPlaces(th, s, v, pa, pb); } else { EqualPlaces(th, s, v, pb, pa); }
    }
  }

  /** The loop sorts if and only if no threshold repeats, apart from the largest occurring
      twice; pairwise distinct thresholds are a special case. */
  lemma SortsIff(th: seq<nat>, s: seq<nat>, v: seq<nat>)
    requires |th| == |s| == N && Picked(th, s, v)
    ensures Sorts(th, s) <==> AlmostDistinct(th)
  {
    if AlmostDistinct(th) {
      PicksAscend(th, s, v, N);
    }
    if Sorts(th, s) {
      SortedIsAlmostDistinct(th, s, v);
    }
  }
}
