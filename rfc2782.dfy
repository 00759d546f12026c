/**
 * The priority/weight ordering of RFC 2782 (`Rfc2782Resolver.sort_rfc2782`):
 * answers are grouped by priority, groups are emitted in ascending priority, and
 * inside a group of several answers the order is a weighted random draw without
 * replacement over the answers sorted by weight.
 */
module Rfc2782 {
  import opened Records

  // ---------------------------------------------------------------- weights

  /** `sum(ent.weight for ent in entries)`. */
  function Sum(s: seq<SrvRecord>): nat
  {
    if s == [] then 0 else s[0].weight + Sum(s[1..])
  }

  /** The total weight is zero exactly when every weight is zero. */
  lemma {:induction false} SumZero(s: seq<SrvRecord>)
    ensures Sum(s) == 0 <==> forall e :: e in s ==> e.weight == 0
    decreases |s|
  {
    if s != [] {
      SumZero(s[1..]);
      assert forall e :: e in s <==> e == s[0] || e in s[1..];
    }
  }

  lemma {:induction false} SumConcat(a: seq<SrvRecord>, b: seq<SrvRecord>)
    ensures Sum(a + b) == Sum(a) + Sum(b)
    decreases |a|
  {
    if a == [] {
      assert a + b == b;
    } else {
      assert (a + b)[1..] == a[1..] + b;
      SumConcat(a[1..], b);
    }
  }

  /** The cumulative weight of the first `n` entries (`csum` after `n` steps of the inner loop). */
  function CumWeight(s: seq<SrvRecord>, n: nat): nat
    requires n <= |s|
  {
    if n == 0 then 0 else CumWeight(s, n - 1) + s[n - 1].weight
  }

  /** Cumulative weights never decrease along the list. */
  lemma {:induction false} CumWeightMonotone(s: seq<SrvRecord>, m: nat, n: nat)
    requires m <= n <= |s|
    ensures CumWeight(s, m) <= CumWeight(s, n)
    decreases n - m
  {
    if m < n {
      CumWeightMonotone(s, m, n - 1);
    }
  }

  /** The cumulative weights of a list, seen from its tail. */
  lemma {:induction false} CumWeightShift(s: seq<SrvRecord>, n: nat)
    requires 0 < n <= |s|
    ensures CumWeight(s, n) == s[0].weight + CumWeight(s[1..], n - 1)
    decreases n
  {
    if n > 1 {
      CumWeightShift(s, n - 1);
    }
  }

  /** Over the whole list the cumulative weight is the total weight. */
  lemma {:induction false} CumWeightAll(s: seq<SrvRecord>)
    ensures CumWeight(s, |s|) == Sum(s)
    decreases |s|
  {
    if s != [] {
      CumWeightShift(s, |s|);
      CumWeightAll(s[1..]);
    }
  }

  /** `del entries[i]`. */
  function Without(s: seq<SrvRecord>, i: nat): (r: seq<SrvRecord>)
    requires i < |s|
    ensures |r| == |s| - 1
    ensures multiset(r) + multiset{s[i]} == multiset(s)
    ensures Sum(r) == Sum(s) - s[i].weight
  {
    assert s == s[..i] + [s[i]] + s[i + 1..];
    SumConcat(s[..i] + [s[i]], s[i + 1..]);
    SumConcat(s[..i], [s[i]]);
    SumConcat(s[..i], s[i + 1..]);
    s[..i] + s[i + 1..]
  }

  // ---------------------------------------------------------------- one draw

  /** Index `i` is the first whose cumulative weight reaches the draw `r`. */
  ghost predicate IsFirstReaching(entries: seq<SrvRecord>, r: int, i: nat)
  {
    i < |entries| && CumWeight(entries, i + 1) >= r &&
    forall n :: 0 < n <= i ==> CumWeight(entries, n) < r
  }

  /**
   * The entry a draw `r` selects: the first whose cumulative weight reaches `r`,
   * or the last one when none does (the `for` loop then ends without `break`).
   */
  function FirstReaching(entries: seq<SrvRecord>, r: int): (i: nat)
    requires entries != []
    ensures i < |entries|
    decreases |entries|
  {
    if |entries| == 1 || entries[0].weight >= r then 0
    else 1 + FirstReaching(entries[1..], r - entries[0].weight)
  }

  /** For every draw of `randint(0, total_weight)` the selected index is in bounds and is the first reaching the draw. */
  lemma {:induction false} FirstReachingSpec(entries: seq<SrvRecord>, r: int)
    requires entries != []
    requires 0 <= r <= Sum(entries)
    ensures IsFirstReaching(entries, r, FirstReaching(entries, r))
    decreases |entries|
  {
    var i := FirstReaching(entries, r);
    if |entries| == 1 || entries[0].weight >= r {
      if |entries| == 1 {
        CumWeightAll(entries);
      }
    } else {
      var rest := entries[1..];
      var r' := r - entries[0].weight;
      var j := FirstReaching(rest, r');
      assert i == j + 1;
      assert Sum(entries) == entries[0].weight + Sum(rest);
      FirstReachingSpec(rest, r');
      CumWeightShift(entries, i + 1);
      forall n | 0 < n <= i ensures CumWeight(entries, n) < r {
        CumWeightShift(entries, n);
        if n > 1 {
          assert CumWeight(rest, n - 1) < r';
        }
      }
    }
  }

  /** Two indices that both reach a draw first are the same index. */
  lemma FirstReachingUnique(entries: seq<SrvRecord>, r: int, i: nat, j: nat)
    requires IsFirstReaching(entries, r, i) && IsFirstReaching(entries, r, j)
    ensures i == j
  {
  }

  /**
   * An index can be drawn exactly when it is the first one or its weight is
   * positive: a zero-weight entry is only ever selected when it is first.
   */
  lemma DrawableIff(entries: seq<SrvRecord>, j: nat)
    requires j < |entries|
    ensures (exists r :: 0 <= r <= Sum(entries) && IsFirstReaching(entries, r, j)) <==>
      (j == 0 || entries[j].weight > 0)
  {
    CumWeightAll(entries);
    if j == 0 || entries[j].weight > 0 {
      var r := CumWeight(entries, j + 1);
      CumWeightMonotone(entries, j + 1, |entries|);
      forall n | 0 < n <= j ensures CumWeight(entries, n) < r {
        CumWeightMonotone(entries, n, j);
      }
      assert IsFirstReaching(entries, r, j);
    }
  }

  /** The inner `for i, ent in enumerate(entries)` loop, accumulating `csum` until it reaches `r`. */
  method PickIndex(entries: seq<SrvRecord>, r: int) returns (i: nat)
    requires entries != []
    ensures i == FirstReaching(entries, r)
    ensures i < |entries|
    ensures 0 <= r <= Sum(entries) ==> IsFirstReaching(entries, r, i)
  {
    i := 0;
    var csum := entries[0].weight;
    while csum < r && i + 1 < |entries|
      invariant 0 <= i < |entries|
      invariant csum == CumWeight(entries, i + 1)
      invariant FirstReaching(entries, r) == i + FirstReaching(entries[i..], r - CumWeight(entries, i))
    {
      assert entries[i..][1..] == entries[i + 1..];
      i := i + 1;
      csum := csum + entries[i].weight;
    }
    if 0 <= r <= Sum(entries) {
      FirstReachingSpec(entries, r);
    }
  }

  // ---------------------------------------------------------------- one tier

  /** The draws loop as a function of the draws made: the entries still left after the draws `draws`. */
  function Left(entries: seq<SrvRecord>, draws: seq<int>): (r: seq<SrvRecord>)
    requires |draws| <= |entries|
    ensures |r| == |entries| - |draws|
    decreases |draws|
  {
    if draws == [] then entries
    else
      var left := Left(entries, draws[..|draws| - 1]);
      Without(left, FirstReaching(left, draws[|draws| - 1]))
  }

  /** The entries emitted by the draws `draws`, in the order they were drawn. */
  function Drawn(entries: seq<SrvRecord>, draws: seq<int>): (r: seq<SrvRecord>)
    requires |draws| <= |entries|
    ensures |r| == |draws|
    ensures multiset(r) + multiset(Left(entries, draws)) == multiset(entries)
    decreases |draws|
  {
    if draws == [] then []
    else
      var left := Left(entries, draws[..|draws| - 1]);
      Drawn(entries, draws[..|draws| - 1]) + [left[FirstReaching(left, draws[|draws| - 1])]]
  }

  /** Every draw lies in `[0, total_weight]` of the entries left at that point. */
  ghost predicate ValidDraws(entries: seq<SrvRecord>, draws: seq<int>)
    requires |draws| <= |entries|
    decreases |draws|
  {
    draws == [] ||
    (ValidDraws(entries, draws[..|draws| - 1]) &&
     0 <= draws[|draws| - 1] <= Sum(Left(entries, draws[..|draws| - 1])))
  }

  /** One more draw `r` emits the entry it selects among those left and removes it; a draw within the weight left keeps the draws valid. */
  lemma WalkStep(entries: seq<SrvRecord>, draws: seq<int>, r: int)
    requires |draws| < |entries|
    ensures
      var left := Left(entries, draws);
      var i := FirstReaching(left, r);
      && Drawn(entries, draws + [r]) == Drawn(entries, draws) + [left[i]]
      && Left(entries, draws + [r]) == Without(left, i)
      && (ValidDraws(entries, draws) && 0 <= r <= Sum(left) ==> ValidDraws(entries, draws + [r]))
  {
    assert (draws + [r])[..|draws|] == draws;
  }

  predicate SortedByWeight(s: seq<SrvRecord>)
  {
    forall i, j :: 0 <= i < j < |s| ==> s[i].weight <= s[j].weight
  }

  /** The entries of `s` that have weight `w`, in order. */
  function WithWeight(s: seq<SrvRecord>, w: int): seq<SrvRecord>
  {
    if s == [] then []
    else (if s[0].weight == w then [s[0]] else []) + WithWeight(s[1..], w)
  }

  /** Inserts `x` before the first entry of `s` that is at least as heavy. */
  function InsertByWeight(x: SrvRecord, s: seq<SrvRecord>): (r: seq<SrvRecord>)
    ensures multiset(r) == multiset(s) + multiset{x}
    ensures |r| == |s| + 1
    ensures r[0] == x || (s != [] && r[0] == s[0])
  {
    if s == [] || x.weight <= s[0].weight then [x] + s
    else
      assert s == [s[0]] + s[1..];
      [s[0]] + InsertByWeight(x, s[1..])
  }

  lemma {:induction false} InsertByWeightSorted(x: SrvRecord, s: seq<SrvRecord>)
    requires SortedByWeight(s)
    ensures SortedByWeight(InsertByWeight(x, s))
    decreases |s|
  {
    if s != [] && x.weight > s[0].weight {
      var rest := InsertByWeight(x, s[1..]);
      var r := [s[0]] + rest;
      assert r == InsertByWeight(x, s);
      InsertByWeightSorted(x, s[1..]);
      assert rest[0].weight >= s[0].weight;
      forall i, j | 0 <= i < j < |r| ensures r[i].weight <= r[j].weight {
        if i == 0 && j > 1 {
          assert r[j] == rest[j - 1];
        }
      }
    }
  }

  /** `entries.sort(key=lambda ent: ent.weight)`: a stable sort by ascending weight. */
  function SortByWeight(s: seq<SrvRecord>): (r: seq<SrvRecord>)
    ensures |r| == |s|
    ensures multiset(r) == multiset(s)
    ensures SortedByWeight(r)
  {
    if s == [] then [] else
      assert s == [s[0]] + s[1..];
      InsertByWeightSorted(s[0], SortByWeight(s[1..]));
      InsertByWeight(s[0], SortByWeight(s[1..]))
  }

  lemma WithWeightCons(x: SrvRecord, s: seq<SrvRecord>, w: int)
    ensures WithWeight([x] + s, w) == (if x.weight == w then [x] else []) + WithWeight(s, w)
  {
    assert ([x] + s)[1..] == s;
  }

  lemma {:induction false} InsertByWeightStable(x: SrvRecord, s: seq<SrvRecord>, w: int)
    ensures WithWeight(InsertByWeight(x, s), w) ==
      (if x.weight == w then [x] else []) + WithWeight(s, w)
    decreases |s|
  {
    if s == [] || x.weight <= s[0].weight {
      WithWeightCons(x, s, w);
    } else {
      var rest := InsertByWeight(x, s[1..]);
      assert InsertByWeight(x, s) == [s[0]] + rest;
      assert s == [s[0]] + s[1..];
      WithWeightCons(s[0], rest, w);
      WithWeightCons(s[0], s[1..], w);
      InsertByWeightStable(x, s[1..], w);
      if x.weight == w {
        // A heavier `x` is skipped past `s[0]`, so `s[0]` does not have weight `w`.
        assert WithWeight(s, w) == WithWeight(s[1..], w);
      } else {
        assert WithWeight(rest, w) == WithWeight(s[1..], w);
      }
    }
  }

  /** The sort is stable: entries of equal weight keep their relative order. */
  lemma {:induction false} SortByWeightStable(s: seq<SrvRecord>, w: int)
    ensures WithWeight(SortByWeight(s), w) == WithWeight(s, w)
    decreases |s|
  {
    if s != [] {
      InsertByWeightStable(s[0], SortByWeight(s[1..]), w);
      SortByWeightStable(s[1..], w);
    }
  }

  /**
   * The ordering of one tier of several answers: sort by weight, then draw
   * `r = randint(0, total_weight)`, take the first entry whose cumulative weight
   * reaches `r`, remove it and repeat until the tier is empty. The draws made
   * are returned as `draws`.
   */
  method DrawTier(tier: seq<SrvRecord>) returns (drawn: seq<SrvRecord>, ghost draws: seq<int>)
    ensures |draws| == |tier|
    ensures ValidDraws(SortByWeight(tier), draws)
    ensures drawn == Drawn(SortByWeight(tier), draws)
    ensures multiset(drawn) == multiset(tier)
  {
    var entries := SortByWeight(tier);
    ghost var sorted := entries;
    var totalWeight := Sum(entries);
    drawn, draws := [], [];
    while entries != []
      invariant |draws| + |entries| == |sorted|
      invariant drawn == Drawn(sorted, draws) && entries == Left(sorted, draws)
      invariant totalWeight == Sum(entries)
      invariant ValidDraws(sorted, draws)
      decreases |entries|
    {
      drawn, entries, totalWeight, draws := DrawOne(sorted, drawn, entries, totalWeight, draws);
    }
    DrawnAll(sorted, draws);
  }

  /** One turn of the draws loop: draw, select, emit and remove. */
  method DrawOne(ghost sorted: seq<SrvRecord>, drawn: seq<SrvRecord>, entries: seq<SrvRecord>, totalWeight: nat, ghost draws: seq<int>)
    returns (drawn': seq<SrvRecord>, entries': seq<SrvRecord>, totalWeight': nat, ghost draws': seq<int>)
    requires entries != [] && |draws| + |entries| == |sorted|
    requires drawn == Drawn(sorted, draws) && entries == Left(sorted, draws)
    requires totalWeight == Sum(entries) && ValidDraws(sorted, draws)
    ensures |draws'| == |draws| + 1 && draws'[..|draws|] == draws && 0 <= draws'[|draws|] <= totalWeight
    ensures var i := FirstReaching(entries, draws'[|draws|]);
      drawn' == drawn + [entries[i]] && entries' == Without(entries, i) && totalWeight' == totalWeight - entries[i].weight
    ensures |draws'| + |entries'| == |sorted| && |entries'| == |entries| - 1
    ensures drawn' == Drawn(sorted, draws') && entries' == Left(sorted, draws')
    ensures totalWeight' == Sum(entries') && ValidDraws(sorted, draws')
  {
    var r :| 0 <= r <= totalWeight;
    var i := PickIndex(entries, r);
    var ent := entries[i];
    DrawStep(sorted, draws, drawn, entries, r, i);
    drawn' := drawn + [ent];
    entries' := Without(entries, i);
    assert Sum(entries') + ent.weight == totalWeight;
    totalWeight' := totalWeight - ent.weight;
    draws' := draws + [r];
  }

  /** One turn of the draws loop, in the terms of its invariant. */
  lemma DrawStep(sorted: seq<SrvRecord>, draws: seq<int>, drawn: seq<SrvRecord>, entries: seq<SrvRecord>, r: int, i: nat)
    requires |draws| < |sorted| && ValidDraws(sorted, draws)
    requires drawn == Drawn(sorted, draws) && entries == Left(sorted, draws)
    requires 0 <= r <= Sum(entries) && i == FirstReaching(entries, r)
    ensures drawn + [entries[i]] == Drawn(sorted, draws + [r])
    ensures Without(entries, i) == Left(sorted, draws + [r])
    ensures ValidDraws(sorted, draws + [r])
  {
    WalkStep(sorted, draws, r);
  }

  /** Once every entry is drawn, the draws have emitted a permutation of the entries. */
  lemma DrawnAll(entries: seq<SrvRecord>, draws: seq<int>)
    requires |draws| == |entries|
    ensures multiset(Drawn(entries, draws)) == multiset(entries)
  {
    assert Left(entries, draws) == [];
  }

  // ---------------------------------------------------------------- tiers

  /** The answers of `s` that have priority `p`, in order (`priorities[p]`). */
  function Tier(s: seq<SrvRecord>, p: int): seq<SrvRecord>
  {
    if s == [] then []
    else Tier(s[..|s| - 1], p) + (if s[|s| - 1].priority == p then [s[|s| - 1]] else [])
  }

  /** A tier holds answers of `s` with priority `p` only. */
  lemma {:induction false} TierMembers(s: seq<SrvRecord>, p: int)
    ensures forall e :: e in Tier(s, p) ==> e.priority == p && e in s
    decreases |s|
  {
    if s != [] {
      var init := s[..|s| - 1];
      TierMembers(init, p);
      assert forall e :: e in init ==> e in s;
    }
  }

  /** A reordering of the tier of `pri` holds answers of priority `pri` only. */
  lemma TierOrderPriority(ans: seq<SrvRecord>, tierOut: seq<SrvRecord>, pri: int)
    requires multiset(tierOut) == multiset(Tier(ans, pri))
    ensures forall e :: e in tierOut ==> e.priority == pri
  {
    TierMembers(ans, pri);
    forall e | e in tierOut ensures e.priority == pri {
      assert e in multiset(tierOut);
      assert e in Tier(ans, pri);
    }
  }

  /** Every answer is in the tier of its own priority. */
  lemma {:induction false} TierOfMember(s: seq<SrvRecord>, e: SrvRecord)
    requires e in s
    ensures Tier(s, e.priority) != []
    decreases |s|
  {
    if s[|s| - 1] != e {
      assert e in s[..|s| - 1] by {
        var k :| 0 <= k < |s| && s[k] == e;
        assert s[..|s| - 1][k] == e;
      }
      TierOfMember(s[..|s| - 1], e);
    }
  }

  lemma TierSnoc(s: seq<SrvRecord>, e: SrvRecord, p: int)
    ensures Tier(s + [e], p) == Tier(s, p) + (if e.priority == p then [e] else [])
  {
    assert (s + [e])[..|s|] == s;
  }

  lemma {:induction false} TierConcat(a: seq<SrvRecord>, b: seq<SrvRecord>, p: int)
    ensures Tier(a + b, p) == Tier(a, p) + Tier(b, p)
    decreases |b|
  {
    if b == [] {
      assert a + b == a;
    } else {
      var init, last := b[..|b| - 1], b[|b| - 1];
      assert b == init + [last];
      assert a + b == (a + init) + [last];
      TierSnoc(a + init, last, p);
      TierSnoc(init, last, p);
      TierConcat(a, init, p);
    }
  }

  lemma {:induction false} TierNone(s: seq<SrvRecord>, p: int)
    requires forall e :: e in s ==> e.priority != p
    ensures Tier(s, p) == []
    decreases |s|
  {
    if s != [] {
      var init, last := s[..|s| - 1], s[|s| - 1];
      assert s == init + [last];
      TierNone(init, p);
    }
  }

  lemma {:induction false} TierAll(s: seq<SrvRecord>, p: int)
    requires forall e :: e in s ==> e.priority == p
    ensures Tier(s, p) == s
    decreases |s|
  {
    if s != [] {
      var init, last := s[..|s| - 1], s[|s| - 1];
      assert s == init + [last];
      TierAll(init, p);
    }
  }

  /** The answers of `s` whose priority is not in `pending`, in order. */
  function Outside(s: seq<SrvRecord>, pending: seq<int>): seq<SrvRecord>
  {
    if s == [] then []
    else Outside(s[..|s| - 1], pending) + (if s[|s| - 1].priority !in pending then [s[|s| - 1]] else [])
  }

  /** Emitting the tier at the head of the pending priorities moves exactly that tier outside. */
  lemma {:induction false} OutsideRemove(s: seq<SrvRecord>, pending: seq<int>)
    requires pending != [] && pending[0] !in pending[1..]
    ensures multiset(Outside(s, pending[1..])) == multiset(Outside(s, pending)) + multiset(Tier(s, pending[0]))
    decreases |s|
  {
    if s != [] {
      OutsideRemove(s[..|s| - 1], pending);
    }
  }

  lemma {:induction false} OutsideAll(s: seq<SrvRecord>, pending: seq<int>)
    requires forall e :: e in s ==> e.priority in pending
    ensures Outside(s, pending) == []
    decreases |s|
  {
    if s != [] {
      assert forall e :: e in s[..|s| - 1] ==> e in s;
      assert s[|s| - 1] in s;
      OutsideAll(s[..|s| - 1], pending);
    }
  }

  lemma {:induction false} OutsideNone(s: seq<SrvRecord>)
    ensures Outside(s, []) == s
    decreases |s|
  {
    if s != [] {
      OutsideNone(s[..|s| - 1]);
      assert s == s[..|s| - 1] + [s[|s| - 1]];
    }
  }

  predicate Increasing(s: seq<int>)
  {
    forall i, j :: 0 <= i < j < |s| ==> s[i] < s[j]
  }

  /** Inserts `x` into an ascending list, unless it is already there. */
  function InsertKey(x: int, s: seq<int>): (r: seq<int>)
    ensures forall y :: y in r <==> y == x || y in s
    ensures Increasing(s) ==> Increasing(r)
  {
    if s == [] || x < s[0] then [x] + s
    else if x == s[0] then s
    else
      var rest := InsertKey(x, s[1..]);
      assert Increasing(s) ==> forall y :: y in rest ==> s[0] < y by {
        if Increasing(s) {
          forall y | y in rest ensures s[0] < y {
            if y in s[1..] {
              var j :| 0 <= j < |s[1..]| && s[1..][j] == y;
              assert s[j + 1] == y;
            }
          }
        }
      }
      var r := [s[0]] + rest;
      assert Increasing(s) ==> Increasing(r) by {
        if Increasing(s) {
          assert Increasing(s[1..]);
          forall i, j | 0 <= i < j < |r| ensures r[i] < r[j] {
            assert r[j] == rest[j - 1] && rest[j - 1] in rest;
            if i > 0 {
              assert r[i] == rest[i - 1];
            }
          }
        }
      }
      r
  }

  /** The priorities in ascending order, each once (`sorted(priorities.items())`). */
  function Ascending(keys: seq<int>): (r: seq<int>)
    ensures forall y :: y in r <==> y in keys
    ensures Increasing(r)
  {
    if keys == [] then [] else
      assert keys == [keys[0]] + keys[1..];
      InsertKey(keys[0], Ascending(keys[1..]))
  }

  /** `out` holds the answers of `ans`, each once, with non-decreasing priorities. */
  ghost predicate IsPriorityOrdering(ans: seq<SrvRecord>, out: seq<SrvRecord>)
  {
    multiset(out) == multiset(ans) &&
    forall i, j :: 0 <= i < j < |out| ==> out[i].priority <= out[j].priority
  }

  /** The first loop of `sort_rfc2782`: the answers divided by priority. */
  method GroupByPriority(ans: seq<SrvRecord>) returns (priorities: map<int, seq<SrvRecord>>, keys: seq<int>)
    ensures forall p :: p in priorities <==> p in keys
    ensures forall p :: p in priorities <==> Tier(ans, p) != []
    ensures forall p :: p in priorities ==> priorities[p] == Tier(ans, p)
    ensures forall e :: e in ans ==> e.priority in keys
  {
    priorities := map[];
    keys := [];
    for k := 0 to |ans|
      invariant forall p :: p in priorities <==> p in keys
      invariant forall p :: p in priorities <==> Tier(ans[..k], p) != []
      invariant forall p :: p in priorities ==> priorities[p] == Tier(ans[..k], p)
    {
      var e := ans[k];
      var bucket := [];
      if e.priority in priorities {
        bucket := priorities[e.priority];
      } else {
        keys := keys + [e.priority];
      }
      priorities := priorities[e.priority := bucket + [e]];
      TierStep(ans, k);
    }
    assert ans[..|ans|] == ans;
    forall e | e in ans ensures e.priority in keys {
      TierOfMember(ans, e);
    }
  }

  /** One more answer extends its own tier only. */
  lemma TierStep(ans: seq<SrvRecord>, k: nat)
    requires k < |ans|
    ensures Tier(ans[..k + 1], ans[k].priority) == Tier(ans[..k], ans[k].priority) + [ans[k]]
    ensures forall p :: p != ans[k].priority ==> Tier(ans[..k + 1], p) == Tier(ans[..k], p)
  {
    assert ans[..k + 1][..k] == ans[..k];
  }

  /**
   * One tier in the order `sort_rfc2782` gives it: a single answer as it
   * is, several answers by weighted draws over the weight-sorted tier.
   */
  ghost predicate IsTierOrder(entries: seq<SrvRecord>, tierOut: seq<SrvRecord>)
  {
    if |entries| == 1 then tierOut == entries
    else exists draws ::
      |draws| == |entries| && ValidDraws(SortByWeight(entries), draws) &&
      tierOut == Drawn(SortByWeight(entries), draws)
  }

  /**
   * `out` holds, ordered by priority, exactly the answers whose priority is
   * no longer pending, and every pending priority is above all of them.
   */
  ghost predicate Emitted(ans: seq<SrvRecord>, out: seq<SrvRecord>, pending: seq<int>)
  {
    multiset(out) == multiset(Outside(ans, pending)) &&
    (forall i, j :: 0 <= i < j < |out| ==> out[i].priority <= out[j].priority) &&
    (forall i, q :: 0 <= i < |out| && q in pending ==> out[i].priority < q)
  }

  /** Appending the tier of the smallest pending priority keeps the output ordered. */
  lemma EmitTier(ans: seq<SrvRecord>, out: seq<SrvRecord>, order: seq<int>, t: nat, tierOut: seq<SrvRecord>)
    requires t < |order| && Increasing(order)
    requires Emitted(ans, out, order[t..])
    requires multiset(tierOut) == multiset(Tier(ans, order[t]))
    ensures Emitted(ans, out + tierOut, order[t + 1..])
    ensures forall i :: 0 <= i < |out| ==> out[i].priority < order[t]
    ensures forall e :: e in tierOut ==> e.priority == order[t]
  {
    var pending := order[t..];
    assert pending[1..] == order[t + 1..];
    assert order[t] in pending;
    TierOrderPriority(ans, tierOut, order[t]);
    PendingAbove(order, t);
    OutsideRemove(ans, pending);
    AppendOrdered(out, tierOut, order[t]);
    AppendBelow(out, tierOut, pending);
  }

  /** The priorities after the smallest pending one are above it. */
  lemma PendingAbove(order: seq<int>, t: nat)
    requires t < |order| && Increasing(order)
    ensures forall q :: q in order[t..][1..] ==> order[t] < q
  {
    var rest := order[t..][1..];
    forall q | q in rest ensures order[t] < q {
      var j :| 0 <= j < |rest| && rest[j] == q;
      assert order[t + 1 + j] == q;
    }
  }

  /** A tier of priority `pri` appended after lower priorities keeps the priorities non-decreasing. */
  lemma AppendOrdered(out: seq<SrvRecord>, tierOut: seq<SrvRecord>, pri: int)
    requires forall i, j :: 0 <= i < j < |out| ==> out[i].priority <= out[j].priority
    requires forall i :: 0 <= i < |out| ==> out[i].priority < pri
    requires forall e :: e in tierOut ==> e.priority == pri
    ensures forall i, j :: 0 <= i < j < |out + tierOut| ==> (out + tierOut)[i].priority <= (out + tierOut)[j].priority
  {
    var all := out + tierOut;
    forall i, j | 0 <= i < j < |all| ensures all[i].priority <= all[j].priority {
      if j >= |out| {
        assert all[j] in tierOut;
        if i >= |out| {
          assert all[i] in tierOut;
        }
      }
    }
  }

  /** After the tier of `pending[0]` is appended, the output lies below the priorities still pending. */
  lemma AppendBelow(out: seq<SrvRecord>, tierOut: seq<SrvRecord>, pending: seq<int>)
    requires pending != []
    requires forall i, q :: 0 <= i < |out| && q in pending ==> out[i].priority < q
    requires forall e :: e in tierOut ==> e.priority == pending[0]
    requires forall q :: q in pending[1..] ==> pending[0] < q
    ensures forall i, q :: 0 <= i < |out + tierOut| && q in pending[1..] ==> (out + tierOut)[i].priority < q
  {
    var all := out + tierOut;
    forall i, q | 0 <= i < |all| && q in pending[1..] ensures all[i].priority < q {
      if i >= |out| {
        assert all[i] in tierOut;
      } else {
        assert q in pending;
      }
    }
  }

  /** Before any tier is emitted, every priority is pending and nothing is outside. */
  lemma EmitStart(ans: seq<SrvRecord>, order: seq<int>)
    requires forall e :: e in ans ==> e.priority in order
    ensures Emitted(ans, [], order)
  {
    OutsideAll(ans, order);
  }

  /** Once no priority is pending, the output is a priority ordering of all the answers. */
  lemma EmitEnd(ans: seq<SrvRecord>, out: seq<SrvRecord>)
    requires Emitted(ans, out, [])
    ensures IsPriorityOrdering(ans, out)
  {
    OutsideNone(ans);
  }

  /** Every tier no longer pending appears in `out` in the order of its weighted draws. */
  ghost predicate TiersDrawn(ans: seq<SrvRecord>, out: seq<SrvRecord>, pending: seq<int>)
  {
    forall p :: p !in pending && Tier(ans, p) != [] ==> IsTierOrder(Tier(ans, p), Tier(out, p))
  }

  /** Appending a tier of priority `pri` after lower priorities makes it the whole `pri` tier of the output. */
  lemma AppendSameTier(out: seq<SrvRecord>, tierOut: seq<SrvRecord>, pri: int)
    requires forall i :: 0 <= i < |out| ==> out[i].priority < pri
    requires forall e :: e in tierOut ==> e.priority == pri
    ensures Tier(out + tierOut, pri) == tierOut
  {
    TierConcat(out, tierOut, pri);
    TierNone(out, pri);
    TierAll(tierOut, pri);
  }

  /** Appending a tier of priority `pri` leaves every other tier of the output as it was. */
  lemma AppendOtherTier(out: seq<SrvRecord>, tierOut: seq<SrvRecord>, pri: int, p: int)
    requires p != pri
    requires forall e :: e in tierOut ==> e.priority == pri
    ensures Tier(out + tierOut, p) == Tier(out, p)
  {
    TierConcat(out, tierOut, p);
    TierNone(tierOut, p);
  }

  /** Emitting the tier of the smallest pending priority leaves every earlier tier as it was. */
  lemma EmitTierDrawn(ans: seq<SrvRecord>, out: seq<SrvRecord>, order: seq<int>, t: nat, tierOut: seq<SrvRecord>)
    requires t < |order|
    requires forall i :: 0 <= i < |out| ==> out[i].priority < order[t]
    requires forall e :: e in tierOut ==> e.priority == order[t]
    requires TiersDrawn(ans, out, order[t..])
    requires IsTierOrder(Tier(ans, order[t]), tierOut)
    ensures TiersDrawn(ans, out + tierOut, order[t + 1..])
  {
    AppendSameTier(out, tierOut, order[t]);
    forall p | p !in order[t + 1..] && Tier(ans, p) != []
      ensures IsTierOrder(Tier(ans, p), Tier(out + tierOut, p))
    {
      if p != order[t] {
        KeptTier(ans, out, order, t, tierOut, p);
      }
    }
  }

  /** A tier other than the one emitted keeps its order. */
  lemma KeptTier(ans: seq<SrvRecord>, out: seq<SrvRecord>, order: seq<int>, t: nat, tierOut: seq<SrvRecord>, p: int)
    requires t < |order| && p != order[t] && p !in order[t + 1..] && Tier(ans, p) != []
    requires forall e :: e in tierOut ==> e.priority == order[t]
    requires TiersDrawn(ans, out, order[t..])
    ensures IsTierOrder(Tier(ans, p), Tier(out + tierOut, p))
  {
    assert order[t..] == [order[t]] + order[t + 1..];
    assert p !in order[t..];
    AppendOtherTier(out, tierOut, order[t], p);
  }

  lemma TiersDrawnStart(ans: seq<SrvRecord>, order: seq<int>)
    requires forall e :: e in ans ==> e.priority in order
    ensures TiersDrawn(ans, [], order)
  {
    forall p | p !in order ensures Tier(ans, p) == [] {
      TierNone(ans, p);
    }
  }

  /**
   * A priority ordering of `ans` in which every tier comes out in the order
   * of its weighted draws: what `sort_rfc2782` may return.
   */
  ghost predicate IsRfc2782Order(ans: seq<SrvRecord>, out: seq<SrvRecord>)
  {
    IsPriorityOrdering(ans, out) &&
    forall p :: Tier(ans, p) != [] ==> IsTierOrder(Tier(ans, p), Tier(out, p))
  }

  method OrderTier(entries: seq<SrvRecord>) returns (tierOut: seq<SrvRecord>)
    ensures IsTierOrder(entries, tierOut)
    ensures multiset(tierOut) == multiset(entries)
  {
    if |entries| == 1 {
      tierOut := [entries[0]];
      assert entries == [entries[0]];
    } else {
      ghost var draws;
      tierOut, draws := DrawTier(entries);
    }
  }

  /**
   * `sort_rfc2782`: the answers grouped by priority, the groups emitted in
   * ascending priority, a single answer as it is and several answers in the
   * order of `DrawTier`.
   */
  method SortRfc2782(ans: seq<SrvRecord>) returns (out: seq<SrvRecord>)
    ensures IsPriorityOrdering(ans, out)
    ensures forall p :: Tier(ans, p) != [] ==> IsTierOrder(Tier(ans, p), Tier(out, p))
  {
    var priorities, keys := GroupByPriority(ans);
    var order := Ascending(keys);
    EmitStart(ans, order);
    TiersDrawnStart(ans, order);
    out := [];
    for t := 0 to |order|
      invariant Emitted(ans, out, order[t..])
      invariant TiersDrawn(ans, out, order[t..])
    {
      assert order[t] in keys;
      var tierOut := OrderTier(priorities[order[t]]);
      EmitTier(ans, out, order, t, tierOut);
      EmitTierDrawn(ans, out, order, t, tierOut);
      out := out + tierOut;
    }
    assert order[|order|..] == [];
    EmitEnd(ans, out);
  }

  /** A draw of 0 selects the first entry left. */
  lemma WalkLastZero(entries: seq<SrvRecord>, init: seq<int>)
    requires |init| < |entries|
    requires Drawn(entries, init) == entries[..|init|]
    requires Left(entries, init) == entries[|init|..]
    ensures Drawn(entries, init + [0]) == entries[..|init| + 1]
    ensures Left(entries, init + [0]) == entries[|init| + 1..]
  {
    WalkStep(entries, init, 0);
    WithoutFirst(entries, |init|);
    PrefixSnoc(entries, |init| + 1);
  }

  /** Removing the first entry left. */
  lemma WithoutFirst(s: seq<SrvRecord>, m: nat)
    requires m < |s|
    ensures FirstReaching(s[m..], 0) == 0
    ensures Without(s[m..], 0) == s[m + 1..] && s[m..][0] == s[m]
  {
    assert s[m..][1..] == s[m + 1..];
  }

  lemma DrawsSnoc(draws: seq<int>)
    requires draws != []
    ensures draws == draws[..|draws| - 1] + [draws[|draws| - 1]]
  {
  }

  /** When what is left weighs nothing, the next draw is 0. */
  lemma ZeroDraw(entries: seq<SrvRecord>, draws: seq<int>)
    requires 0 < |draws| <= |entries|
    requires forall e :: e in entries ==> e.weight == 0
    requires ValidDraws(entries, draws)
    requires Left(entries, draws[..|draws| - 1]) == entries[|draws| - 1..]
    ensures draws[|draws| - 1] == 0
  {
    var left := entries[|draws| - 1..];
    assert forall e :: e in left ==> e.weight == 0 by {
      forall e | e in left ensures e.weight == 0 {
        assert e in entries;
      }
    }
    SumZero(left);
  }

  lemma PrefixSnoc(s: seq<SrvRecord>, n: nat)
    requires 0 < n <= |s|
    ensures s[..n] == s[..n - 1] + [s[n - 1]]
  {
  }

  /** With a zero total weight every draw is 0 and selects the first entry left. */
  lemma {:induction false} WalkZero(entries: seq<SrvRecord>, draws: seq<int>)
    requires |draws| <= |entries|
    requires forall e :: e in entries ==> e.weight == 0
    requires ValidDraws(entries, draws)
    ensures forall k :: 0 <= k < |draws| ==> draws[k] == 0
    ensures Drawn(entries, draws) == entries[..|draws|]
    ensures Left(entries, draws) == entries[|draws|..]
    decreases |draws|
  {
    if draws != [] {
      var init := draws[..|draws| - 1];
      WalkZero(entries, init);
      ZeroDraw(entries, draws);
      DrawsSnoc(draws);
      WalkLastZero(entries, init);
      ZerosSnoc(init, draws);
    }
  }

  lemma ZerosSnoc(init: seq<int>, draws: seq<int>)
    requires draws != [] && init == draws[..|draws| - 1] && draws[|draws| - 1] == 0
    requires forall k :: 0 <= k < |init| ==> init[k] == 0
    ensures forall k :: 0 <= k < |draws| ==> draws[k] == 0
  {
    assert forall k :: 0 <= k < |init| ==> draws[k] == init[k];
  }

  /** With all weights zero the stable sort leaves the tier as it is. */
  lemma {:induction false} SortByWeightZero(s: seq<SrvRecord>)
    requires forall e :: e in s ==> e.weight == 0
    ensures SortByWeight(s) == s
    decreases |s|
  {
    if s != [] {
      var rest := s[1..];
      assert s == [s[0]] + rest;
      assert s[0].weight == 0;
      SortByWeightZero(rest);
      assert rest == [] || s[0].weight <= rest[0].weight;
      assert InsertByWeight(s[0], rest) == [s[0]] + rest;
    }
  }

  /**
   * A tier whose answers all weigh zero comes out in the order the DNS gave
   * it: every `randint(0, 0)` is 0 and the first entry left is taken.
   */
  lemma ZeroWeightTier(tier: seq<SrvRecord>, tierOut: seq<SrvRecord>)
    requires tier != [] && forall e :: e in tier ==> e.weight == 0
    requires IsTierOrder(tier, tierOut)
    ensures tierOut == tier
  {
    if |tier| > 1 {
      var draws :| |draws| == |tier| && ValidDraws(SortByWeight(tier), draws) && tierOut == Drawn(SortByWeight(tier), draws);
      ZeroWeightDraws(tier, draws);
    }
  }

  /** Draws over a tier that weighs zero throughout emit the tier as it is. */
  lemma ZeroWeightDraws(tier: seq<SrvRecord>, draws: seq<int>)
    requires forall e :: e in tier ==> e.weight == 0
    requires |draws| == |tier| && ValidDraws(SortByWeight(tier), draws)
    ensures Drawn(SortByWeight(tier), draws) == tier
  {
    SortByWeightZero(tier);
    WalkZeroAll(tier, draws);
  }

  lemma WalkZeroAll(entries: seq<SrvRecord>, draws: seq<int>)
    requires |draws| == |entries|
    requires forall e :: e in entries ==> e.weight == 0
    requires ValidDraws(entries, draws)
    ensures Drawn(entries, draws) == entries
  {
    assert entries[..|draws|] == entries;
    WalkZero(entries, draws);
  }

  /** In an RFC 2782 order, the answers of a priority that all weigh zero keep their input order. */
  lemma ZeroWeightsKeepOrder(ans: seq<SrvRecord>, out: seq<SrvRecord>, p: int)
    requires IsRfc2782Order(ans, out)
    requires Tier(ans, p) != [] && forall e :: e in Tier(ans, p) ==> e.weight == 0
    ensures Tier(out, p) == Tier(ans, p)
  {
    ZeroWeightTier(Tier(ans, p), Tier(out, p));
  }

  /** Answers that share one priority and all weigh zero come out in the order the DNS gave them. */
  lemma ZeroWeightsSinglePriority(ans: seq<SrvRecord>, out: seq<SrvRecord>)
    requires IsRfc2782Order(ans, out)
    requires ans != [] && forall e :: e in ans ==> e.priority == ans[0].priority && e.weight == 0
    ensures out == ans
  {
    var p := ans[0].priority;
    TierAll(ans, p);
    ZeroWeightsKeepOrder(ans, out, p);
    SamePriority(ans, out, p);
    TierAll(out, p);
  }

  lemma SamePriority(ans: seq<SrvRecord>, out: seq<SrvRecord>, p: int)
    requires multiset(out) == multiset(ans)
    requires forall e :: e in ans ==> e.priority == p
    ensures forall e :: e in out ==> e.priority == p
  {
    forall e | e in out ensures e.priority == p {
      assert e in multiset(out);
    }
  }

  /** Two answers of equal priority and zero weight: the first is always emitted first. */
  lemma ZeroWeightExample(out: seq<SrvRecord>)
    requires IsRfc2782Order([SrvRecord(0, 0, "a.", 1), SrvRecord(0, 0, "b.", 2)], out)
    ensures out == [SrvRecord(0, 0, "a.", 1), SrvRecord(0, 0, "b.", 2)]
  {
    ZeroWeightsSinglePriority([SrvRecord(0, 0, "a.", 1), SrvRecord(0, 0, "b.", 2)], out);
  }
}
