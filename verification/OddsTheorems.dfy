/** What the odds table promises: it simulates the draw, conserves prizes and rewards diapers. */
module OddsTheorems {
  import opened Ranking
  import opened Draw

  predicate AllPositive(eligible: seq<Candidate>) {
    forall i :: 0 <= i < |eligible| ==> eligible[i].count > 0
  }

  predicate DistinctValues(keys: seq<real>) {
    forall i, j :: 0 <= i < j < |keys| ==> keys[i] != keys[j]
  }

  // ----- the simulation is the draw -----

  /** The stretch of the stream that simulated draw r reads. */
  function From(logU: Stream, start: nat): Stream { (i: nat) => logU(start + i) }

  lemma SameKeys(eligible: seq<Candidate>, logU: Stream, r: nat)
    requires AllPositive(eligible)
    ensures DrawKeys(eligible, From(logU, r * |eligible|)) == RunKeys(eligible, logU, r)
  {
    forall i | 0 <= i < |eligible|
      ensures DrawKeys(eligible, From(logU, r * |eligible|))[i] == RunKeys(eligible, logU, r)[i]
    {
      DivideOrMultiply(logU(r * |eligible| + i), eligible[i].count as real);
    }
  }

  lemma DivideOrMultiply(x: real, w: real)
    requires w > 0.0
    ensures x / w == x * (1.0 / w)
  {
    assert (1.0 / w) * w == 1.0;
    assert (x * (1.0 / w)) * w == x * ((1.0 / w) * w);
  }

  lemma PermutationCovers(keys: seq<real>, perm: seq<nat>)
    requires SortedPermutation(keys, perm)
    ensures forall x: nat :: x in perm <==> x < |keys|
  {
    SizeOfDistinct(perm);
    var all := Below(|keys|);
    forall x | x in Members(perm) ensures x in all {}
    assert all == Members(perm) + (all - Members(perm));
    assert |all - Members(perm)| == 0;
    forall x: nat | x < |keys| ensures x in perm { assert x in all; assert x in Members(perm); }
  }

  function Below(n: nat): (s: set<nat>)
    ensures |s| == n && forall x: nat :: x in s <==> x < n
  {
    if n == 0 then {} else Below(n - 1) + {n - 1}
  }

  /** With no ties there is only one sorted order: the stable one. */
  lemma OnlyOneOrder(keys: seq<real>, perm: seq<nat>)
    requires SortedPermutation(keys, perm) && DistinctValues(keys)
    ensures perm == Ranked(keys, |keys|)
  {
    hide Ranked;
    RankedIsSorted(keys, |keys|);
    PermutationCovers(keys, perm);
    forall p, q | 0 <= p < q < |perm| ensures Before(keys, perm[p], perm[q]) {
      assert keys[perm[p]] != keys[perm[q]];
    }
    SortedUnique(keys, perm, Ranked(keys, |keys|), |keys|);
    assert perm[..|keys|] == perm && Ranked(keys, |keys|)[..|keys|] == Ranked(keys, |keys|);
  }

  /**
   * Run the real draw on the randomness of simulated draw r: unless two keys
   * tie, its winners are the simulation's top candidates, in the same order.
   */
  lemma SimulationIsDraw(pool: seq<Candidate>, n: int, logU: Stream, r: nat, winners: seq<Candidate>)
    requires var eligible := WithDiapers(pool);
             && IsDraw(pool, n, From(logU, r * |eligible|), winners)
             && DistinctValues(RunKeys(eligible, logU, r))
    ensures var eligible := WithDiapers(pool);
            var top := Top(RunKeys(eligible, logU, r), Prizes(n, |eligible|));
            |winners| == |top| && forall k :: 0 <= k < |top| ==> winners[k] == eligible[top[k]]
  {
    hide Ranked, RunKeys, DrawKeys, WithDiapers, IsDraw, DistinctValues, SortedPermutation, From;
    var eligible := WithDiapers(pool);
    var keys := RunKeys(eligible, logU, r);
    SameKeys(eligible, logU, r);
    var perm := DrawOrder(pool, n, From(logU, r * |eligible|), winners);
    OnlyOneOrder(keys, perm);
  }

  /** The logarithm candidate i drew, over their diapers, is at least candidate j's. */
  predicate KeyAtLeast(eligible: seq<Candidate>, logU: Stream, i: nat, j: nat)
    requires AllPositive(eligible) && i < |eligible| && j < |eligible|
  {
    logU(i) / eligible[i].count as real >= logU(j) / eligible[j].count as real
  }

  /**
   * Ties or not: nobody wins twice, winners come in descending order of the
   * logarithm they drew over their diapers, and no loser exceeds a winner.
   */
  lemma DrawIsFair(pool: seq<Candidate>, n: int, logU: Stream, winners: seq<Candidate>) returns (at: seq<nat>)
    requires IsDraw(pool, n, logU, winners)
    ensures var eligible := WithDiapers(pool);
            && |at| == |winners| == Prizes(n, |eligible|)
            && (forall k :: 0 <= k < |at| ==> at[k] < |eligible| && winners[k] == eligible[at[k]])
            && (forall k, l :: 0 <= k < l < |at| ==>
                  at[k] != at[l] && KeyAtLeast(eligible, logU, at[k], at[l]))
            && (forall k, j: nat :: 0 <= k < |at| && j < |eligible| && j !in at ==>
                  KeyAtLeast(eligible, logU, at[k], j))
  {
    hide DrawKeys, WithDiapers, IsDraw;
    var eligible := WithDiapers(pool);
    var keys := DrawKeys(eligible, logU);
    var perm := DrawOrder(pool, n, logU, winners);
    PermutationCovers(keys, perm);
    at := perm[..|winners|];
    assert forall i :: 0 <= i < |eligible| ==> keys[i] == logU(i) / eligible[i].count as real by { KeyIs(eligible, logU); }
    forall k, j: nat | 0 <= k < |at| && j < |eligible| && j !in at ensures keys[at[k]] >= keys[j] {
      assert j in perm;
      var q :| 0 <= q < |perm| && perm[q] == j;
      assert forall x :: 0 <= x < |at| ==> at[x] == perm[x];
    }
  }

  lemma KeyIs(eligible: seq<Candidate>, logU: Stream)
    requires AllPositive(eligible)
    ensures forall i :: 0 <= i < |eligible| ==> DrawKeys(eligible, logU)[i] == logU(i) / eligible[i].count as real
  {
  }

  // ----- prizes are conserved -----

  function HitsUpTo(eligible: seq<Candidate>, logU: Stream, k: nat, runs: nat, m: nat): nat
    requires AllPositive(eligible)
  {
    if m == 0 then 0 else HitsUpTo(eligible, logU, k, runs, m - 1) + Hits(eligible, logU, k, runs, m - 1)
  }

  function CountBelow(s: seq<nat>, m: nat): nat {
    if m == 0 then 0 else CountBelow(s, m - 1) + if m - 1 in s then 1 else 0
  }

  lemma {:induction false} CountBelowAppend(s: seq<nat>, x: nat, m: nat)
    requires x !in s
    ensures CountBelow(s + [x], m) == CountBelow(s, m) + if x < m then 1 else 0
  {
    if m > 0 { CountBelowAppend(s, x, m - 1); }
  }

  lemma {:induction false} CountAll(s: seq<nat>, m: nat)
    requires forall p, q :: 0 <= p < q < |s| ==> s[p] != s[q]
    requires forall p :: 0 <= p < |s| ==> s[p] < m
    ensures CountBelow(s, m) == |s|
  {
    if s == [] {
      CountNone(m);
    } else {
      var init := s[..|s| - 1];
      CountAll(init, m);
      assert s == init + [s[|s| - 1]];
      CountBelowAppend(init, s[|s| - 1], m);
    }
  }

  lemma {:induction false} CountNone(m: nat)
    ensures CountBelow([], m) == 0
  {
    if m > 0 { CountNone(m - 1); }
  }

  lemma {:induction false} NextRunAdds(eligible: seq<Candidate>, logU: Stream, k: nat, runs: nat, m: nat)
    requires AllPositive(eligible)
    ensures HitsUpTo(eligible, logU, k, runs + 1, m)
            == HitsUpTo(eligible, logU, k, runs, m) + CountBelow(Top(RunKeys(eligible, logU, runs), k), m)
  {
    hide Top, RunKeys;
    if m > 0 { NextRunAdds(eligible, logU, k, runs, m - 1); }
  }

  /** Every simulated draw hands out exactly its prizes. */
  lemma {:induction false} HitsConserved(eligible: seq<Candidate>, logU: Stream, k: nat, runs: nat)
    requires AllPositive(eligible) && k <= |eligible|
    ensures HitsUpTo(eligible, logU, k, runs, |eligible|) == runs * k
  {
    hide Top, RunKeys;
    if runs == 0 {
      NoRunsNoHits(eligible, logU, k, |eligible|);
    } else {
      HitsConserved(eligible, logU, k, runs - 1);
      NextRunAdds(eligible, logU, k, runs - 1, |eligible|);
      var keys := RunKeys(eligible, logU, runs - 1);
      TopDistinct(keys, k);
      CountAll(Top(keys, k), |eligible|);
      assert runs * k == (runs - 1) * k + k;
    }
  }

  lemma {:induction false} NoRunsNoHits(eligible: seq<Candidate>, logU: Stream, k: nat, m: nat)
    requires AllPositive(eligible)
    ensures HitsUpTo(eligible, logU, k, 0, m) == 0
  {
    if m > 0 { NoRunsNoHits(eligible, logU, k, m - 1); }
  }

  /** Nobody wins more than once a draw; with a prize for everyone, everyone always wins. */
  lemma {:induction false} HitsBounded(eligible: seq<Candidate>, logU: Stream, k: nat, runs: nat, c: nat)
    requires AllPositive(eligible) && c < |eligible|
    ensures Hits(eligible, logU, k, runs, c) <= runs
    ensures k >= |eligible| ==> Hits(eligible, logU, k, runs, c) == runs
  {
    if runs > 0 {
      HitsBounded(eligible, logU, k, runs - 1, c);
      RankedIsSorted(RunKeys(eligible, logU, runs - 1), |eligible|);
    }
  }

  // ----- the reported table -----

  predicate DistinctIds(pool: seq<Candidate>) {
    forall i, j :: 0 <= i < j < |pool| ==> pool[i].id != pool[j].id
  }

  lemma {:induction false} EligibleKeepsIds(pool: seq<Candidate>)
    requires DistinctIds(pool)
    ensures DistinctIds(WithDiapers(pool))
    ensures forall i :: 0 <= i < |WithDiapers(pool)| ==> exists j :: 0 <= j < |pool| && pool[j].id == WithDiapers(pool)[i].id
  {
    if pool != [] {
      var init := pool[..|pool| - 1];
      EligibleKeepsIds(init);
      forall i | 0 <= i < |WithDiapers(pool)| ensures exists j :: 0 <= j < |pool| && pool[j].id == WithDiapers(pool)[i].id {
        if i < |WithDiapers(init)| {
          var j :| 0 <= j < |init| && init[j].id == WithDiapers(init)[i].id;
          assert pool[j].id == WithDiapers(pool)[i].id;
        } else {
          assert pool[|pool| - 1].id == WithDiapers(pool)[i].id;
        }
      }
    }
  }

  lemma {:induction false} ChanceOf(eligible: seq<Candidate>, logU: Stream, k: nat, runs: nat, upto: nat, c: nat)
    requires AllPositive(eligible) && DistinctIds(eligible) && c < upto <= |eligible| && runs > 0
    ensures eligible[c].id in Chances(eligible, logU, k, runs, upto)
    ensures Chances(eligible, logU, k, runs, upto)[eligible[c].id] == Hits(eligible, logU, k, runs, c) as real / runs as real
  {
    hide Hits;
    if c < upto - 1 { ChanceOf(eligible, logU, k, runs, upto - 1, c); }
  }

  function SumChances(eligible: seq<Candidate>, table: map<int, real>, m: nat): real
    requires m <= |eligible| && forall c :: 0 <= c < m ==> eligible[c].id in table
  {
    if m == 0 then 0.0 else SumChances(eligible, table, m - 1) + table[eligible[m - 1].id]
  }

  lemma {:induction false} SumIsHits(eligible: seq<Candidate>, logU: Stream, k: nat, runs: nat, table: map<int, real>, m: nat)
    requires AllPositive(eligible) && m <= |eligible| && runs > 0
    requires forall c :: 0 <= c < m ==>
      eligible[c].id in table && table[eligible[c].id] == Hits(eligible, logU, k, runs, c) as real / runs as real
    ensures SumChances(eligible, table, m) == HitsUpTo(eligible, logU, k, runs, m) as real / runs as real
  {
    hide Hits;
    if m > 0 {
      SumIsHits(eligible, logU, k, runs, table, m - 1);
      AddFractions(HitsUpTo(eligible, logU, k, runs, m - 1) as real, Hits(eligible, logU, k, runs, m - 1) as real, runs as real);
    }
  }

  lemma AddFractions(a: real, b: real, r: real)
    requires r > 0.0
    ensures a / r + b / r == (a + b) / r
  {
  }

  /** The chances on the page add up to the number of prizes handed out. */
  lemma ChancesAddUp(pool: seq<Candidate>, n: int, runs: int, logU: Stream)
    requires DistinctIds(pool) && n > 0 && runs > 0
    ensures var eligible := WithDiapers(pool); var table := OddsOf(pool, n, runs, logU);
            && (forall c :: 0 <= c < |eligible| ==> eligible[c].id in table)
            && SumChances(eligible, table, |eligible|) == Prizes(n, |eligible|) as real
  {
    hide Hits, WithDiapers;
    var eligible := WithDiapers(pool);
    EligibleKeepsIds(pool);
    if |eligible| > 0 {
      var k := Prizes(n, |eligible|);
      var table := OddsOf(pool, n, runs, logU);
      forall c | 0 <= c < |eligible|
        ensures eligible[c].id in table && table[eligible[c].id] == Hits(eligible, logU, k, runs, c) as real / runs as real
      {
        ChanceOf(eligible, logU, k, runs, |eligible|, c);
      }
      SumIsHits(eligible, logU, k, runs, table, |eligible|);
      HitsConserved(eligible, logU, k, runs);
      Cancel(runs, k);
    }
  }

  lemma Cancel(runs: nat, k: nat)
    requires runs > 0
    ensures (runs * k) as real / runs as real == k as real
  {
    assert (runs * k) as real == runs as real * k as real;
  }

  // ----- more diapers never hurt -----

  ghost predicate LogsOfUniform(logU: Stream) { forall i: nat :: logU(i) <= 0.0 }

  /** Candidate g has brought more; everything else is the same. */
  predicate Raised(before: seq<Candidate>, after: seq<Candidate>, g: nat) {
    && AllPositive(before) && AllPositive(after)
    && g < |before| == |after| && after[g].count >= before[g].count
    && forall i :: 0 <= i < |before| && i != g ==> after[i] == before[i]
  }

  lemma KeyGrows(l: real, w: real, w': real)
    requires l <= 0.0 && 0.0 < w <= w'
    ensures l * (1.0 / w') >= l * (1.0 / w)
  {
    DivideOrMultiply(l, w);
    DivideOrMultiply(l, w');
    assert (1.0 / w) - (1.0 / w') == (w' - w) / (w * w');
    assert (w' - w) / (w * w') >= 0.0;
    var d := (1.0 / w) - (1.0 / w');
    assert l * d <= 0.0;
    assert l * (1.0 / w) == l * (1.0 / w') + l * d;
  }

  /** In every simulated draw the guest's rank is at least as good, and nobody else's is better. */
  lemma RanksImprove(before: seq<Candidate>, after: seq<Candidate>, g: nat, logU: Stream, r: nat, c: nat)
    requires Raised(before, after, g) && LogsOfUniform(logU) && c < |before|
    ensures c == g ==> Rank(RunKeys(after, logU, r), c) <= Rank(RunKeys(before, logU, r), c)
    ensures c != g ==> Rank(RunKeys(after, logU, r), c) >= Rank(RunKeys(before, logU, r), c)
  {
    hide Rank;
    var keys, raised := RunKeys(before, logU, r), RunKeys(after, logU, r);
    KeyGrows(logU(r * |before| + g), before[g].count as real, after[g].count as real);
    assert raised[g] >= keys[g];
    RaisingHelps(keys, raised, g, c);
  }

  lemma {:induction false} HitsImprove(before: seq<Candidate>, after: seq<Candidate>, g: nat, logU: Stream, k: nat,
                                           runs: nat, c: nat)
    requires Raised(before, after, g) && LogsOfUniform(logU) && c < |before|
    ensures c == g ==> Hits(after, logU, k, runs, c) >= Hits(before, logU, k, runs, c)
    ensures c != g ==> Hits(after, logU, k, runs, c) <= Hits(before, logU, k, runs, c)
  {
    hide Rank, RunKeys, Top, LogsOfUniform;
    if runs > 0 {
      HitsImprove(before, after, g, logU, k, runs - 1, c);
      RanksImprove(before, after, g, logU, runs - 1, c);
      WinsByRank(RunKeys(before, logU, runs - 1), c, k);
      WinsByRank(RunKeys(after, logU, runs - 1), c, k);
    }
  }

  lemma EligibleLast(pool: seq<Candidate>)
    requires pool != []
    ensures var c := pool[|pool| - 1];
            WithDiapers(pool) == WithDiapers(pool[..|pool| - 1]) + if c.count > 0 then [c] else []
  {
  }

  lemma RaisedThenMore(before: seq<Candidate>, after: seq<Candidate>, g: nat, more: seq<Candidate>)
    requires Raised(before, after, g) && AllPositive(more)
    ensures Raised(before + more, after + more, g)
  {
  }

  lemma RaisedAtEnd(init: seq<Candidate>, c: Candidate, more: int)
    requires AllPositive(init) && 0 < c.count <= more
    ensures Raised(init + [c], init + [c.(count := more)], |init|)
  {
  }

  /** Changing one eligible count changes just that entry of the eligible list. */
  lemma {:induction false} EligibleUpdate(pool: seq<Candidate>, p: nat, more: int)
    requires p < |pool| && 0 < pool[p].count <= more
    ensures var g := |WithDiapers(pool[..p])|;
            Raised(WithDiapers(pool), WithDiapers(pool[p := pool[p].(count := more)]), g)
            && WithDiapers(pool)[g] == pool[p]
            && WithDiapers(pool[p := pool[p].(count := more)])[g] == pool[p].(count := more)
  {
    hide WithDiapers;
    var last := |pool| - 1;
    var pool' := pool[p := pool[p].(count := more)];
    var init, init' := pool[..last], pool'[..last];
    EligibleLast(pool);
    EligibleLast(pool');
    if p == last {
      assert init == init' == pool[..p];
      RaisedAtEnd(WithDiapers(init), pool[p], more);
    } else {
      EligibleUpdate(init, p, more);
      assert init' == init[p := init[p].(count := more)] && init[..p] == pool[..p];
      RaisedThenMore(WithDiapers(init), WithDiapers(init'), |WithDiapers(pool[..p])|,
                     if pool[last].count > 0 then [pool[last]] else []);
    }
  }

  /**
   * With the randomness and everybody else fixed, a guest who brings more
   * diapers never sees a smaller chance, and never gives anybody else a bigger one.
   */
  lemma MoreDiapersNeverHurt(pool: seq<Candidate>, p: nat, more: int, n: int, runs: int, logU: Stream, q: nat)
    requires DistinctIds(pool) && p < |pool| && 0 < pool[p].count <= more && LogsOfUniform(logU)
    requires q < |pool| && pool[q].count > 0 && n > 0 && runs > 0
    ensures var before := OddsOf(pool, n, runs, logU);
            var after := OddsOf(pool[p := pool[p].(count := more)], n, runs, logU);
            && pool[q].id in before && pool[q].id in after
            && (q == p ==> after[pool[q].id] >= before[pool[q].id])
            && (q != p ==> after[pool[q].id] <= before[pool[q].id])
  {
    hide Hits, WithDiapers, Chances, LogsOfUniform;
    var pool' := pool[p := pool[p].(count := more)];
    var e, e' := WithDiapers(pool), WithDiapers(pool');
    var g := |WithDiapers(pool[..p])|;
    var k := Prizes(n, |e|);
    EligibleUpdate(pool, p, more);
    EligibleUpdate(pool, q, pool[q].count);
    var c := |WithDiapers(pool[..q])|;
    assert e[c] == pool[q];
    EligibleKeepsIds(pool);
    EligibleKeepsIds(pool');
    assert c == g ==> q == p by { assert e[g].id == pool[p].id; }
    assert c != g ==> q != p;
    ChanceOf(e, logU, k, runs, |e|, c);
    ChanceOf(e', logU, k, runs, |e|, c);
    HitsImprove(e, e', g, logU, k, runs, c);
    Fractions(Hits(e, logU, k, runs, c), Hits(e', logU, k, runs, c), runs);
    assert e'[c].id == pool[q].id;
  }

  lemma Fractions(a: nat, b: nat, r: nat)
    requires r > 0
    ensures a <= b ==> a as real / r as real <= b as real / r as real
    ensures b <= a ==> b as real / r as real <= a as real / r as real
  {
  }
}
