/**
 * Picking winners and estimating odds. Randomness is an arbitrary stream of
 * logarithms of uniform draws; keys are real numbers.
 */
module Draw {
  import opened Ranking

  datatype Candidate = Candidate(id: int, name: string, count: int)

  type Stream = nat -> real

  /** The candidates who have diapers in the bowl, in pool order. */
  function WithDiapers(pool: seq<Candidate>): (out: seq<Candidate>)
    ensures forall i :: 0 <= i < |out| ==> out[i].count > 0
    ensures |out| <= |pool|
  {
    if pool == [] then []
    else
      var init, c := WithDiapers(pool[..|pool| - 1]), pool[|pool| - 1];
      if c.count > 0 then init + [c] else init
  }

  method Eligible(pool: seq<Candidate>) returns (out: seq<Candidate>)
    ensures out == WithDiapers(pool)
  {
    out := [];
    for i := 0 to |pool|
      invariant out == WithDiapers(pool[..i])
    {
      assert pool[..i + 1][..i] == pool[..i];
      if pool[i].count > 0 {
        out := out + [pool[i]];
      }
    }
    assert pool[..|pool|] == pool;
  }

  // ----- the draw -----

  /** log(U) / count for each eligible candidate. */
  function DrawKeys(eligible: seq<Candidate>, logU: Stream): (keys: seq<real>)
    requires forall i :: 0 <= i < |eligible| ==> eligible[i].count > 0
    ensures |keys| == |eligible|
  {
    seq(|eligible|, i requires 0 <= i < |eligible| => logU(i) / eligible[i].count as real)
  }

  /** An order in which sort.Slice may leave the keys: descending, ties as they fall. */
  ghost predicate SortedPermutation(keys: seq<real>, perm: seq<nat>) {
    && |perm| == |keys|
    && (forall p :: 0 <= p < |perm| ==> perm[p] < |keys|)
    && (forall p, q :: 0 <= p < q < |perm| ==> perm[p] != perm[q] && keys[perm[p]] >= keys[perm[q]])
  }

  function Prizes(n: int, entrants: nat): nat {
    if n <= 0 then 0 else if n > entrants then entrants else n
  }

  /** The winners are the first Prizes(n, ...) of the eligible in some sorted order. */
  ghost predicate IsDraw(pool: seq<Candidate>, n: int, logU: Stream, winners: seq<Candidate>) {
    var eligible := WithDiapers(pool);
    |winners| == Prizes(n, |eligible|) && exists perm :: DrawnInOrder(eligible, DrawKeys(eligible, logU), winners, perm)
  }

  ghost predicate DrawnInOrder(eligible: seq<Candidate>, keys: seq<real>, winners: seq<Candidate>, perm: seq<nat>)
    requires |keys| == |eligible|
  {
    && SortedPermutation(keys, perm)
    && |winners| <= |perm|
    && forall k :: 0 <= k < |winners| ==> winners[k] == eligible[perm[k]]
  }

  /** sort.Slice, of which callers may only rely on the result being sorted. */
  method SortDescending(keys: seq<real>) returns (perm: seq<nat>)
    ensures SortedPermutation(keys, perm)
  {
    perm := Ranked(keys, |keys|);
    RankedIsPermutation(keys);
  }

  lemma RankedIsPermutation(keys: seq<real>)
    ensures SortedPermutation(keys, Ranked(keys, |keys|))
  {
    RankedIsSorted(keys, |keys|);
  }

  method Draw(pool: seq<Candidate>, n: int, logU: Stream) returns (winners: seq<Candidate>)
    ensures IsDraw(pool, n, logU, winners)
  {
    hide WithDiapers, SortedPermutation, IsDraw, DrawKeys;
    var eligible := Eligible(pool);
    if n <= 0 || |eligible| == 0 {
      NoWinners(pool, n, logU);
      return [];
    }
    var keys := KeyEach(eligible, logU);
    var perm := SortDescending(keys);
    PermutationFits(keys, perm);
    var take := if n > |keys| then |keys| else n;
    winners := [];
    for i := 0 to take
      invariant |winners| == i
      invariant forall k :: 0 <= k < i ==> winners[k] == eligible[perm[k]]
    {
      winners := winners + [eligible[perm[i]]];
    }
    WinnersInOrder(pool, n, logU, winners, perm);
  }

  method KeyEach(eligible: seq<Candidate>, logU: Stream) returns (keys: seq<real>)
    requires forall i :: 0 <= i < |eligible| ==> eligible[i].count > 0
    ensures keys == DrawKeys(eligible, logU)
  {
    keys := [];
    for i := 0 to |eligible|
      invariant keys == DrawKeys(eligible, logU)[..i]
    {
      keys := keys + [logU(i) / eligible[i].count as real];
    }
  }

  lemma PermutationFits(keys: seq<real>, perm: seq<nat>)
    requires SortedPermutation(keys, perm)
    ensures |perm| == |keys| && forall p :: 0 <= p < |perm| ==> perm[p] < |keys|
  {
  }

  lemma NoWinners(pool: seq<Candidate>, n: int, logU: Stream)
    requires n <= 0 || WithDiapers(pool) == []
    ensures IsDraw(pool, n, logU, [])
  {
    hide WithDiapers, SortedPermutation, DrawKeys;
    var eligible := WithDiapers(pool);
    var order := Ranked(DrawKeys(eligible, logU), |eligible|);
    RankedIsPermutation(DrawKeys(eligible, logU));
    assert DrawnInOrder(eligible, DrawKeys(eligible, logU), [], order) by { PermutationFits(DrawKeys(eligible, logU), order); }
  }

  lemma WinnersInOrder(pool: seq<Candidate>, n: int, logU: Stream, winners: seq<Candidate>, perm: seq<nat>)
    requires |winners| == Prizes(n, |WithDiapers(pool)|)
    requires SortedPermutation(DrawKeys(WithDiapers(pool), logU), perm) && |winners| <= |perm| == |WithDiapers(pool)|
    requires forall k :: 0 <= k < |winners| ==> perm[k] < |WithDiapers(pool)| && winners[k] == WithDiapers(pool)[perm[k]]
    ensures IsDraw(pool, n, logU, winners)
  {
    hide WithDiapers, DrawKeys;
    assert DrawnInOrder(WithDiapers(pool), DrawKeys(WithDiapers(pool), logU), winners, perm);
  }

  /** The order behind a draw. */
  lemma DrawOrder(pool: seq<Candidate>, n: int, logU: Stream, winners: seq<Candidate>) returns (perm: seq<nat>)
    requires IsDraw(pool, n, logU, winners)
    ensures var eligible := WithDiapers(pool);
            && SortedPermutation(DrawKeys(eligible, logU), perm)
            && |perm| == |eligible| && |winners| == Prizes(n, |eligible|)
            && forall k :: 0 <= k < |winners| ==> perm[k] < |eligible| && winners[k] == eligible[perm[k]]
  {
    hide DrawKeys, WithDiapers;
    var eligible := WithDiapers(pool);
    perm :| DrawnInOrder(eligible, DrawKeys(eligible, logU), winners, perm);
  }

  // ----- the odds: specification -----

  /** The keys of simulated draw r: the stream is read on from run to run. */
  function RunKeys(eligible: seq<Candidate>, logU: Stream, r: nat): (keys: seq<real>)
    requires forall i :: 0 <= i < |eligible| ==> eligible[i].count > 0
    ensures |keys| == |eligible|
  {
    seq(|eligible|, i requires 0 <= i < |eligible| => logU(r * |eligible| + i) * (1.0 / eligible[i].count as real))
  }

  /** In how many of the first `runs` simulated draws candidate c wins one of k prizes. */
  function Hits(eligible: seq<Candidate>, logU: Stream, k: nat, runs: nat, c: nat): nat
    requires forall i :: 0 <= i < |eligible| ==> eligible[i].count > 0
  {
    if runs == 0 then 0
    else Hits(eligible, logU, k, runs - 1, c)
         + if c in Top(RunKeys(eligible, logU, runs - 1), k) then 1 else 0
  }

  /** The table of chances for the first `upto` candidates, written in order. */
  function Chances(eligible: seq<Candidate>, logU: Stream, k: nat, runs: nat, upto: nat): map<int, real>
    requires forall i :: 0 <= i < |eligible| ==> eligible[i].count > 0
    requires upto <= |eligible| && runs > 0
  {
    if upto == 0 then map[]
    else Chances(eligible, logU, k, runs, upto - 1)
         [eligible[upto - 1].id := Hits(eligible, logU, k, runs, upto - 1) as real / runs as real]
  }

  function OddsOf(pool: seq<Candidate>, n: int, runs: int, logU: Stream): map<int, real> {
    var eligible := WithDiapers(pool);
    if |eligible| == 0 || n <= 0 || runs <= 0 then map[]
    else Chances(eligible, logU, Prizes(n, |eligible|), runs, |eligible|)
  }

  // ----- the odds: the streaming top-k over reused arrays -----

  lemma InsertStep(keys: seq<real>, order: seq<nat>, pos: nat, i: nat)
    requires i < |keys| && 0 < pos <= |order| && forall p :: 0 <= p < |order| ==> order[p] < |keys|
    requires keys[order[pos - 1]] < keys[i]
    ensures Insert(keys, order[..pos], i) + order[pos..] == Insert(keys, order[..pos - 1], i) + order[pos - 1..]
  {
    assert order[..pos][..pos - 1] == order[..pos - 1];
    assert order[pos - 1..] == [order[pos - 1]] + order[pos..];
  }

  lemma InsertHere(keys: seq<real>, order: seq<nat>, pos: nat, i: nat)
    requires i < |keys| && pos <= |order| && forall p :: 0 <= p < |order| ==> order[p] < |keys|
    requires pos > 0 ==> keys[order[pos - 1]] >= keys[i]
    ensures Insert(keys, order[..pos], i) == order[..pos] + [i]
  {
  }

  /** Part way through a shift: entries from pos on have moved up one, leaving a gap at pos. */
  ghost predicate Shifting(keys: seq<real>, order: seq<nat>, topKey: seq<real>, topIdx: seq<nat>, pos: nat) {
    && pos <= |order| < |topKey| == |topIdx|
    && (forall p :: 0 <= p < pos ==> topIdx[p] == order[p])
    && (forall p :: pos <= p < |order| ==> topIdx[p + 1] == order[p])
    && (forall p :: 0 <= p <= |order| && p != pos ==> topIdx[p] < |keys| && topKey[p] == keys[topIdx[p]])
  }

  lemma ShiftStep(keys: seq<real>, order: seq<nat>, topKey: seq<real>, topIdx: seq<nat>, pos: nat, i: nat)
    requires Shifting(keys, order, topKey, topIdx, pos) && 0 < pos && i < |keys| && topKey[pos - 1] < keys[i]
    ensures Shifting(keys, order, topKey[pos := topKey[pos - 1]], topIdx[pos := topIdx[pos - 1]], pos - 1)
    ensures Insert(keys, order[..pos], i) + order[pos..] == Insert(keys, order[..pos - 1], i) + order[pos - 1..]
  {
    hide Insert;
    OrderInRange(keys, order, topKey, topIdx, pos);
    assert keys[order[pos - 1]] == topKey[pos - 1];
    InsertStep(keys, order, pos, i);
  }

  lemma OrderInRange(keys: seq<real>, order: seq<nat>, topKey: seq<real>, topIdx: seq<nat>, pos: nat)
    requires Shifting(keys, order, topKey, topIdx, pos)
    ensures forall p :: 0 <= p < |order| ==> order[p] < |keys|
  {
    forall p | 0 <= p < |order| ensures order[p] < |keys| {
      assert order[p] == if p < pos then topIdx[p] else topIdx[p + 1];
    }
  }

  lemma ShiftDone(keys: seq<real>, order: seq<nat>, topKey: seq<real>, topIdx: seq<nat>, pos: nat, i: nat,
                  filledKey: seq<real>, filledIdx: seq<nat>)
    requires Shifting(keys, order, topKey, topIdx, pos) && i < |keys| && (pos > 0 ==> topKey[pos - 1] >= keys[i])
    requires filledKey == topKey[pos := keys[i]] && filledIdx == topIdx[pos := i]
    ensures |order| < |filledIdx| == |filledKey|
    ensures filledIdx[..|order| + 1] == Insert(keys, order[..pos], i) + order[pos..]
    ensures forall p :: 0 <= p <= |order| ==> filledIdx[p] < |keys| && filledKey[p] == keys[filledIdx[p]]
  {
    hide Insert;
    OrderInRange(keys, order, topKey, topIdx, pos);
    assert pos > 0 ==> keys[order[pos - 1]] == topKey[pos - 1];
    InsertHere(keys, order, pos, i);
    GapFilled(order, topIdx[..|order| + 1], pos, i);
    assert filledIdx[..|order| + 1] == topIdx[..|order| + 1][pos := i];
  }

  /** Shifts smaller keys down from `start` and drops candidate i into the gap. */
  method ShiftIn(topKey: array<real>, topIdx: array<nat>, start: nat, key: real, i: nat, ghost keys: seq<real>)
    requires topKey != topIdx as object && start < topKey.Length == topIdx.Length
    requires i < |keys| && keys[i] == key
    requires forall p :: 0 <= p < start ==> topIdx[p] < |keys| && topKey[p] == keys[topIdx[p]]
    modifies topKey, topIdx
    ensures forall p :: 0 <= p <= start ==> topIdx[p] < |keys| && topKey[p] == keys[topIdx[p]]
    ensures topIdx[..start + 1] == Insert(keys, old(topIdx[..start]), i)
  {
    ghost var order := topIdx[..start];
    assert Shifting(keys, order, topKey[..], topIdx[..], start);
    hide Insert, Shifting;
    assert order[..start] == order && order[start..] == [];
    var pos := start;
    while pos > 0 && topKey[pos - 1] < key
      invariant 0 <= pos <= start
      invariant Shifting(keys, order, topKey[..], topIdx[..], pos)
      invariant Insert(keys, order, i) == Insert(keys, order[..pos], i) + order[pos..]
    {
      ghost var tk, ti := topKey[..], topIdx[..];
      ShiftStep(keys, order, tk, ti, pos, i);
      topKey[pos], topIdx[pos] := topKey[pos - 1], topIdx[pos - 1];
      assert topKey[..] == tk[pos := tk[pos - 1]] && topIdx[..] == ti[pos := ti[pos - 1]];
      pos := pos - 1;
    }
    ghost var tk, ti := topKey[..], topIdx[..];
    topKey[pos], topIdx[pos] := key, i;
    ShiftDone(keys, order, tk, ti, pos, i, topKey[..], topIdx[..]);
    assert topIdx[..start + 1] == topIdx[..][..start + 1];
    forall p | 0 <= p <= start ensures topIdx[p] < |keys| && topKey[p] == keys[topIdx[p]] {
      assert topIdx[p] == topIdx[..][p] && topKey[p] == topKey[..][p];
    }
  }

  lemma GapFilled(order: seq<nat>, gapped: seq<nat>, pos: nat, i: nat)
    requires |gapped| == |order| + 1 && pos <= |order|
    requires forall p :: 0 <= p < pos ==> gapped[p] == order[p]
    requires forall p :: pos <= p < |order| ==> gapped[p + 1] == order[p]
    ensures gapped[pos := i] == order[..pos] + [i] + order[pos..]
  {
    var filled := gapped[pos := i];
    assert forall p :: pos < p <= |order| ==> filled[p] == order[p - 1];
  }

  /** What one more key does to the best `take` so far, in each of the loop's three cases. */
  lemma StreamStep(keys: seq<real>, i: nat, take: nat, best: seq<nat>)
    requires i < |keys| && take > 0 && best == Take(Ranked(keys, i), take)
    ensures |best| == if i < take then i else take
    ensures forall p :: 0 <= p < |best| ==> best[p] < |keys|
    ensures i < take ==> Insert(keys, best, i) == Take(Ranked(keys, i + 1), take)
    ensures i >= take && keys[i] <= keys[best[take - 1]] ==> best == Take(Ranked(keys, i + 1), take)
    ensures i >= take && keys[i] > keys[best[take - 1]] ==>
              Insert(keys, best[..take - 1], i) == Take(Ranked(keys, i + 1), take)
  {
    RankedIsSorted(keys, i);
    TakeInsert(keys, Ranked(keys, i), i, take);
  }

  lemma TopStart(keys: seq<real>, take: nat)
    ensures Take(Ranked(keys, 0), take) == [] && Top(keys, take) == Take(Ranked(keys, |keys|), take)
  {
  }

  /** One simulated draw: keeps the best `take` candidates seen so far, best first. */
  method SimulateDraw(eligible: seq<Candidate>, inverse: seq<real>, logU: Stream, r: nat,
                      topKey: array<real>, topIdx: array<nat>)
    requires forall i :: 0 <= i < |eligible| ==> eligible[i].count > 0
    requires |inverse| == |eligible| && forall i :: 0 <= i < |eligible| ==> inverse[i] == 1.0 / eligible[i].count as real
    requires topKey != topIdx as object && 0 < topKey.Length == topIdx.Length <= |eligible|
    modifies topKey, topIdx
    ensures topIdx[..] == Top(RunKeys(eligible, logU, r), topIdx.Length)
  {
    hide Ranked, Insert, Take, Top;
    var take := topIdx.Length;
    ghost var keys := RunKeys(eligible, logU, r);
    TopStart(keys, take);
    var filled := 0;
    for i := 0 to |eligible|
      invariant filled == if i < take then i else take
      invariant topIdx[..filled] == Take(Ranked(keys, i), take)
      invariant forall p :: 0 <= p < filled ==> topIdx[p] < |keys| && topKey[p] == keys[topIdx[p]]
    {
      var key := logU(r * |eligible| + i) * inverse[i];
      assert key == keys[i];
      StreamStep(keys, i, take, topIdx[..filled]);
      if filled < take {
        ShiftIn(topKey, topIdx, filled, key, i, keys);
        filled := filled + 1;
        continue;
      }
      assert topIdx[..take][take - 1] == topIdx[take - 1] && topIdx[..take][..take - 1] == topIdx[..take - 1];
      if key <= topKey[take - 1] {
        continue;
      }
      ShiftIn(topKey, topIdx, take - 1, key, i, keys);
    }
    assert topIdx[..] == topIdx[..take];
  }

  /** Counts one win for each candidate placed. */
  method AddHits(topIdx: array<nat>, hits: array<int>, ghost keys: seq<real>)
    requires topIdx != hits as object && |keys| == hits.Length && topIdx[..] == Top(keys, topIdx.Length)
    modifies hits
    ensures forall c :: 0 <= c < hits.Length ==>
      hits[c] == old(hits[c]) + if c in Top(keys, topIdx.Length) then 1 else 0
  {
    hide Top;
    ghost var top := Top(keys, topIdx.Length);
    TopDistinct(keys, topIdx.Length);
    for i := 0 to topIdx.Length
      invariant topIdx[..] == top
      invariant forall c :: 0 <= c < hits.Length ==> hits[c] == old(hits[c]) + if c in top[..i] then 1 else 0
    {
      assert top[..i + 1] == top[..i] + [top[i]];
      hits[topIdx[i]] := hits[topIdx[i]] + 1;
    }
    assert top[..topIdx.Length] == top;
  }

  method Odds(pool: seq<Candidate>, n: int, runs: int, logU: Stream) returns (out: map<int, real>)
    ensures out == OddsOf(pool, n, runs, logU)
  {
    hide Top, RunKeys;
    var eligible := Eligible(pool);
    out := map[];
    if |eligible| == 0 || n <= 0 || runs <= 0 {
      return;
    }
    var hits := new int[|eligible|](_ => 0);
    var inverse := seq(|eligible|, i requires 0 <= i < |eligible| => 1.0 / eligible[i].count as real);
    var take := if n > |eligible| then |eligible| else n;
    var topIdx := new nat[take];
    var topKey := new real[take];
    for r := 0 to runs
      invariant forall c :: 0 <= c < |eligible| ==> hits[c] == Hits(eligible, logU, take, r, c)
    {
      SimulateDraw(eligible, inverse, logU, r, topKey, topIdx);
      AddHits(topIdx, hits, RunKeys(eligible, logU, r));
    }
    for i := 0 to |eligible|
      invariant out == Chances(eligible, logU, take, runs, i)
      invariant forall c :: 0 <= c < |eligible| ==> hits[c] == Hits(eligible, logU, take, runs, c)
    {
      out := out[eligible[i].id := hits[i] as real / runs as real];
    }
  }

  lemma TopDistinct(keys: seq<real>, k: nat)
    ensures forall p, q :: 0 <= p < q < |Top(keys, k)| ==> Top(keys, k)[p] != Top(keys, k)[q]
  {
    RankedIsSorted(keys, |keys|);
  }
}
