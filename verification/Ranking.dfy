/** Ranking keys from largest to smallest, earlier candidates first among equals. */
module Ranking {
  /** Candidate i is placed ahead of candidate j. */
  predicate Before(keys: seq<real>, i: nat, j: nat)
    requires i < |keys| && j < |keys|
  {
    keys[i] > keys[j] || (keys[i] == keys[j] && i < j)
  }

  /** Puts i into a ranked list: past every key smaller than its own, from the back. */
  function Insert(keys: seq<real>, order: seq<nat>, i: nat): (r: seq<nat>)
    requires i < |keys| && forall p :: 0 <= p < |order| ==> order[p] < |keys|
    ensures |r| == |order| + 1
    ensures forall p :: 0 <= p < |r| ==> r[p] < |keys|
  {
    if order != [] && keys[order[|order| - 1]] < keys[i]
    then Insert(keys, order[..|order| - 1], i) + [order[|order| - 1]]
    else order + [i]
  }

  /** The first n candidates, ranked. */
  function Ranked(keys: seq<real>, n: nat): (r: seq<nat>)
    requires n <= |keys|
    ensures |r| == n
    ensures forall p :: 0 <= p < n ==> r[p] < |keys|
  {
    if n == 0 then [] else Insert(keys, Ranked(keys, n - 1), n - 1)
  }

  function Take<T>(s: seq<T>, k: nat): seq<T> { if |s| <= k then s else s[..k] }

  /** Who wins k prizes. */
  function Top(keys: seq<real>, k: nat): (r: seq<nat>)
    ensures |r| == if k < |keys| then k else |keys|
    ensures forall p :: 0 <= p < |r| ==> r[p] < |keys|
  {
    Take(Ranked(keys, |keys|), k)
  }

  ghost predicate SortedBefore(keys: seq<real>, order: seq<nat>) {
    && (forall p :: 0 <= p < |order| ==> order[p] < |keys|)
    && (forall p, q :: 0 <= p < q < |order| ==> Before(keys, order[p], order[q]))
  }

  // ----- Ranked is the stable descending sort -----

  lemma {:induction false} InsertMembers(keys: seq<real>, order: seq<nat>, i: nat)
    requires i < |keys| && forall p :: 0 <= p < |order| ==> order[p] < |keys|
    ensures forall x :: x in Insert(keys, order, i) <==> x in order || x == i
  {
    if order != [] && keys[order[|order| - 1]] < keys[i] {
      InsertMembers(keys, order[..|order| - 1], i);
      assert order == order[..|order| - 1] + [order[|order| - 1]];
    }
  }

  lemma {:induction false} InsertSorted(keys: seq<real>, order: seq<nat>, i: nat)
    requires i < |keys| && SortedBefore(keys, order)
    requires forall p :: 0 <= p < |order| ==> order[p] < i
    ensures SortedBefore(keys, Insert(keys, order, i))
  {
    if order != [] {
      var last, init := order[|order| - 1], order[..|order| - 1];
      if keys[last] < keys[i] {
        InsertSorted(keys, init, i);
        var r := Insert(keys, init, i);
        InsertMembers(keys, init, i);
        forall p | 0 <= p < |r| ensures Before(keys, r[p], last) {
          assert r[p] in r;
          if r[p] != i { var q :| 0 <= q < |init| && init[q] == r[p]; assert order[q] == init[q]; }
        }
      }
    }
  }

  /** Ranked lists exactly the first n candidates, best first. */
  lemma {:induction false} RankedIsSorted(keys: seq<real>, n: nat)
    requires n <= |keys|
    ensures SortedBefore(keys, Ranked(keys, n))
    ensures forall x: nat :: x in Ranked(keys, n) <==> x < n
  {
    if n > 0 {
      RankedIsSorted(keys, n - 1);
      var order := Ranked(keys, n - 1);
      forall p | 0 <= p < |order| ensures order[p] < n - 1 { assert order[p] in order; }
      InsertSorted(keys, order, n - 1);
      InsertMembers(keys, order, n - 1);
    }
  }

  /** Two sorted lists of the same candidates agree position by position. */
  lemma {:induction false} SortedUnique(keys: seq<real>, a: seq<nat>, b: seq<nat>, r: nat)
    requires SortedBefore(keys, a) && SortedBefore(keys, b)
    requires |a| == |b| && r <= |a|
    requires forall x :: x in a <==> x in b
    ensures a[..r] == b[..r]
  {
    if r > 0 {
      SortedUnique(keys, a, b, r - 1);
      assert forall x :: 0 <= x < r - 1 ==> a[x] == a[..r - 1][x] && b[x] == b[..r - 1][x];
      assert a[r - 1] in b && b[r - 1] in a;
      var p :| 0 <= p < |b| && b[p] == a[r - 1];
      var q :| 0 <= q < |a| && a[q] == b[r - 1];
    }
  }

  // ----- keeping only the best k while streaming -----

  /** Dropping all but the best k before inserting does not change the best k after. */
  lemma {:induction false} TakeInsert(keys: seq<real>, order: seq<nat>, i: nat, k: nat)
    requires i < |keys| && forall p :: 0 <= p < |order| ==> order[p] < |keys|
    requires SortedBefore(keys, order)
    ensures Take(Insert(keys, order, i), k) == Take(Insert(keys, Take(order, k), i), k)
  {
    if |order| > k {
      var last, init := order[|order| - 1], order[..|order| - 1];
      TakeInsert(keys, init, i, k);
      assert Take(init, k) == Take(order, k);
      if keys[last] < keys[i] {
        assert Take(Insert(keys, init, i) + [last], k) == Take(Insert(keys, init, i), k);
      } else {
        assert Take(order + [i], k) == order[..k];
        NotInserted(keys, order, i, k);
      }
    }
  }

  /** A newcomer that beats nobody among the best k leaves them alone. */
  lemma NotInserted(keys: seq<real>, order: seq<nat>, i: nat, k: nat)
    requires i < |keys| && SortedBefore(keys, order) && k < |order|
    requires keys[order[|order| - 1]] >= keys[i]
    ensures Take(Insert(keys, order[..k], i), k) == order[..k]
  {
    if k > 0 { assert Before(keys, order[k - 1], order[|order| - 1]); }
  }

  // ----- ranks -----

  /** How many candidates are placed ahead of i. */
  ghost function Rank(keys: seq<real>, i: nat): nat
    requires i < |keys|
  {
    |Ahead(keys, i)|
  }

  ghost function Ahead(keys: seq<real>, i: nat): set<nat>
    requires i < |keys|
  {
    set j: nat | j < |keys| && Before(keys, j, i)
  }

  ghost function Members(s: seq<nat>): set<nat> { set x | x in s }

  lemma {:induction false} SizeOfDistinct(s: seq<nat>)
    requires forall p, q :: 0 <= p < q < |s| ==> s[p] != s[q]
    ensures |Members(s)| == |s|
  {
    if s != [] {
      var init := s[..|s| - 1];
      SizeOfDistinct(init);
      assert s == init + [s[|s| - 1]] && s[|s| - 1] !in init;
      assert Members(s) == Members(init) + {s[|s| - 1]};
    }
  }

  lemma AheadAreEarlier(keys: seq<real>, r: seq<nat>, p: nat)
    requires SortedBefore(keys, r) && p < |r| == |keys| && forall x: nat :: x in r <==> x < |keys|
    ensures r[p] < |keys| && Ahead(keys, r[p]) == Members(r[..p])
  {
    var ahead := r[..p];
    forall j | j in Ahead(keys, r[p]) ensures j in ahead {
      assert j in r;
      var q :| 0 <= q < |r| && r[q] == j;
      assert q < p && ahead[q] == j;
    }
    forall j | j in ahead ensures j in Ahead(keys, r[p]) {
      var q :| 0 <= q < p && ahead[q] == j;
      assert Before(keys, r[q], r[p]);
    }
  }

  lemma SortedDistinct(keys: seq<real>, r: seq<nat>)
    requires SortedBefore(keys, r)
    ensures forall p, q :: 0 <= p < q < |r| ==> r[p] != r[q]
  {
    forall p, q | 0 <= p < q < |r| ensures r[p] != r[q] { assert Before(keys, r[p], r[q]); }
  }

  /** The candidate in position p of the ranking is the one with p candidates ahead. */
  lemma PositionIsRank(keys: seq<real>, p: nat)
    requires p < |keys|
    ensures Rank(keys, Ranked(keys, |keys|)[p]) == p
  {
    hide Ranked, Before, SortedBefore, Members, Ahead;
    var r := Ranked(keys, |keys|);
    RankedIsSorted(keys, |keys|);
    SortedDistinct(keys, r);
    SizeOfDistinct(r[..p]);
    AheadAreEarlier(keys, r, p);
  }

  /** A candidate wins one of k prizes exactly when fewer than k are ahead. */
  lemma WinsByRank(keys: seq<real>, i: nat, k: nat)
    requires i < |keys|
    ensures i in Top(keys, k) <==> Rank(keys, i) < k
  {
    hide Rank, Before;
    var r := Ranked(keys, |keys|);
    RankedIsSorted(keys, |keys|);
    assert i in r;
    var p :| 0 <= p < |r| && r[p] == i;
    PositionIsRank(keys, p);
    if p < k { assert Top(keys, k)[p] == i; }
    if i in Top(keys, k) {
      var q :| 0 <= q < |Top(keys, k)| && Top(keys, k)[q] == i;
      PositionIsRank(keys, q);
    }
  }

  /**
   * If one key grows and the others stay, its owner is ahead of at least as
   * many candidates as before, and everybody else of at most as many.
   */
  lemma RaisingHelps(keys: seq<real>, raised: seq<real>, g: nat, i: nat)
    requires g < |keys| == |raised| && i < |keys| && raised[g] >= keys[g]
    requires forall j :: 0 <= j < |keys| && j != g ==> raised[j] == keys[j]
    ensures i == g ==> Rank(raised, i) <= Rank(keys, i)
    ensures i != g ==> Rank(raised, i) >= Rank(keys, i)
  {
    if i == g {
      assert Ahead(raised, i) <= Ahead(keys, i);
      SubsetSize(Ahead(raised, i), Ahead(keys, i));
    } else {
      assert Ahead(keys, i) <= Ahead(raised, i);
      SubsetSize(Ahead(keys, i), Ahead(raised, i));
    }
  }

  lemma SubsetSize<T>(a: set<T>, b: set<T>)
    requires a <= b
    ensures |a| <= |b|
  {
    assert b == a + (b - a);
  }
}
