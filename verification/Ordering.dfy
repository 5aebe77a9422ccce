/** SQL's ORDER BY rank, id over the selected rows of a table. */
module Ordering {
  predicate Precedes(rank: map<int, int>, a: int, b: int)
    requires a in rank && b in rank
  {
    rank[a] < rank[b] || (rank[a] == rank[b] && a < b)
  }

  predicate IsFirst(rank: map<int, int>, a: int) {
    a in rank && forall b :: b in rank && b != a ==> Precedes(rank, a, b)
  }

  lemma NoKeysEmpty(rank: map<int, int>)
    ensures (forall x :: x !in rank) ==> rank == map[]
  {
    if forall x :: x !in rank { assert rank == map[]; }
  }

  lemma FirstExists(rank: map<int, int>)
    requires rank != map[]
    ensures exists a :: IsFirst(rank, a)
    decreases |rank|
  {
    NoKeysEmpty(rank);
    var x :| x in rank;
    var rest := rank - {x};
    if rest == map[] {
      assert forall b :: b in rank ==> b == x || b in rest;
      assert IsFirst(rank, x);
    } else {
      FirstExists(rest);
      var a :| IsFirst(rest, a);
      assert forall b :: b in rank ==> b == x || b in rest;
      if Precedes(rank, a, x) {
        assert IsFirst(rank, a);
      } else {
        assert IsFirst(rank, x);
      }
    }
  }

  function First(rank: map<int, int>): (a: int)
    requires rank != map[]
    ensures IsFirst(rank, a)
  {
    FirstExists(rank);
    var a :| IsFirst(rank, a);
    a
  }

  predicate SortedBy(rank: map<int, int>, ids: seq<int>) {
    && (forall i :: 0 <= i < |ids| ==> ids[i] in rank)
    && (forall i, j :: 0 <= i < j < |ids| ==> Precedes(rank, ids[i], ids[j]))
  }

  function Ordered(rank: map<int, int>): (ids: seq<int>)
    ensures SortedBy(rank, ids)
    ensures forall x :: x in ids <==> x in rank
    decreases |rank|
  {
    if rank == map[] then []
    else
      var a := First(rank);
      var rest := rank - {a};
      assert forall b :: b in rank ==> b == a || b in rest;
      [a] + Ordered(rest)
  }

  lemma FirstOfSorted(rank: map<int, int>, ids: seq<int>)
    requires ids != [] && SortedBy(rank, ids) && forall x :: x in ids <==> x in rank
    ensures rank != map[] && First(rank) == ids[0]
  {
    hide Precedes;
    assert ids[0] in rank;
    var a := First(rank);
    assert a in ids;
    var i :| 0 <= i < |ids| && ids[i] == a;
    NotBothWays(rank, ids[0], a);
  }

  lemma NotBothWays(rank: map<int, int>, a: int, b: int)
    requires a in rank && b in rank
    ensures !(Precedes(rank, a, b) && Precedes(rank, b, a))
  {
  }

  lemma RestOfSorted(rank: map<int, int>, ids: seq<int>)
    requires ids != [] && SortedBy(rank, ids) && forall x :: x in ids <==> x in rank
    ensures SortedBy(rank - {ids[0]}, ids[1..]) && forall x :: x in ids[1..] <==> x in rank - {ids[0]}
  {
    hide Precedes;
    var rest, tail := rank - {ids[0]}, ids[1..];
    assert forall i :: 0 <= i < |tail| ==> tail[i] == ids[i + 1];
    forall i | 0 <= i < |tail| ensures tail[i] in rest {
      assert Precedes(rank, ids[0], ids[i + 1]);
      NotBothWays(rank, ids[0], ids[0]);
    }
    forall i, j | 0 <= i < j < |tail| ensures Precedes(rest, tail[i], tail[j]) {
      PrecedesRest(rank, ids[0], tail[i], tail[j]);
    }
    assert ids == [ids[0]] + tail;
  }

  /** There is only one way to sort: any sorted list of the same ids is it. */
  lemma {:induction false} OrderedUnique(rank: map<int, int>, ids: seq<int>)
    requires SortedBy(rank, ids)
    requires forall x :: x in ids <==> x in rank
    ensures Ordered(rank) == ids
    decreases |rank|
  {
    hide SortedBy, IsFirst;
    if ids == [] {
      assert rank == map[] by { assert forall x :: x in rank ==> x in ids; }
    } else {
      FirstOfSorted(rank, ids);
      RestOfSorted(rank, ids);
      assert ids[0] in rank;
      OrderedUnique(rank - {ids[0]}, ids[1..]);
      assert ids == [ids[0]] + ids[1..];
    }
  }

  /** A row ranked after all others is listed last. */
  lemma OrderedAppend(rank: map<int, int>, id: int, r: int)
    requires id !in rank && forall x :: x in rank ==> rank[x] < r
    ensures Ordered(rank[id := r]) == Ordered(rank) + [id]
  {
    OrderedUnique(rank[id := r], Ordered(rank) + [id]);
  }

  /** Deleting a row closes the gap it leaves. */
  lemma OrderedRemove(rank: map<int, int>, i: nat)
    requires i < |Ordered(rank)|
    ensures Ordered(rank - {Ordered(rank)[i]}) == Ordered(rank)[..i] + Ordered(rank)[i + 1..]
  {
    hide Ordered, SortedBy;
    var ids := Ordered(rank);
    RemovedFromAll(rank, ids, i);
    RemovedIsSorted(rank, ids, i);
    OrderedUnique(rank - {ids[i]}, ids[..i] + ids[i + 1..]);
  }

  lemma RemovedIsSorted(rank: map<int, int>, ids: seq<int>, i: nat)
    requires SortedBy(rank, ids) && i < |ids|
    requires forall j :: 0 <= j < |ids| && j != i ==> ids[j] != ids[i]
    ensures SortedBy(rank - {ids[i]}, ids[..i] + ids[i + 1..])
  {
    hide Precedes;
    var less, rank' := ids[..i] + ids[i + 1..], rank - {ids[i]};
    assert forall j :: 0 <= j < |less| ==> less[j] == ids[if j < i then j else j + 1];
    forall j, k | 0 <= j < k < |less| ensures Precedes(rank', less[j], less[k]) {
      PrecedesRest(rank, ids[i], less[j], less[k]);
    }
  }

  lemma PrecedesRest(rank: map<int, int>, gone: int, a: int, b: int)
    requires a in rank && b in rank && a != gone && b != gone
    ensures Precedes(rank - {gone}, a, b) == Precedes(rank, a, b)
  {
  }

  lemma RemovedFromAll(rank: map<int, int>, ids: seq<int>, i: nat)
    requires SortedBy(rank, ids) && i < |ids| && forall x :: x in ids <==> x in rank
    ensures forall x :: x in ids[..i] + ids[i + 1..] <==> x in rank && x != ids[i]
    ensures forall j :: 0 <= j < |ids| && j != i ==> ids[j] != ids[i]
  {
    var less := ids[..i] + ids[i + 1..];
    assert forall j :: 0 <= j < |less| ==> less[j] == if j < i then ids[j] else ids[j + 1];
    forall j | 0 <= j < |ids| && j != i ensures ids[j] != ids[i] {
      assert j < i ==> Precedes(rank, ids[j], ids[i]);
      assert j > i ==> Precedes(rank, ids[i], ids[j]);
    }
    forall x | x in rank && x != ids[i] ensures x in less {
      var j :| 0 <= j < |ids| && ids[j] == x;
      assert less[if j < i then j else j - 1] == x;
    }
  }
}
