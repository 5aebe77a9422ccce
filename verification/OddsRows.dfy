/** What the rows of an odds table say of each guest. */
module OddsRows {
  import opened Tables
  import opened OddsCache
  import opened OddsTheorems
  import opened RosterEffects
  import Steps
  import D = Draw

  /** The stream an odds computation runs on. */
  function StreamOf(k: Key, seeds: Seeds): D.Stream { seeds(CacheKey(k)) }

  /** Where the i-th of the pool stands among the eligible: as many are before it. */
  function PlaceOf(pool: seq<D.Candidate>, i: nat): nat
    requires i <= |pool|
  {
    |D.WithDiapers(pool[..i])|
  }

  /** In how many of the simulated draws the i-th guest wins a prize. */
  function WinsOf(rows: map<int, Guest>, k: Key, seeds: Seeds, i: nat): nat
    requires i < |Listing(rows)| && k.prizes > 0 && k.runs > 0
  {
    var pool := Candidates(rows);
    var eligible := D.WithDiapers(pool);
    D.Hits(eligible, StreamOf(k, seeds), if k.prizes < |eligible| then k.prizes else |eligible|, k.runs, PlaceOf(pool, i))
  }

  lemma TableRow(rows: map<int, Guest>, k: Key, seeds: Seeds, i: nat)
    requires i < |Listing(rows)|
    ensures var ids := Listing(rows); var row := OddsTable(rows, k, seeds)[i];
            var chances := D.OddsOf(Candidates(rows), k.prizes, k.runs, StreamOf(k, seeds));
            && ids[i] in rows && row.guest == ids[i] && row.name == rows[ids[i]].name && row.count == rows[ids[i]].count
            && row.merged == rows[ids[i]].merged && (row.eligible <==> rows[ids[i]].count > 0)
            && row.chance == if ids[i] in chances then chances[ids[i]] else 0.0
  {
    hide Listing, Candidates, D.OddsOf, CacheKey, OddsTable;
    OddsTableAt(rows, k, seeds, i);
  }

  /** Who has diapers stands in the eligible list, at their place. */
  lemma AtPlace(pool: seq<D.Candidate>, i: nat)
    requires i < |pool| && pool[i].count > 0
    ensures PlaceOf(pool, i) < |D.WithDiapers(pool)| && D.WithDiapers(pool)[PlaceOf(pool, i)] == pool[i]
  {
    hide D.WithDiapers;
    EligibleUpdate(pool, i, pool[i].count);
  }

  lemma {:induction false} TableIds(eligible: seq<D.Candidate>, logU: D.Stream, n: nat, runs: nat, upto: nat, id: int)
    requires AllPositive(eligible) && upto <= |eligible| && runs > 0
    ensures id in D.Chances(eligible, logU, n, runs, upto) ==> exists c :: 0 <= c < upto && eligible[c].id == id
  {
    if upto > 0 && id != eligible[upto - 1].id { TableIds(eligible, logU, n, runs, upto - 1, id); }
  }

  lemma IneligibleAbsent(pool: seq<D.Candidate>, i: nat, n: int, runs: int, logU: D.Stream)
    requires DistinctIds(pool) && i < |pool| && pool[i].count <= 0
    ensures pool[i].id !in D.OddsOf(pool, n, runs, logU)
  {
    hide D.WithDiapers, D.Chances;
    var eligible := D.WithDiapers(pool);
    if |eligible| > 0 && n > 0 && runs > 0 {
      TableIds(eligible, logU, D.Prizes(n, |eligible|), runs, |eligible|, pool[i].id);
      forall c: nat | c < |eligible| ensures eligible[c].id != pool[i].id {
        Steps.EligibleFromPool(pool, c);
        var j :| 0 <= j < |pool| && pool[j] == eligible[c];
        assert j != i;
      }
    }
  }

  lemma EligibleChance(pool: seq<D.Candidate>, i: nat, n: int, runs: int, logU: D.Stream)
    requires DistinctIds(pool) && i < |pool| && pool[i].count > 0 && n > 0 && runs > 0
    ensures var eligible := D.WithDiapers(pool);
            pool[i].id in D.OddsOf(pool, n, runs, logU)
            && D.OddsOf(pool, n, runs, logU)[pool[i].id]
               == D.Hits(eligible, logU, D.Prizes(n, |eligible|), runs, PlaceOf(pool, i)) as real / runs as real
  {
    hide D.WithDiapers, D.Chances, D.Hits, PlaceOf;
    AtPlace(pool, i);
    EligibleKeepsIds(pool);
    var eligible := D.WithDiapers(pool);
    ChanceOf(eligible, logU, D.Prizes(n, |eligible|), runs, |eligible|, PlaceOf(pool, i));
  }

  /**
   * Row i of a table is that of the i-th guest: their name, count and merge
   * flag; eligible exactly with diapers; and the chance is the share of the
   * simulated draws in which they win, none at all without diapers.
   */
  lemma OddsTableMeans(rows: map<int, Guest>, k: Key, seeds: Seeds, i: nat)
    requires i < |Listing(rows)| && k.prizes > 0 && k.runs > 0
    ensures var id := Listing(rows)[i]; var row := OddsTable(rows, k, seeds)[i];
            && id in rows && row.guest == id && row.name == rows[id].name && row.count == rows[id].count
            && row.merged == rows[id].merged && (row.eligible <==> rows[id].count > 0)
            && row.chance == if rows[id].count > 0 then WinsOf(rows, k, seeds, i) as real / k.runs as real else 0.0
  {
    hide Listing, D.OddsOf, D.Hits, CacheKey, OddsTable, PlaceOf, D.WithDiapers;
    TableRow(rows, k, seeds, i);
    PoolIdsDistinct(rows);
    if rows[Listing(rows)[i]].count > 0 {
      EligibleChance(Candidates(rows), i, k.prizes, k.runs, StreamOf(k, seeds));
    } else {
      IneligibleAbsent(Candidates(rows), i, k.prizes, k.runs, StreamOf(k, seeds));
    }
  }

  // ----- the whole table -----

  function ChanceTotal(t: seq<OddsRow>): real {
    if t == [] then 0.0 else ChanceTotal(t[..|t| - 1]) + t[|t| - 1].chance
  }

  lemma NextPlace(pool: seq<D.Candidate>, m: nat)
    requires m < |pool|
    ensures PlaceOf(pool, m + 1) == PlaceOf(pool, m) + if pool[m].count > 0 then 1 else 0
    ensures PlaceOf(pool, 0) == 0 && PlaceOf(pool, |pool|) == |D.WithDiapers(pool)|
  {
    assert pool[..m + 1][..m] == pool[..m] && pool[..|pool|] == pool;
  }

  lemma PlaceFits(pool: seq<D.Candidate>, m: nat)
    requires m <= |pool|
    ensures PlaceOf(pool, m) <= |D.WithDiapers(pool)|
    decreases |pool| - m
  {
    hide PlaceOf, D.WithDiapers;
    if m < |pool| {
      PlaceFits(pool, m + 1);
      NextPlace(pool, m);
    } else {
      AllPlaces(pool);
    }
  }

  lemma AllPlaces(pool: seq<D.Candidate>)
    ensures PlaceOf(pool, |pool|) == |D.WithDiapers(pool)| && PlaceOf(pool, 0) == 0
  {
    assert pool[..|pool|] == pool;
  }

  lemma {:induction false} TotalSoFar(rows: map<int, Guest>, k: Key, seeds: Seeds, m: nat)
    requires m <= |Listing(rows)|
    requires var eligible := D.WithDiapers(Candidates(rows));
             forall c :: 0 <= c < |eligible| ==> eligible[c].id in D.OddsOf(Candidates(rows), k.prizes, k.runs, StreamOf(k, seeds))
    ensures PlaceOf(Candidates(rows), m) <= |D.WithDiapers(Candidates(rows))|
    ensures ChanceTotal(OddsTable(rows, k, seeds)[..m])
            == SumChances(D.WithDiapers(Candidates(rows)), D.OddsOf(Candidates(rows), k.prizes, k.runs, StreamOf(k, seeds)),
                          PlaceOf(Candidates(rows), m))
  {
    hide Listing, D.OddsOf, CacheKey, OddsTable, PlaceOf, D.WithDiapers, StreamOf, DistinctIds;
    var pool, t := Candidates(rows), OddsTable(rows, k, seeds);
    PlaceFits(pool, m);
    AllPlaces(pool);
    if m > 0 {
      TotalSoFar(rows, k, seeds, m - 1);
      NextPlace(pool, m - 1);
      TableRow(rows, k, seeds, m - 1);
      assert t[..m][..m - 1] == t[..m - 1];
      PoolIdsDistinct(rows);
      if pool[m - 1].count > 0 {
        AtPlace(pool, m - 1);
      } else {
        IneligibleAbsent(pool, m - 1, k.prizes, k.runs, StreamOf(k, seeds));
      }
    }
  }

  /** The chances in a table add up to the prizes there are for the entrants there are. */
  lemma OddsTableAddsUp(rows: map<int, Guest>, k: Key, seeds: Seeds)
    requires k.prizes > 0 && k.runs > 0
    ensures var n := |D.WithDiapers(Candidates(rows))|;
            ChanceTotal(OddsTable(rows, k, seeds)) == (if k.prizes < n then k.prizes else n) as real
  {
    hide D.OddsOf, D.WithDiapers, PlaceOf, OddsTable, CacheKey, StreamOf, SumChances, DistinctIds;
    PoolIdsDistinct(rows);
    var t := OddsTable(rows, k, seeds);
    ChancesAddUp(Candidates(rows), k.prizes, k.runs, StreamOf(k, seeds));
    TotalSoFar(rows, k, seeds, |t|);
    AllPlaces(Candidates(rows));
    assert t[..|t|] == t;
  }

  /**
   * With the same key and everybody else the same, a guest who brings more
   * diapers reads a chance at least as high, and everybody else one at most.
   */
  lemma MoreDiapersInTheTable(rows: map<int, Guest>, k: Key, seeds: Seeds, p: nat, more: int, q: nat)
    requires p < |Listing(rows)| && q < |Listing(rows)| && k.prizes > 0 && k.runs > 0
    requires Listing(rows)[p] in rows && 0 < rows[Listing(rows)[p]].count <= more && LogsOfUniform(StreamOf(k, seeds))
    ensures var id := Listing(rows)[p];
            var rows' := rows[id := rows[id].(count := more)];
            && Listing(rows') == Listing(rows)
            && var before, after := OddsTable(rows, k, seeds)[q].chance, OddsTable(rows', k, seeds)[q].chance;
               (q == p ==> after >= before) && (q != p ==> after <= before)
  {
    hide Listing, D.OddsOf, D.WithDiapers, OddsTable, CacheKey, StreamOf, LogsOfUniform, DistinctIds;
    var id := Listing(rows)[p];
    var row := rows[id].(count := more);
    var rows' := rows[id := row];
    PutInPlace(rows, p, row);
    PoolIdsDistinct(rows);
    PoolIdsDistinct(rows');
    RaisedPool(rows, p, more);
    TableRow(rows, k, seeds, q);
    TableRow(rows', k, seeds, q);
    if Candidates(rows)[q].count > 0 {
      MoreDiapersNeverHurt(Candidates(rows), p, more, k.prizes, k.runs, StreamOf(k, seeds), q);
    } else {
      IneligibleAbsent(Candidates(rows), q, k.prizes, k.runs, StreamOf(k, seeds));
      IneligibleAbsent(Candidates(rows'), q, k.prizes, k.runs, StreamOf(k, seeds));
    }
  }

  lemma RaisedPool(rows: map<int, Guest>, p: nat, more: int)
    requires p < |Listing(rows)| && Listing(rows)[p] in rows
    requires Listing(rows[Listing(rows)[p] := rows[Listing(rows)[p]].(count := more)]) == Listing(rows)
    ensures Candidates(rows[Listing(rows)[p] := rows[Listing(rows)[p]].(count := more)])
            == Candidates(rows)[p := Candidates(rows)[p].(count := more)]
  {
    hide Listing;
    var id := Listing(rows)[p];
    var rows' := rows[id := rows[id].(count := more)];
    forall j | 0 <= j < |Listing(rows)| ensures Candidates(rows')[j] == Candidates(rows)[p := Candidates(rows)[p].(count := more)][j] {
      if j != p { ListingDistinct(rows, if p < j then p else j, if p < j then j else p); }
      assert Listing(rows)[j] in Listing(rows);
    }
  }
}
