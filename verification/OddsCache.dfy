/**
 * The odds endpoint under interleaving: it reads the event, reads the guests
 * and touches the cache in separate steps, while transactions commit between.
 */
module OddsCache {
  import opened Decimal
  import opened Tables
  import opened Invariant
  import opened Steps
  import D = Draw

  datatype OddsRow = OddsRow(guest: int, name: string, count: int, merged: bool, chance: real, eligible: bool)

  /** What the cache key names. */
  datatype Key = Key(ev: int, version: int, prizes: int, runs: int)

  function CacheKey(k: Key): string {
    FormatInt(k.ev) + ":" + FormatInt(k.version) + ":" + FormatInt(k.prizes) + ":" + FormatInt(k.runs)
  }

  const CACHE_LIMIT := 64

  /** The random stream a key seeds. */
  type Seeds = string -> D.Stream

  /** The odds table for a guest list. */
  function OddsTable(rows: map<int, Guest>, k: Key, seeds: Seeds): (t: seq<OddsRow>)
    ensures |t| == |Listing(rows)|
  {
    var ids := Listing(rows);
    var chances := D.OddsOf(Candidates(rows), k.prizes, k.runs, seeds(CacheKey(k)));
    seq(|ids|, i requires 0 <= i < |ids| => RowOf(ids[i], rows[ids[i]], chances))
  }

  function RowOf(id: int, g: Guest, chances: map<int, real>): OddsRow {
    OddsRow(id, g.name, g.count, g.merged, if id in chances then chances[id] else 0.0, g.count > 0)
  }

  function Put(cache: map<string, seq<OddsRow>>, key: string, table: seq<OddsRow>): map<string, seq<OddsRow>> {
    (if |cache| >= CACHE_LIMIT then map[] else cache)[key := table]
  }

  // ----- the handler's own code -----

  class Memo {
    var cache: map<string, seq<OddsRow>>

    constructor ()
      ensures cache == map[]
    {
      cache := map[];
    }

    /** One request with nothing in between: the cached table if there is one, else a fresh one, which it keeps. */
    method Odds(k: Key, rows: map<int, Guest>, seeds: Seeds) returns (table: seq<OddsRow>)
      modifies this
      ensures CacheKey(k) in old(cache) ==> table == old(cache)[CacheKey(k)] && cache == old(cache)
      ensures CacheKey(k) !in old(cache) ==> table == OddsTable(rows, k, seeds) && cache == Put(old(cache), CacheKey(k), table)
    {
      var key := CacheKey(k);
      if key in cache {
        return cache[key];
      }
      table := Compute(k, rows, seeds);
      if |cache| >= CACHE_LIMIT {
        cache := map[];
      }
      cache := cache[key := table];
    }
  }

  method Compute(k: Key, rows: map<int, Guest>, seeds: Seeds) returns (table: seq<OddsRow>)
    ensures table == OddsTable(rows, k, seeds)
  {
    hide Listing, Candidates, D.OddsOf, OddsTable, CacheKey;
    var chances := D.Odds(Candidates(rows), k.prizes, k.runs, seeds(CacheKey(k)));
    var ids := Listing(rows);
    assert forall i :: 0 <= i < |ids| ==> ids[i] in ids;
    table := [];
    for i := 0 to |ids|
      invariant table == OddsTable(rows, k, seeds)[..i]
    {
      var g := rows[ids[i]];
      var chance := if ids[i] in chances then chances[ids[i]] else 0.0;
      OddsTableAt(rows, k, seeds, i);
      table := table + [OddsRow(ids[i], g.name, g.count, g.merged, chance, g.count > 0)];
    }
  }

  lemma OddsTableAt(rows: map<int, Guest>, k: Key, seeds: Seeds, i: nat)
    requires i < |Listing(rows)|
    ensures var ids := Listing(rows);
            ids[i] in ids && OddsTable(rows, k, seeds)[i]
              == RowOf(ids[i], rows[ids[i]], D.OddsOf(Candidates(rows), k.prizes, k.runs, seeds(CacheKey(k))))
  {
    hide Listing, Candidates, D.OddsOf, RowOf;
    assert Listing(rows)[i] in Listing(rows);
  }

  // ----- keys -----

  lemma ColonSplit(a: string, b: string, s: string, t: string)
    requires ':' !in a && ':' !in b && a + ":" + s == b + ":" + t
    ensures a == b && s == t
  {
    var u, v := a + ":" + s, b + ":" + t;
    assert u[|a|] == ':' && v[|b|] == ':';
    assert forall i :: 0 <= i < |a| ==> u[i] == a[i];
    assert forall i :: 0 <= i < |b| ==> v[i] == b[i];
    assert |a| == |b|;
    assert u[..|a|] == a && v[..|b|] == b;
    assert u[|a| + 1..] == s && v[|b| + 1..] == t;
  }

  lemma NoColon(n: int)
    ensures ':' !in FormatInt(n)
  {
  }

  /** Different (event, version, prizes, runs) never share a cache entry. */
  lemma CacheKeyInjective(a: Key, b: Key)
    requires CacheKey(a) == CacheKey(b)
    ensures a == b
  {
    hide FormatInt;
    NoColon(a.ev); NoColon(a.version); NoColon(a.prizes);
    NoColon(b.ev); NoColon(b.version); NoColon(b.prizes);
    var a3, b3 := FormatInt(a.prizes) + ":" + FormatInt(a.runs), FormatInt(b.prizes) + ":" + FormatInt(b.runs);
    var a2, b2 := FormatInt(a.version) + ":" + a3, FormatInt(b.version) + ":" + b3;
    assert CacheKey(a) == FormatInt(a.ev) + ":" + a2;
    assert CacheKey(b) == FormatInt(b.ev) + ":" + b2;
    ColonSplit(FormatInt(a.ev), FormatInt(b.ev), a2, b2);
    ColonSplit(FormatInt(a.version), FormatInt(b.version), a3, b3);
    ColonSplit(FormatInt(a.prizes), FormatInt(b.prizes), FormatInt(a.runs), FormatInt(b.runs));
    FormatIntInjective(a.ev, b.ev);
    FormatIntInjective(a.version, b.version);
    FormatIntInjective(a.prizes, b.prizes);
    FormatIntInjective(a.runs, b.runs);
  }

  // ----- the interleaved machine -----

  /** Where a request is: it has read the event, then the guests, then missed the cache, then has its answer. */
  datatype Request =
    | GotEvent(key: Key)
    | GotGuests(key: Key, rows: map<int, Guest>)
    | Missed(key: Key, rows: map<int, Guest>)
    | Answered(key: Key, answer: seq<OddsRow>)

  /** `log` is every database state so far; the last is the current one. */
  datatype Server = Server(log: seq<Db>, cache: map<string, seq<OddsRow>>, requests: map<int, Request>)
  {
    function Now(): Db
      requires log != []
    {
      log[|log| - 1]
    }
  }

  datatype Move =
    | Commit(op: Op)
    | Begin(request: int, slug: string, runs: int)
    | ReadGuests(request: int)
    | Look(request: int)
    | Save(request: int)

  const START: Server := Server([EMPTY], map[], map[])

  function Do(s: Server, move: Move, seeds: Seeds): Server
    requires s.log != []
  {
    match move
    case Commit(op) => s.(log := s.log + [Apply(s.Now(), op).0])
    case Begin(r, slug, runs) =>
      var ev := EventBySlug(s.Now().events, slug);
      if ev.None? || r in s.requests then s
      else
        var e := s.Now().events[ev.value];
        s.(requests := s.requests[r := GotEvent(Key(ev.value, e.rosterVersion, e.prizeCount, runs))])
    case ReadGuests(r) =>
      if r in s.requests && s.requests[r].GotEvent? then
        var k := s.requests[r].key;
        s.(requests := s.requests[r := GotGuests(k, Rows(s.Now().guests, k.ev))])
      else s
    case Look(r) =>
      if r in s.requests && s.requests[r].GotGuests? then
        var k := s.requests[r].key;
        if CacheKey(k) in s.cache then s.(requests := s.requests[r := Answered(k, s.cache[CacheKey(k)])])
        else s.(requests := s.requests[r := Missed(k, s.requests[r].rows)])
      else s
    case Save(r) =>
      if r in s.requests && s.requests[r].Missed? then
        var k := s.requests[r].key;
        var table := OddsTable(s.requests[r].rows, k, seeds);
        s.(cache := Put(s.cache, CacheKey(k), table), requests := s.requests[r := Answered(k, table)])
      else s
  }

  ghost predicate LegalMove(s: Server, move: Move)
    requires s.log != []
  {
    move.Commit? ==> Legal(s.Now(), move.op)
  }

  /** A request nobody interrupts between looking and saving is one call of the handler's own code. */
  lemma UninterruptedIsMemo(s: Server, r: int, seeds: Seeds)
    requires s.log != [] && r in s.requests && s.requests[r].GotGuests?
    ensures var q := s.requests[r];
            var key := CacheKey(q.key);
            var t := Do(Do(s, Look(r), seeds), Save(r), seeds);
            && t.log == s.log && r in t.requests && t.requests[r].Answered? && t.requests[r].key == q.key
            && (key in s.cache ==> t.requests[r].answer == s.cache[key] && t.cache == s.cache)
            && (key !in s.cache ==>
                  t.requests[r].answer == OddsTable(q.rows, q.key, seeds) && t.cache == Put(s.cache, key, t.requests[r].answer))
  {
    hide CacheKey, OddsTable, Put;
  }

  // ----- the invariant -----

  /** The event was created, and if it still exists its version has reached the one named. */
  predicate Reached(db: Db, k: Key) {
    k.ev < db.nextEvent && (k.ev in db.events ==> k.version <= db.events[k.ev].rosterVersion)
  }

  /** The version named is the event's version now. */
  predicate Current(db: Db, k: Key) { k.ev in db.events && db.events[k.ev].rosterVersion == k.version }

  /** These rows were the event's roster at some point no older than the version named. */
  ghost predicate SeenAt(log: seq<Db>, k: Key, rows: map<int, Guest>, u: nat) {
    u < |log| && Reached(log[u], k) && rows == Rows(log[u].guests, k.ev)
  }

  /** Good rows: once the roster at or after the version named, and the roster itself while that version is current. */
  ghost predicate GoodRows(log: seq<Db>, k: Key, rows: map<int, Guest>)
    requires log != []
  {
    var now := log[|log| - 1];
    && Reached(now, k)
    && (Current(now, k) ==> rows == Rows(now.guests, k.ev))
    && exists u :: SeenAt(log, k, rows, u)
  }

  /** A table computed from good rows. */
  ghost predicate GoodTable(log: seq<Db>, k: Key, table: seq<OddsRow>, seeds: Seeds)
    requires log != []
  {
    exists rows :: GoodRows(log, k, rows) && table == OddsTable(rows, k, seeds)
  }

  ghost predicate GoodRequest(log: seq<Db>, r: Request, seeds: Seeds)
    requires log != []
  {
    match r
    case GotEvent(k) => Reached(log[|log| - 1], k)
    case GotGuests(k, rows) => GoodRows(log, k, rows)
    case Missed(k, rows) => GoodRows(log, k, rows)
    case Answered(k, answer) => GoodTable(log, k, answer, seeds)
  }

  ghost predicate GoodCache(log: seq<Db>, cache: map<string, seq<OddsRow>>, seeds: Seeds)
    requires log != []
  {
    forall k: Key :: CacheKey(k) in cache ==> GoodTable(log, k, cache[CacheKey(k)], seeds)
  }

  ghost predicate Inv(s: Server, seeds: Seeds) {
    && s.log != [] && Valid(s.Now())
    && |s.cache| <= CACHE_LIMIT
    && GoodCache(s.log, s.cache, seeds)
    && (forall r :: r in s.requests ==> GoodRequest(s.log, s.requests[r], seeds))
  }

  lemma StartInv(seeds: Seeds)
    ensures Inv(START, seeds)
  {
    EmptyIsValid();
  }

  /** A later state has reached what an earlier one had, and rosters move only with versions. */
  lemma LaterReached(a: Db, b: Db, k: Key)
    requires Reached(a, k) && IdsFresh(a, b) && VersionsTell(a, b)
    ensures Reached(b, k)
    ensures Current(b, k) ==> Current(a, k) && Rows(b.guests, k.ev) == Rows(a.guests, k.ev)
  {
    hide Rows;
  }

  lemma RowsStayGood(log: seq<Db>, next: Db, k: Key, rows: map<int, Guest>)
    requires log != [] && IdsFresh(log[|log| - 1], next) && VersionsTell(log[|log| - 1], next)
    requires GoodRows(log, k, rows)
    ensures GoodRows(log + [next], k, rows)
  {
    hide Rows, Reached, Current, IdsFresh, VersionsTell;
    LaterReached(log[|log| - 1], next, k);
    var u :| SeenAt(log, k, rows, u);
    assert SeenAt(log + [next], k, rows, u);
  }

  lemma TableStaysGood(log: seq<Db>, next: Db, k: Key, table: seq<OddsRow>, seeds: Seeds)
    requires log != [] && IdsFresh(log[|log| - 1], next) && VersionsTell(log[|log| - 1], next)
    requires GoodTable(log, k, table, seeds)
    ensures GoodTable(log + [next], k, table, seeds)
  {
    hide GoodRows, IdsFresh, VersionsTell, OddsTable;
    var rows :| GoodRows(log, k, rows) && table == OddsTable(rows, k, seeds);
    RowsStayGood(log, next, k, rows);
  }

  lemma CommitInv(s: Server, op: Op, seeds: Seeds)
    requires Inv(s, seeds) && Legal(s.Now(), op)
    ensures Inv(Do(s, Commit(op), seeds), seeds)
  {
    hide GoodRows, GoodTable, Apply, IdsFresh, VersionsTell, DrawsFrozen, StubsFrozen, Valid, CacheKey, Legal;
    var next := Apply(s.Now(), op).0;
    StepKeeps(s.Now(), op);
    StepFollows(s.Now(), op);
    var s' := Do(s, Commit(op), seeds);
    assert s'.Now() == next;
    forall k: Key | CacheKey(k) in s'.cache ensures GoodTable(s'.log, k, s'.cache[CacheKey(k)], seeds) {
      TableStaysGood(s.log, next, k, s.cache[CacheKey(k)], seeds);
    }
    forall r | r in s'.requests ensures GoodRequest(s'.log, s'.requests[r], seeds) {
      var q := s.requests[r];
      assert GoodRequest(s.log, q, seeds);
      match q
      case GotEvent(k) => LaterReached(s.Now(), next, k);
      case GotGuests(k, rows) => RowsStayGood(s.log, next, k, rows);
      case Missed(k, rows) => RowsStayGood(s.log, next, k, rows);
      case Answered(k, answer) => TableStaysGood(s.log, next, k, answer, seeds);
    }
  }

  lemma RequestInv(s: Server, move: Move, seeds: Seeds)
    requires Inv(s, seeds) && (move.Begin? || move.ReadGuests? || move.Look?)
    ensures Inv(Do(s, move, seeds), seeds)
  {
    hide GoodTable, Rows, Valid, CacheKey, EventBySlug, OddsTable;
    if move.Begin? {
      var ev := EventBySlug(s.Now().events, move.slug);
      if ev.Some? { EventKnown(s.Now(), ev.value); }
    } else if move.ReadGuests? && move.request in s.requests && s.requests[move.request].GotEvent? {
      var k := s.requests[move.request].key;
      assert GoodRequest(s.log, s.requests[move.request], seeds);
      assert SeenAt(s.log, k, Rows(s.Now().guests, k.ev), |s.log| - 1);
    }
  }

  lemma EventKnown(db: Db, ev: int)
    requires Valid(db) && ev in db.events
    ensures ev < db.nextEvent
  {
    hide GuestsOk, TextOk, DrawsOk, StubsOk, Slug.SlugShape;
    assert EventOk(db, ev);
  }

  lemma PutKeepsGood(log: seq<Db>, cache: map<string, seq<OddsRow>>, k: Key, table: seq<OddsRow>, seeds: Seeds)
    requires log != [] && GoodCache(log, cache, seeds) && GoodTable(log, k, table, seeds)
    ensures GoodCache(log, Put(cache, CacheKey(k), table), seeds)
  {
    hide GoodTable, CacheKey;
    var put := Put(cache, CacheKey(k), table);
    forall k': Key | CacheKey(k') in put ensures GoodTable(log, k', put[CacheKey(k')], seeds) {
      if CacheKey(k') == CacheKey(k) { CacheKeyInjective(k', k); }
    }
  }

  lemma SaveIs(s: Server, r: int, seeds: Seeds)
    requires s.log != []
    ensures Do(s, Save(r), seeds) ==
      if r in s.requests && s.requests[r].Missed? then
        var k := s.requests[r].key;
        var table := OddsTable(s.requests[r].rows, k, seeds);
        Server(s.log, Put(s.cache, CacheKey(k), table), s.requests[r := Answered(k, table)])
      else s
  {
    hide CacheKey, OddsTable, Put;
  }

  lemma SaveInv(s: Server, r: int, seeds: Seeds)
    requires Inv(s, seeds)
    ensures Inv(Do(s, Save(r), seeds), seeds)
  {
    hide Do, GoodCache, GoodTable, GoodRows, GoodRequest, Valid, CacheKey, OddsTable, Put;
    SaveIs(s, r, seeds);
    if r in s.requests && s.requests[r].Missed? {
      var k, rows := s.requests[r].key, s.requests[r].rows;
      var table := OddsTable(rows, k, seeds);
      MissedMeans(s.log, s.requests[r], seeds);
      ComputedIsGood(s.log, k, rows, seeds);
      PutKeepsGood(s.log, s.cache, k, table, seeds);
      PutSize(s.cache, CacheKey(k), table);
    }
  }

  lemma MissedMeans(log: seq<Db>, q: Request, seeds: Seeds)
    requires log != [] && q.Missed? && GoodRequest(log, q, seeds)
    ensures GoodRows(log, q.key, q.rows)
    ensures GoodTable(log, q.key, OddsTable(q.rows, q.key, seeds), seeds) ==>
              GoodRequest(log, Answered(q.key, OddsTable(q.rows, q.key, seeds)), seeds)
  {
    hide GoodRows, GoodTable, OddsTable;
  }

  lemma ComputedIsGood(log: seq<Db>, k: Key, rows: map<int, Guest>, seeds: Seeds)
    requires log != [] && GoodRows(log, k, rows)
    ensures GoodTable(log, k, OddsTable(rows, k, seeds), seeds)
  {
    hide GoodRows, OddsTable;
  }

  lemma PutSize(cache: map<string, seq<OddsRow>>, key: string, table: seq<OddsRow>)
    requires |cache| <= CACHE_LIMIT
    ensures |Put(cache, key, table)| <= CACHE_LIMIT
  {
    var kept := if |cache| >= CACHE_LIMIT then map[] else cache;
    assert kept[key := table].Keys == kept.Keys + {key};
    if key !in kept { assert |kept.Keys + {key}| == |kept.Keys| + 1; } else { assert kept.Keys + {key} == kept.Keys; }
  }

  lemma MoveInv(s: Server, move: Move, seeds: Seeds)
    requires Inv(s, seeds) && LegalMove(s, move)
    ensures Inv(Do(s, move, seeds), seeds)
  {
    hide Inv, Do;
    assert s.log != [] by { LogNotEmpty(s, seeds); }
    match move
    case Commit(op) => CommitInv(s, op, seeds);
    case Begin(r, slug, runs) => RequestInv(s, move, seeds);
    case ReadGuests(r) => RequestInv(s, move, seeds);
    case Look(r) => RequestInv(s, move, seeds);
    case Save(r) => SaveInv(s, r, seeds);
  }

  lemma LogNotEmpty(s: Server, seeds: Seeds)
    requires Inv(s, seeds)
    ensures s.log != []
  {
  }

  // ----- the theorems -----

  ghost predicate IsRun(states: seq<Server>, moves: seq<Move>, seeds: Seeds) {
    && |states| == |moves| + 1 && states[0] == START
    && forall i :: 0 <= i < |moves| ==>
         states[i].log != [] && LegalMove(states[i], moves[i]) && states[i + 1] == Do(states[i], moves[i], seeds)
  }

  lemma {:induction false} RunInv(states: seq<Server>, moves: seq<Move>, seeds: Seeds, i: nat)
    requires IsRun(states, moves, seeds) && i < |states|
    ensures Inv(states[i], seeds)
  {
    hide Inv, Do, LegalMove;
    if i == 0 {
      StartInv(seeds);
    } else {
      RunInv(states, moves, seeds, i - 1);
      MoveInv(states[i - 1], moves[i - 1], seeds);
    }
  }

  /**
   * However requests and transactions interleave: an entry whose key names an
   * event's current version is what a fresh computation for its current
   * roster would give, and the cache never holds more than 64 entries.
   */
  lemma CacheIsCurrent(states: seq<Server>, moves: seq<Move>, seeds: Seeds, i: nat, k: Key)
    requires IsRun(states, moves, seeds) && i < |states|
    ensures states[i].log != [] && |states[i].cache| <= 64
    ensures CacheKey(k) in states[i].cache && Current(states[i].Now(), k) ==>
              states[i].cache[CacheKey(k)] == OddsTable(Rows(states[i].Now().guests, k.ev), k, seeds)
  {
    hide IsRun, Valid, CacheKey, OddsTable, Rows;
    RunInv(states, moves, seeds, i);
    if CacheKey(k) in states[i].cache {
      assert GoodTable(states[i].log, k, states[i].cache[CacheKey(k)], seeds);
    }
  }

  /** The table is the odds of the roster the event had in state u, with the version named reached by then. */
  ghost predicate FromState(log: seq<Db>, k: Key, table: seq<OddsRow>, seeds: Seeds, u: int) {
    0 <= u < |log| && Reached(log[u], k) && table == OddsTable(Rows(log[u].guests, k.ev), k, seeds)
  }

  lemma GoodTableMeans(log: seq<Db>, k: Key, table: seq<OddsRow>, seeds: Seeds)
    requires log != [] && GoodTable(log, k, table, seeds)
    ensures exists u :: FromState(log, k, table, seeds, u)
    ensures Current(log[|log| - 1], k) ==> table == OddsTable(Rows(log[|log| - 1].guests, k.ev), k, seeds)
  {
    hide OddsTable, Rows, Reached, Current;
    var rows :| GoodRows(log, k, rows) && table == OddsTable(rows, k, seeds);
    var u: nat :| SeenAt(log, k, rows, u);
    assert FromState(log, k, table, seeds, u);
  }

  /**
   * Every answer is the odds of a roster the event really had, at a version
   * no older than the one the request read (or after the event was deleted);
   * and while that version is current, of the current roster.
   */
  lemma AnswersAreNoOlder(states: seq<Server>, moves: seq<Move>, seeds: Seeds, i: nat, r: int)
    requires IsRun(states, moves, seeds) && i < |states|
    requires r in states[i].requests && states[i].requests[r].Answered?
    ensures var q := states[i].requests[r];
            && states[i].log != []
            && (exists u :: FromState(states[i].log, q.key, q.answer, seeds, u))
            && (Current(states[i].Now(), q.key) ==> q.answer == OddsTable(Rows(states[i].Now().guests, q.key.ev), q.key, seeds))
  {
    hide IsRun, Valid, CacheKey, OddsTable, Rows, Reached, Current, GoodTable, GoodRows, GoodCache, FromState;
    RunInv(states, moves, seeds, i);
    var q := states[i].requests[r];
    assert GoodRequest(states[i].log, q, seeds);
    GoodTableMeans(states[i].log, q.key, q.answer, seeds);
  }

  /** The request began when the event it found had this version and prize count, and asked for these runs. */
  ghost predicate BegunAt(states: seq<Server>, moves: seq<Move>, r: int, k: Key, j: nat) {
    && j < |moves| && j < |states| && states[j].log != []
    && moves[j].Begin? && moves[j].request == r && moves[j].runs == k.runs
    && k.ev in states[j].Now().events
    && var e := states[j].Now().events[k.ev];
       e.slug == moves[j].slug && k.version == e.rosterVersion && k.prizes == e.prizeCount
  }

  /** The key of a request in flight or answered names what the event was when it began, and the runs asked for. */
  lemma {:induction false} KeyNamesTheEvent(states: seq<Server>, moves: seq<Move>, seeds: Seeds, i: nat, r: int) returns (j: nat)
    requires IsRun(states, moves, seeds) && i < |states| && r in states[i].requests
    ensures j < i && BegunAt(states, moves, r, states[i].requests[r].key, j)
  {
    hide LegalMove, OddsTable, CacheKey, Put, EventBySlug, Apply, Rows;
    var before, move := states[i - 1], moves[i - 1];
    if r in before.requests {
      j := KeyNamesTheEvent(states, moves, seeds, i - 1, r);
      KeyKept(before, move, seeds, r);
    } else {
      j := i - 1;
      NewRequest(before, move, seeds, r);
    }
  }

  lemma KeyKept(s: Server, move: Move, seeds: Seeds, r: int)
    requires s.log != [] && r in s.requests
    ensures r in Do(s, move, seeds).requests && Do(s, move, seeds).requests[r].key == s.requests[r].key
  {
    hide OddsTable, CacheKey, Put, EventBySlug, Apply, Rows;
  }

  lemma NewRequest(s: Server, move: Move, seeds: Seeds, r: int)
    requires s.log != [] && r !in s.requests && r in Do(s, move, seeds).requests
    ensures move.Begin? && move.request == r
    ensures var k := Do(s, move, seeds).requests[r].key;
            && k.ev in s.Now().events && s.Now().events[k.ev].slug == move.slug && k.runs == move.runs
            && k.version == s.Now().events[k.ev].rosterVersion && k.prizes == s.Now().events[k.ev].prizeCount
  {
    hide OddsTable, CacheKey, Put, EventBySlug, Apply, Rows;
  }
}
