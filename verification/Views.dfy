/** What the API answers: rosters, tallies, draws with their face-down stubs hidden. */
module Views {
  import opened Wrappers
  import opened Decimal
  import opened Ordering
  import opened Tables
  import opened Steps
  import opened Runs
  import D = Draw

  /** One stub as loaded from its row, with every column filled in. */
  datatype WinnerView = WinnerView(id: int, draw: int, prizeIndex: int, serial: string, revealed: bool,
                                   revealedAt: Option<int>, guest: Option<int>, name: Option<string>, count: Option<int>)

  function Loaded(id: int, s: Stub): WinnerView {
    WinnerView(id, s.draw, s.prizeIndex, s.serial, s.revealedAt.Some?, s.revealedAt, s.guest, Some(s.name), Some(s.count))
  }

  /** The view that leaves the store: without the winner until the stub is turned over. */
  function Hidden(w: WinnerView): WinnerView {
    if w.revealed then w else w.(guest := None, name := None, count := None, revealedAt := None)
  }

  datatype DrawView = DrawView(id: int, row: DrawRow, winners: seq<WinnerView>)

  /** ORDER BY prize_index. */
  function StubsOf(stubs: map<int, Stub>, d: int): (ids: seq<int>)
    ensures forall x :: x in ids <==> x in stubs && stubs[x].draw == d
  {
    Ordered(map s | s in stubs && stubs[s].draw == d :: stubs[s].prizeIndex)
  }

  function WinnersOf(stubs: map<int, Stub>, d: int): (ws: seq<WinnerView>)
    ensures |ws| == |StubsOf(stubs, d)|
    ensures forall i :: 0 <= i < |ws| ==> ws[i] == Hidden(Loaded(StubsOf(stubs, d)[i], stubs[StubsOf(stubs, d)[i]]))
  {
    var ids := StubsOf(stubs, d);
    seq(|ids|, i requires 0 <= i < |ids| => Hidden(Loaded(ids[i], stubs[ids[i]])))
  }

  function DrawPage(db: Db, d: int): DrawView
    requires d in db.draws
  {
    DrawView(d, db.draws[d], WinnersOf(db.stubs, d))
  }

  /** Newest first, at most `limit` of them, 50 when the limit makes no sense. */
  function RecentDraws(db: Db, ev: int, limit: int): (ids: seq<int>)
    ensures forall i :: 0 <= i < |ids| ==> ids[i] in db.draws
  {
    var ids := Ordered(DrawTimes(db, ev));
    var most := if limit <= 0 || limit > 200 then 50 else limit;
    var n := if |ids| < most then |ids| else most;
    seq(n, i requires 0 <= i < n => assert ids[|ids| - 1 - i] in ids; ids[|ids| - 1 - i])
  }

  function DrawPages(db: Db, ids: seq<int>): seq<DrawView>
    requires forall i :: 0 <= i < |ids| ==> ids[i] in db.draws
  {
    seq(|ids|, i requires 0 <= i < |ids| => DrawPage(db, ids[i]))
  }

  // ----- the totals -----

  datatype Tally = Tally(entrants: int, diaperTotal: int, sittingOut: int, mergedNames: int, short: bool)

  function GuestsOf(rows: map<int, Guest>): (gs: seq<Guest>)
    ensures |gs| == |Listing(rows)| && forall i :: 0 <= i < |gs| ==> gs[i] == rows[Listing(rows)[i]]
  {
    var ids := Listing(rows);
    seq(|ids|, i requires 0 <= i < |ids| => rows[ids[i]])
  }

  function Count(gs: seq<Guest>, p: Guest -> bool): nat {
    if gs == [] then 0 else Count(gs[..|gs| - 1], p) + if p(gs[|gs| - 1]) then 1 else 0
  }

  predicate HasDiapers(g: Guest) { g.count > 0 }

  predicate SitsOut(g: Guest) { g.count <= 0 }

  predicate IsMerged(g: Guest) { g.merged }

  function DiapersOf(gs: seq<Guest>): int {
    if gs == [] then 0
    else DiapersOf(gs[..|gs| - 1]) + if gs[|gs| - 1].count > 0 then gs[|gs| - 1].count else 0
  }

  function TallyOf(gs: seq<Guest>, prizeCount: int): Tally {
    var entrants := Count(gs, HasDiapers);
    Tally(entrants, Wrap(DiapersOf(gs)), Count(gs, SitsOut), Count(gs, IsMerged), 0 < entrants < prizeCount)
  }

  function Where(gs: seq<Guest>, p: Guest -> bool): (at: set<nat>)
    ensures forall i: nat :: i in at <==> i < |gs| && p(gs[i])
  {
    set i: nat | i < |gs| && p(gs[i])
  }

  lemma WhereSnoc(init: seq<Guest>, g: Guest, p: Guest -> bool)
    ensures Where(init + [g], p) == Where(init, p) + if p(g) then {|init|} else {}
  {
    var gs := init + [g];
    forall i: nat ensures i in Where(gs, p) <==> i in Where(init, p) || (p(g) && i == |init|) {
      if i < |init| { assert gs[i] == init[i]; }
    }
  }

  lemma {:induction false} CountIs(gs: seq<Guest>, p: Guest -> bool)
    ensures Count(gs, p) == |Where(gs, p)|
  {
    if gs == [] {
      assert Where(gs, p) == {};
    } else {
      var init, g := gs[..|gs| - 1], gs[|gs| - 1];
      CountIs(init, p);
      assert gs == init + [g];
      WhereSnoc(init, g, p);
      assert |init| !in Where(init, p);
    }
  }

  /** The numbers under the roster box, each said of the guests it counts. */
  predicate Tallies(gs: seq<Guest>, prizeCount: int, t: Tally) {
    && t.entrants == |set i: nat | i < |gs| && gs[i].count > 0|
    && t.sittingOut == |set i: nat | i < |gs| && gs[i].count <= 0|
    && t.mergedNames == |set i: nat | i < |gs| && gs[i].merged|
    && t.diaperTotal == Wrap(DiapersOf(gs))
    && (t.short <==> 0 < t.entrants < prizeCount)
  }

  lemma TallyMeans(gs: seq<Guest>, prizeCount: int)
    ensures Tallies(gs, prizeCount, TallyOf(gs, prizeCount))
    ensures TallyOf(gs, prizeCount).entrants + TallyOf(gs, prizeCount).sittingOut == |gs|
  {
    hide Count, DiapersOf;
    CountIs(gs, HasDiapers);
    CountIs(gs, SitsOut);
    CountIs(gs, IsMerged);
    assert Where(gs, HasDiapers) == (set i: nat | i < |gs| && gs[i].count > 0);
    assert Where(gs, SitsOut) == (set i: nat | i < |gs| && gs[i].count <= 0);
    assert Where(gs, IsMerged) == (set i: nat | i < |gs| && gs[i].merged);
    InOrOut(gs);
  }

  lemma {:induction false} InOrOut(gs: seq<Guest>)
    ensures Count(gs, HasDiapers) + Count(gs, SitsOut) == |gs|
  {
    if gs != [] { InOrOut(gs[..|gs| - 1]); }
  }

  method BuildTally(gs: seq<Guest>, prizeCount: int) returns (t: Tally)
    ensures t == TallyOf(gs, prizeCount)
  {
    t := Tally(0, 0, 0, 0, false);
    for i := 0 to |gs|
      invariant t == Tally(Count(gs[..i], HasDiapers), Wrap(DiapersOf(gs[..i])), Count(gs[..i], SitsOut),
                           Count(gs[..i], IsMerged), false)
    {
      var g := gs[i];
      assert gs[..i + 1][..i] == gs[..i];
      WrapAdd(DiapersOf(gs[..i]), g.count);
      if g.count > 0 {
        t := t.(entrants := t.entrants + 1, diaperTotal := Wrap(t.diaperTotal + g.count));
      } else {
        t := t.(sittingOut := t.sittingOut + 1);
      }
      if g.merged {
        t := t.(mergedNames := t.mergedNames + 1);
      }
    }
    assert gs[..|gs|] == gs;
    t := t.(short := t.entrants > 0 && t.entrants < prizeCount);
  }

  /** The tally counts exactly the pool a draw on the same roster records. */
  lemma TallyMatchesDraw(db: Db, slug: string, picks: seq<Pick>)
    requires Tables.RunDraw(db, slug, picks).1.Ok?
    ensures var (db', r) := Tables.RunDraw(db, slug, picks);
            && r.value in db'.draws
            && var row := db'.draws[r.value];
               var t := TallyOf(GuestsOf(Rows(db.guests, row.event)), row.prizeCount);
               row.entrantCount == t.entrants && row.diaperTotal == t.diaperTotal
  {
    hide EventBySlug, Candidates, D.WithDiapers, CountTotal, Count, DiapersOf, NewStubs, GuestsOf;
    var ev := EventBySlug(db.events, slug).value;
    var rows := Rows(db.guests, ev);
    PoolMatches(Candidates(rows), GuestsOf(rows));
  }

  lemma {:induction false} PoolMatches(pool: seq<D.Candidate>, gs: seq<Guest>)
    requires |pool| == |gs| && forall i :: 0 <= i < |gs| ==> pool[i].count == gs[i].count
    ensures |D.WithDiapers(pool)| == Count(gs, HasDiapers)
    ensures CountTotal(D.WithDiapers(pool)) == DiapersOf(gs)
  {
    if pool != [] {
      var init := pool[..|pool| - 1];
      PoolMatches(init, gs[..|gs| - 1]);
      var e := D.WithDiapers(init);
      assert (e + [pool[|pool| - 1]])[..|e|] == e;
    }
  }

  // ----- requests and responses -----

  datatype EventView = EventView(id: int, event: Event, ids: seq<int>, guests: seq<Guest>, tally: Tally,
                                 draw: Option<DrawView>, stale: bool)

  datatype Request =
    | Write(op: Op)
    | GetEvent(slug: string)
    | ListEvents
    | GetOdds(slug: string, runs: int)
    | ListDraws(slug: string, limit: int)
    | GetDraw(id: int)

  datatype Response =
    | Failed(error: Error)
    | Page(view: EventView)
    | AllEvents(events: map<int, Event>)
    | OddsFor(id: int, event: Event, pool: seq<D.Candidate>, runs: int)
    | OneDraw(draw: DrawView)
    | SomeDraws(draws: seq<DrawView>)
    | Opened(winner: WinnerView)
    | NoContent

  /** Everything the page needs for one event. */
  function EventPage(db: Db, ev: int): EventView
    requires ev in db.events
  {
    var e := db.events[ev];
    var rows := Rows(db.guests, ev);
    var d := LatestDraw(db, ev);
    EventView(ev, e, Listing(rows), GuestsOf(rows), TallyOf(GuestsOf(rows), e.prizeCount),
              if d.Some? then Some(DrawPage(db, d.value)) else None, Stale(db, ev))
  }

  function Respond(db: Db, req: Request): (Db, Response) {
    match req
    case Write(op) =>
      var (db', r) := Apply(db, op);
      (db', if r.Err? then Failed(r.error) else WriteResponse(db', op, r.value))
    case GetEvent(slug) =>
      var ev := EventBySlug(db.events, slug);
      (db, if ev.None? then Failed(NotFound) else Page(EventPage(db, ev.value)))
    case ListEvents => (db, AllEvents(db.events))
    case GetOdds(slug, runs) =>
      var ev := EventBySlug(db.events, slug);
      (db, if ev.None? then Failed(NotFound)
           else OddsFor(ev.value, db.events[ev.value], Candidates(Rows(db.guests, ev.value)), runs))
    case ListDraws(slug, limit) =>
      var ev := EventBySlug(db.events, slug);
      (db, if ev.None? then Failed(NotFound) else SomeDraws(DrawPages(db, RecentDraws(db, ev.value, limit))))
    case GetDraw(id) => (db, if id in db.draws then OneDraw(DrawPage(db, id)) else Failed(NotFound))
  }

  /** A committed write answers with the page, the new draw, or the opened stub. */
  function WriteResponse(db: Db, op: Op, id: int): Response {
    if op.RunDraw? then if id in db.draws then OneDraw(DrawPage(db, id)) else Failed(Internal)
    else if op.RevealWinner? then if id in db.stubs then Opened(Loaded(id, db.stubs[id])) else Failed(Internal)
    else if op.DeleteEvent? || op.Tick? then NoContent
    else if id in db.events then Page(EventPage(db, id))
    else Failed(Internal)
  }
}
