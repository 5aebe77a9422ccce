/** What the API's answers mean, field by field, and over whole runs. */
module Pages {
  import opened Wrappers
  import opened Decimal
  import opened Ordering
  import opened Roster
  import opened RoundTrip
  import opened Tables
  import opened Invariant
  import opened Steps
  import opened Runs
  import opened RosterEffects
  import opened Views
  import Drift
  import EventEffects
  import FaceDown
  import OddsRows
  import Slug
  import N = Normalise
  import D = Draw

  // ----- a draw and its stubs -----

  /** What an answer tells of a stub: the winner only once it is turned over. */
  predicate Shows(w: WinnerView, s: Stub) {
    && w.draw == s.draw && w.prizeIndex == s.prizeIndex && w.serial == s.serial
    && w.revealed == s.revealedAt.Some? && w.revealedAt == s.revealedAt
    && w.guest == (if s.revealedAt.Some? then s.guest else None)
    && w.name == (if s.revealedAt.Some? then Some(s.name) else None)
    && w.count == (if s.revealedAt.Some? then Some(s.count) else None)
  }

  predicate IsListed(ws: seq<WinnerView>, s: int) { exists i :: 0 <= i < |ws| && ws[i].id == s }

  /** The recorded draw with all its stubs, in prize order. */
  predicate IsPageOfDraw(db: Db, d: int, v: DrawView)
    requires d in db.draws
  {
    && v.id == d && v.row == db.draws[d]
    && (forall i :: 0 <= i < |v.winners| ==>
          var s := v.winners[i].id; s in db.stubs && db.stubs[s].draw == d && Shows(v.winners[i], db.stubs[s]))
    && (forall i, j :: 0 <= i < j < |v.winners| ==> v.winners[i].prizeIndex < v.winners[j].prizeIndex)
    && (forall s :: s in db.stubs && db.stubs[s].draw == d ==> IsListed(v.winners, s))
  }

  lemma LoadedShows(id: int, s: Stub)
    ensures Hidden(Loaded(id, s)).id == id && Shows(Hidden(Loaded(id, s)), s)
  {
  }

  /** Stubs of one draw differ in prize index, so the order is strict. */
  lemma StubsInOrder(db: Db, d: int)
    requires StubsOk(db)
    ensures var ids := StubsOf(db.stubs, d);
            forall i, j :: 0 <= i < j < |ids| ==>
              ids[i] in db.stubs && ids[j] in db.stubs && db.stubs[ids[i]].prizeIndex < db.stubs[ids[j]].prizeIndex
  {
    hide Ordered;
    var ids := StubsOf(db.stubs, d);
    var rank := map s | s in db.stubs && db.stubs[s].draw == d :: db.stubs[s].prizeIndex;
    forall i, j | 0 <= i < j < |ids|
      ensures ids[i] in db.stubs && ids[j] in db.stubs && db.stubs[ids[i]].prizeIndex < db.stubs[ids[j]].prizeIndex
    {
      assert ids[i] in ids && ids[j] in ids;
      assert Precedes(rank, ids[i], ids[j]);
    }
  }

  lemma DrawPageIs(db: Db, d: int)
    requires StubsOk(db) && d in db.draws
    ensures IsPageOfDraw(db, d, DrawPage(db, d))
  {
    hide StubsOf, Hidden, Loaded, Shows, StubsOk;
    var ids, ws := StubsOf(db.stubs, d), DrawPage(db, d).winners;
    StubsInOrder(db, d);
    forall i | 0 <= i < |ws| ensures ws[i].id == ids[i] && ids[i] in db.stubs && Shows(ws[i], db.stubs[ids[i]]) {
      assert ids[i] in ids;
      LoadedShows(ids[i], db.stubs[ids[i]]);
    }
    forall s | s in db.stubs && db.stubs[s].draw == d ensures IsListed(ws, s) {
      assert s in ids;
      var i :| 0 <= i < |ids| && ids[i] == s;
      assert ws[i].id == s;
    }
    forall i, j | 0 <= i < j < |ws| ensures ws[i].prizeIndex < ws[j].prizeIndex {
      ShownPrize(ws[i], db.stubs[ids[i]]);
      ShownPrize(ws[j], db.stubs[ids[j]]);
    }
  }

  lemma ShownPrize(w: WinnerView, s: Stub)
    requires Shows(w, s)
    ensures w.prizeIndex == s.prizeIndex
  {
  }

  // ----- the event page -----

  /** The guests of the event, all of them, in the order of their positions. */
  predicate ListsGuests(db: Db, ev: int, ids: seq<int>, gs: seq<Guest>) {
    && |ids| == |gs|
    && (forall i :: 0 <= i < |ids| ==> ids[i] in db.guests && db.guests[ids[i]].event == ev && gs[i] == db.guests[ids[i]])
    && (forall i, j :: 0 <= i < j < |gs| ==> gs[i].position < gs[j].position)
    && (forall id :: id in db.guests && db.guests[id].event == ev ==> id in ids)
  }

  /** Among the draws of the event this is the newest, by id and by time; or there is none. */
  predicate IsNewest(db: Db, ev: int, d: Option<int>) {
    && (d.Some? ==> d.value in db.draws && db.draws[d.value].event == ev)
    && forall x :: x in db.draws && db.draws[x].event == ev ==>
         d.Some? && x <= d.value && db.draws[x].createdAt <= db.draws[d.value].createdAt
  }

  predicate IsPageOf(db: Db, ev: int, v: EventView)
    requires ev in db.events
  {
    && v.id == ev && v.event == db.events[ev]
    && ListsGuests(db, ev, v.ids, v.guests)
    && Tallies(v.guests, v.event.prizeCount, v.tally)
    && IsNewest(db, ev, if v.draw.Some? then Some(v.draw.value.id) else None)
    && (v.draw.Some? ==> IsPageOfDraw(db, v.draw.value.id, v.draw.value))
    && (v.stale <==> v.draw.Some? && v.draw.value.row.rosterVersion != v.event.rosterVersion)
  }

  lemma GuestsListed(db: Db, ev: int)
    requires GuestsOk(db)
    ensures ListsGuests(db, ev, Listing(Rows(db.guests, ev)), GuestsOf(Rows(db.guests, ev)))
  {
    hide Ordered, GoodEntry;
    var rows := Rows(db.guests, ev);
    var ids, gs := Listing(rows), GuestsOf(rows);
    forall i | 0 <= i < |ids| ensures ids[i] in db.guests && db.guests[ids[i]].event == ev && gs[i] == db.guests[ids[i]] {
      assert ids[i] in ids;
    }
    forall i, j | 0 <= i < j < |gs| ensures gs[i].position < gs[j].position {
      assert Precedes(Positions(rows), ids[i], ids[j]);
    }
  }

  lemma NewestIs(db: Db, ev: int)
    requires DrawsOk(db)
    ensures IsNewest(db, ev, LatestDraw(db, ev))
  {
    hide LatestDraw;
    LatestIsLast(db, ev);
  }

  lemma EventPageIs(db: Db, ev: int)
    requires Valid(db) && ev in db.events
    ensures IsPageOf(db, ev, EventPage(db, ev))
  {
    hide EventsOk, GuestsOk, TextOk, DrawsOk, StubsOk, Rows, Listing, GuestsOf, TallyOf, Tallies, DrawPage, LatestDraw, ListsGuests,
      IsNewest, IsPageOfDraw;
    GuestsListed(db, ev);
    TallyMeans(GuestsOf(Rows(db.guests, ev)), db.events[ev].prizeCount);
    NewestIs(db, ev);
    var d := LatestDraw(db, ev);
    if d.Some? {
      DrawPageIs(db, d.value);
      assert DrawPage(db, d.value).id == d.value && DrawPage(db, d.value).row == db.draws[d.value] by { DrawPageHead(db, d.value); }
    }
  }

  lemma DrawPageHead(db: Db, d: int)
    requires d in db.draws
    ensures DrawPage(db, d).id == d && DrawPage(db, d).row == db.draws[d]
  {
    hide WinnersOf;
  }

  // ----- asking for an event -----

  lemma FoundExactly(db: Db, slug: string)
    ensures EventBySlug(db.events, slug).Some? <==> exists ev :: ev in db.events && db.events[ev].slug == slug
  {
    if ev :| ev in db.events && db.events[ev].slug == slug {
      var matching := map id | id in db.events && db.events[id].slug == slug :: 0;
      assert ev in matching;
    }
  }

  lemma AskedForEvent(db: Db, slug: string)
    ensures Respond(db, GetEvent(slug)).0 == db
    ensures var found := EventBySlug(db.events, slug);
            Respond(db, GetEvent(slug)).1 == if found.None? then Failed(NotFound) else Page(EventPage(db, found.value))
  {
    hide EventBySlug, EventPage;
  }

  /**
   * What GET of an event answers on any run: nothing exactly when no event has
   * the slug; else that event, its guests in order, its numbers and its newest
   * draw, stale exactly when a roster write committed after that draw was run.
   */
  lemma PageTells(dbs: seq<Db>, ops: seq<Op>, n: nat, slug: string) returns (m: nat)
    requires IsRun(dbs, ops) && n < |dbs|
    ensures var db := dbs[n]; var (db', r) := Respond(db, GetEvent(slug));
            && db' == db
            && (r == Failed(NotFound) <==> forall ev :: ev in db.events ==> db.events[ev].slug != slug)
            && (r != Failed(NotFound) ==>
                  && r.Page? && r.view.id in db.events && db.events[r.view.id].slug == slug && IsPageOf(db, r.view.id, r.view)
                  && (r.view.draw.Some? ==>
                        m < n && m < |ops| && ops[m].RunDraw? && Apply(dbs[m], ops[m]).1 == Ok(r.view.draw.value.id))
                  && (r.view.stale <==>
                        r.view.draw.Some? && exists w :: m < w < n && w < |ops| && WritesRoster(dbs[w], ops[w], r.view.id)))
  {
    hide IsRun, Apply, WritesRoster, Valid, EventBySlug, Respond, LatestDraw, Stale, DrawPage, Rows, Listing, GuestsOf, TallyOf, IsPageOf;
    m := 0;
    var db := dbs[n];
    FoundExactly(db, slug);
    AskedForEvent(db, slug);
    var found := EventBySlug(db.events, slug);
    if found.Some? {
      RunValid(dbs, ops, n);
      EventPageIs(db, found.value);
      StaleNeedsDraw(db, found.value);
      Drift.RunLength(dbs, ops);
      if LatestDraw(db, found.value).Some? {
        m := StaleExactly(dbs, ops, n, found.value);
        DrawPageHead(db, LatestDraw(db, found.value).value);
      }
    }
  }

  lemma StaleNeedsDraw(db: Db, ev: int)
    requires ev in db.events
    ensures LatestDraw(db, ev).None? ==> !Stale(db, ev)
  {
    hide LatestDraw;
  }

  // ----- a draw's history -----

  lemma SeqSize(s: seq<int>)
    requires forall i, j :: 0 <= i < j < |s| ==> s[i] != s[j]
    ensures |set x | x in s| == |s|
  {
    if s != [] {
      var init := s[..|s| - 1];
      SeqSize(init);
      assert (set x | x in s) == (set x | x in init) + {s[|s| - 1]};
    }
  }

  /** The draws of an event. */
  function DrawsOf(db: Db, ev: int): (all: set<int>)
    ensures forall d :: d in all <==> d in db.draws && db.draws[d].event == ev
  {
    set d | d in db.draws && db.draws[d].event == ev
  }

  lemma OldestFirst(db: Db, ev: int)
    requires DrawsOk(db)
    ensures var order := Ordered(DrawTimes(db, ev));
            && (forall d :: d in order <==> d in DrawsOf(db, ev))
            && (forall i, j :: 0 <= i < j < |order| ==> order[i] < order[j])
            && |order| == |DrawsOf(db, ev)|
  {
    hide Ordered;
    var times := DrawTimes(db, ev);
    var ids := Ordered(times);
    forall i, j | 0 <= i < j < |ids| ensures ids[i] < ids[j] { assert Precedes(times, ids[i], ids[j]); }
    SeqSize(ids);
    assert (set x | x in ids) == DrawsOf(db, ev);
  }

  lemma RecentIs(db: Db, ev: int, limit: int)
    ensures var order, ids := Ordered(DrawTimes(db, ev)), RecentDraws(db, ev, limit);
            var most := if 1 <= limit <= 200 then limit else 50;
            && |ids| == (if |order| < most then |order| else most)
            && forall i :: 0 <= i < |ids| ==> ids[i] == order[|order| - 1 - i]
  {
    hide Ordered, DrawTimes;
  }

  /** The last of an ascending sequence, read backwards. */
  lemma FromTheEnd(order: seq<int>, ids: seq<int>)
    requires forall i, j :: 0 <= i < j < |order| ==> order[i] < order[j]
    requires |ids| <= |order| && forall i :: 0 <= i < |ids| ==> ids[i] == order[|order| - 1 - i]
    ensures forall i :: 0 <= i < |ids| ==> ids[i] in order
    ensures forall i, j :: 0 <= i < j < |ids| ==> ids[i] > ids[j]
    ensures forall x, i :: x in order && x !in ids && 0 <= i < |ids| ==> x < ids[i]
  {
    forall k | |order| - |ids| <= k < |order| ensures order[k] in ids { assert ids[|order| - 1 - k] == order[k]; }
    forall x, i | x in order && x !in ids && 0 <= i < |ids| ensures x < ids[i] {
      var k :| 0 <= k < |order| && order[k] == x;
      assert k < |order| - 1 - i;
    }
  }

  /** The draw history: the newest draws of the event, newest first, as many as asked for, or 50. */
  lemma RecentAre(db: Db, ev: int, limit: int)
    requires DrawsOk(db)
    ensures var ids, all := RecentDraws(db, ev, limit), DrawsOf(db, ev);
            var most := if 1 <= limit <= 200 then limit else 50;
            && |ids| == (if |all| < most then |all| else most)
            && (forall i :: 0 <= i < |ids| ==> ids[i] in all)
            && (forall i, j :: 0 <= i < j < |ids| ==> ids[i] > ids[j])
            && (forall d, i :: d in all && d !in ids && 0 <= i < |ids| ==> d < ids[i])
  {
    hide Ordered, DrawTimes, DrawsOk, RecentDraws, DrawsOf;
    OldestFirst(db, ev);
    RecentIs(db, ev, limit);
    FromTheEnd(Ordered(DrawTimes(db, ev)), RecentDraws(db, ev, limit));
  }

  /** The answers to the other questions. */
  lemma ReadsTell(db: Db, slug: string, limit: int, runs: int, id: int)
    requires Valid(db)
    ensures var (db1, one) := Respond(db, GetDraw(id));
            && db1 == db && (one == Failed(NotFound) <==> id !in db.draws)
            && (one != Failed(NotFound) ==> one.OneDraw? && id in db.draws && IsPageOfDraw(db, id, one.draw))
    ensures var (db2, some) := Respond(db, ListDraws(slug, limit));
            && db2 == db && (some == Failed(NotFound) <==> forall ev :: ev in db.events ==> db.events[ev].slug != slug)
            && (some != Failed(NotFound) ==>
                  some.SomeDraws? && EventBySlug(db.events, slug).Some?
                  && var ids := RecentDraws(db, EventBySlug(db.events, slug).value, limit);
                     |some.draws| == |ids|
                     && forall i :: 0 <= i < |ids| ==> ids[i] in db.draws && IsPageOfDraw(db, ids[i], some.draws[i]))
    ensures var (db3, odds) := Respond(db, GetOdds(slug, runs));
            && db3 == db && (odds == Failed(NotFound) <==> forall ev :: ev in db.events ==> db.events[ev].slug != slug)
            && (odds != Failed(NotFound) ==>
                  && odds.OddsFor? && odds.id in db.events && odds.event == db.events[odds.id] && odds.event.slug == slug
                  && odds.pool == Candidates(Rows(db.guests, odds.id)) && odds.runs == runs)
    ensures Respond(db, ListEvents) == (db, AllEvents(db.events))
  {
    hide Candidates, Rows, EventBySlug, EventsOk, GuestsOk, TextOk, DrawsOk, StubsOk, DrawPage, IsPageOfDraw, RecentDraws;
    FoundExactly(db, slug);
    forall d | d in db.draws ensures IsPageOfDraw(db, d, DrawPage(db, d)) { DrawPageIs(db, d); }
  }

  // ----- the list behind the page -----

  /** The guests on a page are the roster entries, row by row. */
  lemma GuestsAreEntries(db: Db, ev: int)
    requires ev in db.events
    ensures var v := EventPage(db, ev); var es := GuestList(db, ev);
            && v.ids == GuestIds(db, ev) && |v.guests| == |es|
            && forall i :: 0 <= i < |es| ==> es[i] == Entry(v.guests[i].name, v.guests[i].key, v.guests[i].count, v.guests[i].merged)
  {
    hide Rows, Listing, DrawPage, LatestDraw, TallyOf;
  }

  /** What a committed roster write, or a new or changed event, answers: that event's page, from the state it left. */
  lemma WriteTells(db: Db, op: Op)
    requires Valid(db) && Legal(db, op) && !op.RunDraw? && !op.RevealWinner? && !op.DeleteEvent? && !op.Tick?
    ensures var (db', r) := Apply(db, op);
            && Respond(db, Write(op)).0 == db'
            && (r.Err? ==> Respond(db, Write(op)).1 == Failed(r.error) && db' == db)
            && (r.Ok? ==>
                  && r.value in db'.events && Respond(db, Write(op)).1 == Page(EventPage(db', r.value))
                  && IsPageOf(db', r.value, EventPage(db', r.value)))
  {
    hide Valid, Legal, Apply, EventPage, IsPageOf;
    StepKeeps(db, op);
    WrittenEvent(db, op);
    var (db', r) := Apply(db, op);
    if r.Ok? { EventPageIs(db', r.value); }
  }

  lemma WrittenEvent(db: Db, op: Op)
    requires !op.RunDraw? && !op.RevealWinner? && !op.DeleteEvent? && !op.Tick?
    ensures Apply(db, op).1.Ok? ==> Apply(db, op).1.value in Apply(db, op).0.events
    ensures Apply(db, op).1.Err? ==> Apply(db, op).0 == db
  {
    hide EventBySlug, GuestByKey, NameKey, Text.TrimSpace, NextPosition, Rows, KeyTaken, Parse, IndexOfEvent, RowIds, EntryRows,
      NewKeys, Forget, Format, RosterOf, Slug.FirstFree, Slug.Slugify, MovedSlug, Unmerge, Renamed, Slugs;
  }

  /** Saving the text box answers with the text, and with one guest for each entry it parses to, in order. */
  lemma SavedPage(db: Db, slug: string, text: string, ev: int)
    requires Valid(db) && EventBySlug(db.events, slug) == Some(ev)
    ensures var (db', r) := Respond(db, Write(ReplaceRoster(slug, text))); var es := Parse(text);
            && r.Page? && ev in db'.events && IsPageOf(db', ev, r.view) && r.view.event.rosterText == text
            && r.view.event.rosterVersion == db.events[ev].rosterVersion + 1
            && |r.view.guests| == |es|
            && forall i :: 0 <= i < |es| ==>
                 var g := r.view.guests[i]; g.name == es[i].name && g.key == es[i].key && g.count == es[i].count && g.merged == es[i].merged
  {
    hide EventBySlug, Parse, Tables.ReplaceRoster, EventPage, IsPageOf, Valid, GuestList, GuestIds, Respond;
    var op := ReplaceRoster(slug, text);
    WriteTells(db, op);
    ReplaceRosterEffect(db, slug, text, ev);
    SavingTextSyncs(db, slug, text, ev);
    var db' := Apply(db, op).0;
    GuestsAreEntries(db', ev);
    PageEvent(db', ev);
    StepVersion(db, op, ev);
  }

  lemma {:induction false} SameTotal(gs: seq<Guest>, es: seq<Entry>)
    requires |gs| == |es| && forall i :: 0 <= i < |es| ==> gs[i].count == es[i].count && es[i].count >= 0
    ensures DiapersOf(gs) == N.EntryTotal(es) >= 0
  {
    if es != [] { SameTotal(gs[..|gs| - 1], es[..|es| - 1]); }
  }

  /** So no diaper is lost between the text box and the number under it: when the lines fit an int64, it is their sum. */
  lemma SavedTotal(db: Db, slug: string, text: string, ev: int)
    requires Valid(db) && EventBySlug(db.events, slug) == Some(ev) && N.Total(N.RowsIn(text)) <= MAX_INT64
    ensures var r := Respond(db, Write(ReplaceRoster(slug, text))).1;
            r.Page? && r.view.tally.diaperTotal == N.Total(N.RowsIn(text))
  {
    hide Valid, EventBySlug, Respond, IsPageOf, Parse, DiapersOf, N.EntryTotal, N.Total, N.RowsIn;
    SavedPage(db, slug, text, ev);
    var (db', r) := Respond(db, Write(ReplaceRoster(slug, text)));
    N.NoOverflow(text);
    N.ParseConserves(text);
    SameTotal(r.view.guests, Parse(text));
    PageTotal(db', ev, r.view);
  }

  lemma PageTotal(db: Db, ev: int, v: EventView)
    requires ev in db.events && IsPageOf(db, ev, v)
    ensures v.tally.diaperTotal == Wrap(DiapersOf(v.guests))
  {
    hide ListsGuests, IsNewest, IsPageOfDraw, DiapersOf, Wrap;
  }

  lemma PageEvent(db: Db, ev: int)
    requires ev in db.events
    ensures EventPage(db, ev).event == db.events[ev] && EventPage(db, ev).id == ev
  {
    hide Rows, Listing, DrawPage, LatestDraw, TallyOf, GuestsOf;
  }

  // ----- drawing and turning over -----

  lemma {:induction false} Upwards(next: int, n: nat)
    ensures var ids := seq(n, p requires 0 <= p < n => next + p);
            |ids| == n && (forall p :: 0 <= p < n ==> ids[p] == next + p) && forall x :: x in ids <==> next <= x < next + n
  {
    var ids := seq(n, p requires 0 <= p < n => next + p);
    forall x | next <= x < next + n ensures x in ids { assert ids[x - next] == x; }
  }

  /** The stubs of a new draw, in prize order, are the new stubs in order. */
  lemma NewStubsOf(stubs: map<int, Stub>, d: int, next: int, n: nat)
    requires forall s :: s in stubs && stubs[s].draw == d <==> next <= s < next + n
    requires forall s :: next <= s < next + n ==> stubs[s].prizeIndex == s - next
    ensures StubsOf(stubs, d) == seq(n, p requires 0 <= p < n => next + p)
  {
    hide Ordered;
    var rank := map s | s in stubs && stubs[s].draw == d :: stubs[s].prizeIndex;
    var ids := seq(n, p requires 0 <= p < n => next + p);
    Upwards(next, n);
    forall p | 0 <= p < n ensures ids[p] in rank && rank[ids[p]] == p {}
    assert SortedBy(rank, ids);
    OrderedUnique(rank, ids);
  }

  lemma NewWinners(stubs: map<int, Stub>, d: int, next: int, picks: seq<Pick>)
    requires AreNewStubs(stubs, d, next, picks)
    ensures var ws := WinnersOf(stubs, d);
            && |ws| == |picks|
            && forall p :: 0 <= p < |picks| ==> ws[p] == WinnerView(next + p, d, p, picks[p].serial, false, None, None, None, None)
  {
    hide StubsOf, Hidden, Loaded;
    NewStubsOf(stubs, d, next, |picks|);
    forall p | 0 <= p < |picks|
      ensures WinnersOf(stubs, d)[p] == WinnerView(next + p, d, p, picks[p].serial, false, None, None, None, None)
    {
      var id := next + p;
      assert StubsOf(stubs, d)[p] == id && IsNewStub(stubs[id], d, id - next, picks[id - next]);
      LoadedShows(id, stubs[id]);
      FaceDownView(Hidden(Loaded(id, stubs[id])), stubs[id]);
    }
  }

  /** Pressing the button answers with the new draw: the serials in prize order, all face down, and nobody's name. */
  lemma DrawTells(db: Db, slug: string, picks: seq<Pick>, ev: int)
    requires Valid(db) && EventBySlug(db.events, slug) == Some(ev) && D.WithDiapers(Candidates(Rows(db.guests, ev))) != []
    ensures var (db', r) := Respond(db, Write(RunDraw(slug, picks)));
            && r.OneDraw? && r.draw.id == db.nextDraw && r.draw.id in db'.draws && r.draw.row == db'.draws[r.draw.id]
            && |r.draw.winners| == |picks|
            && forall p :: 0 <= p < |picks| ==>
                 r.draw.winners[p] == WinnerView(db.nextStub + p, db.nextDraw, p, picks[p].serial, false, None, None, None, None)
  {
    hide EventBySlug, Candidates, Rows, D.WithDiapers, Tables.RunDraw, Valid, WinnersOf, AreNewStubs, Respond;
    DrawRecords(db, slug, picks, ev);
    DrawAnswer(db, slug, picks);
    NewWinners(Tables.RunDraw(db, slug, picks).0.stubs, db.nextDraw, db.nextStub, picks);
  }

  lemma DrawAnswer(db: Db, slug: string, picks: seq<Pick>)
    ensures var (db', r) := Tables.RunDraw(db, slug, picks);
            r.Ok? && r.value in db'.draws ==> Respond(db, Write(RunDraw(slug, picks))) == (db', OneDraw(DrawPage(db', r.value)))
  {
    hide Tables.RunDraw, DrawPage;
  }

  lemma FaceDownView(w: WinnerView, s: Stub)
    requires Shows(w, s) && s.revealedAt.None?
    ensures w == WinnerView(w.id, s.draw, s.prizeIndex, s.serial, false, None, None, None, None)
  {
  }

  lemma OpenedShows(id: int, s: Stub)
    requires s.revealedAt.Some?
    ensures Loaded(id, s).id == id && Shows(Loaded(id, s), s)
  {
  }

  /** The stub of prize p, in any later state that still has the draw. */
  lemma StubLater(dbs: seq<Db>, ops: seq<Op>, i: nat, j: nat, slug: string, picks: seq<Pick>, p: nat) returns (s: int)
    requires IsRun(dbs, ops) && i < j < |dbs| && i < |ops| && ops[i] == RunDraw(slug, picks) && p < |picks|
    requires Apply(dbs[i], ops[i]).1.Ok? && Apply(dbs[i], ops[i]).1.value in dbs[j].draws
    ensures var d := Apply(dbs[i], ops[i]).1.value;
            && StubAt(dbs[j].stubs, d, p) == Some(s) && s in dbs[j].stubs
            && var stub := dbs[j].stubs[s];
               && stub.draw == d && stub.prizeIndex == p && stub.serial == picks[p].serial
               && stub.name == picks[p].winner.name && stub.count == picks[p].winner.count
               && stub.guest == if picks[p].winner.id in dbs[j].guests then Some(picks[p].winner.id) else None
  {
    hide IsRun, Legal, Valid, Tables.RunDraw, StubAt, Follows, IsNewStub, StubBecomes;
    Drift.RunStep(dbs, ops, i);
    RunValid(dbs, ops, i);
    s := NewStub(dbs[i], slug, picks, p);
    RunFollows(dbs, ops, i + 1, j);
    var d := Apply(dbs[i], ops[i]).1.value;
    assert dbs[i + 1].stubs[s].draw == d by { NewStubFacts(dbs[i + 1].stubs[s], d, p, picks[p]); }
    FollowedStub(dbs[i + 1], dbs[j], s);
    StubKept(dbs[i + 1].stubs[s], dbs[j].stubs[s], dbs[j].guests, d, p, picks[p]);
    ValidStubs(dbs[j]);
    EventEffects.StubFound(dbs[j], d, p, s);
  }

  lemma NewStubFacts(s: Stub, d: int, prize: int, p: Pick)
    requires IsNewStub(s, d, prize, p)
    ensures s.draw == d && s.prizeIndex == prize
  {
  }

  lemma StubKept(s: Stub, t: Stub, guests: map<int, Guest>, d: int, prize: int, p: Pick)
    requires IsNewStub(s, d, prize, p) && StubBecomes(s, t, guests)
    ensures t.draw == d && t.prizeIndex == prize && t.serial == p.serial && t.name == p.winner.name && t.count == p.winner.count
    ensures t.guest == if p.winner.id in guests then Some(p.winner.id) else None
  {
  }

  lemma NewStub(db: Db, slug: string, picks: seq<Pick>, p: nat) returns (s: int)
    requires Valid(db) && Tables.RunDraw(db, slug, picks).1.Ok? && p < |picks|
    ensures var (db', r) := Tables.RunDraw(db, slug, picks); s in db'.stubs && IsNewStub(db'.stubs[s], r.value, p, picks[p])
  {
    hide Valid, Tables.RunDraw, EventBySlug, AreNewStubs, IsNewStub, Candidates, Rows, D.WithDiapers;
    var ev := DrawnFrom(db, slug, picks);
    DrawRecords(db, slug, picks, ev);
    s := db.nextStub + p;
    NewStubAt(Tables.RunDraw(db, slug, picks).0.stubs, db.nextDraw, db.nextStub, picks, p);
  }

  lemma FollowedStub(a: Db, b: Db, s: int)
    requires Follows(a, b) && s in a.stubs && a.stubs[s].draw in b.draws
    ensures s in b.stubs && StubBecomes(a.stubs[s], b.stubs[s], b.guests)
  {
    hide IdsFresh, VersionsTell, DrawsFrozen, StubBecomes;
  }

  lemma ValidStubs(db: Db)
    requires Valid(db)
    ensures StubsOk(db)
  {
    hide EventsOk, GuestsOk, TextOk, DrawsOk, StubsOk;
  }

  lemma NewStubAt(stubs: map<int, Stub>, d: int, next: int, picks: seq<Pick>, p: nat)
    requires AreNewStubs(stubs, d, next, picks) && p < |picks|
    ensures next + p in stubs && IsNewStub(stubs[next + p], d, p, picks[p])
  {
    hide IsNewStub;
    assert IsNewStub(stubs[next + p], d, next + p - next, picks[next + p - next]);
  }

  lemma DrawnFrom(db: Db, slug: string, picks: seq<Pick>) returns (ev: int)
    requires Tables.RunDraw(db, slug, picks).1.Ok?
    ensures EventBySlug(db.events, slug) == Some(ev) && D.WithDiapers(Candidates(Rows(db.guests, ev))) != []
  {
    hide EventBySlug, Candidates, Rows, D.WithDiapers, Wrap, CountTotal, Recorded;
    ev := EventBySlug(db.events, slug).value;
  }

  /**
   * Whenever it happens, turning over the stub of prize p tells who was picked
   * for it when the draw was run, however the roster has changed since.
   */
  lemma RevealTells(dbs: seq<Db>, ops: seq<Op>, i: nat, j: nat, slug: string, picks: seq<Pick>, p: nat)
    requires IsRun(dbs, ops) && i < j < |dbs| && i < |ops| && ops[i] == RunDraw(slug, picks) && p < |picks|
    requires Apply(dbs[i], ops[i]).1.Ok? && Apply(dbs[i], ops[i]).1.value in dbs[j].draws
    ensures var d := Apply(dbs[i], ops[i]).1.value; var r := Respond(dbs[j], Write(RevealWinner(d, p))).1;
            && r.Opened? && r.winner.draw == d && r.winner.prizeIndex == p && r.winner.serial == picks[p].serial
            && r.winner.revealed && r.winner.revealedAt.Some?
            && r.winner.name == Some(picks[p].winner.name) && r.winner.count == Some(picks[p].winner.count)
            && r.winner.guest == if picks[p].winner.id in dbs[j].guests then Some(picks[p].winner.id) else None
  {
    hide IsRun, Apply, StubAt, Respond, Loaded;
    var s := StubLater(dbs, ops, i, j, slug, picks, p);
    var d := Apply(dbs[i], ops[i]).1.value;
    FaceDown.RevealAnswers(dbs[j], d, p);
    var t := dbs[j].stubs[s].revealedAt;
    OpenedShows(s, dbs[j].stubs[s].(revealedAt := if t.Some? then t else Some(dbs[j].clock)));
  }

  // ----- what is refused -----

  predicate Unknown(db: Db, slug: string) { forall ev :: ev in db.events ==> db.events[ev].slug != slug }

  lemma UnknownExactly(db: Db, slug: string)
    ensures Unknown(db, slug) <==> EventBySlug(db.events, slug).None?
  {
    hide EventBySlug;
    FoundExactly(db, slug);
  }

  /** Nobody by this id in the event with this slug. */
  predicate NoSuchGuest(db: Db, slug: string, id: int) {
    id !in db.guests || db.guests[id].event !in db.events || db.events[db.guests[id].event].slug != slug
  }

  lemma NoSuchGuestExactly(db: Db, slug: string, id: int)
    requires Valid(db)
    ensures NoSuchGuest(db, slug, id)
            <==> EventBySlug(db.events, slug).None? || id !in db.guests || db.guests[id].event != EventBySlug(db.events, slug).value
  {
    hide EventsOk, TextOk, DrawsOk, StubsOk, GuestsOk, EventBySlug;
    UnknownExactly(db, slug);
    if id in db.guests && db.guests[id].event in db.events && db.events[db.guests[id].event].slug == slug {
      Drift.FoundBySlug(db, db.guests[id].event);
    }
  }

  /** Why a guest write is turned away, in the order in which it is looked at. */
  lemma GuestWritesRefused(db: Db, slug: string, raw: string, count: Int64, id: int, name: Option<string>, newCount: Option<Int64>)
    requires Valid(db)
    ensures var r := Tables.AddDiapers(db, slug, raw, count).1;
            && (r == Err(Invalid) <==> Text.TrimSpace(raw) == "" || count < 0)
            && (r == Err(NotFound) <==> !(Text.TrimSpace(raw) == "" || count < 0) && Unknown(db, slug))
    ensures var r := Tables.UpdateGuest(db, slug, id, name, newCount).1;
            && (r == Err(NotFound) <==> NoSuchGuest(db, slug, id))
            && (r == Err(Invalid) <==>
                  && !NoSuchGuest(db, slug, id)
                  && ((name.Some? && Text.TrimSpace(name.value) == "") || (newCount.Some? && newCount.value < 0)))
    ensures Tables.DeleteGuest(db, slug, id).1 == Err(NotFound) <==> NoSuchGuest(db, slug, id)
    ensures Tables.DeleteGuest(db, slug, id).1.Err? ==> NoSuchGuest(db, slug, id)
    ensures Tables.ReplaceRoster(db, slug, raw).1 == Err(NotFound) <==> Unknown(db, slug)
    ensures Tables.ReplaceRoster(db, slug, raw).1.Err? ==> Unknown(db, slug)
  {
    hide Valid, Unknown, NoSuchGuest, EventBySlug, GuestByKey, SyncRosterText, NameKey, Text.TrimSpace, NextPosition, Rows, KeyTaken,
      Renamed, Forget, Parse, IndexOfEvent, RowIds, EntryRows, NewKeys;
    UnknownExactly(db, slug);
    NoSuchGuestExactly(db, slug, id);
  }

  /** A draw is turned away when there is no such event, or nobody in it has brought diapers; an update or deletion when there is no such event. */
  lemma EventWritesRefused(db: Db, slug: string, picks: seq<Pick>, name: Option<string>, moveTo: Option<string>, prizes: Option<int>)
    requires Valid(db)
    ensures var r := Tables.RunDraw(db, slug, picks).1;
            && (r == Err(NotFound) <==> Unknown(db, slug))
            && (r == Err(Invalid) <==>
                  !Unknown(db, slug)
                  && forall id :: id in db.guests && db.guests[id].event in db.events && db.events[db.guests[id].event].slug == slug ==>
                       db.guests[id].count <= 0)
            && (r.Err? ==> r == Err(NotFound) || r == Err(Invalid))
    ensures Tables.UpdateEvent(db, slug, name, moveTo, prizes).1 == Err(NotFound) <==> Unknown(db, slug)
    ensures Tables.DeleteEvent(db, slug).1 == Err(NotFound) <==> Unknown(db, slug)
    ensures Tables.DeleteEvent(db, slug).1.Err? ==> Unknown(db, slug)
  {
    hide Valid, Unknown, EventBySlug, Rows, Candidates, D.WithDiapers, Wrap, CountTotal, Recorded, Without, MovedSlug, Text.TrimSpace;
    UnknownExactly(db, slug);
    MovedIsNotLost(db.events, slug, moveTo);
    if EventBySlug(db.events, slug).Some? {
      var ev := EventBySlug(db.events, slug).value;
      MovedIsNotLost(db.events, db.events[ev].slug, moveTo);
      NobodyExactly(db, slug, ev);
    }
  }

  lemma MovedIsNotLost(events: map<int, Event>, current: string, moveTo: Option<string>)
    ensures MovedSlug(events, current, moveTo) != Err(NotFound)
  {
    hide Slug.Slugify, Slug.FirstFree, Slugs;
  }

  lemma NobodyExactly(db: Db, slug: string, ev: int)
    requires Valid(db) && EventBySlug(db.events, slug) == Some(ev)
    ensures |D.WithDiapers(Candidates(Rows(db.guests, ev)))| == 0 <==>
            forall id :: id in db.guests && db.guests[id].event in db.events && db.events[db.guests[id].event].slug == slug ==>
              db.guests[id].count <= 0
  {
    hide EventsOk, TextOk, DrawsOk, StubsOk, GuestsOk, EventBySlug, Rows, Candidates, D.WithDiapers, NoSuchGuest;
    var rows := Rows(db.guests, ev);
    var pool := Candidates(rows);
    forall id | id in db.guests && db.guests[id].event in db.events && db.events[db.guests[id].event].slug == slug
      ensures |D.WithDiapers(pool)| == 0 ==> db.guests[id].count <= 0
    {
      Drift.FoundBySlug(db, db.guests[id].event);
      InRows(db.guests, id);
      var i := PoolAt(rows, id);
      if pool[i].count > 0 { OddsRows.AtPlace(pool, i); }
    }
    if |D.WithDiapers(pool)| > 0 {
      WinnerIsEntrant(db, ev, 0);
      var c := D.WithDiapers(pool)[0];
      assert c.id in db.guests && db.guests[c.id].event == ev && db.guests[c.id].count > 0;
    }
  }

  lemma PoolAt(rows: map<int, Guest>, id: int) returns (i: nat)
    requires id in rows
    ensures i < |Candidates(rows)| && Candidates(rows)[i].count == rows[id].count
  {
    i := ListedAt(rows, id);
  }
}
