/** The store as a state machine: one committed or failed transaction at a time. */
module Steps {
  import opened Wrappers
  import opened Text
  import opened Decimal
  import opened Roster
  import opened RoundTrip
  import opened Tables
  import opened Invariant
  import D = Draw
  import opened Slug

  datatype Op =
    | CreateEvent(name: string, newSlug: string, prizes: int)
    | UpdateEvent(slug: string, newName: Option<string>, moveTo: Option<string>, newPrizes: Option<int>)
    | DeleteEvent(slug: string)
    | ReplaceRoster(slug: string, text: string)
    | AddDiapers(slug: string, guest: string, count: Int64)
    | UpdateGuest(slug: string, id: int, rename: Option<string>, newCount: Option<Int64>)
    | DeleteGuest(slug: string, id: int)
    | RunDraw(slug: string, picks: seq<Pick>)
    | RevealWinner(draw: int, prize: int)
    | Tick(delta: nat)

  function Apply(db: Db, op: Op): (Db, Result<int>) {
    match op
    case CreateEvent(name, slug, prizes) => Tables.CreateEvent(db, name, slug, prizes)
    case UpdateEvent(slug, name, moveTo, prizes) => Tables.UpdateEvent(db, slug, name, moveTo, prizes)
    case DeleteEvent(slug) => Tables.DeleteEvent(db, slug)
    case ReplaceRoster(slug, text) => Tables.ReplaceRoster(db, slug, text)
    case AddDiapers(slug, guest, count) => Tables.AddDiapers(db, slug, guest, count)
    case UpdateGuest(slug, id, rename, count) => Tables.UpdateGuest(db, slug, id, rename, count)
    case DeleteGuest(slug, id) => Tables.DeleteGuest(db, slug, id)
    case RunDraw(slug, picks) => Tables.RunDraw(db, slug, picks)
    case RevealWinner(draw, prize) => Tables.RevealWinner(db, draw, prize)
    case Tick(delta) => (db.(clock := db.clock + delta), Ok(0))
  }

  function Winners(picks: seq<Pick>): (ws: seq<D.Candidate>)
    ensures |ws| == |picks| && forall i :: 0 <= i < |ws| ==> ws[i] == picks[i].winner
  {
    seq(|picks|, i requires 0 <= i < |picks| => picks[i].winner)
  }

  /** The picks are an outcome of the draw on the current roster, for some randomness. */
  ghost predicate Legal(db: Db, op: Op) {
    op.RunDraw? ==>
      var ev := EventBySlug(db.events, op.slug);
      ev.Some? ==>
        exists logU ::
          D.IsDraw(Candidates(Rows(db.guests, ev.value)), db.events[ev.value].prizeCount, logU, Winners(op.picks))
  }

  /** The transaction committed a roster change to this event. */
  predicate WritesRoster(db: Db, op: Op, ev: int) {
    && (op.ReplaceRoster? || op.AddDiapers? || op.UpdateGuest? || op.DeleteGuest?)
    && Apply(db, op).1 == Ok(ev)
  }

  lemma {:induction false} EligibleFromPool(pool: seq<D.Candidate>, i: nat)
    requires i < |D.WithDiapers(pool)|
    ensures D.WithDiapers(pool)[i] in pool
  {
    var init := pool[..|pool| - 1];
    if i < |D.WithDiapers(init)| { EligibleFromPool(init, i); }
  }

  lemma LegalPicks(db: Db, slug: string, picks: seq<Pick>)
    requires Legal(db, RunDraw(slug, picks))
    ensures PicksFromPool(db, slug, picks)
  {
    hide EventBySlug, Candidates, Rows, D.WithDiapers, D.DrawKeys, D.IsDraw, D.SortedPermutation;
    var ev := EventBySlug(db.events, slug);
    if ev.Some? {
      var pool := Candidates(Rows(db.guests, ev.value));
      var ws := Winners(picks);
      var logU :| D.IsDraw(pool, db.events[ev.value].prizeCount, logU, ws);
      var eligible := D.WithDiapers(pool);
      var perm := D.DrawOrder(pool, db.events[ev.value].prizeCount, logU, ws);
      forall i | 0 <= i < |picks| ensures picks[i].winner in pool {
        assert picks[i].winner == ws[i] == eligible[perm[i]];
        EligibleFromPool(pool, perm[i]);
      }
    }
  }

  /** Every transaction keeps the invariant, whatever it is asked to do. */
  lemma StepKeeps(db: Db, op: Op)
    requires Valid(db) && Legal(db, op)
    ensures Valid(Apply(db, op).0)
  {
    hide Valid, Tables.CreateEvent, Tables.UpdateEvent, Tables.DeleteEvent, Tables.ReplaceRoster, Tables.AddDiapers,
      Tables.UpdateGuest, Tables.DeleteGuest, Tables.RunDraw, Tables.RevealWinner, PicksFromPool, Legal, Parse, RosterOf, Rows,
      EventBySlug;
    match op
    case CreateEvent(name, slug, prizes) => CreateEventKeeps(db, name, slug, prizes);
    case UpdateEvent(slug, name, moveTo, prizes) => UpdateEventKeeps(db, slug, name, moveTo, prizes);
    case DeleteEvent(slug) => DeleteEventKeeps(db, slug);
    case ReplaceRoster(slug, text) => ReplaceRosterKeeps(db, slug, text);
    case AddDiapers(slug, guest, count) => AddDiapersKeeps(db, slug, guest, count);
    case UpdateGuest(slug, id, rename, count) => UpdateGuestKeeps(db, slug, id, rename, count);
    case DeleteGuest(slug, id) => DeleteGuestKeeps(db, slug, id);
    case RunDraw(slug, picks) =>
      LegalPicks(db, slug, picks);
      RunDrawKeeps(db, slug, picks);
    case RevealWinner(draw, prize) => RevealKeeps(db, draw, prize);
    case Tick(delta) => TickKeeps(db, delta);
  }

  lemma TickKeeps(db: Db, delta: nat)
    requires Valid(db)
    ensures Valid(db.(clock := db.clock + delta))
  {
    hide EventsOk, GuestsOk, DrawsOk, TextOkAt, StubsOk;
    var db' := db.(clock := db.clock + delta);
    SameEventsAndDraws(db, db');
    GuestsFrame(db, db');
    StubsFrame(db, db');
    forall e | e in db'.events ensures TextOkAt(db', e) { TextFrame(db, db', e); }
  }

  // ----- what no transaction ever does -----

  /** Sequences only grow, and a row that appears has an id never used before. */
  predicate IdsFresh(a: Db, b: Db) {
    && a.nextEvent <= b.nextEvent && a.nextGuest <= b.nextGuest && a.nextDraw <= b.nextDraw && a.nextStub <= b.nextStub
    && (forall e :: e in b.events && e !in a.events ==> e >= a.nextEvent)
    && (forall g :: g in b.guests && g !in a.guests ==> g >= a.nextGuest)
    && (forall d :: d in b.draws && d !in a.draws ==> d >= a.nextDraw)
    && (forall s :: s in b.stubs && s !in a.stubs ==> s >= a.nextStub)
    && a.clock <= b.clock
  }

  /** Versions never fall, and an unchanged version means an unchanged roster. */
  predicate VersionsTell(a: Db, b: Db) {
    forall e :: e in a.events && e in b.events ==>
      && a.events[e].rosterVersion <= b.events[e].rosterVersion
      && (a.events[e].rosterVersion == b.events[e].rosterVersion ==>
            Rows(a.guests, e) == Rows(b.guests, e) && a.events[e].rosterText == b.events[e].rosterText)
  }

  /** A recorded draw stays as it was for as long as its event exists. */
  predicate DrawsFrozen(a: Db, b: Db) {
    forall d :: d in a.draws ==>
      && (d in b.draws ==> b.draws[d] == a.draws[d])
      && (a.draws[d].event in b.events ==> d in b.draws)
  }

  /** What a stub may become: turned over at most once, its guest forgotten exactly when that row is gone. */
  predicate StubBecomes(s: Stub, t: Stub, guests: map<int, Guest>) {
    && t == s.(guest := t.guest, revealedAt := t.revealedAt)
    && (s.revealedAt.Some? ==> t.revealedAt == s.revealedAt)
    && t.guest == (if s.guest.Some? && s.guest.value in guests then s.guest else None)
  }

  predicate StubsFrozen(a: Db, b: Db) {
    forall s :: s in a.stubs ==>
      && (s in b.stubs ==> StubBecomes(a.stubs[s], b.stubs[s], b.guests))
      && (a.stubs[s].draw in b.draws ==> s in b.stubs)
  }

  predicate Follows(a: Db, b: Db) { IdsFresh(a, b) && VersionsTell(a, b) && DrawsFrozen(a, b) && StubsFrozen(a, b) }

  lemma FollowsSelf(db: Db)
    requires Valid(db)
    ensures Follows(db, db)
  {
    hide EventsOk, GuestsOk, TextOk, DrawsOk;
  }

  lemma FollowsTransitive(a: Db, b: Db, c: Db)
    requires Valid(a) && Valid(b) && Follows(a, b) && Follows(b, c)
    ensures Follows(a, c)
  {
    hide TextOk;
    IdsTransitive(a, b, c);
    VersionsTransitive(a, b, c);
    DrawsTransitive(a, b, c);
    StubsTransitive(a, b, c);
  }

  lemma IdsTransitive(a: Db, b: Db, c: Db)
    requires IdsFresh(a, b) && IdsFresh(b, c)
    ensures IdsFresh(a, c)
  {
  }

  lemma VersionsTransitive(a: Db, b: Db, c: Db)
    requires EventsOk(a) && IdsFresh(a, b) && IdsFresh(b, c) && VersionsTell(a, b) && VersionsTell(b, c)
    ensures VersionsTell(a, c)
  {
    hide SlugShape, Rows;
    forall e | e in a.events && e in c.events ensures e in b.events { assert EventOk(a, e); }
  }

  lemma DrawsTransitive(a: Db, b: Db, c: Db)
    requires EventsOk(a) && DrawsOk(a) && IdsFresh(a, b) && IdsFresh(b, c) && DrawsFrozen(a, b) && DrawsFrozen(b, c)
    ensures DrawsFrozen(a, c)
  {
    hide SlugShape;
    forall d | d in a.draws
      ensures d in c.draws ==> c.draws[d] == a.draws[d]
      ensures a.draws[d].event in c.events ==> d in c.draws
    {
      assert EventOk(a, a.draws[d].event);
    }
  }

  lemma StubsTransitive(a: Db, b: Db, c: Db)
    requires DrawsOk(a) && GuestsOk(a) && StubsOk(a) && IdsFresh(a, b) && IdsFresh(b, c)
    requires StubsFrozen(a, b) && StubsFrozen(b, c)
    ensures StubsFrozen(a, c)
  {
    hide GoodEntry, DistinctGuests;
    forall s | s in a.stubs
      ensures s in c.stubs ==> StubBecomes(a.stubs[s], c.stubs[s], c.guests)
      ensures a.stubs[s].draw in c.draws ==> s in c.stubs
    {
      assert s in c.stubs ==> s in b.stubs;
      var guest := a.stubs[s].guest;
      if guest.Some? {
        assert guest.value in a.guests && guest.value < a.nextGuest;
        assert guest.value in c.guests ==> guest.value in b.guests;
      }
      assert a.stubs[s].draw in c.draws ==> a.stubs[s].draw in b.draws;
    }
  }

  // ----- every transaction follows -----

  lemma SyncFollows(a: Db, b: Db, ev: int)
    requires ev in b.events && b.events == a.events && b.draws == a.draws
    requires IdsFresh(a, b) && StubsFrozen(a, b)
    requires forall e :: e in a.events && e != ev ==> Rows(b.guests, e) == Rows(a.guests, e)
    ensures Follows(a, SyncRosterText(b, ev))
  {
    hide IdsFresh, VersionsTell, DrawsFrozen, StubsFrozen, SyncRosterText, Rows;
    SyncVersions(a, b, ev);
    SyncFrozen(a, b, ev);
  }

  lemma SyncFrozen(a: Db, b: Db, ev: int)
    requires ev in b.events && b.events == a.events && b.draws == a.draws && IdsFresh(a, b) && StubsFrozen(a, b)
    ensures var c := SyncRosterText(b, ev); IdsFresh(a, c) && DrawsFrozen(a, c) && StubsFrozen(a, c)
  {
    hide Format, RosterOf, Rows;
    assert SyncRosterText(b, ev).guests.Keys == b.guests.Keys;
  }

  lemma SyncVersions(a: Db, b: Db, ev: int)
    requires ev in b.events && b.events == a.events
    requires forall e :: e in a.events && e != ev ==> Rows(b.guests, e) == Rows(a.guests, e)
    ensures VersionsTell(a, SyncRosterText(b, ev))
  {
    hide Format, RosterOf, Rows, Unmerge;
    var c := SyncRosterText(b, ev);
    forall e | e in a.events && e != ev ensures Rows(c.guests, e) == Rows(a.guests, e) {
      UnmergedRows(b.guests, ev, e);
    }
  }

  lemma PutRowFollows(db: Db, id: int, row: Guest, next: int)
    requires Valid(db) && db.nextGuest <= next && (id in db.guests || id >= db.nextGuest)
    requires id in db.guests ==> db.guests[id].event == row.event
    ensures var b := db.(guests := db.guests[id := row], nextGuest := next);
            && IdsFresh(db, b) && StubsFrozen(db, b)
            && forall e :: e != row.event ==> Rows(b.guests, e) == Rows(db.guests, e)
  {
    hide EventsOk, GuestsOk, TextOk, DrawsOk;
  }

  lemma AddDiapersFollows(db: Db, slug: string, raw: string, count: Int64)
    requires Valid(db)
    ensures Follows(db, Tables.AddDiapers(db, slug, raw, count).0)
  {
    hide Valid, Follows, EventBySlug, GuestByKey, SyncRosterText, NameKey, TrimSpace, NextPosition, Rows, IdsFresh, StubsFrozen;
    var name := TrimSpace(raw);
    var found := EventBySlug(db.events, slug);
    FollowsSelf(db);
    if name != "" && count >= 0 && found.Some? {
      var ev := found.value;
      var guest := GuestByKey(db.guests, ev, NameKey(name));
      if guest.None? {
        var row := Guest(ev, name, NameKey(name), count, NextPosition(Rows(db.guests, ev)), false);
        NextGuestFree(db);
        PutRowFollows(db, db.nextGuest, row, db.nextGuest + 1);
        SyncFollows(db, db.(guests := db.guests[db.nextGuest := row], nextGuest := db.nextGuest + 1), ev);
      } else if db.guests[guest.value].count + count <= MAX_INT64 {
        var row := db.guests[guest.value].(count := db.guests[guest.value].count + count);
        PutRowFollows(db, guest.value, row, db.nextGuest);
        SyncFollows(db, db.(guests := db.guests[guest.value := row]), ev);
      }
    }
  }

  lemma NextGuestFree(db: Db)
    requires Valid(db)
    ensures db.nextGuest !in db.guests
  {
    hide EventsOk, TextOk, DrawsOk, StubsOk;
  }

  lemma UpdateGuestFollows(db: Db, slug: string, id: int, name: Option<string>, count: Option<Int64>)
    requires Valid(db)
    ensures Follows(db, Tables.UpdateGuest(db, slug, id, name, count).0)
  {
    hide Valid, Follows, EventBySlug, SyncRosterText, NameKey, TrimSpace, Rows, IdsFresh, StubsFrozen, KeyTaken;
    FollowsSelf(db);
    if Tables.UpdateGuest(db, slug, id, name, count).1.Ok? {
      var row := Renamed(db.guests[id], name, count);
      PutRowFollows(db, id, row, db.nextGuest);
      SyncFollows(db, db.(guests := db.guests[id := row]), row.event);
    }
  }

  /** Rows leave with their stubs' references; other stubs keep theirs. */
  lemma ForgetFrozen(db: Db, gone: set<int>, b: Db)
    requires Valid(db)
    requires forall g :: g in db.guests ==> (g in b.guests <==> g !in gone)
    requires b.stubs == Forget(db.stubs, gone) && b.draws == db.draws
    ensures StubsFrozen(db, b)
  {
    hide EventsOk, GuestsOk, TextOk, DrawsOk;
    forall s | s in db.stubs ensures s in b.stubs && StubBecomes(db.stubs[s], b.stubs[s], b.guests) {
      var guest := db.stubs[s].guest;
      if guest.Some? {
        var g: int := guest.value;
        assert g in db.guests;
        assert g in b.guests <==> g !in gone;
      }
    }
  }

  lemma DeleteGuestFollows(db: Db, slug: string, id: int)
    requires Valid(db)
    ensures Follows(db, Tables.DeleteGuest(db, slug, id).0)
  {
    hide Valid, Follows, EventBySlug, SyncRosterText, StubsFrozen, Forget;
    FollowsSelf(db);
    if Tables.DeleteGuest(db, slug, id).1.Ok? {
      var ev := EventBySlug(db.events, slug).value;
      var b := db.(guests := db.guests - {id}, stubs := Forget(db.stubs, {id}));
      ForgetFrozen(db, {id}, b);
      assert b.stubs.Keys == db.stubs.Keys by { ForgetKeys(db.stubs, {id}); }
      forall e | e in db.events && e != ev ensures Rows(b.guests, e) == Rows(db.guests, e) {}
      SyncFollows(db, b, ev);
    }
  }

  lemma ForgetKeys(stubs: map<int, Stub>, gone: set<int>)
    ensures Forget(stubs, gone).Keys == stubs.Keys
  {
  }

  lemma ReplaceRosterFollows(db: Db, slug: string, text: string)
    requires Valid(db)
    ensures Follows(db, Tables.ReplaceRoster(db, slug, text).0)
  {
    hide Valid, EventBySlug, Parse, IndexOfEvent, RowIds, EntryRows, NewKeys, RosterOf, Forget, Listing, StubsFrozen, Rows;
    FollowsSelf(db);
    var found := EventBySlug(db.events, slug);
    if found.Some? {
      var ev := found.value;
      var es := Parse(text);
      ParseWellFormed(text);
      assert GuestsOk(db) by { ValidGuests(db); }
      KeptFacts(db, ev, es);
      var ids := RowIds(es, IndexOfEvent(db, ev), db.nextGuest);
      var kept := EntryRows(ev, es, ids);
      KeptAreGood(ev, es, ids, kept);
      KnownBelow(db);
      var b := Tables.ReplaceRoster(db, slug, text).0;
      ForgetKeys(db.stubs, Rows(db.guests, ev).Keys - kept.Keys);
      ForgetFrozen(db, Rows(db.guests, ev).Keys - kept.Keys, b);
      forall e | e in db.events && e != ev ensures Rows(b.guests, e) == Rows(db.guests, e) {
        ReplacedRows(db, ev, kept, e);
      }
      assert IdsFresh(db, b);
    }
  }

  lemma ValidGuests(db: Db)
    requires Valid(db)
    ensures GuestsOk(db)
  {
    hide EventsOk, GuestsOk, TextOk, DrawsOk, StubsOk;
  }

  lemma RecordedFollows(db: Db, row: DrawRow, picks: seq<Pick>, db': Db)
    requires Valid(db)
    requires db' == Recorded(db, row, picks)
    ensures Follows(db, db')
  {
    hide NewStubs, EventsOk, GuestsOk, TextOk, RosterOf, Rows;
  }

  lemma RunDrawFollows(db: Db, slug: string, picks: seq<Pick>)
    requires Valid(db)
    ensures Follows(db, Tables.RunDraw(db, slug, picks).0)
  {
    hide EventBySlug, D.WithDiapers, Candidates, Wrap, CountTotal, NewStubs, EventsOk, GuestsOk, TextOk, RosterOf, Rows,
      Tables.RunDraw, Follows, DrawsOk, StubsOk;
    var found := EventBySlug(db.events, slug);
    if found.None? {
      NoSlugNoDraw(db, slug, picks);
      FollowsSelf(db);
    } else {
      var eligible := D.WithDiapers(Candidates(Rows(db.guests, found.value)));
      DrawnDb(db, slug, picks, found.value, eligible);
      if |eligible| == 0 {
        FollowsSelf(db);
      } else {
        var db' := Tables.RunDraw(db, slug, picks).0;
        RecordedFollows(db, db'.draws[db.nextDraw], picks, db');
      }
    }
  }

  lemma RevealFollows(db: Db, draw: int, prize: int)
    requires Valid(db)
    ensures Follows(db, Tables.RevealWinner(db, draw, prize).0)
  {
    hide StubAt, EventsOk, GuestsOk, TextOk, DrawsOk;
  }

  lemma CreateEventFollows(db: Db, name: string, slug: string, prizes: int)
    requires Valid(db)
    ensures Follows(db, Tables.CreateEvent(db, name, slug, prizes).0)
  {
    hide Slug.Slugify, Slug.FirstFree, TrimSpace, TextOk, GuestsOk, DrawsOk, Rows, SlugShape;
    FollowsSelf(db);
    assert forall e :: e in db.events ==> EventOk(db, e) && e < db.nextEvent;
  }

  lemma UpdateEventFollows(db: Db, slug: string, name: Option<string>, moveTo: Option<string>, prizes: Option<int>)
    requires Valid(db)
    ensures Follows(db, Tables.UpdateEvent(db, slug, name, moveTo, prizes).0)
  {
    hide EventBySlug, MovedSlug, TrimSpace, EventsOk, GuestsOk, TextOk, DrawsOk, Rows;
    FollowsSelf(db);
  }

  lemma DeleteEventFollows(db: Db, slug: string)
    requires Valid(db)
    ensures Follows(db, Tables.DeleteEvent(db, slug).0)
  {
    hide EventBySlug, EventsOk, TextOk, GoodEntry, DistinctGuests;
    if Tables.DeleteEvent(db, slug).1.Ok? {
      var ev := EventBySlug(db.events, slug).value;
      var b := Tables.DeleteEvent(db, slug).0;
      forall e | e in b.events ensures Rows(b.guests, e) == Rows(db.guests, e) {}
      assert forall g :: g in db.guests ==> (g in b.guests <==> db.guests[g].event != ev);
    } else {
      FollowsSelf(db);
    }
  }

  lemma StepFollows(db: Db, op: Op)
    requires Valid(db)
    ensures Follows(db, Apply(db, op).0)
  {
    hide Valid, Follows, Tables.CreateEvent, Tables.UpdateEvent, Tables.DeleteEvent, Tables.ReplaceRoster,
      Tables.AddDiapers, Tables.UpdateGuest, Tables.DeleteGuest, Tables.RunDraw, Tables.RevealWinner;
    match op
    case CreateEvent(name, slug, prizes) => CreateEventFollows(db, name, slug, prizes);
    case UpdateEvent(slug, name, moveTo, prizes) => UpdateEventFollows(db, slug, name, moveTo, prizes);
    case DeleteEvent(slug) => DeleteEventFollows(db, slug);
    case ReplaceRoster(slug, text) => ReplaceRosterFollows(db, slug, text);
    case AddDiapers(slug, guest, count) => AddDiapersFollows(db, slug, guest, count);
    case UpdateGuest(slug, id, rename, count) => UpdateGuestFollows(db, slug, id, rename, count);
    case DeleteGuest(slug, id) => DeleteGuestFollows(db, slug, id);
    case RunDraw(slug, picks) => RunDrawFollows(db, slug, picks);
    case RevealWinner(draw, prize) => RevealFollows(db, draw, prize);
    case Tick(delta) => TickFollows(db, delta);
  }

  lemma TickFollows(db: Db, delta: nat)
    requires Valid(db)
    ensures Follows(db, db.(clock := db.clock + delta))
  {
    FollowsSelf(db);
  }

  // ----- versions count writes -----

  /** A version moves by one when the transaction wrote that roster, and otherwise not at all. */
  lemma StepVersion(db: Db, op: Op, ev: int)
    requires ev in db.events && ev in Apply(db, op).0.events
    requires Valid(db)
    ensures Apply(db, op).0.events[ev].rosterVersion
            == db.events[ev].rosterVersion + if WritesRoster(db, op, ev) then 1 else 0
    ensures Apply(db, op).1.Err? ==> Apply(db, op).0 == db
  {
    hide EventBySlug, GuestByKey, NameKey, TrimSpace, NextPosition, Rows, KeyTaken, Parse, IndexOfEvent, RowIds, EntryRows,
      NewKeys, Forget, Format, RosterOf, Slug.FirstFree, Slug.Slugify, MovedSlug, StubAt, NewStubs, D.WithDiapers,
      Candidates, GuestsOk, TextOk, DrawsOk, StubsOk, SlugShape, Unmerge, CountTotal, Wrap;
    assert EventOk(db, ev);
  }
}
