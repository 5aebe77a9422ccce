/** Winners on stubs nobody has turned over cannot influence any response. */
module FaceDown {
  import opened Wrappers
  import opened Ordering
  import opened Tables
  import opened Steps
  import opened Runs
  import opened Views
  import Roster
  import Text
  import Slug
  import Draw
  import Invariant
  import Decimal

  /** The same stub, or two face-down stubs that differ only in who is printed on them. */
  predicate StubsAlike(s: Stub, t: Stub) {
    s == t || (s.revealedAt.None? && t == s.(guest := t.guest, name := t.name, count := t.count))
  }

  /** Two stores that differ only in who is printed on face-down stubs. */
  ghost predicate Alike(a: Db, b: Db) {
    && b == a.(stubs := b.stubs)
    && (forall s :: s in a.stubs <==> s in b.stubs)
    && (forall s :: s in a.stubs ==> StubsAlike(a.stubs[s], b.stubs[s]))
  }

  /** The request turns over a stub on which the two stores differ. */
  predicate TurnsOver(a: Db, b: Db, req: Request) {
    && req.Write? && req.op.RevealWinner?
    && var s := StubAt(a.stubs, req.op.draw, req.op.prize);
       s.Some? && s.value in b.stubs && a.stubs[s.value] != b.stubs[s.value]
  }

  // ----- reading -----

  lemma SameStubsOf(a: map<int, Stub>, b: map<int, Stub>, d: int)
    requires forall s :: s in a <==> s in b
    requires forall s :: s in a ==> StubsAlike(a[s], b[s])
    ensures StubsOf(a, d) == StubsOf(b, d)
  {
    hide Ordered;
    forall s | s in a ensures a[s].draw == b[s].draw && a[s].prizeIndex == b[s].prizeIndex { assert StubsAlike(a[s], b[s]); }
    var ma := map s | s in a && a[s].draw == d :: a[s].prizeIndex;
    var mb := map s | s in b && b[s].draw == d :: b[s].prizeIndex;
    forall s ensures s in ma <==> s in mb { assert s in a <==> s in b; }
    assert forall s :: s in ma ==> ma[s] == mb[s];
    assert ma == mb;
  }

  /** Two stubs load to the same view exactly when they are alike: face down, all but the winner shows. */
  lemma HiddenExactly(id: int, s: Stub, t: Stub)
    ensures Hidden(Loaded(id, s)) == Hidden(Loaded(id, t)) <==> StubsAlike(s, t)
  {
  }

  lemma SameWinners(a: map<int, Stub>, b: map<int, Stub>, d: int)
    requires forall s :: s in a <==> s in b
    requires forall s :: s in a ==> StubsAlike(a[s], b[s])
    ensures WinnersOf(a, d) == WinnersOf(b, d)
  {
    hide StubsOf, Hidden, Loaded, StubsAlike;
    SameStubsOf(a, b, d);
    var ids := StubsOf(a, d);
    forall i | 0 <= i < |ids| ensures WinnersOf(a, d)[i] == WinnersOf(b, d)[i] {
      assert ids[i] in ids;
      HiddenExactly(ids[i], a[ids[i]], b[ids[i]]);
    }
  }

  lemma SameDrawPage(a: Db, b: Db, d: int)
    requires Alike(a, b) && d in a.draws
    ensures DrawPage(a, d) == DrawPage(b, d)
  {
    hide WinnersOf;
    SameWinners(a.stubs, b.stubs, d);
  }

  lemma SameEventPage(a: Db, b: Db, ev: int)
    requires Alike(a, b) && ev in a.events
    ensures EventPage(a, ev) == EventPage(b, ev)
  {
    hide DrawPage, LatestDraw, TallyOf, GuestsOf, Rows, Listing;
    SameLatest(a, b, ev);
    var d := LatestDraw(a, ev);
    if d.Some? { SameDrawPage(a, b, d.value); }
  }

  lemma SameLatest(a: Db, b: Db, ev: int)
    requires a.draws == b.draws
    ensures LatestDraw(a, ev) == LatestDraw(b, ev) && DrawTimes(a, ev) == DrawTimes(b, ev)
  {
    hide Ordered;
    assert DrawTimes(a, ev) == DrawTimes(b, ev);
  }

  lemma SameRecent(a: Db, b: Db, ev: int, limit: int)
    requires Alike(a, b)
    ensures RecentDraws(a, ev, limit) == RecentDraws(b, ev, limit)
    ensures DrawPages(a, RecentDraws(a, ev, limit)) == DrawPages(b, RecentDraws(b, ev, limit))
  {
    hide DrawPage, Ordered;
    SameLatest(a, b, ev);
    var ids := RecentDraws(a, ev, limit);
    assert RecentDraws(b, ev, limit) == ids;
    forall i | 0 <= i < |ids| ensures DrawPages(a, ids)[i] == DrawPages(b, ids)[i] { SameDrawPage(a, b, ids[i]); }
  }

  // ----- writing -----

  lemma ForgetAlike(a: map<int, Stub>, b: map<int, Stub>, gone: set<int>)
    requires forall s :: s in a <==> s in b
    requires forall s :: s in a ==> StubsAlike(a[s], b[s])
    ensures forall s :: s in Forget(a, gone) <==> s in Forget(b, gone)
    ensures forall s :: s in Forget(a, gone) ==> StubsAlike(Forget(a, gone)[s], Forget(b, gone)[s])
  {
  }

  lemma SamePlaces(a: Db, b: Db)
    requires Alike(a, b)
    ensures forall s :: s in a.stubs ==>
      s in b.stubs && a.stubs[s].draw == b.stubs[s].draw && a.stubs[s].prizeIndex == b.stubs[s].prizeIndex
  {
    forall s | s in a.stubs
      ensures s in b.stubs && a.stubs[s].draw == b.stubs[s].draw && a.stubs[s].prizeIndex == b.stubs[s].prizeIndex
    {
      assert StubsAlike(a.stubs[s], b.stubs[s]);
    }
  }

  lemma SameStubAt(a: Db, b: Db, draw: int, prize: int)
    requires Alike(a, b)
    ensures StubAt(a.stubs, draw, prize) == StubAt(b.stubs, draw, prize)
  {
    SamePlaces(a, b);
    var ma := map id | id in a.stubs && a.stubs[id].draw == draw && a.stubs[id].prizeIndex == prize :: 0;
    var mb := map id | id in b.stubs && b.stubs[id].draw == draw && b.stubs[id].prizeIndex == prize :: 0;
    forall s ensures s in ma <==> s in mb { assert s in a.stubs <==> s in b.stubs; }
    assert ma == mb;
  }

  lemma SyncAlike(a: Db, b: Db, ev: int)
    requires Alike(a, b) && ev in a.events
    ensures Alike(SyncRosterText(a, ev), SyncRosterText(b, ev))
  {
    hide Roster.Format, RosterOf, Rows, Unmerge, StubsAlike;
  }

  lemma AddDiapersAlike(a: Db, b: Db, slug: string, raw: string, count: Decimal.Int64)
    requires Alike(a, b)
    ensures Tables.AddDiapers(a, slug, raw, count).1 == Tables.AddDiapers(b, slug, raw, count).1
    ensures Alike(Tables.AddDiapers(a, slug, raw, count).0, Tables.AddDiapers(b, slug, raw, count).0)
  {
    hide EventBySlug, GuestByKey, SyncRosterText, Roster.NameKey, Text.TrimSpace, NextPosition, Rows, StubsAlike;
    if Tables.AddDiapers(a, slug, raw, count).1.Ok? {
      var ev := EventBySlug(a.events, slug).value;
      var name := Text.TrimSpace(raw);
      var guest := GuestByKey(a.guests, ev, Roster.NameKey(name));
      if guest.None? {
        var row := Guest(ev, name, Roster.NameKey(name), count, NextPosition(Rows(a.guests, ev)), false);
        SyncAlike(a.(guests := a.guests[a.nextGuest := row], nextGuest := a.nextGuest + 1),
                  b.(guests := a.guests[a.nextGuest := row], nextGuest := a.nextGuest + 1), ev);
      } else {
        var row := a.guests[guest.value];
        var guests := a.guests[guest.value := row.(count := row.count + count)];
        SyncAlike(a.(guests := guests), b.(guests := guests), ev);
      }
    }
  }

  lemma UpdateGuestAlike(a: Db, b: Db, slug: string, id: int, name: Option<string>, count: Option<Decimal.Int64>)
    requires Alike(a, b)
    ensures Tables.UpdateGuest(a, slug, id, name, count).1 == Tables.UpdateGuest(b, slug, id, name, count).1
    ensures Alike(Tables.UpdateGuest(a, slug, id, name, count).0, Tables.UpdateGuest(b, slug, id, name, count).0)
  {
    hide EventBySlug, SyncRosterText, Renamed, Text.TrimSpace, KeyTaken, StubsAlike;
    if Tables.UpdateGuest(a, slug, id, name, count).1.Ok? {
      var guests := a.guests[id := Renamed(a.guests[id], name, count)];
      SyncAlike(a.(guests := guests), b.(guests := guests), EventBySlug(a.events, slug).value);
    }
  }

  lemma DeleteGuestAlike(a: Db, b: Db, slug: string, id: int)
    requires Alike(a, b)
    ensures Tables.DeleteGuest(a, slug, id).1 == Tables.DeleteGuest(b, slug, id).1
    ensures Alike(Tables.DeleteGuest(a, slug, id).0, Tables.DeleteGuest(b, slug, id).0)
  {
    hide EventBySlug, SyncRosterText, Forget, StubsAlike;
    if Tables.DeleteGuest(a, slug, id).1.Ok? {
      var ev := EventBySlug(a.events, slug).value;
      ForgetAlike(a.stubs, b.stubs, {id});
      SyncAlike(a.(guests := a.guests - {id}, stubs := Forget(a.stubs, {id})),
                b.(guests := b.guests - {id}, stubs := Forget(b.stubs, {id})), ev);
    }
  }

  lemma ReplaceRosterAlike(a: Db, b: Db, slug: string, text: string)
    requires Alike(a, b)
    ensures Tables.ReplaceRoster(a, slug, text).1 == Tables.ReplaceRoster(b, slug, text).1
    ensures Alike(Tables.ReplaceRoster(a, slug, text).0, Tables.ReplaceRoster(b, slug, text).0)
  {
    hide EventBySlug, Forget, StubsAlike, Roster.Parse, RowIds, EntryRows, NewKeys, KeyIndex, Listing, Rows;
    var found := EventBySlug(a.events, slug);
    if found.Some? {
      var ev := found.value;
      var es := Roster.Parse(text);
      var kept := EntryRows(ev, es, RowIds(es, IndexOfEvent(a, ev), a.nextGuest));
      ForgetAlike(a.stubs, b.stubs, Rows(a.guests, ev).Keys - kept.Keys);
    }
  }

  lemma DeleteEventAlike(a: Db, b: Db, slug: string)
    requires Alike(a, b)
    ensures Tables.DeleteEvent(a, slug).1 == Tables.DeleteEvent(b, slug).1
    ensures Alike(Tables.DeleteEvent(a, slug).0, Tables.DeleteEvent(b, slug).0)
  {
    hide EventBySlug, Forget;
    SamePlaces(a, b);
    var found := EventBySlug(a.events, slug);
    if found.Some? {
      var ev := found.value;
      var draws := set d | d in a.draws && a.draws[d].event == ev;
      var sa := set s | s in a.stubs && a.stubs[s].draw in draws;
      var sb := set s | s in b.stubs && b.stubs[s].draw in draws;
      forall s ensures s in sa <==> s in sb { assert s in a.stubs <==> s in b.stubs; }
      assert sa == sb;
      ForgetAlike(a.stubs - sa, b.stubs - sb, Rows(a.guests, ev).Keys);
    }
  }

  lemma RunDrawAlike(a: Db, b: Db, slug: string, picks: seq<Pick>)
    requires Alike(a, b)
    ensures Tables.RunDraw(a, slug, picks).1 == Tables.RunDraw(b, slug, picks).1
    ensures Alike(Tables.RunDraw(a, slug, picks).0, Tables.RunDraw(b, slug, picks).0)
  {
    hide EventBySlug, Candidates, Draw.WithDiapers, CountTotal, Rows, NewStubs, Tables.RunDraw, Alike;
    AlikeTables(a, b);
    var found := EventBySlug(a.events, slug);
    if found.None? {
      Invariant.NoSlugNoDraw(a, slug, picks);
      Invariant.NoSlugNoDraw(b, slug, picks);
    } else {
      var eligible := Draw.WithDiapers(Candidates(Rows(a.guests, found.value)));
      Invariant.DrawnDb(a, slug, picks, found.value, eligible);
      Invariant.DrawnDb(b, slug, picks, found.value, eligible);
      if |eligible| > 0 {
        var a', b' := Tables.RunDraw(a, slug, picks).0, Tables.RunDraw(b, slug, picks).0;
        RecordedAlike(a, b, a'.draws[a.nextDraw], picks, a', b');
      }
    }
  }

  lemma AlikeTables(a: Db, b: Db)
    requires Alike(a, b)
    ensures a == Db(b.events, b.guests, b.draws, a.stubs, b.nextEvent, b.nextGuest, b.nextDraw, b.nextStub, b.clock)
  {
  }

  lemma RecordedAlike(a: Db, b: Db, row: DrawRow, picks: seq<Pick>, a': Db, b': Db)
    requires Alike(a, b)
    requires a' == Recorded(a, row, picks) && b' == Recorded(b, row, picks)
    ensures Alike(a', b')
  {
    hide NewStubs, StubsAlike;
    SameNewStubs(a, b, a.nextDraw, picks);
    assert a'.stubs == a.stubs + NewStubs(a.nextDraw, picks, a.nextStub);
    assert b'.stubs == b.stubs + NewStubs(a.nextDraw, picks, b.nextStub);
  }

  lemma SameNewStubs(a: Db, b: Db, draw: int, picks: seq<Pick>)
    requires Alike(a, b)
    ensures var ma, mb := a.stubs + NewStubs(draw, picks, a.nextStub), b.stubs + NewStubs(draw, picks, b.nextStub);
            (forall s :: s in ma <==> s in mb) && (forall s :: s in ma ==> StubsAlike(ma[s], mb[s]))
  {
    hide NewStubs, StubsAlike;
    StubsAlikeSelf();
  }

  lemma StubsAlikeSelf()
    ensures forall s: Stub :: StubsAlike(s, s)
  {
  }

  lemma RevealAlike(a: Db, b: Db, draw: int, prize: int)
    requires Alike(a, b) && !TurnsOver(a, b, Write(RevealWinner(draw, prize)))
    ensures var (a', ra) := Tables.RevealWinner(a, draw, prize);
            var (b', rb) := Tables.RevealWinner(b, draw, prize);
            && ra == rb && Alike(a', b')
            && (ra.Ok? ==> ra.value in a'.stubs && ra.value in b'.stubs && a'.stubs[ra.value] == b'.stubs[ra.value])
  {
    hide StubAt;
    SameStubAt(a, b, draw, prize);
  }

  /** One step: the same outcome, and stores that are still alike. */
  lemma ApplyAlike(a: Db, b: Db, op: Op)
    requires Alike(a, b) && !TurnsOver(a, b, Write(op))
    ensures Apply(a, op).1 == Apply(b, op).1 && Alike(Apply(a, op).0, Apply(b, op).0)
  {
    hide StubsAlike, Tables.DeleteEvent, Tables.ReplaceRoster, Tables.AddDiapers, Tables.UpdateGuest, Tables.DeleteGuest,
      Tables.RunDraw, Tables.RevealWinner, EventBySlug, MovedSlug, Slug.Slugify, Slug.FirstFree, Text.TrimSpace, TurnsOver, Slugs;
    match op
    case CreateEvent(name, slug, prizes) =>
    case UpdateEvent(slug, name, moveTo, prizes) =>
    case DeleteEvent(slug) => DeleteEventAlike(a, b, slug);
    case ReplaceRoster(slug, text) => ReplaceRosterAlike(a, b, slug, text);
    case AddDiapers(slug, guest, count) => AddDiapersAlike(a, b, slug, guest, count);
    case UpdateGuest(slug, id, rename, count) => UpdateGuestAlike(a, b, slug, id, rename, count);
    case DeleteGuest(slug, id) => DeleteGuestAlike(a, b, slug, id);
    case RunDraw(slug, picks) => RunDrawAlike(a, b, slug, picks);
    case RevealWinner(draw, prize) => RevealAlike(a, b, draw, prize);
    case Tick(delta) =>
  }

  // ----- the theorem -----

  /**
   * Two alike stores answer a request identically exactly when it does not
   * turn over a stub on which they differ, and stay alike when it does not.
   */
  lemma ResponsesAgreeExactly(a: Db, b: Db, req: Request)
    requires Alike(a, b)
    ensures Respond(a, req).1 == Respond(b, req).1 <==> !TurnsOver(a, b, req)
    ensures !TurnsOver(a, b, req) ==> Alike(Respond(a, req).0, Respond(b, req).0)
  {
    hide Alike, Apply, EventPage, DrawPage, DrawPages, RecentDraws, EventBySlug, Candidates, Rows, StubAt, WriteResponse, TurnsOver;
    AlikeUnfold(a, b);
    if TurnsOver(a, b, req) {
      TurningOverTells(a, b, req);
    } else {
      match req
      case Write(op) =>
        ApplyAlike(a, b, op);
        var (a', r) := Apply(a, op);
        if r.Ok? { SameWriteResponse(a, b, op); }
      case GetEvent(slug) =>
        var ev := EventBySlug(a.events, slug);
        if ev.Some? { SameEventPage(a, b, ev.value); }
      case ListEvents =>
      case GetOdds(slug, runs) =>
      case ListDraws(slug, limit) =>
        var ev := EventBySlug(a.events, slug);
        if ev.Some? { SameRecent(a, b, ev.value, limit); }
      case GetDraw(id) =>
        if id in a.draws { SameDrawPage(a, b, id); }
    }
  }

  lemma AlikeUnfold(a: Db, b: Db)
    requires Alike(a, b)
    ensures b == a.(stubs := b.stubs)
  {
    hide StubsAlike;
  }

  lemma SameWriteResponse(a: Db, b: Db, op: Op)
    requires Alike(a, b) && !TurnsOver(a, b, Write(op)) && Apply(a, op).1.Ok?
    ensures WriteResponse(Apply(a, op).0, op, Apply(a, op).1.value) == WriteResponse(Apply(b, op).0, op, Apply(a, op).1.value)
  {
    hide Alike, EventPage, DrawPage, StubAt, TurnsOver, Tables.RevealWinner, Tables.CreateEvent, Tables.UpdateEvent,
      Tables.DeleteEvent, Tables.ReplaceRoster, Tables.AddDiapers, Tables.UpdateGuest, Tables.DeleteGuest, Tables.RunDraw;
    ApplyAlike(a, b, op);
    var (a', b', id) := (Apply(a, op).0, Apply(b, op).0, Apply(a, op).1.value);
    AlikeUnfold(a', b');
    if op.RunDraw? {
      if id in a'.draws { SameDrawPage(a', b', id); }
    } else if op.RevealWinner? {
      RevealAlike(a, b, op.draw, op.prize);
    } else if id in a'.events {
      SameEventPage(a', b', id);
    }
  }

  /** A reveal answers with everything on the stub. */
  lemma RevealAnswers(db: Db, draw: int, prize: int)
    requires StubAt(db.stubs, draw, prize).Some?
    ensures var s := StubAt(db.stubs, draw, prize).value;
            var t := db.stubs[s].revealedAt;
            Respond(db, Write(RevealWinner(draw, prize))).1
            == Opened(Loaded(s, db.stubs[s].(revealedAt := if t.Some? then t else Some(db.clock))))
  {
    hide StubAt, EventPage, DrawPage, Loaded;
  }

  lemma TurningOverTells(a: Db, b: Db, req: Request)
    requires Alike(a, b) && TurnsOver(a, b, req)
    ensures Respond(a, req).1 != Respond(b, req).1
  {
    hide StubAt, Respond;
    SameStubAt(a, b, req.op.draw, req.op.prize);
    RevealAnswers(a, req.op.draw, req.op.prize);
    RevealAnswers(b, req.op.draw, req.op.prize);
  }

  // ----- whole conversations -----

  function Converse(db: Db, reqs: seq<Request>): (Db, seq<Response>)
    decreases |reqs|
  {
    if reqs == [] then (db, [])
    else
      var (db1, r) := Respond(db, reqs[0]);
      var (db2, rs) := Converse(db1, reqs[1..]);
      (db2, [r] + rs)
  }

  /** Nobody in the conversation turns over a differing stub. */
  predicate Discreet(a: Db, b: Db, reqs: seq<Request>)
    decreases |reqs|
  {
    reqs == [] || (!TurnsOver(a, b, reqs[0]) && Discreet(Respond(a, reqs[0]).0, Respond(b, reqs[0]).0, reqs[1..]))
  }

  /** A guest watching every response learns nothing about the stubs left face down. */
  lemma {:induction false} FaceDownStaysSecret(a: Db, b: Db, reqs: seq<Request>)
    requires Alike(a, b)
    ensures Converse(a, reqs).1 == Converse(b, reqs).1 <==> Discreet(a, b, reqs)
    ensures Discreet(a, b, reqs) ==> Alike(Converse(a, reqs).0, Converse(b, reqs).0)
    decreases |reqs|
  {
    hide Alike, Respond, TurnsOver;
    if reqs != [] {
      ResponsesAgreeExactly(a, b, reqs[0]);
      var (a1, ra) := Respond(a, reqs[0]);
      var (b1, rb) := Respond(b, reqs[0]);
      if ra == rb {
        FaceDownStaysSecret(a1, b1, reqs[1..]);
        assert ([ra] + Converse(a1, reqs[1..]).1)[1..] == Converse(a1, reqs[1..]).1;
        assert ([rb] + Converse(b1, reqs[1..]).1)[1..] == Converse(b1, reqs[1..]).1;
      } else {
        assert Converse(a, reqs).1[0] == ra && Converse(b, reqs).1[0] == rb;
      }
    }
  }

  // ----- the draw itself -----

  /** Two outcomes with the same serials in the same places, whoever won. */
  predicate SameSerials(p: seq<Pick>, q: seq<Pick>) { |p| == |q| && forall i :: 0 <= i < |p| ==> p[i].serial == q[i].serial }

  lemma NewStubsAlike(draw: int, prize: int, p: Pick, q: Pick)
    requires p.serial == q.serial
    ensures StubsAlike(StubFor(draw, prize, p), StubFor(draw, prize, q))
  {
  }

  lemma RecordedEitherWay(db: Db, row: DrawRow, p: seq<Pick>, q: seq<Pick>)
    requires SameSerials(p, q)
    ensures Alike(Recorded(db, row, p), Recorded(db, row, q))
  {
    hide NewStubs, StubsAlike, StubFor, SameSerials;
    var next := db.nextStub;
    var a, b := Recorded(db, row, p), Recorded(db, row, q);
    SameLength(p, q);
    NewStubsEitherWay(db.nextDraw, p, q, next);
    StubsAlikeSelf();
    assert a.stubs == db.stubs + NewStubs(db.nextDraw, p, next) && b.stubs == db.stubs + NewStubs(db.nextDraw, q, next);
  }

  lemma SameLength(p: seq<Pick>, q: seq<Pick>)
    requires SameSerials(p, q)
    ensures |p| == |q|
  {
  }

  lemma NewStubsEitherWay(d: int, p: seq<Pick>, q: seq<Pick>, next: int)
    requires SameSerials(p, q)
    ensures var a, b := NewStubs(d, p, next), NewStubs(d, q, next);
            (forall s :: s in a <==> s in b) && forall s :: s in a ==> StubsAlike(a[s], b[s])
  {
    hide NewStubs, StubsAlike, StubFor;
    var a, b := NewStubs(d, p, next), NewStubs(d, q, next);
    forall s | s in a ensures s in b && StubsAlike(a[s], b[s]) {
      NewStubsAlike(d, s - next, p[s - next], q[s - next]);
    }
  }

  lemma DrawnEitherWay(db: Db, slug: string, p: seq<Pick>, q: seq<Pick>)
    requires SameSerials(p, q)
    ensures Tables.RunDraw(db, slug, p).1 == Tables.RunDraw(db, slug, q).1
    ensures Alike(Tables.RunDraw(db, slug, p).0, Tables.RunDraw(db, slug, q).0)
  {
    hide EventBySlug, Candidates, Draw.WithDiapers, CountTotal, Rows, Recorded, Tables.RunDraw, StubsAlike, SameSerials;
    StubsAlikeSelf();
    var found := EventBySlug(db.events, slug);
    if found.None? {
      Invariant.NoSlugNoDraw(db, slug, p);
      Invariant.NoSlugNoDraw(db, slug, q);
    } else {
      var eligible := Draw.WithDiapers(Candidates(Rows(db.guests, found.value)));
      Invariant.DrawnDb(db, slug, p, found.value, eligible);
      Invariant.DrawnDb(db, slug, q, found.value, eligible);
      var e := db.events[found.value];
      var row := DrawRow(found.value, e.prizeCount, |eligible|, Decimal.Wrap(CountTotal(eligible)), e.rosterVersion, db.clock);
      RecordedEitherWay(db, row, p, q);
    }
  }

  /** Pressing the button does not tell who won: whoever it was, the answer is the same, and the stores are alike. */
  lemma DrawTellsNobody(db: Db, slug: string, p: seq<Pick>, q: seq<Pick>)
    requires SameSerials(p, q)
    ensures Respond(db, Write(RunDraw(slug, p))).1 == Respond(db, Write(RunDraw(slug, q))).1
    ensures Alike(Respond(db, Write(RunDraw(slug, p))).0, Respond(db, Write(RunDraw(slug, q))).0)
  {
    hide Alike, DrawPage, EventPage, Tables.RunDraw, SameSerials;
    DrawnEitherWay(db, slug, p, q);
    var a, b := Tables.RunDraw(db, slug, p).0, Tables.RunDraw(db, slug, q).0;
    AlikeUnfold(a, b);
    var r := Tables.RunDraw(db, slug, p).1;
    if r.Ok? && r.value in a.draws { SameDrawPage(a, b, r.value); }
  }

  /**
   * So a guest who watches everything from the press of the button on cannot
   * tell one outcome from another until somebody turns over a stub on which
   * they differ, and then can.
   */
  lemma WinnersStaySecret(db: Db, slug: string, p: seq<Pick>, q: seq<Pick>, reqs: seq<Request>)
    requires SameSerials(p, q)
    ensures var a, b := Respond(db, Write(RunDraw(slug, p))).0, Respond(db, Write(RunDraw(slug, q))).0;
            Converse(db, [Write(RunDraw(slug, p))] + reqs).1 == Converse(db, [Write(RunDraw(slug, q))] + reqs).1
            <==> Discreet(a, b, reqs)
  {
    hide Alike, Respond, Discreet, SameSerials;
    DrawTellsNobody(db, slug, p, q);
    var a, b := Respond(db, Write(RunDraw(slug, p))).0, Respond(db, Write(RunDraw(slug, q))).0;
    FaceDownStaysSecret(a, b, reqs);
    FirstAnswer(db, Write(RunDraw(slug, p)), reqs);
    FirstAnswer(db, Write(RunDraw(slug, q)), reqs);
    var r := Respond(db, Write(RunDraw(slug, p))).1;
    assert ([r] + Converse(a, reqs).1)[1..] == Converse(a, reqs).1;
    assert ([r] + Converse(b, reqs).1)[1..] == Converse(b, reqs).1;
  }

  lemma FirstAnswer(db: Db, req: Request, reqs: seq<Request>)
    ensures Converse(db, [req] + reqs).1 == [Respond(db, req).1] + Converse(Respond(db, req).0, reqs).1
  {
    hide Respond;
    assert ([req] + reqs)[1..] == reqs;
  }
}
