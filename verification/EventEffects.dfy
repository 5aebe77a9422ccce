/** What the event and reveal transactions do, and what they leave alone. */
module EventEffects {
  import opened Wrappers
  import opened Text
  import opened Slug
  import opened Tables
  import opened Invariant

  /** The only stub with this place in this draw is the one the lookup finds. */
  lemma StubFound(db: Db, draw: int, prize: int, s: int)
    requires StubsOk(db) && s in db.stubs && db.stubs[s].draw == draw && db.stubs[s].prizeIndex == prize
    ensures StubAt(db.stubs, draw, prize) == Some(s)
  {
    var found := StubAt(db.stubs, draw, prize);
    StubAtExists(db.stubs, draw, prize, s);
    var t: int := found.value;
    assert t in db.stubs;
  }

  lemma StubAtExists(stubs: map<int, Stub>, draw: int, prize: int, s: int)
    requires s in stubs && stubs[s].draw == draw && stubs[s].prizeIndex == prize
    ensures StubAt(stubs, draw, prize).Some?
  {
    var matching := map id | id in stubs && stubs[id].draw == draw && stubs[id].prizeIndex == prize :: id;
    assert s in matching;
  }

  predicate HasStub(stubs: map<int, Stub>, draw: int, prize: int) {
    exists s :: s in stubs && stubs[s].draw == draw && stubs[s].prizeIndex == prize
  }

  lemma StubAtExactly(stubs: map<int, Stub>, draw: int, prize: int)
    ensures StubAt(stubs, draw, prize).Some? <==> HasStub(stubs, draw, prize)
  {
    hide StubAt;
    if s :| s in stubs && stubs[s].draw == draw && stubs[s].prizeIndex == prize {
      StubAtExists(stubs, draw, prize, s);
    }
    var found := StubAt(stubs, draw, prize);
    if found.Some? {
      var s: int := found.value;
      assert s in stubs;
    }
  }

  /** A reveal fails exactly when there is no such stub; else it turns over that one, unless it already was, and no other. */
  lemma RevealOpensOne(db: Db, draw: int, prize: int)
    ensures var (db', r) := Tables.RevealWinner(db, draw, prize);
            && (r == Err(NotFound) <==> !HasStub(db.stubs, draw, prize))
            && (r != Err(NotFound) ==>
                  && r.Ok? && r.value in db.stubs && db.stubs[r.value].draw == draw && db.stubs[r.value].prizeIndex == prize
                  && r.value in db'.stubs
                  && db'.stubs[r.value].revealedAt
                     == (if db.stubs[r.value].revealedAt.Some? then db.stubs[r.value].revealedAt else Some(db.clock))
                  && db'.stubs == db.stubs[r.value := db.stubs[r.value].(revealedAt := db'.stubs[r.value].revealedAt)]
                  && db' == db.(stubs := db'.stubs))
  {
    hide StubAt, HasStub;
    StubAtExactly(db.stubs, draw, prize);
  }

  /** However much later, a second tap changes nothing and finds the same stub. */
  lemma RevealTwiceIsOnce(db: Db, draw: int, prize: int, later: nat)
    requires StubsOk(db)
    ensures var (db1, r) := Tables.RevealWinner(db, draw, prize);
            var waited := db1.(clock := db1.clock + later);
            Tables.RevealWinner(waited, draw, prize) == (waited, r)
  {
    hide StubAt;
    var (db1, r) := Tables.RevealWinner(db, draw, prize);
    if r.Ok? {
      RevealKeepsStubs(db, draw, prize);
      StubFound(db1, draw, prize, r.value);
    }
  }

  lemma RevealKeepsStubs(db: Db, draw: int, prize: int)
    requires StubsOk(db)
    ensures StubsOk(Tables.RevealWinner(db, draw, prize).0)
  {
    hide StubAt;
  }

  /** Deleting an event deletes its rows in every table and changes no row of any other. */
  lemma DeleteEventExactly(db: Db, slug: string)
    requires Valid(db) && Tables.DeleteEvent(db, slug).1.Ok?
    ensures var (db', r) := Tables.DeleteEvent(db, slug); var ev := r.value;
            && db'.events == db.events - {ev}
            && (forall g :: g in db'.guests <==> g in db.guests && db.guests[g].event != ev)
            && (forall g :: g in db'.guests ==> db'.guests[g] == db.guests[g])
            && (forall d :: d in db'.draws <==> d in db.draws && db.draws[d].event != ev)
            && (forall d :: d in db'.draws ==> db'.draws[d] == db.draws[d])
            && (forall s :: s in db'.stubs <==> s in db.stubs && db.draws[db.stubs[s].draw].event != ev)
            && (forall s :: s in db'.stubs ==> db'.stubs[s] == db.stubs[s])
  {
    hide EventBySlug, EventsOk, TextOk, GuestsOk;
  }

  lemma SlugsSplit(events: map<int, Event>, e: int)
    requires e in events
    ensures Slugs(events) == Slugs(events - {e}) + {events[e].slug}
  {
    var less := events - {e};
    forall t | t in Slugs(events) ensures t in Slugs(less) + {events[e].slug} {
      var id :| id in events && events[id].slug == t;
      if id != e { assert id in less && less[id].slug == t; }
    }
  }

  lemma {:induction false} SlugsNoMore(events: map<int, Event>)
    ensures |Slugs(events)| <= |events|
    decreases |events|
  {
    hide Slugs;
    if e :| e in events {
      var less := events - {e};
      assert less.Keys == events.Keys - {e};
      SlugsNoMore(less);
      SlugsSplit(events, e);
    } else {
      NoSlugs(events);
    }
  }

  lemma NoSlugs(events: map<int, Event>)
    requires forall e :: e !in events
    ensures Slugs(events) == {}
  {
  }

  /** base-k is free and base, base-2, ..., base-(k-1) are not. */
  predicate LeastFree(events: map<int, Event>, base: string, k: nat) {
    && 1 <= k < SUFFIX_LIMIT && Suffixed(base, k) !in Slugs(events)
    && forall m: nat :: 1 <= m < k ==> Suffixed(base, m) in Slugs(events)
  }

  /** None of base, base-2, ..., base-999 is free. */
  predicate AllTaken(events: map<int, Event>, base: string) {
    forall m: nat :: 1 <= m < SUFFIX_LIMIT ==> Suffixed(base, m) in Slugs(events)
  }

  /** The suffix search fails exactly when all candidates are taken, and else finds the least free one. */
  lemma SearchIsLeastFree(events: map<int, Event>, base: string)
    ensures var free := FirstFree(Slugs(events), base, 1);
            && (free.None? <==> AllTaken(events, base))
            && (free.Some? ==> exists k :: LeastFree(events, base, k) && free.value == Suffixed(base, k))
  {
    hide Suffixed, Slugs;
    var free := FirstFree(Slugs(events), base, 1);
    if free.Some? {
      var k: nat :| 1 <= k < SUFFIX_LIMIT && free == Some(Suffixed(base, k))
                    && forall m: nat :: 1 <= m < k ==> Suffixed(base, m) in Slugs(events);
      assert LeastFree(events, base, k);
    }
  }

  /** It takes 999 events to use up the candidates of one base. */
  lemma FewEventsLeaveRoom(events: map<int, Event>, base: string)
    requires AllTaken(events, base)
    ensures |events| >= 999
  {
    hide AllTaken, Slugs, FirstFree;
    SlugsNoMore(events);
    SearchIsLeastFree(events, base);
    if |events| < 999 { FreeSlugExists(Slugs(events), base); }
  }

  /** The asked-for link, else the name, made into a slug; "raffle" if neither leaves anything. */
  function SlugBase(name: string, asked: string): string {
    if Slugify(asked) != "" then Slugify(asked) else if Slugify(name) != "" then Slugify(name) else "raffle"
  }

  /** The event's slug is the least free suffix of this base. */
  ghost predicate Placed(events: map<int, Event>, base: string, slug: string) {
    exists k :: LeastFree(events, base, k) && slug == Suffixed(base, k)
  }

  /**
   * A new event is refused only for a blank name, too many prizes, or a link
   * whose candidates are all taken; its slug is the least free of them, its
   * roster is empty, and it hands out three prizes unless told otherwise.
   */
  lemma CreateEventExactly(db: Db, name: string, asked: string, prizes: int)
    requires Valid(db)
    ensures var (db', r) := Tables.CreateEvent(db, name, asked, prizes);
            var base := SlugBase(TrimSpace(name), asked);
            && r == (if TrimSpace(name) == "" || prizes > 20 then Err(Invalid)
                     else if AllTaken(db.events, base) then Err(Conflict) else Ok(db.nextEvent))
            && (r.Err? ==> db' == db)
            && (r.Ok? ==>
                  && r.value !in db.events && r.value in db'.events && db' == db.(events := db'.events, nextEvent := db'.nextEvent)
                  && db'.events == db.events[r.value := db'.events[r.value]]
                  && var e := db'.events[r.value];
                     && Placed(db.events, base, e.slug) && e.name == TrimSpace(name)
                     && e.prizeCount == (if prizes <= 0 then 3 else prizes)
                     && e.rosterText == "" && e.rosterVersion == 0)
  {
    hide Slugify, FirstFree, Slugs, Suffixed, LeastFree, Valid, Placed, SlugShape, TrimSpace, AllTaken;
    NextEventFree(db);
    SearchPlaces(db.events, SlugBase(TrimSpace(name), asked));
  }

  lemma SearchPlaces(events: map<int, Event>, base: string)
    ensures var free := FirstFree(Slugs(events), base, 1);
            (free.None? <==> AllTaken(events, base)) && (free.Some? ==> Placed(events, base, free.value))
  {
    hide FirstFree, Slugs, Suffixed, LeastFree, AllTaken;
    SearchIsLeastFree(events, base);
  }

  lemma NextEventFree(db: Db)
    requires Valid(db)
    ensures db.nextEvent !in db.events
  {
    hide GuestsOk, TextOk, DrawsOk, StubsOk, SlugShape;
  }

  /** What is wrong with an update before any slug is looked for. */
  predicate BadUpdate(name: Option<string>, asked: Option<string>, prizes: Option<int>) {
    || (name.Some? && TrimSpace(name.value) == "")
    || (prizes.Some? && !(1 <= prizes.value <= 20))
    || (asked.Some? && Slugify(asked.value) == "")
  }

  /** The update asks for a link other than the event's own, and every candidate for it is taken. */
  predicate NoRoom(events: map<int, Event>, current: string, asked: Option<string>) {
    asked.Some? && Slugify(asked.value) != current && AllTaken(events, Slugify(asked.value))
  }

  /**
   * An update of a known event fails only if it is bad or has no room. Else it
   * changes what was asked of that event and nothing more: the link stays
   * unless another was asked for, and then moves to the least free suffix.
   */
  lemma UpdateEventExactly(db: Db, slug: string, name: Option<string>, asked: Option<string>, prizes: Option<int>, ev: int)
    requires EventBySlug(db.events, slug) == Some(ev)
    ensures var (db', r) := Tables.UpdateEvent(db, slug, name, asked, prizes);
            && r == (if BadUpdate(name, asked, prizes) then Err(Invalid)
                     else if NoRoom(db.events, db.events[ev].slug, asked) then Err(Conflict) else Ok(ev))
            && (r.Err? ==> db' == db)
            && (r.Ok? ==>
                  && ev in db'.events && db' == db.(events := db.events[ev := db'.events[ev]])
                  && var e, e' := db.events[ev], db'.events[ev];
                     && e'.rosterText == e.rosterText && e'.rosterVersion == e.rosterVersion
                     && e'.name == (if name.Some? then TrimSpace(name.value) else e.name)
                     && e'.prizeCount == (if prizes.Some? then prizes.value else e.prizeCount)
                     && (if asked.None? || Slugify(asked.value) == e.slug then e'.slug == e.slug
                         else Placed(db.events, Slugify(asked.value), e'.slug)))
  {
    hide EventBySlug, Slugify, FirstFree, Slugs, TrimSpace, Placed, AllTaken;
    if asked.Some? { SearchPlaces(db.events, Slugify(asked.value)); }
  }
}
