/** What every transaction keeps true of the tables. */
module Invariant {
  import opened Wrappers
  import opened Text
  import opened Decimal
  import opened Ordering
  import opened Roster
  import opened RoundTrip
  import opened Slug
  import opened Tables
  import N = Normalise
  import D = Draw

  predicate EventOk(db: Db, ev: int)
    requires ev in db.events
  {
    var e := db.events[ev];
    && ev < db.nextEvent && e.slug != "" && SlugShape(e.slug) && e.name != ""
    && 1 <= e.prizeCount <= MAX_PRIZES && e.rosterVersion >= 0
  }

  predicate EventsOk(db: Db) {
    && (forall ev :: ev in db.events ==> EventOk(db, ev))
    && (forall a, b :: a in db.events && b in db.events && a != b ==> db.events[a].slug != db.events[b].slug)
  }

  /** Rows of one event differ in key and in position. */
  predicate DistinctGuests(guests: map<int, Guest>) {
    forall a, b :: a in guests && b in guests && a != b && guests[a].event == guests[b].event ==>
      guests[a].key != guests[b].key && guests[a].position != guests[b].position
  }

  predicate GuestsOk(db: Db) {
    && (forall id :: id in db.guests ==>
          id < db.nextGuest && db.guests[id].event in db.events && GoodEntry(EntryOf(db.guests[id])))
    && DistinctGuests(db.guests)
  }

  /** The text parses to the rows, or was printed from them. */
  predicate TextMatches(text: string, es: seq<Entry>) {
    Parse(text) == es || (text == Format(es) && Cleared(es) == es)
  }

  predicate TextOkAt(db: Db, ev: int)
    requires ev in db.events
  {
    TextMatches(db.events[ev].rosterText, RosterOf(Rows(db.guests, ev)))
  }

  predicate TextOk(db: Db) { forall ev :: ev in db.events ==> TextOkAt(db, ev) }

  predicate DrawsOk(db: Db) {
    && (forall d :: d in db.draws ==>
          && d < db.nextDraw && db.draws[d].event in db.events && db.draws[d].createdAt <= db.clock
          && db.draws[d].rosterVersion <= db.events[db.draws[d].event].rosterVersion)
    && (forall c, d :: c in db.draws && d in db.draws && c < d ==> db.draws[c].createdAt <= db.draws[d].createdAt)
  }

  predicate StubsOk(db: Db) {
    && (forall s :: s in db.stubs ==>
          && s < db.nextStub && db.stubs[s].draw in db.draws
          && (db.stubs[s].guest.Some? ==>
                db.stubs[s].guest.value in db.guests
                && db.guests[db.stubs[s].guest.value].event == db.draws[db.stubs[s].draw].event))
    && (forall s, t :: s in db.stubs && t in db.stubs && s != t ==>
          db.stubs[s].draw != db.stubs[t].draw || db.stubs[s].prizeIndex != db.stubs[t].prizeIndex)
  }

  predicate Valid(db: Db) { EventsOk(db) && GuestsOk(db) && TextOk(db) && DrawsOk(db) && StubsOk(db) }

  lemma EmptyIsValid()
    ensures Valid(EMPTY)
  {
  }

  // ----- framing -----

  lemma TextFrame(db: Db, db': Db, ev: int)
    requires ev in db.events && ev in db'.events && TextOkAt(db, ev)
    requires db'.events[ev].rosterText == db.events[ev].rosterText && Rows(db'.guests, ev) == Rows(db.guests, ev)
    ensures TextOkAt(db', ev)
  {
  }

  /** The parts that do not look at roster text. */
  predicate ValidButText(db: Db) { EventsOk(db) && GuestsOk(db) && DrawsOk(db) && StubsOk(db) }

  // ----- regenerating the text -----

  lemma UnmergedRows(guests: map<int, Guest>, ev: int, e: int)
    ensures e != ev ==> Rows(Unmerge(guests, ev), e) == Rows(guests, e)
    ensures RosterOf(Rows(Unmerge(guests, ev), ev)) == Cleared(RosterOf(Rows(guests, ev)))
  {
    hide Ordered;
    var before, after := Rows(guests, ev), Rows(Unmerge(guests, ev), ev);
    assert Positions(after) == Positions(before);
    assert forall id :: id in before ==> after[id] == before[id].(merged := false);
  }

  lemma SyncedText(db: Db, ev: int)
    requires ev in db.events
    ensures TextOkAt(SyncRosterText(db, ev), ev)
    ensures RosterOf(Rows(SyncRosterText(db, ev).guests, ev)) == Cleared(RosterOf(Rows(db.guests, ev)))
    ensures SyncRosterText(db, ev).events[ev].rosterText == Format(RosterOf(Rows(SyncRosterText(db, ev).guests, ev)))
  {
    hide Parse, Format, RosterOf, Rows, Unmerge;
    UnmergedRows(db.guests, ev, ev);
    var es := RosterOf(Rows(db.guests, ev));
    N.FormatIgnoresFlags(es);
    assert Cleared(Cleared(es)) == Cleared(es);
  }

  lemma SyncKeepsRest(db: Db, ev: int)
    requires ev in db.events && ValidButText(db)
    ensures ValidButText(SyncRosterText(db, ev))
  {
    hide EventsOk, GuestsOk, DrawsOk, StubsOk, Format, RosterOf, Unmerge, Rows, SyncRosterText;
    SyncKeepsGuests(db, ev);
    SyncKeepsStubs(db, ev);
    SyncKeepsEvents(db, ev);
  }

  lemma SyncKeepsGuests(db: Db, ev: int)
    requires ev in db.events && GuestsOk(db)
    ensures GuestsOk(SyncRosterText(db, ev))
  {
    hide Format, RosterOf, NameKey, Trimmed, Rows;
  }

  lemma SyncKeepsStubs(db: Db, ev: int)
    requires ev in db.events && StubsOk(db)
    ensures StubsOk(SyncRosterText(db, ev))
  {
    hide Format, RosterOf, Rows;
  }

  lemma SyncKeepsEvents(db: Db, ev: int)
    requires ev in db.events && EventsOk(db) && DrawsOk(db)
    ensures EventsOk(SyncRosterText(db, ev)) && DrawsOk(SyncRosterText(db, ev))
  {
    hide Format, RosterOf, SlugShape, Unmerge, Rows;
  }

  lemma SyncIsValid(db: Db, ev: int)
    requires ev in db.events && ValidButText(db)
    requires forall e :: e in db.events && e != ev ==> TextOkAt(db, e)
    ensures Valid(SyncRosterText(db, ev))
  {
    hide TextMatches, RosterOf, Rows, EventsOk, GuestsOk, DrawsOk, StubsOk, Format;
    var db' := SyncRosterText(db, ev);
    SyncKeepsRest(db, ev);
    SyncedText(db, ev);
    forall e | e in db'.events ensures TextOkAt(db', e) {
      UnmergedRows(db.guests, ev, e);
      if e != ev { TextFrame(db, db', e); }
    }
  }

  // ----- adding, changing and removing one row -----

  lemma PutRowText(db: Db, id: int, row: Guest, e: int)
    requires e in db.events && TextOkAt(db, e) && e != row.event
    requires id in db.guests ==> db.guests[id].event == row.event
    ensures TextOkAt(db.(guests := db.guests[id := row]), e)
  {
    hide TextOkAt;
    var db' := db.(guests := db.guests[id := row]);
    assert Rows(db'.guests, e) == Rows(db.guests, e);
    TextFrame(db, db', e);
  }

  lemma PutRowKeeps(db: Db, id: int, row: Guest, next: int)
    requires ValidButText(db) && row.event in db.events && GoodEntry(EntryOf(row))
    requires id < next && db.nextGuest <= next
    requires id in db.guests ==> db.guests[id].event == row.event
    requires forall a :: a in db.guests && a != id && db.guests[a].event == row.event ==>
      db.guests[a].key != row.key && db.guests[a].position != row.position
    ensures ValidButText(db.(guests := db.guests[id := row], nextGuest := next))
  {
    hide EventsOk, DrawsOk, GoodEntry, GuestsOk, StubsOk;
    var db' := db.(guests := db.guests[id := row], nextGuest := next);
    PutRowGuests(db, id, row, next);
    assert EventsOk(db') && DrawsOk(db') by { EventsFrame(db, db'); }
  }

  lemma EventsFrame(a: Db, b: Db)
    requires EventsOk(a) && DrawsOk(a) && b.events == a.events && b.draws == a.draws
    requires b.nextEvent == a.nextEvent && b.nextDraw == a.nextDraw && b.clock == a.clock
    ensures EventsOk(b) && DrawsOk(b)
  {
    hide SlugShape;
  }

  lemma PutRowGuests(db: Db, id: int, row: Guest, next: int)
    requires GuestsOk(db) && StubsOk(db) && row.event in db.events && GoodEntry(EntryOf(row))
    requires id < next && db.nextGuest <= next
    requires id in db.guests ==> db.guests[id].event == row.event
    requires forall a :: a in db.guests && a != id && db.guests[a].event == row.event ==>
      db.guests[a].key != row.key && db.guests[a].position != row.position
    ensures var db' := db.(guests := db.guests[id := row], nextGuest := next); GuestsOk(db') && StubsOk(db')
  {
    hide GoodEntry;
  }

  /** The next position lies past every row of the event. */
  lemma NextPositionIsFree(rows: map<int, Guest>)
    ensures forall id :: id in rows ==> rows[id].position < NextPosition(rows)
  {
    hide Ordered;
    var ids := Listing(rows);
    forall id | id in rows ensures rows[id].position < NextPosition(rows) {
      assert id in ids;
      var i :| 0 <= i < |ids| && ids[i] == id;
      assert i < |ids| - 1 ==> Precedes(Positions(rows), ids[i], ids[|ids| - 1]);
    }
  }

  lemma NoneByKey(guests: map<int, Guest>, ev: int, key: string)
    requires GuestByKey(guests, ev, key).None?
    ensures forall id :: id in guests && guests[id].event == ev ==> guests[id].key != key
  {
    var m := map id | id in guests && guests[id].event == ev && guests[id].key == key :: 0;
    assert m == map[];
    forall id | id in guests && guests[id].event == ev ensures guests[id].key != key {
      assert id in m <==> guests[id].key == key;
    }
  }

  lemma AddDiapersKeeps(db: Db, slug: string, raw: string, count: Int64)
    requires Valid(db)
    ensures Valid(AddDiapers(db, slug, raw, count).0)
  {
    hide EventBySlug, GuestByKey, SyncRosterText, NameKey, Trimmed, TrimSpace, TextMatches, SlugShape, NextPosition, TextOkAt;
    var name := TrimSpace(raw);
    var found := EventBySlug(db.events, slug);
    if name != "" && count >= 0 && found.Some? {
      var ev := found.value;
      var guest := GuestByKey(db.guests, ev, NameKey(name));
      var rows := Rows(db.guests, ev);
      if guest.None? {
        var row := Guest(ev, name, NameKey(name), count, NextPosition(rows), false);
        NextPositionIsFree(rows);
        NoneByKey(db.guests, ev, NameKey(name));
        assert forall a :: a in db.guests && db.guests[a].event == ev ==> a in rows && rows[a] == db.guests[a];
        PutRowAndSync(db, db.nextGuest, row, db.nextGuest + 1);
      } else if db.guests[guest.value].count + count <= MAX_INT64 {
        var row := db.guests[guest.value];
        PutRowAndSync(db, guest.value, row.(count := row.count + count), db.nextGuest);
      }
    }
  }

  lemma PutRowAndSync(db: Db, id: int, row: Guest, next: int)
    requires Valid(db) && row.event in db.events && GoodEntry(EntryOf(row))
    requires id < next && db.nextGuest <= next
    requires id in db.guests ==> db.guests[id].event == row.event
    requires forall a :: a in db.guests && a != id && db.guests[a].event == row.event ==>
      db.guests[a].key != row.key && db.guests[a].position != row.position
    ensures Valid(SyncRosterText(db.(guests := db.guests[id := row], nextGuest := next), row.event))
  {
    hide TextOkAt, SyncRosterText, EventsOk, GuestsOk, DrawsOk, StubsOk, GoodEntry;
    var db1 := db.(guests := db.guests[id := row], nextGuest := next);
    PutRowKeeps(db, id, row, next);
    forall e | e in db1.events && e != row.event ensures TextOkAt(db1, e) {
      PutRowText(db, id, row, e);
      TextFrame(db.(guests := db.guests[id := row]), db1, e);
    }
    SyncIsValid(db1, row.event);
  }

  lemma UpdateGuestKeeps(db: Db, slug: string, id: int, name: Option<string>, count: Option<Int64>)
    requires Valid(db)
    ensures Valid(UpdateGuest(db, slug, id, name, count).0)
  {
    hide EventBySlug, SyncRosterText, NameKey, Trimmed, TrimSpace, TextMatches, SlugShape, TextOkAt;
    var found := EventBySlug(db.events, slug);
    if UpdateGuest(db, slug, id, name, count).1.Ok? {
      PutRowAndSync(db, id, Renamed(db.guests[id], name, count), db.nextGuest);
    }
  }

  lemma ForgetKeeps(db: Db, gone: set<int>)
    requires StubsOk(db)
    requires forall g :: g in gone ==> g in db.guests
    ensures StubsOk(db.(guests := db.guests - gone, stubs := Forget(db.stubs, gone)))
  {
  }

  lemma DeleteGuestKeeps(db: Db, slug: string, id: int)
    requires Valid(db)
    ensures Valid(DeleteGuest(db, slug, id).0)
  {
    hide EventBySlug, SyncRosterText, NameKey, Trimmed, TextMatches, SlugShape, TextOkAt, Forget, GoodEntry;
    if DeleteGuest(db, slug, id).1.Ok? {
      var ev := EventBySlug(db.events, slug).value;
      var db1 := db.(guests := db.guests - {id}, stubs := Forget(db.stubs, {id}));
      ForgetKeeps(db, {id});
      forall e | e in db1.events && e != ev ensures TextOkAt(db1, e) {
        assert Rows(db1.guests, e) == Rows(db.guests, e);
        TextFrame(db, db1, e);
      }
      SyncIsValid(db1, ev);
    }
  }

  // ----- replacing the roster -----

  lemma {:induction false} IndexSound(rows: map<int, Guest>, ids: seq<int>)
    requires forall i :: 0 <= i < |ids| ==> ids[i] in rows
    ensures forall k :: k in KeyIndex(rows, ids) ==> KeyIndex(rows, ids)[k] in ids && rows[KeyIndex(rows, ids)[k]].key == k
    ensures forall i :: 0 <= i < |ids| ==> rows[ids[i]].key in KeyIndex(rows, ids)
  {
    if ids != [] {
      var init := ids[..|ids| - 1];
      IndexSound(rows, init);
      assert forall i :: 0 <= i < |init| ==> init[i] == ids[i];
      assert forall x :: x in init ==> x in ids;
    }
  }

  /** The index finds exactly the event's rows, by their own keys. */
  predicate GoodIndex(index: map<string, int>, rows: map<int, Guest>) {
    && (forall k :: k in index ==> index[k] in rows && rows[index[k]].key == k)
    && (forall id :: id in rows ==> rows[id].key in index && index[rows[id].key] == id)
  }

  lemma IndexIsGood(db: Db, ev: int)
    requires DistinctGuests(db.guests)
    ensures GoodIndex(IndexOfEvent(db, ev), Rows(db.guests, ev))
  {
    hide Listing, KeyIndex;
    var rows := Rows(db.guests, ev);
    var ids := Listing(rows);
    IndexSound(rows, ids);
    var index := KeyIndex(rows, ids);
    forall id | id in rows ensures rows[id].key in index && index[rows[id].key] == id {
      assert id in ids;
      var i :| 0 <= i < |ids| && ids[i] == id;
      var other := index[rows[id].key];
      assert other in ids && rows[other].key == rows[id].key;
    }
  }

  lemma {:induction false} RowIdAt(es: seq<Entry>, index: map<string, int>, next: int, i: nat)
    requires i < |es|
    ensures RowIds(es, index, next)[i]
            == if es[i].key in index then index[es[i].key] else next + NewKeys(es[..i], index)
    ensures es[i].key !in index ==> NewKeys(es[..i], index) < NewKeys(es, index)
  {
    var init := es[..|es| - 1];
    if i < |init| {
      RowIdAt(init, index, next, i);
      assert init[..i] == es[..i];
    }
  }

  lemma NewKeysGrow(es: seq<Entry>, index: map<string, int>, i: nat, j: nat)
    requires i < j <= |es| && es[i].key !in index
    ensures NewKeys(es[..i], index) < NewKeys(es[..j], index)
  {
    RowIdAt(es[..j], index, 0, i);
    assert es[..j][..i] == es[..i];
  }

  /** Distinct keys go to distinct rows: kept ones their own, new ones fresh ones. */
  lemma RowIdsDistinct(es: seq<Entry>, index: map<string, int>, rows: map<int, Guest>, next: int, i: nat, j: nat)
    requires i < j < |es| && DistinctKeys(es) && GoodIndex(index, rows)
    requires forall id :: id in rows ==> id < next
    ensures RowIds(es, index, next)[i] != RowIds(es, index, next)[j]
  {
    hide RowIds, NewKeys;
    RowIdAt(es, index, next, i);
    RowIdAt(es, index, next, j);
    if es[i].key !in index { NewKeysGrow(es, index, i, j); }
  }

  lemma {:induction false} EntryRowsAt(ev: int, es: seq<Entry>, ids: seq<int>)
    requires |ids| == |es| && Distinct(ids)
    ensures forall id :: id in EntryRows(ev, es, ids) <==> id in ids
    ensures forall i :: 0 <= i < |es| ==> EntryRows(ev, es, ids)[ids[i]] == RowFor(ev, es[i], i)
  {
    if es != [] {
      var n := |es| - 1;
      EntryRowsAt(ev, es[..n], ids[..n]);
      assert ids == ids[..n] + [ids[n]];
    }
  }

  predicate Distinct(ids: seq<int>) { forall i, j :: 0 <= i < j < |ids| ==> ids[i] != ids[j] }

  lemma KeptRowsRoster(ev: int, es: seq<Entry>, ids: seq<int>)
    requires |ids| == |es| && Distinct(ids)
    ensures Listing(EntryRows(ev, es, ids)) == ids
    ensures RosterOf(EntryRows(ev, es, ids)) == es
  {
    hide EntryRows, Ordered;
    var kept := EntryRows(ev, es, ids);
    EntryRowsAt(ev, es, ids);
    forall i, j | 0 <= i < j < |ids| ensures Precedes(Positions(kept), ids[i], ids[j]) {
      assert kept[ids[i]].position == i && kept[ids[j]].position == j;
    }
    assert forall i :: 0 <= i < |ids| ==> ids[i] in ids;
    OrderedUnique(Positions(kept), ids);
  }

  /** Everything the roster replacement relies on, about the rows it writes. */
  lemma KeptFacts(db: Db, ev: int, es: seq<Entry>)
    requires GuestsOk(db) && WellFormed(es)
    ensures var ids := RowIds(es, IndexOfEvent(db, ev), db.nextGuest);
            var kept := EntryRows(ev, es, ids);
            && Distinct(ids) && Listing(kept) == ids && RosterOf(kept) == es
            && (forall id :: id in kept <==> id in ids)
            && (forall i :: 0 <= i < |es| ==> kept[ids[i]] == RowFor(ev, es[i], i))
            && (forall id :: id in kept ==> id < db.nextGuest + NewKeys(es, IndexOfEvent(db, ev)))
            && (forall id :: id in kept ==> (id in db.guests && db.guests[id].event == ev) || id >= db.nextGuest)
  {
    hide IndexOfEvent, RowIds, EntryRows, Listing, NewKeys, RosterOf, GoodEntry;
    var index := IndexOfEvent(db, ev);
    var rows := Rows(db.guests, ev);
    IndexIsGood(db, ev);
    var ids := RowIds(es, index, db.nextGuest);
    forall i, j | 0 <= i < j < |ids| ensures ids[i] != ids[j] { RowIdsDistinct(es, index, rows, db.nextGuest, i, j); }
    KeptRowsRoster(ev, es, ids);
    EntryRowsAt(ev, es, ids);
    forall i | 0 <= i < |ids|
      ensures ids[i] < db.nextGuest + NewKeys(es, index)
      ensures (ids[i] in db.guests && db.guests[ids[i]].event == ev) || ids[i] >= db.nextGuest
    {
      RowIdAt(es, index, db.nextGuest, i);
      if es[i].key in index { assert index[es[i].key] in rows; }
    }
  }

  lemma ReplacedRows(db: Db, ev: int, kept: map<int, Guest>, e: int)
    requires forall id :: id in kept ==> kept[id].event == ev
    requires forall id :: id in kept && id in db.guests ==> db.guests[id].event == ev
    ensures var guests := (db.guests - (Rows(db.guests, ev).Keys - kept.Keys)) + kept;
            Rows(guests, e) == if e == ev then kept else Rows(db.guests, e)
  {
    var guests := (db.guests - (Rows(db.guests, ev).Keys - kept.Keys)) + kept;
    var rows, target := Rows(guests, e), if e == ev then kept else Rows(db.guests, e);
    forall id ensures id in rows <==> id in target {
      if id in db.guests && id !in kept { assert id in guests <==> db.guests[id].event != ev; }
    }
    assert forall id :: id in rows ==> rows[id] == target[id];
  }

  lemma ReplaceKeepsGuests(db: Db, ev: int, kept: map<int, Guest>, next: int)
    requires GuestsOk(db) && ev in db.events && db.nextGuest <= next
    requires forall id :: id in kept ==> id < next && kept[id].event == ev && GoodEntry(EntryOf(kept[id]))
    requires DistinctGuests(kept)
    requires forall id :: id in kept && id in db.guests ==> db.guests[id].event == ev
    ensures GuestsOk(db.(guests := (db.guests - (Rows(db.guests, ev).Keys - kept.Keys)) + kept, nextGuest := next))
  {
    hide NameKey, Trimmed, GoodEntry;
    var guests := (db.guests - (Rows(db.guests, ev).Keys - kept.Keys)) + kept;
    assert forall id :: id in guests && guests[id].event == ev ==> id in kept;
  }

  lemma ReplaceKeepsStubs(db: Db, ev: int, kept: map<int, Guest>)
    requires StubsOk(db)
    requires forall id :: id in kept ==> kept[id].event == ev
    requires forall id :: id in kept && id in db.guests ==> db.guests[id].event == ev
    ensures var leavers := Rows(db.guests, ev).Keys - kept.Keys;
            StubsOk(db.(guests := (db.guests - leavers) + kept, stubs := Forget(db.stubs, leavers)))
  {
    var leavers := Rows(db.guests, ev).Keys - kept.Keys;
    ForgetKeeps(db, leavers);
    var guests := (db.guests - leavers) + kept;
    assert forall g :: g in db.guests - leavers ==> g in guests && guests[g].event == db.guests[g].event;
  }

  lemma KeptAreGood(ev: int, es: seq<Entry>, ids: seq<int>, kept: map<int, Guest>)
    requires WellFormed(es) && |ids| == |es| && Distinct(ids)
    requires forall id :: id in kept <==> id in ids
    requires forall i :: 0 <= i < |es| ==> ids[i] in kept && kept[ids[i]] == RowFor(ev, es[i], i)
    ensures DistinctGuests(kept)
    ensures forall id :: id in kept ==> kept[id].event == ev && GoodEntry(EntryOf(kept[id]))
  {
    hide NameKey, Trimmed;
    forall a, b | a in kept && b in kept && a != b
      ensures kept[a].key != kept[b].key && kept[a].position != kept[b].position
    {
      var i :| 0 <= i < |ids| && ids[i] == a;
      var j :| 0 <= j < |ids| && ids[j] == b;
    }
  }

  // GuestsOk and StubsOk look at few of the columns and tables.

  lemma GuestsFrame(a: Db, b: Db)
    requires GuestsOk(a) && b.guests == a.guests && b.nextGuest == a.nextGuest && a.events.Keys <= b.events.Keys
    ensures GuestsOk(b)
  {
    hide GoodEntry, DistinctGuests;
  }

  lemma StubsFrame(a: Db, b: Db)
    requires StubsOk(a) && b.stubs == a.stubs && b.guests == a.guests && b.draws == a.draws && b.nextStub == a.nextStub
    ensures StubsOk(b)
  {
  }

  lemma WithRosterKeeps(db: Db, ev: int, text: string, db': Db)
    requires EventsOk(db) && DrawsOk(db) && ev in db.events
    requires db'.events == WithRoster(db, ev, text).events && db'.nextEvent == db.nextEvent
    requires db'.draws == db.draws && db'.nextDraw == db.nextDraw && db'.clock == db.clock
    ensures EventsOk(db') && DrawsOk(db')
  {
    hide SlugShape;
  }

  lemma ReplaceRosterKeeps(db: Db, slug: string, text: string)
    requires Valid(db)
    ensures Valid(ReplaceRoster(db, slug, text).0)
    ensures ReplaceRoster(db, slug, text).1.Ok? ==>
              var ev := ReplaceRoster(db, slug, text).1.value;
              var guests := ReplaceRoster(db, slug, text).0.guests;
              && RosterOf(Rows(guests, ev)) == Parse(text)
              && Listing(Rows(guests, ev)) == RowIds(Parse(text), IndexOfEvent(db, ev), db.nextGuest)
  {
    hide EventBySlug, Parse, IndexOfEvent, RowIds, EntryRows, NewKeys, RosterOf, Rows, Forget, Listing, TextOkAt,
      DistinctGuests, GoodEntry, SlugShape, Format, StubsOk, GuestsOk, EventsOk, DrawsOk;
    var found := EventBySlug(db.events, slug);
    if found.Some? {
      var ev := found.value;
      var es := Parse(text);
      ParseWellFormed(text);
      KeptFacts(db, ev, es);
      var ids := RowIds(es, IndexOfEvent(db, ev), db.nextGuest);
      var kept := EntryRows(ev, es, ids);
      KeptAreGood(ev, es, ids, kept);
      KnownBelow(db);
      var db' := ReplaceRoster(db, slug, text).0;
      ReplaceKeepsGuests(db, ev, kept, db'.nextGuest);
      GuestsFrame(db.(guests := db'.guests, nextGuest := db'.nextGuest), db');
      ReplaceKeepsStubs(db, ev, kept);
      StubsFrame(db.(guests := db'.guests, stubs := db'.stubs), db');
      WithRosterKeeps(db, ev, text, db');
      forall e | e in db'.events ensures TextOkAt(db', e) {
        ReplacedRows(db, ev, kept, e);
        if e != ev { TextFrame(db, db', e); } else { TextFromParse(db', ev); }
      }
      ReplacedRows(db, ev, kept, ev);
    }
  }

  lemma KnownBelow(db: Db)
    requires GuestsOk(db)
    ensures forall id :: id in db.guests ==> id < db.nextGuest
  {
    hide GoodEntry, DistinctGuests;
  }

  lemma TextFromParse(db: Db, ev: int)
    requires ev in db.events && Parse(db.events[ev].rosterText) == RosterOf(Rows(db.guests, ev))
    ensures TextOkAt(db, ev)
  {
    hide Parse, RosterOf, Rows;
  }

  // ----- draws -----

  /** Every pick is a candidate on the event's current roster. */
  predicate PicksFromPool(db: Db, slug: string, picks: seq<Pick>) {
    var ev := EventBySlug(db.events, slug);
    ev.Some? ==> forall i :: 0 <= i < |picks| ==> picks[i].winner in Candidates(Rows(db.guests, ev.value))
  }

  /** The tables a draw leaves, one by one. */
  lemma DrawnDb(db: Db, slug: string, picks: seq<Pick>, ev: int, eligible: seq<D.Candidate>)
    requires EventBySlug(db.events, slug) == Some(ev) && eligible == D.WithDiapers(Candidates(Rows(db.guests, ev)))
    ensures |eligible| == 0 ==> RunDraw(db, slug, picks) == (db, Err(Invalid))
    ensures |eligible| > 0 ==>
      var e := db.events[ev];
      var row := DrawRow(ev, e.prizeCount, |eligible|, Wrap(CountTotal(eligible)), e.rosterVersion, db.clock);
      RunDraw(db, slug, picks) == (Recorded(db, row, picks), Ok(db.nextDraw))
  {
    hide RunDraw, EventBySlug, D.WithDiapers, Candidates, Rows, Wrap, CountTotal, NewStubs;
    if |eligible| == 0 {
      NobodyToDraw(db, slug, picks, ev, eligible);
    } else {
      SomebodyToDraw(db, slug, picks, ev, eligible);
    }
  }

  lemma NobodyToDraw(db: Db, slug: string, picks: seq<Pick>, ev: int, eligible: seq<D.Candidate>)
    requires EventBySlug(db.events, slug) == Some(ev) && eligible == D.WithDiapers(Candidates(Rows(db.guests, ev)))
    requires |eligible| == 0
    ensures RunDraw(db, slug, picks) == (db, Err(Invalid))
  {
    hide EventBySlug, D.WithDiapers, Candidates, Rows, Wrap, CountTotal, NewStubs;
  }

  lemma SomebodyToDraw(db: Db, slug: string, picks: seq<Pick>, ev: int, eligible: seq<D.Candidate>)
    requires EventBySlug(db.events, slug) == Some(ev) && eligible == D.WithDiapers(Candidates(Rows(db.guests, ev)))
    requires |eligible| > 0
    ensures var e := db.events[ev];
            var row := DrawRow(ev, e.prizeCount, |eligible|, Wrap(CountTotal(eligible)), e.rosterVersion, db.clock);
            RunDraw(db, slug, picks) == (Recorded(db, row, picks), Ok(db.nextDraw))
  {
    hide Recorded, EventBySlug, D.WithDiapers, Candidates, Rows, Wrap, CountTotal, NewStubs;
    var found := EventBySlug(db.events, slug);
    assert found.value == ev && !found.None?;
  }

  lemma RunDrawKeeps(db: Db, slug: string, picks: seq<Pick>)
    requires Valid(db)
    requires PicksFromPool(db, slug, picks)
    ensures Valid(RunDraw(db, slug, picks).0)
  {
    hide EventBySlug, NewStubs, TextOkAt, D.WithDiapers, Candidates, Wrap, GuestsOk, StubsOk, CountTotal, RunDraw, EventsOk,
      DrawsOk, Rows;
    var found := EventBySlug(db.events, slug);
    if found.None? {
      NoSlugNoDraw(db, slug, picks);
    } else {
      var ev := found.value;
      var eligible := D.WithDiapers(Candidates(Rows(db.guests, ev)));
      DrawnDb(db, slug, picks, ev, eligible);
      if |eligible| > 0 {
        var db' := RunDraw(db, slug, picks).0;
        GuestsFrame(db, db');
        WinnersAreRows(db, ev, picks);
        var row := db'.draws[db.nextDraw];
        NewDrawKeeps(db, row, db');
        NewStubsKeep(db, row, picks, db');
        forall e | e in db'.events ensures TextOkAt(db', e) { TextFrame(db, db', e); }
      }
    }
  }

  lemma NoSlugNoDraw(db: Db, slug: string, picks: seq<Pick>)
    requires EventBySlug(db.events, slug).None?
    ensures RunDraw(db, slug, picks) == (db, Err(NotFound))
  {
    hide EventBySlug;
  }

  lemma WinnersAreRows(db: Db, ev: int, picks: seq<Pick>)
    requires forall i :: 0 <= i < |picks| ==> picks[i].winner in Candidates(Rows(db.guests, ev))
    ensures forall i :: 0 <= i < |picks| ==> picks[i].winner.id in db.guests && db.guests[picks[i].winner.id].event == ev
  {
    hide Candidates;
    forall i | 0 <= i < |picks| ensures picks[i].winner.id in db.guests && db.guests[picks[i].winner.id].event == ev {
      CandidateIsRow(Rows(db.guests, ev), picks[i].winner);
    }
  }

  lemma NewDrawKeeps(db: Db, row: DrawRow, db': Db)
    requires EventsOk(db) && DrawsOk(db) && row.event in db.events
    requires row.createdAt == db.clock && row.rosterVersion == db.events[row.event].rosterVersion
    requires db'.events == db.events && db'.nextEvent == db.nextEvent && db'.clock == db.clock
    requires db'.draws == db.draws[db.nextDraw := row] && db'.nextDraw == db.nextDraw + 1
    ensures EventsOk(db') && DrawsOk(db')
  {
    hide SlugShape, Trimmed;
    forall e | e in db'.events ensures EventOk(db', e) { assert EventOk(db, e); }
  }

  lemma NewStubsKeep(db: Db, row: DrawRow, picks: seq<Pick>, db': Db)
    requires StubsOk(db) && DrawsOk(db)
    requires forall i :: 0 <= i < |picks| ==>
      picks[i].winner.id in db.guests && db.guests[picks[i].winner.id].event == row.event
    requires db'.stubs == db.stubs + NewStubs(db.nextDraw, picks, db.nextStub)
    requires db'.nextStub == db.nextStub + |picks| && db'.guests == db.guests
    requires db'.draws == db.draws[db.nextDraw := row]
    ensures StubsOk(db')
  {
    hide NewStubs;
  }

  lemma CandidateIsRow(rows: map<int, Guest>, c: D.Candidate)
    requires c in Candidates(rows)
    ensures c.id in rows && rows[c.id].name == c.name && rows[c.id].count == c.count
  {
    hide Listing;
    assert forall i :: 0 <= i < |Candidates(rows)| ==> Candidates(rows)[i].id in Listing(rows);
  }

  lemma RevealKeeps(db: Db, draw: int, prize: int)
    requires Valid(db)
    ensures Valid(RevealWinner(db, draw, prize).0)
  {
    hide StubAt, SlugShape, GoodEntry, DistinctGuests, TextOkAt, EventsOk, DrawsOk, GuestsOk;
    var db' := RevealWinner(db, draw, prize).0;
    GuestsFrame(db, db');
    SameEventsAndDraws(db, db');
    forall e | e in db'.events ensures TextOkAt(db', e) { TextFrame(db, db', e); }
  }

  lemma SameEventsAndDraws(a: Db, b: Db)
    requires EventsOk(a) && DrawsOk(a)
    requires b.events == a.events && b.nextEvent == a.nextEvent
    requires b.draws == a.draws && b.nextDraw == a.nextDraw && a.clock <= b.clock
    ensures EventsOk(b) && DrawsOk(b)
  {
    hide SlugShape;
  }

  // ----- events -----

  lemma CreateEventKeeps(db: Db, rawName: string, rawSlug: string, prizes: int)
    requires Valid(db)
    ensures Valid(CreateEvent(db, rawName, rawSlug, prizes).0)
  {
    hide SlugShape, Slugify, FirstFree, GoodEntry, DistinctGuests, TextOkAt, TrimSpace, GuestsOk, StubsOk;
    if CreateEvent(db, rawName, rawSlug, prizes).1.Ok? {
      var name := TrimSpace(rawName);
      var base := if Slugify(rawSlug) != "" then Slugify(rawSlug)
                  else if Slugify(name) != "" then Slugify(name) else "raffle";
      SlugifyShape(rawSlug);
      SlugifyShape(name);
      DefaultSlugShape();
      FirstFreeShape(Slugs(db.events), base);
      var db' := CreateEvent(db, rawName, rawSlug, prizes).0;
      assert FirstFree(Slugs(db.events), base, 1).value !in Slugs(db.events);
      GuestsFrame(db, db');
      KnownEvents(db);
      StubsFrame(db, db');
      forall e | e in db'.events ensures TextOkAt(db', e) {
        if e != db.nextEvent { TextFrame(db, db', e); } else { FreshEventText(db', e); }
      }
    }
  }

  lemma KnownEvents(db: Db)
    requires GuestsOk(db)
    ensures forall id :: id in db.guests ==> db.guests[id].event in db.events
  {
    hide GoodEntry, DistinctGuests;
  }

  lemma DefaultSlugShape()
    ensures SlugShape("raffle")
  {
  }

  lemma FreshEventText(db: Db, ev: int)
    requires ev in db.events && db.events[ev].rosterText == "" && forall id :: id in db.guests ==> db.guests[id].event != ev
    ensures TextOkAt(db, ev)
  {
    hide Parse;
    var rows := Rows(db.guests, ev);
    assert forall id :: id !in rows;
    assert Positions(rows) == map[];
    assert RosterOf(rows) == [] && Cleared([]) == [];
  }

  lemma UpdateEventKeeps(db: Db, slug: string, name: Option<string>, newSlug: Option<string>, prizes: Option<int>)
    requires Valid(db)
    ensures Valid(UpdateEvent(db, slug, name, newSlug, prizes).0)
  {
    hide SlugShape, Slugify, FirstFree, GoodEntry, DistinctGuests, TextOkAt, TrimSpace, EventBySlug, MovedSlug,
      GuestsOk, StubsOk;
    if UpdateEvent(db, slug, name, newSlug, prizes).1.Ok? {
      var ev := EventBySlug(db.events, slug).value;
      MovedSlugOk(db, ev, newSlug);
      var db' := UpdateEvent(db, slug, name, newSlug, prizes).0;
      GuestsFrame(db, db');
      StubsFrame(db, db');
      forall e | e in db'.events ensures TextOkAt(db', e) { TextFrame(db, db', e); }
    }
  }

  lemma MovedSlugOk(db: Db, ev: int, asked: Option<string>)
    requires EventsOk(db) && ev in db.events
    ensures var r := MovedSlug(db.events, db.events[ev].slug, asked);
            r.Ok? ==> && r.value != "" && SlugShape(r.value)
                      && forall e :: e in db.events && e != ev ==> db.events[e].slug != r.value
  {
    hide SlugShape, Slugify, FirstFree;
    if asked.Some? && Slugify(asked.value) != "" {
      SlugifyShape(asked.value);
      FirstFreeShape(Slugs(db.events), Slugify(asked.value));
    }
  }

  lemma DeleteEventKeeps(db: Db, slug: string)
    requires Valid(db)
    ensures Valid(DeleteEvent(db, slug).0)
  {
    hide EventBySlug, Without, EventsOk, GuestsOk, TextOk, DrawsOk, StubsOk;
    if DeleteEvent(db, slug).1.Ok? {
      var ev := EventBySlug(db.events, slug).value;
      DeleteKeepsRows(db, ev);
      DeleteKeepsText(db, ev);
      DeleteKeepsStubs(db, ev);
    }
  }

  lemma DeleteKeepsRows(db: Db, ev: int)
    requires EventsOk(db) && GuestsOk(db) && DrawsOk(db)
    ensures EventsOk(Without(db, ev)) && GuestsOk(Without(db, ev)) && DrawsOk(Without(db, ev))
  {
    hide SlugShape, GoodEntry, Forget;
  }

  lemma DeleteKeepsText(db: Db, ev: int)
    requires TextOk(db)
    ensures TextOk(Without(db, ev))
  {
    hide TextOkAt, Forget;
    var db' := Without(db, ev);
    forall e | e in db'.events ensures TextOkAt(db', e) {
      assert Rows(db'.guests, e) == Rows(db.guests, e);
      TextFrame(db, db', e);
    }
  }

  lemma DeleteKeepsStubs(db: Db, ev: int)
    requires StubsOk(db)
    ensures StubsOk(Without(db, ev))
  {
  }
}
