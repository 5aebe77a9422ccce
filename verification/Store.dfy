/**
 * The store itself: tables updated statement by statement inside each
 * transaction. Every method is tied to the state its transaction must leave.
 */
module Store {
  import opened Wrappers
  import opened Text
  import opened Decimal
  import opened Ordering
  import opened Roster
  import opened RoundTrip
  import opened Slug
  import opened Tables
  import opened Invariant
  import Steps
  import D = Draw

  class Store {
    var events: map<int, Event>
    var guests: map<int, Guest>
    var draws: map<int, DrawRow>
    var stubs: map<int, Stub>
    var nextEvent: int
    var nextGuest: int
    var nextDraw: int
    var nextStub: int
    var clock: int

    ghost function Snapshot(): Db
      reads this
    {
      Db(events, guests, draws, stubs, nextEvent, nextGuest, nextDraw, nextStub, clock)
    }

    constructor ()
      ensures Snapshot() == EMPTY && Valid(Snapshot())
    {
      events, guests, draws, stubs := map[], map[], map[], map[];
      nextEvent, nextGuest, nextDraw, nextStub, clock := 1, 1, 1, 1, 0;
      new;
      EmptyIsValid();
    }

    // ----- statements, with the schema's constraints -----

    /** INSERT INTO guests; refused if the event already has the key. */
    method InsertGuest(row: Guest) returns (r: Result<int>)
      modifies this`guests, this`nextGuest
      ensures r == if KeyTaken(old(guests), row.event, row.key, old(nextGuest)) then Err(Conflict) else Ok(old(nextGuest))
      ensures r.Ok? ==> guests == old(guests)[old(nextGuest) := row] && nextGuest == old(nextGuest) + 1
      ensures r.Err? ==> guests == old(guests) && nextGuest == old(nextGuest)
    {
      if KeyTaken(guests, row.event, row.key, nextGuest) {
        return Err(Conflict);
      }
      guests := guests[nextGuest := row];
      nextGuest := nextGuest + 1;
      return Ok(nextGuest - 1);
    }

    /** UPDATE guests; refused if another row of the event has the key. */
    method SetGuest(id: int, row: Guest) returns (ok: bool)
      requires id in guests
      modifies this`guests
      ensures ok == !KeyTaken(old(guests), row.event, row.key, id)
      ensures guests == if ok then old(guests)[id := row] else old(guests)
    {
      ok := !KeyTaken(guests, row.event, row.key, id);
      if ok {
        guests := guests[id := row];
      }
    }

    /** DELETE FROM guests; stubs that point at the row forget it. */
    method DropGuest(id: int)
      modifies this`guests, this`stubs
      ensures guests == old(guests) - {id} && stubs == Forget(old(stubs), {id})
    {
      guests := guests - {id};
      stubs := map s | s in stubs :: if stubs[s].guest == Some(id) then stubs[s].(guest := None) else stubs[s];
    }

    method GuestsByKey(ev: int) returns (byKey: map<string, int>)
      ensures byKey == IndexOfEvent(Snapshot(), ev)
    {
      hide Ordered, Rows;
      var rows := Rows(guests, ev);
      var ids := Listing(rows);
      assert forall j :: 0 <= j < |ids| ==> ids[j] in ids;
      byKey := map[];
      for i := 0 to |ids|
        invariant byKey == KeyIndex(rows, ids[..i])
      {
        assert ids[..i + 1][..i] == ids[..i];
        byKey := byKey[rows[ids[i]].key := ids[i]];
      }
      assert ids[..|ids|] == ids;
    }

    /** Rewrites the stored text from the guest rows and clears their merge flags. */
    method SyncText(ev: int)
      requires ev in events
      modifies this`events, this`guests
      ensures Snapshot() == SyncRosterText(old(Snapshot()), ev)
    {
      var entries := RosterOf(Rows(guests, ev));
      var text := FormatRoster(entries);
      var e := events[ev];
      events := events[ev := e.(rosterText := text, rosterVersion := e.rosterVersion + 1)];
      guests := Unmerge(guests, ev);
    }

    // ----- roster transactions -----

    method ReplaceRoster(slug: string, text: string) returns (r: Result<int>)
      requires Valid(Snapshot())
      modifies this
      ensures (Snapshot(), r) == Tables.ReplaceRoster(old(Snapshot()), slug, text)
      ensures Valid(Snapshot())
    {
      hide Valid, Parse, EventBySlug, IndexOfEvent, RowIds, EntryRows, NewKeys, Tables.ReplaceRoster, Forget, WellFormed,
        RosterOf, Listing, Rows;
      ReplaceRosterKeeps(Snapshot(), slug, text);
      ParseWellFormed(text);
      ghost var db := Snapshot();
      var entries := ParseRoster(text);
      var found := EventBySlug(events, slug);
      if found.None? {
        NoSuchEvent(db, slug, text);
        return Err(NotFound);
      }
      var ev := found.value;
      var existing := GuestsByKey(ev);
      var keep := WriteEntries(ev, entries, existing);
      DropLeavers(existing, keep);
      events := events[ev := events[ev].(rosterText := text, rosterVersion := events[ev].rosterVersion + 1)];
      Replaced(db, slug, text, Snapshot(), existing, keep);
      return Ok(ev);
    }

    /** The loop over entries: update the rows whose keys survive, insert the rest. It never meets a conflict. */
    method WriteEntries(ev: int, entries: seq<Entry>, existing: map<string, int>) returns (keep: set<string>)
      requires Valid(Snapshot()) && WellFormed(entries) && existing == IndexOfEvent(Snapshot(), ev)
      modifies this`guests, this`nextGuest
      ensures keep == set i | 0 <= i < |entries| :: entries[i].key
      ensures var ids := RowIds(entries, existing, old(nextGuest));
              guests == old(guests) + EntryRows(ev, entries, ids)
      ensures nextGuest == old(nextGuest) + NewKeys(entries, existing)
    {
      hide Valid, IndexOfEvent, RowIds, EntryRows, NewKeys, WellFormed, Written, KeyTaken;
      ghost var db := Snapshot();
      keep := {};
      assert old(guests) + map[] == old(guests);
      WrittenStart(ev, entries, existing, nextGuest);
      for i := 0 to |entries|
        invariant keep == set k | 0 <= k < i :: entries[k].key
        invariant guests == db.guests + Written(ev, entries, existing, db.nextGuest, i)
        invariant nextGuest == db.nextGuest + NewKeys(entries[..i], existing)
      {
        var entry := entries[i];
        keep := keep + {entry.key};
        WrittenStep(db, ev, entries, existing, i);
        if entry.key in existing {
          var id := existing[entry.key];
          guests := guests[id := guests[id].(name := entry.name, count := entry.count, position := i, merged := entry.merged)];
          continue;
        }
        var r := InsertGuest(Guest(ev, entry.name, entry.key, entry.count, i, entry.merged));
      }
      assert entries[..|entries|] == entries;
      WrittenAll(ev, entries, existing, db.nextGuest);
    }

    /** The loop over the rows that were there before, in whatever order the map yields them. */
    method DropLeavers(existing: map<string, int>, keep: set<string>)
      modifies this`guests, this`stubs
      ensures var gone := set k | k in existing && k !in keep :: existing[k];
              guests == old(guests) - gone && stubs == Forget(old(stubs), gone)
    {
      hide Forget;
      var todo := existing.Keys;
      ghost var gone: set<int> := {};
      ForgetNone(stubs);
      while todo != {}
        invariant todo <= existing.Keys
        invariant gone == set k | k in existing && k !in todo && k !in keep :: existing[k]
        invariant guests == old(guests) - gone && stubs == Forget(old(stubs), gone)
        decreases |todo|
      {
        var key :| key in todo;
        todo := todo - {key};
        if key in keep {
          continue;
        }
        ForgetMore(old(stubs), gone, existing[key]);
        DropGuest(existing[key]);
        gone := gone + {existing[key]};
      }
      assert gone == set k | k in existing && k !in keep :: existing[k];
    }

    method AddDiapers(slug: string, raw: string, count: Int64) returns (r: Result<int>)
      requires Valid(Snapshot())
      modifies this
      ensures (Snapshot(), r) == Tables.AddDiapers(old(Snapshot()), slug, raw, count)
      ensures Valid(Snapshot())
    {
      hide Valid, EventBySlug, GuestByKey, NameKey, TrimSpace, SyncRosterText, NextPosition, Rows, KeyTaken;
      AddDiapersKeeps(Snapshot(), slug, raw, count);
      var name := TrimSpace(raw);
      if name == "" || count < 0 {
        return Err(Invalid);
      }
      var found := EventBySlug(events, slug);
      if found.None? {
        return Err(NotFound);
      }
      var ev := found.value;
      var key := NameKey(name);
      var guest := GuestByKey(guests, ev, key);
      if guest.None? {
        KeyIsFree(guests, ev, key, nextGuest);
        var inserted := InsertGuest(Guest(ev, name, key, count, NextPosition(Rows(guests, ev)), false));
      } else {
        var row := guests[guest.value];
        if row.count + count > MAX_INT64 {
          return Err(Internal);
        }
        guests := guests[guest.value := row.(count := row.count + count)];
      }
      SyncText(ev);
      return Ok(ev);
    }

    method UpdateGuest(slug: string, id: int, name: Option<string>, count: Option<Int64>) returns (r: Result<int>)
      requires Valid(Snapshot())
      modifies this
      ensures (Snapshot(), r) == Tables.UpdateGuest(old(Snapshot()), slug, id, name, count)
      ensures Valid(Snapshot())
    {
      hide Valid, EventBySlug, NameKey, TrimSpace, SyncRosterText, Rows, KeyTaken;
      UpdateGuestKeeps(Snapshot(), slug, id, name, count);
      var found := EventBySlug(events, slug);
      if found.None? {
        return Err(NotFound);
      }
      var ev := found.value;
      if id !in guests || guests[id].event != ev {
        return Err(NotFound);
      }
      var g := guests[id];
      if name.Some? {
        var trimmed := TrimSpace(name.value);
        if trimmed == "" {
          return Err(Invalid);
        }
        g := g.(name := trimmed, key := NameKey(trimmed));
      }
      if count.Some? {
        if count.value < 0 {
          return Err(Invalid);
        }
        g := g.(count := count.value);
      }
      var ok := SetGuest(id, g);
      if !ok {
        return Err(Conflict);
      }
      SyncText(ev);
      return Ok(ev);
    }

    method DeleteGuest(slug: string, id: int) returns (r: Result<int>)
      requires Valid(Snapshot())
      modifies this
      ensures (Snapshot(), r) == Tables.DeleteGuest(old(Snapshot()), slug, id)
      ensures Valid(Snapshot())
    {
      hide Valid, EventBySlug, SyncRosterText, Forget;
      DeleteGuestKeeps(Snapshot(), slug, id);
      var found := EventBySlug(events, slug);
      if found.None? {
        return Err(NotFound);
      }
      var ev := found.value;
      if id !in guests || guests[id].event != ev {
        return Err(NotFound);
      }
      DropGuest(id);
      SyncText(ev);
      return Ok(ev);
    }

    // ----- draws -----

    /** Runs the draw on the given randomness, with one serial ready for each prize. */
    method RunDraw(slug: string, logU: D.Stream, serials: seq<string>) returns (r: Result<int>, ghost picks: seq<Pick>)
      requires Valid(Snapshot())
      requires |serials| >= MAX_PRIZES
      modifies this
      ensures (Snapshot(), r) == Tables.RunDraw(old(Snapshot()), slug, picks)
      ensures Steps.Legal(old(Snapshot()), Steps.RunDraw(slug, picks))
      ensures forall i :: 0 <= i < |picks| ==> i < |serials| && picks[i].serial == serials[i]
      ensures Valid(Snapshot())
    {
      hide Valid, EventBySlug, D.WithDiapers, Candidates, Wrap, Rows, D.IsDraw, NewStubs, CountTotal, Steps.Legal, Tables.RunDraw,
        Recorded;
      picks := [];
      ghost var db := Snapshot();
      var found := EventBySlug(events, slug);
      if found.None? {
        NothingToDraw(db, slug);
        return Err(NotFound), picks;
      }
      var ev := found.value;
      var pool := Candidates(Rows(guests, ev));
      var eligible := D.Eligible(pool);
      var winners := D.Draw(pool, events[ev].prizeCount, logU);
      WinnersFit(db, ev, logU, winners);
      picks := seq(|winners|, i requires 0 <= i < |winners| => Pick(winners[i], serials[i]));
      DrawIsLegal(db, slug, logU, winners, picks);
      DrawnDb(db, slug, picks, ev, eligible);
      if |eligible| == 0 {
        return Err(Invalid), picks;
      }
      var id := RecordDraw(ev, eligible, winners, serials, picks);
      return Ok(id), picks;
    }

    /** One draw row, then a stub for each winner. */
    method RecordDraw(ev: int, eligible: seq<D.Candidate>, winners: seq<D.Candidate>, serials: seq<string>, ghost picks: seq<Pick>)
      returns (id: int)
      requires ev in events && |winners| == |picks| <= |serials|
      requires forall i :: 0 <= i < |picks| ==> picks[i] == Pick(winners[i], serials[i])
      modifies this`draws, this`nextDraw, this`stubs, this`nextStub
      ensures id == old(nextDraw)
      ensures var e := old(events[ev]);
              var row := DrawRow(ev, e.prizeCount, |eligible|, Wrap(CountTotal(eligible)), e.rosterVersion, old(clock));
              Snapshot() == Recorded(old(Snapshot()), row, picks)
    {
      hide Wrap, NewStubs, CountTotal;
      var total := TotalDiapers(eligible);
      id := nextDraw;
      draws := draws[id := DrawRow(ev, events[ev].prizeCount, |eligible|, total, events[ev].rosterVersion, clock)];
      nextDraw := nextDraw + 1;
      InsertStubs(id, winners, serials, picks);
    }

    method InsertStubs(draw: int, winners: seq<D.Candidate>, serials: seq<string>, ghost picks: seq<Pick>)
      requires |winners| == |picks| <= |serials|
      requires forall i :: 0 <= i < |picks| ==> picks[i] == Pick(winners[i], serials[i])
      modifies this`stubs, this`nextStub
      ensures stubs == old(stubs) + NewStubs(draw, picks, old(nextStub))
      ensures nextStub == old(nextStub) + |picks|
    {
      hide NewStubs, StubFor;
      NewStubsNone(draw, nextStub, stubs);
      for i := 0 to |winners|
        invariant nextStub == old(nextStub) + i
        invariant stubs == old(stubs) + NewStubs(draw, picks[..i], old(nextStub))
      {
        NewStubsNext(draw, picks, old(nextStub), i, old(stubs));
        stubs := stubs[nextStub := StubFor(draw, i, Pick(winners[i], serials[i]))];
        nextStub := nextStub + 1;
      }
      assert picks[..|winners|] == picks;
    }

    method RevealWinner(draw: int, prize: int) returns (r: Result<int>)
      requires Valid(Snapshot())
      modifies this`stubs
      ensures (Snapshot(), r) == Tables.RevealWinner(old(Snapshot()), draw, prize)
      ensures Valid(Snapshot())
    {
      hide Valid, StubAt;
      RevealKeeps(Snapshot(), draw, prize);
      var found := StubAt(stubs, draw, prize);
      if found.None? {
        return Err(NotFound);
      }
      var w := stubs[found.value];
      if w.revealedAt.None? {
        stubs := stubs[found.value := w.(revealedAt := Some(clock))];
      }
      return Ok(found.value);
    }

    // ----- events -----

    method CreateEvent(rawName: string, rawSlug: string, prizes: int) returns (r: Result<int>)
      requires Valid(Snapshot())
      modifies this`events, this`nextEvent
      ensures (Snapshot(), r) == Tables.CreateEvent(old(Snapshot()), rawName, rawSlug, prizes)
      ensures Valid(Snapshot())
    {
      hide Valid, Slugify, FirstFree, TrimSpace, Slugs;
      CreateEventKeeps(Snapshot(), rawName, rawSlug, prizes);
      var name := TrimSpace(rawName);
      if name == "" {
        return Err(Invalid);
      }
      var prizeCount := prizes;
      if prizeCount <= 0 {
        prizeCount := 3;
      }
      if prizeCount > MAX_PRIZES {
        return Err(Invalid);
      }
      var slug := Slugify(rawSlug);
      if slug == "" {
        slug := Slugify(name);
      }
      if slug == "" {
        slug := "raffle";
      }
      var free := UniqueSlug(Slugs(events), slug);
      if free.Err? {
        return Err(free.error);
      }
      events := events[nextEvent := Event(free.value, name, prizeCount, "", 0)];
      nextEvent := nextEvent + 1;
      return Ok(nextEvent - 1);
    }

    method UpdateEvent(slug: string, name: Option<string>, newSlug: Option<string>, prizes: Option<int>)
      returns (r: Result<int>)
      requires Valid(Snapshot())
      modifies this`events
      ensures (Snapshot(), r) == Tables.UpdateEvent(old(Snapshot()), slug, name, newSlug, prizes)
      ensures Valid(Snapshot())
    {
      hide Valid, Slugify, FirstFree, TrimSpace, EventBySlug, Slugs;
      UpdateEventKeeps(Snapshot(), slug, name, newSlug, prizes);
      var found := EventBySlug(events, slug);
      if found.None? {
        return Err(NotFound);
      }
      var e := events[found.value];
      if name.Some? {
        var trimmed := TrimSpace(name.value);
        if trimmed == "" {
          return Err(Invalid);
        }
        e := e.(name := trimmed);
      }
      if prizes.Some? {
        if prizes.value <= 0 || prizes.value > MAX_PRIZES {
          return Err(Invalid);
        }
        e := e.(prizeCount := prizes.value);
      }
      if newSlug.Some? {
        var wanted := Slugify(newSlug.value);
        if wanted == "" {
          return Err(Invalid);
        }
        if wanted != e.slug {
          var free := UniqueSlug(Slugs(events), wanted);
          if free.Err? {
            return Err(free.error);
          }
          e := e.(slug := free.value);
        }
      }
      events := events[found.value := e];
      return Ok(found.value);
    }

    method DeleteEvent(slug: string) returns (r: Result<int>)
      requires Valid(Snapshot())
      modifies this
      ensures (Snapshot(), r) == Tables.DeleteEvent(old(Snapshot()), slug)
      ensures Valid(Snapshot())
    {
      hide Valid, EventBySlug, Forget, Rows;
      DeleteEventKeeps(Snapshot(), slug);
      var found := EventBySlug(events, slug);
      if found.None? {
        return Err(NotFound);
      }
      var ev := found.value;
      var goneDraws := set d | d in draws && draws[d].event == ev;
      var goneStubs := set s | s in stubs && stubs[s].draw in goneDraws;
      var goneGuests := Rows(guests, ev).Keys;
      events := events - {ev};
      draws := draws - goneDraws;
      stubs := Forget(stubs - goneStubs, goneGuests);
      guests := guests - goneGuests;
      return Ok(ev);
    }
  }

  method TotalDiapers(eligible: seq<D.Candidate>) returns (total: int)
    ensures total == Wrap(CountTotal(eligible))
  {
    total := 0;
    for i := 0 to |eligible|
      invariant total == Wrap(CountTotal(eligible[..i]))
    {
      assert eligible[..i + 1][..i] == eligible[..i];
      WrapAdd(CountTotal(eligible[..i]), eligible[i].count);
      total := Wrap(total + eligible[i].count);
    }
    assert eligible[..|eligible|] == eligible;
  }

  // ----- what the loops of ReplaceRoster add up to -----

  lemma NoSuchEvent(db: Db, slug: string, text: string)
    requires EventBySlug(db.events, slug).None?
    ensures Tables.ReplaceRoster(db, slug, text) == (db, Err(NotFound))
  {
  }

  /** The rows written for the first i entries. */
  ghost function Written(ev: int, es: seq<Entry>, index: map<string, int>, next: int, i: nat): map<int, Guest>
    requires i <= |es|
  {
    EntryRows(ev, es[..i], RowIds(es[..i], index, next))
  }

  lemma WrittenStart(ev: int, es: seq<Entry>, index: map<string, int>, next: int)
    ensures Written(ev, es, index, next, 0) == map[] && NewKeys(es[..0], index) == 0
  {
  }

  lemma WrittenAll(ev: int, es: seq<Entry>, index: map<string, int>, next: int)
    ensures Written(ev, es, index, next, |es|) == EntryRows(ev, es, RowIds(es, index, next))
  {
    assert es[..|es|] == es;
  }

  /** Entry i goes to its own row: an existing one that still has its key, or a fresh one that meets no conflict. */
  lemma WrittenStep(db: Db, ev: int, es: seq<Entry>, index: map<string, int>, i: nat)
    requires Valid(db) && WellFormed(es) && index == IndexOfEvent(db, ev) && i < |es|
    ensures var before := db.guests + Written(ev, es, index, db.nextGuest, i);
            var after := db.guests + Written(ev, es, index, db.nextGuest, i + 1);
            var next := db.nextGuest + NewKeys(es[..i], index);
            if es[i].key in index then
              var id := index[es[i].key];
              && id in before && NewKeys(es[..i + 1], index) == NewKeys(es[..i], index)
              && after == before[id := before[id].(name := es[i].name, count := es[i].count, position := i, merged := es[i].merged)]
            else
              && !KeyTaken(before, ev, es[i].key, next)
              && NewKeys(es[..i + 1], index) == NewKeys(es[..i], index) + 1
              && after == before[next := Guest(ev, es[i].name, es[i].key, es[i].count, i, es[i].merged)]
  {
    hide Written, IndexOfEvent, NewKeys, NameKey, KeyTaken, Valid, WellFormed;
    LastWritten(ev, es, index, db.nextGuest, i);
    if es[i].key in index {
      KnownKeyRow(db, ev, es, index, i);
    } else {
      FreshKeyRow(db, ev, es, index, i);
    }
  }

  lemma KnownKeyRow(db: Db, ev: int, es: seq<Entry>, index: map<string, int>, i: nat)
    requires Valid(db) && WellFormed(es) && index == IndexOfEvent(db, ev) && i < |es| && es[i].key in index
    ensures var before := db.guests + Written(ev, es, index, db.nextGuest, i); var id := index[es[i].key];
            id in before && before[id].event == ev && before[id].key == es[i].key
  {
    hide EntryRows, RowIds, IndexOfEvent, NewKeys, NameKey, Trimmed, Listing, EventsOk, TextOk, DrawsOk, StubsOk;
    assert GuestsOk(db);
    var init := es[..i];
    IndexIsGood(db, ev);
    KeptFacts(db, ev, init);
    var ids := RowIds(init, index, db.nextGuest);
    var kept := EntryRows(ev, init, ids);
    var id: int := index[es[i].key];
    assert id in Rows(db.guests, ev) && db.guests[id].key == es[i].key;
    if id in kept {
      assert id in ids;
      var j :| 0 <= j < |ids| && ids[j] == id;
      RowIdAt(init, index, db.nextGuest, j);
    }
  }

  lemma FreshKeyRow(db: Db, ev: int, es: seq<Entry>, index: map<string, int>, i: nat)
    requires Valid(db) && WellFormed(es) && index == IndexOfEvent(db, ev) && i < |es| && es[i].key !in index
    ensures !KeyTaken(db.guests + Written(ev, es, index, db.nextGuest, i), ev, es[i].key, db.nextGuest + NewKeys(es[..i], index))
  {
    hide EntryRows, RowIds, IndexOfEvent, NewKeys, NameKey, Trimmed, Listing, EventsOk, TextOk, DrawsOk, StubsOk, KeyTaken;
    assert GuestsOk(db);
    var init := es[..i];
    IndexIsGood(db, ev);
    KeptFacts(db, ev, init);
    var ids := RowIds(init, index, db.nextGuest);
    FreshKeyIsFree(db, ev, EntryRows(ev, init, ids), index, es[i].key, db.nextGuest + NewKeys(init, index), init, ids);
  }

  lemma FreshKeyIsFree(db: Db, ev: int, kept: map<int, Guest>, index: map<string, int>, key: string, next: int,
                       es: seq<Entry>, ids: seq<int>)
    requires GoodIndex(index, Rows(db.guests, ev)) && key !in index && |ids| == |es|
    requires forall id :: id in kept <==> id in ids
    requires forall j :: 0 <= j < |es| ==> ids[j] in kept && kept[ids[j]] == RowFor(ev, es[j], j)
    requires forall j :: 0 <= j < |es| ==> es[j].key != key
    ensures !KeyTaken(db.guests + kept, ev, key, next)
  {
    var all := db.guests + kept;
    forall id | id in all && all[id].event == ev ensures all[id].key != key {
      if id in kept {
        assert id in ids;
        var j :| 0 <= j < |ids| && ids[j] == id;
      } else {
        assert id in Rows(db.guests, ev);
      }
    }
  }

  lemma LastWritten(ev: int, es: seq<Entry>, index: map<string, int>, next: int, i: nat)
    requires i < |es|
    ensures var init := es[..i];
            var id := if es[i].key in index then index[es[i].key] else next + NewKeys(init, index);
            && Written(ev, es, index, next, i + 1) == Written(ev, es, index, next, i)[id := RowFor(ev, es[i], i)]
            && NewKeys(es[..i + 1], index) == NewKeys(init, index) + if es[i].key in index then 0 else 1
  {
    var upto := es[..i + 1];
    assert upto[..i] == es[..i];
    var ids := RowIds(upto, index, next);
    assert ids[..i] == RowIds(es[..i], index, next);
  }

  lemma KeyIsFree(guests: map<int, Guest>, ev: int, key: string, next: int)
    requires GuestByKey(guests, ev, key).None?
    ensures !KeyTaken(guests, ev, key, next)
  {
    NoneByKey(guests, ev, key);
  }

  lemma ForgetNone(stubs: map<int, Stub>)
    ensures Forget(stubs, {}) == stubs
  {
  }

  lemma ForgetMore(stubs: map<int, Stub>, gone: set<int>, id: int)
    ensures Forget(Forget(stubs, gone), {id}) == Forget(stubs, gone + {id})
  {
  }

  /** Both loops together leave what the specification asks for. */
  lemma Replaced(db: Db, slug: string, text: string, db': Db, existing: map<string, int>, keep: set<string>)
    requires Valid(db) && EventBySlug(db.events, slug).Some?
    requires existing == IndexOfEvent(db, EventBySlug(db.events, slug).value)
    requires var es := Parse(text); keep == set i | 0 <= i < |es| :: es[i].key
    requires var ev := EventBySlug(db.events, slug).value;
             var es := Parse(text);
             var ids := RowIds(es, existing, db.nextGuest);
             var gone := set k | k in existing && k !in keep :: existing[k];
             db' == WithRoster(db, ev, text).(guests := (db.guests + EntryRows(ev, es, ids)) - gone,
                                              stubs := Forget(db.stubs, gone),
                                              nextGuest := db.nextGuest + NewKeys(es, existing))
    ensures (db', Ok(EventBySlug(db.events, slug).value)) == Tables.ReplaceRoster(db, slug, text)
  {
    hide Parse, EntryRows, RowIds, IndexOfEvent, NewKeys, Forget, EventBySlug, Valid, Rows;
    var ev := EventBySlug(db.events, slug).value;
    var es := Parse(text);
    var kept := EntryRows(ev, es, RowIds(es, existing, db.nextGuest));
    var gone := set k | k in existing && k !in keep :: existing[k];
    GoneAreThose(db, ev, text, existing, keep);
    assert (db.guests + kept) - gone == (db.guests - gone) + kept;
  }

  lemma GoneAreThose(db: Db, ev: int, text: string, existing: map<string, int>, keep: set<string>)
    requires Valid(db) && existing == IndexOfEvent(db, ev)
    requires var es := Parse(text); keep == set i | 0 <= i < |es| :: es[i].key
    ensures var kept := EntryRows(ev, Parse(text), RowIds(Parse(text), existing, db.nextGuest));
            var gone := set k | k in existing && k !in keep :: existing[k];
            gone == Rows(db.guests, ev).Keys - kept.Keys && gone !! kept.Keys
  {
    hide Parse, EntryRows, RowIds, IndexOfEvent, NewKeys, Listing, NameKey, Trimmed, EventsOk, TextOk, DrawsOk, StubsOk, RosterOf;
    var es := Parse(text);
    ParseWellFormed(text);
    IndexIsGood(db, ev);
    KeptFacts(db, ev, es);
    var kept := EntryRows(ev, es, RowIds(es, existing, db.nextGuest));
    GoneAreLeavers(es, existing, Rows(db.guests, ev), db.nextGuest, kept, keep);
  }

  lemma GoneAreLeavers(es: seq<Entry>, index: map<string, int>, rows: map<int, Guest>, next: int,
                       kept: map<int, Guest>, keep: set<string>)
    requires GoodIndex(index, rows) && keep == set i | 0 <= i < |es| :: es[i].key
    requires forall id :: id in kept <==> id in RowIds(es, index, next)
    requires forall id :: id in rows ==> id < next
    ensures (set k | k in index && k !in keep :: index[k]) == rows.Keys - kept.Keys
  {
    hide RowIds, NewKeys;
    var ids := RowIds(es, index, next);
    forall id | id in rows ensures id in kept <==> rows[id].key in keep {
      if rows[id].key in keep {
        var i :| 0 <= i < |es| && es[i].key == rows[id].key;
        RowIdAt(es, index, next, i);
        assert ids[i] in ids;
      }
      if id in kept {
        var i :| 0 <= i < |ids| && ids[i] == id;
        RowIdAt(es, index, next, i);
        assert es[i].key in keep;
      }
    }
    forall id | id in rows.Keys - kept.Keys ensures id in (set k | k in index && k !in keep :: index[k]) {
      assert rows[id].key in index && index[rows[id].key] == id;
    }
  }

  lemma NewStubsNone(draw: int, next: int, stubs: map<int, Stub>)
    ensures stubs + NewStubs(draw, [], next) == stubs
  {
  }

  lemma NewStubsNext(draw: int, picks: seq<Pick>, next: int, i: nat, stubs: map<int, Stub>)
    requires i < |picks|
    ensures stubs + NewStubs(draw, picks[..i + 1], next)
            == (stubs + NewStubs(draw, picks[..i], next))[next + i := StubFor(draw, i, picks[i])]
  {
    assert picks[..i + 1][..i] == picks[..i];
  }

  lemma NothingToDraw(db: Db, slug: string)
    requires EventBySlug(db.events, slug).None?
    ensures Steps.Legal(db, Steps.RunDraw(slug, [])) && Tables.RunDraw(db, slug, []) == (db, Err(NotFound))
  {
    hide EventBySlug;
  }

  lemma DrawIsLegal(db: Db, slug: string, logU: D.Stream, winners: seq<D.Candidate>, picks: seq<Pick>)
    requires Valid(db) && EventBySlug(db.events, slug).Some?
    requires |picks| == |winners| && forall i :: 0 <= i < |picks| ==> picks[i].winner == winners[i]
    requires var ev := EventBySlug(db.events, slug).value;
             D.IsDraw(Candidates(Rows(db.guests, ev)), db.events[ev].prizeCount, logU, winners)
    ensures Steps.Legal(db, Steps.RunDraw(slug, picks)) && Valid(Tables.RunDraw(db, slug, picks).0)
  {
    hide Valid, EventBySlug, Candidates, Rows, D.IsDraw, Tables.RunDraw;
    assert Steps.Winners(picks) == winners;
    Steps.LegalPicks(db, slug, picks);
    RunDrawKeeps(db, slug, picks);
  }

  lemma WinnersFit(db: Db, ev: int, logU: D.Stream, winners: seq<D.Candidate>)
    requires Valid(db) && ev in db.events
    requires D.IsDraw(Candidates(Rows(db.guests, ev)), db.events[ev].prizeCount, logU, winners)
    ensures |winners| <= MAX_PRIZES
    ensures |D.WithDiapers(Candidates(Rows(db.guests, ev)))| == 0 ==> |winners| == 0
  {
    hide D.WithDiapers, Candidates, Rows, GuestsOk, TextOk, DrawsOk, StubsOk, SlugShape, D.DrawKeys;
    assert EventOk(db, ev);
  }
}
