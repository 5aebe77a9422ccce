/** What each roster write does to the list of guests the page shows, and to their ids. */
module RosterEffects {
  import opened Wrappers
  import opened Text
  import opened Decimal
  import opened Ordering
  import opened Roster
  import opened RoundTrip
  import opened Tables
  import opened Invariant
  import opened Steps
  import D = Draw
  import OT = OddsTheorems
  import Slug

  /** The ordered guest list of an event. */
  function GuestList(db: Db, ev: int): seq<Entry> { RosterOf(Rows(db.guests, ev)) }

  function GuestIds(db: Db, ev: int): seq<int> { Listing(Rows(db.guests, ev)) }

  function IndexOfKey(es: seq<Entry>, key: string): (r: Option<nat>)
    ensures r.Some? ==> r.value < |es| && es[r.value].key == key
    ensures r.None? ==> forall i :: 0 <= i < |es| ==> es[i].key != key
  {
    if es == [] then None
    else if es[|es| - 1].key == key then Some(|es| - 1)
    else IndexOfKey(es[..|es| - 1], key)
  }

  /** Logging diapers on a list: add to the guest with that key, or append a new one. */
  function Logged(es: seq<Entry>, name: string, count: int): seq<Entry> {
    var i := IndexOfKey(es, NameKey(name));
    if i.Some? then es[i.value := es[i.value].(count := es[i.value].count + count)]
    else es + [Entry(name, NameKey(name), count, false)]
  }

  // ----- positions in the listing -----

  lemma ListedAt(rows: map<int, Guest>, id: int) returns (i: nat)
    requires id in rows
    ensures i < |Listing(rows)| && Listing(rows)[i] == id
    ensures RosterOf(rows)[i] == EntryOf(rows[id])
  {
    hide Ordered;
    assert id in Listing(rows);
    i :| 0 <= i < |Listing(rows)| && Listing(rows)[i] == id;
  }

  lemma ListingDistinct(rows: map<int, Guest>, i: nat, j: nat)
    requires i < j < |Listing(rows)|
    ensures Listing(rows)[i] != Listing(rows)[j]
  {
    hide Ordered;
    var ids := Listing(rows);
    assert Precedes(Positions(rows), ids[i], ids[j]);
  }

  /** Changing a row in place changes one entry of the list. */
  lemma PutInPlace(rows: map<int, Guest>, i: nat, row: Guest)
    requires i < |Listing(rows)| && Listing(rows)[i] in rows && row.position == rows[Listing(rows)[i]].position
    ensures Listing(rows[Listing(rows)[i] := row]) == Listing(rows)
    ensures RosterOf(rows[Listing(rows)[i] := row]) == RosterOf(rows)[i := EntryOf(row)]
  {
    hide Ordered;
    var ids := Listing(rows);
    var rows' := rows[ids[i] := row];
    assert Positions(rows') == Positions(rows);
    forall j | 0 <= j < |ids| ensures RosterOf(rows')[j] == RosterOf(rows)[i := EntryOf(row)][j] {
      if j != i { ListingDistinct(rows, if i < j then i else j, if i < j then j else i); }
      assert ids[j] in ids;
    }
  }

  /** A new last row appends one entry. */
  lemma PutLast(rows: map<int, Guest>, id: int, row: Guest)
    requires id !in rows && row.position == NextPosition(rows)
    ensures Listing(rows[id := row]) == Listing(rows) + [id]
    ensures RosterOf(rows[id := row]) == RosterOf(rows) + [EntryOf(row)]
  {
    hide Ordered;
    NextPositionIsFree(rows);
    OrderedAppend(Positions(rows), id, row.position);
    assert Positions(rows[id := row]) == Positions(rows)[id := row.position];
    assert forall j :: 0 <= j < |Listing(rows)| ==> Listing(rows)[j] in Listing(rows);
  }

  /** Deleting a row removes one entry. */
  lemma TakeOut(rows: map<int, Guest>, i: nat)
    requires i < |Listing(rows)|
    ensures var less := rows - {Listing(rows)[i]};
            && Listing(less) == Listing(rows)[..i] + Listing(rows)[i + 1..]
            && RosterOf(less) == RosterOf(rows)[..i] + RosterOf(rows)[i + 1..]
  {
    hide Ordered, RosterOf;
    var less := rows - {Listing(rows)[i]};
    OrderedRemove(Positions(rows), i);
    assert Positions(less) == Positions(rows) - {Listing(rows)[i]};
    RosterWithout(rows, less, i);
  }

  lemma RosterWithout(rows: map<int, Guest>, less: map<int, Guest>, i: nat)
    requires i < |Listing(rows)| && less == rows - {Listing(rows)[i]}
    requires Listing(less) == Listing(rows)[..i] + Listing(rows)[i + 1..]
    ensures RosterOf(less) == RosterOf(rows)[..i] + RosterOf(rows)[i + 1..]
  {
    hide Listing, RosterOf, EntryOf;
    var ids, ids', es := Listing(rows), Listing(less), RosterOf(rows);
    forall j | 0 <= j < |ids'| ensures RosterOf(less)[j] == (es[..i] + es[i + 1..])[j] {
      assert ids'[j] in ids' && ids'[j] in less;
      assert ids'[j] == ids[if j < i then j else j + 1];
      assert (es[..i] + es[i + 1..])[j] == es[if j < i then j else j + 1];
    }
  }

  lemma KeyFoundAt(db: Db, ev: int, key: string)
    requires GuestsOk(db)
    ensures var found := GuestByKey(db.guests, ev, key); var at := IndexOfKey(GuestList(db, ev), key);
            && (found.None? <==> at.None?)
            && (at.Some? ==> at.value < |GuestIds(db, ev)| && GuestIds(db, ev)[at.value] == found.value)
  {
    hide Ordered, GoodEntry, NameKey, IndexOfKey, GuestByKey;
    var rows := Rows(db.guests, ev);
    var es, ids := GuestList(db, ev), GuestIds(db, ev);
    var found := GuestByKey(db.guests, ev, key);
    var at := IndexOfKey(es, key);
    if found.Some? {
      var i := ListedAt(rows, found.value);
      assert es[i].key == key;
    } else {
      NoneByKey(db.guests, ev, key);
      forall i | 0 <= i < |es| ensures es[i].key != key { assert ids[i] in ids; }
    }
    if at.Some? {
      assert ids[at.value] in ids;
      var a: int, b: int := ids[at.value], found.value;
      assert a in db.guests && b in db.guests && db.guests[a].key == db.guests[b].key;
    }
  }

  // ----- the writes -----

  lemma UnmergedIds(guests: map<int, Guest>, ev: int)
    ensures Listing(Rows(Unmerge(guests, ev), ev)) == Listing(Rows(guests, ev))
  {
    hide Ordered;
    assert Positions(Rows(Unmerge(guests, ev), ev)) == Positions(Rows(guests, ev));
  }

  lemma SyncedList(db: Db, ev: int)
    requires ev in db.events
    ensures GuestList(SyncRosterText(db, ev), ev) == Cleared(GuestList(db, ev))
    ensures GuestIds(SyncRosterText(db, ev), ev) == GuestIds(db, ev)
  {
    hide Format, Listing, Rows, RosterOf, Unmerge, Cleared;
    SyncedText(db, ev);
    UnmergedIds(db.guests, ev);
  }

  lemma PutRows(guests: map<int, Guest>, id: int, row: Guest)
    requires id in guests ==> guests[id].event == row.event
    ensures Rows(guests[id := row], row.event) == Rows(guests, row.event)[id := row]
  {
  }

  lemma NewGuestListed(db: Db, ev: int, name: string, count: Int64)
    requires Valid(db) && ev in db.events && GuestByKey(db.guests, ev, NameKey(name)).None?
    ensures var row := Guest(ev, name, NameKey(name), count, NextPosition(Rows(db.guests, ev)), false);
            var db1 := db.(guests := db.guests[db.nextGuest := row], nextGuest := db.nextGuest + 1);
            GuestList(db1, ev) == Logged(GuestList(db, ev), name, count) && GuestIds(db1, ev) == GuestIds(db, ev) + [db.nextGuest]
  {
    hide NameKey, RosterOf, Rows, NextPosition, EventsOk, TextOk, DrawsOk, StubsOk, GuestsOk, Listing, IndexOfKey, GuestByKey;
    var rows := Rows(db.guests, ev);
    var row := Guest(ev, name, NameKey(name), count, NextPosition(rows), false);
    KeyFoundAt(db, ev, NameKey(name));
    NextGuestFree(db);
    NotInRows(db.guests, ev, db.nextGuest);
    PutRows(db.guests, db.nextGuest, row);
    PutLast(rows, db.nextGuest, row);
  }

  lemma KnownGuestListed(db: Db, ev: int, name: string, count: int)
    requires Valid(db) && GuestByKey(db.guests, ev, NameKey(name)).Some?
    ensures var id := GuestByKey(db.guests, ev, NameKey(name)).value;
            var row := db.guests[id].(count := db.guests[id].count + count);
            var db1 := db.(guests := db.guests[id := row]);
            GuestList(db1, ev) == Logged(GuestList(db, ev), name, count) && GuestIds(db1, ev) == GuestIds(db, ev)
  {
    hide NameKey, RosterOf, Rows, EventsOk, TextOk, DrawsOk, StubsOk, GuestsOk, Listing, IndexOfKey, GuestByKey;
    var rows := Rows(db.guests, ev);
    KeyFoundAt(db, ev, NameKey(name));
    var id := GuestByKey(db.guests, ev, NameKey(name)).value;
    var row := db.guests[id].(count := db.guests[id].count + count);
    var i := IndexOfKey(GuestList(db, ev), NameKey(name)).value;
    InRows(db.guests, id);
    PutRows(db.guests, id, row);
    PutInPlace(rows, i, row);
    EntryAt(rows, i);
  }

  /**
   * Logging diapers adds to the guest with that key wherever they stand, or
   * appends a new guest under a new id, every other guest keeping theirs; it
   * fails only if the new count exceeds an int64.
   */
  lemma AddDiapersEffect(db: Db, slug: string, raw: string, count: Int64, ev: int)
    requires Valid(db) && EventBySlug(db.events, slug) == Some(ev) && TrimSpace(raw) != "" && count >= 0
    ensures var (db', r) := Tables.AddDiapers(db, slug, raw, count);
            var es := GuestList(db, ev);
            var at := IndexOfKey(es, NameKey(TrimSpace(raw)));
            && r == (if at.Some? && es[at.value].count + count > MAX_INT64 then Err(Internal) else Ok(ev))
            && (r.Ok? ==>
                  && GuestList(db', ev) == Cleared(if at.Some? then es[at.value := es[at.value].(count := es[at.value].count + count)]
                                                   else es + [Entry(TrimSpace(raw), NameKey(TrimSpace(raw)), count, false)])
                  && GuestIds(db', ev) == GuestIds(db, ev) + if at.Some? then [] else [db.nextGuest])
            && (r.Err? ==> db' == db)
  {
    hide SyncRosterText, EventBySlug, NameKey, TrimSpace, RosterOf, Rows, NextPosition, Valid, GuestByKey,
      GuestList, GuestIds, Cleared, IndexOfKey;
    var name := TrimSpace(raw);
    FoundCount(db, ev, NameKey(name));
    var found := GuestByKey(db.guests, ev, NameKey(name));
    if found.None? {
      LoggedNew(db, ev, name, count);
    } else {
      LoggedKnown(db, ev, name, count);
    }
  }

  /** The row with a key and the list entry with it hold the same count. */
  lemma FoundCount(db: Db, ev: int, key: string)
    requires Valid(db)
    ensures var found := GuestByKey(db.guests, ev, key); var at := IndexOfKey(GuestList(db, ev), key);
            (found.None? <==> at.None?) && (at.Some? ==> GuestList(db, ev)[at.value].count == db.guests[found.value].count)
  {
    hide GuestByKey, IndexOfKey, RosterOf, Listing, EventsOk, TextOk, DrawsOk, StubsOk, GuestsOk;
    KeyFoundAt(db, ev, key);
    var at := IndexOfKey(GuestList(db, ev), key);
    if at.Some? { EntryAt(Rows(db.guests, ev), at.value); }
  }

  lemma LoggedNew(db: Db, ev: int, name: string, count: Int64)
    requires Valid(db) && ev in db.events && GuestByKey(db.guests, ev, NameKey(name)).None?
    ensures var row := Guest(ev, name, NameKey(name), count, NextPosition(Rows(db.guests, ev)), false);
            var db1 := db.(guests := db.guests[db.nextGuest := row], nextGuest := db.nextGuest + 1);
            && GuestList(SyncRosterText(db1, ev), ev) == Cleared(Logged(GuestList(db, ev), name, count))
            && GuestIds(SyncRosterText(db1, ev), ev) == GuestIds(db, ev) + [db.nextGuest]
  {
    hide SyncRosterText, NameKey, Rows, NextPosition, Valid, Logged, GuestByKey, GuestList, GuestIds, Cleared;
    var row := Guest(ev, name, NameKey(name), count, NextPosition(Rows(db.guests, ev)), false);
    NewGuestListed(db, ev, name, count);
    SyncedList(db.(guests := db.guests[db.nextGuest := row], nextGuest := db.nextGuest + 1), ev);
  }

  lemma LoggedKnown(db: Db, ev: int, name: string, count: int)
    requires Valid(db) && ev in db.events && GuestByKey(db.guests, ev, NameKey(name)).Some?
    ensures var id := GuestByKey(db.guests, ev, NameKey(name)).value;
            var row := db.guests[id].(count := db.guests[id].count + count);
            var db1 := SyncRosterText(db.(guests := db.guests[id := row]), ev);
            GuestList(db1, ev) == Cleared(Logged(GuestList(db, ev), name, count)) && GuestIds(db1, ev) == GuestIds(db, ev)
  {
    hide SyncRosterText, NameKey, Rows, NextPosition, Valid, Logged, GuestByKey, GuestList, GuestIds, Cleared;
    var id := GuestByKey(db.guests, ev, NameKey(name)).value;
    var row := db.guests[id].(count := db.guests[id].count + count);
    KnownGuestListed(db, ev, name, count);
    SyncedList(db.(guests := db.guests[id := row]), ev);
  }

  lemma EntryAt(rows: map<int, Guest>, i: nat)
    requires i < |Listing(rows)|
    ensures Listing(rows)[i] in rows && RosterOf(rows)[i] == EntryOf(rows[Listing(rows)[i]])
  {
    hide Ordered;
    assert Listing(rows)[i] in Listing(rows);
  }

  lemma InRows(guests: map<int, Guest>, id: int)
    requires id in guests
    ensures id in Rows(guests, guests[id].event) && Rows(guests, guests[id].event)[id] == guests[id]
  {
  }

  lemma NotInRows(guests: map<int, Guest>, ev: int, id: int)
    requires id !in guests
    ensures id !in Rows(guests, ev)
  {
  }

  lemma UpdatedInPlace(db: Db, slug: string, id: int, name: Option<string>, count: Option<Int64>) returns (i: nat)
    requires Valid(db) && EventBySlug(db.events, slug).Some? && id in db.guests
    requires db.guests[id].event == EventBySlug(db.events, slug).value
    requires (name.Some? ==> TrimSpace(name.value) != "") && (count.Some? ==> count.value >= 0)
    ensures var (db', r) := Tables.UpdateGuest(db, slug, id, name, count);
            var ev := db.guests[id].event;
            var es := GuestList(db, ev);
            var row := Renamed(db.guests[id], name, count);
            && i < |es| && GuestIds(db, ev)[i] == id && es[i] == EntryOf(db.guests[id])
            && (r == Err(Conflict) <==> exists j :: 0 <= j < |es| && j != i && es[j].key == row.key)
            && (r != Err(Conflict) ==>
                  && r == Ok(ev) && GuestIds(db', ev) == GuestIds(db, ev) && GuestList(db', ev) == Cleared(es[i := EntryOf(row)])
                  && id in db'.guests && db'.guests[id] == row.(merged := false))
  {
    hide EventBySlug, SyncRosterText, NameKey, TrimSpace, RosterOf, Rows, EventsOk, TextOk, DrawsOk, StubsOk,
      GuestsOk, Listing, KeyTaken;
    var ev := db.guests[id].event;
    var rows := Rows(db.guests, ev);
    var row := Renamed(db.guests[id], name, count);
    InRows(db.guests, id);
    i := ListedAt(rows, id);
    ConflictMeansListed(db.guests, ev, row.key, id, i);
    if Tables.UpdateGuest(db, slug, id, name, count).1.Ok? {
      PutRows(db.guests, id, row);
      PutInPlace(rows, i, row);
      SyncedList(db.(guests := db.guests[id := row]), ev);
      SyncedRow(db.(guests := db.guests[id := row]), ev, id);
    }
  }

  lemma SyncedRow(db: Db, ev: int, id: int)
    requires ev in db.events && id in db.guests && db.guests[id].event == ev
    ensures id in SyncRosterText(db, ev).guests && SyncRosterText(db, ev).guests[id] == db.guests[id].(merged := false)
  {
    hide Format, RosterOf, Rows;
  }

  /** The key of a stored guest is that of their name. */
  lemma StoredKey(db: Db, id: int)
    requires Valid(db) && id in db.guests
    ensures db.guests[id].key == NameKey(db.guests[id].name)
  {
    hide EventsOk, TextOk, DrawsOk, StubsOk, NameKey, Trimmed, DistinctGuests;
  }

  /**
   * Renaming or recounting changes that one guest where it stands: the name
   * asked for, trimmed, with its key, and the count asked for; what is not
   * asked for stays. It is refused as a conflict exactly when another guest on
   * the list has the key.
   */
  lemma UpdateGuestEffect(db: Db, slug: string, id: int, name: Option<string>, count: Option<Int64>) returns (i: nat)
    requires Valid(db) && EventBySlug(db.events, slug).Some? && id in db.guests
    requires db.guests[id].event == EventBySlug(db.events, slug).value
    requires (name.Some? ==> TrimSpace(name.value) != "") && (count.Some? ==> count.value >= 0)
    ensures var (db', r) := Tables.UpdateGuest(db, slug, id, name, count);
            var g := db.guests[id];
            var es := GuestList(db, g.event);
            var newName := if name.Some? then TrimSpace(name.value) else g.name;
            var newCount := if count.Some? then count.value else g.count;
            && i < |es| && GuestIds(db, g.event)[i] == id
            && es[i].name == g.name && es[i].key == g.key && es[i].count == g.count
            && (r == Err(Conflict) <==> exists j :: 0 <= j < |es| && j != i && es[j].key == NameKey(newName))
            && (r != Err(Conflict) ==>
                  && r == Ok(g.event) && GuestIds(db', g.event) == GuestIds(db, g.event)
                  && GuestList(db', g.event) == Cleared(es[i := Entry(newName, NameKey(newName), newCount, false)])
                  && id in db'.guests
                  && db'.guests[id] == Guest(g.event, newName, NameKey(newName), newCount, g.position, false))
  {
    hide EventBySlug, NameKey, TrimSpace, Valid, GuestList, GuestIds, Tables.UpdateGuest, Cleared;
    i := UpdatedInPlace(db, slug, id, name, count);
    StoredKey(db, id);
    var es, row := GuestList(db, db.guests[id].event), Renamed(db.guests[id], name, count);
    assert Cleared(es[i := EntryOf(row)]) == Cleared(es[i := EntryOf(row).(merged := false)]) by { ClearedTwice(es, i, EntryOf(row)); }
  }

  lemma ClearedTwice(es: seq<Entry>, i: nat, e: Entry)
    requires i < |es|
    ensures Cleared(es[i := e]) == Cleared(es[i := e.(merged := false)])
  {
  }

  lemma ConflictMeansListed(guests: map<int, Guest>, ev: int, key: string, id: int, i: nat)
    requires id in guests && guests[id].event == ev
    requires i < |Listing(Rows(guests, ev))| && Listing(Rows(guests, ev))[i] == id
    ensures var es := RosterOf(Rows(guests, ev));
            KeyTaken(guests, ev, key, id) <==> exists j :: 0 <= j < |es| && j != i && es[j].key == key
  {
    hide Ordered;
    var rows := Rows(guests, ev);
    var ids, es := Listing(rows), RosterOf(rows);
    if KeyTaken(guests, ev, key, id) {
      var other :| other in guests && other != id && guests[other].event == ev && guests[other].key == key;
      var j := ListedAt(rows, other);
      assert j != i && es[j].key == key;
    }
    if exists j :: 0 <= j < |es| && j != i && es[j].key == key {
      var j :| 0 <= j < |es| && j != i && es[j].key == key;
      assert ids[j] in ids;
      ListingDistinct(rows, if i < j then i else j, if i < j then j else i);
    }
  }

  lemma DeleteGuestEffect(db: Db, slug: string, id: int, ev: int) returns (i: nat)
    requires Valid(db) && EventBySlug(db.events, slug) == Some(ev) && id in db.guests && db.guests[id].event == ev
    ensures var (db', r) := Tables.DeleteGuest(db, slug, id);
            var es, ids := GuestList(db, ev), GuestIds(db, ev);
            && r == Ok(ev) && i < |es| && ids[i] == id
            && GuestIds(db', ev) == ids[..i] + ids[i + 1..]
            && GuestList(db', ev) == Cleared(es[..i] + es[i + 1..])
  {
    hide EventBySlug, SyncRosterText, RosterOf, Rows, EventsOk, TextOk, DrawsOk, StubsOk, GuestsOk, Listing, Forget;
    var rows := Rows(db.guests, ev);
    InRows(db.guests, id);
    i := ListedAt(rows, id);
    TakeOut(rows, i);
    RowsWithout(db.guests, ev, id);
    SyncedList(db.(guests := db.guests - {id}, stubs := Forget(db.stubs, {id})), ev);
  }

  lemma RowsWithout(guests: map<int, Guest>, ev: int, id: int)
    ensures Rows(guests - {id}, ev) == Rows(guests, ev) - {id}
  {
  }

  /**
   * Saving the text makes the list exactly what the text parses to. A guest
   * whose key survives keeps its id; every other entry gets an id never used.
   */
  lemma ReplaceRosterEffect(db: Db, slug: string, text: string, ev: int)
    requires Valid(db) && EventBySlug(db.events, slug) == Some(ev)
    ensures var (db', r) := Tables.ReplaceRoster(db, slug, text);
            var es, ids := Parse(text), GuestIds(db', ev);
            && r == Ok(ev) && GuestList(db', ev) == es && |ids| == |es|
            && (forall i, id :: 0 <= i < |es| && id in db.guests && db.guests[id].event == ev && db.guests[id].key == es[i].key ==>
                  ids[i] == id)
            && (forall i :: 0 <= i < |es| && IndexOfKey(GuestList(db, ev), es[i].key).None? ==> ids[i] >= db.nextGuest)
  {
    hide EventBySlug, Parse, RosterOf, RowIds, EntryRows, NewKeys, EventsOk, TextOk, DrawsOk, StubsOk, Listing, Forget,
      GoodEntry, IndexOfEvent, IndexOfKey, Rows;
    var es := Parse(text);
    ReplaceRosterKeeps(db, slug, text);
    IndexIsGood(db, ev);
    var index := IndexOfEvent(db, ev);
    var ids := RowIds(es, index, db.nextGuest);
    forall i | 0 <= i < |es|
      ensures forall id :: id in db.guests && db.guests[id].event == ev && db.guests[id].key == es[i].key ==> ids[i] == id
      ensures IndexOfKey(GuestList(db, ev), es[i].key).None? ==> ids[i] >= db.nextGuest
    {
      RowIdAt(es, index, db.nextGuest, i);
      forall id | id in db.guests && db.guests[id].event == ev && db.guests[id].key == es[i].key ensures ids[i] == id {
        InRows(db.guests, id);
      }
      NotIndexed(db, ev, es[i].key);
    }
  }

  lemma NotIndexed(db: Db, ev: int, key: string)
    requires GoodIndex(IndexOfEvent(db, ev), Rows(db.guests, ev))
    ensures IndexOfKey(GuestList(db, ev), key).None? ==> key !in IndexOfEvent(db, ev)
  {
    hide IndexOfKey, IndexOfEvent, Ordered;
    var index, rows := IndexOfEvent(db, ev), Rows(db.guests, ev);
    if key in index {
      var i := ListedAt(rows, index[key]);
      assert GuestList(db, ev)[i].key == key;
    }
  }

  /** A roster write touches no other event's roster, and a failed one touches nothing. */
  lemma OtherRostersUntouched(db: Db, op: Op, ev: int)
    requires Valid(db) && ev in db.events && ev in Apply(db, op).0.events && !WritesRoster(db, op, ev)
    ensures Rows(Apply(db, op).0.guests, ev) == Rows(db.guests, ev)
    ensures Apply(db, op).0.events[ev].rosterText == db.events[ev].rosterText
  {
    hide Apply, WritesRoster, Valid, IdsFresh, DrawsFrozen, StubsFrozen, Rows;
    StepFollows(db, op);
    StepVersion(db, op, ev);
  }

  // ----- what a draw records -----

  /** A face-down stub that names the winner and carries the serial picked for it. */
  predicate IsNewStub(s: Stub, d: int, prize: int, p: Pick) {
    && s.draw == d && s.prizeIndex == prize && s.serial == p.serial && s.revealedAt == None
    && s.guest == Some(p.winner.id) && s.name == p.winner.name && s.count == p.winner.count
  }

  /** The stubs of this draw: one per pick, with ids from `next` and prize indices from 0. */
  ghost predicate AreNewStubs(stubs: map<int, Stub>, d: int, next: int, picks: seq<Pick>) {
    && (forall s :: s in stubs && stubs[s].draw == d <==> next <= s < next + |picks|)
    && forall s :: next <= s < next + |picks| ==> IsNewStub(stubs[s], d, s - next, picks[s - next])
  }

  /** A draw's row, and its stubs: one per pick, face down, at prize indices 0, 1, ... and no others. */
  lemma DrawRecords(db: Db, slug: string, picks: seq<Pick>, ev: int)
    requires Valid(db) && EventBySlug(db.events, slug) == Some(ev) && D.WithDiapers(Candidates(Rows(db.guests, ev))) != []
    ensures var (db', r) := Tables.RunDraw(db, slug, picks);
            && r == Ok(db.nextDraw) && db.nextDraw !in db.draws && db.nextDraw in db'.draws
            && var d := db'.draws[db.nextDraw];
               && d.event == ev && d.prizeCount == db.events[ev].prizeCount
               && d.rosterVersion == db.events[ev].rosterVersion && d.createdAt == db.clock
               && db'.draws == db.draws[db.nextDraw := d]
               && (forall s :: s in db.stubs ==> s in db'.stubs && db'.stubs[s] == db.stubs[s])
               && AreNewStubs(db'.stubs, db.nextDraw, db.nextStub, picks)
  {
    hide EventBySlug, NewStubs, D.WithDiapers, Candidates, Wrap, CountTotal, Valid, Rows, Tables.RunDraw, AreNewStubs;
    DrawnDb(db, slug, picks, ev, D.WithDiapers(Candidates(Rows(db.guests, ev))));
    RecordedStubs(db, picks);
    assert Tables.RunDraw(db, slug, picks).0.stubs == db.stubs + NewStubs(db.nextDraw, picks, db.nextStub);
  }

  lemma StubIsNew(draw: int, prize: int, p: Pick)
    ensures IsNewStub(StubFor(draw, prize, p), draw, prize, p)
  {
  }

  lemma RecordedStubs(db: Db, picks: seq<Pick>)
    requires Valid(db)
    ensures var stubs := db.stubs + NewStubs(db.nextDraw, picks, db.nextStub);
            && db.nextDraw !in db.draws
            && (forall s :: s in db.stubs ==> s in stubs && stubs[s] == db.stubs[s])
            && AreNewStubs(stubs, db.nextDraw, db.nextStub, picks)
  {
    hide NewStubs, EventsOk, TextOk, GuestsOk, IsNewStub;
    var stubs := db.stubs + NewStubs(db.nextDraw, picks, db.nextStub);
    forall s | db.nextStub <= s < db.nextStub + |picks|
      ensures IsNewStub(stubs[s], db.nextDraw, s - db.nextStub, picks[s - db.nextStub])
    {
      StubIsNew(db.nextDraw, s - db.nextStub, picks[s - db.nextStub]);
    }
  }

  /**
   * The winners are as many as there are prizes or entrants, pairwise distinct
   * current guests with diapers, recorded with their name and count, in
   * descending order of the logarithm they drew over their diapers; no entrant
   * left out has a larger one than a winner.
   */
  lemma WinnersAreEntrants(db: Db, slug: string, picks: seq<Pick>, logU: D.Stream) returns (at: seq<nat>)
    requires Valid(db) && EventBySlug(db.events, slug).Some?
    requires var ev := EventBySlug(db.events, slug).value;
             D.IsDraw(Candidates(Rows(db.guests, ev)), db.events[ev].prizeCount, logU, Winners(picks))
    ensures var ev := EventBySlug(db.events, slug).value;
            var e := db.events[ev];
            var eligible := D.WithDiapers(Candidates(Rows(db.guests, ev)));
            && |picks| == |at| == (if e.prizeCount < |eligible| then e.prizeCount else |eligible|)
            && (forall p :: 0 <= p < |picks| ==> at[p] < |eligible| && WinnerIs(db, ev, picks[p].winner, eligible[at[p]]))
            && (forall p, q :: 0 <= p < q < |picks| ==> picks[p].winner.id != picks[q].winner.id)
            && (forall p, q :: 0 <= p < q < |picks| ==>
                  OT.KeyAtLeast(eligible, logU, at[p], at[q]))
            && (forall p, j: nat :: 0 <= p < |picks| && j < |eligible| && j !in at ==>
                  OT.KeyAtLeast(eligible, logU, at[p], j))
  {
    hide EventBySlug, D.WithDiapers, Candidates, D.DrawKeys, D.IsDraw, Valid, Rows, WinnerIs, OT.KeyAtLeast;
    var ev := EventBySlug(db.events, slug).value;
    var pool := Candidates(Rows(db.guests, ev));
    var eligible := D.WithDiapers(pool);
    PrizeCountOk(db, ev);
    at := OT.DrawIsFair(pool, db.events[ev].prizeCount, logU, Winners(picks));
    PoolIdsDistinct(Rows(db.guests, ev));
    EligibleIds(pool);
    forall p | 0 <= p < |picks| ensures at[p] < |eligible| && WinnerIs(db, ev, picks[p].winner, eligible[at[p]]) {
      assert picks[p].winner == Winners(picks)[p];
      WinnerIsEntrant(db, ev, at[p]);
    }
    forall p, q | 0 <= p < q < |picks| ensures picks[p].winner.id != picks[q].winner.id {
      assert picks[p].winner == Winners(picks)[p] && picks[q].winner == Winners(picks)[q];
      assert at[p] != at[q];
    }
  }

  /** The winner is this eligible candidate, and a current guest of the event with that name and count. */
  predicate WinnerIs(db: Db, ev: int, w: D.Candidate, c: D.Candidate) {
    && w == c && c.count > 0 && c.id in db.guests
    && db.guests[c.id].event == ev && db.guests[c.id].name == c.name && db.guests[c.id].count == c.count
  }

  lemma WinnerIsEntrant(db: Db, ev: int, i: nat)
    requires i < |D.WithDiapers(Candidates(Rows(db.guests, ev)))|
    ensures var c := D.WithDiapers(Candidates(Rows(db.guests, ev)))[i]; WinnerIs(db, ev, c, c)
  {
    hide D.WithDiapers, Candidates, Rows;
    var rows := Rows(db.guests, ev);
    var c := D.WithDiapers(Candidates(rows))[i];
    EligibleFromPool(Candidates(rows), i);
    CandidateIsRow(rows, c);
    RowsAreGuests(db.guests, ev, c.id);
  }

  lemma PrizeCountOk(db: Db, ev: int)
    requires Valid(db) && ev in db.events
    ensures 1 <= db.events[ev].prizeCount
  {
    hide GuestsOk, TextOk, DrawsOk, StubsOk, Slug.SlugShape;
    assert EventOk(db, ev);
  }

  lemma RowsAreGuests(guests: map<int, Guest>, ev: int, id: int)
    requires id in Rows(guests, ev)
    ensures id in guests && guests[id].event == ev && guests[id] == Rows(guests, ev)[id]
  {
  }

  lemma PoolIdsDistinct(rows: map<int, Guest>)
    ensures OT.DistinctIds(Candidates(rows))
  {
    hide Listing;
    forall i, j | 0 <= i < j < |Candidates(rows)| ensures Candidates(rows)[i].id != Candidates(rows)[j].id {
      ListingDistinct(rows, i, j);
    }
  }

  lemma EligibleIds(pool: seq<D.Candidate>)
    requires OT.DistinctIds(pool)
    ensures forall i, j :: 0 <= i < |D.WithDiapers(pool)| && 0 <= j < |D.WithDiapers(pool)| && i != j ==>
      D.WithDiapers(pool)[i].id != D.WithDiapers(pool)[j].id
  {
    hide D.WithDiapers;
    OT.EligibleKeepsIds(pool);
  }
}
