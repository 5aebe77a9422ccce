/** When the two copies of a roster drift apart: which write does it, and how long it lasts. */
module Drift {
  import opened Wrappers
  import opened Text
  import opened Decimal
  import opened Roster
  import opened TrailingCount
  import opened RoundTrip
  import opened Slug
  import opened Tables
  import opened Invariant
  import opened Steps
  import opened Runs
  import opened RosterEffects
  import EventEffects
  import D = Draw

  predicate IsGuestWrite(op: Op) { op.AddDiapers? || op.UpdateGuest? || op.DeleteGuest? }

  predicate Printed(db: Db, ev: int) {
    ev in db.events && db.events[ev].rosterText == Format(RosterOf(Rows(db.guests, ev)))
  }

  lemma SyncPrints(db: Db, ev: int)
    requires ev in db.events
    ensures Printed(SyncRosterText(db, ev), ev)
  {
    hide Format, RosterOf, Rows, Unmerge;
    SyncedText(db, ev);
  }

  lemma AddDiapersPrints(db: Db, slug: string, raw: string, count: Int64, ev: int)
    requires Tables.AddDiapers(db, slug, raw, count).1 == Ok(ev)
    ensures Printed(Tables.AddDiapers(db, slug, raw, count).0, ev)
  {
    hide EventBySlug, GuestByKey, SyncRosterText, NameKey, TrimSpace, NextPosition, Rows, Printed;
    var name := TrimSpace(raw);
    var guest := GuestByKey(db.guests, ev, NameKey(name));
    if guest.None? {
      var row := Guest(ev, name, NameKey(name), count, NextPosition(Rows(db.guests, ev)), false);
      SyncPrints(db.(guests := db.guests[db.nextGuest := row], nextGuest := db.nextGuest + 1), ev);
    } else {
      var row := db.guests[guest.value].(count := db.guests[guest.value].count + count);
      SyncPrints(db.(guests := db.guests[guest.value := row]), ev);
    }
  }

  lemma UpdateGuestPrints(db: Db, slug: string, id: int, name: Option<string>, count: Option<Int64>, ev: int)
    requires Tables.UpdateGuest(db, slug, id, name, count).1 == Ok(ev)
    ensures Printed(Tables.UpdateGuest(db, slug, id, name, count).0, ev)
  {
    hide EventBySlug, SyncRosterText, TrimSpace, KeyTaken, Renamed, Printed;
    SyncPrints(db.(guests := db.guests[id := Renamed(db.guests[id], name, count)]), ev);
  }

  lemma DeleteGuestPrints(db: Db, slug: string, id: int, ev: int)
    requires Tables.DeleteGuest(db, slug, id).1 == Ok(ev)
    ensures Printed(Tables.DeleteGuest(db, slug, id).0, ev)
  {
    hide EventBySlug, SyncRosterText, Forget, Printed;
    SyncPrints(db.(guests := db.guests - {id}, stubs := Forget(db.stubs, {id})), ev);
  }

  /** A committed guest-level write leaves the text printed from the rows it leaves. */
  lemma GuestWritePrints(db: Db, op: Op, ev: int)
    requires IsGuestWrite(op) && Apply(db, op).1 == Ok(ev)
    ensures Printed(Apply(db, op).0, ev)
  {
    hide Printed, Tables.AddDiapers, Tables.UpdateGuest, Tables.DeleteGuest;
    match op
    case AddDiapers(slug, raw, count) => AddDiapersPrints(db, slug, raw, count, ev);
    case UpdateGuest(slug, id, name, count) => UpdateGuestPrints(db, slug, id, name, count, ev);
    case DeleteGuest(slug, id) => DeleteGuestPrints(db, slug, id, ev);
  }

  /** After a guest-level write the copies agree exactly when every row can be printed faithfully. */
  lemma GuestWriteSyncsExactly(db: Db, op: Op, ev: int)
    requires Valid(db) && IsGuestWrite(op) && Apply(db, op).1 == Ok(ev)
    ensures var db' := Apply(db, op).0;
            ev in db'.events && (InSync(db', ev) <==> AllClean(RosterOf(Rows(db'.guests, ev))))
  {
    hide Valid, Apply, InSync, AllClean, RosterOf, Rows, Format;
    GuestWritePrints(db, op, ev);
    assert Printed(Apply(db, op).0, ev);
    StepKeeps(db, op);
    SyncExactly(Apply(db, op).0, ev);
  }

  // ----- what a caller can check before the write -----

  predicate Printable(e: Entry) { CleanName(e.name) && e.count >= 0 }

  /** Every guest but the one at place i can be printed faithfully. */
  predicate CleanBut(es: seq<Entry>, i: nat) {
    forall j :: 0 <= j < |es| && j != i ==> Printable(es[j])
  }

  lemma ClearedClean(es: seq<Entry>)
    ensures AllClean(Cleared(es)) <==> AllClean(es)
  {
    hide CleanName;
  }

  lemma PutClean(es: seq<Entry>, i: nat, e: Entry)
    requires i < |es|
    ensures AllClean(es[i := e]) <==> CleanBut(es, i) && Printable(e)
  {
    hide CleanName;
    if AllClean(es[i := e]) {
      assert es[i := e][i] == e;
      forall j | 0 <= j < |es| && j != i ensures Printable(es[j]) { assert es[i := e][j] == es[j]; }
    }
  }

  lemma AppendClean(es: seq<Entry>, e: Entry)
    ensures AllClean(es + [e]) <==> AllClean(es) && Printable(e)
  {
    hide CleanName;
    if AllClean(es + [e]) {
      assert (es + [e])[|es|] == e;
      forall j | 0 <= j < |es| ensures Printable(es[j]) { assert (es + [e])[j] == es[j]; }
    }
  }

  lemma TakeOutClean(es: seq<Entry>, i: nat)
    requires i < |es|
    ensures AllClean(es[..i] + es[i + 1..]) <==> CleanBut(es, i)
  {
    hide CleanName;
    var less := es[..i] + es[i + 1..];
    if AllClean(less) {
      forall j | 0 <= j < |es| && j != i ensures Printable(es[j]) { assert es[j] == less[if j < i then j else j - 1]; }
    }
  }

  /** The list stays clean when this name is logged with this many diapers. */
  predicate CleanToLog(es: seq<Entry>, name: string, count: int) {
    var at := IndexOfKey(es, NameKey(name));
    if at.None? then AllClean(es) && CleanName(name)
    else CleanBut(es, at.value) && CleanName(es[at.value].name) && es[at.value].count + count >= 0
  }

  lemma LoggedClean(es: seq<Entry>, name: string, count: int)
    requires count >= 0
    ensures AllClean(Cleared(Logged(es, name, count))) <==> CleanToLog(es, name, count)
  {
    hide NameKey, IndexOfKey, Cleared, AllClean, CleanName, CleanBut;
    var at := IndexOfKey(es, NameKey(name));
    ClearedClean(Logged(es, name, count));
    if at.Some? {
      PutClean(es, at.value, es[at.value].(count := es[at.value].count + count));
    } else {
      AppendClean(es, Entry(name, NameKey(name), count, false));
    }
  }

  lemma GuestListIs(db: Db, ev: int)
    ensures GuestList(db, ev) == RosterOf(Rows(db.guests, ev))
  {
    hide RosterOf, Rows;
  }

  lemma AddDiapersMeant(db: Db, slug: string, raw: string, count: Int64, ev: int)
    requires Tables.AddDiapers(db, slug, raw, count).1 == Ok(ev)
    ensures EventBySlug(db.events, slug) == Some(ev) && TrimSpace(raw) != "" && count >= 0
  {
    hide EventBySlug, GuestByKey, SyncRosterText, NameKey, TrimSpace, NextPosition, Rows;
  }

  lemma AddedList(db: Db, slug: string, raw: string, count: Int64, ev: int)
    requires Valid(db) && EventBySlug(db.events, slug) == Some(ev) && TrimSpace(raw) != "" && count >= 0
    requires Tables.AddDiapers(db, slug, raw, count).1 == Ok(ev)
    ensures GuestList(Tables.AddDiapers(db, slug, raw, count).0, ev) == Cleared(Logged(GuestList(db, ev), TrimSpace(raw), count))
  {
    hide Valid, TrimSpace, NameKey, IndexOfKey, EventBySlug, Tables.AddDiapers, Cleared, GuestList, GuestIds;
    AddDiapersEffect(db, slug, raw, count, ev);
  }

  /**
   * Logging diapers leaves the copies in agreement exactly when everybody else
   * on the list is clean, and so is the new name, or the old guest with their
   * new count.
   */
  lemma AddDiapersSyncsExactly(db: Db, slug: string, raw: string, count: Int64, ev: int)
    requires Valid(db) && Tables.AddDiapers(db, slug, raw, count).1 == Ok(ev)
    ensures var db' := Tables.AddDiapers(db, slug, raw, count).0;
            ev in db'.events && (InSync(db', ev) <==> CleanToLog(GuestList(db, ev), TrimSpace(raw), count))
  {
    hide Valid, InSync, TrimSpace, NameKey, IndexOfKey, EventBySlug, Tables.AddDiapers, Logged, Cleared, AllClean, CleanToLog,
      GuestList, GuestIds;
    AddDiapersMeant(db, slug, raw, count, ev);
    AddedList(db, slug, raw, count, ev);
    GuestWriteSyncsExactly(db, AddDiapers(slug, raw, count), ev);
    GuestListIs(Tables.AddDiapers(db, slug, raw, count).0, ev);
    LoggedClean(GuestList(db, ev), TrimSpace(raw), count);
  }

  lemma UpdateGuestMeant(db: Db, slug: string, id: int, name: Option<string>, count: Option<Int64>, ev: int)
    requires Tables.UpdateGuest(db, slug, id, name, count).1 == Ok(ev)
    ensures EventBySlug(db.events, slug) == Some(ev) && id in db.guests && db.guests[id].event == ev
    ensures (name.Some? ==> TrimSpace(name.value) != "") && (count.Some? ==> count.value >= 0)
  {
    hide EventBySlug, SyncRosterText, TrimSpace, KeyTaken, Renamed;
  }

  /** Renaming or recounting: exactly when everybody else is clean, and so are the name and count this guest now has. */
  lemma UpdateGuestSyncsExactly(db: Db, slug: string, id: int, name: Option<string>, count: Option<Int64>, ev: int) returns (i: nat)
    requires Valid(db) && Tables.UpdateGuest(db, slug, id, name, count).1 == Ok(ev)
    ensures id in db.guests && i < |GuestIds(db, ev)| && GuestIds(db, ev)[i] == id
    ensures var db' := Tables.UpdateGuest(db, slug, id, name, count).0;
            && ev in db'.events
            && (InSync(db', ev) <==>
                  && CleanBut(GuestList(db, ev), i)
                  && CleanName(if name.Some? then TrimSpace(name.value) else db.guests[id].name)
                  && (if count.Some? then count.value else db.guests[id].count) >= 0)
  {
    hide Valid, InSync, RosterOf, Rows, TrimSpace, NameKey, EventBySlug, Tables.UpdateGuest, Cleared, AllClean, CleanName, CleanBut,
      GuestList, GuestIds;
    UpdateGuestMeant(db, slug, id, name, count, ev);
    i := UpdateGuestEffect(db, slug, id, name, count);
    ListLengths(db, ev);
    GuestWriteSyncsExactly(db, UpdateGuest(slug, id, name, count), ev);
    GuestListIs(Tables.UpdateGuest(db, slug, id, name, count).0, ev);
    var es := GuestList(db, ev);
    var newName := if name.Some? then TrimSpace(name.value) else db.guests[id].name;
    var e := Entry(newName, NameKey(newName), if count.Some? then count.value else db.guests[id].count, false);
    ClearedClean(es[i := e]);
    PutClean(es, i, e);
  }

  lemma ListLengths(db: Db, ev: int)
    ensures |GuestIds(db, ev)| == |GuestList(db, ev)|
  {
    hide Listing, Rows;
  }

  lemma DeleteGuestMeant(db: Db, slug: string, id: int, ev: int)
    requires Tables.DeleteGuest(db, slug, id).1 == Ok(ev)
    ensures EventBySlug(db.events, slug) == Some(ev) && id in db.guests && db.guests[id].event == ev
  {
    hide EventBySlug, SyncRosterText, Forget;
  }

  /** Deleting: exactly when everybody else is clean. */
  lemma DeleteGuestSyncsExactly(db: Db, slug: string, id: int, ev: int) returns (i: nat)
    requires Valid(db) && Tables.DeleteGuest(db, slug, id).1 == Ok(ev)
    ensures i < |GuestIds(db, ev)| && GuestIds(db, ev)[i] == id
    ensures var db' := Tables.DeleteGuest(db, slug, id).0;
            ev in db'.events && (InSync(db', ev) <==> CleanBut(GuestList(db, ev), i))
  {
    hide Valid, InSync, RosterOf, Rows, EventBySlug, Tables.DeleteGuest, Cleared, AllClean, CleanBut, GuestList, GuestIds;
    DeleteGuestMeant(db, slug, id, ev);
    i := DeleteGuestEffect(db, slug, id, ev);
    ListLengths(db, ev);
    GuestWriteSyncsExactly(db, DeleteGuest(slug, id), ev);
    GuestListIs(Tables.DeleteGuest(db, slug, id).0, ev);
    var es := GuestList(db, ev);
    ClearedClean(es[..i] + es[i + 1..]);
    TakeOutClean(es, i);
  }

  lemma SeparatorUnclean(name: string)
    requires EndsInPunct(name)
    ensures name != "" && !CleanName(name)
  {
  }

  /** Logging diapers for a new name that ends in a separator makes the copies drift, in every valid state. */
  lemma SeparatorGuestDrifts(db: Db, slug: string, raw: string, count: Int64, ev: int)
    requires Valid(db) && EventBySlug(db.events, slug) == Some(ev) && count >= 0
    requires EndsInPunct(TrimSpace(raw)) && IndexOfKey(GuestList(db, ev), NameKey(TrimSpace(raw))).None?
    ensures var (db', r) := Tables.AddDiapers(db, slug, raw, count);
            r == Ok(ev) && ev in db'.events && !InSync(db', ev)
  {
    hide Valid, InSync, TrimSpace, NameKey, IndexOfKey, EventBySlug, Tables.AddDiapers, Logged, Cleared, AllClean, CleanName,
      EndsInPunct, GuestList, GuestIds;
    SeparatorUnclean(TrimSpace(raw));
    AddDiapersEffect(db, slug, raw, count, ev);
    AddDiapersSyncsExactly(db, slug, raw, count, ev);
  }

  // ----- over a run -----

  /** The last operation before state n that committed a write to this roster. */
  function LastWrite(dbs: seq<Db>, ops: seq<Op>, n: nat, ev: int): Option<nat>
    requires n <= |ops| <= |dbs|
  {
    if n == 0 then None
    else if WritesRoster(dbs[n - 1], ops[n - 1], ev) then Some(n - 1)
    else LastWrite(dbs, ops, n - 1, ev)
  }

  lemma {:induction false} LastWriteIs(dbs: seq<Db>, ops: seq<Op>, n: nat, ev: int)
    requires n <= |ops| <= |dbs|
    ensures var k := LastWrite(dbs, ops, n, ev);
            && (k.Some? ==> k.value < n && WritesRoster(dbs[k.value], ops[k.value], ev))
            && forall j :: (if k.Some? then k.value + 1 else 0) <= j < n ==> !WritesRoster(dbs[j], ops[j], ev)
  {
    hide WritesRoster;
    if n > 0 { LastWriteIs(dbs, ops, n - 1, ev); }
  }

  lemma OnlyCreateAdds(db: Db, op: Op, ev: int)
    requires ev !in db.events && ev in Apply(db, op).0.events
    ensures op.CreateEvent?
  {
    hide EventBySlug, GuestByKey, NameKey, TrimSpace, NextPosition, Rows, KeyTaken, Renamed, Forget, Format, RosterOf, Unmerge,
      Parse, IndexOfEvent, RowIds, EntryRows, NewKeys, D.WithDiapers, Candidates, Wrap, CountTotal, NewStubs, StubAt, MovedSlug;
  }

  /** An event that has just been created has an empty text and no rows. */
  lemma NewEventInSync(db: Db, op: Op, ev: int)
    requires Valid(db) && Legal(db, op) && ev !in db.events && ev in Apply(db, op).0.events
    ensures InSync(Apply(db, op).0, ev)
  {
    hide Valid, InSync, Legal, Format, Apply, RosterOf, Rows;
    StepKeeps(db, op);
    SyncExactly(Apply(db, op).0, ev);
    OnlyCreateAdds(db, op, ev);
    CreateKeepsGuests(db, op);
    NoRowsYet(db, ev);
  }

  lemma CreateKeepsGuests(db: Db, op: Op)
    requires op.CreateEvent?
    ensures Apply(db, op).0.guests == db.guests
  {
    hide Slugify, FirstFree, Slugs, TrimSpace;
  }

  lemma NoRowsYet(db: Db, ev: int)
    requires Valid(db) && ev !in db.events
    ensures RosterOf(Rows(db.guests, ev)) == []
  {
    hide EventsOk, TextOk, DrawsOk, StubsOk, GoodEntry, Listing;
    var rows := Rows(db.guests, ev);
    assert forall id :: id in db.guests ==> db.guests[id].event != ev;
    assert rows == map[];
    NothingListed();
  }

  lemma NothingListed()
    ensures Listing(map[]) == []
  {
    assert Positions(map[]) == map[];
  }

  /** The text and the rows stand apart because of this write: it is the last one, made guest by guest, and some row is unclean. */
  predicate DriftedBy(dbs: seq<Db>, ops: seq<Op>, n: nat, ev: int, k: nat)
    requires n <= |ops| && |dbs| == |ops| + 1
  {
    && k < n && WritesRoster(dbs[k], ops[k], ev) && IsGuestWrite(ops[k])
    && (forall j :: k < j < n ==> !WritesRoster(dbs[j], ops[j], ev))
    && !AllClean(RosterOf(Rows(dbs[n].guests, ev)))
  }

  /**
   * On every run, the two copies differ if and only if the last committed
   * write to the roster came through a guest endpoint and some row cannot be
   * printed faithfully.
   */
  lemma DriftComesFromGuestWrites(dbs: seq<Db>, ops: seq<Op>, n: nat, ev: int)
    requires IsRun(dbs, ops) && n < |dbs| && ev in dbs[n].events
    ensures !InSync(dbs[n], ev) <==> exists k: nat :: DriftedBy(dbs, ops, n, ev, k)
  {
    hide IsRun, InSync, WritesRoster, AllClean, RosterOf, Rows, LastWrite;
    assert |dbs| == |ops| + 1 by { RunLength(dbs, ops); }
    LastWriteIs(dbs, ops, n, ev);
    LastWriteDecides(dbs, ops, n, ev);
    var last := LastWrite(dbs, ops, n, ev);
    if !InSync(dbs[n], ev) { assert DriftedBy(dbs, ops, n, ev, last.value); }
    if k: nat :| DriftedBy(dbs, ops, n, ev, k) { assert last == Some(k); }
  }

  lemma RunLength(dbs: seq<Db>, ops: seq<Op>)
    requires IsRun(dbs, ops)
    ensures |dbs| == |ops| + 1 && dbs[0] == EMPTY
  {
    hide Legal, Apply;
  }

  lemma {:induction false} LastWriteDecides(dbs: seq<Db>, ops: seq<Op>, n: nat, ev: int)
    requires IsRun(dbs, ops) && n < |dbs| && ev in dbs[n].events
    ensures n <= |ops|
    ensures var k := LastWrite(dbs, ops, n, ev);
            !InSync(dbs[n], ev) <==> k.Some? && k.value < |ops| && IsGuestWrite(ops[k.value])
                                     && !AllClean(RosterOf(Rows(dbs[n].guests, ev)))
  {
    hide IsRun, InSync, WritesRoster, AllClean, RosterOf, Rows, IsGuestWrite, Apply, Legal, Valid;
    RunLength(dbs, ops);
    assert n > 0;
    RunStep(dbs, ops, n - 1);
    RunValid(dbs, ops, n - 1);
    LastWriteIs(dbs, ops, n, ev);
    if ev !in dbs[n - 1].events {
      NewEventInSync(dbs[n - 1], ops[n - 1], ev);
      NeverWritten(dbs, ops, n, ev);
    } else if WritesRoster(dbs[n - 1], ops[n - 1], ev) {
      WriteDecides(dbs[n - 1], ops[n - 1], ev);
    } else {
      OtherRostersUntouched(dbs[n - 1], ops[n - 1], ev);
      SameSync(dbs[n - 1], dbs[n], ev);
      LastWriteDecides(dbs, ops, n - 1, ev);
    }
  }

  lemma RunStep(dbs: seq<Db>, ops: seq<Op>, i: nat)
    requires IsRun(dbs, ops) && i < |ops|
    ensures i + 1 < |dbs| && Legal(dbs[i], ops[i]) && dbs[i + 1] == Apply(dbs[i], ops[i]).0
  {
    hide Legal, Apply;
  }

  lemma SameSync(a: Db, b: Db, ev: int)
    requires ev in a.events && ev in b.events
    requires Rows(a.guests, ev) == Rows(b.guests, ev) && a.events[ev].rosterText == b.events[ev].rosterText
    ensures InSync(a, ev) <==> InSync(b, ev)
  {
    hide Rows, RosterOf, Parse;
  }

  /** Only existing events are written to, and an event that is gone does not come back. */
  lemma NeverWritten(dbs: seq<Db>, ops: seq<Op>, n: nat, ev: int)
    requires IsRun(dbs, ops) && 0 < n < |dbs| && ev !in dbs[n - 1].events && ev in dbs[n].events
    ensures n <= |ops| && LastWrite(dbs, ops, n, ev).None?
  {
    hide IsRun, WritesRoster, Apply, Legal;
    RunLength(dbs, ops);
    LastWriteIs(dbs, ops, n, ev);
    var k := LastWrite(dbs, ops, n, ev);
    if k.Some? {
      WriteNeedsEvent(dbs[k.value], ops[k.value], ev);
      EventPersists(dbs, ops, k.value, n - 1, n, ev);
    }
  }

  lemma WriteNeedsEvent(db: Db, op: Op, ev: int)
    requires WritesRoster(db, op, ev)
    ensures ev in db.events
  {
    hide GuestByKey, SyncRosterText, NameKey, TrimSpace, NextPosition, Rows, KeyTaken, Renamed, Forget, Parse, IndexOfEvent, RowIds,
      EntryRows, NewKeys, EventBySlug;
  }

  /** A committed write leaves the copies apart exactly when it was guest by guest and some row is unclean. */
  lemma WriteDecides(db: Db, op: Op, ev: int)
    requires Valid(db) && WritesRoster(db, op, ev)
    ensures var db' := Apply(db, op).0;
            && ev in db'.events
            && (!InSync(db', ev) <==> IsGuestWrite(op) && !AllClean(RosterOf(Rows(db'.guests, ev))))
  {
    hide Valid, InSync, AllClean, RosterOf, Rows, Tables.ReplaceRoster, Tables.AddDiapers, Tables.UpdateGuest, Tables.DeleteGuest;
    if op.ReplaceRoster? {
      ReplaceFindsEvent(db, op.slug, op.text, ev);
      SavingTextSyncs(db, op.slug, op.text, ev);
    } else {
      GuestWriteSyncsExactly(db, op, ev);
    }
  }

  lemma ReplaceFindsEvent(db: Db, slug: string, text: string, ev: int)
    requires Tables.ReplaceRoster(db, slug, text).1 == Ok(ev)
    ensures EventBySlug(db.events, slug) == Some(ev)
  {
    hide EventBySlug, Parse, IndexOfEvent, RowIds, EntryRows, NewKeys, Forget, Rows;
  }

  // ----- a drift that happens -----

  lemma FoundBySlug(db: Db, ev: int)
    requires Valid(db) && ev in db.events
    ensures EventBySlug(db.events, db.events[ev].slug) == Some(ev)
  {
    hide GuestsOk, TextOk, DrawsOk, StubsOk, SlugShape;
    var slug := db.events[ev].slug;
    var matching := map id | id in db.events && db.events[id].slug == slug :: 0;
    assert ev in matching;
    var found := EventBySlug(db.events, slug);
    var id: int := found.value;
    assert id in db.events && db.events[id].slug == slug;
  }

  lemma FirstEvent(name: string) returns (db: Db, ev: int)
    requires TrimSpace(name) != ""
    ensures var create := CreateEvent(name, "", 1);
            db == Apply(EMPTY, create).0 && Legal(EMPTY, create) && Valid(db) && ev in db.events && db.guests == map[]
  {
    hide Tables.CreateEvent, TrimSpace, Valid, EventEffects.Placed, EventEffects.SlugBase, EventEffects.AllTaken;
    EmptyIsValid();
    var create := CreateEvent(name, "", 1);
    EventEffects.CreateEventExactly(EMPTY, name, "", 1);
    if EventEffects.AllTaken(EMPTY.events, EventEffects.SlugBase(TrimSpace(name), "")) {
      EventEffects.FewEventsLeaveRoom(EMPTY.events, EventEffects.SlugBase(TrimSpace(name), ""));
    }
    StepKeeps(EMPTY, create);
    db, ev := Apply(EMPTY, create).0, Apply(EMPTY, create).1.value;
  }

  lemma RunOfTwo(a: Op, b: Op) returns (dbs: seq<Db>, ops: seq<Op>)
    requires Legal(EMPTY, a) && Legal(Apply(EMPTY, a).0, b)
    ensures IsRun(dbs, ops) && |dbs| == 3 && dbs[2] == Apply(Apply(EMPTY, a).0, b).0
  {
    hide Legal, Apply;
    dbs, ops := [EMPTY, Apply(EMPTY, a).0, Apply(Apply(EMPTY, a).0, b).0], [a, b];
  }

  /** Two requests are enough: create an event, then log diapers for a guest whose name ends in a separator. */
  lemma DriftIsReachable(name: string, raw: string, count: Int64) returns (dbs: seq<Db>, ops: seq<Op>, ev: int)
    requires TrimSpace(name) != "" && EndsInPunct(TrimSpace(raw)) && count >= 0
    ensures IsRun(dbs, ops) && |dbs| == 3 && ev in dbs[2].events && !InSync(dbs[2], ev)
  {
    hide Valid, InSync, IsRun, Tables.CreateEvent, Tables.AddDiapers, TrimSpace, EndsInPunct, GuestList, NameKey, IndexOfKey;
    var db;
    db, ev := FirstEvent(name);
    FoundBySlug(db, ev);
    NobodyListed(db, ev, NameKey(TrimSpace(raw)));
    SeparatorGuestDrifts(db, db.events[ev].slug, raw, count, ev);
    dbs, ops := RunOfTwo(CreateEvent(name, "", 1), AddDiapers(db.events[ev].slug, raw, count));
  }

  lemma NobodyListed(db: Db, ev: int, key: string)
    requires db.guests == map[]
    ensures IndexOfKey(GuestList(db, ev), key).None?
  {
    hide Listing, IndexOfKey;
    assert Rows(db.guests, ev) == map[];
    NothingListed();
  }
}
