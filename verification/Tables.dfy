/**
 * The database: its rows, the selections the code makes, and what each
 * transaction leaves behind. A failed transaction leaves the database as it was.
 */
module Tables {
  import opened Wrappers
  import opened Text
  import opened Decimal
  import opened Ordering
  import opened Roster
  import opened Slug
  import D = Draw

  datatype Event = Event(slug: string, name: string, prizeCount: int, rosterText: string, rosterVersion: int)

  datatype Guest = Guest(event: int, name: string, key: string, count: int, position: int, merged: bool)

  datatype DrawRow = DrawRow(event: int, prizeCount: int, entrantCount: int, diaperTotal: int,
                             rosterVersion: int, createdAt: int)

  /** One ticket stub; `guest` is None once the guest row is gone, `revealedAt` None while face down. */
  datatype Stub = Stub(draw: int, prizeIndex: int, guest: Option<int>, name: string, count: int,
                       serial: string, revealedAt: Option<int>)

  /** The four tables by primary key, their AUTOINCREMENT sequences, and the clock. */
  datatype Db = Db(events: map<int, Event>, guests: map<int, Guest>, draws: map<int, DrawRow>, stubs: map<int, Stub>,
                   nextEvent: int, nextGuest: int, nextDraw: int, nextStub: int, clock: int)

  const EMPTY: Db := Db(map[], map[], map[], map[], 1, 1, 1, 1, 0)

  const MAX_PRIZES := 20

  // ----- selections -----

  /** The id SELECT returns for a set of matching rows. */
  function FirstId(matching: map<int, int>): (r: Option<int>)
    ensures r.Some? <==> matching != map[]
    ensures r.Some? ==> r.value in matching
  {
    if matching == map[] then None else Some(First(matching))
  }

  function EventBySlug(events: map<int, Event>, slug: string): (r: Option<int>)
    ensures r.Some? ==> r.value in events && events[r.value].slug == slug
  {
    FirstId(map id | id in events && events[id].slug == slug :: 0)
  }

  function Slugs(events: map<int, Event>): set<string> { set id | id in events :: events[id].slug }

  /** The guests of one event. */
  function Rows(guests: map<int, Guest>, ev: int): (rows: map<int, Guest>) {
    map id | id in guests && guests[id].event == ev :: guests[id]
  }

  function Positions(rows: map<int, Guest>): map<int, int> { map id | id in rows :: rows[id].position }

  /** ORDER BY position, id. */
  function Listing(rows: map<int, Guest>): (ids: seq<int>)
    ensures forall x :: x in ids <==> x in rows
  {
    Ordered(Positions(rows))
  }

  function EntryOf(g: Guest): Entry { Entry(g.name, g.key, g.count, g.merged) }

  /** The guest rows in order, as roster entries. */
  function RosterOf(rows: map<int, Guest>): (es: seq<Entry>)
    ensures |es| == |Listing(rows)|
    ensures forall i :: 0 <= i < |es| ==> es[i] == EntryOf(rows[Listing(rows)[i]])
  {
    var ids := Listing(rows);
    seq(|ids|, i requires 0 <= i < |ids| => EntryOf(rows[ids[i]]))
  }

  function Candidates(rows: map<int, Guest>): (pool: seq<D.Candidate>)
    ensures |pool| == |Listing(rows)|
    ensures forall i :: 0 <= i < |pool| ==>
      pool[i] == D.Candidate(Listing(rows)[i], rows[Listing(rows)[i]].name, rows[Listing(rows)[i]].count)
  {
    var ids := Listing(rows);
    seq(|ids|, i requires 0 <= i < |ids| => D.Candidate(ids[i], rows[ids[i]].name, rows[ids[i]].count))
  }

  function GuestByKey(guests: map<int, Guest>, ev: int, key: string): (r: Option<int>)
    ensures r.Some? ==> r.value in guests && guests[r.value].event == ev && guests[r.value].key == key
  {
    FirstId(map id | id in guests && guests[id].event == ev && guests[id].key == key :: 0)
  }

  /** The guest rows by key, later rows replacing earlier ones. */
  function KeyIndex(rows: map<int, Guest>, ids: seq<int>): map<string, int>
    requires forall i :: 0 <= i < |ids| ==> ids[i] in rows
  {
    if ids == [] then map[] else KeyIndex(rows, ids[..|ids| - 1])[rows[ids[|ids| - 1]].key := ids[|ids| - 1]]
  }

  /** COALESCE(MAX(position) + 1, 0). */
  function NextPosition(rows: map<int, Guest>): int {
    var ids := Listing(rows);
    if ids == [] then 0 else rows[ids[|ids| - 1]].position + 1
  }

  /** What UNIQUE (event_id, name_key) refuses. */
  predicate KeyTaken(guests: map<int, Guest>, ev: int, key: string, except: int) {
    exists id :: id in guests && id != except && guests[id].event == ev && guests[id].key == key
  }

  function StubAt(stubs: map<int, Stub>, draw: int, prize: int): (r: Option<int>)
    ensures r.Some? ==> r.value in stubs && stubs[r.value].draw == draw && stubs[r.value].prizeIndex == prize
  {
    FirstId(map id | id in stubs && stubs[id].draw == draw && stubs[id].prizeIndex == prize :: 0)
  }

  // ----- roster writes -----

  function WithRoster(db: Db, ev: int, text: string): Db
    requires ev in db.events
  {
    var e := db.events[ev];
    db.(events := db.events[ev := e.(rosterText := text, rosterVersion := e.rosterVersion + 1)])
  }

  function Unmerge(guests: map<int, Guest>, ev: int): map<int, Guest> {
    map id | id in guests :: if guests[id].event == ev then guests[id].(merged := false) else guests[id]
  }

  /** Regenerates the stored text from the guest rows. */
  function SyncRosterText(db: Db, ev: int): Db
    requires ev in db.events
  {
    WithRoster(db, ev, Format(RosterOf(Rows(db.guests, ev)))).(guests := Unmerge(db.guests, ev))
  }

  /** ON DELETE SET NULL. */
  function Forget(stubs: map<int, Stub>, gone: set<int>): map<int, Stub> {
    map id | id in stubs ::
      if stubs[id].guest.Some? && stubs[id].guest.value in gone then stubs[id].(guest := None) else stubs[id]
  }

  /** How many of the entries have no row yet. */
  function NewKeys(es: seq<Entry>, index: map<string, int>): (n: nat)
    ensures n <= |es|
  {
    if es == [] then 0 else NewKeys(es[..|es| - 1], index) + if es[|es| - 1].key in index then 0 else 1
  }

  /** The row each entry goes to: its key's, or the next fresh id. */
  function RowIds(es: seq<Entry>, index: map<string, int>, next: int): (ids: seq<int>)
    ensures |ids| == |es|
  {
    if es == [] then []
    else
      var init, last := es[..|es| - 1], es[|es| - 1];
      RowIds(init, index, next) + [if last.key in index then index[last.key] else next + NewKeys(init, index)]
  }

  function RowFor(ev: int, e: Entry, position: int): Guest { Guest(ev, e.name, e.key, e.count, position, e.merged) }

  /** Entry i at position i, in row ids[i]. */
  function EntryRows(ev: int, es: seq<Entry>, ids: seq<int>): map<int, Guest>
    requires |ids| == |es|
  {
    if es == [] then map[]
    else
      var n := |es| - 1;
      EntryRows(ev, es[..n], ids[..n])[ids[n] := RowFor(ev, es[n], n)]
  }

  function IndexOfEvent(db: Db, ev: int): map<string, int> {
    var rows := Rows(db.guests, ev);
    KeyIndex(rows, Listing(rows))
  }

  function ReplaceRoster(db: Db, slug: string, text: string): (Db, Result<int>) {
    var found := EventBySlug(db.events, slug);
    if found.None? then (db, Err(NotFound))
    else
      var ev := found.value;
      var es := Parse(text);
      var index := IndexOfEvent(db, ev);
      var ids := RowIds(es, index, db.nextGuest);
      var kept := EntryRows(ev, es, ids);
      var leavers := Rows(db.guests, ev).Keys - kept.Keys;
      (WithRoster(db, ev, text).(guests := (db.guests - leavers) + kept,
                                 stubs := Forget(db.stubs, leavers),
                                 nextGuest := db.nextGuest + NewKeys(es, index)),
       Ok(ev))
  }

  function AddDiapers(db: Db, slug: string, raw: string, count: Int64): (Db, Result<int>) {
    var name := TrimSpace(raw);
    if name == "" || count < 0 then (db, Err(Invalid))
    else
      var found := EventBySlug(db.events, slug);
      if found.None? then (db, Err(NotFound))
      else
        var ev := found.value;
        var key := NameKey(name);
        var guest := GuestByKey(db.guests, ev, key);
        if guest.None? then
          var row := Guest(ev, name, key, count, NextPosition(Rows(db.guests, ev)), false);
          (SyncRosterText(db.(guests := db.guests[db.nextGuest := row], nextGuest := db.nextGuest + 1), ev), Ok(ev))
        else
          var row := db.guests[guest.value];
          // SQLite turns an overflowing sum into a float, which the re-read of the row rejects.
          if row.count + count > MAX_INT64 then (db, Err(Internal))
          else (SyncRosterText(db.(guests := db.guests[guest.value := row.(count := row.count + count)]), ev), Ok(ev))
  }

  function Renamed(row: Guest, name: Option<string>, count: Option<Int64>): Guest {
    var r := if name.Some? then row.(name := TrimSpace(name.value), key := NameKey(TrimSpace(name.value))) else row;
    if count.Some? then r.(count := count.value) else r
  }

  function UpdateGuest(db: Db, slug: string, id: int, name: Option<string>, count: Option<Int64>): (Db, Result<int>) {
    var found := EventBySlug(db.events, slug);
    if found.None? then (db, Err(NotFound))
    else
      var ev := found.value;
      if id !in db.guests || db.guests[id].event != ev then (db, Err(NotFound))
      else if name.Some? && TrimSpace(name.value) == "" then (db, Err(Invalid))
      else if count.Some? && count.value < 0 then (db, Err(Invalid))
      else
        var row := Renamed(db.guests[id], name, count);
        if KeyTaken(db.guests, ev, row.key, id) then (db, Err(Conflict))
        else (SyncRosterText(db.(guests := db.guests[id := row]), ev), Ok(ev))
  }

  function DeleteGuest(db: Db, slug: string, id: int): (Db, Result<int>) {
    var found := EventBySlug(db.events, slug);
    if found.None? then (db, Err(NotFound))
    else
      var ev := found.value;
      if id !in db.guests || db.guests[id].event != ev then (db, Err(NotFound))
      else (SyncRosterText(db.(guests := db.guests - {id}, stubs := Forget(db.stubs, {id})), ev), Ok(ev))
  }

  // ----- draws -----

  /** A winner with the serial printed on the stub. */
  datatype Pick = Pick(winner: D.Candidate, serial: string)

  function StubFor(draw: int, prize: int, p: Pick): Stub {
    Stub(draw, prize, Some(p.winner.id), p.winner.name, p.winner.count, p.serial, None)
  }

  /** Face-down stubs for the picks, with ids from `next` and prize indices from 0. */
  function NewStubs(draw: int, picks: seq<Pick>, next: int): (m: map<int, Stub>)
    ensures forall id :: id in m <==> next <= id < next + |picks|
    ensures forall id :: id in m ==> m[id] == StubFor(draw, id - next, picks[id - next])
  {
    if picks == [] then map[]
    else
      var n := |picks| - 1;
      NewStubs(draw, picks[..n], next)[next + n := StubFor(draw, n, picks[n])]
  }

  function CountTotal(pool: seq<D.Candidate>): int {
    if pool == [] then 0 else CountTotal(pool[..|pool| - 1]) + pool[|pool| - 1].count
  }

  /** The tables after one draw row and its stubs are inserted. */
  function Recorded(db: Db, row: DrawRow, picks: seq<Pick>): Db {
    Db(db.events, db.guests, db.draws[db.nextDraw := row], db.stubs + NewStubs(db.nextDraw, picks, db.nextStub),
       db.nextEvent, db.nextGuest, db.nextDraw + 1, db.nextStub + |picks|, db.clock)
  }

  function RunDraw(db: Db, slug: string, picks: seq<Pick>): (Db, Result<int>) {
    var found := EventBySlug(db.events, slug);
    if found.None? then (db, Err(NotFound))
    else
      var ev := found.value;
      var eligible := D.WithDiapers(Candidates(Rows(db.guests, ev)));
      if |eligible| == 0 then (db, Err(Invalid))
      else
        var e := db.events[ev];
        var row := DrawRow(ev, e.prizeCount, |eligible|, Wrap(CountTotal(eligible)), e.rosterVersion, db.clock);
        (Recorded(db, row, picks), Ok(db.nextDraw))
  }

  function RevealWinner(db: Db, draw: int, prize: int): (Db, Result<int>) {
    var found := StubAt(db.stubs, draw, prize);
    if found.None? then (db, Err(NotFound))
    else
      var s := db.stubs[found.value];
      if s.revealedAt.Some? then (db, Ok(found.value))
      else (db.(stubs := db.stubs[found.value := s.(revealedAt := Some(db.clock))]), Ok(found.value))
  }

  // ----- events -----

  function CreateEvent(db: Db, rawName: string, rawSlug: string, prizes: int): (Db, Result<int>) {
    var name := TrimSpace(rawName);
    var prizeCount := if prizes <= 0 then 3 else prizes;
    if name == "" || prizeCount > MAX_PRIZES then (db, Err(Invalid))
    else
      var base := if Slugify(rawSlug) != "" then Slugify(rawSlug)
                  else if Slugify(name) != "" then Slugify(name) else "raffle";
      var free := FirstFree(Slugs(db.events), base, 1);
      if free.None? then (db, Err(Conflict))
      else
        (db.(events := db.events[db.nextEvent := Event(free.value, name, prizeCount, "", 0)],
             nextEvent := db.nextEvent + 1),
         Ok(db.nextEvent))
  }

  /** The link an update asks for: unchanged, a free slug, or why not. */
  function MovedSlug(events: map<int, Event>, current: string, asked: Option<string>): Result<string> {
    if asked.None? then Ok(current)
    else
      var wanted := Slugify(asked.value);
      if wanted == "" then Err(Invalid)
      else if wanted == current then Ok(current)
      else
        var free := FirstFree(Slugs(events), wanted, 1);
        if free.Some? then Ok(free.value) else Err(Conflict)
  }

  function UpdateEvent(db: Db, slug: string, name: Option<string>, newSlug: Option<string>, prizes: Option<int>)
    : (Db, Result<int>)
  {
    var found := EventBySlug(db.events, slug);
    if found.None? then (db, Err(NotFound))
    else
      var e := db.events[found.value];
      if name.Some? && TrimSpace(name.value) == "" then (db, Err(Invalid))
      else if prizes.Some? && !(0 < prizes.value <= MAX_PRIZES) then (db, Err(Invalid))
      else
        var moved := MovedSlug(db.events, e.slug, newSlug);
        if moved.Err? then (db, Err(moved.error))
        else
          var e' := Event(moved.value, if name.Some? then TrimSpace(name.value) else e.name,
                          if prizes.Some? then prizes.value else e.prizeCount, e.rosterText, e.rosterVersion);
          (db.(events := db.events[found.value := e']), Ok(found.value))
  }

  /** The tables without an event, its roster and its history (ON DELETE CASCADE, ON DELETE SET NULL). */
  function Without(db: Db, ev: int): Db {
    var draws := set d | d in db.draws && db.draws[d].event == ev;
    var guests := Rows(db.guests, ev).Keys;
    var stubs := set s | s in db.stubs && db.stubs[s].draw in draws;
    db.(events := db.events - {ev}, guests := db.guests - guests, draws := db.draws - draws,
        stubs := Forget(db.stubs - stubs, guests))
  }

  function DeleteEvent(db: Db, slug: string): (Db, Result<int>) {
    var found := EventBySlug(db.events, slug);
    if found.None? then (db, Err(NotFound)) else (Without(db, found.value), Ok(found.value))
  }
}
