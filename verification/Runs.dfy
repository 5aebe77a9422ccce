/** Claims about whole runs of the store, from an empty database. */
module Runs {
  import opened Wrappers
  import opened Decimal
  import opened Ordering
  import opened Roster
  import opened TrailingCount
  import opened RoundTrip
  import opened Slug
  import opened Tables
  import opened Invariant
  import opened Steps
  import D = Draw
  import opened Text

  /** States and the operations between them; a failed operation leaves its state in place. */
  ghost predicate IsRun(dbs: seq<Db>, ops: seq<Op>) {
    && |dbs| == |ops| + 1 && dbs[0] == EMPTY
    && forall i :: 0 <= i < |ops| ==> Legal(dbs[i], ops[i]) && dbs[i + 1] == Apply(dbs[i], ops[i]).0
  }

  lemma {:induction false} RunValid(dbs: seq<Db>, ops: seq<Op>, i: nat)
    requires IsRun(dbs, ops) && i < |dbs|
    ensures Valid(dbs[i])
  {
    hide Valid, Apply, Legal;
    if i == 0 {
      EmptyIsValid();
    } else {
      RunValid(dbs, ops, i - 1);
      StepKeeps(dbs[i - 1], ops[i - 1]);
    }
  }

  /** Any later state of a run follows any earlier one. */
  lemma {:induction false} RunFollows(dbs: seq<Db>, ops: seq<Op>, i: nat, j: nat)
    requires IsRun(dbs, ops) && i <= j < |dbs|
    ensures Valid(dbs[i]) && Valid(dbs[j]) && Follows(dbs[i], dbs[j])
    decreases j - i
  {
    hide Valid, Apply, Legal, Follows;
    RunValid(dbs, ops, i);
    RunValid(dbs, ops, j);
    if i == j {
      FollowsSelf(dbs[i]);
    } else {
      RunFollows(dbs, ops, i, j - 1);
      StepFollows(dbs[j - 1], ops[j - 1]);
      FollowsTransitive(dbs[i], dbs[j - 1], dbs[j]);
    }
  }

  // ----- the two copies of the roster -----

  /** The stored text parses to exactly the guest rows, in order. */
  predicate InSync(db: Db, ev: int)
    requires ev in db.events
  {
    Parse(db.events[ev].rosterText) == RosterOf(Rows(db.guests, ev))
  }

  predicate SameGuests(a: seq<Entry>, b: seq<Entry>) {
    |a| == |b| && forall i :: 0 <= i < |a| ==> a[i].name == b[i].name && a[i].count == b[i].count
  }

  lemma {:induction false} RowsWellFormed(db: Db, ev: int)
    requires Valid(db) && ev in db.events
    ensures WellFormed(RosterOf(Rows(db.guests, ev)))
  {
    hide EventsOk, TextOk, DrawsOk, StubsOk, NameKey, Trimmed, Ordered, Distinct;
    var rows := Rows(db.guests, ev);
    var ids := Listing(rows);
    var es := RosterOf(rows);
    forall i | 0 <= i < |ids| ensures ids[i] in db.guests && es[i] == EntryOf(db.guests[ids[i]]) {
      assert ids[i] in ids;
    }
    forall i, j | 0 <= i < j < |es| ensures es[i].key != es[j].key {
      assert Precedes(Positions(rows), ids[i], ids[j]);
    }
  }

  /** Even without its flags, a printed roster that comes back is clean. */
  lemma BackMeansClean(es: seq<Entry>)
    requires WellFormed(es) && SameGuests(Parse(Format(es)), es)
    ensures AllClean(es)
  {
    hide Parse, Format, NameKey, EntryNameLength, Trimmed, GoodEntry;
    var back := Parse(Format(es));
    assert forall i :: 0 <= i < |es| ==> GoodEntry(es[i]);
    SameNamesSameLength(back, es);
    ParseWellFormed(Format(es));
    assert forall i :: 0 <= i < |es| ==> es[i].name == back[i].name;
    GoodEntriesUnfold(es);
    if exists i :: 0 <= i < |es| && EndsInPunct(es[i].name) {
      SeparatorNamesShrink(es);
    } else {
      CleanRoundTrip(es);
    }
  }

  lemma GoodEntriesUnfold(es: seq<Entry>)
    requires forall i :: 0 <= i < |es| ==> GoodEntry(es[i])
    ensures forall i :: 0 <= i < |es| ==> es[i].name != "" && Trimmed(es[i].name) && InInt64(es[i].count)
  {
    hide Trimmed, NameKey;
  }

  /** In a valid state the copies agree unless the text was printed from rows one of which cannot be printed faithfully. */
  lemma SyncExactly(db: Db, ev: int)
    requires Valid(db) && ev in db.events
    ensures var es := RosterOf(Rows(db.guests, ev));
            InSync(db, ev) <==> (db.events[ev].rosterText != Format(es) || AllClean(es))
  {
    hide Parse, Format, RosterOf, AllClean, EventsOk, GuestsOk, DrawsOk, StubsOk;
    var es := RosterOf(Rows(db.guests, ev));
    assert TextOkAt(db, ev);
    RowsWellFormed(db, ev);
    RoundTripExactly(es);
    if db.events[ev].rosterText == Format(es) && InSync(db, ev) {
      BackMeansClean(es);
    }
  }

  /** So on every reachable state: then, and only then, they have drifted apart. */
  lemma DriftExactly(dbs: seq<Db>, ops: seq<Op>, i: nat, ev: int)
    requires IsRun(dbs, ops) && i < |dbs| && ev in dbs[i].events
    ensures var es := RosterOf(Rows(dbs[i].guests, ev));
            InSync(dbs[i], ev) <==> (dbs[i].events[ev].rosterText != Format(es) || AllClean(es))
  {
    hide IsRun, InSync, Format, RosterOf, AllClean, Rows;
    RunValid(dbs, ops, i);
    SyncExactly(dbs[i], ev);
  }

  /** So on a run whose guest rows stay clean, text and index never disagree. */
  lemma CleanRostersNeverDrift(dbs: seq<Db>, ops: seq<Op>, i: nat, ev: int)
    requires IsRun(dbs, ops) && i < |dbs| && ev in dbs[i].events
    requires AllClean(RosterOf(Rows(dbs[i].guests, ev)))
    ensures InSync(dbs[i], ev)
  {
    hide IsRun, AllClean, InSync, RosterOf, Rows, Format;
    DriftExactly(dbs, ops, i, ev);
  }

  /** Saving the text box always brings the copies back together, whatever it holds. */
  lemma SavingTextSyncs(db: Db, slug: string, text: string, ev: int)
    requires Valid(db) && EventBySlug(db.events, slug) == Some(ev)
    ensures var (db', r) := Tables.ReplaceRoster(db, slug, text);
            r == Ok(ev) && ev in db'.events && db'.events[ev].rosterText == text && InSync(db', ev)
  {
    hide Valid, Parse, RosterOf, Rows, IndexOfEvent, RowIds, EntryRows, NewKeys, EventBySlug, Forget;
    ReplaceRosterKeeps(db, slug, text);
  }

  // ----- versions and staleness -----

  function DrawTimes(db: Db, ev: int): map<int, int> {
    map d | d in db.draws && db.draws[d].event == ev :: db.draws[d].createdAt
  }

  /** ORDER BY created_at DESC, id DESC LIMIT 1. */
  function LatestDraw(db: Db, ev: int): (r: Option<int>)
    ensures r.Some? ==> r.value in db.draws && db.draws[r.value].event == ev
  {
    var ids := Ordered(DrawTimes(db, ev));
    if ids == [] then None
    else
      assert ids[|ids| - 1] in ids;
      Some(ids[|ids| - 1])
  }

  /** The latest draw in one state is stamped with another version than the event had when it was read, in an earlier one. */
  predicate StaleAcross(seen: Db, later: Db, ev: int)
    requires ev in seen.events
  {
    var d := LatestDraw(later, ev);
    d.Some? && later.draws[d.value].rosterVersion != seen.events[ev].rosterVersion
  }

  predicate Stale(db: Db, ev: int)
    requires ev in db.events
  {
    StaleAcross(db, db, ev)
  }

  /** Under a clock that does not run backwards the latest draw is the last one recorded. */
  lemma LatestIsLast(db: Db, ev: int)
    requires DrawsOk(db)
    ensures LatestDraw(db, ev).None? ==> forall d :: d in db.draws ==> db.draws[d].event != ev
    ensures LatestDraw(db, ev).Some? ==>
      forall d :: d in db.draws && db.draws[d].event == ev ==> d <= LatestDraw(db, ev).value
  {
    hide Ordered;
    var times := DrawTimes(db, ev);
    var ids := Ordered(times);
    forall d | d in db.draws && db.draws[d].event == ev
      ensures LatestDraw(db, ev).Some? && d <= LatestDraw(db, ev).value
    {
      assert d in times && d in ids;
      var i :| 0 <= i < |ids| && ids[i] == d;
      assert i < |ids| - 1 ==> Precedes(times, ids[i], ids[|ids| - 1]);
    }
  }

  lemma EventPersists(dbs: seq<Db>, ops: seq<Op>, i: nat, k: nat, j: nat, ev: int)
    requires IsRun(dbs, ops) && i <= k <= j < |dbs| && ev in dbs[i].events && ev in dbs[j].events
    ensures ev in dbs[k].events
  {
    hide Apply, Legal, IsRun, VersionsTell, DrawsFrozen, StubsFrozen, GuestsOk, TextOk, DrawsOk, StubsOk, SlugShape;
    RunFollows(dbs, ops, i, k);
    RunFollows(dbs, ops, k, j);
    assert EventOk(dbs[i], ev);
  }

  /** How many of the operations i, ..., j-1 wrote this roster. */
  function Writes(dbs: seq<Db>, ops: seq<Op>, i: nat, j: nat, ev: int): nat
    requires i <= j <= |ops| <= |dbs|
    decreases j - i
  {
    if i == j then 0
    else Writes(dbs, ops, i, j - 1, ev) + if WritesRoster(dbs[j - 1], ops[j - 1], ev) then 1 else 0
  }

  lemma {:induction false} SomeWrite(dbs: seq<Db>, ops: seq<Op>, i: nat, j: nat, ev: int)
    requires i <= j <= |ops| <= |dbs|
    ensures Writes(dbs, ops, i, j, ev) > 0 <==> exists k :: i <= k < j && WritesRoster(dbs[k], ops[k], ev)
    decreases j - i
  {
    hide WritesRoster;
    if i < j { SomeWrite(dbs, ops, i, j - 1, ev); }
  }

  /** The version is a count of committed writes: nothing else moves it. */
  lemma {:induction false} VersionCountsWrites(dbs: seq<Db>, ops: seq<Op>, i: nat, j: nat, ev: int)
    requires IsRun(dbs, ops) && i <= j < |dbs| && ev in dbs[i].events && ev in dbs[j].events
    ensures dbs[j].events[ev].rosterVersion == dbs[i].events[ev].rosterVersion + Writes(dbs, ops, i, j, ev)
    decreases j - i
  {
    hide Apply, Legal, WritesRoster, Valid;
    if i < j {
      EventPersists(dbs, ops, i, j - 1, j, ev);
      VersionCountsWrites(dbs, ops, i, j - 1, ev);
      RunValid(dbs, ops, j - 1);
      StepVersion(dbs[j - 1], ops[j - 1], ev);
    }
  }

  /** The operation that recorded a draw. */
  lemma {:induction false} DrawnAt(dbs: seq<Db>, ops: seq<Op>, j: nat, d: int) returns (i: nat)
    requires IsRun(dbs, ops) && j < |dbs| && d in dbs[j].draws
    ensures i < j && d !in dbs[i].draws && d in dbs[i + 1].draws
  {
    hide Apply, Legal;
    if d in dbs[j - 1].draws { i := DrawnAt(dbs, ops, j - 1, d); } else { i := j - 1; }
  }

  /** Only RunDraw records draws, and it stamps them with the version it ran against. */
  lemma NewDrawStamp(db: Db, op: Op, d: int)
    requires d !in db.draws && d in Apply(db, op).0.draws
    ensures op.RunDraw? && Apply(db, op).1 == Ok(d)
    ensures var row := Apply(db, op).0.draws[d];
            row.event in db.events && row.event in Apply(db, op).0.events
            && row.rosterVersion == Apply(db, op).0.events[row.event].rosterVersion
  {
    hide EventBySlug, GuestByKey, NameKey, TrimSpace, NextPosition, Rows, KeyTaken, Parse, IndexOfEvent, RowIds, EntryRows,
      NewKeys, Forget, Format, RosterOf, FirstFree, Slugify, MovedSlug, StubAt, NewStubs, D.WithDiapers, Candidates, Unmerge;
  }

  lemma DrawEvent(db: Db, ev: int)
    requires Valid(db) && LatestDraw(db, ev).Some?
    ensures ev in db.events
  {
    hide EventsOk, GuestsOk, TextOk, StubsOk, DrawTimes;
    var d: int := LatestDraw(db, ev).value;
    assert d in db.draws;
  }

  /** The operation that recorded the draw on show, and the version it was run against. */
  lemma DrawOnShow(dbs: seq<Db>, ops: seq<Op>, n: nat, ev: int) returns (m: nat)
    requires IsRun(dbs, ops) && n < |dbs| && LatestDraw(dbs[n], ev).Some?
    ensures m < n && m < |ops| && ops[m].RunDraw? && Apply(dbs[m], ops[m]).1 == Ok(LatestDraw(dbs[n], ev).value)
    ensures ev in dbs[m].events && ev in dbs[m + 1].events && ev in dbs[n].events
    ensures dbs[n].draws[LatestDraw(dbs[n], ev).value].rosterVersion == dbs[m + 1].events[ev].rosterVersion
  {
    hide Apply, Legal, Valid, LatestDraw, IdsFresh, VersionsTell, StubsFrozen;
    var d := LatestDraw(dbs[n], ev).value;
    m := DrawnAt(dbs, ops, n, d);
    NewDrawStamp(dbs[m], ops[m], d);
    RunFollows(dbs, ops, m + 1, n);
    DrawEvent(dbs[n], ev);
    assert dbs[n].draws[d] == dbs[m + 1].draws[d];
  }

  lemma DrawingWritesNothing(db: Db, op: Op, ev: int)
    requires op.RunDraw?
    ensures !WritesRoster(db, op, ev)
  {
  }

  /**
   * The handler reads the event, and some commits later the draw. It calls the
   * page stale exactly when a roster write committed between the run of that
   * draw and the reading of the event, whichever of the two came first.
   */
  lemma TornPageStaleExactly(dbs: seq<Db>, ops: seq<Op>, i: nat, k: nat, ev: int) returns (m: nat)
    requires IsRun(dbs, ops) && i <= k < |dbs| && ev in dbs[i].events && LatestDraw(dbs[k], ev).Some?
    ensures m < k && m < |ops| && ops[m].RunDraw? && Apply(dbs[m], ops[m]).1 == Ok(LatestDraw(dbs[k], ev).value)
    ensures StaleAcross(dbs[i], dbs[k], ev)
            <==> exists w :: (if i <= m then i <= w < m else m < w < i) && w < |ops| && WritesRoster(dbs[w], ops[w], ev)
  {
    hide Apply, Legal, WritesRoster, Valid, LatestDraw;
    m := DrawOnShow(dbs, ops, k, ev);
    DrawingWritesNothing(dbs[m], ops[m], ev);
    if i <= m {
      VersionCountsWrites(dbs, ops, i, m + 1, ev);
      SomeWrite(dbs, ops, i, m + 1, ev);
    } else {
      VersionCountsWrites(dbs, ops, m + 1, i, ev);
      SomeWrite(dbs, ops, m + 1, i, ev);
    }
  }

  /**
   * So with nothing in between, the draw on screen is stale exactly when some
   * roster write committed after the operation that ran that draw. Prize counts,
   * names, links, reveals, other rosters and failed writes never cause it.
   */
  lemma StaleExactly(dbs: seq<Db>, ops: seq<Op>, n: nat, ev: int) returns (i: nat)
    requires IsRun(dbs, ops) && n < |dbs| && ev in dbs[n].events && LatestDraw(dbs[n], ev).Some?
    ensures i < n && ops[i].RunDraw? && Apply(dbs[i], ops[i]).1 == Ok(LatestDraw(dbs[n], ev).value)
    ensures Stale(dbs[n], ev) <==> exists k :: i < k < n && WritesRoster(dbs[k], ops[k], ev)
  {
    hide Apply, Legal, WritesRoster, Valid, LatestDraw;
    i := TornPageStaleExactly(dbs, ops, n, n, ev);
  }

  // ----- history -----

  /**
   * While its event exists a stub stays in place with the same name, count,
   * serial and prize; it is turned over at most once; and it points at its
   * guest exactly as long as that guest row exists.
   */
  lemma HistoryIsFrozen(dbs: seq<Db>, ops: seq<Op>, i: nat, j: nat, s: int)
    requires IsRun(dbs, ops) && i <= j < |dbs| && s in dbs[i].stubs
    ensures dbs[i].stubs[s].draw in dbs[i].draws
    ensures var ev := dbs[i].draws[dbs[i].stubs[s].draw].event;
            ev in dbs[j].events ==> s in dbs[j].stubs && StubBecomes(dbs[i].stubs[s], dbs[j].stubs[s], dbs[j].guests)
  {
    hide Apply, Legal, IsRun, VersionsTell, IdsFresh, GuestsOk, TextOk, DrawsOk, EventsOk;
    RunFollows(dbs, ops, i, j);
  }

  /** No id is ever used for a second row, in any table. */
  lemma IdsNeverReused(dbs: seq<Db>, ops: seq<Op>, i: nat, k: nat, j: nat, id: int)
    requires IsRun(dbs, ops) && i <= k <= j < |dbs|
    ensures id in dbs[i].guests && id !in dbs[k].guests ==> id !in dbs[j].guests
    ensures id in dbs[i].events && id !in dbs[k].events ==> id !in dbs[j].events
    ensures id in dbs[i].draws && id !in dbs[k].draws ==> id !in dbs[j].draws
    ensures id in dbs[i].stubs && id !in dbs[k].stubs ==> id !in dbs[j].stubs
  {
    hide Apply, Legal, IsRun, VersionsTell, DrawsFrozen, StubsFrozen, TextOk, SlugShape, GoodEntry, DistinctGuests;
    RunFollows(dbs, ops, i, k);
    RunFollows(dbs, ops, k, j);
    if id in dbs[i].events { assert EventOk(dbs[i], id); }
  }

  /** Links stay usable and unambiguous on every run. */
  lemma SlugsStayDistinct(dbs: seq<Db>, ops: seq<Op>, i: nat, a: int, b: int)
    requires IsRun(dbs, ops) && i < |dbs| && a in dbs[i].events && b in dbs[i].events && a != b
    ensures dbs[i].events[a].slug != dbs[i].events[b].slug
    ensures dbs[i].events[a].slug != "" && SlugShape(dbs[i].events[a].slug)
  {
    hide Apply, Legal, IsRun, GuestsOk, TextOk, DrawsOk, StubsOk, SlugShape;
    RunValid(dbs, ops, i);
    assert EventOk(dbs[i], a);
  }
}
