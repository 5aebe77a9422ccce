/**
 * The login attempt limiter: per caller, a count of wrong passwords and the
 * time the count began. Times are nanoseconds; every call holds the mutex, so
 * the clock readings of successive calls never go back.
 */
module Limiter {
  import opened Wrappers

  const MAX_ATTEMPTS := 8
  const WINDOW := 900_000_000_000
  const SWEEP_ABOVE := 1024

  datatype Record = Record(count: int, first: int)

  predicate Expired(r: Record, now: int) { now - r.first > WINDOW }

  // ----- what each call does -----

  function Allowed(entries: map<string, Record>, caller: string, now: int): (map<string, Record>, bool) {
    if caller !in entries then (entries, true)
    else if Expired(entries[caller], now) then (entries - {caller}, true)
    else (entries, entries[caller].count < MAX_ATTEMPTS)
  }

  function Swept(entries: map<string, Record>, now: int): map<string, Record> {
    map k | k in entries && !Expired(entries[k], now) :: entries[k]
  }

  /** `now` is the reading the expiry test uses and `until` the call's last; a limiter may also never sweep. */
  function Failed(entries: map<string, Record>, caller: string, now: int, until: int, sweepAbove: Option<nat>)
    : map<string, Record>
  {
    if caller !in entries || Expired(entries[caller], now) then entries[caller := Record(1, until)]
    else
      var r := entries[caller];
      var more := entries[caller := r.(count := r.count + 1)];
      if sweepAbove.Some? && |more| > sweepAbove.value then Swept(more, until) else more
  }

  class AttemptLimiter {
    var entries: map<string, Record>

    constructor ()
      ensures entries == map[]
    {
      entries := map[];
    }

    method Allow(caller: string, now: int) returns (ok: bool)
      modifies this
      ensures (entries, ok) == Allowed(old(entries), caller, now)
    {
      if caller !in entries {
        return true;
      }
      var rec := entries[caller];
      if now - rec.first > WINDOW {
        entries := entries - {caller};
        return true;
      }
      return rec.count < MAX_ATTEMPTS;
    }

    method Fail(caller: string, now: int, until: int)
      modifies this
      ensures entries == Failed(old(entries), caller, now, until, Some(SWEEP_ABOVE))
    {
      if caller !in entries || now - entries[caller].first > WINDOW {
        entries := entries[caller := Record(1, until)];
        return;
      }
      var rec := entries[caller];
      entries := entries[caller := rec.(count := rec.count + 1)];
      if |entries| > SWEEP_ABOVE {
        Sweep(until);
      }
    }

    method Sweep(now: int)
      modifies this
      ensures entries == Swept(old(entries), now)
    {
      var todo := entries.Keys;
      while todo != {}
        invariant todo <= old(entries).Keys
        invariant entries == map k | k in old(entries) && (k in todo || !Expired(old(entries)[k], now)) :: old(entries)[k]
        decreases |todo|
      {
        var k :| k in todo;
        todo := todo - {k};
        if now - entries[k].first > WINDOW {
          entries := entries - {k};
        }
      }
    }

    method Succeed(caller: string)
      modifies this
      ensures entries == old(entries) - {caller}
    {
      entries := entries - {caller};
    }
  }

  // ----- histories -----

  datatype Call =
    | Allow(caller: string, at: int)
    | Fail(caller: string, at: int, until: int)
    | Succeed(caller: string, at: int)
  {
    function End(): int { if Fail? then until else at }
  }

  function Do(entries: map<string, Record>, call: Call, sweepAbove: Option<nat>): map<string, Record> {
    match call
    case Allow(c, now) => Allowed(entries, c, now).0
    case Fail(c, now, until) => Failed(entries, c, now, until, sweepAbove)
    case Succeed(c, now) => entries - {c}
  }

  function After(calls: seq<Call>, sweepAbove: Option<nat>): map<string, Record> {
    if calls == [] then map[] else Do(After(calls[..|calls| - 1], sweepAbove), calls[|calls| - 1], sweepAbove)
  }

  /** No clock reading is earlier than one before it. */
  predicate Timed(calls: seq<Call>) {
    && (forall i :: 0 <= i < |calls| ==> calls[i].at <= calls[i].End())
    && (forall i, j :: 0 <= i < j < |calls| ==> calls[i].End() <= calls[j].at)
  }

  /** The caller's last call was an Allow that said yes. */
  predicate Cleared(calls: seq<Call>, x: string, sweepAbove: Option<nat>) {
    calls != [] &&
    var init, c := calls[..|calls| - 1], calls[|calls| - 1];
    if c.caller == x then c.Allow? && Allowed(After(init, sweepAbove), x, c.at).1 else Cleared(init, x, sweepAbove)
  }

  /** The order the login handler calls the limiter in, one login of this caller at a time. */
  predicate Serial(calls: seq<Call>, x: string, sweepAbove: Option<nat>) {
    forall i :: 0 <= i < |calls| && calls[i].caller == x && !calls[i].Allow? ==> Cleared(calls[..i], x, sweepAbove)
  }

  // ----- what the limiter is for -----

  /** The record once one more wrong password is counted. */
  function Counted(r: Option<Record>, now: int, until: int): Record {
    if r.None? || Expired(r.value, now) then Record(1, until) else r.value.(count := r.value.count + 1)
  }

  /** The caller's record, were it never forgotten; it depends on nobody else's calls and on no Allow. */
  function TrueRecord(calls: seq<Call>, x: string): Option<Record> {
    if calls == [] then None
    else
      var before, c := TrueRecord(calls[..|calls| - 1], x), calls[|calls| - 1];
      if c.caller != x || c.Allow? then before
      else if c.Succeed? then None
      else Some(Counted(before, c.at, c.until))
  }

  /** Fewer than eight wrong passwords on a record that still counts. */
  predicate MayTry(r: Option<Record>, now: int) {
    r.None? || Expired(r.value, now) || r.value.count < MAX_ATTEMPTS
  }

  /** The stored record is the true one, or missing because that one has expired. */
  predicate Tracks(entries: map<string, Record>, r: Option<Record>, x: string, now: int) {
    if x in entries then r == Some(entries[x]) else r.None? || Expired(r.value, now)
  }

  lemma TimedInit(calls: seq<Call>)
    requires Timed(calls) && calls != []
    ensures Timed(calls[..|calls| - 1])
  {
  }

  lemma TrackStep(entries: map<string, Record>, calls: seq<Call>, x: string, sweepAbove: Option<nat>)
    requires calls != [] && calls[|calls| - 1].at <= calls[|calls| - 1].End()
    requires Tracks(entries, TrueRecord(calls[..|calls| - 1], x), x, calls[|calls| - 1].at)
    ensures Tracks(Do(entries, calls[|calls| - 1], sweepAbove), TrueRecord(calls, x), x, calls[|calls| - 1].End())
  {
  }

  lemma TracksLater(entries: map<string, Record>, r: Option<Record>, x: string, now: int, later: int)
    requires Tracks(entries, r, x, now) && now <= later
    ensures Tracks(entries, r, x, later)
  {
  }

  lemma {:induction false} EntriesTrack(calls: seq<Call>, x: string, now: int, sweepAbove: Option<nat>)
    requires Timed(calls) && (calls != [] ==> calls[|calls| - 1].End() <= now)
    ensures Tracks(After(calls, sweepAbove), TrueRecord(calls, x), x, now)
  {
    hide TrueRecord, Do, Tracks;
    if calls == [] {
      assert Tracks(map[], TrueRecord([], x), x, now) by { NothingTracked(x, now); }
    } else {
      var init, c := calls[..|calls| - 1], calls[|calls| - 1];
      TimedInit(calls);
      EntriesTrack(init, x, c.at, sweepAbove);
      TrackStep(After(init, sweepAbove), calls, x, sweepAbove);
      TracksLater(After(calls, sweepAbove), TrueRecord(calls, x), x, c.End(), now);
    }
  }

  lemma NothingTracked(x: string, now: int)
    ensures Tracks(map[], TrueRecord([], x), x, now)
  {
  }

  /**
   * An answer depends only on the caller's own failures and successes: not on
   * other callers, not on earlier questions, and not on when or whether the
   * limiter sweeps.
   */
  lemma AnswerIsOwnRecord(calls: seq<Call>, x: string, now: int, sweepAbove: Option<nat>)
    requires Timed(calls) && (calls != [] ==> calls[|calls| - 1].End() <= now)
    ensures Allowed(After(calls, sweepAbove), x, now).1 == MayTry(TrueRecord(calls, x), now)
  {
    hide After, TrueRecord, Timed;
    EntriesTrack(calls, x, now, sweepAbove);
  }

  /** The opportunistic sweep never changes an answer. */
  lemma SweepIsInvisible(calls: seq<Call>, x: string, now: int)
    requires Timed(calls) && (calls != [] ==> calls[|calls| - 1].End() <= now)
    ensures Allowed(After(calls, Some(SWEEP_ABOVE)), x, now).1 == Allowed(After(calls, None), x, now).1
  {
    hide After, TrueRecord, Timed, Allowed;
    AnswerIsOwnRecord(calls, x, now, Some(SWEEP_ABOVE));
    AnswerIsOwnRecord(calls, x, now, None);
  }

  /**
   * What is kept in memory: a question drops the caller's record once fifteen
   * minutes are over, and a further wrong password leaves no record older than
   * that if more than 1024 are left. Records still in force stay either way.
   */
  lemma OldRecordsGo(entries: map<string, Record>, x: string, now: int, until: int)
    ensures var kept := Allowed(entries, x, now).0;
            && (x in kept ==> now - kept[x].first <= 900_000_000_000)
            && (forall k :: k in kept ==> k in entries && kept[k] == entries[k])
            && (forall k :: k in entries && k !in kept ==> k == x && now - entries[k].first > 900_000_000_000)
    ensures var kept := Failed(entries, x, now, until, Some(SWEEP_ABOVE));
            x in entries && now - entries[x].first <= 900_000_000_000 ==>
              && (|kept| > 1024 ==> forall k :: k in kept ==> until - kept[k].first <= 900_000_000_000)
              && (forall k :: k in kept && k != x ==> k in entries && kept[k] == entries[k])
              && (forall k :: k in entries && k !in kept ==> until - entries[k].first > 900_000_000_000)
  {
  }

  // ----- the sliding window -----

  /** How many wrong passwords of caller x were recorded from lo to hi. */
  function Wrong(calls: seq<Call>, x: string, lo: int, hi: int): nat {
    if calls == [] then 0
    else
      var c := calls[|calls| - 1];
      Wrong(calls[..|calls| - 1], x, lo, hi) + if c.Fail? && c.caller == x && lo <= c.at <= hi then 1 else 0
  }

  /** The caller did not sign in from lo to hi. */
  predicate NoSuccess(calls: seq<Call>, x: string, lo: int, hi: int) {
    forall i :: 0 <= i < |calls| && calls[i] == Succeed(x, calls[i].at) ==> !(lo <= calls[i].at <= hi)
  }

  lemma {:induction false} ClearedMayTry(calls: seq<Call>, x: string, now: int, sweepAbove: Option<nat>)
    requires Timed(calls) && Cleared(calls, x, sweepAbove) && (calls != [] ==> calls[|calls| - 1].End() <= now)
    ensures MayTry(TrueRecord(calls, x), now)
  {
    hide After;
    var init, c := calls[..|calls| - 1], calls[|calls| - 1];
    TimedInit(calls);
    if c.caller == x {
      AnswerIsOwnRecord(init, x, c.at, sweepAbove);
    } else {
      ClearedMayTry(init, x, now, sweepAbove);
    }
  }

  /** Serial logins never count more than eight wrong passwords on one record. */
  lemma {:induction false} EightPerRecord(calls: seq<Call>, x: string, sweepAbove: Option<nat>)
    requires Timed(calls) && Serial(calls, x, sweepAbove)
    ensures TrueRecord(calls, x).Some? ==> 1 <= TrueRecord(calls, x).value.count <= MAX_ATTEMPTS
  {
    hide Cleared;
    if calls != [] {
      var init, c := calls[..|calls| - 1], calls[|calls| - 1];
      TimedInit(calls);
      SerialInit(calls, x, sweepAbove);
      EightPerRecord(init, x, sweepAbove);
      if c.caller == x && c.Fail? { ClearedMayTry(init, x, c.at, sweepAbove); }
    }
  }

  /** How far the count can have got, given the caller's record. */
  predicate Budget(r: Option<Record>, wrong: nat, lo: int, now: int) {
    && (wrong > 0 ==> lo <= now)
    && match r
       case None => wrong == 0
       case Some(r) =>
         && 1 <= r.count <= MAX_ATTEMPTS && r.first <= now
         && wrong <= if r.first < lo then r.count - 1 else MAX_ATTEMPTS - 1 + r.count
  }

  lemma {:induction false} BudgetKept(calls: seq<Call>, x: string, lo: int, now: int, sweepAbove: Option<nat>)
    requires Timed(calls) && Serial(calls, x, sweepAbove) && NoSuccess(calls, x, lo, lo + WINDOW)
    requires calls != [] ==> calls[|calls| - 1].End() <= now && calls[|calls| - 1].at <= lo + WINDOW
    ensures Budget(TrueRecord(calls, x), Wrong(calls, x, lo, lo + WINDOW), lo, now)
  {
    hide Cleared, MayTry;
    if calls != [] {
      var init, c := calls[..|calls| - 1], calls[|calls| - 1];
      TimedInit(calls);
      assert Serial(init, x, sweepAbove) by { SerialInit(calls, x, sweepAbove); }
      BudgetKept(init, x, lo, c.at, sweepAbove);
      if c.caller == x && c.Fail? {
        ClearedMayTry(init, x, c.at, sweepAbove);
        BudgetStep(TrueRecord(init, x), Wrong(init, x, lo, lo + WINDOW), lo, c);
      }
    }
  }

  lemma SerialInit(calls: seq<Call>, x: string, sweepAbove: Option<nat>)
    requires Serial(calls, x, sweepAbove) && calls != []
    ensures Serial(calls[..|calls| - 1], x, sweepAbove)
    ensures calls[|calls| - 1].caller == x && !calls[|calls| - 1].Allow? ==> Cleared(calls[..|calls| - 1], x, sweepAbove)
  {
    hide Cleared;
    var init := calls[..|calls| - 1];
    forall i | 0 <= i < |init| && init[i].caller == x && !init[i].Allow? ensures Cleared(init[..i], x, sweepAbove) {
      assert init[..i] == calls[..i];
    }
  }

  lemma BudgetStep(r: Option<Record>, wrong: nat, lo: int, c: Call)
    requires c.Fail? && c.at <= c.until && c.at <= lo + WINDOW && MayTry(r, c.at) && Budget(r, wrong, lo, c.at)
    ensures Budget(Some(Counted(r, c.at, c.until)), wrong + if lo <= c.at <= lo + WINDOW then 1 else 0, lo, c.until)
  {
  }

  /**
   * Whatever anybody does: if a caller logs in one attempt at a time and does
   * not succeed, any fifteen minutes see at most fifteen wrong passwords.
   */
  lemma {:induction false} AtMostFifteen(calls: seq<Call>, x: string, lo: int, sweepAbove: Option<nat>)
    requires Timed(calls) && Serial(calls, x, sweepAbove) && NoSuccess(calls, x, lo, lo + 900_000_000_000)
    ensures Wrong(calls, x, lo, lo + 900_000_000_000) <= 15
  {
    hide Cleared, TrueRecord;
    if calls != [] {
      var init, c := calls[..|calls| - 1], calls[|calls| - 1];
      if c.at <= lo + WINDOW {
        BudgetKept(calls, x, lo, c.End(), sweepAbove);
      } else {
        TimedInit(calls);
        SerialInit(calls, x, sweepAbove);
        AtMostFifteen(init, x, lo, sweepAbove);
      }
    }
  }

  // ----- the bound is reached -----

  /** k logins at time t, each with a wrong password. */
  function Burst(x: string, t: int, k: nat): (calls: seq<Call>)
    ensures |calls| == 2 * k
    ensures forall i :: 0 <= i < |calls| ==> calls[i].caller == x && calls[i].at == t == calls[i].End() && !calls[i].Succeed?
  {
    if k == 0 then [] else Burst(x, t, k - 1) + [Allow(x, t), Fail(x, t, t)]
  }

  /** The record after k more wrong passwords at time t. */
  function Tried(r: Option<Record>, t: int, k: nat): Option<Record> {
    if k == 0 then r else Some(Counted(Tried(r, t, k - 1), t, t))
  }

  predicate Upto(calls: seq<Call>, t: int) { Timed(calls) && (calls != [] ==> calls[|calls| - 1].End() <= t) }

  lemma OneWrong(prior: seq<Call>, x: string, t: int, lo: int, hi: int, sweepAbove: Option<nat>)
    requires Upto(prior, t) && Serial(prior, x, sweepAbove) && MayTry(TrueRecord(prior, x), t)
    ensures var calls := prior + [Allow(x, t), Fail(x, t, t)];
            && Upto(calls, t) && Serial(calls, x, sweepAbove)
            && TrueRecord(calls, x) == Some(Counted(TrueRecord(prior, x), t, t))
            && Wrong(calls, x, lo, hi) == Wrong(prior, x, lo, hi) + if lo <= t <= hi then 1 else 0
  {
    hide After, MayTry, Counted, Serial, Allowed;
    var asked := prior + [Allow(x, t)];
    var calls := asked + [Fail(x, t, t)];
    assert prior + [Allow(x, t), Fail(x, t, t)] == calls;
    assert calls[..|calls| - 1] == asked && asked[..|asked| - 1] == prior;
    AnswerIsOwnRecord(prior, x, t, sweepAbove);
    SerialSnoc(prior, Allow(x, t), x, sweepAbove);
    assert Cleared(asked, x, sweepAbove);
    SerialSnoc(asked, Fail(x, t, t), x, sweepAbove);
  }

  /** A burst is serial as long as the count stays below eight before each try. */
  lemma {:induction false} BurstCounts(before: seq<Call>, x: string, t: int, k: nat, lo: int, hi: int, sweepAbove: Option<nat>)
    requires Upto(before, t) && Serial(before, x, sweepAbove)
    requires forall j: nat :: j < k ==> MayTry(Tried(TrueRecord(before, x), t, j), t)
    ensures var calls := before + Burst(x, t, k);
            && Upto(calls, t) && Serial(calls, x, sweepAbove)
            && TrueRecord(calls, x) == Tried(TrueRecord(before, x), t, k)
            && Wrong(calls, x, lo, hi) == Wrong(before, x, lo, hi) + if lo <= t <= hi then k else 0
  {
    hide Upto, MayTry, Counted, Serial, TrueRecord, Wrong;
    if k == 0 {
      assert before + Burst(x, t, k) == before;
    } else {
      BurstCounts(before, x, t, k - 1, lo, hi, sweepAbove);
      OneWrong(before + Burst(x, t, k - 1), x, t, lo, hi, sweepAbove);
      assert before + Burst(x, t, k) == before + Burst(x, t, k - 1) + [Allow(x, t), Fail(x, t, t)];
    }
  }

  lemma {:induction false} TriedIs(r: Option<Record>, t: int, k: nat)
    requires k > 0 && (r.Some? ==> r.value.first <= t)
    ensures Tried(r, t, k) == Some(if r.None? || Expired(r.value, t) then Record(k, t) else r.value.(count := r.value.count + k))
  {
    if k > 1 { TriedIs(r, t, k - 1); }
  }

  lemma SerialSnoc(calls: seq<Call>, c: Call, x: string, sweepAbove: Option<nat>)
    requires Serial(calls, x, sweepAbove) && (c.caller == x && !c.Allow? ==> Cleared(calls, x, sweepAbove))
    ensures Serial(calls + [c], x, sweepAbove)
  {
    hide Cleared;
    var more := calls + [c];
    forall i | 0 <= i < |more| && more[i].caller == x && !more[i].Allow? ensures Cleared(more[..i], x, sweepAbove) {
      assert more[..i] == calls[..i];
      if i == |calls| { assert more[..i] == calls; }
    }
  }

  lemma RoomToTry(r: Option<Record>, t: int, k: nat)
    requires r.Some? ==> r.value.first <= t
    requires k + (if r.None? || Expired(r.value, t) then 0 else r.value.count) <= MAX_ATTEMPTS
    ensures forall j: nat :: j < k ==> MayTry(Tried(r, t, j), t)
  {
    forall j: nat | j < k ensures MayTry(Tried(r, t, j), t) {
      if j > 0 { TriedIs(r, t, j); }
    }
  }

  /** Seven at the last moment of a record that began with one, then eight on the next record. */
  lemma FifteenReached(x: string, sweepAbove: Option<nat>)
    ensures var calls := Burst(x, 0, 1) + Burst(x, WINDOW, 7) + Burst(x, WINDOW + 1, 8);
            && Timed(calls) && Serial(calls, x, sweepAbove) && NoSuccess(calls, x, WINDOW, 2 * WINDOW)
            && Wrong(calls, x, WINDOW, 2 * WINDOW) == 15
  {
    hide Burst, Serial, MayTry, Tried, TrueRecord, Wrong;
    var none: seq<Call> := [];
    var one := none + Burst(x, 0, 1);
    var eight := one + Burst(x, WINDOW, 7);
    assert Burst(x, 0, 1) + Burst(x, WINDOW, 7) + Burst(x, WINDOW + 1, 8) == eight + Burst(x, WINDOW + 1, 8);
    NothingYet(x, WINDOW, 2 * WINDOW, sweepAbove);
    BurstAfter(none, x, 0, 1, None, sweepAbove);
    BurstAfter(one, x, WINDOW, 7, Some(Record(1, 0)), sweepAbove);
    BurstAfter(eight, x, WINDOW + 1, 8, Some(Record(8, 0)), sweepAbove);
  }

  lemma BurstAfter(before: seq<Call>, x: string, t: int, k: nat, r: Option<Record>, sweepAbove: Option<nat>)
    requires Upto(before, t) && Serial(before, x, sweepAbove) && TrueRecord(before, x) == r && (r.Some? ==> r.value.first <= t)
    requires 0 < k <= MAX_ATTEMPTS - if r.None? || Expired(r.value, t) then 0 else r.value.count
    ensures var calls := before + Burst(x, t, k);
            && Upto(calls, t) && Serial(calls, x, sweepAbove)
            && TrueRecord(calls, x)
               == Some(if r.None? || Expired(r.value, t) then Record(k, t) else r.value.(count := r.value.count + k))
            && Wrong(calls, x, WINDOW, 2 * WINDOW)
               == Wrong(before, x, WINDOW, 2 * WINDOW) + if WINDOW <= t <= 2 * WINDOW then k else 0
  {
    hide Upto, Serial, Wrong, Burst, TrueRecord;
    RoomToTry(r, t, k);
    TriedIs(r, t, k);
    BurstCounts(before, x, t, k, WINDOW, 2 * WINDOW, sweepAbove);
  }

  lemma NothingYet(x: string, lo: int, hi: int, sweepAbove: Option<nat>)
    ensures Serial([], x, sweepAbove) && Upto([], lo) && TrueRecord([], x) == None && Wrong([], x, lo, hi) == 0
  {
  }
}
