/**
 * The page's autosave: numbered saves, replies in any order. The server
 * handles the page's saves in the order they were sent, with other writers in
 * between; replies may be late or lost.
 */
module Autosave {
  import opened Wrappers

  datatype View = View(version: nat, text: string)

  datatype Flag = Quiet | Unsaved | Saving | Saved | NotSaved

  datatype State = State(editor: string, pending: Option<string>, saveSeq: nat, savedSeq: nat, shown: View, flag: Flag)

  // ----- the page -----

  function Typed(p: State, text: string): State { p.(editor := text, flag := Unsaved) }

  /** A save is sent unless this text is already on its way or saved. */
  function Save(p: State): (State, Option<string>) {
    if p.pending == Some(p.editor) then (p, None)
    else (p.(pending := Some(p.editor), saveSeq := p.saveSeq + 1, flag := Saving), Some(p.editor))
  }

  /** A reply to save `number`: the view it carried, or a failure. */
  function Heard(p: State, number: nat, reply: Option<View>): State {
    if number < p.savedSeq then p
    else if reply.Some? then p.(savedSeq := number, shown := reply.value, flag := Flag.Saved)
    else p.(pending := None, flag := NotSaved)
  }

  class Page {
    var editor: string
    var pendingText: Option<string>
    var saveSeq: nat
    var savedSeq: nat
    var shown: View
    var flag: Flag

    function Now(): State
      reads this
    {
      State(editor, pendingText, saveSeq, savedSeq, shown, flag)
    }

    /** The first load adopts the stored text. */
    constructor (view: View)
      ensures Now() == Opened(view)
    {
      editor, pendingText, saveSeq, savedSeq, shown, flag := view.text, Some(view.text), 0, 0, view, Quiet;
    }

    method Input(text: string)
      modifies this
      ensures Now() == Typed(old(Now()), text)
    {
      editor := text;
      flag := Unsaved;
    }

    method SaveRoster() returns (sent: Option<string>)
      modifies this
      ensures (Now(), sent) == Save(old(Now()))
    {
      var text := editor;
      if Some(text) == pendingText {
        return None;
      }
      pendingText := Some(text);
      saveSeq := saveSeq + 1;
      flag := Saving;
      return Some(text);
    }

    method OnView(number: nat, view: View)
      modifies this
      ensures Now() == Heard(old(Now()), number, Some(view))
    {
      if number < savedSeq {
        return;
      }
      savedSeq := number;
      shown := view;
      flag := Flag.Saved;
    }

    method OnFailure(number: nat)
      modifies this
      ensures Now() == Heard(old(Now()), number, None)
    {
      if number < savedSeq {
        return;
      }
      pendingText := None;
      flag := NotSaved;
    }
  }

  function Opened(view: View): State { State(view.text, Some(view.text), 0, 0, view, Quiet) }

  // ----- page, network and server together -----

  /** A version of the stored text, and whether a save of this page wrote it. */
  datatype Version = Version(text: string, mine: bool)

  /**
   * sent[s - 1] is the text of save s; verdicts[s - 1] the reply to it, once
   * the server has dealt with it; waiting, the saves whose reply the page has
   * not heard; log, every version of the stored text.
   */
  datatype System = System(page: State, sent: seq<string>, verdicts: seq<Option<View>>, waiting: set<nat>, log: seq<Version>)

  datatype Outcome = Committed | CommittedButLost | Refused

  datatype Event =
    | Type(text: string)
    | Send
    | Handle(outcome: Outcome)
    | Elsewhere(text: string)
    | Deliver(number: nat)

  predicate Possible(s: System, e: Event) {
    match e
    case Type(t) => true
    case Send => true
    case Handle(outcome) => |s.verdicts| < |s.sent|
    case Elsewhere(t) => true
    case Deliver(n) => n in s.waiting && 0 < n <= |s.verdicts|
  }

  function Next(s: System, e: Event): System
    requires Possible(s, e)
  {
    match e
    case Type(t) => s.(page := Typed(s.page, t))
    case Send =>
      var (page, put) := Save(s.page);
      s.(page := page, sent := if put.Some? then s.sent + [put.value] else s.sent)
    case Handle(outcome) =>
      var text := s.sent[|s.verdicts|];
      s.(log := if outcome.Refused? then s.log else s.log + [Version(text, true)],
         verdicts := s.verdicts + [if outcome.Committed? then Some(View(|s.log|, text)) else None],
         waiting := s.waiting + {|s.verdicts| + 1})
    case Elsewhere(t) => s.(log := s.log + [Version(t, false)])
    case Deliver(n) => s.(page := Heard(s.page, n, s.verdicts[n - 1]), waiting := s.waiting - {n})
  }

  ghost predicate Start(s: System) {
    && s.log != [] && s.sent == [] && s.verdicts == [] && s.waiting == {}
    && (forall v :: 0 <= v < |s.log| ==> !s.log[v].mine)
    && s.page == Opened(View(|s.log| - 1, s.log[|s.log| - 1].text))
  }

  ghost predicate IsRun(states: seq<System>, events: seq<Event>) {
    && |states| == |events| + 1 && Start(states[0])
    && forall i :: 0 <= i < |events| ==> Possible(states[i], events[i]) && states[i + 1] == Next(states[i], events[i])
  }

  // ----- the invariant -----

  /** Save n was accepted and the page has heard so. */
  predicate HeardAccepted(s: System, n: nat) { 0 < n <= |s.verdicts| && n !in s.waiting && s.verdicts[n - 1].Some? }

  predicate Settled(s: System) { |s.verdicts| == |s.sent| && s.waiting == {} }

  /** Accepted saves got versions in the order they were sent, and the text they sent. */
  predicate VersionsInOrder(s: System) {
    && |s.verdicts| <= |s.sent|
    && (forall n :: 0 <= n < |s.verdicts| && s.verdicts[n].Some? ==>
          var v := s.verdicts[n].value;
          v.version < |s.log| && s.log[v.version] == Version(v.text, true) && v.text == s.sent[n])
    && (forall m, n :: 0 <= m < n < |s.verdicts| && s.verdicts[m].Some? && s.verdicts[n].Some? ==>
          s.verdicts[m].value.version < s.verdicts[n].value.version)
  }

  /** The page shows the newest accepted save it has heard of, or what it loaded if there is none. */
  predicate ShowsNewest(s: System) {
    && s.page.savedSeq <= s.page.saveSeq && s.page.shown.version < |s.log|
    && s.log[s.page.shown.version].text == s.page.shown.text
    && (s.page.savedSeq > 0 ==> HeardAccepted(s, s.page.savedSeq) && s.verdicts[s.page.savedSeq - 1] == Some(s.page.shown))
    && (forall n :: 0 < n <= |s.verdicts| && n !in s.waiting && s.verdicts[n - 1].Some? ==> n <= s.page.savedSeq)
  }

  /** While nothing has been heard, every accepted save is newer than what the page loaded. */
  predicate LoadedIsOldest(s: System) {
    s.page.savedSeq == 0 ==>
      forall n :: 0 <= n < |s.verdicts| && s.verdicts[n].Some? ==> s.page.shown.version < s.verdicts[n].value.version
  }

  /** A text the page takes for saved or on its way is that of the newest save, which has not been refused to its face. */
  predicate PendingIsNewest(s: System) {
    s.page.pending.Some? ==>
      if s.page.saveSeq == 0 then s.page.savedSeq == 0 && s.page.pending.value == s.page.shown.text
      else |s.sent| == s.page.saveSeq && s.sent[s.page.saveSeq - 1] == s.page.pending.value
           && (|s.verdicts| == s.page.saveSeq && s.page.saveSeq !in s.waiting ==> s.verdicts[s.page.saveSeq - 1].Some?)
  }

  /** Versions after that of the newest handled save, if it was accepted, are other writers'. */
  predicate LastIsMine(s: System) {
    && (s.verdicts != [] && s.verdicts[|s.verdicts| - 1].Some? ==>
          forall v :: s.verdicts[|s.verdicts| - 1].value.version < v < |s.log| ==> !s.log[v].mine)
    && (s.verdicts == [] ==> forall v :: 0 <= v < |s.log| ==> !s.log[v].mine)
  }

  predicate Inv(s: System) {
    && s.log != [] && |s.sent| == s.page.saveSeq && |s.verdicts| <= |s.sent|
    && (forall n :: n in s.waiting ==> 0 < n <= |s.verdicts|)
    && VersionsInOrder(s) && ShowsNewest(s) && LoadedIsOldest(s) && PendingIsNewest(s) && LastIsMine(s)
  }

  lemma StartInv(s: System)
    requires Start(s)
    ensures Inv(s)
  {
  }

  lemma StepInv(s: System, e: Event)
    requires Inv(s) && Possible(s, e)
    ensures Inv(Next(s, e))
  {
    hide Inv, Next;
    match e
    case Type(t) => PageOrLogInv(s, e);
    case Send => PageOrLogInv(s, e);
    case Handle(outcome) => HandleInv(s, outcome);
    case Elsewhere(t) => PageOrLogInv(s, e);
    case Deliver(n) => DeliverInv(s, n);
  }

  lemma PageOrLogInv(s: System, e: Event)
    requires Inv(s) && (e.Type? || e.Send? || e.Elsewhere?)
    ensures Inv(Next(s, e))
  {
    hide VersionsInOrder, LastIsMine, LoadedIsOldest;
    PageOrLogVersions(s, e);
  }

  lemma PageOrLogVersions(s: System, e: Event)
    requires VersionsInOrder(s) && LastIsMine(s) && LoadedIsOldest(s) && (e.Type? || e.Send? || e.Elsewhere?)
    ensures VersionsInOrder(Next(s, e)) && LastIsMine(Next(s, e)) && LoadedIsOldest(Next(s, e))
  {
    hide LoadedIsOldest;
    LoadedStaysOldest(s, e);
  }

  lemma LoadedStaysOldest(s: System, e: Event)
    requires LoadedIsOldest(s) && (e.Type? || e.Send? || e.Elsewhere?)
    ensures LoadedIsOldest(Next(s, e))
  {
  }

  lemma HandleInv(s: System, outcome: Outcome)
    requires Inv(s) && Possible(s, Handle(outcome))
    ensures Inv(Next(s, Handle(outcome)))
  {
    hide VersionsInOrder, LastIsMine;
    HandleVersions(s, outcome);
  }

  lemma HandleVersions(s: System, outcome: Outcome)
    requires VersionsInOrder(s) && LastIsMine(s) && Possible(s, Handle(outcome))
    ensures VersionsInOrder(Next(s, Handle(outcome))) && LastIsMine(Next(s, Handle(outcome)))
  {
  }

  lemma DeliverInv(s: System, n: nat)
    requires Inv(s) && Possible(s, Deliver(n))
    ensures Inv(Next(s, Deliver(n)))
  {
    hide VersionsInOrder, LastIsMine, ShowsNewest;
    DeliverShowsNewest(s, n);
    DeliverVersions(s, n);
    assert s.page.savedSeq <= s.page.saveSeq by { SavedIsSent(s); }
  }

  lemma SavedIsSent(s: System)
    requires ShowsNewest(s)
    ensures s.page.savedSeq <= s.page.saveSeq
  {
  }

  lemma DeliverVersions(s: System, n: nat)
    requires VersionsInOrder(s) && LastIsMine(s) && Possible(s, Deliver(n))
    ensures VersionsInOrder(Next(s, Deliver(n))) && LastIsMine(Next(s, Deliver(n)))
  {
  }

  lemma DeliverShowsNewest(s: System, n: nat)
    requires Inv(s) && Possible(s, Deliver(n))
    ensures ShowsNewest(Next(s, Deliver(n)))
  {
    hide PendingIsNewest, LastIsMine, LoadedIsOldest;
  }

  /** No event takes the shown version back. */
  lemma StepForward(s: System, e: Event)
    requires Inv(s) && Possible(s, e)
    ensures s.page.shown.version <= Next(s, e).page.shown.version
  {
  }

  // ----- the theorems -----

  lemma {:induction false} RunInv(states: seq<System>, events: seq<Event>, i: nat)
    requires IsRun(states, events) && i < |states|
    ensures Inv(states[i])
    ensures states[i].page.savedSeq == 0 ==> states[i].page.shown == states[0].page.shown
  {
    hide Inv, Start;
    if i == 0 {
      StartInv(states[0]);
    } else {
      RunInv(states, events, i - 1);
      StepInv(states[i - 1], events[i - 1]);
    }
  }

  /** However late or out of order the replies, the version the page shows after a save never goes back. */
  lemma {:induction false} ShownNeverGoesBack(states: seq<System>, events: seq<Event>, i: nat, j: nat)
    requires IsRun(states, events) && i <= j < |states|
    ensures states[i].page.shown.version <= states[j].page.shown.version
  {
    hide Inv, Start, Next;
    if i < j {
      ShownNeverGoesBack(states, events, i, j - 1);
      RunInv(states, events, j - 1);
      StepForward(states[j - 1], events[j - 1]);
    }
  }

  /** What the page shows is the newest accepted save it has heard of, else what it loaded. */
  lemma ShownIsNewestHeard(states: seq<System>, events: seq<Event>, i: nat)
    requires IsRun(states, events) && i < |states|
    ensures var s := states[i];
            && (s.page.savedSeq == 0 ==> s.page.shown == states[0].page.shown && forall n: nat :: !HeardAccepted(s, n))
            && (s.page.savedSeq > 0 ==>
                  && HeardAccepted(s, s.page.savedSeq) && s.verdicts[s.page.savedSeq - 1] == Some(s.page.shown)
                  && forall n: nat :: HeardAccepted(s, n) ==> n <= s.page.savedSeq)
  {
    hide IsRun;
    RunInv(states, events, i);
  }

  /** So the order in which replies arrive does not matter to what is shown: the same replies heard show the same view. */
  lemma OrderDoesNotMatter(a: seq<System>, b: seq<System>, ea: seq<Event>, eb: seq<Event>, i: nat, j: nat)
    requires IsRun(a, ea) && IsRun(b, eb) && i < |a| && j < |b| && a[0].page.shown == b[0].page.shown
    requires a[i].verdicts == b[j].verdicts && a[i].waiting == b[j].waiting
    ensures a[i].page.shown == b[j].page.shown && a[i].page.savedSeq == b[j].page.savedSeq
  {
    hide IsRun;
    ShownIsNewestHeard(a, ea, i);
    ShownIsNewestHeard(b, eb, j);
    assert forall n: nat :: HeardAccepted(a[i], n) <==> HeardAccepted(b[j], n);
  }

  /**
   * The flag and the pending text do depend on the order: of two replies not
   * older than the view on show, hearing them either way round gives the same
   * page exactly when both are views, both failures, or the older one fails
   * with nothing pending anyway.
   */
  lemma RepliesCommuteExactly(p: State, m: nat, older: Option<View>, n: nat, newer: Option<View>)
    requires p.savedSeq <= m < n
    ensures var inOrder, crossed := Heard(Heard(p, m, older), n, newer), Heard(Heard(p, n, newer), m, older);
            && inOrder.savedSeq == crossed.savedSeq && inOrder.shown == crossed.shown
            && (inOrder == crossed <==>
                  older.Some? == newer.Some? || (older.None? && newer.Some? && p.pending.None?))
  {
  }

  /**
   * Once every save is answered, a text the page counts as saved is the text
   * of the version it shows, and everything stored since came from elsewhere.
   */
  lemma SettledMeansStored(states: seq<System>, events: seq<Event>, i: nat)
    requires IsRun(states, events) && i < |states| && Settled(states[i]) && states[i].page.pending.Some?
    ensures var s := states[i];
            && s.page.shown.version < |s.log| && s.log[s.page.shown.version].text == s.page.pending.value
            && forall v :: s.page.shown.version < v < |s.log| ==> !s.log[v].mine
  {
    hide IsRun;
    RunInv(states, events, i);
    var s := states[i];
    if s.page.saveSeq > 0 {
      assert HeardAccepted(s, s.page.saveSeq);
    }
  }

  /** And the newest save was accepted exactly when its number is the one on show. */
  lemma NewestAcceptedExactly(states: seq<System>, events: seq<Event>, i: nat)
    requires IsRun(states, events) && i < |states| && Settled(states[i]) && states[i].page.saveSeq > 0
    ensures var s := states[i];
            0 < s.page.saveSeq <= |s.verdicts|
            && (s.verdicts[s.page.saveSeq - 1].Some? <==> s.page.savedSeq == s.page.saveSeq)
  {
    hide IsRun;
    RunInv(states, events, i);
    var s := states[i];
    assert HeardAccepted(s, s.page.saveSeq) <==> s.verdicts[s.page.saveSeq - 1].Some?;
  }

  /** Typing, sending a save, and hearing a reply no older than the view on show move the flag. */
  predicate MovesFlag(s: System, e: Event) {
    || e.Type? || (e.Send? && s.page.pending != Some(s.page.editor)) || (e.Deliver? && s.page.savedSeq <= e.number)
  }

  /** What the flag says is what the last of these was: a keystroke, a save sent, a view heard, or a failure heard. */
  lemma {:induction false} FlagTellsTheLast(states: seq<System>, events: seq<Event>, i: nat) returns (last: Option<nat>)
    requires IsRun(states, events) && i < |states|
    ensures last.Some? ==> last.value < i && last.value < |events| && MovesFlag(states[last.value], events[last.value])
    ensures forall j :: (if last.Some? then last.value + 1 else 0) <= j < i && j < |events| ==> !MovesFlag(states[j], events[j])
    ensures var flag := states[i].page.flag;
            if last.None? then flag == Quiet
            else if events[last.value].Type? then flag == Unsaved
            else if events[last.value].Send? then flag == Saving
            else var n := events[last.value].number;
                 0 < n <= |states[last.value].verdicts|
                 && flag == if states[last.value].verdicts[n - 1].Some? then Flag.Saved else NotSaved
  {
    if i == 0 {
      last := None;
    } else if MovesFlag(states[i - 1], events[i - 1]) {
      last := Some(i - 1);
    } else {
      last := FlagTellsTheLast(states, events, i - 1);
    }
  }

  /** After a failure nothing counts as saved or on its way, so the next save is sent even if the text is the same. */
  lemma {:induction false} FailureIsRetried(states: seq<System>, events: seq<Event>, i: nat)
    requires IsRun(states, events) && i < |states| && states[i].page.flag == NotSaved
    ensures states[i].page.pending == None && Save(states[i].page).1 == Some(states[i].page.editor)
  {
    if i > 0 && states[i - 1].page.flag == NotSaved { FailureIsRetried(states, events, i - 1); }
  }

  lemma {:induction false} SavedMeansHeard(states: seq<System>, events: seq<Event>, i: nat)
    requires IsRun(states, events) && i < |states| && states[i].page.flag == Flag.Saved
    ensures states[i].page.savedSeq > 0
  {
    if i > 0 && states[i - 1].page.flag == Flag.Saved { SavedMeansHeard(states, events, i - 1); }
  }

  /** The flag "Saved" is right when the newest save carried what the editor holds and was answered with a view. */
  predicate EditorIsSaved(s: System) {
    HeardAccepted(s, s.page.saveSeq) && s.page.saveSeq <= |s.sent| && s.sent[s.page.saveSeq - 1] == s.page.editor
  }

  /** The test on the page's own fields that marking a text saved leaves out. */
  predicate SeemsSaved(p: State) { p.savedSeq == p.saveSeq && p.editor == p.shown.text }

  /**
   * When the page says "Saved", it is right exactly when the number on show is
   * that of the newest save and the editor holds the text on show. Then the
   * editor's text is stored, and once every save is answered, everything
   * stored since came from elsewhere.
   */
  lemma SavedFlagExactly(states: seq<System>, events: seq<Event>, i: nat)
    requires IsRun(states, events) && i < |states| && states[i].page.flag == Flag.Saved
    ensures var s := states[i];
            && 0 < s.page.saveSeq == |s.sent|
            && (EditorIsSaved(s) <==> SeemsSaved(s.page))
            && (EditorIsSaved(s) ==>
                  && s.page.shown.version < |s.log| && s.log[s.page.shown.version] == Version(s.page.editor, true)
                  && (Settled(s) ==> forall v :: s.page.shown.version < v < |s.log| ==> !s.log[v].mine))
    ensures var s := states[i];
            Settled(s) ==> (EditorIsSaved(s) <==> s.verdicts[|s.sent| - 1].Some? && s.sent[|s.sent| - 1] == s.page.editor)
  {
    hide IsRun, PendingIsNewest, LoadedIsOldest;
    RunInv(states, events, i);
    SavedMeansHeard(states, events, i);
    var s := states[i];
    assert HeardAccepted(s, s.page.saveSeq) ==> s.page.saveSeq <= s.page.savedSeq;
  }

  /** Type and send twice. */
  function SentTwice(s: System, b: string, c: string): System {
    Next(Next(Next(Next(s, Type(b)), Send), Type(c)), Send)
  }

  lemma SendsTwice(s: System, b: string, c: string)
    requires Start(s) && b != s.page.editor && c != b
    ensures SentTwice(s, b, c) == s.(page := State(c, Some(c), 2, 0, s.page.shown, Saving), sent := [b, c])
  {
  }

  /** The server takes the first save and refuses the second; the page hears the second reply first. */
  function AnswersCross(s: System): System
    requires |s.sent| == 2 && s.verdicts == [] && s.waiting == {}
  {
    var t := Next(Next(s, Handle(Committed)), Handle(Refused));
    assert t.waiting == {1, 2};
    Next(Next(t, Deliver(2)), Deliver(1))
  }

  /** It can be wrong: an older success heard after a newer failure reads Saved, with nothing pending. */
  lemma LateSuccessReadsSaved(s: System, b: string, c: string)
    requires Start(s) && b != s.page.editor && c != b
    ensures var sent := SentTwice(s, b, c);
            && |sent.sent| == 2 && sent.verdicts == [] && sent.waiting == {}
            && var end := AnswersCross(sent);
               && Settled(end) && end.page.flag == Flag.Saved && end.page.editor == c && end.page.pending == None
               && end.verdicts == [Some(View(|s.log|, b)), None] && end.log == s.log + [Version(b, true)]
  {
    hide SentTwice;
    SendsTwice(s, b, c);
    var sent := SentTwice(s, b, c);
    assert AnswersCross(sent).waiting == {};
  }

  /** Type and send, type on, and then hear of the save. */
  function TypedOn(s: System, b: string, c: string): System
    requires s.sent == [] && s.verdicts == [] && s.page.pending != Some(b)
  {
    var t := Next(Next(Next(s, Type(b)), Send), Type(c));
    var u := Next(t, Handle(Committed));
    assert 1 in u.waiting;
    Next(u, Deliver(1))
  }

  /** And a success heard after the host has typed on reads Saved, although what was typed since is nowhere in the log. */
  lemma TypedOnReadsSaved(s: System, b: string, c: string)
    requires Start(s) && b != s.page.editor && c != b && forall v :: 0 <= v < |s.log| ==> s.log[v].text != c
    ensures var end := TypedOn(s, b, c);
            && Settled(end) && end.page.flag == Flag.Saved && end.page.savedSeq == end.page.saveSeq == 1
            && end.page.pending == Some(b) && end.verdicts[0].Some? && end.page.editor == c
            && forall v :: 0 <= v < |end.log| ==> end.log[v].text != c
  {
    var t := Next(Next(Next(s, Type(b)), Send), Type(c));
    assert t == s.(page := State(c, Some(b), 1, 0, s.page.shown, Unsaved), sent := [b]);
    var u := Next(t, Handle(Committed));
    assert u.waiting == {1} && u.log == s.log + [Version(b, true)];
    assert TypedOn(s, b, c).waiting == {};
  }
}
