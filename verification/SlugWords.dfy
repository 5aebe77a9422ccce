/** What a slug is made of: the words of the title, joined by dashes and cut. */
module SlugWords {
  import opened Text
  import Decimal
  import opened TrailingCount
  import opened Slug

  /** How many leading characters are letters or digits. */
  function RunEnd(s: string): (e: nat)
    ensures e <= |s|
    ensures forall i :: 0 <= i < e ==> IsSlugChar(s[i])
    ensures e < |s| ==> !IsSlugChar(s[e])
  {
    if s == "" || !IsSlugChar(s[0]) then 0 else 1 + RunEnd(s[1..])
  }

  /** The maximal runs of small letters and digits. */
  function Runs(s: string): (ws: seq<string>)
    ensures forall i :: 0 <= i < |ws| ==> IsRun(ws[i])
    decreases |s|
  {
    if s == "" then []
    else if !IsSlugChar(s[0]) then Runs(s[1..])
    else [s[..RunEnd(s)]] + Runs(s[RunEnd(s)..])
  }

  predicate IsRun(w: string) { w != "" && forall i :: 0 <= i < |w| ==> IsSlugChar(w[i]) }

  lemma {:induction false} DashedRun(w: string, rest: string)
    requires forall i :: 0 <= i < |w| ==> IsSlugChar(w[i])
    ensures Dashed(w + rest) == w + Dashed(rest)
  {
    hide IsSlugChar, Dashed;
    if w == "" {
      assert w + rest == rest;
    } else {
      assert (w + rest)[1..] == w[1..] + rest;
      DashedLetter(w + rest);
      DashedRun(w[1..], rest);
      assert [w[0]] + (w[1..] + Dashed(rest)) == w + Dashed(rest);
    }
  }

  lemma DashedLetter(s: string)
    requires s != "" && IsSlugChar(s[0])
    ensures Dashed(s) == [s[0]] + Dashed(s[1..])
  {
    hide DropLeft;
  }

  lemma {:induction false} RunsSkip(s: string)
    ensures Runs(DropLeft(s, NotSlugChar)) == Runs(s)
  {
    hide IsSlugChar;
    if s != "" && NotSlugChar(s[0]) { RunsSkip(s[1..]); }
  }

  lemma RunsStep(s: string)
    requires s != "" && IsSlugChar(s[0])
    ensures var e := RunEnd(s);
            e > 0 && s == s[..e] + s[e..] && Runs(s) == [s[..e]] + Runs(s[e..])
            && (s[e..] != "" ==> NotSlugChar(s[e]) && Runs(s[e..]) == Runs(s[e + 1..]))
  {
    hide IsSlugChar;
    var e := RunEnd(s);
    if e < |s| { assert s[e..][0] == s[e] && s[e..][1..] == s[e + 1..]; }
  }

  lemma JoinRuns(w: string, ws: seq<string>)
    ensures Join([w] + ws, "-") == w + Glued(ws)
  {
    assert ([w] + ws)[1..] == ws;
    assert ws != [] ==> w + "-" + Join(ws, "-") == w + Glued(ws);
  }

  predicate EndsRun(s: string) { s != "" && IsSlugChar(s[|s| - 1]) }

  function Tail(s: string): string { if EndsRun(s) then "" else "-" }

  /** The runs that follow another one. */
  function Glued(ws: seq<string>): string { if ws == [] then "" else "-" + Join(ws, "-") }

  /** From a letter or digit on, dashing joins the runs, with a dash at the end when something follows the last one. */
  lemma {:induction false} DashedIsJoined(s: string)
    requires s != "" && IsSlugChar(s[0])
    ensures Dashed(s) == Join(Runs(s), "-") + Tail(s)
    decreases |s|
  {
    hide IsSlugChar, Dashed, Join, DropLeft, RunEnd, Runs, Tail, Glued;
    var e := RunEnd(s);
    RunsStep(s);
    var w, rest := s[..e], s[e..];
    DashedRun(w, rest);
    JoinRuns(w, Runs(rest));
    if rest == "" {
      NothingDashed();
      assert w == s;
      LastOfRun(s);
      assert w + "" == w;
    } else {
      AfterRun(rest);
      SameEnd(s, rest);
      assert w + (Glued(Runs(rest)) + Tail(rest)) == w + Glued(Runs(rest)) + Tail(rest);
    }
  }

  lemma {:induction false} AfterRun(rest: string)
    requires rest != "" && NotSlugChar(rest[0])
    ensures Dashed(rest) == Glued(Runs(rest)) + Tail(rest)
    decreases |rest|
  {
    hide IsSlugChar, Dashed, Join, DropLeft, RunEnd, Runs, Tail;
    var next := DropLeft(rest[1..], NotSlugChar);
    DashedBreak(rest);
    RunsSkip(rest[1..]);
    RunsBreak(rest);
    if next == "" {
      NothingDashed();
      AllSkipped(rest);
    } else {
      DashedIsJoined(next);
      RunsStep(next);
      SameEnd(rest, next);
      assert "-" + (Join(Runs(next), "-") + Tail(next)) == "-" + Join(Runs(next), "-") + Tail(next);
    }
  }

  lemma RunsBreak(s: string)
    requires s != "" && NotSlugChar(s[0])
    ensures Runs(s) == Runs(s[1..])
  {
  }

  lemma SameEnd(s: string, t: string)
    requires s != "" && t != "" && s[|s| - 1] == t[|t| - 1]
    ensures Tail(s) == Tail(t)
  {
  }

  lemma LastOfRun(s: string)
    requires s != "" && forall i :: 0 <= i < |s| ==> IsSlugChar(s[i])
    ensures Tail(s) == ""
  {
  }

  lemma NothingDashed()
    ensures Dashed("") == "" && Runs("") == [] && Join([], "-") == "" && Glued([]) == ""
  {
  }

  lemma DashedBreak(s: string)
    requires s != "" && NotSlugChar(s[0])
    ensures Dashed(s) == "-" + Dashed(DropLeft(s[1..], NotSlugChar))
  {
  }

  lemma AllSkipped(s: string)
    requires s != "" && NotSlugChar(s[0]) && DropLeft(s[1..], NotSlugChar) == ""
    ensures Tail(s) == "-"
  {
    hide IsSlugChar;
    assert forall i :: 0 < i < |s| ==> s[i] == s[1..][i - 1];
  }

  lemma {:induction false} JoinedEdges(ws: seq<string>)
    requires ws != [] && forall i :: 0 <= i < |ws| ==> IsRun(ws[i])
    ensures var j := Join(ws, "-"); j != "" && IsSlugChar(j[0]) && IsSlugChar(j[|j| - 1])
  {
    hide IsSlugChar;
    if |ws| > 1 {
      JoinedEdges(ws[1..]);
      assert Join(ws, "-") == ws[0] + "-" + Join(ws[1..], "-");
    }
  }

  lemma DashIsNot(c: char)
    requires IsSlugChar(c)
    ensures !IsDash(c)
  {
  }

  /** Trimming takes the dashes off the edges. */
  lemma TrimEdges(lead: string, j: string, tail: string)
    requires (lead == "" || lead == "-") && (tail == "" || tail == "-")
    requires j != "" && IsSlugChar(j[0]) && IsSlugChar(j[|j| - 1])
    ensures TrimDashes(lead + j + tail) == j
  {
    hide IsSlugChar, DropRight, DropLeft, IsDash;
    var s := lead + j + tail;
    DashIsNot(j[0]);
    DashIsNot(j[|j| - 1]);
    TheDash();
    assert s[|lead + j| - 1] == j[|j| - 1];
    DropRightIs(s, |lead + j|, IsDash);
    assert s[..|lead + j|] == lead + j;
    DropLeftIs(lead + j, |lead|, IsDash);
    assert (lead + j)[|lead|..] == j;
  }

  lemma {:induction false} DropLeftIs(s: string, n: nat, p: char -> bool)
    requires n <= |s| && (n < |s| ==> !p(s[n]))
    requires forall i :: 0 <= i < n ==> p(s[i])
    ensures DropLeft(s, p) == s[n..]
  {
    if n > 0 { DropLeftIs(s[1..], n - 1, p); }
  }

  lemma TheDash()
    ensures IsDash('-') && TrimDashes("-") == ""
  {
    assert "-"[..0] == "";
  }

  lemma JoinedFrom(lead: string, t: string)
    requires (lead == "" || lead == "-") && t != "" && IsSlugChar(t[0])
    ensures TrimDashes(lead + Dashed(t)) == Join(Runs(t), "-")
  {
    hide IsSlugChar, Dashed, Join, Runs, TrimDashes;
    DashedIsJoined(t);
    RunsStep(t);
    JoinedEdges(Runs(t));
    var tail := Tail(t);
    TrimEdges(lead, Join(Runs(t), "-"), tail);
    assert lead + (Join(Runs(t), "-") + tail) == lead + Join(Runs(t), "-") + tail;
  }

  /** Before any cut: the runs, joined by single dashes. */
  lemma TrimmedIsJoined(s: string)
    ensures TrimDashes(Dashed(s)) == Join(Runs(s), "-")
  {
    hide IsSlugChar, Dashed, Join, DropLeft, Runs, TrimDashes;
    NothingDashed();
    NoDashes();
    if s != "" && IsSlugChar(s[0]) {
      JoinedFrom("", s);
      assert "" + Dashed(s) == Dashed(s);
    } else if s != "" {
      var t := DropLeft(s[1..], NotSlugChar);
      RunsSkip(s[1..]);
      FirstDropped(s);
      TheDash();
      if t != "" { JoinedFrom("-", t); } else { assert "-" + "" == "-"; }
    }
  }

  lemma NoDashes()
    ensures TrimDashes("") == ""
  {
  }

  lemma FirstDropped(s: string)
    requires s != ""
    ensures !IsSlugChar(s[0]) ==> Runs(s) == Runs(s[1..]) && Dashed(s) == "-" + Dashed(DropLeft(s[1..], NotSlugChar))
  {
  }

  lemma {:induction false} RunsLead(a: string, s: string)
    requires forall i :: 0 <= i < |a| ==> !IsSlugChar(a[i])
    ensures Runs(a + s) == Runs(s)
  {
    hide IsSlugChar;
    if a == "" {
      assert a + s == s;
    } else {
      assert (a + s)[1..] == a[1..] + s;
      RunsLead(a[1..], s);
    }
  }

  lemma {:induction false} RunsTail(s: string, b: string)
    requires forall i :: 0 <= i < |b| ==> !IsSlugChar(b[i])
    ensures Runs(s + b) == Runs(s)
    decreases |s|
  {
    hide IsSlugChar, RunEnd;
    if s == "" {
      assert s + b == b;
      RunsLead(b, "");
      assert b + "" == b;
    } else if IsSlugChar(s[0]) {
      var e := RunEnd(s);
      RunsStep(s);
      RunEndSame(s, b);
      RunsStep(s + b);
      assert (s + b)[..e] == s[..e] && (s + b)[e..] == s[e..] + b;
      RunsTail(s[e..], b);
    } else {
      assert (s + b)[1..] == s[1..] + b;
      RunsTail(s[1..], b);
    }
  }

  lemma RunEndSame(s: string, b: string)
    requires forall i :: 0 <= i < |b| ==> !IsSlugChar(b[i])
    ensures RunEnd(s + b) == RunEnd(s)
  {
    hide IsSlugChar;
    var e := RunEnd(s);
    assert forall i :: 0 <= i < |s| ==> (s + b)[i] == s[i];
    if e == |s| && b != "" { assert (s + b)[e] == b[0]; }
    RunEndIs(s + b, e);
  }

  lemma {:induction false} RunEndIs(s: string, e: nat)
    requires e <= |s| && (forall i :: 0 <= i < e ==> IsSlugChar(s[i])) && (e < |s| ==> !IsSlugChar(s[e]))
    ensures RunEnd(s) == e
  {
    hide IsSlugChar;
    if e > 0 { RunEndIs(s[1..], e - 1); }
  }

  /** White space around the title does not change its words. */
  lemma RunsOfTrimmed(title: string)
    ensures Runs(ToLower(TrimSpace(title))) == Runs(ToLower(title))
  {
    hide IsSlugChar, IsSpace, DropLeft, DropRight, LowerChar, Runs, ToLower;
    var d := DropRight(title, IsSpace);
    var t := DropLeft(d, IsSpace);
    assert TrimSpace(title) == t;
    var a, b := d[..|d| - |t|], title[|d|..];
    assert title == a + t + b;
    LowerParts(a, t, b);
    BlanksAreNoSlug(a);
    BlanksAreNoSlug(b);
    RunsTail(ToLower(a) + ToLower(t), ToLower(b));
    RunsLead(ToLower(a), ToLower(t));
  }

  lemma LowerParts(a: string, t: string, b: string)
    ensures ToLower(a + t + b) == ToLower(a) + ToLower(t) + ToLower(b)
  {
    hide LowerChar;
  }

  lemma BlanksAreNoSlug(s: string)
    requires forall i :: 0 <= i < |s| ==> IsSpace(s[i])
    ensures forall i :: 0 <= i < |ToLower(s)| ==> !IsSlugChar(ToLower(s)[i])
  {
    forall i | 0 <= i < |s| ensures !IsSlugChar(LowerChar(s[i])) {
      assert IsSpace(LowerChar(s[i]));
    }
  }

  /** At most sixty characters, and no dash left hanging by the cut. */
  function Cut(s: string): string {
    if |s| <= 60 then s else if s[59] == '-' then s[..59] else s[..60]
  }

  lemma CutIs(s: string)
    requires SlugShape(s)
    ensures (if |s| > MAX_SLUG then TrimDashes(s[..MAX_SLUG]) else s) == Cut(s)
  {
    if |s| > MAX_SLUG {
      var c := s[..MAX_SLUG];
      if s[59] == '-' {
        assert IsSlugChar(s[58]) by { assert s[59] != '-' || s[58] != '-'; }
        assert c == "" + s[..59] + "-";
        TrimEdges("", s[..59], "-");
      } else {
        assert c == "" + c + "";
        TrimEdges("", c, "");
      }
    }
  }

  /** A slug is the letters and digits of the lower-case title, each unbroken run kept, the runs joined by single dashes, and cut. */
  lemma SlugIsWords(title: string)
    ensures Slugify(title) == Cut(Join(Runs(ToLower(title)), "-"))
  {
    hide Dashed, TrimDashes, ToLower, TrimSpace, Join, Runs, SlugShape, Cut;
    var low := ToLower(TrimSpace(title));
    TrimmedIsJoined(low);
    RunsOfTrimmed(title);
    DashedShape(low);
    TrimDashesShape(Dashed(low));
    CutIs(TrimDashes(Dashed(low)));
  }

  lemma RunsWord(w: string, rest: string)
    requires IsRun(w) && (rest != "" ==> !IsSlugChar(rest[0]))
    ensures Runs(w + rest) == [w] + Runs(rest)
  {
    hide IsSlugChar;
    assert forall i :: 0 <= i < |w| ==> (w + rest)[i] == w[i];
    assert rest != "" ==> (w + rest)[|w|] == rest[0];
    RunEndIs(w + rest, |w|);
    assert (w + rest)[..|w|] == w && (w + rest)[|w|..] == rest;
  }

  lemma LowerMaya()
    ensures ToLower("Maya's 2!") == "maya's 2!"
  {
    hide LowerChar;
    assert LowerChar('M') == 'm' && forall c :: c in "ays' 2!" ==> LowerChar(c) == c by { SmallMaya(); }
  }

  lemma SmallMaya()
    ensures LowerChar('M') == 'm' && forall c :: c in "ays' 2!" ==> LowerChar(c) == c
  {
  }

  lemma MayaRuns()
    ensures IsRun("maya") && IsRun("s") && IsRun("2")
    ensures !IsSlugChar('\'')
    ensures !IsSlugChar(' ') && !IsSlugChar('!')
  {
    var w := "maya";
    assert w[0] == 'm' && w[1] == 'a' && w[2] == 'y' && w[3] == 'a';
  }

  /** For instance, with the suffixes that a taken link gets. */
  lemma MayaHasASlug()
    ensures Slugify("Maya's 2!") == "maya-s-2"
    ensures Suffixed("maya-s-2", 1) == "maya-s-2" && Suffixed("maya-s-2", 2) == "maya-s-2-2" && Suffixed("maya", 10) == "maya-10"
  {
    hide Slugify, Runs, ToLower, IsRun, IsSlugChar;
    LowerMaya();
    MayaRuns();
    SlugIsWords("Maya's 2!");
    NothingDashed();
    assert "maya's 2!" == "maya" + ("'" + ("s" + (" " + ("2" + "!"))));
    RunsWord("maya", "'" + ("s" + (" " + ("2" + "!"))));
    RunsLead("'", "s" + (" " + ("2" + "!")));
    RunsWord("s", " " + ("2" + "!"));
    RunsLead(" ", "2" + "!");
    RunsWord("2", "!");
    RunsLead("!", "");
    assert "!" + "" == "!";
    assert ["maya"] + (["s"] + (["2"] + [])) == ["maya", "s", "2"];
    JoinThree("maya", "s", "2");
    TenAndTwo();
  }

  lemma JoinThree(a: string, b: string, c: string)
    ensures Join([a, b, c], "-") == a + "-" + (b + "-" + c)
  {
    assert [a, b, c][1..] == [b, c] && [b, c][1..] == [c];
    assert Join([b, c], "-") == b + "-" + c;
    assert Join([a, b, c], "-") == a + "-" + Join([b, c], "-");
  }

  lemma TenAndTwo()
    ensures Decimal.FormatInt(2) == "2" && Decimal.FormatInt(10) == "10"
  {
    assert Decimal.Digits(10) == Decimal.Digits(1) + [Decimal.DigitChar(0)];
  }
}
