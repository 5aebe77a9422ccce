/** Two spellings are the same guest exactly when they have the same words, ignoring case. */
module NameKeys {
  import opened Text
  import opened Roster

  /** How many leading characters are not \s. */
  function WordEnd(s: string): (e: nat)
    ensures e <= |s|
    ensures forall i :: 0 <= i < e ==> !IsReSpace(s[i])
    ensures e < |s| ==> IsReSpace(s[e])
  {
    if s == "" || IsReSpace(s[0]) then 0 else 1 + WordEnd(s[1..])
  }

  /** The maximal runs of characters that are not \s. */
  function Words(s: string): (ws: seq<string>)
    ensures forall i :: 0 <= i < |ws| ==> IsWord(ws[i])
    decreases |s|
  {
    if s == "" then []
    else if IsReSpace(s[0]) then Words(s[1..])
    else [s[..WordEnd(s)]] + Words(s[WordEnd(s)..])
  }

  predicate IsWord(w: string) { w != "" && forall i :: 0 <= i < |w| ==> !IsReSpace(w[i]) }

  /** What the statements below need of a lower-case mapping; the Unicode one is of this kind. */
  ghost predicate LowersCase(lower: char -> char) {
    forall c ::
      && (IsSpace(lower(c)) <==> IsSpace(c))
      && (IsReSpace(c) || IsReSpace(lower(c)) ==> lower(c) == c)
      && lower(lower(c)) == lower(c)
  }

  function Lowered(lower: char -> char, s: string): (r: string)
    ensures |r| == |s| && forall i :: 0 <= i < |s| ==> r[i] == lower(s[i])
  {
    seq(|s|, i requires 0 <= i < |s| => lower(s[i]))
  }

  /** The name key, for any lower-case mapping. */
  function KeyUnder(lower: char -> char, name: string): string { Collapse(Lowered(lower, TrimSpace(name))) }

  /** The words of a name, in lower case. */
  function KeyWords(lower: char -> char, name: string): seq<string> { Words(Lowered(lower, TrimSpace(name))) }

  /** The mapping of this model is one of them. */
  lemma NameKeyIsKeyUnder(name: string)
    ensures LowersCase(LowerChar) && NameKey(name) == KeyUnder(LowerChar, name)
  {
    hide TrimSpace, Collapse;
    assert Lowered(LowerChar, TrimSpace(name)) == ToLower(TrimSpace(name));
  }

  lemma {:induction false} CollapseWord(w: string, rest: string)
    requires forall i :: 0 <= i < |w| ==> !IsReSpace(w[i])
    ensures Collapse(w + rest) == w + Collapse(rest)
  {
    if w == "" {
      assert w + rest == rest;
    } else {
      assert (w + rest)[1..] == w[1..] + rest;
      CollapseWord(w[1..], rest);
    }
  }

  lemma {:induction false} WordsSkipBlanks(s: string)
    ensures Words(DropLeft(s, IsReSpace)) == Words(s)
  {
    if s != "" && IsReSpace(s[0]) { WordsSkipBlanks(s[1..]); }
  }

  lemma {:induction false} WordEndOf(w: string, rest: string)
    requires forall i :: 0 <= i < |w| ==> !IsReSpace(w[i])
    requires rest != "" ==> IsReSpace(rest[0])
    ensures WordEnd(w + rest) == |w|
  {
    if w == "" {
      assert w + rest == rest;
    } else {
      assert (w + rest)[1..] == w[1..] + rest;
      WordEndOf(w[1..], rest);
    }
  }

  lemma WordsFirst(w: string, rest: string)
    requires IsWord(w) && (rest != "" ==> IsReSpace(rest[0]))
    ensures Words(w + rest) == [w] + Words(rest)
  {
    WordEndOf(w, rest);
    assert (w + rest)[0] == w[0];
    assert (w + rest)[..|w|] == w && (w + rest)[|w|..] == rest;
  }

  lemma BlankRun(s: string)
    requires s != "" && IsReSpace(s[0])
    ensures Collapse(s) == " " + Collapse(DropLeft(s[1..], IsReSpace))
    ensures Words(s) == Words(DropLeft(s[1..], IsReSpace))
  {
    WordsSkipBlanks(s[1..]);
  }

  lemma JoinFirst(w: string, ws: seq<string>)
    ensures Join([w] + ws, " ") == if ws == [] then w else w + " " + Join(ws, " ")
  {
    assert ([w] + ws)[1..] == ws;
  }

  lemma NoWordsOfNothing()
    ensures Words("") == [] && Collapse("") == "" && Join([], " ") == ""
  {
  }

  /** One word, then blanks and the rest: both readings take the word and go on after the blanks. */
  lemma WordThenRest(w: string, rest: string, next: string)
    requires IsWord(w) && rest != "" && IsReSpace(rest[0]) && next == DropLeft(rest[1..], IsReSpace)
    ensures Collapse(w + rest) == w + " " + Collapse(next) && Words(w + rest) == [w] + Words(next)
  {
    hide Words, Collapse, Join, WordEnd, DropLeft, IsReSpace;
    CollapseWord(w, rest);
    WordsFirst(w, rest);
    BlankRun(rest);
    assert w + (" " + Collapse(next)) == w + " " + Collapse(next);
  }

  lemma LastWord(w: string)
    requires IsWord(w)
    ensures Collapse(w) == w && Words(w) == [w]
  {
    hide Words, Collapse, Join, WordEnd, DropLeft, IsReSpace;
    NoWordsOfNothing();
    CollapseWord(w, "");
    WordsFirst(w, "");
    assert w + "" == w;
  }

  lemma FirstWord(s: string)
    requires s != "" && !IsReSpace(s[0])
    ensures IsWord(s[..WordEnd(s)])
  {
    hide WordEnd, IsReSpace;
    assert 0 < WordEnd(s);
  }

  /** Between its edges, collapsing is joining the words with one space. */
  lemma {:induction false} CollapseJoinsWords(s: string)
    requires s != "" ==> !IsReSpace(s[0]) && !IsReSpace(s[|s| - 1])
    ensures Collapse(s) == Join(Words(s), " ")
    ensures s != "" ==> Words(s) != []
    decreases |s|
  {
    hide Words, Collapse, Join, WordEnd, DropLeft, IsReSpace, IsWord;
    NoWordsOfNothing();
    if s != "" {
      var w, rest := s[..WordEnd(s)], s[WordEnd(s)..];
      assert s == w + rest;
      FirstWord(s);
      if rest == "" {
        LastWord(w);
        JoinFirst(w, []);
        assert [w] + [] == [w] && w + "" == w;
      } else {
        var next := DropLeft(rest[1..], IsReSpace);
        LastStays(rest);
        CollapseJoinsWords(next);
        WordThenRest(w, rest, next);
        JoinFirst(w, Words(next));
      }
    }
  }

  lemma LastStays(s: string)
    requires s != "" && IsReSpace(s[0]) && !IsReSpace(s[|s| - 1])
    ensures var next := DropLeft(s[1..], IsReSpace); next != "" && next[|next| - 1] == s[|s| - 1]
  {
    hide DropLeft, IsReSpace;
    var next := DropLeft(s[1..], IsReSpace);
    assert s[|s| - 1] == s[1..][|s| - 2];
  }

  lemma {:induction false} WordsOfJoin(ws: seq<string>)
    requires forall i :: 0 <= i < |ws| ==> IsWord(ws[i])
    ensures Words(Join(ws, " ")) == ws
  {
    hide Words, Join, IsWord;
    NoWordsOfNothing();
    if |ws| > 0 {
      var w, tail := ws[0], ws[1..];
      assert ws == [w] + tail;
      WordsOfJoin(tail);
      JoinFirst(w, tail);
      var rest := if tail == [] then "" else " " + Join(tail, " ");
      assert Join(ws, " ") == w + rest;
      WordsFirst(w, rest);
      if tail != [] {
        WordsAfterBlank(Join(tail, " "));
      }
    }
  }

  lemma WordsAfterBlank(s: string)
    ensures Words(" " + s) == Words(s)
  {
    assert (" " + s)[1..] == s;
  }

  lemma KeyIsJoinedWords(lower: char -> char, name: string)
    requires LowersCase(lower)
    ensures KeyUnder(lower, name) == Join(KeyWords(lower, name), " ")
  {
    hide Words, Collapse, TrimSpace, Join;
    SpacesAreSpaces();
    CollapseJoinsWords(Lowered(lower, TrimSpace(name)));
  }

  lemma SameKeyExactly(lower: char -> char, a: string, b: string)
    requires LowersCase(lower)
    ensures KeyUnder(lower, a) == KeyUnder(lower, b) <==> KeyWords(lower, a) == KeyWords(lower, b)
  {
    hide KeyUnder, Words, Join, TrimSpace, Lowered, IsWord, LowersCase;
    KeyIsJoinedWords(lower, a);
    KeyIsJoinedWords(lower, b);
    WordsOfJoin(KeyWords(lower, a));
    WordsOfJoin(KeyWords(lower, b));
  }

  // ----- a key is its own key -----

  lemma {:induction false} CollapseLast(s: string)
    requires s != "" && !IsReSpace(s[|s| - 1])
    ensures Collapse(s)[|Collapse(s)| - 1] == s[|s| - 1]
    decreases |s|
  {
    hide Collapse, DropLeft, IsReSpace;
    var rest := if IsReSpace(s[0]) then DropLeft(s[1..], IsReSpace) else s[1..];
    CollapseStep(s);
    if rest != "" {
      if IsReSpace(s[0]) { LastStays(s); }
      CollapseLast(rest);
    }
  }

  lemma {:induction false} CollapseChars(s: string)
    ensures forall c :: c in Collapse(s) ==> c == ' ' || c in s
    decreases |s|
  {
    hide Collapse, DropLeft, IsReSpace;
    if s == "" {
      NoWordsOfNothing();
    } else {
      CollapseStep(s);
      CollapseChars(if IsReSpace(s[0]) then DropLeft(s[1..], IsReSpace) else s[1..]);
    }
  }

  /** Collapsing keeps the edges and only ever adds plain spaces. */
  lemma CollapseShape(s: string)
    requires s != "" && !IsReSpace(s[|s| - 1])
    ensures !IsReSpace(s[0]) ==> Collapse(s)[0] == s[0]
    ensures Collapse(s)[|Collapse(s)| - 1] == s[|s| - 1]
    ensures forall i :: 0 <= i < |Collapse(s)| ==> Collapse(s)[i] == ' ' || Collapse(s)[i] in s
  {
    hide Collapse, DropLeft, IsReSpace;
    CollapseStep(s);
    CollapseLast(s);
    CollapseChars(s);
  }

  lemma CollapseStep(s: string)
    requires s != ""
    ensures Collapse(s) == if IsReSpace(s[0]) then " " + Collapse(DropLeft(s[1..], IsReSpace)) else [s[0]] + Collapse(s[1..])
    ensures Collapse("") == ""
  {
  }

  lemma KeyEdges(lower: char -> char, name: string)
    requires LowersCase(lower)
    ensures Trimmed(KeyUnder(lower, name)) && Lowered(lower, KeyUnder(lower, name)) == KeyUnder(lower, name)
  {
    hide Words, Join, DropLeft, DropRight, TrimSpace, IsSpace, IsReSpace, Collapse;
    var t := Lowered(lower, TrimSpace(name));
    var key := KeyUnder(lower, name);
    SpacesAreSpaces();
    NoWordsOfNothing();
    if t != "" { CollapseShape(t); }
    forall i | 0 <= i < |key| ensures lower(key[i]) == key[i] {
      if key[i] != ' ' {
        var j :| 0 <= j < |t| && t[j] == key[i];
        assert lower(lower(TrimSpace(name)[j])) == lower(TrimSpace(name)[j]);
      }
    }
  }

  lemma KeyOfKey(lower: char -> char, name: string)
    requires LowersCase(lower)
    ensures KeyUnder(lower, KeyUnder(lower, name)) == KeyUnder(lower, name)
  {
    hide Words, Join, TrimSpace, Collapse, IsWord, Trimmed, Lowered, LowersCase;
    var key := KeyUnder(lower, name);
    KeyEdges(lower, name);
    KeyIsJoinedWords(lower, name);
    WordsOfJoin(KeyWords(lower, name));
    KeyIsJoinedWords(lower, key);
  }

  lemma SpacesAreSpaces()
    ensures forall c :: IsReSpace(c) ==> IsSpace(c)
    ensures IsReSpace(' ')
  {
  }

  // ----- which letters are the same -----

  const CAPITALS := "ABCDEFGHIJKLMNOPQRSTUVWXYZ"
  const SMALL := "abcdefghijklmnopqrstuvwxyz"

  lemma AlphabetAt(i: nat)
    requires i < 26
    ensures |CAPITALS| == 26 == |SMALL|
    ensures CAPITALS[i] as int == 65 + i && SMALL[i] as int == 97 + i
  {
  }

  /** Each capital goes to its own small letter, and besides the dotted I and the Kelvin sign no other character moves. */
  lemma CapitalsGoDown(c: char)
    ensures |CAPITALS| == 26 == |SMALL|
    ensures forall i :: 0 <= i < 26 && c == CAPITALS[i] ==> LowerChar(c) == SMALL[i]
    ensures c as int == 0x130 ==> LowerChar(c) == 'i'
    ensures c as int == 0x212A ==> LowerChar(c) == 'k'
    ensures c !in CAPITALS && c as int != 0x130 && c as int != 0x212A ==> LowerChar(c) == c
  {
    AlphabetAt(0);
    forall i: nat | i < 26 ensures CAPITALS[i] as int == 65 + i && SMALL[i] as int == 97 + i { AlphabetAt(i); }
    if 'A' <= c <= 'Z' { assert CAPITALS[c as int - 65] == c; }
  }

  /** The same character, or a capital and its small letter. */
  predicate SameLetter(a: char, b: char) {
    a == b || exists i :: 0 <= i < |CAPITALS| && i < |SMALL| && ((a == CAPITALS[i] && b == SMALL[i]) || (a == SMALL[i] && b == CAPITALS[i]))
  }

  lemma SameLetterLowers(a: char, b: char)
    requires SameLetter(a, b)
    ensures LowerChar(a) == LowerChar(b)
  {
    CapitalsGoDown(a);
    CapitalsGoDown(b);
    AlphabetAt(0);
    if a != b {
      var i: nat :| i < |CAPITALS| && i < |SMALL| && ((a == CAPITALS[i] && b == SMALL[i]) || (a == SMALL[i] && b == CAPITALS[i]));
      AlphabetAt(i);
    }
  }

  lemma {:induction false} LowerDropsRight(s: string)
    ensures DropRight(ToLower(s), IsSpace) == ToLower(DropRight(s, IsSpace))
  {
    hide IsSpace;
    if s != "" && IsSpace(s[|s| - 1]) {
      LowerDropsRight(s[..|s| - 1]);
      assert ToLower(s)[..|s| - 1] == ToLower(s[..|s| - 1]);
    }
  }

  lemma {:induction false} LowerDropsLeft(s: string)
    ensures DropLeft(ToLower(s), IsSpace) == ToLower(DropLeft(s, IsSpace))
  {
    hide IsSpace;
    if s != "" && IsSpace(s[0]) {
      LowerDropsLeft(s[1..]);
      assert ToLower(s)[1..] == ToLower(s[1..]);
    }
  }

  /** Names that differ only in the case of their letters are one guest. */
  lemma CaseDoesNotMatter(a: string, b: string)
    requires |a| == |b| && forall i :: 0 <= i < |a| ==> SameLetter(a[i], b[i])
    ensures NameKey(a) == NameKey(b)
  {
    hide DropLeft, DropRight, IsSpace, Collapse, SameLetter;
    forall i | 0 <= i < |a| ensures ToLower(a)[i] == ToLower(b)[i] { SameLetterLowers(a[i], b[i]); }
    assert ToLower(a) == ToLower(b);
    TrimLowers(a);
    TrimLowers(b);
  }

  lemma TrimLowers(s: string)
    ensures ToLower(TrimSpace(s)) == DropLeft(DropRight(ToLower(s), IsSpace), IsSpace)
  {
    hide DropLeft, DropRight, IsSpace;
    LowerDropsRight(s);
    LowerDropsLeft(DropRight(s, IsSpace));
  }
}
