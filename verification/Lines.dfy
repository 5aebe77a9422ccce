/** Roster lines spelled out, character by character. */
module Lines {
  import opened Wrappers
  import opened Text
  import opened Decimal
  import opened Float64
  import opened Roster
  import opened TrailingCount
  import opened RoundTrip
  import opened Normalise

  // ----- name, separator, number -----

  /** In a count group a comma follows a digit. */
  lemma CommaAfterDigit(c: string, i: nat)
    requires IsCountText(c) && i < |c| && c[i] == ','
    ensures i > 0 && IsDigit(c[i - 1])
  {
    hide Split, IsGrouped;
    var sign := CountTextSplit(c);
    var w := Whole(c);
    assert ',' !in Point(Fraction(c)) && ',' !in sign;
    CommaPlace(sign, w, Point(Fraction(c)), i);
    CommaInGroup(w, i - |sign|);
    assert c[i - 1] == w[i - |sign| - 1];
  }

  lemma CommaPlace(a: string, b: string, d: string, i: nat)
    requires ',' !in a && ',' !in d && i < |a + b + d| && (a + b + d)[i] == ','
    ensures |a| <= i < |a| + |b| && b[i - |a|] == ','
  {
  }

  lemma CommaInGroup(w: string, i: nat)
    requires (IsGrouped(w) || (w != "" && AllDigits(w))) && i < |w| && w[i] == ','
    ensures i > 0 && IsDigit(w[i - 1])
  {
  }

  lemma CommaInLine(line: string, j: nat, e: nat, n: nat)
    requires j <= n < e <= |line| && IsCountText(line[j..e]) && line[n] == ','
    ensures j < n && IsDigit(line[n - 1])
  {
    hide IsCountText;
    CommaAfterDigit(line[j..e], n - j);
    assert line[j..e][n - j - 1] == line[n - 1];
  }

  /** A name, a single comma, semicolon or colon, and a count group: no match has a shorter name. */
  lemma PunctStart(name: string, p: char, c: string, i: nat, j: nat, e: nat)
    requires CleanName(name) && IsPunct(p) && (p == ',' ==> !IsDigit(name[|name| - 1])) && IsCountText(c)
    ensures Captures(name + [p] + c, i, j, e) ==> i >= |name|
  {
    hide IsCountText;
    var line := name + [p] + c;
    var n := |name|;
    CountTextShape(c);
    NoSepInside(name, c);
    assert line[n] == p && line[n - 1] == name[n - 1] && line[n + 1] == c[0] && line[|line| - 1] == c[|c| - 1];
    if Captures(line, i, j, e) {
      var d := line[j..e];
      CountTextShape(d);
      assert e == |line|;
      if j <= n {
        assert d[n - j] == p;
        if p == ',' { CommaInLine(line, j, e, n); }
      }
    }
  }

  lemma NoSepInside(name: string, c: string)
    requires CleanName(name) && c != "" && (IsDigit(c[0]) || c[0] == '-')
    ensures name != "" && !IsSep(name[|name| - 1]) && !IsSep(c[0])
  {
  }

  lemma PunctFound(name: string, p: char, c: string)
    requires CleanName(name) && IsPunct(p) && (p == ',' ==> !IsDigit(name[|name| - 1])) && IsCountText(c)
    ensures ShortestName(name + [p] + c, 0) == Some(|name|) && CountAfter(name + [p] + c, |name|) == c
  {
    hide IsCountText, CountAfter, SepEnd, MatchesAt, Captures, CleanName;
    var line, n := name + [p] + c, |name|;
    PunctCaptures(name, p, c);
    CaptureUnique(line, n, n + 1, |line|);
    assert line[n + 1..] == c && line[n + 1..|line|] == c;
    forall i: nat | i < n ensures !MatchesAt(line, i) {
      MatchCaptures(line, i);
      PunctStart(name, p, c, i, SepEnd(line, i), SepEnd(line, i) + |CountAfter(line, i)|);
    }
  }

  lemma PunctCaptures(name: string, p: char, c: string)
    requires IsPunct(p) && IsCountText(c)
    ensures Captures(name + [p] + c, |name|, |name| + 1, |name + [p] + c|)
  {
    hide IsCountText;
    var line := name + [p] + c;
    assert line[|name| + 1..|line|] == c;
    CountTextShape(c);
  }

  lemma PunctLine(name: string, p: char, n: nat)
    requires CleanName(name) && IsPunct(p) && (p == ',' ==> !IsDigit(name[|name| - 1])) && n <= MAX_INT64
    ensures ParseLine(name + [p] + Digits(n)) == (name, n as int)
  {
    hide Digits, IsCountText, ParseCount, WholeValue, CountValue, FloatLimit, StripName, CountAfter, ShortestName, DropRight, CleanName,
      FormatInt;
    var line := name + [p] + Digits(n);
    DigitsCount(n);
    PunctFound(name, p, Digits(n));
    NoTabInClean(name, p);
    assert '\t' !in line;
    TabFreeLine(line);
    assert line[..|name|] == name;
    CleanNameStripsAlone(name);
  }

  lemma CleanNameStripsAlone(name: string)
    requires CleanName(name)
    ensures StripName(name) == name
  {
  }

  lemma NoTabInClean(name: string, p: char)
    requires CleanName(name) && IsPunct(p)
    ensures '\t' !in name && p != '\t' && p != '\n' && '\n' !in name && name != ""
  {
  }

  lemma DigitsCount(n: nat)
    requires n <= MAX_INT64
    ensures IsCountText(Digits(n)) && WholeValue(Digits(n)) < FloatLimit() && CountValue(Digits(n)) == n
    ensures ParseCount(Digits(n)) == Some(n as int)
  {
    hide Digits, IsCountText, ParseCount, WholeValue, CountValue, FloatLimit;
    FormattedCount(n);
    assert FormatInt(n) == Digits(n);
    CountTextValue(Digits(n));
  }

  lemma BlankLine(name: string, seps: string, n: nat)
    requires CleanName(name) && '\t' !in seps && seps != "" && IsReSpace(seps[|seps| - 1]) && n <= MAX_INT64
    requires forall i :: 0 <= i < |seps| ==> IsSep(seps[i])
    ensures ParseLine(name + seps + Digits(n)) == (name, n as int)
  {
    hide Digits, IsCountText, ParseCount, WholeValue, CountValue, FloatLimit, StripName, CleanName, ParseLine, DropRight;
    DigitsCount(n);
    NoTabInClean(name, ',');
    ParseNameAndCount(name, seps, Digits(n));
    CleanNameStrips(name);
  }

  /** A line that is not blank, with no line end in it, is one entry. */
  lemma LineIsEntry(line: string, name: string, n: nat)
    requires '\n' !in line && line != "" && Trimmed(line) && ParseLine(line) == (name, n as int) && name != ""
    ensures Parse(line) == [Entry(name, NameKey(name), n, false)]
  {
    hide Split, NameKey, ParseRow, Trimmed, Merge, RowsOf;
    LineIsRow(line, name, n);
    OneRow(line, Row(name, NameKey(name), n));
    MergeDistinct([Row(name, NameKey(name), n)]);
  }

  lemma LineIsRow(line: string, name: string, n: nat)
    requires line != "" && Trimmed(line) && ParseLine(line) == (name, n as int) && name != ""
    ensures ParseRow(line) == Some(Row(name, NameKey(name), n))
  {
    hide NameKey, ParseLine, TrimSpace, DropRight, IsReturn;
    EdgeNoReturn(line);
    DropRightIs(line, |line|, IsReturn);
    assert line[..|line|] == line;
  }

  lemma EdgeNoReturn(line: string)
    requires line != "" && Trimmed(line)
    ensures !IsReturn(line[|line| - 1])
  {
  }

  lemma BlankSeps(seps: string)
    requires seps in [" ", ": ", "; ", ", "]
    ensures '\t' !in seps && seps != "" && IsReSpace(seps[|seps| - 1]) && forall i :: 0 <= i < |seps| ==> IsSep(seps[i])
  {
  }

  /**
   * What may stand between a clean name and its number: a blank, or a colon,
   * semicolon or comma with or without one; the bare comma not after a digit.
   */
  lemma SeparatedLine(name: string, seps: string, n: nat)
    requires CleanName(name) && n <= MAX_INT64
    requires seps in [" ", ": ", ":", "; ", ";", ", ", ","]
    requires seps == "," ==> !('0' <= name[|name| - 1] <= '9')
    ensures Parse(name + seps + Digits(n)) == [Entry(name, NameKey(name), n, false)]
  {
    hide Digits, Parse, NameKey, CleanName, ParseLine;
    var line := name + seps + Digits(n);
    if seps == ":" || seps == ";" || seps == "," {
      PunctLine(name, seps[0], n);
      assert name + [seps[0]] + Digits(n) == line;
    } else {
      BlankSeps(seps);
      BlankLine(name, seps, n);
    }
    LineEdges(name, seps, n);
    NoTabInClean(name, ',');
    LineIsEntry(line, name, n);
  }

  lemma LineEdges(name: string, seps: string, n: nat)
    requires CleanName(name) && '\n' !in seps
    ensures var line := name + seps + Digits(n); '\n' !in line && line != "" && Trimmed(line)
  {
    hide Digits;
    var line := name + seps + Digits(n);
    assert line[0] == name[0] && line[|line| - 1] == Digits(n)[|Digits(n)| - 1];
    DigitNoSpace(line[|line| - 1]);
  }

  /** A name that ends in one of these three is not clean. */
  lemma SeparatorEndsUnclean(name: string)
    requires name != "" && name[|name| - 1] in ",;:"
    ensures !CleanName(name)
  {
  }

  /** A line of just a name that does not end in a digit stands for a guest with no diapers. */
  lemma BareName(name: string)
    requires name != "" && Trimmed(name) && '\t' !in name && '\n' !in name && !('0' <= name[|name| - 1] <= '9')
    ensures Parse(name) == [Entry(name, NameKey(name), 0, false)]
  {
    hide Parse, NameKey, ShortestName, CountAfter, SepEnd, WholeValue, CountValue, FloatLimit, StripName, ParseLine, Trimmed, Captures;
    TabFreeLine(name);
    ShortestNameIsLazyMatch(name);
    forall k: nat, j: nat, e: nat ensures !Captures(name, k, j, e) { EndsInDigit(name, k, j, e); }
    LineIsEntry(name, name, 0);
  }

  /** Only a trimmed line that ends in a digit can hold a count. */
  lemma EndsInDigit(line: string, k: nat, j: nat, e: nat)
    requires line != "" && Trimmed(line)
    ensures Captures(line, k, j, e) ==> IsDigit(line[|line| - 1])
  {
    hide IsCountText;
    if Captures(line, k, j, e) {
      CountTextShape(line[j..e]);
      assert line[j..e][e - j - 1] == line[e - 1];
    }
  }

  lemma NoSepNoCapture(line: string)
    requires forall i :: 0 <= i < |line| ==> !IsSep(line[i])
    ensures forall k: nat, j: nat, e: nat :: !Captures(line, k, j, e)
  {
    hide Captures, IsSep;
    forall k: nat, j: nat, e: nat ensures !Captures(line, k, j, e) { CapturesSep(line, k, j, e); }
  }

  lemma CapturesSep(line: string, k: nat, j: nat, e: nat)
    ensures Captures(line, k, j, e) ==> k < |line| && IsSep(line[k])
  {
    hide IsCountText, IsSep;
  }

  /** Of all characters exactly these stand between a name and a number. */
  lemma OneSeparator(c: char)
    ensures ParseLine(['a', c, '5']).1 == 5 <==> c in [',', ';', ':', ' ', '\t', '\n', '\r', 12 as char]
  {
    hide IsCountText, ParseLine, ShortestName, CountAfter, SepEnd, WholeValue, CountValue, FloatLimit, StripName, TrimSpace;
    var line := ['a', c, '5'];
    assert Digits(5) == "5";
    if c == '\t' {
      TabLine("a", 5);
      assert "a" + "\t" + FormatInt(5) == line;
    } else if c == ',' || c == ';' || c == ':' {
      PunctLine("a", c, 5);
      assert "a" + [c] + "5" == line;
    } else if IsReSpace(c) {
      BlankLine("a", [c], 5);
      assert "a" + [c] + "5" == line;
    } else {
      ShortestNameIsLazyMatch(line);
      TabFreeLine(line);
      NoSepNoCapture(line);
    }
  }

  // ----- tab-separated fields -----

  /** The first field from here on that reads as a count. */
  predicate FirstReads(fields: seq<string>, i: nat) {
    && i < |fields| && ParseCount(fields[i]).Some?
    && forall j: nat :: j < i ==> ParseCount(fields[j]).None?
  }

  lemma {:induction false} FirstCountIs(fields: seq<string>)
    ensures forall i: nat :: FirstReads(fields, i) ==> FirstCount(fields) == ParseCount(fields[i])
    ensures (forall j: nat :: j < |fields| ==> ParseCount(fields[j]).None?) ==> FirstCount(fields).None?
  {
    hide ParseCount;
    if fields != [] {
      FirstCountIs(fields[1..]);
      forall i: nat | FirstReads(fields, i) ensures FirstCount(fields) == ParseCount(fields[i]) {
        if i > 0 { assert FirstReads(fields[1..], i - 1); }
      }
      if forall j: nat :: j < |fields| ==> ParseCount(fields[j]).None? {
        forall j: nat | j < |fields[1..]| ensures ParseCount(fields[1..][j]).None? { assert fields[1..][j] == fields[j + 1]; }
      }
    }
  }

  /**
   * A line with a tab: the name is the first column, and the count that of the
   * first later column that reads as one, whatever stands between; 0 if none does.
   */
  lemma TabColumns(line: string)
    requires '\t' in line
    ensures var columns := Split(line, '\t'); var later := columns[1..];
            && ParseLine(line).0 == TrimSpace(columns[0])
            && (forall i: nat :: FirstReads(later, i) ==> ParseCount(later[i]) == Some(ParseLine(line).1))
            && ((forall i: nat :: i < |later| ==> ParseCount(later[i]).None?) ==> ParseLine(line).1 == 0)
  {
    hide ParseCount, Split, TrimSpace, FirstCount;
    FirstCountIs(Split(line, '\t')[1..]);
  }

  /** A column without a digit is no count: empty padding, notes, signs and points alone. */
  lemma NoDigitNoCount(text: string)
    requires forall c :: c in text ==> !('0' <= c <= '9')
    ensures ParseCount(text).None?
  {
    hide Remove, TrimSpace, Split, FloatWhole, ParseInt, ParseDecimal;
    var field := TrimSpace(Remove(text, ','));
    assert forall c :: c in field ==> c in Remove(text, ',');
    assert forall c :: c in field ==> !IsDigit(c);
    if field != "" {
      NoDigitNoInt(field);
      NoDigitNoDecimal(field);
    }
  }

  lemma NoDigitNoInt(field: string)
    requires field != "" && forall c :: c in field ==> !IsDigit(c)
    ensures ParseInt(field).None?
  {
    var body := SplitSign(field).1;
    assert body != "" ==> body[0] in field;
  }

  lemma NoDigitNoDecimal(field: string)
    requires forall c :: c in field ==> !IsDigit(c)
    ensures ParseDecimal(field).None?
  {
    hide Split, FloatWhole;
    var body := SplitSign(field).1;
    var parts := Split(body, '.');
    assert forall c :: c in body ==> c in field;
    if i :| 0 <= i < |parts| && parts[i] != "" {
      assert parts[i][0] in parts[i] && parts[i][0] in body;
      assert !AllDigits(parts[i]);
    }
  }

  /** A column reads as a number whatever commas stand in it and blanks around it, with either sign or none. */
  lemma ColumnReads(text: string, sign: string, whole: string, fraction: string)
    requires sign in ["", "+", "-"] && whole != "" && AllDigits(whole) && AllDigits(fraction)
    requires TrimSpace(Remove(text, ',')) == sign + whole + (if fraction == "" then "" else "." + fraction)
    ensures ParseCount(text)
            == var n := Signed(sign == "-", DigitsValue(whole));
               if fraction == "" && InInt64(n) then Some(n)
               else if DigitsValue(whole) >= FloatLimit() then None
               else Some(ToInt64(Signed(sign == "-", FloatWhole(whole, fraction))))
  {
    hide Remove, TrimSpace, ParseInt, ParseDecimal, FloatLimit, FloatWhole, DigitsValue, ToInt64;
    PlainNumberParses(sign, whole, fraction);
    PlainIntParses(sign, whole, fraction);
    PlainNumberTrimmed(sign, whole, fraction);
    assert sign + whole + Point(fraction) != "";
  }

  // ----- thousands -----

  predicate ThreeDigits(s: string) { |s| == 3 && AllDigits(s) }

  lemma GroupedPeel(s: string, head: nat)
    requires 1 <= head <= 3
    ensures GroupedBy(s, head) <==>
              && head < |s| && AllDigits(s[..head]) && s[head] == ','
              && (ThreeDigits(s[head + 1..]) || GroupedBy(s[head + 1..], 3))
  {
    if head < |s| {
      var rest := s[head + 1..];
      assert forall i :: 0 <= i < |rest| ==> rest[i] == s[i + head + 1];
      assert forall i :: head < i < |s| ==> s[i] == rest[i - head - 1];
      if GroupedBy(s, head) {
        assert |s| - head == 4 || |s| - head >= 8;
      }
    }
  }

  predicate AllThrees(parts: seq<string>) { forall i :: 0 <= i < |parts| ==> ThreeDigits(parts[i]) }

  /** Digits up to a comma at place h: exactly when the first part is h digits. */
  lemma FirstPart(a: string, rest: string, h: nat)
    requires ',' !in a
    ensures var s := a + [','] + rest;
            && (h < |s| && AllDigits(s[..h]) && s[h] == ',' <==> |a| == h && AllDigits(a))
            && (|a| == h ==> s[h + 1..] == rest)
  {
    var s := a + [','] + rest;
    assert s[|a|] == ',' && forall i :: 0 <= i < |a| ==> s[i] == a[i];
    if h < |s| && AllDigits(s[..h]) && s[h] == ',' {
      assert forall i :: 0 <= i < h ==> s[i] == s[..h][i];
    }
    if |a| == h { assert s[..h] == a; }
  }

  lemma Parts(s: string) returns (first: string, later: seq<string>, rest: string)
    ensures Split(s, ',') == [first] + later && ',' !in first
    ensures later == [] ==> first == s
    ensures later != [] ==> s == first + [','] + rest && later == Split(rest, ',')
  {
    hide Split;
    var parts := Split(s, ',');
    first, later, rest := parts[0], parts[1..], Join(parts[1..], [',']);
    assert Join(parts, [',']) == s;
    if later != [] { SplitFirst(first, ',', rest); }
  }

  lemma {:induction false} ThreesExactly(s: string)
    ensures ThreeDigits(s) || GroupedBy(s, 3) <==> AllThrees(Split(s, ','))
    decreases |s|
  {
    hide Split, GroupedBy;
    var first, later, rest := Parts(s);
    var parts := Split(s, ',');
    GroupedPeel(s, 3);
    assert AllThrees(parts) <==> ThreeDigits(first) && AllThrees(later) by {
      assert forall i :: 0 <= i < |later| ==> parts[i + 1] == later[i];
    }
    if later != [] {
      FirstPart(first, rest, 3);
      ThreesExactly(rest);
      assert s[|first|] == ',';
    }
  }

  /** Thousands are grouped exactly when the commas leave one to three digits, then threes. */
  lemma GroupedExactly(s: string)
    ensures var parts := Split(s, ',');
            IsGrouped(s) <==> |parts| >= 2 && 1 <= |parts[0]| <= 3 && AllDigits(parts[0]) && AllThrees(parts[1..])
  {
    hide Split, GroupedBy, AllThrees;
    var first, later, rest := Parts(s);
    assert Split(s, ',')[1..] == later;
    if later != [] { ThreesExactly(rest); }
    forall head: nat | 1 <= head <= 3
      ensures GroupedBy(s, head) <==> later != [] && |first| == head && AllDigits(first) && AllThrees(later)
    {
      GroupedPeel(s, head);
      if later != [] { FirstPart(first, rest, head); }
    }
  }

  // ----- whole texts -----

  /** Two different lines have this key. */
  predicate Shared(rows: seq<Row>, key: string) {
    exists p, q :: 0 <= p < q < |rows| && rows[p].key == key && rows[q].key == key
  }

  predicate Present(rows: seq<Row>, key: string) { exists p :: 0 <= p < |rows| && rows[p].key == key }

  lemma SharedSnoc(init: seq<Row>, row: Row, key: string)
    ensures Shared(init + [row], key) <==> Shared(init, key) || (row.key == key && Present(init, key))
  {
    var rows, n := init + [row], |init|;
    if p, q :| 0 <= p < q < n && init[p].key == key && init[q].key == key { assert rows[p].key == key && rows[q].key == key; }
    if p :| 0 <= p < n && init[p].key == key && row.key == key { assert rows[p].key == key && rows[n].key == key; }
    if p, q :| 0 <= p < q < |rows| && rows[p].key == key && rows[q].key == key {
      assert init[p].key == key;
      if q < n { assert init[q].key == key; }
    }
  }

  /** An entry is flagged as merged exactly when two different lines share its key. */
  lemma MergedExactly(text: string, i: nat)
    requires i < |Parse(text)|
    ensures Parse(text)[i].merged <==> Shared(RowsIn(text), Parse(text)[i].key)
  {
    hide Split, RowsOf, Firsts, Shared;
    TwoLinesShare(RowsIn(text), Parse(text)[i].key);
  }

  lemma {:induction false} TwoLinesShare(rows: seq<Row>, key: string)
    ensures LinesFor(rows, key) > 1 <==> Shared(rows, key)
  {
    hide Shared, Present;
    if rows == [] {
      NothingShared(key);
    } else {
      var init, row := rows[..|rows| - 1], rows[|rows| - 1];
      TwoLinesShare(init, key);
      SeenBefore(init, key);
      PresentMeans(init, key);
      assert rows == init + [row];
      SharedSnoc(init, row, key);
    }
  }

  lemma PresentMeans(rows: seq<Row>, key: string)
    ensures Present(rows, key) <==> exists m :: 0 <= m < |rows| && rows[m].key == key
  {
  }

  lemma NothingShared(key: string)
    ensures !Shared([], key)
  {
  }

  /** Two guests as they are printed. */
  lemma PrintedPage(a: Entry, b: Entry)
    ensures Format([a, b]) == a.name + ", " + FormatInt(a.count) + "\n" + b.name + ", " + FormatInt(b.count) + "\n"
    ensures Format([]) == "" && FormatInt(42) == "42" && FormatInt(-7) == "-7"
  {
    hide FormatInt;
    assert [a, b][1..] == [b] && [b][1..] == [];
    assert Format([b]) == FormatLine(b) + "\n" + "";
    assert FormatInt(42) == "42" && FormatInt(-7) == "-7" by { SmallNumbers(); }
  }

  lemma SmallNumbers()
    ensures FormatInt(42) == "42" && FormatInt(-7) == "-7"
  {
    assert Digits(42) == Digits(4) + [DigitChar(2)];
  }

  /** A carriage return before the line end changes nothing. */
  lemma CarriageReturn(line: string)
    ensures ParseRow(line + "\r") == ParseRow(line)
  {
    hide ParseLine, TrimSpace, NameKey;
    assert (line + "\r")[..|line|] == line;
  }

  const WHITE := [9, 10, 11, 12, 13, 32, 0x85, 0xA0, 0x1680, 0x2000, 0x2001, 0x2002, 0x2003, 0x2004, 0x2005, 0x2006, 0x2007, 0x2008,
                  0x2009, 0x200A, 0x2028, 0x2029, 0x202F, 0x205F, 0x3000]

  /** Exactly these characters are trimmed off a name. */
  lemma TrimmedExactly(c: char)
    ensures TrimSpace(['a', c]) == "a" <==> c as int in WHITE
    ensures TrimSpace([c, 'a']) == "a" <==> c as int in WHITE
  {
    WhiteExactly(c);
    TrimOne(c);
  }

  lemma WhiteExactly(c: char)
    ensures IsSpace(c) <==> c as int in WHITE
  {
  }

  lemma TrimOne(c: char)
    ensures TrimSpace(['a', c]) == "a" <==> IsSpace(c)
    ensures TrimSpace([c, 'a']) == "a" <==> IsSpace(c)
  {
    hide IsSpace, TrimSpace;
    assert !IsSpace('a') by { PlainLetter(); }
    assert |['a', c]| == 2 == |[c, 'a']|;
    if IsSpace(c) {
      TrimSpaceIs(['a', c], 1);
      assert ['a', c][..1] == "a";
      LeftOne(c);
    }
  }

  lemma LeftOne(c: char)
    requires IsSpace(c) && !IsSpace('a')
    ensures TrimSpace([c, 'a']) == "a"
  {
    hide IsSpace, DropRight, DropLeft;
    DropRightIs([c, 'a'], 2, IsSpace);
    assert [c, 'a'][..2] == [c, 'a'] && [c, 'a'][1..] == "a";
    DropFirst(c);
  }

  lemma DropFirst(c: char)
    requires IsSpace(c) && !IsSpace('a')
    ensures DropLeft([c, 'a'], IsSpace) == "a"
  {
    hide IsSpace;
    var r := DropLeft([c, 'a'], IsSpace);
    assert [c, 'a'][0] == c && [c, 'a'][1] == 'a';
    assert |r| == 1;
  }
}
