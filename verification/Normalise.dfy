/** Rewriting a roster from its own entries: when a text is already in normal form. */
module Normalise {
  import opened Wrappers
  import opened Text
  import opened Decimal
  import opened Roster
  import opened TrailingCount
  import opened RoundTrip
  import NameKeys

  function Normal(text: string): string { Format(Parse(text)) }

  // ----- a printed text determines names and counts -----

  predicate NotBlank(c: char) { c != ' ' }

  lemma LineInjective(a: Entry, b: Entry)
    requires FormatLine(a) == FormatLine(b)
    ensures a.name == b.name && a.count == b.count
  {
    hide DropRight, FormatInt;
    var line := FormatLine(a);
    LineName(a);
    LineName(b);
    assert line[..|a.name|] == a.name && line[..|b.name|] == b.name;
    assert line[|a.name| + 2..] == FormatInt(a.count) && line[|b.name| + 2..] == FormatInt(b.count);
    FormatIntInjective(a.count, b.count);
  }

  lemma LineName(e: Entry)
    ensures |DropRight(FormatLine(e), NotBlank)| == |e.name| + 2
  {
    hide DropRight, FormatInt;
    DropRightIs(FormatLine(e), |e.name| + 2, NotBlank);
  }

  lemma {:induction false} PrintedLineAt(es: seq<Entry>, i: nat)
    requires i < |es|
    ensures PrintedLines(es)[i] == FormatLine(es[i])
  {
    if i < |es| - 1 { PrintedLineAt(es[..|es| - 1], i); }
  }

  lemma FormatInjective(a: seq<Entry>, b: seq<Entry>)
    requires forall i :: 0 <= i < |a| ==> '\n' !in a[i].name
    requires forall i :: 0 <= i < |b| ==> '\n' !in b[i].name
    requires Format(a) == Format(b)
    ensures |a| == |b| && forall i :: 0 <= i < |a| ==> a[i].name == b[i].name && a[i].count == b[i].count
  {
    hide Split, Format, PrintedLines, FormatLine;
    SplitPrinted(a);
    SplitPrinted(b);
    var la, lb := PrintedLines(a), PrintedLines(b);
    assert |la| == |lb|;
    forall i | 0 <= i < |a| ensures a[i].name == b[i].name && a[i].count == b[i].count {
      PrintedLineAt(a, i);
      PrintedLineAt(b, i);
      assert (la + [""])[i] == (lb + [""])[i];
      LineInjective(a[i], b[i]);
    }
  }

  lemma {:induction false} FormatIgnoresFlags(es: seq<Entry>)
    ensures Format(Cleared(es)) == Format(es)
  {
    hide FormatLine;
    if es != [] {
      FormatIgnoresFlags(es[1..]);
      assert Cleared(es)[1..] == Cleared(es[1..]);
      assert FormatLine(Cleared(es)[0]) == FormatLine(es[0]) by { SameLine(es[0]); }
    }
  }

  lemma SameLine(e: Entry)
    ensures FormatLine(e.(merged := false)) == FormatLine(e)
  {
  }

  /**
   * Normalising changes nothing the second time exactly when no parsed name
   * ends in a separator and no parsed count overflowed to a negative number.
   */
  lemma NormalTwiceExactly(text: string)
    ensures Normal(Normal(text)) == Normal(text) <==> AllClean(Parse(text))
  {
    hide Parse, Format, NameKey, EntryNameLength, Trimmed;
    var es := Parse(text);
    var back := Parse(Format(es));
    ParseWellFormed(text);
    ParseWellFormed(Format(es));
    RoundTripExactly(es);
    FormatIgnoresFlags(es);
    if Normal(Normal(text)) == Normal(text) {
      FormatInjective(back, es);
      SameNamesSameLength(back, es);
      if forall i :: 0 <= i < |es| ==> CleanName(es[i].name) {
        CleanRoundTrip(es);
      } else {
        SeparatorNamesShrink(es);
      }
    }
  }

  // ----- totals -----

  function Total(rows: seq<Row>): int {
    if rows == [] then 0 else Total(rows[..|rows| - 1]) + rows[|rows| - 1].count
  }

  /** The totals of the keys of `fs`, added up. */
  function SumOver(fs: seq<Row>, rows: seq<Row>): int {
    if fs == [] then 0 else SumOver(fs[..|fs| - 1], rows) + SumFor(rows, fs[|fs| - 1].key)
  }

  lemma {:induction false} SumOverGrows(fs: seq<Row>, rows: seq<Row>, row: Row)
    requires DistinctRows(fs)
    ensures SumOver(fs, rows + [row])
            == SumOver(fs, rows) + if exists i :: 0 <= i < |fs| && fs[i].key == row.key then row.count else 0
  {
    assert (rows + [row])[..|rows|] == rows;
    if fs != [] {
      var init := fs[..|fs| - 1];
      SumOverGrows(init, rows, row);
      if fs[|fs| - 1].key == row.key {
        assert forall i :: 0 <= i < |init| ==> fs[i].key != row.key;
      } else if exists i :: 0 <= i < |fs| && fs[i].key == row.key {
        var i :| 0 <= i < |fs| && fs[i].key == row.key;
        assert init[i].key == row.key;
      }
    }
  }

  lemma {:induction false} LinesHaveFirst(rows: seq<Row>, key: string)
    requires LinesFor(rows, key) > 0
    ensures exists i :: 0 <= i < |Firsts(rows)| && Firsts(rows)[i].key == key
  {
    var init := rows[..|rows| - 1];
    if LinesFor(init, key) > 0 {
      LinesHaveFirst(init, key);
      var i :| 0 <= i < |Firsts(init)| && Firsts(init)[i].key == key;
      assert Firsts(rows)[i].key == key;
    } else {
      assert Firsts(rows)[|Firsts(init)|].key == key;
    }
  }

  lemma FirstsSnoc(init: seq<Row>, row: Row)
    ensures Firsts(init + [row]) == if LinesFor(init, row.key) == 0 then Firsts(init) + [row] else Firsts(init)
  {
    assert (init + [row])[..|init|] == init;
  }

  lemma SumsSnoc(init: seq<Row>, row: Row, rows: seq<Row>, key: string)
    ensures Total(init + [row]) == Total(init) + row.count
    ensures SumOver(init + [row], rows) == SumOver(init, rows) + SumFor(rows, row.key)
    ensures SumFor(init + [row], key) == SumFor(init, key) + if row.key == key then row.count else 0
  {
    assert (init + [row])[..|init|] == init;
  }

  /** No diaper is lost or counted twice: the per-key sums add up to all the lines. */
  lemma {:induction false} MergeConserves(rows: seq<Row>)
    ensures SumOver(Firsts(rows), rows) == Total(rows)
  {
    hide Firsts, LinesFor, SumFor, SumOver, Total;
    if rows == [] {
      NoRows();
    } else {
      var init, row := rows[..|rows| - 1], rows[|rows| - 1];
      var fs := Firsts(init);
      assert rows == init + [row];
      MergeConserves(init);
      forall i, j | 0 <= i < j < |fs| ensures fs[i].key != fs[j].key { FirstsDistinct(init, i, j); }
      SumOverGrows(fs, init, row);
      FirstsSnoc(init, row);
      SumsSnoc(init, row, rows, row.key);
      if LinesFor(init, row.key) == 0 {
        forall i | 0 <= i < |fs| ensures fs[i].key != row.key { FirstsHaveLines(init, i); }
        NoLinesNoSum(init, row.key);
        SumsSnoc(fs, row, rows, row.key);
      } else {
        LinesHaveFirst(init, row.key);
      }
    }
  }

  lemma NoRows()
    ensures Firsts([]) == [] && SumOver([], []) == 0 && Total([]) == 0
  {
  }

  /** Which lines found an entry: exactly those whose key has not been seen, in order. */
  lemma {:induction false} FirstsAreEarliest(rows: seq<Row>) returns (at: seq<nat>)
    ensures |at| == |Firsts(rows)|
    ensures forall i :: 0 <= i < |at| ==> at[i] < |rows| && rows[at[i]] == Firsts(rows)[i]
    ensures forall i, j :: 0 <= i < j < |at| ==> at[i] < at[j]
    ensures forall n: nat :: n in at <==> Earliest(rows, n)
  {
    hide Earliest;
    if rows == [] {
      at := [];
      assert forall n: nat :: !Earliest(rows, n) by { NoneEarliest(); }
    } else {
      var init, row := rows[..|rows| - 1], rows[|rows| - 1];
      at := FirstsAreEarliest(init);
      forall n: nat ensures Earliest(rows, n) <==> if n == |init| then LinesFor(init, row.key) == 0 else Earliest(init, n) {
        EarliestStep(rows, n);
      }
      assert |init| !in at;
      if LinesFor(init, row.key) == 0 { at := at + [|init|]; }
    }
  }

  ghost predicate Earliest(rows: seq<Row>, n: nat) {
    n < |rows| && forall m :: 0 <= m < n ==> rows[m].key != rows[n].key
  }

  lemma NoneEarliest()
    ensures forall n: nat :: !Earliest([], n)
  {
  }

  lemma EarliestStep(rows: seq<Row>, n: nat)
    requires rows != []
    ensures var init, row := rows[..|rows| - 1], rows[|rows| - 1];
            Earliest(rows, n) <==> if n == |init| then LinesFor(init, row.key) == 0 else Earliest(init, n)
  {
    var init, row := rows[..|rows| - 1], rows[|rows| - 1];
    SeenBefore(init, row.key);
  }

  lemma {:induction false} SeenBefore(rows: seq<Row>, key: string)
    ensures LinesFor(rows, key) > 0 <==> exists m :: 0 <= m < |rows| && rows[m].key == key
  {
    if rows != [] {
      var init := rows[..|rows| - 1];
      SeenBefore(init, key);
      if exists m :: 0 <= m < |rows| && rows[m].key == key {
        var m :| 0 <= m < |rows| && rows[m].key == key;
        assert m < |init| ==> init[m].key == key;
      }
    }
  }

  // ----- when two passes are enough -----

  function RowsIn(text: string): seq<Row> { RowsOf(Split(text, '\n')) }

  predicate NonNegative(rows: seq<Row>) { forall i :: 0 <= i < |rows| ==> rows[i].count >= 0 }

  lemma {:induction false} SumsWithinTotal(rows: seq<Row>, key: string)
    requires NonNegative(rows)
    ensures 0 <= SumFor(rows, key) <= Total(rows)
  {
    if rows != [] { SumsWithinTotal(rows[..|rows| - 1], key); }
  }

  /** If all the lines together fit in an int64, no count overflows. */
  lemma NoOverflow(text: string)
    requires Total(RowsIn(text)) <= MAX_INT64
    ensures |Parse(text)| == |Firsts(RowsIn(text))|
    ensures forall i :: 0 <= i < |Parse(text)| ==>
      Parse(text)[i].count == SumFor(RowsIn(text), Parse(text)[i].key) && Parse(text)[i].count >= 0
  {
    hide RowsOf, Split, NameKey, Firsts, SumFor, LinesFor, Trimmed;
    var rows := RowsIn(text);
    RowsAreGood(Split(text, '\n'));
    forall i | 0 <= i < |Merge(rows)|
      ensures Merge(rows)[i].count == SumFor(rows, Merge(rows)[i].key) && Merge(rows)[i].count >= 0
    {
      SumsWithinTotal(rows, Firsts(rows)[i].key);
    }
  }

  function EntryTotal(es: seq<Entry>): int {
    if es == [] then 0 else EntryTotal(es[..|es| - 1]) + es[|es| - 1].count
  }

  lemma {:induction false} EntryTotalIs(es: seq<Entry>, fs: seq<Row>, rows: seq<Row>)
    requires |es| == |fs| && forall i :: 0 <= i < |es| ==> es[i].count == SumFor(rows, fs[i].key)
    ensures EntryTotal(es) == SumOver(fs, rows)
  {
    if es != [] { EntryTotalIs(es[..|es| - 1], fs[..|fs| - 1], rows); }
  }

  /** The parsed entries hold every diaper on the page, unless the sum exceeds an int64. */
  lemma ParseConserves(text: string)
    requires Total(RowsIn(text)) <= MAX_INT64
    ensures EntryTotal(Parse(text)) == Total(RowsIn(text))
  {
    hide RowsOf, Split, NameKey, Firsts, SumFor, LinesFor, Trimmed, Wrap, EntryTotal, SumOver, Total;
    var rows := RowsIn(text);
    NoOverflow(text);
    MergeConserves(rows);
    EntryTotalIs(Parse(text), Firsts(rows), rows);
  }

  lemma {:induction false} PrintedTotal(es: seq<Entry>)
    requires forall i :: 0 <= i < |es| ==> es[i].count >= 0 && InInt64(es[i].count) && '\t' !in es[i].name
    ensures Total(RowsOf(PrintedLines(es))) <= EntryTotal(es)
  {
    hide ParseRow, NameKey, Reread, FormatLine;
    if es != [] {
      var init, last := es[..|es| - 1], es[|es| - 1];
      PrintedTotal(init);
      PrintedLineParses(last);
      assert PrintedLines(es)[..|es| - 1] == PrintedLines(init);
      var rows, row := RowsOf(PrintedLines(init)), ParseRow(FormatLine(last));
      if row.Some? { assert (rows + [row.value])[..|rows|] == rows; }
    }
  }

  /** Every white-space character is one the pattern's \s knows. */
  predicate PlainSpaces(s: string) { forall c :: c in s && IsSpace(c) ==> IsReSpace(c) }

  lemma PlainNameStripsOnce(name: string)
    requires PlainSpaces(name)
    ensures !EndsInPunct(Reread(name))
  {
    hide DropRight, TrimSpace, IsSpace, PlainSpaces;
    var group := DropRight(name, IsSep);
    if group != "" {
      PlainEdge(name, group[|group| - 1]);
      TrimKeepsEnd(group);
      var t := TrimSpace(group);
      DropRightIs(t, |t|, IsPunct);
      assert t[..|t|] == t;
    }
  }

  lemma TrimKeepsEnd(s: string)
    requires s != "" && !IsSpace(s[|s| - 1])
    ensures TrimSpace(s) != "" && TrimSpace(s)[|TrimSpace(s)| - 1] == s[|s| - 1]
  {
    hide DropRight, IsSpace;
    DropRightIs(s, |s|, IsSpace);
    assert s[..|s|] == s;
  }

  lemma PlainEdge(name: string, c: char)
    requires PlainSpaces(name) && c in name && !IsSep(c)
    ensures !IsSpace(c) && !IsPunct(c)
  {
  }

  lemma {:induction false} PrintedPlainRows(es: seq<Entry>)
    requires forall i :: 0 <= i < |es| ==> PlainSpaces(es[i].name) && InInt64(es[i].count) && '\t' !in es[i].name
    ensures forall i :: 0 <= i < |RowsOf(PrintedLines(es))| ==> !EndsInPunct(RowsOf(PrintedLines(es))[i].name)
  {
    hide ParseRow, NameKey, Reread, FormatLine, EndsInPunct, PlainSpaces;
    if es != [] {
      var init, last := es[..|es| - 1], es[|es| - 1];
      PrintedPlainRows(init);
      PrintedLineParses(last);
      PlainNameStripsOnce(last.name);
      assert PrintedLines(es)[..|es| - 1] == PrintedLines(init);
    }
  }

  lemma {:induction false} RowNamesFromLines(lines: seq<string>)
    ensures forall i, c :: 0 <= i < |RowsOf(lines)| && c in RowsOf(lines)[i].name ==>
      exists j :: 0 <= j < |lines| && c in lines[j]
  {
    hide ParseRow, NameKey;
    if lines != [] {
      var init, last := lines[..|lines| - 1], lines[|lines| - 1];
      RowNamesFromLines(init);
      RowNameChars(last);
      forall i, c | 0 <= i < |RowsOf(lines)| && c in RowsOf(lines)[i].name
        ensures exists j :: 0 <= j < |lines| && c in lines[j]
      {
        if i < |RowsOf(init)| {
          var j :| 0 <= j < |init| && c in init[j];
          assert c in lines[j];
        } else {
          assert c in lines[|lines| - 1];
        }
      }
    }
  }

  lemma ParsedNamesPlain(text: string)
    requires PlainSpaces(text)
    ensures forall i :: 0 <= i < |Parse(text)| ==> PlainSpaces(Parse(text)[i].name)
  {
    hide RowsOf, NameKey, Firsts, SumFor, LinesFor, Wrap, IsSpace, IsReSpace, Join;
    var lines := Split(text, '\n');
    var rows := RowsOf(lines);
    RowNamesFromLines(lines);
    forall i | 0 <= i < |Merge(rows)| ensures PlainSpaces(Merge(rows)[i].name) {
      FirstsAreRows(rows, i);
      var n :| 0 <= n < |rows| && rows[n] == Firsts(rows)[i];
      forall c | c in rows[n].name ensures c in text {
        var j :| 0 <= j < |lines| && c in lines[j];
      }
    }
  }

  // ----- what a printed roster parses to -----

  /** The rows a printed roster comes back as: names reread, empty ones dropped, negative counts now zero. */
  function Rereads(es: seq<Entry>): (rows: seq<Row>) {
    if es == [] then []
    else
      var init, e := Rereads(es[..|es| - 1]), es[|es| - 1];
      var name := Reread(e.name);
      if name == "" then init else init + [Row(name, NameKey(name), Max(e.count, 0))]
  }

  lemma {:induction false} PrintedRowsAre(es: seq<Entry>)
    requires forall i :: 0 <= i < |es| ==> '\t' !in es[i].name && InInt64(es[i].count)
    ensures RowsOf(PrintedLines(es)) == Rereads(es)
  {
    hide ParseRow, NameKey, Reread, FormatLine, RowsOf, PrintedLines;
    if es == [] {
      NoPrintedRows();
    } else {
      PrintedRowsAre(es[..|es| - 1]);
      PrintedRowsSnoc(es);
      PrintedLineParses(es[|es| - 1]);
    }
  }

  lemma NoPrintedRows()
    ensures RowsOf(PrintedLines([])) == []
  {
  }

  lemma SecondParseIs(text: string)
    ensures var rows := Rereads(Parse(text));
            && Parse(Normal(text)) == Merge(rows)
            && forall i :: 0 <= i < |rows| ==> GoodRow(rows[i])
  {
    hide Parse, RowsOf, PrintedLines, Rereads, Split, Merge, Format, NameKey, GoodRow, Trimmed, Join;
    var es := Parse(text);
    ParseWellFormed(text);
    RowsOfPrinted(es);
    PrintedRowsAre(es);
    ParseIs(Format(es));
    RowsAreGood(Split(Format(es), '\n'));
  }

  lemma ParseIs(text: string)
    ensures Parse(text) == Merge(RowsOf(Split(text, '\n')))
  {
  }

  /** A key ends in a separator exactly when its name does. */
  lemma KeyEndsAlike(name: string)
    requires name != "" && Trimmed(name)
    ensures EndsInPunct(NameKey(name)) <==> EndsInPunct(name)
  {
    hide Collapse, TrimSpace;
    var low := ToLower(name);
    NameKeys.SpacesAreSpaces();
    NameKeys.CollapseLast(low);
  }

  /** No row ends in a separator and no key's counts overflow to a negative sum. */
  predicate Settled(rows: seq<Row>) {
    forall i :: 0 <= i < |rows| ==> !EndsInPunct(rows[i].name) && Wrap(SumFor(rows, rows[i].key)) >= 0
  }

  lemma MergedCleanExactly(rows: seq<Row>)
    requires forall i :: 0 <= i < |rows| ==> GoodRow(rows[i])
    ensures AllClean(Merge(rows)) <==> Settled(rows)
  {
    hide Firsts, LinesFor, SumFor, Wrap, NameKey, Trimmed, EndsInPunct;
    var es, fs := Merge(rows), Firsts(rows);
    forall j | 0 <= j < |fs| ensures fs[j] in rows { FirstsAreRows(rows, j); }
    if AllClean(es) {
      forall i | 0 <= i < |rows| ensures !EndsInPunct(rows[i].name) && Wrap(SumFor(rows, rows[i].key)) >= 0 {
        var key := rows[i].key;
        SeenBefore(rows, key);
        LinesHaveFirst(rows, key);
        var j :| 0 <= j < |fs| && fs[j].key == key;
        assert es[j].name == fs[j].name && es[j].count == Wrap(SumFor(rows, key)) && CleanName(es[j].name);
        assert GoodRow(fs[j]);
        KeyEndsAlike(rows[i].name);
        KeyEndsAlike(fs[j].name);
      }
    }
    if Settled(rows) {
      forall j | 0 <= j < |es| ensures CleanName(es[j].name) && es[j].count >= 0 {
        var i :| 0 <= i < |rows| && rows[i] == fs[j];
        assert es[j].name == fs[j].name && es[j].count == Wrap(SumFor(rows, fs[j].key));
      }
    }
  }

  /**
   * Three passes equal two exactly when, of the rows the first parse prints
   * and reads back, none ends in a separator and no key's sum overflows.
   */
  lemma NormalThriceExactly(text: string)
    ensures Normal(Normal(Normal(text))) == Normal(Normal(text)) <==> Settled(Rereads(Parse(text)))
  {
    hide Normal, Parse, AllClean, Settled, Rereads, Merge, GoodRow;
    NormalTwiceExactly(Normal(text));
    SecondParseIs(text);
    MergedCleanExactly(Rereads(Parse(text)));
  }

  /** Always so when every blank is one the pattern knows and the lines add up within an int64. */
  lemma PlainTextSettlesInTwo(text: string)
    requires PlainSpaces(text) && Total(RowsIn(text)) <= MAX_INT64
    ensures Normal(Normal(Normal(text))) == Normal(Normal(text))
  {
    hide Normal, Parse, PlainSpaces, Total, RowsIn, AllClean;
    NormalTwiceExactly(Normal(text));
    SecondParseClean(text);
  }

  lemma SecondParseClean(text: string)
    requires PlainSpaces(text) && Total(RowsIn(text)) <= MAX_INT64
    ensures AllClean(Parse(Normal(text)))
  {
    hide RowsOf, Split, NameKey, Firsts, SumFor, LinesFor, Wrap, Trimmed, PlainSpaces, EntryTotal, Total, EndsInPunct, PrintedLines;
    var es := Parse(text);
    ParseWellFormed(text);
    NoOverflow(text);
    ParseConserves(text);
    ParsedNamesPlain(text);
    PrintedPlainRows(es);
    PrintedTotal(es);
    RowsOfPrinted(es);
    var back := Parse(Normal(text));
    ParseWellFormed(Normal(text));
    NoOverflow(Normal(text));
    forall i | 0 <= i < |back| ensures !EndsInPunct(back[i].name) {
      FirstsAreRows(RowsIn(Normal(text)), i);
    }
  }

  // ----- texts that need another pass -----

  /** "name<tab>count" keeps the name as it stands, separators at its end included. */
  lemma TabLineParses(name: string, n: nat)
    requires name != "" && Trimmed(name) && '\t' !in name && '\n' !in name && n <= MAX_INT64
    ensures Parse(name + "\t" + FormatInt(n)) == [Entry(name, NameKey(name), n, false)]
  {
    hide Split, NameKey, FormatInt, ParseRow;
    var c := FormatInt(n);
    var text := name + "\t" + c;
    TabRow(name, n);
    assert '\n' !in text;
    OneRow(text, Row(name, NameKey(name), n));
    MergeDistinct([Row(name, NameKey(name), n)]);
  }

  lemma TabRow(name: string, n: nat)
    requires name != "" && Trimmed(name) && '\t' !in name && n <= MAX_INT64
    ensures ParseRow(name + "\t" + FormatInt(n)) == Some(Row(name, NameKey(name), n))
  {
    hide Split, NameKey, FormatInt, DropRight, TrimSpace, ParseCount, ParseLine;
    var c := FormatInt(n);
    var text := name + "\t" + c;
    TabLine(name, n);
    assert text[|text| - 1] == c[|c| - 1] && text[0] == name[0];
    DropRightIs(text, |text|, IsReturn);
    assert text[..|text|] == text;
    assert !IsSpace(text[|text| - 1]) && IsDigit(c[|c| - 1]);
  }

  lemma TabLine(name: string, n: nat)
    requires Trimmed(name) && '\t' !in name && n <= MAX_INT64
    ensures ParseLine(name + "\t" + FormatInt(n)) == (name, n as int)
  {
    hide Split, FormatInt, DropRight, Trimmed, ParseCount, ShortestName, IsCountText;
    FormattedCount(n);
    TabFields(name, FormatInt(n));
  }

  lemma TabFields(name: string, c: string)
    requires '\t' !in name && '\t' !in c && ParseCount(c).Some?
    ensures Split(name + "\t" + c, '\t') == [name, c] && FirstCount([name, c][1..]) == ParseCount(c)
  {
    hide Split, ParseCount;
    SplitFirst(name, '\t', c);
    assert [name] + [c] == [name, c] && [name, c][1..] == [c];
  }

  /** So a tab-separated name ending in a separator is never in normal form after one pass. */
  lemma SeparatorNameNeedsSecondPass(name: string, n: nat)
    requires name != "" && Trimmed(name) && EndsInPunct(name) && '\t' !in name && '\n' !in name && n <= MAX_INT64
    ensures var text := name + "\t" + FormatInt(n); Normal(Normal(text)) != Normal(text)
  {
    hide Normal, Parse, NameKey, Trimmed, EndsInPunct;
    TabLineParses(name, n);
    NormalTwiceExactly(name + "\t" + FormatInt(n));
    assert [Entry(name, NameKey(name), n, false)][0].name == name;
  }

  /**
   * A no-break space is white space to the trimmer but not to the pattern, so
   * each reading back strips only two of the groups at the end of this name.
   */
  function SlowName(k: nat): (name: string)
    ensures |name| == 2 + 2 * k && name[0] == 'a' && name[|name| - 1] == ','
    ensures forall c :: c in name ==> c == 'a' || c == ',' || c == '\U{00A0}'
  {
    if k == 0 then ['a', ','] else SlowName(k - 1) + ['\U{00A0}', ',']
  }

  lemma SlowReread(k: nat)
    ensures Reread(SlowName(k + 2)) == SlowName(k)
  {
    hide DropLeft, DropRight, TrimSpace, SlowName;
    var nb := '\U{00A0}';
    var s, n := SlowName(k), |SlowName(k)|;
    var long := SlowName(k + 2);
    SlowNameTwice(k);
    assert long == s + [nb, ',', nb, ','];
    DropRightIs(long, n + 3, IsSep);
    SlowStrip(s, long[..n + 3]);
  }

  lemma SlowNameTwice(k: nat)
    ensures SlowName(k + 2) == SlowName(k) + ['\U{00A0}', ',', '\U{00A0}', ',']
  {
    assert SlowName(k + 2) == SlowName(k + 1) + ['\U{00A0}', ','];
    assert SlowName(k + 1) == SlowName(k) + ['\U{00A0}', ','];
  }

  lemma SlowStrip(s: string, group: string)
    requires |s| >= 2 && s[0] == 'a' && s[|s| - 1] == ',' && group == s + ['\U{00A0}', ',', '\U{00A0}']
    ensures StripName(group) == s
  {
    hide DropLeft, DropRight, TrimSpace;
    var nb, n := '\U{00A0}', |s|;
    TrimSpaceIs(group, n + 2);
    assert group[..n + 2] == s + [nb, ','];
    DropRightIs(s + [nb, ','], n + 1, IsPunct);
    assert (s + [nb, ','])[..n + 1] == s + [nb];
    TrimSpaceIs(s + [nb], n);
    assert (s + [nb])[..n] == s;
  }

  lemma TrimSpaceIs(s: string, n: nat)
    requires 0 < n <= |s| && !IsSpace(s[0]) && !IsSpace(s[n - 1])
    requires forall i :: n <= i < |s| ==> IsSpace(s[i])
    ensures TrimSpace(s) == s[..n]
  {
    hide DropRight, IsSpace;
    DropRightIs(s, n, IsSpace);
  }

  // ----- any number of passes -----

  function Passes(text: string, n: nat): string
    decreases n
  {
    if n == 0 then text else Passes(Normal(text), n - 1)
  }

  lemma {:induction false} OneMorePass(text: string, n: nat)
    ensures Passes(text, n + 1) == Normal(Passes(text, n))
    decreases n
  {
    hide Normal;
    if n > 0 { OneMorePass(Normal(text), n - 1); }
  }

  lemma PassSettlesExactly(text: string, n: nat)
    ensures Passes(text, n + 2) == Passes(text, n + 1) <==> AllClean(Parse(Passes(text, n)))
  {
    hide Normal, Passes, Parse, AllClean;
    OneMorePass(text, n);
    OneMorePass(text, n + 1);
    NormalTwiceExactly(Passes(text, n));
  }

  lemma CleanAgain(text: string)
    requires AllClean(Parse(text))
    ensures AllClean(Parse(Normal(text)))
  {
    hide Parse, CleanName, GoodEntry;
    ParseWellFormed(text);
    RoundTripExactly(Parse(text));
  }

  /** What one pass achieves on an unclean parse: shorter names, or a clean parse. */
  lemma PassProgresses(text: string)
    ensures var es, back := Parse(text), Parse(Normal(text));
            EntryNameLength(back) < EntryNameLength(es) || AllClean(back)
  {
    hide Parse, Trimmed, NameKey, EntryNameLength, EndsInPunct;
    var es := Parse(text);
    ParseWellFormed(text);
    if SomeEndsInPunct(es) {
      SeparatorNamesShrink(es);
    } else {
      assert forall i :: 0 <= i < |es| ==> CleanName(es[i].name);
      CleanRoundTrip(es);
    }
  }

  lemma {:induction false} CleanByThen(text: string, n: nat)
    requires n > EntryNameLength(Parse(text)) || AllClean(Parse(text)) || (n > 0 && AllClean(Parse(Normal(text))))
    ensures AllClean(Parse(Passes(text, n)))
    decreases n
  {
    hide Parse, Normal, AllClean, EntryNameLength;
    if n > 0 {
      if AllClean(Parse(text)) { CleanAgain(text); }
      PassProgresses(text);
      CleanByThen(Normal(text), n - 1);
    }
  }

  /** Normalising settles for every text, overflow and odd blanks included: within the length of its names, and two more passes. */
  lemma EveryTextSettles(text: string, n: nat)
    requires n >= EntryNameLength(Parse(text)) + 2
    ensures Passes(text, n + 1) == Passes(text, n)
  {
    hide Parse, Passes, AllClean, EntryNameLength;
    CleanByThen(text, n - 1);
    PassSettlesExactly(text, n - 1);
  }

  function SlowEntry(k: nat, count: nat): Entry { Entry(SlowName(k), NameKey(SlowName(k)), count, false) }

  lemma SlowStep(text: string, k: nat, count: nat)
    requires Parse(text) == [SlowEntry(k + 2, count)] && count <= MAX_INT64
    ensures Parse(Normal(text)) == [SlowEntry(k, count)]
  {
    hide Parse, Normal, NameKey, Reread, SlowName;
    SlowReread(k);
    SecondParseIs(text);
    var e := SlowEntry(k + 2, count);
    assert [e][..0] == [];
    var row := Row(SlowName(k), NameKey(SlowName(k)), count);
    assert Rereads([]) == [];
    assert Rereads([e]) == [row];
    MergeDistinct([row]);
  }

  lemma {:induction false} SlowPasses(text: string, n: nat, count: nat)
    requires Parse(text) == [SlowEntry(2 * n, count)] && count <= MAX_INT64
    ensures !AllClean(Parse(Passes(text, n)))
    decreases n
  {
    hide Parse, Normal, SlowEntry, AllClean;
    if n == 0 {
      SlowIsUnclean(count);
    } else {
      SlowStep(text, 2 * (n - 1), count);
      SlowPasses(Normal(text), n - 1, count);
    }
  }

  lemma SlowIsUnclean(count: nat)
    ensures !AllClean([SlowEntry(0, count)])
  {
    assert EndsInPunct([SlowEntry(0, count)][0].name);
  }

  /** No fixed number of passes is enough for every text: this one still changes on pass n + 2. */
  lemma SlowText(n: nat, count: nat)
    requires count <= MAX_INT64
    ensures var text := SlowName(2 * n) + "\t" + FormatInt(count); Passes(text, n + 2) != Passes(text, n + 1)
  {
    hide Parse, Passes, FormatInt, SlowName, AllClean, NameKey;
    var text := SlowName(2 * n) + "\t" + FormatInt(count);
    SlowNameTrimmed(2 * n);
    TabLineParses(SlowName(2 * n), count);
    SlowPasses(text, n, count);
    PassSettlesExactly(text, n);
  }

  lemma SlowNameTrimmed(k: nat)
    ensures SlowName(k) != "" && Trimmed(SlowName(k)) && '\t' !in SlowName(k) && '\n' !in SlowName(k)
  {
    hide SlowName;
  }

  lemma TwoPassesCanBeTooFew()
    ensures var text := "a,\U{00A0},\U{00A0},\t3"; Normal(Normal(Normal(text))) != Normal(Normal(text))
  {
    hide Normal, FormatInt;
    SlowText(1, 3);
    SlowTextIs();
    var text := SlowName(2) + "\t" + FormatInt(3);
    ThreePasses(text);
  }

  lemma SlowTextIs()
    ensures SlowName(2) + "\t" + FormatInt(3) == "a,\U{00A0},\U{00A0},\t3"
  {
    SlowNameTwice(0);
    assert Digits(3) == [DigitChar(3)];
  }

  lemma ThreePasses(text: string)
    ensures Passes(text, 2) == Normal(Normal(text)) && Passes(text, 3) == Normal(Normal(Normal(text)))
  {
    hide Normal;
    assert Passes(text, 0) == text;
    OneMorePass(text, 0);
    OneMorePass(text, 1);
    OneMorePass(text, 2);
  }

  lemma OneRow(line: string, row: Row)
    requires ParseRow(line) == Some(row)
    ensures RowsOf([line]) == [row]
  {
    hide ParseRow;
    assert [line][..0] == [];
  }

  lemma TwoRows(a: string, b: string, first: Row, second: Row)
    requires ParseRow(a) == Some(first) && ParseRow(b) == Some(second)
    ensures RowsOf([a, b]) == [first, second]
  {
    hide ParseRow;
    assert [a, b][..1] == [a];
    OneRow(a, first);
  }

  lemma TwoLines(a: string, b: string)
    requires '\n' !in a && '\n' !in b
    ensures Split(a + "\n" + b, '\n') == [a, b]
  {
    hide Split;
    SplitFirst(a, '\n', b);
    assert [a] + [b] == [a, b];
  }

  /** A letter and a separator: printed with the separator, read back without. */
  lemma LetterAndPunct(c: char)
    requires IsPunct(c)
    ensures NameKey(['a', c]) == ['a', c] && Reread(['a', c]) == "a"
  {
    hide DropRight, TrimSpace, Collapse, IsSpace, IsPunct, IsSep;
    var s := ['a', c];
    PunctIsNoSpace(c);
    PlainLetter();
    assert ToLower(s) == s;
    CollapseTwo('a', c);
    DropRightIs(s, 1, IsSep);
    DropRightIs("a", 1, IsPunct);
    assert s[..1] == "a" && "a"[..1] == "a";
  }

  lemma CollapseTwo(a: char, b: char)
    requires !IsReSpace(a) && !IsReSpace(b)
    ensures Collapse([a, b]) == [a, b]
  {
    hide IsReSpace, DropLeft;
    assert [a, b][1..] == [b] && [b][1..] == "";
    assert Collapse([b]) == [b] + Collapse("");
  }

  lemma PlainLetter()
    ensures !IsSpace('a') && !IsReSpace('a') && LowerChar('a') == 'a' && !IsSep('a') && !IsPunct('a')
  {
  }

  lemma PunctIsNoSpace(c: char)
    requires IsPunct(c)
    ensures !IsSpace(c) && !IsReSpace(c) && LowerChar(c) == c && IsSep(c)
  {
  }

  lemma RereadTwice(first: Entry, second: Entry)
    requires Reread(first.name) == Reread(second.name) != "" && first.count >= 0 && second.count >= 0
    ensures var name := Reread(first.name);
            Rereads([first, second]) == [Row(name, NameKey(name), first.count), Row(name, NameKey(name), second.count)]
  {
    hide Reread, NameKey;
    assert [first, second][..1] == [first] && [first][..0] == [];
    assert Rereads([first]) == [Row(Reread(first.name), NameKey(Reread(first.name)), first.count)];
  }

  lemma SumOfTwo(a: Row, b: Row)
    requires a.key == b.key
    ensures SumFor([a, b], a.key) == a.count + b.count
  {
    assert [a, b][..1] == [a] && [a][..0] == [];
    assert SumFor([a], a.key) == a.count;
  }

  /** Counts that overflow when the names run together are the other way that two passes can be too few. */
  lemma OverflowNeedsThirdPass(m: nat, n: nat)
    requires m <= MAX_INT64 && n <= MAX_INT64 && m + n > MAX_INT64
    ensures var text := "a,\t" + FormatInt(m) + "\n" + "a;\t" + FormatInt(n);
            Parse(text) == [Entry("a,", "a,", m, false), Entry("a;", "a;", n, false)]
            && Normal(Normal(Normal(text))) != Normal(Normal(text))
  {
    hide Normal, FormatInt, ParseRow, RowsOf, Split, Merge, NameKey, Reread, Rereads, SumFor;
    var first, second := "a,\t" + FormatInt(m), "a;\t" + FormatInt(n);
    var text := "a,\t" + FormatInt(m) + "\n" + "a;\t" + FormatInt(n);
    assert text == first + "\n" + second;
    assert first == "a," + "\t" + FormatInt(m) && second == "a;" + "\t" + FormatInt(n);
    LetterAndPunct(',');
    LetterAndPunct(';');
    TabRow("a,", m);
    TabRow("a;", n);
    TwoLines(first, second);
    var a, b := Row("a,", "a,", m), Row("a;", "a;", n);
    TwoRows(first, second, a, b);
    MergeDistinct([a, b]);
    var es := Parse(text);
    assert es == [Entry("a,", "a,", m, false), Entry("a;", "a;", n, false)];
    RereadTwice(es[0], es[1]);
    var rows := Rereads(es);
    SumOfTwo(rows[0], rows[1]);
    assert rows[0].key == NameKey("a") && Wrap(SumFor(rows, rows[0].key)) < 0;
    NormalThriceExactly(text);
  }
}
