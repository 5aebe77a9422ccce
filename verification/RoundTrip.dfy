/** Printing a roster and parsing it back: exactly when nothing changes. */
module RoundTrip {
  import opened Wrappers
  import opened Text
  import opened Decimal
  import opened Float64
  import opened Roster
  import opened TrailingCount

  predicate DistinctKeys(es: seq<Entry>) {
    forall i, j :: 0 <= i < j < |es| ==> es[i].key != es[j].key
  }

  /** What both the parser and the guest table guarantee of an entry. */
  predicate GoodEntry(e: Entry) {
    e.name != "" && Trimmed(e.name) && e.key == NameKey(e.name) && InInt64(e.count)
  }

  predicate WellFormed(es: seq<Entry>) {
    DistinctKeys(es) && forall i :: 0 <= i < |es| ==> GoodEntry(es[i])
  }

  predicate AllClean(es: seq<Entry>) {
    forall i :: 0 <= i < |es| ==> CleanName(es[i].name) && es[i].count >= 0
  }

  function Cleared(es: seq<Entry>): (r: seq<Entry>)
    ensures |r| == |es|
    ensures forall i :: 0 <= i < |es| ==> r[i] == es[i].(merged := false)
  {
    seq(|es|, i requires 0 <= i < |es| => es[i].(merged := false))
  }

  // ----- one printed line -----

  /** What the name of a printed line parses to. */
  function Reread(name: string): (r: string)
    ensures Trimmed(r) && |r| <= |name|
  {
    StripName(DropRight(name, IsSep))
  }

  lemma PrintedLineParses(e: Entry)
    requires '\t' !in e.name && InInt64(e.count)
    ensures var name := Reread(e.name);
            ParseRow(FormatLine(e))
            == if name == "" then None else Some(Row(name, NameKey(name), Max(e.count, 0)))
  {
    hide ParseLine, StripName, DropRight, TrimSpace, NameKey, FormatInt, IsCountText, ParseCount, WholeValue, CountValue,
      FloatLimit;
    var line := FormatLine(e);
    var n := FormatInt(e.count);
    assert line[|line| - 1] == n[|n| - 1];
    DropRightIs(line, |line|, IsReturn);
    assert line[..|line|] == line;
    assert !IsSpace(line[|e.name|]);
    FormattedCount(e.count);
    CountTextValue(n);
    ParseNameAndCount(e.name, ", ", n);
  }

  // ----- a printed roster, line by line -----

  /** The lines of a printed roster; the text ends in a newline, so the last piece is empty. */
  function PrintedLines(es: seq<Entry>): (lines: seq<string>)
    ensures |lines| == |es|
  {
    if es == [] then [] else PrintedLines(es[..|es| - 1]) + [FormatLine(es[|es| - 1])]
  }

  lemma PrintedLinesFirst(es: seq<Entry>)
    requires es != []
    ensures PrintedLines(es) == [FormatLine(es[0])] + PrintedLines(es[1..])
  {
    if |es| > 1 {
      PrintedLinesFirst(es[..|es| - 1]);
      assert es[..|es| - 1][1..] == es[1..][..|es| - 2];
    }
  }

  lemma {:induction false} SplitPrinted(es: seq<Entry>)
    requires forall i :: 0 <= i < |es| ==> '\n' !in es[i].name
    ensures Split(Format(es), '\n') == PrintedLines(es) + [""]
  {
    hide Split, PrintedLines, FormatInt;
    if es == [] {
      assert PrintedLines(es) == [];
    } else {
      assert '\n' !in FormatLine(es[0]);
      SplitFirst(FormatLine(es[0]), '\n', Format(es[1..]));
      SplitPrinted(es[1..]);
      PrintedLinesFirst(es);
    }
  }

  lemma RowsOfPrinted(es: seq<Entry>)
    requires forall i :: 0 <= i < |es| ==> '\n' !in es[i].name
    ensures RowsOf(Split(Format(es), '\n')) == RowsOf(PrintedLines(es))
  {
    hide Split, PrintedLines, ParseLine, Format;
    SplitPrinted(es);
    var lines := PrintedLines(es) + [""];
    assert lines[..|lines| - 1] == PrintedLines(es);
    assert DropRight("", IsReturn) == "" && TrimSpace("") == "";
  }

  // ----- merging rows whose keys already differ -----

  predicate DistinctRows(rows: seq<Row>) {
    forall i, j :: 0 <= i < j < |rows| ==> rows[i].key != rows[j].key
  }

  lemma {:induction false} OthersAddNothing(rows: seq<Row>, key: string)
    requires forall i :: 0 <= i < |rows| ==> rows[i].key != key
    ensures LinesFor(rows, key) == 0 && SumFor(rows, key) == 0
  {
    if rows != [] { OthersAddNothing(rows[..|rows| - 1], key); }
  }

  lemma {:induction false} OwnLineOnly(rows: seq<Row>, i: nat)
    requires i < |rows| && DistinctRows(rows)
    ensures LinesFor(rows, rows[i].key) == 1 && SumFor(rows, rows[i].key) == rows[i].count
  {
    var init := rows[..|rows| - 1];
    if i == |rows| - 1 {
      OthersAddNothing(init, rows[i].key);
    } else {
      OwnLineOnly(init, i);
    }
  }

  lemma {:induction false} FirstsOfDistinct(rows: seq<Row>)
    requires DistinctRows(rows)
    ensures Firsts(rows) == rows
  {
    if rows != [] {
      var init := rows[..|rows| - 1];
      FirstsOfDistinct(init);
      OthersAddNothing(init, rows[|rows| - 1].key);
    }
  }

  lemma MergeDistinct(rows: seq<Row>)
    requires DistinctRows(rows)
    requires forall i :: 0 <= i < |rows| ==> InInt64(rows[i].count)
    ensures |Merge(rows)| == |rows|
    ensures forall i :: 0 <= i < |rows| ==> Merge(rows)[i] == Entry(rows[i].name, rows[i].key, rows[i].count, false)
  {
    hide Firsts, SumFor, LinesFor;
    FirstsOfDistinct(rows);
    forall i | 0 <= i < |rows| ensures Merge(rows)[i] == Entry(rows[i].name, rows[i].key, rows[i].count, false) {
      OwnLineOnly(rows, i);
    }
  }

  // ----- clean names come back -----

  function CleanRow(e: Entry): Row { Row(e.name, e.key, Max(e.count, 0)) }

  lemma {:induction false} RowsOfClean(es: seq<Entry>)
    requires forall i :: 0 <= i < |es| ==> GoodEntry(es[i]) && CleanName(es[i].name)
    ensures |RowsOf(PrintedLines(es))| == |es|
    ensures forall i :: 0 <= i < |es| ==> RowsOf(PrintedLines(es))[i] == CleanRow(es[i])
  {
    hide ParseRow, NameKey, StripName, DropRight, FormatLine;
    if es != [] {
      var init, last := es[..|es| - 1], es[|es| - 1];
      RowsOfClean(init);
      PrintedLineParses(last);
      CleanNameStrips(last.name);
      assert PrintedLines(es)[..|es| - 1] == PrintedLines(init);
    }
  }

  /** For clean names the text keeps every entry; only a negative count is lost. */
  lemma CleanRoundTrip(es: seq<Entry>)
    requires WellFormed(es) && forall i :: 0 <= i < |es| ==> CleanName(es[i].name)
    ensures |Parse(Format(es))| == |es|
    ensures forall i :: 0 <= i < |es| ==>
      Parse(Format(es))[i] == Entry(es[i].name, es[i].key, Max(es[i].count, 0), false)
  {
    hide RowsOf, Split, Format, Merge, NameKey, PrintedLines;
    RowsOfPrinted(es);
    RowsOfClean(es);
    var rows := RowsOf(PrintedLines(es));
    forall i, j | 0 <= i < j < |rows| ensures rows[i].key != rows[j].key {
      assert rows[i] == CleanRow(es[i]) && rows[j] == CleanRow(es[j]);
    }
    MergeDistinct(rows);
  }

  // ----- unclean names do not -----

  function NameLength(rows: seq<Row>): nat {
    if rows == [] then 0 else NameLength(rows[..|rows| - 1]) + |rows[|rows| - 1].name|
  }

  function EntryNameLength(es: seq<Entry>): nat {
    if es == [] then 0 else EntryNameLength(es[..|es| - 1]) + |es[|es| - 1].name|
  }

  lemma {:induction false} FirstsNoLonger(rows: seq<Row>)
    ensures NameLength(Firsts(rows)) <= NameLength(rows)
  {
    if rows != [] {
      var init := rows[..|rows| - 1];
      FirstsNoLonger(init);
      assert (Firsts(init) + [rows[|rows| - 1]])[..|Firsts(init)|] == Firsts(init);
    }
  }

  lemma {:induction false} MergeNameLength(rows: seq<Row>, es: seq<Entry>)
    requires |rows| == |es| && forall i :: 0 <= i < |es| ==> es[i].name == rows[i].name
    ensures EntryNameLength(es) == NameLength(rows)
  {
    if es != [] { MergeNameLength(rows[..|rows| - 1], es[..|es| - 1]); }
  }

  predicate SomeEndsInPunct(es: seq<Entry>) { exists i :: 0 <= i < |es| && EndsInPunct(es[i].name) }

  lemma SomeEndsSnoc(es: seq<Entry>)
    requires es != []
    ensures SomeEndsInPunct(es) <==> SomeEndsInPunct(es[..|es| - 1]) || EndsInPunct(es[|es| - 1].name)
  {
    hide EndsInPunct;
    var init := es[..|es| - 1];
    if i :| 0 <= i < |es| && EndsInPunct(es[i].name) {
      if i < |init| { assert EndsInPunct(init[i].name); }
    }
    if i :| 0 <= i < |init| && EndsInPunct(init[i].name) { assert EndsInPunct(es[i].name); }
  }

  lemma PrintedRowsSnoc(es: seq<Entry>)
    requires es != []
    ensures var init := RowsOf(PrintedLines(es[..|es| - 1])); var row := ParseRow(FormatLine(es[|es| - 1]));
            RowsOf(PrintedLines(es)) == if row.Some? then init + [row.value] else init
  {
    hide ParseRow, FormatLine;
    assert PrintedLines(es)[..|es| - 1] == PrintedLines(es[..|es| - 1]);
  }

  /** Reading names back never lengthens them; a separator at the end of one shortens it. */
  lemma {:induction false} PrintedRowsShrink(es: seq<Entry>)
    requires forall i :: 0 <= i < |es| ==> es[i].name != "" && InInt64(es[i].count) && '\t' !in es[i].name
    ensures NameLength(RowsOf(PrintedLines(es))) <= EntryNameLength(es)
    ensures SomeEndsInPunct(es) ==> NameLength(RowsOf(PrintedLines(es))) < EntryNameLength(es)
  {
    hide ParseRow, NameKey, Reread, FormatLine, EndsInPunct, RowsOf, PrintedLines, NameLength, SomeEndsInPunct;
    if es == [] {
      NothingPrinted();
    } else {
      var init, last := es[..|es| - 1], es[|es| - 1];
      PrintedRowsShrink(init);
      SomeEndsSnoc(es);
      PrintedRowsSnoc(es);
      PrintedLineParses(last);
      LastShrinks(last.name);
      var row := ParseRow(FormatLine(last));
      if row.Some? { RowAdds(RowsOf(PrintedLines(init)), row.value); }
    }
  }

  lemma NothingPrinted()
    ensures NameLength(RowsOf(PrintedLines([]))) == 0 && !SomeEndsInPunct([])
  {
  }

  lemma RowAdds(rows: seq<Row>, row: Row)
    ensures NameLength(rows + [row]) == NameLength(rows) + |row.name|
  {
    assert (rows + [row])[..|rows|] == rows;
  }

  lemma LastShrinks(name: string)
    ensures EndsInPunct(name) ==> |Reread(name)| < |name|
  {
    if EndsInPunct(name) { UncleanNameShrinks(name); }
  }

  /** A name that ends in a separator makes the reread names shorter in total. */
  lemma SeparatorNamesShrink(es: seq<Entry>)
    requires forall i :: 0 <= i < |es| ==> GoodEntry(es[i]) && '\t' !in es[i].name && '\n' !in es[i].name
    requires SomeEndsInPunct(es)
    ensures EntryNameLength(Parse(Format(es))) < EntryNameLength(es)
  {
    hide RowsOf, Split, Format, NameKey, PrintedLines, Firsts, SumFor, LinesFor, EntryNameLength, NameLength;
    RowsOfPrinted(es);
    PrintedRowsShrink(es);
    var rows := RowsOf(PrintedLines(es));
    FirstsNoLonger(rows);
    MergeNameLength(Firsts(rows), Merge(rows));
  }

  lemma {:induction false} SameNamesSameLength(a: seq<Entry>, b: seq<Entry>)
    requires |a| == |b| && forall i :: 0 <= i < |a| ==> a[i].name == b[i].name
    ensures EntryNameLength(a) == EntryNameLength(b)
  {
    if a != [] { SameNamesSameLength(a[..|a| - 1], b[..|b| - 1]); }
  }

  // ----- what any parsed roster looks like -----

  lemma ParsedNameChars(line: string)
    ensures '\t' !in ParseLine(line).0
    ensures forall c :: c in ParseLine(line).0 ==> c in line
  {
    hide ParseCount, FirstCount, MatchesAt, CountAfter, DropRight, TrimSpace, IsCountText;
    if '\t' in line {
      var field := Split(line, '\t')[0];
      assert forall c :: c in TrimSpace(field) ==> c in field;
    } else {
      assert forall c :: c in TrimSpace(line) ==> c in line;
      var m := ShortestName(line, 0);
      if m.Some? {
        assert forall c :: c in line[..m.value] ==> c in line;
      }
    }
  }

  lemma RowNameChars(raw: string)
    ensures ParseRow(raw).Some? ==>
              var row := ParseRow(raw).value;
              row.key == NameKey(row.name) && '\t' !in row.name && forall c :: c in row.name ==> c in raw
  {
    hide ParseLine, NameKey, TrimSpace;
    var line := DropRight(raw, IsReturn);
    ParsedNameChars(line);
    assert forall c :: c in line ==> c in raw;
  }

  predicate GoodRow(row: Row) {
    row.name != "" && Trimmed(row.name) && row.key == NameKey(row.name) && 0 <= row.count <= MAX_INT64
    && '\t' !in row.name && '\n' !in row.name
  }

  lemma {:induction false} RowsAreGood(lines: seq<string>)
    requires forall i :: 0 <= i < |lines| ==> '\n' !in lines[i]
    ensures forall i :: 0 <= i < |RowsOf(lines)| ==> GoodRow(RowsOf(lines)[i])
  {
    hide ParseRow, NameKey;
    if lines != [] {
      RowsAreGood(lines[..|lines| - 1]);
      RowNameChars(lines[|lines| - 1]);
    }
  }

  lemma {:induction false} FirstsAreRows(rows: seq<Row>, i: nat)
    requires i < |Firsts(rows)|
    ensures Firsts(rows)[i] in rows
  {
    var init := rows[..|rows| - 1];
    if i < |Firsts(init)| { FirstsAreRows(init, i); }
  }

  /** Every roster text parses to well-formed entries whose names have no tab or newline. */
  lemma ParseWellFormed(text: string)
    ensures WellFormed(Parse(text))
    ensures forall i :: 0 <= i < |Parse(text)| ==> '\t' !in Parse(text)[i].name && '\n' !in Parse(text)[i].name
  {
    hide RowsOf, Split, NameKey, Firsts, SumFor, LinesFor, Trimmed, Wrap;
    var rows := RowsOf(Split(text, '\n'));
    RowsAreGood(Split(text, '\n'));
    var es := Merge(rows);
    forall i | 0 <= i < |es| ensures GoodEntry(es[i]) && '\t' !in es[i].name && '\n' !in es[i].name {
      FirstsAreRows(rows, i);
    }
    forall i, j | 0 <= i < j < |es| ensures es[i].key != es[j].key { FirstsDistinct(rows, i, j); }
  }

  // ----- the theorems -----

  /**
   * A printed roster parses back to the same entries (merge flags cleared)
   * exactly when no name ends in a separator or holds a tab or newline and no
   * count is negative.
   */
  lemma RoundTripExactly(es: seq<Entry>)
    requires WellFormed(es)
    ensures Parse(Format(es)) == Cleared(es) <==> AllClean(es)
  {
    hide NameKey, Format, Parse, EntryNameLength, Trimmed;
    var back := Parse(Format(es));
    if forall i :: 0 <= i < |es| ==> CleanName(es[i].name) {
      CleanRoundTrip(es);
      if AllClean(es) {
        assert back == Cleared(es);
      } else {
        var i :| 0 <= i < |es| && es[i].count < 0;
        assert back[i].count == 0;
      }
    } else if forall i :: 0 <= i < |es| ==> '\t' !in es[i].name && '\n' !in es[i].name {
      SeparatorNamesShrink(es);
      if back == Cleared(es) { SameNamesSameLength(back, es); }
    } else {
      var i :| 0 <= i < |es| && ('\t' in es[i].name || '\n' in es[i].name);
      ParseWellFormed(Format(es));
      assert Cleared(es)[i].name == es[i].name;
    }
  }
}
