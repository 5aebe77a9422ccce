/** Roster text: how a pasted list becomes entries and how entries print back. */
module Roster {
  import opened Wrappers
  import opened Text
  import opened Decimal

  /** A guest as the parser reports it: all lines with one key together. */
  datatype Entry = Entry(name: string, key: string, count: int, merged: bool)

  /** One usable roster line, before lines that share a key are merged. */
  datatype Row = Row(name: string, key: string, count: int)

  // ----- the merge identity -----

  /** Every run of \s becomes one space. */
  function Collapse(s: string): (r: string)
    ensures |r| <= |s|
    ensures s != "" ==> r != ""
    decreases |s|
  {
    if s == "" then ""
    else if IsReSpace(s[0]) then " " + Collapse(DropLeft(s[1..], IsReSpace))
    else [s[0]] + Collapse(s[1..])
  }

  function NameKey(name: string): string {
    Collapse(ToLower(TrimSpace(name)))
  }

  // ----- counts -----

  /** "1,024": one to three digits, then one or more groups of a comma and three digits. */
  predicate GroupedBy(s: string, head: nat) {
    1 <= head <= 3 && head < |s| && (|s| - head) % 4 == 0
    && forall i :: 0 <= i < |s| ==>
      if i >= head && (i - head) % 4 == 0 then s[i] == ',' else IsDigit(s[i])
  }

  predicate IsGrouped(s: string) {
    GroupedBy(s, 1) || GroupedBy(s, 2) || GroupedBy(s, 3)
  }

  /** The count group of the trailing-count pattern: -?(grouped|digits)(.digits)? */
  predicate IsCountText(s: string) {
    var parts := Split(if s != "" && s[0] == '-' then s[1..] else s, '.');
    && |parts| <= 2
    && (IsGrouped(parts[0]) || (parts[0] != "" && AllDigits(parts[0])))
    && (|parts| == 2 ==> parts[1] != "" && AllDigits(parts[1]))
  }

  function ParseCount(text: string): (r: Option<int>)
    ensures r.Some? ==> InInt64(r.value)
  {
    var field := TrimSpace(Remove(text, ','));
    if field == "" then None
    else
      var n := ParseInt(field);
      if n.Some? then n else ParseDecimal(field)
  }

  // ----- one line -----

  /** Where the run of separators that starts at `k` ends. */
  function SepEnd(line: string, k: nat): (j: nat)
    requires k <= |line|
    ensures k <= j <= |line|
    ensures forall i :: k <= i < j ==> IsSep(line[i])
    ensures j < |line| ==> !IsSep(line[j])
    decreases |line| - k
  {
    if k < |line| && IsSep(line[k]) then SepEnd(line, k + 1) else k
  }

  /** What the count group has to cover if the name group is line[..k]. */
  function CountAfter(line: string, k: nat): string
    requires k <= |line|
  {
    DropRight(line[SepEnd(line, k)..], IsReSpace)
  }

  predicate MatchesAt(line: string, k: nat)
    requires k <= |line|
  {
    SepEnd(line, k) > k && IsCountText(CountAfter(line, k))
  }

  /** The lazy group: try ever longer names, starting at `k`. */
  function ShortestName(line: string, k: nat): (r: Option<nat>)
    requires k <= |line|
    ensures r.Some? ==> k <= r.value <= |line| && MatchesAt(line, r.value)
    ensures forall i :: k <= i <= (if r.Some? then r.value - 1 else |line|) ==> !MatchesAt(line, i)
    decreases |line| - k
  {
    if MatchesAt(line, k) then Some(k)
    else if k == |line| then None
    else ShortestName(line, k + 1)
  }

  function FirstCount(fields: seq<string>): (r: Option<int>)
    ensures r.Some? ==> InInt64(r.value)
  {
    if fields == [] then None
    else
      var n := ParseCount(fields[0]);
      if n.Some? then n else FirstCount(fields[1..])
  }

  /** The tab branch, else the trailing count, else the bare name. */
  function ParseLine(line: string): (r: (string, int))
    ensures Trimmed(r.0) && InInt64(r.1)
  {
    if '\t' in line then
      var fields := Split(line, '\t');
      var n := FirstCount(fields[1..]);
      (TrimSpace(fields[0]), if n.Some? then n.value else 0)
    else
      var m := ShortestName(line, 0);
      if m.Some? && ParseCount(CountAfter(line, m.value)).Some? then
        (StripName(line[..m.value]), ParseCount(CountAfter(line, m.value)).value)
      else
        (TrimSpace(line), 0)
  }

  /** What the name group is reduced to. */
  function StripName(group: string): (r: string)
    ensures Trimmed(r) && |r| <= |group|
    ensures forall c :: c in r ==> c in group
  {
    TrimSpace(DropRight(TrimSpace(group), IsPunct))
  }

  function Max(a: int, b: int): int { if a < b then b else a }

  /** A line's contribution: none if it is blank or names nobody. */
  function ParseRow(raw: string): (r: Option<Row>)
    ensures r.Some? ==> r.value.name != "" && Trimmed(r.value.name) && 0 <= r.value.count <= MAX_INT64
  {
    var line := DropRight(raw, IsReturn);
    if TrimSpace(line) == "" then None
    else
      var (name, count) := ParseLine(line);
      if name == "" then None else Some(Row(name, NameKey(name), Max(count, 0)))
  }

  /** All usable lines, in order. */
  function RowsOf(lines: seq<string>): (rows: seq<Row>)
    ensures |rows| <= |lines|
  {
    if lines == [] then []
    else
      var init := RowsOf(lines[..|lines| - 1]);
      var last := ParseRow(lines[|lines| - 1]);
      if last.Some? then init + [last.value] else init
  }

  // ----- merging: what the parser promises, said without its loop -----

  /** The total the lines with this key add up to. */
  function SumFor(rows: seq<Row>, key: string): int {
    if rows == [] then 0
    else SumFor(rows[..|rows| - 1], key) + if rows[|rows| - 1].key == key then rows[|rows| - 1].count else 0
  }

  function LinesFor(rows: seq<Row>, key: string): nat {
    if rows == [] then 0
    else LinesFor(rows[..|rows| - 1], key) + if rows[|rows| - 1].key == key then 1 else 0
  }

  /** The rows whose key has not appeared before. */
  function Firsts(rows: seq<Row>): (fs: seq<Row>)
    ensures |fs| <= |rows|
  {
    if rows == [] then []
    else
      var init := Firsts(rows[..|rows| - 1]);
      var last := rows[|rows| - 1];
      if LinesFor(rows[..|rows| - 1], last.key) == 0 then init + [last] else init
  }

  function EntryFor(rows: seq<Row>, first: Row): Entry {
    Entry(first.name, first.key, Wrap(SumFor(rows, first.key)), LinesFor(rows, first.key) > 1)
  }

  /**
   * One entry per distinct key, in order of first appearance and with the
   * first spelling; its count is the int64 sum of the lines that share the
   * key, and it is flagged when there is more than one of them.
   */
  function Merge(rows: seq<Row>): (es: seq<Entry>)
    ensures |es| == |Firsts(rows)|
  {
    var fs := Firsts(rows);
    seq(|fs|, i requires 0 <= i < |fs| => EntryFor(rows, fs[i]))
  }

  /** The entries a roster text stands for. */
  function Parse(text: string): seq<Entry> {
    Merge(RowsOf(Split(text, '\n')))
  }

  // ----- the one-pass parser -----

  lemma {:induction false} FirstsHaveLines(rows: seq<Row>, i: nat)
    requires i < |Firsts(rows)|
    ensures LinesFor(rows, Firsts(rows)[i].key) > 0
  {
    var init := rows[..|rows| - 1];
    if i < |Firsts(init)| { FirstsHaveLines(init, i); }
  }

  /** Keys of the merged entries are pairwise distinct. */
  lemma {:induction false} FirstsDistinct(rows: seq<Row>, i: nat, j: nat)
    requires i < j < |Firsts(rows)|
    ensures Firsts(rows)[i].key != Firsts(rows)[j].key
  {
    var init := rows[..|rows| - 1];
    if j < |Firsts(init)| { FirstsDistinct(init, i, j); } else { FirstsHaveLines(init, i); }
  }

  /** The loop state after the lines that gave `rows`. */
  ghost predicate Loop(rows: seq<Row>, order: seq<string>, byKey: map<string, Entry>) {
    && |order| == |Firsts(rows)|
    && (forall key :: key in byKey <==> LinesFor(rows, key) > 0)
    && (forall i :: 0 <= i < |order| ==>
          order[i] == Firsts(rows)[i].key && order[i] in byKey && byKey[order[i]] == EntryFor(rows, Firsts(rows)[i]))
  }

  lemma OldKey(rows: seq<Row>, order: seq<string>, byKey: map<string, Entry>, row: Row)
    requires Loop(rows, order, byKey) && row.key in byKey
    ensures Loop(rows + [row], order,
                 byKey[row.key := byKey[row.key].(count := Wrap(byKey[row.key].count + row.count), merged := true)])
  {
    var rows' := rows + [row];
    assert rows'[..|rows|] == rows && rows'[|rows|] == row;
    WrapAdd(SumFor(rows, row.key), row.count);
    var byKey' := byKey[row.key := byKey[row.key].(count := Wrap(byKey[row.key].count + row.count), merged := true)];
    forall i | 0 <= i < |order| ensures byKey'[order[i]] == EntryFor(rows', Firsts(rows')[i]) {
      assert byKey[order[i]] == EntryFor(rows, Firsts(rows)[i]);
    }
  }

  lemma NewKey(rows: seq<Row>, order: seq<string>, byKey: map<string, Entry>, row: Row)
    requires Loop(rows, order, byKey) && row.key !in byKey && 0 <= row.count <= MAX_INT64
    ensures Loop(rows + [row], order + [row.key], byKey[row.key := Entry(row.name, row.key, row.count, false)])
  {
    var rows' := rows + [row];
    assert rows'[..|rows|] == rows && rows'[|rows|] == row;
    NoLinesNoSum(rows, row.key);
    forall i | 0 <= i < |order| ensures EntryFor(rows', Firsts(rows')[i]) == EntryFor(rows, Firsts(rows)[i]) {
      assert order[i] in byKey;
    }
  }

  lemma {:induction false} NoLinesNoSum(rows: seq<Row>, key: string)
    requires LinesFor(rows, key) == 0
    ensures SumFor(rows, key) == 0
  {
    if rows != [] { NoLinesNoSum(rows[..|rows| - 1], key); }
  }

  lemma LoopStart()
    ensures Loop(RowsOf([]), [], map[])
  {
  }

  lemma LoopEnd(text: string, order: seq<string>, byKey: map<string, Entry>)
    requires Loop(RowsOf(Split(text, '\n')), order, byKey)
    ensures |order| == |Parse(text)|
    ensures forall i :: 0 <= i < |order| ==> order[i] in byKey && byKey[order[i]] == Parse(text)[i]
  {
  }

  lemma RowsSnoc(lines: seq<string>, n: nat)
    requires n < |lines|
    ensures var row := ParseRow(lines[n]);
            RowsOf(lines[..n + 1]) == if row.Some? then RowsOf(lines[..n]) + [row.value] else RowsOf(lines[..n])
  {
    assert lines[..n + 1][..n] == lines[..n];
  }

  /**
   * The loop over lines, with a map from key to the entry being built and the
   * order in which keys first appeared.
   */
  method ParseRoster(text: string) returns (entries: seq<Entry>)
    ensures entries == Parse(text)
  {
    hide *;
    var lines := Split(text, '\n');
    LoopStart();
    var order: seq<string> := [];
    var byKey: map<string, Entry> := map[];
    for n := 0 to |lines|
      invariant Loop(RowsOf(lines[..n]), order, byKey)
    {
      ghost var rows := RowsOf(lines[..n]);
      RowsSnoc(lines, n);
      var parsed := ParseRow(lines[n]);
      if parsed.None? { continue; }
      var Row(name, key, count) := parsed.value;
      if key in byKey {
        OldKey(rows, order, byKey, parsed.value);
        byKey := byKey[key := byKey[key].(count := Wrap(byKey[key].count + count), merged := true)];
        continue;
      }
      NewKey(rows, order, byKey, parsed.value);
      byKey := byKey[key := Entry(name, key, count, false)];
      order := order + [key];
    }
    assert lines[..|lines|] == lines;
    LoopEnd(text, order, byKey);
    entries := [];
    for n := 0 to |order|
      invariant entries == Parse(text)[..n]
    {
      entries := entries + [byKey[order[n]]];
    }
  }

  // ----- printing -----

  function FormatLine(e: Entry): string { e.name + ", " + FormatInt(e.count) }

  function Format(es: seq<Entry>): string {
    if es == [] then "" else FormatLine(es[0]) + "\n" + Format(es[1..])
  }

  lemma {:induction false} FormatAppend(es: seq<Entry>, e: Entry)
    ensures Format(es + [e]) == Format(es) + (FormatLine(e) + "\n")
  {
    if es == [] {
      assert [e][1..] == [];
      assert FormatLine(e) + "\n" + "" == FormatLine(e) + "\n";
    } else {
      assert (es + [e])[1..] == es[1..] + [e];
      FormatAppend(es[1..], e);
      Assoc(FormatLine(es[0]) + "\n", Format(es[1..]), FormatLine(e) + "\n");
    }
  }

  lemma Assoc(a: string, b: string, c: string)
    ensures a + (b + c) == (a + b) + c
  {
  }

  method FormatRoster(es: seq<Entry>) returns (text: string)
    ensures text == Format(es)
  {
    text := "";
    for i := 0 to |es|
      invariant text == Format(es[..i])
    {
      assert es[..i + 1] == es[..i] + [es[i]];
      FormatAppend(es[..i], es[i]);
      var b := es[i].name;
      b := b + ", ";
      b := b + FormatInt(es[i].count);
      b := b + "\n";
      text := text + b;
    }
    assert es[..|es|] == es;
  }
}
