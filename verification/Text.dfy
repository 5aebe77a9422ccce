/**
 * The string operations of the Go standard library that the roster and slug
 * code calls. A string is a sequence of code points: requests arrive as JSON,
 * so they are always well-formed text.
 */
module Text {
  /** What strings.TrimSpace strips: the white space of the unicode package. */
  predicate IsSpace(c: char) {
    var u := c as int;
    9 <= u <= 13 || u == 32 || u == 0x85 || u == 0xA0 || u == 0x1680 || 0x2000 <= u <= 0x200A
    || u == 0x2028 || u == 0x2029 || u == 0x202F || u == 0x205F || u == 0x3000
  }

  /** What \s matches in a Go regular expression: a strictly smaller set. */
  predicate IsReSpace(c: char) {
    c == '\t' || c == '\n' || c as int == 12 || c == '\r' || c == ' '
  }

  predicate IsPunct(c: char) { c == ',' || c == ';' || c == ':' }

  predicate IsReturn(c: char) { c == '\r' }

  /** The separator class [\s,;:] of the trailing-count pattern. */
  predicate IsSep(c: char) { IsReSpace(c) || IsPunct(c) }

  predicate IsDigit(c: char) { '0' <= c <= '9' }

  predicate AllDigits(s: string) { forall i :: 0 <= i < |s| ==> IsDigit(s[i]) }

  /** strings.TrimRightFunc. */
  function DropRight(s: string, p: char -> bool): (r: string)
    ensures r <= s
    ensures r != [] ==> !p(r[|r| - 1])
    ensures forall i :: |r| <= i < |s| ==> p(s[i])
  {
    if s != [] && p(s[|s| - 1]) then DropRight(s[..|s| - 1], p) else s
  }

  /** strings.TrimLeftFunc. */
  function DropLeft(s: string, p: char -> bool): (r: string)
    ensures |r| <= |s| && r == s[|s| - |r|..]
    ensures r != [] ==> !p(r[0])
    ensures forall i :: 0 <= i < |s| - |r| ==> p(s[i])
  {
    if s != [] && p(s[0]) then DropLeft(s[1..], p) else s
  }

  /** No white space at either edge. */
  predicate Trimmed(s: string) {
    s != "" ==> !IsSpace(s[0]) && !IsSpace(s[|s| - 1])
  }

  function TrimSpace(s: string): (r: string)
    ensures Trimmed(r)
    ensures |r| <= |s|
    ensures forall c :: c in r ==> c in s
    ensures Trimmed(s) ==> r == s
    ensures (exists i :: 0 <= i < |s| && !IsSpace(s[i])) ==> r != ""
  {
    DropLeft(DropRight(s, IsSpace), IsSpace)
  }

  /** strings.Join. */
  function Join(parts: seq<string>, sep: string): string {
    if |parts| == 0 then "" else if |parts| == 1 then parts[0] else parts[0] + sep + Join(parts[1..], sep)
  }

  /** strings.Split on a one-character separator. */
  function Split(s: string, sep: char): (parts: seq<string>)
    ensures |parts| >= 1
    ensures forall i :: 0 <= i < |parts| ==> sep !in parts[i]
    ensures Join(parts, [sep]) == s
    ensures forall i, c :: 0 <= i < |parts| && c in parts[i] ==> c in s
    ensures sep !in s ==> parts == [s]
    decreases |s|
  {
    if sep !in s then [s]
    else
      var k := IndexOf(s, sep);
      var rest := Split(s[k + 1..], sep);
      assert s == s[..k] + [sep] + s[k + 1..];
      assert ([s[..k]] + rest)[1..] == rest;
      [s[..k]] + rest
  }

  function IndexOf(s: string, c: char): (k: nat)
    requires c in s
    ensures k < |s| && s[k] == c && c !in s[..k]
  {
    if s[0] == c then 0 else 1 + IndexOf(s[1..], c)
  }

  /** A text whose first line is `line` splits into that line and the rest. */
  lemma SplitFirst(line: string, sep: char, rest: string)
    requires sep !in line
    ensures Split(line + [sep] + rest, sep) == [line] + Split(rest, sep)
  {
    var s := line + [sep] + rest;
    assert s[|line|] == sep && forall i :: 0 <= i < |line| ==> s[i] == line[i] && s[i] != sep;
    var k := IndexOf(s, sep);
    assert forall i :: 0 <= i < k ==> s[..k][i] != sep;
    assert k == |line|;
    assert s[..k] == line && s[k + 1..] == rest;
  }

  /** strings.ReplaceAll(s, c, ""). */
  function Remove(s: string, c: char): (r: string)
    ensures c !in r
    ensures |r| <= |s|
    ensures forall d :: d in r <==> d in s && d != c
    ensures c !in s ==> r == s
  {
    if s == "" then "" else if s[0] == c then Remove(s[1..], c) else [s[0]] + Remove(s[1..], c)
  }

  lemma {:induction false} RemoveConcat(a: string, b: string, c: char)
    ensures Remove(a + b, c) == Remove(a, c) + Remove(b, c)
  {
    if a == "" {
      assert a + b == b;
    } else {
      assert (a + b)[1..] == a[1..] + b;
      RemoveConcat(a[1..], b, c);
    }
  }

  /**
   * unicode.ToLower on the letters whose lower case is ASCII: A to Z, the
   * dotted capital I and the Kelvin sign. Other letters are left alone.
   */
  function LowerChar(c: char): (r: char)
    ensures !('A' <= r <= 'Z')
    ensures IsSpace(r) <==> IsSpace(c)
    ensures IsReSpace(c) ==> r == c
    ensures IsReSpace(r) ==> r == c
  {
    if 'A' <= c <= 'Z' then ((c as int) + 32) as char
    else if c as int == 0x130 then 'i'
    else if c as int == 0x212A then 'k'
    else c
  }

  function ToLower(s: string): (r: string)
    ensures |r| == |s|
    ensures forall i :: 0 <= i < |s| ==> r[i] == LowerChar(s[i])
  {
    seq(|s|, i requires 0 <= i < |s| => LowerChar(s[i]))
  }
}
