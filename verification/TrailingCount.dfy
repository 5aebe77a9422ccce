/**
 * The trailing-count pattern read declaratively, and what one "name, count"
 * line parses to.
 */
module TrailingCount {
  import opened Wrappers
  import opened Text
  import opened Decimal
  import opened Float64
  import opened Roster

  /**
   * One way to match ^(.*?)[\s,;:]+(count)\s*$ : the name group is line[..k],
   * the separators line[k..j], the count group line[j..e], blanks the rest.
   */
  ghost predicate Captures(line: string, k: nat, j: nat, e: nat) {
    && k < j <= e <= |line|
    && (forall i :: k <= i < j ==> IsSep(line[i]))
    && IsCountText(line[j..e])
    && (forall i :: e <= i < |line| ==> IsReSpace(line[i]))
  }

  predicate IsCountChar(c: char) { IsDigit(c) || c == ',' || c == '.' || c == '-' }

  /** A count group starts with a sign or digit, ends in a digit, and has no blank. */
  lemma CountTextShape(s: string)
    requires IsCountText(s)
    ensures s != "" && (IsDigit(s[0]) || s[0] == '-') && IsDigit(s[|s| - 1])
    ensures forall i :: 0 <= i < |s| ==> IsCountChar(s[i])
    ensures '\t' !in s
  {
    hide Split;
    var u := if s != "" && s[0] == '-' then s[1..] else s;
    var parts := Split(u, '.');
    WholeShape(parts[0]);
    if |parts| == 2 {
      TwoParts(parts);
    } else {
      assert u == parts[0];
    }
  }

  lemma TwoParts(parts: seq<string>)
    requires |parts| == 2
    ensures Join(parts, ['.']) == parts[0] + ['.'] + parts[1]
  {
    assert parts[1..] == [parts[1]];
  }

  lemma WholeShape(whole: string)
    requires IsGrouped(whole) || (whole != "" && AllDigits(whole))
    ensures whole != "" && IsDigit(whole[0]) && IsDigit(whole[|whole| - 1])
    ensures forall i :: 0 <= i < |whole| ==> IsCountChar(whole[i])
  {
  }

  lemma SepEndIs(line: string, k: nat, j: nat)
    requires k <= j <= |line|
    requires forall i :: k <= i < j ==> IsSep(line[i])
    requires j < |line| ==> !IsSep(line[j])
    ensures SepEnd(line, k) == j
  {
  }

  lemma DropRightIs(s: string, n: nat, p: char -> bool)
    requires n <= |s| && (n > 0 ==> !p(s[n - 1]))
    requires forall i :: n <= i < |s| ==> p(s[i])
    ensures DropRight(s, p) == s[..n]
  {
  }

  /** The split is determined by where the name group ends. */
  lemma CaptureUnique(line: string, k: nat, j: nat, e: nat)
    requires Captures(line, k, j, e)
    ensures j == SepEnd(line, k) && line[j..e] == CountAfter(line, k) && MatchesAt(line, k)
    ensures e == j + |CountAfter(line, k)|
  {
    hide IsCountText, SepEnd, DropRight;
    CountTextShape(line[j..e]);
    assert line[j..e][0] == line[j] && line[j..e][e - j - 1] == line[e - 1];
    SepEndIs(line, k, j);
    DropRightIs(line[j..], e - j, IsReSpace);
    assert line[j..][..e - j] == line[j..e];
  }

  lemma MatchCaptures(line: string, k: nat)
    requires k <= |line|
    ensures MatchesAt(line, k) ==> Captures(line, k, SepEnd(line, k), SepEnd(line, k) + |CountAfter(line, k)|)
  {
    hide IsCountText;
    var j := SepEnd(line, k);
    var c := CountAfter(line, k);
    assert line[j..j + |c|] == c;
    assert forall i :: j <= i < |line| ==> line[i] == line[j..][i - j];
  }

  /**
   * The search for a name group is the pattern's leftmost, laziest match: it
   * fails exactly when nothing matches, and what it finds is the one match
   * whose name group is shortest.
   */
  lemma ShortestNameIsLazyMatch(line: string)
    ensures var m := ShortestName(line, 0);
            && (m.None? <==> forall k: nat, j: nat, e: nat :: !Captures(line, k, j, e))
            && (m.Some? ==>
                  var j := SepEnd(line, m.value);
                  && Captures(line, m.value, j, j + |CountAfter(line, m.value)|)
                  && forall k': nat, j': nat, e': nat :: Captures(line, k', j', e') ==>
                       && m.value <= k'
                       && (k' == m.value ==> j' == j && e' == j + |CountAfter(line, m.value)|))
  {
    hide *;
    var m := ShortestName(line, 0);
    if m.Some? { MatchCaptures(line, m.value); }
    forall k: nat, j: nat, e: nat | Captures(line, k, j, e)
      ensures m.Some? && m.value <= k && (k == m.value ==> j == SepEnd(line, k) && e == j + |CountAfter(line, k)|)
    {
      CaptureUnique(line, k, j, e);
    }
  }

  // ----- what a count group is worth -----

  lemma RemoveKeepsDigits(s: string)
    requires IsGrouped(s) || (s != "" && AllDigits(s))
    ensures Remove(s, ',') != "" && AllDigits(Remove(s, ','))
  {
    hide Remove;
    var r := Remove(s, ',');
    assert s[0] in s && s[0] != ',';
    forall i | 0 <= i < |r| ensures IsDigit(r[i]) { assert r[i] in r; }
  }

  function Unsigned(c: string): string { if c != "" && c[0] == '-' then c[1..] else c }

  /** The part of a count group before any point, without its sign. */
  function Whole(c: string): string { Split(Unsigned(c), '.')[0] }

  /** The digits after the point of a count group, if it has one. */
  function Fraction(c: string): string {
    var parts := Split(Unsigned(c), '.');
    if |parts| == 2 then parts[1] else ""
  }

  function Point(fraction: string): string { if fraction == "" then "" else ['.'] + fraction }

  lemma CountTextSplit(c: string) returns (sign: string)
    requires IsCountText(c)
    ensures c == sign + Whole(c) + Point(Fraction(c)) && sign == if c[0] == '-' then "-" else ""
    ensures IsGrouped(Whole(c)) || (Whole(c) != "" && AllDigits(Whole(c)))
    ensures AllDigits(Fraction(c))
  {
    hide IsGrouped, Split, AllDigits, Join;
    assert c != "" by { CountTextShape(c); }
    sign := if c[0] == '-' then "-" else "";
    PointAndFraction(Split(Unsigned(c), '.'));
    assert c == sign + Unsigned(c) && Unsigned(c) == Whole(c) + Point(Fraction(c));
    assert sign + (Whole(c) + Point(Fraction(c))) == sign + Whole(c) + Point(Fraction(c));
  }

  lemma PointAndFraction(parts: seq<string>)
    requires 1 <= |parts| <= 2 && (|parts| == 2 ==> parts[1] != "" && AllDigits(parts[1]))
    ensures var fraction := if |parts| == 2 then parts[1] else "";
            Join(parts, ['.']) == parts[0] + Point(fraction) && AllDigits(fraction)
  {
    hide Join;
    if |parts| == 2 {
      TwoParts(parts);
      assert parts[0] + ['.'] + parts[1] == parts[0] + (['.'] + parts[1]);
    } else {
      OnePart(parts);
      assert parts[0] + "" == parts[0];
    }
  }

  lemma OnePart(parts: seq<string>)
    requires |parts| == 1
    ensures Join(parts, ['.']) == parts[0]
  {
  }

  /** A count group without its commas: a sign, digits, and perhaps a fraction. */
  lemma CountTextParts(c: string) returns (sign: string)
    requires IsCountText(c)
    ensures c != "" && sign == if c[0] == '-' then "-" else ""
    ensures Remove(c, ',') == sign + Remove(Whole(c), ',') + Point(Fraction(c))
    ensures Remove(Whole(c), ',') != "" && AllDigits(Remove(Whole(c), ',')) && AllDigits(Fraction(c))
  {
    hide *;
    CountTextShape(c);
    sign := CountTextSplit(c);
    RemoveKeepsDigits(Whole(c));
    NoComma(Fraction(c));
    RemoveConcat(sign + Whole(c), Point(Fraction(c)), ',');
    RemoveConcat(sign, Whole(c), ',');
    assert Remove(sign, ',') == sign by { assert ',' !in sign; }
  }

  lemma RemoveHead(s: string)
    ensures Remove("," + s, ',') == Remove(s, ',')
  {
    assert ("," + s)[1..] == s;
  }

  lemma NoComma(fraction: string)
    requires AllDigits(fraction)
    ensures Remove(Point(fraction), ',') == Point(fraction)
  {
    hide Remove;
    assert ',' !in fraction;
  }

  lemma SplitPoint(whole: string, fraction: string)
    requires AllDigits(whole) && AllDigits(fraction)
    ensures Split(whole + Point(fraction), '.') == if fraction == "" then [whole] else [whole, fraction]
  {
    hide Split, Join, AllDigits;
    NoPointIn(whole);
    NoPointIn(fraction);
    if fraction != "" {
      SplitFirst(whole, '.', fraction);
      assert whole + ['.'] + fraction == whole + Point(fraction);
      assert [whole] + [fraction] == [whole, fraction];
    } else {
      assert whole + "" == whole;
    }
  }

  lemma NoPointIn(s: string)
    requires AllDigits(s)
    ensures '.' !in s
  {
  }

  lemma PlainNumberSigned(sign: string, whole: string, tail: string)
    requires (sign == "" || sign == "-" || sign == "+") && whole != "" && AllDigits(whole)
    ensures SplitSign(sign + whole + tail) == (sign == "-", whole + tail)
  {
    var field := sign + whole + tail;
    assert field[|sign|] == whole[0];
    assert field[|sign|..] == whole + tail;
  }

  lemma PlainNumberParses(sign: string, whole: string, fraction: string)
    requires (sign == "" || sign == "-" || sign == "+") && whole != "" && AllDigits(whole) && AllDigits(fraction)
    ensures ParseDecimal(sign + whole + Point(fraction))
            == if DigitsValue(whole) >= FloatLimit() then None
               else Some(ToInt64(Signed(sign == "-", FloatWhole(whole, fraction))))
  {
    hide Split, DigitsValue, FloatLimit, FloatWhole, Pow2, SplitSign, ToInt64, Point;
    PlainNumberSigned(sign, whole, Point(fraction));
    SplitPoint(whole, fraction);
    FloatWholeRange(whole, fraction);
  }

  /** ParseInt reads a number exactly when it has no fraction and fits; then it is the signed whole part. */
  lemma PlainIntParses(sign: string, whole: string, fraction: string)
    requires (sign == "" || sign == "-" || sign == "+") && whole != "" && AllDigits(whole) && AllDigits(fraction)
    ensures var n := Signed(sign == "-", DigitsValue(whole));
            ParseInt(sign + whole + Point(fraction)) == if fraction == "" && InInt64(n) then Some(n) else None
    ensures InInt64(Signed(sign == "-", DigitsValue(whole))) ==> DigitsValue(whole) < FloatLimit()
  {
    hide DigitsValue, FloatLimit, SplitSign;
    PlainNumberSigned(sign, whole, Point(fraction));
    if fraction != "" {
      assert (whole + Point(fraction))[|whole|] == '.';
    } else {
      assert whole + "" == whole;
    }
  }

  lemma PlainNumberTrimmed(sign: string, whole: string, fraction: string)
    requires (sign == "" || sign == "-" || sign == "+") && whole != "" && AllDigits(whole) && AllDigits(fraction)
    ensures Trimmed(sign + whole + Point(fraction))
  {
    var field := sign + whole + Point(fraction);
    assert field[|field| - 1] == if fraction == "" then whole[|whole| - 1] else fraction[|fraction| - 1];
    assert field[0] == if sign == "" then whole[0] else sign[0];
  }

  predicate IsNegative(c: string) { c != "" && c[0] == '-' }

  lemma CountTextDigits(c: string)
    requires IsCountText(c)
    ensures AllDigits(Remove(Whole(c), ',')) && AllDigits(Fraction(c))
  {
    hide *;
    var sign := CountTextParts(c);
  }

  /** The value of a count group's whole part, its commas aside. */
  function WholeValue(c: string): nat
    requires IsCountText(c)
  {
    CountTextDigits(c);
    DigitsValue(Remove(Whole(c), ','))
  }

  /** What an in-range count group is worth: an integer that fits as it is, anything else by way of float64. */
  function CountValue(c: string): (n: int)
    requires IsCountText(c)
    ensures InInt64(n)
  {
    CountTextDigits(c);
    var exact := Signed(IsNegative(c), WholeValue(c));
    if Fraction(c) == "" && InInt64(exact) then exact
    else ToInt64(Signed(IsNegative(c), FloatWhole(Remove(Whole(c), ','), Fraction(c))))
  }

  /** A count group reads as its value, and as nothing exactly when it rounds past the largest float64. */
  lemma CountTextValue(c: string)
    requires IsCountText(c)
    ensures ParseCount(c) == if WholeValue(c) >= FloatLimit() then None else Some(CountValue(c))
  {
    hide IsCountText, Remove, Split, ParseInt, ParseDecimal, DropLeft, DropRight, FloatLimit, FloatWhole, DigitsValue, TrimSpace,
      Whole, Fraction, Point;
    var sign := CountTextParts(c);
    var whole, fraction := Remove(Whole(c), ','), Fraction(c);
    PlainNumberParses(sign, whole, fraction);
    PlainIntParses(sign, whole, fraction);
    PlainNumberTrimmed(sign, whole, fraction);
  }

  /** Whatever the count group matched, the number parser accepts unless it is out of float64's range. */
  lemma CountTextHasValue(c: string)
    requires IsCountText(c)
    ensures ParseCount(c).Some? <==> WholeValue(c) < FloatLimit()
  {
    hide IsCountText, ParseCount, WholeValue, CountValue, FloatLimit;
    CountTextValue(c);
  }

  /** Within half a unit in the last place of float64 of the next integer, for a whole part below 2^52. */
  predicate AlmostNext(whole: nat, fraction: string)
    requires AllDigits(fraction) && BitLength(whole) < 53
  {
    Pow2(54 - BitLength(whole)) * (Pow10(|fraction|) - DigitsValue(fraction)) <= Pow10(|fraction|)
  }

  /** Below 2^52 a count is its whole part, or one more exactly when its fraction is that close to the next integer. */
  lemma CountValueExactly(c: string)
    requires IsCountText(c) && BitLength(WholeValue(c)) < 53
    ensures AllDigits(Fraction(c))
    ensures CountValue(c)
            == Signed(IsNegative(c), if AlmostNext(WholeValue(c), Fraction(c)) then WholeValue(c) + 1 else WholeValue(c))
  {
    hide IsCountText, Remove, Split, DigitsValue, Whole, Fraction, Pow2, Pow10, RoundedWhole, BitLength;
    CountTextDigits(c);
    var whole, fraction := Remove(Whole(c), ','), Fraction(c);
    WholeIsQuotient(whole, fraction);
    SmallFits(WholeValue(c));
    RoundedWholeExactly(DigitsValue(whole + fraction), Pow10(|fraction|));
    if fraction == "" { NoFraction(WholeValue(c)); }
  }

  lemma NoFraction(whole: nat)
    requires BitLength(whole) < 53
    ensures !AlmostNext(whole, "")
  {
    hide BitLength;
    EvenPower(54 - BitLength(whole));
  }

  lemma SmallFits(n: nat)
    requires BitLength(n) < 53
    ensures n + 1 <= MAX_INT64
  {
    hide BitLength, Pow2;
    if n > 0 {
      BitLengthBounds(n);
      PowOrder(BitLength(n), 54);
      Pow2Values();
    }
  }

  lemma WholeIsQuotient(whole: string, fraction: string)
    requires AllDigits(whole) && AllDigits(fraction)
    ensures AllDigits(whole + fraction)
    ensures var n, d := DigitsValue(whole + fraction), Pow10(|fraction|);
            n / d == DigitsValue(whole) && (DigitsValue(whole) + 1) * d - n == d - DigitsValue(fraction)
  {
    hide DigitsValue, Pow10;
    DigitsAppend(whole, fraction);
    var n, d := DigitsValue(whole + fraction), Pow10(|fraction|);
    FloorOrder(n, d, DigitsValue(whole));
    FloorOrder(n, d, DigitsValue(whole) + 1);
    assert (DigitsValue(whole) + 1) * d == DigitsValue(whole) * d + d;
  }

  /** Rounding to a float64 keeps this whole part, whatever its size, when this fraction follows it. */
  predicate WholeKept(whole: nat, fraction: string)
    requires AllDigits(fraction)
  {
    FractionBelowOne(fraction);
    Kept(whole, DigitsValue(fraction), Pow10(|fraction|))
  }

  lemma FractionBelowOne(fraction: string)
    requires AllDigits(fraction)
    ensures DigitsValue(fraction) < Pow10(|fraction|)
  {
    DigitsAppend("", fraction);
  }

  /**
   * A count is its whole part, the fraction dropped, exactly when that fits an
   * int64 and, if there is a fraction, rounding to a float64 keeps it.
   */
  lemma TruncatedExactly(c: string)
    requires IsCountText(c)
    ensures AllDigits(Fraction(c))
    ensures CountValue(c) == Signed(IsNegative(c), WholeValue(c)) <==>
              && InInt64(Signed(IsNegative(c), WholeValue(c)))
              && (Fraction(c) == "" || WholeKept(WholeValue(c), Fraction(c)))
  {
    hide IsCountText, Remove, Split, DigitsValue, Whole, Fraction, Pow2, Pow10, RoundedWhole, Kept;
    CountTextDigits(c);
    var whole, fraction := Remove(Whole(c), ','), Fraction(c);
    WholeIsQuotient(whole, fraction);
    FractionBelowOne(fraction);
    var n, d := DigitsValue(whole + fraction), Pow10(|fraction|);
    Division(n, d);
    assert (WholeValue(c) + 1) * d == WholeValue(c) * d + d;
    RoundingKeepsExactly(n, d);
    LargestKept(DigitsValue(fraction), d);
    MinOnlyOnce(IsNegative(c), WholeValue(c), RoundedWhole(n, d));
  }

  /** 2^63 is a float64, so rounding keeps it. */
  lemma LargestKept(r: nat, d: nat)
    requires r < d
    ensures Kept(-MIN_INT64, r, d)
  {
    hide Pow2, BitLength;
    BitsOf(63);
    Pow2Values();
    EvenPower(64);
    Pow2Adds(11, 52);
    assert Pow2(63) == Pow2(52) * Pow2(11);
    MultipleHasNoRemainder(Pow2(52), Pow2(11));
  }

  /** Converting to int64 keeps two whole numbers apart, unless both go to the smallest int64. */
  lemma MinOnlyOnce(negative: bool, w: nat, n: nat)
    ensures ToInt64(Signed(negative, n)) == Signed(negative, w) && n != w ==> negative && w == -MIN_INT64
    ensures ToInt64(Signed(negative, n)) == Signed(negative, w) ==> InInt64(Signed(negative, w))
    ensures n == w && InInt64(Signed(negative, w)) ==> ToInt64(Signed(negative, n)) == Signed(negative, w)
  {
  }

  /** So a fraction of few enough digits is simply dropped. */
  lemma ShortFractionDropped(c: string)
    requires IsCountText(c)
    requires Pow10(|Fraction(c)|) * Pow2(BitLength(WholeValue(c))) < Pow2(54)
    ensures CountValue(c) == Signed(IsNegative(c), WholeValue(c))
  {
    hide IsCountText, DigitsValue, WholeValue, Fraction, CountValue, Pow2, Pow10, BitLength, WholeKept;
    TruncatedExactly(c);
    ShortFractionKept(WholeValue(c), Fraction(c));
  }

  lemma ShortFractionKept(w: nat, f: string)
    requires AllDigits(f) && Pow10(|f|) * Pow2(BitLength(w)) < Pow2(54)
    ensures w < MAX_INT64 && WholeKept(w, f)
  {
    hide DigitsValue, Pow2, Pow10, BitLength;
    FractionBelowOne(f);
    SmallProduct(BitLength(w), Pow10(|f|));
    SmallKept(w, DigitsValue(f), Pow10(|f|));
  }

  lemma SmallProduct(k: nat, d: nat)
    requires 0 < d && d * Pow2(k) < Pow2(54)
    ensures k < 54 && d < Pow2(54 - k)
  {
    hide Pow2;
    MulOrder(1, d, Pow2(k));
    if k >= 54 { PowOrder(54, k); }
    Pow2Adds(54 - k, k);
    ProductReaches(d, Pow2(54 - k), Pow2(k));
  }

  lemma SmallKept(w: nat, r: nat, d: nat)
    requires r < d && BitLength(w) < 54 && d < Pow2(54 - BitLength(w))
    ensures w < MAX_INT64 && Kept(w, r, d)
  {
    hide Pow2, BitLength;
    var k := BitLength(w);
    assert w < Pow2(k) by { if w > 0 { BitLengthBounds(w); } }
    PowOrder(k, 54);
    Pow2Values();
    MulOrder(1, d - r, Pow2(54 - k));
    PowZero();
    EvenPower(1);
  }

  lemma DigitsPoint(n: nat, fraction: string)
    requires fraction != "" && AllDigits(fraction)
    ensures var c := Digits(n) + "." + fraction;
            IsCountText(c) && WholeValue(c) == n && Fraction(c) == fraction && !IsNegative(c)
  {
    hide Digits, DigitsValue, Split, Remove, IsGrouped;
    var c := Digits(n) + "." + fraction;
    assert c == Digits(n) + Point(fraction);
    assert c[0] == Digits(n)[0];
    SplitPoint(Digits(n), fraction);
    assert Split(c, '.') == [Digits(n), fraction];
    assert ',' !in Digits(n);
    ValueOfDigits(n);
  }

  /** An odd whole part above 2^53 does not survive any fraction, ".0" included. */
  lemma OddLargeLost(n: nat, fraction: string)
    requires fraction != "" && AllDigits(fraction) && n % 2 == 1 && BitLength(n) > 53
    ensures ParseCount(Digits(n) + "." + fraction) != Some(n as int)
  {
    hide IsCountText, ParseCount, CountValue, WholeValue, Fraction, Digits, DigitsValue, Pow2, Pow10, BitLength, FloatLimit;
    var c := Digits(n) + "." + fraction;
    DigitsPoint(n, fraction);
    CountTextValue(c);
    TruncatedExactly(c);
    EvenPower(BitLength(n) - 53);
    OddNoMultiple(n, Pow2(BitLength(n) - 54));
  }

  lemma OddNoMultiple(n: nat, half: nat)
    requires n % 2 == 1 && half > 0
    ensures n % (2 * half) != 0
  {
    Division(n, 2 * half);
    assert n / (2 * half) * (2 * half) == 2 * (n / (2 * half) * half);
  }

  function Nines(k: nat): (s: string)
    ensures |s| == k && AllDigits(s) && DigitsValue(s) == Pow10(k) - 1
  {
    if k == 0 then "" else
      var s := Nines(k - 1) + ['9'];
      assert s[..k - 1] == Nines(k - 1);
      s
  }

  /** A long enough run of nines is not: 0.99...9 counts as one diaper from seventeen nines on. */
  lemma NinesRoundUp(k: nat)
    requires k > 0
    ensures ParseCount("0." + Nines(k)) == Some(if k >= 17 then 1 else 0)
  {
    hide Nines, Split, Remove, ParseCount, CountValue, Pow2, Pow10, FloatLimit, DigitsValue, WholeValue, Fraction, Whole;
    var c := "0." + Nines(k);
    assert Digits(0) == "0" && Digits(0) + "." == "0.";
    DigitsPoint(0, Nines(k));
    CountTextValue(c);
    CountValueExactly(c);
    Pow2Values();
    TenPowers(k);
    NoBits();
  }

  lemma {:induction false} TenGrows(m: nat, n: nat)
    requires m <= n
    ensures Pow10(m) <= Pow10(n)
  {
    if m < n { TenGrows(m, n - 1); }
  }

  lemma TenPowers(k: nat)
    ensures k >= 17 <==> Pow10(k) >= 0x40_0000_0000_0000
  {
    assert Pow10(8) == 1_0000_0000;
    assert Pow10(16) == 1_0000_0000_0000_0000;
    if k <= 16 { TenGrows(k, 16); } else { TenGrows(17, k); }
  }

  /**
   * A line without a tab, read whole: if nothing matches, or what matches is
   * out of range, the name is the line and the count 0.
   */
  lemma TabFreeLine(line: string)
    requires '\t' !in line
    ensures var m := ShortestName(line, 0);
            ParseLine(line) ==
            if m.None? || WholeValue(CountAfter(line, m.value)) >= FloatLimit() then (TrimSpace(line), 0)
            else (StripName(line[..m.value]), CountValue(CountAfter(line, m.value)))
  {
    hide IsCountText, ParseCount, WholeValue, CountValue, FloatLimit, ShortestName, CountAfter, SepEnd, TrimSpace, StripName;
    var m := ShortestName(line, 0);
    if m.Some? { CountTextValue(CountAfter(line, m.value)); }
  }

  lemma FormattedCount(n: int)
    requires InInt64(n)
    ensures IsCountText(FormatInt(n)) && ParseCount(FormatInt(n)) == Some(n)
  {
    hide Remove, Split, ParseInt, ParseDecimal, DropLeft, DropRight, TrimSpace, IsGrouped, Digits;
    var s := FormatInt(n);
    ParseFormatInt(n);
    var u := if n < 0 then s[1..] else s;
    assert u == Digits(if n < 0 then -n else n);
    assert s[0] == '-' <==> n < 0;
    assert '.' !in u && ',' !in s;
    assert Split(u, '.') == [u];
    assert Trimmed(s);
    assert TrimSpace(s) == s;
  }

  // ----- "name, count" -----

  /**
   * Any separators that end in a blank, then a count group: the line's count
   * is that group's value, and its name is everything before, stripped; out
   * of range, the whole line is the name.
   */
  lemma ParseNameAndCount(name: string, seps: string, c: string)
    requires '\t' !in name + seps && seps != "" && IsReSpace(seps[|seps| - 1])
    requires forall i :: 0 <= i < |seps| ==> IsSep(seps[i])
    requires IsCountText(c)
    ensures ParseLine(name + seps + c)
            == if WholeValue(c) >= FloatLimit() then (TrimSpace(name + seps + c), 0)
               else (StripName(DropRight(name, IsSep)), CountValue(c))
  {
    hide IsCountText, ParseCount, WholeValue, CountValue, FloatLimit, StripName, CountAfter, SepEnd, MatchesAt,
      ShortestName, FirstCount,
      Split, TrimSpace, DropRight, DropLeft, IsCountChar, IsSep;
    var line := name + seps + c;
    var k := |DropRight(name, IsSep)|;
    NameFound(name, seps, c);
    assert '\t' !in line by { CountTextShape(c); }
    TabFreeLine(line);
    assert line[..k] == DropRight(name, IsSep);
  }

  lemma LineCaptures(name: string, seps: string, c: string)
    requires seps != "" && IsReSpace(seps[|seps| - 1])
    requires forall i :: 0 <= i < |seps| ==> IsSep(seps[i])
    requires IsCountText(c)
    ensures var line := name + seps + c; var j := |name| + |seps|;
            && Captures(line, |DropRight(name, IsSep)|, j, |line|) && line[j..|line|] == c
            && IsReSpace(line[j - 1]) && j < |line| && !IsSep(line[j]) && !IsReSpace(line[|line| - 1])
  {
    hide IsCountText;
    var line := name + seps + c;
    var j := |name| + |seps|;
    CountTextShape(c);
    assert line[j..|line|] == c;
    assert forall i :: 0 <= i < |name| ==> line[i] == name[i];
    assert forall i :: |name| <= i < j ==> line[i] == seps[i - |name|];
    assert forall i :: j <= i < |line| ==> line[i] == c[i - j];
  }

  lemma NameFound(name: string, seps: string, c: string)
    requires seps != "" && IsReSpace(seps[|seps| - 1])
    requires forall i :: 0 <= i < |seps| ==> IsSep(seps[i])
    requires IsCountText(c)
    ensures var line := name + seps + c;
            var k := |DropRight(name, IsSep)|;
            ShortestName(line, 0) == Some(k) && CountAfter(line, k) == c
  {
    hide IsCountText, CountAfter, SepEnd, MatchesAt, Captures, DropRight, IsSep, IsReSpace;
    var line := name + seps + c;
    var k := |DropRight(name, IsSep)|;
    var j := |name| + |seps|;
    LineCaptures(name, seps, c);
    CaptureUnique(line, k, j, |line|);
    assert k > 0 ==> line[k - 1] == name[k - 1];
    forall i: nat | i < k ensures !MatchesAt(line, i) {
      MatchCaptures(line, i);
      CountStart(line, i, j, SepEnd(line, i), SepEnd(line, i) + |CountAfter(line, i)|);
    }
  }

  /** The count cannot reach back over the last blank, nor start later than the first count character. */
  lemma CountStart(line: string, i: nat, j: nat, j': nat, e': nat)
    requires 0 < j < |line| && IsReSpace(line[j - 1]) && !IsSep(line[j]) && !IsReSpace(line[|line| - 1])
    ensures Captures(line, i, j', e') && i < j ==> j' == j
  {
    hide IsCountText;
    if Captures(line, i, j', e') {
      CountTextShape(line[j'..e']);
      assert forall x :: j' <= x < e' ==> line[x] == line[j'..e'][x - j'];
    }
  }

  // ----- thousands separators -----

  /** n written with a comma before every group of three digits. */
  function Grouped(n: nat): (s: string)
    ensures s != ""
  {
    if n < 1000 then Digits(n)
    else Grouped(n / 1000) + "," + [DigitChar(n / 100 % 10), DigitChar(n / 10 % 10), DigitChar(n % 10)]
  }

  lemma GroupedByAppend(s: string, head: nat, g: string)
    requires GroupedBy(s, head) || (|s| == head && 1 <= head <= 3 && AllDigits(s))
    requires |g| == 4 && g[0] == ',' && AllDigits(g[1..])
    ensures GroupedBy(s + g, head)
  {
    assert forall i :: 1 <= i < 4 ==> g[i] == g[1..][i - 1];
  }

  lemma SmallNumber(n: nat)
    requires n < 1000
    ensures |Digits(n)| <= 3
  {
    assert n >= 10 ==> Digits(n) == Digits(n / 10) + [DigitChar(n % 10)];
    assert n >= 100 ==> Digits(n / 10) == Digits(n / 100) + [DigitChar(n / 10 % 10)];
  }

  lemma LastDigit(n: nat)
    requires n >= 10
    ensures Digits(n) == Digits(n / 10) + [DigitChar(n % 10)]
  {
  }

  lemma DigitsByThousand(n: nat)
    requires n >= 1000
    ensures Digits(n) == Digits(n / 1000) + [DigitChar(n / 100 % 10), DigitChar(n / 10 % 10), DigitChar(n % 10)]
  {
    hide Digits;
    LastDigit(n);
    LastDigit(n / 10);
    LastDigit(n / 100);
    assert n / 10 / 10 == n / 100 && n / 100 / 10 == n / 1000;
  }

  lemma {:induction false} GroupedShape(n: nat)
    ensures n < 1000 ==> 1 <= |Grouped(n)| <= 3 && AllDigits(Grouped(n))
    ensures n >= 1000 ==> IsGrouped(Grouped(n))
    ensures Remove(Grouped(n), ',') == Digits(n)
    ensures '.' !in Grouped(n) && IsDigit(Grouped(n)[0])
  {
    hide Digits, Remove;
    if n < 1000 {
      SmallNumber(n);
    } else {
      var a, g := Grouped(n / 1000), [DigitChar(n / 100 % 10), DigitChar(n / 10 % 10), DigitChar(n % 10)];
      GroupedShape(n / 1000);
      var head := if GroupedBy(a, 1) || |a| == 1 then 1 else if GroupedBy(a, 2) || |a| == 2 then 2 else 3;
      assert ("," + g)[1..] == g;
      GroupedByAppend(a, head, "," + g);
      assert a + ("," + g) == Grouped(n);
      RemoveConcat(a, "," + g, ',');
      RemoveHead(g);
      DigitsByThousand(n);
    }
  }

  /** "name, 1,234,567" gives back the name and the number, for any tab-free clean name. */
  lemma GroupedLineParses(name: string, n: nat)
    requires '\t' !in name && CleanName(name) && n <= MAX_INT64
    ensures ParseLine(name + ", " + Grouped(n)) == (name, n as int)
  {
    hide DropRight, ParseLine, StripName, Grouped, IsCountText, ParseCount, CleanName, IsSep, IsReSpace, WholeValue, CountValue, FloatLimit;
    GroupedCount(n);
    CommaBlank();
    CountTextValue(Grouped(n));
    ParseNameAndCount(name, ", ", Grouped(n));
    CleanNameStrips(name);
    assert name + ", " + Grouped(n) == name + (", " + Grouped(n));
  }

  // ----- counts out of range -----

  lemma DigitsAreCount(n: nat)
    ensures IsCountText(Digits(n)) && WholeValue(Digits(n)) == n
    ensures ParseCount(Digits(n)).None? <==> n >= FloatLimit()
  {
    hide Digits, DigitsValue, Split, Remove, ParseCount, FloatLimit, IsGrouped;
    var c := Digits(n);
    assert c[0] != '-' && '.' !in c && ',' !in c;
    assert Split(c, '.') == [c];
    ValueOfDigits(n);
    CountTextHasValue(c);
  }

  /** A number past the float64 range is no number: the whole line names the guest, who has no diapers. */
  lemma HugeCountNamesGuest(name: string, n: nat)
    requires name != "" && Trimmed(name) && '\t' !in name && n >= FloatLimit()
    ensures ParseLine(name + " " + Digits(n)) == (name + " " + Digits(n), 0)
  {
    hide Digits, IsCountText, WholeValue, ParseLine, FloatLimit, TrimSpace, IsSpace;
    var line := name + " " + Digits(n);
    DigitsAreCount(n);
    ParseNameAndCount(name, " ", Digits(n));
    assert line[0] == name[0] && line[|line| - 1] == Digits(n)[|Digits(n)| - 1];
    DigitNoSpace(line[|line| - 1]);
    assert Trimmed(line);
  }

  lemma DigitNoSpace(c: char)
    requires IsDigit(c)
    ensures !IsSpace(c)
  {
  }

  /** In the tab branch such a field is passed over for the next one that reads as a count. */
  lemma HugeFieldSkipped(name: string, n: nat, m: int)
    requires Trimmed(name) && '\t' !in name && n >= FloatLimit() && InInt64(m)
    ensures ParseLine(name + "\t" + Digits(n) + "\t" + FormatInt(m)) == (name, m)
  {
    hide Digits, FormatInt, ParseCount, FloatLimit, Split, TrimSpace, Trimmed, ShortestName, CountAfter, IsCountText, FirstCount;
    var rest := Digits(n) + "\t" + FormatInt(m);
    var line := name + "\t" + Digits(n) + "\t" + FormatInt(m);
    assert line == name + "\t" + rest && '\t' in line;
    DigitsAreCount(n);
    FormattedCount(m);
    SplitFirst(name, '\t', rest);
    SplitFirst(Digits(n), '\t', FormatInt(m));
    assert Split(line, '\t') == [name, Digits(n), FormatInt(m)];
    assert [name, Digits(n), FormatInt(m)][1..] == [Digits(n), FormatInt(m)];
    SecondField(Digits(n), FormatInt(m));
  }

  lemma SecondField(a: string, b: string)
    requires ParseCount(a).None? && ParseCount(b).Some?
    ensures FirstCount([a, b]) == ParseCount(b)
  {
    hide ParseCount;
    assert [a, b][1..] == [b];
    assert FirstCount([b]) == ParseCount(b);
  }

  lemma CommaBlank()
    ensures IsReSpace(", "[1]) && forall i :: 0 <= i < 2 ==> IsSep(", "[i])
  {
  }

  lemma GroupedCount(n: nat)
    requires n <= MAX_INT64
    ensures IsCountText(Grouped(n)) && ParseCount(Grouped(n)) == Some(n as int)
  {
    hide Remove, IsCountText, ParseInt, Grouped, Digits, IsGrouped, FormatInt, DropLeft, DropRight, TrimSpace;
    GroupedShape(n);
    GroupedIsCount(n);
    DigitsAreTrimmed(n);
    ParseFormatInt(n);
  }

  lemma DigitsAreTrimmed(n: nat)
    ensures Trimmed(Digits(n)) && Digits(n) == FormatInt(n)
  {
    hide Digits;
    assert IsDigit(Digits(n)[0]) && IsDigit(Digits(n)[|Digits(n)| - 1]);
  }

  lemma GroupedIsCount(n: nat)
    ensures IsCountText(Grouped(n))
  {
    hide Remove, Split, IsGrouped, Digits, Grouped;
    var g := Grouped(n);
    GroupedShape(n);
    assert g[0] != '-' && Split(g, '.') == [g];
  }

  // ----- the names that survive printing -----

  predicate EndsInPunct(name: string) { name != "" && IsPunct(name[|name| - 1]) }

  /** Not blank, no blank at either edge, and no separator at the end. */
  predicate CleanName(name: string) {
    name != "" && Trimmed(name) && !EndsInPunct(name) && '\t' !in name && '\n' !in name
  }

  lemma CleanNameStrips(name: string)
    requires CleanName(name)
    ensures StripName(DropRight(name, IsSep)) == name
  {
  }

  lemma UncleanNameShrinks(name: string)
    requires EndsInPunct(name)
    ensures |StripName(DropRight(name, IsSep))| < |name|
  {
  }
}
