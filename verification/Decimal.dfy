/** Decimal numerals: strconv.FormatInt, ParseInt and the plain part of ParseFloat. */
module Decimal {
  import opened Wrappers
  import opened Text
  import opened Float64

  const MIN_INT64: int := -0x8000_0000_0000_0000
  const MAX_INT64: int := 0x7fff_ffff_ffff_ffff

  predicate InInt64(n: int) { MIN_INT64 <= n <= MAX_INT64 }

  type Int64 = n: int | InInt64(n)

  /** Two's-complement wrap-around of Go's int64 addition. */
  function Wrap(n: int): (r: int)
    ensures InInt64(r)
    ensures InInt64(n) ==> r == n
    ensures (n - r) % 0x1_0000_0000_0000_0000 == 0
  {
    (n - MIN_INT64) % 0x1_0000_0000_0000_0000 + MIN_INT64
  }

  /** Wrapping at every addition is the same as wrapping once at the end. */
  lemma WrapAdd(a: int, b: int)
    ensures Wrap(Wrap(a) + b) == Wrap(a + b)
  {
    var m := 0x1_0000_0000_0000_0000;
    var k := (a - Wrap(a)) / m;
    assert a == Wrap(a) + m * k;
    ModShift(Wrap(a) + b - MIN_INT64, k);
  }

  lemma ModShift(x: int, k: int)
    ensures (x + 0x1_0000_0000_0000_0000 * k) % 0x1_0000_0000_0000_0000 == x % 0x1_0000_0000_0000_0000
  {
  }

  function DigitChar(d: int): (c: char)
    requires 0 <= d < 10
    ensures IsDigit(c) && c as int - '0' as int == d
  {
    (('0' as int) + d) as char
  }

  function DigitValue(c: char): (d: int)
    requires IsDigit(c)
    ensures 0 <= d < 10 && DigitChar(d) == c
  {
    c as int - '0' as int
  }

  function Digits(n: nat): (s: string)
    ensures s != "" && AllDigits(s)
    ensures n > 0 ==> s[0] != '0'
  {
    if n < 10 then [DigitChar(n)] else Digits(n / 10) + [DigitChar(n % 10)]
  }

  function DigitsValue(s: string): (n: nat)
    requires AllDigits(s)
  {
    if s == "" then 0 else 10 * DigitsValue(s[..|s| - 1]) + DigitValue(s[|s| - 1])
  }

  lemma {:induction false} ValueOfDigits(n: nat)
    ensures DigitsValue(Digits(n)) == n
  {
    if n >= 10 {
      ValueOfDigits(n / 10);
      assert Digits(n)[..|Digits(n)| - 1] == Digits(n / 10);
    } else {
      assert Digits(n)[..0] == "";
    }
  }

  /** strconv.FormatInt(n, 10). */
  function FormatInt(n: int): (s: string)
    ensures s != "" && IsDigit(s[|s| - 1])
    ensures forall i :: 0 <= i < |s| ==> IsDigit(s[i]) || (i == 0 && s[i] == '-')
  {
    if n < 0 then "-" + Digits(-n) else Digits(n)
  }

  /** The optional sign both number parsers accept, split from what follows it. */
  function SplitSign(s: string): (r: (bool, string)) {
    if s != "" && s[0] == '-' then (true, s[1..])
    else if s != "" && s[0] == '+' then (false, s[1..])
    else (false, s)
  }

  /** strconv.ParseInt(s, 10, 64). */
  function ParseInt(s: string): (r: Option<int>)
    ensures r.Some? ==> InInt64(r.value)
  {
    var (negative, body) := SplitSign(s);
    if body == "" || !AllDigits(body) then None
    else
      var n: int := if negative then 0 - DigitsValue(body) else DigitsValue(body);
      if InInt64(n) then Some(n) else None
  }

  lemma ParseFormatInt(n: int)
    requires InInt64(n)
    ensures ParseInt(FormatInt(n)) == Some(n)
  {
    ValueOfDigits(if n < 0 then -n else n);
    if n < 0 {
      assert FormatInt(n)[1..] == Digits(-n);
    } else {
      assert IsDigit(Digits(n)[0]);
    }
  }

  lemma FormatIntInjective(m: int, n: int)
    requires FormatInt(m) == FormatInt(n)
    ensures m == n
  {
    ValueOfDigits(if m < 0 then -m else m);
    ValueOfDigits(if n < 0 then -n else n);
    assert m >= 0 ==> IsDigit(FormatInt(m)[0]);
    assert n >= 0 ==> IsDigit(FormatInt(n)[0]);
    if m < 0 {
      assert FormatInt(m)[1..] == Digits(-m);
      assert FormatInt(n)[1..] == Digits(-n);
    }
  }

  lemma TimesTen(x: nat, y: nat)
    ensures x * (10 * y) == 10 * (x * y)
  {
  }

  lemma NextDigit(s: string, k: nat)
    requires s != "" && AllDigits(s) && k > 0
    ensures DigitsValue(s) == 10 * DigitsValue(s[..|s| - 1]) + DigitValue(s[|s| - 1])
    ensures Pow10(k) == 10 * Pow10(k - 1)
  {
  }

  lemma {:induction false} DigitsAppend(a: string, b: string)
    requires AllDigits(a) && AllDigits(b)
    ensures AllDigits(a + b) && DigitsValue(a + b) == DigitsValue(a) * Pow10(|b|) + DigitsValue(b)
    ensures DigitsValue(b) < Pow10(|b|)
  {
    hide DigitsValue, DigitValue, Pow10;
    if b == "" {
      assert a + b == a;
      NoDigits();
    } else {
      var init := b[..|b| - 1];
      DigitsAppend(a, init);
      assert (a + b)[..|a + b| - 1] == a + init && (a + b)[|a + b| - 1] == b[|b| - 1];
      NextDigit(b, |b|);
      NextDigit(a + b, |b|);
      TimesTen(DigitsValue(a), Pow10(|init|));
    }
  }

  lemma NoDigits()
    ensures DigitsValue("") == 0 && Pow10(0) == 1
  {
  }

  /** The whole part of the float64 that strconv.ParseFloat reads from digits with these after the point. */
  function FloatWhole(whole: string, fraction: string): nat
    requires AllDigits(whole) && AllDigits(fraction)
  {
    RoundedWhole(DigitsValue(whole + fraction), Pow10(|fraction|))
  }

  /** Such digits are out of range exactly when those before the point reach the limit. */
  lemma FloatWholeRange(whole: string, fraction: string)
    requires AllDigits(whole) && AllDigits(fraction)
    ensures FloatWhole(whole, fraction) >= Pow2(1024) <==> DigitsValue(whole) >= FloatLimit()
  {
    hide RoundedWhole, FloatLimit, Pow2, DigitsValue, Pow10;
    DigitsAppend(whole, fraction);
    var n, d := DigitsValue(whole + fraction), Pow10(|fraction|);
    FloorOrder(n, d, DigitsValue(whole));
    FloorOrder(n, d, DigitsValue(whole) + 1);
    assert (DigitsValue(whole) + 1) * d == DigitsValue(whole) * d + d;
    OutOfRangeExactly(n, d);
  }

  /**
   * The plain decimals strconv.ParseFloat reads without an error (digits, at
   * most one point, at least one digit, and not rounding past the largest
   * float64), rounded to a float64 and truncated by Go's conversion to int64.
   */
  function ParseDecimal(s: string): (r: Option<int>)
    ensures r.Some? ==> InInt64(r.value)
  {
    var (negative, body) := SplitSign(s);
    var parts := Split(body, '.');
    if |parts| > 2 || (forall i :: 0 <= i < |parts| ==> parts[i] == "")
       || (exists i :: 0 <= i < |parts| && !AllDigits(parts[i]))
    then None
    else
      var n := FloatWhole(parts[0], if |parts| == 2 then parts[1] else "");
      if n >= Pow2(1024) then None else Some(ToInt64(Signed(negative, n)))
  }

  function Signed(negative: bool, n: nat): int { if negative then 0 - n else n }

  /** A value that int64 cannot hold converts to the smallest int64, as it does on amd64. */
  function ToInt64(n: int): (r: int)
    ensures InInt64(r) && (InInt64(n) ==> r == n)
  {
    if InInt64(n) then n else MIN_INT64
  }
}
