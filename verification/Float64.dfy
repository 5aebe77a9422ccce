/** How a decimal number becomes a float64: rounded to 53 significant bits, half to even, or out of range. */
module Float64 {
  function Pow2(n: nat): (p: nat)
    ensures p >= 1
  {
    if n == 0 then 1 else 2 * Pow2(n - 1)
  }

  function Pow10(n: nat): (p: nat)
    ensures p >= 1
  {
    if n == 0 then 1 else 10 * Pow10(n - 1)
  }

  function BitLength(n: nat): nat {
    if n == 0 then 0 else 1 + BitLength(n / 2)
  }

  /** a / d to the nearest integer, half to even. */
  function HalfEven(a: nat, d: nat): nat
    requires d > 0
  {
    var q, r := a / d, a % d;
    if 2 * r > d || (2 * r == d && q % 2 == 1) then q + 1 else q
  }

  /** The whole part of the float64 nearest to n / d. */
  function RoundedWhole(n: nat, d: nat): nat
    requires d > 0
  {
    var k := BitLength(n / d);
    if k >= 53 then RoundedTo(n, d, Pow2(k - 53)) else RoundedBy(n, d, Pow2(53 - k))
  }

  /** To a multiple of a unit. */
  function RoundedTo(n: nat, d: nat, unit: nat): nat
    requires d > 0 && unit > 0
  {
    ProductSign(d, unit);
    ProductSign(HalfEven(n, d * unit), unit);
    HalfEven(n, d * unit) * unit
  }

  /** To a fraction of one, and then down. */
  function RoundedBy(n: nat, d: nat, perOne: nat): nat
    requires d > 0 && perOne > 0
  {
    ProductSign(n, perOne);
    HalfEven(n * perOne, d) / perOne
  }

  lemma ProductSign(x: nat, y: nat)
    ensures x * y >= 0 && (x > 0 && y > 0 ==> x * y > 0)
  {
  }

  // ----- out of range -----

  lemma {:induction false} Pow2Adds(m: nat, n: nat)
    ensures Pow2(m + n) == Pow2(m) * Pow2(n)
  {
    if m > 0 { Pow2Adds(m - 1, n); }
  }

  lemma Pow2Values()
    ensures Pow2(54) == 0x40_0000_0000_0000 && Pow2(64) == 0x1_0000_0000_0000_0000
  {
    assert Pow2(6) == 64 && Pow2(16) == 0x1_0000;
    Pow2Adds(16, 16);
    Pow2Adds(32, 16);
    Pow2Adds(48, 6);
    Pow2Adds(48, 16);
  }

  /** Half way between the largest float64 and 2^1024: from here on a number rounds out of range. */
  function FloatLimit(): (n: nat)
    ensures n > 0x8000_0000_0000_0000
  {
    FloatLimitIsLarge();
    Pow2(1024) - Pow2(970)
  }

  lemma FloatLimitIsLarge()
    ensures Pow2(1024) - Pow2(970) > 0x8000_0000_0000_0000
  {
    hide Pow2;
    Pow2Values();
    Pow2Adds(54, 970);
    Pow2Adds(64, 906);
    assert Pow2(1024) - Pow2(970) == (Pow2(54) - 1) * Pow2(970);
  }

  // ----- when rounding shows -----

  lemma Division(a: nat, d: nat)
    requires d > 0
    ensures a == a / d * d + a % d && 0 <= a % d < d
  {
  }

  lemma MulOrder(x: int, y: int, d: int)
    requires x <= y && d >= 0
    ensures x * d <= y * d
  {
  }

  /** Rounding reaches an even integer exactly from half way up to it. */
  lemma HalfEvenReaches(a: nat, d: nat, m: nat)
    requires d > 0 && m > 0 && m % 2 == 0
    ensures HalfEven(a, d) >= m <==> 2 * a >= 2 * (m * d) - d
  {
    var q, r := a / d, a % d;
    Division(a, d);
    if q >= m {
      MulOrder(m, q, d);
    } else if q == m - 1 {
      assert (m - 1) * d == m * d - d;
    } else {
      MulOrder(q + 2, m, d);
      assert (q + 2) * d == q * d + 2 * d;
    }
  }

  lemma HalfEvenBetween(a: nat, d: nat, lo: nat, hi: nat)
    requires d > 0 && lo * d <= a < hi * d
    ensures lo <= HalfEven(a, d) <= hi
  {
    var q := a / d;
    Division(a, d);
    assert (q + 1) * d == q * d + d;
    if q < lo { MulOrder(q + 1, lo, d); }
    if q >= hi { MulOrder(hi, q, d); }
  }

  lemma EvenPower(k: nat)
    requires k > 0
    ensures Pow2(k) == 2 * Pow2(k - 1)
  {
  }

  lemma Quotient(h: nat, w: nat, p: nat)
    requires p > 0 && w * p <= h <= (w + 1) * p
    ensures h / p == if h == (w + 1) * p then w + 1 else w
  {
    Division(h, p);
    var q := h / p;
    assert (w + 1) * p == w * p + p && (q + 1) * p == q * p + p && (w + 2) * p == w * p + 2 * p;
    if q < w { MulOrder(q + 1, w, p); }
    if q > w + 1 { MulOrder(w + 2, q, p); }
    if q == w + 1 { assert q * p == (w + 1) * p; }
  }

  lemma Regroup(x: int, d: int, p: int)
    ensures (x * d) * p == (x * p) * d
  {
  }

  lemma Distribute(p: int, x: int, y: int)
    ensures (2 * p) * (x - y) == 2 * (x * p) - 2 * (y * p)
  {
  }

  /** n / d in units of 1 / p lies between w and w + 1, and reaches w + 1 when it is at most half a unit short. */
  lemma RoundedUnits(n: nat, d: nat, w: nat, p: nat)
    requires d > 0 && p > 0 && p % 2 == 0 && w * d <= n < (w + 1) * d
    ensures var h := HalfEven(n * p, d);
            w * p <= h <= (w + 1) * p && (h == (w + 1) * p <==> (2 * p) * ((w + 1) * d - n) <= d)
  {
    hide HalfEven;
    var m := (w + 1) * p;
    Scaled(n, w * d, (w + 1) * d, p);
    Regroup(w, d, p);
    Regroup(w + 1, d, p);
    HalfEvenBetween(n * p, d, w * p, m);
    EvenTimes(w + 1, p);
    HalfEvenReaches(n * p, d, m);
    Distribute(p, (w + 1) * d, n);
  }

  /**
   * Below 2^52 truncating the rounded number gives the whole part, or one more
   * exactly when the number is within half a unit in the last place of it.
   */
  lemma RoundedWholeExactly(n: nat, d: nat)
    requires d > 0 && BitLength(n / d) < 53
    ensures var w := n / d;
            RoundedWhole(n, d) == if Pow2(54 - BitLength(w)) * ((w + 1) * d - n) <= d then w + 1 else w
  {
    hide HalfEven, BitLength, Pow2;
    var w := n / d;
    var p := Pow2(53 - BitLength(w));
    EvenPower(53 - BitLength(w));
    EvenPower(54 - BitLength(w));
    Division(n, d);
    assert (w + 1) * d == w * d + d;
    RoundedUnits(n, d, w, p);
    Quotient(HalfEven(n * p, d), w, p);
  }

  lemma EvenTimes(x: nat, p: nat)
    requires p % 2 == 0
    ensures (x * p) % 2 == 0
  {
    var h := p / 2;
    assert x * p == 2 * (x * h);
  }

  lemma Scaled(n: nat, lo: nat, hi: nat, p: nat)
    requires lo <= n < hi && p > 0
    ensures lo * p <= n * p < hi * p
  {
    MulOrder(lo, n, p);
    MulOrder(n + 1, hi, p);
    assert (n + 1) * p == n * p + p;
  }

  /**
   * Rounding w + r / d leaves its whole part alone: below 2^52 when it is not
   * within half a unit of the next integer; from there to 2^53 when it is
   * nearer to w, or half way and w is even; beyond, when w is itself a float64.
   */
  predicate Kept(w: nat, r: nat, d: nat)
    requires r < d
  {
    var k := BitLength(w);
    if k < 53 then Pow2(54 - k) * (d - r) > d
    else if k == 53 then 2 * r < d || (2 * r == d && w % 2 == 0)
    else w % Pow2(k - 53) == 0
  }

  /** Truncating the rounded number gives the whole part exactly when rounding keeps it. */
  lemma RoundingKeepsExactly(n: nat, d: nat)
    requires d > 0
    ensures RoundedWhole(n, d) == n / d <==> Kept(n / d, n % d, d)
  {
    hide BitLength, HalfEven, Pow2;
    var w, r := n / d, n % d;
    Division(n, d);
    assert (w + 1) * d == w * d + d;
    if BitLength(w) < 53 {
      RoundedWholeExactly(n, d);
    } else if BitLength(w) == 53 {
      PowZero();
      HalfEvenKeeps(n, d);
    } else {
      EvenPower(BitLength(w) - 53);
      KeptToUnit(n, d, Pow2(BitLength(w) - 53));
    }
  }

  lemma PowZero()
    ensures Pow2(0) == 1
  {
  }

  lemma HalfEvenKeeps(n: nat, d: nat)
    requires d > 0
    ensures RoundedTo(n, d, 1) == n / d <==> 2 * (n % d) < d || (2 * (n % d) == d && (n / d) % 2 == 0)
  {
    assert d * 1 == d && HalfEven(n, d) * 1 == HalfEven(n, d);
  }

  lemma HalfEvenDown(a: nat, d: nat, q: nat, r: nat)
    requires d > 0 && a == q * d + r && 2 * r < d
    ensures HalfEven(a, d) == q
  {
    FloorOrder(a, d, q);
    FloorOrder(a, d, q + 1);
    assert (q + 1) * d == q * d + d;
    Division(a, d);
  }

  /** To a multiple of an even unit: exactly when the whole part is one. */
  lemma KeptToUnit(n: nat, d: nat, unit: nat)
    requires d > 0 && unit > 0 && unit % 2 == 0
    ensures RoundedTo(n, d, unit) == n / d <==> (n / d) % unit == 0
  {
    hide HalfEven;
    var w, r := n / d, n % d;
    Division(n, d);
    Division(w, unit);
    if w % unit == 0 {
      var q := w / unit;
      assert w * d == (q * unit) * d == q * (d * unit);
      MulOrder(2, unit, d);
      assert unit * d == d * unit;
      ProductSign(d, unit);
      HalfEvenDown(n, d * unit, q, r);
    } else {
      ProductSign(d, unit);
      MultipleHasNoRemainder(HalfEven(n, d * unit), unit);
    }
  }

  lemma MultipleHasNoRemainder(x: nat, unit: nat)
    requires unit > 0
    ensures (x * unit) % unit == 0
  {
    Division(x * unit, unit);
    FloorOrder(x * unit, unit, x);
    FloorOrder(x * unit, unit, x + 1);
    assert (x + 1) * unit == x * unit + unit;
  }

  // ----- why the limit is the limit -----

  lemma {:induction false} BitLengthBounds(n: nat)
    requires n > 0
    ensures BitLength(n) > 0 && Pow2(BitLength(n) - 1) <= n < Pow2(BitLength(n))
  {
    if n > 1 { BitLengthBounds(n / 2); }
  }

  lemma BitsOf(k: nat)
    ensures BitLength(Pow2(k)) == k + 1
  {
    hide Pow2;
    var b := BitLength(Pow2(k));
    BitLengthBounds(Pow2(k));
    if b > k + 1 {
      PowOrder(k + 1, b - 1);
      EvenPower(k + 1);
    }
    if b < k + 1 { PowOrder(b, k); }
  }

  lemma PowOrder(m: nat, n: nat)
    requires m <= n
    ensures Pow2(m) <= Pow2(n)
  {
    Pow2Adds(m, n - m);
    MulOrder(1, Pow2(n - m), Pow2(m));
  }

  lemma FloorOrder(n: nat, d: nat, m: nat)
    requires d > 0
    ensures n / d >= m <==> n >= m * d
  {
    Division(n, d);
    assert (n / d + 1) * d == n / d * d + d;
    if n / d >= m { MulOrder(m, n / d, d); } else { MulOrder(n / d + 1, m, d); }
  }

  /** Rounding never passes the next power of two. */
  lemma RoundedBelow(n: nat, d: nat, k: nat)
    requires d > 0 && k >= 53 && k == BitLength(n / d)
    ensures RoundedWhole(n, d) <= Pow2(k)
  {
    hide Pow2, HalfEven, BitLength;
    var w, q := n / d, Pow2(k - 53);
    assert w < Pow2(k) by { if w > 0 { BitLengthBounds(w); } }
    FloorOrder(n, d, Pow2(k));
    Pow2Adds(53, k - 53);
    assert Pow2(53) * (d * q) == (Pow2(53) * q) * d;
    HalfEvenBetween(n, d * q, 0, Pow2(53));
    MulOrder(HalfEven(n, d * q), Pow2(53), q);
  }

  lemma RangeSmall(n: nat, d: nat)
    requires d > 0 && BitLength(n / d) < 1024
    ensures RoundedWhole(n, d) < Pow2(1024) && n / d < FloatLimit()
  {
    hide Pow2, RoundedWhole, BitLength;
    var w := n / d;
    var k := BitLength(w);
    assert w < Pow2(k) by { if w > 0 { BitLengthBounds(w); } }
    PowOrder(k, 1023);
    EvenPower(1024);
    PowOrder(970, 1022);
    EvenPower(1023);
    if k < 53 { RoundedWholeExactly(n, d); } else { RoundedBelow(n, d, k); }
  }

  /** The threshold 2^53 units of q, less half a unit, is the limit. */
  lemma EdgeAlgebra(d: nat, q: nat, p: nat, half: nat)
    requires q == 2 * half
    ensures 2 * (p * (d * q)) - d * q == 2 * ((p * q) * d - half * d)
  {
    assert p * (d * q) == (p * q) * d;
    assert d * q == 2 * (half * d);
  }

  lemma RangeEdge(n: nat, d: nat)
    requires d > 0 && BitLength(n / d) == 1024
    ensures RoundedWhole(n, d) >= Pow2(1024) <==> n / d >= FloatLimit()
  {
    hide Pow2, HalfEven, BitLength;
    var q := Pow2(971);
    var h := HalfEven(n, d * q);
    Pow2Adds(53, 971);
    EvenPower(53);
    EvenPower(971);
    HalfEvenReaches(n, d * q, Pow2(53));
    ProductReaches(h, Pow2(53), q);
    EdgeAlgebra(d, q, Pow2(53), Pow2(970));
    Difference(Pow2(1024), Pow2(970), d);
    FloorOrder(n, d, FloatLimit());
  }

  lemma ProductReaches(h: nat, m: nat, q: nat)
    requires q > 0
    ensures h * q >= m * q <==> h >= m
  {
    assert (h + 1) * q == h * q + q;
    if h >= m { MulOrder(m, h, q); } else { MulOrder(h + 1, m, q); }
  }

  lemma Difference(x: int, y: int, d: int)
    ensures (x - y) * d == x * d - y * d
  {
  }

  lemma RangeLarge(n: nat, d: nat)
    requires d > 0 && BitLength(n / d) > 1024
    ensures RoundedWhole(n, d) >= Pow2(1024) && n / d >= FloatLimit()
  {
    hide Pow2, HalfEven, BitLength;
    var w := n / d;
    var k := BitLength(w);
    assert w > 0 by { NoBits(); }
    BitLengthBounds(w);
    PowOrder(1024, k - 1);
    var q := Pow2(k - 53);
    Pow2Adds(52, k - 53);
    FloorOrder(n, d, Pow2(k - 1));
    assert Pow2(52) * (d * q) == (Pow2(52) * q) * d;
    MulOrder(1, d * q, n + 1);
    HalfEvenBetween(n, d * q, Pow2(52), n + 1);
    MulOrder(Pow2(52), HalfEven(n, d * q), q);
  }

  lemma NoBits()
    ensures BitLength(0) == 0
  {
  }

  /** A number rounds to 2^1024 or more exactly when its whole part is at or above the limit. */
  lemma OutOfRangeExactly(n: nat, d: nat)
    requires d > 0
    ensures RoundedWhole(n, d) >= Pow2(1024) <==> n / d >= FloatLimit()
  {
    hide Pow2, BitLength, RoundedWhole, FloatLimit;
    if BitLength(n / d) < 1024 {
      RangeSmall(n, d);
    } else if BitLength(n / d) == 1024 {
      RangeEdge(n, d);
    } else {
      RangeLarge(n, d);
    }
  }
}
