/**
 * format_timestamp as written reads the time through floating point:
 * int(td.total_seconds() * 1000).  total_seconds() divides the whole number of microseconds
 * by 10**6 and rounds to the nearest binary64 value; the product with 1000 is rounded again;
 * int() truncates toward zero.  This module models that arithmetic exactly on rationals, so
 * that the millisecond it can lose is visible next to the integer codec of Timestamp.
 */
module FloatTime {
  import opened Timestamp

  function Pow2(n: nat): (r: nat)
    ensures r >= 1
  {
    if n == 0 then 1 else 2 * Pow2(n - 1)
  }

  /** The nearest whole number to a / b, a tie going to the even one (IEEE 754 rounding). */
  function RoundDiv(a: nat, b: nat): nat
    requires b > 0
  {
    var d, m := a / b, a % b;
    if 2 * m > b || (2 * m == b && d % 2 == 1) then d + 1 else d
  }

  /** RoundDiv is at most half a unit away from a / b, and rounds a tie to the even neighbour. */
  lemma {:induction false} RoundDivNearest(a: nat, b: nat)
    requires b > 0
    ensures var r := RoundDiv(a, b); 2 * (a - r * b) <= b && 2 * (r * b - a) <= b
    ensures var r := RoundDiv(a, b); 2 * (a - r * b) == b || 2 * (r * b - a) == b ==> r % 2 == 0
  {
    var d, m := a / b, a % b;
    assert a == d * b + m;
    assert (d + 1) * b == d * b + b;
  }

  /** k with 2^k <= p / q < 2^(k+1), for p / q at least one. */
  function LeadUp(p: nat, q: nat): nat
    requires p >= q > 0
    decreases p - q
  {
    if p >= 2 * q then LeadUp(p, 2 * q) + 1 else 0
  }

  lemma {:induction false} LeadUpBounds(p: nat, q: nat)
    requires p >= q > 0
    ensures Pow2(LeadUp(p, q)) * q <= p < 2 * Pow2(LeadUp(p, q)) * q
    decreases p - q
  {
    if p >= 2 * q {
      var k := LeadUp(p, 2 * q);
      LeadUpBounds(p, 2 * q);
      assert Pow2(k + 1) * q == Pow2(k) * (2 * q);
      assert 2 * Pow2(k + 1) * q == 2 * Pow2(k) * (2 * q);
    }
  }

  /** The exponent LeadUp reports is the only one that brackets p / q. */
  lemma {:induction false} LeadUpUnique(p: nat, q: nat, k: nat)
    requires q > 0 && Pow2(k) * q <= p < 2 * Pow2(k) * q
    ensures LeadUp(p, q) == k
    decreases k
  {
    if k > 0 {
      assert Pow2(k) * q == Pow2(k - 1) * (2 * q);
      assert 2 * Pow2(k) * q == 2 * Pow2(k - 1) * (2 * q);
      LeadUpUnique(p, 2 * q, k - 1);
    }
  }

  lemma {:induction false} Pow2Add(a: nat, b: nat)
    ensures Pow2(a + b) == Pow2(a) * Pow2(b)
    decreases a
  {
    if a > 0 {
      Pow2Add(a - 1, b);
      assert Pow2(a + b) == 2 * Pow2(a - 1 + b);
    }
  }

  /** k >= 1 with 2^-k <= p / q < 2^(1-k), for p / q below one. */
  function LeadDown(p: nat, q: nat): nat
    requires 0 < p < q
    decreases q - p
  {
    if 2 * p >= q then 1 else LeadDown(2 * p, q) + 1
  }

  lemma {:induction false} LeadDownBounds(p: nat, q: nat)
    requires 0 < p < q
    ensures LeadDown(p, q) >= 1 && q <= Pow2(LeadDown(p, q)) * p < 2 * q
    decreases q - p
  {
    if 2 * p < q {
      var k := LeadDown(2 * p, q);
      LeadDownBounds(2 * p, q);
      assert Pow2(k + 1) * p == Pow2(k) * (2 * p);
    }
  }

  /** A positive rational num / den. */
  datatype Ratio = Ratio(num: nat, den: nat)

  predicate Positive(x: Ratio) {
    x.num > 0 && x.den > 0
  }

  /**
   * The binary64 value nearest to a positive rational, as a rational: 53 significant bits,
   * ties to even.  Times stay far inside the exponent range, so neither overflow nor
   * subnormals arise.
   */
  function ToDouble(x: Ratio): (r: Ratio)
    requires Positive(x)
    ensures r.den > 0
  {
    var p, q := x.num, x.den;
    if p >= q then
      var k := LeadUp(p, q);
      if k <= 52 then Ratio(RoundDiv(p * Pow2(52 - k), q), Pow2(52 - k))
      else Ratio(RoundDiv(p, q * Pow2(k - 52)) * Pow2(k - 52), 1)
    else
      var k := LeadDown(p, q);
      Ratio(RoundDiv(p * Pow2(52 + k), q), Pow2(52 + k))
  }

  /** The gap between neighbouring binary64 values around x: one unit in its 53rd significant bit. */
  function Ulp(x: Ratio): (u: Ratio)
    requires Positive(x)
    ensures Positive(u)
  {
    var p, q := x.num, x.den;
    if p >= q then
      var k := LeadUp(p, q);
      if k <= 52 then Ratio(1, Pow2(52 - k)) else Ratio(Pow2(k - 52), 1)
    else
      Ratio(1, Pow2(52 + LeadDown(p, q)))
  }

  /** r is within half of u of x, in either direction: 2 |x - r| <= u. */
  predicate HalfUlpClose(x: Ratio, r: Ratio, u: Ratio) {
    2 * ((x.num * r.den) as int - r.num * x.den) * u.den <= u.num * x.den * r.den
    && 2 * ((r.num * x.den) as int - x.num * r.den) * u.den <= u.num * x.den * r.den
  }

  /** Rounding p * d / q to a whole number n and reading it as n / d stays within half of 1 / d of p / q. */
  lemma {:induction false} FineNearest(p: nat, q: nat, d: nat)
    requires q > 0 && d > 0
    ensures HalfUlpClose(Ratio(p, q), Ratio(RoundDiv(p * d, q), d), Ratio(1, d))
  {
    RoundDivNearest(p * d, q);
    var n := RoundDiv(p * d, q);
    var e1, e2 := 2 * ((p * d) as int - n * q), 2 * ((n * q) as int - p * d);
    assert e1 <= q && e2 <= q;
    assert e1 * d <= q * d;
    assert e2 * d <= q * d;
  }

  /** Rounding p / (q * m) to a whole number n and reading it as n * m stays within half of m of p / q. */
  lemma {:induction false} CoarseNearest(p: nat, q: nat, m: nat)
    requires q > 0 && m > 0
    ensures HalfUlpClose(Ratio(p, q), Ratio(RoundDiv(p, q * m) * m, 1), Ratio(m, 1))
  {
    RoundDivNearest(p, q * m);
    var n := RoundDiv(p, q * m);
    assert n * (q * m) == n * m * q;
  }

  /** ToDouble(x) lies within half a unit in the last place of x, in either direction. */
  lemma {:induction false} ToDoubleNearest(x: Ratio)
    requires Positive(x)
    ensures HalfUlpClose(x, ToDouble(x), Ulp(x))
  {
    var p, q := x.num, x.den;
    if p >= q {
      var k := LeadUp(p, q);
      if k <= 52 {
        FineNearest(p, q, Pow2(52 - k));
      } else {
        CoarseNearest(p, q, Pow2(k - 52));
      }
    } else {
      FineNearest(p, q, Pow2(52 + LeadDown(p, q)));
    }
  }

  /** int(timedelta(milliseconds=ms).total_seconds() * 1000) for a positive ms. */
  function MillisThroughFloat(ms: nat): nat
    requires ms > 0
  {
    var seconds := ToDouble(Ratio(ms * 1000, 1000000));
    if seconds.num == 0 then 0
    else
      Truncate(ToDouble(Ratio(seconds.num * 1000, seconds.den)))
  }

  /** int() of a non-negative rational: its whole part. */
  function Truncate(x: Ratio): nat
    requires x.den > 0
  {
    x.num / x.den
  }

  /** The millisecond count format_timestamp works with, as written; int() truncates toward zero. */
  function TotalMillisAsWritten(t: int): int {
    if t > 0 then MillisThroughFloat(t) as int else if t < 0 then -(MillisThroughFloat(-t) as int) else 0
  }

  lemma {:induction false} Pow2Values()
    ensures Pow2(43) == 8796093022208 && Pow2(52) == 4503599627370496
  {
    assert Pow2(10) == 1024;
    Pow2Add(10, 10);
    Pow2Add(20, 20);
    Pow2Add(40, 3);
    Pow2Add(43, 9);
  }

  /** total_seconds() of 1001 ms: the double just below 1.001. */
  lemma {:induction false} SecondsOf1001()
    ensures ToDouble(Ratio(1001000, 1000000)) == Ratio(4508103226997866, 4503599627370496)
  {
    Pow2Values();
    assert LeadUp(1001000, 1000000) == 0;
    assert RoundDiv(1001000 * 4503599627370496, 1000000) == 4508103226997866;
  }

  /** That double times 1000: the double just below 1001. */
  lemma {:induction false} ProductOf1001()
    ensures ToDouble(Ratio(4508103226997866 * 1000, 4503599627370496)) == Ratio(8804889115230207, 8796093022208)
  {
    Pow2Values();
    LeadUpUnique(4508103226997866 * 1000, 4503599627370496, 9);
    assert RoundDiv(4508103226997866 * 1000 * 8796093022208, 4503599627370496) == 8804889115230207;
  }

  /**
   * One second and one millisecond, which parse_timestamp reads from "00:00:01,001", comes out
   * of the float arithmetic as 1000 ms, so format_timestamp as written prints "00:00:01,000"
   * where the integer codec prints the time it was given.
   */
  lemma {:induction false} FloatDropsMillisecond()
    ensures TotalMillisAsWritten(1001) == 1000
    ensures FormatTimestamp(TotalMillisAsWritten(1001), SrtFormat) != FormatTimestamp(1001, SrtFormat)
  {
    SecondsOf1001();
    ProductOf1001();
    assert MillisThroughFloat(1001) == Truncate(Ratio(8804889115230207, 8796093022208));
    FormatThenParse(1000, SrtFormat, SrtFormat);
    FormatThenParse(1001, SrtFormat, SrtFormat);
  }
}
