/** Exact decimal arithmetic as the ledger performs it: bcmath operations
    truncate toward zero at a fixed scale, and PHP's round() rounds half away
    from zero. Amounts are exact rationals (`real`); the scales used by the
    source are 2, 6 and 10 decimal places, each written as a literal so that
    the arithmetic stays linear. */
module Decimal {

  /** The integer obtained by dropping the fractional part of y. */
  function TruncTowardZero(y: real): (n: int)
    ensures 0.0 <= y ==> 0 <= n && n as real <= y < n as real + 1.0
    ensures y < 0.0 ==> n <= 0 && n as real - 1.0 < y <= n as real
  {
    if y >= 0.0 then y.Floor else -((-y).Floor)
  }

  /** The integer nearest to y, halves going away from zero. */
  function RoundHalfAwayFromZero(y: real): (n: int)
    ensures 0.0 <= y ==> 0 <= n && y - 0.5 < n as real <= y + 0.5
    ensures y < 0.0 ==> n <= 0 && y - 0.5 <= n as real < y + 0.5
  {
    if y >= 0.0 then (y + 0.5).Floor else -((-y + 0.5).Floor)
  }

  /** x has at most two decimal places. */
  ghost predicate HasTwoDecimals(x: real)
  {
    (x * 100.0).Floor as real == x * 100.0
  }

  /** x has at most six decimal places. */
  ghost predicate HasSixDecimals(x: real)
  {
    (x * 1000000.0).Floor as real == x * 1000000.0
  }

  /** x has at most ten decimal places. */
  ghost predicate HasTenDecimals(x: real)
  {
    (x * 10000000000.0).Floor as real == x * 10000000000.0
  }

  /** bcmath's result at scale 6: x cut (toward zero) after six decimals. */
  function Trunc6(x: real): (r: real)
    ensures HasSixDecimals(r)
    ensures 0.0 <= x ==> 0.0 <= r <= x && x - r < 0.000001
    ensures x < 0.0 ==> x <= r <= 0.0 && r - x < 0.000001
  {
    var n := TruncTowardZero(x * 1000000.0);
    SixDecimalsGrid(n);
    n as real / 1000000.0
  }

  /** bcmath's result at scale 10: x cut (toward zero) after ten decimals. */
  function Trunc10(x: real): (r: real)
    ensures HasTenDecimals(r)
    ensures 0.0 <= x ==> 0.0 <= r <= x && x - r < 0.0000000001
    ensures x < 0.0 ==> x <= r <= 0.0 && r - x < 0.0000000001
  {
    var n := TruncTowardZero(x * 10000000000.0);
    TenDecimalsGrid(n);
    n as real / 10000000000.0
  }

  /** PHP round(x, 2). */
  function Round2(x: real): (r: real)
    ensures HasTwoDecimals(r)
    ensures 0.0 <= x ==> 0.0 <= r && x - 0.005 < r <= x + 0.005
    ensures x < 0.0 ==> r <= 0.0 && x - 0.005 <= r < x + 0.005
  {
    var n := RoundHalfAwayFromZero(x * 100.0);
    TwoDecimalsGrid(n);
    n as real / 100.0
  }

  /** PHP round(x, 6). */
  function Round6(x: real): (r: real)
    ensures HasSixDecimals(r)
    ensures 0.0 <= x ==> 0.0 <= r && x - 0.0000005 < r <= x + 0.0000005
    ensures x < 0.0 ==> r <= 0.0 && x - 0.0000005 <= r < x + 0.0000005
  {
    var n := RoundHalfAwayFromZero(x * 1000000.0);
    SixDecimalsGrid(n);
    n as real / 1000000.0
  }

  /** A value already on the two-decimal grid is left alone by every step. */
  lemma TwoDecimalsFixed(x: real)
    requires HasTwoDecimals(x)
    ensures HasSixDecimals(x)
    ensures Trunc6(x) == x && Round2(x) == x
  {
    var m := (x * 100.0).Floor;
    assert x == m as real / 100.0;
    assert x * 1000000.0 == (m * 10000) as real;
    FloorOfInt(m * 10000);
    FloorOfInt(-(m * 10000));
    assert TruncTowardZero(x * 1000000.0) == m * 10000;
    FloorOfHalfAbove(m);
    FloorOfHalfAbove(-m);
    assert RoundHalfAwayFromZero(x * 100.0) == m;
  }

  /** Sums and differences of two-decimal values stay on the grid. */
  lemma TwoDecimalsClosed(a: real, b: real)
    requires HasTwoDecimals(a) && HasTwoDecimals(b)
    ensures HasTwoDecimals(a + b) && HasTwoDecimals(a - b)
  {
    var m, n := (a * 100.0).Floor, (b * 100.0).Floor;
    assert a * 100.0 == m as real && b * 100.0 == n as real;
    FloorOfInt(m + n);
    FloorOfInt(m - n);
    assert (a + b) * 100.0 == a * 100.0 + b * 100.0 == (m + n) as real;
    assert (a - b) * 100.0 == a * 100.0 - b * 100.0 == (m - n) as real;
  }

  lemma FloorOfInt(k: int)
    ensures (k as real).Floor == k
  {
  }

  /** A whole number of hundredths has two decimals. */
  lemma TwoDecimalsGrid(n: int)
    ensures HasTwoDecimals(n as real / 100.0)
  {
    assert (n as real / 100.0) * 100.0 == n as real;
    FloorOfInt(n);
  }

  /** A whole number of millionths has six decimals. */
  lemma SixDecimalsGrid(n: int)
    ensures HasSixDecimals(n as real / 1000000.0)
  {
    assert (n as real / 1000000.0) * 1000000.0 == n as real;
    FloorOfInt(n);
  }

  /** A whole number of ten-billionths has ten decimals. */
  lemma TenDecimalsGrid(n: int)
    ensures HasTenDecimals(n as real / 10000000000.0)
  {
    assert (n as real / 10000000000.0) * 10000000000.0 == n as real;
    FloorOfInt(n);
  }

  /** Rounding to cents after a cut at ten decimals is rounding to cents:
      the cut never crosses a half cent, which lies on the ten-decimal grid. */
  lemma Round2AfterTrunc10(x: real)
    ensures Round2(Trunc10(x)) == Round2(x)
  {
    if x >= 0.0 {
      HalfCentBelow(x);
    } else {
      HalfCentBelow(-x);
    }
  }

  /** The same for rounding to six decimals. */
  lemma Round6AfterTrunc10(x: real)
    ensures Round6(Trunc10(x)) == Round6(x)
  {
    if x >= 0.0 {
      HalfMillionthBelow(x);
    } else {
      HalfMillionthBelow(-x);
    }
  }

  /** For q >= 0 with m ten-billionths below it, the nearest cent of m is
      the nearest cent of q. */
  lemma HalfCentBelow(q: real)
    requires q >= 0.0
    ensures var m := (q * 10000000000.0).Floor;
      (m as real / 100000000.0 + 0.5).Floor == (q * 100.0 + 0.5).Floor
  {
    var m := (q * 10000000000.0).Floor;
    var k := (q * 100.0 + 0.5).Floor;
    var i := k * 100000000 - 50000000;
    assert i as real <= q * 10000000000.0;
    assert i <= m;
    assert m as real / 100000000.0 <= q * 100.0;
  }

  /** For q >= 0 with m ten-billionths below it, the nearest millionth of m
      is the nearest millionth of q. */
  lemma HalfMillionthBelow(q: real)
    requires q >= 0.0
    ensures var m := (q * 10000000000.0).Floor;
      (m as real / 10000.0 + 0.5).Floor == (q * 1000000.0 + 0.5).Floor
  {
    var m := (q * 10000000000.0).Floor;
    var k := (q * 1000000.0 + 0.5).Floor;
    var i := k * 10000 - 5000;
    assert i as real <= q * 10000000000.0;
    assert i <= m;
    assert m as real / 10000.0 <= q * 1000000.0;
  }

  lemma FloorOfHalfAbove(k: int)
    ensures (k as real + 0.5).Floor == k
  {
  }
}
