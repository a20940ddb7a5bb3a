/** What unsigned arithmetic makes of a negative operand: -x is read as m - x, where m is the modulus of
    the width. How far the results are from the right ones, and when not at all. */
module MixedSign {
  import opened Nonlinear

  lemma QuotientBounds(x: nat, y: nat, q: int, r: nat)
    requires x == q * y + r && r < y
    ensures 0 <= q <= x && (x < y ==> q == 0) && (x >= y ==> q >= 1) && (y >= 2 ==> 2 * q <= x)
  {
    MulAtLeast(q, y);
    if q >= 1 {
      assert q * (y - 1) == q * y - q;
      if y >= 2 { MulAtLeast(y - 1, q); }
      if y >= 2 { assert (y - 1) * q == q * (y - 1); }
    }
  }

  lemma QuotientOf(x: nat, y: nat)
    requires y > 0
    ensures 0 <= x / y <= x && x == (x / y) * y + x % y && 0 <= x % y < y
    ensures x < y ==> x / y == 0 && x % y == x
    ensures x >= y ==> x / y >= 1
    ensures y >= 2 ==> 2 * (x / y) <= x
  {
    assert x == (x / y) * y + x % y;
    QuotientBounds(x, y, x / y, x % y);
  }

  /** -x divided by y: the two quotients add up to 0, or to m, or to something between. */
  lemma NegativeDividend(x: nat, y: nat, m: nat)
    requires 1 <= x <= m - x && 1 <= y < m
    ensures var s := (m - x) / y + x / y;
            && (s == 0 <==> y > m - x)
            && (s == m <==> y == 1)
            && 0 <= s <= m
  {
    QuotientOf(m - x, y);
    QuotientOf(x, y);
  }

  /** a divided by -y. */
  lemma NegativeDivisor(a: nat, y: nat, m: nat)
    requires 1 <= y <= m - y && a < m
    ensures var s := a / (m - y) + a / y;
            && (s == 0 <==> a < y)
            && (s == m ==> a / y == m - 1)
            && 0 <= s <= m
  {
    QuotientOf(a, y);
    QuotientOf(a, m - y);
    if y == 1 && a == m - 1 { Euclid(a, m - 1, 1, 0); }
    if a / (m - y) >= 2 { assert (a / (m - y)) * (m - y) >= 2 * (m - y) by { MulAtLeast(a / (m - y) - 1, m - y); } }
  }

  /** y divides both x and m - x exactly when it divides x and m. */
  lemma DividesDifference(x: nat, y: nat, m: nat)
    requires y > 0 && x <= m && x % y == 0
    ensures (m - x) % y == m % y
  {
    QuotientOf(x, y);
    ModShift(m - x, x / y, y);
  }

  /** The rest of -x by y. */
  lemma NegativeDividendRest(x: nat, y: nat, m: nat)
    requires 1 <= x <= m - x && 1 <= y < m
    ensures var s := (m - x) % y + x % y;
            && (s == 0 <==> x % y == 0 && m % y == 0)
            && (s == m <==> y > m - x)
            && 0 <= s < 2 * m
  {
    QuotientOf(m - x, y);
    QuotientOf(x, y);
    if x % y == 0 { DividesDifference(x, y, m); }
    RestAtMost(x, y);
  }

  lemma RestAtMost(x: nat, y: nat)
    requires y > 0
    ensures x % y <= x
  {
    QuotientOf(x, y);
    assert (x / y) * y >= 0;
  }

  /** The rest of a by -y. */
  lemma NegativeDivisorRest(a: nat, y: nat, m: nat)
    requires 1 <= y <= m - y && a < m
    ensures a % (m - y) == a % y <==> a < y || (a >= m - y && m % y == 0)
  {
    var d := m - y;
    QuotientOf(a, y);
    QuotientOf(a, d);
    if a >= d {
      Euclid(a, d, 1, a - d);
      assert d == m + -1 * y;
      ModShift(m, -1, y);
      assert d % y == m % y;
      RestOfSum(d, a - d, y);
    }
  }

  /** d + r leaves the rest r by y exactly when y divides d. */
  lemma RestOfSum(d: nat, r: nat, y: nat)
    requires 0 <= r < y
    ensures (d + r) % y == r <==> d % y == 0
  {
    var (q, p) := (d / y, (d + r) / y);
    if d % y == 0 {
      assert d == q * y;
      Euclid(d + r, y, q, r);
    }
    if (d + r) % y == r {
      assert d + r == p * y + r;
      Euclid(d, y, p, 0);
    }
  }
}
