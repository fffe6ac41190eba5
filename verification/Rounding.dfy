/** The platform's rounding of a quotient: to the nearest whole number, and of two to the even one. */
module Rounding {

  function Rounded(n: nat, d: nat): (r: nat)
    requires d > 0
  {
    var q, twice := n / d, 2 * (n % d);
    if twice < d || (twice == d && q % 2 == 0) then q else q + 1
  }

  /** Rounding is off by at most a half. */
  lemma RoundedIsNear(n: nat, d: nat)
    requires d > 0
    ensures 2 * (d * Rounded(n, d)) <= 2 * n + d && 2 * n <= 2 * (d * Rounded(n, d)) + d
  {
    assert n == d * (n / d) + n % d;
    assert d * (n / d + 1) == d * (n / d) + d;
  }

  /** r is a whole number nearest to the quotient, and of two the even one. */
  ghost predicate IsNearest(r: nat, n: nat, d: nat) {
    && 2 * (d * r) <= 2 * n + d && 2 * n <= 2 * (d * r) + d
    && (2 * (d * r) == 2 * n + d || 2 * n == 2 * (d * r) + d ==> r % 2 == 0)
  }

  lemma RoundedIsNearest(n: nat, d: nat)
    requires d > 0
    ensures IsNearest(Rounded(n, d), n, d)
  {
    var q, m := n / d, n % d;
    assert n == d * q + m;
    assert d * (q + 1) == d * q + d;
  }

  lemma {:induction false} Multiples(d: nat, a: nat, b: nat)
    ensures a <= b ==> d * a <= d * b
    ensures a < b ==> d * a + d <= d * b
    decreases b
  {
    if a < b {
      Multiples(d, a, b - 1);
      assert d * b == d * (b - 1) + d;
    }
  }

  /** Rounding never passes a whole number. */
  lemma RoundedWithin(n: nat, d: nat, low: nat, high: nat)
    requires d > 0 && d * low <= n <= d * high
    ensures low <= Rounded(n, d) <= high
  {
    RoundedIsNear(n, d);
    Multiples(d, Rounded(n, d), low);
    Multiples(d, high, Rounded(n, d));
  }

  /** A half short of an even number rounds up to it. */
  lemma RoundedUp(n: nat, d: nat, h: nat)
    requires d > 0 && h > 0 && h % 2 == 0 && 2 * n + d >= 2 * (d * h)
    ensures Rounded(n, d) >= h
  {
    var q := n / d;
    assert n == d * q + n % d;
    assert d * h == d * (h - 1) + d;
    Multiples(d, q, h - 1);
    assert q >= h - 1;
    if q == h - 1 { assert 2 * (n % d) >= d; }
  }

  /** A percentage reads a hundred exactly when at most one in two hundred is missing. */
  lemma HundredExactlyWhen(k: nat, n: nat)
    requires 0 < n && k <= n
    ensures Rounded(100 * k, n) <= 100
    ensures Rounded(100 * k, n) == 100 <==> 200 * (n - k) <= n
  {
    RoundedWithin(100 * k, n, 0, 100);
    RoundedIsNear(100 * k, n);
    Multiples(n, Rounded(100 * k, n), 100);
    if 200 * (n - k) <= n { RoundedUp(100 * k, n, 100); }
  }
}
