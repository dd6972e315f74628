/** Facts about products, quotients and remainders of integers. */
module Arith {
  function Min(a: nat, b: nat): nat {
    if a < b then a else b
  }

  lemma MulMono(a: nat, b: nat, c: nat)
    requires a <= b
    ensures a * c <= b * c
  {
    assert b * c - a * c == (b - a) * c;
  }

  lemma TimesAssoc(a: int, b: int, c: int)
    ensures a * (b * c) == a * b * c
  {}

  /** A nonzero multiple of d is at least d away from zero. */
  lemma MulAway(k: int, d: int)
    requires d > 0
    ensures k >= 1 ==> k * d >= d
    ensures k <= -1 ==> k * d <= -d
  {
    if k >= 1 {
      MulMono(1, k, d);
    } else if k <= -1 {
      MulMono(1, -k, d);
    }
  }

  /** Quotient and remainder are determined by x == q*d + r with 0 <= r < d. */
  lemma DivModUnique(x: int, d: int, q: int, r: int)
    requires 0 <= r < d && x == q * d + r
    ensures x / d == q && x % d == r
  {
    assert x == (x / d) * d + x % d;
    var k := q - x / d;
    assert k * d == x % d - r;
    MulAway(k, d);
  }

  lemma ShrBound(x: nat, p: nat)
    requires p > 0
    ensures 0 <= x / p <= x
  {
    assert x == (x / p) * p + x % p;
    MulMono(1, p, x / p);
  }

  lemma DivFacts(x: nat, d: nat)
    requires d > 0
    ensures 0 <= x / d && 0 <= x % d < d && x == x / d * d + x % d
  {}

  lemma BelowBase(lo: nat, b: nat, p: nat, q: nat)
    requires lo < p && b < q
    ensures lo + b * p < p * q
  {
    MulMono(b + 1, q, p);
  }

  lemma BelowProduct(lo: nat, b: nat, p: nat, q: nat)
    requires lo < p && b < q
    ensures lo + p * b < p * q
  {
    MulMono(b + 1, q, p);
  }

  lemma ModMultiple(x: int, k: int, m: nat)
    requires m > 0
    ensures (x + k * m) % m == x % m
  {
    assert x + k * m == (x / m + k) * m + x % m;
    DivModUnique(x + k * m, m, x / m + k, x % m);
  }

  lemma SmallMod(x: nat, m: nat)
    requires x < m
    ensures x % m == x
  {}

  lemma Distribute2(x: int, y: int, q: int)
    ensures (x + y) * q == x * q + y * q
  {}

  lemma QuotientBelow(x: nat, b: nat)
    requires x < b * b
    ensures b > 0 && 0 <= x / b < b && x == x / b * b + x % b
  {
    assert b > 0;
    if x / b >= b {
      MulMono(b, x / b, b);
    }
  }

  lemma EvenOffset(a: nat, k: nat)
    ensures (a + 2 * k) % 2 == a % 2
  {}

  lemma NoCarry(v: nat, c: nat, p: nat)
    requires v + c * p < p
    ensures c * p == 0
  {
    if c > 0 {
      MulMono(1, c, p);
    }
  }

  lemma MulStrict(a: nat, b: nat, c: nat)
    requires a < b && c > 0
    ensures a * c < b * c
  {
    MulMono(a + 1, b, c);
  }

  lemma EvenBase(d: nat, h: nat, v: nat)
    ensures (d + 2 * h * v) % 2 == d % 2
  {
    assert 2 * h * v == 2 * (h * v);
    EvenOffset(d, h * v);
  }

  lemma DivHalf(x: nat, p: nat)
    requires p > 0
    ensures x / p / 2 == x / (2 * p)
    ensures x / p > 0 ==> p <= x
  {
    var q, r := x / p / 2, x / p % 2;
    assert x == (2 * q + r) * p + x % p;
    assert x == q * (2 * p) + (r * p + x % p);
    MulMono(r, 1, p);
    DivModUnique(x, 2 * p, q, r * p + x % p);
    if x / p > 0 {
      MulMono(1, x / p, p);
    }
  }

  lemma QuotientZero(x: nat, p: nat)
    requires p > 0 && x / p == 0
    ensures x < p
  {}

  lemma MulFits(x: nat, y: nat, r: nat, b: nat)
    requires 0 < b && r + x * b <= y * b
    ensures x <= y
  {
    if x > y {
      MulMono(y + 1, x, b);
    }
  }

  lemma WrapOnce(x: nat, m: nat)
    requires x < 2 * m
    ensures x % m == if x < m then x else x - m
  {}

  lemma ModOnce(x: int, m: int)
    requires -m <= x < 2 * m && m > 0
    ensures x % m == if x < 0 then x + m else if x < m then x else x - m
  {}

  lemma DivDiv(v: nat, p: nat, d: nat)
    requires p > 0 && d > 0
    ensures d * p > 0 && v / p / d == v / (d * p)
  {
    var q, r, s := v / p / d, v / p % d, v % p;
    MulMono(1, d, p);
    assert v == (d * q + r) * p + s;
    assert (d * q + r) * p == q * (d * p) + r * p;
    BelowBase(s, r, p, d);
    DivModUnique(v, d * p, q, s + r * p);
  }

  lemma QuotientAtLeast(x: nat, q: nat, p: nat, r: nat)
    requires r < p && x * p <= q * p + r
    ensures x <= q
  {
    if x > q {
      MulMono(q + 1, x, p);
    }
  }

  /** Reducing modulo p * b * h keeps the base-b digit at position p. */
  lemma ModKeepsDigit(x: nat, p: nat, b: nat, h: nat)
    requires p > 0 && b > 0 && h > 0
    ensures p * (b * h) > 0 && x % (p * (b * h)) / p % b == x / p % b
  {
    MulMono(1, h, b);
    MulMono(1, b * h, p);
    var m := p * (b * h);
    assert m > 0;
    DigitOfSum(x, x / m, x % m, p, b, h);
  }

  lemma DigitOfSum(x: nat, c: nat, r: nat, p: nat, b: nat, h: nat)
    requires p > 0 && b > 0 && x == c * (p * (b * h)) + r
    ensures r / p % b == x / p % b
  {
    var k := c * h * b;
    assert c * (p * (b * h)) == k * p;
    QuotientShift(r, k, p);
    ModMultiple(r / p, c * h, b);
  }

  lemma QuotientShift(r: nat, k: nat, p: nat)
    requires p > 0
    ensures (k * p + r) / p == k + r / p
  {
    assert k * p + r == (k + r / p) * p + r % p;
    DivModUnique(k * p + r, p, k + r / p, r % p);
  }
}
