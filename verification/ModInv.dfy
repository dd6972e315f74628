/**
 Modular inversion by the binary extended Euclidean algorithm, in place on word arrays.
 */
module ModInv {
  import opened Arith
  import opened Words
  import opened Vli
  import opened VliMod

  // ----- divisibility and congruence -----

  ghost predicate Divides(d: int, x: int) {
    exists k: int :: x == k * d
  }

  /** g is the greatest common divisor of x and y. */
  ghost predicate IsGcd(g: nat, x: nat, y: nat) {
    && Divides(g, x) && Divides(g, y)
    && forall d: nat | Divides(d, x) && Divides(d, y) :: Divides(d, g)
  }

  /** a and b have exactly the common divisors of x and y. */
  ghost predicate SameDivisors(a: nat, b: nat, x: nat, y: nat) {
    forall d: nat :: Divides(d, a) && Divides(d, b) <==> Divides(d, x) && Divides(d, y)
  }

  ghost predicate Congruent(x: int, y: int, m: int) {
    Divides(m, x - y)
  }

  lemma DividesSum(d: int, x: int, y: int, s: int)
    requires Divides(d, x) && Divides(d, y)
    ensures Divides(d, x + s * y)
  {
    var k :| x == k * d;
    var l :| y == l * d;
    assert x + s * y == (k + s * l) * d
           by { assert s * (l * d) == (s * l) * d; assert (k + s * l) * d == k * d + s * l * d; }
  }

  /** An odd d dividing 2x divides x. */
  lemma DividesHalf(d: int, x: int)
    requires d % 2 == 1 && Divides(d, 2 * x)
    ensures Divides(d, x)
  {
    var k :| 2 * x == k * d;
    EvenFactor(k, d);
    assert x == k / 2 * d by { assert k == 2 * (k / 2); assert 2 * (k / 2) * d == 2 * (k / 2 * d); }
  }

  lemma ParityOfProduct(k: int, d: int)
    ensures k * d % 2 == k % 2 * (d % 2)
  {
    var i, j := k / 2, d / 2;
    if k % 2 == 0 {
      TimesAssoc(2, i, d);
    } else if d % 2 == 0 {
      TimesAssoc(k, 2, j);
      TimesAssoc(2, k, j);
    } else {
      Distribute2(2 * i, 1, d);
      TimesAssoc(2, i, d);
    }
  }

  lemma EvenFactor(k: int, d: int)
    requires d % 2 == 1 && k * d % 2 == 0
    ensures k % 2 == 0
  {
    ParityOfProduct(k, d);
  }

  lemma OddDivisor(d: int, y: int)
    requires y % 2 == 1 && Divides(d, y)
    ensures d % 2 == 1
  {
    var k :| y == k * d;
    ParityOfProduct(k, d);
  }

  /** Halving the even one of two numbers keeps their common divisors, if the other is odd. */
  lemma HalveKeepsDivisors(a: nat, b: nat)
    requires a % 2 == 0 && b % 2 == 1
    ensures SameDivisors(a / 2, b, a, b)
  {
    forall d: nat
      ensures Divides(d, a / 2) && Divides(d, b) <==> Divides(d, a) && Divides(d, b)
    {
      if Divides(d, b) {
        OddDivisor(d, b);
        if Divides(d, a) {
          DividesHalf(d, a / 2);
        }
        if Divides(d, a / 2) {
          DividesSum(d, a / 2, a / 2, 1);
        }
      }
    }
  }

  lemma SubtractKeepsDivisors(a: nat, b: nat)
    requires b <= a
    ensures SameDivisors(a - b, b, a, b)
  {
    forall d: nat
      ensures Divides(d, a - b) && Divides(d, b) <==> Divides(d, a) && Divides(d, b)
    {
      if Divides(d, b) {
        if Divides(d, a) {
          DividesSum(d, a, b, -1);
        }
        if Divides(d, a - b) {
          DividesSum(d, a - b, b, 1);
        }
      }
    }
  }

  /** u * x is congruent to a modulo m. */
  ghost predicate Tracks(u: int, x: int, a: int, m: int) {
    Congruent(u * x, a, m)
  }

  /** Halving modulo an odd m. */
  lemma TracksHalf(u: int, u': int, x: int, a: int, m: int)
    requires m % 2 == 1 && a % 2 == 0 && Tracks(u, x, a, m)
    requires 2 * u' == u || 2 * u' == u + m
    ensures Tracks(u', x, a / 2, m)
  {
    assert Divides(m, 2 * u' * x - a) by {
      if 2 * u' == u + m {
        assert 2 * u' * x - a == (u * x - a) + x * m by { assert (u + m) * x == u * x + x * m; }
        assert m == 1 * m;
        DividesSum(m, u * x - a, m, x);
      }
    }
    assert 2 * u' * x - a == 2 * (u' * x - a / 2);
    DividesHalf(m, u' * x - a / 2);
  }

  lemma TracksDifference(u: int, v: int, w: int, x: int, a: int, b: int, m: int)
    requires Tracks(u, x, a, m) && Tracks(v, x, b, m)
    requires w == u - v || w == u - v + m
    ensures Tracks(w, x, a - b, m)
  {
    DividesSum(m, u * x - a, v * x - b, -1);
    assert (u - v) * x == u * x - v * x;
    assert Divides(m, (u - v) * x - (a - b));
    if w == u - v + m {
      assert m == 1 * m;
      DividesSum(m, (u - v) * x - (a - b), m, x);
      assert w * x - (a - b) == (u - v) * x - (a - b) + x * m by { assert (u - v + m) * x == (u - v) * x + x * m; }
    }
  }

  // ----- the algorithm -----

  /** uv = uv / 2 modulo an odd mod, for uv below mod; the carry of the addition is shifted back in. */
  method Update(uv: array<Word>, mod: array<Word>, n: nat)
    requires 0 < n <= uv.Length && n <= mod.Length && uv != mod
    requires Value(mod[..n]) % 2 == 1 && Value(uv[..n]) < Value(mod[..n])
    modifies uv
    ensures Value(uv[..n]) < Value(mod[..n])
    ensures 2 * Value(uv[..n]) == old(Value(uv[..n]))
         || 2 * Value(uv[..n]) == old(Value(uv[..n])) + Value(mod[..n])
  {
    hide Value, BPow, Pow2, Or;
    var carry: Bit := 0;
    ghost var x, m := Value(uv[..n]), Value(mod[..n]);
    Parity(uv[..n]);
    if uv[0] % 2 == 1 {
      carry := Add(uv, uv, mod, n);
    }
    ghost var sum := Value(uv[..n]);
    ValueBound(uv[..n]);
    ValueBound(mod[..n]);
    EvenPower(n);
    assert uv[0..0 + n] == uv[..n];
    Rshift1(uv, 0, n);
    assert uv[0..0 + n] == uv[..n];
    ghost var half := uv[..n];
    SetTopBit(half, carry);
    HalfOfSum(sum, carry, x, m, BPow(n));
    if carry == 1 {
      uv[n - 1] := Or(uv[n - 1], Pow2(W - 1));
      assert uv[..n] == half[n - 1 := Or(half[n - 1], carry * Pow2(W - 1))];
    }
  }

  /** The sum with its carry is even, so halving the stored part and moving the carry in halves it. */
  lemma HalfOfSum(sum: nat, carry: Bit, x: nat, m: nat, p: nat)
    requires p % 2 == 0 && m % 2 == 1 && x < m
    requires if x % 2 == 1 then sum + carry * p == x + m else sum == x && carry == 0
    ensures 2 * (sum / 2) + carry * p == if x % 2 == 1 then x + m else x
  {
    if carry == 1 {
      assert carry * p == p;
    }
  }

  lemma EvenPower(n: nat)
    requires n > 0
    ensures BPow(n) % 2 == 0
  {
    HalfBase();
    var p, h := BPow(n - 1), Pow2(W - 1);
    assert p * (2 * h) == 2 * (p * h);
  }

  /** x = x - y modulo mod, for x and y below mod; a carry of the first step is undone by the second. */
  method Difference(x: array<Word>, y: array<Word>, mod: array<Word>, n: nat)
    requires n <= x.Length && n <= y.Length && n <= mod.Length && x != y && x != mod
    requires Value(x[..n]) < Value(mod[..n]) && Value(y[..n]) < Value(mod[..n])
    modifies x
    ensures Value(x[..n]) < Value(mod[..n])
    ensures Value(x[..n]) == old(Value(x[..n])) - Value(y[..n])
         || Value(x[..n]) == old(Value(x[..n])) - Value(y[..n]) + Value(mod[..n])
  {
    hide Value, BPow, Pow2;
    ValueBound(mod[..n]);
    var cmp := CmpUnsafe(x, y, n);
    if cmp < 0 {
      var carry := Add(x, x, mod, n);
    }
    var borrow := Sub(x, x, y, n);
    ValueBound(x[..n]);
  }

  /** What the loop keeps: u*x is congruent to a, v*x to b, and a, b have the divisors of x, m. */
  ghost predicate Inv(a: nat, b: nat, u: nat, v: nat, x: nat, m: nat) {
    && a > 0 && b > 0 && (a % 2 == 1 || b % 2 == 1)
    && u < m && v < m
    && SameDivisors(a, b, x, m)
    && Tracks(u, x, a, m) && Tracks(v, x, b, m)
  }

  lemma InvStart(x: nat, m: nat)
    requires x > 0 && m > 1 && m % 2 == 1
    ensures Inv(x, m, 1, 0, x, m)
  {
    assert 1 * x - x == 0 * m;
    assert 0 * x - m == -1 * m;
  }

  lemma InvSymmetric(a: nat, b: nat, u: nat, v: nat, x: nat, m: nat)
    requires Inv(a, b, u, v, x, m)
    ensures Inv(b, a, v, u, x, m)
  {}

  lemma InvHalf(a: nat, b: nat, u: nat, v: nat, u': nat, x: nat, m: nat)
    requires Inv(a, b, u, v, x, m) && m % 2 == 1 && a % 2 == 0
    requires u' < m && (2 * u' == u || 2 * u' == u + m)
    ensures Inv(a / 2, b, u', v, x, m)
  {
    HalveKeepsDivisors(a, b);
    TracksHalf(u, u', x, a, m);
  }

  lemma InvSubtract(a: nat, b: nat, u: nat, v: nat, w: nat, u': nat, x: nat, m: nat)
    requires Inv(a, b, u, v, x, m) && m % 2 == 1 && a % 2 == 1 && b % 2 == 1 && a > b
    requires w == u - v || w == u - v + m
    requires u' < m && (2 * u' == w || 2 * u' == w + m)
    ensures Inv((a - b) / 2, b, u', v, x, m)
  {
    SubtractKeepsDivisors(a, b);
    HalveKeepsDivisors(a - b, b);
    TracksDifference(u, v, w, x, a, b, m);
    TracksHalf(w, u', x, a - b, m);
  }

  /** When both remainders meet, u is the inverse up to the greatest common divisor. */
  lemma InvEnd(a: nat, u: nat, v: nat, x: nat, m: nat)
    requires Inv(a, a, u, v, x, m) && m > 1
    ensures u < m && IsGcd(a, x, m) && Congruent(u * x, a, m)
    ensures a == 1 ==> u * x % m == 1
  {
    assert Divides(a, a) by { assert a == 1 * a; }
    if a == 1 {
      var k :| u * x - 1 == k * m;
      DivModUnique(u * x, m, k, 1);
    }
  }

  lemma InvBounds(a: nat, b: nat, u: nat, v: nat, x: nat, m: nat)
    requires Inv(a, b, u, v, x, m)
    ensures a > 0 && b > 0 && u < m && v < m && (a % 2 == 1 || b % 2 == 1)
  {}

  lemma ValueOne(s: seq<Word>)
    requires |s| > 0 && s[0] == 1 && forall j :: 1 <= j < |s| ==> s[j] == 0
    ensures Value(s) == 1
  {
    ValueFirst(s);
    ValueZeros(s[1..]);
  }

  /** x = (x - y) / 2 for x above y. */
  method SubtractHalf(x: array<Word>, y: array<Word>, n: nat)
    requires n <= x.Length && n <= y.Length && x != y && Value(x[..n]) > Value(y[..n])
    modifies x
    ensures Value(x[..n]) == (old(Value(x[..n])) - Value(y[..n])) / 2
  {
    hide Value, BPow, Pow2;
    var borrow := Sub(x, x, y, n);
    ValueBound(x[..n]);
    assert x[0..0 + n] == x[..n];
    Rshift1(x, 0, n);
    assert x[0..0 + n] == x[..n];
  }

  /** One round of the loop, by the parities and order of a and b. */
  method Step(a: array<Word>, b: array<Word>, u: array<Word>, v: array<Word>, mod: array<Word>, n: nat, cmp: int,
              ghost x: nat)
    requires 0 < n <= a.Length && n <= b.Length && n <= u.Length && n <= v.Length && n <= mod.Length
    requires a != b && a != u && a != v && a != mod && b != u && b != v && b != mod && u != v && u != mod && v != mod
    requires Value(mod[..n]) % 2 == 1
    requires cmp == Sign(Value(a[..n]) - Value(b[..n])) != 0
    requires Inv(Value(a[..n]), Value(b[..n]), Value(u[..n]), Value(v[..n]), x, Value(mod[..n]))
    modifies a, b, u, v
    ensures Inv(Value(a[..n]), Value(b[..n]), Value(u[..n]), Value(v[..n]), x, Value(mod[..n]))
    ensures Value(a[..n]) + Value(b[..n]) < old(Value(a[..n])) + old(Value(b[..n]))
  {
    hide Value, BPow, Pow2, Inv, Or, Shl, Shr;
    ghost var m := Value(mod[..n]);
    ghost var A, B', U, V := Value(a[..n]), Value(b[..n]), Value(u[..n]), Value(v[..n]);
    InvBounds(A, B', U, V, x, m);
    Parity(a[..n]);
    Parity(b[..n]);
    assert a[0..0 + n] == a[..n] && b[0..0 + n] == b[..n];
    if a[0] % 2 == 0 {
      Rshift1(a, 0, n);
      Update(u, mod, n);
      InvHalf(A, B', U, V, Value(u[..n]), x, m);
    } else if b[0] % 2 == 0 {
      Rshift1(b, 0, n);
      Update(v, mod, n);
      InvSymmetric(A, B', U, V, x, m);
      InvHalf(B', A, V, U, Value(v[..n]), x, m);
      InvSymmetric(B' / 2, A, Value(v[..n]), U, x, m);
    } else if cmp > 0 {
      SubtractHalf(a, b, n);
      Difference(u, v, mod, n);
      ghost var w := Value(u[..n]);
      Update(u, mod, n);
      InvSubtract(A, B', U, V, w, Value(u[..n]), x, m);
    } else {
      SubtractHalf(b, a, n);
      Difference(v, u, mod, n);
      ghost var w := Value(v[..n]);
      Update(v, mod, n);
      InvSymmetric(A, B', U, V, x, m);
      InvSubtract(B', A, V, U, w, Value(v[..n]), x, m);
      InvSymmetric((B' - A) / 2, A, Value(v[..n]), U, x, m);
    }
    assert a[0..0 + n] == a[..n] && b[0..0 + n] == b[..n];
  }

  /**
   result = (1 / input) % mod, for an odd mod above 1. In general result * input is congruent to
   the greatest common divisor g of input and mod; for input 0 the result is 0.
   */
  method Inverse(result: array<Word>, input: array<Word>, mod: array<Word>, n: nat) returns (ghost g: nat)
    requires 0 < n <= result.Length && n <= input.Length && n <= mod.Length
    requires Value(mod[..n]) % 2 == 1 && Value(mod[..n]) > 1
    modifies result
    ensures old(Value(input[..n])) == 0 ==> Value(result[..n]) == 0
    ensures old(Value(input[..n])) > 0 ==>
              var x, m := old(Value(input[..n])), old(Value(mod[..n]));
              && Value(result[..n]) < m
              && IsGcd(g, x, m) && Congruent(Value(result[..n]) * x, g, m)
              && (g == 1 ==> Value(result[..n]) * x % m == 1)
    ensures result[n..] == old(result[n..])
  {
    hide Value, BPow, Pow2, Inv, IsGcd, Congruent, Or, Shl, Shr;
    ghost var x, m := Value(input[..n]), Value(mod[..n]);
    var zero := IsZero(input, n);
    if zero {
      Clear(result, n);
      return m;
    }
    var a, b := new Word[n](_ => 0), new Word[n](_ => 0);
    var u, v := new Word[n](_ => 0), new Word[n](_ => 0);
    Copy(a, 0, input, n);
    Copy(b, 0, mod, n);
    Clear(u, n);
    HalfBase();
    u[0] := 1;
    ValueOne(u[..n]);
    Clear(v, n);
    assert a[0..0 + n] == a[..n] && b[0..0 + n] == b[..n];
    InvStart(x, m);
    var cmp := CmpUnsafe(a, b, n);
    while cmp != 0
      invariant cmp == Sign(Value(a[..n]) - Value(b[..n]))
      invariant Inv(Value(a[..n]), Value(b[..n]), Value(u[..n]), Value(v[..n]), x, m)
      invariant result[..] == old(result[..])
      decreases Value(a[..n]) + Value(b[..n])
    {
      Step(a, b, u, v, mod, n, cmp, x);
      cmp := CmpUnsafe(a, b, n);
    }
    assert Value(a[..n]) == Value(b[..n]);
    g := Value(a[..n]);
    InvEnd(g, Value(u[..n]), Value(v[..n]), x, m);
    Copy(result, 0, u, n);
    assert result[0..0 + n] == result[..n];
  }
}
