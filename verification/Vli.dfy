/**
 Addition, subtraction, comparison and shifting of multi-word integers, in place.

 Every loop works on the first n words of its arrays, as the C routines work on num_words words
 of longer buffers; the contracts are equations between the integers those words denote.
 The result array may be one of the operands.
 */
module Vli {
  import opened Arith
  import opened Words

  // ----- digit steps -----

  /** One step of the carry loop: the dropped multiple of B is what the new carry records. */
  lemma AddDigit(a: Word, b: Word, c: Bit, sum: Word, c': Bit)
    requires sum == (a + b + c) % B
    requires c' == if sum != a then (if sum < a then 1 else 0) else c
    ensures a + b + c == sum + c' * B
  {
    if a + b + c < B {
      DivModUnique(a + b + c, B, 0, a + b + c);
    } else {
      DivModUnique(a + b + c, B, 1, a + b + c - B);
    }
  }

  lemma SubDigit(a: Word, b: Word, c: Bit, diff: Word, c': Bit)
    requires diff == (a - b - c) % B
    requires c' == if diff != a then (if diff > a then 1 else 0) else c
    ensures a - b - c == diff - c' * B
  {
    if a - b - c >= 0 {
      DivModUnique(a - b - c, B, 0, a - b - c);
    } else {
      DivModUnique(a - b - c, B, -1, a - b - c + B);
    }
  }

  lemma AddScale(l: nat, r: nat, v: nat, c: nat, a: nat, b: nat, s: nat, c': nat, p: nat)
    requires v + c * p == l + r
    requires a + b + c == s + c' * B
    ensures v + s * p + c' * (p * B) == l + a * p + (r + b * p)
  {
    assert (a + b + c) * p == (s + c' * B) * p;
  }

  lemma SubScale(l: nat, r: nat, v: nat, c: nat, a: nat, b: nat, s: nat, c': nat, p: nat)
    requires v - c * p == l - r
    requires a - b - c == s - c' * B
    ensures v + s * p - c' * (p * B) == l + a * p - (r + b * p)
  {
    assert (a - b - c) * p == (s - c' * B) * p;
  }

  // ----- add and subtract -----

  lemma EmptySum()
    ensures Value([]) == 0
  {}

  method Add(result: array<Word>, left: array<Word>, right: array<Word>, n: nat) returns (carry: Bit)
    requires n <= result.Length && n <= left.Length && n <= right.Length
    modifies result
    ensures Value(result[..n]) + carry * BPow(n) == old(Value(left[..n])) + old(Value(right[..n]))
    ensures result[n..] == old(result[n..])
  {
    hide Value, BPow, Pow2;
    ghost var l, r := left[..n], right[..n];
    EmptySum();
    assert result[..0] == l[..0] == r[..0] == [];
    carry := 0;
    var i := 0;
    while i < n
      invariant i <= n
      invariant left[i..n] == l[i..] && right[i..n] == r[i..]
      invariant result[n..] == old(result[n..])
      invariant Value(result[..i]) + carry * BPow(i) == Value(l[..i]) + Value(r[..i])
    {
      var a, b := left[i], right[i];
      assert a == l[i] && b == r[i] by { assert left[i..n][0] == a && right[i..n][0] == b; }
      ghost var c := carry;
      var sum := (a + b + carry) % B;
      if sum != a {
        carry := if sum < a then 1 else 0;
      }
      AddDigit(a, b, c, sum, carry);
      ValueStep(l, i);
      ValueStep(r, i);
      ghost var before := result[..i];
      AddScale(Value(l[..i]), Value(r[..i]), Value(before), c, a, b, sum, carry, BPow(i));
      ghost var ln, rn := left[i..n], right[i..n];
      result[i] := sum;
      assert result[..i + 1] == before + [sum];
      ValueLast(before, sum);
      BPowNext(i);
      assert left[i + 1..n] == ln[1..] && right[i + 1..n] == rn[1..];
      i := i + 1;
    }
    assert l[..n] == l && r[..n] == r;
  }

  method Sub(result: array<Word>, left: array<Word>, right: array<Word>, n: nat) returns (borrow: Bit)
    requires n <= result.Length && n <= left.Length && n <= right.Length
    modifies result
    ensures Value(result[..n]) - borrow * BPow(n) == old(Value(left[..n])) - old(Value(right[..n]))
    ensures result[n..] == old(result[n..])
  {
    hide Value, BPow, Pow2;
    ghost var l, r := left[..n], right[..n];
    EmptySum();
    assert result[..0] == l[..0] == r[..0] == [];
    borrow := 0;
    var i := 0;
    while i < n
      invariant i <= n
      invariant left[i..n] == l[i..] && right[i..n] == r[i..]
      invariant result[n..] == old(result[n..])
      invariant Value(result[..i]) - borrow * BPow(i) == Value(l[..i]) - Value(r[..i])
    {
      var a, b := left[i], right[i];
      assert a == l[i] && b == r[i] by { assert left[i..n][0] == a && right[i..n][0] == b; }
      ghost var c := borrow;
      var diff := (a - b - borrow) % B;
      if diff != a {
        borrow := if diff > a then 1 else 0;
      }
      SubDigit(a, b, c, diff, borrow);
      ValueStep(l, i);
      ValueStep(r, i);
      ghost var before := result[..i];
      SubScale(Value(l[..i]), Value(r[..i]), Value(before), c, a, b, diff, borrow, BPow(i));
      ghost var ln, rn := left[i..n], right[i..n];
      result[i] := diff;
      assert result[..i + 1] == before + [diff];
      ValueLast(before, diff);
      BPowNext(i);
      assert left[i + 1..n] == ln[1..] && right[i + 1..n] == rn[1..];
      i := i + 1;
    }
    assert l[..n] == l && r[..n] == r;
  }

  // ----- shift right by one bit -----

  lemma ShiftOut(t: nat, h: nat)
    requires h > 0
    ensures t * h % (2 * h) == (t % 2) * h
  {
    var q, r := t / 2, t % 2;
    assert t * h == q * (2 * h) + r * h by { assert t == 2 * q + r; }
    MulMono(r, 1, h);
    DivModUnique(t * h, 2 * h, q, r * h);
  }

  lemma HalfDigit(t: Word, c: Bit)
    ensures Shr(t, 1) + c * Pow2(W - 1) < B
    ensures Or(Shr(t, 1), c * Pow2(W - 1)) == t / 2 + c * Pow2(W - 1) < B
    ensures Shl(t, W - 1) == (t % 2) * Pow2(W - 1)
  {
    var h := Pow2(W - 1);
    assert Pow2(1) == 2 * Pow2(0) == 2;
    HalfBase();
    OrDisjoint(W - 1, t / 2, c);
    MulMono(c, 1, h);
    ShiftOut(t, h);
  }

  /** Shifts the n words from lo on; the part of the buffer around them stays. */
  method Rshift1(vli: array<Word>, lo: nat, n: nat)
    requires lo + n <= vli.Length
    modifies vli
    ensures Value(vli[lo..lo + n]) == old(Value(vli[lo..lo + n])) / 2
    ensures vli[..lo] == old(vli[..lo]) && vli[lo + n..] == old(vli[lo + n..])
  {
    hide Value, Pow2, BPow, Or, Shl, Shr;
    ghost var v := vli[lo..lo + n];
    EmptySum();
    assert vli[lo + n..lo + n] == v[n..] == [];
    ghost var c: Bit := 0;
    var carry: Word := 0;
    var i: nat := n;
    while i > 0
      invariant i <= n
      invariant carry == c * Pow2(W - 1)
      invariant vli[lo..lo + i] == v[..i]
      invariant vli[..lo] == old(vli[..lo]) && vli[lo + n..] == old(vli[lo + n..])
      invariant 2 * Value(vli[lo + i..lo + n]) + c == Value(v[i..])
    {
      i := i - 1;
      var temp := vli[lo + i];
      assert temp == v[i] by { assert vli[lo..lo + i + 1][i] == temp; }
      HalfDigit(temp, c);
      ghost var above, below := vli[lo + i + 1..lo + n], vli[lo..lo + i];
      assert below == v[..i] by { assert vli[lo..lo + i + 1][..i] == below; }
      vli[lo + i] := Or(Shr(temp, 1), carry);
      assert vli[lo + i + 1..lo + n] == above && vli[lo..lo + i] == below;
      ShiftStep(v, i, vli[lo + i..lo + n], c);
      carry := Shl(temp, W - 1);
      c := temp % 2;
    }
    assert v[0..] == v && vli[lo + 0..lo + n] == vli[lo..lo + n];
  }

  lemma ShiftArith(t: nat, c: nat, h: nat, low: nat, high: nat)
    requires 2 * low + c == high
    ensures 2 * (t / 2 + c * h + 2 * h * low) + t % 2 == t + 2 * h * high
  {
    assert 2 * h * high == 2 * h * (2 * low) + 2 * h * c;
  }

  lemma ShiftStep(v: seq<Word>, i: nat, now: seq<Word>, c: Bit)
    requires i < |v| && |now| == |v| - i
    requires now[0] == v[i] / 2 + c * Pow2(W - 1)
    requires 2 * Value(now[1..]) + c == Value(v[i + 1..])
    ensures 2 * Value(now) + v[i] % 2 == Value(v[i..])
  {
    var above := v[i + 1..];
    assert v[i..] == [v[i]] + above;
    ValueFirst(now);
    ValueFirst([v[i]] + above);
    ShiftArith(v[i], c, Pow2(W - 1), Value(now[1..]), Value(above));
  }

  // ----- comparison and tests -----

  lemma TopWins(lo: nat, lo': nat, d: nat, d': nat, p: nat, rest: nat)
    requires lo < p && d < d'
    ensures lo + d * p + rest < lo' + d' * p + rest
  {
    MulMono(d + 1, d', p);
  }

  lemma TopDifference(l: seq<Word>, r: seq<Word>, i: nat)
    requires |l| == |r| && i < |l| && l[i] < r[i]
    requires forall j :: i < j < |l| ==> l[j] == r[j]
    ensures Value(l) < Value(r)
  {
    hide *;
    assert l[i + 1..] == r[i + 1..];
    ValueSplit(l, i + 1);
    ValueSplit(r, i + 1);
    ValueStep(l, i);
    ValueStep(r, i);
    ValueBound(l[..i]);
    TopWins(Value(l[..i]), Value(r[..i]), l[i], r[i], BPow(i), BPow(i + 1) * Value(l[i + 1..]));
  }

  function Sign(x: int): (s: int)
  {
    if x > 0 then 1 else if x < 0 then -1 else 0
  }

  method CmpUnsafe(left: array<Word>, right: array<Word>, n: nat) returns (r: int)
    requires n <= left.Length && n <= right.Length
    ensures r == Sign(Value(left[..n]) - Value(right[..n]))
    ensures r == 1 <==> Value(left[..n]) > Value(right[..n])
    ensures r == 0 <==> Value(left[..n]) == Value(right[..n])
    ensures r == -1 <==> Value(left[..n]) < Value(right[..n])
  {
    hide Value, BPow, Pow2;
    ghost var l, q := left[..n], right[..n];
    var i: int := n - 1;
    while i >= 0
      invariant -1 <= i < n
      invariant forall j :: i < j < n ==> left[j] == right[j]
    {
      if left[i] > right[i] {
        TopDifference(q, l, i);
        return 1;
      } else if left[i] < right[i] {
        TopDifference(l, q, i);
        return -1;
      }
      i := i - 1;
    }
    assert l == q;
    return 0;
  }

  lemma OrZero(x: nat, y: nat)
    ensures Or(x, y) == 0 <==> x == 0 && y == 0
  {}

  method IsZero(vli: array<Word>, n: nat) returns (zero: bool)
    requires n <= vli.Length
    ensures zero <==> Value(vli[..n]) == 0
  {
    hide Value, Or;
    var bits: nat := 0;
    var i := 0;
    while i < n
      invariant i <= n
      invariant bits == 0 <==> forall j :: 0 <= j < i ==> vli[j] == 0
    {
      OrZero(bits, vli[i]);
      bits := Or(bits, vli[i]);
      i := i + 1;
    }
    ValueZeros(vli[..n]);
    return bits == 0;
  }

  /** The constant-time comparison: borrow and zero test of the difference. */
  method Cmp(left: array<Word>, right: array<Word>, n: nat) returns (r: int)
    requires n <= left.Length && n <= right.Length
    ensures r == Sign(Value(left[..n]) - Value(right[..n]))
    ensures r == 1 <==> Value(left[..n]) > Value(right[..n])
    ensures r == 0 <==> Value(left[..n]) == Value(right[..n])
    ensures r == -1 <==> Value(left[..n]) < Value(right[..n])
  {
    hide Value, BPow, Pow2, Or;
    var tmp := new Word[n](_ => 0);
    ghost var l, q := Value(left[..n]), Value(right[..n]);
    var neg := Sub(tmp, left, right, n);
    var equal := IsZero(tmp, n);
    ValueBound(tmp[..n]);
    ValueBound(left[..n]);
    ValueBound(right[..n]);
    var sign: int := neg;
    return (if equal then 0 else 1) - 2 * sign;
  }

  // ----- bits -----

  /** The bit arithmetic behind DigitAt, with d the digit and p, q, h powers of two. */
  lemma BitOfDigit(v: nat, lo: nat, d: nat, hi: nat, p: nat, q: nat, h: nat)
    requires p > 0 && q > 0 && lo < p
    requires v == lo + p * (d + q * (2 * h) * hi)
    ensures v / (p * q) % 2 == d / q % 2
  {
    var a, b := d / q, d % q;
    var quot, rest := a + 2 * h * hi, lo + p * b;
    assert d == a * q + b;
    Regroup(p, q, a, b, h, hi);
    assert v == quot * (p * q) + rest;
    assert rest < p * q by { BelowProduct(lo, b, p, q); }
    DivModUnique(v, p * q, quot, rest);
    EvenOffset(a, h * hi);
    assert 2 * h * hi == 2 * (h * hi);
  }

  lemma DigitAt(s: seq<Word>, k: nat, j: nat)
    requires k < |s| && j < W
    ensures Value(s) / Pow2(k * W + j) % 2 == s[k] / Pow2(j) % 2
  {
    hide *;
    ValueSplit(s, k);
    ValueBound(s[..k]);
    ValueFirst(s[k..]);
    BPowIsPow2(k);
    Pow2Add(k * W, j);
    BaseAt(j);
    var h := Pow2(W - j - 1);
    BitOfDigit(Value(s), Value(s[..k]), s[k], Value(s[k..][1..]), BPow(k), Pow2(j), h);
  }

  lemma BaseAt(j: nat)
    requires j < W
    ensures B == Pow2(j) * (2 * Pow2(W - j - 1))
  {
    Pow2Add(j, W - j);
  }

  lemma Regroup(p: nat, q: nat, a: nat, b: nat, h: nat, hi: nat)
    ensures p * ((a * q + b) + q * (2 * h) * hi) == (a + 2 * h * hi) * (p * q) + p * b
  {
    assert q * (2 * h) * hi == (2 * h * hi) * q;
    assert (a * q + b) + (2 * h * hi) * q == (a + 2 * h * hi) * q + b;
    var x := a + 2 * h * hi;
    assert p * (x * q + b) == x * (p * q) + p * b;
  }

  method TestBit(vli: array<Word>, n: nat, bit: nat) returns (set_: bool)
    requires n <= vli.Length && bit < n * W
    ensures set_ <==> BitSet(Value(vli[..n]), bit)
  {
    hide Value, Pow2, BPow, Or;
    WordIndex(bit, n);
    DigitAt(vli[..n], bit / W, bit % W);
    return Shr(vli[bit / W], bit % W) % 2 == 1;
  }

  lemma WordIndex(bit: nat, n: nat)
    requires bit < n * W
    ensures bit / W < n && bit == bit / W * W + bit % W
  {
    if bit / W >= n { MulMono(n, bit / W, W); }
  }

  method NumBits(vli: array<Word>, n: nat) returns (bits: nat)
    requires n <= vli.Length
    ensures bits <= n * W && Value(vli[..n]) < Pow2(bits)
    ensures bits > 0 ==> Pow2(bits - 1) <= Value(vli[..n])
  {
    hide Value, Pow2, BPow;
    ghost var s := vli[..n];
    var digits := n;
    while digits > 0 && vli[digits - 1] == 0
      invariant digits <= n
      invariant forall j :: digits <= j < n ==> vli[j] == 0
    {
      digits := digits - 1;
    }
    DropZeros(s, digits);
    if digits == 0 {
      return 0;
    }
    var i := WidthOf(vli[digits - 1]);
    TopBits(s, digits - 1, i);
    assert (digits - 1) * W + W == digits * W;
    MulMono(digits, n, W);
    return (digits - 1) * W + i;
  }

  /** The inner loop of NumBits: shift the top digit until nothing is left. */
  method WidthOf(top: Word) returns (i: nat)
    requires top > 0
    ensures 0 < i <= W && Pow2(i - 1) <= top < Pow2(i)
  {
    var digit := top;
    i := 0;
    while digit > 0
      invariant i <= W
      invariant digit == top / Pow2(i)
      invariant i > 0 ==> Pow2(i - 1) <= top
      invariant i == 0 ==> digit == top
    {
      HalfAgain(top, i);
      if i == W {
        DivModUnique(top, B, 0, top);
      }
      digit := digit / 2;
      i := i + 1;
    }
    QuotientZero(top, Pow2(i));
  }

  lemma DropZeros(s: seq<Word>, k: nat)
    requires k <= |s| && forall j :: k <= j < |s| ==> s[j] == 0
    ensures Value(s) == Value(s[..k])
    ensures k == 0 ==> Value(s) == 0
  {
    hide Value, BPow;
    ValueSplit(s, k);
    ValueZeros(s[k..]);
    ValueZeros(s[..k]);
  }

  lemma HalfAgain(x: nat, i: nat)
    ensures x / Pow2(i) / 2 == x / Pow2(i + 1)
    ensures x / Pow2(i) > 0 ==> Pow2(i) <= x
  {
    DivHalf(x, Pow2(i));
  }

  lemma TopBits(s: seq<Word>, k: nat, i: nat)
    requires k < |s| && Value(s) == Value(s[..k + 1])
    requires 0 < i && Pow2(i - 1) <= s[k] < Pow2(i)
    ensures Pow2(k * W + i - 1) <= Value(s) < Pow2(k * W + i)
  {
    hide *;
    ValueStep(s, k);
    ValueBound(s[..k]);
    BPowIsPow2(k);
    Pow2Add(k * W, i);
    Pow2Add(k * W, i - 1);
    BelowProduct(Value(s[..k]), s[k], BPow(k), Pow2(i));
    MulMono(Pow2(i - 1), s[k], BPow(k));
  }
}
