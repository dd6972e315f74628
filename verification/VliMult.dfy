/**
 Column-wise multiplication and squaring with a three-word accumulator.

 The product is built one output word at a time: all partial products of one column are added
 to (r2, r1, r0), the lowest word is stored and the accumulator moves down one word.
 */
module VliMult {
  import opened Arith
  import opened Words

  /** The integer held by the three-word accumulator. */
  function Acc(r0: nat, r1: nat, r2: nat): nat {
    r0 + r1 * B + r2 * (B * B)
  }

  const B3: nat := B * B * B

  // ----- multiply and add -----

  lemma SumShift(x: nat, c: nat, y: nat, e: nat, b: nat, q: nat)
    requires x + c == y + e * b
    ensures x * q + c * q == y * q + e * (b * q)
  {
    assert (x + c) * q == (y + e * b) * q;
    assert e * b * q == e * (b * q);
  }

  lemma AccStep(r01: nat, r2: nat, p: nat, s: nat, c: nat, r2': nat, e: nat, b: nat)
    requires s < b * b && r2' < b
    requires r01 + p == s + c * (b * b)
    requires r2 + c == r2' + e * b
    ensures b * b * b > 0
    ensures (r01 + r2 * (b * b) + p) % (b * b * b) == s + r2' * (b * b)
  {
    MulMono(1, b, b);
    AccStepAt(r01, r2, p, s, c, r2', e, b, b * b);
  }

  lemma AccStepAt(r01: nat, r2: nat, p: nat, s: nat, c: nat, r2': nat, e: nat, b: nat, q: nat)
    requires s < q && r2' < b
    requires r01 + p == s + c * q
    requires r2 + c == r2' + e * b
    ensures q * b > 0 && (r01 + r2 * q + p) % (q * b) == s + r2' * q
  {
    SumShift(r2, c, r2', e, b, q);
    MulMono(r2' + 1, b, q);
    Distribute2(r2', 1, q);
    DivModUnique(r01 + r2 * q + p, q * b, e, s + r2' * q);
  }

  /** a * b <= (m - 1) * (m - 1). */
  lemma ProductBelow(a: nat, b: nat, m: nat)
    requires a < m && b < m
    ensures 0 <= a * b && a * b + 2 * m <= m * m + 1
  {
    MulMono(a, m - 1, b);
    MulMono(b, m - 1, m - 1);
    assert (m - 1) * (m - 1) + 2 * m == m * m + 1;
  }

  /** (r2, r1, r0) += a * b with a double-width product. */
  method MulAdd(a: Word, b: Word, r0: Word, r1: Word, r2: Word) returns (s0: Word, s1: Word, s2: Word)
    ensures B3 > 0 && Acc(s0, s1, s2) == (Acc(r0, r1, r2) + a * b) % B3
  {
    hide Pow2, Or;
    var p := a * b;
    var r01 := Or(r1 * B, r0);
    JoinWords(r0, r1);
    ProductBelow(a, b, B);
    s0, s1, s2 := AddDouble(p, r01, r0, r1, r2);
  }

  /** The common tail: adds a double word p to the accumulator whose low double word is r01. */
  method AddDouble(p: nat, r01: nat, ghost r0: nat, ghost r1: nat, r2: nat) returns (s0: Word, s1: Word, s2: Word)
    requires p < B * B && r01 == r0 + r1 * B < B * B
    ensures B3 > 0 && Acc(s0, s1, s2) == (Acc(r0, r1, r2) + p) % B3
  {
    hide *;
    WrapOnce(r01 + p, B * B);
    var s := (r01 + p) % (B * B);
    var carry := if s < p then 1 else 0;
    s2 := (r2 + carry) % B;
    QuotientBelow(s, B);
    s1, s0 := s / B, s % B;
    Finish(p, r01, s, r0, r1, r2, s0, s1, s2, carry);
  }

  lemma JoinWords(r0: Word, r1: Word)
    ensures Or(r1 * B, r0) == r0 + r1 * B < B * B
  {
    OrDisjoint(W, r0, r1);
    hide *;
    OrCommutes(r0, r1 * B);
    PairBelow(r0, r1, B);
  }

  // ----- the variant for 64-bit words without a 128-bit type -----

  lemma Expand(a0: nat, a1: nat, b0: nat, b1: nat, h: nat)
    ensures (a0 + a1 * h) * (b0 + b1 * h) == a0 * b0 + (a1 * b0 + a0 * b1) * h + a1 * b1 * (h * h)
  {
    assert a1 * h * (b1 * h) == a1 * b1 * (h * h);
    assert a1 * h * b0 == a1 * b0 * h && a0 * (b1 * h) == a0 * b1 * h;
  }

  /** x == xq*h + xr and the middle sum t1 + t2 + xq == k*h + e + ov*h*h. */
  lemma Recombine(xq: nat, xr: nat, t1: nat, t2: nat, t3: nat, k: nat, e: nat, ov: nat, h: nat)
    requires t1 + xq + t2 == k * h + e + ov * (h * h)
    ensures xr + e * h + (t3 + ov * h + k) * (h * h) == xq * h + xr + (t1 + t2) * h + t3 * (h * h)
  {
    assert (t1 + xq + t2) * h == k * (h * h) + e * h + ov * h * (h * h) by {
      assert (k * h + e + ov * (h * h)) * h == k * h * h + e * h + ov * (h * h) * h;
      assert ov * (h * h) * h == ov * h * (h * h);
      assert k * h * h == k * (h * h);
    }
  }

  /** p1 * h * h + p0 == a * b, computed from half words. */
  lemma HalvesProduct(a0: nat, a1: nat, b0: nat, b1: nat, h: nat, i2: nat, ov: nat)
    requires h > 0
    requires a1 * b0 + a0 * b0 / h + a0 * b1 == i2 + ov * (h * h)
    ensures a0 * b0 % h + i2 % h * h + (a1 * b1 + ov * h + i2 / h) * (h * h)
         == (a0 + a1 * h) * (b0 + b1 * h)
  {
    var x := a0 * b0;
    MulMono(0, a0, b0);
    DivFacts(x, h);
    DivFacts(i2, h);
    Expand(a0, a1, b0, b1, h);
    Recombine(x / h, x % h, a1 * b0, a0 * b1, a1 * b1, i2 / h, i2 % h, ov, h);
  }

  lemma PairArith(p0: nat, p1: nat, r0: nat, r1: nat, s0: nat, s1: nat, c0: nat, c1: nat, b: nat)
    requires r0 + p0 == s0 + c0 * b
    requires r1 + p1 + c0 == s1 + c1 * b
    ensures r0 + r1 * b + (p0 + p1 * b) == s0 + s1 * b + c1 * (b * b)
  {
    assert (r1 + p1 + c0) * b == s1 * b + c1 * b * b;
  }

  lemma PairBelow(s0: nat, s1: nat, b: nat)
    requires s0 < b && s1 < b
    ensures s0 + s1 * b < b * b
  {
    MulMono(s1 + 1, b, b);
  }

  /** The comparisons recover both carries, also when p1 + c0 itself wraps. */
  lemma PairCarries(p0: nat, p1: nat, r0: nat, r1: nat, s0: nat, s1: nat, c0: nat, c1: nat, b: nat)
    requires p0 < b && p1 < b && r0 < b && r1 < b
    requires s0 == (r0 + p0) % b && c0 == if s0 < p0 then 1 else 0
    requires s1 == (r1 + (p1 + c0) % b) % b
    requires c1 == if s1 < p1 || (s1 == p1 && s0 < p0) then 1 else 0
    ensures r0 + p0 == s0 + c0 * b
    ensures r1 + p1 + c0 == s1 + c1 * b
  {
    WrapOnce(r0 + p0, b);
    WrapOnce(p1 + c0, b);
    WrapOnce(r1 + (p1 + c0) % b, b);
  }

  /** The tail of the half-word variants: adds the words p1, p0 and propagates by comparing. */
  method AddPair(p0: Word, p1: Word, r0: Word, r1: Word, r2: Word) returns (s0: Word, s1: Word, s2: Word)
    ensures B3 > 0 && Acc(s0, s1, s2) == (Acc(r0, r1, r2) + (p0 + p1 * B)) % B3
  {
    s0 := (r0 + p0) % B;
    var c0 := if s0 < p0 then 1 else 0;
    s1 := (r1 + (p1 + c0) % B) % B;
    var c1 := if s1 < p1 || (s1 == p1 && s0 < p0) then 1 else 0;
    s2 := (r2 + c1) % B;
    PairSum(p0, p1, r0, r1, s0, s1, c0, c1, B);
    FinishPair(p0, p1, r0, r1, r2, s0, s1, s2, c1);
  }

  lemma FinishPair(p0: nat, p1: nat, r0: nat, r1: nat, r2: nat, s0: nat, s1: nat, s2: nat, c: nat)
    requires B > 0 && s2 == (r2 + c) % B
    requires r0 + r1 * B + (p0 + p1 * B) == s0 + s1 * B + c * (B * B)
    requires s0 + s1 * B < B * B
    ensures B3 > 0 && Acc(s0, s1, s2) == (Acc(r0, r1, r2) + (p0 + p1 * B)) % B3
  {
    hide *;
    var p: nat, r01: nat, s: nat := p0 + p1 * B, r0 + r1 * B, s0 + s1 * B;
    Finish(p, r01, s, r0, r1, r2, s0, s1, s2, c);
  }

  lemma PairSum(p0: nat, p1: nat, r0: nat, r1: nat, s0: nat, s1: nat, c0: nat, c1: nat, b: nat)
    requires p0 < b && p1 < b && r0 < b && r1 < b
    requires s0 == (r0 + p0) % b && c0 == if s0 < p0 then 1 else 0
    requires s1 == (r1 + (p1 + c0) % b) % b
    requires c1 == if s1 < p1 || (s1 == p1 && s0 < p0) then 1 else 0
    ensures r0 + r1 * b + (p0 + p1 * b) == s0 + s1 * b + c1 * (b * b)
    ensures s0 + s1 * b < b * b
  {
    PairCarries(p0, p1, r0, r1, s0, s1, c0, c1, b);
    PairArith(p0, p1, r0, r1, s0, s1, c0, c1, b);
    PairBelow(s0, s1, b);
  }

  /** Adding p to the low double word r01 gave s and the carry c, which went into r2. */
  lemma Finish(p: nat, r01: nat, s: nat, r0: nat, r1: nat, r2: nat, s0: nat, s1: nat, s2: nat, c: nat)
    requires B > 0 && s2 == (r2 + c) % B
    requires r01 == r0 + r1 * B && s == s0 + s1 * B < B * B
    requires r01 + p == s + c * (B * B)
    ensures B3 > 0 && Acc(s0, s1, s2) == (Acc(r0, r1, r2) + p) % B3
  {
    hide *;
    AccSum(r0, r1, r2, r01);
    AccSum(s0, s1, s2, s);
    var e: nat := (r2 + c) / B;
    AccStep(r01, r2, p, s, c, s2, e, B);
  }

  // ----- the doubled multiply and add of the squaring routine -----

  lemma TopWraps(x: nat, y: nat, b: nat)
    requires b > 0
    ensures b * b * b > 0
    ensures (x + y % b * (b * b)) % (b * b * b) == (x + y * (b * b)) % (b * b * b)
  {
    var q := b * b;
    var k := y / b;
    assert b * q == b * b * b;
    assert y * q == y % b * q + k * (b * q) by { assert (k * b + y % b) * q == k * (b * q) + y % b * q; }
    ModMultiple(x + y % b * q, k, b * q);
  }

  lemma DoubleWraps(p: nat, m: nat)
    requires 0 < m && p < 2 * m
    ensures 2 * p == 2 * p % (2 * m) + p / m * (2 * m)
  {
    DivModUnique(p, m, if p < m then 0 else 1, if p < m then p else p - m);
    WrapOnce(2 * p, 2 * m);
  }

  /** (r2, r1, r0) += 2 * a * b with a double-width product. */
  method Mul2Add(a: Word, b: Word, r0: Word, r1: Word, r2: Word) returns (s0: Word, s1: Word, s2: Word)
    ensures B3 > 0 && Acc(s0, s1, s2) == (Acc(r0, r1, r2) + 2 * (a * b)) % B3
  {
    hide *;
    JoinWords(r0, r1);
    ProductHalf(a, b);
    var p: nat := a * b;
    var r01 := Or(r1 * B, r0);
    var half := B * Pow2(W - 1);                  // 2 to the power 2W - 1
    var t := p / half;
    var p2 := 2 * p % (B * B);
    s0, s1, s2 := AddDouble(p2, r01, r0, r1, (r2 + t) % B);
    DoubleSplit(r0, r1, r2, t, p2, p);
  }

  lemma ProductHalf(a: Word, b: Word)
    ensures 0 <= a * b && B * Pow2(W - 1) > 0 && B * B > 0
    ensures var t := a * b / (B * Pow2(W - 1));
            0 <= t && 2 * (a * b) == 2 * (a * b) % (B * B) + t * (B * B)
    ensures 0 <= 2 * (a * b) % (B * B) < B * B
  {
    HalfBase();
    hide *;
    ProductBelow(a, b, B);
    var half := B * Pow2(W - 1);
    assert 2 * half == B * B;
    DivFacts(a * b, half);
    DoubleWraps(a * b, half);
  }

  /** Folding the top bit t of the product into r2 first changes nothing modulo B3. */
  lemma DoubleSplit(r0: nat, r1: nat, r2: nat, t: nat, p2: nat, p: nat)
    requires B > 0 && 2 * p == p2 + t * (B * B)
    ensures B3 > 0 && (Acc(r0, r1, (r2 + t) % B) + p2) % B3 == (Acc(r0, r1, r2) + 2 * p) % B3
  {
    var r01 := r0 + r1 * B;
    TopWraps(r01 + p2, r2 + t, B);
    Distribute2(r2, t, B * B);
  }

  lemma AccSum(r0: nat, r1: nat, r2: nat, r01: nat)
    requires r01 == r0 + r1 * B
    ensures Acc(r0, r1, r2) == r01 + r2 * (B * B) && B3 == B * B * B
  {}

  // ----- half words -----

  /** The word split at half its width; only used when the width is even. */
  const H: nat := Pow2(W / 2)

  lemma HalfWords()
    requires W % 2 == 0
    ensures B == H * H
  {
    Pow2Add(W / 2, W / 2);
  }

  /** The middle sum of the four partial products, with its overflow. */
  lemma MiddleSum(a0: nat, a1: nat, b0: nat, b1: nat, h: nat)
    requires a0 < h && a1 < h && b0 < h && b1 < h
    ensures 0 <= a0 * b0 && 0 <= a0 * b1 < h * h && 0 <= a1 * b0 && 0 <= a1 * b1
    ensures 0 <= a1 * b0 + a0 * b0 / h < h * h
  {
    SmallQuotient(a0, b0, h);
    ProductBelow(a1, b0, h);
    ProductBelow(a1, b1, h);
    ProductBelow(a0, b1, h);
  }

  lemma SmallQuotient(a: nat, b: nat, h: nat)
    requires a < h && b < h
    ensures 0 <= a * b && 0 <= a * b / h < h
  {
    ProductBelow(a, b, h);
    QuotientBelow(a * b, h);
  }

  /** The product of two words as a pair of words, computed without a double-width type. */
  method WideProduct(a: Word, b: Word) returns (p0: Word, p1: Word)
    requires W % 2 == 0
    ensures p0 + p1 * B == a * b
  {
    HalfWords();
    HalfBounds(a, b);
    hide *;
    var a0, a1, b0, b1 := a % H, a / H, b % H, b / H;
    MiddleSum(a0, a1, b0, b1, H);
    var i0: nat, i1: nat, i2: nat, i3: nat := a0 * b0, a0 * b1, a1 * b0, a1 * b1;
    i2 := i2 + i0 / H;
    WrapOnce(i2 + i1, B);
    i2 := (i2 + i1) % B;
    ghost var ov := if i2 < i1 then 1 else 0;
    if i2 < i1 {
      i3 := i3 + H;
    }
    HalvesProduct(a0, a1, b0, b1, H, i2, ov);
    OrShifted(i0 % H, i2);
    DivFacts(i2, H);
    DivFacts(i0, H);
    HighPartBelow(i0 % H + i2 % H * H, i3 + i2 / H, a, b, B);
    p0 := Or(i0 % H, i2 * H % B);
    p1 := i3 + i2 / H;
  }

  lemma HalfBounds(a: Word, b: Word)
    requires W % 2 == 0
    ensures H > 0 && 0 <= a / H < H && 0 <= b / H < H
    ensures a == a % H + a / H * H && b == b % H + b / H * H
  {
    HalfWords();
    hide *;
    QuotientBelow(a, H);
    QuotientBelow(b, H);
  }

  lemma OrShifted(lo: nat, i2: nat)
    requires W % 2 == 0 && lo < H && i2 < B
    ensures Or(lo, i2 * H % B) == lo + i2 % H * H < B
  {
    PairBelow(lo, i2 % H, H);
    HalfWords();
    MulMono(i2 % H + 1, H, H);
    assert i2 * H == i2 / H * (H * H) + i2 % H * H;
    DivModUnique(i2 * H, H * H, i2 / H, i2 % H * H);
    OrDisjoint(W / 2, lo, i2 % H);
  }

  lemma HighPartBelow(p0: nat, p1: nat, a: nat, b: nat, m: nat)
    requires a < m && b < m && p0 + p1 * m == a * b
    ensures p1 < m
  {
    ProductBelow(a, b, m);
    if p1 >= m {
      MulMono(m, p1, m);
    }
  }

  /** The 64-bit variant of MulAdd, for compilers without a 128-bit type. */
  method MulAddHalves(a: Word, b: Word, r0: Word, r1: Word, r2: Word) returns (s0: Word, s1: Word, s2: Word)
    requires W % 2 == 0
    ensures B3 > 0 && Acc(s0, s1, s2) == (Acc(r0, r1, r2) + a * b) % B3
  {
    var p0, p1 := WideProduct(a, b);
    s0, s1, s2 := AddPair(p0, p1, r0, r1, r2);
  }

  /** The 64-bit variant of Mul2Add: the top bit of the product goes to r2, the rest is shifted over both words. */
  method Mul2AddHalves(a: Word, b: Word, r0: Word, r1: Word, r2: Word) returns (s0: Word, s1: Word, s2: Word)
    requires W % 2 == 0
    ensures B3 > 0 && Acc(s0, s1, s2) == (Acc(r0, r1, r2) + 2 * (a * b)) % B3
  {
    hide *;
    var p0, p1 := WideProduct(a, b);
    DoublePair(p0, p1);
    var half := Pow2(W - 1);
    var t, d1, d0 := p1 / half, Or(2 * p1 % B, p0 / half), 2 * p0 % B;
    s0, s1, s2 := AddPair(d0, d1, r0, r1, (r2 + t) % B);
    var p: nat, p2: nat := a * b, d0 + d1 * B;
    DoubleSplit(r0, r1, r2, t, p2, p);
  }

  /** Shifting a pair of words to the left by one bit, with the bit that falls off. */
  lemma DoublePair(p0: Word, p1: Word)
    ensures B > 0 && p1 / Pow2(W - 1) >= 0
    ensures var t, d1, d0 := p1 / Pow2(W - 1), Or(2 * p1 % B, p0 / Pow2(W - 1)), 2 * p0 % B;
            d0 < B && d1 < B && 0 <= d0 + d1 * B && 2 * (p0 + p1 * B) == d0 + d1 * B + t * (B * B)
  {
    HalfBase();
    hide *;
    var half := Pow2(W - 1);
    DoubleWord(p0, half, B);
    DoubleWord(p1, half, B);
    ShiftIn(p0 / half, p1 % half);
    PairDoubled(p0, p1, 2 * p0 % B, 2 * p1 % B, p0 / half, p1 / half, B);
  }

  /** The top bit of a doubled word is its carry. */
  lemma DoubleWord(p: nat, half: nat, b: nat)
    requires half > 0 && b == 2 * half && p < b
    ensures 0 <= p / half < 2 && 2 * p % b == 2 * (p % half) < b - 1
    ensures 2 * p == 2 * p % b + p / half * b
  {
    var q, r := if p < half then 0 else 1, if p < half then p else p - half;
    DivModUnique(p, half, q, r);
    DivModUnique(2 * p, b, q, 2 * r);
  }

  /** A bit fits into the place a doubled number leaves free. */
  lemma ShiftIn(c: nat, x: nat)
    requires c < 2
    ensures Or(2 * x, c) == 2 * x + c
  {
    TwoIsPow2();
    OrDisjoint(1, c, x);
    OrCommutes(c, 2 * x);
  }

  lemma TwoIsPow2()
    ensures Pow2(1) == 2
  {}

  lemma PairDoubled(p0: nat, p1: nat, d0: nat, e1: nat, c: nat, t: nat, b: nat)
    requires 2 * p0 == d0 + c * b && 2 * p1 == e1 + t * b
    ensures 0 <= d0 + (e1 + c) * b && 2 * (p0 + p1 * b) == d0 + (e1 + c) * b + t * (b * b)
  {
    Distribute2(e1, c, b);
    assert 2 * p1 * b == (e1 + t * b) * b == e1 * b + t * (b * b);
  }

  // ----- columns of the schoolbook product -----

  /** The partial products l[t] * r[k - t] of column k with t < i. */
  function Col(l: seq<Word>, r: seq<Word>, k: nat, i: nat): nat
    requires i <= |l|
  {
    if i == 0 then 0
    else Col(l, r, k, i - 1) + Term(l, r, k, i - 1)
  }

  function Term(l: seq<Word>, r: seq<Word>, k: nat, t: nat): nat
    requires t < |l|
  {
    if t <= k < t + |r| then l[t] as nat * r[k - t] as nat else 0
  }

  /** The value of the first m columns. */
  function Columns(l: seq<Word>, r: seq<Word>, m: nat, i: nat): int
    requires i <= |l|
  {
    if m == 0 then 0 else Columns(l, r, m - 1, i) + Col(l, r, m - 1, i) * BPow(m - 1)
  }

  /** The contribution of the single row t to the first m columns. */
  function Row(l: seq<Word>, r: seq<Word>, m: nat, t: nat): int
    requires t < |l|
  {
    if m == 0 then 0 else Row(l, r, m - 1, t) + Term(l, r, m - 1, t) * BPow(m - 1)
  }

  lemma {:induction false} ColumnsByRow(l: seq<Word>, r: seq<Word>, m: nat, i: nat)
    requires 0 < i <= |l|
    ensures Columns(l, r, m, i) == Columns(l, r, m, i - 1) + Row(l, r, m, i - 1)
  {
    if m > 0 {
      ColumnsByRow(l, r, m - 1, i);
      Distribute2(Col(l, r, m - 1, i - 1), Term(l, r, m - 1, i - 1), BPow(m - 1));
    }
  }

  lemma {:induction false} RowValue(l: seq<Word>, r: seq<Word>, m: nat, t: nat)
    requires t < |l|
    ensures m <= t ==> Row(l, r, m, t) == 0
    ensures t <= m <= t + |r| ==> Row(l, r, m, t) == l[t] * BPow(t) * Value(r[..m - t])
    ensures t + |r| <= m ==> Row(l, r, m, t) == l[t] * BPow(t) * Value(r)
  {
    assert r[..|r|] == r;
    if m > 0 {
      RowValue(l, r, m - 1, t);
      var j := m - 1 - t;
      if 0 <= j < |r| {
        ValueStep(r, j);
        BPowAdd(t, j);
        RowStep(l[t], BPow(t), Value(r[..j]), r[j], BPow(j));
      }
    }
  }

  lemma RowStep(a: nat, p: nat, v: nat, d: nat, q: nat)
    ensures a * p * (v + d * q) == a * p * v + a * d * (p * q)
  {}

  /** All columns together are the product. */
  lemma {:induction false} ColumnsValue(l: seq<Word>, r: seq<Word>, m: nat, i: nat)
    requires i <= |l| && i + |r| <= m + 1
    ensures Columns(l, r, m, i) == Value(l[..i]) * Value(r)
  {
    if i == 0 {
      NoColumns(l, r, m);
      assert l[..0] == [];
    } else {
      hide *;
      ColumnsValue(l, r, m, i - 1);
      ColumnsByRow(l, r, m, i);
      RowValue(l, r, m, i - 1);
      ValueStep(l, i - 1);
      assert l[..i - 1 + 1] == l[..i];
      Distribute2(Value(l[..i - 1]), l[i - 1] * BPow(i - 1), Value(r));
    }
  }

  lemma {:induction false} NoColumns(l: seq<Word>, r: seq<Word>, m: nat)
    ensures Columns(l, r, m, 0) == 0
  {
    if m > 0 {
      NoColumns(l, r, m - 1);
    }
  }

  /** No column overflows three words: every partial product is at most B*B - 2*B + 1. */
  lemma {:induction false} ColBound(l: seq<Word>, r: seq<Word>, k: nat, i: nat)
    requires i <= |l|
    ensures Col(l, r, k, i) + i * B <= i * (B * B)
  {
    if i > 0 {
      ColBound(l, r, k, i - 1);
      assert Term(l, r, k, i - 1) + B <= B * B by {
        MulMono(1, B, B);
        if i - 1 <= k < i - 1 + |r| {
          ProductBelow(l[i - 1], r[k - (i - 1)], B);
        }
      }
      assert i * B == (i - 1) * B + B && i * (B * B) == (i - 1) * (B * B) + B * B;
    }
  }

  /** The same column sum over the index range a <= t < b. */
  lemma {:induction false} ColOutside(l: seq<Word>, r: seq<Word>, k: nat, a: nat, b: nat)
    requires a <= b <= |l|
    requires a == b || k < a || b + |r| <= k + 1
    ensures Col(l, r, k, a) == Col(l, r, k, b)
  {
    if a < b {
      ColOutside(l, r, k, a, b - 1);
    }
  }

  // ----- multiplication -----

  /** What the accumulator may hold between columns. */
  predicate Carried(n: nat, r0: nat, r1: nat) {
    r0 + r1 * B <= n * B
  }

  lemma BoundArith(i: nat, n: nat, b: nat, col: nat, c: nat)
    requires i <= n < b && col + i * b <= i * (b * b) && c <= n * b
    ensures c + col <= n * (b * b) < b * b * b
  {
    MulMono(1, b, b);
    GapMono(i, n, b * b, b);
    MulMono(n + 1, b, b * b);
    Distribute2(n, 1, b * b);
    TimesAssoc(b, b, b);
  }

  lemma GapMono(i: nat, n: nat, p: nat, q: nat)
    requires i <= n && q <= p
    ensures i * p - i * q <= n * p - n * q
  {
    MulMono(i, n, p - q);
    assert i * (p - q) == i * p - i * q && n * (p - q) == n * p - n * q;
  }

  /** A column added to the carried words fits into three words: no carry is lost. */
  lemma ColumnFits(l: seq<Word>, r: seq<Word>, k: nat, i: nat, r0: nat, r1: nat)
    requires i <= |l| < B && Carried(|l|, r0, r1)
    ensures r0 + r1 * B + Col(l, r, k, i) <= |l| * (B * B) < B3
  {
    ColBound(l, r, k, i);
    BoundArith(i, |l|, B, Col(l, r, k, i), r0 + r1 * B);
  }

  /** One partial product is added exactly, because the column still fits. */
  method AddTerm(ghost l: seq<Word>, ghost r: seq<Word>, ghost k: nat, ghost t: nat, ghost c: nat,
                 a: Word, b: Word, r0: Word, r1: Word, r2: Word)
      returns (s0: Word, s1: Word, s2: Word)
    requires t < |l| && t <= k < t + |r| && a == l[t] && b == r[k - t]
    requires Acc(r0, r1, r2) == c + Col(l, r, k, t) && c + Col(l, r, k, t + 1) < B3
    ensures Acc(s0, s1, s2) == c + Col(l, r, k, t + 1)
  {
    s0, s1, s2 := MulAdd(a, b, r0, r1, r2);
    hide *;
    AddOne(l, r, k, t);
    SmallMod(c + Col(l, r, k, t + 1), B3);
  }

  lemma AddOne(l: seq<Word>, r: seq<Word>, k: nat, t: nat)
    requires t < |l| && t <= k < t + |r|
    ensures Col(l, r, k, t + 1) == Col(l, r, k, t) + l[t] as nat * r[k - t] as nat
  {}

  /** Storing the low accumulator word and moving down: the value so far grows by the column. */
  lemma NextColumn(l: seq<Word>, r: seq<Word>, k: nat, done: seq<Word>, c: nat, r0: Word, r1: Word, r2: Word)
    requires 0 < |l| < B && |done| == k
    requires Value(done) + c * BPow(k) == Columns(l, r, k, |l|)
    requires Acc(r0, r1, r2) == c + Col(l, r, k, |l|) && c <= |l| * B
    ensures Carried(|l|, r1, r2)
    ensures Value(done + [r0]) + (r1 + r2 * B) * BPow(k + 1) == Columns(l, r, k + 1, |l|)
  {
    hide Acc, Col, Columns, Value, BPow, Pow2;
    var col, high: nat := Col(l, r, k, |l|), r1 + r2 * B;
    ColBound(l, r, k, |l|);
    BoundArith(|l|, |l|, B, col, c);
    AccHigh(r0, r1, r2);
    CarryDown(r0, high, |l|, B);
    MoveDown(c, col, r0, high, BPow(k));
    ColumnsNext(l, r, k, |l|);
    ValueLast(done, r0);
    BPowNext(k);
  }

  lemma AccHigh(r0: nat, r1: nat, r2: nat)
    ensures Acc(r0, r1, r2) == r0 + (r1 + r2 * B) * B
  {}

  lemma ColumnsNext(l: seq<Word>, r: seq<Word>, k: nat, i: nat)
    requires i <= |l|
    ensures Columns(l, r, k + 1, i) == Columns(l, r, k, i) + Col(l, r, k, i) * BPow(k)
  {}

  lemma CarryDown(r0: nat, high: nat, n: nat, b: nat)
    requires 0 < b && r0 + high * b <= n * (b * b)
    ensures high <= n * b
  {
    assert n * b * b == n * (b * b);
    MulFits(high, n * b, r0, b);
  }

  lemma MoveDown(c: nat, col: nat, r0: nat, high: nat, p: nat)
    requires c + col == r0 + high * B
    ensures c * p + col * p == r0 * p + high * (p * B)
  {
    assert (c + col) * p == (r0 + high * B) * p;
    assert high * B * p == high * (p * B);
  }

  /** The last word: a product of two n-word numbers leaves nothing above word 2n - 1. */
  lemma LastWord(l: seq<Word>, r: seq<Word>, done: seq<Word>, r0: Word, r1: Word)
    requires |l| == |r| > 0 && |done| == 2 * |l| - 1
    requires Value(done) + (r0 + r1 * B) * BPow(|done|) == Columns(l, r, |done|, |l|)
    ensures Value(done + [r0]) == Value(l) * Value(r)
  {
    hide *;
    ColumnsValue(l, r, |done|, |l|);
    assert l[..|l|] == l;
    ValueBound(l);
    ValueBound(r);
    BPowAdd(|l|, |l|);
    var c := r0 + r1 * B;
    ProductBound(Value(l), Value(r), BPow(|l|));
    BPowNext(|done|);
    TopSmall(Value(done), c, BPow(|done|));
    NoHighWord(r0, r1, B);
    ValueLast(done, r0);
  }

  lemma ProductBound(x: nat, y: nat, p: nat)
    requires x < p && y < p
    ensures x * y < p * p
  {
    MulMono(x, p, y);
    MulMono(y + 1, p, p);
    assert (y + 1) * p == y * p + p;
  }

  lemma TopSmall(v: nat, c: nat, p: nat)
    requires v + c * p < p * B
    ensures c < B
  {
    if c >= B {
      MulMono(B, c, p);
    }
  }

  lemma NoHighWord(r0: nat, r1: nat, b: nat)
    requires r0 + r1 * b < b
    ensures r1 == 0
  {
    if r1 > 0 {
      MulMono(1, r1, b);
    }
  }

  lemma StartColumn(l: seq<Word>, r: seq<Word>, k: nat, r0: nat, r1: nat)
    ensures Acc(r0, r1, 0) == r0 + r1 * B + Col(l, r, k, 0)
  {}

  /** The inner loop: adds column k, whose terms with index from..to are the nonzero ones. */
  method Column(left: array<Word>, right: array<Word>, n: nat, k: nat, from: nat, to: nat, r0: Word, r1: Word)
      returns (s0: Word, s1: Word, s2: Word)
    requires 0 < n < B && n <= left.Length && n <= right.Length && Carried(n, r0, r1)
    requires from <= to <= n && to <= k + 1 <= from + n
    requires from == 0 || from + n == k + 1
    requires to == n || to == k + 1
    ensures Acc(s0, s1, s2) == r0 + r1 * B + Col(left[..n], right[..n], k, n)
  {
    hide *;
    ghost var l, r := left[..n], right[..n];
    ghost var c: nat := r0 + r1 * B;
    StartColumn(l, r, k, r0, r1);
    s0, s1, s2 := r0, r1, 0;
    ColOutside(l, r, k, 0, from);
    var i := from;
    while i < to
      invariant from <= i <= to
      invariant Acc(s0, s1, s2) == c + Col(l, r, k, i)
    {
      ColumnFits(l, r, k, i + 1, r0, r1);
      s0, s1, s2 := AddTerm(l, r, k, i, c, left[i], right[k - i], s0, s1, s2);
      i := i + 1;
    }
    ColOutside(l, r, k, to, n);
  }

  lemma StartProduct(l: seq<Word>, r: seq<Word>, n: nat)
    requires n == |l|
    ensures Carried(n, 0, 0)
    ensures Value([]) + (0 + 0 * B) * BPow(0) == Columns(l, r, 0, n)
  {}

  /** result = left * right, 2n words; the product may not overwrite an operand. */
  method Mult(result: array<Word>, left: array<Word>, right: array<Word>, n: nat)
    requires 0 < n < B && n <= left.Length && n <= right.Length && 2 * n <= result.Length
    requires result != left && result != right
    modifies result
    ensures Value(result[..2 * n]) == Value(left[..n]) * Value(right[..n])
    ensures result[2 * n..] == old(result[2 * n..])
  {
    hide Acc, Col, Value, BPow, Pow2;
    ghost var l, r := left[..n], right[..n];
    StartProduct(l, r, n);
    var r0: Word, r1: Word, r2: Word := 0, 0, 0;
    var k := 0;
    while k < n
      invariant 0 <= k <= n && r2 == 0 && Carried(n, r0, r1)
      invariant Value(result[..k]) + (r0 + r1 * B) * BPow(k) == Columns(l, r, k, n)
      invariant result[2 * n..] == old(result[2 * n..])
    {
      ghost var c: nat := r0 + r1 * B;
      r0, r1, r2 := Column(left, right, n, k, 0, k + 1, r0, r1);
      NextColumn(l, r, k, result[..k], c, r0, r1, r2);
      ghost var done := result[..k];
      result[k] := r0;
      assert result[..k + 1] == done + [r0];
      r0, r1, r2, k := r1, r2, 0, k + 1;
    }
    while k < 2 * n - 1
      invariant n <= k <= 2 * n - 1 && r2 == 0 && Carried(n, r0, r1)
      invariant Value(result[..k]) + (r0 + r1 * B) * BPow(k) == Columns(l, r, k, n)
      invariant result[2 * n..] == old(result[2 * n..])
    {
      ghost var c: nat := r0 + r1 * B;
      r0, r1, r2 := Column(left, right, n, k, k + 1 - n, n, r0, r1);
      NextColumn(l, r, k, result[..k], c, r0, r1, r2);
      ghost var done := result[..k];
      result[k] := r0;
      assert result[..k + 1] == done + [r0];
      r0, r1, r2, k := r1, r2, 0, k + 1;
    }
    LastWord(l, r, result[..k], r0, r1);
    ghost var done := result[..k];
    result[k] := r0;
    assert result[..2 * n] == done + [r0];
  }

  // ----- squaring -----

  lemma {:induction false} ColMono(l: seq<Word>, k: nat, a: nat, b: nat)
    requires a <= b <= |l|
    ensures Col(l, l, k, a) <= Col(l, l, k, b)
  {
    if a < b {
      ColMono(l, k, a, b - 1);
    }
  }

  /** The part of column k that the folded loop still has to add when it stands at index i. */
  function Unfolded(l: seq<Word>, k: nat, i: nat): int
    requires i <= k + 1 && (2 * i <= k + 1 ==> k + 1 - i <= |l|)
  {
    if 2 * i <= k + 1 then Col(l, l, k, k + 1 - i) - Col(l, l, k, i) else 0
  }

  /** Column k is symmetric: index i and index k - i carry the same partial product. */
  lemma FoldStep(l: seq<Word>, k: nat, i: nat)
    requires i <= k - i < |l|
    ensures 0 <= Unfolded(l, k, i + 1)
    ensures Unfolded(l, k, i)
         == (if i < k - i then 2 * (l[i] as nat * l[k - i] as nat) else l[i] as nat * l[k - i] as nat)
          + Unfolded(l, k, i + 1)
  {
    AddOne(l, l, k, i);
    AddOne(l, l, k, k - i);
    Commute(l[i], l[k - i]);
    if 2 * (i + 1) <= k + 1 {
      ColMono(l, k, i + 1, k - i);
    }
  }

  lemma Commute(a: nat, b: nat)
    ensures a * b == b * a
  {}

  lemma ExactSum(sum: nat, d: nat, a: nat, b: nat, rest: int, total: int, m: int)
    requires 0 <= rest && sum + d * (a * b) + rest == total < m
    ensures (sum + d * (a * b)) % m == sum + d * (a * b)
  {}

  /** The inner loop of Square: half of column k, doubled off the diagonal. */
  method FoldedColumn(left: array<Word>, n: nat, k: nat, r0: Word, r1: Word)
      returns (s0: Word, s1: Word, s2: Word)
    requires 0 < n < B && n <= left.Length && k < 2 * n - 1 && Carried(n, r0, r1)
    ensures Acc(s0, s1, s2) == r0 + r1 * B + Col(left[..n], left[..n], k, n)
  {
    hide Acc, Col, Columns, Value, BPow, Pow2, Carried, Unfolded;
    ghost var l := left[..n];
    ghost var c: nat := r0 + r1 * B;
    StartColumn(l, l, k, r0, r1);
    ColumnFits(l, l, k, n, r0, r1);
    s0, s1, s2 := r0, r1, 0;
    var min := if k < n then 0 else k + 1 - n;
    StartFold(l, k, min);
    var i := min;
    while i <= k && i <= k - i
      invariant min <= i <= k + 1 && (2 * i <= k + 1 ==> k + 1 - i <= n)
      invariant Acc(s0, s1, s2) + Unfolded(l, k, i) == c + Col(l, l, k, n)
    {
      FoldStep(l, k, i);
      var a, b := left[i], left[k - i];
      ghost var sum := Acc(s0, s1, s2);
      if i < k - i {
        s0, s1, s2 := Mul2Add(a, b, s0, s1, s2);
        ExactSum(sum, 2, a, b, Unfolded(l, k, i + 1), c + Col(l, l, k, n), B3);
      } else {
        s0, s1, s2 := MulAdd(a, b, s0, s1, s2);
        ExactSum(sum, 1, a, b, Unfolded(l, k, i + 1), c + Col(l, l, k, n), B3);
      }
      i := i + 1;
    }
    EndFold(l, k, i);
  }

  lemma StartFold(l: seq<Word>, k: nat, min: nat)
    requires min == if k < |l| then 0 else k + 1 - |l|
    requires 0 < |l| && k < 2 * |l| - 1
    ensures 2 * min <= k + 1 && k + 1 - min <= |l|
    ensures Unfolded(l, k, min) == Col(l, l, k, |l|) && Col(l, l, k, 0) == 0
  {
    ColOutside(l, l, k, 0, min);
    ColOutside(l, l, k, k + 1 - min, |l|);
  }

  lemma EndFold(l: seq<Word>, k: nat, i: nat)
    requires k - i < i <= k + 1 && (2 * i <= k + 1 ==> k + 1 - i <= |l|)
    ensures Unfolded(l, k, i) == 0
  {}

  /** result = left * left, doing about half of the multiplications. */
  method Square(result: array<Word>, left: array<Word>, n: nat)
    requires 0 < n < B && n <= left.Length && 2 * n <= result.Length && result != left
    modifies result
    ensures Value(result[..2 * n]) == Value(left[..n]) * Value(left[..n])
    ensures result[2 * n..] == old(result[2 * n..])
  {
    hide Acc, Col, Value, BPow, Pow2;
    ghost var l := left[..n];
    StartProduct(l, l, n);
    var r0: Word, r1: Word, r2: Word := 0, 0, 0;
    var k := 0;
    while k < 2 * n - 1
      invariant 0 <= k <= 2 * n - 1 && r2 == 0 && Carried(n, r0, r1)
      invariant Value(result[..k]) + (r0 + r1 * B) * BPow(k) == Columns(l, l, k, n)
      invariant result[2 * n..] == old(result[2 * n..])
    {
      ghost var c: nat := r0 + r1 * B;
      r0, r1, r2 := FoldedColumn(left, n, k, r0, r1);
      NextColumn(l, l, k, result[..k], c, r0, r1, r2);
      ghost var done := result[..k];
      result[k] := r0;
      assert result[..k + 1] == done + [r0];
      r0, r1, r2, k := r1, r2, 0, k + 1;
    }
    LastWord(l, l, result[..k], r0, r1);
    ghost var done := result[..k];
    result[k] := r0;
    assert result[..2 * n] == done + [r0];
  }
}
