/**
 Modular addition and subtraction, and reduction of a double-length product by shifting and
 subtracting the modulus.
 */
module VliMod {
  import opened Arith
  import opened Words
  import opened Vli
  import VliMult

  /** result = (left + right) % mod, for left and right below mod. */
  method ModAdd(result: array<Word>, left: array<Word>, right: array<Word>, mod: array<Word>, n: nat)
    requires n <= result.Length && n <= left.Length && n <= right.Length && n <= mod.Length
    requires result != mod
    requires Value(left[..n]) < Value(mod[..n]) && Value(right[..n]) < Value(mod[..n])
    modifies result
    ensures Value(result[..n]) == (old(Value(left[..n])) + old(Value(right[..n]))) % Value(mod[..n])
    ensures result[n..] == old(result[n..])
  {
    hide Value, BPow, Pow2;
    ghost var m, sum, p := Value(mod[..n]), Value(left[..n]) + Value(right[..n]), BPow(n);
    ValueBound(mod[..n]);
    ModOnce(sum, m);
    var carry := Add(result, left, right, n);
    ValueBound(result[..n]);
    var cmp := CmpUnsafe(mod, result, n);
    if carry == 1 || cmp != 1 {
      ghost var v := Value(result[..n]);
      var borrow := Sub(result, result, mod, n);
      ValueBound(result[..n]);
    }
  }

  /** result = (left - right) % mod, for left and right below mod. */
  method ModSub(result: array<Word>, left: array<Word>, right: array<Word>, mod: array<Word>, n: nat)
    requires n <= result.Length && n <= left.Length && n <= right.Length && n <= mod.Length
    requires result != mod
    requires Value(left[..n]) < Value(mod[..n]) && Value(right[..n]) < Value(mod[..n])
    modifies result
    ensures Value(result[..n]) == (old(Value(left[..n])) - old(Value(right[..n]))) % Value(mod[..n])
    ensures result[n..] == old(result[n..])
  {
    hide Value, BPow, Pow2;
    ghost var m, diff := Value(mod[..n]), Value(left[..n]) - Value(right[..n]);
    ValueBound(mod[..n]);
    ModOnce(diff, m);
    var borrow := Sub(result, left, right, n);
    ValueBound(result[..n]);
    if borrow == 1 {
      var carry := Add(result, result, mod, n);
      ValueBound(result[..n]);
    }
  }

  // ----- aligning the modulus with the top of the product -----

  lemma ShlSplit(m: nat, p: nat, q: nat, b: nat)
    requires 0 < p && 0 < q && p * q == b && m < b
    ensures m / q < p && m * p % b == m % q * p && m * p == m * p % b + m / q * b
  {
    var a, r := m / q, m % q;
    assert m == a * q + r;
    MulMono(r + 1, q, p);
    assert m * p == a * b + r * p by { assert a * q * p == a * (p * q); }
    DivModUnique(m * p, b, a, r * p);
    if a >= p {
      MulMono(p, a, q);
    }
  }

  /** One digit of the shift by k bits: the bits pushed out become the next digit's carry. */
  lemma ShlDigit(m: Word, k: nat, carry: nat)
    requires 0 < k < W && carry < Pow2(k)
    ensures Or(Shl(m, k), carry) < B && Shr(m, W - k) < Pow2(k)
    ensures m * Pow2(k) + carry == Or(Shl(m, k), carry) + Shr(m, W - k) * B
  {
    Pow2Add(k, W - k);
    var p, q := Pow2(k), Pow2(W - k);
    assert Shl(m, k) == m * p % B;
    hide Shl, Pow2, Or;
    ShlSplit(m, p, q, B);
    DivFacts(m, q);
    var r: nat := m % q;
    OrDisjoint(k, carry, r);
    OrCommutes(carry, r * p);
    BelowBase(carry, r, p, q);
  }

  lemma ShlScale(low: nat, cur: nat, p: nat, c: nat, q: nat, m: nat, d: nat, c': nat)
    requires cur + c * q == low * p
    requires m * p + c == d + c' * B
    ensures cur + d * q + c' * (q * B) == (low + m * q) * p
  {
    assert (m * p + c) * q == (d + c' * B) * q;
    assert c' * B * q == c' * (q * B);
    assert m * p * q == m * q * p;
  }

  /** multiple[n..2n] = mod << k, for a shift by less than a word that pushes no bit out. */
  method ShiftUp(multiple: array<Word>, mod: array<Word>, n: nat, k: nat)
    requires multiple != mod && n <= mod.Length && 2 * n <= multiple.Length && 0 < k < W
    requires Value(mod[..n]) * Pow2(k) < BPow(n)
    modifies multiple
    ensures Value(multiple[n..2 * n]) == Value(mod[..n]) * Pow2(k)
    ensures multiple[..n] == old(multiple[..n]) && multiple[2 * n..] == old(multiple[2 * n..])
  {
    hide Value, BPow, Pow2, Or, Shl, Shr;
    ghost var m := mod[..n];
    EmptyShift(k);
    assert multiple[n..n + 0] == [] && m[..0] == [];
    var carry: nat := 0;
    var i := 0;
    while i < n
      invariant 0 <= i <= n && carry < Pow2(k)
      invariant Value(multiple[n..n + i]) + carry * BPow(i) == Value(m[..i]) * Pow2(k)
      invariant multiple[..n] == old(multiple[..n]) && multiple[2 * n..] == old(multiple[2 * n..])
    {
      ghost var done := multiple[n..n + i];
      var digit := Or(Shl(mod[i], k), carry);
      var out := Shr(mod[i], W - k);
      ShlDigit(mod[i], k, carry);
      ShlScale(Value(m[..i]), Value(done), Pow2(k), carry, BPow(i), mod[i], digit, out);
      ValueStep(m, i);
      ValueLast(done, digit);
      BPowNext(i);
      multiple[n + i], carry := digit, out;
      assert multiple[n..n + (i + 1)] == done + [digit];
      i := i + 1;
    }
    assert m[..n] == m;
    NoCarry(Value(multiple[n..2 * n]), carry, BPow(n));
  }

  lemma EmptyShift(k: nat)
    ensures Value([]) + 0 * BPow(0) == Value([]) * Pow2(k) && Pow2(k) > 0
  {}

  // ----- one step of the reduction -----

  lemma TopRoom(v: nat, d: nat, p: nat, low: nat, h: nat)
    requires v == low + d * p && 2 * v < p * (2 * h)
    ensures d < h
  {
    if d >= h {
      MulMono(h, d, p);
    }
  }

  /** Or-ing a bit into the top of a number below half its range adds half the range. */
  lemma SetTopBit(s: seq<Word>, c: Bit)
    requires |s| > 0 && 2 * Value(s) < BPow(|s|)
    ensures Or(s[|s| - 1], c * Pow2(W - 1)) < B
    ensures 2 * Value(s[|s| - 1 := Or(s[|s| - 1], c * Pow2(W - 1))]) == 2 * Value(s) + c * BPow(|s|)
  {
    HalfBase();
    var i, h := |s| - 1, Pow2(W - 1);
    BPowNext(i);
    ValueStep(s, i);
    hide Value, BPow, Pow2, Or;
    assert s[..i + 1] == s;
    TopRoom(Value(s), s[i], BPow(i), Value(s[..i]), h);
    OrDisjoint(W - 1, s[i], c);
    MulMono(c, 1, h);
    var d := s[i] + c * h;
    var t := s[i := d];
    ValueStep(t, i);
    assert t[..i + 1] == t && t[..i] == s[..i];
    TopBitAdds(s[i], c, h, BPow(i));
  }

  lemma TopBitAdds(d: nat, c: nat, h: nat, p: nat)
    ensures 2 * ((d + c * h) * p) == 2 * (d * p) + c * (p * (2 * h))
  {
    assert c * h * p * 2 == c * (p * (2 * h));
    Distribute2(d, c * h, p);
  }

  lemma HalfSplit(l: nat, h: nat, p: nat, low: nat, high: nat)
    requires 2 * low == 2 * (l / 2) + h % 2 * p && high == h / 2
    ensures (l + p * h) / 2 == low + p * high
  {
    assert p * h == 2 * (p * (h / 2)) + h % 2 * p;
  }

  /** Halving the 2n-word multiple as the code does: both halves by themselves, one bit moved down. */
  method Halve(multiple: array<Word>, n: nat)
    requires 0 < n && 2 * n <= multiple.Length
    modifies multiple
    ensures Value(multiple[..2 * n]) == old(Value(multiple[..2 * n])) / 2
    ensures multiple[2 * n..] == old(multiple[2 * n..])
  {
    hide Value, BPow, Pow2, Or, Shl;
    ghost var low, high := multiple[..n], multiple[n..2 * n];
    JoinHalves(multiple[..2 * n], low, high);
    ValueBound(low);
    Parity(high);
    assert multiple[0..n] == low;
    Rshift1(multiple, 0, n);
    assert multiple[0..n] == multiple[..n];
    assert multiple[n] == high[0] by { assert multiple[n..][0] == old(multiple[n..])[0]; }
    ghost var half := multiple[..n];
    HalfDigit(multiple[n], 0);
    SetTopBit(half, multiple[n] % 2);
    multiple[n - 1] := Or(multiple[n - 1], Shl(multiple[n], W - 1));
    ghost var joined := multiple[..n];
    assert joined == half[n - 1 := Or(half[n - 1], high[0] % 2 * Pow2(W - 1))];
    assert multiple[n..n + n] == multiple[n..][..n] == high by { assert multiple[n..] == old(multiple[n..]); }
    Rshift1(multiple, n, n);
    assert multiple[n..n + n] == multiple[n..2 * n];
    JoinHalves(multiple[..2 * n], joined, multiple[n..2 * n]);
    HalfSplit(Value(low), Value(high), BPow(n), Value(joined), Value(multiple[n..2 * n]));
  }

  // ----- reduction of a double-length product -----

  method Clear(vli: array<Word>, n: nat)
    requires n <= vli.Length
    modifies vli
    ensures Value(vli[..n]) == 0 && forall j :: 0 <= j < n ==> vli[j] == 0
    ensures vli[n..] == old(vli[n..])
  {
    var i := 0;
    while i < n
      invariant 0 <= i <= n
      invariant forall j :: 0 <= j < i ==> vli[j] == 0
      invariant vli[n..] == old(vli[n..])
    {
      vli[i] := 0;
      i := i + 1;
    }
    ValueZeros(vli[..n]);
  }

  /** dest[lo..lo + n] = src[..n]. */
  method Copy(dest: array<Word>, lo: nat, src: array<Word>, n: nat)
    requires lo + n <= dest.Length && n <= src.Length && (dest == src ==> lo == 0)
    modifies dest
    ensures dest[lo..lo + n] == old(src[..n])
    ensures dest[..lo] == old(dest[..lo]) && dest[lo + n..] == old(dest[lo + n..])
  {
    var i := 0;
    while i < n
      invariant 0 <= i <= n
      invariant forall j :: 0 <= j < i ==> dest[lo + j] == old(src[j])
      invariant forall j :: i <= j < n ==> src[j] == old(src[j])
      invariant dest[..lo] == old(dest[..lo]) && dest[lo + n..] == old(dest[lo + n..])
    {
      dest[lo + i] := src[i];
      i := i + 1;
    }
  }

  /** With a nonzero top word the shift is n whole words and less than one word of bits. */
  lemma Alignment(s: seq<Word>, bits: nat)
    requires |s| > 0 && s[|s| - 1] != 0
    requires 0 < bits <= |s| * W && Pow2(bits - 1) <= Value(s) < Pow2(bits)
    ensures var k := |s| * W - bits;
            0 <= k < W && Value(s) * Pow2(k) < BPow(|s|) <= 2 * (Value(s) * Pow2(k))
  {
    hide *;
    TopWordBits(s, bits);
    var k := |s| * W - bits;
    BPowIsPow2(|s|);
    ShiftBounds(Value(s), bits, k);
  }

  lemma TopWordBits(s: seq<Word>, bits: nat)
    requires |s| > 0 && s[|s| - 1] != 0 && Value(s) < Pow2(bits)
    ensures |s| * W - bits < W
  {
    var i := |s| - 1;
    ValueStep(s, i);
    assert s[..i + 1] == s;
    hide *;
    BPowIsPow2(i);
    MulMono(1, s[i], BPow(i));
    assert |s| * W == i * W + W;
    if bits <= i * W {
      Pow2Mono(bits, i * W);
    }
  }

  lemma ShiftBounds(v: nat, bits: nat, k: nat)
    requires 0 < bits && Pow2(bits - 1) <= v < Pow2(bits)
    ensures v * Pow2(k) < Pow2(bits + k) <= 2 * (v * Pow2(k))
  {
    hide *;
    Pow2Add(bits, k);
    Pow2Add(bits - 1, k);
    MulStrict(v, Pow2(bits), Pow2(k));
    MulMono(Pow2(bits - 1), v, Pow2(k));
    Pow2Next(bits - 1 + k);
  }

  lemma Aligned(m: nat, n: nat, k: nat)
    requires BPow(n) <= 2 * (m * Pow2(k))
    ensures BPow(n) * (m * Pow2(k)) == m * Pow2(n * W + k)
    ensures BPow(2 * n) <= 2 * (m * Pow2(n * W + k))
  {
    hide *;
    var p, q := BPow(n), Pow2(k);
    BPowIsPow2(n);
    Pow2Add(n * W, k);
    BPowAdd(n, n);
    assert p * (m * q) == m * (p * q);
    MulMono(p, 2 * (m * q), p);
    assert 2 * (m * q) * p == 2 * (p * (m * q));
  }

  /** mod_multiple = mod << shift, where shift moves the top bit of mod to the top of 2n words. */
  method Align(mod: array<Word>, n: nat) returns (multiple: array<Word>, shift: nat)
    requires 0 < n <= mod.Length && mod[n - 1] != 0
    ensures fresh(multiple) && multiple.Length == 2 * n
    ensures Value(multiple[..2 * n]) == Value(mod[..n]) * Pow2(shift)
    ensures BPow(2 * n) <= 2 * Value(multiple[..2 * n])
  {
    hide Value, BPow, Pow2;
    ghost var m := mod[..n];
    var bits := NumBits(mod, n);
    TopWordNonzero(m);
    Alignment(m, bits);
    shift := n * 2 * W - bits;
    ghost var k := n * W - bits;
    TwiceWords(n, shift, k);
    var wordShift, bitShift := shift / W, shift % W;
    multiple := new Word[2 * n](_ => 0);
    Clear(multiple, wordShift);
    if bitShift > 0 {
      ShiftUp(multiple, mod, n, bitShift);
    } else {
      Copy(multiple, n, mod, n);
      NoShift(Value(m));
    }
    assert multiple[n..n + n] == multiple[n..2 * n];
    JoinHalves(multiple[..2 * n], multiple[..n], multiple[n..2 * n]);
    ValueZeros(multiple[..n]);
    Aligned(Value(m), n, k);
  }

  lemma NoShift(m: nat)
    ensures m * Pow2(0) == m
  {}

  lemma TopWordNonzero(s: seq<Word>)
    requires |s| > 0 && s[|s| - 1] != 0
    ensures Value(s) > 0 && Pow2(0) == 1
  {
    ValueZeros(s);
  }

  lemma TwiceWords(n: nat, shift: nat, k: nat)
    requires shift == n * W + k && k < W
    ensures shift / W == n && shift % W == k
  {
    DivModUnique(shift, W, n, k);
  }

  lemma ReduceStep(v: nat, p: nat, m: nat, e: nat)
    requires m > 0 && v >= m * e
    ensures (v - m * e) % m == v % m
  {
    ModMultiple(v - m * e, e, m);
  }

  lemma HalveMultiple(m: nat, shift: nat)
    requires shift > 0
    ensures m * Pow2(shift) == 2 * (m * Pow2(shift - 1))
  {}

  /** One round on numbers: subtract the multiple y = m << shift if it fits, then halve it. */
  lemma ReduceRound(x: nat, y: nat, m: nat, p: nat, shift: nat, borrow: Bit, diff: nat, top: nat)
    requires m > 0 && y == m * Pow2(shift) && x < 2 * y && x % m == p % m
    requires diff - borrow * top == x - y && diff < top
    ensures var z := if borrow == 0 then diff else x;
            && z % m == p % m && z < y
            && (shift > 0 ==> y / 2 == m * Pow2(shift - 1) && z < 2 * (y / 2))
            && (shift == 0 ==> z < m)
  {
    if shift > 0 {
      HalveMultiple(m, shift);
    } else {
      NoShift(m);
    }
    hide *;
    if borrow == 0 {
      ReduceStep(x, p, m, Pow2(shift));
    }
  }

  /** result = product % mod; the product is used up. Needs the top word of mod to be nonzero. */
  method Mmod(result: array<Word>, product: array<Word>, mod: array<Word>, n: nat)
    requires 0 < n <= mod.Length && n <= result.Length && 2 * n <= product.Length
    requires mod[n - 1] != 0
    modifies result, product
    ensures var m := old(Value(mod[..n])); m > 0 && Value(result[..n]) == old(Value(product[..2 * n])) % m
    ensures result != product ==> result[n..] == old(result[n..])
  {
    hide *;
    ghost var m, p := Value(mod[..n]), Value(product[..2 * n]);
    TopWordNonzero(mod[..n]);
    ValueBound(mod[..n]);
    ValueBound(product[..2 * n]);
    var multiple, top := Align(mod, n);
    var tmp := new Word[2 * n](_ => 0);
    var v := [tmp, product];
    var index: nat := 1;
    var shift: int := top;
    while shift >= 0
      invariant -1 <= shift && index < 2
      invariant shift >= 0 ==> Value(multiple[..2 * n]) == m * Pow2(shift)
      invariant shift >= 0 ==> Value(v[index][..2 * n]) < 2 * Value(multiple[..2 * n])
      invariant shift < 0 ==> Value(v[index][..2 * n]) < m
      invariant Value(v[index][..2 * n]) % m == p % m
      invariant result != product ==> result[..] == old(result[..])
    {
      ghost var x, y := Value(v[index][..2 * n]), Value(multiple[..2 * n]);
      var borrow := Sub(v[1 - index], v[index], multiple, 2 * n);
      ValueBound(v[1 - index][..2 * n]);
      ReduceRound(x, y, m, p, shift, borrow, Value(v[1 - index][..2 * n]), BPow(2 * n));
      index := if borrow == 0 then 1 - index else index;
      Halve(multiple, n);
      shift := shift - 1;
    }
    ghost var rest := v[index][..2 * n];
    SmallMod(Value(rest), m);
    LowHalf(rest, n);
    assert rest[..n] == v[index][..n];
    Copy(result, 0, v[index], n);
    assert result[0..0 + n] == result[..n];
  }

  lemma LowHalf(s: seq<Word>, n: nat)
    requires |s| == 2 * n && Value(s) < BPow(n)
    ensures Value(s) == Value(s[..n])
  {
    ValueSplit(s, n);
    hide *;
    NoCarryLeft(Value(s[..n]), Value(s[n..]), BPow(n));
  }

  lemma NoCarryLeft(v: nat, c: nat, p: nat)
    requires v + p * c < p
    ensures p * c == 0
  {
    NoCarry(v, c, p);
  }

  // ----- modular products -----

  method ModMult(result: array<Word>, left: array<Word>, right: array<Word>, mod: array<Word>, n: nat)
    requires 0 < n < B && n <= result.Length && n <= left.Length && n <= right.Length && n <= mod.Length
    requires mod[n - 1] != 0
    modifies result
    ensures var m := old(Value(mod[..n]));
            m > 0 && Value(result[..n]) == old(Value(left[..n])) * old(Value(right[..n])) % m
    ensures result[n..] == old(result[n..])
  {
    hide *;
    TopWordNonzero(mod[..n]);
    var product := new Word[2 * n](_ => 0);
    VliMult.Mult(product, left, right, n);
    Mmod(result, product, mod, n);
  }

  method ModSquare(result: array<Word>, left: array<Word>, mod: array<Word>, n: nat)
    requires 0 < n < B && n <= result.Length && n <= left.Length && n <= mod.Length
    requires mod[n - 1] != 0
    modifies result
    ensures var m := old(Value(mod[..n]));
            m > 0 && Value(result[..n]) == old(Value(left[..n])) * old(Value(left[..n])) % m
    ensures result[n..] == old(result[n..])
  {
    hide *;
    TopWordNonzero(mod[..n]);
    var product := new Word[2 * n](_ => 0);
    VliMult.Square(product, left, n);
    Mmod(result, product, mod, n);
  }
}
