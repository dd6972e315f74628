/**
 Scalar multiplication: making the scalar's bit length constant and the Montgomery ladder.

 The curve is an arbitrary commutative group; the co-Z point formulas enter through their
 documented meaning, so every statement here is about which multiples of the point are computed.
 */
module Ladder {
  import opened Arith
  import opened Words
  import opened Vli

  // ----- commutative groups and multiples -----

  datatype Group<!P> = Group(add: (P, P) -> P, zero: P, neg: P -> P)

  ghost predicate Laws<P(!new)>(g: Group<P>) {
    && (forall p, q :: g.add(p, q) == g.add(q, p))
    && (forall p, q, r :: g.add(g.add(p, q), r) == g.add(p, g.add(q, r)))
    && (forall p :: g.add(p, g.zero) == p)
    && (forall p :: g.add(p, g.neg(p)) == g.zero)
  }

  function Mul<P>(g: Group<P>, k: nat, p: P): P {
    if k == 0 then g.zero else g.add(Mul(g, k - 1, p), p)
  }

  lemma {:induction false} MulSum<P(!new)>(g: Group<P>, a: nat, b: nat, p: P)
    requires Laws(g)
    ensures Mul(g, a + b, p) == g.add(Mul(g, a, p), Mul(g, b, p))
  {
    MulZero(g, p);
    hide Laws, Mul;
    if b == 0 {
      ZeroRight(g, Mul(g, a, p));
    } else {
      MulSum(g, a, b - 1, p);
      MulNext(g, b - 1, p);
      MulNext(g, a + (b - 1), p);
      Assoc(g, Mul(g, a, p), Mul(g, b - 1, p), p);
    }
  }

  lemma MulZero<P>(g: Group<P>, p: P)
    ensures Mul(g, 0, p) == g.zero
  {}

  lemma MulNext<P>(g: Group<P>, k: nat, p: P)
    ensures Mul(g, k + 1, p) == g.add(Mul(g, k, p), p)
  {}

  lemma Assoc<P(!new)>(g: Group<P>, p: P, q: P, r: P)
    requires Laws(g)
    ensures g.add(g.add(p, q), r) == g.add(p, g.add(q, r))
  {}

  lemma Commutes<P(!new)>(g: Group<P>, p: P, q: P)
    requires Laws(g)
    ensures g.add(p, q) == g.add(q, p)
  {}

  /** Adding multiples of the order changes nothing. */
  lemma {:induction false} MulOrder<P(!new)>(g: Group<P>, k: nat, c: nat, n: nat, p: P)
    requires Laws(g) && Mul(g, n, p) == g.zero
    ensures Mul(g, k + c * n, p) == Mul(g, k, p)
  {
    hide Laws, Mul;
    if c > 0 {
      MulOrder(g, k, c - 1, n, p);
      var a := k + (c - 1) * n;
      assert k + c * n == a + n;
      MulSum(g, a, n, p);
      ZeroRight(g, Mul(g, a, p));
    }
  }

  lemma ZeroRight<P(!new)>(g: Group<P>, p: P)
    requires Laws(g)
    ensures g.add(p, g.zero) == p
  {}

  lemma Cancel<P(!new)>(g: Group<P>, p: P, q: P)
    requires Laws(g)
    ensures g.add(g.add(p, q), g.neg(p)) == q
    ensures g.add(g.add(p, q), g.neg(q)) == p
  {
    assert g.add(g.add(p, q), g.neg(q)) == g.add(p, g.add(q, g.neg(q)));
    assert g.add(g.add(q, p), g.neg(p)) == g.add(q, g.add(p, g.neg(p)));
  }

  // ----- the co-Z steps, by their documented meaning -----

  /**
   What both formulas need: they divide by the difference of the x coordinates, so the points must
   be finite and neither equal nor opposite.
   */
  ghost predicate Apart<P>(g: Group<P>, p: P, q: P) {
    p != g.zero && q != g.zero && p != q && g.add(p, q) != g.zero
  }

  /** (P, Q) becomes (P, P + Q), with P rescaled to the new Z coordinate, if P and Q are apart. */
  method XYcZAdd<P>(g: Group<P>, R: array<P>, a: nat, b: nat) returns (ghost fine: bool)
    requires R.Length == 2 && a < 2 && b < 2 && a != b
    modifies R
    ensures fine == Apart(g, old(R[a]), old(R[b]))
    ensures R[a] == old(R[a]) && R[b] == g.add(old(R[a]), old(R[b]))
  {
    fine := Apart(g, R[a], R[b]);
    R[b] := g.add(R[a], R[b]);
  }

  /** (P, Q) becomes (P - Q, P + Q), if P and Q are apart. */
  method XYcZAddC<P>(g: Group<P>, R: array<P>, a: nat, b: nat) returns (ghost fine: bool)
    requires R.Length == 2 && a < 2 && b < 2 && a != b
    modifies R
    ensures fine == Apart(g, old(R[a]), old(R[b]))
    ensures R[a] == g.add(old(R[a]), g.neg(old(R[b]))) && R[b] == g.add(old(R[a]), old(R[b]))
  {
    fine := Apart(g, R[a], R[b]);
    R[a], R[b] := g.add(R[a], g.neg(R[b])), g.add(R[a], R[b]);
  }

  /** One conjugate addition and one addition: (P, Q) with P - Q = D becomes (2P, P + Q). */
  lemma StepSum<P(!new)>(g: Group<P>, p: P, q: P)
    requires Laws(g)
    ensures g.add(g.add(p, q), g.add(p, g.neg(q))) == g.add(p, p)
  {
    Cancel(g, p, q);
    assert g.add(g.add(p, q), g.add(p, g.neg(q))) == g.add(g.add(g.add(p, q), p), g.neg(q));
    assert g.add(g.add(p, q), p) == g.add(g.add(p, p), q);
    Cancel(g, g.add(p, p), q);
  }

  // ----- the ladder -----

  /** The scalar the ladder really uses: numBits - 1 bits of the array under an implicit top bit. */
  function Effective(v: nat, l: nat): nat {
    Pow2(l) + v % Pow2(l)
  }

  lemma EffectiveBit(v: nat, l: nat, i: nat)
    requires i < l
    ensures BitSet(Effective(v, l), i) == BitSet(v, i)
    ensures Effective(v, l) / Pow2(i) == 2 * (Effective(v, l) / Pow2(i + 1)) + (if BitSet(v, i) then 1 else 0)
  {
    var t, p := Effective(v, l), Pow2(i);
    Pow2Add(i, l - i);
    var h := Pow2(l - i - 1);
    assert Pow2(l - i) == 2 * h;
    SameBit(v, p, h);
    DivHalf(t, p);
  }

  lemma SameBit(v: nat, p: nat, h: nat)
    requires p > 0 && h > 0
    ensures p * (2 * h) > 0
    ensures (p * (2 * h) + v % (p * (2 * h))) / p % 2 == v / p % 2
  {
    var m := p * (2 * h);
    ModKeepsDigit(v, p, 2, h);
    ModKeepsDigit(m + v % m, p, 2, h);
    SmallMod(v % m, m);
    ModMultiple(v % m, 1, m);
  }

  /** R0 = jP and R1 = (j + 1)P. */
  ghost predicate Rungs<P>(g: Group<P>, R: array<P>, j: nat, p: P)
    reads R
  {
    R.Length == 2 && R[0] == Mul(g, j, p) && R[1] == Mul(g, j + 1, p)
  }

  lemma Climb<P(!new)>(g: Group<P>, j: nat, p: P)
    requires Laws(g)
    ensures g.add(Mul(g, j, p), Mul(g, j + 1, p)) == Mul(g, 2 * j + 1, p)
    ensures g.add(Mul(g, j + 1, p), Mul(g, j, p)) == Mul(g, 2 * j + 1, p)
    ensures g.add(Mul(g, j, p), Mul(g, j, p)) == Mul(g, 2 * j, p)
    ensures g.add(Mul(g, j + 1, p), Mul(g, j + 1, p)) == Mul(g, 2 * j + 2, p)
  {
    hide *;
    Commutes(g, Mul(g, j, p), Mul(g, j + 1, p));
    MulSum(g, j, j + 1, p);
    MulSum(g, j, j, p);
    MulSum(g, j + 1, j + 1, p);
    assert j + (j + 1) == 2 * j + 1 && j + j == 2 * j && j + 1 + (j + 1) == 2 * j + 2;
  }

  // ----- where the point formulas would degenerate -----

  /** n is the exact order of the point. */
  ghost predicate ExactOrder<P(!new)>(g: Group<P>, n: nat, p: P) {
    n > 0 && forall k: nat :: Mul(g, k, p) == g.zero <==> k % n == 0
  }

  /** The multiples of n a round on prefix j must not meet: it adds jP, (j+1)P and then (2j+1)P, P. */
  predicate Proper(j: int, n: int)
    requires n > 0
  {
    j % n != 0 && (j + 1) % n != 0 && (2 * j + 1) % n != 0
  }

  /** The rounds on the prefixes of the scalar t from bit bits down to bit low are proper. */
  ghost predicate ProperFrom(t: nat, n: nat, low: nat, bits: nat)
    requires n > 0
  {
    forall i | low <= i <= bits :: Proper(t / Pow2(i), n)
  }

  /** Every round of the ladder on the scalar t with bits + 1 bits is proper. */
  ghost predicate AllProper(t: nat, n: nat, bits: nat)
    requires n > 0
  {
    ProperFrom(t, n, 1, bits)
  }

  lemma NoRounds(t: nat, n: nat, bits: nat)
    ensures n > 0 ==> ProperFrom(t, n, bits + 1, bits)
  {}

  lemma ProperNext(t: nat, n: nat, low: nat, bits: nat)
    requires low <= bits
    ensures n > 0 ==> (ProperFrom(t, n, low, bits) <==> Proper(t / Pow2(low), n) && ProperFrom(t, n, low + 1, bits))
  {
    hide Pow2, Proper;
    if n > 0 && Proper(t / Pow2(low), n) && ProperFrom(t, n, low + 1, bits) {
      forall i | low <= i <= bits
        ensures Proper(t / Pow2(i), n)
      {
        assert i == low || low + 1 <= i;
      }
    }
  }

  lemma ZeroExactly<P(!new)>(g: Group<P>, n: nat, p: P, k: nat)
    requires ExactOrder(g, n, p)
    ensures n > 0 && (Mul(g, k, p) == g.zero <==> k % n == 0)
  {
    hide Mul;
  }

  lemma OddDouble(k: nat, n: nat)
    requires n % 2 == 1
    ensures 2 * k % n == 0 <==> k % n == 0
  {
    var q, r := k / n, k % n;
    DivFacts(k, n);
    assert 2 * k == 2 * q * n + 2 * r;
    if 2 * r < n {
      DivModUnique(2 * k, n, 2 * q, 2 * r);
    } else {
      assert (2 * q + 1) * n == 2 * q * n + n;
      DivModUnique(2 * k, n, 2 * q + 1, 2 * r - n);
    }
  }

  lemma Unmoved<P(!new)>(g: Group<P>, p: P, q: P)
    requires Laws(g)
    ensures g.add(p, q) == p <==> q == g.zero
  {
    hide Laws;
    Cancel(g, p, q);
    Inverse(g, p);
    ZeroRight(g, p);
  }

  lemma Inverse<P(!new)>(g: Group<P>, p: P)
    requires Laws(g)
    ensures g.add(p, g.neg(p)) == g.zero
  {}

  /** jP and (j+1)P are apart exactly when j is proper. */
  lemma RungsApart<P(!new)>(g: Group<P>, j: nat, n: nat, p: P)
    requires Laws(g) && ExactOrder(g, n, p)
    ensures Apart(g, Mul(g, j, p), Mul(g, j + 1, p)) <==> Proper(j, n)
  {
    hide Laws, Mul, ExactOrder;
    ZeroExactly(g, n, p, j);
    ZeroExactly(g, n, p, j + 1);
    ZeroExactly(g, n, p, 2 * j + 1);
    ZeroExactly(g, n, p, 1);
    Doubles(g, p);
    MulNext(g, j, p);
    Climb(g, j, p);
    Unmoved(g, Mul(g, j, p), p);
    OrderOne(j, n);
  }

  lemma OrderOne(j: nat, n: nat)
    requires n > 0
    ensures 1 % n == 0 ==> j % n == 0
  {
    if n > 1 {
      SmallMod(1, n);
    }
  }

  /** If P and Q are apart and neither is its own negative, then so are P + Q and P - Q. */
  lemma SumsApart<P(!new)>(g: Group<P>, p: P, q: P)
    requires Laws(g) && Apart(g, p, q) && g.add(p, p) != g.zero && g.add(q, q) != g.zero
    ensures Apart(g, g.add(p, q), g.add(p, g.neg(q)))
  {
    hide Laws;
    Assoc(g, p, g.neg(q), q);
    Commutes(g, g.neg(q), q);
    Inverse(g, q);
    ZeroRight(g, p);
    Assoc(g, p, q, q);
    Unmoved(g, p, g.add(q, q));
    Commutes(g, g.zero, q);
    ZeroRight(g, q);
    StepSum(g, p, q);
  }

  /** Both operations of a round on prefix j meet points that are apart exactly when j is proper. */
  lemma RoundApart<P(!new)>(g: Group<P>, j: nat, n: nat, p: P, a: P, b: P)
    requires Laws(g) && ExactOrder(g, n, p) && n % 2 == 1
    requires (a, b) == (Mul(g, j, p), Mul(g, j + 1, p)) || (b, a) == (Mul(g, j, p), Mul(g, j + 1, p))
    ensures Apart(g, a, b) && Apart(g, g.add(a, b), g.add(a, g.neg(b))) <==> Proper(j, n)
  {
    hide Laws, Mul, ExactOrder;
    RungsApart(g, j, n, p);
    Commutes(g, a, b);
    if Proper(j, n) {
      Climb(g, j, p);
      ZeroExactly(g, n, p, 2 * j);
      ZeroExactly(g, n, p, 2 * j + 2);
      OddDouble(j, n);
      OddDouble(j + 1, n);
      SumsApart(g, a, b);
    }
  }

  /** One ladder round on the bit nb (inverted, as in the code). */
  method Round<P(!new)>(g: Group<P>, R: array<P>, nb: nat, ghost j: nat, ghost p: P, ghost n: nat)
      returns (ghost fine: bool)
    requires Laws(g) && nb < 2 && Rungs(g, R, j, p)
    modifies R
    ensures Rungs(g, R, 2 * j + (1 - nb), p)
    ensures n % 2 == 1 && ExactOrder(g, n, p) ==> (fine <==> Proper(j, n))
  {
    hide Laws, Mul, ExactOrder, Proper;
    ghost var a, b := R[1 - nb], R[nb];
    ghost var first := XYcZAddC(g, R, 1 - nb, nb);
    ghost var second := XYcZAdd(g, R, nb, 1 - nb);
    fine := first && second;
    StepSum(g, a, b);
    Climb(g, j, p);
    if n % 2 == 1 && ExactOrder(g, n, p) {
      RoundApart(g, j, n, p, a, b);
    }
  }

  /**
   Multiplies the point by the scalar with an implicit top bit at position numBits - 1. fine says that
   every addition met points its formula is made for.
   */
  method EccPointMult<P(!new)>(g: Group<P>, point: P, scalar: array<Word>, n: nat, numBits: nat, ghost order: nat)
      returns (result: P, ghost fine: bool)
    requires Laws(g) && n <= scalar.Length && 2 <= numBits <= n * W + 1
    ensures var t := Effective(Value(scalar[..n]), numBits - 1);
            && result == Mul(g, t, point)
            && (order % 2 == 1 && ExactOrder(g, order, point) ==> (fine <==> AllProper(t, order, numBits - 1)))
  {
    hide Value, Pow2, BitSet, Effective, Mul, Laws, BPow, ExactOrder, ProperFrom;
    ghost var l, v := numBits - 1, Value(scalar[..n]);
    ghost var t := Effective(v, l);
    var R := new P[2](_ => point);
    TopBit(v, l);
    Doubles(g, point);
    R[1] := g.add(point, point);
    fine := true;
    NoRounds(t, order, l);
    var i: int := numBits - 2;
    while i > 0
      invariant 0 <= i <= numBits - 2
      invariant t / Pow2(i + 1) >= 0 && Rungs(g, R, t / Pow2(i + 1), point)
      invariant order % 2 == 1 && ExactOrder(g, order, point) ==> (fine <==> ProperFrom(t, order, i + 2, l))
    {
      var set_ := TestBit(scalar, n, i);
      EffectiveBit(v, l, i);
      ghost var ok := Round(g, R, if set_ then 0 else 1, t / Pow2(i + 1), point, order);
      fine := fine && ok;
      ProperNext(t, order, i + 1, l);
      i := i - 1;
    }
    var set_ := TestBit(scalar, n, 0);
    EffectiveBit(v, l, 0);
    ghost var ok := Round(g, R, if set_ then 0 else 1, t / Pow2(1), point, order);
    fine := fine && ok;
    ProperNext(t, order, 1, l);
    WholeNumber(t);
    result := R[0];
  }

  lemma TopBit(v: nat, l: nat)
    ensures Effective(v, l) / Pow2(l) == 1
  {
    DivModUnique(Effective(v, l), Pow2(l), 1, v % Pow2(l));
  }

  lemma WholeNumber(t: nat)
    ensures t / Pow2(0) == t
  {}

  lemma Doubles<P(!new)>(g: Group<P>, p: P)
    requires Laws(g)
    ensures p == Mul(g, 1, p) && g.add(p, p) == Mul(g, 2, p)
  {
    assert Mul(g, 1, p) == g.add(Mul(g, 0, p), p) == g.add(p, g.zero);
    assert Mul(g, 2, p) == g.add(Mul(g, 1, p), p);
  }

  // ----- a scalar of constant bit length -----

  /** order has exactly bits bits, stored in the fewest possible words. */
  ghost predicate OrderBits(order: nat, bits: nat, words: nat) {
    && bits > 0 && Pow2(bits - 1) <= order < Pow2(bits)
    && words > 0 && (words - 1) * W < bits <= words * W
  }

  lemma EffectiveOf(t: nat, v: nat, c: nat, bits: nat, e: nat)
    requires Pow2(bits) <= t < 2 * Pow2(bits)
    requires v + c * (Pow2(bits) * Pow2(e)) == t
    ensures Effective(v, bits) == t
  {
    LowPart(t, v, c, Pow2(bits), Pow2(e));
  }

  lemma LowPart(t: nat, v: nat, c: nat, p: nat, q: nat)
    requires p <= t < 2 * p && v + c * (p * q) == t
    ensures p > 0 && v % p == t - p
  {
    assert (1 - c * q) * p == p - c * (p * q) by { assert c * q * p == c * (p * q); }
    DivModUnique(v, p, 1 - c * q, t - p);
  }

  /** The top bit at position bits is present in the stored sum, or fell off the array as the carry. */
  lemma TopBitSeen(sum: nat, v: nat, c: Bit, bits: nat, e: nat)
    requires sum < 2 * Pow2(bits) && v + c * (Pow2(bits) * Pow2(e)) == sum
    requires v < Pow2(bits) * Pow2(e)
    ensures e == 0 ==> (sum >= Pow2(bits) <==> c == 1)
    ensures e > 0 ==> c == 0 && (sum >= Pow2(bits) <==> BitSet(v, bits))
  {
    if e > 0 {
      assert Pow2(e) == 2 * Pow2(e - 1);
    }
    hide Pow2;
    TopBitSplit(sum, v, c, Pow2(bits), Pow2(e));
  }

  lemma TopBitSplit(sum: nat, v: nat, c: Bit, p: nat, q: nat)
    requires 0 < p && 0 < q && sum < 2 * p && v + c * (p * q) == sum && v < p * q
    ensures q == 1 ==> (sum >= p <==> c == 1)
    ensures q >= 2 ==> c == 0 && (sum >= p <==> v / p % 2 == 1)
  {
    if q >= 2 {
      MulMono(2, q, p);
      if sum < p {
        DivModUnique(v, p, 0, v);
      } else {
        DivModUnique(v, p, 1, v - p);
      }
    }
  }

  /**
   k0 = k + order and k1 = k + 2 * order, modulo the array size. The flag says which of them has
   its top bit at position bits; that bit may have fallen off the array. k0 may be k itself.
   */
  method RegularizeK(k: array<Word>, k0: array<Word>, k1: array<Word>, order: array<Word>, words: nat, bits: nat)
      returns (carry: bool)
    requires words <= k.Length && words <= k0.Length && words <= k1.Length && words <= order.Length
    requires k1 != k0 && k1 != order && k0 != order
    requires OrderBits(Value(order[..words]), bits, words)
    requires Value(k[..words]) < Value(order[..words])
    modifies k0, k1
    ensures var x, m := old(Value(k[..words])), Value(order[..words]);
            && carry == (x + m >= Pow2(bits))
            && Effective(Value((if carry then k0 else k1)[..words]), bits) == x + (if carry then 1 else 2) * m
  {
    hide Value, Pow2, BPow, BitSet, Effective;
    ghost var x, m, e := Value(k[..words]), Value(order[..words]), words * W - bits;
    ArraySize(words, bits);
    HalfOrder(m, bits);
    var c := Add(k0, k, order, words);
    ghost var v0 := Value(k0[..words]);
    ValueBound(k0[..words]);
    TopBitSeen(x + m, v0, c, bits, e);
    carry := c == 1;
    if !carry && bits < words * W {
      carry := TestBit(k0, words, bits);
    }
    var d := Add(k1, k0, order, words);
    assert Value(k0[..words]) == v0;
    if carry {
      EffectiveOf(x + m, v0, c, bits, e);
    } else {
      EffectiveOf(x + 2 * m, Value(k1[..words]), d, bits, e);
    }
  }

  lemma ArraySize(words: nat, bits: nat)
    requires bits <= words * W
    ensures BPow(words) == Pow2(bits) * Pow2(words * W - bits)
  {
    BPowIsPow2(words);
    Pow2Add(bits, words * W - bits);
  }

  lemma HalfOrder(m: nat, bits: nat)
    requires bits > 0 && Pow2(bits - 1) <= m < Pow2(bits)
    ensures Pow2(bits) <= 2 * m < 2 * Pow2(bits)
  {
    assert Pow2(bits) == 2 * Pow2(bits - 1);
  }

  // ----- which scalars meet degenerate points -----

  /** The scalar that is really climbed for k. */
  function Climbed(k: nat, n: nat, bits: nat): nat {
    if k + n >= Pow2(bits) then k + n else k + 2 * n
  }

  /** The scalars whose ladder meets the point at infinity on the way. */
  predicate Exceptional(k: nat, n: nat, bits: nat) {
    k + 2 >= n || (k == 1 && n + 1 < Pow2(bits))
  }

  lemma Between(x: nat, n: nat, c: nat)
    requires c * n < x < c * n + n
    ensures n > 0 && x % n != 0
  {
    DivModUnique(x, n, c, x - c * n);
  }

  lemma Multiple(c: nat, n: nat)
    requires n > 0
    ensures c * n % n == 0
  {
    DivModUnique(c * n, n, c, 0);
  }

  lemma Prefix(t: nat, i: nat, bits: nat)
    requires 1 <= i <= bits && Pow2(bits) <= t
    ensures t / Pow2(i) >= 1
    ensures i == 1 ==> t / Pow2(i) == t / 2
    ensures i == 2 ==> t / Pow2(i) == t / 4
    ensures i >= 3 ==> 8 * (t / Pow2(i)) <= t
  {
    assert Pow2(1) == 2 && Pow2(2) == 2 * Pow2(1) && Pow2(3) == 2 * Pow2(2);
    Pow2Mono(i, bits);
    if i >= 3 {
      Pow2Mono(3, i);
    }
    QuotientRange(t, Pow2(i));
  }

  lemma QuotientRange(t: nat, p: nat)
    requires 0 < p <= t
    ensures t / p >= 1
    ensures p >= 8 ==> 8 * (t / p) <= t
  {
    DivFacts(t, p);
    QuotientAtLeast(1, t / p, p, t % p);
    if p >= 8 {
      MulMono(8, p, t / p);
    }
  }

  lemma FirstRound(k: nat, n: nat, bits: nat)
    requires 5 <= n && n % 2 == 1 && 0 < k < n
    requires n < Pow2(bits) < 2 * n && Pow2(bits) % 2 == 0
    ensures Proper(Climbed(k, n, bits) / 2, n) <==> !Exceptional(k, n, bits)
  {
    hide Pow2, Proper;
    if k + n >= Pow2(bits) {
      FirstRoundCarry(k, n, (k + n) / 2);
    } else {
      ParityGap(k, n, Pow2(bits));
      FirstRoundNoCarry(k, n, (k + 2 * n) / 2);
    }
  }

  lemma ParityGap(k: nat, n: nat, top: nat)
    requires n % 2 == 1 && top % 2 == 0 && k + n < top < 2 * n
    ensures k + 2 < n
  {}

  lemma FirstRoundCarry(k: nat, n: nat, j: nat)
    requires 5 <= n && n % 2 == 1 && 0 < k < n && j == (k + n) / 2
    ensures Proper(j, n) <==> k + 2 < n
  {
    Between(j, n, 0);
    Between(2 * j + 1, n, 1);
    if k + 2 >= n {
      Multiple(1, n);
    } else {
      Between(j + 1, n, 0);
    }
  }

  lemma FirstRoundNoCarry(k: nat, n: nat, j: nat)
    requires 5 <= n && n % 2 == 1 && 0 < k && k + 2 < n && j == (k + 2 * n) / 2
    ensures Proper(j, n) <==> k != 1
  {
    if k == 1 {
      Multiple(1, n);
    } else {
      Between(j, n, 1);
      Between(j + 1, n, 1);
      Between(2 * j + 1, n, 2);
    }
  }

  lemma LaterRound(t: nat, i: nat, n: nat, bits: nat)
    requires 5 <= n && n % 2 == 1 && 2 <= i <= bits && Pow2(bits) <= t < 3 * n
    requires !(2 * n - 2 <= t <= 2 * n + 1)
    ensures Proper(t / Pow2(i), n)
  {
    Prefix(t, i, bits);
    hide Pow2;
    var j := t / Pow2(i);
    Between(j, n, 0);
    Between(j + 1, n, 0);
    Between(2 * j + 1, n, if 2 * j + 1 < n then 0 else 1);
  }

  /**
   The rounds for 0 < k < n never degenerate, except for k = n - 1, k = n - 2 and, if n + 1 is below
   2^bits, k = 1.
   */
  lemma LadderProper(k: nat, n: nat, bits: nat)
    requires 5 <= n && n % 2 == 1 && bits > 0 && Pow2(bits - 1) <= n < Pow2(bits) && 0 < k < n
    ensures AllProper(Climbed(k, n, bits), n, bits) <==> !Exceptional(k, n, bits)
  {
    var t := Climbed(k, n, bits);
    assert Pow2(bits) == 2 * Pow2(bits - 1);
    if bits >= 2 {
      assert Pow2(bits - 1) == 2 * Pow2(bits - 2);
    }
    FirstRound(k, n, bits);
    assert Pow2(1) == 2 * Pow2(0) == 2;
    if !Exceptional(k, n, bits) {
      forall i | 1 <= i <= bits
        ensures Proper(t / Pow2(i), n)
      {
        if i > 1 {
          LaterRound(t, i, n, bits);
        }
      }
    } else {
      assert !Proper(t / Pow2(1), n);
    }
  }

  /**
   Key generation and shared secrets: regularize the scalar, then climb. The result is k times the
   point; for a point of odd order n the additions are made for the points they meet exactly when k
   is not exceptional.
   */
  method ScalarTimesPoint<P(!new)>(g: Group<P>, point: P, k: array<Word>, order: array<Word>, words: nat, bits: nat)
      returns (result: P, ghost fine: bool)
    requires Laws(g) && words <= k.Length && words <= order.Length && k != order
    requires OrderBits(Value(order[..words]), bits, words)
    requires Value(k[..words]) < Value(order[..words])
    requires Mul(g, Value(order[..words]), point) == g.zero
    modifies k
    ensures result == Mul(g, old(Value(k[..words])), point)
    ensures var x, n := old(Value(k[..words])), Value(order[..words]);
            0 < x && 5 <= n && n % 2 == 1 && ExactOrder(g, n, point) ==> (fine <==> !Exceptional(x, n, bits))
  {
    hide Value, Pow2, BPow, Effective, Laws, Mul, ExactOrder, Exceptional, AllProper;
    ghost var x, m := Value(k[..words]), Value(order[..words]);
    var tmp := new Word[words](_ => 0);
    var carry := RegularizeK(k, k, tmp, order, words, bits);
    var p2 := [k, tmp];
    result, fine := EccPointMult(g, point, p2[if carry then 0 else 1], words, bits + 1, m);
    MulOrder(g, x, if carry then 1 else 2, m, point);
    if 0 < x && 5 <= m && m % 2 == 1 {
      LadderProper(x, m, bits);
    }
  }
}
