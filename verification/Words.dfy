/**
 Machine words and the integers that arrays of words stand for.

 The word width W is a compile-time constant of the library (8, 32 or 64 bits, chosen by
 uECC_WORD_SIZE). It stays symbolic here, so everything proved below holds for every width.
 A number is an array of words, least significant word first.
 */
module Words {
  import opened Arith

  type WordBits = w: nat | 0 < w witness 8
  const W: WordBits

  function Pow2(n: nat): (p: nat)
    ensures p > 0
  {
    if n == 0 then 1 else 2 * Pow2(n - 1)
  }

  const B: nat := Pow2(W)

  type Word = w: nat | w < B witness 0
  type Bit = b: nat | b < 2 witness 0

  /** B to the power n. */
  function BPow(n: nat): (p: nat)
    ensures p > 0
  {
    if n == 0 then 1 else BPow(n - 1) * B
  }

  /** The integer a little-endian word sequence denotes. */
  function Value(s: seq<Word>): nat {
    if |s| == 0 then 0 else Value(s[..|s| - 1]) + s[|s| - 1] * BPow(|s| - 1)
  }

  // ----- C operators on words -----

  function Shl(x: Word, k: nat): Word {
    x * Pow2(k) % B
  }

  function Shr(x: Word, k: nat): (r: Word)
    ensures r == x / Pow2(k)
  {
    ShrBound(x, Pow2(k));
    x / Pow2(k)
  }

  /** Bitwise or. */
  function Or(x: nat, y: nat): nat {
    if x == 0 then y else if y == 0 then x
    else 2 * Or(x / 2, y / 2) + (if x % 2 == 1 || y % 2 == 1 then 1 else 0)
  }

  predicate BitSet(v: nat, bit: nat) {
    v / Pow2(bit) % 2 == 1
  }

  // ----- powers of two -----

  lemma {:induction false} Pow2Add(a: nat, b: nat)
    ensures Pow2(a + b) == Pow2(a) * Pow2(b)
  {
    if a == 0 {
      return;
    }
    Pow2Next(a - 1);
    Pow2Next(a - 1 + b);
    hide *;
    Pow2Add(a - 1, b);
    TimesAssoc(2, Pow2(a - 1), Pow2(b));
  }

  lemma Pow2Mono(a: nat, b: nat)
    requires a <= b
    ensures Pow2(a) <= Pow2(b)
  {
    Pow2Add(a, b - a);
    assert Pow2(a) * Pow2(b - a) >= Pow2(a) by { MulMono(1, Pow2(b - a), Pow2(a)); }
  }

  lemma HalfBase()
    ensures B == 2 * Pow2(W - 1)
  {}

  // ----- or is addition when no bit is set twice -----

  lemma {:induction false} OrDisjoint(k: nat, lo: nat, hi: nat)
    requires lo < Pow2(k)
    ensures Or(lo, hi * Pow2(k)) == lo + hi * Pow2(k)
    decreases k
  {
    if k > 0 && lo > 0 && hi > 0 {
      var p := Pow2(k - 1);
      assert hi * Pow2(k) == 2 * (hi * p);
      assert (2 * (hi * p)) / 2 == hi * p && (2 * (hi * p)) % 2 == 0;
      OrDisjoint(k - 1, lo / 2, hi);
      assert Pow2(k) > 0;
    }
  }

  // ----- values of sequences -----

  lemma ValueStep(s: seq<Word>, i: nat)
    requires i < |s|
    ensures Value(s[..i + 1]) == Value(s[..i]) + s[i] * BPow(i)
  {
    assert s[..i + 1][..i] == s[..i];
  }

  lemma TopDigit(d: Word, p: nat)
    ensures p + d * p <= p * B
  {
    MulMono(d as nat + 1, B, p);
  }

  lemma {:induction false} ValueBound(s: seq<Word>)
    ensures Value(s) < BPow(|s|)
  {
    if |s| > 0 {
      var i := |s| - 1;
      ValueBound(s[..i]);
      TopDigit(s[i], BPow(i));
    }
  }

  lemma {:induction false} BPowAdd(a: nat, b: nat)
    ensures BPow(a + b) == BPow(a) * BPow(b)
  {
    if b == 0 {
      return;
    }
    BPowNext(b - 1);
    BPowNext(a + b - 1);
    hide *;
    BPowAdd(a, b - 1);
    assert a + (b - 1) == a + b - 1;
    TimesAssoc(BPow(a), BPow(b - 1), B);
  }

  lemma {:induction false} BPowIsPow2(n: nat)
    ensures BPow(n) == Pow2(n * W)
  {
    if n > 0 {
      BPowIsPow2(n - 1);
      Pow2Add((n - 1) * W, W);
      assert (n - 1) * W + W == n * W;
    }
  }

  lemma Distribute(p: nat, v: nat, d: nat, q: nat)
    ensures p * (v + d * q) == p * v + d * (p * q)
  {}

  /** A number splits into its low k words and the rest. */
  lemma {:induction false} ValueSplit(s: seq<Word>, k: nat)
    requires k <= |s|
    ensures Value(s) == Value(s[..k]) + BPow(k) * Value(s[k..])
    decreases |s| - k
  {
    if k == |s| {
      assert s[..k] == s;
    } else {
      var i := |s| - 1;
      ValueSplit(s[..i], k);
      assert s[..i][..k] == s[..k];
      assert s[k..][..i - k] == s[..i][k..];
      BPowAdd(k, i - k);
      Distribute(BPow(k), Value(s[k..][..i - k]), s[i], BPow(i - k));
    }
  }

  lemma ValueFirst(s: seq<Word>)
    requires |s| > 0
    ensures Value(s) == s[0] + B * Value(s[1..])
  {
    ValueSplit(s, 1);
    assert s[..1] == [s[0]];
    assert Value([s[0]]) == Value([]) + s[0] * BPow(0)
           by { ValueStep([s[0]], 0); assert [s[0]][..1] == [s[0]]; assert [s[0]][..0] == []; }
    assert BPow(1) == B;
  }

  lemma {:induction false} ValueZeros(s: seq<Word>)
    ensures Value(s) == 0 <==> forall i :: 0 <= i < |s| ==> s[i] == 0
  {
    if |s| > 0 {
      var i := |s| - 1;
      ValueZeros(s[..i]);
      if s[i] > 0 {
        MulMono(1, s[i], BPow(i));
      } else if Value(s[..i]) != 0 {
        var j :| 0 <= j < |s[..i]| && s[..i][j] != 0;
        assert s[j] != 0;
      }
    }
  }

  // ----- further facts used by several routines -----

  lemma {:induction false} OrCommutes(x: nat, y: nat)
    ensures Or(x, y) == Or(y, x)
  {
    if x > 0 && y > 0 {
      OrCommutes(x / 2, y / 2);
    }
  }

  lemma ValueLast(s: seq<Word>, d: Word)
    ensures Value(s + [d]) == Value(s) + d * BPow(|s|)
  {
    assert (s + [d])[..|s|] == s;
  }

  lemma BPowNext(k: nat)
    ensures BPow(k + 1) == BPow(k) * B
  {}

  lemma Pow2Next(n: nat)
    ensures Pow2(n + 1) == 2 * Pow2(n)
  {}

  lemma JoinHalves(s: seq<Word>, low: seq<Word>, high: seq<Word>)
    requires s == low + high
    ensures Value(s) == Value(low) + BPow(|low|) * Value(high)
  {
    ValueSplit(s, |low|);
    assert s[..|low|] == low && s[|low|..] == high;
  }

  lemma Parity(s: seq<Word>)
    requires |s| > 0
    ensures Value(s) % 2 == s[0] % 2
  {
    ValueFirst(s);
    HalfBase();
    hide *;
    EvenBase(s[0], Pow2(W - 1), Value(s[1..]));
  }
}
