/** The bitwise CRC-32 of the firmware transfer, and which errors it is certain to detect. */
module Crc {
  import opened Octet

  /** A 32-bit state. The wrapper keeps bit-level reasoning inside the small lemmas that need it. */
  datatype Word32 = Word32(bits: bv32)

  const ZERO := Word32(0)

  function Mix(x: bv32, y: bv32): bv32 {
    x ^ y
  }

  function Flip(x: bv32): bv32 {
    !x
  }

  function Half(x: bv32): bv32 {
    x >> 1
  }

  predicate Odd(x: bv32) {
    x & 1 == 1
  }

  /** One bit step of the division by p. */
  function Divide(c: bv32, p: bv32): bv32 {
    if Odd(c) then Mix(Half(c), p) else Half(c)
  }

  /** The step backwards: the top bit tells whether the polynomial was added. */
  function Undo(c: bv32, p: bv32): bv32 {
    if c & 0x8000_0000 != 0 then ((c ^ p) << 1) | 1 else c << 1
  }

  /** The polynomial of Ethernet and ZIP in reversed bit order. */
  function Poly(): bv32 {
    0xEDB8_8320
  }

  function Xor(x: Word32, y: Word32): Word32 {
    Word32(Mix(x.bits, y.bits))
  }

  function Not(x: Word32): Word32 {
    Word32(Flip(x.bits))
  }

  /** A byte as the low byte of a word. */
  function Widen(b: byte): bv32 {
    b as bv32
  }

  function Low(b: byte): Word32 {
    Word32(Widen(b))
  }

  function BitStep(c: Word32): Word32 {
    Word32(Divide(c.bits, Poly()))
  }

  function Steps(c: Word32, n: nat): Word32
    decreases n
  {
    if n == 0 then c else Steps(BitStep(c), n - 1)
  }

  function ByteStep(c: Word32, b: byte): Word32 {
    Steps(Xor(c, Low(b)), 8)
  }

  function Rounds(c: Word32, buf: seq<byte>): Word32
    decreases |buf|
  {
    if |buf| == 0 then c else Rounds(ByteStep(c, buf[0]), buf[1..])
  }

  /** The checksum with an initial value: complemented on the way in and on the way out. */
  function Crc32(crc: Word32, buf: seq<byte>): Word32 {
    Not(Rounds(Not(crc), buf))
  }

  /** Bit i of a word. */
  predicate Bit(x: bv32, i: nat)
    requires i < 32
  {
    (x >> (i as bv6)) & 1 == 1
  }

  // ----- the code -----

  method Crc32c(crc0: Word32, buf: array<byte>, len: nat) returns (crc: Word32)
    requires len <= buf.Length
    ensures crc == Crc32(crc0, buf[..len])
  {
    hide Xor, Not, Low, ByteStep, Rounds;
    ghost var s := buf[..len];
    crc := Not(crc0);
    var i := 0;
    assert s[0..] == s;
    while i < len
      invariant i <= len && Rounds(crc, s[i..]) == Rounds(Not(crc0), s)
    {
      RoundsNext(crc, s, i);
      crc := EightSteps(Xor(crc, Low(buf[i])));
      i := i + 1;
    }
    RoundsEnd(crc, s[len..]);
    crc := Not(crc);
  }

  /** The inner loop. */
  method EightSteps(c: Word32) returns (crc: Word32)
    ensures crc == Steps(c, 8)
  {
    hide BitStep;
    crc := c;
    for k := 0 to 8
      invariant Steps(crc, 8 - k) == Steps(c, 8)
    {
      crc := BitStep(crc);
    }
  }

  lemma RoundsNext(c: Word32, s: seq<byte>, i: nat)
    requires i < |s|
    ensures Rounds(c, s[i..]) == Rounds(Steps(Xor(c, Low(s[i])), 8), s[i + 1..])
  {
    hide Steps, Xor, Low;
    assert s[i..][1..] == s[i + 1..];
  }

  lemma RoundsEnd(c: Word32, s: seq<byte>)
    requires |s| == 0
    ensures Rounds(c, s) == c
  {}

  // ----- which checksum this is -----

  /** One, that is x^31, times x leaves the polynomial 0x04C11DB7 without x^32, in reversed bit order. */
  lemma PolynomialIs(i: nat)
    requires i < 32
    ensures Bit(BitStep(Word32(1)).bits, i) <==> Bit(0x04C1_1DB7, 31 - i)
  {
    var c := BitStep(Word32(1)).bits;
    assert c == 0xEDB8_8320;
    if i < 8 {
      LowBits(i);
    } else if i < 16 {
      SecondBits(i);
    } else if i < 24 {
      ThirdBits(i);
    } else {
      HighBits(i);
    }
  }

  lemma LowBits(i: nat)
    requires i < 8
    ensures Bit(0xEDB8_8320, i) <==> Bit(0x04C1_1DB7, 31 - i)
  {}

  lemma SecondBits(i: nat)
    requires 8 <= i < 16
    ensures Bit(0xEDB8_8320, i) <==> Bit(0x04C1_1DB7, 31 - i)
  {}

  lemma ThirdBits(i: nat)
    requires 16 <= i < 24
    ensures Bit(0xEDB8_8320, i) <==> Bit(0x04C1_1DB7, 31 - i)
  {}

  lemma HighBits(i: nat)
    requires 24 <= i < 32
    ensures Bit(0xEDB8_8320, i) <==> Bit(0x04C1_1DB7, 31 - i)
  {}

  /** The eight steps for one byte, written out. */
  function EightTimes(c: bv32): bv32 {
    var p := 0xEDB8_8320;
    Divide(Divide(Divide(Divide(Divide(Divide(Divide(Divide(c, p), p), p), p), p), p), p), p)
  }

  lemma EightIs(c: Word32)
    ensures Steps(c, 8) == Word32(EightTimes(c.bits))
  {
    hide Divide;
    var c1 := BitStep(c);
    var c2 := BitStep(c1);
    var c3 := BitStep(c2);
    var c4 := BitStep(c3);
    var c5 := BitStep(c4);
    var c6 := BitStep(c5);
    var c7 := BitStep(c6);
    assert Steps(c, 8) == Steps(c1, 7) == Steps(c2, 6) == Steps(c3, 5) == Steps(c4, 4);
    assert Steps(c4, 4) == Steps(c5, 3) == Steps(c6, 2) == Steps(c7, 1) == BitStep(c7);
  }

  lemma Digits123()
    ensures EightTimes(Mix(0xFFFF_FFFF, Widen(0x31))) == 0x7C23_1048
    ensures EightTimes(Mix(0x7C23_1048, Widen(0x32))) == 0xB0AC_BB32
    ensures EightTimes(Mix(0xB0AC_BB32, Widen(0x33))) == 0x77B7_9C2D
  {}

  lemma Digits456()
    ensures EightTimes(Mix(0x77B7_9C2D, Widen(0x34))) == 0x641C_1F5C
    ensures EightTimes(Mix(0x641C_1F5C, Widen(0x35))) == 0x340A_C5E3
    ensures EightTimes(Mix(0x340A_C5E3, Widen(0x36))) == 0xF68D_2C9E
  {}

  lemma Digits789()
    ensures EightTimes(Mix(0xF68D_2C9E, Widen(0x37))) == 0xAFFC_9660
    ensures EightTimes(Mix(0xAFFC_9660, Widen(0x38))) == 0x651F_2550
    ensures EightTimes(Mix(0x651F_2550, Widen(0x39))) == 0x340B_C6D9
  {}

  lemma Digit(c: Word32, s: seq<byte>, i: nat, d: Word32)
    requires i < |s| && EightTimes(Mix(c.bits, Widen(s[i]))) == d.bits
    ensures Rounds(c, s[i..]) == Rounds(d, s[i + 1..])
  {
    hide Mix, Widen, EightTimes, Steps, Rounds;
    EightIs(Xor(c, Low(s[i])));
    RoundsNext(c, s, i);
  }

  /** The check value of CRC-32: the checksum of the digits 1 to 9 is CBF43926. */
  lemma CheckValue()
    ensures Crc32(ZERO, [0x31, 0x32, 0x33, 0x34, 0x35, 0x36, 0x37, 0x38, 0x39]) == Word32(0xCBF4_3926)
  {
    hide Mix, Widen, EightTimes, Rounds, Flip;
    var s: seq<byte> := [0x31, 0x32, 0x33, 0x34, 0x35, 0x36, 0x37, 0x38, 0x39];
    Digits123();
    Digits456();
    Digits789();
    assert s[0..] == s;
    Ends();
    Digit(Word32(0xFFFF_FFFF), s, 0, Word32(0x7C23_1048));
    Digit(Word32(0x7C23_1048), s, 1, Word32(0xB0AC_BB32));
    Digit(Word32(0xB0AC_BB32), s, 2, Word32(0x77B7_9C2D));
    Digit(Word32(0x77B7_9C2D), s, 3, Word32(0x641C_1F5C));
    Digit(Word32(0x641C_1F5C), s, 4, Word32(0x340A_C5E3));
    Digit(Word32(0x340A_C5E3), s, 5, Word32(0xF68D_2C9E));
    Digit(Word32(0xF68D_2C9E), s, 6, Word32(0xAFFC_9660));
    Digit(Word32(0xAFFC_9660), s, 7, Word32(0x651F_2550));
    Digit(Word32(0x651F_2550), s, 8, Word32(0x340B_C6D9));
    RoundsEnd(Word32(0x340B_C6D9), s[9..]);
  }

  lemma Ends()
    ensures Flip(0) == 0xFFFF_FFFF && Flip(0x340B_C6D9) == 0xCBF4_3926
  {}

  // ----- facts about bits -----

  lemma UndoDivide(c: bv32)
    ensures Undo(Divide(c, Poly()), Poly()) == c
  {}

  lemma OddUndo(c: bv32)
    requires c & 0x8000_0000 != 0
    ensures Odd(Undo(c, 0xEDB8_8320))
    ensures Mix(Half(Undo(c, 0xEDB8_8320)), 0xEDB8_8320) == c
  {}

  lemma EvenUndo(c: bv32)
    requires c & 0x8000_0000 == 0
    ensures !Odd(Undo(c, 0xEDB8_8320)) && Half(Undo(c, 0xEDB8_8320)) == c
  {}

  lemma DivideUndo(c: bv32)
    ensures Divide(Undo(c, Poly()), Poly()) == c
  {
    hide Undo, Odd, Half, Mix;
    if c & 0x8000_0000 != 0 {
      OddUndo(c);
    } else {
      EvenUndo(c);
    }
  }

  /** The bit step is a bijection on 32-bit states: it has a left and a right inverse. */
  lemma BitStepBijective(c: Word32)
    ensures Word32(Undo(BitStep(c).bits, Poly())) == c
    ensures BitStep(Word32(Undo(c.bits, Poly()))) == c
  {
    hide Undo, Divide, Poly;
    UndoDivide(c.bits);
    DivideUndo(c.bits);
  }

  lemma OddMix(x: bv32, y: bv32)
    ensures Odd(Mix(x, y)) <==> Odd(x) != Odd(y)
  {}

  lemma HalfMix(x: bv32, y: bv32)
    ensures Half(Mix(x, y)) == Mix(Half(x), Half(y))
  {}

  lemma MixBoth(x: bv32, y: bv32, p: bv32)
    ensures Mix(Mix(x, p), Mix(y, p)) == Mix(x, y)
  {
    hide Mix;
    MixLeft(x, Mix(y, p), p);
    MixRight(x, y, p);
    MixTwice(Mix(x, y), p);
  }

  lemma MixTwice(x: bv32, p: bv32)
    ensures Mix(Mix(x, p), p) == x
  {}

  lemma MixLeft(x: bv32, y: bv32, p: bv32)
    ensures Mix(Mix(x, y), p) == Mix(Mix(x, p), y)
  {
    hide Mix;
    MixRight(x, y, p);
    MixCommutes(y, p);
    MixRight(x, p, y);
  }

  lemma MixRight(x: bv32, y: bv32, p: bv32)
    ensures Mix(Mix(x, y), p) == Mix(x, Mix(y, p))
  {}

  lemma DivideLinear(x: bv32, y: bv32, p: bv32)
    ensures Divide(Mix(x, y), p) == Mix(Divide(x, p), Divide(y, p))
  {
    hide Odd, Half, Mix;
    OddMix(x, y);
    HalfMix(x, y);
    MixBoth(Half(x), Half(y), p);
    MixLeft(Half(x), Half(y), p);
    MixRight(Half(x), Half(y), p);
  }

  /** The step is linear over exclusive or. */
  lemma BitStepLinear(x: Word32, y: Word32)
    ensures BitStep(Xor(x, y)) == Xor(BitStep(x), BitStep(y))
  {
    hide Divide, Mix, Poly;
    DivideLinear(x.bits, y.bits, Poly());
  }

  lemma XorZero(x: Word32)
    ensures Xor(x, ZERO) == x
  {}

  lemma MixOrder(x: bv32, y: bv32, z: bv32)
    ensures Mix(x, Mix(y, z)) == Mix(Mix(x, z), y)
  {
    hide Mix;
    MixCommutes(y, z);
    MixRight(x, z, y);
  }

  lemma XorOrder(x: Word32, y: Word32, z: Word32)
    ensures Xor(x, Xor(y, z)) == Xor(Xor(x, z), y)
  {
    hide Mix;
    MixOrder(x.bits, y.bits, z.bits);
  }

  lemma MixCommutes(x: bv32, y: bv32)
    ensures Mix(x, y) == Mix(y, x)
  {}

  lemma XorCommutes(x: Word32, y: Word32)
    ensures Xor(x, y) == Xor(y, x)
  {
    hide Mix;
    MixCommutes(x.bits, y.bits);
  }

  lemma MixCancel(x: bv32, y: bv32, z: bv32)
    requires Mix(x, z) == Mix(y, z)
    ensures x == y
  {}

  lemma XorCancel(x: Word32, y: Word32, z: Word32)
    requires Xor(x, z) == Xor(y, z)
    ensures x == y
  {
    hide Mix;
    MixCancel(x.bits, y.bits, z.bits);
  }

  lemma NotNot(x: Word32)
    ensures Not(Not(x)) == x
  {}

  // ----- checksums of parts -----

  lemma {:induction false} RoundsConcat(c: Word32, a: seq<byte>, b: seq<byte>)
    ensures Rounds(c, a + b) == Rounds(Rounds(c, a), b)
    decreases |a|
  {
    hide ByteStep;
    if |a| == 0 {
      assert a + b == b;
    } else {
      assert (a + b)[1..] == a[1..] + b;
      RoundsConcat(ByteStep(c, a[0]), a[1..], b);
    }
  }

  /** The checksum of one part is the initial value for the next. */
  lemma CrcOfParts(c: Word32, a: seq<byte>, b: seq<byte>)
    ensures Crc32(Crc32(c, a), b) == Crc32(c, a + b)
  {
    hide Rounds, Not, Xor;
    RoundsConcat(Not(c), a, b);
    NotNot(Rounds(Not(c), a));
  }

  // ----- different states stay different -----

  lemma {:induction false} StepsInjective(c: Word32, d: Word32, n: nat)
    requires Steps(c, n) == Steps(d, n)
    ensures c == d
    decreases n
  {
    hide BitStep, Undo;
    if n > 0 {
      StepsInjective(BitStep(c), BitStep(d), n - 1);
      BitStepBijective(c);
      BitStepBijective(d);
    }
  }

  lemma ByteStepInjective(c: Word32, d: Word32, b: byte)
    requires ByteStep(c, b) == ByteStep(d, b)
    ensures c == d
  {
    hide Steps, Xor, Low, Not;
    StepsInjective(Xor(c, Low(b)), Xor(d, Low(b)), 8);
    XorCancel(c, d, Low(b));
  }

  lemma {:induction false} RoundsInjective(c: Word32, d: Word32, buf: seq<byte>)
    requires Rounds(c, buf) == Rounds(d, buf)
    ensures c == d
    decreases |buf|
  {
    hide ByteStep;
    if |buf| > 0 {
      RoundsInjective(ByteStep(c, buf[0]), ByteStep(d, buf[0]), buf[1..]);
      ByteStepInjective(c, d, buf[0]);
    }
  }

  // ----- a burst of up to four bytes -----

  lemma {:induction false} StepsLinear(x: Word32, y: Word32, n: nat)
    ensures Steps(Xor(x, y), n) == Xor(Steps(x, n), Steps(y, n))
    decreases n
  {
    hide BitStep, Xor;
    if n > 0 {
      BitStepLinear(x, y);
      StepsLinear(BitStep(x), BitStep(y), n - 1);
    }
  }

  lemma {:induction false} StepsAdd(x: Word32, m: nat, n: nat)
    ensures Steps(x, m + n) == Steps(Steps(x, m), n)
    decreases m
  {
    hide BitStep;
    if m > 0 {
      StepsAdd(BitStep(x), m - 1, n);
    }
  }

  /** The word shifted up by a byte. */
  function Shift(v: bv32): bv32 {
    v << 8
  }

  function Up(v: Word32): Word32 {
    Word32(Shift(v.bits))
  }

  /** The top byte is zero. */
  predicate Short(v: Word32) {
    v.bits & 0xFF00_0000 == 0
  }

  /** The word shifted up by up to eight bits. */
  function Shifted(v: bv32, n: nat): bv32 {
    if n == 8 then v << 8 else if n == 7 then v << 7 else if n == 6 then v << 6 else if n == 5 then v << 5
    else if n == 4 then v << 4 else if n == 3 then v << 3 else if n == 2 then v << 2 else if n == 1 then v << 1 else v
  }

  lemma Even8(v: bv32)
    requires v & 0xFF00_0000 == 0
    ensures !Odd(Shifted(v, 8)) && Half(Shifted(v, 8)) == Shifted(v, 7)
  {}

  lemma Even7(v: bv32)
    requires v & 0xFF00_0000 == 0
    ensures !Odd(Shifted(v, 7)) && Half(Shifted(v, 7)) == Shifted(v, 6)
  {}

  lemma Even6(v: bv32)
    requires v & 0xFF00_0000 == 0
    ensures !Odd(Shifted(v, 6)) && Half(Shifted(v, 6)) == Shifted(v, 5)
  {}

  lemma Even5(v: bv32)
    requires v & 0xFF00_0000 == 0
    ensures !Odd(Shifted(v, 5)) && Half(Shifted(v, 5)) == Shifted(v, 4)
  {}

  lemma Even4(v: bv32)
    requires v & 0xFF00_0000 == 0
    ensures !Odd(Shifted(v, 4)) && Half(Shifted(v, 4)) == Shifted(v, 3)
  {}

  lemma Even3(v: bv32)
    requires v & 0xFF00_0000 == 0
    ensures !Odd(Shifted(v, 3)) && Half(Shifted(v, 3)) == Shifted(v, 2)
  {}

  lemma Even2(v: bv32)
    requires v & 0xFF00_0000 == 0
    ensures !Odd(Shifted(v, 2)) && Half(Shifted(v, 2)) == Shifted(v, 1)
  {}

  lemma Even1(v: bv32)
    requires v & 0xFF00_0000 == 0
    ensures !Odd(Shifted(v, 1)) && Half(Shifted(v, 1)) == Shifted(v, 0)
  {}

  lemma EvenShift(v: bv32, n: nat)
    requires v & 0xFF00_0000 == 0 && 1 <= n <= 8
    ensures !Odd(Shifted(v, n)) && Half(Shifted(v, n)) == Shifted(v, n - 1)
  {
    hide Odd, Half, Shifted;
    if n == 8 {
      Even8(v);
    } else if n == 7 {
      Even7(v);
    } else if n == 6 {
      Even6(v);
    } else if n == 5 {
      Even5(v);
    } else if n == 4 {
      Even4(v);
    } else if n == 3 {
      Even3(v);
    } else if n == 2 {
      Even2(v);
    } else {
      Even1(v);
    }
  }

  /** Zeros shifted in below only move down again. */
  lemma {:induction false} StepsShifted(v: bv32, n: nat)
    requires v & 0xFF00_0000 == 0 && n <= 8
    ensures Steps(Word32(Shifted(v, n)), n) == Word32(v)
    decreases n
  {
    if n > 0 {
      hide Shifted, Odd, Half, Poly;
      EvenShift(v, n);
      StepsShifted(v, n - 1);
    }
  }

  /** Bits above the low byte only move down while eight steps are made. */
  lemma StepsDown(v: Word32)
    requires Short(v)
    ensures Steps(Up(v), 8) == v
  {
    assert Shift(v.bits) == Shifted(v.bits, 8);
    hide Shift, Shifted, Steps;
    StepsShifted(v.bits, 8);
  }

  /** Up to four bytes as one word, the first byte lowest. */
  function Word(buf: seq<byte>): Word32
    requires |buf| <= 4
    decreases |buf|
  {
    if |buf| == 0 then ZERO else Xor(Up(Word(buf[1..])), Low(buf[0]))
  }

  /** v needs at most n bytes. */
  predicate Fits(v: bv32, n: nat) {
    && (n == 0 ==> v == 0) && (n == 1 ==> v & 0xFFFF_FF00 == 0)
    && (n == 2 ==> v & 0xFFFF_0000 == 0) && (n == 3 ==> v & 0xFF00_0000 == 0)
  }

  lemma LowFits(b: byte)
    ensures Widen(b) & 0xFFFF_FF00 == 0
  {}

  lemma Grow0(v: bv32, b: bv32)
    requires b & 0xFFFF_FF00 == 0 && v == 0
    ensures Mix(Shift(v), b) & 0xFFFF_FF00 == 0
  {}

  lemma Grow1(v: bv32, b: bv32)
    requires b & 0xFFFF_FF00 == 0 && v & 0xFFFF_FF00 == 0
    ensures Mix(Shift(v), b) & 0xFFFF_0000 == 0
  {}

  lemma Grow2(v: bv32, b: bv32)
    requires b & 0xFFFF_FF00 == 0 && v & 0xFFFF_0000 == 0
    ensures Mix(Shift(v), b) & 0xFF00_0000 == 0
  {}

  lemma FitsNext(v: bv32, b: byte, n: nat)
    requires Fits(v, n)
    ensures Fits(Mix(Shift(v), Widen(b)), n + 1)
  {
    hide Mix, Shift, Widen;
    LowFits(b);
    if n == 0 {
      Grow0(v, Widen(b));
    } else if n == 1 {
      Grow1(v, Widen(b));
    } else if n == 2 {
      Grow2(v, Widen(b));
    }
  }

  lemma FitsShort(v: Word32, n: nat)
    requires n <= 3 && Fits(v.bits, n)
    ensures Short(v)
  {
    if n == 0 {
      ZeroShort(v.bits);
    } else if n == 1 {
      OneShort(v.bits);
    } else if n == 2 {
      TwoShort(v.bits);
    }
  }

  lemma ZeroShort(v: bv32)
    ensures v == 0 ==> v & 0xFF00_0000 == 0
  {}

  lemma OneShort(v: bv32)
    ensures v & 0xFFFF_FF00 == 0 ==> v & 0xFF00_0000 == 0
  {}

  lemma TwoShort(v: bv32)
    ensures v & 0xFFFF_0000 == 0 ==> v & 0xFF00_0000 == 0
  {}

  lemma {:induction false} WordFits(buf: seq<byte>)
    requires |buf| <= 4
    ensures Fits(Word(buf).bits, |buf|)
    decreases |buf|
  {
    if |buf| > 0 {
      hide Fits, Mix, Shift, Widen;
      WordFits(buf[1..]);
      FitsNext(Word(buf[1..]).bits, buf[0], |buf| - 1);
    }
  }

  lemma WordSplits(v: Word32, w: Word32, b: byte, d: byte)
    requires Short(v) && Short(w) && Xor(Up(v), Low(b)) == Xor(Up(w), Low(d))
    ensures v == w && b == d
  {
    hide Mix, Shift, Widen;
    LowFits(b);
    LowFits(d);
    HighPart(v.bits, Widen(b));
    HighPart(w.bits, Widen(d));
    LowPart(v.bits, Widen(b));
    LowPart(w.bits, Widen(d));
    SameByte(b, d);
  }

  lemma HighPart(v: bv32, b: bv32)
    requires v & 0xFF00_0000 == 0 && b & 0xFFFF_FF00 == 0
    ensures Mix(Shift(v), b) >> 8 == v
  {}

  lemma LowPart(v: bv32, b: bv32)
    requires v & 0xFF00_0000 == 0 && b & 0xFFFF_FF00 == 0
    ensures Mix(Shift(v), b) & 0xFF == b
  {}

  lemma SameByte(b: byte, d: byte)
    ensures Widen(b) == Widen(d) ==> b == d
  {}

  lemma {:induction false} WordInjective(u: seq<byte>, v: seq<byte>)
    requires |u| == |v| <= 4 && Word(u) == Word(v)
    ensures u == v
    decreases |u|
  {
    hide Fits, Xor, Up, Low, Short;
    if |u| > 0 {
      WordFits(u[1..]);
      WordFits(v[1..]);
      FitsShort(Word(u[1..]), |u| - 1);
      FitsShort(Word(v[1..]), |u| - 1);
      WordSplits(Word(u[1..]), Word(v[1..]), u[0], v[0]);
      WordInjective(u[1..], v[1..]);
      assert u == [u[0]] + u[1..] && v == [v[0]] + v[1..];
    }
  }

  /** Feeding a few bytes is adding them as a word and stepping. */
  lemma {:induction false} RoundsWord(c: Word32, w: seq<byte>)
    requires |w| <= 4
    ensures Rounds(c, w) == Steps(Xor(c, Word(w)), 8 * |w|)
    decreases |w|
  {
    hide Steps, BitStep, Xor, Up, Low, Short, Fits, Not;
    if |w| == 0 {
      XorZero(c);
      NoSteps(c);
    } else {
      var v, b, rest := Word(w[1..]), Low(w[0]), 8 * (|w| - 1);
      RoundsWord(Steps(Xor(c, b), 8), w[1..]);
      WordFits(w[1..]);
      FitsShort(v, |w| - 1);
      StepsDown(v);
      StepsLinear(Xor(c, b), Up(v), 8);
      XorOrder(c, Up(v), b);
      StepsAdd(Xor(c, Word(w)), 8, rest);
      assert 8 + rest == 8 * |w|;
    }
  }

  lemma NoSteps(c: Word32)
    ensures Steps(c, 0) == c
  {}

  lemma WordRoundsInjective(c: Word32, u: seq<byte>, v: seq<byte>)
    requires |u| == |v| <= 4 && Rounds(c, u) == Rounds(c, v)
    ensures u == v
  {
    hide *;
    RoundsWord(c, u);
    RoundsWord(c, v);
    StepsInjective(Xor(c, Word(u)), Xor(c, Word(v)), 8 * |u|);
    XorCommutes(c, Word(u));
    XorCommutes(c, Word(v));
    XorCancel(Word(u), Word(v), c);
    WordInjective(u, v);
  }

  /** Inputs of the same length that differ only within four consecutive bytes always have different checksums. */
  lemma BurstDetected(c: Word32, a: seq<byte>, u: seq<byte>, v: seq<byte>, b: seq<byte>)
    requires |u| == |v| <= 4 && u != v
    ensures Crc32(c, a + u + b) != Crc32(c, a + v + b)
  {
    hide Rounds, Not, Xor;
    if Crc32(c, a + u + b) == Crc32(c, a + v + b) {
      NotNot(Rounds(Not(c), a + u + b));
      NotNot(Rounds(Not(c), a + v + b));
      RoundsConcat(Not(c), a + u, b);
      RoundsConcat(Not(c), a + v, b);
      RoundsInjective(Rounds(Not(c), a + u), Rounds(Not(c), a + v), b);
      RoundsConcat(Not(c), a, u);
      RoundsConcat(Not(c), a, v);
      WordRoundsInjective(Rounds(Not(c), a), u, v);
    }
  }

  /** In particular a change inside one byte is always detected. */
  lemma ByteChangeDetected(c: Word32, a: seq<byte>, x: byte, y: byte, b: seq<byte>)
    requires x != y
    ensures Crc32(c, a + [x] + b) != Crc32(c, a + [y] + b)
  {
    hide *;
    assert [x][0] != [y][0];
    BurstDetected(c, a, [x], [y], b);
  }
}
