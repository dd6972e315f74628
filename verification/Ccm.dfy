/**
 Counter with CBC-MAC: the functional definition of section 2 of RFC 3610 over an arbitrary block
 function, and the in-place routines of the library, proved to compute it.
 */
module Ccm {
  import opened Wrappers
  import opened Octet
  import opened Bytes

  type Block = b: seq<byte> | |b| == 16 witness Zeros(16)
  type Cipher = Block -> Block

  /**
   Tag and length-field sizes the routines can handle. The counter mask shifts an int by 8 * L
   bits, so L stays below 4; the record layer uses M = 8 and L = 3.
   */
  predicate Sizes(M: nat, L: nat) {
    4 <= M <= 16 && M % 2 == 0 && 2 <= L <= 3
  }

  lemma SizesMean(M: nat, L: nat)
    requires Sizes(M, L)
    ensures M <= 16 && 2 <= L <= 3
  {}

  // ----- RFC 3610, section 2 -----

  function Flags(la: nat, M: nat, L: nat): byte
    requires Sizes(M, L)
  {
    (if la > 0 then 64 else 0) + 8 * (((M - 2) / 2) as byte) + (L - 1) as byte
  }

  function FirstBlock(M: nat, L: nat, la: nat, lm: nat, nonce: Block): Block
    requires Sizes(M, L)
  {
    [Flags(la, M, L)] + nonce[..15 - L] + BigEndian(lm, L)
  }

  function CounterBlock(L: nat, nonce: Block, i: nat): Block
    requires 2 <= L <= 3
  {
    [(L - 1) as byte] + nonce[..15 - L] + BigEndian(i, L)
  }

  /** The additional data behind its length, coded in 2, 6 or 10 bytes. */
  function AadCode(a: seq<byte>): seq<byte> {
    if |a| == 0 then []
    else if |a| < 0xFF00 then BigEndian(|a|, 2) + a
    else if |a| <= 0xFFFF_FFFF then BigEndian(0xFFFE, 2) + BigEndian(|a|, 4) + a
    else BigEndian(0xFFFF, 2) + BigEndian(|a|, 8) + a
  }

  function Padded(d: seq<byte>): Block
    requires |d| <= 16
  {
    d + Zeros(16 - |d|)
  }

  /** CBC-MAC of data, zero-padded to whole blocks, from the state x. */
  function Cbc(E: Cipher, x: Block, data: seq<byte>): Block
    decreases |data|
  {
    if |data| == 0 then x
    else if |data| <= 16 then E(Xor(x, Padded(data)))
    else Cbc(E, E(Xor(x, data[..16])), data[16..])
  }

  function MacStart(E: Cipher, M: nat, L: nat, nonce: Block, lm: nat, aad: seq<byte>): Block
    requires Sizes(M, L)
  {
    Cbc(E, E(FirstBlock(M, L, |aad|, lm, nonce)), AadCode(aad))
  }

  function Mac(E: Cipher, M: nat, L: nat, nonce: Block, m: seq<byte>, aad: seq<byte>): Block
    requires Sizes(M, L)
  {
    Cbc(E, MacStart(E, M, L, nonce, |m|, aad), m)
  }

  /** Byte i of the key stream S_1, S_2, ... */
  function Stream(E: Cipher, L: nat, nonce: Block, i: nat): byte
    requires 2 <= L <= 3
  {
    E(CounterBlock(L, nonce, 1 + i / 16))[i % 16]
  }

  function Ctr(E: Cipher, L: nat, nonce: Block, m: seq<byte>): (c: seq<byte>)
    requires 2 <= L <= 3
    ensures |c| == |m|
  {
    seq(|m|, i requires 0 <= i < |m| => m[i] ^ Stream(E, L, nonce, i))
  }

  /** The tag T of plaintext m, encrypted with S_0. */
  function Tag(E: Cipher, M: nat, L: nat, nonce: Block, m: seq<byte>, aad: seq<byte>): (t: seq<byte>)
    requires Sizes(M, L)
    ensures |t| == M
  {
    Xor(Mac(E, M, L, nonce, m, aad)[..M], E(CounterBlock(L, nonce, 0)))
  }

  function Seal(E: Cipher, M: nat, L: nat, nonce: Block, m: seq<byte>, aad: seq<byte>): (c: seq<byte>)
    requires Sizes(M, L)
    ensures |c| == |m| + M
  {
    Ctr(E, L, nonce, m) + Tag(E, M, L, nonce, m, aad)
  }

  /** Decryption and tag check: the plaintext, or nothing. */
  function Open(E: Cipher, M: nat, L: nat, nonce: Block, c: seq<byte>, aad: seq<byte>): Option<seq<byte>>
    requires Sizes(M, L)
  {
    if |c| < M then None
    else
      var m := Ctr(E, L, nonce, c[..|c| - M]);
      if Xor(c[|c| - M..], E(CounterBlock(L, nonce, 0))) == Mac(E, M, L, nonce, m, aad)[..M] then Some(m) else None
  }

  lemma CtrTwice(E: Cipher, L: nat, nonce: Block, m: seq<byte>)
    requires 2 <= L <= 3
    ensures Ctr(E, L, nonce, Ctr(E, L, nonce, m)) == m
  {
    forall i | 0 <= i < |m|
      ensures Ctr(E, L, nonce, Ctr(E, L, nonce, m))[i] == m[i]
    {
      XorByte(m[i], Stream(E, L, nonce, i));
    }
  }

  /** Opening accepts exactly the sealed messages: c opens to m if and only if c is m sealed. */
  lemma OpenIffSealed(E: Cipher, M: nat, L: nat, nonce: Block, c: seq<byte>, m: seq<byte>, aad: seq<byte>)
    requires Sizes(M, L)
    ensures Open(E, M, L, nonce, c, aad) == Some(m) <==> c == Seal(E, M, L, nonce, m, aad)
  {
    var s0 := E(CounterBlock(L, nonce, 0));
    var t := Mac(E, M, L, nonce, m, aad)[..M];
    CtrTwice(E, L, nonce, m);
    XorTwice(t, s0);
    if c == Seal(E, M, L, nonce, m, aad) {
      assert c[..|c| - M] == Ctr(E, L, nonce, m) && c[|c| - M..] == Xor(t, s0);
    }
    if Open(E, M, L, nonce, c, aad) == Some(m) {
      CtrTwice(E, L, nonce, c[..|c| - M]);
      XorTwice(c[|c| - M..], s0);
      assert c == c[..|c| - M] + c[|c| - M..];
    }
  }

  // ----- what the tag depends on -----

  /** Data cut into blocks, the last one filled up with zeros. */
  function Chopped(d: seq<byte>): (bs: seq<Block>)
    ensures |bs| == (|d| + 15) / 16
  {
    if |d| == 0 then []
    else if |d| <= 16 then [Padded(d)]
    else [d[..16]] + Chopped(d[16..])
  }

  /** B_0, B_1, ...: the first block, the coded additional data and the message. */
  function MacInput(M: nat, L: nat, nonce: Block, m: seq<byte>, aad: seq<byte>): seq<Block>
    requires Sizes(M, L)
  {
    [FirstBlock(M, L, |aad|, |m|, nonce)] + Chopped(AadCode(aad)) + Chopped(m)
  }

  /** X_(i+1) = E(X_i xor B_i). */
  function Chain(E: Cipher, x: Block, bs: seq<Block>): Block
    decreases |bs|
  {
    if |bs| == 0 then x else Chain(E, E(Xor(x, bs[0])), bs[1..])
  }

  lemma {:induction false} ChainParts(E: Cipher, x: Block, a: seq<Block>, b: seq<Block>)
    ensures Chain(E, x, a + b) == Chain(E, Chain(E, x, a), b)
    decreases |a|
  {
    if |a| == 0 {
      assert a + b == b;
    } else {
      ChainParts(E, E(Xor(x, a[0])), a[1..], b);
      assert (a + b)[1..] == a[1..] + b;
    }
  }

  lemma {:induction false} CbcIsChain(E: Cipher, x: Block, data: seq<byte>)
    ensures Cbc(E, x, data) == Chain(E, x, Chopped(data))
    decreases |data|
  {
    if |data| > 16 {
      CbcIsChain(E, E(Xor(x, data[..16])), data[16..]);
      assert Chopped(data)[1..] == Chopped(data[16..]);
    } else if |data| > 0 {
      assert [Padded(data)][1..] == [];
    }
  }

  /** The MAC is the chain over all blocks from the zero block on (section 2.2 of RFC 3610). */
  lemma MacIsChain(E: Cipher, M: nat, L: nat, nonce: Block, m: seq<byte>, aad: seq<byte>)
    requires Sizes(M, L)
    ensures Mac(E, M, L, nonce, m, aad) == Chain(E, Zeros(16), MacInput(M, L, nonce, m, aad))
  {
    var b0 := FirstBlock(M, L, |aad|, |m|, nonce);
    var code := AadCode(aad);
    CbcIsChain(E, E(b0), code);
    CbcIsChain(E, Cbc(E, E(b0), code), m);
    hide Cbc, Chopped, FirstBlock, AadCode;
    ChainParts(E, Zeros(16), [b0] + Chopped(code), Chopped(m));
    ChainParts(E, Zeros(16), [b0], Chopped(code));
    ZeroXor(b0);
    assert [b0][1..] == [];
  }

  lemma ZeroXor(b: Block)
    ensures Xor(Zeros(16), b) == b
  {
    forall i | 0 <= i < 16
      ensures 0 ^ b[i] == b[i]
    {
      ZeroXorByte(b[i]);
    }
  }

  lemma ZeroXorByte(b: byte)
    ensures 0 ^ b == b
  {}

  lemma {:induction false} ChoppedInjective(c: seq<byte>, d: seq<byte>)
    requires |c| == |d| && Chopped(c) == Chopped(d)
    ensures c == d
    decreases |c|
  {
    if |c| > 16 {
      assert Chopped(c)[1..] == Chopped(c[16..]) && Chopped(d)[1..] == Chopped(d[16..]);
      ChoppedInjective(c[16..], d[16..]);
      assert Chopped(c)[0] == c[..16] && Chopped(d)[0] == d[..16];
      assert c == c[..16] + c[16..] && d == d[..16] + d[16..];
    } else if |c| > 0 {
      assert Padded(c)[..|c|] == c && Padded(d)[..|d|] == d;
    }
  }

  lemma ChoppedStart(d: seq<byte>, n: nat)
    requires n <= |d| && n <= 16 && |d| > 0
    ensures Chopped(d)[0][..n] == d[..n]
  {}

  // ----- reading B_0 back -----

  lemma FlagFields(a: byte, m: byte, l: byte)
    requires a < 2 && m < 8 && l < 8
    ensures var f := 64 * a + 8 * m + l; f & 7 == l && (f >> 3) & 7 == m && f >> 6 == a
  {}

  /** The flags give back the sizes and whether there is additional data. */
  lemma FlagsInjective(la: nat, M: nat, L: nat, la': nat, M': nat, L': nat)
    requires Sizes(M, L) && Sizes(M', L') && Flags(la, M, L) == Flags(la', M', L')
    ensures M == M' && L == L' && (la > 0 <==> la' > 0)
  {
    FlagsAre(la, M, L);
    FlagsAre(la', M', L');
    ByteAsInt((M - 2) / 2);
    ByteAsInt((M' - 2) / 2);
    ByteAsInt(L - 1);
    ByteAsInt(L' - 1);
    hide Flags;
  }

  lemma FlagsAre(la: nat, M: nat, L: nat)
    requires Sizes(M, L)
    ensures var f := Flags(la, M, L);
            && f & 7 == (L - 1) as byte && (f >> 3) & 7 == ((M - 2) / 2) as byte
            && f >> 6 == (if la > 0 then 1 else 0)
  {
    FlagFields(if la > 0 then 1 else 0, ((M - 2) / 2) as byte, (L - 1) as byte);
  }

  /** B_0 reads back to its fields: bit 6, bits 5 to 3 and bits 2 to 0 of the first byte, the nonce, the length. */
  lemma FirstBlockFields(M: nat, L: nat, la: nat, lm: nat, nonce: Block)
    requires Sizes(M, L) && lm < Pow256(L)
    ensures var b := FirstBlock(M, L, la, lm, nonce);
            && (b[0] & 64 != 0 <==> la > 0) && b[0] & 128 == 0
            && 2 * (((b[0] >> 3) & 7) as nat) + 2 == M && (b[0] & 7) as nat + 1 == L
            && b[1..16 - L] == nonce[..15 - L] && FromBigEndian(b[16 - L..]) == lm
  {
    hide BigEndian, Pow256;
    var b := FirstBlock(M, L, la, lm, nonce);
    FlagsAre(la, M, L);
    ByteAsInt((M - 2) / 2);
    ByteAsInt(L - 1);
    TopBits(b[0]);
    assert b[16 - L..] == BigEndian(lm, L);
    ReadBack(lm, L);
    SmallRemainder(lm, Pow256(L));
    hide Flags;
  }

  lemma TopBits(f: byte)
    ensures f >> 6 == 0 ==> f & 64 == 0 && f & 128 == 0
    ensures f >> 6 == 1 ==> f & 64 != 0 && f & 128 == 0
  {}

  lemma SmallRemainder(x: nat, m: nat)
    requires x < m
    ensures x % m == x
  {}

  /** A_i reads back to its fields. */
  lemma CounterBlockFields(L: nat, nonce: Block, i: nat)
    requires 2 <= L <= 3 && i < Pow256(L)
    ensures var c := CounterBlock(L, nonce, i);
            && c[0] as nat == L - 1 && c[1..16 - L] == nonce[..15 - L] && FromBigEndian(c[16 - L..]) == i
  {
    hide BigEndian, Pow256;
    var c := CounterBlock(L, nonce, i);
    ByteAsInt(L - 1);
    assert c[16 - L..] == BigEndian(i, L);
    ReadBack(i, L);
    SmallRemainder(i, Pow256(L));
  }

  lemma FirstBlockInjective(M: nat, L: nat, la: nat, lm: nat, nonce: Block, M': nat, L': nat, la': nat, lm': nat,
                            nonce': Block)
    requires Sizes(M, L) && Sizes(M', L') && lm < Pow256(L) && lm' < Pow256(L')
    requires FirstBlock(M, L, la, lm, nonce) == FirstBlock(M', L', la', lm', nonce')
    ensures M == M' && L == L' && lm == lm' && nonce[..15 - L] == nonce'[..15 - L] && (la > 0 <==> la' > 0)
  {
    hide Flags, BigEndian, Pow256;
    var b, b' := FirstBlock(M, L, la, lm, nonce), FirstBlock(M', L', la', lm', nonce');
    assert b[0] == Flags(la, M, L) && b'[0] == Flags(la', M', L');
    FlagsInjective(la, M, L, la', M', L');
    assert b[1..16 - L] == nonce[..15 - L] && b'[1..16 - L] == nonce'[..15 - L];
    assert b[16 - L..] == BigEndian(lm, L) && b'[16 - L..] == BigEndian(lm', L);
    BigEndianInjective(lm, lm', L);
  }

  // ----- reading the additional data back -----

  /** The number in the first two bytes of the coded additional data. */
  function Leader(la: nat): (v: nat)
    ensures v <= 0xFFFF
  {
    if la < 0xFF00 then la else if la <= 0xFFFF_FFFF then 0xFFFE else 0xFFFF
  }

  lemma LeaderIs(a: seq<byte>)
    requires |a| > 0
    ensures |AadCode(a)| >= 2 + |a| && AadCode(a)[..2] == BigEndian(Leader(|a|), 2)
    ensures |a| >= 0xFF00 && |a| <= 0xFFFF_FFFF ==> AadCode(a)[2..6] == BigEndian(|a|, 4)
    ensures |a| > 0xFFFF_FFFF ==> AadCode(a)[2..10] == BigEndian(|a|, 8)
    ensures AadCode(a)[|AadCode(a)| - |a|..] == a
    ensures |AadCode(a)| == |a| + (if |a| < 0xFF00 then 2 else if |a| <= 0xFFFF_FFFF then 6 else 10)
  {
    hide BigEndian;
  }

  lemma Powers()
    ensures Pow256(2) == 0x1_0000 && Pow256(3) == 0x100_0000 && Pow256(4) == 0x1_0000_0000
    ensures Pow256(8) == 0x1_0000_0000_0000_0000
  {
    assert Pow256(1) == 256 && Pow256(2) == 256 * Pow256(1) && Pow256(3) == 256 * Pow256(2);
    assert Pow256(4) == 256 * Pow256(3) && Pow256(5) == 256 * Pow256(4) && Pow256(6) == 256 * Pow256(5);
    assert Pow256(7) == 256 * Pow256(6) && Pow256(8) == 256 * Pow256(7);
  }

  /** Coded and padded additional data is different for different data, whatever the lengths. */
  lemma AadInjective(a: seq<byte>, b: seq<byte>)
    requires |a| < 0x1_0000_0000_0000_0000 && |b| < 0x1_0000_0000_0000_0000
    requires |a| > 0 && |b| > 0 && Chopped(AadCode(a)) == Chopped(AadCode(b))
    ensures a == b
  {
    hide BigEndian, Pow256, AadCode, Chopped;
    var c, d := AadCode(a), AadCode(b);
    LeaderIs(a);
    LeaderIs(b);
    Powers();
    ChoppedStart(c, 2);
    ChoppedStart(d, 2);
    BigEndianInjective(Leader(|a|), Leader(|b|), 2);
    if |a| > 0xFFFF_FFFF {
      ChoppedStart(c, 10);
      ChoppedStart(d, 10);
      assert c[2..10] == c[..10][2..] && d[2..10] == d[..10][2..];
      BigEndianInjective(|a|, |b|, 8);
    } else if |a| >= 0xFF00 {
      ChoppedStart(c, 6);
      ChoppedStart(d, 6);
      assert c[2..6] == c[..6][2..] && d[2..6] == d[..6][2..];
      BigEndianInjective(|a|, |b|, 4);
    }
    ChoppedInjective(c, d);
  }

  /** The input of the MAC determines the sizes, the nonce, the message and the additional data. */
  lemma MacInputInjective(M: nat, L: nat, nonce: Block, m: seq<byte>, a: seq<byte>,
                          M': nat, L': nat, nonce': Block, m': seq<byte>, a': seq<byte>)
    requires Sizes(M, L) && Sizes(M', L') && |m| < Pow256(L) && |m'| < Pow256(L')
    requires |a| < 0x1_0000_0000_0000_0000 && |a'| < 0x1_0000_0000_0000_0000
    requires MacInput(M, L, nonce, m, a) == MacInput(M', L', nonce', m', a')
    ensures M == M' && L == L' && nonce[..15 - L] == nonce'[..15 - L] && m == m' && a == a'
  {
    hide FirstBlock, Chopped, AadCode, Pow256;
    var x, x' := MacInput(M, L, nonce, m, a), MacInput(M', L', nonce', m', a');
    var c, c' := Chopped(AadCode(a)), Chopped(AadCode(a'));
    assert x[0] == FirstBlock(M, L, |a|, |m|, nonce) && x'[0] == FirstBlock(M', L', |a'|, |m'|, nonce');
    FirstBlockInjective(M, L, |a|, |m|, nonce, M', L', |a'|, |m'|, nonce');
    assert |Chopped(m)| == |Chopped(m')| && |c| == |c'|;
    assert x[1 + |c|..] == Chopped(m) && x'[1 + |c|..] == Chopped(m');
    assert x[1..1 + |c|] == c && x'[1..1 + |c|] == c';
    ChoppedInjective(m, m');
    if |a| > 0 {
      AadInjective(a, a');
    }
  }

  // ----- differences within one block reach the tag -----

  ghost predicate Injective(E: Cipher) {
    forall x: Block, y: Block :: E(x) == E(y) ==> x == y
  }

  lemma XorInjective(x: Block, y: Block, b: Block)
    requires Xor(x, b) == Xor(y, b)
    ensures x == y
  {
    XorTwice(x, b);
    XorTwice(y, b);
  }

  lemma {:induction false} StatesStayApart(E: Cipher, x: Block, y: Block, bs: seq<Block>)
    requires Injective(E) && x != y
    ensures Chain(E, x, bs) != Chain(E, y, bs)
    decreases |bs|
  {
    if |bs| > 0 {
      if Xor(x, bs[0]) == Xor(y, bs[0]) {
        XorInjective(x, y, bs[0]);
      }
      StatesStayApart(E, E(Xor(x, bs[0])), E(Xor(y, bs[0])), bs[1..]);
    }
  }

  /** Two inputs that differ in one block end in different states. */
  lemma OneBlockMatters(E: Cipher, x: Block, bs: seq<Block>, cs: seq<Block>, k: nat)
    requires Injective(E) && |bs| == |cs| && k < |bs| && bs[k] != cs[k]
    requires forall i :: 0 <= i < |bs| && i != k ==> bs[i] == cs[i]
    ensures Chain(E, x, bs) != Chain(E, x, cs)
  {
    hide Chain, Injective;
    var y := Chain(E, x, bs[..k]);
    assert bs == bs[..k] + ([bs[k]] + bs[k + 1..]) && cs == bs[..k] + ([cs[k]] + bs[k + 1..]);
    ChainParts(E, x, bs[..k], [bs[k]] + bs[k + 1..]);
    ChainParts(E, x, bs[..k], [cs[k]] + bs[k + 1..]);
    ChainParts(E, y, [bs[k]], bs[k + 1..]);
    ChainParts(E, y, [cs[k]], bs[k + 1..]);
    OneStep(E, y, bs[k], cs[k]);
    StatesStayApart(E, Chain(E, y, [bs[k]]), Chain(E, y, [cs[k]]), bs[k + 1..]);
  }

  lemma OneStep(E: Cipher, x: Block, b: Block, c: Block)
    requires Injective(E) && b != c
    ensures Chain(E, x, [b]) != Chain(E, x, [c])
  {
    assert [b][1..] == [] && [c][1..] == [];
    XorCommutes(x, b);
    XorCommutes(x, c);
    if Xor(x, b) == Xor(x, c) {
      XorInjective(b, c, x);
    }
  }

  /** Strings of one length that differ only within block k are cut into blocks that differ there and only there. */
  lemma {:induction false} ChoppedDiffers(c: seq<byte>, d: seq<byte>, k: nat)
    requires |c| == |d| && c != d && forall p :: 0 <= p < |c| && c[p] != d[p] ==> p / 16 == k
    ensures k < |Chopped(c)| == |Chopped(d)| && Chopped(c)[k] != Chopped(d)[k]
    ensures forall i :: 0 <= i < |Chopped(c)| && i != k ==> Chopped(c)[i] == Chopped(d)[i]
  {
    var p :| 0 <= p < |c| && c[p] != d[p];
    forall i | 0 <= i < |Chopped(c)|
      ensures Chopped(c)[i] == Chopped(d)[i] <==> i != k
    {
      BlockAt(c, i);
      BlockAt(d, i);
      if i == k {
        assert Chopped(c)[i][p % 16] == c[p] && Chopped(d)[i][p % 16] == d[p];
      } else {
        forall q | 0 <= q < 16
          ensures Chopped(c)[i][q] == Chopped(d)[i][q]
        {
          assert (16 * i + q) / 16 == i;
        }
      }
    }
  }

  lemma {:induction false} BlockAt(d: seq<byte>, i: nat)
    requires i < |Chopped(d)|
    ensures forall q :: 0 <= q < 16 ==> Chopped(d)[i][q] == if 16 * i + q < |d| then d[16 * i + q] else 0
    decreases |d|
  {
    if |d| > 16 && i > 0 {
      BlockAt(d[16..], i - 1);
    }
  }

  /** Two messages that differ within one block have different MAC states. */
  lemma MessageMatters(E: Cipher, M: nat, L: nat, nonce: Block, m: seq<byte>, m': seq<byte>, a: seq<byte>, k: nat)
    requires Sizes(M, L) && Injective(E) && |m| == |m'| && m != m'
    requires forall p :: 0 <= p < |m| && m[p] != m'[p] ==> p / 16 == k
    ensures Mac(E, M, L, nonce, m, a) != Mac(E, M, L, nonce, m', a)
  {
    hide *;
    MacIsChain(E, M, L, nonce, m, a);
    MacIsChain(E, M, L, nonce, m', a);
    ChoppedDiffers(m, m', k);
    MessageInput(M, L, nonce, m, m', a, k);
    OneBlockMatters(E, Zeros(16), MacInput(M, L, nonce, m, a), MacInput(M, L, nonce, m', a),
                    1 + |Chopped(AadCode(a))| + k);
  }

  lemma MessageInput(M: nat, L: nat, nonce: Block, m: seq<byte>, m': seq<byte>, a: seq<byte>, k: nat)
    requires Sizes(M, L) && |m| == |m'| && k < |Chopped(m)| && Chopped(m)[k] != Chopped(m')[k]
    requires forall i :: 0 <= i < |Chopped(m)| && i != k ==> Chopped(m)[i] == Chopped(m')[i]
    ensures var x, x' := MacInput(M, L, nonce, m, a), MacInput(M, L, nonce, m', a);
            var n := 1 + |Chopped(AadCode(a))| + k;
            |x| == |x'| && n < |x| && x[n] != x'[n] && forall i :: 0 <= i < |x| && i != n ==> x[i] == x'[i]
  {
    hide Chopped, AadCode, FirstBlock;
  }

  /**
   One message under two additional data of one length that differ within one block of the coded data: the MAC states
   are different. Up to 14 bytes are in one block with their length.
   */
  lemma AadMatters(E: Cipher, M: nat, L: nat, nonce: Block, m: seq<byte>, a: seq<byte>, b: seq<byte>, k: nat)
    requires Sizes(M, L) && Injective(E) && |a| == |b| && a != b
    requires var n := if |a| < 0xFF00 then 2 else if |a| <= 0xFFFF_FFFF then 6 else 10;
             forall p :: 0 <= p < |a| && a[p] != b[p] ==> (n + p) / 16 == k
    ensures Mac(E, M, L, nonce, m, a) != Mac(E, M, L, nonce, m, b)
  {
    CodedDiffers(a, b, k);
    hide *;
    MacIsChain(E, M, L, nonce, m, a);
    MacIsChain(E, M, L, nonce, m, b);
    ChoppedDiffers(AadCode(a), AadCode(b), k);
    AadInput(M, L, nonce, m, a, b, k);
    OneBlockMatters(E, Zeros(16), MacInput(M, L, nonce, m, a), MacInput(M, L, nonce, m, b), 1 + k);
  }

  lemma CodedDiffers(a: seq<byte>, b: seq<byte>, k: nat)
    requires |a| == |b| && a != b
    requires var n := if |a| < 0xFF00 then 2 else if |a| <= 0xFFFF_FFFF then 6 else 10;
             forall p :: 0 <= p < |a| && a[p] != b[p] ==> (n + p) / 16 == k
    ensures var c, d := AadCode(a), AadCode(b);
            |c| == |d| && c != d && forall p :: 0 <= p < |c| && c[p] != d[p] ==> p / 16 == k
  {
    hide AadCode, BigEndian;
    LeaderIs(a);
    LeaderIs(b);
    var c, d := AadCode(a), AadCode(b);
    var n := |c| - |a|;
    assert c[n..] == a && d[n..] == b;
    assert c[..n] == c[..2] + c[2..n] && d[..n] == d[..2] + d[2..n];
    forall p | 0 <= p < |c|
      ensures c[p] == d[p] || p / 16 == k
    {
      if p < n {
        assert c[p] == c[..n][p] && d[p] == d[..n][p];
      } else {
        assert c[p] == c[n..][p - n] && d[p] == d[n..][p - n];
      }
    }
  }

  lemma AadInput(M: nat, L: nat, nonce: Block, m: seq<byte>, a: seq<byte>, b: seq<byte>, k: nat)
    requires Sizes(M, L) && |a| == |b|
    requires var c, d := Chopped(AadCode(a)), Chopped(AadCode(b));
             k < |c| == |d| && c[k] != d[k] && forall i :: 0 <= i < |c| && i != k ==> c[i] == d[i]
    ensures var x, x' := MacInput(M, L, nonce, m, a), MacInput(M, L, nonce, m, b);
            |x| == |x'| && 1 + k < |x| && x[1 + k] != x'[1 + k]
              && forall i :: 0 <= i < |x| && i != 1 + k ==> x[i] == x'[i]
  {
    hide Chopped, AadCode, FirstBlock;
  }

  /** With a tag of a whole block, what was sealed under one additional data does not open under another one. */
  lemma WrongAadFails(E: Cipher, L: nat, nonce: Block, m: seq<byte>, a: seq<byte>, b: seq<byte>)
    requires Sizes(16, L) && Injective(E) && 0 < |a| == |b| <= 14 && a != b
    ensures Open(E, 16, L, nonce, Seal(E, 16, L, nonce, m, a), b) == None
  {
    hide Injective;
    AadMatters(E, 16, L, nonce, m, a, b, 0);
    hide Mac;
    var c := Seal(E, 16, L, nonce, m, a);
    var s0 := E(CounterBlock(L, nonce, 0));
    CtrTwice(E, L, nonce, m);
    XorTwice(Mac(E, 16, L, nonce, m, a), s0);
    assert c[..|c| - 16] == Ctr(E, L, nonce, m) && c[|c| - 16..] == Tag(E, 16, L, nonce, m, a);
    assert Mac(E, 16, L, nonce, m, a)[..16] == Mac(E, 16, L, nonce, m, a);
    assert Mac(E, 16, L, nonce, m, b)[..16] == Mac(E, 16, L, nonce, m, b);
  }

  // ----- the key stream -----

  /** Counter blocks differ whenever nonce or counter do, and none of them is a first block. */
  lemma BlocksApart(L: nat, nonce: Block, i: nat, nonce': Block, j: nat, M: nat, la: nat, lm: nat)
    requires 2 <= L <= 3 && i < Pow256(L) && j < Pow256(L) && Sizes(M, L)
    ensures CounterBlock(L, nonce, i) == CounterBlock(L, nonce', j) ==> nonce[..15 - L] == nonce'[..15 - L] && i == j
    ensures CounterBlock(L, nonce, i) != FirstBlock(M, L, la, lm, nonce')
  {
    hide BigEndian, Pow256, Flags;
    var c, d := CounterBlock(L, nonce, i), CounterBlock(L, nonce', j);
    assert c[1..16 - L] == nonce[..15 - L] && d[1..16 - L] == nonce'[..15 - L];
    assert c[16 - L..] == BigEndian(i, L) && d[16 - L..] == BigEndian(j, L);
    if c == d {
      BigEndianInjective(i, j, L);
    }
    FlagsAre(la, M, L);
    CounterFlag((L - 1) as byte);
    ByteAsInt((M - 2) / 2);
  }

  lemma CounterFlag(l: byte)
    requires l < 8
    ensures (l >> 3) & 7 == 0
  {}

  /** Block k of the key stream that the bytes from 16 * k on are combined with. */
  function StreamBlock(E: Cipher, L: nat, nonce: Block, k: nat): Block
    requires 2 <= L <= 3
  {
    seq(16, q requires 0 <= q < 16 => Stream(E, L, nonce, 16 * k + q))
  }

  /** No two blocks of a message are combined with the same key stream block, and none with that of the tag. */
  lemma StreamFresh(E: Cipher, L: nat, nonce: Block, k: nat, j: nat)
    requires 2 <= L <= 3 && Injective(E) && k != j && 1 + k < Pow256(L) && 1 + j < Pow256(L)
    ensures StreamBlock(E, L, nonce, k) != StreamBlock(E, L, nonce, j)
    ensures StreamBlock(E, L, nonce, k) != E(CounterBlock(L, nonce, 0))
  {
    hide Pow256, CounterBlock;
    BlocksApart(L, nonce, 1 + k, nonce, 1 + j, 4, 0, 0);
    BlocksApart(L, nonce, 1 + k, nonce, 0, 4, 0, 0);
    StreamBlockIs(E, L, nonce, k);
    StreamBlockIs(E, L, nonce, j);
  }

  lemma StreamBlockIs(E: Cipher, L: nat, nonce: Block, k: nat)
    requires 2 <= L <= 3
    ensures StreamBlock(E, L, nonce, k) == E(CounterBlock(L, nonce, 1 + k))
  {
    hide CounterBlock;
    forall q | 0 <= q < 16
      ensures StreamBlock(E, L, nonce, k)[q] == E(CounterBlock(L, nonce, 1 + k))[q]
    {
      var p := 16 * k + q;
      assert p / 16 == k && p % 16 == q;
      assert Stream(E, L, nonce, p) == E(CounterBlock(L, nonce, 1 + p / 16))[p % 16];
    }
  }

  // ----- the routines, in place on 16-byte buffers -----

  lemma FlagBits(a: byte, m: byte, l: byte)
    requires a < 2 && m < 8 && l < 8
    ensures (a << 6) | (m << 3) | l == 64 * a + 8 * m + l
  {}

  /** The last L bytes of a block hold v, least significant byte last. */
  method PutLength(result: array<byte>, L: nat, v: nat)
    requires L <= 16 && result.Length == 16
    modifies result
    ensures result[..16 - L] == old(result[..16 - L]) && result[16 - L..] == BigEndian(v, L)
  {
    hide ByteAt, Pow256;
    var n := v;
    WholeNumber(v);
    var i := 0;
    while i < L
      invariant 0 <= i <= L && n == v / Pow256(i)
      invariant result[..16 - L] == old(result[..16 - L])
      invariant forall j :: 16 - i <= j < 16 ==> result[j] == ByteAt(v, 15 - j)
    {
      LowByte(v, i);
      result[15 - i] := (n % 256) as byte;
      NextByte(v, i);
      n := n / 256;
      i := i + 1;
    }
  }

  lemma WholeNumber(v: nat)
    ensures v / Pow256(0) == v
  {}

  lemma LowByte(v: nat, i: nat)
    ensures ByteAt(v, i) == (v / Pow256(i) % 256) as byte
  {}

  method Block0(M: nat, L: nat, la: nat, lm: nat, nonce: Block, result: array<byte>)
    requires Sizes(M, L) && result.Length == 16
    modifies result
    ensures result[..] == FirstBlock(M, L, la, lm, nonce)
  {
    var a: byte := if la > 0 then 1 else 0;
    var m, l: byte := ((M - 2) / 2) as byte, (L - 1) as byte;
    FlagBits(a, m, l);
    result[0] := (a << 6) | (m << 3) | l;
    assert result[0] == Flags(la, M, L);
    CopyNonce(result, nonce, L);
    PutLength(result, L, lm);
    assert result[..] == result[..16 - L] + result[16 - L..];
  }

  method CopyNonce(result: array<byte>, nonce: Block, L: nat)
    requires 2 <= L <= 3 && result.Length == 16
    modifies result
    ensures result[..16 - L] == [old(result[0])] + nonce[..15 - L]
  {
    forall i | 1 <= i < 16 - L {
      result[i] := nonce[i - 1];
    }
  }

  /** dst = E(src); src and dst may be the same buffer. */
  method EncryptBlock(E: Cipher, src: array<byte>, dst: array<byte>)
    requires src.Length == 16 && dst.Length == 16
    modifies dst
    ensures dst[..] == E(old(src[..]))
  {
    var out := E(src[..]);
    forall i | 0 <= i < 16 {
      dst[i] := out[i];
    }
  }

  /** x[lo..lo + |y|] ^= y. */
  method Memxor(x: array<byte>, lo: nat, y: seq<byte>)
    requires lo + |y| <= x.Length
    modifies x
    ensures x[..] == Splice(old(x[..]), lo, Xor(old(x[..])[lo..lo + |y|], y))
  {
    ghost var x0 := x[..];
    var i := 0;
    while i < |y|
      invariant 0 <= i <= |y|
      invariant forall j :: lo <= j < lo + i ==> x[j] == x0[j] ^ y[j - lo]
      invariant forall j :: lo + i <= j < x.Length ==> x[j] == x0[j]
      invariant forall j :: 0 <= j < lo ==> x[j] == x0[j]
    {
      x[lo + i] := x[lo + i] ^ y[i];
      i := i + 1;
    }
  }

  lemma CbcStep(E: Cipher, x: Block, data: seq<byte>)
    requires |data| > 0
    ensures |data| <= 16 ==> Cbc(E, x, data) == E(Xor(x, Padded(data)))
    ensures |data| >= 16 ==> Cbc(E, x, data) == Cbc(E, E(Xor(x, data[..16])), data[16..])
  {
    if |data| == 16 {
      assert data[..16] == data == Padded(data);
    }
  }

  lemma XorCommutes(a: seq<byte>, b: seq<byte>)
    requires |a| == |b|
    ensures Xor(a, b) == Xor(b, a)
  {
    forall i | 0 <= i < |a|
      ensures Xor(a, b)[i] == Xor(b, a)[i]
    {
      ByteCommutes(a[i], b[i]);
    }
  }

  lemma ByteCommutes(a: byte, b: byte)
    ensures a ^ b == b ^ a
  {}

  /** X = E(X ^ data), with data of at most one block: the buffer B holds the block in between. */
  method Absorb(E: Cipher, data: seq<byte>, B: array<byte>, X: array<byte>)
    requires 0 < |data| <= 16 && B.Length == 16 && X.Length == 16 && B != X
    modifies B, X
    ensures X[..] == Cbc(E, old(X[..]), data)
  {
    ghost var x := X[..];
    forall i | 0 <= i < 16 {
      B[i] := if i < |data| then data[i] else 0;
    }
    assert B[..] == Padded(data);
    assert B[..][0..16] == B[..];
    Memxor(B, 0, X[..]);
    XorCommutes(x, Padded(data));
    assert B[..] == Xor(x, Padded(data));
    EncryptBlock(E, B, X);
    CbcStep(E, x, data);
  }

  lemma CbcFirst(E: Cipher, x: Block, first: seq<byte>, rest: seq<byte>)
    requires 0 < |first| <= 16 && (|first| < 16 ==> rest == [])
    ensures Cbc(E, x, first + rest) == Cbc(E, Cbc(E, x, first), rest)
  {
    if rest == [] {
      assert first + rest == first;
    } else {
      assert (first + rest)[..16] == first && (first + rest)[16..] == rest;
      assert first[..16] == first && first[16..] == [];
      CbcStep(E, x, first);
    }
  }

  function LengthCode(la: nat): (s: seq<byte>)
    requires la > 0
    ensures |s| in {2, 6, 10}
  {
    if la < 0xFF00 then BigEndian(la, 2)
    else if la <= 0xFFFF_FFFF then BigEndian(0xFFFE, 2) + BigEndian(la, 4)
    else BigEndian(0xFFFF, 2) + BigEndian(la, 8)
  }

  /** X is the CBC-MAC of the first block held in B followed by the additional data. */
  method AddAuthData(E: Cipher, msg: seq<byte>, B: array<byte>, X: array<byte>)
    requires B.Length == 16 && X.Length == 16 && B != X
    modifies B, X
    ensures X[..] == Cbc(E, E(old(B[..])), AadCode(msg))
  {
    EncryptBlock(E, B, X);
    ghost var x := X[..];
    if |msg| == 0 {
      return;
    }
    var code := LengthCode(|msg|);
    assert AadCode(msg) == code + msg;
    var i := if 16 - |code| < |msg| then 16 - |code| else |msg|;
    CbcFirst(E, x, code + msg[..i], msg[i..]);
    assert code + msg == code + msg[..i] + msg[i..];
    Absorb(E, code + msg[..i], B, X);
    var rest := msg[i..];
    while |rest| > 16
      invariant Cbc(E, X[..], rest) == Cbc(E, x, AadCode(msg))
      decreases |rest|
    {
      CbcFirst(E, X[..], rest[..16], rest[16..]);
      assert rest == rest[..16] + rest[16..];
      Absorb(E, rest[..16], B, X);
      rest := rest[16..];
    }
    if |rest| > 0 {
      Absorb(E, rest, B, X);
    }
  }

  /** The counter macro: clear the last L bytes, then store the masked counter until it runs out. */
  method SetCounter(A: array<byte>, L: nat, cnt: nat)
    requires 2 <= L <= 3 && A.Length == 16
    modifies A
    ensures A[..16 - L] == old(A[..16 - L]) && A[16 - L..] == BigEndian(cnt, L)
  {
    hide ByteAt, Pow256;
    forall i | 16 - L <= i < 16 {
      A[i] := 0;
    }
    var C := cnt % Pow256(L);
    ghost var c0 := C;
    WholeNumber(c0);
    var i := 15;
    while C != 0 && i > L
      invariant L <= i <= 15 && C == c0 / Pow256(15 - i) && (i < 16 - L ==> C == 0)
      invariant A[..16 - L] == old(A[..16 - L])
      invariant forall j :: 16 - L <= j <= i ==> A[j] == 0
      invariant forall j :: i < j < 16 && 16 - L <= j ==> A[j] == ByteAt(c0, 15 - j)
    {
      LowByte(c0, 15 - i);
      OrZeroByte(A[i], (C % 256) as byte);
      A[i] := A[i] | (C % 256) as byte;
      NextByte(c0, 15 - i);
      if 16 - i >= L {
        MaskedRunsOut(cnt, L, 16 - i);
      }
      C := C / 256;
      i := i - 1;
    }
    forall j | 16 - L <= j < 16
      ensures A[j] == ByteAt(cnt, 15 - j)
    {
      MaskKeeps(cnt, L, 15 - j);
      if j <= i {
        RunOut(c0, 15 - i, 15 - j);
        ZeroByte(c0, 15 - j);
      }
    }
  }

  lemma MaskedRunsOut(v: nat, L: nat, p: nat)
    requires L <= p
    ensures v % Pow256(L) / Pow256(p) == 0
  {
    Below(v % Pow256(L), Pow256(L));
    RunOut(v % Pow256(L), L, p);
  }

  lemma Below(x: nat, p: nat)
    requires x < p
    ensures x / p == 0
  {}

  lemma ZeroByte(v: nat, p: nat)
    requires v / Pow256(p) == 0
    ensures ByteAt(v, p) == 0
  {}

  lemma OrZeroByte(a: byte, b: byte)
    ensures a == 0 ==> a | b == b
  {}

  // ----- whole messages -----

  predicate Template(A: seq<byte>, L: nat, nonce: Block)
    requires 2 <= L <= 3
  {
    |A| == 16 && A[..16 - L] == [(L - 1) as byte] + nonce[..15 - L]
  }

  predicate Scratch(A: array<byte>, B: array<byte>, X: array<byte>, S: array<byte>, msg: array<byte>) {
    && A != B && A != X && A != S && B != X && B != S && X != S
    && msg != A && msg != B && msg != X && msg != S
    && A.Length == 16 && B.Length == 16 && X.Length == 16 && S.Length == 16
  }

  /** S = E(A_counter). */
  method KeyBlock(E: Cipher, L: nat, ghost nonce: Block, counter: nat, A: array<byte>, S: array<byte>)
    requires 2 <= L <= 3 && A.Length == 16 && S.Length == 16 && A != S && Template(A[..], L, nonce)
    modifies A, S
    ensures Template(A[..], L, nonce)
    ensures S[..] == E(CounterBlock(L, nonce, counter))
  {
    SetCounter(A, L, counter);
    assert A[..] == A[..16 - L] + A[16 - L..] == CounterBlock(L, nonce, counter);
    EncryptBlock(E, A, S);
  }

  lemma XorPrefix(a: seq<byte>, b: seq<byte>)
    requires |a| <= |b|
    ensures Xor(a, b[..|a|]) == Xor(a, b)
  {}

  /** msg[at..at + len] ^= S_counter. */
  method Encrypt(E: Cipher, L: nat, ghost nonce: Block, counter: nat, msg: array<byte>, at: nat, len: nat,
                 A: array<byte>, S: array<byte>)
    requires 2 <= L <= 3 && len <= 16 && at + len <= msg.Length
    requires A.Length == 16 && S.Length == 16 && A != S && A != msg && S != msg
    requires Template(A[..], L, nonce)
    modifies msg, A, S
    ensures Template(A[..], L, nonce)
    ensures msg[..] == Splice(old(msg[..]), at, Xor(old(msg[..])[at..at + len], E(CounterBlock(L, nonce, counter))))
  {
    hide *;
    KeyBlock(E, L, nonce, counter, A, S);
    XorPrefix(msg[..][at..at + len], S[..]);
    Memxor(msg, at, S[..len]);
  }

  /** X = E(X ^ chunk): B must already hold the rest of X behind a partial chunk. */
  method MacChunk(E: Cipher, msg: array<byte>, at: nat, len: nat, B: array<byte>, X: array<byte>)
    requires 0 < len <= 16 && at + len <= msg.Length
    requires B.Length == 16 && X.Length == 16 && B != X && B != msg && X != msg
    requires B[len..] == X[len..]
    modifies B, X
    ensures X[..] == Cbc(E, old(X[..]), msg[..][at..at + len])
  {
    ghost var x, d := X[..], msg[..][at..at + len];
    var i := 0;
    while i < len
      invariant 0 <= i <= len && X[..] == x
      invariant B[len..] == x[len..]
      invariant forall j :: 0 <= j < i ==> B[j] == x[j] ^ d[j]
    {
      assert msg[at + i] == d[i];
      B[i] := X[i] ^ msg[at + i];
      i := i + 1;
    }
    PadXor(x, d, B[..]);
    CbcStep(E, x, d);
    EncryptBlock(E, B, X);
  }

  lemma PadXor(x: Block, d: seq<byte>, b: seq<byte>)
    requires 0 < |d| <= 16 && |b| == 16
    requires forall j :: 0 <= j < |d| ==> b[j] == x[j] ^ d[j]
    requires b[|d|..] == x[|d|..]
    ensures b == Xor(x, Padded(d))
  {
    forall j | 0 <= j < 16
      ensures b[j] == Xor(x, Padded(d))[j]
    {
      if j >= |d| {
        assert b[j] == b[|d|..][j - |d|] == x[|d|..][j - |d|] == x[j];
        XorZero(x[j]);
      }
    }
  }

  lemma XorZero(a: byte)
    ensures a ^ 0 == a
  {}

  lemma CtrChunk(E: Cipher, L: nat, nonce: Block, m: seq<byte>, p: nat, len: nat)
    requires 2 <= L <= 3 && p % 16 == 0 && len <= 16 && p + len <= |m|
    ensures Ctr(E, L, nonce, m)[p..p + len] == Xor(m[p..p + len], E(CounterBlock(L, nonce, 1 + p / 16)))
  {
    forall t | p <= t < p + len
      ensures Stream(E, L, nonce, t) == E(CounterBlock(L, nonce, 1 + p / 16))[t - p]
    {
      assert t / 16 == p / 16 && t % 16 == t - p;
    }
  }

  /** The block template and the MAC state over the additional data. */
  method Begin(E: Cipher, M: nat, L: nat, nonce: Block, lm: nat, aad: seq<byte>)
      returns (A: array<byte>, B: array<byte>, X: array<byte>, S: array<byte>)
    requires Sizes(M, L)
    ensures fresh(A) && fresh(B) && fresh(X) && fresh(S)
    ensures A != B && A != X && A != S && B != X && B != S && X != S
    ensures A.Length == 16 && B.Length == 16 && X.Length == 16 && S.Length == 16
    ensures Template(A[..], L, nonce) && X[..] == MacStart(E, M, L, nonce, lm, aad)
  {
    A, B := new byte[16](_ => 0), new byte[16](_ => 0);
    S, X := new byte[16](_ => 0), new byte[16](_ => 0);
    Block0(M, L, |aad|, lm, nonce, B);
    AddAuthData(E, aad, B, X);
    A[0] := (L - 1) as byte;
    CopyNonce(A, nonce, L);
  }

  /** MAC of one chunk of at most a block, padding a partial one. */
  method MacPadded(E: Cipher, msg: array<byte>, at: nat, len: nat, B: array<byte>, X: array<byte>,
                   ghost rest: seq<byte>)
    requires 0 < len <= 16 && at + len <= msg.Length && (len < 16 ==> rest == [])
    requires B.Length == 16 && X.Length == 16 && B != X && B != msg && X != msg
    modifies B, X
    ensures X[..] == Cbc(E, old(X[..]), msg[..][at..at + len])
    ensures Cbc(E, X[..], rest) == Cbc(E, old(X[..]), msg[..][at..at + len] + rest)
  {
    hide Cbc;
    ghost var x, d := X[..], msg[..][at..at + len];
    forall i | len <= i < 16 {
      B[i] := X[i];
    }
    assert X[..] == x && msg[..][at..at + len] == d;
    CbcFirst(E, x, d, rest);
    MacChunk(E, msg, at, len, B, X);
  }

  /** One chunk of at most a block during encryption: MAC the plaintext, then encrypt it. */
  method SealChunk(E: Cipher, L: nat, nonce: Block, counter: nat, msg: array<byte>, ghost msg0: seq<byte>, lo: nat,
                   ghost m: seq<byte>, p: nat, len: nat, A: array<byte>, B: array<byte>, X: array<byte>, S: array<byte>)
    requires 2 <= L <= 3 && 0 < len <= 16 && p % 16 == 0 && counter == 1 + p / 16
    requires p + len <= |m| && lo + |m| <= |msg0| == msg.Length && (len < 16 ==> p + len == |m|)
    requires Scratch(A, B, X, S, msg)
    requires Template(A[..], L, nonce)
    requires msg[..] == Splice(msg0, lo, Ctr(E, L, nonce, m)[..p] + m[p..])
    modifies msg, A, B, X, S
    ensures Template(A[..], L, nonce)
    ensures msg[..] == Splice(msg0, lo, Ctr(E, L, nonce, m)[..p + len] + m[p + len..])
    ensures Cbc(E, X[..], m[p + len..]) == Cbc(E, old(X[..]), m[p..])
  {
    hide Ctr, Cbc, Stream, CounterBlock, Splice;
    ghost var c := Ctr(E, L, nonce, m);
    SpliceNext(msg0, lo, c, m, p, len);
    CtrChunk(E, L, nonce, m, p, len);
    assert m[p..] == m[p..p + len] + m[p + len..];
    MacPadded(E, msg, lo + p, len, B, X, m[p + len..]);
    Encrypt(E, L, nonce, counter, msg, lo + p, len, A, S);
  }

  /** The block loop of encryption and its remainder. */
  method SealBody(E: Cipher, L: nat, nonce: Block, msg: array<byte>, lo: nat, lm: nat,
                  A: array<byte>, B: array<byte>, X: array<byte>, S: array<byte>)
    requires 2 <= L <= 3 && lo + lm <= msg.Length && Scratch(A, B, X, S, msg)
    requires Template(A[..], L, nonce)
    modifies msg, A, B, X, S
    ensures Template(A[..], L, nonce)
    ensures var m := old(msg[..])[lo..lo + lm];
            && msg[..] == Splice(old(msg[..]), lo, Ctr(E, L, nonce, m))
            && X[..] == Cbc(E, old(X[..]), m)
  {
    hide Ctr, Cbc, Stream, CounterBlock, Template, Splice;
    ghost var msg0, x := msg[..], X[..];
    ghost var m := msg0[lo..lo + lm];
    ghost var c := Ctr(E, L, nonce, m);
    SpliceSame(msg0, lo, lm);
    assert c[..0] + m[0..] == m && m[0..] == m;
    var p, counter := 0, 1;
    while lm - p >= 16
      invariant 0 <= p <= lm && p % 16 == 0 && counter == 1 + p / 16
      invariant Template(A[..], L, nonce)
      invariant msg[..] == Splice(msg0, lo, c[..p] + m[p..])
      invariant Cbc(E, X[..], m[p..]) == Cbc(E, x, m)
    {
      SealChunk(E, L, nonce, counter, msg, msg0, lo, m, p, 16, A, B, X, S);
      p, counter := p + 16, counter + 1;
    }
    if p < lm {
      SealChunk(E, L, nonce, counter, msg, msg0, lo, m, p, lm - p, A, B, X, S);
      p := lm;
    }
    assert c[..lm] + m[lm..] == c;
    CbcEnd(E, X[..], m[lm..]);
  }

  lemma CbcEnd(E: Cipher, x: Block, rest: seq<byte>)
    requires |rest| == 0
    ensures Cbc(E, x, rest) == x
  {}

  /** Authenticates and encrypts msg[lo..lo + lm] in place and puts the tag behind it. */
  method EncryptMessage(E: Cipher, M: nat, L: nat, nonce: Block, msg: array<byte>, lo: nat, lm: nat, aad: seq<byte>)
      returns (r: nat)
    requires Sizes(M, L) && lo + lm + M <= msg.Length
    modifies msg
    ensures r == lm + M
    ensures |Seal(E, M, L, nonce, old(msg[..])[lo..lo + lm], aad)| == r
    ensures msg[..] == Splice(old(msg[..]), lo, Seal(E, M, L, nonce, old(msg[..])[lo..lo + lm], aad))
  {
    hide Ctr, Cbc, Stream, CounterBlock, MacStart, Template, Splice;
    ghost var m := msg[..][lo..lo + lm];
    ghost var t := Mac(E, M, L, nonce, m, aad);
    var A, B, X, S := Begin(E, M, L, nonce, lm, aad);
    SealBody(E, L, nonce, msg, lo, lm, A, B, X, S);
    SpliceTwo(old(msg[..]), lo, Ctr(E, L, nonce, m), Tag(E, M, L, nonce, m, aad));
    KeyBlock(E, L, nonce, 0, A, S);
    PutTag(M, msg, lo + lm, X, S);
    r := lm + M;
  }

  /** msg[at..at + M] = X ^ S. */
  method PutTag(M: nat, msg: array<byte>, at: nat, X: array<byte>, S: array<byte>)
    requires M <= 16 && at + M <= msg.Length && X.Length == 16 && S.Length == 16 && msg != X && msg != S
    modifies msg
    ensures msg[..] == Splice(old(msg[..]), at, Xor(X[..][..M], S[..]))
  {
    hide Splice, Written;
    ghost var msg0, t := msg[..], Xor(X[..][..M], S[..]);
    assert forall j :: 0 <= j < M ==> t[j] == X[j] ^ S[j];
    var i := 0;
    WrittenEnds(msg0, at, t);
    while i < M
      invariant 0 <= i <= M && msg[..] == Written(msg0, at, t, i)
    {
      WrittenNext(msg0, at, t, i);
      msg[at + i] := X[i] ^ S[i];
      i := i + 1;
    }
  }

  /** s with the first i bytes of t written at a position. */
  ghost function Written(s: seq<byte>, at: nat, t: seq<byte>, i: nat): (r: seq<byte>)
    requires at + |t| <= |s| && i <= |t|
    ensures |r| == |s|
  {
    Splice(s, at, t[..i])
  }

  lemma WrittenNext(s: seq<byte>, at: nat, t: seq<byte>, i: nat)
    requires at + |t| <= |s| && i < |t|
    ensures Written(s, at, t, i + 1) == Written(s, at, t, i)[at + i := t[i]]
  {}

  lemma WrittenEnds(s: seq<byte>, at: nat, t: seq<byte>)
    requires at + |t| <= |s|
    ensures Written(s, at, t, 0) == s && Written(s, at, t, |t|) == Splice(s, at, t)
  {
    assert t[..|t|] == t;
  }

  // ----- decryption -----

  /** One chunk during decryption: decrypt it, then MAC the plaintext. */
  method OpenChunk(E: Cipher, L: nat, nonce: Block, counter: nat, msg: array<byte>, ghost msg0: seq<byte>, lo: nat,
                   ghost c: seq<byte>, p: nat, len: nat, A: array<byte>, B: array<byte>, X: array<byte>, S: array<byte>)
    requires 2 <= L <= 3 && 0 < len <= 16 && p % 16 == 0 && counter == 1 + p / 16
    requires p + len <= |c| && lo + |c| <= |msg0| == msg.Length && (len < 16 ==> p + len == |c|)
    requires Scratch(A, B, X, S, msg)
    requires Template(A[..], L, nonce)
    requires msg[..] == Splice(msg0, lo, Ctr(E, L, nonce, c)[..p] + c[p..])
    modifies msg, A, B, X, S
    ensures Template(A[..], L, nonce)
    ensures msg[..] == Splice(msg0, lo, Ctr(E, L, nonce, c)[..p + len] + c[p + len..])
    ensures Cbc(E, X[..], Ctr(E, L, nonce, c)[p + len..]) == Cbc(E, old(X[..]), Ctr(E, L, nonce, c)[p..])
  {
    hide Ctr, Cbc, Stream, CounterBlock, Splice;
    ghost var m := Ctr(E, L, nonce, c);
    SpliceNext(msg0, lo, m, c, p, len);
    CtrChunk(E, L, nonce, c, p, len);
    ghost var was, x := msg[..], X[..];
    Encrypt(E, L, nonce, counter, msg, lo + p, len, A, S);
    SpliceParts(was, lo + p, m[p..p + len]);
    assert m[p..] == m[p..p + len] + m[p + len..];
    assert X[..] == x;
    MacPadded(E, msg, lo + p, len, B, X, m[p + len..]);
  }

  method OpenBody(E: Cipher, L: nat, nonce: Block, msg: array<byte>, lo: nat, lm: nat,
                  A: array<byte>, B: array<byte>, X: array<byte>, S: array<byte>)
    requires 2 <= L <= 3 && lo + lm <= msg.Length && Scratch(A, B, X, S, msg)
    requires Template(A[..], L, nonce)
    modifies msg, A, B, X, S
    ensures Template(A[..], L, nonce)
    ensures var m := Ctr(E, L, nonce, old(msg[..])[lo..lo + lm]);
            && msg[..] == Splice(old(msg[..]), lo, m)
            && X[..] == Cbc(E, old(X[..]), m)
  {
    hide Ctr, Cbc, Stream, CounterBlock, Template, Splice;
    ghost var msg0, x := msg[..], X[..];
    ghost var c := msg0[lo..lo + lm];
    ghost var m := Ctr(E, L, nonce, c);
    SpliceSame(msg0, lo, lm);
    assert m[..0] + c[0..] == c && m[0..] == m;
    var p, counter := 0, 1;
    while lm - p >= 16
      invariant 0 <= p <= lm && p % 16 == 0 && counter == 1 + p / 16
      invariant Template(A[..], L, nonce)
      invariant msg[..] == Splice(msg0, lo, m[..p] + c[p..])
      invariant Cbc(E, X[..], m[p..]) == Cbc(E, x, m)
    {
      OpenChunk(E, L, nonce, counter, msg, msg0, lo, c, p, 16, A, B, X, S);
      p, counter := p + 16, counter + 1;
    }
    if p < lm {
      OpenChunk(E, L, nonce, counter, msg, msg0, lo, c, p, lm - p, A, B, X, S);
      p := lm;
    }
    assert m[..lm] + c[lm..] == m;
    CbcEnd(E, X[..], m[lm..]);
  }

  lemma OpenSplit(E: Cipher, M: nat, L: nat, nonce: Block, c: seq<byte>, tag: seq<byte>, aad: seq<byte>)
    requires Sizes(M, L) && |tag| == M
    ensures Open(E, M, L, nonce, c + tag, aad)
         == if Xor(tag, E(CounterBlock(L, nonce, 0))) == Mac(E, M, L, nonce, Ctr(E, L, nonce, c), aad)[..M]
            then Some(Ctr(E, L, nonce, c)) else None
  {
    assert (c + tag)[..|c + tag| - M] == c && (c + tag)[|c + tag| - M..] == tag;
  }

  /**
   Decrypts msg[lo..lo + lm] in place. The result is the plaintext length, with the plaintext in
   the buffer, exactly when the message opens; otherwise it is -1.
   */
  method DecryptMessage(E: Cipher, M: nat, L: nat, nonce: Block, msg: array<byte>, lo: nat, lm: nat, aad: seq<byte>)
      returns (r: int)
    requires Sizes(M, L) && lo + lm <= msg.Length
    modifies msg
    ensures match Open(E, M, L, nonce, old(msg[..])[lo..lo + lm], aad)
            case Some(m) => r == |m| == lm - M && msg[..][lo..lo + r] == m
            case None => r == -1
    ensures msg[..][..lo] == old(msg[..])[..lo] && msg[..][lo + lm..] == old(msg[..])[lo + lm..]
  {
    if lm < M {
      return -1;
    }
    r := DecryptLong(E, M, L, nonce, msg, lo, lm, aad);
  }

  /** The same for messages that are long enough to hold a tag. */
  method DecryptLong(E: Cipher, M: nat, L: nat, nonce: Block, msg: array<byte>, lo: nat, lm: nat, aad: seq<byte>)
      returns (r: int)
    requires Sizes(M, L) && M <= lm && lo + lm <= msg.Length
    modifies msg
    ensures match Open(E, M, L, nonce, old(msg[..])[lo..lo + lm], aad)
            case Some(m) => r == |m| == lm - M && msg[..][lo..lo + r] == m
            case None => r == -1
    ensures msg[..][..lo] == old(msg[..])[..lo] && msg[..][lo + lm..] == old(msg[..])[lo + lm..]
  {
    hide *;
    var n := lm - M;
    ghost var msg0 := msg[..];
    ghost var c, tag := msg0[lo..lo + n], msg0[lo + n..lo + n + M];
    assert msg0[lo..lo + lm] == c + tag;
    OpenSplit(E, M, L, nonce, c, tag, aad);
    var valid := DecryptTagged(E, M, L, nonce, msg, lo, n, aad);
    SizesMean(M, L);
    Opened(msg0, msg[..], lo, lm, Ctr(E, L, nonce, c), Xor(tag, E(CounterBlock(L, nonce, 0))));
    r := if valid then n else -1;
  }

  /** Decryption of n message bytes and the tag behind them. */
  method DecryptTagged(E: Cipher, M: nat, L: nat, nonce: Block, msg: array<byte>, lo: nat, n: nat, aad: seq<byte>)
      returns (valid: bool)
    requires Sizes(M, L) && lo + n + M <= msg.Length
    modifies msg
    ensures var m := Ctr(E, L, nonce, old(msg[..])[lo..lo + n]);
            var t := Xor(old(msg[..])[lo + n..lo + n + M], E(CounterBlock(L, nonce, 0)));
            && msg[..] == Splice(Splice(old(msg[..]), lo, m), lo + n, t)
            && (valid <==> t == Mac(E, M, L, nonce, m, aad)[..M])
  {
    hide Ctr, Cbc, Stream, CounterBlock, MacStart, Template, Splice;
    ghost var msg0 := msg[..];
    var A, B, X, S := Begin(E, M, L, nonce, n, aad);
    OpenBody(E, L, nonce, msg, lo, n, A, B, X, S);
    TwoRegions(msg0, lo, Ctr(E, L, nonce, msg0[lo..lo + n]), msg0[lo + n..lo + n + M]);
    valid := CheckTag(E, M, L, nonce, msg, lo + n, A, X, S);
  }

  /** Decrypts the received tag in place and compares it with the computed one. */
  method CheckTag(E: Cipher, M: nat, L: nat, ghost nonce: Block, msg: array<byte>, at: nat,
                  A: array<byte>, X: array<byte>, S: array<byte>) returns (valid: bool)
    requires Sizes(M, L) && at + M <= msg.Length
    requires A != X && A != S && X != S && msg != A && msg != X && msg != S
    requires A.Length == 16 && X.Length == 16 && S.Length == 16 && Template(A[..], L, nonce)
    modifies msg, A, S
    ensures var t := Xor(old(msg[..])[at..at + M], E(CounterBlock(L, nonce, 0)));
            && msg[..] == Splice(old(msg[..]), at, t)
            && (valid <==> t == X[..][..M])
  {
    hide CounterBlock, Splice, Template;
    ghost var msg0 := msg[..];
    KeyBlock(E, L, nonce, 0, A, S);
    XorPrefix(msg0[at..at + M], S[..]);
    Memxor(msg, at, S[..M]);
    SpliceParts(msg0, at, Xor(msg0[at..at + M], S[..]));
    valid := Equals(X, msg, at, M);
  }

  /** Rewriting two adjacent regions in turn. */
  lemma TwoRegions(s: seq<byte>, lo: nat, t: seq<byte>, u: seq<byte>)
    requires lo + |t| + |u| <= |s|
    ensures var s1 := Splice(s, lo, t);
            var s2 := Splice(s1, lo + |t|, u);
            && s1[lo + |t|..lo + |t| + |u|] == s[lo + |t|..lo + |t| + |u|]
            && s2[lo..lo + |t|] == t && s2[lo + |t|..lo + |t| + |u|] == u
            && s2[..lo] == s[..lo] && s2[lo + |t| + |u|..] == s[lo + |t| + |u|..]
  {}

  lemma Opened(was: seq<byte>, now: seq<byte>, lo: nat, lm: nat, m: seq<byte>, t: seq<byte>)
    requires lo + lm <= |was| && |m| + |t| == lm && now == Splice(Splice(was, lo, m), lo + |m|, t)
    ensures |now| == |was| && now[lo..lo + |m|] == m
    ensures now[..lo] == was[..lo] && now[lo + lm..] == was[lo + lm..]
  {
    hide Splice;
    TwoRegions(was, lo, m, t);
  }

  /** Compares without stopping at the first difference. */
  method Equals(a: array<byte>, b: array<byte>, at: nat, len: nat) returns (equal: bool)
    requires len <= a.Length && at + len <= b.Length
    ensures equal <==> a[..][..len] == b[..][at..at + len]
  {
    ghost var x, y := a[..][..len], b[..][at..at + len];
    equal := true;
    var i := 0;
    while i < len
      invariant 0 <= i <= len
      invariant equal <==> x[..i] == y[..i]
    {
      assert a[i] == x[i] && b[at + i] == y[i];
      assert x[..i + 1] == x[..i] + [x[i]] && y[..i + 1] == y[..i] + [y[i]];
      equal := equal && a[i] == b[at + i];
      i := i + 1;
    }
    assert x[..len] == x && y[..len] == y;
  }
}
