/** The byte type and its conversion to integers. */
module Octet {
  type byte = bv8

  lemma ByteAsInt(x: nat)
    requires x < 256
    ensures (x as byte) as nat == x
  {}
}

/** Byte strings and big-endian integers, as the record and handshake layers read and write them. */
module Bytes {
  import opened Arith
  import opened Octet

  function Pow256(n: nat): (p: nat)
    ensures p > 0
  {
    if n == 0 then 1 else 256 * Pow256(n - 1)
  }

  /** Byte p of v, counted from the least significant one. */
  function ByteAt(v: nat, p: nat): byte {
    (v / Pow256(p) % 256) as byte
  }

  /** The n low bytes of v, most significant first. */
  function BigEndian(v: nat, n: nat): (s: seq<byte>)
    ensures |s| == n
  {
    seq(n, i requires 0 <= i < n => ByteAt(v, n - 1 - i))
  }

  function Zeros(n: nat): (s: seq<byte>)
    ensures |s| == n && forall i :: 0 <= i < n ==> s[i] == 0
  {
    seq(n, _ => 0)
  }

  /** a xor b on the bytes of a; b is at least as long. */
  function Xor(a: seq<byte>, b: seq<byte>): (s: seq<byte>)
    requires |a| <= |b|
    ensures |s| == |a|
  {
    seq(|a|, i requires 0 <= i < |a| => a[i] ^ b[i])
  }

  lemma XorByte(a: byte, b: byte)
    ensures (a ^ b) ^ b == a
  {}

  lemma XorTwice(a: seq<byte>, b: seq<byte>)
    requires |a| <= |b|
    ensures Xor(Xor(a, b), b) == a
  {
    forall i | 0 <= i < |a|
      ensures Xor(Xor(a, b), b)[i] == a[i]
    {
      XorByte(a[i], b[i]);
    }
  }

  lemma NextByte(v: nat, p: nat)
    ensures v / Pow256(p) / 256 == v / Pow256(p + 1)
  {
    DivDiv(v, Pow256(p), 256);
  }

  /** Higher bytes of a number that has run out are zero. */
  lemma {:induction false} RunOut(v: nat, k: nat, p: nat)
    requires k <= p && v / Pow256(k) == 0
    ensures v / Pow256(p) == 0
  {
    if k < p {
      RunOut(v, k, p - 1);
      NextByte(v, p - 1);
    }
  }

  lemma {:induction false} Pow256Add(a: nat, b: nat)
    ensures Pow256(a + b) == Pow256(a) * Pow256(b)
  {
    if a == 0 {
      return;
    }
    Pow256Next(a - 1);
    Pow256Next(a - 1 + b);
    hide *;
    Pow256Add(a - 1, b);
    TimesAssoc(256, Pow256(a - 1), Pow256(b));
  }

  lemma Pow256Next(n: nat)
    ensures Pow256(n + 1) == 256 * Pow256(n)
  {}

  /** Masking to n bytes keeps bytes below n. */
  lemma MaskKeeps(v: nat, n: nat, p: nat)
    requires p < n
    ensures ByteAt(v % Pow256(n), p) == ByteAt(v, p)
  {
    Pow256Add(p, n - p);
    assert Pow256(n - p) == 256 * Pow256(n - p - 1);
    ModKeepsDigit(v, Pow256(p), 256, Pow256(n - p - 1));
  }

  /** s with the bytes from at on replaced by t. */
  function Splice(s: seq<byte>, at: nat, t: seq<byte>): (r: seq<byte>)
    requires at + |t| <= |s|
    ensures |r| == |s|
  {
    s[..at] + t + s[at + |t|..]
  }

  /** Replacing the next piece of a region that is rewritten from left to right. */
  lemma SpliceNext(s: seq<byte>, lo: nat, done: seq<byte>, todo: seq<byte>, p: nat, len: nat)
    requires |done| == |todo| && p + len <= |todo| && lo + |todo| <= |s|
    ensures var t := Splice(s, lo, done[..p] + todo[p..]);
            && t[lo + p..lo + p + len] == todo[p..p + len]
            && Splice(t, lo + p, done[p..p + len]) == Splice(s, lo, done[..p + len] + todo[p + len..])
  {
    var t := Splice(s, lo, done[..p] + todo[p..]);
    assert t[lo + p..lo + p + len] == todo[p..p + len];
    assert t[..lo + p] == s[..lo] + done[..p];
    assert t[lo + p + len..] == todo[p + len..] + s[lo + |todo|..];
    assert done[..p] + done[p..p + len] == done[..p + len];
  }

  lemma SpliceSame(s: seq<byte>, at: nat, n: nat)
    requires at + n <= |s|
    ensures Splice(s, at, s[at..at + n]) == s
  {}

  lemma SpliceTwo(s: seq<byte>, at: nat, t: seq<byte>, u: seq<byte>)
    requires at + |t| + |u| <= |s|
    ensures Splice(Splice(s, at, t), at + |t|, u) == Splice(s, at, t + u)
  {}

  lemma SpliceParts(s: seq<byte>, at: nat, t: seq<byte>)
    requires at + |t| <= |s|
    ensures Splice(s, at, t)[..at] == s[..at]
    ensures Splice(s, at, t)[at..at + |t|] == t
    ensures Splice(s, at, t)[at + |t|..] == s[at + |t|..]
  {}

  /** memcpy into a buffer. */
  method Memcpy(buf: array<byte>, at: nat, s: seq<byte>)
    requires at + |s| <= buf.Length
    modifies buf
    ensures buf[..] == Splice(old(buf[..]), at, s)
  {
    forall i | 0 <= i < |s| {
      buf[at + i] := s[i];
    }
  }

  /** memmove inside one buffer. */
  method Memmove(buf: array<byte>, to: nat, from: nat, n: nat)
    requires to + n <= buf.Length && from + n <= buf.Length
    modifies buf
    ensures buf[..] == Splice(old(buf[..]), to, old(buf[..])[from..from + n])
  {
    forall i | 0 <= i < n {
      buf[to + i] := buf[from + i];
    }
  }

  /** The integer a big-endian byte string denotes. */
  function FromBigEndian(s: seq<byte>): nat {
    if |s| == 0 then 0 else 256 * FromBigEndian(s[..|s| - 1]) + s[|s| - 1] as nat
  }

  lemma {:induction false} ReadBack(v: nat, n: nat)
    ensures FromBigEndian(BigEndian(v, n)) == v % Pow256(n)
  {
    if n > 0 {
      var s := BigEndian(v, n);
      ReadBack(v / 256, n - 1);
      forall i | 0 <= i < n - 1
        ensures s[i] == BigEndian(v / 256, n - 1)[i]
      {
        ShiftByte(v, n - 2 - i);
      }
      assert s[..n - 1] == BigEndian(v / 256, n - 1);
      LastByte(v);
      ModSplit(v, Pow256(n - 1));
    }
  }

  lemma LastByte(v: nat)
    ensures ByteAt(v, 0) as nat == v % 256
  {
    hide *;
    NoShift(v);
    ByteAsInt(v % 256);
  }

  lemma NoShift(v: nat)
    ensures ByteAt(v, 0) == (v % 256) as byte
  {
    assert v / Pow256(0) == v;
  }

  lemma ShiftByte(v: nat, p: nat)
    ensures ByteAt(v / 256, p) == ByteAt(v, p + 1)
  {
    DivDiv(v, 256, Pow256(p));
    assert Pow256(p) * 256 == Pow256(p + 1);
  }

  lemma ModSplit(v: nat, p: nat)
    requires p > 0
    ensures 256 * (v / 256 % p) + v % 256 == v % (256 * p)
  {
    var q, r := v / 256 / p, v / 256 % p;
    assert v / 256 == q * p + r;
    assert v == q * (256 * p) + (256 * r + v % 256) by { assert 256 * (q * p + r) == q * (256 * p) + 256 * r; }
    DivModUnique(v, 256 * p, q, 256 * r + v % 256);
  }

  lemma BigEndianInjective(v: nat, w: nat, n: nat)
    requires v < Pow256(n) && w < Pow256(n) && BigEndian(v, n) == BigEndian(w, n)
    ensures v == w
  {
    ReadBack(v, n);
    ReadBack(w, n);
    SmallMod(v, Pow256(n));
    SmallMod(w, Pow256(n));
  }
}
