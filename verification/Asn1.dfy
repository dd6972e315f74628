/**
 The signature element of ECDSA in TLS (section 5.4 of RFC 4492): two positive ASN.1 integers in a
 sequence, written from 256-bit words and read back into 32-byte strings.
 */
module Asn1 {
  import opened Arith
  import opened Octet
  import opened Bytes

  const KEY_SIZE := 32
  const SIZE_RANGE := 0x1_0000_0000        // size_t of a 32-bit target
  const SHA256: byte := 4
  const ECDSA: byte := 3

  type Uint32 = w: nat | w < 0x1_0000_0000

  /** The key as bytes, most significant first; the words are least significant first. */
  function KeyBytes(words: seq<Uint32>): (s: seq<byte>)
    ensures |s| == 4 * |words|
  {
    if |words| == 0 then [] else BigEndian(words[|words| - 1], 4) + KeyBytes(words[..|words| - 1])
  }

  /** Number of leading zero bytes. */
  function LeadingZeros(s: seq<byte>): (n: nat)
    ensures n <= |s| && (n < |s| ==> s[n] != 0)
    ensures forall i :: 0 <= i < n ==> s[i] == 0
  {
    if |s| == 0 || s[0] != 0 then 0 else 1 + LeadingZeros(s[1..])
  }

  /** The shortest form that is read as a positive number: no leading zeros, but one if the top bit is set. */
  function Content(key: seq<byte>): (c: seq<byte>)
    requires LeadingZeros(key) < |key|
    ensures 1 <= |c| <= |key| + 1
  {
    var i := LeadingZeros(key);
    if key[i] >= 0x80 then [0] + key[i..] else key[i..]
  }

  function Integer(key: seq<byte>): (s: seq<byte>)
    requires |key| == KEY_SIZE && LeadingZeros(key) < |key|
    ensures 3 <= |s| <= KEY_SIZE + 3
  {
    [0x02, (|Content(key)| % 256) as byte] + Content(key)
  }

  /** The content is positive and as short as possible. */
  lemma ContentIsShortest(key: seq<byte>)
    requires LeadingZeros(key) < |key|
    ensures var c := Content(key); c[0] < 0x80 && (c[0] == 0 ==> |c| > 1 && c[1] >= 0x80)
  {}

  // ----- what the bytes denote -----

  /** The number the words stand for, the first one lowest. */
  function WordsValue(words: seq<Uint32>): nat {
    if |words| == 0 then 0 else words[0] + 0x1_0000_0000 * WordsValue(words[1..])
  }

  lemma {:induction false} ValueConcat(a: seq<byte>, b: seq<byte>)
    ensures FromBigEndian(a + b) == FromBigEndian(a) * Pow256(|b|) + FromBigEndian(b)
  {
    if |b| == 0 {
      assert a + b == a && Pow256(0) == 1;
    } else {
      hide *;
      var n := |b| - 1;
      ValueConcat(a, b[..n]);
      assert (a + b)[..|a| + n] == a + b[..n];
      Pow256Next(n);
      Shift(FromBigEndian(a), Pow256(n), FromBigEndian(b[..n]));
      ValueNext(a + b);
      ValueNext(b);
    }
  }

  lemma Shift(x: nat, p: nat, y: nat)
    ensures 256 * (x * p + y) == x * (256 * p) + 256 * y
  {}

  lemma ValueNext(s: seq<byte>)
    requires |s| > 0
    ensures FromBigEndian(s) == 256 * FromBigEndian(s[..|s| - 1]) + s[|s| - 1] as nat
  {}

  lemma {:induction false} WordsLast(words: seq<Uint32>)
    requires |words| > 0
    ensures var n := |words| - 1; WordsValue(words) == WordsValue(words[..n]) + words[n] * Pow256(4 * n)
  {
    var n := |words| - 1;
    if n == 0 {
      assert words[..0] == [] && Pow256(0) == 1;
    } else {
      WordsLast(words[1..]);
      assert words[1..][..n - 1] == words[..n][1..];
      FirstWord(words);
      FirstWord(words[..n]);
      WordPower(n);
      hide *;
      HighWord(WordsValue(words[..n][1..]), words[n], Pow256(4 * (n - 1)));
    }
  }

  lemma FirstWord(words: seq<Uint32>)
    requires |words| > 0
    ensures WordsValue(words) == words[0] + 0x1_0000_0000 * WordsValue(words[1..])
  {}

  lemma HighWord(v: nat, w: nat, p: nat)
    ensures 0x1_0000_0000 * (v + w * p) == 0x1_0000_0000 * v + w * (0x1_0000_0000 * p)
  {
    assert 0x1_0000_0000 * (w * p) == w * (0x1_0000_0000 * p);
  }

  lemma WordPower(n: nat)
    requires n > 0
    ensures Pow256(4 * n) == 0x1_0000_0000 * Pow256(4 * (n - 1))
  {
    assert Pow256(1) == 256 && Pow256(2) == 256 * Pow256(1);
    assert Pow256(3) == 256 * Pow256(2) && Pow256(4) == 256 * Pow256(3);
    Pow256Add(4, 4 * (n - 1));
    assert 4 + 4 * (n - 1) == 4 * n;
  }

  /** The bytes of the key, read as a big-endian number, are the number its words stand for. */
  lemma {:induction false} KeyValue(words: seq<Uint32>)
    ensures FromBigEndian(KeyBytes(words)) == WordsValue(words)
  {
    if |words| > 0 {
      var n := |words| - 1;
      KeyValue(words[..n]);
      ValueConcat(BigEndian(words[n], 4), KeyBytes(words[..n]));
      WordBack(words[n]);
      WordsLast(words);
    }
  }

  lemma WordBack(w: Uint32)
    ensures FromBigEndian(BigEndian(w, 4)) == w
  {
    assert Pow256(1) == 256 && Pow256(2) == 256 * Pow256(1);
    assert Pow256(3) == 256 * Pow256(2) && Pow256(4) == 256 * Pow256(3);
    ReadBack(w, 4);
    SmallMod(w, 0x1_0000_0000);
  }

  lemma {:induction false} ZerosInFront(s: seq<byte>, n: nat)
    ensures FromBigEndian(Zeros(n) + s) == FromBigEndian(s)
  {
    ValueConcat(Zeros(n), s);
    AllZero(n);
  }

  lemma {:induction false} AllZero(n: nat)
    ensures FromBigEndian(Zeros(n)) == 0
  {
    if n > 0 {
      AllZero(n - 1);
      assert Zeros(n)[..n - 1] == Zeros(n - 1);
    }
  }

  /**
   The integer is DER (section 8.3 of X.690): tag 2, the length in one byte, and content that denotes the same number
   as the key.
   */
  lemma IntegerIsDer(key: seq<byte>)
    requires |key| == KEY_SIZE && LeadingZeros(key) < |key|
    ensures var s := Integer(key);
            && s[0] == 0x02 && s[1] as nat == |s| - 2 <= 33 && s[2] < 0x80
            && FromBigEndian(s[2..]) == FromBigEndian(key)
  {
    hide LeadingZeros, FromBigEndian;
    var i, c := LeadingZeros(key), Content(key);
    ByteAsInt(|c|);
    ContentIsShortest(key);
    assert Integer(key)[2..] == c;
    assert key == Zeros(i) + key[i..];
    ZerosInFront(key[i..], i);
    if key[i] >= 0x80 {
      assert c == Zeros(1) + key[i..];
      ZerosInFront(key[i..], 1);
    }
  }

  // ----- reading -----

  /** Bytes as a number, the first one highest, in size_t arithmetic. */
  function Octets(s: seq<byte>): nat {
    if |s| == 0 then 0 else (Octets(s[..|s| - 1]) * 256 + s[|s| - 1] as nat) % SIZE_RANGE
  }

  datatype Length = Length(value: nat, taken: nat) | TooLong

  /** The length field at the start of the data and the number of bytes it takes. */
  function ReadLength(data: seq<byte>): (r: Length)
    requires |data| >= 1
    ensures r.Length? ==> 1 <= r.taken <= |data|
  {
    var n := (data[0] & 0x7F) as nat;
    if data[0] & 0x80 == 0 then Length(n, 1)
    else if n > |data| - 1 then TooLong
    else Length(Octets(data[1..1 + n]), 1 + n)
  }

  datatype Parsed = Parsed(consumed: nat, key: seq<byte>) | DecodeError

  /** Pads with zeros in front, or drops bytes in front. */
  function Fit(content: seq<byte>, n: nat): (key: seq<byte>)
    ensures |key| == n
  {
    if |content| < n then Zeros(n - |content|) + content else content[|content| - n..]
  }

  /** An integer at the start of the data; it is taken to use two bytes besides its content. */
  function ReadInteger(data: seq<byte>, n: nat): (p: Parsed)
    ensures p.Parsed? ==> 2 <= p.consumed <= |data| && |p.key| == n
  {
    if |data| < 2 || data[0] != 0x02 then DecodeError
    else
      match ReadLength(data[1..])
      case TooLong => DecodeError
      case Length(length, taken) =>
        var rest := data[1 + taken..];
        if length > |rest| then DecodeError else Parsed(length + 2, Fit(rest[..length], n))
  }

  /** The long form is the big-endian number in 32-bit arithmetic. */
  lemma {:induction false} OctetsValue(s: seq<byte>)
    ensures Octets(s) == FromBigEndian(s) % 0x1_0000_0000
  {
    if |s| > 0 {
      OctetsValue(s[..|s| - 1]);
      ReducedNext(FromBigEndian(s[..|s| - 1]), s[|s| - 1] as nat, 0x1_0000_0000);
    }
  }

  lemma ReducedNext(v: nat, b: nat, m: nat)
    requires m > 0
    ensures (v % m * 256 + b) % m == (256 * v + b) % m
  {
    var q := v / m;
    DivFacts(v, m);
    assert 256 * v + b == (v % m * 256 + b) + (256 * q) * m;
    ModMultiple(v % m * 256 + b, 256 * q, m);
  }

  /**
   A length below 128 is one byte; otherwise the lower bits count the bytes of the length that follow, if they are
   there.
   */
  lemma LengthForms(data: seq<byte>)
    requires |data| >= 1
    ensures var n := data[0] as nat - 128;
            && (n < 0 ==> ReadLength(data) == Length(data[0] as nat, 1))
            && (n > |data| - 1 ==> ReadLength(data) == TooLong)
            && (0 <= n <= |data| - 1 ==>
                  ReadLength(data) == Length(FromBigEndian(data[1..1 + n]) % 0x1_0000_0000, 1 + n))
  {
    LengthBits(data[0]);
    var n := data[0] as nat - 128;
    if 0 <= n <= |data| - 1 {
      OctetsValue(data[1..1 + n]);
    }
  }

  lemma LengthBits(b: byte)
    ensures b & 0x80 == 0 <==> b as nat < 128
    ensures (b & 0x7F) as nat == if b as nat < 128 then b as nat else b as nat - 128
  {
    if b < 0x80 {
      LowHalf(b);
    } else {
      HighHalf(b);
    }
  }

  lemma LowHalf(b: byte)
    requires b < 0x80
    ensures b & 0x80 == 0 && b & 0x7F == b
  {}

  lemma HighHalf(b: byte)
    requires b >= 0x80
    ensures b & 0x80 != 0 && b & 0x7F == b - 0x80
  {}

  /**
   When an integer is refused: too short, another tag, or a length that passes the end. What is read denotes the same
   number as its content, modulo the size of the key.
   */
  lemma IntegerReads(data: seq<byte>, n: nat)
    ensures |data| < 2 || data[0] != 0x02 ==> ReadInteger(data, n) == DecodeError
    ensures |data| >= 2 && data[0] == 0x02 ==>
              match ReadLength(data[1..])
              case TooLong => ReadInteger(data, n) == DecodeError
              case Length(length, taken) =>
                var rest := data[1 + taken..];
                && (length > |rest| ==> ReadInteger(data, n) == DecodeError)
                && (length <= |rest| ==>
                      && ReadInteger(data, n).Parsed? && ReadInteger(data, n).consumed == length + 2
                      && |ReadInteger(data, n).key| == n
                      && FromBigEndian(ReadInteger(data, n).key) == FromBigEndian(rest[..length]) % Pow256(n))
  {
    hide ReadLength, Fit;
    if |data| >= 2 && data[0] == 0x02 {
      var l := ReadLength(data[1..]);
      if l.Length? && l.value <= |data[1 + l.taken..]| {
        FitValue(data[1 + l.taken..][..l.value], n);
      }
    }
  }

  lemma {:induction false} ValueBelow(s: seq<byte>)
    ensures FromBigEndian(s) < Pow256(|s|)
  {
    if |s| > 0 {
      ValueBelow(s[..|s| - 1]);
      Pow256Next(|s| - 1);
    }
  }

  lemma FitValue(content: seq<byte>, n: nat)
    ensures FromBigEndian(Fit(content, n)) == FromBigEndian(content) % Pow256(n)
  {
    ValueBelow(Fit(content, n));
    hide FromBigEndian, Pow256;
    if |content| < n {
      ZerosInFront(content, n - |content|);
      SmallMod(FromBigEndian(content), Pow256(n));
    } else {
      var k := |content| - n;
      assert content == content[..k] + content[k..];
      ValueConcat(content[..k], content[k..]);
      DivModUnique(FromBigEndian(content), Pow256(n), FromBigEndian(content[..k]), FromBigEndian(content[k..]));
    }
  }

  /** Reading a written integer gives the key back and takes exactly the bytes written, whatever follows. */
  lemma IntegerRoundTrip(key: seq<byte>, rest: seq<byte>)
    requires |key| == KEY_SIZE && LeadingZeros(key) < |key|
    ensures ReadInteger(Integer(key) + rest, KEY_SIZE) == Parsed(|Integer(key)|, key)
  {
    hide Content, LeadingZeros, Fit, ReadLength;
    var c := Content(key);
    var b := (|c| % 256) as byte;
    LengthByte(|c|);
    var data := Integer(key) + rest;
    Pieces(b, c, rest);
    assert data == [0x02, b] + c + rest;
    ShortLength(data[1..]);
    FitContent(key);
  }

  lemma Pieces(b: byte, c: seq<byte>, rest: seq<byte>)
    ensures var data := [0x02, b] + c + rest;
            data[0] == 0x02 && data[1..][0] == b && data[2..] == c + rest && (c + rest)[..|c|] == c
  {}

  lemma ShortLength(data: seq<byte>)
    requires |data| >= 1 && data[0] & 0x80 == 0
    ensures ReadLength(data) == Length((data[0] & 0x7F) as nat, 1)
  {}

  lemma LengthByte(n: nat)
    requires n < 0x80
    ensures var b := (n % 256) as byte; b & 0x80 == 0 && (b & 0x7F) as nat == n
  {
    ByteAsInt(n);
    Masks((n % 256) as byte);
  }

  lemma Masks(b: byte)
    requires b < 0x80
    ensures b & 0x80 == 0 && b & 0x7F == b
  {}

  lemma FitContent(key: seq<byte>)
    requires LeadingZeros(key) < |key|
    ensures Fit(Content(key), |key|) == key
  {
    hide *;
    var i, n := LeadingZeros(key), |key|;
    var c := Content(key);
    ContentSize(key);
    forall j | 0 <= j < n
      ensures Fit(c, n)[j] == key[j]
    {
      FitAt(c, n, j);
      if j + |c| >= n {
        ContentAt(key, j + |c| - n);
      }
    }
  }

  function Padding(key: seq<byte>): nat
    requires LeadingZeros(key) < |key|
  {
    if key[LeadingZeros(key)] >= 0x80 then 1 else 0
  }

  lemma ContentSize(key: seq<byte>)
    requires LeadingZeros(key) < |key|
    ensures |Content(key)| == Padding(key) + |key| - LeadingZeros(key) && Padding(key) <= 1
  {
    hide LeadingZeros;
  }

  lemma ContentAt(key: seq<byte>, j: nat)
    requires LeadingZeros(key) < |key| && j < |Content(key)|
    ensures |Content(key)| == Padding(key) + |key| - LeadingZeros(key)
    ensures Content(key)[j] == if j < Padding(key) then 0 else key[j - Padding(key) + LeadingZeros(key)]
  {
    hide LeadingZeros;
  }

  lemma FitAt(c: seq<byte>, n: nat, j: nat)
    requires j < n && |c| <= n + 1
    ensures Fit(c, n)[j] == if j + |c| < n then 0 else c[j + |c| - n]
  {}

  // ----- the whole element -----

  function Element(r: seq<byte>, s: seq<byte>): seq<byte>
    requires |r| == KEY_SIZE && |s| == KEY_SIZE && LeadingZeros(r) < |r| && LeadingZeros(s) < |s|
  {
    var body := Integer(r) + Integer(s);
    ElementHeader(|body|) + body
  }

  /** Hash and signature algorithm, length of the signature, sequence tag and its length. */
  function ElementHeader(n: nat): (h: seq<byte>)
    ensures |h| == 6
  {
    [SHA256, ECDSA] + BigEndian(n + 2, 2) + [0x30, (n % 256) as byte]
  }

  datatype Checked = Checked(consumed: nat, r: seq<byte>, s: seq<byte>) | Refused

  /** Header fields in turn, then the two integers. */
  function ReadElement(data: seq<byte>): Checked {
    if |data| < 6 || data[0] != SHA256 || data[1] != ECDSA then Refused
    else if |data| - 2 < FromBigEndian(data[2..4]) || data[4] != 0x30 || |data| - 5 < data[5] as nat then Refused
    else
      match ReadInteger(data[6..], KEY_SIZE)
      case DecodeError => Refused
      case Parsed(n, r) =>
        match ReadInteger(data[6 + n..], KEY_SIZE)
        case DecodeError => Refused
        case Parsed(m, s) => Checked(6 + n + m, r, s)
  }

  /** When an element is refused: short, other algorithms, lengths that pass the end, or an integer that is refused. */
  lemma ElementReads(data: seq<byte>)
    ensures ReadElement(data).Checked? <==>
            && |data| >= 6 && data[0] == 4 && data[1] == 3 && data[4] == 0x30
            && FromBigEndian(data[2..4]) + 2 <= |data| && data[5] as nat + 5 <= |data|
            && ReadInteger(data[6..], 32).Parsed?
            && ReadInteger(data[6 + ReadInteger(data[6..], 32).consumed..], 32).Parsed?
  {
    hide ReadInteger, FromBigEndian;
  }

  /** For all nonzero 256-bit r and s, reading undoes writing and takes exactly the bytes written. */
  lemma ElementRoundTrip(r: seq<byte>, s: seq<byte>, rest: seq<byte>)
    requires |r| == KEY_SIZE && |s| == KEY_SIZE && LeadingZeros(r) < |r| && LeadingZeros(s) < |s|
    ensures ReadElement(Element(r, s) + rest) == Checked(|Element(r, s)|, r, s)
  {
    hide Integer, ReadInteger, ReadElement, FromBigEndian, BigEndian, LeadingZeros, Element, Layout;
    var a, b := Integer(r), Integer(s);
    var n := |a + b|;
    var field, last := BigEndian(n + 2, 2), (n % 256) as byte;
    ElementLayout(r, s, rest);
    LayoutPieces(field, last, a, b, rest);
    LengthField(n + 2);
    ByteAsInt(n);
    IntegerRoundTrip(r, b + rest);
    IntegerRoundTrip(s, rest);
    Reads(Layout(field, last, a, b, rest), |a|, |b|, r, s);
  }

  /** The fields in front: hash and signature algorithm, and the two lengths of what follows each of them. */
  lemma ElementFields(r: seq<byte>, s: seq<byte>)
    requires |r| == KEY_SIZE && |s| == KEY_SIZE && LeadingZeros(r) < |r| && LeadingZeros(s) < |s|
    ensures var e := Element(r, s);
            && e[0] == 4 && e[1] == 3 && FromBigEndian(e[2..4]) == |e| - 4 && e[4] == 0x30 && e[5] as nat == |e| - 6
            && e[6..6 + |Integer(r)|] == Integer(r) && e[6 + |Integer(r)|..] == Integer(s)
  {
    hide Integer, FromBigEndian, BigEndian, LeadingZeros, Element, Layout;
    var a, b := Integer(r), Integer(s);
    var n := |a + b|;
    var field, last := BigEndian(n + 2, 2), (n % 256) as byte;
    LengthField(n + 2);
    ByteAsInt(n);
    ElementLayout(r, s, []);
    LayoutPieces(field, last, a, b, []);
    assert Element(r, s) + [] == Element(r, s) && b + [] == b;
    assert Element(r, s)[6..6 + |a|] == (a + b)[..|a|] == a;
  }

  /** The header fields, the two integers and what follows. */
  function Layout(field: seq<byte>, last: byte, a: seq<byte>, b: seq<byte>, rest: seq<byte>): seq<byte> {
    [SHA256, ECDSA] + field + [0x30, last] + (a + b) + rest
  }

  lemma ElementLayout(r: seq<byte>, s: seq<byte>, rest: seq<byte>)
    requires |r| == KEY_SIZE && |s| == KEY_SIZE && LeadingZeros(r) < |r| && LeadingZeros(s) < |s|
    ensures var a, b := Integer(r), Integer(s);
            && Element(r, s) + rest == Layout(BigEndian(|a + b| + 2, 2), (|a + b| % 256) as byte, a, b, rest)
            && |Element(r, s)| == 6 + |a| + |b|
  {
    hide Integer, BigEndian, LeadingZeros;
  }

  lemma LayoutPieces(field: seq<byte>, last: byte, a: seq<byte>, b: seq<byte>, rest: seq<byte>)
    requires |field| == 2
    ensures var data := Layout(field, last, a, b, rest);
            && |data| == 6 + |a| + |b| + |rest| && data[0] == SHA256 && data[1] == ECDSA && data[2..4] == field
            && data[4] == 0x30 && data[5] == last && data[6..] == a + (b + rest) && data[6 + |a|..] == b + rest
  {}

  lemma Reads(data: seq<byte>, n: nat, m: nat, r: seq<byte>, s: seq<byte>)
    requires |data| >= 6 + n && data[0] == SHA256 && data[1] == ECDSA && data[4] == 0x30
    requires FromBigEndian(data[2..4]) <= |data| - 2 && data[5] as nat <= |data| - 5
    requires ReadInteger(data[6..], KEY_SIZE) == Parsed(n, r) && ReadInteger(data[6 + n..], KEY_SIZE) == Parsed(m, s)
    ensures ReadElement(data) == Checked(6 + n + m, r, s)
  {
    hide ReadInteger, FromBigEndian;
  }

  lemma TwoBytes()
    ensures Pow256(2) == 0x1_0000
  {
    assert Pow256(1) == 256;
  }

  lemma LengthField(n: nat)
    requires n < 0x1_0000
    ensures FromBigEndian(BigEndian(n, 2)) == n
  {
    TwoBytes();
    hide *;
    ReadBack(n, 2);
    SmallMod(n, 0x1_0000);
  }

  // ----- the code -----

  /** Writes the words in big-endian order, the last one first. */
  method KeyFromUint32(key: seq<Uint32>, buf: array<byte>, at: nat)
    requires at + 4 * |key| <= buf.Length
    modifies buf
    ensures buf[..] == Splice(old(buf[..]), at, KeyBytes(key))
  {
    hide BigEndian, Splice, KeyBytes;
    ghost var was := buf[..];
    var i, p := |key|, at;
    SpliceSame(was, at, 0);
    KeyStart(key);
    assert was[at..at + 0] == KeyBytes(key)[..0];
    while i > 0
      invariant 0 <= i <= |key| && p == at + 4 * (|key| - i)
      invariant buf[..] == Splice(was, at, KeyBytes(key)[..4 * (|key| - i)])
    {
      i := i - 1;
      KeyNext(key, i);
      SpliceTwo(was, at, KeyBytes(key)[..p - at], BigEndian(key[i], 4));
      Memcpy(buf, p, BigEndian(key[i], 4));
      p := p + 4;
    }
    assert KeyBytes(key)[..4 * |key|] == KeyBytes(key);
  }

  lemma KeyStart(key: seq<Uint32>)
    ensures KeyBytes(key)[..0] == []
  {}

  /** The bytes of word i follow those of all higher words. */
  lemma {:induction false} KeyNext(key: seq<Uint32>, i: nat)
    requires i < |key|
    ensures KeyBytes(key)[..4 * (|key| - i)] == KeyBytes(key)[..4 * (|key| - i - 1)] + BigEndian(key[i], 4)
    decreases |key|
  {
    hide BigEndian;
    var n := |key| - 1;
    var front := key[..n];
    assert KeyBytes(key) == BigEndian(key[n], 4) + KeyBytes(front);
    if i < n {
      KeyNext(front, i);
      TakeBehind(BigEndian(key[n], 4), KeyBytes(front), 4 * (n - i));
      TakeBehind(BigEndian(key[n], 4), KeyBytes(front), 4 * (n - i - 1));
    } else {
      assert KeyBytes(key)[..4] == BigEndian(key[n], 4);
    }
  }

  lemma TakeBehind(a: seq<byte>, b: seq<byte>, k: nat)
    requires k <= |b|
    ensures (a + b)[..|a| + k] == a + b[..k]
  {}

  /** The key as an ASN.1 integer at position at; 0 when the key is zero. */
  method IntegerFromUint32(key: seq<Uint32>, buf: array<byte>, at: nat) returns (n: nat)
    requires |key| == 8 && at + KEY_SIZE + 3 <= buf.Length
    modifies buf
    ensures n == 0 <==> LeadingZeros(KeyBytes(key)) == KEY_SIZE
    ensures n > 0 ==> n == |Integer(KeyBytes(key))| && buf[..][at..at + n] == Integer(KeyBytes(key))
    ensures buf[..][..at] == old(buf[..])[..at]
  {
    hide KeyBytes, LeadingZeros, Splice, Content;
    ghost var was, bytes := buf[..], KeyBytes(key);
    buf[at] := 0x02;
    KeyFromUint32(key, buf, at + 2);
    Tagged(was, buf[..], at, bytes);
    var i := 0;
    while i < KEY_SIZE && buf[at + 2 + i] == 0
      invariant 0 <= i <= KEY_SIZE
      invariant forall j :: 0 <= j < i ==> bytes[j] == 0
    {
      assert buf[at + 2 + i] == bytes[i];
      i := i + 1;
    }
    ZerosAre(bytes, i);
    if i == KEY_SIZE {
      return 0;
    }
    n := StripOrPad(buf, at, i, bytes);
  }

  lemma Tagged(was: seq<byte>, now: seq<byte>, at: nat, bytes: seq<byte>)
    requires at + 2 + |bytes| <= |was| && now == Splice(was[at := 0x02], at + 2, bytes)
    ensures now[..at] == was[..at] && now[at] == 0x02 && now[at + 2..at + 2 + |bytes|] == bytes
  {
    SpliceParts(was[at := 0x02], at + 2, bytes);
    hide Splice;
    assert now[..at] == now[..at + 2][..at] && now[at] == now[..at + 2][at];
  }

  /** The key from byte k on; from -1 on, with a zero byte in front. */
  function From(bytes: seq<byte>, k: int): (r: seq<byte>)
    requires -1 <= k <= |bytes|
    ensures |r| == |bytes| - k
  {
    if k >= 0 then bytes[k..] else [0] + bytes
  }

  /** Removes the leading zeros, or adds one in front of a set top bit, and writes the length. */
  method StripOrPad(buf: array<byte>, at: nat, i: nat, ghost bytes: seq<byte>) returns (n: nat)
    requires at + KEY_SIZE + 3 <= buf.Length && buf[at] == 0x02 && buf[..][at + 2..at + 2 + KEY_SIZE] == bytes
    requires |bytes| == KEY_SIZE && i < KEY_SIZE && LeadingZeros(bytes) == i
    modifies buf
    ensures n == |Integer(bytes)| && buf[..][at..at + n] == Integer(bytes)
    ensures buf[..][..at] == old(buf[..])[..at]
  {
    hide *;
    ghost var was := buf[..];
    InSlice(was, at + 2, at + 2 + KEY_SIZE, i);
    ContentCases(bytes);
    var k := if buf[at + 2 + i] >= 0x80 then i - 1 else i;
    var size := MoveContent(buf, at + 2, k, bytes);
    ghost var moved := buf[..];
    buf[at + 1] := (size % 256) as byte;
    n := size + 2;
    Lengthened(was, moved, buf[..], at, n, bytes, k);
  }

  lemma InSlice(s: seq<byte>, from: nat, to: nat, i: nat)
    requires from <= to <= |s| && i < to - from
    ensures s[from..to][i] == s[from + i]
  {}

  /** Shifts the key so that it starts at byte k; -1 adds a zero byte in front. */
  method MoveContent(buf: array<byte>, p: nat, k: int, ghost bytes: seq<byte>) returns (size: nat)
    requires -1 <= k < KEY_SIZE == |bytes| && p + KEY_SIZE + 1 <= buf.Length && buf[..][p..p + KEY_SIZE] == bytes
    modifies buf
    ensures size == KEY_SIZE - k && buf[..][..p] == old(buf[..])[..p]
    ensures buf[..][p..p + size] == From(bytes, k)
  {
    hide Splice;
    ghost var was := buf[..];
    size := KEY_SIZE;
    if k > 0 {
      size := size - k;
      Memmove(buf, p, p + k, size);
      SpliceParts(was, p, was[p + k..p + k + size]);
      assert was[p + k..p + k + size] == was[p..p + KEY_SIZE][k..];
    } else if k == -1 {
      Memmove(buf, p + 1, p, size);
      SpliceParts(was, p + 1, was[p..p + size]);
      Prepended(was, buf[..], p, bytes);
      buf[p] := 0;
      size := size + 1;
    }
  }

  lemma Prepended(was: seq<byte>, now: seq<byte>, p: nat, bytes: seq<byte>)
    requires |was| == |now| && p + 1 + |bytes| <= |now|
    requires now[..p + 1] == was[..p + 1] && now[p + 1..p + 1 + |bytes|] == bytes
    ensures now[p := 0][p..p + 1 + |bytes|] == [0] + bytes && now[p := 0][..p] == was[..p]
  {
    var r := now[p := 0];
    UpdateOutside(now, p, 0, p + 1, p + 1 + |bytes|);
    Joined(r, p, [0], bytes);
    assert r[..p] == now[..p + 1][..p] && was[..p] == was[..p + 1][..p];
  }

  /** Changing an element keeps the slices that do not contain it. */
  lemma UpdateOutside(s: seq<byte>, i: nat, x: byte, from: nat, to: nat)
    requires i < |s| && from <= to <= |s| && (i < from || to <= i)
    ensures s[i := x][from..to] == s[from..to]
  {}

  lemma ContentIs(key: seq<byte>)
    requires LeadingZeros(key) < |key|
    ensures var i := LeadingZeros(key);
            Content(key) == if key[i] >= 0x80 then [0] + key[i..] else key[i..]
  {
    hide LeadingZeros;
  }

  lemma IntegerIs(key: seq<byte>)
    requires |key| == KEY_SIZE && LeadingZeros(key) < |key|
    ensures Integer(key) == [0x02, (|Content(key)| % 256) as byte] + Content(key)
  {
    hide LeadingZeros, Content;
  }

  lemma ZeroInFront(s: seq<byte>, i: nat)
    requires 0 < i <= |s| && s[i - 1] == 0
    ensures s[i - 1..] == [0] + s[i..]
  {}

  lemma FromIs(s: seq<byte>)
    ensures forall k :: 0 <= k <= |s| ==> From(s, k) == s[k..]
    ensures From(s, -1) == [0] + s && s[0..] == s
  {}

  lemma ContentCases(key: seq<byte>)
    requires LeadingZeros(key) < |key|
    ensures var i := LeadingZeros(key);
            Content(key) == From(key, if key[i] >= 0x80 then i - 1 else i)
  {
    hide *;
    var i := LeadingZeros(key);
    ContentIs(key);
    FromIs(key);
    if key[i] >= 0x80 && i > 0 {
      ZeroInFront(key, i);
    }
  }

  lemma Lengthened(was: seq<byte>, moved: seq<byte>, now: seq<byte>, at: nat, n: nat, bytes: seq<byte>, k: int)
    requires |bytes| == KEY_SIZE && LeadingZeros(bytes) < KEY_SIZE && -1 <= k <= KEY_SIZE
             && Content(bytes) == From(bytes, k)
    requires n == KEY_SIZE - k + 2 && |was| == |moved| && at + n <= |was|
    requires now == moved[at + 1 := ((n - 2) % 256) as byte]
    requires moved[..at + 2] == was[..at + 2] && was[at] == 0x02
             && moved[at + 2..at + 2 + (KEY_SIZE - k)] == From(bytes, k)
    ensures n == |Integer(bytes)| && now[at..at + n] == Integer(bytes) && now[..at] == was[..at]
  {
    hide *;
    var c, size := Content(bytes), ((n - 2) % 256) as byte;
    IntegerIs(bytes);
    UpdateOutside(moved, at + 1, size, at + 2, at + 2 + |c|);
    TagAndLength(was, moved, now, at, size);
    Joined(now, at, [0x02, size], c);
    assert at + n == at + |[0x02, size]| + |c|;
  }

  lemma TagAndLength(was: seq<byte>, moved: seq<byte>, now: seq<byte>, at: nat, size: byte)
    requires |was| == |moved| && at + 2 <= |was| && now == moved[at + 1 := size]
    requires moved[..at + 2] == was[..at + 2] && was[at] == 0x02
    ensures now[at..at + 2] == [0x02, size] && now[..at] == was[..at]
  {
    assert moved[at] == moved[..at + 2][at] == was[..at + 2][at];
    assert now[..at] == moved[..at + 2][..at] && was[..at] == was[..at + 2][..at];
  }

  /** The signature element at position at; the result is the position behind it. */
  method AddSignature(buf: array<byte>, at: nat, r: seq<Uint32>, s: seq<Uint32>) returns (end: nat)
    requires |r| == 8 && |s| == 8 && at + 6 + 2 * (KEY_SIZE + 3) <= buf.Length
    requires LeadingZeros(KeyBytes(r)) < KEY_SIZE && LeadingZeros(KeyBytes(s)) < KEY_SIZE
    modifies buf
    ensures end == at + |Element(KeyBytes(r), KeyBytes(s))| <= buf.Length
    ensures buf[..][at..end] == Element(KeyBytes(r), KeyBytes(s))
    ensures buf[..][..at] == old(buf[..])[..at]
  {
    hide KeyBytes, LeadingZeros, Integer, ElementHeader, Splice, Element;
    ghost var was := buf[..];
    var lenR := IntegerFromUint32(r, buf, at + 6);
    ghost var mid := buf[..];
    var lenS := IntegerFromUint32(s, buf, at + 6 + lenR);
    ghost var a, b, body := Integer(KeyBytes(r)), Integer(KeyBytes(s)), buf[..];
    BothWritten(was, mid, body, at, lenR, lenS, a, b);
    Memcpy(buf, at, ElementHeader(lenR + lenS));
    end := at + 6 + lenR + lenS;
    Framed(body, buf[..], at, end, ElementHeader(|a + b|), a + b);
    ElementParts(KeyBytes(r), KeyBytes(s));
  }

  lemma BothWritten(was: seq<byte>, mid: seq<byte>, body: seq<byte>, at: nat, n: nat, m: nat, a: seq<byte>,
                    b: seq<byte>)
    requires |was| == |mid| == |body| && at + 6 + n + m <= |was| && n == |a| && m == |b|
    requires mid[..at + 6] == was[..at + 6] && mid[at + 6..at + 6 + n] == a
    requires body[..at + 6 + n] == mid[..at + 6 + n] && body[at + 6 + n..at + 6 + n + m] == b
    ensures body[at + 6..at + 6 + |a + b|] == a + b && body[..at] == was[..at]
  {
    Kept(mid, body, at + 6, n, at + 6 + n);
    Kept(mid, body, 0, at, at + 6 + n);
    Kept(was, mid, 0, at, at + 6);
    Joined(body, at + 6, a, b);
  }

  lemma ElementParts(r: seq<byte>, s: seq<byte>)
    requires |r| == KEY_SIZE && |s| == KEY_SIZE && LeadingZeros(r) < |r| && LeadingZeros(s) < |s|
    ensures var body := Integer(r) + Integer(s);
            Element(r, s) == ElementHeader(|body|) + body && |Element(r, s)| == 6 + |body|
  {
    hide Integer, ElementHeader, LeadingZeros;
  }

  /** A part in front of a rewritten region keeps its bytes. */
  lemma Kept(s: seq<byte>, t: seq<byte>, from: nat, n: nat, at: nat)
    requires |s| == |t| && from + n <= at <= |s| && s[..at] == t[..at]
    ensures s[from..from + n] == t[from..from + n] && s[..n] == t[..n]
  {
    InPrefix(s, at, from, from + n);
    InPrefix(t, at, from, from + n);
    InPrefix(s, at, 0, n);
    InPrefix(t, at, 0, n);
  }

  lemma InPrefix(s: seq<byte>, at: nat, from: nat, to: nat)
    requires from <= to <= at <= |s|
    ensures s[..at][from..to] == s[from..to] && s[0..to] == s[..to]
  {}

  lemma Joined(s: seq<byte>, at: nat, a: seq<byte>, b: seq<byte>)
    requires at + |a| + |b| <= |s| && s[at..at + |a|] == a && s[at + |a|..at + |a| + |b|] == b
    ensures s[at..at + |a| + |b|] == a + b
  {}

  lemma Framed(s: seq<byte>, t: seq<byte>, at: nat, end: nat, header: seq<byte>, body: seq<byte>)
    requires end == at + |header| + |body| <= |s| && t == Splice(s, at, header)
    requires s[at + |header|..at + |header| + |body|] == body
    ensures t[at..end] == header + body && t[..at] == s[..at]
  {
    SpliceParts(s, at, header);
    hide Splice;
    var k := at + |header|;
    assert t[k..k + |body|] == t[k..][..|body|] && s[k..k + |body|] == s[k..][..|body|];
    Joined(t, at, header, body);
  }

  lemma {:induction false} ZerosAre(s: seq<byte>, n: nat)
    requires n <= |s| && (forall j :: 0 <= j < n ==> s[j] == 0) && (n < |s| ==> s[n] != 0)
    ensures LeadingZeros(s) == n
  {
    var k := LeadingZeros(s);
    assert k >= n;
  }
}
