/**
 The DTLS record layer: header, explicit nonce and CCM protection of outgoing records, their
 recovery by the peer of the opposite role, and the two slots of security parameters of a peer.
 */
module Record {
  import opened Wrappers
  import opened Octet
  import opened Bytes
  import opened Ccm

  datatype Role = Client | Server
  datatype Suite = NullNull | Aes128Ccm8

  function Opposite(r: Role): Role {
    if r == Client then Server else Client
  }

  const RH_LENGTH := 13
  const IV_LENGTH := 4
  const VERSION := 0xFEFD

  /** The write keys and IVs of both sides. */
  datatype KeyMaterial = KeyMaterial(clientKey: seq<byte>, serverKey: seq<byte>, clientIv: seq<byte>,
                                     serverIv: seq<byte>)

  predicate ValidKeys(k: KeyMaterial) {
    |k.clientIv| == IV_LENGTH && |k.serverIv| == IV_LENGTH
  }

  function LocalKey(k: KeyMaterial, role: Role): seq<byte> {
    if role == Client then k.clientKey else k.serverKey
  }

  function LocalIv(k: KeyMaterial, role: Role): (iv: seq<byte>)
    requires ValidKeys(k)
    ensures |iv| == IV_LENGTH
  {
    if role == Client then k.clientIv else k.serverIv
  }

  function RemoteKey(k: KeyMaterial, role: Role): seq<byte> {
    if role == Server then k.clientKey else k.serverKey
  }

  function RemoteIv(k: KeyMaterial, role: Role): (iv: seq<byte>)
    requires ValidKeys(k)
    ensures |iv| == IV_LENGTH
  {
    if role == Server then k.clientIv else k.serverIv
  }

  // ----- the wire format -----

  function Header(ctype: byte, epoch: nat, seqNo: nat, length: nat): (h: seq<byte>)
    ensures |h| == RH_LENGTH
  {
    [ctype] + BigEndian(VERSION, 2) + BigEndian(epoch, 2) + BigEndian(seqNo, 6) + BigEndian(length, 2)
  }

  function Nonce(iv: seq<byte>, explicit: seq<byte>): Block
    requires |iv| == IV_LENGTH && |explicit| == 8
  {
    iv + explicit + Zeros(4)
  }

  /** Epoch and sequence number, type and version, and the plaintext length. */
  function Aad(header: seq<byte>, length: nat): seq<byte>
    requires |header| == RH_LENGTH
  {
    header[3..11] + header[0..3] + BigEndian(length, 2)
  }

  /** The fragment of a record: the payload, or the explicit nonce and the sealed payload. */
  function Fragment(aes: seq<byte> -> Cipher, k: KeyMaterial, role: Role, suite: Suite,
                    ctype: byte, epoch: nat, seqNo: nat, payload: seq<byte>): seq<byte>
    requires ValidKeys(k)
  {
    match suite
    case NullNull => payload
    case Aes128Ccm8 =>
      var h := Header(ctype, epoch, seqNo, 0);
      h[3..11] + Seal(aes(LocalKey(k, role)), 8, 3, Nonce(LocalIv(k, role), h[3..11]), payload, Aad(h, |payload|))
  }

  function WireRecord(aes: seq<byte> -> Cipher, k: KeyMaterial, role: Role, suite: Suite,
                  ctype: byte, epoch: nat, seqNo: nat, payload: seq<byte>): seq<byte>
    requires ValidKeys(k)
  {
    var f := Fragment(aes, k, role, suite, ctype, epoch, seqNo, payload);
    Header(ctype, epoch, seqNo, |f|) + f
  }

  /** What the receiver in the given role takes out of a packet. */
  function OpenRecord(aes: seq<byte> -> Cipher, k: KeyMaterial, role: Role, suite: Suite,
                      packet: seq<byte>): Option<seq<byte>>
    requires ValidKeys(k) && |packet| >= RH_LENGTH
  {
    match suite
    case NullNull => Some(packet[RH_LENGTH..])
    case Aes128Ccm8 =>
      if |packet| < RH_LENGTH + 16 then None
      else
        Open(aes(RemoteKey(k, role)), 8, 3, Nonce(RemoteIv(k, role), packet[13..21]), packet[21..],
             Aad(packet[..RH_LENGTH], |packet| - RH_LENGTH - 16))
  }

  /** Whatever one side protects, the other side recovers. */
  lemma RecordRoundTrip(aes: seq<byte> -> Cipher, k: KeyMaterial, role: Role, suite: Suite,
                        ctype: byte, epoch: nat, seqNo: nat, payload: seq<byte>)
    requires ValidKeys(k)
    ensures var r := WireRecord(aes, k, role, suite, ctype, epoch, seqNo, payload);
            OpenRecord(aes, k, Opposite(role), suite, r) == Some(payload)
  {
    hide Header, Seal, Open, Nonce;
    var f := Fragment(aes, k, role, suite, ctype, epoch, seqNo, payload);
    var h, h0 := Header(ctype, epoch, seqNo, |f|), Header(ctype, epoch, seqNo, 0);
    if suite == NullNull {
      assert (h + f)[RH_LENGTH..] == f;
    } else {
      HeaderPrefix(ctype, epoch, seqNo, |f|);
      var E, nonce, aad := aes(LocalKey(k, role)), Nonce(LocalIv(k, role), h0[3..11]), Aad(h0, |payload|);
      var sealed := Seal(E, 8, 3, nonce, payload, aad);
      Behind(h, h0[3..11], sealed);
      OpenIffSealed(E, 8, 3, nonce, sealed, payload, aad);
    }
  }

  /** Everything in front of the length field does not depend on the length. */
  lemma HeaderPrefix(ctype: byte, epoch: nat, seqNo: nat, length: nat)
    ensures Header(ctype, epoch, seqNo, length)[3..11] == Header(ctype, epoch, seqNo, 0)[3..11]
    ensures Header(ctype, epoch, seqNo, length)[0..3] == Header(ctype, epoch, seqNo, 0)[0..3]
  {}

  lemma Behind(h: seq<byte>, x: seq<byte>, s: seq<byte>)
    requires |h| == RH_LENGTH && |x| == 8
    ensures var r := h + (x + s); r[..RH_LENGTH] == h && r[13..21] == x && r[21..] == s
  {}

  /** Only the sealed payload opens: nothing else under the same header is accepted. */
  lemma OnlySealedOpens(aes: seq<byte> -> Cipher, k: KeyMaterial, role: Role, packet: seq<byte>, payload: seq<byte>)
    requires ValidKeys(k) && |packet| >= RH_LENGTH + 16
    ensures OpenRecord(aes, k, role, Aes128Ccm8, packet) == Some(payload)
       <==> packet[21..] == Seal(aes(RemoteKey(k, role)), 8, 3, Nonce(RemoteIv(k, role), packet[13..21]), payload,
                                 Aad(packet[..RH_LENGTH], |packet| - RH_LENGTH - 16))
  {
    OpenIffSealed(aes(RemoteKey(k, role)), 8, 3, Nonce(RemoteIv(k, role), packet[13..21]), packet[21..], payload,
                  Aad(packet[..RH_LENGTH], |packet| - RH_LENGTH - 16));
  }

  /** Two records of one key never share a nonce, while epoch and sequence number fit their fields. */
  lemma NonceUnique(iv: seq<byte>, ctype: byte, ctype': byte, epoch: nat, epoch': nat, seqNo: nat, seqNo': nat)
    requires |iv| == IV_LENGTH
    requires epoch < 0x1_0000 && epoch' < 0x1_0000 && seqNo < 0x1_0000_0000_0000 && seqNo' < 0x1_0000_0000_0000
    requires Nonce(iv, Header(ctype, epoch, seqNo, 0)[3..11]) == Nonce(iv, Header(ctype', epoch', seqNo', 0)[3..11])
    ensures epoch == epoch' && seqNo == seqNo'
  {
    var h, h' := Header(ctype, epoch, seqNo, 0), Header(ctype', epoch', seqNo', 0);
    var n, n' := Nonce(iv, h[3..11]), Nonce(iv, h'[3..11]);
    assert n[4..6] == h[3..5] == BigEndian(epoch, 2) && n'[4..6] == h'[3..5] == BigEndian(epoch', 2);
    assert n[6..12] == h[5..11] == BigEndian(seqNo, 6) && n'[6..12] == h'[5..11] == BigEndian(seqNo', 6);
    PowValues();
    BigEndianInjective(epoch, epoch', 2);
    BigEndianInjective(seqNo, seqNo', 6);
  }

  // ----- the fields on the wire -----

  lemma ReadField(v: nat, n: nat)
    requires v < Pow256(n)
    ensures FromBigEndian(BigEndian(v, n)) == v
  {
    ReadBack(v, n);
    Unreduced(v, Pow256(n));
  }

  lemma Unreduced(x: nat, m: nat)
    requires x < m
    ensures x % m == x
  {}

  /** The header of a record (section 4.1 of RFC 6347), read field by field. */
  lemma HeaderFields(ctype: byte, epoch: nat, seqNo: nat, length: nat)
    requires epoch < 0x1_0000 && seqNo < 0x1_0000_0000_0000 && length < 0x1_0000
    ensures var h := Header(ctype, epoch, seqNo, length);
            && h[0] == ctype && FromBigEndian(h[1..3]) == 0xFEFD && FromBigEndian(h[3..5]) == epoch
            && FromBigEndian(h[5..11]) == seqNo && FromBigEndian(h[11..13]) == length
  {
    hide BigEndian, FromBigEndian, Pow256;
    PowValues();
    ReadField(VERSION, 2);
    ReadField(epoch, 2);
    ReadField(seqNo, 6);
    ReadField(length, 2);
    var h := Header(ctype, epoch, seqNo, length);
    assert h[1..3] == BigEndian(VERSION, 2) && h[3..5] == BigEndian(epoch, 2);
    assert h[5..11] == BigEndian(seqNo, 6) && h[11..13] == BigEndian(length, 2);
  }

  /** The additional data of a record (section 6.2.3.3 of RFC 5246): epoch, number, type, version and payload length. */
  lemma AadFields(ctype: byte, epoch: nat, seqNo: nat, length: nat, n: nat)
    requires epoch < 0x1_0000 && seqNo < 0x1_0000_0000_0000 && n < 0x1_0000
    ensures var a := Aad(Header(ctype, epoch, seqNo, length), n);
            && |a| == 13 && FromBigEndian(a[..2]) == epoch && FromBigEndian(a[2..8]) == seqNo && a[8] == ctype
            && FromBigEndian(a[9..11]) == 0xFEFD && FromBigEndian(a[11..]) == n
  {
    hide BigEndian, FromBigEndian, Pow256;
    PowValues();
    ReadField(VERSION, 2);
    ReadField(epoch, 2);
    ReadField(seqNo, 6);
    ReadField(n, 2);
    var h := Header(ctype, epoch, seqNo, length);
    var a := Aad(h, n);
    assert h[3..11] == BigEndian(epoch, 2) + BigEndian(seqNo, 6) && h[0..3] == [ctype] + BigEndian(VERSION, 2);
    assert a[..2] == BigEndian(epoch, 2) && a[2..8] == BigEndian(seqNo, 6);
    assert a[9..11] == BigEndian(VERSION, 2) && a[11..] == BigEndian(n, 2);
  }

  /** The nonce is the implicit part, the explicit part as it stands in the record, and zeros where CCM counts. */
  lemma NonceParts(iv: seq<byte>, explicit: seq<byte>)
    requires |iv| == IV_LENGTH && |explicit| == 8
    ensures Nonce(iv, explicit)[..4] == iv && Nonce(iv, explicit)[4..12] == explicit
  {}

  /**
   Whatever is changed in a header in front of its length, content type and version included, the same payload gets
   another MAC state: the sealed payload is tied to its header.
   */
  lemma HeaderAuthenticated(E: Cipher, nonce: Block, payload: seq<byte>, h: seq<byte>, h': seq<byte>)
    requires Injective(E) && |h| == RH_LENGTH == |h'| && h[..11] != h'[..11]
    ensures Mac(E, 8, 3, nonce, payload, Aad(h, |payload|)) != Mac(E, 8, 3, nonce, payload, Aad(h', |payload|))
  {
    var a, b := Aad(h, |payload|), Aad(h', |payload|);
    assert a[8..11] == h[0..3] && a[..8] == h[3..11] && b[8..11] == h'[0..3] && b[..8] == h'[3..11];
    assert h[..11] == h[0..3] + h[3..11] && h'[..11] == h'[0..3] + h'[3..11];
    hide Mac, Injective, Aad;
    AadMatters(E, 8, 3, nonce, payload, a, b, 0);
  }

  /**
   Each side protects with its own key and IV, and the other side opens with those; the remaining ones play no part.
   */
  lemma OwnKeys(aes: seq<byte> -> Cipher, k: KeyMaterial, x: seq<byte>, y: seq<byte>, suite: Suite, ctype: byte,
                epoch: nat, seqNo: nat, payload: seq<byte>, packet: seq<byte>)
    requires ValidKeys(k) && |y| == IV_LENGTH && |packet| >= RH_LENGTH
    ensures var other := k.(serverKey := x, serverIv := y);
            && WireRecord(aes, k, Client, suite, ctype, epoch, seqNo, payload)
               == WireRecord(aes, other, Client, suite, ctype, epoch, seqNo, payload)
            && OpenRecord(aes, k, Server, suite, packet) == OpenRecord(aes, other, Server, suite, packet)
    ensures var other := k.(clientKey := x, clientIv := y);
            && WireRecord(aes, k, Server, suite, ctype, epoch, seqNo, payload)
               == WireRecord(aes, other, Server, suite, ctype, epoch, seqNo, payload)
            && OpenRecord(aes, k, Client, suite, packet) == OpenRecord(aes, other, Client, suite, packet)
  {
    hide Header, Seal, Open, Nonce, Aad;
  }

  lemma PowValues()
    ensures Pow256(2) == 0x1_0000 && Pow256(6) == 0x1_0000_0000_0000
  {
    assert Pow256(1) == 256;
    assert Pow256(3) == 256 * Pow256(2);
    assert Pow256(4) == 256 * Pow256(3);
    assert Pow256(5) == 256 * Pow256(4);
  }

  // ----- building a record in the send buffer -----

  /** The security parameters of one epoch. */
  class Security {
    var suite: Suite
    var epoch: nat
    var rseq: nat                // sequence number of the next record sent
    var keys: KeyMaterial
    var cseq: nat                // newest record number received
    var bitfield: nat            // 64 bits; bit i: record cseq - i was received

    constructor (suite: Suite, epoch: nat, keys: KeyMaterial)
      ensures this.suite == suite && this.epoch == epoch && this.keys == keys
      ensures rseq == 0 && cseq == 0 && bitfield == 0
    {
      this.suite, this.epoch, this.keys := suite, epoch, keys;
      rseq, cseq, bitfield := 0, 0, 0;
    }
  }

  function Flatten(data: seq<seq<byte>>): seq<byte> {
    if |data| == 0 then [] else Flatten(data[..|data| - 1]) + data[|data| - 1]
  }

  // ----- what building a record writes, and where -----

  /** A record of this size has been built, or refused with internal_error, or bytes were written behind the buffer. */
  datatype Prepared = Ready(size: nat) | Refused | Overrun

  /** The copy loop takes all pieces: it compares each end with the limit before it copies. */
  predicate Accepted(data: seq<seq<byte>>, at: nat, limit: nat) {
    |data| == 0 || at + |Flatten(data)| <= limit
  }

  /** The outcome for an encrypted record: the loop does not count the tag, and the nonce is written before it. */
  function Protecting(data: seq<seq<byte>>, limit: nat, capacity: nat): Prepared {
    if capacity < RH_LENGTH + 8 then Overrun
    else if !Accepted(data, RH_LENGTH + 8, limit) then Refused
    else if capacity < RH_LENGTH + 16 + |Flatten(data)| then Overrun
    else Ready(16 + |Flatten(data)|)
  }

  function PreparingFragment(suite: Suite, data: seq<seq<byte>>, limit: nat, capacity: nat): Prepared {
    if suite != NullNull then Protecting(data, limit, capacity)
    else if Accepted(data, RH_LENGTH, limit) then Ready(|Flatten(data)|)
    else Refused
  }

  function Preparing(suite: Suite, data: seq<seq<byte>>, limit: nat, capacity: nat): Prepared {
    if limit < RH_LENGTH then Refused
    else
      match PreparingFragment(suite, data, limit, capacity)
      case Ready(n) => Ready(RH_LENGTH + n)
      case other => other
  }

  /** A stretch of the buffer that is written. */
  datatype Region = Region(from: nat, to: nat)

  /** One region for each piece that is copied. */
  function CopyWrites(data: seq<seq<byte>>, at: nat, limit: nat): seq<Region> {
    if |data| == 0 then []
    else
      var front := data[..|data| - 1];
      CopyWrites(front, at, limit)
      + (if at + |Flatten(data)| <= limit then [Region(at + |Flatten(front)|, at + |Flatten(data)|)] else [])
  }

  /** All that is written for a record: header, explicit nonce, pieces, the sealed payload with its tag, the length. */
  function Writes(suite: Suite, data: seq<seq<byte>>, limit: nat): seq<Region> {
    if limit < RH_LENGTH then []
    else
      var at := if suite == NullNull then RH_LENGTH else RH_LENGTH + 8;
      var end := at + |Flatten(data)|;
      [Region(0, RH_LENGTH)] + (if suite == NullNull then [] else [Region(RH_LENGTH, at)]) + CopyWrites(data, at, limit)
      + (if !Accepted(data, at, limit) then []
         else (if suite == NullNull then [] else [Region(at, end + 8)]) + [Region(RH_LENGTH - 2, RH_LENGTH)])
  }

  ghost predicate Inside(writes: seq<Region>, capacity: nat) {
    forall w :: w in writes ==> w.to <= capacity
  }

  lemma {:induction false} CopyInside(data: seq<seq<byte>>, at: nat, limit: nat, capacity: nat)
    requires limit <= capacity
    ensures Inside(CopyWrites(data, at, limit), capacity)
  {
    hide Flatten;
    if |data| > 0 {
      CopyInside(data[..|data| - 1], at, limit, capacity);
    }
  }

  /**
   Exactly when everything that is written lies in the buffer: an unprotected record always does; a protected
   one needs room for the explicit nonce even when it is refused, and for the tag, which the size test leaves out.
   */
  lemma WritesInside(suite: Suite, data: seq<seq<byte>>, limit: nat, capacity: nat)
    requires limit <= capacity
    ensures Inside(Writes(suite, data, limit), capacity) <==>
            || limit < RH_LENGTH || suite == NullNull
            || (&& RH_LENGTH + 8 <= capacity
                && (Accepted(data, RH_LENGTH + 8, limit) ==> RH_LENGTH + 16 + |Flatten(data)| <= capacity))
  {
    if limit >= RH_LENGTH {
      var at := if suite == NullNull then RH_LENGTH else RH_LENGTH + 8;
      CopyInside(data, at, limit, capacity);
      hide Flatten, CopyWrites, Accepted;
      if suite != NullNull {
        assert Region(RH_LENGTH, at) in Writes(suite, data, limit);
        if Accepted(data, at, limit) {
          assert Region(at, at + |Flatten(data)| + 8) in Writes(suite, data, limit);
        }
      }
    }
  }

  /** The outcome Overrun stands for exactly the calls that write behind the buffer. */
  lemma OverrunIsOutside(suite: Suite, data: seq<seq<byte>>, limit: nat, capacity: nat)
    requires limit <= capacity
    ensures Preparing(suite, data, limit, capacity) == Overrun <==> !Inside(Writes(suite, data, limit), capacity)
  {
    WritesInside(suite, data, limit, capacity);
    hide Flatten, Writes, Inside;
  }

  /** When building a record is refused, and how long it is otherwise: as long as the wire record. */
  lemma PreparedSize(suite: Suite, data: seq<seq<byte>>, limit: nat, capacity: nat, aes: seq<byte> -> Cipher,
                     k: KeyMaterial, role: Role, ctype: byte, epoch: nat, seqNo: nat)
    requires ValidKeys(k)
    ensures var res, n := Preparing(suite, data, limit, capacity), |Flatten(data)|;
            && (res == Refused <==>
                  || limit < 13
                  || (suite == NullNull && data != [] && 13 + n > limit)
                  || (suite == Aes128Ccm8 && capacity >= 21 && data != [] && 21 + n > limit))
            && (res.Ready? ==>
                  res.size == |WireRecord(aes, k, role, suite, ctype, epoch, seqNo, Flatten(data))|
                           == if suite == NullNull then 13 + n else 29 + n)
  {
    hide Flatten, Header, Nonce, Aad, Seal;
  }

  const MAX_BUF := 1400

  /** As the program calls it, with a whole 1400-byte buffer as the limit: payloads of 1372 to 1379 bytes overrun it. */
  lemma TagBehindBuffer(payload: seq<byte>)
    ensures Preparing(Aes128Ccm8, [payload], MAX_BUF, MAX_BUF) == Overrun <==> 1372 <= |payload| <= 1379
    ensures |payload| == 1379 ==> Region(21, 1408) in Writes(Aes128Ccm8, [payload], MAX_BUF)
  {
    assert Flatten([payload]) == payload by {
      assert [payload][..0] == [] && Flatten([]) + payload == payload;
    }
  }

  /** Writes the header with an empty length field and moves to the next sequence number. */
  method SetRecordHeader(ctype: byte, security: Security, sendbuf: array<byte>)
    requires sendbuf.Length >= RH_LENGTH
    modifies security`rseq, sendbuf
    ensures sendbuf[..] == Splice(old(sendbuf[..]), 0, Header(ctype, security.epoch, old(security.rseq), 0))
    ensures security.rseq == (old(security.rseq) + 1) % 0x1_0000_0000_0000_0000
  {
    Memcpy(sendbuf, 0, [ctype] + BigEndian(VERSION, 2) + BigEndian(security.epoch, 2)
                       + BigEndian(security.rseq, 6) + BigEndian(0, 2));
    security.rseq := (security.rseq + 1) % 0x1_0000_0000_0000_0000;
  }

  /** The copy loop: appends all payloads from at on, or stops when the limit would be passed. */
  method AppendAll(data: seq<seq<byte>>, sendbuf: array<byte>, at: nat, limit: nat) returns (end: Option<nat>)
    requires limit <= sendbuf.Length && at <= sendbuf.Length
    modifies sendbuf
    ensures end.Some? <==> Accepted(data, at, limit)
    ensures end.Some? ==>
              && end.value == at + |Flatten(data)| <= sendbuf.Length
              && sendbuf[..] == Splice(old(sendbuf[..]), at, Flatten(data))
  {
    ghost var buf0 := sendbuf[..];
    SpliceSame(buf0, at, 0);
    var p, i := at, 0;
    while i < |data|
      invariant 0 <= i <= |data| && p == at + |Flatten(data[..i])| <= sendbuf.Length
      invariant i > 0 ==> p <= limit
      invariant sendbuf[..] == Splice(buf0, at, Flatten(data[..i]))
    {
      assert data[..i + 1][..i] == data[..i];
      if limit < p + |data[i]| {
        FlattenGrows(data, i + 1);
        return None;
      }
      SpliceTwo(buf0, at, Flatten(data[..i]), data[i]);
      Memcpy(sendbuf, p, data[i]);
      p, i := p + |data[i]|, i + 1;
    }
    assert data[..|data|] == data;
    return Some(p);
  }

  lemma {:induction false} FlattenGrows(data: seq<seq<byte>>, i: nat)
    requires i <= |data|
    ensures |Flatten(data[..i])| <= |Flatten(data)|
    decreases |data|
  {
    if i < |data| {
      FlattenGrows(data[..|data| - 1], i);
      assert data[..|data| - 1][..i] == data[..i];
    } else {
      assert data[..i] == data;
    }
  }

  /** Explicit nonce, payload and tag behind the header; the size is that of the fragment. */
  method ProtectFragment(E: Cipher, iv: seq<byte>, data: seq<seq<byte>>, sendbuf: array<byte>, limit: nat,
                         ghost h: seq<byte>) returns (res: Prepared)
    requires |iv| == IV_LENGTH && RH_LENGTH <= limit <= sendbuf.Length
    requires |h| == RH_LENGTH && sendbuf[..][..RH_LENGTH] == h
    modifies sendbuf
    ensures res == Protecting(data, limit, sendbuf.Length)
    ensures res.Ready? ==>
              var f := h[3..11] + Seal(E, 8, 3, Nonce(iv, h[3..11]), Flatten(data), Aad(h, |Flatten(data)|));
              && res.size == |f| && RH_LENGTH + |f| <= sendbuf.Length
              && sendbuf[..] == Splice(old(sendbuf[..]), RH_LENGTH, f)
  {
    hide Seal, Nonce, Aad, Flatten;
    if sendbuf.Length < RH_LENGTH + 8 {
      return Overrun;
    }
    ghost var buf0 := sendbuf[..];
    var explicit := sendbuf[..][3..11];
    assert explicit == h[3..11] by { assert buf0[..RH_LENGTH][3..11] == buf0[3..11]; }
    Memcpy(sendbuf, RH_LENGTH, explicit);
    var end := AppendAll(data, sendbuf, RH_LENGTH + 8, limit);
    if end == None {
      return Refused;
    }
    if sendbuf.Length < end.value + 8 {
      return Overrun;
    }
    ghost var payload := Flatten(data);
    SpliceTwo(buf0, RH_LENGTH, explicit, payload);
    var r := SealInPlace(E, iv, sendbuf, end.value - RH_LENGTH - 8, buf0, explicit, payload, h);
    res := Ready(r + 8);
  }

  /** Encrypts the payload that stands behind header and explicit nonce; the result is its sealed length. */
  method SealInPlace(E: Cipher, iv: seq<byte>, sendbuf: array<byte>, n: nat, ghost buf0: seq<byte>, explicit: seq<byte>,
                     ghost payload: seq<byte>, ghost h: seq<byte>) returns (r: nat)
    requires |iv| == IV_LENGTH && |explicit| == 8 && |payload| == n && RH_LENGTH + 16 + n <= sendbuf.Length == |buf0|
    requires |h| == RH_LENGTH && buf0[..RH_LENGTH] == h && sendbuf[..] == Splice(buf0, RH_LENGTH, explicit + payload)
    modifies sendbuf
    ensures var sealed := Seal(E, 8, 3, Nonce(iv, explicit), payload, Aad(h, n));
            r == |sealed| && sendbuf[..] == Splice(buf0, RH_LENGTH, explicit + sealed)
  {
    hide *;
    SpliceParts(buf0, RH_LENGTH, explicit + payload);
    var header := sendbuf[..][..RH_LENGTH];
    assert sendbuf[..][RH_LENGTH + 8..RH_LENGTH + 8 + n] == payload by {
      assert sendbuf[..][RH_LENGTH..RH_LENGTH + 8 + n] == explicit + payload;
    }
    SizesRecord();
    r := EncryptMessage(E, 8, 3, Nonce(iv, explicit), sendbuf, RH_LENGTH + 8, n, Aad(header, n));
    Rewrite(buf0, RH_LENGTH, explicit, payload, Seal(E, 8, 3, Nonce(iv, explicit), payload, Aad(h, n)));
  }

  lemma SizesRecord()
    ensures Sizes(8, 3)
  {}

  /** Replacing what was put behind a by something longer. */
  lemma Rewrite(s: seq<byte>, at: nat, a: seq<byte>, b: seq<byte>, c: seq<byte>)
    requires |b| <= |c| && at + |a| + |c| <= |s|
    ensures Splice(Splice(s, at, a + b), at + |a|, c) == Splice(s, at, a + c)
  {}

  /** Filling in the length field of the header in front of the fragment. */
  lemma FixLength(s: seq<byte>, ctype: byte, epoch: nat, seqNo: nat, f: seq<byte>)
    requires RH_LENGTH + |f| <= |s|
    ensures Splice(Splice(Splice(s, 0, Header(ctype, epoch, seqNo, 0)), RH_LENGTH, f), 11, BigEndian(|f|, 2))
         == Splice(s, 0, Header(ctype, epoch, seqNo, |f|) + f)
  {
    var h, h' := Header(ctype, epoch, seqNo, 0), Header(ctype, epoch, seqNo, |f|);
    assert h[..11] == h'[..11] && h'[11..] == BigEndian(|f|, 2);
    FixTail(s, h, h', f, BigEndian(|f|, 2));
  }

  lemma FixTail(s: seq<byte>, h: seq<byte>, h': seq<byte>, f: seq<byte>, len: seq<byte>)
    requires |h| == |h'| == RH_LENGTH && RH_LENGTH + |f| <= |s|
    requires h[..11] == h'[..11] && h'[11..] == len && |len| == 2
    ensures Splice(Splice(Splice(s, 0, h), RH_LENGTH, f), 11, len) == Splice(s, 0, h' + f)
  {
    SpliceTwo(s, 0, h, f);
    assert h + f == h[..11] + (h[11..] + f);
    assert h' == h[..11] + len;
  }

  /**
   Builds one record from the payload pieces in sendbuf, with limit as the size the caller passes.
   Overrun means that bytes are written behind sendbuf; nothing is said about what happens then.
   */
  method PrepareRecord(aes: seq<byte> -> Cipher, security: Security, role: Role, ctype: byte,
                       data: seq<seq<byte>>, sendbuf: array<byte>, limit: nat) returns (res: Prepared)
    requires limit <= sendbuf.Length
    requires ValidKeys(security.keys)
    modifies security`rseq, sendbuf
    ensures res == Preparing(security.suite, data, limit, sendbuf.Length)
    ensures res.Ready? ==>
              var r := WireRecord(aes, security.keys, role, security.suite, ctype, security.epoch, old(security.rseq),
                                  Flatten(data));
              res.size == |r| <= sendbuf.Length && sendbuf[..] == Splice(old(sendbuf[..]), 0, r)
    ensures security.rseq == if limit < RH_LENGTH then old(security.rseq)
                             else (old(security.rseq) + 1) % 0x1_0000_0000_0000_0000
  {
    if limit < RH_LENGTH {
      return Refused;
    }
    ghost var buf0, seqNo := sendbuf[..], security.rseq;
    SetRecordHeader(ctype, security, sendbuf);
    InFront(buf0, Header(ctype, security.epoch, seqNo, 0));
    var fragment := PutFragment(aes, security, role, ctype, seqNo, data, sendbuf, limit);
    if !fragment.Ready? {
      return fragment;
    }
    hide Flatten, Splice, Header, Fragment, Protecting, Accepted, BigEndian;
    ghost var f := Fragment(aes, security.keys, role, security.suite, ctype, security.epoch, seqNo, Flatten(data));
    FixLength(buf0, ctype, security.epoch, seqNo, f);
    Memcpy(sendbuf, 11, BigEndian(fragment.size, 2));
    res := Ready(RH_LENGTH + fragment.size);
  }

  /** The fragment behind the header: the payload as it is, or protected. */
  method PutFragment(aes: seq<byte> -> Cipher, security: Security, role: Role, ctype: byte, ghost seqNo: nat,
                     data: seq<seq<byte>>, sendbuf: array<byte>, limit: nat) returns (res: Prepared)
    requires RH_LENGTH <= limit <= sendbuf.Length && ValidKeys(security.keys)
    requires sendbuf[..][..RH_LENGTH] == Header(ctype, security.epoch, seqNo, 0)
    modifies sendbuf
    ensures res == PreparingFragment(security.suite, data, limit, sendbuf.Length)
    ensures res.Ready? ==>
              var f := Fragment(aes, security.keys, role, security.suite, ctype, security.epoch, seqNo, Flatten(data));
              && res.size == |f| && RH_LENGTH + |f| <= sendbuf.Length
              && sendbuf[..] == Splice(old(sendbuf[..]), RH_LENGTH, f)
  {
    hide Flatten, Splice, Seal, Header, Nonce, Aad;
    ghost var h := Header(ctype, security.epoch, seqNo, 0);
    if security.suite == NullNull {
      var end := AppendAll(data, sendbuf, RH_LENGTH, limit);
      res := if end == None then Refused else Ready(end.value - RH_LENGTH);
    } else {
      var iv, key := LocalIv(security.keys, role), LocalKey(security.keys, role);
      res := ProtectFragment(aes(key), iv, data, sendbuf, limit, h);
    }
  }

  // ----- the two epochs of a peer -----

  /** The current parameters, the other ones, and the read epoch while a handshake is running. */
  class Peer {
    const role: Role
    var current: Security?
    var other: Security?
    var readEpoch: Option<nat>

    ghost predicate Valid()
      reads this, current, other
    {
      && (current != null ==> ValidKeys(current.keys))
      && (other != null ==> ValidKeys(other.keys))
    }

    constructor (role: Role, first: Security)
      ensures this.role == role && current == first && other == null && readEpoch == None
    {
      this.role, current, other, readEpoch := role, first, null, None;
    }

    function ParamsEpoch(epoch: nat): (s: Security?)
      reads this, current, other
      ensures s != null ==> s.epoch == epoch
      ensures s == null <==> (current == null || current.epoch != epoch) && (other == null || other.epoch != epoch)
    {
      if current != null && current.epoch == epoch then current
      else if other != null && other.epoch == epoch then other
      else null
    }

    /** The parameters a record of this epoch is read with: outside a handshake only the current ones. */
    function ParamsReadEpoch(epoch: nat): (s: Security?)
      reads this, current, other
      ensures s != null ==> s.epoch == epoch
    {
      if readEpoch.Some? then (if readEpoch.value == epoch then ParamsEpoch(epoch) else null)
      else if current != null && current.epoch == epoch then current
      else null
    }

    /** Which parameters are found: outside a handshake the current ones only, in it only those of its read epoch. */
    lemma ReadEpochFinds(epoch: nat)
      ensures var s, fits := ParamsReadEpoch(epoch), current != null && current.epoch == epoch;
              && (readEpoch == None ==> s == if fits then current else null)
              && (readEpoch.Some? && readEpoch.value != epoch ==> s == null)
              && (readEpoch == Some(epoch) ==>
                    s == if fits then current else if other != null && other.epoch == epoch then other else null)
    {}

    /** Fresh parameters for the next epoch in the second slot. */
    method Next(suite: Suite, keys: KeyMaterial) returns (s: Security)
      requires current != null && ValidKeys(keys)
      modifies this`other
      ensures fresh(s) && other == s && s.epoch == (current.epoch + 1) % 0x1_0000
      ensures s.suite == suite && s.keys == keys && s.bitfield == 0 && s.rseq == 0
    {
      s := new Security(suite, (current.epoch + 1) % 0x1_0000, keys);
      other := s;
    }

    method Switch()
      modifies this`current, this`other
      ensures current == old(other) && other == old(current)
    {
      current, other := other, current;
    }

    /** Forgets the second slot once the current epoch has reached it. */
    method FreeOther()
      modifies this`other
      ensures other == if current != null && old(other) != null && current.epoch >= old(other.epoch) then null
                       else old(other)
    {
      if current == null || other == null || current.epoch < other.epoch {
        return;
      }
      other := null;
    }

    /** Starting the next epoch and switching to it: both epochs can be looked up until the old one is freed. */
    method StartNextEpoch(suite: Suite, keys: KeyMaterial)
      requires current != null && ValidKeys(keys) && current.epoch < 0xFFFF
      modifies this`current, this`other
      ensures current != null && fresh(current) && current.epoch == old(current.epoch) + 1 && other == old(current)
      ensures ParamsEpoch(current.epoch) == current && ParamsEpoch(old(current.epoch)) == old(current)
    {
      var s := Next(suite, keys);
      Switch();
    }
  }

  /**
   Checks and decrypts a record in place. The result is the payload length, or -1; the payload
   starts behind the header or, with encryption, behind the explicit nonce. A record that decrypts
   confirms the current epoch, so an older second slot is dropped.
   */
  method DecryptVerify(aes: seq<byte> -> Cipher, peer: Peer, packet: array<byte>, length: nat)
      returns (clen: int, cleartext: nat)
    requires RH_LENGTH <= length <= packet.Length && peer.Valid()
    modifies packet, peer`other
    ensures cleartext <= length && clen >= -1
    ensures var security := old(peer.ParamsReadEpoch(FromBigEndian(packet[..][3..5])));
            clen == if security == null then -1
                    else
                      match OpenRecord(aes, old(security.keys), peer.role, old(security.suite),
                          old(packet[..])[..length])
                      case Some(m) => |m|
                      case None => -1
    ensures var security := old(peer.ParamsReadEpoch(FromBigEndian(packet[..][3..5])));
            clen >= 0 ==>
              && cleartext + clen <= length
              && OpenRecord(aes, old(security.keys), peer.role, old(security.suite), old(packet[..])[..length])
                 == Some(packet[..][cleartext..cleartext + clen])
    ensures peer.other
         == if clen >= 0 && old(peer.ParamsReadEpoch(FromBigEndian(packet[..][3..5])).suite) == Aes128Ccm8
               && peer.current != null && old(peer.other) != null && peer.current.epoch >= old(peer.other.epoch)
            then null else old(peer.other)
    ensures packet[..][..RH_LENGTH] == old(packet[..])[..RH_LENGTH] && packet[..][length..] == old(packet[..])[length..]
  {
    var security := peer.ParamsReadEpoch(FromBigEndian(packet[..][3..5]));
    cleartext, clen := RH_LENGTH, length - RH_LENGTH;
    if security == null {
      return -1, cleartext;
    }
    ghost var p0 := packet[..][..length];
    if security.suite == NullNull {
      assert p0[RH_LENGTH..] == packet[..][RH_LENGTH..length];
      return;
    }
    if clen < 16 {
      return -1, cleartext;
    }
    hide Open, Nonce, Aad, FromBigEndian;
    cleartext, clen := cleartext + 8, clen - 8;
    var nonce := Nonce(RemoteIv(security.keys, peer.role), packet[..][13..21]);
    var aad := Aad(packet[..][..RH_LENGTH], clen - 8);
    PacketParts(packet[..], length);
    clen := OpenInPlace(aes(RemoteKey(security.keys, peer.role)), nonce, packet, length, aad);
    if clen >= 0 {
      peer.FreeOther();
    }
  }

  lemma PacketParts(p: seq<byte>, length: nat)
    requires RH_LENGTH + 16 <= length <= |p|
    ensures var p0 := p[..length];
            p0[13..21] == p[13..21] && p0[21..] == p[21..length] && p0[..RH_LENGTH] == p[..RH_LENGTH]
  {}

  /** Decrypts what stands behind header and explicit nonce. */
  method OpenInPlace(E: Cipher, nonce: Block, packet: array<byte>, length: nat, aad: seq<byte>) returns (clen: int)
    requires RH_LENGTH + 16 <= length <= packet.Length
    modifies packet
    ensures match Open(E, 8, 3, nonce, old(packet[..])[21..length], aad)
            case Some(m) => clen == |m| && 21 + clen <= length && packet[..][21..21 + clen] == m
            case None => clen == -1
    ensures packet[..][..RH_LENGTH] == old(packet[..])[..RH_LENGTH] && packet[..][length..] == old(packet[..])[length..]
  {
    hide Open, Splice;
    ghost var p := packet[..];
    clen := DecryptMessage(E, 8, 3, nonce, packet, 21, length - 21, aad);
    assert packet[..][..RH_LENGTH] == packet[..][..21][..RH_LENGTH] == p[..21][..RH_LENGTH];
  }

  // ----- both ends -----

  /** The epoch read from a record is the one its sender's parameters are for. */
  lemma EpochReadBack(aes: seq<byte> -> Cipher, k: KeyMaterial, role: Role, suite: Suite,
                      ctype: byte, epoch: nat, seqNo: nat, payload: seq<byte>)
    requires ValidKeys(k) && epoch < 0x1_0000
    ensures var r := WireRecord(aes, k, role, suite, ctype, epoch, seqNo, payload);
            |r| >= RH_LENGTH && FromBigEndian(r[3..5]) == epoch
  {
    hide Fragment, BigEndian, FromBigEndian;
    ReadBack(epoch, 2);
    TwoBytesFit(epoch);
    var r := WireRecord(aes, k, role, suite, ctype, epoch, seqNo, payload);
    assert r[3..5] == BigEndian(epoch, 2);
  }

  lemma TwoBytesFit(epoch: nat)
    requires epoch < 0x1_0000
    ensures epoch % Pow256(2) == epoch
  {
    assert Pow256(2) == 256 * Pow256(1) == 0x1_0000;
  }

  /**
   A record built by one peer and taken apart by its opposite, which reads this epoch with the same keys:
   whatever fits the buffer with its tag arrives.
   */
  method Deliver(aes: seq<byte> -> Cipher, security: Security, receiver: Peer, ctype: byte, data: seq<seq<byte>>,
                 packet: array<byte>) returns (res: Prepared, clen: int, cleartext: nat)
    requires ValidKeys(security.keys) && receiver.Valid() && security.epoch < 0x1_0000
    requires var theirs := receiver.ParamsReadEpoch(security.epoch);
             theirs != null && theirs.suite == security.suite && theirs.keys == security.keys
    modifies security`rseq, packet, receiver`other
    ensures res == Preparing(security.suite, data, packet.Length, packet.Length)
    ensures res.Ready? ==> clen == |Flatten(data)| && cleartext + clen <= packet.Length
                           && packet[..][cleartext..cleartext + clen] == Flatten(data)
  {
    hide Flatten, FromBigEndian, WireRecord, OpenRecord, Preparing, Splice;
    ghost var seqNo, buf0 := security.rseq, packet[..];
    var sender := Opposite(receiver.role);
    res := PrepareRecord(aes, security, sender, ctype, data, packet, packet.Length);
    clen, cleartext := -1, 0;
    if res.Ready? {
      ghost var r := WireRecord(aes, security.keys, sender, security.suite, ctype, security.epoch, seqNo,
          Flatten(data));
      EpochReadBack(aes, security.keys, sender, security.suite, ctype, security.epoch, seqNo, Flatten(data));
      RecordRoundTrip(aes, security.keys, sender, security.suite, ctype, security.epoch, seqNo, Flatten(data));
      InFront(buf0, r);
      clen, cleartext := DecryptVerify(aes, receiver, packet, res.size);
    }
  }

  lemma InFront(s: seq<byte>, r: seq<byte>)
    requires RH_LENGTH <= |r| <= |s|
    ensures Splice(s, 0, r)[..|r|] == r && Splice(s, 0, r)[3..5] == r[3..5]
  {}
}
