/**
 CoAP options (section 3.1 of RFC 7252): the length coding and its inverse, and the in-place join of
 Uri-Path options into one event name.
 */
module Options {
  import opened Wrappers
  import opened Octet
  import opened Bytes

  const SLASH: byte := 0x2F

  // ----- length coding -----

  /** The four-bit indicator for a value. */
  function Nibble(value: nat): (n: nat)
    ensures n <= 14
  {
    if value <= 12 then value else if value <= 0xFF + 13 then 13 else 14
  }

  /** The bytes that extend an indicator. */
  function Extended(nibble: nat, value: nat): seq<byte> {
    if nibble == 13 && value >= 13 then [((value - 13) % 256) as byte]
    else if nibble == 14 && value >= 269 then [((value - 269) / 256 % 256) as byte, ((value - 269) % 256) as byte]
    else []
  }

  function FirstByte(delta: nat, length: nat): byte {
    ((Nibble(delta) as byte) << 4) | (Nibble(length) as byte)
  }

  /** Everything in front of the option's value. */
  function OptionHeader(delta: nat, length: nat): (h: seq<byte>)
    ensures |h| >= 1
  {
    [FirstByte(delta, length)] + Extended(Nibble(delta), delta) + Extended(Nibble(length), length)
  }

  function Option(delta: nat, data: seq<byte>): (o: seq<byte>)
    ensures |o| >= |data| + 1
  {
    OptionHeader(delta, |data|) + data
  }

  /** The bytes that decoding looks at are there. */
  predicate Readable(s: seq<byte>) {
    |s| >= 1 && (LowNibble(s[0]) == 13 ==> |s| >= 2) && (LowNibble(s[0]) == 14 ==> |s| >= 3)
  }

  /** The length of the option at the start of s and the number of bytes in front of its value; 15 is reserved. */
  function DecodeOption(s: seq<byte>): (nat, nat)
    requires Readable(s)
  {
    var nibble := LowNibble(s[0]);
    if nibble < 13 then (nibble, 1)
    else if nibble == 13 then (s[1] as nat + 13, 2)
    else if nibble == 14 then (s[1] as nat * 256 + s[2] as nat + 269, 3)
    else (0, 0)
  }

  function LowNibble(b: byte): (n: nat)
    ensures n < 16
  {
    (b & 0x0F) as nat
  }

  predicate HighNibbleZero(b: byte) {
    b & 0xF0 == 0
  }

  lemma NibbleBits(d: byte, l: byte)
    requires d <= 14 && l <= 14
    ensures ((d << 4) | l) & 0x0F == l
    ensures ((d << 4) | l) & 0xF0 == 0 <==> d == 0
    ensures ((d << 4) | l) >> 4 == d
  {}

  lemma SmallByte(x: nat)
    requires x < 256
    ensures (x as byte) as nat == x
  {
    ByteAsInt(x);
  }

  lemma NibbleByte(n: nat)
    requires n <= 14
    ensures n as byte <= 14 && (n as byte == 0 <==> n == 0)
  {
    ByteAsInt(n);
  }

  /** The first byte tells the length indicator, and whether the delta is zero. */
  lemma FirstByteFields(delta: nat, length: nat)
    ensures LowNibble(FirstByte(delta, length)) == Nibble(length)
    ensures (FirstByte(delta, length) >> 4) as nat == Nibble(delta)
    ensures HighNibbleZero(FirstByte(delta, length)) <==> delta == 0
  {
    var d, l := Nibble(delta), Nibble(length);
    NibbleByte(d);
    NibbleByte(l);
    NibbleBits(d as byte, l as byte);
    SmallByte(l);
    SmallByte(d);
  }

  lemma ExtendedValue(length: nat)
    requires length < 0x1_0000
    ensures var e := Extended(Nibble(length), length);
            && |e| == (if length <= 12 then 0 else if length <= 268 then 1 else 2)
            && (|e| == 1 ==> e[0] as nat + 13 == length)
            && (|e| == 2 ==> e[0] as nat * 256 + e[1] as nat + 269 == length)
  {
    if 12 < length <= 268 {
      SmallByte(length - 13);
    } else if length > 268 {
      SmallByte((length - 269) / 256);
      SmallByte((length - 269) % 256);
    }
  }

  /** Decoding undoes the length coding, and finds the value, exactly for options with a delta below 13. */
  lemma DecodeExact(delta: nat, data: seq<byte>, rest: seq<byte>)
    requires |data| < 0x1_0000 && delta < 0x1_0000
    ensures Readable(Option(delta, data) + rest)
    ensures DecodeOption(Option(delta, data) + rest) == (|data|, |OptionHeader(delta, |data|)|) <==> delta < 13
  {
    var e, f := Extended(Nibble(delta), delta), Extended(Nibble(|data|), |data|);
    FirstByteFields(delta, |data|);
    ExtendedValue(|data|);
    ExtendedValue(delta);
    var s := Option(delta, data) + rest;
    hide Extended, FirstByte, LowNibble;
    assert s[0] == FirstByte(delta, |data|);
    if delta < 13 {
      assert e == [];
      assert |f| >= 1 ==> s[1] == f[0];
      assert |f| >= 2 ==> s[2] == f[1];
    }
  }

  /** A delta or length of section 3.1 of RFC 7252: the indicator, and what its extension adds. */
  function FieldValue(indicator: nat, extension: seq<byte>): nat {
    if indicator == 13 then FromBigEndian(extension) + 13
    else if indicator == 14 then FromBigEndian(extension) + 269
    else indicator
  }

  function ExtensionSize(indicator: nat): (n: nat)
    ensures n <= 2
  {
    if indicator == 13 then 1 else if indicator == 14 then 2 else 0
  }

  /** What the section makes of the start of an option: delta, length, and the bytes in front of the value. */
  function ReadOption(s: seq<byte>): Wrappers.Option<(nat, nat, nat)> {
    if |s| == 0 then None
    else
      var d, l := (s[0] >> 4) as nat, (s[0] & 0x0F) as nat;
      var p := 1 + ExtensionSize(d);
      var q := p + ExtensionSize(l);
      if d == 15 || l == 15 || q > |s| then None
      else Some((FieldValue(d, s[1..p]), FieldValue(l, s[p..q]), q))
  }

  lemma ExtendedField(value: nat)
    requires value < 0x1_0000
    ensures var e := Extended(Nibble(value), value);
            |e| == ExtensionSize(Nibble(value)) && FieldValue(Nibble(value), e) == value
  {
    ExtendedValue(value);
    var e := Extended(Nibble(value), value);
    hide Extended, FromBigEndian;
    if |e| == 1 {
      OneByte(e);
    } else if |e| == 2 {
      TwoBytes(e);
    }
  }

  lemma OneByte(e: seq<byte>)
    requires |e| == 1
    ensures FromBigEndian(e) == e[0] as nat
  {
    assert e[..0] == [];
  }

  lemma TwoBytes(e: seq<byte>)
    requires |e| == 2
    ensures FromBigEndian(e) == e[0] as nat * 256 + e[1] as nat
  {
    OneByte(e[..1]);
  }

  /** Every option that is written is read back by the section's rules, whatever follows it. */
  lemma OptionReadBack(delta: nat, data: seq<byte>, rest: seq<byte>)
    requires delta < 0x1_0000 && |data| < 0x1_0000
    ensures var h := |OptionHeader(delta, |data|)|;
            && ReadOption(Option(delta, data) + rest) == Some((delta, |data|, h))
            && (Option(delta, data) + rest)[h..h + |data|] == data
  {
    var s := Option(delta, data) + rest;
    var e, f := Extended(Nibble(delta), delta), Extended(Nibble(|data|), |data|);
    FirstByteFields(delta, |data|);
    ExtendedField(delta);
    ExtendedField(|data|);
    var b := FirstByte(delta, |data|);
    Pieces(b, e, f, data, rest);
    LowNibbleIs(b);
    hide *;
    ReadIs(s, delta, |data|, e, f);
    OptionIs(delta, data);
  }

  lemma OptionIs(delta: nat, data: seq<byte>)
    ensures var e, f := Extended(Nibble(delta), delta), Extended(Nibble(|data|), |data|);
            && Option(delta, data) == [FirstByte(delta, |data|)] + e + f + data
            && |OptionHeader(delta, |data|)| == 1 + |e| + |f|
  {
    hide Extended, FirstByte, Nibble;
  }

  lemma LowNibbleIs(b: byte)
    ensures LowNibble(b) == (b & 0x0F) as nat
  {}

  lemma Pieces(b: byte, e: seq<byte>, f: seq<byte>, data: seq<byte>, rest: seq<byte>)
    ensures var s := [b] + e + f + data + rest;
            && s[0] == b && s[1..1 + |e|] == e && s[1 + |e|..1 + |e| + |f|] == f
            && s[1 + |e| + |f|..1 + |e| + |f| + |data|] == data
  {}

  lemma ReadIs(s: seq<byte>, delta: nat, length: nat, e: seq<byte>, f: seq<byte>)
    requires 1 + |e| + |f| <= |s| && s[1..1 + |e|] == e && s[1 + |e|..1 + |e| + |f|] == f
    requires (s[0] >> 4) as nat == Nibble(delta) && (s[0] & 0x0F) as nat == Nibble(length)
    requires |e| == ExtensionSize(Nibble(delta)) && FieldValue(Nibble(delta), e) == delta
    requires |f| == ExtensionSize(Nibble(length)) && FieldValue(Nibble(length), f) == length
    ensures ReadOption(s) == Some((delta, length, 1 + |e| + |f|))
  {
    hide FieldValue, ExtensionSize, Nibble;
  }

  // ----- runs of Uri-Path options -----

  /** The options for further path segments; after the first one the delta is 0. */
  function PathOptions(segments: seq<seq<byte>>): seq<byte> {
    if |segments| == 0 then [] else PathOptions(segments[..|segments| - 1]) + Option(0, segments[|segments| - 1])
  }

  /** The segments, each behind a slash. */
  function Joined(segments: seq<seq<byte>>): seq<byte> {
    if |segments| == 0 then [] else Joined(segments[..|segments| - 1]) + [SLASH] + segments[|segments| - 1]
  }

  /** The joined name ends with a slash and the last segment. */
  lemma JoinedNext(segments: seq<seq<byte>>, v: seq<byte>)
    ensures Joined([]) == [] && Joined(segments + [v]) == Joined(segments) + [0x2F] + v
  {
    assert (segments + [v])[..|segments|] == segments;
  }

  predicate Segments(segments: seq<seq<byte>>) {
    forall i :: 0 <= i < |segments| ==> |segments[i]| < 0x1_0000
  }

  // ----- the code -----

  /** Writes an option at position at; the result is its size. */
  method AddOption(buf: array<byte>, at: nat, previous: nat, current: nat, data: seq<byte>) returns (size: nat)
    requires previous <= current < 0x1_0000 && |data| < 0x1_0000
    requires at + |Option(current - previous, data)| <= buf.Length
    modifies buf
    ensures size == |Option(current - previous, data)|
    ensures buf[..] == Splice(old(buf[..]), at, Option(current - previous, data))
  {
    hide Splice, Extended, FirstByte;
    ghost var was := buf[..];
    var p, delta := at, current - previous;
    var first := [FirstByte(delta, |data|)];
    var e, f := Extended(Nibble(delta), delta), Extended(Nibble(|data|), |data|);
    Memcpy(buf, p, first);
    p := p + 1;
    SpliceTwo(was, at, first, e);
    Memcpy(buf, p, e);
    p := p + |e|;
    SpliceTwo(was, at, first + e, f);
    Memcpy(buf, p, f);
    p := p + |f|;
    SpliceTwo(was, at, first + e + f, data);
    Memcpy(buf, p, data);
    p := p + |data|;
    size := p - at;
  }

  /** Reads an option's length and moves the position to its value. */
  method OptionDecode(buf: array<byte>, option: nat) returns (length: nat, value: nat)
    requires option <= buf.Length && Readable(buf[..][option..])
    ensures (length, value - option) == DecodeOption(buf[..][option..])
    ensures option <= value <= buf.Length
  {
    hide LowNibble;
    ghost var s := buf[..][option..];
    assert s[0] == buf[option] && (|s| > 1 ==> s[1] == buf[option + 1]) && (|s| > 2 ==> s[2] == buf[option + 2]);
    var nibble := LowNibble(buf[option]);
    value := option;
    if 13 > nibble {
      length := nibble;
      value := value + 1;
    } else if 13 == nibble {
      value := value + 1;
      length := buf[value] as nat + 13;
      value := value + 1;
    } else if 14 == nibble {
      length := buf[value + 1] as nat * 256 + buf[value + 2] as nat + 269;
      value := value + 3;
    } else {
      length := 0;
    }
  }

  /** Whatever follows the Uri-Path options starts another option or the payload. */
  predicate Follows(rest: seq<byte>) {
    |rest| == 0 || !HighNibbleZero(rest[0])
  }

  /** All options from the i-th on, and what follows them. */
  function Remaining(segments: seq<seq<byte>>, i: nat, rest: seq<byte>): seq<byte>
    requires i <= |segments|
    decreases |segments| - i
  {
    if i == |segments| then rest else Option(0, segments[i]) + Remaining(segments, i + 1, rest)
  }

  lemma {:induction false} RemainingIs(segments: seq<seq<byte>>, i: nat, rest: seq<byte>)
    requires i <= |segments|
    ensures PathOptions(segments[..i]) + Remaining(segments, i, rest) == PathOptions(segments) + rest
    decreases |segments| - i
  {
    hide Option;
    if i == |segments| {
      assert segments[..i] == segments;
    } else {
      RemainingIs(segments, i + 1, rest);
      assert segments[..i + 1][..i] == segments[..i];
    }
  }

  lemma {:induction false} JoinedFits(segments: seq<seq<byte>>)
    ensures |Joined(segments)| <= |PathOptions(segments)|
  {
    if |segments| > 0 {
      JoinedFits(segments[..|segments| - 1]);
    }
  }

  lemma RemainingStart(segments: seq<seq<byte>>, i: nat, rest: seq<byte>)
    requires Segments(segments) && i <= |segments| && Follows(rest)
    ensures var s := Remaining(segments, i, rest);
            |s| > 0 && HighNibbleZero(s[0]) <==> i < |segments|
    ensures i < |segments| ==>
              var s, v := Remaining(segments, i, rest), segments[i];
              && Readable(s) && DecodeOption(s).0 == |v| && 1 <= DecodeOption(s).1 && DecodeOption(s).1 + |v| <= |s|
              && s[DecodeOption(s).1..DecodeOption(s).1 + |v|] == v
              && s[DecodeOption(s).1 + |v|..] == Remaining(segments, i + 1, rest)
  {
    if i < |segments| {
      var v, more := segments[i], Remaining(segments, i + 1, rest);
      FirstByteFields(0, |v|);
      DecodeExact(0, v, more);
      var h := OptionHeader(0, |v|);
      assert h[0] == FirstByte(0, |v|);
      hide OptionHeader, DecodeOption, Readable, HighNibbleZero, FirstByte;
      Parts(h, v, more);
    }
  }

  lemma Parts(h: seq<byte>, v: seq<byte>, more: seq<byte>)
    requires |h| >= 1
    ensures var s := h + v + more;
            s[0] == h[0] && s[|h|..|h| + |v|] == v && s[|h| + |v|..] == more
  {}

  // ----- the join loop, on any bytes -----

  /** The buffer and both positions when the loop ends; or bytes behind the buffer are used. */
  datatype Join = Done(buf: seq<byte>, dst: nat, src: nat) | Outside

  /** The loop may go on: the name is not longer than what has been read, or a slash has replaced a reserved option. */
  predicate Joinable(s: seq<byte>, dst: nat, src: nat, end: nat) {
    end <= |s| && (dst <= src || (dst == src + 1 && src < end && s[src] == SLASH))
  }

  /** One round: a slash at dst, and the value of the option at src moved down behind it. */
  function Round(s: seq<byte>, dst: nat, src: nat): Join
    requires dst <= src < |s|
  {
    if !Readable(s[src..]) then Outside
    else
      var (length, k) := DecodeOption(s[src..]);
      var t, value := s[dst := SLASH], src + k;
      if dst + 1 == value || k == 0 then Done(t, dst + 1 + length, value + length)
      else if value + length > |s| then Outside
      else Done(Splice(t, dst + 1, t[value..value + length]), dst + 1 + length, value + length)
  }

  /**
   What the loop does to any bytes. The reserved indicator 15 moves nothing and is met again, until slashes have
   been written up to the option and over it.
   */
  function Joining(s: seq<byte>, dst: nat, src: nat, end: nat): Join
    requires Joinable(s, dst, src, end)
    decreases if src < end then end - src else 0, src + 1 - dst
  {
    if src >= end || !HighNibbleZero(s[src]) then Done(s, dst, src)
    else
      SlashHighNibble();
      RoundKeeps(s, dst, src, end);
      match Round(s, dst, src)
      case Done(t, to, next) => Joining(t, to, next, end)
      case Outside => Outside
  }

  lemma SlashHighNibble()
    ensures !HighNibbleZero(SLASH)
  {}

  /** Only the reserved indicator has no length and leaves the position where it is. */
  lemma Forward(s: seq<byte>)
    requires Readable(s)
    ensures DecodeOption(s).1 == 0 ==> DecodeOption(s).0 == 0
  {
    hide LowNibble;
  }

  function Slashes(n: nat): (r: seq<byte>)
    ensures |r| == n
  {
    seq(n, _ => 0x2F)
  }

  /**
   The reserved indicator: slashes are written from the end of the name up to the option and over it, which ends the
   loop.
   */
  lemma {:induction false} ReservedEnds(s: seq<byte>, dst: nat, src: nat, end: nat)
    requires dst <= src < end <= |s| && s[src] == 0x0F
    ensures Joinable(s, dst, src, end)
    ensures Joining(s, dst, src, end) == Done(Splice(s, dst, Slashes(src + 1 - dst)), src + 1, src)
    decreases src - dst
  {
    ReservedRound(s, dst, src);
    SlashHighNibble();
    var t := s[dst := SLASH];
    hide LowNibble, HighNibbleZero, Round, Splice;
    JoiningOnce(s, dst, src, end, t, dst + 1, src);
    if dst < src {
      ReservedEnds(t, dst + 1, src, end);
      MoreSlashes(s, dst, src + 1 - dst);
    } else {
      JoinStops(t, dst + 1, src, end);
      OneSlash(s, dst);
    }
  }

  lemma ReservedRound(s: seq<byte>, dst: nat, src: nat)
    requires dst <= src < |s| && s[src] == 0x0F
    ensures HighNibbleZero(s[src]) && Round(s, dst, src) == Done(s[dst := SLASH], dst + 1, src)
  {
    assert s[src..][0] == s[src];
    ReservedNibbles();
    hide LowNibble, HighNibbleZero;
  }

  lemma ReservedNibbles()
    ensures LowNibble(0x0F) == 15 && HighNibbleZero(0x0F)
  {}

  lemma MoreSlashes(s: seq<byte>, at: nat, n: nat)
    requires n > 1 && at + n <= |s|
    ensures Splice(s[at := SLASH], at + 1, Slashes(n - 1)) == Splice(s, at, Slashes(n))
  {}

  lemma OneSlash(s: seq<byte>, at: nat)
    requires at < |s|
    ensures s[at := SLASH] == Splice(s, at, Slashes(1))
  {}

  /** A round goes forward, keeps the loop going and leaves what is in front of the name. */
  lemma RoundKeeps(s: seq<byte>, dst: nat, src: nat, end: nat)
    requires dst <= src < end <= |s| && HighNibbleZero(s[src])
    ensures match Round(s, dst, src)
            case Done(u, to, next) =>
              && |u| == |s| && Joinable(u, to, next, end) && u[..dst] == s[..dst]
              && dst < to && src <= next && (src == next ==> to == dst + 1)
            case Outside => true
  {
    hide Splice, DecodeOption, Readable, HighNibbleZero;
    if Readable(s[src..]) {
      Forward(s[src..]);
      var (length, k) := DecodeOption(s[src..]);
      var t, value := s[dst := SLASH], src + k;
      if dst + 1 != value && k != 0 && value + length <= |s| {
        var v := t[value..value + length];
        SpliceParts(t, dst + 1, v);
        FrontOf(Splice(t, dst + 1, v), t, s, dst);
      }
    }
  }

  lemma FrontOf(u: seq<byte>, t: seq<byte>, s: seq<byte>, dst: nat)
    requires dst < |s| == |t| == |u| && t == s[dst := SLASH] && u[..dst + 1] == t[..dst + 1]
    ensures u[..dst] == s[..dst]
  {
    assert u[..dst] == u[..dst + 1][..dst] == t[..dst + 1][..dst];
  }

  /** The loop ends. Nothing in front of the name is touched, whatever the options are, and the name only grows. */
  lemma {:induction false} JoiningKeeps(s: seq<byte>, dst: nat, src: nat, end: nat)
    requires Joinable(s, dst, src, end) && dst <= |s|
    ensures match Joining(s, dst, src, end)
            case Done(b, d, _) => |b| == |s| && b[..dst] == s[..dst] && dst <= d
            case Outside => true
    decreases if src < end then end - src else 0, src + 1 - dst, 0
  {
    hide Round, HighNibbleZero;
    if src < end && HighNibbleZero(s[src]) {
      SlashHighNibble();
      RoundKeeps(s, dst, src, end);
      var r := Round(s, dst, src);
      if r.Done? {
        RestKeeps(r, dst, end);
      }
    }
  }

  lemma {:induction false} RestKeeps(r: Join, dst: nat, end: nat)
    requires r.Done? && dst < r.dst && Joinable(r.buf, r.dst, r.src, end)
    ensures dst <= |r.buf| ==>
              match Joining(r.buf, r.dst, r.src, end)
              case Done(b, d, _) => |b| == |r.buf| && b[..dst] == r.buf[..dst] && dst <= d
              case Outside => true
    decreases if r.src < end then end - r.src else 0, r.src + 1 - r.dst, 1
  {
    hide Joining;
    if r.dst <= |r.buf| {
      JoiningKeeps(r.buf, r.dst, r.src, end);
      ShorterFront(Joining(r.buf, r.dst, r.src, end), r.buf, dst, r.dst);
    } else {
      JoinStops(r.buf, r.dst, r.src, end);
    }
  }

  lemma ShorterFront(r: Join, u: seq<byte>, dst: nat, to: nat)
    requires dst <= to <= |u|
    requires r.Done? ==> |r.buf| == |u| && r.buf[..to] == u[..to]
    ensures r.Done? ==> r.buf[..dst] == u[..dst]
  {
    if r.Done? {
      assert r.buf[..dst] == r.buf[..to][..dst] == u[..to][..dst];
    }
  }

  /**
   The join loop: the options from start to end become slash-separated segments from start on, in place. Returns
   the position behind the name and the position behind the options; ok is false when bytes behind the buffer
   would be used.
   */
  method JoinPath(buf: array<byte>, start: nat, end: nat) returns (ok: bool, dst: nat, src: nat)
    requires start <= end <= buf.Length
    modifies buf
    ensures match Joining(old(buf[..]), start, start, end)
            case Done(b, d, s) => ok && buf[..] == b && dst == d && src == s
            case Outside => !ok
  {
    hide Round;
    ghost var was := buf[..];
    dst, src := start, start;
    while src < end && HighNibbleZero(buf[src])
      invariant Joinable(buf[..], dst, src, end) && Joining(buf[..], dst, src, end) == Joining(was, start, start, end)
      decreases if src < end then end - src else 0, src + 1 - dst
    {
      SlashHighNibble();
      RoundKeeps(buf[..], dst, src, end);
      ok, dst, src := JoinOption(buf, dst, src);
      if !ok {
        return;
      }
    }
    ok := true;
  }

  /** The body of the loop. */
  method JoinOption(buf: array<byte>, dst: nat, src: nat) returns (ok: bool, to: nat, next: nat)
    requires dst <= src < buf.Length
    modifies buf
    ensures match Round(old(buf[..]), dst, src)
            case Done(b, d, s) => ok && buf[..] == b && to == d && next == s
            case Outside => !ok
  {
    hide Splice, LowNibble, DecodeOption, Readable;
    ghost var b := buf[..];
    ReadableIs(b, src);
    if !(LowNibble(buf[src]) == 13 ==> src + 1 < buf.Length) || !(LowNibble(buf[src]) == 14 ==> src + 2 < buf.Length) {
      return false, dst, src;
    }
    var length, value := OptionDecode(buf, src);
    Forward(b[src..]);
    buf[dst] := SLASH;
    if dst + 1 != value && value != src {
      if value + length > buf.Length {
        return false, dst, src;
      }
      Memmove(buf, dst + 1, value, length);
    }
    ok, to, next := true, dst + 1 + length, value + length;
  }

  lemma ReadableIs(s: seq<byte>, from: nat)
    requires from < |s|
    ensures Readable(s[from..]) <==>
            (LowNibble(s[from]) == 13 ==> from + 1 < |s|) && (LowNibble(s[from]) == 14 ==> from + 2 < |s|)
  {
    hide LowNibble;
    assert s[from..][0] == s[from];
  }

  /** Any run of well-formed Uri-Path options becomes its segments behind slashes, and what follows stays. */
  lemma JoinsPath(buf: seq<byte>, start: nat, end: nat, segments: seq<seq<byte>>, rest: seq<byte>)
    requires start <= end <= |buf| && Segments(segments) && Follows(rest)
    requires buf[start..end] == PathOptions(segments) + rest
    ensures var r := Joining(buf, start, start, end);
            && r.Done? && |r.buf| == |buf|
            && r.dst == start + |Joined(segments)| && r.src == start + |PathOptions(segments)| && r.dst <= r.src <= end
            && r.buf[start..r.dst] == Joined(segments) && r.buf[r.src..end] == rest && r.buf[..start] == buf[..start]
  {
    hide *;
    JoinStart(segments, rest);
    CanJoin(buf, start, start, end);
    JoinRest(buf, start, start, start, end, segments, 0, rest);
  }

  lemma CanJoin(s: seq<byte>, dst: nat, src: nat, end: nat)
    requires dst <= src && end <= |s|
    ensures Joinable(s, dst, src, end)
  {}

  /** The loop from the i-th option on. */
  lemma {:induction false} JoinRest(buf: seq<byte>, start: nat, dst: nat, src: nat, end: nat,
                                    segments: seq<seq<byte>>, i: nat, rest: seq<byte>)
    requires start <= dst <= src <= end <= |buf| && i <= |segments| && Segments(segments) && Follows(rest)
    requires buf[start..dst] == Joined(segments[..i]) && buf[src..end] == Remaining(segments, i, rest)
    requires src == start + |PathOptions(segments[..i])| && Joinable(buf, dst, src, end)
    ensures var r := Joining(buf, dst, src, end);
            && r.Done? && |r.buf| == |buf|
            && r.dst == start + |Joined(segments)| && r.src == start + |PathOptions(segments)| && r.dst <= r.src <= end
            && r.buf[start..r.dst] == Joined(segments) && r.buf[r.src..end] == rest && r.buf[..start] == buf[..start]
    decreases |segments| - i
  {
    hide *;
    RemainingStart(segments, i, rest);
    if src < end {
      FirstOf(buf, src, end);
    }
    if i == |segments| {
      JoinEnd(segments, i, rest);
      JoinStops(buf, dst, src, end);
    } else {
      var s, v := Remaining(segments, i, rest), segments[i];
      var b, d, p := JoinOne(buf, dst, src, end, s, v);
      JoinNext(segments, i, rest);
      Glue(buf, b, start, dst, d);
      CanJoin(b, d, p, end);
      JoinRest(b, start, d, p, end, segments, i + 1, rest);
    }
  }

  lemma JoinStops(s: seq<byte>, dst: nat, src: nat, end: nat)
    requires Joinable(s, dst, src, end) && (src >= end || !HighNibbleZero(s[src]))
    ensures Joining(s, dst, src, end) == Done(s, dst, src)
  {}

  /** One more segment: a slash, and the value moved down over the header in front of it. */
  lemma JoinOne(was: seq<byte>, dst0: nat, src0: nat, end: nat, s: seq<byte>, v: seq<byte>)
      returns (now: seq<byte>, dst: nat, src: nat)
    requires dst0 <= src0 < end <= |was| && was[src0..end] == s && HighNibbleZero(was[src0])
    requires Readable(s) && DecodeOption(s).0 == |v| && 1 <= DecodeOption(s).1 && DecodeOption(s).1 + |v| <= |s|
    requires s[DecodeOption(s).1..DecodeOption(s).1 + |v|] == v
    ensures dst == dst0 + 1 + |v| && src == src0 + DecodeOption(s).1 + |v| && dst <= src <= end && |now| == |was|
    ensures now[..dst0] == was[..dst0] && now[dst0..dst] == [SLASH] + v
    ensures now[src..end] == s[DecodeOption(s).1 + |v|..]
    ensures Joinable(was, dst0, src0, end) && Joinable(now, dst, src, end)
    ensures Joining(was, dst0, src0, end) == Joining(now, dst, src, end)
  {
    hide *;
    SameDecoding(was, src0, end, s);
    var k := DecodeOption(s).1;
    var value := src0 + k;
    Inside(was, src0, end, s, k, v);
    var slashed := was[dst0 := SLASH];
    SpliceSame(slashed, value, |v|);
    now := Splice(slashed, dst0 + 1, slashed[value..value + |v|]);
    dst, src := dst0 + 1 + |v|, value + |v|;
    Shifted(was, slashed, now, dst0, value, end, v);
    CanJoin(was, dst0, src0, end);
    RoundMoves(was, dst0, src0);
    JoiningOnce(was, dst0, src0, end, now, dst, src);
  }

  lemma JoiningOnce(s: seq<byte>, dst: nat, src: nat, end: nat, u: seq<byte>, to: nat, next: nat)
    requires dst <= src < end <= |s| && HighNibbleZero(s[src]) && Round(s, dst, src) == Done(u, to, next)
    ensures Joinable(u, to, next, end) && Joining(s, dst, src, end) == Joining(u, to, next, end)
  {
    RoundKeeps(s, dst, src, end);
    hide Round, HighNibbleZero;
  }

  /** One round on an option that has a value: moving it onto itself changes nothing. */
  lemma RoundMoves(s: seq<byte>, dst: nat, src: nat)
    requires dst <= src < |s| && Readable(s[src..])
    requires var (length, k) := DecodeOption(s[src..]); k > 0 && src + k + length <= |s|
    ensures var (length, k) := DecodeOption(s[src..]);
            var t := s[dst := SLASH];
            Round(s, dst, src)
            == Done(Splice(t, dst + 1, t[src + k..src + k + length]), dst + 1 + length, src + k + length)
  {
    hide Splice, DecodeOption, Readable;
    var (length, k) := DecodeOption(s[src..]);
    SpliceSame(s[dst := SLASH], src + k, length);
  }

  lemma SameDecoding(buf: seq<byte>, from: nat, end: nat, s: seq<byte>)
    requires from <= end <= |buf| && buf[from..end] == s && Readable(s)
    ensures Readable(buf[from..]) && DecodeOption(buf[from..]) == DecodeOption(s)
  {
    hide LowNibble;
    var t := buf[from..];
    assert t[0] == s[0] && (|s| > 1 ==> t[1] == s[1]) && (|s| > 2 ==> t[2] == s[2]);
  }

  lemma Inside(buf: seq<byte>, from: nat, end: nat, s: seq<byte>, k: nat, v: seq<byte>)
    requires from <= end <= |buf| && buf[from..end] == s && k + |v| <= |s| && s[k..k + |v|] == v
    ensures buf[from + k..from + k + |v|] == v && buf[from + k + |v|..end] == s[k + |v|..]
  {
    SubSlice(buf, from, end, k, k + |v|);
    SubSlice(buf, from, end, k + |v|, |s|);
    assert s[k + |v|..|s|] == s[k + |v|..];
  }

  lemma SubSlice(s: seq<byte>, from: nat, to: nat, a: nat, b: nat)
    requires a <= b && from + b <= to <= |s|
    ensures s[from..to][a..b] == s[from + a..from + b]
  {
    var x, y := s[from..to][a..b], s[from + a..from + b];
    forall j | 0 <= j < b - a
      ensures x[j] == y[j]
    {
      assert x[j] == s[from..to][a + j] == s[from + (a + j)];
    }
  }

  /** A slash at dst and the value behind it, moved down to the byte after the slash. */
  lemma Shifted(was: seq<byte>, slashed: seq<byte>, now: seq<byte>, dst: nat, value: nat, end: nat, v: seq<byte>)
    requires dst < value && value + |v| <= end <= |was| && was[value..value + |v|] == v
    requires slashed == was[dst := SLASH] && now == Splice(slashed, dst + 1, slashed[value..value + |v|])
    ensures now[..dst] == was[..dst] && now[dst..dst + 1 + |v|] == [SLASH] + v
    ensures now[value + |v|..end] == was[value + |v|..end]
  {
    Untouched(was, dst, value, value + |v|);
    Untouched(was, dst, value + |v|, end);
    SpliceParts(slashed, dst + 1, v);
    hide Splice;
    SlashBefore(slashed, now, dst, v);
    Tail(slashed, now, dst + 1 + |v|, value + |v|, end);
    assert was[..dst] == slashed[..dst];
  }

  lemma Untouched(s: seq<byte>, i: nat, from: nat, to: nat)
    requires i < from <= to <= |s|
    ensures s[i := SLASH][from..to] == s[from..to]
  {}

  lemma SlashBefore(s: seq<byte>, t: seq<byte>, dst: nat, v: seq<byte>)
    requires |s| == |t| && dst + 1 + |v| <= |s| && s[dst] == SLASH && t[..dst + 1] == s[..dst + 1]
             && t[dst + 1..dst + 1 + |v|] == v
    ensures t[dst..dst + 1 + |v|] == [SLASH] + v && t[..dst] == s[..dst]
  {
    assert t[dst] == t[..dst + 1][dst] == s[..dst + 1][dst];
    assert t[..dst] == t[..dst + 1][..dst] && s[..dst] == s[..dst + 1][..dst];
  }

  lemma Tail(s: seq<byte>, t: seq<byte>, at: nat, from: nat, to: nat)
    requires |s| == |t| && at <= from <= to <= |s| && t[at..] == s[at..]
    ensures t[from..to] == s[from..to]
  {
    SubSlice(t, at, |t|, from - at, to - at);
    SubSlice(s, at, |s|, from - at, to - at);
    assert t[at..|t|] == t[at..] && s[at..|s|] == s[at..];
  }

  lemma Glue(before: seq<byte>, now: seq<byte>, start: nat, mid: nat, to: nat)
    requires |before| == |now| && start <= mid <= to <= |now| && now[..mid] == before[..mid]
    ensures now[start..to] == before[start..mid] + now[mid..to] && now[..start] == before[..start]
  {
    assert now[start..mid] == now[..mid][start..] == before[..mid][start..] == before[start..mid];
    assert now[..start] == now[..mid][..start] && before[..start] == before[..mid][..start];
  }

  lemma JoinStart(segments: seq<seq<byte>>, rest: seq<byte>)
    ensures Joined(segments[..0]) == [] && PathOptions(segments[..0]) == []
    ensures Remaining(segments, 0, rest) == PathOptions(segments) + rest
  {
    RemainingIs(segments, 0, rest);
    hide Remaining;
    assert [] + Remaining(segments, 0, rest) == Remaining(segments, 0, rest);
  }

  lemma JoinNext(segments: seq<seq<byte>>, i: nat, rest: seq<byte>)
    requires i < |segments|
    ensures Joined(segments[..i + 1]) == Joined(segments[..i]) + ([SLASH] + segments[i])
    ensures |PathOptions(segments[..i + 1])| == |PathOptions(segments[..i])| + |Option(0, segments[i])|
    ensures |Remaining(segments, i, rest)| == |Option(0, segments[i])| + |Remaining(segments, i + 1, rest)|
  {
    hide Option;
    assert segments[..i + 1][..i] == segments[..i];
    var a := Joined(segments[..i]);
    assert a + [SLASH] + segments[i] == a + ([SLASH] + segments[i]);
  }

  lemma JoinEnd(segments: seq<seq<byte>>, i: nat, rest: seq<byte>)
    requires i == |segments|
    ensures segments[..i] == segments && Remaining(segments, i, rest) == rest
  {}

  lemma FirstOf(s: seq<byte>, from: nat, to: nat)
    requires from < to <= |s|
    ensures s[from..to][0] == s[from]
  {}
}
