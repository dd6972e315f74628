/**
 Reliable CoAP messaging: the message store shared by sending, receiving, deduplication and
 retransmission (sections 4.2, 4.5 and 4.8.2 of RFC 7252).

 Clocks are 32-bit and wrap. Each stored message also carries its true deadline and a serial number
 as history variables: no decision reads them, they only serve to state what whole runs achieve.
 */
module Coap {
  import opened Lists
  import opened Arith
  import opened Octet
  import opened Words

  const U32 := 0x1_0000_0000
  const HALF := 0x8000_0000
  const MAX_RETRANSMIT := 3
  const MIN_LENGTH := 4

  datatype Kind = CON | NON | ACK | RESET | ERROR

  /** The type bits of the first header byte. */
  function TypeBits(b: byte): Kind {
    var t := b & 0x30;
    if t == 0 then CON else if t == 0x10 then NON else if t == 0x30 then RESET else ACK
  }

  /** The type of a message buffer, or ERROR when it is too short to be a CoAP message. */
  function TypeOf(data: seq<byte>): Kind {
    if |data| >= MIN_LENGTH then TypeBits(data[0]) else ERROR
  }

  predicate IsReply(k: Kind) {
    k == ACK || k == RESET
  }

  // ----- time -----

  predicate TimeHasPassed(now: nat, tick: nat) {
    if now >= tick then now - tick <= 0x7FFF_FFFF else tick - now >= 0x8000_0000
  }

  /** Less than half the range apart, the 32-bit comparison decides on the true times. */
  lemma PassedIsOrder(now: nat, due: nat)
    requires -HALF < now - due < HALF
    ensures TimeHasPassed(now % U32, due % U32) <==> now >= due
  {
    var a, b := now % U32, due % U32;
    var k := now / U32 - due / U32;
    assert now - due == a - b + k * U32;
    assert -1 <= k <= 1 by {
      MulAway(k - 1, U32);
      MulAway(k + 1, U32);
    }
  }

  /** At a distance of exactly half the range the comparison depends on which clock has wrapped. */
  lemma HalfRangeAsymmetry()
    ensures !TimeHasPassed(HALF, 0) && TimeHasPassed(0, HALF)
  {}

  // ----- timeouts -----

  function Shl32(x: nat, k: nat): (r: nat)
    ensures r < U32
  {
    x * Pow2(k) % U32
  }

  /** Back-off for a transmission count: ack timeout doubled count times, plus up to a half of it. */
  function TransmitTimeout(ack: nat, count: nat, rnd: nat): nat {
    var timeout := Shl32(ack, count);
    (timeout + timeout * (rnd % 256) % U32 / 512) % U32
  }

  /** ack * 15 * 1.5, truncated. */
  function MaxTransmitWait(ack: nat): nat {
    15 * ack % U32 * 3 / 2
  }

  /** The four timeouts of one message, for these random draws. */
  function BackoffSum(ack: nat, r0: nat, r1: nat, r2: nat, r3: nat): nat {
    TransmitTimeout(ack, 0, r0) + TransmitTimeout(ack, 1, r1)
    + TransmitTimeout(ack, 2, r2) + TransmitTimeout(ack, 3, r3)
  }

  /** The four timeouts before the random part. */
  function BaseSum(ack: nat): nat {
    Shl32(ack, 0) + Shl32(ack, 1) + Shl32(ack, 2) + Shl32(ack, 3)
  }

  /** The random part adds at most a half, also when its 32-bit product wraps. */
  lemma OneTimeout(ack: nat, count: nat, rnd: nat)
    ensures TransmitTimeout(ack, count, rnd) <= Shl32(ack, count) + Shl32(ack, count) / 2
    ensures TransmitTimeout(ack, count, 0) == Shl32(ack, count)
  {
    hide Pow2, Shl32;
    Jitter(Shl32(ack, count), rnd % 256, U32);
    Jitter(Shl32(ack, count), 0, U32);
  }

  lemma Jitter(t: nat, r: nat, m: nat)
    requires t < m && r < 256
    ensures 0 <= t * r && (t + t * r % m / 512) % m <= t + t / 2
    ensures r == 0 ==> (t + t * r % m / 512) % m == t
  {
    MulMono(r, 255, t);
    var p: nat := r * t;
    WrapDown(p, m);
    var j := p % m / 512;
    assert j <= t / 2;
    WrapDown(t + j, m);
    if r == 0 {
      SmallMod(0, m);
      SmallMod(t, m);
    }
  }

  lemma HalfMore(a: nat, b: nat, c: nat, d: nat, w: nat, x: nat, y: nat, z: nat)
    requires w <= a + a / 2 && x <= b + b / 2 && y <= c + c / 2 && z <= d + d / 2
    ensures w + x + y + z <= (a + b + c + d) * 3 / 2
  {}

  lemma WrapDown(x: nat, m: nat)
    requires m > 0
    ensures 0 <= x % m <= x
  {
    if x < m {
      SmallMod(x, m);
    }
  }

  lemma BaseWraps(ack: nat)
    ensures 15 * ack % U32 == BaseSum(ack) % U32
    ensures 15 * ack < U32 ==> BaseSum(ack) < U32
  {
    assert Pow2(0) == 1 && Pow2(1) == 2 && Pow2(2) == 4 && Pow2(3) == 8;
    FourParts(ack, U32);
  }

  lemma FourParts(x: nat, m: nat)
    requires m > 0
    ensures var s := x % m + 2 * x % m + 4 * x % m + 8 * x % m;
            15 * x % m == s % m && s <= 15 * x
  {
    DivFacts(x, m);
    DivFacts(2 * x, m);
    DivFacts(4 * x, m);
    DivFacts(8 * x, m);
    var s: nat := x % m + 2 * x % m + 4 * x % m + 8 * x % m;
    var a: nat, b: nat, c: nat, d: nat := x / m, 2 * x / m, 4 * x / m, 8 * x / m;
    var q := a + b + c + d;
    Distribute2(a, b, m);
    Distribute2(c, d, m);
    Distribute2(a + b, c + d, m);
    MulMono(0, q, m);
    ModMultiple(s, q, m);
  }

  lemma FitsBase(ack: nat, r0: nat, r1: nat, r2: nat, r3: nat)
    requires BaseSum(ack) < U32
    ensures BackoffSum(ack, r0, r1, r2, r3) <= MaxTransmitWait(ack)
  {
    OneTimeout(ack, 0, r0);
    OneTimeout(ack, 1, r1);
    OneTimeout(ack, 2, r2);
    OneTimeout(ack, 3, r3);
    BaseWraps(ack);
    WaitIs(ack);
    SmallMod(BaseSum(ack), U32);
    hide TransmitTimeout, Shl32, MaxTransmitWait;
    HalfMore(Shl32(ack, 0), Shl32(ack, 1), Shl32(ack, 2), Shl32(ack, 3), TransmitTimeout(ack, 0, r0),
             TransmitTimeout(ack, 1, r1), TransmitTimeout(ack, 2, r2), TransmitTimeout(ack, 3, r3));
  }

  /** For every ACK timeout whose 15-fold does not wrap, the back-off of a message ends within the maximum wait. */
  lemma TimeoutsFit(ack: nat, r0: nat, r1: nat, r2: nat, r3: nat)
    requires 15 * ack < U32
    ensures BackoffSum(ack, r0, r1, r2, r3) <= MaxTransmitWait(ack)
  {
    BaseWraps(ack);
    FitsBase(ack, r0, r1, r2, r3);
  }

  /** For any ACK timeout: it does so for all draws exactly when the four doubled timeouts sum to less than 2^32. */
  lemma TimeoutsFitExactly(ack: nat)
    ensures (forall r0, r1, r2, r3 :: BackoffSum(ack, r0, r1, r2, r3) <= MaxTransmitWait(ack)) <==> BaseSum(ack) < U32
  {
    hide BaseSum, BackoffSum, MaxTransmitWait;
    if BaseSum(ack) < U32 {
      forall r0, r1, r2, r3
        ensures BackoffSum(ack, r0, r1, r2, r3) <= MaxTransmitWait(ack)
      {
        FitsBase(ack, r0, r1, r2, r3);
      }
    } else {
      TooLong(ack);
    }
  }

  /** With no random part, timeouts that sum to 2^32 or more are longer than the wait computed from the wrapped sum. */
  lemma TooLong(ack: nat)
    requires BaseSum(ack) >= U32
    ensures BackoffSum(ack, 0, 0, 0, 0) > MaxTransmitWait(ack)
  {
    OneTimeout(ack, 0, 0);
    OneTimeout(ack, 1, 0);
    OneTimeout(ack, 2, 0);
    OneTimeout(ack, 3, 0);
    BaseWraps(ack);
    WaitIs(ack);
    hide TransmitTimeout, Shl32, MaxTransmitWait;
    WrappedShort(BaseSum(ack), U32);
  }

  lemma WaitIs(ack: nat)
    requires 15 * ack % U32 == BaseSum(ack) % U32
    ensures MaxTransmitWait(ack) == BaseSum(ack) % U32 * 3 / 2
  {
    hide BaseSum;
  }

  lemma WrappedShort(s: nat, m: nat)
    requires 0 < m <= s
    ensures s % m * 3 / 2 < s
  {
    var r, q := s % m, s / m;
    DivFacts(s, m);
    QuotientAtLeast(1, q, m, r);
    MulMono(1, q, m);
    assert r < m <= s - r;
  }

  /** The least ACK timeout that fails: its 15-fold wraps to 14, and the first timeout alone is longer than the wait. */
  lemma WrappedWait(rnd: nat)
    ensures MaxTransmitWait(286331154) == 21 && !(15 * 286331154 < U32) && 15 * 286331153 < U32
    ensures TransmitTimeout(286331154, 0, rnd) > 21
  {
    var r := rnd % 256;
    assert Shl32(286331154, 0) == 286331154;
    WrapDown(286331154 * r, U32);
  }

  // ----- the store, on values -----

  /**
   A stored message: id, 32-bit timeout, number of transmissions, content and time of sending; and, as
   history, the true deadline and a serial number given when it was stored.
   */
  datatype Entry = Entry(id: nat, timeout: nat, count: nat, data: seq<byte>, sendTime: nat, due: nat, serial: nat)

  /** Position of the first entry with this id, or the length of the list. */
  function Find(es: seq<Entry>, id: nat): (k: nat)
    ensures k <= |es|
    ensures k < |es| ==> es[k].id == id
    ensures forall i :: 0 <= i < k ==> es[i].id != id
  {
    if |es| == 0 || es[0].id == id then 0 else 1 + Find(es[1..], id)
  }

  predicate Has(es: seq<Entry>, id: nat) {
    Find(es, id) < |es|
  }

  /** Removes the first entry with this id, if there is one. */
  function Clear(es: seq<Entry>, id: nat): seq<Entry> {
    var k := Find(es, id);
    if k < |es| then Removed(es, k) else es
  }

  function Add(es: seq<Entry>, e: Entry): seq<Entry> {
    [e] + Clear(es, e.id)
  }

  /** An entry kept until now + wait without being sent again. */
  function Expiring(id: nat, data: seq<byte>, now: nat, wait: nat, serial: nat): Entry {
    Entry(id, (now + wait) % U32, MAX_RETRANSMIT + 2, data, 0, now + wait, serial)
  }

  /** An entry transmitted for the first time at now. */
  function Fresh(id: nat, data: seq<byte>, now: nat, ack: nat, rnd: nat, serial: nat): Entry {
    var t := TransmitTimeout(ack, 0, rnd);
    Entry(id, (now + t) % U32, 1, data, now % U32, now + t, serial)
  }

  /** send: confirmable messages wait for their reply, replies are cached. */
  function Send(es: seq<Entry>, id: nat, data: seq<byte>, now: nat, ack: nat, rnd: nat, serial: nat): seq<Entry> {
    match TypeOf(data)
    case CON => Add(es, Fresh(id, data, now, ack, rnd, serial))
    case ACK | RESET => Add(es, Expiring(id, data, now, MaxTransmitWait(ack), serial))
    case _ => es
  }

  /** What happens to a received message: it reaches the application, is dropped, or is answered from the cache. */
  datatype Fate = Delivered | Consumed | Answered(reply: seq<byte>)

  /** The first bytes of a received message, enough to recognise it. */
  function Stub(data: seq<byte>): seq<byte> {
    if |data| > 5 then data[..5] else data
  }

  function Receive(es: seq<Entry>, id: nat, data: seq<byte>, now: nat, ack: nat, serial: nat): (seq<Entry>, Fate) {
    match TypeOf(data)
    case ACK | RESET => (Clear(es, id), if Has(es, id) then Delivered else Consumed)
    case CON =>
      if Has(es, id) then
        var cached := es[Find(es, id)].data;
        (es, if |cached| >= 1 && IsReply(TypeBits(cached[0])) then Answered(cached) else Consumed)
      else (Add(es, Expiring(id, Stub(data), now, MaxTransmitWait(ack), serial)), Delivered)
    case _ => (es, Delivered)
  }

  /** What processing the store does to a message: sent again, or given up. */
  datatype Event = Retransmit(e: Entry) | TimedOut(e: Entry)

  /** The entry after its timeout: only confirmable messages are rescheduled. */
  function Prepare(e: Entry, now: nat, ack: nat, rnd: nat): Entry {
    if |e.data| > 0 && TypeBits(e.data[0]) == CON then
      var t := TransmitTimeout(ack, e.count, rnd);
      e.(timeout := (now + t) % U32, due := now + t, count := e.count + 1)
    else e
  }

  /** prepare_retransmit returns true: the message goes out again. */
  predicate MayResend(e: Entry) {
    |e.data| > 0 && TypeBits(e.data[0]) == CON && e.count <= MAX_RETRANSMIT
  }

  /** One walk over the store; rnd(k) is the k-th random number drawn. */
  function Process(es: seq<Entry>, now: nat, ack: nat, rnd: nat -> nat, k: nat): (r: (seq<Entry>, seq<Event>)) {
    if |es| == 0 then ([], [])
    else if !TimeHasPassed(now % U32, es[0].timeout) then
      var (rest, log) := Process(es[1..], now, ack, rnd, k);
      ([es[0]] + rest, log)
    else
      var e := Prepare(es[0], now, ack, rnd(k));
      var (rest, log) := Process(es[1..], now, ack, rnd, k + 1);
      if MayResend(es[0]) then ([e] + rest, [Retransmit(e)] + log) else (rest, [TimedOut(e)] + log)
  }

  // ----- unique ids -----

  predicate Unique(es: seq<Entry>) {
    forall i, j :: 0 <= i < j < |es| ==> es[i].id != es[j].id
  }

  /** Being stored under an id, by position and by membership. */
  lemma HasIn(es: seq<Entry>, id: nat)
    ensures Has(es, id) <==> exists e :: e in es && e.id == id
    ensures Has(es, id) ==> es[Find(es, id)] in es
    ensures Unique(es) && Has(es, id) ==> forall e :: e in es && e.id == id ==> e == es[Find(es, id)]
  {
    var k := Find(es, id);
    if k < |es| {
      assert es[k] in es;
    }
    forall e | e in es && e.id == id
      ensures k < |es|
    {
      var i :| 0 <= i < |es| && es[i] == e;
      assert k <= i;
    }
  }

  lemma ClearFacts(es: seq<Entry>, id: nat)
    requires Unique(es)
    ensures Unique(Clear(es, id))
    ensures forall e :: e in Clear(es, id) <==> e in es && e.id != id
  {
    var k := Find(es, id);
    var c := Clear(es, id);
    if k < |es| {
      hide Removed, Find;
      forall e | e in es && e.id != id
        ensures e in c
      {
        var i :| 0 <= i < |es| && es[i] == e;
        assert c[if i < k then i else i - 1] == e;
      }
    }
  }

  lemma AddFacts(es: seq<Entry>, e: Entry)
    requires Unique(es)
    ensures Unique(Add(es, e))
    ensures forall x :: x in Add(es, e) <==> x == e || (x in es && x.id != e.id)
  {
    ClearFacts(es, e.id);
    var c := Clear(es, e.id);
    forall i | 0 <= i < |c|
      ensures c[i].id != e.id
    {
      assert c[i] in c;
    }
  }

  // ----- processing -----

  predicate Expired(e: Entry, now: nat) {
    TimeHasPassed(now % U32, e.timeout)
  }

  /** f is what is left of e: e itself if its time has not come, or e rescheduled. */
  predicate Remains(e: Entry, f: Entry, now: nat) {
    if Expired(e, now)
    then MayResend(e) && f.id == e.id && f.serial == e.serial && f.data == e.data && f.count == e.count + 1
         && f.timeout == f.due % U32 && f.due >= now && f.sendTime == e.sendTime
    else f == e
  }

  /**
   Processing keeps one entry for each one not expired or still to be resent, in order, and resends exactly the
   latter.
   */
  lemma {:induction false} ProcessFacts(es: seq<Entry>, now: nat, ack: nat, rnd: nat -> nat, k: nat)
    requires Unique(es)
    ensures var (rest, log) := Process(es, now, ack, rnd, k); Processed(es, rest, log, now)
  {
    hide TimeHasPassed, TransmitTimeout, Processed, Unique;
    if |es| > 0 {
      var e, tail, expired := es[0], es[1..], Expired(es[0], now);
      assert es == [e] + tail;
      UniqueTail(e, tail);
      ProcessFacts(tail, now, ack, rnd, if expired then k + 1 else k);
      var (rest, log) := Process(tail, now, ack, rnd, if expired then k + 1 else k);
      var f := if expired then Prepare(e, now, ack, rnd(k)) else e;
      if !expired || MayResend(e) {
        ProcessedKept(e, f, tail, rest, log, now, expired);
      } else {
        ProcessedDropped(e, f, tail, rest, log, now);
      }
    } else {
      NothingProcessed(now);
    }
  }

  /** What a walk over es leaves as rest and logs. */
  ghost predicate Processed(es: seq<Entry>, rest: seq<Entry>, log: seq<Event>, now: nat) {
    && Unique(rest)
    && (forall f :: f in rest ==> exists e :: e in es && Remains(e, f, now))
    && (forall e :: e in es && (!Expired(e, now) || MayResend(e)) ==> exists f :: f in rest && Remains(e, f, now))
    && (forall v :: v in log && v.Retransmit?
         ==> v.e in rest && exists e :: e in es && Expired(e, now) && Remains(e, v.e, now))
  }

  lemma NothingProcessed(now: nat)
    ensures Processed([], [], [], now)
  {}

  lemma UniqueTail(e: Entry, tail: seq<Entry>)
    requires Unique([e] + tail)
    ensures Unique(tail) && forall x :: x in tail ==> x.id != e.id
  {
    var es := [e] + tail;
    forall i, j | 0 <= i < j < |tail|
      ensures tail[i].id != tail[j].id
    {
      assert es[i + 1] == tail[i] && es[j + 1] == tail[j];
    }
    forall x | x in tail
      ensures x.id != e.id
    {
      var i :| 0 <= i < |tail| && tail[i] == x;
      assert es[i + 1] == x && es[0] == e;
    }
  }

  lemma ProcessedKept(e: Entry, f: Entry, tail: seq<Entry>, rest: seq<Entry>, log: seq<Event>, now: nat, resent: bool)
    requires Processed(tail, rest, log, now) && Remains(e, f, now) && (resent ==> Expired(e, now))
    requires forall x :: x in tail ==> x.id != e.id
    ensures Processed([e] + tail, [f] + rest, if resent then [Retransmit(f)] + log else log, now)
  {
    RemainsId(e, f, now);
    forall g | g in rest
      ensures g.id != f.id
    {
      var x :| x in tail && Remains(x, g, now);
      RemainsId(x, g, now);
    }
    hide Remains, Expired, MayResend;
    assert f in [f] + rest && e in [e] + tail;
  }

  lemma RemainsId(e: Entry, f: Entry, now: nat)
    requires Remains(e, f, now)
    ensures f.id == e.id
  {}

  lemma ProcessedDropped(e: Entry, f: Entry, tail: seq<Entry>, rest: seq<Entry>, log: seq<Event>, now: nat)
    requires Processed(tail, rest, log, now) && Expired(e, now) && !MayResend(e)
    ensures Processed([e] + tail, rest, [TimedOut(f)] + log, now)
  {
    hide Remains, Expired, MayResend;
  }

  // ----- the reliable channel over whole runs -----

  /**
   What happens at the channel, with the true time: a datagram arrives, the application sends, the stores are
   processed.
   */
  datatype Ev = Recv(now: nat, id: nat, data: seq<byte>) | AppSend(now: nat, id: nat, data: seq<byte>) | Poll(now: nat)

  datatype Delivery = Delivery(id: nat, at: nat)

  /** Both stores; as history, confirmable messages delivered, messages resent, last poll and last time. */
  datatype Chan = Chan(client: seq<Entry>, server: seq<Entry>, delivered: seq<Delivery>, resent: seq<Entry>,
                       polled: nat, clock: nat, serial: nat)

  /** The entries sent again in one walk. */
  function Resends(log: seq<Event>): seq<Entry> {
    if |log| == 0 then [] else (if log[0].Retransmit? then [log[0].e] else []) + Resends(log[1..])
  }

  predicate IsRequest(k: Kind) {
    k == CON || k == NON
  }

  /** The random numbers drawn during event n, from the given one on. */
  function Draws(rnd: (nat, nat) -> nat, n: nat, from: nat): nat -> nat {
    (k: nat) => rnd(n, from + k)
  }

  /** rnd(n, k) is the k-th random number drawn during event n. */
  function Step(c: Chan, ev: Ev, ack: nat, rnd: (nat, nat) -> nat): Chan {
    var n := c.serial;
    var next := c.(serial := n + 1, clock := ev.now);
    match ev
    case Recv(now, id, data) =>
      if IsRequest(TypeOf(data)) then
        var (server, fate) := Receive(c.server, id, data, now, ack, n);
        next.(server := server,
              delivered := if TypeOf(data) == CON && fate == Delivered then c.delivered + [Delivery(id, now)]
                           else c.delivered)
      else next.(client := Receive(c.client, id, data, now, ack, n).0)
    case AppSend(now, id, data) =>
      if IsRequest(TypeOf(data)) then next.(client := Send(c.client, id, data, now, ack, rnd(n, 0), n))
      else next.(server := Send(c.server, id, data, now, ack, rnd(n, 0), n))
    case Poll(now) =>
      var (client, log) := Process(c.client, now, ack, Draws(rnd, n, 0), 0);
      var (server, log') := Process(c.server, now, ack, Draws(rnd, n, |log|), 0);
      next.(client := client, server := server, polled := now, resent := c.resent + Resends(log) + Resends(log'))
  }

  /** A run from an empty channel established at time start. */
  function Run(start: nat, evs: seq<Ev>, ack: nat, rnd: (nat, nat) -> nat): Chan {
    if |evs| == 0 then Chan([], [], [], [], start, start, 0)
    else Step(Run(start, evs[..|evs| - 1], ack, rnd), evs[|evs| - 1], ack, rnd)
  }

  /** Time does not run backwards, and the stores are polled within half the clock range. */
  predicate Polled(start: nat, evs: seq<Ev>, ack: nat, rnd: (nat, nat) -> nat) {
    |evs| > 0 ==>
      var before, ev := evs[..|evs| - 1], evs[|evs| - 1];
      var c := Run(start, before, ack, rnd);
      Polled(start, before, ack, rnd) && c.clock <= ev.now && (ev.Poll? ==> ev.now - c.polled < HALF)
  }

  // ----- at most once -----

  /** Deliveries under one id are at least wait apart. */
  ghost predicate Spaced(ds: seq<Delivery>, wait: nat) {
    forall i, j :: 0 <= i < j < |ds| && ds[i].id == ds[j].id ==> ds[i].at + wait <= ds[j].at
  }

  ghost predicate ServerInv(c: Chan, wait: nat) {
    && Unique(c.server) && Spaced(c.delivered, wait) && c.polled <= c.clock
    && (forall e :: e in c.server ==>
          e.count >= MAX_RETRANSMIT + 2 && e.timeout == e.due % U32 && c.polled < e.due <= c.clock + wait)
    && (forall d :: d in c.delivered ==> d.at <= c.clock && (d.at + wait <= c.polled || Remembered(c.server, d, wait)))
  }

  /** The store still knows the delivered message, and will until wait has passed. */
  ghost predicate Remembered(es: seq<Entry>, d: Delivery, wait: nat) {
    exists e :: e in es && e.id == d.id && e.due >= d.at + wait
  }

  lemma DeliverStep(c: Chan, now: nat, id: nat, data: seq<byte>, ack: nat, rnd: (nat, nat) -> nat)
    requires ServerInv(c, MaxTransmitWait(ack)) && c.clock <= now && MaxTransmitWait(ack) > 0
    ensures ServerInv(Step(c, Recv(now, id, data), ack, rnd), MaxTransmitWait(ack))
  {
    hide MaxTransmitWait, TypeOf, Add, Clear, Find, Stub;
    var wait := MaxTransmitWait(ack);
    if TypeOf(data) == CON && !Has(c.server, id) {
      var e := Expiring(id, Stub(data), now, wait, c.serial);
      HasIn(c.server, id);
      AddFacts(c.server, e);
      NewDelivery(c, Step(c, Recv(now, id, data), ack, rnd), e, id, now, wait);
    }
  }

  /** A new id is delivered and remembered; whatever was delivered under it before is long forgotten. */
  lemma NewDelivery(c: Chan, c': Chan, e: Entry, id: nat, now: nat, wait: nat)
    requires ServerInv(c, wait) && c.clock <= now && wait > 0 && e.id == id
    requires e.due == now + wait && e.timeout == e.due % U32 && e.count >= MAX_RETRANSMIT + 2
    requires !exists x :: x in c.server && x.id == id
    requires Unique(c'.server) && forall x :: x in c'.server <==> x == e || (x in c.server && x.id != e.id)
    requires c'.delivered == c.delivered + [Delivery(id, now)] && c'.polled == c.polled && c'.clock == now
    ensures ServerInv(c', wait)
  {
    hide Unique;
    assert e in c'.server;
    assert Remembered(c'.server, Delivery(id, now), wait);
    forall d | d in c.delivered
      ensures d.at + wait <= c.polled || Remembered(c'.server, d, wait)
      ensures d.id == id ==> d.at + wait <= now
    {
      if d.at + wait > c.polled {
        var x :| x in c.server && x.id == d.id && x.due >= d.at + wait;
        assert x in c'.server;
      }
    }
  }

  lemma ReplyStep(c: Chan, now: nat, id: nat, data: seq<byte>, ack: nat, rnd: (nat, nat) -> nat)
    requires ServerInv(c, MaxTransmitWait(ack)) && c.clock <= now && MaxTransmitWait(ack) > 0
    ensures ServerInv(Step(c, AppSend(now, id, data), ack, rnd), MaxTransmitWait(ack))
  {
    hide MaxTransmitWait, TypeOf, Add, Clear, Find, Fresh;
    var wait := MaxTransmitWait(ack);
    if IsReply(TypeOf(data)) {
      var e := Expiring(id, data, now, wait, c.serial);
      AddFacts(c.server, e);
      var server := Add(c.server, e);
      assert e in server;
      forall d | d in c.delivered
        ensures d.at + wait <= c.polled || Remembered(server, d, wait)
      {
        if d.at + wait > c.polled {
          var x :| x in c.server && x.id == d.id && x.due >= d.at + wait;
          assert x in server || (e.id == d.id && e.due >= d.at + wait);
        }
      }
    }
  }

  lemma PollStep(c: Chan, now: nat, ack: nat, rnd: (nat, nat) -> nat)
    requires ServerInv(c, MaxTransmitWait(ack)) && c.clock <= now && now - c.polled < HALF
             && MaxTransmitWait(ack) < HALF
    ensures ServerInv(Step(c, Poll(now), ack, rnd), MaxTransmitWait(ack))
  {
    hide MaxTransmitWait, TimeHasPassed, Process;
    var wait := MaxTransmitWait(ack);
    var n := c.serial;
    var (client, log) := Process(c.client, now, ack, Draws(rnd, n, 0), 0);
    var (server, log') := Process(c.server, now, ack, Draws(rnd, n, |log|), 0);
    ProcessFacts(c.server, now, ack, Draws(rnd, n, |log|), 0);
    forall e | e in c.server
      ensures Expired(e, now) <==> now >= e.due
      ensures !MayResend(e)
    {
      PassedIsOrder(now, e.due);
    }
    forall f | f in server
      ensures f in c.server && f.due > now
    {
      var e :| e in c.server && Remains(e, f, now);
    }
    forall d | d in c.delivered && d.at + wait > now
      ensures Remembered(server, d, wait)
    {
      var x :| x in c.server && x.id == d.id && x.due >= d.at + wait;
      var f :| f in server && Remains(x, f, now);
    }
  }

  /**
   In every run after establish, two confirmable messages with the same id reach the application at least
   the maximum transmit wait apart, and the store never holds two entries with one id.
   */
  lemma {:induction false} AtMostOnce(start: nat, evs: seq<Ev>, ack: nat, rnd: (nat, nat) -> nat)
    requires Polled(start, evs, ack, rnd) && 0 < MaxTransmitWait(ack) < HALF
    ensures ServerInv(Run(start, evs, ack, rnd), MaxTransmitWait(ack))
  {
    if |evs| > 0 {
      hide MaxTransmitWait, Step, ServerInv;
      var before, ev := evs[..|evs| - 1], evs[|evs| - 1];
      AtMostOnce(start, before, ack, rnd);
      var c := Run(start, before, ack, rnd);
      match ev {
        case Recv(now, id, data) => DeliverStep(c, now, id, data, ack, rnd);
        case AppSend(now, id, data) => ReplyStep(c, now, id, data, ack, rnd);
        case Poll(now) => PollStep(c, now, ack, rnd);
      }
    }
  }

  /** A duplicate is consumed or answered, and once the application has replied it gets exactly that reply again. */
  lemma DuplicateAnswered(es: seq<Entry>, id: nat, reply: seq<byte>, dup: seq<byte>, now: nat, later: nat, ack: nat,
                          rnd: nat, n: nat, n': nat)
    requires IsReply(TypeOf(reply)) && TypeOf(dup) == CON
    ensures var es' := Send(es, id, reply, now, ack, rnd, n);
            Receive(es', id, dup, later, ack, n') == (es', Answered(reply))
  {
    assert Send(es, id, reply, now, ack, rnd, n)[0].id == id;
  }

  /** The server store knows a message under this id, until the given time. */
  ghost predicate Cached(c: Chan, id: nat, data: seq<byte>, due: nat) {
    exists e :: e in c.server && e.id == id && e.data == data && e.due == due
  }

  /** The application sends another reply under the id. */
  predicate Replaces(ev: Ev, id: nat) {
    ev.AppSend? && IsReply(TypeOf(ev.data)) && ev.id == id
  }

  /** One event keeps what is cached, unless the application replaces it or its time has come. */
  lemma CachedStep(c: Chan, ev: Ev, id: nat, data: seq<byte>, due: nat, ack: nat, rnd: (nat, nat) -> nat)
    requires ServerInv(c, MaxTransmitWait(ack)) && MaxTransmitWait(ack) < HALF && c.clock <= ev.now
    requires Cached(c, id, data, due) && !Replaces(ev, id)
    requires ev.Poll? ==> ev.now - c.polled < HALF && ev.now < due
    ensures Cached(Step(c, ev, ack, rnd), id, data, due)
  {
    hide MaxTransmitWait, TypeOf, TransmitTimeout, Add, Clear, Find, TimeHasPassed, Process;
    var n := c.serial;
    var e :| e in c.server && e.id == id && e.data == data && e.due == due;
    match ev {
      case Recv(now, id', data') =>
        HasIn(c.server, id');
        AddFacts(c.server, Expiring(id', Stub(data'), now, MaxTransmitWait(ack), n));
        assert e in Step(c, ev, ack, rnd).server;
      case AppSend(now, id', data') =>
        AddFacts(c.server, Expiring(id', data', now, MaxTransmitWait(ack), n));
        assert e in Step(c, ev, ack, rnd).server;
      case Poll(now) =>
        var log := Process(c.client, now, ack, Draws(rnd, n, 0), 0).1;
        ProcessFacts(c.server, now, ack, Draws(rnd, n, |log|), 0);
        PassedIsOrder(now, e.due);
        var server := Process(c.server, now, ack, Draws(rnd, n, |log|), 0).0;
        var f :| f in server && Remains(e, f, now);
        assert f == e;
    }
  }

  /** From the reply on, as long as it is neither replaced nor polled after its time, it stays in the store. */
  lemma {:induction false} ReplyStays(start: nat, evs: seq<Ev>, now: nat, id: nat, reply: seq<byte>, more: seq<Ev>,
                                      ack: nat, rnd: (nat, nat) -> nat)
    requires var all := evs + [AppSend(now, id, reply)] + more;
             && Polled(start, all, ack, rnd) && 0 < MaxTransmitWait(ack) < HALF
             && Run(start, all, ack, rnd).polled < now + MaxTransmitWait(ack)
    requires IsReply(TypeOf(reply)) && forall i :: 0 <= i < |more| ==> !Replaces(more[i], id)
    ensures Cached(Run(start, evs + [AppSend(now, id, reply)] + more, ack, rnd), id, reply, now + MaxTransmitWait(ack))
    decreases |more|
  {
    var sent := evs + [AppSend(now, id, reply)];
    hide Step, ServerInv, Cached, MaxTransmitWait, Replaces;
    if |more| == 0 {
      assert sent + more == sent && sent[..|evs|] == evs;
      CachedFirst(Run(start, evs, ack, rnd), now, id, reply, ack, rnd);
    } else {
      var before, ev := more[..|more| - 1], more[|more| - 1];
      assert (sent + more)[..|sent + more| - 1] == sent + before;
      var c := Run(start, sent + before, ack, rnd);
      AtMostOnce(start, sent + before, ack, rnd);
      PolledGrows(c, ev, MaxTransmitWait(ack), ack, rnd);
      ReplyStays(start, evs, now, id, reply, before, ack, rnd);
      CachedStep(c, ev, id, reply, now + MaxTransmitWait(ack), ack, rnd);
    }
  }

  lemma CachedFirst(c: Chan, now: nat, id: nat, reply: seq<byte>, ack: nat, rnd: (nat, nat) -> nat)
    requires IsReply(TypeOf(reply))
    ensures Cached(Step(c, AppSend(now, id, reply), ack, rnd), id, reply, now + MaxTransmitWait(ack))
  {
    hide MaxTransmitWait, TypeOf, Clear;
    var e := Expiring(id, reply, now, MaxTransmitWait(ack), c.serial);
    assert e in Step(c, AppSend(now, id, reply), ack, rnd).server;
  }

  lemma PolledGrows(c: Chan, ev: Ev, wait: nat, ack: nat, rnd: (nat, nat) -> nat)
    requires ServerInv(c, wait) && c.clock <= ev.now
    ensures var c' := Step(c, ev, ack, rnd); c.polled <= c'.polled && (ev.Poll? ==> c'.polled == ev.now)
  {}

  /**
   In every run, from the application's reply until the store is polled after the maximum transmit wait, or the
   application replies anew under the same id, every duplicate is answered with exactly the bytes of the reply.
   */
  lemma DuplicatesAnsweredInRun(start: nat, evs: seq<Ev>, now: nat, id: nat, reply: seq<byte>, more: seq<Ev>,
                                later: nat, dup: seq<byte>, ack: nat, rnd: (nat, nat) -> nat, n: nat)
    requires var all := evs + [AppSend(now, id, reply)] + more;
             && Polled(start, all, ack, rnd) && 0 < MaxTransmitWait(ack) < HALF
             && Run(start, all, ack, rnd).polled < now + MaxTransmitWait(ack)
    requires IsReply(TypeOf(reply)) && forall i :: 0 <= i < |more| ==> !Replaces(more[i], id)
    requires TypeOf(dup) == CON
    ensures var server := Run(start, evs + [AppSend(now, id, reply)] + more, ack, rnd).server;
            Receive(server, id, dup, later, ack, n) == (server, Answered(reply))
  {
    var all := evs + [AppSend(now, id, reply)] + more;
    ReplyStays(start, evs, now, id, reply, more, ack, rnd);
    AtMostOnce(start, all, ack, rnd);
    hide *;
    var wait := MaxTransmitWait(ack);
    CachedAnswers(Run(start, all, ack, rnd), id, reply, now + wait, wait, later, dup, ack, n);
  }

  lemma CachedAnswers(c: Chan, id: nat, reply: seq<byte>, due: nat, wait: nat, later: nat, dup: seq<byte>,
                      ack: nat, n: nat)
    requires ServerInv(c, wait) && Cached(c, id, reply, due) && IsReply(TypeOf(reply)) && TypeOf(dup) == CON
    ensures Receive(c.server, id, dup, later, ack, n) == (c.server, Answered(reply))
  {
    hide Find, MaxTransmitWait, TypeBits, Add;
    HasIn(c.server, id);
    var e :| e in c.server && e.id == id && e.data == reply && e.due == due;
  }

  // ----- bounded retransmission -----

  /** How often the message stored under a serial number has been sent again. */
  function Count(es: seq<Entry>, s: nat): nat {
    if |es| == 0 then 0 else Count(es[..|es| - 1], s) + (if es[|es| - 1].serial == s then 1 else 0)
  }

  lemma {:induction false} CountSum(a: seq<Entry>, b: seq<Entry>, s: nat)
    ensures Count(a + b, s) == Count(a, s) + Count(b, s)
  {
    if |b| == 0 {
      assert a + b == a;
    } else {
      CountSum(a, b[..|b| - 1], s);
      assert (a + b)[..|a + b| - 1] == a + b[..|b| - 1];
    }
  }

  ghost predicate Serials(es: seq<Entry>) {
    forall i, j :: 0 <= i < j < |es| ==> es[i].serial != es[j].serial
  }

  ghost predicate Due(es: seq<Entry>, now: nat, s: nat) {
    exists e :: e in es && e.serial == s && Expired(e, now) && MayResend(e)
  }

  /** One walk sends an entry again once if it has expired and may be resent, and otherwise not at all. */
  lemma {:induction false} ProcessCount(es: seq<Entry>, now: nat, ack: nat, rnd: nat -> nat, k: nat, s: nat)
    requires Serials(es)
    ensures Count(Resends(Process(es, now, ack, rnd, k).1), s) == if Due(es, now, s) then 1 else 0
  {
    hide Expired, MayResend, Due, Count, Serials, Prepare;
    if |es| > 0 {
      var e, tail := es[0], es[1..];
      var expired := Expired(e, now);
      assert es == [e] + tail;
      DueSplit(e, tail, now, s);
      ProcessCount(tail, now, ack, rnd, if expired then k + 1 else k, s);
      var log := Process(tail, now, ack, rnd, if expired then k + 1 else k).1;
      ProcessHead(es, now, ack, rnd, k);
      if expired && MayResend(e) {
        var f := Prepare(e, now, ack, rnd(k));
        PrepareSerial(e, now, ack, rnd(k));
        assert ([Retransmit(f)] + log)[1..] == log;
        CountSum([f], Resends(log), s);
        SingleCount(f, s);
      } else if expired {
        var f := Prepare(e, now, ack, rnd(k));
        assert ([TimedOut(f)] + log)[1..] == log;
        assert [] + Resends(log) == Resends(log);
      }
    } else {
      NoneDue(now, s);
    }
  }

  lemma NoneDue(now: nat, s: nat)
    ensures !Due([], now, s) && Count([], s) == 0
  {}

  lemma PrepareSerial(e: Entry, now: nat, ack: nat, rnd: nat)
    ensures Prepare(e, now, ack, rnd).serial == e.serial
  {}

  lemma ProcessHead(es: seq<Entry>, now: nat, ack: nat, rnd: nat -> nat, k: nat)
    requires |es| > 0
    ensures Process(es, now, ack, rnd, k).1
         == if !Expired(es[0], now) then Process(es[1..], now, ack, rnd, k).1
            else var e := Prepare(es[0], now, ack, rnd(k));
                 [if MayResend(es[0]) then Retransmit(e) else TimedOut(e)] + Process(es[1..], now, ack, rnd, k + 1).1
  {
    hide TimeHasPassed, MayResend, Prepare;
  }

  lemma SingleCount(e: Entry, s: nat)
    ensures Count([e], s) == if e.serial == s then 1 else 0
    ensures Count([], s) == 0
  {
    assert [e][..0] == [];
  }

  lemma DueSplit(e: Entry, tail: seq<Entry>, now: nat, s: nat)
    requires Serials([e] + tail)
    ensures Due([e] + tail, now, s) <==> (e.serial == s && Expired(e, now) && MayResend(e)) || Due(tail, now, s)
    ensures e.serial == s ==> !Due(tail, now, s)
    ensures Serials(tail)
  {
    hide TimeHasPassed, MayResend;
    var es := [e] + tail;
    assert e in es;
    assert forall i :: 0 <= i < |tail| ==> es[i + 1] == tail[i];
    forall x | x in tail
      ensures x in es && x.serial != e.serial
    {
      var i :| 0 <= i < |tail| && tail[i] == x;
      assert es[i + 1] == x && es[0] == e;
    }
  }

  /** e is what the application sent in event e.serial. */
  predicate SentBy(evs: seq<Ev>, e: Entry) {
    e.serial < |evs| && evs[e.serial].AppSend? && evs[e.serial].id == e.id && evs[e.serial].data == e.data
  }

  ghost predicate ClientInv(c: Chan, evs: seq<Ev>) {
    && c.serial == |evs| && Unique(c.client) && Unique(c.server)
    && (forall e :: e in c.server ==> e.count >= MAX_RETRANSMIT + 2 && e.serial < |evs|)
    && (forall e :: e in c.client ==>
          SentBy(evs, e) && 1 <= e.count <= MAX_RETRANSMIT + 1 && Count(c.resent, e.serial) == e.count - 1)
    && (forall r :: r in c.resent ==> SentBy(evs, r))
    && (forall s :: Count(c.resent, s) <= MAX_RETRANSMIT)
  }

  lemma ClientSerials(c: Chan, evs: seq<Ev>)
    requires ClientInv(c, evs)
    ensures Serials(c.client)
  {
    forall i, j | 0 <= i < j < |c.client|
      ensures c.client[i].serial != c.client[j].serial
    {
      assert c.client[i] in c.client && c.client[j] in c.client;
    }
  }

  lemma {:induction false} CountNew(es: seq<Entry>, evs: seq<Ev>)
    requires forall r :: r in es ==> SentBy(evs, r)
    ensures Count(es, |evs|) == 0
  {
    if |es| > 0 {
      CountNew(es[..|es| - 1], evs);
      assert es[|es| - 1] in es;
    }
  }

  lemma ClientSendStep(c: Chan, evs: seq<Ev>, ev: Ev, ack: nat, rnd: (nat, nat) -> nat)
    requires ClientInv(c, evs) && ev.AppSend?
    ensures ClientInv(Step(c, ev, ack, rnd), evs + [ev])
  {
    hide TypeOf, MaxTransmitWait, TransmitTimeout, Add, Clear, Find;
    var n := c.serial;
    CountNew(c.resent, evs);
    var first := Fresh(ev.id, ev.data, ev.now, ack, rnd(n, 0), n);
    var kept := Expiring(ev.id, ev.data, ev.now, MaxTransmitWait(ack), n);
    AddFacts(c.client, first);
    AddFacts(c.server, kept);
    assert SentBy(evs + [ev], first);
  }

  lemma ClientRecvStep(c: Chan, evs: seq<Ev>, ev: Ev, ack: nat, rnd: (nat, nat) -> nat)
    requires ClientInv(c, evs) && ev.Recv?
    ensures ClientInv(Step(c, ev, ack, rnd), evs + [ev])
  {
    hide TypeOf, MaxTransmitWait, Add, Clear, Find;
    ClearFacts(c.client, ev.id);
    AddFacts(c.server, Expiring(ev.id, Stub(ev.data), ev.now, MaxTransmitWait(ack), c.serial));
  }

  /** A walk over entries that may not be resent sends nothing. */
  lemma {:induction false} NothingResent(es: seq<Entry>, now: nat, ack: nat, rnd: nat -> nat, k: nat)
    requires forall e :: e in es ==> e.count >= MAX_RETRANSMIT + 2
    ensures Resends(Process(es, now, ack, rnd, k).1) == []
  {
    hide TimeHasPassed, TransmitTimeout;
    if |es| > 0 {
      assert es[0] in es;
      assert forall e :: e in es[1..] ==> e in es;
      NothingResent(es[1..], now, ack, rnd, if Expired(es[0], now) then k + 1 else k);
    }
  }

  lemma InResends(log: seq<Event>, r: Entry)
    requires r in Resends(log)
    ensures Retransmit(r) in log
  {}

  lemma ClientPollStep(c: Chan, evs: seq<Ev>, ev: Ev, ack: nat, rnd: (nat, nat) -> nat)
    requires ClientInv(c, evs) && ev.Poll?
    ensures ClientInv(Step(c, ev, ack, rnd), evs + [ev])
  {
    hide TimeHasPassed, Process, Resends, Count;
    var n, now := c.serial, ev.now;
    var f := Draws(rnd, n, 0);
    var (client, log) := Process(c.client, now, ack, f, 0);
    var g := Draws(rnd, n, |log|);
    var (server, log') := Process(c.server, now, ack, g, 0);
    ProcessFacts(c.client, now, ack, f, 0);
    ProcessFacts(c.server, now, ack, g, 0);
    NothingResent(c.server, now, ack, g, 0);
    ClientSerials(c, evs);
    var more := Resends(log);
    assert Step(c, ev, ack, rnd).resent == c.resent + more + [];
    assert c.resent + more + [] == c.resent + more;
    forall s
      ensures Count(c.resent + more, s) == Count(c.resent, s) + (if Due(c.client, now, s) then 1 else 0)
      ensures Count(c.resent + more, s) <= MAX_RETRANSMIT
    {
      ProcessCount(c.client, now, ack, f, 0, s);
      CountSum(c.resent, more, s);
    }
    forall e | e in client
      ensures SentBy(evs + [ev], e) && 1 <= e.count <= MAX_RETRANSMIT + 1
              && Count(c.resent + more, e.serial) == e.count - 1
    {
      var x :| x in c.client && Remains(x, e, now);
      DueOne(c.client, x, now);
    }
    forall r | r in more
      ensures SentBy(evs + [ev], r)
    {
      InResends(log, r);
      var x :| x in c.client && Expired(x, now) && Remains(x, r, now);
    }
  }

  lemma DueOne(es: seq<Entry>, x: Entry, now: nat)
    requires Serials(es) && x in es
    ensures Due(es, now, x.serial) <==> Expired(x, now) && MayResend(x)
  {
    hide TimeHasPassed, MayResend;
    forall e | e in es && e.serial == x.serial
      ensures e == x
    {
      var i :| 0 <= i < |es| && es[i] == e;
      var j :| 0 <= j < |es| && es[j] == x;
    }
  }

  /** In every run no message is sent again more than MAX_RETRANSMIT times, and always with the bytes first sent. */
  lemma {:induction false} BoundedRetransmission(start: nat, evs: seq<Ev>, ack: nat, rnd: (nat, nat) -> nat)
    ensures ClientInv(Run(start, evs, ack, rnd), evs)
  {
    if |evs| > 0 {
      hide Step, ClientInv;
      var before, ev := evs[..|evs| - 1], evs[|evs| - 1];
      assert evs == before + [ev];
      BoundedRetransmission(start, before, ack, rnd);
      var c := Run(start, before, ack, rnd);
      match ev {
        case Recv(_, _, _) => ClientRecvStep(c, before, ev, ack, rnd);
        case AppSend(_, _, _) => ClientSendStep(c, before, ev, ack, rnd);
        case Poll(_) => ClientPollStep(c, before, ev, ack, rnd);
      }
    } else {
      forall s
        ensures Count([], s) == 0
      {}
    }
  }

  /** Not in the client store any more: acknowledged, reset, replaced or given up. */
  ghost predicate Gone(c: Chan, s: nat) {
    s < c.serial && forall e :: e in c.client ==> e.serial != s
  }

  /** An ACK or RESET takes the message with its id out of the store. */
  lemma ReplyRemoves(c: Chan, evs: seq<Ev>, now: nat, id: nat, data: seq<byte>, ack: nat, rnd: (nat, nat) -> nat,
                     s: nat)
    requires ClientInv(c, evs) && IsReply(TypeOf(data))
    requires s < |evs| && evs[s].AppSend? && evs[s].id == id
    ensures Gone(Step(c, Recv(now, id, data), ack, rnd), s)
  {
    hide TypeOf, Clear, Find, Count;
    ClearFacts(c.client, id);
  }

  /** One event resends nothing that is gone, and brings nothing back. */
  lemma GoneStep(c: Chan, evs: seq<Ev>, ev: Ev, ack: nat, rnd: (nat, nat) -> nat, s: nat)
    requires ClientInv(c, evs) && Gone(c, s)
    ensures Gone(Step(c, ev, ack, rnd), s) && Count(Step(c, ev, ack, rnd).resent, s) == Count(c.resent, s)
  {
    hide TypeOf, MaxTransmitWait, TransmitTimeout, Add, Clear, Find, TimeHasPassed, Process, Resends, Count;
    var n, now := c.serial, ev.now;
    match ev {
      case Recv(_, id, data) =>
        ClearFacts(c.client, id);
      case AppSend(_, id, data) =>
        AddFacts(c.client, Fresh(id, data, now, ack, rnd(n, 0), n));
      case Poll(_) =>
        var (client, log) := Process(c.client, now, ack, Draws(rnd, n, 0), 0);
        ProcessFacts(c.client, now, ack, Draws(rnd, n, 0), 0);
        ClientSerials(c, evs);
        ProcessCount(c.client, now, ack, Draws(rnd, n, 0), 0, s);
        NothingResent(c.server, now, ack, Draws(rnd, n, |log|), 0);
        CountSum(c.resent, Resends(log), s);
        assert c.resent + Resends(log) + [] == c.resent + Resends(log);
    }
  }

  /** Once a message has left the store, for instance when its reply arrived, it is never sent again. */
  lemma {:induction false} NeverAfterReply(start: nat, evs: seq<Ev>, more: seq<Ev>, ack: nat, rnd: (nat, nat) -> nat,
                                           s: nat)
    requires Gone(Run(start, evs, ack, rnd), s)
    ensures var c, later := Run(start, evs, ack, rnd), Run(start, evs + more, ack, rnd);
            Gone(later, s) && Count(later.resent, s) == Count(c.resent, s)
    decreases |more|
  {
    if |more| == 0 {
      assert evs + more == evs;
    } else {
      hide Step, ClientInv, Gone, Count;
      var before, ev := more[..|more| - 1], more[|more| - 1];
      NeverAfterReply(start, evs, before, ack, rnd, s);
      assert (evs + more)[..|evs + more| - 1] == evs + before;
      BoundedRetransmission(start, evs + before, ack, rnd);
      GoneStep(Run(start, evs + before, ack, rnd), evs + before, ev, ack, rnd, s);
    }
  }

  // ----- deadlines over whole runs -----

  /**
   f is e after it has been sent again at now: its next deadline lies the ACK timeout, doubled once for each time it
   had been sent, ahead, and at most a half of that more (section 4.2 of RFC 7252).
   */
  ghost predicate Doubled(e: Entry, f: Entry, now: nat, ack: nat) {
    && f.id == e.id && f.data == e.data && f.serial == e.serial && f.count == e.count + 1
    && f.timeout == f.due % 0x1_0000_0000
    && ack * Pow2(e.count) <= f.due - now && 2 * (f.due - now) <= 3 * (ack * Pow2(e.count))
  }

  /** Without wrap-around the timeout lies between the doubled ACK timeout and one and a half of it. */
  lemma TimeoutRange(ack: nat, count: nat, rnd: nat)
    requires 15 * ack < U32 && count <= MAX_RETRANSMIT
    ensures var t := TransmitTimeout(ack, count, rnd);
            && ack * Pow2(count) <= t && 2 * t <= 3 * (ack * Pow2(count)) && t <= 12 * ack
  {
    hide TransmitTimeout;
    assert Pow2(0) == 1 && Pow2(1) == 2 && Pow2(2) == 4 && Pow2(3) == 8;
    var t := ack * Pow2(count);
    MulMono(Pow2(count), 8, ack);
    SmallMod(t, U32);
    OneTimeout(ack, count, rnd);
    TimeoutIs(ack, count, rnd);
    NoWrap(t, rnd % 256, U32);
  }

  lemma TimeoutIs(ack: nat, count: nat, rnd: nat)
    ensures var t := Shl32(ack, count);
            TransmitTimeout(ack, count, rnd) == (t + t * (rnd % 256) % U32 / 512) % U32
  {}

  lemma NoWrap(t: nat, r: nat, m: nat)
    requires t + t / 2 < m && r < 256
    ensures 0 <= t * r && t <= (t + t * r % m / 512) % m
  {
    MulMono(r, 255, t);
    var p: nat := r * t;
    assert t * r == p;
    WrapDown(p, m);
    var j := p % m / 512;
    assert j <= t / 2;
    SmallMod(t + j, m);
  }

  /** What a walk keeps has not expired, or has been sent again with its timeout doubled. */
  lemma {:induction false} ProcessDoubles(es: seq<Entry>, now: nat, ack: nat, rnd: nat -> nat, k: nat)
    requires 15 * ack < U32
    ensures forall f :: f in Process(es, now, ack, rnd, k).0 ==>
              || (f in es && !Expired(f, now))
              || exists e :: e in es && Expired(e, now) && MayResend(e) && Doubled(e, f, now, ack)
  {
    hide TimeHasPassed, TransmitTimeout, Doubled, MayResend, Prepare;
    if |es| > 0 {
      var expired := Expired(es[0], now);
      var next := if expired then k + 1 else k;
      ProcessDoubles(es[1..], now, ack, rnd, next);
      assert forall e :: e in es[1..] ==> e in es;
      assert es[0] in es;
      if expired && MayResend(es[0]) {
        PrepareDoubles(es[0], now, ack, rnd(k));
      }
    }
  }

  lemma PrepareDoubles(e: Entry, now: nat, ack: nat, rnd: nat)
    requires 15 * ack < U32 && MayResend(e)
    ensures Doubled(e, Prepare(e, now, ack, rnd), now, ack) && Prepare(e, now, ack, rnd).due <= now + 12 * ack
  {
    hide TransmitTimeout, Pow2;
    TimeoutRange(ack, e.count, rnd);
  }

  /** Every poll comes at most lag after each deadline it finds in the store. */
  ghost predicate Prompt(start: nat, evs: seq<Ev>, ack: nat, rnd: (nat, nat) -> nat, lag: nat) {
    |evs| > 0 ==>
      var before, ev := evs[..|evs| - 1], evs[|evs| - 1];
      && Prompt(start, before, ack, rnd, lag)
      && (ev.Poll? ==> forall e :: e in Run(start, before, ack, rnd).client ==> ev.now <= e.due + lag)
  }

  /** The deadline is still to come, and the timeouts up to it were doubled from one sending to the next. */
  ghost predicate OnSchedule(c: Chan, evs: seq<Ev>, e: Entry, ack: nat, lag: nat) {
    && SentBy(evs, e) && MAX_RETRANSMIT + 1 >= e.count >= 1 && |e.data| > 0 && TypeBits(e.data[0]) == CON
    && e.timeout == e.due % U32 && c.polled < e.due <= c.clock + 12 * ack
    && var waited := e.due - evs[e.serial].now;
       && ack * (Pow2(e.count) - 1) <= waited
       && 2 * waited <= 3 * (ack * (Pow2(e.count) - 1)) + 2 * (lag * (e.count - 1))
  }

  ghost predicate AllOnSchedule(c: Chan, evs: seq<Ev>, ack: nat, lag: nat) {
    c.polled <= c.clock && forall e :: e in c.client ==> OnSchedule(c, evs, e, ack, lag)
  }

  /** What stays in the store unchanged while the clock moves on stays on schedule. */
  lemma StaysOnSchedule(c: Chan, c': Chan, evs: seq<Ev>, ev: Ev, e: Entry, ack: nat, lag: nat)
    requires OnSchedule(c, evs, e, ack, lag) && c.clock <= c'.clock && c'.polled < e.due
    ensures OnSchedule(c', evs + [ev], e, ack, lag)
  {
    hide Pow2;
    assert (evs + [ev])[e.serial] == evs[e.serial];
  }

  lemma FirstDeadline(c: Chan, evs: seq<Ev>, ev: Ev, ack: nat, rnd: nat, lag: nat)
    requires ev.AppSend? && TypeOf(ev.data) == CON && c.clock == ev.now && c.polled <= ev.now
    requires 0 < ack && 15 * ack < U32
    ensures OnSchedule(c, evs + [ev], Fresh(ev.id, ev.data, ev.now, ack, rnd, |evs|), ack, lag)
  {
    hide TransmitTimeout;
    TimeoutRange(ack, 0, rnd);
    assert Pow2(0) == 1 && Pow2(1) == 2;
    assert lag * 0 == 0;
  }

  /** After a resend at most lag late the schedule goes on. */
  lemma NextDeadline(c: Chan, c': Chan, evs: seq<Ev>, ev: Ev, e: Entry, f: Entry, ack: nat, lag: nat)
    requires OnSchedule(c, evs, e, ack, lag) && Doubled(e, f, ev.now, ack) && e.due <= ev.now <= e.due + lag
    requires MayResend(e) && 0 < ack && c'.polled == c'.clock == ev.now && f.due <= ev.now + 12 * ack
    ensures OnSchedule(c', evs + [ev], f, ack, lag)
  {
    var sent := evs[e.serial].now;
    assert (evs + [ev])[e.serial] == evs[e.serial];
    assert Pow2(e.count + 1) == 2 * Pow2(e.count);
    hide Pow2;
    NextWaited(ack, Pow2(e.count), lag, e.count, e.due - sent, ev.now - e.due, f.due - ev.now);
  }

  /** One more doubled timeout, begun at most lag late. */
  lemma NextWaited(ack: nat, p: nat, lag: nat, n: nat, waited: int, late: nat, next: int)
    requires p > 0 && n > 0 && ack > 0 && late <= lag
    requires ack * (p - 1) <= waited && 2 * waited <= 3 * (ack * (p - 1)) + 2 * (lag * (n - 1))
    requires ack * p <= next && 2 * next <= 3 * (ack * p)
    ensures ack * (2 * p - 1) <= waited + late + next && next > 0
    ensures 2 * (waited + late + next) <= 3 * (ack * (2 * p - 1)) + 2 * (lag * n)
  {
    assert ack * (2 * p - 1) == ack * (p - 1) + ack * p;
    assert lag * n == lag * (n - 1) + lag;
    MulMono(1, p, ack);
  }

  lemma SendOnSchedule(c: Chan, evs: seq<Ev>, ev: Ev, ack: nat, rnd: (nat, nat) -> nat, lag: nat)
    requires AllOnSchedule(c, evs, ack, lag) && ClientInv(c, evs) && ev.AppSend? && c.clock <= ev.now
    requires 0 < ack && 15 * ack < U32
    ensures AllOnSchedule(Step(c, ev, ack, rnd), evs + [ev], ack, lag)
  {
    var c' := Step(c, ev, ack, rnd);
    var first := Fresh(ev.id, ev.data, ev.now, ack, rnd(c.serial, 0), c.serial);
    AddFacts(c.client, first);
    hide TypeOf, MaxTransmitWait, Add, Fresh, OnSchedule;
    if TypeOf(ev.data) == CON {
      FirstDeadline(c', evs, ev, ack, rnd(c.serial, 0), lag);
    }
    forall e | e in c'.client
      ensures OnSchedule(c', evs + [ev], e, ack, lag)
    {
      if e in c.client {
        DueLater(c, evs, e, ack, lag);
        StaysOnSchedule(c, c', evs, ev, e, ack, lag);
      }
    }
  }

  lemma DueLater(c: Chan, evs: seq<Ev>, e: Entry, ack: nat, lag: nat)
    requires OnSchedule(c, evs, e, ack, lag)
    ensures c.polled < e.due <= c.clock + 12 * ack && e.timeout == e.due % U32
  {}

  lemma RecvOnSchedule(c: Chan, evs: seq<Ev>, ev: Ev, ack: nat, rnd: (nat, nat) -> nat, lag: nat)
    requires AllOnSchedule(c, evs, ack, lag) && ClientInv(c, evs) && ev.Recv? && c.clock <= ev.now
    ensures AllOnSchedule(Step(c, ev, ack, rnd), evs + [ev], ack, lag)
  {
    var c' := Step(c, ev, ack, rnd);
    ClearFacts(c.client, ev.id);
    hide TypeOf, MaxTransmitWait, Add, Clear, OnSchedule;
    forall e | e in c'.client
      ensures OnSchedule(c', evs + [ev], e, ack, lag)
    {
      DueLater(c, evs, e, ack, lag);
      StaysOnSchedule(c, c', evs, ev, e, ack, lag);
    }
  }

  /** Within half the clock range of a poll the 32-bit comparison expires exactly what is due. */
  lemma ExpiredIsDue(c: Chan, evs: seq<Ev>, e: Entry, now: nat, ack: nat, lag: nat)
    requires OnSchedule(c, evs, e, ack, lag) && c.clock <= now && now - c.polled < HALF && 12 * ack < HALF
    ensures Expired(e, now) <==> e.due <= now
  {
    DueLater(c, evs, e, ack, lag);
    PassedIsOrder(now, e.due);
  }

  lemma PollOnSchedule(c: Chan, evs: seq<Ev>, ev: Ev, ack: nat, rnd: (nat, nat) -> nat, lag: nat)
    requires AllOnSchedule(c, evs, ack, lag) && ev.Poll? && c.clock <= ev.now && ev.now - c.polled < HALF
    requires 0 < ack && 15 * ack < U32 && 12 * ack < HALF && forall e :: e in c.client ==> ev.now <= e.due + lag
    ensures AllOnSchedule(Step(c, ev, ack, rnd), evs + [ev], ack, lag)
  {
    var c', now := Step(c, ev, ack, rnd), ev.now;
    var f := Draws(rnd, c.serial, 0);
    ProcessDoubles(c.client, now, ack, f, 0);
    ProcessLimit(c.client, now, ack, f, 0);
    hide Process, OnSchedule, Doubled, MayResend, Expired;
    forall g | g in c'.client
      ensures OnSchedule(c', evs + [ev], g, ack, lag)
    {
      if g in c.client && !Expired(g, now) {
        ExpiredIsDue(c, evs, g, now, ack, lag);
        StaysOnSchedule(c, c', evs, ev, g, ack, lag);
      } else {
        var e :| e in c.client && Expired(e, now) && MayResend(e) && Doubled(e, g, now, ack);
        ExpiredIsDue(c, evs, e, now, ack, lag);
        NextDeadline(c, c', evs, ev, e, g, ack, lag);
      }
    }
  }

  lemma {:induction false} ProcessLimit(es: seq<Entry>, now: nat, ack: nat, rnd: nat -> nat, k: nat)
    requires 15 * ack < U32
    ensures forall f :: f in Process(es, now, ack, rnd, k).0 ==>
              (f in es && !Expired(f, now)) || f.due <= now + 12 * ack
  {
    hide TimeHasPassed, TransmitTimeout, MayResend, Prepare;
    if |es| > 0 {
      ProcessLimit(es[1..], now, ack, rnd, if Expired(es[0], now) then k + 1 else k);
      assert forall e :: e in es[1..] ==> e in es;
      if Expired(es[0], now) && MayResend(es[0]) {
        PrepareDoubles(es[0], now, ack, rnd(k));
      }
    }
  }

  lemma {:induction false} RunOnSchedule(start: nat, evs: seq<Ev>, ack: nat, rnd: (nat, nat) -> nat, lag: nat)
    requires Polled(start, evs, ack, rnd) && Prompt(start, evs, ack, rnd, lag)
    requires 0 < ack && 15 * ack < U32 && 12 * ack < HALF
    ensures AllOnSchedule(Run(start, evs, ack, rnd), evs, ack, lag)
  {
    if |evs| > 0 {
      hide Step, ClientInv, AllOnSchedule;
      var before, ev := evs[..|evs| - 1], evs[|evs| - 1];
      assert evs == before + [ev];
      RunOnSchedule(start, before, ack, rnd, lag);
      BoundedRetransmission(start, before, ack, rnd);
      var c := Run(start, before, ack, rnd);
      match ev {
        case Recv(_, _, _) => RecvOnSchedule(c, before, ev, ack, rnd, lag);
        case AppSend(_, _, _) => SendOnSchedule(c, before, ev, ack, rnd, lag);
        case Poll(_) => PollOnSchedule(c, before, ev, ack, rnd, lag);
      }
    }
  }

  /**
   A message that a poll gives up has been sent four times, and no earlier than 15 times the ACK timeout and, when
   every poll comes at most lag after a deadline, no later than the maximum transmit wait and four lags after it was
   first sent.
   */
  lemma GivenUpInTime(start: nat, evs: seq<Ev>, now: nat, e: Entry, ack: nat, rnd: (nat, nat) -> nat, lag: nat)
    requires Polled(start, evs + [Poll(now)], ack, rnd) && Prompt(start, evs + [Poll(now)], ack, rnd, lag)
    requires 0 < ack && 15 * ack < U32 && MaxTransmitWait(ack) < HALF
    requires e in Run(start, evs, ack, rnd).client
    requires forall f :: f in Run(start, evs + [Poll(now)], ack, rnd).client ==> f.serial != e.serial
    ensures SentBy(evs, e) && Count(Run(start, evs, ack, rnd).resent, e.serial) == 3
    ensures var waited := now - evs[e.serial].now;
            15 * ack <= waited <= 15 * ack * 3 / 2 + 4 * lag && MaxTransmitWait(ack) == 15 * ack * 3 / 2
  {
    hide *;
    var c := Run(start, evs, ack, rnd);
    WaitUnwrapped(ack);
    PollLast(start, evs, now, ack, rnd, lag);
    RunOnSchedule(start, evs, ack, rnd, lag);
    BoundedRetransmission(start, evs, ack, rnd);
    LeftByPoll(c, evs, e, now, ack, rnd, lag);
    LastDeadline(c, evs, e, ack, lag);
  }

  lemma PollLast(start: nat, evs: seq<Ev>, now: nat, ack: nat, rnd: (nat, nat) -> nat, lag: nat)
    requires Polled(start, evs + [Poll(now)], ack, rnd) && Prompt(start, evs + [Poll(now)], ack, rnd, lag)
    ensures Polled(start, evs, ack, rnd) && Prompt(start, evs, ack, rnd, lag)
    ensures var c := Run(start, evs, ack, rnd);
            && Run(start, evs + [Poll(now)], ack, rnd) == Step(c, Poll(now), ack, rnd)
            && c.clock <= now && now - c.polled < HALF && HALF == 0x8000_0000 && U32 == 0x1_0000_0000
            && forall e :: e in c.client ==> now <= e.due + lag
  {
    var all := evs + [Poll(now)];
    assert all[..|all| - 1] == evs && all[|all| - 1] == Poll(now);
  }

  lemma LeftByPoll(c: Chan, evs: seq<Ev>, e: Entry, now: nat, ack: nat, rnd: (nat, nat) -> nat, lag: nat)
    requires ClientInv(c, evs) && AllOnSchedule(c, evs, ack, lag) && e in c.client
    requires c.clock <= now && now - c.polled < HALF && 12 * ack < HALF
    requires forall f :: f in Step(c, Poll(now), ack, rnd).client ==> f.serial != e.serial
    ensures OnSchedule(c, evs, e, ack, lag) && SentBy(evs, e) && e.due <= now && e.count == 4
    ensures Count(c.resent, e.serial) == 3
  {
    ExpiredIsDue(c, evs, e, now, ack, lag);
    NotKept(c, evs, e, now, ack, Draws(rnd, c.serial, 0));
  }

  lemma LastDeadline(c: Chan, evs: seq<Ev>, e: Entry, ack: nat, lag: nat)
    requires OnSchedule(c, evs, e, ack, lag) && e.count == 4
    ensures var waited := e.due - evs[e.serial].now; 15 * ack <= waited && 2 * waited <= 45 * ack + 6 * lag
  {
    assert Pow2(0) == 1 && Pow2(1) == 2 && Pow2(2) == 4 && Pow2(3) == 8 && Pow2(4) == 16;
  }

  lemma WaitUnwrapped(ack: nat)
    requires 15 * ack < U32
    ensures MaxTransmitWait(ack) == 15 * ack * 3 / 2 >= 22 * ack
  {}

  /** What a walk does not keep has expired and has been sent as often as allowed. */
  lemma NotKept(c: Chan, evs: seq<Ev>, e: Entry, now: nat, ack: nat, rnd: nat -> nat)
    requires ClientInv(c, evs) && e in c.client && |e.data| > 0 && TypeBits(e.data[0]) == CON
    requires forall f :: f in Process(c.client, now, ack, rnd, 0).0 ==> f.serial != e.serial
    ensures Expired(e, now) && e.count == MAX_RETRANSMIT + 1 && Count(c.resent, e.serial) == MAX_RETRANSMIT
  {
    hide TimeHasPassed, TransmitTimeout, Process, Count;
    ProcessFacts(c.client, now, ack, rnd, 0);
    forall f | f in Process(c.client, now, ack, rnd, 0).0
      ensures !Remains(e, f, now)
    {}
  }

  // ----- what is delivered, stored and sent at all -----

  /** The header of section 3 of RFC 7252: version 1, a type of two bits and a token length. */
  lemma TypeField(t: byte, tokenLength: byte)
    requires t < 4 && tokenLength < 16
    ensures TypeBits(0x40 | (t << 4) | tokenLength)
            == if t == 0 then CON else if t == 1 then NON else if t == 2 then ACK else RESET
  {
    TypeMask(t, tokenLength);
  }

  lemma TypeMask(t: byte, tokenLength: byte)
    requires t < 4 && tokenLength < 16
    ensures (0x40 | (t << 4) | tokenLength) & 0x30 == t << 4
    ensures t << 4 == 0 <==> t == 0
    ensures t << 4 == 0x10 <==> t == 1
    ensures t << 4 == 0x30 <==> t == 3
  {}

  /** Anything shorter than a header is an error. */
  lemma ShortIsError(data: seq<byte>)
    ensures TypeOf(data) == ERROR <==> |data| < 4
  {}

  /**
   Which messages reach the application: a confirmable one whose id the store does not know, a reply to a message
   that is waiting, and everything that is neither confirmable nor a reply.
   */
  lemma ReceiveFates(es: seq<Entry>, id: nat, data: seq<byte>, now: nat, ack: nat, n: nat)
    requires Unique(es)
    ensures var (rest, fate) := Receive(es, id, data, now, ack, n);
            var known := exists e :: e in es && e.id == id;
            && (TypeOf(data) == CON ==>
                  && (fate == Delivered <==> !known)
                  && (known ==> rest == es)
                  && (!known ==> forall e :: e in rest <==> e in es || e == Expiring(id, Stub(data), now,
                                                                                     MaxTransmitWait(ack), n)))
            && (IsReply(TypeOf(data)) ==>
                  && (fate == Delivered <==> known) && (fate == Consumed <==> !known)
                  && forall e :: e in rest <==> e in es && e.id != id)
            && (TypeOf(data) == NON || TypeOf(data) == ERROR ==> fate == Delivered && rest == es)
  {
    HasIn(es, id);
    ClearFacts(es, id);
    AddFacts(es, Expiring(id, Stub(data), now, MaxTransmitWait(ack), n));
    hide Find, Clear, MaxTransmitWait, TypeOf, Stub, TypeBits;
  }

  /** What a message kept only for its id looks like: due after the wait, and never sent. */
  lemma ExpiringIs(id: nat, data: seq<byte>, now: nat, wait: nat, n: nat)
    ensures var e := Expiring(id, data, now, wait, n);
            && e.id == id && e.due == now + wait && e.timeout == e.due % 0x1_0000_0000 && e.data == data
            && e.count == 5 && !MayResend(e)
  {}

  /** Of a received message the first five bytes are kept, or all of a shorter one. */
  lemma StubIs(data: seq<byte>)
    ensures Stub(data) <= data && |Stub(data)| == Min(5, |data|)
  {}

  /** In every run a confirmable message the application sends is stored for retransmission, as sent once. */
  lemma SentIsStored(start: nat, evs: seq<Ev>, now: nat, id: nat, data: seq<byte>, ack: nat, rnd: (nat, nat) -> nat)
    requires TypeOf(data) == CON
    ensures exists e :: e in Run(start, evs + [AppSend(now, id, data)], ack, rnd).client
                        && e.id == id && e.data == data && e.serial == |evs| && e.count == 1
  {
    var all := evs + [AppSend(now, id, data)];
    assert all[..|all| - 1] == evs && all[|all| - 1] == AppSend(now, id, data);
    BoundedRetransmission(start, evs, ack, rnd);
    var c := Run(start, evs, ack, rnd);
    hide TypeOf, TransmitTimeout, Add, Clear, Run;
    var e := Fresh(id, data, now, ack, rnd(c.serial, 0), c.serial);
    AddFacts(c.client, e);
    assert e in Run(start, all, ack, rnd).client by {
      RunLast(start, evs, AppSend(now, id, data), ack, rnd);
    }
  }

  lemma RunLast(start: nat, evs: seq<Ev>, ev: Ev, ack: nat, rnd: (nat, nat) -> nat)
    ensures Run(start, evs + [ev], ack, rnd) == Step(Run(start, evs, ack, rnd), ev, ack, rnd)
  {
    hide Step;
    assert (evs + [ev])[..|evs|] == evs;
  }

  /** The event puts the id into the server store: a confirmable message arrives, or the application replies. */
  predicate Uses(ev: Ev, id: nat) {
    (ev.Recv? && TypeOf(ev.data) == CON && ev.id == id) || Replaces(ev, id)
  }

  lemma {:induction false} NotYetStored(start: nat, evs: seq<Ev>, id: nat, ack: nat, rnd: (nat, nat) -> nat)
    requires forall i :: 0 <= i < |evs| ==> !Uses(evs[i], id)
    ensures forall e :: e in Run(start, evs, ack, rnd).server ==> e.id != id
  {
    if |evs| > 0 {
      var before, ev := evs[..|evs| - 1], evs[|evs| - 1];
      assert evs == before + [ev];
      NotYetStored(start, before, id, ack, rnd);
      BoundedRetransmission(start, before, ack, rnd);
      RunLast(start, before, ev, ack, rnd);
      hide Run, ClientInv;
      NoNewId(Run(start, before, ack, rnd), before, ev, id, ack, rnd);
    }
  }

  lemma NoNewId(c: Chan, evs: seq<Ev>, ev: Ev, id: nat, ack: nat, rnd: (nat, nat) -> nat)
    requires ClientInv(c, evs) && !Uses(ev, id) && forall e :: e in c.server ==> e.id != id
    ensures forall e :: e in Step(c, ev, ack, rnd).server ==> e.id != id
  {
    hide TypeOf, MaxTransmitWait, TransmitTimeout, Add, Clear, Find, TimeHasPassed, Process, Resends, Count;
    var n, now := c.serial, ev.now;
    match ev {
      case Recv(_, id', data) =>
        AddFacts(c.server, Expiring(id', Stub(data), now, MaxTransmitWait(ack), n));
      case AppSend(_, id', data) =>
        AddFacts(c.server, Expiring(id', data, now, MaxTransmitWait(ack), n));
      case Poll(_) =>
        var log := Process(c.client, now, ack, Draws(rnd, n, 0), 0).1;
        ProcessFacts(c.server, now, ack, Draws(rnd, n, |log|), 0);
    }
  }

  /** In every run the first confirmable message under an id reaches the application. */
  lemma FirstDelivered(start: nat, evs: seq<Ev>, now: nat, id: nat, data: seq<byte>, ack: nat,
                       rnd: (nat, nat) -> nat)
    requires TypeOf(data) == CON && forall i :: 0 <= i < |evs| ==> !Uses(evs[i], id)
    ensures Run(start, evs + [Recv(now, id, data)], ack, rnd).delivered
            == Run(start, evs, ack, rnd).delivered + [Delivery(id, now)]
  {
    NotYetStored(start, evs, id, ack, rnd);
    RunLast(start, evs, Recv(now, id, data), ack, rnd);
    var c := Run(start, evs, ack, rnd);
    HasIn(c.server, id);
    hide Run, TypeOf, MaxTransmitWait, Add, Find, Stub;
  }

  /** Exactly the messages that have expired and may not be sent again are reported as timed out. */
  lemma {:induction false} GivenUpReported(es: seq<Entry>, now: nat, ack: nat, rnd: nat -> nat, k: nat)
    ensures var log := Process(es, now, ack, rnd, k).1;
            && (forall e :: e in es && Expired(e, now) && !MayResend(e) ==>
                  exists v :: v in log && v.TimedOut? && v.e.serial == e.serial && v.e.data == e.data)
            && (forall v :: v in log && v.TimedOut? ==>
                  exists e :: e in es && Expired(e, now) && !MayResend(e)
                              && v.e.serial == e.serial && v.e.data == e.data)
  {
    hide TimeHasPassed, MayResend, TransmitTimeout;
    if |es| > 0 {
      var next := if Expired(es[0], now) then k + 1 else k;
      GivenUpReported(es[1..], now, ack, rnd, next);
      var rest, log := Process(es[1..], now, ack, rnd, next).1, Process(es, now, ack, rnd, k).1;
      assert es[0] in es && forall e :: e in es <==> e == es[0] || e in es[1..];
      var f := Prepare(es[0], now, ack, rnd(k));
      assert Expired(es[0], now) ==> log == [if MayResend(es[0]) then Retransmit(f) else TimedOut(f)] + rest;
      assert f.serial == es[0].serial && f.data == es[0].data;
      if Expired(es[0], now) && !MayResend(es[0]) {
        assert TimedOut(f) in log;
      }
    }
  }
}
