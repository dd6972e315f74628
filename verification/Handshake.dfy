/**
 Ordering of handshake messages: numbers too small are dropped, numbers too large are kept in the
 reorder queue, and the expected one is handled together with everything it was holding up
 (section 4.2.2 of RFC 6347).
 */
module Handshake {
  import opened Lists
  import opened Octet
  import opened Bytes
  import opened Netq

  const HS_LENGTH := 12
  const MAX_BUF := 1400
  const U16 := 0x1_0000

  type Msg = m: seq<byte> | |m| >= HS_LENGTH witness Zeros(HS_LENGTH)

  /** The message_seq field of the handshake header. */
  function Number(m: Msg): nat {
    FromBigEndian(m[4..6])
  }

  /** No fragments: the fragment is the whole message and fills the record. */
  predicate Whole(m: Msg) {
    && FromBigEndian(m[1..4]) == FromBigEndian(m[9..12])
    && FromBigEndian(m[6..9]) == 0
    && FromBigEndian(m[9..12]) + HS_LENGTH == |m|
  }

  /** The handshake header in front of a body (section 4.2.2 of RFC 6347). */
  function Build(msgType: byte, length: nat, seqNo: nat, offset: nat, fragment: nat, body: seq<byte>): Msg {
    [msgType] + BigEndian(length, 3) + BigEndian(seqNo, 2) + BigEndian(offset, 3) + BigEndian(fragment, 3) + body
  }

  /**
   The fields are read where they are written: the number is the sequence number, and whole is what has no fragments.
   */
  lemma HeaderFields(msgType: byte, length: nat, seqNo: nat, offset: nat, fragment: nat, body: seq<byte>)
    requires length < 0x100_0000 && seqNo < 0x1_0000 && offset < 0x100_0000 && fragment < 0x100_0000
    ensures var m := Build(msgType, length, seqNo, offset, fragment, body);
            && Number(m) == seqNo
            && (Whole(m) <==> offset == 0 && length == fragment == |body|)
  {
    var m := Build(msgType, length, seqNo, offset, fragment, body);
    assert m[1..4] == BigEndian(length, 3) && m[4..6] == BigEndian(seqNo, 2);
    assert m[6..9] == BigEndian(offset, 3) && m[9..12] == BigEndian(fragment, 3);
    FieldReadBack(length, 3);
    FieldReadBack(seqNo, 2);
    FieldReadBack(offset, 3);
    FieldReadBack(fragment, 3);
    hide BigEndian, FromBigEndian;
  }

  lemma FieldReadBack(v: nat, n: nat)
    requires 2 <= n <= 3 && v < if n == 2 then 0x1_0000 else 0x100_0000
    ensures FromBigEndian(BigEndian(v, n)) == v
  {
    assert Pow256(1) == 256 && Pow256(2) == 256 * Pow256(1) && Pow256(3) == 256 * Pow256(2);
    ReadBack(v, n);
  }

  // ----- the state, on values -----

  /** Running until a handler fails or the Finished message releases the handshake parameters. */
  datatype Phase = Running | Failed | Finished

  datatype Verdict = Accept | Fail | Finish

  /** What handling a message leads to; it may depend on everything handled before. */
  type Handler = (seq<Msg>, Msg) -> Verdict

  /** Expected number, reorder queue and the messages handled so far. */
  datatype State = State(expected: nat, queue: seq<Msg>, handled: seq<Msg>, phase: Phase)

  function Handle(s: State, m: Msg, h: Handler): State {
    match h(s.handled, m)
    case Accept => s.(expected := (s.expected + 1) % U16, handled := s.handled + [m])
    case Fail => s.(handled := s.handled + [m], phase := Failed)
    case Finish => s.(handled := s.handled + [m], phase := Finished)
  }

  /** Position of the first queued message with this number, or the length of the queue. */
  function Find(queue: seq<Msg>, n: nat): (k: nat)
    ensures k <= |queue|
    ensures k < |queue| ==> Number(queue[k]) == n
    ensures forall i :: 0 <= i < k ==> Number(queue[i]) != n
  {
    if |queue| == 0 || Number(queue[0]) == n then 0 else 1 + Find(queue[1..], n)
  }

  /** Handles queued messages as long as the expected one is among them. */
  function Drain(s: State, h: Handler): State
    decreases |s.queue|
  {
    var k := Find(s.queue, s.expected);
    if s.phase != Running || k == |s.queue| then s
    else Drain(Handle(s.(queue := Removed(s.queue, k)), s.queue[k], h), h)
  }

  function Receive(s: State, m: Msg, h: Handler): State {
    if s.phase != Running || Number(m) < s.expected then s
    else if Number(m) > s.expected then
      if |m| > MAX_BUF || Find(s.queue, Number(m)) < |s.queue| then s else s.(queue := s.queue + [m])
    else Drain(Handle(s, m, h), h)
  }

  function Run(start: nat, ms: seq<Msg>, h: Handler): State {
    if |ms| == 0 then State(start, [], [], Running) else Receive(Run(start, ms[..|ms| - 1], h), ms[|ms| - 1], h)
  }

  // ----- what a run achieves -----

  /** The first message with number n among those received; there is one. */
  function First(ms: seq<Msg>, n: nat): (m: Msg)
    requires Find(ms, n) < |ms|
  {
    ms[Find(ms, n)]
  }

  predicate Got(ms: seq<Msg>, n: nat) {
    Find(ms, n) < |ms|
  }

  /**
   Handled are the numbers from start on, in order and once each, each with its first arrival; queued
   are the first arrivals of exactly the numbers above the expected one; the expected one is missing.
   */
  ghost predicate InOrder(s: State, start: nat, ms: seq<Msg>) {
    && s.phase == Running && s.expected == start + |s.handled| < U16
    && HandledFirst(s.handled, start, ms)
    && !Got(ms, s.expected)
    && Queued(s.queue, s.expected, ms)
  }

  /** The same before draining: the expected number may be waiting in the queue. */
  ghost predicate Draining(s: State, start: nat, ms: seq<Msg>) {
    && s.phase == Running && s.expected == start + |s.handled| < U16
    && HandledFirst(s.handled, start, ms)
    && Queued(s.queue, s.expected - 1, ms)
  }

  /** Handled are the first arrivals of start, start + 1, ... */
  ghost predicate HandledFirst(handled: seq<Msg>, start: nat, ms: seq<Msg>) {
    forall n: nat :: start <= n < start + |handled| ==> Got(ms, n) && handled[n - start] == First(ms, n)
  }

  /** The queue holds the first arrivals of exactly the numbers above low, each once. */
  ghost predicate Queued(queue: seq<Msg>, low: int, ms: seq<Msg>) {
    && (forall i :: 0 <= i < |queue|
         ==> Number(queue[i]) > low && Got(ms, Number(queue[i])) && queue[i] == First(ms, Number(queue[i])))
    && (forall i, j :: 0 <= i < j < |queue| ==> Number(queue[i]) != Number(queue[j]))
    && (forall n: nat :: n > low && Got(ms, n) ==> Got(queue, n))
  }

  /** In order so far, also when a handler failed or the handshake finished. */
  ghost predicate Safe(s: State, start: nat, ms: seq<Msg>) {
    HandledFirst(s.handled, start, ms) && (s.phase == Running ==> InOrder(s, start, ms))
  }

  /** The messages fit the reorder buffer, and the 16-bit numbers are not exhausted. */
  ghost predicate Ordinary(ms: seq<Msg>) {
    forall i :: 0 <= i < |ms| ==> |ms[i]| <= MAX_BUF && Number(ms[i]) + 1 < U16
  }

  lemma {:induction false} FindAppend(ms: seq<Msg>, m: Msg, n: nat)
    ensures Find(ms + [m], n) == if Got(ms, n) then Find(ms, n) else if Number(m) == n then |ms| else |ms| + 1
  {
    hide Number;
    if |ms| > 0 && Number(ms[0]) != n {
      FindAppend(ms[1..], m, n);
      assert (ms + [m])[1..] == ms[1..] + [m];
    } else if |ms| == 0 {
      assert (ms + [m])[1..] == [];
    }
  }

  lemma {:induction false} FindIs(ms: seq<Msg>, n: nat, k: nat)
    requires k < |ms| && Number(ms[k]) == n && forall i :: 0 <= i < k ==> Number(ms[i]) != n
    ensures Find(ms, n) == k
  {
    hide Number;
    if k > 0 {
      FindIs(ms[1..], n, k - 1);
    }
  }

  lemma GotIf(ms: seq<Msg>, i: nat)
    requires i < |ms|
    ensures Got(ms, Number(ms[i]))
  {
    hide Number;
    var k := Find(ms, Number(ms[i]));
    assert i >= k;
  }

  /** Taking the expected message out of the queue. */
  lemma Dequeue(queue: seq<Msg>, e: nat, ms: seq<Msg>, k: nat)
    requires Queued(queue, e - 1, ms) && k < |queue| && Number(queue[k]) == e
    ensures Queued(Removed(queue, k), e, ms)
  {
    hide Number, Find, First, Removed;
    var rest := Removed(queue, k);
    forall n: nat | n > e && Got(ms, n)
      ensures Got(rest, n)
    {
      assert Got(queue, n);
      var j := Find(queue, n);
      assert j != k;
      GotIf(rest, if j < k then j else j - 1);
    }
  }

  lemma {:induction false} DrainInOrder(s: State, start: nat, ms: seq<Msg>, h: Handler)
    requires Ordinary(ms) && Draining(s, start, ms)
    ensures Safe(Drain(s, h), start, ms)
    decreases |s.queue|
  {
    hide Number, First;
    var k := Find(s.queue, s.expected);
    if k == |s.queue| {
      assert !Got(s.queue, s.expected);
      forall i | 0 <= i < |s.queue|
        ensures Number(s.queue[i]) != s.expected
      {
        GotIf(s.queue, i);
      }
    } else {
      var m := s.queue[k];
      Dequeue(s.queue, s.expected, ms, k);
      var t := s.(queue := Removed(s.queue, k));
      HandleKeeps(t, start, ms, m, h);
      DrainStep(s, h);
      hide Drain, Handle, Draining;
      var s' := Handle(t, m, h);
      if s'.phase == Running {
        DrainInOrder(s', start, ms, h);
      } else {
        DrainStep(s', h);
      }
    }
  }

  /** Handling the expected message extends the run by one, whatever the handler says. */
  lemma HandleKeeps(s: State, start: nat, ms: seq<Msg>, m: Msg, h: Handler)
    requires s.phase == Running && s.expected == start + |s.handled| && s.expected + 1 < U16
    requires HandledFirst(s.handled, start, ms) && Queued(s.queue, s.expected, ms)
    requires Got(ms, s.expected) && m == First(ms, s.expected)
    ensures var s' := Handle(s, m, h);
            HandledFirst(s'.handled, start, ms) && (s'.phase == Running ==> Draining(s', start, ms))
              && |s'.queue| == |s.queue|
  {
    hide Number, First, Got, Queued;
  }

  lemma FirstIs(ms: seq<Msg>, n: nat)
    requires Got(ms, n)
    ensures First(ms, n) == ms[Find(ms, n)]
  {}

  /** One more arrival leaves what the queue and the handled list say about earlier arrivals. */
  lemma Arrive(queue: seq<Msg>, low: int, ms: seq<Msg>, m: Msg)
    requires Queued(queue, low, ms)
    ensures Number(m) <= low || Got(queue, Number(m)) ==> Queued(queue, low, ms + [m])
    ensures Number(m) > low && !Got(ms, Number(m)) ==> Queued(queue + [m], low, ms + [m])
  {
    hide Number, Find, First;
    var ms' := ms + [m];
    forall n: nat
      ensures Got(ms', n) <==> Got(ms, n) || Number(m) == n
      ensures Got(ms, n) ==> First(ms', n) == First(ms, n)
      ensures !Got(ms, n) && Number(m) == n ==> First(ms', n) == m
      ensures Got(queue + [m], n) <==> Got(queue, n) || Number(m) == n
    {
      OneMore(ms, m, n);
      OneMore(queue, m, n);
    }
    forall i | 0 <= i < |queue|
      ensures (queue + [m])[i] == queue[i] && Got(queue, Number(queue[i]))
    {
      GotIf(queue, i);
    }
  }

  lemma OneMore(ms: seq<Msg>, m: Msg, n: nat)
    ensures Got(ms + [m], n) <==> Got(ms, n) || Number(m) == n
    ensures Got(ms, n) ==> First(ms + [m], n) == First(ms, n)
    ensures !Got(ms, n) && Number(m) == n ==> First(ms + [m], n) == m
  {
    hide Number, Find;
    FindAppend(ms, m, n);
  }

  lemma HandledStays(handled: seq<Msg>, start: nat, ms: seq<Msg>, m: Msg)
    requires HandledFirst(handled, start, ms)
    ensures HandledFirst(handled, start, ms + [m])
  {
    hide Number, Find;
    forall n: nat | start <= n < start + |handled|
      ensures Got(ms, n) && Got(ms + [m], n) && First(ms + [m], n) == First(ms, n)
    {
      FindAppend(ms, m, n);
    }
  }

  lemma ReceiveInOrder(s: State, start: nat, ms: seq<Msg>, m: Msg, h: Handler)
    requires Ordinary(ms + [m]) && Safe(s, start, ms)
    ensures Safe(Receive(s, m, h), start, ms + [m])
  {
    hide Number, Find, First, Drain, Queued;
    HandledStays(s.handled, start, ms, m);
    if s.phase != Running {
      return;
    }
    Arrive(s.queue, s.expected, ms, m);
    FindAppend(ms, m, s.expected);
    assert (ms + [m])[|ms|] == m;
    if Number(m) > s.expected {
      QueuedGot(s.queue, s.expected, ms, Number(m));
    } else if Number(m) == s.expected {
      FirstIs(ms + [m], s.expected);
      HandleKeeps(s, start, ms + [m], m, h);
      hide Handle, Draining;
      var s' := Handle(s, m, h);
      if s'.phase == Running {
        DrainInOrder(s', start, ms + [m], h);
      } else {
        DrainStep(s', h);
      }
    }
  }

  lemma QueuedGot(queue: seq<Msg>, low: int, ms: seq<Msg>, n: nat)
    requires Queued(queue, low, ms) && n > low
    ensures Got(queue, n) <==> Got(ms, n)
  {
    hide Number;
    if Got(queue, n) {
      assert Number(queue[Find(queue, n)]) == n;
    }
  }

  /**
   For any arrival order with losses and duplicates, what has been handled is a contiguous run of
   numbers from start on, in order and once each; while no handler has failed or finished the
   handshake it is the longest such run received, and the queue holds exactly the rest.
   */
  lemma {:induction false} RunInOrder(start: nat, ms: seq<Msg>, h: Handler)
    requires start < U16 && Ordinary(ms)
    ensures Safe(Run(start, ms, h), start, ms)
  {
    hide Receive;
    if |ms| == 0 {
      assert !Got(ms, start);
    } else {
      var before, m := ms[..|ms| - 1], ms[|ms| - 1];
      assert before + [m] == ms;
      OrdinaryPrefix(before, m);
      RunInOrder(start, before, h);
      ReceiveInOrder(Run(start, before, h), start, before, m, h);
    }
  }

  lemma OrdinaryPrefix(before: seq<Msg>, m: Msg)
    requires Ordinary(before + [m])
    ensures Ordinary(before)
  {
    hide Number;
    forall i | 0 <= i < |before|
      ensures (before + [m])[i] == before[i]
    {}
  }

  /** Message i of a flight, unfragmented. */
  function Sent(flight: seq<(byte, seq<byte>)>, i: nat): Msg
    requires i < |flight|
  {
    var (msgType, body) := flight[i];
    Build(msgType, |body|, i, 0, |body|, body)
  }

  /** The datagrams that arrive: the messages of a flight with these positions. */
  function Arrivals(flight: seq<(byte, seq<byte>)>, order: seq<nat>): (ms: seq<Msg>)
    requires forall k :: 0 <= k < |order| ==> order[k] < |flight|
    ensures |ms| == |order|
  {
    seq(|order|, k requires 0 <= k < |order| => Sent(flight, order[k]))
  }

  /**
   However the messages of a flight arrive, with losses and duplicates in any order: handled are the messages from
   start on, in the order they were sent, once each; as long as no handler ended the handshake it is all of them up
   to the first one that has not arrived.
   */
  lemma FlightInOrder(flight: seq<(byte, seq<byte>)>, order: seq<nat>, start: nat, h: Handler)
    requires start <= |flight| < U16 && forall k :: 0 <= k < |order| ==> order[k] < |flight|
    requires forall i :: 0 <= i < |flight| ==> |flight[i].1| <= MAX_BUF - HS_LENGTH
    ensures var s := Run(start, Arrivals(flight, order), h);
            && start + |s.handled| <= |flight|
            && (forall i :: 0 <= i < |s.handled| ==> s.handled[i] == Sent(flight, start + i))
            && (forall i :: start <= i < start + |s.handled| ==> i in order)
            && (s.phase == Running ==> start + |s.handled| !in order)
  {
    hide *;
    var ms := Arrivals(flight, order);
    forall k | 0 <= k < |order|
      ensures Number(ms[k]) == order[k] && |ms[k]| <= MAX_BUF
    {
      ArrivalIs(flight, order, k);
      SentFields(flight, order[k]);
    }
    OrdinaryIf(ms, order, |flight|);
    RunInOrder(start, ms, h);
    var s := Run(start, ms, h);
    Missing(s, start, ms, order);
    forall i | start <= i < start + |s.handled|
      ensures i in order && i < |flight| && s.handled[i - start] == Sent(flight, i)
    {
      var k := HandledAt(s, start, ms, order, i);
      ArrivalIs(flight, order, k);
    }
    assert forall i :: 0 <= i < |s.handled| ==> s.handled[i] == s.handled[start + i - start];
    if s.handled != [] {
      var last := start + |s.handled| - 1;
      assert last in order && last < |flight|;
    }
  }

  lemma OrdinaryIf(ms: seq<Msg>, order: seq<nat>, n: nat)
    requires |ms| == |order| && n < U16
    requires forall k :: 0 <= k < |order| ==> order[k] < n && Number(ms[k]) == order[k] && |ms[k]| <= MAX_BUF
    ensures Ordinary(ms) && n < 0x1_0000
  {
    hide Number;
  }

  /** What has been handled as number i arrived, and was the one with that number. */
  lemma HandledAt(s: State, start: nat, ms: seq<Msg>, order: seq<nat>, i: nat) returns (k: nat)
    requires Safe(s, start, ms) && |ms| == |order| && forall k :: 0 <= k < |order| ==> Number(ms[k]) == order[k]
    requires start <= i < start + |s.handled|
    ensures k < |order| && order[k] == i && s.handled[i - start] == ms[k]
  {
    hide Number, Queued;
    assert Got(ms, i) && s.handled[i - start] == First(ms, i);
    k := Find(ms, i);
  }

  lemma Missing(s: State, start: nat, ms: seq<Msg>, order: seq<nat>)
    requires Safe(s, start, ms) && |ms| == |order| && forall k :: 0 <= k < |order| ==> Number(ms[k]) == order[k]
    ensures s.phase == Running ==> start + |s.handled| !in order
  {
    hide Number, Queued;
    forall k | 0 <= k < |order|
      ensures s.phase == Running ==> order[k] != start + |s.handled|
    {
      GotIf(ms, k);
    }
  }

  lemma SentFields(flight: seq<(byte, seq<byte>)>, i: nat)
    requires i < |flight| < U16 && |flight[i].1| <= MAX_BUF - HS_LENGTH
    ensures Number(Sent(flight, i)) == i && |Sent(flight, i)| <= MAX_BUF && Whole(Sent(flight, i))
  {
    hide Number, Whole;
    HeaderFields(flight[i].0, |flight[i].1|, i, 0, |flight[i].1|, flight[i].1);
  }

  lemma ArrivalIs(flight: seq<(byte, seq<byte>)>, order: seq<nat>, k: nat)
    requires k < |order| && forall j :: 0 <= j < |order| ==> order[j] < |flight|
    ensures Arrivals(flight, order)[k] == Sent(flight, order[k])
  {}

  // ----- the engine -----

  datatype Reply = DecodeError | HandshakeFailure | Ignored | Buffered | Handled | HandlerFailed

  class Parameters {
    const reorderQueue: Queue
    var mseqR: nat
    var phase: Phase
    var handled: seq<Msg>        // messages given to the handlers, in order

    ghost predicate Valid()
      reads reorderQueue, reorderQueue.nodes
    {
      && reorderQueue.Valid()
      && Messages(reorderQueue.nodes) && forall n :: n in reorderQueue.nodes ==> n.t == 0
    }

    constructor (start: nat)
      ensures Valid() && View() == State(start, [], [], Running) && fresh(reorderQueue)
    {
      reorderQueue := new Queue();
      mseqR, phase, handled := start, Running, [];
    }

    ghost function QueueData(): (q: seq<Msg>)
      requires Valid()
      reads reorderQueue, reorderQueue.nodes
      ensures |q| == |reorderQueue.nodes|
    {
      Datas(reorderQueue.nodes)
    }

    ghost function View(): State
      requires Valid()
      reads this, reorderQueue, reorderQueue.nodes
    {
      State(mseqR, QueueData(), handled, phase)
    }

    /** Calls the handler and moves on to the next number, unless the handshake is over. */
    method HandleMsg(m: Msg, h: Handler) returns (ok: bool)
      requires Valid()
      modifies this
      ensures Valid() && View() == Handle(old(View()), m, h)
      ensures old(phase) == Running ==> (ok <==> phase != Failed)
    {
      hide Datas, Distinct, Linked, Messages;
      var v := h(handled, m);
      handled := handled + [m];
      match v {
        case Accept => mseqR := (mseqR + 1) % U16;
        case Fail => phase := Failed;
        case Finish => phase := Finished;
      }
      ok := v != Fail;
    }

    /** The list search for a queued message by its number. */
    method FindNode(n: nat) returns (node: Node?)
      requires Valid()
      ensures node == reorderQueue.At(Find(QueueData(), n))
    {
      hide Number, Find, Datas, Distinct, Messages;
      ghost var q, k := QueueData(), 0;
      node := reorderQueue.head;
      while node != null && Number(node.data) != n
        invariant k <= |reorderQueue.nodes| && node == reorderQueue.At(k)
        invariant forall i :: 0 <= i < k ==> Number(q[i]) != n
        decreases |reorderQueue.nodes| - k
      {
        node := node.next;
        k := k + 1;
      }
      if k < |q| {
        FindIs(q, n, k);
      } else {
        NotFound(q, n);
      }
    }

    method TakeOut(node: Node, ghost k: nat)
      requires Valid() && k < |reorderQueue.nodes| && node == reorderQueue.nodes[k]
      modifies reorderQueue, reorderQueue.NodeSet()
      ensures Valid() && reorderQueue.NodeSet() <= old(reorderQueue.NodeSet()) && node.data == old(QueueData())[k]
      ensures |node.data| >= HS_LENGTH && |reorderQueue.nodes| == |old(reorderQueue.nodes)| - 1
      ensures QueueData() == Removed(old(QueueData()), k)
    {
      hide Datas, Distinct, Linked, Removed, Messages;
      DatasRemoved(reorderQueue.nodes, k);
      reorderQueue.Remove(node, k);
    }

    /** One search of the queue: the expected message is taken out and handled, if it is there. */
    method DrainOne(h: Handler) returns (found: bool, ok: bool)
      requires Valid() && phase == Running
      modifies this, reorderQueue, reorderQueue.NodeSet()
      ensures Valid() && reorderQueue.NodeSet() <= old(reorderQueue.NodeSet())
      ensures found ==> |reorderQueue.nodes| < |old(reorderQueue.nodes)|
      ensures Drain(View(), h) == Drain(old(View()), h)
      ensures !found ==> View() == old(View()) == Drain(old(View()), h) && ok
      ensures ok <==> phase != Failed
    {
      hide Number, Find, Drain, Handle, Datas, Distinct, Linked, Messages, Removed;
      ghost var v, k := View(), Find(QueueData(), mseqR);
      DrainStep(v, h);
      var node := FindNode(mseqR);
      found, ok := false, true;
      if node != null {
        TakeOut(node, k);
        found := true;
        ok := HandleMsg(node.data, h);
      }
    }

    /** The drain loop: ends when nothing fits, a handler fails or the handshake is over. */
    method DrainQueue(h: Handler) returns (ok: bool)
      requires Valid()
      modifies this, reorderQueue, reorderQueue.NodeSet()
      ensures Valid() && View() == Drain(old(View()), h)
      ensures reorderQueue.NodeSet() <= old(reorderQueue.NodeSet())
      ensures old(phase) != Failed ==> (ok <==> phase != Failed)
    {
      hide Number, Find, Handle, Drain, Datas, Distinct, Linked, Messages;
      ghost var v0, nodes0 := View(), reorderQueue.NodeSet();
      ok := true;
      var next := true;
      while next && phase == Running && ok
        invariant Valid() && Drain(View(), h) == Drain(v0, h)
        invariant reorderQueue.NodeSet() <= nodes0
        invariant !next ==> View() == Drain(v0, h)
        invariant !ok ==> phase == Failed
        invariant old(phase) != Failed ==> (ok <==> phase != Failed)
        decreases |reorderQueue.nodes|, next
      {
        next, ok := DrainOne(h);
      }
      DrainStep(View(), h);
    }

    /** handle_handshake: framing checks, then ordering by message number. */
    method HandleHandshake(data: seq<byte>, h: Handler) returns (r: Reply)
      requires Valid()
      modifies this, reorderQueue, reorderQueue.NodeSet()
      ensures Valid()
      ensures |data| < HS_LENGTH ==> r == DecodeError && View() == old(View())
      ensures |data| >= HS_LENGTH && !Whole(data) ==> r == HandshakeFailure && View() == old(View())
      ensures |data| >= HS_LENGTH && Whole(data) ==> View() == Receive(old(View()), data, h)
      ensures |data| >= HS_LENGTH && Whole(data) ==>
                && (r == Handled || r == HandlerFailed <==> old(phase) == Running && Number(data) == old(mseqR))
                && (r == HandlerFailed <==> phase == Failed && old(phase) == Running)
                && (r == Buffered <==>
                      && old(phase) == Running && Number(data) > old(mseqR) && |data| <= MAX_BUF
                      && Find(old(QueueData()), Number(data)) == |old(QueueData())|)
    {
      hide Number, Find, Drain, Whole, Handle, Datas, Distinct, Linked, Messages;
      if |data| < HS_LENGTH {
        return DecodeError;
      }
      if !Whole(data) {
        return HandshakeFailure;
      }
      if phase != Running {
        return Ignored;
      }
      var mseq := Number(data);
      if mseq < mseqR {
        return Ignored;
      } else if mseq > mseqR {
        if |data| > MAX_BUF {
          return Ignored;
        }
        var node := FindNode(mseq);
        if node != null {
          return Ignored;
        }
        Buffer(data);
        return Buffered;
      } else {
        var ok := HandleExpected(data, h);
        return if ok then Handled else HandlerFailed;
      }
    }

    method Buffer(data: Msg)
      requires Valid()
      modifies reorderQueue, reorderQueue.NodeSet()
      ensures Valid() && View() == old(View()).(queue := old(View()).queue + [data])
    {
      hide Datas, Ticks, Leading, Distinct, Linked, Inserted, Messages;
      ghost var was := reorderQueue.nodes;
      var n := new Node(0, 0, RESEND, 22, 0, data);
      LastPlace(reorderQueue.Times());
      reorderQueue.Insert(n);
      InsertedLast(was, n);
      DatasAdded(was, n);
    }

    /** The expected message and everything it was holding up. */
    method HandleExpected(data: Msg, h: Handler) returns (ok: bool)
      requires Valid()
      modifies this, reorderQueue, reorderQueue.NodeSet()
      ensures Valid() && View() == Drain(Handle(old(View()), data, h), h)
      ensures old(phase) == Running ==> (ok <==> phase != Failed)
    {
      hide Find, Drain, Datas, Distinct, Linked, Messages;
      ok := HandleMsg(data, h);
      if ok {
        ok := DrainQueue(h);
      } else {
        DrainStep(View(), h);
      }
    }
  }

  ghost predicate Messages(s: seq<Node>) {
    forall n :: n in s ==> |n.data| >= HS_LENGTH
  }

  /** The queued messages. */
  ghost function Datas(s: seq<Node>): (q: seq<Msg>)
    requires Messages(s)
    ensures |q| == |s|
    ensures forall i :: 0 <= i < |s| ==> q[i] == s[i].data
  {
    if |s| == 0 then [] else [s[0].data] + Datas(s[1..])
  }

  lemma DatasRemoved(s: seq<Node>, k: nat)
    requires Messages(s) && k < |s|
    ensures Messages(Removed(s, k)) && Datas(Removed(s, k)) == Removed(Datas(s), k)
    ensures |s[k].data| >= HS_LENGTH && s[k].data == Datas(s)[k]
  {
    hide Datas, Removed;
    var r := Removed(s, k);
    forall i | 0 <= i < |r|
      ensures |r[i].data| >= HS_LENGTH && r[i].data == Removed(Datas(s), k)[i]
    {}
  }

  lemma DatasAdded(s: seq<Node>, n: Node)
    requires Messages(s) && |n.data| >= HS_LENGTH
    ensures Messages(s + [n]) && Datas(s + [n]) == Datas(s) + [n.data]
  {
    hide Datas;
    var r := s + [n];
    forall i | 0 <= i < |r|
      ensures |r[i].data| >= HS_LENGTH && r[i].data == (Datas(s) + [n.data])[i]
    {
      if i < |s| {
        assert r[i] == s[i];
      }
    }
  }

  /** All reordered messages carry deadline 0, so the sorted insertion appends. */
  lemma LastPlace(ts: seq<nat>)
    requires forall i :: 0 <= i < |ts| ==> ts[i] == 0
    ensures Leading(ts, 0) == |ts|
  {
    LeadingIs(ts, 0, |ts|);
  }

  lemma {:induction false} NotFound(ms: seq<Msg>, n: nat)
    requires forall i :: 0 <= i < |ms| ==> Number(ms[i]) != n
    ensures Find(ms, n) == |ms|
  {
    hide Number;
    if |ms| > 0 {
      NotFound(ms[1..], n);
    }
  }

  lemma DrainStep(s: State, h: Handler)
    ensures var k := Find(s.queue, s.expected);
            Drain(s, h) == if s.phase != Running || k == |s.queue| then s
                           else Drain(Handle(s.(queue := Removed(s.queue, k)), s.queue[k], h), h)
  {}
}
