/**
 The send queue of the DTLS engine: a singly linked list ordered by 32-bit wrap-around deadlines, and
 the resend check that works on its head.
 */
module Netq {
  import opened Lists
  import opened Arith
  import opened Octet
  import opened Words

  const U32 := 0x1_0000_0000
  const HALF := 0x8000_0000
  const MAX_RETRANSMIT := 7

  // ----- wrap-around time -----

  /** DTLS_IS_BEFORE_TIME: a is before or equal to b, on 32-bit clocks. */
  predicate IsBefore(a: nat, b: nat) {
    (0x7FFF_FFFF + b - a) % U32 >= 0x7FFF_FFFF
  }

  /** Distance from the start of a half-range window, going forward. */
  function Since(base: int, t: int): (d: nat)
    ensures d < U32
  {
    (t - base) % U32
  }

  lemma SinceDifference(base: int, a: int, b: int)
    ensures (0x7FFF_FFFF + b - a) % U32 == (0x7FFF_FFFF + Since(base, b) - Since(base, a)) % U32
  {
    var k := (b - base) / U32 - (a - base) / U32;
    assert b - a == Since(base, b) - Since(base, a) + k * U32;
    var x := 0x7FFF_FFFF + Since(base, b) - Since(base, a);
    assert 0x7FFF_FFFF + b - a == x + k * U32;
    assert x + k * U32 == (x / U32 + k) * U32 + x % U32;
    DivModUnique(x + k * U32, U32, x / U32 + k, x % U32);
  }

  /** Within a half-range window the wrap-around comparison is the order of the window. */
  lemma BeforeIsOrder(base: int, a: nat, b: nat)
    requires Since(base, a) < HALF && Since(base, b) < HALF
    ensures IsBefore(a, b) <==> Since(base, a) <= Since(base, b)
  {
    SinceDifference(base, a, b);
  }

  /** At a distance of exactly half the range each time is before the other: no wider window would do. */
  lemma HalfRangeIsAmbiguous(a: nat)
    ensures IsBefore(a, a + HALF) && IsBefore(a + HALF, a)
  {}

  // ----- the list -----

  datatype Job = RESEND | TIMEOUT

  class Node {
    var next: Node?
    var t: nat                  // when to send the next time
    var retransmitCnt: nat
    const timeout: nat
    const job: Job
    const ctype: nat
    const epoch: nat
    const data: seq<byte>

    constructor (t: nat, timeout: nat, job: Job, ctype: nat, epoch: nat, data: seq<byte>)
      ensures this.t == t && this.timeout == timeout && this.job == job && this.ctype == ctype
      ensures this.epoch == epoch && this.data == data && next == null && retransmitCnt == 0
    {
      this.t, this.timeout, this.job, this.ctype, this.epoch, this.data := t, timeout, job, ctype, epoch, data;
      next, retransmitCnt := null, 0;
    }
  }

  class Queue {
    var head: Node?
    ghost var nodes: seq<Node>

    ghost predicate Valid()
      reads this, nodes
    {
      Distinct(nodes) && head == At(0) && Linked(nodes)
    }

    /** The i-th node, or null behind the end. */
    ghost function At(i: nat): Node?
      reads this
    {
      if i < |nodes| then nodes[i] else null
    }

    constructor ()
      ensures Valid() && nodes == []
    {
      head, nodes := null, [];
    }

    ghost function NodeSet(): set<Node>
      reads this
    {
      set n | n in nodes
    }

    /** The deadlines in queue order. */
    ghost function Times(): (ts: seq<nat>)
      reads this, nodes`t
      ensures |ts| == |nodes|
    {
      Ticks(nodes)
    }

    /** Inserts node in front of the first one that is not before it. */
    method Insert(node: Node)
      requires Valid() && node !in nodes
      modifies this, nodes`next, node`next
      ensures Valid()
      ensures var k := Leading(old(Times()), node.t); nodes == Inserted(old(nodes), k, node)
    {
      hide Ticks, IsBefore, Inserted, Distinct;
      ghost var k := 0;
      var p := head;
      while p != null && IsBefore(p.t, node.t)
        invariant k <= |nodes| && p == At(k)
        invariant forall i :: 0 <= i < k ==> IsBefore(nodes[i].t, node.t)
        decreases |nodes| - k
      {
        p := p.next;
        k := k + 1;
      }
      LeadingIs(Times(), node.t, k);
      PrependElem(p, node, k);
    }

    /** The macro's search for the node whose successor is el (the last node when el is null). */
    method Before(el: Node?, ghost k: nat) returns (tmp: Node)
      requires Valid() && 0 < k <= |nodes| && el == At(k)
      ensures tmp == nodes[k - 1]
    {
      tmp := head;
      ghost var i := 0;
      while tmp.next != null && tmp.next != el
        invariant 0 <= i < k && tmp == nodes[i]
        decreases |nodes| - i
      {
        tmp := tmp.next;
        i := i + 1;
      }
    }

    /** Links node in front of el, or at the end when el is null. */
    method PrependElem(el: Node?, node: Node, ghost k: nat)
      requires Valid() && node !in nodes && k <= |nodes| && el == At(k)
      modifies this, nodes`next, node`next
      ensures Valid() && nodes == Inserted(old(nodes), k, node)
    {
      assert k == 0 <==> head == el;
      if head == el {
        node.next := el;
        head := node;
      } else {
        var tmp := Before(el, k);
        node.next := el;
        tmp.next := node;
      }
      ghost var was := nodes;
      nodes := Inserted(was, k, node);
      hide Inserted, Distinct;
      StillDistinct(was, node, k);
      Relinked(was, node, k);
    }

    /** Unlinks the node at position k. */
    method Remove(del: Node, ghost k: nat)
      requires Valid() && k < |nodes| && nodes[k] == del
      modifies this, nodes`next
      ensures Valid() && nodes == Removed(old(nodes), k)
    {
      assert k == 0 <==> head == del;
      if head == del {
        head := del.next;
      } else {
        var tmp := Before(del, k);
        tmp.next := del.next;
      }
      ghost var was := nodes;
      nodes := Removed(was, k);
      Without(was, k);
      Bridged(was, nodes, k);
    }

    method PopFirst() returns (p: Node?)
      requires Valid()
      modifies this, nodes`next
      ensures Valid()
      ensures old(nodes) == [] ==> p == null && nodes == []
      ensures old(nodes) != [] ==> p == old(nodes)[0] && nodes == old(nodes)[1..]
    {
      p := head;
      if p != null {
        Remove(p, 0);
      }
    }
  }

  ghost predicate Distinct(s: seq<Node>) {
    forall i, j :: 0 <= i < j < |s| ==> s[i] != s[j]
  }

  /** Every node points to its successor. */
  ghost predicate Linked(s: seq<Node>)
    reads s`next
  {
    forall i :: 0 <= i < |s| ==> s[i].next == Succ(s, i)
  }

  ghost function Ticks(s: seq<Node>): (ts: seq<nat>)
    reads s`t
    ensures |ts| == |s|
    ensures forall i :: 0 <= i < |s| ==> ts[i] == s[i].t
  {
    if |s| == 0 then [] else [s[0].t] + Ticks(s[1..])
  }

  /** The successor of position i. */
  ghost function Succ(s: seq<Node>, i: nat): Node? {
    if i + 1 < |s| then s[i + 1] else null
  }

  lemma Relinked(was: seq<Node>, node: Node, k: nat)
    requires k <= |was|
    requires forall i :: 0 <= i < |was| && i + 1 != k ==> was[i].next == Succ(was, i)
    requires k > 0 ==> was[k - 1].next == node
    requires node.next == if k < |was| then was[k] else null
    ensures Linked(Inserted(was, k, node))
  {
    hide Inserted;
  }

  lemma StillDistinct(s: seq<Node>, n: Node, k: nat)
    requires k <= |s| && n !in s && Distinct(s)
    ensures Distinct(Inserted(s, k, n))
  {
    hide Inserted;
  }

  lemma Without(s: seq<Node>, k: nat)
    requires k < |s| && Distinct(s)
    ensures Distinct(Removed(s, k))
  {
    hide Removed;
  }

  lemma Bridged(was: seq<Node>, now: seq<Node>, k: nat)
    requires k < |was| && now == Removed(was, k)
    requires forall i :: 0 <= i < |was| && i != k && i + 1 != k ==> was[i].next == Succ(was, i)
    requires k > 0 ==> was[k - 1].next == Succ(was, k)
    ensures Linked(now)
  {
    hide Removed;
  }

  /** The number of leading deadlines that are before or equal to t. */
  function Leading(ts: seq<nat>, t: nat): (k: nat)
    ensures k <= |ts|
    ensures forall i :: 0 <= i < k ==> IsBefore(ts[i], t)
    ensures k < |ts| ==> !IsBefore(ts[k], t)
  {
    if |ts| == 0 || !IsBefore(ts[0], t) then 0 else 1 + Leading(ts[1..], t)
  }

  lemma LeadingIs(ts: seq<nat>, t: nat, k: nat)
    requires k <= |ts|
    requires forall i :: 0 <= i < k ==> IsBefore(ts[i], t)
    requires k < |ts| ==> !IsBefore(ts[k], t)
    ensures Leading(ts, t) == k
  {
    hide IsBefore;
  }

  // ----- order within a half-range window -----

  /** All deadlines lie in the half range from base on, in ascending order. */
  ghost predicate Sorted(ts: seq<nat>, base: int) {
    && (forall i :: 0 <= i < |ts| ==> Since(base, ts[i]) < HALF)
    && forall i, j :: 0 <= i < j < |ts| ==> Since(base, ts[i]) <= Since(base, ts[j])
  }

  /** The insertion point keeps the order, behind all nodes with the same deadline. */
  lemma InsertSorted(ts: seq<nat>, t: nat, base: int)
    requires Sorted(ts, base) && Since(base, t) < HALF
    ensures var k := Leading(ts, t);
            && (forall i :: 0 <= i < k ==> Since(base, ts[i]) <= Since(base, t))
            && (forall i :: k <= i < |ts| ==> Since(base, t) < Since(base, ts[i]))
            && Sorted(Inserted(ts, k, t), base)
  {
    hide Since, IsBefore, Leading;
    var k := Leading(ts, t);
    forall i | 0 <= i < |ts|
      ensures i < k ==> Since(base, ts[i]) <= Since(base, t)
      ensures i >= k ==> Since(base, t) < Since(base, ts[i])
    {
      BeforeIsOrder(base, ts[i], t);
      if i >= k {
        BeforeIsOrder(base, ts[k], t);
      }
    }
  }

  // ----- the resend check, on values -----

  /** A queued node with the fields that change while it is queued. */
  datatype Entry = Entry(node: Node, t: nat, cnt: nat, timeout: nat, job: Job)

  datatype Event = Resent(e: Entry) | AlertTimedOut(e: Entry) | GivenUp(e: Entry)

  /** The deadline after a resend at clock reading now: exponential back-off in 32 bits. */
  function Backoff(now: nat, timeout: nat, cnt: nat): nat {
    (now + timeout * Pow2(cnt)) % U32
  }

  /** What becomes of an entry that is due. */
  function Outcome(e: Entry): Event {
    if e.cnt >= MAX_RETRANSMIT then GivenUp(e)
    else if e.job == TIMEOUT then AlertTimedOut(e)
    else Resent(e)
  }

  function Renew(e: Entry, now: nat): Entry {
    e.(t := Backoff(now, e.timeout, e.cnt + 1), cnt := e.cnt + 1)
  }

  function Deadlines(es: seq<Entry>): (ts: seq<nat>)
    ensures |ts| == |es|
  {
    seq(|es|, i requires 0 <= i < |es| => es[i].t)
  }

  function InsertEntry(es: seq<Entry>, e: Entry): (r: seq<Entry>)
    ensures |r| == |es| + 1
  {
    var k := Leading(Deadlines(es), e.t);
    Inserted(es, k, e)
  }

  /** Resends an entry may still see. It falls with every step of the check, whatever the clock does. */
  function Lives(es: seq<Entry>): nat {
    if |es| == 0 then 0
    else (if es[0].cnt >= MAX_RETRANSMIT then 1 else MAX_RETRANSMIT + 1 - es[0].cnt) + Lives(es[1..])
  }

  lemma {:induction false} LivesInsert(es: seq<Entry>, e: Entry, k: nat)
    requires k <= |es|
    ensures Lives(Inserted(es, k, e)) == Lives(es) + Lives([e])
  {
    var r := Inserted(es, k, e);
    assert Lives([]) == 0;
    if k == 0 {
      assert r[1..] == es;
    } else {
      LivesInsert(es[1..], e, k - 1);
      assert r[1..] == es[1..][..k - 1] + [e] + es[1..][k - 1..];
    }
  }

  /**
   The loop of the check: take the head while it is due, and put it back renewed unless it is given up.
   clock(k) is the time passed since now when the k-th node is handled.
   */
  function Check(es: seq<Entry>, now: nat, clock: nat -> nat, k: nat): (r: (seq<Entry>, seq<Event>))
    decreases Lives(es)
  {
    if |es| == 0 || !IsBefore(es[0].t, now) then (es, [])
    else
      var e := es[0];
      var left :=
        if Outcome(e).Resent? then
          var renewed := Renew(e, now + clock(k));
          LivesInsert(es[1..], renewed, Leading(Deadlines(es[1..]), renewed.t));
          InsertEntry(es[1..], renewed)
        else es[1..];
      var (rest, log) := Check(left, now, clock, k + 1);
      (rest, [Outcome(e)] + log)
  }

  // ----- what the check achieves while all deadlines lie in a half range -----

  /** Every deadline this check may set lies in the window and after now. */
  ghost predicate Reach(es: seq<Entry>, base: int, now: nat, lag: nat) {
    && Since(base, now) < HALF
    && forall i :: 0 <= i < |es| && es[i].cnt < MAX_RETRANSMIT ==>
         es[i].timeout > 0 && Since(base, now) + lag + es[i].timeout * Pow2(es[i].cnt + 1) < HALF
  }

  function Outcomes(es: seq<Entry>): (log: seq<Event>)
    ensures |log| == |es|
  {
    seq(|es|, i requires 0 <= i < |es| => Outcome(es[i]))
  }

  /** The entries that come back, in the order they were handled from index k on. */
  function Renewed(es: seq<Entry>, now: nat, clock: nat -> nat, k: nat): seq<Entry> {
    if |es| == 0 then []
    else (if Outcome(es[0]).Resent? then [Renew(es[0], now + clock(k))] else []) + Renewed(es[1..], now, clock, k + 1)
  }

  lemma SinceForward(base: int, now: nat, d: nat)
    requires Since(base, now) + d < U32
    ensures Since(base, (now + d) % U32) == Since(base, now) + d
  {
    var k := (now - base) / U32;
    var x := now + d;
    assert x % U32 - base == Since(base, now) + d + (k - x / U32) * U32;
    ModMultiple(Since(base, now) + d, k - x / U32, U32);
    SmallMod(Since(base, now) + d, U32);
  }

  /** A resend is scheduled strictly later than now, inside the window. */
  lemma BackoffLater(base: int, now: nat, elapsed: nat, timeout: nat, cnt: nat)
    requires timeout > 0 && Since(base, now) + elapsed + timeout * Pow2(cnt) < HALF
    ensures Since(base, now) < Since(base, Backoff(now + elapsed, timeout, cnt)) < HALF
  {
    var d := timeout * Pow2(cnt);
    MulMono(1, timeout, Pow2(cnt));
    SinceForward(base, now, elapsed + d);
    assert now + elapsed + d == now + (elapsed + d);
  }

  /** Putting back a later entry leaves the due prefix in front and keeps the order. */
  lemma InsertLate(es: seq<Entry>, e: Entry, now: nat, base: int, m: nat)
    requires Sorted(Deadlines(es), base) && m <= |es| && Since(base, now) < HALF
    requires forall i :: 0 <= i < m ==> Since(base, es[i].t) <= Since(base, now)
    requires forall i :: m <= i < |es| ==> Since(base, now) < Since(base, es[i].t)
    requires Since(base, now) < Since(base, e.t) < HALF
    ensures var r := InsertEntry(es, e);
            && Sorted(Deadlines(r), base)
            && r[..m] == es[..m]
            && (forall i :: m <= i < |r| ==> Since(base, now) < Since(base, r[i].t))
            && multiset(r[m..]) == multiset(es[m..]) + multiset{e}
  {
    hide Since, IsBefore, Leading;
    var ts := Deadlines(es);
    InsertSorted(ts, e.t, base);
    var k := Leading(ts, e.t);
    var r := InsertEntry(es, e);
    assert Deadlines(r) == Inserted(ts, k, e.t);
    assert forall i :: k <= i < |es| ==> Since(base, e.t) < Since(base, es[i].t) by {
      forall i | k <= i < |es|
        ensures Since(base, e.t) < Since(base, es[i].t)
      {
        assert ts[i] == es[i].t;
      }
    }
    assert k >= m;
    InsertBehind(es, e, k, m);
  }

  lemma InsertBehind(es: seq<Entry>, e: Entry, k: nat, m: nat)
    requires m <= k <= |es|
    ensures var r := Inserted(es, k, e);
            r[..m] == es[..m] && multiset(r[m..]) == multiset(es[m..]) + multiset{e}
  {
    var r := Inserted(es, k, e);
    assert r[m..] == es[m..k] + [e] + es[k..];
    assert es[m..] == es[m..k] + es[k..];
  }

  lemma CheckStops(es: seq<Entry>, now: nat, clock: nat -> nat, k: nat, base: int)
    requires |es| > 0 ==>
               Since(base, es[0].t) < HALF && Since(base, now) < HALF && Since(base, now) < Since(base, es[0].t)
    ensures Check(es, now, clock, k) == (es, [])
  {
    if |es| > 0 {
      BeforeIsOrder(base, es[0].t, now);
    }
  }

  /** One step: the queue after the head e has been handled, in which one node less is due. */
  function Step(es: seq<Entry>, now: nat, elapsed: nat): seq<Entry>
    requires |es| > 0
  {
    if Outcome(es[0]).Resent? then InsertEntry(es[1..], Renew(es[0], now + elapsed)) else es[1..]
  }

  lemma CheckStep(es: seq<Entry>, now: nat, clock: nat -> nat, k: nat)
    requires |es| > 0 && IsBefore(es[0].t, now)
    ensures var (rest, log) := Check(Step(es, now, clock(k)), now, clock, k + 1);
            Check(es, now, clock, k) == (rest, [Outcome(es[0])] + log)
  {
    hide IsBefore;
  }

  lemma StepKeeps(es: seq<Entry>, now: nat, elapsed: nat, base: int, lag: nat, m: nat)
    requires Sorted(Deadlines(es), base) && 0 < m <= |es| && Reach(es[..m], base, now, lag) && elapsed <= lag
    requires forall i :: 0 <= i < m ==> Since(base, es[i].t) <= Since(base, now)
    requires forall i :: m <= i < |es| ==> Since(base, now) < Since(base, es[i].t)
    ensures var s := Step(es, now, elapsed);
            && Sorted(Deadlines(s), base)
            && |s| >= m - 1 && s[..m - 1] == es[1..m]
            && (forall i :: m - 1 <= i < |s| ==> Since(base, now) < Since(base, s[i].t))
            && multiset(s[m - 1..]) == multiset(es[m..])
                 + (if Outcome(es[0]).Resent? then multiset{Renew(es[0], now + elapsed)} else multiset{})
  {
    hide Since, IsBefore, Leading, InsertEntry, Backoff;
    var tail := es[1..];
    assert forall i :: 0 <= i < |tail| ==> Deadlines(tail)[i] == Deadlines(es)[i + 1];
    assert tail[..m - 1] == es[1..m] && tail[m - 1..] == es[m..];
    if Outcome(es[0]).Resent? {
      var e := es[..m][0];
      assert Since(base, now) + elapsed + e.timeout * Pow2(e.cnt + 1) < HALF;
      BackoffLater(base, now, elapsed, e.timeout, e.cnt + 1);
      InsertLate(tail, Renew(e, now + elapsed), now, base, m - 1);
    }
  }

  /**
   The check sends every due node that may still be resent exactly once, in deadline order, and ends;
   what is left is late and sorted: the nodes that were not due, unchanged, and the resent ones renewed.
   */
  lemma {:induction false} CheckCorrect(es: seq<Entry>, now: nat, clock: nat -> nat, k: nat, base: int, lag: nat,
                                        m: nat)
    requires Sorted(Deadlines(es), base) && Since(base, now) < HALF
    requires m <= |es| && Reach(es[..m], base, now, lag) && forall j :: clock(j) <= lag
    requires forall i :: 0 <= i < m ==> Since(base, es[i].t) <= Since(base, now)
    requires forall i :: m <= i < |es| ==> Since(base, now) < Since(base, es[i].t)
    ensures var (rest, log) := Check(es, now, clock, k);
            && log == Outcomes(es[..m])
            && Sorted(Deadlines(rest), base)
            && (forall i :: 0 <= i < |rest| ==> Since(base, now) < Since(base, rest[i].t))
            && multiset(rest) == multiset(es[m..]) + multiset(Renewed(es[..m], now, clock, k))
    decreases m
  {
    hide Since, IsBefore, Check, Step, Outcome, Sorted, Reach, Backoff, Leading, InsertEntry, Renew, Renewed, Deadlines,
      Lives;
    if m == 0 {
      CheckEnds(es, now, clock, k, base);
      NoneRenewed(es[..0], now, clock, k);
    } else {
      var e, s := es[0], Step(es, now, clock(k));
      StepKeeps(es, now, clock(k), base, lag, m);
      DueHead(es, now, base);
      CheckStep(es, now, clock, k);
      ReachTail(es, base, now, lag, m);
      CheckCorrect(s, now, clock, k + 1, base, lag, m - 1);
      RenewedHead(es, now, clock, k, m);
      assert Outcomes(es[..m]) == [Outcome(e)] + Outcomes(es[1..m]);
    }
  }

  lemma NoneRenewed(es: seq<Entry>, now: nat, clock: nat -> nat, k: nat)
    requires |es| == 0
    ensures Renewed(es, now, clock, k) == [] && Outcomes(es) == []
  {}

  lemma RenewedHead(es: seq<Entry>, now: nat, clock: nat -> nat, k: nat, m: nat)
    requires 0 < m <= |es|
    ensures multiset(Renewed(es[..m], now, clock, k))
         == (if Outcome(es[0]).Resent? then multiset{Renew(es[0], now + clock(k))} else multiset{})
            + multiset(Renewed(es[1..m], now, clock, k + 1))
  {
    hide Outcome, Renew;
    assert es[..m][1..] == es[1..m];
  }

  lemma CheckEnds(es: seq<Entry>, now: nat, clock: nat -> nat, k: nat, base: int)
    requires Sorted(Deadlines(es), base) && Since(base, now) < HALF
    requires forall i :: 0 <= i < |es| ==> Since(base, now) < Since(base, es[i].t)
    ensures Check(es, now, clock, k) == (es, []) && es[0..] == es
  {
    if |es| > 0 {
      assert Deadlines(es)[0] == es[0].t;
    }
    CheckStops(es, now, clock, k, base);
  }

  lemma DueHead(es: seq<Entry>, now: nat, base: int)
    requires |es| > 0 && Sorted(Deadlines(es), base) && Since(base, es[0].t) <= Since(base, now) < HALF
    ensures IsBefore(es[0].t, now)
  {
    assert Deadlines(es)[0] == es[0].t;
    BeforeIsOrder(base, es[0].t, now);
  }

  lemma ReachTail(es: seq<Entry>, base: int, now: nat, lag: nat, m: nat)
    requires 0 < m <= |es| && Reach(es[..m], base, now, lag)
    ensures Reach(es[1..m], base, now, lag)
  {
    forall i | 0 <= i < m - 1
      ensures es[1..m][i] == es[..m][i + 1]
    {}
  }

  /** In a sorted queue the nodes that are due form a prefix. */
  lemma DuePrefix(ts: seq<nat>, now: nat, base: int)
    requires Sorted(ts, base) && Since(base, now) < HALF
    ensures var m := Leading(ts, now);
            && (forall i :: 0 <= i < m ==> Since(base, ts[i]) <= Since(base, now))
            && (forall i :: m <= i < |ts| ==> Since(base, now) < Since(base, ts[i]))
  {
    InsertSorted(ts, now, base);
  }

  /** The check as a whole, on any sorted queue: the due nodes are those with a deadline up to now. */
  lemma ResendCheck(es: seq<Entry>, now: nat, clock: nat -> nat, base: int, lag: nat)
    requires Sorted(Deadlines(es), base) && Since(base, now) < HALF
    requires Reach(es[..Leading(Deadlines(es), now)], base, now, lag) && forall j :: clock(j) <= lag
    ensures var m := Leading(Deadlines(es), now);
            var (rest, log) := Check(es, now, clock, 0);
            && (forall i :: 0 <= i < |es| ==> (i < m <==> Since(base, es[i].t) <= Since(base, now)))
            && log == Outcomes(es[..m])
            && Sorted(Deadlines(rest), base)
            && (forall i :: 0 <= i < |rest| ==> Since(base, now) < Since(base, rest[i].t))
            && multiset(rest) == multiset(es[m..]) + multiset(Renewed(es[..m], now, clock, 0))
  {
    hide Since, IsBefore, Check, Leading;
    var m := Leading(Deadlines(es), now);
    DuePrefix(Deadlines(es), now, base);
    forall i | 0 <= i < |es|
      ensures i < m <==> Since(base, es[i].t) <= Since(base, now)
    {
      assert Deadlines(es)[i] == es[i].t;
    }
    CheckCorrect(es, now, clock, 0, base, lag, m);
  }

  // ----- what becomes of each node, field by field -----

  /** No node is queued twice. */
  ghost predicate OneEach(es: seq<Entry>) {
    forall i, j :: 0 <= i < j < |es| ==> es[i].node != es[j].node
  }

  /**
   What the check does with a due entry that is handled when the clock has moved on by elapsed: a flight that has been
   sent again fewer than 7 times is sent once more and queued for its doubled timeout later; anything else is gone.
   */
  ghost predicate Treated(e: Entry, v: Event, rest: seq<Entry>, handled: nat) {
    if e.job == RESEND && e.cnt < 7 then
      && v == Resent(e)
      && (exists f :: f in rest && f.node == e.node)
      && forall f :: f in rest && f.node == e.node ==>
           && f.cnt == e.cnt + 1 && f.timeout == e.timeout && f.job == RESEND
           && f.t == (handled + e.timeout * Pow2(e.cnt + 1)) % 0x1_0000_0000
    else
      && v == (if e.cnt < 7 then AlertTimedOut(e) else GivenUp(e))
      && forall f :: f in rest ==> f.node != e.node
  }

  /** The check handles every node that is due, in order of the deadlines, each according to its own fields. */
  lemma DueNodes(es: seq<Entry>, now: nat, clock: nat -> nat, base: int, lag: nat)
    requires OneEach(es) && Sorted(Deadlines(es), base) && Since(base, now) < HALF
    requires Reach(es[..Leading(Deadlines(es), now)], base, now, lag) && forall j :: clock(j) <= lag
    ensures var (rest, log) := Check(es, now, clock, 0);
            && OneEach(rest) && |log| <= |es|
            && (forall i :: 0 <= i < |es| ==> (i < |log| <==> Since(base, es[i].t) <= Since(base, now)))
            && (forall i :: 0 <= i < |log| ==> Treated(es[i], log[i], rest, now + clock(i)))
            && (forall i :: |log| <= i < |es| ==> es[i] in rest)
            && (forall f :: f in rest ==> exists e :: e in es && e.node == f.node)
  {
    hide *;
    var m := Leading(Deadlines(es), now);
    ResendCheck(es, now, clock, base, lag);
    CheckOneEach(es, now, clock, 0);
    var (rest, log) := Check(es, now, clock, 0);
    AllTreated(es, m, now, clock, rest, log);
  }

  lemma AllTreated(es: seq<Entry>, m: nat, now: nat, clock: nat -> nat, rest: seq<Entry>, log: seq<Event>)
    requires m <= |es| && OneEach(es) && OneEach(rest) && log == Outcomes(es[..m])
    requires multiset(rest) == multiset(es[m..]) + multiset(Renewed(es[..m], now, clock, 0))
    ensures |log| == m
    ensures forall i :: 0 <= i < m ==> Treated(es[i], log[i], rest, now + clock(i))
    ensures forall i :: m <= i < |es| ==> es[i] in rest
  {
    hide OneEach, Treated, Outcome, Renewed;
    var back := Renewed(es[..m], now, clock, 0);
    SameMembers(rest, es[m..] + back);
    forall i | 0 <= i < m
      ensures Treated(es[i], log[i], rest, now + clock(i))
    {
      if Outcome(es[i]).Resent? {
        ResentNode(es, m, now, clock, rest, i);
      } else {
        EndedNode(es, m, now, clock, rest, i);
      }
    }
    forall i | m <= i < |es|
      ensures es[i] in rest
    {
      assert es[m..][i - m] == es[i];
    }
  }

  lemma ResentNode(es: seq<Entry>, m: nat, now: nat, clock: nat -> nat, rest: seq<Entry>, i: nat)
    requires OneEach(rest) && i < m <= |es| && Outcome(es[i]).Resent?
    requires forall f :: f in rest <==> f in es[m..] + Renewed(es[..m], now, clock, 0)
    ensures Treated(es[i], Outcome(es[i]), rest, now + clock(i))
  {
    hide Renewed;
    RenewedNodes(es[..m], now, clock, 0);
    assert es[..m][i] == es[i] && 0 + i == i;
    var f := Renew(es[i], now + clock(i));
    assert f in rest;
  }

  lemma EndedNode(es: seq<Entry>, m: nat, now: nat, clock: nat -> nat, rest: seq<Entry>, i: nat)
    requires OneEach(es) && i < m <= |es| && !Outcome(es[i]).Resent?
    requires forall f :: f in rest <==> f in es[m..] + Renewed(es[..m], now, clock, 0)
    ensures Treated(es[i], Outcome(es[i]), rest, now + clock(i))
  {
    hide Renewed;
    RenewedNodes(es[..m], now, clock, 0);
    forall f | f in rest
      ensures f.node != es[i].node
    {
      if f in Renewed(es[..m], now, clock, 0) {
        var j :| 0 <= j < m && Outcome(es[..m][j]).Resent? && f == Renew(es[..m][j], now + clock(0 + j));
        assert es[..m][j] == es[j];
      } else {
        var j :| 0 <= j < |es| - m && es[m..][j] == f;
        assert es[m + j] == f;
      }
    }
  }

  /** The check neither doubles a node nor brings in another one. */
  lemma {:induction false} CheckOneEach(es: seq<Entry>, now: nat, clock: nat -> nat, k: nat)
    requires OneEach(es)
    ensures var rest := Check(es, now, clock, k).0;
            OneEach(rest) && forall f :: f in rest ==> exists e :: e in es && e.node == f.node
    decreases Lives(es)
  {
    if |es| > 0 && IsBefore(es[0].t, now) {
      hide IsBefore, OneEach, Check, Lives;
      var s := Step(es, now, clock(k));
      CheckStep(es, now, clock, k);
      LivesStep(es, now, clock(k));
      StepOneEach(es, now, clock(k));
      CheckOneEach(s, now, clock, k + 1);
      forall f | f in Check(s, now, clock, k + 1).0
        ensures exists e :: e in es && e.node == f.node
      {
        var g :| g in s && g.node == f.node;
        var e :| e in es && e.node == g.node;
      }
    }
  }

  lemma StepOneEach(es: seq<Entry>, now: nat, elapsed: nat)
    requires OneEach(es) && |es| > 0
    ensures OneEach(Step(es, now, elapsed))
    ensures forall f :: f in Step(es, now, elapsed) ==> exists e :: e in es && e.node == f.node
  {
    hide Leading, Backoff, Inserted;
    var s := Step(es, now, elapsed);
    assert es[0] in es && forall i :: 0 <= i < |es| - 1 ==> es[1..][i] == es[i + 1];
    if Outcome(es[0]).Resent? {
      var renewed := Renew(es[0], now + elapsed);
      var k := Leading(Deadlines(es[1..]), renewed.t);
      assert s == Inserted(es[1..], k, renewed);
    }
  }

  lemma SameMembers(a: seq<Entry>, b: seq<Entry>)
    requires multiset(a) == multiset(b)
    ensures forall e :: e in a <==> e in b
  {
    forall e
      ensures e in a <==> e in b
    {
      assert e in a <==> e in multiset(a);
      assert e in b <==> e in multiset(b);
    }
  }

  /** The entry that comes back in place of the handled one at index i. */
  lemma {:induction false} RenewedNodes(es: seq<Entry>, now: nat, clock: nat -> nat, k: nat)
    ensures forall f :: f in Renewed(es, now, clock, k) ==>
              exists i :: 0 <= i < |es| && Outcome(es[i]).Resent? && f == Renew(es[i], now + clock(k + i))
    ensures forall i :: 0 <= i < |es| && Outcome(es[i]).Resent? ==>
              Renew(es[i], now + clock(k + i)) in Renewed(es, now, clock, k)
  {
    hide Outcome, Renew;
    if |es| > 0 {
      RenewedNodes(es[1..], now, clock, k + 1);
      var back := Renewed(es, now, clock, k);
      forall f | f in back
        ensures exists i :: 0 <= i < |es| && Outcome(es[i]).Resent? && f == Renew(es[i], now + clock(k + i))
      {
        if f in Renewed(es[1..], now, clock, k + 1) {
          var i :| 0 <= i < |es| - 1 && Outcome(es[1..][i]).Resent? && f == Renew(es[1..][i], now + clock(k + 1 + i));
          assert es[1..][i] == es[i + 1] && k + 1 + i == k + (i + 1);
        } else {
          assert k + 0 == k && Outcome(es[0]).Resent? && f == Renew(es[0], now + clock(k + 0));
        }
      }
      forall i | 0 <= i < |es| && Outcome(es[i]).Resent?
        ensures Renew(es[i], now + clock(k + i)) in back
      {
        if i > 0 {
          assert es[i] == es[1..][i - 1] && k + i == k + 1 + (i - 1);
        }
      }
    }
  }

  /** Nothing is resent once its counter has reached the limit, and counters never pass it. */
  lemma {:induction false} ResendLimit(es: seq<Entry>, now: nat, clock: nat -> nat, k: nat)
    requires forall i :: 0 <= i < |es| ==> es[i].cnt <= MAX_RETRANSMIT
    ensures var (rest, log) := Check(es, now, clock, k);
            && (forall i :: 0 <= i < |rest| ==> rest[i].cnt <= MAX_RETRANSMIT)
            && (forall i :: 0 <= i < |log| && log[i].Resent? ==> log[i].e.cnt < MAX_RETRANSMIT)
    decreases Lives(es)
  {
    if |es| > 0 && IsBefore(es[0].t, now) {
      hide IsBefore, Leading, Backoff;
      CheckStep(es, now, clock, k);
      if Outcome(es[0]).Resent? {
        var renewed := Renew(es[0], now + clock(k));
        LivesInsert(es[1..], renewed, Leading(Deadlines(es[1..]), renewed.t));
      }
      ResendLimit(Step(es, now, clock(k)), now, clock, k + 1);
    }
  }

  /** How often a node was sent again. */
  function Sends(log: seq<Event>, n: Node): nat {
    if |log| == 0 then 0 else (if log[0].Resent? && log[0].e.node == n then 1 else 0) + Sends(log[1..], n)
  }

  /** How often the queued entries of a node may still be sent again. */
  function Left(es: seq<Entry>, n: Node): nat {
    if |es| == 0 then 0
    else (if es[0].node == n && es[0].cnt < MAX_RETRANSMIT then MAX_RETRANSMIT - es[0].cnt else 0) + Left(es[1..], n)
  }

  lemma {:induction false} LeftInserted(es: seq<Entry>, e: Entry, k: nat, n: Node)
    requires k <= |es|
    ensures Left(Inserted(es, k, e), n) == Left(es, n) + Left([e], n)
  {
    var r := Inserted(es, k, e);
    if k == 0 {
      assert r[1..] == es && [e][1..] == [];
    } else {
      LeftInserted(es[1..], e, k - 1, n);
      assert r[1..] == Inserted(es[1..], k - 1, e);
    }
  }

  lemma {:induction false} LeftRemoved(es: seq<Entry>, k: nat, n: Node)
    requires k < |es|
    ensures Left(Removed(es, k), n) <= Left(es, n)
  {
    var r := Removed(es, k);
    if k == 0 {
      assert r == es[1..];
    } else {
      LeftRemoved(es[1..], k - 1, n);
      assert r[1..] == Removed(es[1..], k - 1);
    }
  }

  lemma {:induction false} SendsConcat(a: seq<Event>, b: seq<Event>, n: Node)
    ensures Sends(a + b, n) == Sends(a, n) + Sends(b, n)
  {
    if |a| == 0 {
      assert a + b == b;
    } else {
      SendsConcat(a[1..], b, n);
      assert (a + b)[1..] == a[1..] + b;
    }
  }

  /** Handling the head spends one of its resends, or all of them. */
  lemma LeftStep(es: seq<Entry>, now: nat, elapsed: nat, n: Node)
    requires |es| > 0
    ensures Sends([Outcome(es[0])], n) + Left(Step(es, now, elapsed), n) <= Left(es, n)
  {
    hide Leading, Backoff, Inserted;
    var e := es[0];
    assert [Outcome(e)][1..] == [];
    if Outcome(e).Resent? {
      var renewed := Renew(e, now + elapsed);
      LeftInserted(es[1..], renewed, Leading(Deadlines(es[1..]), renewed.t), n);
      assert [renewed][1..] == [];
    }
  }

  /** One check sends a node again at most as often as its counter leaves, whatever the clock does. */
  lemma {:induction false} CheckSends(es: seq<Entry>, now: nat, clock: nat -> nat, k: nat, n: Node)
    ensures var (rest, log) := Check(es, now, clock, k);
            Sends(log, n) + Left(rest, n) <= Left(es, n)
    decreases Lives(es)
  {
    if |es| > 0 && IsBefore(es[0].t, now) {
      hide IsBefore, Leading, Backoff, Left, Sends, Outcome;
      CheckStep(es, now, clock, k);
      LivesStep(es, now, clock(k));
      CheckSends(Step(es, now, clock(k)), now, clock, k + 1, n);
      LeftStep(es, now, clock(k), n);
      SendsConcat([Outcome(es[0])], Check(Step(es, now, clock(k)), now, clock, k + 1).1, n);
    } else {
      assert Sends([], n) == 0;
    }
  }

  lemma LivesStep(es: seq<Entry>, now: nat, elapsed: nat)
    requires |es| > 0
    ensures Lives(Step(es, now, elapsed)) < Lives(es)
  {
    if Outcome(es[0]).Resent? {
      hide Leading, Backoff;
      var renewed := Renew(es[0], now + elapsed);
      LivesInsert(es[1..], renewed, Leading(Deadlines(es[1..]), renewed.t));
    }
  }

  // ----- whole runs of the send queue -----

  /** A node is queued, one is taken out (a peer's retransmissions stop), or the queue is checked at a true time. */
  datatype Ev = Queued(e: Entry) | Stopped(k: nat) | Checked(at: nat, clock: nat -> nat)

  /** The queue; as history, what became of nodes that were due, and the time of the last check. */
  datatype History = History(es: seq<Entry>, log: seq<Event>, checked: nat)

  function RunStep(h: History, ev: Ev): History {
    match ev
    case Queued(e) => h.(es := InsertEntry(h.es, e))
    case Stopped(k) => if k < |h.es| then h.(es := Removed(h.es, k)) else h
    case Checked(at, clock) =>
      var (rest, log) := Check(h.es, at, clock, 0);
      History(rest, h.log + log, at)
  }

  function Run(start: nat, evs: seq<Ev>): History {
    if |evs| == 0 then History([], [], start) else RunStep(Run(start, evs[..|evs| - 1]), evs[|evs| - 1])
  }

  /** How often a node was put into the queue. */
  function Queuings(evs: seq<Ev>, n: Node): nat {
    if |evs| == 0 then 0
    else Queuings(evs[..|evs| - 1], n) + (if evs[|evs| - 1].Queued? && evs[|evs| - 1].e.node == n then 1 else 0)
  }

  /**
   In every run, with any clock readings, a node is sent again at most 7 times for each time it is queued:
   a node queued once is never resent more than 7 times.
   */
  lemma {:induction false} ResentAtMost(start: nat, evs: seq<Ev>, n: Node)
    ensures Sends(Run(start, evs).log, n) + Left(Run(start, evs).es, n) <= MAX_RETRANSMIT * Queuings(evs, n)
  {
    if |evs| > 0 {
      var before, ev := evs[..|evs| - 1], evs[|evs| - 1];
      ResentAtMost(start, before, n);
      StepSends(Run(start, before), ev, n);
    }
  }

  lemma StepSends(h: History, ev: Ev, n: Node)
    ensures var h' := RunStep(h, ev);
            Sends(h'.log, n) + Left(h'.es, n)
            <= Sends(h.log, n) + Left(h.es, n) + (if ev.Queued? && ev.e.node == n then MAX_RETRANSMIT else 0)
  {
    hide Check, Leading, Sends, Inserted, Removed;
    match ev {
      case Queued(e) =>
        LeftInserted(h.es, e, Leading(Deadlines(h.es), e.t), n);
        assert [e][1..] == [];
      case Stopped(k) =>
        if k < |h.es| {
          LeftRemoved(h.es, k, n);
        }
      case Checked(at, clock) =>
        CheckSends(h.es, at, clock, 0, n);
        SendsConcat(h.log, Check(h.es, at, clock, 0).1, n);
    }
  }

  /**
   Deadlines are queued within half the range after the last check, and the next check comes before its latest
   reading and the longest back-off have left that range. Nothing is assumed about the clock's wrap-around.
   */
  ghost predicate Timely(start: nat, evs: seq<Ev>, lag: nat, reach: nat) {
    |evs| > 0 ==>
      var before, ev := evs[..|evs| - 1], evs[|evs| - 1];
      Timely(start, before, lag, reach) && OnTime(Run(start, before).checked, ev, lag, reach)
  }

  ghost predicate OnTime(checked: nat, ev: Ev, lag: nat, reach: nat) {
    match ev
    case Queued(e) => Since(checked, e.t) < HALF && Bounded(e, reach)
    case Stopped(_) => true
    case Checked(at, clock) => checked <= at && at - checked + lag + reach < HALF && forall j :: clock(j) <= lag
  }

  predicate Bounded(e: Entry, reach: nat) {
    0 < e.timeout && e.timeout * Pow2(MAX_RETRANSMIT) <= reach
  }

  /** The queue is sorted in the half range that begins with the last check. */
  ghost predicate InWindow(h: History, reach: nat) {
    Sorted(Deadlines(h.es), h.checked) && forall e :: e in h.es ==> Bounded(e, reach)
  }

  lemma {:induction false} RunInWindow(start: nat, evs: seq<Ev>, lag: nat, reach: nat)
    requires Timely(start, evs, lag, reach)
    ensures InWindow(Run(start, evs), reach)
  {
    hide InWindow, RunStep, OnTime;
    if |evs| == 0 {
      EmptyInWindow(start, reach);
    } else {
      var before, ev := evs[..|evs| - 1], evs[|evs| - 1];
      RunInWindow(start, before, lag, reach);
      StepInWindow(Run(start, before), ev, lag, reach);
    }
  }

  lemma EmptyInWindow(start: nat, reach: nat)
    ensures InWindow(History([], [], start), reach)
  {}

  lemma StepInWindow(h: History, ev: Ev, lag: nat, reach: nat)
    requires InWindow(h, reach) && OnTime(h.checked, ev, lag, reach)
    ensures InWindow(RunStep(h, ev), reach)
  {
    match ev {
      case Queued(e) => QueuedInWindow(h, e, reach);
      case Stopped(k) =>
        if k < |h.es| {
          StoppedInWindow(h, k, reach);
        }
      case Checked(at, clock) => CheckedInWindow(h, at, clock, lag, reach);
    }
  }

  lemma QueuedInWindow(h: History, e: Entry, reach: nat)
    requires InWindow(h, reach) && Since(h.checked, e.t) < HALF && Bounded(e, reach)
    ensures InWindow(h.(es := InsertEntry(h.es, e)), reach)
  {
    hide Since, Leading, Bounded;
    var ts := Deadlines(h.es);
    InsertSorted(ts, e.t, h.checked);
    var k := Leading(ts, e.t);
    assert Deadlines(InsertEntry(h.es, e)) == Inserted(ts, k, e.t);
    assert forall x :: x in InsertEntry(h.es, e) ==> x == e || x in h.es;
  }

  lemma StoppedInWindow(h: History, k: nat, reach: nat)
    requires InWindow(h, reach) && k < |h.es|
    ensures InWindow(h.(es := Removed(h.es, k)), reach)
  {
    hide Since, Bounded;
    var r := Removed(h.es, k);
    assert forall i :: 0 <= i < |r| ==> Deadlines(r)[i] == Deadlines(h.es)[if i < k then i else i + 1];
    assert forall x :: x in r ==> x in h.es;
  }

  lemma WithinReach(h: History, at: nat, lag: nat, reach: nat, m: nat)
    requires InWindow(h, reach) && h.checked <= at && at - h.checked + lag + reach < HALF && m <= |h.es|
    ensures Since(h.checked, at) == at - h.checked && Reach(h.es[..m], h.checked, at, lag)
  {
    SmallMod(at - h.checked, U32);
    hide Since;
    forall i | 0 <= i < m && h.es[i].cnt < MAX_RETRANSMIT
      ensures h.es[i].timeout > 0 && h.es[i].timeout * Pow2(h.es[i].cnt + 1) <= reach
    {
      var e := h.es[i];
      assert Bounded(e, reach);
      Pow2Mono(e.cnt + 1, MAX_RETRANSMIT);
      hide *;
      MulMono(Pow2(e.cnt + 1), Pow2(MAX_RETRANSMIT), e.timeout);
    }
  }

  lemma CheckedInWindow(h: History, at: nat, clock: nat -> nat, lag: nat, reach: nat)
    requires InWindow(h, reach) && OnTime(h.checked, Checked(at, clock), lag, reach)
    ensures InWindow(RunStep(h, Checked(at, clock)), reach)
  {
    var m := Leading(Deadlines(h.es), at);
    WithinReach(h, at, lag, reach, m);
    ResendCheck(h.es, at, clock, h.checked, lag);
    var (rest, log) := Check(h.es, at, clock, 0);
    Rebased(rest, h.checked, at);
    hide Check, Since, Leading, Sorted, Reach, Bounded;
    forall e | e in rest
      ensures Bounded(e, reach)
    {
      assert e in multiset(rest);
      if e in multiset(h.es[m..]) {
        assert e in h.es[m..];
      } else {
        RenewedFrom(h.es[..m], at, clock, 0, e, reach);
      }
    }
  }

  lemma {:induction false} RenewedFrom(es: seq<Entry>, now: nat, clock: nat -> nat, k: nat, e: Entry, reach: nat)
    requires e in Renewed(es, now, clock, k) && forall x :: x in es ==> Bounded(x, reach)
    ensures Bounded(e, reach)
  {
    hide Outcome, Backoff;
    if e in Renewed(es[1..], now, clock, k + 1) {
      assert forall x :: x in es[1..] ==> x in es;
      RenewedFrom(es[1..], now, clock, k + 1, e, reach);
    } else {
      assert es[0] in es && e.timeout == es[0].timeout;
    }
  }

  /** What is later than now stays sorted in the window that begins now. */
  lemma Rebased(es: seq<Entry>, base: nat, now: nat)
    requires Sorted(Deadlines(es), base) && base <= now && now - base < HALF
    requires forall i :: 0 <= i < |es| ==> now - base < Since(base, es[i].t)
    ensures Sorted(Deadlines(es), now)
  {
    var ts := Deadlines(es);
    forall i | 0 <= i < |ts|
      ensures Since(now, ts[i]) == Since(base, ts[i]) - (now - base)
    {
      assert ts[i] == es[i].t;
      MoveBase(base, now, ts[i]);
    }
    hide Since;
  }

  lemma MoveBase(base: nat, now: nat, t: nat)
    requires base <= now && now - base < Since(base, t)
    ensures Since(now, t) == Since(base, t) - (now - base)
  {
    var q := (t - base) / U32;
    DivModUnique(t - now, U32, q, Since(base, t) - (now - base));
  }

  /**
   At every check of a run the nodes handled are exactly those whose deadline has been reached since the last
   check, each once and in deadline order; everything left is later than the check.
   */
  lemma ChecksInRun(start: nat, evs: seq<Ev>, at: nat, clock: nat -> nat, lag: nat, reach: nat)
    requires Timely(start, evs + [Checked(at, clock)], lag, reach)
    ensures var h, h' := Run(start, evs), Run(start, evs + [Checked(at, clock)]);
            var m := Leading(Deadlines(h.es), at);
            && h.checked <= at
            && (forall i :: 0 <= i < |h.es| ==> (i < m <==> Since(h.checked, h.es[i].t) <= at - h.checked))
            && h'.log == h.log + Outcomes(h.es[..m]) && h'.checked == at
            && (forall i :: 0 <= i < |h'.es| ==> 0 < Since(at, h'.es[i].t) < HALF)
  {
    var all := evs + [Checked(at, clock)];
    assert all[..|all| - 1] == evs && all[|all| - 1] == Checked(at, clock);
    RunInWindow(start, evs, lag, reach);
    var h := Run(start, evs);
    WithinReach(h, at, lag, reach, Leading(Deadlines(h.es), at));
    ResendCheck(h.es, at, clock, h.checked, lag);
    var rest := Check(h.es, at, clock, 0).0;
    hide Check, Leading, Sorted, Reach, InWindow, Since;
    forall i | 0 <= i < |rest|
      ensures 0 < Since(at, rest[i].t) < HALF
    {
      MoveBase(h.checked, at, rest[i].t);
      DeadlineInWindow(rest, h.checked, i);
    }
  }

  /** Only a node that is not in the queue is put into it. */
  ghost predicate NewNodes(start: nat, evs: seq<Ev>) {
    |evs| > 0 ==>
      var before, ev := evs[..|evs| - 1], evs[|evs| - 1];
      && NewNodes(start, before)
      && (ev.Queued? ==> forall e :: e in Run(start, before).es ==> e.node != ev.e.node)
  }

  lemma {:induction false} RunOneEach(start: nat, evs: seq<Ev>)
    requires NewNodes(start, evs)
    ensures OneEach(Run(start, evs).es)
  {
    if |evs| > 0 {
      var before, ev := evs[..|evs| - 1], evs[|evs| - 1];
      RunOneEach(start, before);
      hide Run, OneEach;
      RunOneEachStep(Run(start, before), ev);
      RunNext(start, evs);
    }
  }

  lemma RunNext(start: nat, evs: seq<Ev>)
    requires |evs| > 0
    ensures Run(start, evs) == RunStep(Run(start, evs[..|evs| - 1]), evs[|evs| - 1])
  {}

  lemma RunOneEachStep(h: History, ev: Ev)
    requires OneEach(h.es) && (ev.Queued? ==> forall e :: e in h.es ==> e.node != ev.e.node)
    ensures OneEach(RunStep(h, ev).es)
  {
    hide Leading, Inserted, Removed, Check;
    match ev {
      case Queued(_) =>
      case Stopped(_) =>
      case Checked(at, clock) => CheckOneEach(h.es, at, clock, 0);
    }
  }

  /**
   At every check of a run the nodes whose deadline has been reached since the last one are treated according to
   their own job and counter, and all others stay as they are.
   */
  lemma NodesInRun(start: nat, evs: seq<Ev>, at: nat, clock: nat -> nat, lag: nat, reach: nat)
    requires Timely(start, evs + [Checked(at, clock)], lag, reach) && NewNodes(start, evs)
    ensures var h, h' := Run(start, evs), Run(start, evs + [Checked(at, clock)]);
            var n := |h'.log| - |h.log|;
            && h.checked <= at && 0 <= n <= |h.es|
            && (forall i :: 0 <= i < |h.es| ==> (i < n <==> Since(h.checked, h.es[i].t) <= at - h.checked))
            && (forall i :: 0 <= i < n ==> Treated(h.es[i], h'.log[|h.log| + i], h'.es, at + clock(i)))
            && (forall i :: n <= i < |h.es| ==> h.es[i] in h'.es)
            && (forall f :: f in h'.es ==> exists e :: e in h.es && e.node == f.node)
  {
    var all := evs + [Checked(at, clock)];
    assert all[..|all| - 1] == evs && all[|all| - 1] == Checked(at, clock);
    RunInWindow(start, evs, lag, reach);
    RunOneEach(start, evs);
    RunNext(start, all);
    hide Run, OneEach;
    NodesAtCheck(Run(start, evs), at, clock, lag, reach);
  }

  lemma NodesAtCheck(h: History, at: nat, clock: nat -> nat, lag: nat, reach: nat)
    requires InWindow(h, reach) && OneEach(h.es) && OnTime(h.checked, Checked(at, clock), lag, reach)
    ensures var h' := RunStep(h, Checked(at, clock));
            var n := |h'.log| - |h.log|;
            && h.checked <= at && 0 <= n <= |h.es|
            && (forall i :: 0 <= i < |h.es| ==> (i < n <==> Since(h.checked, h.es[i].t) <= at - h.checked))
            && (forall i :: 0 <= i < n ==> Treated(h.es[i], h'.log[|h.log| + i], h'.es, at + clock(i)))
            && (forall i :: n <= i < |h.es| ==> h.es[i] in h'.es)
            && (forall f :: f in h'.es ==> exists e :: e in h.es && e.node == f.node)
  {
    WithinReach(h, at, lag, reach, Leading(Deadlines(h.es), at));
    InWindowMeans(h, reach);
    hide Check, Leading, Sorted, Reach, InWindow, Since, Treated, OneEach;
    DueNodes(h.es, at, clock, h.checked, lag);
    var log := Check(h.es, at, clock, 0).1;
    assert forall i :: 0 <= i < |log| ==> (h.log + log)[|h.log| + i] == log[i];
  }

  lemma InWindowMeans(h: History, reach: nat)
    requires InWindow(h, reach)
    ensures Sorted(Deadlines(h.es), h.checked)
  {}

  lemma DeadlineInWindow(es: seq<Entry>, base: int, i: nat)
    requires Sorted(Deadlines(es), base) && i < |es|
    ensures Since(base, es[i].t) < HALF
  {
    assert Deadlines(es)[i] == es[i].t;
  }

  // ----- the engine -----

  function EntryOf(n: Node): Entry
    reads n`t, n`retransmitCnt
  {
    Entry(n, n.t, n.retransmitCnt, n.timeout, n.job)
  }

  ghost function Entries(s: seq<Node>): (es: seq<Entry>)
    reads s`t, s`retransmitCnt
    ensures |es| == |s|
    ensures forall i {:trigger es[i]} :: 0 <= i < |s| ==> es[i] == EntryOf(s[i])
  {
    if |s| == 0 then [] else [EntryOf(s[0])] + Entries(s[1..])
  }

  lemma EntriesInserted(s: seq<Node>, n: Node, k: nat)
    requires k <= |s|
    ensures Entries(Inserted(s, k, n)) == Inserted(Entries(s), k, EntryOf(n))
  {
    hide *;
    var r, es := Inserted(s, k, n), Inserted(Entries(s), k, EntryOf(n));
    forall i | 0 <= i < |r|
      ensures Entries(r)[i] == es[i]
    {
      if i < k {
        assert r[i] == s[i];
      } else if i > k {
        assert r[i] == s[i - 1];
      }
    }
  }

  lemma EntriesRest(s: seq<Node>)
    requires |s| > 0
    ensures Entries(s[1..]) == Entries(s)[1..]
  {}

  lemma EntriesTimes(s: seq<Node>)
    ensures Ticks(s) == Deadlines(Entries(s))
  {
    hide Entries, Ticks;
  }

  class Context {
    const sendqueue: Queue
    var log: seq<Event>          // records written again, alerts timed out, nodes given up

    constructor ()
      ensures fresh(sendqueue) && sendqueue.Valid() && sendqueue.nodes == [] && log == []
    {
      sendqueue := new Queue();
      log := [];
    }

    ghost function View(): (es: seq<Entry>)
      reads sendqueue, sendqueue.nodes`t, sendqueue.nodes`retransmitCnt
      ensures |es| == |sendqueue.nodes|
    {
      Entries(sendqueue.nodes)
    }

    /** Resends a node taken off the queue, or ends its life. */
    method Retransmit(node: Node, now: nat)
      requires sendqueue.Valid() && node !in sendqueue.nodes
      modifies this, sendqueue, sendqueue.nodes`next, node
      ensures sendqueue.Valid() && log == old(log) + [Outcome(old(EntryOf(node)))]
      ensures log[|log| - 1].Resent? <==> node.job == RESEND && old(node.retransmitCnt) < 7
      ensures if node.job == RESEND && old(node.retransmitCnt) < 7
              then node in sendqueue.nodes && node.retransmitCnt == old(node.retransmitCnt) + 1
                   && node.t == (now + node.timeout * Pow2(node.retransmitCnt)) % 0x1_0000_0000
              else sendqueue.nodes == old(sendqueue.nodes)
      ensures View() == if Outcome(old(EntryOf(node))).Resent?
                        then InsertEntry(old(View()), Renew(old(EntryOf(node)), now)) else old(View())
      ensures sendqueue.NodeSet() <= old(sendqueue.NodeSet()) + {node}
    {
      hide IsBefore, Backoff, Leading, InsertEntry, Entries, Distinct, Linked;
      var e := EntryOf(node);
      ghost var v := View();
      if node.retransmitCnt < MAX_RETRANSMIT {
        if node.job == TIMEOUT {
          log := log + [AlertTimedOut(e)];
          assert View() == v;
          return;
        }
        Renewal(node, now);
        log := log + [Resent(e)];
        return;
      }
      log := log + [GivenUp(e)];
      assert View() == v;
    }

    /** Puts a node back with its next deadline. */
    method Renewal(node: Node, now: nat)
      requires sendqueue.Valid() && node !in sendqueue.nodes
      modifies sendqueue, sendqueue.nodes`next, node
      ensures sendqueue.Valid() && sendqueue.NodeSet() <= old(sendqueue.NodeSet()) + {node}
      ensures View() == InsertEntry(old(View()), Renew(old(EntryOf(node)), now))
      ensures node in sendqueue.nodes && node.retransmitCnt == old(node.retransmitCnt) + 1
      ensures node.t == (now + node.timeout * Pow2(node.retransmitCnt)) % 0x1_0000_0000
    {
      hide IsBefore, Backoff, Leading, InsertEntry, Entries, Distinct, Linked;
      ghost var v, e := View(), EntryOf(node);
      node.retransmitCnt := node.retransmitCnt + 1;
      node.t := Backoff(now, node.timeout, node.retransmitCnt);
      assert View() == v && EntryOf(node) == Renew(e, now);
      BackoffIs(now, node.timeout, node.retransmitCnt);
      Enqueue(node);
    }

    method Enqueue(node: Node)
      requires sendqueue.Valid() && node !in sendqueue.nodes
      modifies sendqueue, sendqueue.nodes`next, node`next
      ensures sendqueue.Valid() && node in sendqueue.nodes
      ensures View() == InsertEntry(old(View()), EntryOf(node))
      ensures sendqueue.NodeSet() <= old(sendqueue.NodeSet()) + {node}
    {
      hide Inserted, IsBefore, Leading, Entries, Ticks, Deadlines, Distinct, Linked;
      ghost var v, q := View(), sendqueue.nodes;
      EntriesTimes(q);
      ghost var k := Leading(Deadlines(v), node.t);
      sendqueue.Insert(node);
      EntriesInserted(q, node, k);
    }

    /** Works off all nodes that are due; the result is the deadline of the new head, or 0. */
    method CheckRetransmit(now: nat, clock: nat -> nat) returns (next: nat)
      requires sendqueue.Valid()
      modifies this, sendqueue, sendqueue.NodeSet()
      ensures sendqueue.Valid()
      ensures View() == Check(old(View()), now, clock, 0).0
      ensures log == old(log) + Check(old(View()), now, clock, 0).1
      ensures next == if View() == [] then 0 else View()[0].t
    {
      hide Inserted, Removed, Distinct, Linked, Entries, IsBefore, Backoff, Leading, Check, Step, Outcome, Renew,
        InsertEntry, Lives, Final;
      ghost var v0, q, log0 := View(), sendqueue.NodeSet(), log;
      var i := 0;
      var node := sendqueue.head;
      while node != null && IsBefore(node.t, now)
        invariant sendqueue.Valid() && node == sendqueue.head
        invariant sendqueue.NodeSet() <= q
        invariant Final(View(), log, now, clock, i) == Final(v0, log0, now, clock, 0)
        decreases Lives(View())
      {
        ghost var v := View();
        FinalStep(v, log, now, clock, i);
        LivesStep(v, now, clock(i));
        HandleHead(now, clock(i));
        i := i + 1;
        node := sendqueue.head;
      }
      FinalEnd(View(), log, now, clock, i);
      FinalIs(v0, log0, now, clock);
      next := if node != null then node.t else 0;
    }

    /** One round of the loop. */
    method HandleHead(now: nat, elapsed: nat)
      requires sendqueue.Valid() && sendqueue.nodes != []
      modifies this, sendqueue, sendqueue.NodeSet()
      ensures sendqueue.Valid() && View() == Step(old(View()), now, elapsed)
      ensures log == old(log) + [Outcome(old(View())[0])]
      ensures sendqueue.NodeSet() <= old(sendqueue.NodeSet())
    {
      hide IsBefore, Backoff, Leading, Outcome, Renew, InsertEntry, Entries;
      ghost var v := View();
      EntriesRest(sendqueue.nodes);
      var node := sendqueue.PopFirst();
      assert v[0] == EntryOf(node) && View() == v[1..];
      Retransmit(node, now + elapsed);
      assert View() == if Outcome(v[0]).Resent? then InsertEntry(v[1..], Renew(v[0], now + elapsed)) else v[1..];
    }
  }

  /** Queue and log once the check has run to its end from here. */
  function Final(es: seq<Entry>, log: seq<Event>, now: nat, clock: nat -> nat, k: nat): (seq<Entry>, seq<Event>) {
    (Check(es, now, clock, k).0, log + Check(es, now, clock, k).1)
  }

  lemma FinalIs(es: seq<Entry>, log: seq<Event>, now: nat, clock: nat -> nat)
    ensures Final(es, log, now, clock, 0) == (Check(es, now, clock, 0).0, log + Check(es, now, clock, 0).1)
  {}

  lemma BackoffIs(now: nat, timeout: nat, cnt: nat)
    ensures Backoff(now, timeout, cnt) == (now + timeout * Pow2(cnt)) % 0x1_0000_0000
  {}

  lemma FinalStep(es: seq<Entry>, log: seq<Event>, now: nat, clock: nat -> nat, k: nat)
    requires |es| > 0 && IsBefore(es[0].t, now)
    ensures Final(Step(es, now, clock(k)), log + [Outcome(es[0])], now, clock, k + 1) == Final(es, log, now, clock, k)
  {
    hide Check, Step, Outcome, IsBefore;
    CheckStep(es, now, clock, k);
    var rest := Check(Step(es, now, clock(k)), now, clock, k + 1).1;
    assert log + ([Outcome(es[0])] + rest) == (log + [Outcome(es[0])]) + rest;
  }

  lemma FinalEnd(es: seq<Entry>, log: seq<Event>, now: nat, clock: nat -> nat, k: nat)
    requires |es| == 0 || !IsBefore(es[0].t, now)
    ensures Final(es, log, now, clock, k) == (es, log)
  {
    CheckEmpty(es, now, clock, k);
    assert log + [] == log;
  }

  lemma CheckEmpty(es: seq<Entry>, now: nat, clock: nat -> nat, k: nat)
    requires |es| == 0 || !IsBefore(es[0].t, now)
    ensures Check(es, now, clock, k) == (es, [])
  {}
}
