/**
 Completion handlers arranged by message id, with timeouts.

 The table stores expiration times relative to a tick counter that restarts at 0 whenever something
 expires. It is shown to behave like a table of absolute deadlines, and to invoke every handler
 exactly once.
 */
module HandlerMap {
  import opened Arith
  import opened Wrappers
  import opened Lists
  import opened Vector

  const U32 := 0x1_0000_0000
  const MAX_TIMEOUT := 0xFFFF_FFFF

  datatype Code = Ok | Failed(error: int) | Internal | Aborted | Timeout

  /** One invocation of a callback. */
  datatype Call = Call(callback: nat, code: Code)

  // ----- a move-only callback -----

  /** A callback that has not been invoked yet, or nothing. */
  datatype CompletionHandler = CompletionHandler(callback: Option<nat>)

  const EMPTY := CompletionHandler(None)

  /** The calls made by passing a result or an error: at most one, and none the second time. */
  function Invoke(h: CompletionHandler, code: Code): (calls: seq<Call>) {
    if h.callback.Some? then [Call(h.callback.value, code)] else []
  }

  // ----- the table, on values -----

  datatype Handler = Handler(key: nat, callback: nat, ticks: nat)

  datatype State = State(handlers: seq<Handler>, timeoutTicks: nat, ticks: nat, log: seq<Call>)

  /** The nearest expiration time, or the maximum when there is none. */
  function Nearest(hs: seq<Handler>): nat {
    if |hs| == 0 then MAX_TIMEOUT else Min(Nearest(hs[..|hs| - 1]), hs[|hs| - 1].ticks)
  }

  function Others(hs: seq<Handler>, key: nat): (r: seq<Handler>)
    ensures |r| <= |hs|
  {
    if |hs| == 0 then [] else Others(hs[..|hs| - 1], key) + (if hs[|hs| - 1].key == key then [] else [hs[|hs| - 1]])
  }

  /** The callbacks stored under a key, in the order they were added. */
  function Keyed(hs: seq<Handler>, key: nat): seq<nat> {
    if |hs| == 0 then []
    else Keyed(hs[..|hs| - 1], key) + (if hs[|hs| - 1].key == key then [hs[|hs| - 1].callback] else [])
  }

  function Calls(callbacks: seq<nat>, code: Code): (calls: seq<Call>)
    ensures |calls| == |callbacks|
  {
    seq(|callbacks|, i requires 0 <= i < |callbacks| => Call(callbacks[i], code))
  }

  /** Adds a handler; when there is no memory for it, it is destroyed, which invokes it. */
  function Add(m: State, key: nat, callback: nat, timeout: nat, memory: bool): State {
    if memory then
      var t := (m.ticks + timeout) % U32;
      m.(handlers := m.handlers + [Handler(key, callback, t)], timeoutTicks := Min(t, m.timeoutTicks))
    else m.(log := m.log + [Call(callback, Internal)])
  }

  /** Takes all handlers with this key out; all but the last are overwritten in turn, which invokes them. */
  function Take(m: State, key: nat): (State, CompletionHandler) {
    var rest, taken := Others(m.handlers, key), Keyed(m.handlers, key);
    if |taken| == 0 then (m.(handlers := rest, timeoutTicks := Nearest(rest)), EMPTY)
    else
      (State(rest, Nearest(rest), if |rest| == 0 then 0 else m.ticks, m.log + Calls(taken[..|taken| - 1], Internal)),
       CompletionHandler(Some(taken[|taken| - 1])))
  }

  /** setResult and setError. */
  function Finish(m: State, key: nat, code: Code): State {
    var (rest, h) := Take(m, key);
    rest.(log := rest.log + Invoke(h, code))
  }

  function Clear(m: State): State {
    State([], MAX_TIMEOUT, 0, m.log + Calls(Callbacks(m.handlers), Aborted))
  }

  function Callbacks(hs: seq<Handler>): (cs: seq<nat>)
    ensures |cs| == |hs|
    ensures forall i {:trigger cs[i]} :: 0 <= i < |cs| ==> cs[i] == hs[i].callback
  {
    seq(|hs|, i requires 0 <= i < |hs| => hs[i].callback)
  }

  /** The handlers that have not expired at this tick count, with the count subtracted. */
  function Alive(hs: seq<Handler>, ticks: nat): seq<Handler> {
    if |hs| == 0 then []
    else
      var h := hs[|hs| - 1];
      Alive(hs[..|hs| - 1], ticks) + (if ticks >= h.ticks then [] else [h.(ticks := h.ticks - ticks)])
  }

  function Expired(hs: seq<Handler>, ticks: nat): seq<nat> {
    if |hs| == 0 then []
    else
      var h := hs[|hs| - 1];
      Expired(hs[..|hs| - 1], ticks) + (if ticks >= h.ticks then [h.callback] else [])
  }

  function Update(m: State, ticks: nat): State {
    if |m.handlers| == 0 then m
    else
      var now := (m.ticks + ticks) % U32;
      if now >= m.timeoutTicks then
        var rest := Alive(m.handlers, now);
        State(rest, Nearest(rest), 0, m.log + Calls(Expired(m.handlers, now), Timeout))
      else m.(ticks := now)
  }

  /** What all operations keep, as long as no sum wraps. */
  ghost predicate Inv(m: State) {
    && m.timeoutTicks == Nearest(m.handlers)
    && (m.handlers == [] ==> m.ticks == 0)
    && forall i :: 0 <= i < |m.handlers| ==> m.ticks <= m.handlers[i].ticks < U32
  }

  // ----- absolute deadlines -----

  datatype Deadline = Deadline(key: nat, callback: nat, at: int)

  /** A clock and handlers with the time at which they expire. */
  datatype Table = Table(now: nat, items: seq<Deadline>, log: seq<Call>)

  function OtherItems(ds: seq<Deadline>, key: nat): seq<Deadline> {
    if |ds| == 0 then [] else OtherItems(ds[..|ds| - 1], key) + (if ds[|ds| - 1].key == key then [] else [ds[|ds| - 1]])
  }

  function KeyedItems(ds: seq<Deadline>, key: nat): seq<nat> {
    if |ds| == 0 then []
    else KeyedItems(ds[..|ds| - 1], key) + (if ds[|ds| - 1].key == key then [ds[|ds| - 1].callback] else [])
  }

  /** The items that are not due at this time. */
  function Pending(ds: seq<Deadline>, now: int): seq<Deadline> {
    if |ds| == 0 then [] else Pending(ds[..|ds| - 1], now) + (if now >= ds[|ds| - 1].at then [] else [ds[|ds| - 1]])
  }

  function Due(ds: seq<Deadline>, now: int): seq<nat> {
    if |ds| == 0 then []
    else Due(ds[..|ds| - 1], now) + (if now >= ds[|ds| - 1].at then [ds[|ds| - 1].callback] else [])
  }

  function ItemCallbacks(ds: seq<Deadline>): (cs: seq<nat>)
    ensures |cs| == |ds|
    ensures forall i {:trigger cs[i]} :: 0 <= i < |cs| ==> cs[i] == ds[i].callback
  {
    seq(|ds|, i requires 0 <= i < |ds| => ds[i].callback)
  }

  /** What happens to the table; ticks is the time passed since the last update. */
  datatype Ev = Added(key: nat, callback: nat, timeout: nat, memory: bool) | Finished(key: nat, code: Code)
              | Updated(ticks: nat) | Cleared

  /** The table of absolute deadlines: what the handler map stands for. */
  function Ideal(a: Table, ev: Ev): Table {
    match ev
    case Added(key, callback, timeout, memory) =>
      if memory then a.(items := a.items + [Deadline(key, callback, a.now + timeout)])
      else a.(log := a.log + [Call(callback, Internal)])
    case Finished(key, code) =>
      var taken := KeyedItems(a.items, key);
      a.(items := OtherItems(a.items, key),
         log := a.log + FinishCalls(taken, code))
    case Updated(ticks) =>
      var now := a.now + ticks;
      Table(now, Pending(a.items, now), a.log + Calls(Due(a.items, now), Timeout))
    case Cleared => a.(items := [], log := a.log + Calls(ItemCallbacks(a.items), Aborted))
  }

  function Step(m: State, ev: Ev): State {
    match ev
    case Added(key, callback, timeout, memory) => Add(m, key, callback, timeout, memory)
    case Finished(key, code) => Finish(m, key, code)
    case Updated(ticks) => Update(m, ticks)
    case Cleared => Clear(m)
  }

  /** The deadlines the relative times stand for at this time. */
  function Items(hs: seq<Handler>, shift: int): (ds: seq<Deadline>)
    ensures |ds| == |hs|
    ensures forall i {:trigger ds[i]} :: 0 <= i < |ds| ==>
              ds[i] == Deadline(hs[i].key, hs[i].callback, hs[i].ticks + shift)
  {
    seq(|hs|, i requires 0 <= i < |hs| => Deadline(hs[i].key, hs[i].callback, hs[i].ticks + shift))
  }

  function Lift(m: State, now: nat): Table {
    Table(now, Items(m.handlers, now - m.ticks), m.log)
  }

  function Elapsed(ev: Ev): nat {
    if ev.Updated? then ev.ticks else 0
  }

  /** No 32-bit sum wraps: a check on the tick counter before the call. */
  predicate Fits(m: State, ev: Ev) {
    match ev
    case Added(_, _, timeout, memory) => memory ==> m.ticks + timeout < U32
    case Updated(ticks) => |m.handlers| > 0 ==> m.ticks + ticks < U32
    case _ => true
  }

  // ----- relative times stand for the same deadlines after every operation -----

  lemma ItemsLast(hs: seq<Handler>, shift: int)
    requires |hs| > 0
    ensures var n := |hs| - 1;
            Items(hs, shift)[..n] == Items(hs[..n], shift)
            && Items(hs, shift)[n] == Deadline(hs[n].key, hs[n].callback, hs[n].ticks + shift)
  {
    hide Items;
  }

  lemma ItemsConcat(a: seq<Handler>, b: seq<Handler>, shift: int)
    ensures Items(a + b, shift) == Items(a, shift) + Items(b, shift)
  {
    hide Items;
  }

  lemma {:induction false} OthersItems(hs: seq<Handler>, key: nat, shift: int)
    ensures Items(Others(hs, key), shift) == OtherItems(Items(hs, shift), key)
    ensures Keyed(hs, key) == KeyedItems(Items(hs, shift), key)
  {
    hide Items;
    if |hs| > 0 {
      var n := |hs| - 1;
      OthersItems(hs[..n], key, shift);
      ItemsLast(hs, shift);
      ItemsConcat(Others(hs[..n], key), if hs[n].key == key then [] else [hs[n]], shift);
      ItemsOne(hs[n], shift);
    }
  }

  lemma ItemsOne(h: Handler, shift: int)
    ensures Items([h], shift) == [Deadline(h.key, h.callback, h.ticks + shift)] && Items([], shift) == []
  {}

  /** Subtracting the tick count from what is left moves the origin, not the deadlines. */
  lemma {:induction false} AliveItems(hs: seq<Handler>, ticks: nat, shift: int)
    ensures Items(Alive(hs, ticks), shift + ticks) == Pending(Items(hs, shift), shift + ticks)
    ensures Expired(hs, ticks) == Due(Items(hs, shift), shift + ticks)
  {
    hide Items;
    if |hs| > 0 {
      var n := |hs| - 1;
      var h := hs[n];
      AliveItems(hs[..n], ticks, shift);
      ItemsLast(hs, shift);
      var kept := if ticks >= h.ticks then [] else [h.(ticks := h.ticks - ticks)];
      ItemsConcat(Alive(hs[..n], ticks), kept, shift + ticks);
      if ticks < h.ticks {
        ItemsOne(kept[0], shift + ticks);
      } else {
        ItemsOne(h, shift + ticks);
      }
    }
  }

  /** The nearest expiration time is the minimum. */
  lemma {:induction false} NearestIsMinimum(hs: seq<Handler>)
    ensures forall i :: 0 <= i < |hs| ==> Nearest(hs) <= hs[i].ticks
    ensures Nearest(hs) <= MAX_TIMEOUT
    ensures Nearest(hs) == MAX_TIMEOUT || exists i :: 0 <= i < |hs| && hs[i].ticks == Nearest(hs)
  {
    if |hs| > 0 {
      var n := |hs| - 1;
      NearestIsMinimum(hs[..n]);
      forall i | 0 <= i < |hs|
        ensures Nearest(hs) <= hs[i].ticks
      {
        assert i < n ==> hs[..n][i] == hs[i];
      }
      if Nearest(hs) == Nearest(hs[..n]) < MAX_TIMEOUT {
        var i :| 0 <= i < n && hs[..n][i].ticks == Nearest(hs[..n]);
        assert hs[i].ticks == Nearest(hs);
      }
    }
  }

  /** Before the nearest time nothing is due. */
  lemma NothingDue(hs: seq<Handler>, ticks: nat, shift: int)
    requires forall i :: 0 <= i < |hs| ==> ticks < hs[i].ticks
    ensures Pending(Items(hs, shift), shift + ticks) == Items(hs, shift)
    ensures Due(Items(hs, shift), shift + ticks) == []
  {
    hide *;
    AllPending(Items(hs, shift), shift + ticks);
  }

  lemma {:induction false} AllPending(ds: seq<Deadline>, now: int)
    requires forall i {:trigger ds[i]} :: 0 <= i < |ds| ==> now < ds[i].at
    ensures Pending(ds, now) == ds
    ensures Due(ds, now) == []
  {
    hide *;
    if |ds| == 0 {
      NonePending(ds, now);
    } else {
      var n := |ds| - 1;
      AllPending(ds[..n], now);
      PendingLast(ds, now);
      assert ds == ds[..n] + [ds[n]];
    }
  }

  lemma NonePending(ds: seq<Deadline>, now: int)
    requires |ds| == 0
    ensures Pending(ds, now) == ds && Due(ds, now) == []
  {}

  lemma PendingLast(ds: seq<Deadline>, now: int)
    requires |ds| > 0 && now < ds[|ds| - 1].at
    ensures Pending(ds, now) == Pending(ds[..|ds| - 1], now) + [ds[|ds| - 1]]
    ensures Due(ds, now) == Due(ds[..|ds| - 1], now)
  {}

  lemma {:induction false} AliveTicks(hs: seq<Handler>, ticks: nat)
    requires forall i :: 0 <= i < |hs| ==> hs[i].ticks < U32
    ensures forall i :: 0 <= i < |Alive(hs, ticks)| ==> 0 < Alive(hs, ticks)[i].ticks < U32
  {
    if |hs| > 0 {
      AliveTicks(hs[..|hs| - 1], ticks);
    }
  }

  lemma {:induction false} OthersTicks(hs: seq<Handler>, key: nat, low: nat)
    requires forall i :: 0 <= i < |hs| ==> low <= hs[i].ticks < U32
    ensures forall i :: 0 <= i < |Others(hs, key)| ==> low <= Others(hs, key)[i].ticks < U32
    ensures |hs| == |Others(hs, key)| + |Keyed(hs, key)|
  {
    if |hs| > 0 {
      OthersTicks(hs[..|hs| - 1], key, low);
    }
  }

  predicate Sized(ev: Ev) {
    (ev.Added? ==> ev.timeout < U32) && (ev.Updated? ==> ev.ticks < U32)
  }

  lemma AddExact(m: State, now: nat, ev: Ev)
    requires Inv(m) && ev.Added? && Sized(ev)
    ensures Lift(Step(m, ev), now) == Ideal(Lift(m, now), ev) <==> Fits(m, ev)
    ensures Fits(m, ev) ==> Inv(Step(m, ev))
  {
    hide Items, Inv, Nearest;
    if ev.memory {
      var h := Handler(ev.key, ev.callback, (m.ticks + ev.timeout) % U32);
      AddItems(m.handlers, h, now - m.ticks, Deadline(ev.key, ev.callback, now + ev.timeout));
      if Fits(m, ev) {
        AddInv(m, h);
      }
    } else {
      InvLog(m, [Call(ev.callback, Internal)]);
    }
  }

  lemma AddItems(hs: seq<Handler>, h: Handler, shift: int, d: Deadline)
    requires h.key == d.key && h.callback == d.callback
    ensures Items(hs + [h], shift) == Items(hs, shift) + [d] <==> h.ticks + shift == d.at
  {
    hide Items;
    ItemsConcat(hs, [h], shift);
    ItemsOne(h, shift);
    assert (Items(hs, shift) + [d])[|hs|] == d;
  }

  lemma AddInv(m: State, h: Handler)
    requires Inv(m) && m.ticks <= h.ticks < U32
    ensures Inv(m.(handlers := m.handlers + [h], timeoutTicks := Min(h.ticks, m.timeoutTicks)))
  {
    assert (m.handlers + [h])[..|m.handlers|] == m.handlers;
  }

  lemma InvLog(m: State, calls: seq<Call>)
    requires Inv(m)
    ensures Inv(m.(log := m.log + calls))
  {}

  lemma FinishExact(m: State, now: nat, key: nat, code: Code)
    requires Inv(m)
    ensures Lift(Finish(m, key, code), now) == Ideal(Lift(m, now), Finished(key, code))
    ensures Inv(Finish(m, key, code))
  {
    hide *;
    var shift := now - m.ticks;
    OthersItems(m.handlers, key, shift);
    FinishResult(m, key, code);
    FinishInv(m, Finish(m, key, code), key);
    LiftIs(m, now);
    LiftIs(Finish(m, key, code), now);
    IdealFinish(Lift(m, now), key, code);
    NoItems(Others(m.handlers, key), shift, now);
  }

  /** The calls made when the handlers with a key are finished: all but the last are overwritten. */
  function FinishCalls(taken: seq<nat>, code: Code): seq<Call> {
    if |taken| == 0 then [] else Calls(taken[..|taken| - 1], Internal) + [Call(taken[|taken| - 1], code)]
  }

  // ----- who is called with what -----

  /** The last handler in the table with this key. */
  ghost predicate LastWith(hs: seq<Handler>, key: nat, k: nat) {
    k < |hs| && hs[k].key == key && forall i :: k < i < |hs| ==> hs[i].key != key
  }

  /** The handlers with a key, counted. */
  function CountKey(hs: seq<Handler>, key: nat): nat {
    if |hs| == 0 then 0 else CountKey(hs[..|hs| - 1], key) + (if hs[|hs| - 1].key == key then 1 else 0)
  }

  lemma {:induction false} OthersStay(hs: seq<Handler>, key: nat)
    ensures forall h: Handler {:trigger multiset(hs)[h]} ::
              multiset(Others(hs, key))[h] == if h.key == key then 0 else multiset(hs)[h]
  {
    if |hs| > 0 {
      var n := |hs| - 1;
      OthersStay(hs[..n], key);
      assert hs == hs[..n] + [hs[n]];
    }
  }

  lemma {:induction false} KeyedLast(hs: seq<Handler>, key: nat, k: nat)
    requires LastWith(hs, key, k)
    ensures |Keyed(hs, key)| == CountKey(hs, key) > 0
    ensures Keyed(hs, key)[|Keyed(hs, key)| - 1] == hs[k].callback
  {
    var n := |hs| - 1;
    if k < n {
      assert forall i :: k < i < n ==> hs[..n][i].key != key;
      KeyedLast(hs[..n], key, k);
    } else {
      KeyedCount(hs[..n], key);
    }
  }

  lemma {:induction false} KeyedCount(hs: seq<Handler>, key: nat)
    ensures |Keyed(hs, key)| == CountKey(hs, key)
  {
    if |hs| > 0 {
      KeyedCount(hs[..|hs| - 1], key);
    }
  }

  lemma {:induction false} NoneKeyed(hs: seq<Handler>, key: nat)
    requires forall i :: 0 <= i < |hs| ==> hs[i].key != key
    ensures Keyed(hs, key) == []
  {
    if |hs| > 0 {
      NoneKeyed(hs[..|hs| - 1], key);
    }
  }

  /**
   A result or error for a key goes to the handler added last under it; earlier ones under the key are called with
   an internal error, no other handler is called, and exactly those with other keys stay.
   */
  lemma FinishTakes(m: State, key: nat, code: Code, k: nat)
    requires LastWith(m.handlers, key, k)
    ensures var m' := Finish(m, key, code);
            var n := CountKey(m.handlers, key);
            && (forall h: Handler {:trigger multiset(m.handlers)[h]} ::
                  multiset(m'.handlers)[h] == if h.key == key then 0 else multiset(m.handlers)[h])
            && n > 0 && |m'.log| == |m.log| + n && m'.log[..|m.log|] == m.log
            && m'.log[|m'.log| - 1] == Call(m.handlers[k].callback, code)
            && forall i :: |m.log| <= i < |m'.log| - 1 ==> m'.log[i].code == Internal
  {
    FinishResult(m, key, code);
    OthersStay(m.handlers, key);
    KeyedLast(m.handlers, key, k);
    hide Finish, Others, Keyed, Nearest;
  }

  /** A result for a key nobody waits under calls nobody and leaves all handlers in place. */
  lemma FinishUnknown(m: State, key: nat, code: Code)
    requires forall i :: 0 <= i < |m.handlers| ==> m.handlers[i].key != key
    ensures var m' := Finish(m, key, code); m'.handlers == m.handlers && m'.log == m.log
  {
    hide Finish, Keyed, Nearest, Others;
    FinishResult(m, key, code);
    NoneKeyed(m.handlers, key);
    OthersAll(m.handlers, key);
  }

  lemma {:induction false} OthersAll(hs: seq<Handler>, key: nat)
    requires forall i :: 0 <= i < |hs| ==> hs[i].key != key
    ensures Others(hs, key) == hs
  {
    if |hs| > 0 {
      OthersAll(hs[..|hs| - 1], key);
    }
  }

  /**
   Clearing calls every handler once, in order, as aborted; without memory a handler gets an internal error at once.
   */
  lemma EndCodes(m: State, key: nat, callback: nat, timeout: nat)
    ensures var m' := Clear(m);
            && m'.handlers == [] && |m'.log| == |m.log| + |m.handlers| && m'.log[..|m.log|] == m.log
            && forall i :: 0 <= i < |m.handlers| ==> m'.log[|m.log| + i] == Call(m.handlers[i].callback, Aborted)
    ensures Add(m, key, callback, timeout, false) == m.(log := m.log + [Call(callback, Internal)])
  {}

  lemma FinishResult(m: State, key: nat, code: Code)
    ensures var rest, taken := Others(m.handlers, key), Keyed(m.handlers, key);
            Finish(m, key, code) == State(rest, Nearest(rest), if |taken| > 0 && |rest| == 0 then 0 else m.ticks,
                                          m.log + FinishCalls(taken, code))
  {
    hide Others, Keyed, Nearest, Calls;
    var taken := Keyed(m.handlers, key);
    assert m.log + [] == m.log;
    if |taken| > 0 {
      var first, last := Calls(taken[..|taken| - 1], Internal), [Call(taken[|taken| - 1], code)];
      assert m.log + (first + last) == m.log + first + last;
    }
  }

  lemma IdealFinish(a: Table, key: nat, code: Code)
    ensures Ideal(a, Finished(key, code))
            == a.(items := OtherItems(a.items, key), log := a.log + FinishCalls(KeyedItems(a.items, key), code))
  {}

  lemma FinishInv(m: State, m': State, key: nat)
    requires Inv(m) && m'.handlers == Others(m.handlers, key) && m'.timeoutTicks == Nearest(m'.handlers)
    requires m'.ticks == if |Keyed(m.handlers, key)| > 0 && |m'.handlers| == 0 then 0 else m.ticks
    ensures Inv(m')
  {
    OthersTicks(m.handlers, key, m.ticks);
    hide Others, Keyed, Nearest;
  }

  lemma NoItems(hs: seq<Handler>, a: int, b: int)
    ensures |hs| == 0 ==> Items(hs, a) == Items(hs, b)
  {}

  lemma UpdateExact(m: State, now: nat, ticks: nat)
    requires Inv(m) && ticks < U32
    ensures Lift(Update(m, ticks), now + ticks) == Ideal(Lift(m, now), Updated(ticks)) <==> Fits(m, Updated(ticks))
    ensures Fits(m, Updated(ticks)) ==> Inv(Update(m, ticks))
  {
    if m.handlers == [] {
      NothingDue(m.handlers, ticks, now - m.ticks);
      NoItems(m.handlers, now - m.ticks, now + ticks - m.ticks);
      assert m.log + [] == m.log;
    } else if m.ticks + ticks >= U32 {
      UpdateMisses(m, now, ticks);
    } else if m.ticks + ticks >= m.timeoutTicks {
      UpdateFires(m, now, ticks);
    } else {
      UpdateWaits(m, now, ticks);
    }
  }

  lemma UpdateFires(m: State, now: nat, ticks: nat)
    requires Inv(m) && m.handlers != [] && m.timeoutTicks <= m.ticks + ticks < U32
    ensures Lift(Update(m, ticks), now + ticks) == Ideal(Lift(m, now), Updated(ticks))
    ensures Inv(Update(m, ticks))
  {
    hide *;
    var t, shift := m.ticks + ticks, now - m.ticks;
    AliveItems(m.handlers, t, shift);
    UpdateResult(m, ticks);
    FreshInv(m, Update(m, ticks), t);
    LiftIs(m, now);
    LiftIs(Update(m, ticks), now + ticks);
    IdealUpdate(Lift(m, now), ticks);
    assert shift + t == now + ticks;
  }

  lemma FreshInv(m: State, m': State, t: nat)
    requires Inv(m) && m'.handlers == Alive(m.handlers, t) && m'.ticks == 0 && m'.timeoutTicks == Nearest(m'.handlers)
    ensures Inv(m')
  {
    AliveTicks(m.handlers, t);
    hide Alive, Nearest;
  }

  lemma UpdateResult(m: State, ticks: nat)
    requires m.handlers != [] && m.ticks + ticks < U32
    ensures m.ticks + ticks < m.timeoutTicks ==> Update(m, ticks) == m.(ticks := m.ticks + ticks)
    ensures m.ticks + ticks >= m.timeoutTicks ==>
              var rest := Alive(m.handlers, m.ticks + ticks);
              Update(m, ticks) == State(rest, Nearest(rest), 0,
                  m.log + Calls(Expired(m.handlers, m.ticks + ticks), Timeout))
  {
    hide Alive, Expired, Nearest, Calls;
  }

  lemma LiftIs(m: State, now: nat)
    ensures Lift(m, now) == Table(now, Items(m.handlers, now - m.ticks), m.log)
  {}

  lemma IdealUpdate(a: Table, ticks: nat)
    ensures Ideal(a, Updated(ticks))
         == Table(a.now + ticks, Pending(a.items, a.now + ticks), a.log + Calls(Due(a.items, a.now + ticks), Timeout))
  {}

  lemma UpdateWaits(m: State, now: nat, ticks: nat)
    requires Inv(m) && m.handlers != [] && m.ticks + ticks < m.timeoutTicks && m.ticks + ticks < U32
    ensures Lift(Update(m, ticks), now + ticks) == Ideal(Lift(m, now), Updated(ticks))
    ensures Inv(Update(m, ticks))
  {
    hide *;
    var t, shift := m.ticks + ticks, now - m.ticks;
    Waits(m, t, shift);
    UpdateResult(m, ticks);
    LiftIs(m, now);
    LiftIs(Update(m, ticks), now + ticks);
    IdealUpdate(Lift(m, now), ticks);
    assert shift + t == now + ticks;
    assert m.log + [] == m.log;
  }

  lemma Waits(m: State, t: nat, shift: int)
    requires Inv(m) && m.handlers != [] && t < m.timeoutTicks
    ensures Inv(m.(ticks := t))
    ensures var items := Items(m.handlers, shift);
            Pending(items, shift + t) == items && Calls(Due(items, shift + t), Timeout) == []
  {
    NearestIsMinimum(m.handlers);
    NothingDue(m.handlers, t, shift);
  }

  /** When the counter wraps, every handler is overdue, and none is called: only the counter changes. */
  lemma UpdateMisses(m: State, now: nat, ticks: nat)
    requires Inv(m) && m.handlers != [] && ticks < U32 <= m.ticks + ticks
    ensures Update(m, ticks) == m.(ticks := m.ticks + ticks - U32)
    ensures var ideal := Ideal(Lift(m, now), Updated(ticks));
            ideal.items == [] && ideal.log == m.log + Calls(Callbacks(m.handlers), Timeout)
    ensures Lift(Update(m, ticks), now + ticks) != Ideal(Lift(m, now), Updated(ticks))
  {
    NearestAtLeast(m.handlers, m.ticks);
    AllDue(m.handlers, m.ticks + ticks, now - m.ticks);
    WrapOnce(m.ticks + ticks, U32);
    hide Items, Alive, Expired, Pending, Due, Nearest, Callbacks, Calls;
    LiftIs(m, now);
    IdealUpdate(Lift(m, now), ticks);
    assert now - m.ticks + (m.ticks + ticks) == now + ticks;
    assert |Calls(Callbacks(m.handlers), Timeout)| > 0;
  }

  lemma {:induction false} AllDue(hs: seq<Handler>, ticks: nat, shift: int)
    requires forall i {:trigger hs[i]} :: 0 <= i < |hs| ==> hs[i].ticks <= ticks
    ensures Pending(Items(hs, shift), shift + ticks) == [] && Due(Items(hs, shift), shift + ticks) == Callbacks(hs)
  {
    hide *;
    if |hs| == 0 {
      NoneDue(hs, shift, shift + ticks);
    } else {
      var n := |hs| - 1;
      AllDue(hs[..n], ticks, shift);
      ItemsLast(hs, shift);
      DueLast(Items(hs, shift), shift + ticks);
      assert hs == hs[..n] + [hs[n]];
      CallbacksSnoc(hs[..n], hs[n]);
    }
  }

  lemma NoneDue(hs: seq<Handler>, shift: int, now: int)
    requires |hs| == 0
    ensures Pending(Items(hs, shift), now) == [] && Due(Items(hs, shift), now) == [] && Callbacks(hs) == []
  {}

  lemma DueLast(ds: seq<Deadline>, now: int)
    requires |ds| > 0 && ds[|ds| - 1].at <= now
    ensures Pending(ds, now) == Pending(ds[..|ds| - 1], now)
    ensures Due(ds, now) == Due(ds[..|ds| - 1], now) + [ds[|ds| - 1].callback]
  {}

  lemma {:induction false} NearestAtLeast(hs: seq<Handler>, low: nat)
    requires forall i :: 0 <= i < |hs| ==> low <= hs[i].ticks < U32
    ensures |hs| > 0 ==> low <= Nearest(hs)
  {
    NearestIsMinimum(hs);
    if |hs| > 0 {
      assert low <= hs[0].ticks <= MAX_TIMEOUT;
    }
  }

  lemma ClearExact(m: State, now: nat)
    ensures Lift(Clear(m), now) == Ideal(Lift(m, now), Cleared) && Inv(Clear(m))
  {
    hide Items, Callbacks, ItemCallbacks, Calls;
    assert Callbacks(m.handlers) == ItemCallbacks(Items(m.handlers, now - m.ticks));
  }

  /** An operation acts on the relative times as on absolute deadlines exactly when no 32-bit sum wraps. */
  lemma StepExact(m: State, now: nat, ev: Ev)
    requires Inv(m) && Sized(ev)
    ensures Lift(Step(m, ev), now + Elapsed(ev)) == Ideal(Lift(m, now), ev) <==> Fits(m, ev)
    ensures Fits(m, ev) ==> Inv(Step(m, ev))
  {
    match ev {
      case Added(_, _, _, _) => AddExact(m, now, ev);
      case Finished(key, code) => FinishExact(m, now, key, code);
      case Updated(ticks) => UpdateExact(m, now, ticks);
      case Cleared => ClearExact(m, now);
    }
  }

  // ----- whole runs -----

  function Run(evs: seq<Ev>): State {
    if |evs| == 0 then State([], MAX_TIMEOUT, 0, []) else Step(Run(evs[..|evs| - 1]), evs[|evs| - 1])
  }

  function IdealRun(evs: seq<Ev>): Table {
    if |evs| == 0 then Table(0, [], []) else Ideal(IdealRun(evs[..|evs| - 1]), evs[|evs| - 1])
  }

  predicate AllFit(evs: seq<Ev>) {
    |evs| > 0 ==>
      var before, ev := evs[..|evs| - 1], evs[|evs| - 1];
      AllFit(before) && Sized(ev) && Fits(Run(before), ev)
  }

  /** In every run without wrap-around the map is a table of absolute deadlines and makes the same calls. */
  lemma {:induction false} RunExact(evs: seq<Ev>)
    requires AllFit(evs)
    ensures Inv(Run(evs)) && Lift(Run(evs), IdealRun(evs).now) == IdealRun(evs)
  {
    hide *;
    if |evs| == 0 {
      RunStart(evs);
    } else {
      var before, ev := evs[..|evs| - 1], evs[|evs| - 1];
      RunUnfold(evs);
      RunExact(before);
      StepExact(Run(before), IdealRun(before).now, ev);
      Clock(IdealRun(before), ev);
    }
  }

  /** A reachable miss: the handler is held from the start, its time comes at the last update, and it is not called. */
  lemma MissedInRun(key: nat, callback: nat)
    ensures var evs := [Added(key, callback, MAX_TIMEOUT, true), Updated(0xFFFF_FFFE)];
            && AllFit(evs) && Run(evs).ticks == 0xFFFF_FFFE
            && Run(evs + [Updated(2)]) == State([Handler(key, callback, MAX_TIMEOUT)], MAX_TIMEOUT, 0, [])
            && IdealRun(evs + [Updated(2)]).log == [Call(callback, Timeout)]
  {
    var a, b, c := Added(key, callback, MAX_TIMEOUT, true), Updated(0xFFFF_FFFE), Updated(2);
    var evs := [a, b];
    assert [a][..0] == [] && evs[..1] == [a] && (evs + [c])[..2] == evs;
    RunStart([]);
    var h := Handler(key, callback, MAX_TIMEOUT);
    assert Run([a]) == State([h], MAX_TIMEOUT, 0, []);
    assert Run(evs) == State([h], MAX_TIMEOUT, 0xFFFF_FFFE, []);
    assert AllFit([a]) && AllFit(evs);
    RunExact(evs);
    assert IdealRun([a]).now == 0 && IdealRun(evs).now == 0xFFFF_FFFE;
    UpdateMisses(Run(evs), 0xFFFF_FFFE, 2);
    OneCall(h);
  }

  lemma OneCall(h: Handler)
    ensures Calls(Callbacks([h]), Timeout) == [Call(h.callback, Timeout)]
  {}

  lemma RunStart(evs: seq<Ev>)
    requires |evs| == 0
    ensures Inv(Run(evs)) && Lift(Run(evs), 0) == IdealRun(evs) && IdealRun(evs).now == 0 && Run(evs).ticks == 0
            && AllFit(evs)
  {}

  lemma RunUnfold(evs: seq<Ev>)
    requires |evs| > 0
    ensures var before, ev := evs[..|evs| - 1], evs[|evs| - 1];
            && Run(evs) == Step(Run(before), ev) && IdealRun(evs) == Ideal(IdealRun(before), ev)
            && (AllFit(evs) <==> AllFit(before) && Sized(ev) && Fits(Run(before), ev))
  {
    hide Step, Ideal, Sized, Fits;
  }

  lemma Clock(a: Table, ev: Ev)
    ensures Ideal(a, ev).now == a.now + Elapsed(ev) && Elapsed(ev) == if ev.Updated? then ev.ticks else 0
  {}

  /** When the tick counter last restarted: the table is empty since then, or something expired at that time. */
  function Origin(evs: seq<Ev>): nat {
    if |evs| == 0 then 0
    else
      var before, a := IdealRun(evs[..|evs| - 1]), IdealRun(evs);
      if a.items == [] || (evs[|evs| - 1].Updated? && a.items != before.items) then a.now else Origin(evs[..|evs| - 1])
  }

  /** The time since the last restart and the longest timeout together stay below 2^32 ticks. */
  predicate ShortSpans(evs: seq<Ev>, longest: nat) {
    |evs| > 0 ==>
      var before, ev := evs[..|evs| - 1], evs[|evs| - 1];
      && ShortSpans(before, longest) && IdealRun(evs).now - Origin(before) + longest < U32
      && (ev.Added? ==> ev.timeout <= longest)
  }

  /**
   The tick counter is the time since the last restart, and nothing wraps while this time plus the longest
   timeout stays below 2^32 ticks, however long the run is.
   */
  lemma {:induction false} ShortSpansFit(evs: seq<Ev>, longest: nat)
    requires ShortSpans(evs, longest)
    ensures AllFit(evs) && Origin(evs) <= IdealRun(evs).now && Run(evs).ticks == IdealRun(evs).now - Origin(evs)
  {
    hide *;
    if |evs| == 0 {
      RunStart(evs);
      NoOrigin(evs);
    } else {
      var before, ev := evs[..|evs| - 1], evs[|evs| - 1];
      SpansUnfold(evs, longest);
      RunUnfold(evs);
      Clock(IdealRun(before), ev);
      ShortSpansFit(before, longest);
      RunExact(before);
      SpanFits(Run(before), ev, longest);
      TicksAre(Run(before), IdealRun(before), ev);
    }
  }

  lemma NoOrigin(evs: seq<Ev>)
    requires |evs| == 0
    ensures Origin(evs) == 0 && IdealRun(evs).now == 0
  {}

  lemma SpansUnfold(evs: seq<Ev>, longest: nat)
    requires |evs| > 0 && ShortSpans(evs, longest)
    ensures var before, ev := evs[..|evs| - 1], evs[|evs| - 1];
            && ShortSpans(before, longest) && IdealRun(evs).now - Origin(before) + longest < U32
            && (ev.Added? ==> ev.timeout <= longest)
            && Origin(evs)
            == if IdealRun(evs).items == [] || (ev.Updated? && IdealRun(evs).items != IdealRun(before).items)
               then IdealRun(evs).now else Origin(before)
  {
    hide IdealRun;
  }

  lemma SpanFits(m: State, ev: Ev, longest: nat)
    requires m.ticks + Elapsed(ev) + longest < U32 && (ev.Added? ==> ev.timeout <= longest)
    ensures Sized(ev) && Fits(m, ev)
  {}

  /** The counter after an event, in terms of the table it stands for. */
  lemma TicksAre(m: State, a: Table, ev: Ev)
    requires Inv(m) && a == Lift(m, a.now) && Sized(ev) && Fits(m, ev)
    ensures var a' := Ideal(a, ev);
            Step(m, ev).ticks
            == if a'.items == [] || (ev.Updated? && a'.items != a.items) then 0 else m.ticks + Elapsed(ev)
  {
    StepExact(m, a.now, ev);
    var m', a' := Step(m, ev), Ideal(a, ev);
    LiftIs(m, a.now);
    LiftIs(m', a.now + Elapsed(ev));
    assert |a'.items| == |m'.handlers|;
    if a'.items != [] {
      match ev {
        case Added(_, _, _, _) =>
        case Finished(key, code) => FinishResult(m, key, code);
        case Updated(ticks) => UpdateTicksAre(m, a, ticks);
        case Cleared =>
      }
    }
  }

  lemma UpdateTicksAre(m: State, a: Table, ticks: nat)
    requires Inv(m) && a == Lift(m, a.now) && m.handlers != [] && m.ticks + ticks < U32
    ensures Update(m, ticks).ticks == if Ideal(a, Updated(ticks)).items != a.items then 0 else m.ticks + ticks
  {
    hide *;
    var t, shift := m.ticks + ticks, a.now - m.ticks;
    LiftIs(m, a.now);
    UpdateResult(m, ticks);
    IdealUpdate(a, ticks);
    assert shift + t == a.now + ticks;
    if t < m.timeoutTicks {
      Waits(m, t, shift);
    } else {
      var i := SomeExpired(m, t);
      assert a.items[i].at == m.handlers[i].ticks + shift;
      PendingDrops(a.items, a.now + ticks, i);
    }
  }

  lemma SomeExpired(m: State, t: nat) returns (i: nat)
    requires Inv(m) && m.handlers != [] && m.timeoutTicks <= t < U32
    ensures i < |m.handlers| && m.handlers[i].ticks <= t
  {
    NearestIsMinimum(m.handlers);
    hide Nearest;
    if Nearest(m.handlers) == MAX_TIMEOUT {
      i := 0;
    } else {
      i :| 0 <= i < |m.handlers| && m.handlers[i].ticks == Nearest(m.handlers);
    }
  }

  lemma {:induction false} PendingDrops(ds: seq<Deadline>, now: int, i: nat)
    requires i < |ds| && ds[i].at <= now
    ensures |Pending(ds, now)| < |ds|
  {
    PendingShort(ds[..|ds| - 1], now);
    if i < |ds| - 1 {
      PendingDrops(ds[..|ds| - 1], now, i);
    }
  }

  lemma {:induction false} PendingShort(ds: seq<Deadline>, now: int)
    ensures |Pending(ds, now)| <= |ds|
  {
    if |ds| > 0 {
      PendingShort(ds[..|ds| - 1], now);
    }
  }

  /** In particular nothing wraps while the whole run and its longest timeout stay below 2^32 ticks. */
  lemma {:induction false} ShortRunsFit(evs: seq<Ev>, longest: nat)
    requires IdealRun(evs).now + longest < U32
    requires forall i :: 0 <= i < |evs| && evs[i].Added? ==> evs[i].timeout <= longest
    ensures ShortSpans(evs, longest) && AllFit(evs) && Run(evs).ticks <= IdealRun(evs).now
  {
    hide *;
    ShortRunSpans(evs, longest);
    ShortSpansFit(evs, longest);
  }

  lemma {:induction false} ShortRunSpans(evs: seq<Ev>, longest: nat)
    requires IdealRun(evs).now + longest < U32
    requires forall i :: 0 <= i < |evs| && evs[i].Added? ==> evs[i].timeout <= longest
    ensures ShortSpans(evs, longest)
  {
    if |evs| > 0 {
      hide Origin, Ideal, Elapsed;
      Clock(IdealRun(evs[..|evs| - 1]), evs[|evs| - 1]);
      ShortRunSpans(evs[..|evs| - 1], longest);
    }
  }

  // ----- every handler is invoked exactly once -----

  /** The callbacks handed over in a run. */
  function AddedCallbacks(evs: seq<Ev>): seq<nat> {
    if |evs| == 0 then []
    else AddedCallbacks(evs[..|evs| - 1]) + (if evs[|evs| - 1].Added? then [evs[|evs| - 1].callback] else [])
  }

  function Called(log: seq<Call>): (cs: seq<nat>)
    ensures |cs| == |log|
  {
    seq(|log|, i requires 0 <= i < |log| => log[i].callback)
  }

  lemma CalledConcat(a: seq<Call>, b: seq<Call>)
    ensures Called(a + b) == Called(a) + Called(b)
  {}

  lemma CalledCalls(cs: seq<nat>, code: Code)
    ensures Called(Calls(cs, code)) == cs
  {}

  lemma CalledOne(callback: nat, code: Code)
    ensures Called([Call(callback, code)]) == [callback]
  {}

  lemma CallbacksConcat(a: seq<Handler>, b: seq<Handler>)
    ensures Callbacks(a + b) == Callbacks(a) + Callbacks(b)
    ensures |a| == 1 ==> Callbacks(a) == [a[0].callback]
    ensures |a| == 0 ==> Callbacks(a) == []
  {}

  lemma {:induction false} TakenApart(hs: seq<Handler>, key: nat)
    ensures multiset(Callbacks(Others(hs, key))) + multiset(Keyed(hs, key)) == multiset(Callbacks(hs))
  {
    hide *;
    if |hs| == 0 {
      NoCallbacks(hs, key, 0);
    } else {
      var front, h := hs[..|hs| - 1], hs[|hs| - 1];
      TakenApart(front, key);
      OthersLast(hs, key);
      OthersCallbacksLast(hs, key);
      MovesOver(Callbacks(Others(front, key)), Keyed(front, key), Callbacks(front), h.callback);
    }
  }

  lemma NoCallbacks(hs: seq<Handler>, key: nat, ticks: nat)
    requires |hs| == 0
    ensures Others(hs, key) == [] && Keyed(hs, key) == [] && Alive(hs, ticks) == [] && Expired(hs, ticks) == []
    ensures Callbacks(hs) == [] && Callbacks([]) == []
  {}

  lemma OthersLast(hs: seq<Handler>, key: nat)
    requires |hs| > 0
    ensures var front, h := hs[..|hs| - 1], hs[|hs| - 1];
            && Others(hs, key) == (if h.key == key then Others(front, key) else Others(front, key) + [h])
            && Keyed(hs, key) == (if h.key == key then Keyed(front, key) + [h.callback] else Keyed(front, key))
  {}

  lemma {:induction false} ExpiredApart(hs: seq<Handler>, ticks: nat)
    ensures multiset(Callbacks(Alive(hs, ticks))) + multiset(Expired(hs, ticks)) == multiset(Callbacks(hs))
  {
    hide *;
    if |hs| == 0 {
      NoCallbacks(hs, 0, ticks);
    } else {
      var front, h := hs[..|hs| - 1], hs[|hs| - 1];
      ExpiredApart(front, ticks);
      AliveLast(hs, ticks);
      AliveCallbacksLast(hs, ticks);
      MovesOver(Callbacks(Alive(front, ticks)), Expired(front, ticks), Callbacks(front), h.callback);
    }
  }

  lemma CallbacksSnoc(hs: seq<Handler>, h: Handler)
    ensures Callbacks(hs + [h]) == Callbacks(hs) + [h.callback]
  {
    hide *;
    CallbacksConcat(hs, [h]);
    CallbacksConcat([h], []);
  }

  lemma AliveCallbacksLast(hs: seq<Handler>, ticks: nat)
    requires |hs| > 0
    ensures var front, h := hs[..|hs| - 1], hs[|hs| - 1];
            && Callbacks(hs) == Callbacks(front) + [h.callback]
            && Callbacks(Alive(hs, ticks))
            == if ticks >= h.ticks then Callbacks(Alive(front, ticks))
               else Callbacks(Alive(front, ticks)) + [h.callback]
  {
    hide *;
    var front, h := hs[..|hs| - 1], hs[|hs| - 1];
    assert hs == front + [h];
    CallbacksSnoc(front, h);
    AliveLast(hs, ticks);
    if ticks < h.ticks {
      CallbacksSnoc(Alive(front, ticks), h.(ticks := h.ticks - ticks));
    }
  }

  lemma OthersCallbacksLast(hs: seq<Handler>, key: nat)
    requires |hs| > 0
    ensures var front, h := hs[..|hs| - 1], hs[|hs| - 1];
            && Callbacks(hs) == Callbacks(front) + [h.callback]
            && Callbacks(Others(hs, key))
            == (if h.key == key then Callbacks(Others(front, key)) else Callbacks(Others(front, key)) + [h.callback])
  {
    hide *;
    var front, h := hs[..|hs| - 1], hs[|hs| - 1];
    assert hs == front + [h];
    CallbacksSnoc(front, h);
    OthersLast(hs, key);
    CallbacksSnoc(Others(front, key), h);
  }

  lemma MovesOver(a: seq<nat>, b: seq<nat>, all: seq<nat>, c: nat)
    requires multiset(a) + multiset(b) == multiset(all)
    ensures multiset(a + [c]) + multiset(b) == multiset(all + [c])
    ensures multiset(a) + multiset(b + [c]) == multiset(all + [c])
  {}

  lemma AliveLast(hs: seq<Handler>, ticks: nat)
    requires |hs| > 0
    ensures var front, h := hs[..|hs| - 1], hs[|hs| - 1];
            && Alive(hs, ticks) == (if ticks >= h.ticks then Alive(front, ticks)
                 else Alive(front, ticks) + [h.(ticks := h.ticks - ticks)])
            && Expired(hs, ticks) == (if ticks >= h.ticks then Expired(front, ticks) + [h.callback]
                 else Expired(front, ticks))
  {}

  /** Callbacks made and callbacks still held. */
  function Accounted(m: State): multiset<nat> {
    multiset(Called(m.log)) + multiset(Callbacks(m.handlers))
  }

  lemma CalledFinish(taken: seq<nat>, code: Code)
    ensures Called(FinishCalls(taken, code)) == taken
  {
    hide Called, Calls;
    if |taken| > 0 {
      var n := |taken| - 1;
      assert taken == taken[..n] + [taken[n]];
      CalledCalls(taken[..n], Internal);
      CalledConcat(Calls(taken[..n], Internal), [Call(taken[n], code)]);
      CalledOne(taken[n], code);
    }
  }

  lemma StepKeepsAccount(m: State, ev: Ev)
    ensures Accounted(Step(m, ev)) == Accounted(m) + if ev.Added? then multiset{ev.callback} else multiset{}
  {
    hide Accounted, Add, Finish, Update, Clear;
    match ev {
      case Added(key, callback, timeout, memory) => AddKeepsAccount(m, key, callback, timeout, memory);
      case Finished(key, code) => FinishKeepsAccount(m, key, code);
      case Updated(ticks) => UpdateKeepsAccount(m, ticks);
      case Cleared => ClearKeepsAccount(m);
    }
  }

  lemma AddKeepsAccount(m: State, key: nat, callback: nat, timeout: nat, memory: bool)
    ensures Accounted(Add(m, key, callback, timeout, memory)) == Accounted(m) + multiset{callback}
  {
    hide Called, Callbacks;
    CallbacksSnoc(m.handlers, Handler(key, callback, (m.ticks + timeout) % U32));
    CalledConcat(m.log, [Call(callback, Internal)]);
    CalledOne(callback, Internal);
  }

  lemma FinishKeepsAccount(m: State, key: nat, code: Code)
    ensures Accounted(Finish(m, key, code)) == Accounted(m)
  {
    hide Called, Callbacks, Others, Keyed, Finish, FinishCalls, Nearest;
    TakenApart(m.handlers, key);
    FinishResult(m, key, code);
    CalledConcat(m.log, FinishCalls(Keyed(m.handlers, key), code));
    CalledFinish(Keyed(m.handlers, key), code);
  }

  lemma UpdateKeepsAccount(m: State, ticks: nat)
    ensures Accounted(Update(m, ticks)) == Accounted(m)
  {
    hide Called, Callbacks, Alive, Expired, Calls, Nearest;
    var now := (m.ticks + ticks) % U32;
    ExpiredApart(m.handlers, now);
    CalledConcat(m.log, Calls(Expired(m.handlers, now), Timeout));
    CalledCalls(Expired(m.handlers, now), Timeout);
  }

  lemma ClearKeepsAccount(m: State)
    ensures Accounted(Clear(m)) == Accounted(m)
  {
    hide Called, Callbacks, Calls;
    CalledConcat(m.log, Calls(Callbacks(m.handlers), Aborted));
    CalledCalls(Callbacks(m.handlers), Aborted);
    CallbacksConcat([], []);
  }

  /** In every run each handler handed over is either still held, once, or has been invoked, once. */
  lemma {:induction false} Conservation(evs: seq<Ev>)
    ensures Accounted(Run(evs)) == multiset(AddedCallbacks(evs))
  {
    if |evs| == 0 {
      assert Accounted(State([], MAX_TIMEOUT, 0, [])) == multiset{};
    } else {
      hide Step, Accounted;
      Conservation(evs[..|evs| - 1]);
      StepKeepsAccount(Run(evs[..|evs| - 1]), evs[|evs| - 1]);
    }
  }

  /** Destroying the map invokes what is left. */
  function Destroyed(m: State): seq<Call> {
    m.log + Calls(Callbacks(m.handlers), Internal)
  }

  /** By the end of the map's life every handler handed over has been invoked exactly once. */
  lemma ExactlyOnce(evs: seq<Ev>)
    ensures multiset(Called(Destroyed(Run(evs)))) == multiset(AddedCallbacks(evs))
  {
    var m := Run(evs);
    Conservation(evs);
    CalledConcat(m.log, Calls(Callbacks(m.handlers), Internal));
    CalledCalls(Callbacks(m.handlers), Internal);
  }

  // ----- a handler times out at the first update that reaches its deadline -----

  /** Nothing takes handlers with this key out. */
  predicate Leaves(evs: seq<Ev>, key: nat) {
    forall i :: 0 <= i < |evs| ==> evs[i] != Cleared && (evs[i].Finished? ==> evs[i].key != key)
  }

  lemma {:induction false} StaysPending(ds: seq<Deadline>, now: int, d: Deadline)
    ensures d in Pending(ds, now) <==> d in ds && now < d.at
    ensures d in ds && now >= d.at ==> d.callback in Due(ds, now)
  {
    if |ds| > 0 {
      StaysPending(ds[..|ds| - 1], now, d);
    }
  }

  lemma {:induction false} StaysOther(ds: seq<Deadline>, key: nat, d: Deadline)
    requires d in ds && d.key != key
    ensures d in OtherItems(ds, key)
  {
    if d != ds[|ds| - 1] {
      StaysOther(ds[..|ds| - 1], key, d);
    }
  }

  /** One event that leaves the key alone keeps the item, while the clock is before its deadline. */
  lemma HeldStep(a: Table, ev: Ev, d: Deadline)
    requires d in a.items && ev != Cleared && (ev.Finished? ==> ev.key != d.key)
             && (ev.Updated? ==> a.now + ev.ticks < d.at)
    ensures d in Ideal(a, ev).items
  {
    hide OtherItems, Pending;
    match ev {
      case Finished(other, _) => StaysOther(a.items, other, d);
      case Updated(ticks) => StaysPending(a.items, a.now + ticks, d);
      case Added(_, _, _, _) =>
    }
  }

  lemma IdealAdd(a: Table, key: nat, callback: nat, timeout: nat)
    ensures Deadline(key, callback, a.now + timeout) in Ideal(a, Added(key, callback, timeout, true)).items
  {
    var items := Ideal(a, Added(key, callback, timeout, true)).items;
    assert items[|a.items|] == Deadline(key, callback, a.now + timeout);
  }

  /** A handler nobody takes out is still held as long as the clock is before its deadline. */
  lemma {:induction false} HeldUntilDue(before: seq<Ev>, mid: seq<Ev>, key: nat, callback: nat, timeout: nat)
    requires Leaves(mid, key)
    requires mid == []
          || IdealRun(before + [Added(key, callback, timeout, true)] + mid).now < IdealRun(before).now + timeout
    ensures Deadline(key, callback, IdealRun(before).now + timeout)
         in IdealRun(before + [Added(key, callback, timeout, true)] + mid).items
    decreases |mid|
  {
    hide *;
    var start := before + [Added(key, callback, timeout, true)];
    if mid == [] {
      assert start + mid == start && start[..|start| - 1] == before;
      RunUnfold(start);
      IdealAdd(IdealRun(before), key, callback, timeout);
    } else {
      var front, ev := mid[..|mid| - 1], mid[|mid| - 1];
      LeavesFront(mid, key);
      assert (start + mid)[..|start + mid| - 1] == start + front;
      RunUnfold(start + mid);
      Clock(IdealRun(start + front), ev);
      HeldUntilDue(before, front, key, callback, timeout);
      HeldStep(IdealRun(start + front), ev, Deadline(key, callback, IdealRun(before).now + timeout));
    }
  }

  lemma LeavesFront(evs: seq<Ev>, key: nat)
    requires evs != [] && Leaves(evs, key)
    ensures Leaves(evs[..|evs| - 1], key)
    ensures var ev := evs[|evs| - 1]; ev != Cleared && (ev.Finished? ==> ev.key != key)
  {}

  /** The history of a handler that nobody takes out. */
  function History(before: seq<Ev>, key: nat, callback: nat, timeout: nat, mid: seq<Ev>): seq<Ev> {
    before + [Added(key, callback, timeout, true)] + mid
  }

  /** While its deadline has not been reached, a handler with a callback of its own has not been invoked. */
  lemma NotBefore(before: seq<Ev>, key: nat, callback: nat, timeout: nat, mid: seq<Ev>)
    requires var evs := History(before, key, callback, timeout, mid);
             && AllFit(evs) && Leaves(mid, key) && multiset(AddedCallbacks(evs))[callback] == 1
             && (mid == [] || IdealRun(evs).now < IdealRun(before).now + timeout)
    ensures var evs := History(before, key, callback, timeout, mid);
            && callback !in Called(Run(evs).log)
            && Deadline(key, callback, IdealRun(before).now + timeout) in IdealRun(evs).items
  {
    var evs := History(before, key, callback, timeout, mid);
    hide AllFit, Leaves, AddedCallbacks, IdealRun, Run, Called, Callbacks, Items, Inv;
    HeldUntilDue(before, mid, key, callback, timeout);
    RunExact(evs);
    ItemHeld(Run(evs).handlers, IdealRun(evs).now - Run(evs).ticks,
        Deadline(key, callback, IdealRun(before).now + timeout));
    Conservation(evs);
    assert multiset(Callbacks(Run(evs).handlers))[callback] >= 1;
    assert multiset(Called(Run(evs).log))[callback] == 0;
  }

  lemma ItemHeld(hs: seq<Handler>, shift: int, d: Deadline)
    requires d in Items(hs, shift)
    ensures d.callback in Callbacks(hs)
  {
    hide Items, Callbacks;
    var i :| 0 <= i < |hs| && Items(hs, shift)[i] == d;
    assert Callbacks(hs)[i] == d.callback;
  }

  /**
   The first update whose accumulated time reaches the deadline invokes the handler with a timeout, and no
   earlier one.
   */
  lemma FiresOnTime(before: seq<Ev>, key: nat, callback: nat, timeout: nat, mid: seq<Ev>, ticks: nat)
    requires var evs := History(before, key, callback, timeout, mid);
             && AllFit(evs + [Updated(ticks)]) && Leaves(mid, key) && multiset(AddedCallbacks(evs))[callback] == 1
             && (mid == [] || IdealRun(evs).now < IdealRun(before).now + timeout)
    ensures var evs := History(before, key, callback, timeout, mid);
            var calls := Run(evs + [Updated(ticks)]).log;
            && callback !in Called(Run(evs).log)
            && (IdealRun(evs).now + ticks >= IdealRun(before).now + timeout ==> Call(callback, Timeout) in calls)
            && (IdealRun(evs).now + ticks < IdealRun(before).now + timeout ==> callback !in Called(calls))
  {
    hide *;
    var evs, u := History(before, key, callback, timeout, mid), Updated(ticks);
    var d := Deadline(key, callback, IdealRun(before).now + timeout);
    Extended(evs, u);
    LeavesUpdate(mid, key, ticks);
    NotBefore(before, key, callback, timeout, mid);
    RunExact(evs + [u]);
    LiftIs(Run(evs + [u]), IdealRun(evs + [u]).now);
    IdealUpdate(IdealRun(evs), ticks);
    if IdealRun(evs).now + ticks >= d.at {
      StaysPending(IdealRun(evs).items, IdealRun(evs).now + ticks, d);
      InCalls(Due(IdealRun(evs).items, IdealRun(evs).now + ticks), callback);
    } else {
      HistoryGrows(before, key, callback, timeout, mid, u);
      NotBefore(before, key, callback, timeout, mid + [u]);
    }
  }

  lemma HistoryGrows(before: seq<Ev>, key: nat, callback: nat, timeout: nat, mid: seq<Ev>, u: Ev)
    ensures History(before, key, callback, timeout, mid + [u]) == History(before, key, callback, timeout, mid) + [u]
  {}

  lemma Extended(evs: seq<Ev>, u: Ev)
    requires u.Updated?
    ensures AllFit(evs + [u]) ==> AllFit(evs)
    ensures IdealRun(evs + [u]) == Ideal(IdealRun(evs), u) && AddedCallbacks(evs + [u]) == AddedCallbacks(evs)
  {
    hide Ideal;
    assert (evs + [u])[..|evs|] == evs;
  }

  lemma LeavesUpdate(mid: seq<Ev>, key: nat, ticks: nat)
    requires Leaves(mid, key)
    ensures Leaves(mid + [Updated(ticks)], key)
  {}

  lemma InCalls(callbacks: seq<nat>, callback: nat)
    requires callback in callbacks
    ensures Call(callback, Timeout) in Calls(callbacks, Timeout)
  {
    var i :| 0 <= i < |callbacks| && callbacks[i] == callback;
    assert Calls(callbacks, Timeout)[i] == Call(callback, Timeout);
  }

  // ----- the class -----

  class CompletionHandlerMap {
    const handlers: Vector<Handler>
    var timeoutTicks: nat        // nearest expiration time
    var ticks: nat
    var log: seq<Call>           // the invocations made, in order

    /** The vector is in order; that Inv holds as well, while no sum wraps, is shown by RunExact. */
    ghost predicate Valid()
      reads this, handlers, handlers.data
    {
      handlers.Valid()
    }

    ghost function View(): State
      requires Valid()
      reads this, handlers, handlers.data
    {
      State(handlers.View(), timeoutTicks, ticks, log)
    }

    constructor ()
      ensures Valid() && Inv(View()) && View() == State([], MAX_TIMEOUT, 0, []) && fresh(handlers)
              && fresh(handlers.data)
    {
      handlers := new Vector<Handler>();
      timeoutTicks, ticks, log := MAX_TIMEOUT, 0, [];
    }

    /** setResult or setError on a handler in a local variable, or its destruction: invokes what is there. */
    method Pass(h: CompletionHandler, code: Code) returns (rest: CompletionHandler)
      modifies this`log
      ensures log == old(log) + Invoke(h, code) && rest == EMPTY
    {
      if h.callback.Some? {
        log := log + [Call(h.callback.value, code)];
      }
      rest := EMPTY;
    }

    method AddHandler(key: nat, handler: CompletionHandler, timeout: nat, memory: bool) returns (ok: bool)
      requires Valid()
      modifies this, handlers, handlers.data
      ensures Valid() && (handlers.data == old(handlers.data) || fresh(handlers.data))
      ensures handler.callback == None ==> !ok && View() == old(View())
      ensures handler.callback.Some? ==>
                && ok == (memory || old(handlers.size < handlers.data.Length))
                && View() == Add(old(View()), key, handler.callback.value, timeout, ok)
    {
      if handler.callback.Some? {
        var t := (ticks + timeout) % U32;
        var stored := handlers.Append(Handler(key, handler.callback.value, t), memory);
        if stored {
          if t < timeoutTicks {
            timeoutTicks := t;
          }
          return true;
        }
        var _ := Pass(handler, Internal);
      }
      return false;
    }

    /** Takes the handlers with this key out; the result is the last of them. */
    method TakeHandler(key: nat) returns (handler: CompletionHandler)
      requires Valid()
      modifies this, handlers, handlers.data
      ensures Valid() && handlers.data == old(handlers.data)
      ensures (View(), handler) == Take(old(View()), key)
    {
      hide Taking, Take, Inv, Elements, Removed;
      ghost var m, j := View(), 0;
      handler := EMPTY;
      timeoutTicks := MAX_TIMEOUT;
      var i: nat := 0;
      TakingStart(m, key);
      while i < handlers.Size()
        invariant Valid() && handlers.data == old(handlers.data) && j <= |m.handlers|
        invariant Taking(m, key, j, handlers.View(), i, timeoutTicks, ticks, log, handler)
        decreases |m.handlers| - j
      {
        TakingIn(m, key, j, handlers.View(), i, timeoutTicks, ticks, log, handler);
        i, handler := TakeOne(m, j, key, i, handler);
        j := j + 1;
      }
      TakingEnd(m, key, j, handlers.View(), i, timeoutTicks, ticks, log, handler);
    }

    /** One round: the handler at position i replaces the one taken before it, or it stays. */
    method TakeOne(ghost m: State, ghost j: nat, key: nat, i: nat, taken: CompletionHandler)
        returns (next: nat, handler: CompletionHandler)
      requires Valid() && i < |handlers.View()|
      requires Taking(m, key, j, handlers.View(), i, timeoutTicks, ticks, log, taken)
      modifies this, handlers, handlers.data
      ensures Valid() && handlers.data == old(handlers.data)
      ensures Taking(m, key, j + 1, handlers.View(), next, timeoutTicks, ticks, log, handler)
    {
      hide Taking, Take, Inv, Elements, Removed;
      TakingStep(m, key, j, handlers.View(), i, timeoutTicks, ticks, log, taken);
      var h := handlers.At(i);
      if h.key == key {
        var last := handlers.TakeAt(i);
        var _ := Pass(taken, Internal);
        next, handler := i, CompletionHandler(Some(last.callback));
        if handlers.Size() == 0 {
          ticks := 0;
        }
      } else {
        if h.ticks < timeoutTicks {
          timeoutTicks := h.ticks;
        }
        next, handler := i + 1, taken;
      }
    }

    /** setResult and setError by key. */
    method FinishHandler(key: nat, code: Code)
      requires Valid()
      modifies this, handlers, handlers.data
      ensures Valid() && handlers.data == old(handlers.data)
      ensures View() == Finish(old(View()), key, code)
    {
      var h := TakeHandler(key);
      var _ := Pass(h, code);
    }

    /** Lets time pass; the result is the number of handlers that timed out. */
    method UpdateTicks(elapsed: nat) returns (count: nat)
      requires Valid()
      modifies this, handlers, handlers.data
      ensures Valid() && handlers.data == old(handlers.data)
      ensures View() == Update(old(View()), elapsed)
      ensures |log| == |old(log)| + count
    {
      hide Update, Alive, Expired, Nearest, Calls, Inv, Elements;
      ghost var m := View();
      UpdateCases(m, elapsed);
      if handlers.Size() > 0 {
        ticks := (ticks + elapsed) % U32;
        if ticks >= timeoutTicks {
          count := Expire(m);
          ticks := 0;
          return;
        }
      }
      return 0;
    }

    /** The expiry loop, which subtracts the tick count from what is left. */
    method Expire(ghost m: State) returns (count: nat)
      requires Valid() && handlers.View() == m.handlers != [] && log == m.log
      modifies this`timeoutTicks, this`log, handlers, handlers.data
      ensures Valid() && handlers.data == old(handlers.data)
      ensures handlers.View() == Alive(m.handlers, ticks) && timeoutTicks == Nearest(handlers.View())
      ensures log == m.log + Calls(Expired(m.handlers, ticks), Timeout) && |log| == |m.log| + count
    {
      hide Expiring, Alive, Expired, Nearest, Calls, Inv, Elements, Removed;
      ghost var j := 0;
      timeoutTicks, count := MAX_TIMEOUT, 0;
      var i: nat := 0;
      ExpiringStart(m, ticks);
      while true
        invariant Valid() && handlers.data == old(handlers.data) && j < |m.handlers|
        invariant Expiring(m, ticks, j, handlers.View(), i, timeoutTicks, log, count)
        decreases |m.handlers| - j
      {
        i, count := ExpireOne(m, j, i, count);
        j := j + 1;
        ExpiringSize(m, ticks, j, handlers.View(), i, timeoutTicks, log, count);
        if !(i < handlers.Size()) {
          break;
        }
      }
      ExpiringEnd(m, ticks, j, handlers.View(), i, timeoutTicks, log, count);
    }

    /** One round: the handler at position i times out, or its time is moved to the new origin. */
    method ExpireOne(ghost m: State, ghost j: nat, i: nat, count: nat) returns (next: nat, total: nat)
      requires Valid() && j < |m.handlers| && Expiring(m, ticks, j, handlers.View(), i, timeoutTicks, log, count)
      modifies this`timeoutTicks, this`log, handlers, handlers.data
      ensures Valid() && handlers.data == old(handlers.data)
      ensures Expiring(m, ticks, j + 1, handlers.View(), next, timeoutTicks, log, total)
    {
      hide Expiring, Alive, Expired, Nearest, Calls, Inv, Elements, Removed;
      ExpiringStep(m, ticks, j, handlers.View(), i, timeoutTicks, log, count);
      var h := handlers.At(i);
      if ticks >= h.ticks {
        var handler := handlers.TakeAt(i);
        var _ := Pass(CompletionHandler(Some(handler.callback)), Timeout);
        next, total := i, count + 1;
      } else {
        handlers.Put(i, h.(ticks := h.ticks - ticks));
        if h.ticks - ticks < timeoutTicks {
          timeoutTicks := h.ticks - ticks;
        }
        next, total := i + 1, count;
      }
    }

    /** Aborts all handlers. */
    method ClearAll()
      requires Valid()
      modifies this, handlers, handlers.data
      ensures Valid() && handlers.data == old(handlers.data)
      ensures View() == Clear(old(View()))
    {
      PassAll(Aborted);
      handlers.Clear();
      timeoutTicks, ticks := MAX_TIMEOUT, 0;
    }

    method PassAll(code: Code)
      requires Valid()
      modifies this`log
      ensures log == old(log) + Calls(Callbacks(handlers.View()), code)
    {
      hide Callbacks;
      ghost var cs := Callbacks(handlers.View());
      NoneCalled(cs, code);
      for i := 0 to handlers.size
        invariant log == old(log) + Calls(cs[..i], code)
      {
        CalledNext(cs, i, code);
        var _ := Pass(CompletionHandler(Some(handlers.At(i).callback)), code);
      }
      assert cs[..handlers.size] == cs;
    }

    /** The end of the map's life. */
    method Destroy()
      requires Valid()
      modifies this`log
      ensures log == Destroyed(old(View()))
    {
      PassAll(Internal);
    }
  }

  lemma NoneCalled(cs: seq<nat>, code: Code)
    ensures cs[..0] == [] && Calls([], code) == []
  {}

  lemma CalledNext(cs: seq<nat>, i: nat, code: Code)
    requires i < |cs|
    ensures Calls(cs[..i + 1], code) == Calls(cs[..i], code) + Invoke(CompletionHandler(Some(cs[i])), code)
  {}

  // ----- the loops -----

  /** takeHandler after j of the original handlers: the kept ones in front, the others still behind. */
  ghost predicate Taking(m: State, key: nat, j: nat, hs: seq<Handler>, i: nat, timeoutTicks: nat, ticks: nat,
                         log: seq<Call>, handler: CompletionHandler)
  {
    j <= |m.handlers| &&
    var kept, taken := Others(m.handlers[..j], key), Keyed(m.handlers[..j], key);
    && i == |kept| && hs == kept + m.handlers[j..] && timeoutTicks == Nearest(kept)
    && ticks == (if |taken| > 0 && |hs| == 0 then 0 else m.ticks)
    && log == m.log + (if |taken| == 0 then [] else Calls(taken[..|taken| - 1], Internal))
    && handler == (if |taken| == 0 then EMPTY else CompletionHandler(Some(taken[|taken| - 1])))
  }

  lemma TakingStart(m: State, key: nat)
    ensures Taking(m, key, 0, m.handlers, 0, MAX_TIMEOUT, m.ticks, m.log, EMPTY)
  {
    assert [] + m.handlers[0..] == m.handlers && m.log + [] == m.log;
  }

  lemma TakingIn(m: State, key: nat, j: nat, hs: seq<Handler>, i: nat, timeoutTicks: nat, ticks: nat, log: seq<Call>,
                 handler: CompletionHandler)
    requires Taking(m, key, j, hs, i, timeoutTicks, ticks, log, handler) && i < |hs|
    ensures j < |m.handlers|
  {
    hide Others, Keyed, Nearest, Calls;
  }

  lemma TakingStep(m: State, key: nat, j: nat, hs: seq<Handler>, i: nat, timeoutTicks: nat, ticks: nat, log: seq<Call>,
                   handler: CompletionHandler)
    requires Taking(m, key, j, hs, i, timeoutTicks, ticks, log, handler) && i < |hs|
    ensures j < |m.handlers|
    ensures hs[i].key == key ==>
              Taking(m, key, j + 1, Removed(hs, i), i, timeoutTicks, if |hs| == 1 then 0 else ticks,
                     log + Invoke(handler, Internal), CompletionHandler(Some(hs[i].callback)))
    ensures hs[i].key != key ==> Taking(m, key, j + 1, hs, i + 1, Min(hs[i].ticks, timeoutTicks), ticks, log, handler)
  {
    hide Others, Keyed, Nearest, Calls, Invoke, Removed;
    var front, h := m.handlers[..j], m.handlers[j];
    var kept, taken := Others(front, key), Keyed(front, key);
    OthersNext(m.handlers, j, key);
    Behind(kept, m.handlers, j);
    NearestLast(kept, h);
    CallsLast(m.log, taken);
    if |taken| == 0 {
      assert m.log + [] == m.log;
    }
  }

  lemma OthersNext(hs: seq<Handler>, j: nat, key: nat)
    requires j < |hs|
    ensures var front, h := hs[..j], hs[j];
            && Others(hs[..j + 1], key) == (if h.key == key then Others(front, key) else Others(front, key) + [h])
            && Keyed(hs[..j + 1], key) == (if h.key == key then Keyed(front, key) + [h.callback] else Keyed(front, key))
  {
    hide Others, Keyed;
    assert hs[..j + 1][..j] == hs[..j];
    OthersLast(hs[..j + 1], key);
  }

  lemma AliveNext(hs: seq<Handler>, j: nat, ticks: nat)
    requires j < |hs|
    ensures var front, h := hs[..j], hs[j];
            && Alive(hs[..j + 1], ticks) == (if ticks >= h.ticks then Alive(front, ticks)
                 else Alive(front, ticks) + [h.(ticks := h.ticks - ticks)])
            && Expired(hs[..j + 1], ticks)
               == (if ticks >= h.ticks then Expired(front, ticks) + [h.callback] else Expired(front, ticks))
  {
    hide Alive, Expired;
    assert hs[..j + 1][..j] == hs[..j];
    AliveLast(hs[..j + 1], ticks);
  }

  /** The element behind the kept ones is the next one; it is removed, kept or kept in another form. */
  lemma Behind(kept: seq<Handler>, all: seq<Handler>, j: nat)
    requires j < |all|
    ensures var hs := kept + all[j..];
            && |hs| > |kept| && hs[|kept|] == all[j] && (|hs| == 1 <==> |kept| == 0 && |all| == j + 1)
            && Removed(hs, |kept|) == kept + all[j + 1..]
            && hs == (kept + [all[j]]) + all[j + 1..]
            && forall h :: hs[|kept| := h] == (kept + [h]) + all[j + 1..]
  {
    var hs := kept + all[j..];
    assert all[j..] == [all[j]] + all[j + 1..];
    forall h
      ensures hs[|kept| := h] == (kept + [h]) + all[j + 1..]
    {}
  }

  lemma NearestLast(hs: seq<Handler>, h: Handler)
    ensures Nearest(hs + [h]) == Min(h.ticks, Nearest(hs))
  {
    assert (hs + [h])[..|hs|] == hs;
  }

  lemma CallsLast(log: seq<Call>, taken: seq<nat>)
    ensures log + (if |taken| == 0 then [] else Calls(taken[..|taken| - 1], Internal))
                + Invoke(if |taken| == 0 then EMPTY else CompletionHandler(Some(taken[|taken| - 1])), Internal)
         == log + Calls(taken, Internal)
  {
    if |taken| > 0 {
      var n := |taken| - 1;
      CalledNext(taken, n, Internal);
      assert taken[..n + 1] == taken;
      assert log + (Calls(taken[..n], Internal) + [Call(taken[n], Internal)])
             == log + Calls(taken[..n], Internal) + [Call(taken[n], Internal)];
    }
  }

  lemma TakingEnd(m: State, key: nat, j: nat, hs: seq<Handler>, i: nat, timeoutTicks: nat, ticks: nat, log: seq<Call>,
                  handler: CompletionHandler)
    requires Taking(m, key, j, hs, i, timeoutTicks, ticks, log, handler) && i >= |hs|
    ensures (State(hs, timeoutTicks, ticks, log), handler) == Take(m, key)
  {
    hide Others, Keyed, Nearest, Calls;
    assert j == |m.handlers| && m.handlers[..j] == m.handlers && hs == Others(m.handlers, key);
    assert m.log + [] == m.log;
  }

  /** The expiry loop after j of the original handlers. */
  ghost predicate Expiring(m: State, ticks: nat, j: nat, hs: seq<Handler>, i: nat, timeoutTicks: nat, log: seq<Call>,
                           count: nat) {
    j <= |m.handlers| &&
    var kept, gone := Alive(m.handlers[..j], ticks), Expired(m.handlers[..j], ticks);
    && i == |kept| && hs == kept + m.handlers[j..] && timeoutTicks == Nearest(kept)
    && log == m.log + Calls(gone, Timeout) && count == |gone|
  }

  lemma ExpiringStart(m: State, ticks: nat)
    ensures Expiring(m, ticks, 0, m.handlers, 0, MAX_TIMEOUT, m.log, 0)
  {
    assert [] + m.handlers[0..] == m.handlers;
    NoneCalled([], Timeout);
    assert m.log + [] == m.log;
  }

  lemma ExpiringStep(m: State, ticks: nat, j: nat, hs: seq<Handler>, i: nat, timeoutTicks: nat, log: seq<Call>,
                     count: nat)
    requires Expiring(m, ticks, j, hs, i, timeoutTicks, log, count) && j < |m.handlers|
    ensures i < |hs|
    ensures ticks >= hs[i].ticks ==>
              Expiring(m, ticks, j + 1, Removed(hs, i), i, timeoutTicks,
                       log + Invoke(CompletionHandler(Some(hs[i].callback)), Timeout), count + 1)
    ensures ticks < hs[i].ticks ==>
              var h := hs[i].(ticks := hs[i].ticks - ticks);
              Expiring(m, ticks, j + 1, hs[i := h], i + 1, Min(h.ticks, timeoutTicks), log, count)
  {
    hide Alive, Expired, Nearest, Calls, Invoke, Removed;
    var front, h := m.handlers[..j], m.handlers[j];
    var kept, gone := Alive(front, ticks), Expired(front, ticks);
    AliveNext(m.handlers, j, ticks);
    Behind(kept, m.handlers, j);
    if ticks >= h.ticks {
      OneMoreCall(m.log, gone, h.callback);
    } else {
      NearestLast(kept, h.(ticks := h.ticks - ticks));
    }
  }

  lemma OneMoreCall(log: seq<Call>, gone: seq<nat>, callback: nat)
    ensures log + Calls(gone, Timeout) + Invoke(CompletionHandler(Some(callback)), Timeout)
            == log + Calls(gone + [callback], Timeout)
  {
    var cs := gone + [callback];
    CalledNext(cs, |gone|, Timeout);
    assert cs[..|gone|] == gone && cs[..|gone| + 1] == cs;
    assert log + (Calls(gone, Timeout) + [Call(callback, Timeout)])
           == log + Calls(gone, Timeout) + [Call(callback, Timeout)];
  }

  lemma ExpiringSize(m: State, ticks: nat, j: nat, hs: seq<Handler>, i: nat, timeoutTicks: nat, log: seq<Call>,
                     count: nat)
    requires Expiring(m, ticks, j, hs, i, timeoutTicks, log, count)
    ensures i < |hs| <==> j < |m.handlers|
    ensures j <= |m.handlers|
  {
    hide Alive, Expired, Nearest, Calls;
  }

  lemma ExpiringEnd(m: State, ticks: nat, j: nat, hs: seq<Handler>, i: nat, timeoutTicks: nat, log: seq<Call>,
                    count: nat)
    requires Expiring(m, ticks, j, hs, i, timeoutTicks, log, count) && i >= |hs|
    ensures hs == Alive(m.handlers, ticks) && timeoutTicks == Nearest(hs)
    ensures log == m.log + Calls(Expired(m.handlers, ticks), Timeout) && |log| == |m.log| + count
  {
    hide Alive, Expired, Nearest, Calls;
    assert j == |m.handlers| && m.handlers[..j] == m.handlers && hs == Alive(m.handlers, ticks);
  }

  lemma UpdateCases(m: State, elapsed: nat)
    ensures m.handlers == [] ==> Update(m, elapsed) == m
    ensures m.handlers != [] ==>
              var now := (m.ticks + elapsed) % U32;
              && (now < m.timeoutTicks ==> Update(m, elapsed) == m.(ticks := now))
              && (now >= m.timeoutTicks ==>
                    Update(m, elapsed) == State(Alive(m.handlers, now), Nearest(Alive(m.handlers, now)), 0,
                                                m.log + Calls(Expired(m.handlers, now), Timeout)))
  {
    hide Alive, Expired, Nearest, Calls;
  }
}
