/** The message store as the library keeps it: a singly linked list of heap-allocated messages. */
module CoapStore {
  import opened Lists
  import opened Octet
  import opened Coap

  class CoAPMessage {
    var next: CoAPMessage?
    var timeout: nat              // 32-bit time of the next transmission or of expiry
    const id: nat
    var transmitCount: nat
    var sendTime: nat
    const data: seq<byte>
    ghost var due: nat            // history: the true deadline
    ghost var serial: nat         // history: when the message was stored

    /** A confirmable message whose first transmission is now. */
    constructor Transmitted(id: nat, data: seq<byte>, time: nat, ack: nat, rnd: nat, ghost trueNow: nat,
                            ghost serial: nat)
      requires TypeOf(data) == CON && time == trueNow % U32
      ensures next == null && |this.data| > 0 && View() == Coap.Fresh(id, data, trueNow, ack, rnd, serial)
    {
      this.id, this.data, this.serial := id, data, serial;
      next, timeout, transmitCount, sendTime, due := null, 0, 0, time, 0;
      new;
      var _ := PrepareRetransmit(time, ack, rnd, trueNow);
    }

    /** A message that is only kept, until the given wait is over. */
    constructor Expiring(id: nat, data: seq<byte>, time: nat, wait: nat, ghost trueNow: nat, ghost serial: nat)
      requires time == trueNow % U32
      ensures next == null && this.data == data && View() == Coap.Expiring(id, data, trueNow, wait, serial)
    {
      this.id, this.data, this.serial := id, data, serial;
      next, timeout, transmitCount, sendTime, due := null, 0, 0, 0, 0;
      new;
      WrapSum(trueNow, wait);
      SetExpiration((time + wait) % U32, trueNow + wait);
    }

    ghost function View(): Entry
      reads this`timeout, this`transmitCount, this`sendTime, this`due, this`serial
    {
      Entry(id, timeout, transmitCount, data, sendTime, due, serial)
    }

    /** Schedules the next transmission; false when the message must not be sent again. */
    method PrepareRetransmit(now: nat, ack: nat, rnd: nat, ghost trueNow: nat) returns (resend: bool)
      requires |data| > 0 && now == trueNow % U32
      modifies this`timeout, this`transmitCount, this`due
      ensures View() == Prepare(old(View()), trueNow, ack, rnd)
      ensures resend == MayResend(old(View()))
    {
      if TypeBits(data[0]) == CON {
        var t := TransmitTimeout(ack, transmitCount, rnd);
        WrapSum(trueNow, t);
        timeout := (now + t) % U32;
        due := trueNow + t;
        transmitCount := transmitCount + 1;
        return transmitCount <= MAX_RETRANSMIT + 1;
      }
      return false;
    }

    /** Keeps the message until the given time, without sending it. */
    method SetExpiration(time: nat, ghost trueTime: nat)
      requires time == trueTime % U32
      modifies this`timeout, this`transmitCount, this`due
      ensures View() == old(View()).(timeout := time, count := MAX_RETRANSMIT + 2, due := trueTime)
    {
      timeout, transmitCount, due := time, MAX_RETRANSMIT + 2, trueTime;
    }
  }

  lemma WrapSum(a: nat, b: nat)
    ensures (a % U32 + b) % U32 == (a + b) % U32
  {}

  class MessageStore {
    var head: CoAPMessage?
    ghost var list: seq<CoAPMessage>

    ghost predicate Valid()
      reads this, list`next
    {
      head == At(0) && Distinct(list) && NonEmpty(list) && Linked(list)
    }

    ghost function At(i: nat): CoAPMessage?
      reads this
    {
      if i < |list| then list[i] else null
    }

    ghost function Prev(i: nat): CoAPMessage?
      requires i <= |list|
      reads this
    {
      if i == 0 then null else list[i - 1]
    }

    lemma Follow(i: nat)
      requires Valid() && i < |list|
      ensures list[i].next == At(i + 1)
    {}

    ghost function Messages(): set<CoAPMessage>
      reads this
    {
      set m | m in list
    }

    /** The list as the specification sees it. */
    ghost function View(): (es: seq<Entry>)
      reads this, list`timeout, list`transmitCount, list`sendTime, list`due, list`serial
      ensures |es| == |list|
    {
      Views(list)
    }

    constructor ()
      ensures Valid() && list == [] && View() == []
    {
      head, list := null, [];
    }

    /** The message with this id and the one before it, if there is one. */
    method ForId(id: nat) returns (msg: CoAPMessage?, prev: CoAPMessage?)
      requires Valid()
      ensures var k := Find(View(), id);
              msg == At(k) && (msg != null ==> prev == if k == 0 then null else list[k - 1])
    {
      hide Views, Find;
      ghost var k := 0;
      prev, msg := null, head;
      while msg != null && msg.id != id
        invariant k <= |list| && msg == At(k) && prev == if k == 0 then null else list[k - 1]
        invariant forall i :: 0 <= i < k ==> list[i].id != id
        decreases |list| - k
      {
        prev, msg := msg, msg.next;
        k := k + 1;
      }
      FoundAt(View(), id, k);
    }

    /** Unlinks the message at position k, whose predecessor is known. */
    method Unlink(msg: CoAPMessage, prev: CoAPMessage?, ghost k: nat)
      requires Valid() && k < |list| && msg == list[k] && prev == if k == 0 then null else list[k - 1]
      modifies this, Messages()`next
      ensures Valid() && list == Removed(old(list), k) && Messages() <= old(Messages())
      ensures View() == Removed(old(View()), k)
    {
      hide Views, Distinct, NonEmpty, Removed;
      ghost var was, v := list, View();
      Others(was, k);
      if k > 0 {
        Others(was, k - 1);
      }
      if prev != null {
        prev.next := msg.next;
      } else {
        head := msg.next;
      }
      msg.next := null;
      list := Removed(was, k);
      Without(was, k);
      Relinked(was, list, k);
      ViewsWithout(was, k);
      assert Views(was) == v;
    }

    /** Removes the first message with this id; false when there is none. */
    method ClearMessage(id: nat) returns (found: bool)
      requires Valid()
      modifies this, Messages()`next
      ensures Valid() && Messages() <= old(Messages())
      ensures View() == Clear(old(View()), id) && found == Has(old(View()), id)
    {
      hide Find, Distinct, NonEmpty, Linked, Views;
      var msg, prev := ForId(id);
      ghost var k := Find(View(), id);
      if msg != null {
        Unlink(msg, prev, k);
      }
      found := msg != null;
    }

    /** Puts a message at the head, in place of any other with the same id; false when it is linked already. */
    method Add(message: CoAPMessage) returns (ok: bool)
      requires Valid() && |message.data| > 0
      requires message in list ==> message == At(Find(View(), message.id))
      modifies this, Messages()`next, message`next
      ensures Valid() && Messages() <= old(Messages()) + {message}
      ensures ok == (old(message in list) || old(message.next) == null)
      ensures ok ==> View() == if old(message in list) then old(View()) else Coap.Add(old(View()), message.View())
    {
      hide Find, Distinct, NonEmpty, Linked, Views, Clear;
      var same, _ := ForId(message.id);
      if same == message {
        return true;
      }
      assert message !in Messages();
      var _ := ClearMessage(message.id);
      if message.next != null {
        return false;
      }
      Prepend(message);
      ok := true;
    }

    method Prepend(message: CoAPMessage)
      requires Valid() && message !in list && |message.data| > 0
      modifies this, message`next
      ensures Valid() && Messages() <= old(Messages()) + {message}
      ensures View() == [message.View()] + old(View())
    {
      hide Views, Distinct, NonEmpty, Linked;
      ghost var was := list;
      message.next := head;
      head := message;
      list := [message] + was;
      Prepended(was, message);
    }

    /** Registers that the application sends a message. */
    method Send(id: nat, data: seq<byte>, time: nat, ack: nat, rnd: nat, ghost trueNow: nat, ghost serial: nat)
      requires Valid() && |data| <= MAX_DATA && time == trueNow % U32
      modifies this, Messages()`next
      ensures Valid() && fresh(Messages() - old(Messages()))
      ensures View() == Coap.Send(old(View()), id, data, trueNow, ack, rnd, serial)
    {
      hide Find, Distinct, NonEmpty, Linked, TransmitTimeout, MaxTransmitWait, TypeBits, Views, Coap.Add;
      var kind := TypeOf(data);
      if kind == CON {
        Transmit(id, data, time, ack, rnd, trueNow, serial);
      } else if kind == ACK || kind == RESET {
        Remember(id, data, time, ack, trueNow, serial);
      }
    }

    /** Stores a message whose first transmission is now. */
    method Transmit(id: nat, data: seq<byte>, time: nat, ack: nat, rnd: nat, ghost trueNow: nat, ghost serial: nat)
      requires Valid() && time == trueNow % U32 && TypeOf(data) == CON
      modifies this, Messages()`next
      ensures Valid() && fresh(Messages() - old(Messages()))
      ensures View() == Coap.Add(old(View()), Coap.Fresh(id, data, trueNow, ack, rnd, serial))
    {
      hide *;
      var msg := new CoAPMessage.Transmitted(id, data, time, ack, rnd, trueNow, serial);
      var _ := Add(msg);
    }

    /** Stores a message that is kept until the maximum transmit wait is over. */
    method Remember(id: nat, data: seq<byte>, time: nat, ack: nat, ghost trueNow: nat, ghost serial: nat)
      requires Valid() && time == trueNow % U32 && |data| > 0
      modifies this, Messages()`next
      ensures Valid() && fresh(Messages() - old(Messages()))
      ensures View() == Coap.Add(old(View()), Coap.Expiring(id, data, trueNow, MaxTransmitWait(ack), serial))
    {
      hide *;
      var msg := new CoAPMessage.Expiring(id, data, time, MaxTransmitWait(ack), trueNow, serial);
      var _ := Add(msg);
    }

    /** Notes that a message has been received and decides what becomes of it. */
    method Receive(id: nat, data: seq<byte>, time: nat, ack: nat, ghost trueNow: nat, ghost serial: nat)
        returns (fate: Fate)
      requires Valid() && time == trueNow % U32
      modifies this, Messages()`next
      ensures Valid() && fresh(Messages() - old(Messages()))
      ensures (View(), fate) == Coap.Receive(old(View()), id, data, trueNow, ack, serial)
    {
      hide Find, Distinct, NonEmpty, Linked, MaxTransmitWait, TypeBits, Views, Coap.Add, Clear;
      var kind := TypeOf(data);
      fate := Delivered;
      if kind == ACK || kind == RESET {
        var known := ClearMessage(id);
        if !known {
          fate := Consumed;
        }
      } else if kind == CON {
        var response, _ := ForId(id);
        if response != null {
          fate := if |response.data| >= 1 && IsReply(TypeBits(response.data[0])) then Answered(response.data)
                  else Consumed;
        } else {
          Remember(id, Stub(data), time, ack, trueNow, serial);
        }
      }
    }

    /** Sends what is due again and drops what is given up; the result is the bytes sent and the ids given up. */
    method ProcessAll(time: nat, ack: nat, rnd: nat -> nat, ghost trueNow: nat)
        returns (sent: seq<seq<byte>>, lost: seq<nat>)
      requires Valid() && time == trueNow % U32
      modifies this, Messages()`next, Messages()`timeout, Messages()`transmitCount, Messages()`due
      ensures Valid() && Messages() <= old(Messages())
      ensures (View(), sent, lost) == Outcome(Process(old(View()), trueNow, ack, rnd, 0))
    {
      hide Distinct, NonEmpty, Linked, Views, Final, TimeHasPassed, Prepare, MayResend, Outcome;
      ghost var v, all, i := View(), Messages(), 0;
      sent, lost := [], [];
      var k := 0;
      var msg, prev := head, null;
      FinalStart(v, trueNow, ack, rnd);
      while msg != null
        invariant Valid() && Messages() <= all && i <= |list| && msg == At(i) && prev == Prev(i)
        invariant Final(View(), i, sent, lost, trueNow, ack, rnd, k) == Outcome(Process(v, trueNow, ack, rnd, 0))
        decreases |list| - i
      {
        Follow(i);
        FinalStep(View(), i, sent, lost, trueNow, ack, rnd, k);
        if TimeHasPassed(time, msg.timeout) {
          SameMessage(View()[i], trueNow, ack, rnd(k));
          var again, next := HandleDue(msg, prev, time, ack, rnd(k), trueNow, i);
          k := k + 1;
          if again {
            sent := sent + [msg.data];
            prev, i := msg, i + 1;
          } else {
            lost := lost + [msg.id];
          }
          msg := next;
        } else {
          prev, msg, i := msg, msg.next, i + 1;
        }
      }
      FinalEnd(View(), sent, lost, trueNow, ack, rnd, k);
    }

    /** Reschedules a message that is due or takes it out; the result is the message to look at next. */
    method HandleDue(msg: CoAPMessage, prev: CoAPMessage?, time: nat, ack: nat, rnd: nat, ghost trueNow: nat,
                     ghost i: nat)
        returns (again: bool, next: CoAPMessage?)
      requires Valid() && i < |list| && msg == list[i] && prev == Prev(i) && time == trueNow % U32
      modifies this, Messages()`next, msg`timeout, msg`transmitCount, msg`due
      ensures Valid() && Messages() <= old(Messages())
      ensures again == MayResend(old(View())[i])
      ensures View() == if again then old(View())[i := Prepare(old(View())[i], trueNow, ack, rnd)]
                        else Removed(old(View()), i)
      ensures again ==> list == old(list)
      ensures Prev(i) == prev && next == At(if again then i + 1 else i)
    {
      hide Distinct, NonEmpty, Linked, Views, Prepare, MayResend;
      ghost var es := View();
      again := Retransmit(msg, time, ack, rnd, trueNow, i);
      if again {
        Follow(i);
        next := msg.next;
      } else {
        Unlink(msg, prev, i);
        if i > 0 {
          Follow(i - 1);
        }
        next := if prev == null then head else prev.next;
        assert View() == Removed(es, i);
      }
    }

    /** Reschedules the message at position i. */
    method Retransmit(msg: CoAPMessage, time: nat, ack: nat, rnd: nat, ghost trueNow: nat, ghost i: nat)
        returns (again: bool)
      requires Valid() && i < |list| && msg == list[i] && time == trueNow % U32
      modifies msg`timeout, msg`transmitCount, msg`due
      ensures Valid() && View() == old(View())[i := Prepare(old(View())[i], trueNow, ack, rnd)]
      ensures again == MayResend(old(View())[i])
    {
      hide Views, Prepare, MayResend, NonEmpty, Linked, Distinct;
      Others(list, i);
      OneOf(list, i);
      ghost var es := View();
      again := msg.PrepareRetransmit(time, ack, rnd, trueNow);
      assert View() == es[i := msg.View()];
    }
  }

  const MAX_DATA := 1500

  /** The bytes sent again. */
  function Sent(log: seq<Event>): seq<seq<byte>> {
    if |log| == 0 then [] else (if log[0].Retransmit? then [log[0].e.data] else []) + Sent(log[1..])
  }

  /** The ids of the messages given up. */
  function Lost(log: seq<Event>): seq<nat> {
    if |log| == 0 then [] else (if log[0].TimedOut? then [log[0].e.id] else []) + Lost(log[1..])
  }

  function Outcome(r: (seq<Entry>, seq<Event>)): (seq<Entry>, seq<seq<byte>>, seq<nat>) {
    (r.0, Sent(r.1), Lost(r.1))
  }

  /** The outcome once the walk has been finished from position i. */
  function Final(es: seq<Entry>, i: nat, sent: seq<seq<byte>>, lost: seq<nat>, now: nat, ack: nat, rnd: nat -> nat,
                 k: nat)
      : (seq<Entry>, seq<seq<byte>>, seq<nat>)
    requires i <= |es|
  {
    var (rest, log) := Process(es[i..], now, ack, rnd, k);
    (es[..i] + rest, sent + Sent(log), lost + Lost(log))
  }

  lemma FinalStart(es: seq<Entry>, now: nat, ack: nat, rnd: nat -> nat)
    ensures Final(es, 0, [], [], now, ack, rnd, 0) == Outcome(Process(es, now, ack, rnd, 0))
  {
    hide Process, Sent, Lost;
    assert es[0..] == es && es[..0] == [];
    var (rest, log) := Process(es, now, ack, rnd, 0);
    assert [] + rest == rest && [] + Sent(log) == Sent(log) && [] + Lost(log) == Lost(log);
  }

  lemma FinalEnd(es: seq<Entry>, sent: seq<seq<byte>>, lost: seq<nat>, now: nat, ack: nat, rnd: nat -> nat, k: nat)
    ensures Final(es, |es|, sent, lost, now, ack, rnd, k) == (es, sent, lost)
  {
    assert es[..|es|] == es && es[|es|..] == [];
    assert es + [] == es && sent + [] == sent && lost + [] == lost;
  }

  /** One message of the walk: skipped, sent again or dropped. */
  lemma FinalStep(es: seq<Entry>, i: nat, sent: seq<seq<byte>>, lost: seq<nat>, now: nat, ack: nat, rnd: nat -> nat,
                  k: nat)
    requires i < |es|
    ensures Final(es, i, sent, lost, now, ack, rnd, k) == Stepped(es, i, sent, lost, now, ack, rnd, k)
  {
    hide TimeHasPassed, Prepare, MayResend;
    var e := Prepare(es[i], now, ack, rnd(k));
    assert es[i..][1..] == es[i + 1..] == es[i := e][i + 1..] == Removed(es, i)[i..];
    assert es[..i + 1] == es[..i] + [es[i]] && es[i := e][..i + 1] == es[..i] + [e] && Removed(es, i)[..i] == es[..i];
    var (rest, log) := Process(es[i + 1..], now, ack, rnd, if Expired(es[i], now) then k + 1 else k);
    assert ([Retransmit(e)] + log)[1..] == log && ([TimedOut(e)] + log)[1..] == log;
    assert es[..i] + ([es[i]] + rest) == (es[..i] + [es[i]]) + rest && es[..i] + ([e] + rest) == (es[..i] + [e]) + rest;
    assert sent + ([e.data] + Sent(log)) == (sent + [e.data]) + Sent(log) && [] + Sent(log) == Sent(log);
    assert lost + ([e.id] + Lost(log)) == (lost + [e.id]) + Lost(log) && [] + Lost(log) == Lost(log);
  }

  /** The outcome after the message at position i has been handled. */
  function Stepped(es: seq<Entry>, i: nat, sent: seq<seq<byte>>, lost: seq<nat>, now: nat, ack: nat, rnd: nat -> nat,
                   k: nat)
      : (seq<Entry>, seq<seq<byte>>, seq<nat>)
    requires i < |es|
  {
    var e := Prepare(es[i], now, ack, rnd(k));
    if !Expired(es[i], now) then Final(es, i + 1, sent, lost, now, ack, rnd, k)
    else if MayResend(es[i]) then Final(es[i := e], i + 1, sent + [e.data], lost, now, ack, rnd, k + 1)
    else Final(Removed(es, i), i, sent, lost + [e.id], now, ack, rnd, k + 1)
  }

  lemma Prepended(was: seq<CoAPMessage>, m: CoAPMessage)
    requires m !in was && Distinct(was) && NonEmpty(was) && Linked(was) && |m.data| > 0
    requires m.next == if |was| > 0 then was[0] else null
    ensures Distinct([m] + was) && NonEmpty([m] + was) && Linked([m] + was)
    ensures Views([m] + was) == [m.View()] + Views(was)
  {
    var r := [m] + was;
    assert r[1..] == was;
    forall i | 0 <= i < |r|
      ensures r[i].next == Succ(r, i)
    {}
  }

  lemma SameMessage(e: Entry, now: nat, ack: nat, rnd: nat)
    ensures Prepare(e, now, ack, rnd).id == e.id && Prepare(e, now, ack, rnd).data == e.data
  {}

  lemma OneOf(s: seq<CoAPMessage>, i: nat)
    requires i < |s| && NonEmpty(s)
    ensures |s[i].data| > 0
  {}

  function Succ(s: seq<CoAPMessage>, i: nat): CoAPMessage? {
    if i + 1 < |s| then s[i + 1] else null
  }

  ghost function Views(s: seq<CoAPMessage>): (es: seq<Entry>)
    reads s`timeout, s`transmitCount, s`sendTime, s`due, s`serial
    ensures |es| == |s|
    ensures forall i :: 0 <= i < |s| ==> es[i] == s[i].View()
  {
    if |s| == 0 then [] else [s[0].View()] + Views(s[1..])
  }

  lemma ViewsWithout(s: seq<CoAPMessage>, k: nat)
    requires k < |s|
    ensures Views(Removed(s, k)) == Removed(Views(s), k)
  {
    hide Views, Removed;
    var r := Removed(s, k);
    forall i | 0 <= i < |r|
      ensures Views(r)[i] == Removed(Views(s), k)[i]
    {}
  }

  predicate Distinct(s: seq<CoAPMessage>) {
    forall i, j :: 0 <= i < j < |s| ==> s[i] != s[j]
  }

  predicate NonEmpty(s: seq<CoAPMessage>) {
    forall m :: m in s ==> |m.data| > 0
  }

  predicate Linked(s: seq<CoAPMessage>)
    reads s`next
  {
    forall i :: 0 <= i < |s| ==> s[i].next == Succ(s, i)
  }

  lemma Others(s: seq<CoAPMessage>, k: nat)
    requires k < |s| && Distinct(s)
    ensures forall i :: 0 <= i < |s| && i != k ==> s[i] != s[k]
  {}

  lemma Without(s: seq<CoAPMessage>, k: nat)
    requires k < |s| && Distinct(s) && NonEmpty(s)
    ensures var r := Removed(s, k);
            Distinct(r) && NonEmpty(r) && forall m :: m in r ==> m in s
  {
    hide Removed;
  }

  lemma Relinked(was: seq<CoAPMessage>, now: seq<CoAPMessage>, k: nat)
    requires k < |was| && now == Removed(was, k)
    requires forall i :: 0 <= i < |was| && i != k && i + 1 != k ==> was[i].next == Succ(was, i)
    requires k > 0 ==> was[k - 1].next == Succ(was, k)
    ensures Linked(now)
  {
    hide Removed;
  }

  lemma {:induction false} FoundAt(es: seq<Entry>, id: nat, k: nat)
    requires k <= |es| && (forall i :: 0 <= i < k ==> es[i].id != id) && (k < |es| ==> es[k].id == id)
    ensures Find(es, id) == k
  {}
}
