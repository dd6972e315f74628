/**
 The anti-replay window of the record layer (section 4.1.2.6 of RFC 6347): a 64-bit field below the
 newest sequence number, compared with the full history of accepted numbers.
 */
module Replay {
  import opened Arith
  import opened Words
  import Record

  // ----- bits under shift and or -----

  lemma {:induction false} OrBit(x: nat, y: nat, j: nat)
    ensures BitSet(Or(x, y), j) <==> BitSet(x, j) || BitSet(y, j)
    decreases j
  {
    BitStep(x, j);
    BitStep(y, j);
    BitStep(Or(x, y), j);
    OrHalf(x, y);
    if j > 0 {
      OrBit(x / 2, y / 2, j - 1);
    }
  }

  lemma OrHalf(x: nat, y: nat)
    ensures Or(x, y) / 2 == Or(x / 2, y / 2)
    ensures Or(x, y) % 2 == 1 <==> x % 2 == 1 || y % 2 == 1
  {}

  lemma BitStep(x: nat, j: nat)
    ensures j == 0 ==> (BitSet(x, j) <==> x % 2 == 1)
    ensures j > 0 ==> (BitSet(x, j) <==> BitSet(x / 2, j - 1))
  {
    if j > 0 {
      DivDiv(x, 2, Pow2(j - 1));
    } else {
      assert x / Pow2(0) == x;
    }
  }

  /** Bits of a 64-bit left shift by d. */
  lemma ShiftBit(x: nat, d: nat, j: nat)
    requires j < 64
    ensures BitSet(x * Pow2(d) % Pow2(64), j) <==> j >= d && BitSet(x, j - d)
  {
    hide *;
    ModBit(x * Pow2(d), 64, j);
    BitDef(x * Pow2(d), j);
    if j >= d {
      BitDef(x, j - d);
      Pow2Add(d, j - d);
      ShiftDown(x, Pow2(d), Pow2(j - d));
    } else {
      Pow2Add(j, d - j);
      Pow2Next(d - j - 1);
      EvenQuotient(x, Pow2(j), Pow2(d - j - 1));
    }
  }

  lemma BitDef(v: nat, j: nat)
    ensures BitSet(v, j) <==> v / Pow2(j) % 2 == 1
  {}

  lemma ShiftDown(x: nat, p: nat, q: nat)
    requires p > 0 && q > 0
    ensures p * q > 0 && x * p / (p * q) == x / q
  {
    MulMono(1, p, q);
    assert x * p == (x / q * q + x % q) * p == x / q * (p * q) + x % q * p;
    BelowBase(0, x % q, p, q);
    DivModUnique(x * p, p * q, x / q, x % q * p);
  }

  lemma EvenQuotient(x: nat, p: nat, h: nat)
    requires p > 0
    ensures x * (p * (2 * h)) / p % 2 == 0
  {
    assert x * (p * (2 * h)) == 2 * (x * h) * p;
    DivModUnique(x * (p * (2 * h)), p, 2 * (x * h), 0);
  }

  lemma ModBit(x: nat, n: nat, j: nat)
    requires j < n
    ensures BitSet(x % Pow2(n), j) <==> BitSet(x, j)
  {
    Pow2Add(j, n - j);
    assert Pow2(n - j) == 2 * Pow2(n - j - 1);
    ModKeepsDigit(x, Pow2(j), 2, Pow2(n - j - 1));
  }

  lemma PowerBit(k: nat, j: nat)
    ensures BitSet(Pow2(k), j) <==> j == k
  {
    if j <= k {
      Pow2Add(j, k - j);
      var q := Pow2(k - j);
      assert Pow2(j) * q == q * Pow2(j) + 0;
      DivModUnique(Pow2(k), Pow2(j), q, 0);
      if j < k {
        assert q == 2 * Pow2(k - j - 1);
      }
    } else {
      Pow2Mono(k + 1, j);
      assert Pow2(k + 1) == 2 * Pow2(k);
      DivModUnique(Pow2(k), Pow2(j), 0, Pow2(k));
    }
  }

  // ----- the window -----

  /** Newest accepted sequence number and the bits of the 63 below it; bit 0 stands for cseq itself. */
  datatype Window = Window(cseq: nat, bitfield: nat)

  const EMPTY := Window(0, 0)

  /** What becomes of a record: dropped before or after decryption, or passed on. */
  datatype Verdict = Duplicate | TooOld | Undecryptable | Passed

  /**
   One record with sequence number seqNo. The length is what decryption yields if it is reached;
   a record is only entered into the window when the plaintext is not empty.
   */
  function Receive(w: Window, seqNo: nat, length: int): (r: (Window, Verdict)) {
    var verdict := if length < 0 then Undecryptable else Passed;
    if w.bitfield == 0 then
      (if length > 0 then Window(seqNo, 1) else w, verdict)
    else if seqNo == w.cseq then
      (w, Duplicate)
    else if seqNo < w.cseq then
      var d := w.cseq - seqNo;
      if d > 63 then (w, TooOld)
      else if BitSet(w.bitfield, d) then (w, Duplicate)
      else (if length > 0 then Window(w.cseq, Or(w.bitfield, Pow2(d))) else w, verdict)
    else
      var d := seqNo - w.cseq;
      var shifted := if d > 63 then 1 else Or(w.bitfield * Pow2(d) % Pow2(64), 1);
      (if length > 0 then Window(seqNo, shifted) else w, verdict)
  }

  /** The window shows exactly the last 64 numbers of the history of accepted records. */
  ghost predicate Shows(w: Window, history: set<nat>) {
    && (w.bitfield == 0 <==> history == {})
    && (history != {} ==> w.cseq in history && forall s | s in history :: s <= w.cseq)
    && (history != {} ==> forall i: nat | i < 64 :: BitSet(w.bitfield, i) <==> i <= w.cseq && w.cseq - i in history)
  }

  lemma OneBit(j: nat)
    ensures BitSet(1, j) <==> j == 0
  {
    PowerBit(0, j);
    assert Pow2(0) == 1;
  }

  lemma OrPositive(x: nat, y: nat)
    requires x > 0 || y > 0
    ensures Or(x, y) > 0
  {}

  /** Entering an older record sets its bit. */
  lemma ShowsOlder(w: Window, history: set<nat>, seqNo: nat)
    requires Shows(w, history) && history != {} && seqNo < w.cseq <= seqNo + 63
    ensures Shows(Window(w.cseq, Or(w.bitfield, Pow2(w.cseq - seqNo))), history + {seqNo})
  {
    var d := w.cseq - seqNo;
    var b := Or(w.bitfield, Pow2(d));
    OrPositive(w.bitfield, Pow2(d));
    forall i: nat | i < 64
      ensures BitSet(b, i) <==> i <= w.cseq && w.cseq - i in history + {seqNo}
    {
      OrBit(w.bitfield, Pow2(d), i);
      PowerBit(d, i);
    }
  }

  /** A newer record moves the window up. */
  lemma ShowsNewer(w: Window, history: set<nat>, seqNo: nat)
    requires Shows(w, history) && history != {} && seqNo > w.cseq
    ensures var d := seqNo - w.cseq;
            Shows(Window(seqNo, if d > 63 then 1 else Or(w.bitfield * Pow2(d) % Pow2(64), 1)), history + {seqNo})
  {
    hide BitSet, Or, Pow2;
    var d := seqNo - w.cseq;
    var x := w.bitfield * Pow2(d) % Pow2(64);
    var b := if d > 63 then 1 else Or(x, 1);
    OrPositive(x, 1);
    forall i: nat | i < 64
      ensures BitSet(b, i) <==> i <= seqNo && seqNo - i in history + {seqNo}
    {
      OneBit(i);
      OrBit(x, 1, i);
      ShiftBit(w.bitfield, d, i);
      if i >= d {
        assert seqNo - i == w.cseq - (i - d);
      }
    }
  }

  lemma ShowsFirst(seqNo: nat)
    ensures Shows(Window(seqNo, 1), {seqNo})
  {
    forall i: nat | i < 64
      ensures BitSet(1, i) <==> i <= seqNo && seqNo - i in {seqNo}
    {
      OneBit(i);
    }
  }

  /** The history after one record. */
  function Entered(history: set<nat>, seqNo: nat, length: int, v: Verdict): set<nat> {
    if v == Passed && length > 0 then history + {seqNo} else history
  }

  /**
   One step: the window keeps showing the history, a number in the history is never passed again,
   and the records dropped unread are exactly the duplicates and those too old for the window.
   */
  lemma ReceiveCorrect(w: Window, history: set<nat>, seqNo: nat, length: int)
    requires Shows(w, history)
    ensures var (w', v) := Receive(w, seqNo, length);
            && Shows(w', Entered(history, seqNo, length, v))
            && (v == Duplicate <==> seqNo in history && w.cseq <= seqNo + 63)
            && (v == TooOld <==> history != {} && seqNo + 63 < w.cseq)
            && (v == Undecryptable ==> length < 0) && (v == Passed ==> length >= 0 && seqNo !in history)
  {
    hide BitSet, Or, Pow2;
    if w.bitfield == 0 {
      assert history + {seqNo} == {seqNo};
      ShowsFirst(seqNo);
    } else if seqNo < w.cseq && seqNo + 63 >= w.cseq {
      assert w.cseq - (w.cseq - seqNo) == seqNo;
      assert BitSet(w.bitfield, w.cseq - seqNo) <==> seqNo in history;
      ShowsOlder(w, history, seqNo);
    } else if seqNo > w.cseq {
      ShowsNewer(w, history, seqNo);
    }
  }

  // ----- whole runs -----

  datatype Packet = Packet(seqNo: nat, length: int)

  function RunWindow(packets: seq<Packet>): Window {
    if |packets| == 0 then EMPTY
    else
      var p := packets[|packets| - 1];
      Receive(RunWindow(packets[..|packets| - 1]), p.seqNo, p.length).0
  }

  /** The sequence numbers passed on with a nonempty plaintext, in order. */
  function Accepted(packets: seq<Packet>): seq<nat> {
    if |packets| == 0 then []
    else
      var before := packets[..|packets| - 1];
      var p := packets[|packets| - 1];
      var v := Receive(RunWindow(before), p.seqNo, p.length).1;
      if v == Passed && p.length > 0 then Accepted(before) + [p.seqNo] else Accepted(before)
  }

  function AsSet(s: seq<nat>): set<nat> {
    set i | 0 <= i < |s| :: s[i]
  }

  /** Over any packet history of an epoch: no number is accepted twice, and the window shows what was. */
  lemma {:induction false} NoReplay(packets: seq<Packet>)
    ensures Shows(RunWindow(packets), AsSet(Accepted(packets)))
    ensures forall i, j :: 0 <= i < j < |Accepted(packets)| ==> Accepted(packets)[i] != Accepted(packets)[j]
  {
    if |packets| > 0 {
      hide Receive, Shows;
      var before := packets[..|packets| - 1];
      var p := packets[|packets| - 1];
      NoReplay(before);
      var acc := Accepted(before);
      ReceiveCorrect(RunWindow(before), AsSet(acc), p.seqNo, p.length);
      assert AsSet(acc + [p.seqNo]) == AsSet(acc) + {p.seqNo} by {
        assert forall i | 0 <= i < |acc| :: (acc + [p.seqNo])[i] == acc[i];
        assert (acc + [p.seqNo])[|acc|] == p.seqNo;
      }
    } else {
      assert AsSet([]) == {};
    }
  }

  /** The receive step on the security parameters of the record's epoch. */
  method CheckRecord(security: Record.Security, seqNo: nat, length: int) returns (v: Verdict)
    modifies security`cseq, security`bitfield
    ensures (Window(security.cseq, security.bitfield), v)
         == Receive(Window(old(security.cseq), old(security.bitfield)), seqNo, length)
  {
    v := if length < 0 then Undecryptable else Passed;
    if security.bitfield == 0 {
      if length > 0 {
        security.cseq, security.bitfield := seqNo, 1;
      }
    } else {
      var diff: int := seqNo - security.cseq;
      if diff == 0 {
        return Duplicate;
      } else if diff < 0 {
        if diff < -63 {
          return TooOld;
        }
        var seqnBit := Pow2(-diff);
        if BitSet(security.bitfield, -diff) {
          return Duplicate;
        }
        if length > 0 {
          security.bitfield := Or(security.bitfield, seqnBit);
        }
      } else if length > 0 {
        security.cseq := seqNo;
        if diff > 63 {
          security.bitfield := 1;
        } else {
          security.bitfield := Or(security.bitfield * Pow2(diff) % Pow2(64), 1);
        }
      }
    }
  }
}
