/**
 Acknowledged publishing: data of up to four blocks is kept in one of four slots and sent block by
 block, each after the reply to the one before (sections 2.2 and 2.9.1 of RFC 7959).
 */
module Publish {
  import opened Arith
  import opened Octet

  const MAX_BLOCK_SIZE := 1024
  const MAX_BLOCKS_NUMBER := 4
  const MAX_CONCURRENT_MESSAGES := 4
  const BUFFER_SIZE := (MAX_BLOCK_SIZE - 1) * MAX_BLOCKS_NUMBER
  const NONE := 0                // SYSTEM_ERROR_NONE
  const INTERNAL := -1           // stands for SYSTEM_ERROR_INTERNAL

  /** Number of blocks of a publish of this length. */
  function Blocks(length: nat): (n: nat)
    ensures n > 0
  {
    if length > MAX_BLOCK_SIZE then (length + MAX_BLOCK_SIZE - 1) / MAX_BLOCK_SIZE else 1
  }

  // ----- what goes over the wire -----

  /** The block option byte: number, more flag and size exponent. */
  function BlockOption(id: nat, count: nat): byte
    requires id < 16
  {
    0x06 | ((id as byte) << 4) | (if id + 1 < count then 0x08 else 0)
  }

  /** Its three fields read back: NUM is the block number, MORE says a block follows, SZX means 1024 bytes. */
  lemma BlockOptionBits(id: nat, count: nat)
    requires id < 16
    ensures BlockOption(id, count) >> 4 == id as byte
    ensures BlockOption(id, count) & 0x08 != 0 <==> id + 1 < count
    ensures BlockOption(id, count) & 0x07 == 6
  {
    FieldBits(id as byte, if id + 1 < count then 0x08 else 0);
  }

  lemma FieldBits(num: byte, more: byte)
    requires num < 16 && (more == 0 || more == 0x08)
    ensures (0x06 | (num << 4) | more) >> 4 == num
    ensures (0x06 | (num << 4) | more) & 0x08 == more
    ensures (0x06 | (num << 4) | more) & 0x07 == 6
  {}

  datatype Packet = Packet(token: nat, id: nat, count: nat, payload: seq<byte>)

  function Chunk(token: nat, data: seq<byte>, i: nat): Packet
    requires i < Blocks(|data|)
  {
    Packet(token, i, Blocks(|data|), data[i * MAX_BLOCK_SIZE..Min((i + 1) * MAX_BLOCK_SIZE, |data|)])
  }

  /** The first n blocks of the data. */
  function Chunks(token: nat, data: seq<byte>, n: nat): (ps: seq<Packet>)
    requires n <= Blocks(|data|)
    ensures |ps| == n
  {
    if n == 0 then [] else Chunks(token, data, n - 1) + [Chunk(token, data, n - 1)]
  }

  function Payloads(ps: seq<Packet>): seq<byte> {
    if |ps| == 0 then [] else Payloads(ps[..|ps| - 1]) + ps[|ps| - 1].payload
  }

  /** The first n blocks carry the first bytes of the data; all blocks carry all of it. */
  lemma {:induction false} ChunksCarryData(token: nat, data: seq<byte>, n: nat)
    requires n <= Blocks(|data|)
    ensures Payloads(Chunks(token, data, n)) == data[..Min(n * MAX_BLOCK_SIZE, |data|)]
    ensures n == Blocks(|data|) ==> Payloads(Chunks(token, data, n)) == data
  {
    hide *;
    if n == 0 {
      NoPayload(token, data);
    } else {
      ChunksCarryData(token, data, n - 1);
      NextPayload(token, data, n);
      OneMoreBlock(token, data, n);
    }
    if n == Blocks(|data|) {
      AllBlocks(data);
      assert data[..|data|] == data;
    }
  }

  lemma NoPayload(token: nat, data: seq<byte>)
    ensures Payloads(Chunks(token, data, 0)) == [] == data[..Min(0 * MAX_BLOCK_SIZE, |data|)]
    ensures Blocks(|data|) != 0
  {}

  lemma NextPayload(token: nat, data: seq<byte>, n: nat)
    requires 0 < n <= Blocks(|data|)
    ensures Payloads(Chunks(token, data, n)) == Payloads(Chunks(token, data, n - 1)) + Chunk(token, data, n - 1).payload
  {
    hide Chunk, Blocks;
    assert Chunks(token, data, n)[..n - 1] == Chunks(token, data, n - 1);
  }

  lemma OneMoreBlock(token: nat, data: seq<byte>, n: nat)
    requires 0 < n <= Blocks(|data|)
    ensures data[..Min((n - 1) * MAX_BLOCK_SIZE, |data|)] + Chunk(token, data, n - 1).payload
         == data[..Min(n * MAX_BLOCK_SIZE, |data|)]
  {}

  lemma AllBlocks(data: seq<byte>)
    ensures Min(Blocks(|data|) * MAX_BLOCK_SIZE, |data|) == |data|
  {}

  // ----- the state -----

  /** A publish slot; data is history, what the application handed over. */
  datatype Slot = Slot(buffer: seq<byte>, running: bool, totBytes: nat, totBlocks: nat, index: nat, token: nat,
                       key: nat, data: seq<byte>)

  /** The end of a publish: its slot is freed and its completion callback, if it has one, is called. */
  datatype Done = Done(token: nat, error: int)

  /**
   Slots, last token given out, handlers waiting for a reply by message id; sent packets and completions, in
   order.
   */
  datatype State = State(slots: seq<Slot>, lastToken: nat, pending: map<nat, nat>, sent: seq<Packet>, done: seq<Done>)

  /** What the channel does with a packet: sends it under a message id, or refuses it. */
  datatype Sending = Accepted(id: nat) | Refused

  datatype Response = Continue | Success | Error(error: int)

  /** The token handed out: the counter moves on until it sticks at 255, from where on it is always 1. */
  function NextToken(last: nat): nat {
    if last == 255 then 1 else last + 1
  }

  function NextCounter(last: nat): nat {
    if last == 255 then 255 else last + 1
  }

  /** Position of the first free slot, or the number of slots. */
  function FindFree(slots: seq<Slot>): (k: nat)
    ensures k <= |slots| && (k < |slots| ==> !slots[k].running)
    ensures forall i :: 0 <= i < k ==> slots[i].running
  {
    if |slots| == 0 || !slots[0].running then 0 else 1 + FindFree(slots[1..])
  }

  /** Position of the first slot with this token, or the number of slots. */
  function FindToken(slots: seq<Slot>, token: nat): (k: nat)
    ensures k <= |slots| && (k < |slots| ==> slots[k].token == token)
    ensures forall i :: 0 <= i < k ==> slots[i].token != token
  {
    if |slots| == 0 || slots[0].token == token then 0 else 1 + FindToken(slots[1..], token)
  }

  predicate LastBlock(b: Slot) {
    b.index * MAX_BLOCK_SIZE >= b.totBytes
  }

  /** The callback of every block: ends the publish after its last block or an error, and otherwise does nothing. */
  function Callback(s: State, token: nat, error: int): State {
    var k := FindToken(s.slots, token);
    if k < |s.slots| && (error != NONE || LastBlock(s.slots[k])) then
      s.(slots := s.slots[k := s.slots[k].(running := false)], done := s.done + [Done(token, error)])
    else s
  }

  /** The reply to a message: its handler, if it is still waiting, is taken out and called. */
  function Resolve(s: State, id: nat, error: int): State {
    if id in s.pending then Callback(s.(pending := s.pending - {id}), s.pending[id], error) else s
  }

  /** Hands a packet to the channel; a refused packet completes its handler with an internal error. */
  function SendEvent(s: State, p: Packet, r: Sending): State {
    match r
    case Accepted(id) => s.(sent := s.sent + [p], pending := s.pending[id := p.token])
    case Refused => Callback(s, p.token, INTERNAL)
  }

  /** The buffer holds the data from the second block on; its other bytes keep what they were. */
  function Fill(buffer: seq<byte>, data: seq<byte>): seq<byte>
    requires |buffer| == BUFFER_SIZE && |data| <= MAX_BLOCK_SIZE * MAX_BLOCKS_NUMBER
  {
    if |data| > MAX_BLOCK_SIZE then data[MAX_BLOCK_SIZE..] + buffer[|data| - MAX_BLOCK_SIZE..] else buffer
  }

  function NewSlot(buffer: seq<byte>, token: nat, key: nat, data: seq<byte>): Slot
    requires |buffer| == BUFFER_SIZE && |data| <= MAX_BLOCK_SIZE * MAX_BLOCKS_NUMBER
  {
    var totBytes := if |data| > MAX_BLOCK_SIZE then |data| - MAX_BLOCK_SIZE else 0;
    Slot(Fill(buffer, data), true, totBytes, Blocks(|data|), 0, token, key, data)
  }

  predicate Buffers(s: State) {
    forall i :: 0 <= i < |s.slots| ==> |s.slots[i].buffer| == BUFFER_SIZE
  }

  /** sendPublish with an acknowledgement, while connected: starts a publish if it fits and a slot is free. */
  function Start(s: State, data: seq<byte>, key: nat, r: Sending): State
    requires Buffers(s)
  {
    var k := FindFree(s.slots);
    if |data| > MAX_BLOCK_SIZE * MAX_BLOCKS_NUMBER || k == |s.slots| then s
    else
      var token := NextToken(s.lastToken);
      var b := NewSlot(s.slots[k].buffer, token, key, data);
      var first := Packet(token, 0, b.totBlocks, data[..Min(MAX_BLOCK_SIZE, |data|)]);
      SendEvent(s.(slots := s.slots[k := b], lastToken := NextCounter(s.lastToken)), first, r)
  }

  /** The next block as notify_message_complete cuts it out of the buffer. */
  function NextPacket(b: Slot): Packet
    requires |b.buffer| == BUFFER_SIZE
  {
    var left := b.totBytes + MAX_BLOCK_SIZE - b.index * MAX_BLOCK_SIZE;
    var length := if 0 <= left < MAX_BLOCK_SIZE then left else MAX_BLOCK_SIZE;
    var offset := b.index * MAX_BLOCK_SIZE - MAX_BLOCK_SIZE;
    Packet(b.token, b.index, b.totBlocks,
           if 0 <= offset && offset + length <= BUFFER_SIZE then b.buffer[offset..offset + length] else [])
  }

  /** notify_message_complete: after 2.31 the block counter moves on and the next block is sent. */
  function Reply(s: State, id: nat, token: nat, resp: Response, r: Sending): State
    requires Buffers(s)
  {
    match resp
    case Continue =>
      var s' := Resolve(s, id, NONE);
      var k := FindToken(s'.slots, token);
      if k == |s'.slots| then s'
      else
        var b := s'.slots[k].(index := s'.slots[k].index + 1);
        SendEvent(s'.(slots := s'.slots[k := b]), NextPacket(b), r)
    case Success => Resolve(s, id, NONE)
    case Error(e) => Resolve(s, id, e)
  }

  // ----- the part of a history that belongs to one token -----

  function Packets(sent: seq<Packet>, token: nat): seq<Packet> {
    if |sent| == 0 then []
    else Packets(sent[..|sent| - 1], token) + (if sent[|sent| - 1].token == token then [sent[|sent| - 1]] else [])
  }

  function Ends(done: seq<Done>, token: nat): seq<Done> {
    if |done| == 0 then []
    else Ends(done[..|done| - 1], token) + (if done[|done| - 1].token == token then [done[|done| - 1]] else [])
  }

  lemma PacketsNext(sent: seq<Packet>, p: Packet, token: nat)
    ensures Packets(sent + [p], token) == if p.token == token then Packets(sent, token) + [p] else Packets(sent, token)
  {
    assert (sent + [p])[..|sent|] == sent;
  }

  lemma EndsNext(done: seq<Done>, d: Done, token: nat)
    ensures Ends(done + [d], token) == if d.token == token then Ends(done, token) + [d] else Ends(done, token)
  {
    assert (done + [d])[..|done|] == done;
  }

  // ----- the invariant -----

  /** A running slot carries the data published under its token. */
  ghost predicate Carries(b: Slot, issued: seq<seq<byte>>) {
    b.running ==>
      && 1 <= b.token <= |issued| && b.data == issued[b.token - 1]
      && |b.data| <= MAX_BLOCK_SIZE * MAX_BLOCKS_NUMBER && b.totBlocks == Blocks(|b.data|) && b.index < b.totBlocks
      && b.totBytes == (if |b.data| > MAX_BLOCK_SIZE then |b.data| - MAX_BLOCK_SIZE else 0)
      && b.totBytes <= |b.buffer| && (|b.data| > MAX_BLOCK_SIZE ==> b.buffer[..b.totBytes] == b.data[MAX_BLOCK_SIZE..])
  }

  ghost predicate Runs(slots: seq<Slot>, i: nat, token: nat) {
    i < |slots| && slots[i].running && slots[i].token == token
  }

  ghost predicate Running(slots: seq<Slot>, token: nat) {
    exists i :: Runs(slots, i, token)
  }

  ghost predicate SlotsOk(s: State, issued: seq<seq<byte>>) {
    && |s.slots| == MAX_CONCURRENT_MESSAGES && Buffers(s) && s.lastToken == |issued|
    && (forall i :: 0 <= i < |s.slots| ==> Carries(s.slots[i], issued) && s.slots[i].token <= |issued|)
    && (forall i, j :: 0 <= i < j < |s.slots| && s.slots[i].token == s.slots[j].token ==> s.slots[i].token == 0)
  }

  /** Every waiting handler belongs to a running slot and every running slot but that of token x has exactly one. */
  ghost predicate Waiting(s: State, x: nat) {
    && (forall id :: id in s.pending ==> s.pending[id] != x && Running(s.slots, s.pending[id]))
    && (forall id, id' :: id in s.pending && id' in s.pending && s.pending[id] == s.pending[id'] ==> id == id')
    && (forall t :: Running(s.slots, t) && t != x ==> Waited(s, t))
  }

  ghost predicate Waited(s: State, token: nat) {
    exists id :: id in s.pending && s.pending[id] == token
  }

  /** While a publish runs, the blocks up to its index have been sent and it has not been completed. */
  ghost predicate InProgress(s: State) {
    forall i :: 0 <= i < |s.slots| && s.slots[i].running ==>
      var b := s.slots[i];
      b.index < Blocks(|b.data|) && Packets(s.sent, b.token) == Chunks(b.token, b.data, b.index + 1)
        && Ends(s.done, b.token) == []
  }

  /** Completed once, without an error only after all blocks. */
  ghost predicate Ended(s: State, token: nat, data: seq<byte>) {
    && |Ends(s.done, token)| == 1
    && (exists n :: 0 <= n <= Blocks(|data|) && Packets(s.sent, token) == Chunks(token, data, n))
    && (Ends(s.done, token)[0].error == NONE ==> Packets(s.sent, token) == Chunks(token, data, Blocks(|data|)))
  }

  /** Every publish that is not running has ended; tokens not given out yet have no history. */
  ghost predicate Histories(s: State, issued: seq<seq<byte>>) {
    && (forall t :: 1 <= t <= |issued| && !Running(s.slots, t) ==> Ended(s, t, issued[t - 1]))
    && (forall t :: t > |issued| ==> Packets(s.sent, t) == [] && Ends(s.done, t) == [])
  }

  ghost predicate Inv(s: State, issued: seq<seq<byte>>, x: nat) {
    SlotsOk(s, issued) && Waiting(s, x) && InProgress(s) && Histories(s, issued)
  }

  // ----- arithmetic of the blocks -----

  /** The test for the last block compares byte counts; it holds exactly at the last block number. */
  lemma LastIs(b: Slot, issued: seq<seq<byte>>)
    requires b.running && Carries(b, issued)
    ensures LastBlock(b) <==> b.index + 1 == b.totBlocks
  {}

  /** The block cut out of the buffer is the block of the data with that number. */
  lemma NextIs(b: Slot, issued: seq<seq<byte>>)
    requires b.running && Carries(b, issued) && |b.buffer| == BUFFER_SIZE && b.index > 0
    ensures NextPacket(b) == Chunk(b.token, b.data, b.index)
  {
    BlockRange(b.index, |b.data|);
    var from := b.index * MAX_BLOCK_SIZE - MAX_BLOCK_SIZE;
    var length := Min((b.index + 1) * MAX_BLOCK_SIZE, |b.data|) - b.index * MAX_BLOCK_SIZE;
    hide Blocks;
    Within(b.buffer, b.totBytes, from, from + length);
    Shifted(b.data, MAX_BLOCK_SIZE, from, from + length);
  }

  lemma BlockRange(i: nat, length: nat)
    requires 0 < i < Blocks(length)
    ensures length > MAX_BLOCK_SIZE && i * MAX_BLOCK_SIZE < length
  {}

  lemma Within(s: seq<byte>, n: nat, from: nat, to: nat)
    requires from <= to <= n <= |s|
    ensures s[..n][from..to] == s[from..to]
  {}

  lemma Shifted(s: seq<byte>, n: nat, from: nat, to: nat)
    requires from <= to && n + to <= |s|
    ensures s[n..][from..to] == s[n + from..n + to]
  {}

  lemma FillIs(buffer: seq<byte>, token: nat, key: nat, data: seq<byte>, issued: seq<seq<byte>>)
    requires |buffer| == BUFFER_SIZE && |data| <= MAX_BLOCK_SIZE * MAX_BLOCKS_NUMBER
    requires token == |issued| + 1
    ensures var b := NewSlot(buffer, token, key, data);
            && Carries(b, issued + [data]) && |b.buffer| == BUFFER_SIZE && (LastBlock(b) <==> b.totBlocks == 1)
            && Packet(token, 0, b.totBlocks, data[..Min(MAX_BLOCK_SIZE, |data|)]) == Chunk(token, data, 0)
  {
    assert data[0..Min(MAX_BLOCK_SIZE, |data|)] == data[..Min(MAX_BLOCK_SIZE, |data|)];
  }

  // ----- the slots -----

  lemma TokenAt(s: State, issued: seq<seq<byte>>, k: nat)
    requires SlotsOk(s, issued) && k < |s.slots| && s.slots[k].token > 0
    ensures FindToken(s.slots, s.slots[k].token) == k
  {
    hide Carries;
    var j := FindToken(s.slots, s.slots[k].token);
    assert j <= k;
  }

  /** Changing a slot without changing its token keeps the slots in order. */
  lemma SlotsChanged(s: State, s': State, issued: seq<seq<byte>>, k: nat, b: Slot)
    requires SlotsOk(s, issued) && k < |s.slots| && s'.slots == s.slots[k := b] && s'.lastToken == s.lastToken
    requires b.token == s.slots[k].token && |b.buffer| == BUFFER_SIZE && Carries(b, issued)
    ensures SlotsOk(s', issued)
  {
    hide Carries;
  }

  lemma CarriesMore(b: Slot, issued: seq<seq<byte>>, data: seq<byte>)
    requires Carries(b, issued)
    ensures Carries(b, issued + [data])
  {}

  /** Which tokens run after a slot has been freed or has only moved on. */
  lemma RunningAfter(s: State, issued: seq<seq<byte>>, k: nat, b: Slot, token: nat)
    requires SlotsOk(s, issued) && Runs(s.slots, k, token) && b.token == token
    ensures forall t :: Running(s.slots[k := b], t) <==> Running(s.slots, t) && (t != token || b.running)
    ensures Running(s.slots, token) && !Running(s.slots, 0) && token > 0
  {
    OthersRun(s, issued, k, token);
    hide SlotsOk;
    var slots := s.slots[k := b];
    forall t
      ensures Running(slots, t) <==> Running(s.slots, t) && (t != token || b.running)
    {
      if Running(slots, t) {
        var i :| Runs(slots, i, t);
        assert Runs(s.slots, i, t);
      }
      if Running(s.slots, t) {
        var i :| Runs(s.slots, i, t);
        assert i != k || b.running ==> Runs(slots, i, t);
      }
    }
  }

  /** Only one slot runs under a token. */
  lemma OneRuns(s: State, issued: seq<seq<byte>>, i: nat, j: nat, token: nat)
    requires SlotsOk(s, issued) && Runs(s.slots, i, token) && Runs(s.slots, j, token)
    ensures i == j && 1 <= token <= |issued|
  {}

  lemma OthersRun(s: State, issued: seq<seq<byte>>, k: nat, token: nat)
    requires SlotsOk(s, issued) && Runs(s.slots, k, token)
    ensures 1 <= token <= |issued|
    ensures forall i :: 0 <= i < |s.slots| && s.slots[i].running && i != k ==> s.slots[i].token != token
    ensures forall i :: 0 <= i < |s.slots| && s.slots[i].running ==> s.slots[i].token > 0
  {}

  // ----- the end of a publish -----

  predicate Ending(s: State, s': State, k: nat, b: Slot, token: nat, error: int) {
    && k < |s.slots| && !b.running && b.token == token && |b.buffer| == BUFFER_SIZE
    && s' == State(s.slots[k := b], s.lastToken, s.pending, s.sent, s.done + [Done(token, error)])
  }

  lemma EndWaiting(s: State, s': State, issued: seq<seq<byte>>, k: nat, b: Slot, token: nat, error: int)
    requires SlotsOk(s, issued) && Waiting(s, token) && Runs(s.slots, k, token) && Ending(s, s', k, b, token, error)
    ensures Waiting(s', 0)
  {
    RunningAfter(s, issued, k, b, token);
    hide SlotsOk, Running;
    forall t | Running(s'.slots, t)
      ensures Waited(s', t)
    {
      assert Waited(s, t);
    }
  }

  lemma EndProgress(s: State, s': State, issued: seq<seq<byte>>, k: nat, b: Slot, token: nat, error: int)
    requires SlotsOk(s, issued) && InProgress(s) && Runs(s.slots, k, token) && Ending(s, s', k, b, token, error)
    ensures InProgress(s')
  {
    OthersRun(s, issued, k, token);
    hide SlotsOk, Ends, Packets, Chunks;
    forall i | 0 <= i < |s'.slots| && s'.slots[i].running
      ensures s'.slots[i] == s.slots[i] && Ends(s'.done, s'.slots[i].token) == Ends(s.done, s.slots[i].token)
    {
      EndsNext(s.done, Done(token, error), s.slots[i].token);
    }
  }

  lemma EndHistories(s: State, s': State, issued: seq<seq<byte>>, k: nat, b: Slot, token: nat, error: int)
    requires SlotsOk(s, issued) && InProgress(s) && Histories(s, issued) && Runs(s.slots, k, token)
    requires Ending(s, s', k, b, token, error) && (error == NONE ==> LastBlock(s.slots[k]))
    ensures Histories(s', issued)
  {
    RunningAfter(s, issued, k, b, token);
    LastIs(s.slots[k], issued);
    assert s.slots[k].data == issued[token - 1] && s.slots[k].totBlocks == Blocks(|issued[token - 1]|);
    hide SlotsOk, Ends, Packets, Chunks, Blocks, LastBlock, Running;
    assert Packets(s.sent, token) == Chunks(token, issued[token - 1], s.slots[k].index + 1)
           && Ends(s.done, token) == [];
    JustEnded(s, s', token, issued[token - 1], s.slots[k].index + 1, error);
    forall t: nat | t >= 1 && t != token
      ensures t <= |issued| && !Running(s'.slots, t) ==> Ended(s', t, issued[t - 1])
      ensures t > |issued| ==> Packets(s'.sent, t) == [] && Ends(s'.done, t) == []
    {
      EndsNext(s.done, Done(token, error), t);
      if t <= |issued| && !Running(s.slots, t) {
        assert Ended(s, t, issued[t - 1]);
      }
    }
  }

  lemma JustEnded(s: State, s': State, token: nat, data: seq<byte>, n: nat, error: int)
    requires s'.sent == s.sent && s'.done == s.done + [Done(token, error)] && Ends(s.done, token) == []
    requires n <= Blocks(|data|) && Packets(s.sent, token) == Chunks(token, data, n)
             && (error == NONE ==> n == Blocks(|data|))
    ensures Ended(s', token, data)
  {
    EndsNext(s.done, Done(token, error), token);
    hide Ends, Packets, Chunks, Blocks;
  }

  lemma EndSlot(s: State, s': State, issued: seq<seq<byte>>, k: nat, b: Slot, token: nat, error: int)
    requires Inv(s, issued, token) && Runs(s.slots, k, token) && Ending(s, s', k, b, token, error)
    requires error == NONE ==> LastBlock(s.slots[k])
    ensures Inv(s', issued, 0)
  {
    SlotsChanged(s, s', issued, k, b);
    EndWaiting(s, s', issued, k, b, token, error);
    EndProgress(s, s', issued, k, b, token, error);
    EndHistories(s, s', issued, k, b, token, error);
  }

  // ----- the next block -----

  predicate Advancing(s: State, s': State, k: nat, token: nat, id: nat) {
    && k < |s.slots| && id !in s.pending && |s.slots[k].buffer| == BUFFER_SIZE
    && var b := s.slots[k].(index := s.slots[k].index + 1);
       s' == State(s.slots[k := b], s.lastToken, s.pending[id := token], s.sent + [NextPacket(b)], s.done)
  }

  lemma AdvanceWaiting(s: State, s': State, issued: seq<seq<byte>>, k: nat, token: nat, id: nat)
    requires SlotsOk(s, issued) && Waiting(s, token) && Runs(s.slots, k, token) && Advancing(s, s', k, token, id)
    ensures Waiting(s', 0)
  {
    RunningAfter(s, issued, k, s'.slots[k], token);
    assert s.slots[k := s'.slots[k]] == s'.slots && s'.slots[k].running;
    hide SlotsOk, NextPacket, Running, Runs;
    assert s'.pending[id] == token;
    forall j | j in s'.pending
      ensures s'.pending[j] != 0 && Running(s'.slots, s'.pending[j])
      ensures j != id ==> j in s.pending && s.pending[j] == s'.pending[j] != token
    {
      assert j == id || Running(s.slots, s.pending[j]);
    }
    forall t | Running(s'.slots, t)
      ensures Waited(s', t)
    {
      if t != token {
        assert Waited(s, t);
        var j :| j in s.pending && s.pending[j] == t;
        assert j in s'.pending && s'.pending[j] == t;
      }
    }
  }

  /** The block sent is the next one of the data. */
  lemma AdvancePacket(s: State, s': State, issued: seq<seq<byte>>, k: nat, token: nat, id: nat)
    requires SlotsOk(s, issued) && Runs(s.slots, k, token) && Advancing(s, s', k, token, id) && !LastBlock(s.slots[k])
    ensures var b := s'.slots[k];
            && Carries(b, issued) && b.index < Blocks(|b.data|) && b.index == s.slots[k].index + 1
               && b.data == s.slots[k].data
            && b.running && b.token == token && NextPacket(b) == Chunk(token, b.data, b.index)
  {
    LastIs(s.slots[k], issued);
    NextIs(s'.slots[k], issued);
  }

  lemma AdvanceProgress(s: State, s': State, issued: seq<seq<byte>>, k: nat, token: nat, id: nat)
    requires SlotsOk(s, issued) && InProgress(s) && Runs(s.slots, k, token) && Advancing(s, s', k, token, id)
    requires !LastBlock(s.slots[k])
    ensures InProgress(s') && Carries(s'.slots[k], issued)
    ensures forall t :: t != token ==> Packets(s'.sent, t) == Packets(s.sent, t)
  {
    AdvancePacket(s, s', issued, k, token, id);
    OthersRun(s, issued, k, token);
    var b := s'.slots[k];
    var p := NextPacket(b);
    assert s'.sent == s.sent + [p];
    hide SlotsOk, Carries, NextPacket, Packets, Ends, Blocks, LastBlock, Chunk;
    forall t
      ensures Packets(s'.sent, t) == if t == token then Packets(s.sent, t) + [p] else Packets(s.sent, t)
    {
      PacketsNext(s.sent, p, t);
    }
    assert Chunks(token, b.data, b.index + 1) == Chunks(token, b.data, b.index) + [p];
  }

  lemma AdvanceHistories(s: State, s': State, issued: seq<seq<byte>>, k: nat, token: nat, id: nat)
    requires SlotsOk(s, issued) && Histories(s, issued) && Runs(s.slots, k, token) && Advancing(s, s', k, token, id)
    requires forall t :: t != token ==> Packets(s'.sent, t) == Packets(s.sent, t)
    ensures Histories(s', issued)
  {
    RunningAfter(s, issued, k, s'.slots[k], token);
    assert s.slots[k := s'.slots[k]] == s'.slots && s'.slots[k].running;
    hide SlotsOk, NextPacket, Packets, Ends, Chunks, Blocks, Running, Runs;
    forall t | 1 <= t <= |issued| && !Running(s'.slots, t)
      ensures Ended(s', t, issued[t - 1])
    {
      assert t != token && !Running(s.slots, t);
      assert Ended(s, t, issued[t - 1]);
    }
  }

  lemma AdvanceSlot(s: State, s': State, issued: seq<seq<byte>>, k: nat, token: nat, id: nat)
    requires Inv(s, issued, token) && Runs(s.slots, k, token) && Advancing(s, s', k, token, id)
             && !LastBlock(s.slots[k])
    ensures Inv(s', issued, 0)
  {
    AdvanceProgress(s, s', issued, k, token, id);
    SlotsChanged(s, s', issued, k, s'.slots[k]);
    AdvanceWaiting(s, s', issued, k, token, id);
    AdvanceHistories(s, s', issued, k, token, id);
  }

  // ----- a new publish -----

  predicate Starting(s: State, s': State, issued: seq<seq<byte>>, k: nat, b: Slot, data: seq<byte>) {
    && k < |s.slots| && !s.slots[k].running && b.token == |issued| + 1 && |b.buffer| == BUFFER_SIZE
    && s'.slots == s.slots[k := b] && s'.lastToken == |issued| + 1
  }

  lemma NewSlots(s: State, s': State, issued: seq<seq<byte>>, k: nat, b: Slot, data: seq<byte>)
    requires SlotsOk(s, issued) && Starting(s, s', issued, k, b, data) && Carries(b, issued + [data])
    ensures SlotsOk(s', issued + [data])
  {
    forall i | 0 <= i < |s.slots|
      ensures Carries(s.slots[i], issued + [data])
    {
      CarriesMore(s.slots[i], issued, data);
    }
    hide Carries;
  }

  lemma NewRunning(s: State, s': State, issued: seq<seq<byte>>, k: nat, b: Slot, data: seq<byte>)
    requires SlotsOk(s, issued) && Starting(s, s', issued, k, b, data)
    ensures forall t :: Running(s'.slots, t) <==> Running(s.slots, t) || (b.running && t == b.token)
    ensures forall t: nat :: Running(s.slots, t) ==> 1 <= t <= |issued|
  {
    forall t
      ensures Running(s'.slots, t) <==> Running(s.slots, t) || (b.running && t == b.token)
    {
      if Running(s'.slots, t) {
        var i :| Runs(s'.slots, i, t);
        assert i != k ==> Runs(s.slots, i, t);
      }
      if Running(s.slots, t) {
        var i :| Runs(s.slots, i, t);
        assert Runs(s'.slots, i, t);
      }
      if b.running && t == b.token {
        assert Runs(s'.slots, k, t);
      }
    }
  }

  lemma StartAccepted(s: State, s': State, issued: seq<seq<byte>>, k: nat, b: Slot, data: seq<byte>, id: nat)
    requires Inv(s, issued, 0) && Starting(s, s', issued, k, b, data) && id !in s.pending
    requires Carries(b, issued + [data]) && b.running && b.index == 0
    requires s'.pending == s.pending[id := b.token] && s'.sent == s.sent + [Chunk(b.token, data, 0)]
             && s'.done == s.done
    ensures Inv(s', issued + [data], 0)
  {
    NewSlots(s, s', issued, k, b, data);
    NewRunning(s, s', issued, k, b, data);
    NewWaiting(s, s', b.token, id);
    assert b.data == data;
    hide SlotsOk, Carries, Running, Runs, Packets, Ends, Blocks, Waiting;
    var p := Chunk(b.token, data, 0);
    forall t
      ensures Packets(s'.sent, t) == if t == b.token then Packets(s.sent, t) + [p] else Packets(s.sent, t)
    {
      PacketsNext(s.sent, p, t);
    }
    SlotTokens(s, issued);
    assert Chunks(b.token, data, 0) == [] && Chunks(b.token, data, 1) == [] + [p];
    NewHistories(s, s', issued, b.token, data);
  }

  lemma SlotTokens(s: State, issued: seq<seq<byte>>)
    requires SlotsOk(s, issued)
    ensures forall i :: 0 <= i < |s.slots| ==> s.slots[i].token <= |issued|
    ensures forall i :: 0 <= i < |s.slots| && s.slots[i].running ==> 1 <= s.slots[i].token
  {}

  lemma NewWaiting(s: State, s': State, token: nat, id: nat)
    requires Waiting(s, 0) && id !in s.pending && token > 0 && s'.pending == s.pending[id := token]
    requires forall t :: Running(s'.slots, t) <==> Running(s.slots, t) || t == token
    requires !Running(s.slots, token)
    ensures Waiting(s', 0)
  {
    hide Running;
    assert s'.pending[id] == token;
    forall j | j in s'.pending
      ensures s'.pending[j] != 0 && Running(s'.slots, s'.pending[j])
      ensures j != id ==> j in s.pending && s.pending[j] == s'.pending[j] != token
    {
      assert j == id || Running(s.slots, s.pending[j]);
    }
    forall t: nat | Running(s'.slots, t) && t != 0
      ensures Waited(s', t)
    {
      if t != token {
        assert Running(s.slots, t) && Waited(s, t);
        var j :| j in s.pending && s.pending[j] == t;
        assert j in s'.pending && s'.pending[j] == t;
      }
    }
  }

  lemma NewHistories(s: State, s': State, issued: seq<seq<byte>>, token: nat, data: seq<byte>)
    requires Histories(s, issued) && token == |issued| + 1
    requires forall t :: Running(s'.slots, t) <==> Running(s.slots, t) || t == token
    requires forall t :: t != token ==> Packets(s'.sent, t) == Packets(s.sent, t)
    requires s'.done == s.done
    ensures Histories(s', issued + [data])
  {
    hide Running, Packets, Ends, Chunks, Blocks;
    forall t | 1 <= t <= |issued + [data]| && !Running(s'.slots, t)
      ensures Ended(s', t, (issued + [data])[t - 1])
    {
      assert t != token && !Running(s.slots, t);
      assert Ended(s, t, issued[t - 1]);
    }
  }

  lemma StartRefused(s: State, s': State, issued: seq<seq<byte>>, k: nat, b: Slot, data: seq<byte>)
    requires Inv(s, issued, 0) && Starting(s, s', issued, k, b, data) && !b.running
    requires s'.pending == s.pending && s'.sent == s.sent && s'.done == s.done + [Done(b.token, INTERNAL)]
    ensures Inv(s', issued + [data], 0)
  {
    assert Carries(b, issued + [data]);
    NewSlots(s, s', issued, k, b, data);
    NewRunning(s, s', issued, k, b, data);
    RefusedHistories(s, s', issued, b.token, data);
    RefusedProgress(s, s', issued, k, b, data);
    hide SlotsOk, Running, InProgress, Histories;
    forall t: nat | Running(s'.slots, t) && t != 0
      ensures Waited(s', t)
    {
      assert Waited(s, t);
    }
  }

  lemma RefusedProgress(s: State, s': State, issued: seq<seq<byte>>, k: nat, b: Slot, data: seq<byte>)
    requires SlotsOk(s, issued) && InProgress(s) && Starting(s, s', issued, k, b, data) && !b.running
    requires s'.sent == s.sent && s'.done == s.done + [Done(b.token, INTERNAL)]
    ensures InProgress(s')
  {
    SlotTokens(s, issued);
    hide SlotsOk, Packets, Ends, Chunks;
    forall i | 0 <= i < |s'.slots| && s'.slots[i].running
      ensures s'.slots[i] == s.slots[i] && Ends(s'.done, s.slots[i].token) == Ends(s.done, s.slots[i].token)
    {
      EndsNext(s.done, Done(b.token, INTERNAL), s.slots[i].token);
    }
  }

  lemma RefusedHistories(s: State, s': State, issued: seq<seq<byte>>, token: nat, data: seq<byte>)
    requires Histories(s, issued) && token == |issued| + 1
    requires forall t: nat :: Running(s'.slots, t) <==> Running(s.slots, t)
    requires s'.sent == s.sent && s'.done == s.done + [Done(token, INTERNAL)]
    ensures Histories(s', issued + [data])
  {
    assert Chunks(token, data, 0) == [];
    hide Running, Packets, Ends, Chunks, Blocks;
    forall t
      ensures Ends(s'.done, t) == if t == token then Ends(s.done, t) + [Done(token, INTERNAL)] else Ends(s.done, t)
    {
      EndsNext(s.done, Done(token, INTERNAL), t);
    }
    forall t | 1 <= t <= |issued + [data]| && !Running(s'.slots, t)
      ensures Ended(s', t, (issued + [data])[t - 1])
    {
      if t == token {
        assert Packets(s'.sent, t) == [] == Chunks(t, data, 0);
      } else {
        assert !Running(s.slots, t);
        assert Ended(s, t, issued[t - 1]);
      }
    }
  }

  // ----- replies -----

  /** Taking a waiting handler out leaves its publish as the one without a handler. */
  lemma TakeOut(s: State, issued: seq<seq<byte>>, id: nat) returns (k: nat)
    requires Inv(s, issued, 0) && id in s.pending
    ensures Inv(s.(pending := s.pending - {id}), issued, s.pending[id])
    ensures Runs(s.slots, k, s.pending[id]) && FindToken(s.slots, s.pending[id]) == k && s.pending[id] > 0
  {
    var token, s' := s.pending[id], s.(pending := s.pending - {id});
    NoZero(s, issued);
    TakeOutWaiting(s, id);
    k := SlotOf(s, issued, id);
    hide SlotsOk, Waiting, InProgress, Histories, FindToken;
  }

  lemma SlotOf(s: State, issued: seq<seq<byte>>, id: nat) returns (k: nat)
    requires SlotsOk(s, issued) && Waiting(s, 0) && id in s.pending
    ensures Runs(s.slots, k, s.pending[id]) && FindToken(s.slots, s.pending[id]) == k && s.pending[id] > 0
  {
    assert Running(s.slots, s.pending[id]);
    k :| Runs(s.slots, k, s.pending[id]);
    OneRuns(s, issued, k, k, s.pending[id]);
    TokenAt(s, issued, k);
  }

  lemma TakeOutWaiting(s: State, id: nat)
    requires Waiting(s, 0) && id in s.pending && !Running(s.slots, 0)
    ensures Waiting(s.(pending := s.pending - {id}), s.pending[id])
  {
    var token, s' := s.pending[id], s.(pending := s.pending - {id});
    hide Running;
    forall t: nat | Running(s'.slots, t) && t != token
      ensures Waited(s', t)
    {
      assert t != 0 && Waited(s, t);
      var j :| j in s.pending && s.pending[j] == t;
      assert j in s'.pending && s'.pending[j] == t;
    }
  }

  lemma NoZero(s: State, issued: seq<seq<byte>>)
    requires SlotsOk(s, issued)
    ensures !Running(s.slots, 0)
  {}

  /**
   What the server may answer: 2.31 to every block but the last, a plain success only to the last; errors any
   time.
   */
  predicate ProperResponse(b: Slot, resp: Response) {
    match resp
    case Continue => !LastBlock(b)
    case Success => LastBlock(b)
    case Error(e) => true
  }

  /** A callback with an error, or for the last block, frees the slot and completes the publish. */
  lemma CallbackEnds(s: State, issued: seq<seq<byte>>, k: nat, token: nat, error: int)
    requires Inv(s, issued, token) && Runs(s.slots, k, token) && (error == NONE ==> LastBlock(s.slots[k]))
    ensures Inv(Callback(s, token, error), issued, 0)
  {
    OneRuns(s, issued, k, k, token);
    TokenAt(s, issued, k);
    CarriesFreed(s, issued, k);
    EndSlot(s, Callback(s, token, error), issued, k, s.slots[k].(running := false), token, error);
  }

  lemma CarriesFreed(s: State, issued: seq<seq<byte>>, k: nat)
    requires SlotsOk(s, issued) && k < |s.slots|
    ensures |s.slots[k].buffer| == BUFFER_SIZE && Carries(s.slots[k].(running := false), issued)
  {}

  /** After 2.31 to a block that is not the last, the next block is on its way, or refused and the publish completed. */
  lemma ContinueKeeps(s: State, issued: seq<seq<byte>>, k: nat, token: nat, r: Sending)
    requires Inv(s, issued, token) && Runs(s.slots, k, token) && !LastBlock(s.slots[k])
    requires FindToken(s.slots, token) == k && (r.Accepted? ==> r.id !in s.pending)
    ensures Buffers(s) && |s.slots[k].buffer| == BUFFER_SIZE
    ensures var b := s.slots[k].(index := s.slots[k].index + 1);
            Inv(SendEvent(s.(slots := s.slots[k := b]), NextPacket(b), r), issued, 0)
  {
    CarriesFreed(s, issued, k);
    var b := s.slots[k].(index := s.slots[k].index + 1);
    assert NextPacket(b).token == token;
    hide NextPacket;
    match r {
      case Accepted(id) => AdvanceSlot(s, SendEvent(s.(slots := s.slots[k := b]), NextPacket(b), r), issued, k, token,
          id);
      case Refused =>
        SameToken(s.slots, k, b, token);
        var s' := Callback(s.(slots := s.slots[k := b]), token, INTERNAL);
        assert s.slots[k := b][k := b.(running := false)] == s.slots[k := b.(running := false)];
        EndSlot(s, s', issued, k, b.(running := false), token, INTERNAL);
    }
  }

  lemma {:induction false} SameToken(slots: seq<Slot>, k: nat, b: Slot, token: nat)
    requires k < |slots| && FindToken(slots, token) == k && b.token == token
    ensures FindToken(slots[k := b], token) == k
  {
    if k > 0 {
      SameToken(slots[1..], k - 1, b, token);
      assert slots[k := b][1..] == slots[1..][k - 1 := b];
    }
  }

  predicate Answers(s: State, id: nat, token: nat, resp: Response, r: Sending) {
    && id in s.pending && s.pending[id] == token
    && (resp.Error? ==> resp.error != NONE) && (r.Accepted? ==> r.id !in s.pending)
  }

  /** The state after the reply to a block, by cases. */
  lemma ReplyIs(s: State, id: nat, token: nat, resp: Response, r: Sending, k: nat)
    requires Buffers(s) && id in s.pending && s.pending[id] == token && k < |s.slots| && FindToken(s.slots, token) == k
    ensures var s' := s.(pending := s.pending - {id});
            && (resp == Success ==> Reply(s, id, token, resp, r) == Callback(s', token, NONE))
            && (resp.Error? ==> Reply(s, id, token, resp, r) == Callback(s', token, resp.error))
            && (resp == Continue && !LastBlock(s.slots[k]) ==>
                  Reply(s, id, token, resp, r) == Onward(s', k, s.slots[k], r))
            && (resp == Continue && LastBlock(s.slots[k]) ==>
                  Reply(s, id, token, resp, r)
                  == Onward(s'.(done := s.done + [Done(token, NONE)]), k, s.slots[k].(running := false), r))
  {
    hide NextPacket, LastBlock, FindToken;
    var b := s.slots[k].(running := false);
    SameToken(s.slots, k, b, token);
    var moved := b.(index := b.index + 1);
    assert s.slots[k := b][k := moved] == s.slots[k := moved];
  }

  /** The counter of slot k moves on, starting from b, and the next block is handed to the channel. */
  function Onward(s: State, k: nat, b: Slot, r: Sending): State
    requires k < |s.slots| && |b.buffer| == BUFFER_SIZE
  {
    var moved := b.(index := b.index + 1);
    SendEvent(s.(slots := s.slots[k := moved]), NextPacket(moved), r)
  }

  lemma InvBuffers(s: State, issued: seq<seq<byte>>, x: nat)
    requires Inv(s, issued, x)
    ensures Buffers(s)
  {}

  lemma ReplyKeeps(s: State, issued: seq<seq<byte>>, id: nat, token: nat, resp: Response, r: Sending)
    requires Inv(s, issued, 0) && Answers(s, id, token, resp, r)
    requires FindToken(s.slots, token) < |s.slots| ==> ProperResponse(s.slots[FindToken(s.slots, token)], resp)
    ensures Buffers(s) && Inv(Reply(s, id, token, resp, r), issued, 0)
  {
    hide Inv, Buffers, NextPacket, Reply, Callback, SendEvent, LastBlock, FindToken;
    InvBuffers(s, issued, 0);
    var k := TakeOut(s, issued, id);
    ReplyIs(s, id, token, resp, r, k);
    var s' := s.(pending := s.pending - {id});
    match resp {
      case Continue => ContinueKeeps(s', issued, k, token, r);
      case Success => CallbackEnds(s', issued, k, token, NONE);
      case Error(e) => CallbackEnds(s', issued, k, token, e);
    }
  }

  /**
   2.31 to a block that is not the last sends the next block of the data, and its handler waits in place of this one.
   */
  lemma ContinueAdvances(s: State, issued: seq<seq<byte>>, id: nat, token: nat, r: Sending)
    requires Inv(s, issued, 0) && Answers(s, id, token, Continue, r) && r.Accepted? && 1 <= token <= |issued|
    requires FindToken(s.slots, token) < |s.slots| && !LastBlock(s.slots[FindToken(s.slots, token)])
    ensures Buffers(s)
    ensures var k, s' := FindToken(s.slots, token), Reply(s, id, token, Continue, r);
            var n, data := s.slots[k].index, issued[token - 1];
            && s'.slots == s.slots[k := s.slots[k].(index := n + 1)] && s'.slots[k].running
            && s'.pending == (s.pending - {id})[r.id := token] && s'.done == s.done
            && 1024 * (n + 1) < |data|
            && s'.sent == s.sent + [Packet(token, n + 1, Blocks(|data|),
                                           data[1024 * (n + 1)..Min(1024 * (n + 2), |data|)])]
  {
    hide Inv, Buffers, NextPacket, Reply, FindToken, LastBlock, Blocks, Chunk;
    InvBuffers(s, issued, 0);
    var k := TakeOut(s, issued, id);
    ReplyIs(s, id, token, Continue, r, k);
    var t := s.(pending := s.pending - {id});
    var s' := Onward(t, k, s.slots[k], r);
    NextIsChunk(t, s', issued, k, token, r.id);
    ChunkIs(token, issued[token - 1], s.slots[k].index + 1);
  }

  lemma NextIsChunk(s: State, s': State, issued: seq<seq<byte>>, k: nat, token: nat, id: nat)
    requires Inv(s, issued, token) && Runs(s.slots, k, token) && !LastBlock(s.slots[k]) && 1 <= token <= |issued|
    requires |s.slots[k].buffer| == BUFFER_SIZE && id !in s.pending && s' == Onward(s, k, s.slots[k], Accepted(id))
    ensures var n := s.slots[k].index;
            && n + 1 < Blocks(|issued[token - 1]|)
            && s' == State(s.slots[k := s.slots[k].(index := n + 1)], s.lastToken, s.pending[id := token],
                           s.sent + [Chunk(token, issued[token - 1], n + 1)], s.done)
  {
    hide *;
    OnwardAdvances(s, issued, k, token, id);
    AdvancePacket(s, s', issued, k, token, id);
    Advanced(s, s', issued, k, token, id);
  }

  lemma OnwardAdvances(s: State, issued: seq<seq<byte>>, k: nat, token: nat, id: nat)
    requires Inv(s, issued, token) && Runs(s.slots, k, token) && id !in s.pending
    requires |s.slots[k].buffer| == BUFFER_SIZE
    ensures Advancing(s, Onward(s, k, s.slots[k], Accepted(id)), k, token, id) && SlotsOk(s, issued)
  {
    hide SlotsOk, Waiting, InProgress, Histories;
  }

  lemma Advanced(s: State, s': State, issued: seq<seq<byte>>, k: nat, token: nat, id: nat)
    requires SlotsOk(s, issued) && Runs(s.slots, k, token) && Advancing(s, s', k, token, id) && 1 <= token <= |issued|
    requires var b := s'.slots[k];
             b.index < Blocks(|b.data|) && b.data == s.slots[k].data && NextPacket(b) == Chunk(token, b.data, b.index)
    ensures var n := s.slots[k].index;
            && n + 1 < Blocks(|issued[token - 1]|)
            && s' == State(s.slots[k := s.slots[k].(index := n + 1)], s.lastToken, s.pending[id := token],
                           s.sent + [Chunk(token, issued[token - 1], n + 1)], s.done)
  {
    hide NextPacket, Blocks, Chunk;
    assert Carries(s.slots[k], issued);
  }

  /** Block i of the data, by its bytes. */
  lemma ChunkIs(token: nat, data: seq<byte>, i: nat)
    requires i < Blocks(|data|)
    ensures 1024 * i <= |data| && (i > 0 ==> 1024 * i < |data|)
    ensures Chunk(token, data, i) == Packet(token, i, Blocks(|data|), data[1024 * i..Min(1024 * (i + 1), |data|)])
    ensures 1024 * (Blocks(|data|) - 1) <= |data| <= 1024 * Blocks(|data|)
  {}

  /** A plain success to the last block frees the slot and completes the publish without an error. */
  lemma LastCompletes(s: State, issued: seq<seq<byte>>, id: nat, token: nat, r: Sending)
    requires Inv(s, issued, 0) && Answers(s, id, token, Success, r)
    requires FindToken(s.slots, token) < |s.slots| && LastBlock(s.slots[FindToken(s.slots, token)])
    ensures Buffers(s)
    ensures var k, s' := FindToken(s.slots, token), Reply(s, id, token, Success, r);
            && s.slots[k].running && s'.slots == s.slots[k := s.slots[k].(running := false)]
            && s'.pending == s.pending - {id} && s'.sent == s.sent && s'.done == s.done + [Done(token, 0)]
  {
    hide Inv, Buffers, Reply, FindToken, LastBlock;
    InvBuffers(s, issued, 0);
    var k := TakeOut(s, issued, id);
    ReplyIs(s, id, token, Success, r, k);
  }

  /** A plain success for a block that is not the last leaves the publish running with nothing to wait for. */
  lemma StalledBySuccess(s: State, issued: seq<seq<byte>>, id: nat, token: nat, r: Sending)
    requires Inv(s, issued, 0) && Answers(s, id, token, Success, r)
    requires FindToken(s.slots, token) < |s.slots| && !LastBlock(s.slots[FindToken(s.slots, token)])
    ensures var s' := Reply(s, id, token, Success, r);
            && s' == s.(pending := s.pending - {id})
            && Running(s'.slots, token) && !Waited(s', token) && !Inv(s', issued, 0)
  {
    var k := TakeOut(s, issued, id);
    ReplyIs(s, id, token, Success, r, k);
    assert Runs(s.slots, k, token);
    hide SlotsOk, InProgress, Histories, FindToken, Reply, LastBlock;
    assert Running(s.slots, token);
  }

  /** The publish is completed and its slot free, and one more packet waits for it, or completes it once more. */
  ghost predicate Repeated(s: State, s': State, id: nat, token: nat, last: nat, r: Sending) {
    && !Running(s'.slots, token)
    && (r.Accepted? ==>
          && Ends(s'.done, token) == [Done(token, NONE)] && s'.pending == (s.pending - {id})[r.id := token]
          && |s'.sent| == |s.sent| + 1 && s'.sent[..|s.sent|] == s.sent
          && s'.sent[|s.sent|].token == token && s'.sent[|s.sent|].id == last + 1)
    && (r.Refused? ==>
          Ends(s'.done, token) == [Done(token, NONE), Done(token, INTERNAL)] && s'.sent == s.sent)
  }

  /**
   2.31 to the last block completes the publish and frees its slot, and then sends a packet behind the last one:
   its handler waits for a slot that is free, or, when it is refused, the publish is completed a second time.
   */
  lemma RepeatedByContinue(s: State, issued: seq<seq<byte>>, id: nat, token: nat, r: Sending)
    requires Inv(s, issued, 0) && Answers(s, id, token, Continue, r)
    requires FindToken(s.slots, token) < |s.slots| && LastBlock(s.slots[FindToken(s.slots, token)])
    ensures Buffers(s) && !Inv(Reply(s, id, token, Continue, r), issued, 0)
    ensures var b := s.slots[FindToken(s.slots, token)];
            b.index + 1 == b.totBlocks && Repeated(s, Reply(s, id, token, Continue, r), id, token, b.index, r)
  {
    hide Inv, Buffers, Running, Reply, FindToken, LastBlock, Waited, Repeated, NextPacket, Ends;
    InvBuffers(s, issued, 0);
    var k := TakeOut(s, issued, id);
    LastSlot(s, issued, k);
    ReplyIs(s, id, token, Continue, r, k);
    var moved := s.slots[k].(running := false, index := s.slots[k].index + 1);
    Alone(s, issued, k, token, moved);
    var s1 := s.(pending := s.pending - {id}, done := s.done + [Done(token, NONE)], slots := s.slots[k := moved]);
    SentAgain(s1, issued, k, moved, token, r);
    SendsAgain(s, s1, id, k, moved, token, r);
  }

  lemma LastSlot(s: State, issued: seq<seq<byte>>, k: nat)
    requires Inv(s, issued, 0) && k < |s.slots| && s.slots[k].running && LastBlock(s.slots[k])
    ensures s.slots[k].index + 1 == s.slots[k].totBlocks
    ensures LastBlock(s.slots[k].(running := false, index := s.slots[k].index + 1))
  {
    LastIs(s.slots[k], issued);
  }

  /** What is left behind when the packet after the last one is sent or refused. */
  lemma SendsAgain(s: State, s1: State, id: nat, k: nat, b: Slot, token: nat, r: Sending)
    requires k < |s1.slots| && s1.slots[k] == b && !b.running && b.token == token && FindToken(s1.slots, token) == k
    requires |b.buffer| == BUFFER_SIZE && LastBlock(b) && b.index > 0 && !Running(s1.slots, token)
    requires s1.sent == s.sent && s1.pending == s.pending - {id} && Ends(s1.done, token) == [Done(token, NONE)]
    ensures Repeated(s, SendEvent(s1, NextPacket(b), r), id, token, b.index - 1, r)
  {
    hide FindToken, Ends, Running, LastBlock;
    EndsNext(s1.done, Done(token, INTERNAL), token);
    assert s1.slots[k := b] == s1.slots;
  }

  /** A packet sent for a publish that has ended. */
  lemma SentAgain(s: State, issued: seq<seq<byte>>, k: nat, b: Slot, token: nat, r: Sending)
    requires k < |s.slots| && s.slots[k] == b && !b.running && b.token == token && FindToken(s.slots, token) == k
    requires 1 <= token <= |issued| && !Running(s.slots, token) && |Ends(s.done, token)| == 1
             && |b.buffer| == BUFFER_SIZE
    ensures !Inv(SendEvent(s, NextPacket(b), r), issued, 0)
  {
    assert NextPacket(b).token == token;
    hide SlotsOk, InProgress, NextPacket, Running, FindToken, Ends;
    if r.Accepted? {
      assert SendEvent(s, NextPacket(b), r).pending[r.id] == token;
    } else {
      CompletedTwice(s, issued, k, b, token);
    }
  }

  lemma Alone(s: State, issued: seq<seq<byte>>, k: nat, token: nat, b: Slot)
    requires Inv(s, issued, 0) && Runs(s.slots, k, token) && b.token == token && !b.running
    ensures !Running(s.slots[k := b], token) && 1 <= token <= |issued| && FindToken(s.slots[k := b], token) == k
    ensures Ends(s.done + [Done(token, NONE)], token) == [Done(token, NONE)] && |s.slots[k].buffer| == BUFFER_SIZE
  {
    RunningAfterFreed(s, issued, k, b, token);
    AloneEnded(s, issued, k, token);
  }

  lemma CompletedTwice(s: State, issued: seq<seq<byte>>, k: nat, b: Slot, token: nat)
    requires k < |s.slots| && s.slots[k] == b && !b.running && FindToken(s.slots, token) == k
    requires 1 <= token <= |issued| && !Running(s.slots, token) && |Ends(s.done, token)| == 1
    ensures !Inv(Callback(s, token, INTERNAL), issued, 0)
  {
    var s' := Callback(s, token, INTERNAL);
    assert s'.slots == s.slots;
    EndsNext(s.done, Done(token, INTERNAL), token);
    hide SlotsOk, Waiting, InProgress, FindToken, Running, Packets, Ends, Chunks;
    assert !Ended(s', token, issued[token - 1]);
  }

  lemma RunningAfterFreed(s: State, issued: seq<seq<byte>>, k: nat, b: Slot, token: nat)
    requires SlotsOk(s, issued) && Runs(s.slots, k, token) && b.token == token && !b.running
    ensures !Running(s.slots[k := b], token) && 1 <= token <= |issued| && FindToken(s.slots[k := b], token) == k
  {
    TokenAt(s, issued, k);
    SameToken(s.slots, k, b, token);
    RunningAfter(s, issued, k, b, token);
    OneRuns(s, issued, k, k, token);
  }

  lemma AloneEnded(s: State, issued: seq<seq<byte>>, k: nat, token: nat)
    requires SlotsOk(s, issued) && InProgress(s) && Runs(s.slots, k, token)
    ensures Ends(s.done, token) == [] && Ends(s.done + [Done(token, NONE)], token) == [Done(token, NONE)]
  {
    EndsNext(s.done, Done(token, NONE), token);
  }

  /** A reply keeps the account of all publishes exactly when the server answers as blockwise transfer demands. */
  lemma ReplyExact(s: State, issued: seq<seq<byte>>, id: nat, token: nat, resp: Response, r: Sending)
    requires Inv(s, issued, 0) && Answers(s, id, token, resp, r)
    ensures var k := FindToken(s.slots, token);
            && k < |s.slots| && Buffers(s)
            && (Inv(Reply(s, id, token, resp, r), issued, 0) <==> ProperResponse(s.slots[k], resp))
  {
    var k := TakeOut(s, issued, id);
    hide SlotsOk, Waiting, InProgress, Histories, Reply, LastBlock;
    if ProperResponse(s.slots[k], resp) {
      ReplyKeeps(s, issued, id, token, resp, r);
    } else if resp == Continue {
      RepeatedByContinue(s, issued, id, token, r);
    } else {
      StalledBySuccess(s, issued, id, token, r);
    }
  }

  // ----- replies that come after their handler has timed out -----

  /** Nothing happens, because only 2.31 does anything without a handler, and no slot has the token any more. */
  predicate Harmless(s: State, token: nat, resp: Response, r: Sending) {
    resp != Continue || FindToken(s.slots, token) == |s.slots| || (token == 0 && r == Refused)
  }

  /**
   A reply whose handler is gone keeps the account exactly when it is not 2.31, or the slot it was for has been
   taken by another publish. (Token 0 is that of a slot never used, which a refused packet leaves alone.)
   */
  lemma LateReplyExact(s: State, issued: seq<seq<byte>>, id: nat, token: nat, resp: Response, r: Sending)
    requires Inv(s, issued, 0) && id !in s.pending && (r.Accepted? ==> r.id !in s.pending)
    ensures Buffers(s) && (Inv(Reply(s, id, token, resp, r), issued, 0) <==> Harmless(s, token, resp, r))
  {
    hide Inv, FindToken, Buffers, NextPacket;
    InvBuffers(s, issued, 0);
    var k := FindToken(s.slots, token);
    FoundToken(s.slots, token);
    if resp == Continue && k < |s.slots| {
      LateContinue(s, id, token, r, k);
      hide Reply, Onward;
      match r {
        case Accepted(_) => LateAccepted(s, issued, k, token, r);
        case Refused => LateRefused(s, issued, k, token);
      }
    }
  }

  lemma FoundToken(slots: seq<Slot>, token: nat)
    ensures var k := FindToken(slots, token); k <= |slots| && (k < |slots| ==> slots[k].token == token)
  {}

  lemma LateContinue(s: State, id: nat, token: nat, r: Sending, k: nat)
    requires Buffers(s) && id !in s.pending && k < |s.slots| && FindToken(s.slots, token) == k
    ensures Reply(s, id, token, Continue, r) == Onward(s, k, s.slots[k], r)
  {
    hide NextPacket, FindToken, SendEvent;
  }

  lemma SameRunning(slots: seq<Slot>, k: nat, b: Slot, token: nat)
    requires k < |slots| && b.token == slots[k].token && b.running == slots[k].running
    ensures Running(slots[k := b], token) <==> Running(slots, token)
  {
    if Running(slots[k := b], token) {
      var i :| Runs(slots[k := b], i, token);
      assert Runs(slots, i, token);
    }
    if Running(slots, token) {
      var i :| Runs(slots, i, token);
      assert Runs(slots[k := b], i, token);
    }
  }

  /** The next block goes out with a handler of its own: for a free slot, or for one that is waiting already. */
  lemma LateAccepted(s: State, issued: seq<seq<byte>>, k: nat, token: nat, r: Sending)
    requires Inv(s, issued, 0) && k < |s.slots| && s.slots[k].token == token && |s.slots[k].buffer| == BUFFER_SIZE
    requires r.Accepted? && r.id !in s.pending
    ensures !Inv(Onward(s, k, s.slots[k], r), issued, 0)
  {
    var moved := s.slots[k].(index := s.slots[k].index + 1);
    var s' := Onward(s, k, s.slots[k], r);
    OnwardAccepted(s, k, r);
    hide SlotsOk, InProgress, Histories, Running, Onward;
    SameRunning(s.slots, k, moved, token);
    assert s'.pending[r.id] == token;
    if token != 0 && Running(s.slots, token) {
      assert Waited(s, token);
      var id0 :| id0 in s.pending && s.pending[id0] == token;
      assert id0 != r.id && s'.pending[id0] == token;
    }
  }

  lemma OnwardAccepted(s: State, k: nat, r: Sending)
    requires k < |s.slots| && |s.slots[k].buffer| == BUFFER_SIZE && r.Accepted?
    ensures var s', b := Onward(s, k, s.slots[k], r), s.slots[k];
            s'.pending == s.pending[r.id := b.token] && s'.slots == s.slots[k := b.(index := b.index + 1)]
  {}

  lemma OnwardRefused(s: State, k: nat, token: nat)
    requires k < |s.slots| && FindToken(s.slots, token) == k && s.slots[k].token == token
    requires |s.slots[k].buffer| == BUFFER_SIZE
    ensures Onward(s, k, s.slots[k], Refused)
              == s.(slots := s.slots[k := s.slots[k].(index := s.slots[k].index + 1, running := false)],
                    done := s.done + [Done(token, INTERNAL)])
  {
    hide FindToken;
    var b := s.slots[k];
    var moved := b.(index := b.index + 1);
    SameToken(s.slots, k, moved, token);
    assert s.slots[k := moved][k := moved.(running := false)] == s.slots[k := moved.(running := false)];
  }

  lemma LateRefused(s: State, issued: seq<seq<byte>>, k: nat, token: nat)
    requires Inv(s, issued, 0) && k < |s.slots| && FindToken(s.slots, token) == k && s.slots[k].token == token
    requires |s.slots[k].buffer| == BUFFER_SIZE
    ensures Inv(Onward(s, k, s.slots[k], Refused), issued, 0) <==> token == 0
  {
    hide Onward, FindToken, Inv;
    OnwardRefused(s, k, token);
    var freed := s.slots[k].(index := s.slots[k].index + 1, running := false);
    var s' := Onward(s, k, s.slots[k], Refused);
    if token == 0 {
      UnusedSlot(s, s', issued, k, freed);
    } else if s.slots[k].running {
      LateRunning(s, s', issued, k, freed, token);
    } else {
      LateEnded(s, s', issued, k, freed, token);
    }
  }

  /** The running publish is completed while its handler is still waiting. */
  lemma LateRunning(s: State, s': State, issued: seq<seq<byte>>, k: nat, b: Slot, token: nat)
    requires Inv(s, issued, 0) && Runs(s.slots, k, token) && b.token == token && !b.running
    requires s'.slots == s.slots[k := b] && s'.pending == s.pending
    ensures !Inv(s', issued, 0)
  {
    RunningAfter(s, issued, k, b, token);
    hide SlotsOk, InProgress, Histories, Running;
    assert Waited(s, token);
    var id0 :| id0 in s.pending && s.pending[id0] == token;
    assert !Running(s'.slots, s'.pending[id0]);
  }

  /** The publish that has ended is completed a second time. */
  lemma LateEnded(s: State, s': State, issued: seq<seq<byte>>, k: nat, b: Slot, token: nat)
    requires Inv(s, issued, 0) && k < |s.slots| && s.slots[k].token == token > 0 && !s.slots[k].running
    requires b.token == token && !b.running && s'.slots == s.slots[k := b]
    requires s'.done == s.done + [Done(token, INTERNAL)]
    ensures !Inv(s', issued, 0)
  {
    NotRunning(s, issued, k, token);
    SameRunning(s.slots, k, b, token);
    EndsNext(s.done, Done(token, INTERNAL), token);
    hide SlotsOk, Waiting, InProgress, Running, Packets, Ends, Chunks, Blocks;
    assert Ended(s, token, issued[token - 1]);
    assert !Ended(s', token, issued[token - 1]);
  }

  lemma NotRunning(s: State, issued: seq<seq<byte>>, k: nat, token: nat)
    requires Inv(s, issued, 0) && k < |s.slots| && s.slots[k].token == token > 0 && !s.slots[k].running
    ensures !Running(s.slots, token) && token <= |issued|
  {
    hide Waiting, InProgress, Histories, Carries;
    if Running(s.slots, token) {
      var i :| Runs(s.slots, i, token);
    }
  }

  /** A slot never used has token 0, which no publish has. */
  lemma UnusedSlot(s: State, s': State, issued: seq<seq<byte>>, k: nat, b: Slot)
    requires Inv(s, issued, 0) && k < |s.slots| && s.slots[k].token == 0
    requires b.token == 0 && !b.running && |b.buffer| == BUFFER_SIZE
    requires s' == s.(slots := s.slots[k := b], done := s.done + [Done(0, INTERNAL)])
    ensures Inv(s', issued, 0)
  {
    assert !s.slots[k].running by { assert Carries(s.slots[k], issued); }
    forall t
      ensures Running(s'.slots, t) <==> Running(s.slots, t)
      ensures t > 0 ==> Ends(s'.done, t) == Ends(s.done, t)
    {
      SameRunning(s.slots, k, b, t);
      EndsNext(s.done, Done(0, INTERNAL), t);
    }
    SlotsChanged(s, s', issued, k, b);
    UnusedWaiting(s, s');
    UnusedProgress(s, s', issued, k, b);
    UnusedHistories(s, s', issued);
    hide SlotsOk, Waiting, InProgress, Histories, Running, Ends;
  }

  lemma UnusedWaiting(s: State, s': State)
    requires Waiting(s, 0) && s'.pending == s.pending
    requires forall t: nat :: Running(s'.slots, t) <==> Running(s.slots, t)
    ensures Waiting(s', 0)
  {
    hide Running;
    forall t: nat | Running(s'.slots, t) && t != 0
      ensures Waited(s', t)
    {
      assert Waited(s, t);
      var id :| id in s.pending && s.pending[id] == t;
      assert s'.pending[id] == t;
    }
  }

  lemma UnusedProgress(s: State, s': State, issued: seq<seq<byte>>, k: nat, b: Slot)
    requires SlotsOk(s, issued) && InProgress(s) && k < |s.slots| && !b.running
    requires s'.slots == s.slots[k := b] && s'.sent == s.sent
    requires forall t: nat :: t > 0 ==> Ends(s'.done, t) == Ends(s.done, t)
    ensures InProgress(s')
  {
    hide Packets, Ends, Chunks, Blocks;
  }

  lemma UnusedHistories(s: State, s': State, issued: seq<seq<byte>>)
    requires Histories(s, issued) && s'.sent == s.sent
    requires forall t: nat :: Running(s'.slots, t) <==> Running(s.slots, t)
    requires forall t: nat :: t > 0 ==> Ends(s'.done, t) == Ends(s.done, t)
    ensures Histories(s', issued)
  {
    hide Running, Packets, Ends, Chunks, Blocks;
    forall t | 1 <= t <= |issued| && !Running(s'.slots, t)
      ensures Ended(s', t, issued[t - 1])
    {
      assert Ended(s, t, issued[t - 1]);
    }
  }

  // ----- whole runs -----

  /** A publish by the application, the reply to a message, or the timeout of its handler. */
  datatype Ev = Published(data: seq<byte>, key: nat, sending: Sending)
              | Replied(id: nat, token: nat, resp: Response, sending: Sending)
              | Expired(id: nat, error: int)

  function Step(s: State, ev: Ev): State
    requires Buffers(s)
  {
    match ev
    case Published(data, key, r) => Start(s, data, key, r)
    case Replied(id, token, resp, r) => Reply(s, id, token, resp, r)
    case Expired(id, error) => Resolve(s, id, error)
  }

  /** A publish is started when it fits and a slot is free. */
  predicate Accepts(s: State, data: seq<byte>) {
    |data| <= MAX_BLOCK_SIZE * MAX_BLOCKS_NUMBER && FindFree(s.slots) < |s.slots|
  }

  /** What fits is refused only when all slots are in use. */
  lemma AcceptsExactly(s: State, data: seq<byte>)
    ensures Accepts(s, data) <==> |data| <= 4096 && exists i :: 0 <= i < |s.slots| && !s.slots[i].running
  {}

  function Issued(s: State, issued: seq<seq<byte>>, ev: Ev): seq<seq<byte>> {
    if ev.Published? && Accepts(s, ev.data) then issued + [ev.data] else issued
  }

  /**
   Tokens have not run out, message ids are new, and replies are proper answers to waiting messages, or come too
   late to do any harm.
   */
  predicate Proper(s: State, ev: Ev) {
    match ev
    case Published(_, _, r) => s.lastToken < 255 && (r.Accepted? ==> r.id !in s.pending)
    case Replied(id, token, resp, r) =>
      var k := FindToken(s.slots, token);
      || (Answers(s, id, token, resp, r) && (k < |s.slots| ==> ProperResponse(s.slots[k], resp)))
      || (id !in s.pending && (r.Accepted? ==> r.id !in s.pending) && Harmless(s, token, resp, r))
    case Expired(_, error) => error != NONE
  }

  /** A publish is completed with an error only by an error reply, a timeout with that error, or a refused packet. */
  lemma ErrorsHaveCause(s: State, ev: Ev, i: nat)
    requires Buffers(s) && |s.done| <= i < |Step(s, ev).done| && Step(s, ev).done[i].error != NONE
    ensures var error := Step(s, ev).done[i].error;
            || (ev.Replied? && ev.resp == Error(error))
            || (ev.Expired? && ev.error == error)
            || (!ev.Expired? && ev.sending == Refused && error == INTERNAL)
  {
    hide FindToken, FindFree, LastBlock, NextPacket, Fill;
  }

  /** The token counter sticks: once 255 publishes have been started, every further one gets token 1. */
  lemma TokenSticks(s: State, data: seq<byte>, key: nat, r: Sending)
    requires Buffers(s) && s.lastToken == 255 && Accepts(s, data)
    ensures var t := Start(s, data, key, r); t.lastToken == 255 && t.slots[FindFree(s.slots)].token == 1
  {
    hide FindToken, LastBlock, Fill, Blocks;
  }

  /** Until then they are counted up from 1. */
  lemma TokenCounts(s: State, data: seq<byte>, key: nat, r: Sending)
    requires Buffers(s) && s.lastToken < 255 && Accepts(s, data)
    ensures var t := Start(s, data, key, r);
            t.lastToken == s.lastToken + 1 && t.slots[FindFree(s.slots)].token == s.lastToken + 1
  {
    hide FindToken, LastBlock, Fill, Blocks;
  }

  lemma StartKeeps(s: State, issued: seq<seq<byte>>, data: seq<byte>, key: nat, r: Sending)
    requires Inv(s, issued, 0) && Proper(s, Published(data, key, r)) && Accepts(s, data)
    ensures Buffers(s) && Inv(Start(s, data, key, r), issued + [data], 0)
  {
    var k := FindFree(s.slots);
    LastToken(s, issued);
    var token := |issued| + 1;
    var b := NewSlot(s.slots[k].buffer, token, key, data);
    FillIs(s.slots[k].buffer, token, key, data, issued);
    var s1 := s.(slots := s.slots[k := b], lastToken := token);
    var p := Chunk(token, data, 0);
    assert Start(s, data, key, r) == SendEvent(s1, p, r);
    hide Inv, SlotsOk, Carries, NewSlot, Chunk, FindFree, Start;
    if r.Accepted? {
      StartAccepted(s, SendEvent(s1, p, r), issued, k, b, data, r.id);
    } else {
      SlotsKept(s, s1, issued, k, b, data);
      var freed := b.(running := false);
      assert s.slots[k := b][k := freed] == s.slots[k := freed];
      StartRefused(s, SendEvent(s1, p, r), issued, k, freed, data);
    }
  }

  lemma LastToken(s: State, issued: seq<seq<byte>>)
    requires Inv(s, issued, 0)
    ensures s.lastToken == |issued| && Buffers(s)
  {}

  lemma SlotsKept(s: State, s': State, issued: seq<seq<byte>>, k: nat, b: Slot, data: seq<byte>)
    requires Inv(s, issued, 0) && Starting(s, s', issued, k, b, data) && Carries(b, issued + [data])
    ensures FindToken(s'.slots, b.token) == k
  {
    NewSlots(s, s', issued, k, b, data);
    TokenAt(s', issued + [data], k);
  }

  lemma ExpireKeeps(s: State, issued: seq<seq<byte>>, id: nat, error: int)
    requires Inv(s, issued, 0) && error != NONE
    ensures Inv(Resolve(s, id, error), issued, 0)
  {
    hide Inv, Callback;
    if id in s.pending {
      var k := TakeOut(s, issued, id);
      CallbackEnds(s.(pending := s.pending - {id}), issued, k, s.pending[id], error);
    }
  }

  /** Every event keeps the account of all publishes. */
  lemma StepKeeps(s: State, issued: seq<seq<byte>>, ev: Ev)
    requires Inv(s, issued, 0) && Proper(s, ev)
    ensures Buffers(s) && Inv(Step(s, ev), Issued(s, issued, ev), 0)
  {
    hide Inv, Reply, Resolve, FindToken, FindFree, SendEvent, LastBlock;
    LastToken(s, issued);
    match ev {
      case Published(data, key, r) =>
        if Accepts(s, data) {
          StartKeeps(s, issued, data, key, r);
        }
      case Replied(id, token, resp, r) =>
        if id in s.pending {
          ReplyKeeps(s, issued, id, token, resp, r);
        } else {
          LateReplyExact(s, issued, id, token, resp, r);
        }
      case Expired(id, error) => ExpireKeeps(s, issued, id, error);
    }
  }

  /** The static slots before the first publish. */
  ghost predicate Initial(s: State) {
    && |s.slots| == MAX_CONCURRENT_MESSAGES && Buffers(s) && s.lastToken == 0
    && (forall i :: 0 <= i < |s.slots| ==> !s.slots[i].running && s.slots[i].token == 0)
    && s.pending == map[] && s.sent == [] && s.done == []
  }

  /** State and data published after a run; nothing when an event is not proper. */
  datatype Outcome = Outcome(state: State, issued: seq<seq<byte>>)

  ghost predicate Reaches(s0: State, evs: seq<Ev>, o: Outcome) {
    if |evs| == 0 then o == Outcome(s0, [])
    else
      var before, ev := evs[..|evs| - 1], evs[|evs| - 1];
      exists p :: Reaches(s0, before, p) && Proper(p.state, ev) && Buffers(p.state)
                  && o == Outcome(Step(p.state, ev), Issued(p.state, p.issued, ev))
  }

  lemma InitialInv(s: State)
    requires Initial(s)
    ensures Inv(s, [], 0)
  {}

  /** In every run the account of all publishes holds. */
  lemma {:induction false} RunKeeps(s0: State, evs: seq<Ev>, o: Outcome)
    requires Initial(s0) && Reaches(s0, evs, o)
    ensures Inv(o.state, o.issued, 0)
  {
    hide Inv, Proper, Step, Issued, Initial;
    if |evs| == 0 {
      InitialInv(s0);
    } else {
      var before, ev := evs[..|evs| - 1], evs[|evs| - 1];
      var p :| Reaches(s0, before, p) && Proper(p.state, ev) && Buffers(p.state)
               && o == Outcome(Step(p.state, ev), Issued(p.state, p.issued, ev));
      RunKeeps(s0, before, p);
      StepKeeps(p.state, p.issued, ev);
    }
  }

  /** After one publish from the empty slots the first block is sent under token 1 and waited for. */
  lemma FirstPublish(s0: State, data: seq<byte>, key: nat, id: nat) returns (o: Outcome)
    requires Initial(s0) && |data| <= MAX_BLOCK_SIZE * MAX_BLOCKS_NUMBER
    ensures Reaches(s0, [Published(data, key, Accepted(id))], o) && o.issued == [data] && Inv(o.state, o.issued, 0)
    ensures o.state.pending == map[id := 1] && o.state.done == [] && |o.state.sent| == 1
    ensures FindToken(o.state.slots, 1) < |o.state.slots| && Buffers(o.state)
    ensures LastBlock(o.state.slots[FindToken(o.state.slots, 1)]) <==> |data| <= MAX_BLOCK_SIZE
  {
    var ev := Published(data, key, Accepted(id));
    o := Outcome(Start(s0, data, key, Accepted(id)), [data]);
    ReachesFirst(s0, ev, o);
    RunKeeps(s0, [ev], o);
    hide Inv, Reaches;
    assert !s0.slots[0].running && FindFree(s0.slots) == 0;
    assert o.state.slots[0].token == 1;
  }

  lemma ReachesFirst(s0: State, ev: Ev, o: Outcome)
    requires Initial(s0) && Proper(s0, ev) && o == Outcome(Step(s0, ev), Issued(s0, [], ev))
    ensures Reaches(s0, [ev], o)
  {
    hide Proper, Step, Issued;
    assert Reaches(s0, [ev][..0], Outcome(s0, []));
  }

  /** A reachable stall: a plain success to the first of several blocks, and the slot is taken for good. */
  lemma StalledInRun(s0: State, data: seq<byte>, key: nat, id: nat) returns (o: Outcome)
    requires Initial(s0) && MAX_BLOCK_SIZE < |data| <= MAX_BLOCK_SIZE * MAX_BLOCKS_NUMBER
    ensures Reaches(s0, [Published(data, key, Accepted(id))], o) && Answers(o.state, id, 1, Success, Refused)
    ensures Buffers(o.state)
    ensures var s := Reply(o.state, id, 1, Success, Refused);
            Running(s.slots, 1) && s.pending == map[] && s.done == [] && |s.sent| == 1
  {
    o := FirstPublish(s0, data, key, id);
    hide *;
    AnswersFirst(o.state, id, Success, Refused);
    StalledBySuccess(o.state, o.issued, id, 1, Refused);
    assert o.state.pending - {id} == map[];
  }

  /**
   A reachable repetition: 2.31 to a publish of one block, and its slot is free while a second packet is under
   way.
   */
  lemma RepeatedInRun(s0: State, data: seq<byte>, key: nat, id: nat, r: Sending) returns (o: Outcome)
    requires Initial(s0) && |data| <= MAX_BLOCK_SIZE && (r.Accepted? ==> r.id != id)
    ensures Reaches(s0, [Published(data, key, Accepted(id))], o) && Answers(o.state, id, 1, Continue, r)
            && Buffers(o.state)
    ensures var s := Reply(o.state, id, 1, Continue, r);
            && !Running(s.slots, 1)
            && (r.Accepted? ==> Ends(s.done, 1) == [Done(1, NONE)] && s.pending == map[r.id := 1] && |s.sent| == 2)
            && (r.Refused? ==> Ends(s.done, 1) == [Done(1, NONE), Done(1, INTERNAL)])
  {
    o := FirstPublish(s0, data, key, id);
    hide *;
    AnswersFirst(o.state, id, Continue, r);
    RepeatedFrom(o.state, o.issued, id, r);
  }

  /**
   A reachable late reply: the handler of the first block times out, which completes the publish with an error; then
   2.31 arrives, the second block is sent, and its reply completes the publish again, now without an error.
   */
  lemma LateInRun(s0: State, data: seq<byte>, key: nat, id: nat, error: int, id2: nat) returns (o: Outcome)
    requires Initial(s0) && MAX_BLOCK_SIZE < |data| <= 2 * MAX_BLOCK_SIZE && error != NONE
    ensures Reaches(s0, [Published(data, key, Accepted(id)), Expired(id, error)], o) && Buffers(o.state)
    ensures id !in o.state.pending
    ensures var late := Reply(o.state, id, 1, Continue, Accepted(id2));
            && Buffers(late) && |late.sent| == 2 && late.sent[1].token == 1 && late.sent[1].id == 1
            && late.sent[1].payload == data[MAX_BLOCK_SIZE..]
            && Reply(late, id2, 1, Success, Refused).done == [Done(1, error), Done(1, NONE)]
  {
    hide Start, Resolve, Reply, Buffers, Reaches, Issued, FindToken;
    var ev, ev' := Published(data, key, Accepted(id)), Expired(id, error);
    var p := Outcome(Start(s0, data, key, Accepted(id)), [data]);
    FirstSlot(s0, data, key, id);
    ReachesFirst(s0, ev, p);
    o := Outcome(Resolve(p.state, id, error), [data]);
    NoPublish(p.state, [data], ev');
    assert [ev] + [ev'] == [ev, ev'];
    ReachesNext(s0, [ev], p, ev', o);
    LateEffects(s0, data, key, id, error, id2, p.state);
  }

  lemma ReachesNext(s0: State, evs: seq<Ev>, p: Outcome, ev: Ev, o: Outcome)
    requires Reaches(s0, evs, p) && Proper(p.state, ev) && Buffers(p.state)
    requires o == Outcome(Step(p.state, ev), Issued(p.state, p.issued, ev))
    ensures Reaches(s0, evs + [ev], o)
  {
    hide Proper, Step, Issued;
    assert (evs + [ev])[..|evs|] == evs;
  }

  lemma NoPublish(s: State, issued: seq<seq<byte>>, ev: Ev)
    requires !ev.Published?
    ensures Issued(s, issued, ev) == issued
  {}

  lemma FirstSlot(s0: State, data: seq<byte>, key: nat, id: nat)
    requires Initial(s0) && MAX_BLOCK_SIZE < |data| <= 2 * MAX_BLOCK_SIZE
    ensures Buffers(s0) && Issued(s0, [], Published(data, key, Accepted(id))) == [data]
    ensures var s := Start(s0, data, key, Accepted(id));
            && s.slots == s0.slots[0 := NewSlot(s0.slots[0].buffer, 1, key, data)] && s.pending == map[id := 1]
            && s.done == [] && |s.sent| == 1 && Buffers(s)
  {
    assert FindFree(s0.slots) == 0;
  }

  lemma LateEffects(s0: State, data: seq<byte>, key: nat, id: nat, error: int, id2: nat, s: State)
    requires Initial(s0) && MAX_BLOCK_SIZE < |data| <= 2 * MAX_BLOCK_SIZE && error != NONE
    requires s.slots == s0.slots[0 := NewSlot(s0.slots[0].buffer, 1, key, data)] && s.pending == map[id := 1]
    requires s.done == [] && |s.sent| == 1 && Buffers(s)
    ensures var t := Resolve(s, id, error);
            && Buffers(t) && id !in t.pending
            && var late := Reply(t, id, 1, Continue, Accepted(id2));
               && Buffers(late) && |late.sent| == 2 && late.sent[1].token == 1 && late.sent[1].id == 1
               && late.sent[1].payload == data[MAX_BLOCK_SIZE..]
               && Reply(late, id2, 1, Success, Refused).done == [Done(1, error), Done(1, NONE)]
  {
    var b := NewSlot(s0.slots[0].buffer, 1, key, data);
    assert FindToken(s.slots, 1) == 0;
    var t := Resolve(s, id, error);
    var freed := b.(running := false);
    assert t.slots == s0.slots[0 := freed] && t.pending == map[] && t.done == [Done(1, error)];
    assert FindToken(t.slots, 1) == 0;
    var moved := freed.(index := 1);
    var late := Reply(t, id, 1, Continue, Accepted(id2));
    assert late.slots == s0.slots[0 := moved] && late.pending == map[id2 := 1] && late.done == t.done;
    assert FindToken(late.slots, 1) == 0 && LastBlock(moved);
    SecondBlock(s0.slots[0].buffer, key, data);
  }

  /** The block with number 1 is what is left of the data. */
  lemma SecondBlock(buffer: seq<byte>, key: nat, data: seq<byte>)
    requires |buffer| == BUFFER_SIZE && MAX_BLOCK_SIZE < |data| <= 2 * MAX_BLOCK_SIZE
    ensures var p := NextPacket(NewSlot(buffer, 1, key, data).(running := false, index := 1));
            p.token == 1 && p.id == 1 && p.payload == data[MAX_BLOCK_SIZE..]
  {}

  lemma RepeatedFrom(s: State, issued: seq<seq<byte>>, id: nat, r: Sending)
    requires Inv(s, issued, 0) && Answers(s, id, 1, Continue, r) && s.pending == map[id := 1] && |s.sent| == 1
    requires FindToken(s.slots, 1) < |s.slots| && LastBlock(s.slots[FindToken(s.slots, 1)]) && Buffers(s)
    ensures var s' := Reply(s, id, 1, Continue, r);
            && !Running(s'.slots, 1)
            && (r.Accepted? ==> Ends(s'.done, 1) == [Done(1, NONE)] && s'.pending == map[r.id := 1] && |s'.sent| == 2)
            && (r.Refused? ==> Ends(s'.done, 1) == [Done(1, NONE), Done(1, INTERNAL)])
  {
    hide Inv, Answers, Buffers, Reply, FindToken, LastBlock, Running, Ends;
    RepeatedByContinue(s, issued, id, 1, r);
    assert s.pending - {id} == map[];
  }

  lemma AnswersFirst(s: State, id: nat, resp: Response, r: Sending)
    requires s.pending == map[id := 1] && !resp.Error? && (r.Accepted? ==> r.id != id)
    ensures Answers(s, id, 1, resp, r)
  {}

  /**
   What becomes of each publish: while its slot is taken it has not been completed and its handler is
   waiting; once its slot is free it has been completed exactly once, and without an error only after
   packets whose payloads together are the data.
   */
  lemma PublishOutcome(s0: State, evs: seq<Ev>, o: Outcome, token: nat)
    requires Initial(s0) && Reaches(s0, evs, o) && 1 <= token <= |o.issued|
    ensures Running(o.state.slots, token) ==> Ends(o.state.done, token) == [] && Waited(o.state, token)
    ensures !Running(o.state.slots, token) ==>
              && |Ends(o.state.done, token)| == 1
              && (Ends(o.state.done, token)[0].error == NONE ==>
                    Payloads(Packets(o.state.sent, token)) == o.issued[token - 1])
  {
    hide *;
    RunKeeps(s0, evs, o);
    if Running(o.state.slots, token) {
      RunningOutcome(o.state, o.issued, token);
    } else {
      EndedOutcome(o.state, o.issued, token);
    }
  }

  lemma RunningOutcome(s: State, issued: seq<seq<byte>>, token: nat)
    requires Inv(s, issued, 0) && Running(s.slots, token) && token > 0
    ensures Ends(s.done, token) == [] && Waited(s, token)
  {
    hide SlotsOk, Packets, Ends, Chunks, Blocks, Waited, Histories;
    var i :| Runs(s.slots, i, token);
  }

  lemma EndedOutcome(s: State, issued: seq<seq<byte>>, token: nat)
    requires Inv(s, issued, 0) && 1 <= token <= |issued| && !Running(s.slots, token)
    ensures |Ends(s.done, token)| == 1
    ensures Ends(s.done, token)[0].error == NONE ==> Payloads(Packets(s.sent, token)) == issued[token - 1]
  {
    var data := issued[token - 1];
    ChunksCarryData(token, data, Blocks(|data|));
    hide SlotsOk, Waiting, InProgress, Packets, Ends, Payloads, Chunks, Blocks, Running;
    assert Ended(s, token, data);
  }

  // ----- the code -----

  class Publisher {
    const slots: array<Slot>
    var lastToken: nat
    var pending: map<nat, nat>   // handlers waiting for a reply
    var sent: seq<Packet>
    var done: seq<Done>

    ghost predicate Valid()
      reads this, slots
    {
      Buffers(View())
    }

    ghost function View(): State
      reads this, slots
    {
      State(slots[..], lastToken, pending, sent, done)
    }

    /** The static slots, none in use. */
    constructor ()
      ensures Valid() && Initial(View()) && fresh(slots)
    {
      slots := new Slot[MAX_CONCURRENT_MESSAGES](_ => Slot(seq(BUFFER_SIZE, _ => 0), false, 0, 0, 0, 0, 0, []));
      lastToken, pending, sent, done := 0, map[], [], [];
    }

    /** The first slot that is not in use; the number of slots when all are. */
    method FreeSlot() returns (k: nat)
      ensures k == FindFree(slots[..]) && k <= slots.Length
      ensures k < slots.Length ==> !slots[k].running
      ensures forall i :: 0 <= i < k ==> slots[i].running
    {
      k := 0;
      while k < slots.Length && slots[k].running
        invariant k <= slots.Length && k + FindFree(slots[k..]) == FindFree(slots[..])
      {
        assert slots[k..][1..] == slots[k + 1..];
        k := k + 1;
      }
      assert slots[0..] == slots[..];
    }

    method SlotByToken(token: nat) returns (k: nat)
      ensures k == FindToken(slots[..], token)
    {
      k := 0;
      while k < slots.Length && slots[k].token != token
        invariant k <= slots.Length && k + FindToken(slots[k..], token) == FindToken(slots[..], token)
      {
        assert slots[k..][1..] == slots[k + 1..];
        k := k + 1;
      }
      assert slots[0..] == slots[..];
    }

    /** genericBlockCompletionCallback. */
    method BlockCompleted(token: nat, error: int)
      requires Valid()
      modifies slots, this`done
      ensures Valid() && View() == Callback(old(View()), token, error)
    {
      hide FindToken;
      var k := SlotByToken(token);
      if k == slots.Length {
        return;
      }
      if error != NONE || slots[k].index * MAX_BLOCK_SIZE >= slots[k].totBytes {
        slots[k] := slots[k].(running := false);
        done := done + [Done(token, error)];
      }
    }

    /** Takes the handler of a message out and calls it. */
    method ResolveHandler(id: nat, error: int)
      requires Valid()
      modifies slots, this`done, this`pending
      ensures Valid() && View() == Resolve(old(View()), id, error)
    {
      hide Callback;
      if id in pending {
        var token := pending[id];
        pending := pending - {id};
        BlockCompleted(token, error);
      }
    }

    method SendPacket(p: Packet, r: Sending)
      requires Valid()
      modifies this`sent, this`pending, this`done, slots
      ensures Valid() && View() == SendEvent(old(View()), p, r)
    {
      hide Callback;
      match r {
        case Accepted(id) => sent, pending := sent + [p], pending[id := p.token];
        case Refused => BlockCompleted(p.token, INTERNAL);
      }
    }

    /** sendPublish with an acknowledgement, while connected. */
    method SendPublish(data: seq<byte>, key: nat, r: Sending) returns (ok: bool)
      requires Valid()
      modifies this, slots
      ensures Valid() && View() == Start(old(View()), data, key, r)
      ensures ok <==> |data| <= 4096 && r.Accepted? && exists i :: 0 <= i < slots.Length && !old(slots[i].running)
    {
      hide FindFree, SendEvent, Fill;
      if |data| > MAX_BLOCK_SIZE * MAX_BLOCKS_NUMBER {
        return false;
      }
      var k := FreeSlot();
      if k == slots.Length {
        return false;
      }
      var length := MAX_BLOCK_SIZE;
      var b := slots[k];
      if |data| > MAX_BLOCK_SIZE {
        b := b.(buffer := Fill(b.buffer, data), totBytes := |data| - MAX_BLOCK_SIZE, totBlocks := Blocks(|data|));
      } else {
        b := b.(totBytes := 0, totBlocks := 1);
        length := |data|;
      }
      var token := NextToken(lastToken);
      lastToken := NextCounter(lastToken);
      b := b.(index := 0, token := token, key := key, running := true, data := data);
      assert |slots[k].buffer| == BUFFER_SIZE;
      FilledSlot(slots[k].buffer, token, key, data, b);
      slots[k] := b;
      SendPacket(Packet(token, 0, b.totBlocks, data[..length]), r);
      ok := r.Accepted?;
    }

    /** The reply to a message: its handler is called, and after 2.31 the next block is sent. */
    method NotifyMessageComplete(id: nat, token: nat, resp: Response, r: Sending)
      requires Valid()
      modifies this, slots
      ensures Valid() && View() == Reply(old(View()), id, token, resp, r)
    {
      hide FindToken, SendEvent, Resolve, NextPacket;
      match resp {
        case Continue =>
          ResolveKeepsBuffers(View(), id, NONE);
          ResolveHandler(id, NONE);
          var k := SlotByToken(token);
          if k == slots.Length {
            return;
          }
          slots[k] := slots[k].(index := slots[k].index + 1);
          SendPacket(NextPacket(slots[k]), r);
        case Success => ResolveHandler(id, NONE);
        case Error(e) => ResolveHandler(id, e);
      }
    }
  }

  lemma FilledSlot(buffer: seq<byte>, token: nat, key: nat, data: seq<byte>, b: Slot)
    requires |buffer| == BUFFER_SIZE && |data| <= MAX_BLOCK_SIZE * MAX_BLOCKS_NUMBER
    requires b == if |data| > MAX_BLOCK_SIZE
                  then Slot(Fill(buffer, data), true, |data| - MAX_BLOCK_SIZE, Blocks(|data|), 0, token, key, data)
                  else Slot(buffer, true, 0, 1, 0, token, key, data)
    ensures b == NewSlot(buffer, token, key, data) && |b.buffer| == BUFFER_SIZE
  {}

  lemma ResolveKeepsBuffers(s: State, id: nat, error: int)
    requires Buffers(s)
    ensures Buffers(Resolve(s, id, error))
  {}
}
