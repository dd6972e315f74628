/**
 Firmware transfer in chunks that may arrive out of order, more than once or not at all: a bitmap
 records which chunks have been stored, and the transfer ends when none is missing.
 */
module Chunked {
  import opened Wrappers
  import opened Octet
  import opened Bytes
  import opened Arith
  import Crc

  const U16 := 0x1_0000
  const U32 := 0x1_0000_0000
  const MAX_CHUNKS := 65535
  const NO_CHUNKS_MISSING := 65535
  const MISSED_CHUNKS_TO_SEND := 40
  const MINIMUM_CHUNK_INCREASE := 2

  /** Number of chunks, in 32-bit arithmetic. */
  function ChunkCount(length: nat, size: nat): nat {
    if size == 0 then 0 else (length + size - 1) % U32 / size
  }

  /** The chunks cover the file exactly when the sum in the chunk count does not wrap. */
  lemma CountCovers(length: nat, size: nat)
    requires length < U32 && 0 < size < U16
    ensures ChunkCount(length, size) * size >= length <==> length + size - 1 < U32
  {
    var sum := (length + size - 1) % U32;
    DivFacts(sum, size);
    if length + size - 1 < U32 {
      SmallMod(length + size - 1, U32);
    } else {
      WrapOnce(length + size - 1, U32);
      MulMono(0, sum / size, size);
    }
  }

  // ----- the bitmap -----

  function BitOf(k: nat): byte
    requires k < 8
  {
    if k == 0 then 0x01 else if k == 1 then 0x02 else if k == 2 then 0x04 else if k == 3 then 0x08
    else if k == 4 then 0x10 else if k == 5 then 0x20 else if k == 6 then 0x40 else 0x80
  }

  lemma BitOfIsShift(k: nat)
    requires k < 8
    ensures BitOf(k) == (1 as byte) << k
  {
    if k == 0 {} else if k == 1 {} else if k == 2 {} else if k == 3 {}
    else if k == 4 {} else if k == 5 {} else if k == 6 {} else {}
  }

  predicate Flagged(bitmap: seq<byte>, i: nat)
    requires i / 8 < |bitmap|
  {
    bitmap[i / 8] & BitOf(i % 8) != 0
  }

  function Flag(bitmap: seq<byte>, i: nat): (r: seq<byte>)
    requires i / 8 < |bitmap|
    ensures |r| == |bitmap|
  {
    bitmap[i / 8 := bitmap[i / 8] | BitOf(i % 8)]
  }

  lemma OrBit(b: byte, m: byte, n: byte)
    ensures (b | m) & n != 0 <==> b & n != 0 || m & n != 0
  {}

  lemma BitsApart(j: nat, k: nat)
    requires j < 8 && k < 8
    ensures BitOf(j) & BitOf(k) != 0 <==> j == k
  {}

  lemma BitAfter(b: byte, j: nat, k: nat)
    requires j < 8 && k < 8
    ensures (b | BitOf(j)) & BitOf(k) != 0 <==> j == k || b & BitOf(k) != 0
  {
    hide BitOf;
    OrBit(b, BitOf(j), BitOf(k));
    BitsApart(j, k);
  }

  /** Flagging a chunk changes the bit of this chunk only. */
  lemma FlagSetsOne(bitmap: seq<byte>, i: nat, j: nat)
    requires i / 8 < |bitmap| && j / 8 < |bitmap|
    ensures Flagged(Flag(bitmap, i), j) <==> j == i || Flagged(bitmap, j)
  {
    hide BitOf;
    if i / 8 == j / 8 {
      BitAfter(bitmap[i / 8], i % 8, j % 8);
    }
  }

  lemma ZeroFlagsNothing(k: nat)
    requires k < 8
    ensures (0 as byte) & BitOf(k) == 0 && (0xFF as byte) & BitOf(k) != 0
  {}

  // ----- looking for missing chunks -----

  function BitmapSize(count: nat): nat {
    (count + 7) / 8
  }

  /** The first chunk from start on that has not been received. */
  function NextMissing(bitmap: seq<byte>, count: nat, start: nat): (i: nat)
    requires BitmapSize(count) <= |bitmap| && count <= MAX_CHUNKS
    ensures i == NO_CHUNKS_MISSING || (start <= i < count && !Flagged(bitmap, i))
    ensures forall j :: start <= j < i && j < count ==> Flagged(bitmap, j)
    decreases count - start
  {
    if start >= count then NO_CHUNKS_MISSING
    else if !Flagged(bitmap, start) then start
    else NextMissing(bitmap, count, start + 1)
  }

  /** The chunks listed in a resend request. */
  function MissingFrom(bitmap: seq<byte>, count: nat, start: nat, n: nat): (list: seq<nat>)
    requires BitmapSize(count) <= |bitmap| && count <= MAX_CHUNKS
    ensures |list| <= n
    decreases n
  {
    var i := NextMissing(bitmap, count, start);
    if n == 0 || i == NO_CHUNKS_MISSING then [] else [i] + MissingFrom(bitmap, count, i + 1, n - 1)
  }

  /**
   A resend request lists the smallest missing chunks in ascending order; it is shorter than allowed only when
   it lists all.
   */
  lemma {:induction false} MissingListed(bitmap: seq<byte>, count: nat, start: nat, n: nat)
    requires BitmapSize(count) <= |bitmap| && count <= MAX_CHUNKS
    ensures var list := MissingFrom(bitmap, count, start, n);
            && (forall k :: 0 <= k < |list| ==> start <= list[k] < count && !Flagged(bitmap, list[k]))
            && (forall k, l :: 0 <= k < l < |list| ==> list[k] < list[l])
            && (forall j :: start <= j < count && !Flagged(bitmap, j) && j !in list ==>
                  |list| == n && forall k :: 0 <= k < |list| ==> list[k] < j)
    decreases n
  {
    hide Flagged, NextMissing, MissingFrom;
    var i := NextMissing(bitmap, count, start);
    MissingUnfold(bitmap, count, start, n);
    if n > 0 && i != NO_CHUNKS_MISSING {
      MissingListed(bitmap, count, i + 1, n - 1);
      var rest := MissingFrom(bitmap, count, i + 1, n - 1);
      MissingHead(bitmap, count, start, n, i, rest);
    }
  }

  lemma MissingUnfold(bitmap: seq<byte>, count: nat, start: nat, n: nat)
    requires BitmapSize(count) <= |bitmap| && count <= MAX_CHUNKS
    ensures MissingFrom(bitmap, count, start, n)
         == var i := NextMissing(bitmap, count, start);
            if n == 0 || i == NO_CHUNKS_MISSING then [] else [i] + MissingFrom(bitmap, count, i + 1, n - 1)
  {
    hide Flagged, NextMissing;
  }

  lemma MissingHead(bitmap: seq<byte>, count: nat, start: nat, n: nat, i: nat, rest: seq<nat>)
    requires BitmapSize(count) <= |bitmap| && count <= MAX_CHUNKS && n > 0
    requires start <= i < count && !Flagged(bitmap, i) && forall j :: start <= j < i ==> Flagged(bitmap, j)
    requires forall k :: 0 <= k < |rest| ==> i < rest[k] < count && !Flagged(bitmap, rest[k])
    requires forall k, l :: 0 <= k < l < |rest| ==> rest[k] < rest[l]
    requires forall j :: i < j < count && !Flagged(bitmap, j) && j !in rest ==>
               |rest| == n - 1 && forall k :: 0 <= k < |rest| ==> rest[k] < j
    ensures var list := [i] + rest;
            && (forall k :: 0 <= k < |list| ==> start <= list[k] < count && !Flagged(bitmap, list[k]))
            && (forall k, l :: 0 <= k < l < |list| ==> list[k] < list[l])
            && (forall j :: start <= j < count && !Flagged(bitmap, j) && j !in list ==>
                  |list| == n && forall k :: 0 <= k < |list| ==> list[k] < j)
  {
    hide Flagged;
    var list := [i] + rest;
    forall j | start <= j < count && !Flagged(bitmap, j) && j !in list
      ensures |list| == n && forall k :: 0 <= k < |list| ==> list[k] < j
    {
      assert list[0] == i && j > i;
      assert forall x :: x in rest ==> x in list;
      assert j !in rest;
    }
  }

  // ----- the transfer, on values -----

  /** What an UpdateBegin message asks for; the store and the address say where the file is to lie. */
  datatype Params = Params(length: nat, size: nat, store: nat, address: nat, fast: bool)

  const FIRMWARE := 0

  /** Taken when the message is too short to say. */
  const NO_PARAMS := Params(0, 0, FIRMWARE, 0, false)

  /** The file descriptor the callbacks get. */
  datatype Descriptor = Descriptor(length: nat, store: nat, address: nat, chunkSize: nat, chunkAddress: nat)

  /** A chunk given to the storage callback, with the store and the place in it that the descriptor names. */
  datatype Save = Save(index: nat, store: nat, at: nat, data: seq<byte>)

  datatype Out = Acknowledged(complete: bool) | Request(missing: seq<nat>) | Finished(length: nat)

  /** The fields of the transfer; as history, the chunks stored in this update and what has been sent. */
  datatype State = State(updating: nat, file: Descriptor, size: nat, index: nat, arrived: nat, bitmap: seq<byte>,
                         saved: seq<Save>, out: seq<Out>)

  /** The number of chunks looked at, which the code keeps in 16 bits. */
  function Count(s: State): (n: nat)
    ensures n <= MAX_CHUNKS
  {
    ChunkCount(s.file.length, s.size) % U16
  }

  /** The bitmap has a bit for every chunk. */
  predicate Sized(s: State) {
    BitmapSize(Count(s)) <= |s.bitmap|
  }

  function Fill(n: nat, b: byte): (r: seq<byte>)
    ensures |r| == n && forall i :: 0 <= i < n ==> r[i] == b
  {
    seq(n, _ => b)
  }

  predicate Refused(p: Params, accepted: bool) {
    !accepted || ChunkCount(p.length, p.size) >= MAX_CHUNKS
  }

  /**
   An update begins, unless it is refused or has too many chunks; the descriptor is overwritten in any case. In
   fast mode no chunk counts as received.
   */
  function Begin(s: State, p: Params, accepted: bool): State {
    var file := Descriptor(p.length, p.store, p.address, p.size, p.address);
    if Refused(p, accepted) then s.(file := file, arrived := 0)
    else
      var bitmap := Fill(BitmapSize(ChunkCount(p.length, p.size)), if p.fast then 0 else 0xFF);
      State(1, file, p.size, 0, 0, bitmap, [], s.out)
  }

  /** The chunk a message is about: the one it names, or the next one. */
  function Target(s: State, index: Option<nat>): nat {
    if index.Some? then index.value else s.index
  }

  predicate Valid(crc: Crc.Word32, data: seq<byte>) {
    Crc.Crc32(Crc.ZERO, data) == crc
  }

  /** The flag of a chunk that is stored lies in the bitmap. */
  predicate Writable(s: State, index: Option<nat>, crc: Crc.Word32, data: seq<byte>) {
    s.updating == 0 || Target(s, index) >= MAX_CHUNKS || !Valid(crc, data) || Target(s, index) / 8 < |s.bitmap|
  }

  /** Where the descriptor puts a chunk, in 32-bit arithmetic. */
  function PlaceOf(address: nat, i: nat, size: nat): nat {
    (address + i * size) % U32
  }

  /** A chunk arrives: it is stored where the descriptor says, and flagged, when its checksum matches. */
  function Chunk(s: State, index: Option<nat>, crc: Crc.Word32, data: seq<byte>): State
    requires Writable(s, index, crc, data)
  {
    var t := s.(arrived := (s.arrived + 1) % U16);
    if s.updating == 0 then t
    else
      var i := Target(s, index);
      var at := PlaceOf(s.file.address, i, s.size);
      var u := t.(index := i, file := s.file.(chunkSize := |data|, chunkAddress := at));
      if i >= MAX_CHUNKS || !Valid(crc, data) then u
      else
        u.(index := (i + 1) % U16, bitmap := Flag(s.bitmap, i), saved := s.saved + [Save(i, s.file.store, at, data)])
  }

  /** How many chunks to ask for: what arrived since the last request and a fifth more, within bounds. */
  function ResendCount(arrived: nat): nat {
    var increase := if arrived / 5 > MINIMUM_CHUNK_INCREASE then arrived / 5 else MINIMUM_CHUNK_INCREASE;
    if arrived + increase < MISSED_CHUNKS_TO_SEND then arrived + increase else MISSED_CHUNKS_TO_SEND
  }

  /** The memory behind the bitmap reaches as far as the chunk count. */
  predicate Readable(s: State, behind: seq<byte>) {
    BitmapSize(Count(s)) <= |s.bitmap| + |behind|
  }

  lemma ReadableSize(s: State, behind: seq<byte>)
    requires Readable(s, behind)
    ensures BitmapSize(Count(s)) <= |s.bitmap + behind|
  {}

  /**
   The server says it has sent everything; the reply tells whether that is so, and what is missing is requested.
   When the chunk count is too large for the bitmap, the memory behind it is read.
   */
  function Done(s: State, sent: bool, behind: seq<byte>): State
    requires Readable(s, behind)
  {
    var missing := NextMissing(s.bitmap + behind, Count(s), 0) != NO_CHUNKS_MISSING;
    var t := s.(out := s.out + [Acknowledged(!missing)]);
    if !sent || s.updating == 0 then t
    else if !missing then t.(updating := 0, out := t.out + [Finished(s.file.length)])
    else
      var list := MissingFrom(s.bitmap + behind, Count(s), 0, ResendCount(s.arrived));
      t.(updating := 2, arrived := 0, out := if |list| > 0 then t.out + [Request(list)] else t.out)
  }

  // ----- what a fast update achieves -----

  /** Chunk i has been given to the storage. */
  ghost predicate Stored(saved: seq<Save>, i: nat) {
    exists k :: 0 <= k < |saved| && saved[k].index == i
  }

  /** A chunk counts as received exactly when it has been stored. */
  ghost predicate Tracked(s: State) {
    && Sized(s) && Count(s) > 0
    && (forall i :: 0 <= i < Count(s) ==> (Flagged(s.bitmap, i) <==> Stored(s.saved, i)))
  }

  lemma BeginTracks(s: State, p: Params)
    requires p.fast && 0 < ChunkCount(p.length, p.size) < MAX_CHUNKS
    ensures Tracked(Begin(s, p, true))
  {
    var t := Begin(s, p, true);
    hide ChunkCount, BitOf;
    SmallMod(ChunkCount(p.length, p.size), U16);
    forall i | 0 <= i < Count(t)
      ensures !Flagged(t.bitmap, i)
    {
      ZeroFlagsNothing(i % 8);
    }
  }

  /**
   When a begin starts an update: if it is accepted and has fewer than 65535 chunks. The bitmap then has just enough
   bytes; otherwise nothing but the descriptor and the counter changes.
   */
  lemma BeginStarts(s: State, p: Params, accepted: bool)
    ensures var t, count := Begin(s, p, accepted), ChunkCount(p.length, p.size);
            && (p.size == 0 ==> count == 0)
            && (accepted && count < 65535 ==>
                  && t.updating == 1 && t.index == 0 && t.saved == [] && t.size == p.size
                  && 8 * |t.bitmap| < count + 8 && count <= 8 * |t.bitmap|)
            && (!accepted || count >= 65535 ==> t == s.(file := t.file, arrived := 0))
            && t.file == Descriptor(p.length, p.store, p.address, p.size, p.address)
  {
    hide ChunkCount;
    assert p.size == 0 ==> ChunkCount(p.length, p.size) == 0 by {
      NoSize(p.length);
    }
  }

  lemma NoSize(length: nat)
    ensures ChunkCount(length, 0) == 0
  {}

  /** Without an update, with an index from 65535 on, or with another checksum, a chunk is not stored. */
  lemma NotStored(s: State, index: Option<nat>, crc: Crc.Word32, data: seq<byte>)
    requires s.updating == 0 || Target(s, index) >= 65535 || Crc.Crc32(Crc.ZERO, data) != crc
    ensures Writable(s, index, crc, data)
    ensures var t := Chunk(s, index, crc, data);
            t.saved == s.saved && t.bitmap == s.bitmap && t.updating == s.updating && t.out == s.out
  {
    hide Crc.Crc32;
  }

  lemma StoredMore(saved: seq<Save>, last: Save, j: nat)
    ensures Stored(saved + [last], j) <==> j == last.index || Stored(saved, j)
  {
    var more := saved + [last];
    assert more[|saved|] == last;
    if Stored(saved, j) {
      var k :| 0 <= k < |saved| && saved[k].index == j;
      assert more[k].index == j;
    }
  }

  lemma ChunkTracks(s: State, index: Option<nat>, crc: Crc.Word32, data: seq<byte>)
    requires Tracked(s) && Writable(s, index, crc, data)
    ensures Tracked(Chunk(s, index, crc, data))
  {
    var i, t := Target(s, index), Chunk(s, index, crc, data);
    hide ChunkCount, Flagged, Stored, Valid, Flag;
    var last := Save(i, s.file.store, PlaceOf(s.file.address, i, s.size), data);
    hide PlaceOf;
    if i / 8 < |s.bitmap| {
      forall j | 0 <= j < Count(s)
        ensures Flagged(Flag(s.bitmap, i), j) <==> j == i || Flagged(s.bitmap, j)
        ensures Stored(s.saved + [last], j) <==> j == i || Stored(s.saved, j)
      {
        FlagSetsOne(s.bitmap, i, j);
        StoredMore(s.saved, last, j);
      }
    }
  }

  /**
   After a refused begin with more chunks than the bitmap has bits for, the answer to the server depends on the
   memory behind the bitmap exactly when no chunk in the bitmap is missing.
   */
  lemma BehindMatters(bitmap: seq<byte>, count: nat)
    requires count <= MAX_CHUNKS
    ensures (forall b, b' | BitmapSize(count) <= |bitmap + b| && BitmapSize(count) <= |bitmap + b'| ::
               NextMissing(bitmap + b, count, 0) == NextMissing(bitmap + b', count, 0))
       <==> count <= 8 * |bitmap| || exists i :: 0 <= i < 8 * |bitmap| && !Flagged(bitmap, i)
  {
    hide Flagged, NextMissing;
    if count <= 8 * |bitmap| || exists i :: 0 <= i < 8 * |bitmap| && !Flagged(bitmap, i) {
      forall b, b' | BitmapSize(count) <= |bitmap + b| && BitmapSize(count) <= |bitmap + b'|
        ensures NextMissing(bitmap + b, count, 0) == NextMissing(bitmap + b', count, 0)
      {
        NotEarlier(bitmap, b, b', count);
        NotEarlier(bitmap, b', b, count);
      }
    } else {
      DiffersBehind(bitmap, count);
    }
  }

  lemma InFront(bitmap: seq<byte>, behind: seq<byte>)
    ensures forall i :: 0 <= i < 8 * |bitmap| ==> (Flagged(bitmap + behind, i) <==> Flagged(bitmap, i))
  {
    hide BitOf;
  }

  lemma NotEarlier(bitmap: seq<byte>, b: seq<byte>, b': seq<byte>, count: nat)
    requires count <= MAX_CHUNKS && BitmapSize(count) <= |bitmap + b| && BitmapSize(count) <= |bitmap + b'|
    requires count <= 8 * |bitmap| || exists i :: 0 <= i < 8 * |bitmap| && !Flagged(bitmap, i)
    ensures NextMissing(bitmap + b, count, 0) >= NextMissing(bitmap + b', count, 0)
  {
    InFront(bitmap, b);
    InFront(bitmap, b');
    hide Flagged, NextMissing;
    var x := NextMissing(bitmap + b, count, 0);
    if x < NextMissing(bitmap + b', count, 0) {
      assert false;
    }
  }

  lemma DiffersBehind(bitmap: seq<byte>, count: nat)
    requires 8 * |bitmap| < count <= MAX_CHUNKS && forall i :: 0 <= i < 8 * |bitmap| ==> Flagged(bitmap, i)
    ensures exists b, b' :: BitmapSize(count) <= |bitmap + b| && BitmapSize(count) <= |bitmap + b'|
                            && NextMissing(bitmap + b, count, 0) != NextMissing(bitmap + b', count, 0)
  {
    var n, limit := BitmapSize(count), 8 * |bitmap|;
    var b, b' := Fill(n, 0), Fill(n, 0xFF);
    InFront(bitmap, b');
    ZeroFlagsNothing(0);
    assert !Flagged(bitmap + b, limit);
    assert NextMissing(bitmap + b, count, 0) != NO_CHUNKS_MISSING;
    forall i | 0 <= i < count
      ensures Flagged(bitmap + b', i)
    {
      ZeroFlagsNothing(i % 8);
    }
    assert NextMissing(bitmap + b', count, 0) == NO_CHUNKS_MISSING;
  }

  /** As long as the bitmap has a bit for every chunk, the memory behind it does not matter. */
  lemma BehindUnread(s: State, behind: seq<byte>)
    requires Sized(s)
    ensures forall i :: 0 <= i < Count(s) ==> (Flagged(s.bitmap + behind, i) <==> Flagged(s.bitmap, i))
  {
    hide ChunkCount, BitOf;
  }

  /** The update ends as successful only when every chunk has been stored. */
  lemma DoneOnlyWhenStored(s: State, sent: bool, behind: seq<byte>)
    requires Tracked(s)
    ensures Tracked(Done(s, sent, behind))
    ensures Done(s, sent, behind).updating == 0 <==>
            s.updating == 0 || (sent && forall i :: 0 <= i < Count(s) ==> Stored(s.saved, i))
    ensures !sent || s.updating == 0 ==> |Done(s, sent, behind).out| == |s.out| + 1
    ensures var out := Done(s, sent, behind).out;
            |out| > |s.out| && out[|s.out|] == Acknowledged(forall i :: 0 <= i < Count(s) ==> Stored(s.saved, i))
  {
    BehindUnread(s, behind);
    var mem := s.bitmap + behind;
    hide ChunkCount, Flagged, Stored, MissingFrom;
    assert NextMissing(mem, Count(s), 0) == NO_CHUNKS_MISSING <==> forall i :: 0 <= i < Count(s) ==> Flagged(mem, i);
  }

  /**
   While something is missing the server is asked for the smallest missing chunks: for as many as have arrived since
   the last request and a fifth more, at least two more and at most 40 in all.
   */
  lemma DoneAsks(s: State, behind: seq<byte>)
    requires Tracked(s) && s.updating != 0 && !(forall i :: 0 <= i < Count(s) ==> Stored(s.saved, i))
    ensures var list := MissingFrom(s.bitmap + behind, Count(s), 0, ResendCount(s.arrived));
            && Done(s, true, behind).out == s.out + [Acknowledged(false), Request(list)]
            && Done(s, true, behind).updating == 2
            && 0 < |list| <= 40 && |list| <= s.arrived + (if s.arrived < 15 then 2 else s.arrived / 5)
            && (forall k :: 0 <= k < |list| ==> list[k] < Count(s) && !Stored(s.saved, list[k]))
            && (forall k, l :: 0 <= k < l < |list| ==> list[k] < list[l])
            && (forall j :: 0 <= j < Count(s) && !Stored(s.saved, j) && j !in list ==>
                  && (|list| == 40 || |list| == s.arrived + (if s.arrived < 15 then 2 else s.arrived / 5))
                  && forall k :: 0 <= k < |list| ==> list[k] < j)
  {
    var n, mem := ResendCount(s.arrived), s.bitmap + behind;
    var list := MissingFrom(mem, Count(s), 0, n);
    MissingListed(mem, Count(s), 0, n);
    BehindUnread(s, behind);
    var i :| 0 <= i < Count(s) && !Stored(s.saved, i);
    assert !Flagged(mem, i);
    hide ChunkCount, Flagged, Stored;
    assert NextMissing(mem, Count(s), 0) != NO_CHUNKS_MISSING;
    assert s.out + [Acknowledged(false)] + [Request(list)] == s.out + [Acknowledged(false), Request(list)];
  }

  // ----- updates without an index -----

  /** Chunk messages that do not name an index, each with its checksum and bytes. */
  function Slowly(s: State, ms: seq<(Crc.Word32, seq<byte>)>): Option<State> {
    if |ms| == 0 then Some(s)
    else
      var before := Slowly(s, ms[..|ms| - 1]);
      var (crc, data) := ms[|ms| - 1];
      if before.Some? && Writable(before.value, None, crc, data)
      then Some(Chunk(before.value, None, crc, data)) else None
  }

  /** The bytes of the messages whose checksum matches, in order. */
  function Intact(ms: seq<(Crc.Word32, seq<byte>)>): (ds: seq<seq<byte>>)
    ensures |ds| <= |ms|
  {
    if |ms| == 0 then []
    else
      var (crc, data) := ms[|ms| - 1];
      Intact(ms[..|ms| - 1]) + (if Valid(crc, data) then [data] else [])
  }

  /** Chunk k is the k-th intact one, and lies k chunk sizes behind the address. */
  ghost predicate OneAfterAnother(saved: seq<Save>, ds: seq<seq<byte>>, p: Params) {
    |saved| == |ds| && forall k :: 0 <= k < |ds| ==> saved[k] == Save(k, p.store, PlaceOf(p.address, k, p.size), ds[k])
  }

  /** What stays the same while chunks arrive. */
  ghost predicate Receiving(s: State, p: Params, n: nat) {
    && s.updating == 1 && s.file.store == p.store && s.file.address == p.address && s.size == p.size
    && s.index == n && |s.bitmap| == BitmapSize(ChunkCount(p.length, p.size)) && s.file.length == p.length
    && ChunkCount(p.length, p.size) < MAX_CHUNKS
  }

  /**
   Without indices, as in an update that is not fast: a chunk whose checksum does not match is left out, and the
   others are stored one after the other.
   */
  lemma {:induction false} StoredInOrder(s: State, ms: seq<(Crc.Word32, seq<byte>)>, p: Params)
    requires ChunkCount(p.length, p.size) < MAX_CHUNKS && |Intact(ms)| <= ChunkCount(p.length, p.size)
    ensures var end := Slowly(Begin(s, p, true), ms);
            && end.Some? && OneAfterAnother(end.value.saved, Intact(ms), p) && Receiving(end.value, p, |Intact(ms)|)
            && end.value.out == s.out
  {
    if |ms| == 0 {
      hide ChunkCount;
    } else {
      StoredInOrder(s, ms[..|ms| - 1], p);
      var before := Slowly(Begin(s, p, true), ms[..|ms| - 1]).value;
      var (crc, data) := ms[|ms| - 1];
      hide ChunkCount, Valid, Slowly, Begin, Intact;
      SlowlyNext(Begin(s, p, true), ms);
      IntactNext(ms);
      OneMoreChunk(before, crc, data, Intact(ms[..|ms| - 1]), p);
    }
  }

  lemma SlowlyNext(s: State, ms: seq<(Crc.Word32, seq<byte>)>)
    requires |ms| > 0 && Slowly(s, ms[..|ms| - 1]).Some?
    ensures var before := Slowly(s, ms[..|ms| - 1]).value;
            var (crc, data) := ms[|ms| - 1];
            Writable(before, None, crc, data) ==> Slowly(s, ms) == Some(Chunk(before, None, crc, data))
  {
    hide Chunk, Writable;
  }

  lemma IntactNext(ms: seq<(Crc.Word32, seq<byte>)>)
    requires |ms| > 0
    ensures var (crc, data) := ms[|ms| - 1];
            Intact(ms) == Intact(ms[..|ms| - 1]) + (if Valid(crc, data) then [data] else [])
  {
    hide Valid;
  }

  lemma OneMoreChunk(s: State, crc: Crc.Word32, data: seq<byte>, ds: seq<seq<byte>>, p: Params)
    requires OneAfterAnother(s.saved, ds, p) && Receiving(s, p, |ds|)
    requires |ds| + (if Valid(crc, data) then 1 else 0) <= ChunkCount(p.length, p.size)
    ensures Writable(s, None, crc, data)
    ensures var t := Chunk(s, None, crc, data);
            var more := ds + (if Valid(crc, data) then [data] else []);
            OneAfterAnother(t.saved, more, p) && Receiving(t, p, |more|) && t.out == s.out
  {
    hide ChunkCount, Valid, PlaceOf, Flag;
  }

  /** An update that is not fast starts with nothing missing, so it ends when the server says so. */
  lemma SlowEnds(s: State, p: Params, behind: seq<byte>)
    requires !p.fast && 0 < ChunkCount(p.length, p.size) < MAX_CHUNKS
    ensures var t := Begin(s, p, true);
            && (forall i :: 0 <= i < 8 * |t.bitmap| ==> Flagged(t.bitmap, i))
            && Readable(t, behind) && Done(t, true, behind).updating == 0
            && Done(t, true, behind).out == s.out + [Acknowledged(true), Finished(p.length)]
  {
    var t := Begin(s, p, true);
    hide ChunkCount, BitOf, MissingFrom;
    SmallMod(ChunkCount(p.length, p.size), U16);
    forall i | 0 <= i < 8 * |t.bitmap|
      ensures Flagged(t.bitmap, i)
    {
      ZeroFlagsNothing(i % 8);
    }
    BehindUnread(t, behind);
    hide Flagged;
    assert NextMissing(t.bitmap + behind, Count(t), 0) == NO_CHUNKS_MISSING;
    assert s.out + [Acknowledged(true)] + [Finished(p.length)] == s.out + [Acknowledged(true), Finished(p.length)];
  }

  // ----- the stored image -----

  /** The bytes of the file that make up chunk i. */
  function FileChunk(file: seq<byte>, size: nat, i: nat): seq<byte> {
    var from := i * size;
    var to := if (i + 1) * size < |file| then (i + 1) * size else |file|;
    if from <= to then file[from..to] else []
  }

  /** The chunks carry bytes of the file and were stored where the file is to lie. */
  ghost predicate Genuine(saved: seq<Save>, file: seq<byte>, p: Params) {
    forall k :: 0 <= k < |saved| ==>
      && saved[k].index * p.size < |file| && saved[k].data == FileChunk(file, p.size, saved[k].index)
      && Placed(saved[k], p)
  }

  predicate Placed(save: Save, p: Params) {
    save.store == p.store && save.at == PlaceOf(p.address, save.index, p.size)
  }

  /** The contents of one store after these chunks have been written, each at its place. */
  function Image(image: seq<byte>, saved: seq<Save>, store: nat): (r: seq<byte>)
    ensures |r| == |image|
  {
    if |saved| == 0 then image
    else
      var before, last := Image(image, saved[..|saved| - 1], store), saved[|saved| - 1];
      if last.store == store && last.at + |last.data| <= |image| then Splice(before, last.at, last.data) else before
  }

  /** The place for the file lies in the store, and the store in the 32-bit address space. */
  predicate Room(image: seq<byte>, length: nat, p: Params) {
    p.address + length <= |image| <= U32
  }

  lemma ChunkBounds(file: seq<byte>, size: nat, i: nat)
    requires i * size < |file|
    ensures |FileChunk(file, size, i)| <= size && i * size + |FileChunk(file, size, i)| <= |file|
    ensures i * size + |FileChunk(file, size, i)| == |file| || |FileChunk(file, size, i)| == size
    ensures forall j :: i * size <= j < i * size + |FileChunk(file, size, i)| ==>
              FileChunk(file, size, i)[j - i * size] == file[j]
  {
    Distribute2(i, 1, size);
  }

  lemma SpliceAt(s: seq<byte>, at: nat, t: seq<byte>, j: nat)
    requires at + |t| <= |s| && j < |s|
    ensures Splice(s, at, t)[j] == if at <= j < at + |t| then t[j - at] else s[j]
  {}

  /**
   Wherever a stored chunk lies, the image has the bytes of the file, whatever the order and however often it
   came.
   */
  lemma {:induction false} ImageIsFile(image: seq<byte>, saved: seq<Save>, file: seq<byte>, p: Params, j: nat)
    requires Genuine(saved, file, p) && Room(image, |file|, p) && p.size > 0
    requires j < |file| && Stored(saved, j / p.size)
    ensures Image(image, saved, p.store)[p.address + j] == file[j]
    decreases |saved|
  {
    hide *;
    RoomFor(image, |file|, p);
    NotEmpty(saved, j / p.size);
    OneSave(image, saved, file, p, j);
    if saved[|saved| - 1].index != j / p.size {
      GenuineFront(saved, file, p);
      StoredFront(saved, j / p.size);
      ImageIsFile(image, saved[..|saved| - 1], file, p, j);
    }
  }

  lemma RoomFor(image: seq<byte>, length: nat, p: Params)
    requires Room(image, length, p)
    ensures p.address + length <= |image|
  {}

  lemma NotEmpty(saved: seq<Save>, i: nat)
    requires Stored(saved, i)
    ensures |saved| > 0
  {}

  /** One more write changes byte j of the file exactly when it stores the chunk of j, and then to what it should be. */
  lemma OneSave(image: seq<byte>, saved: seq<Save>, file: seq<byte>, p: Params, j: nat)
    requires Genuine(saved, file, p) && Room(image, |file|, p) && p.size > 0 && j < |file| && |saved| > 0
    ensures Image(image, saved, p.store)[p.address + j]
         == if saved[|saved| - 1].index == j / p.size then file[j]
            else Image(image, saved[..|saved| - 1], p.store)[p.address + j]
  {
    hide *;
    var last := saved[|saved| - 1];
    RoomFor(image, |file|, p);
    LastSave(image, saved, file, p);
    var at: nat := last.index * p.size;
    SpliceAt(Image(image, saved[..|saved| - 1], p.store), p.address + at, last.data, p.address + j);
    Place(last.index, j, p.size, |last.data|, |file|);
  }

  lemma LastSave(image: seq<byte>, saved: seq<Save>, file: seq<byte>, p: Params)
    requires Genuine(saved, file, p) && Room(image, |file|, p) && |saved| > 0
    ensures var last := saved[|saved| - 1];
            var at, before := last.index * p.size, Image(image, saved[..|saved| - 1], p.store);
            && |last.data| <= p.size && 0 <= at && at + |last.data| <= |file|
            && (at + |last.data| == |file| || |last.data| == p.size)
            && p.address + |file| <= |before|
            && Image(image, saved, p.store) == Splice(before, p.address + at, last.data)
            && forall j :: at <= j < at + |last.data| ==> last.data[j - at] == file[j]
  {
    LastBounds(saved, file, p);
    ChunkBounds(file, p.size, saved[|saved| - 1].index);
    hide Splice, FileChunk, Genuine;
  }

  /** Outside the place for the file, and in other stores, nothing is written. */
  lemma {:induction false} NothingElseWritten(image: seq<byte>, saved: seq<Save>, store: nat, file: seq<byte>,
                                              p: Params, j: nat)
    requires Genuine(saved, file, p) && |image| <= U32 && p.address + |file| <= U32 && j < |image|
    requires store != p.store || !(p.address <= j < p.address + |file|)
    ensures Image(image, saved, store)[j] == image[j]
  {
    hide Splice, Genuine;
    if |saved| > 0 {
      var last := saved[|saved| - 1];
      LastBounds(saved, file, p);
      GenuineFront(saved, file, p);
      NothingElseWritten(image, saved[..|saved| - 1], store, file, p, j);
      if store == p.store && last.at + |last.data| <= |image| {
        SpliceAt(Image(image, saved[..|saved| - 1], store), last.at, last.data, j);
      }
    }
  }

  /** A chunk that was stored where it belongs lies inside the place for the file. */
  lemma LastBounds(saved: seq<Save>, file: seq<byte>, p: Params)
    requires Genuine(saved, file, p) && p.address + |file| <= U32 && |saved| > 0
    ensures var last := saved[|saved| - 1];
            var at := last.index * p.size;
            && last.store == p.store && 0 <= at && last.at == p.address + at && at + |last.data| <= |file|
            && last.data == FileChunk(file, p.size, last.index) && at < |file|
  {
    hide FileChunk;
    var last := saved[|saved| - 1];
    assert Placed(last, p);
    ChunkBounds(file, p.size, last.index);
    var at: nat := last.index * p.size;
    SmallMod(p.address + at, U32);
  }

  lemma GenuineFront(saved: seq<Save>, file: seq<byte>, p: Params)
    requires Genuine(saved, file, p) && |saved| > 0
    ensures Genuine(saved[..|saved| - 1], file, p)
  {
    hide FileChunk, Placed;
  }

  lemma StoredFront(saved: seq<Save>, i: nat)
    requires Stored(saved, i) && |saved| > 0 && saved[|saved| - 1].index != i
    ensures Stored(saved[..|saved| - 1], i)
  {
    var k :| 0 <= k < |saved| && saved[k].index == i;
    assert saved[..|saved| - 1][k].index == i;
  }

  /** Position j lies in chunk i of the file exactly when i is the quotient. */
  lemma Place(i: nat, j: nat, size: nat, n: nat, length: nat)
    requires size > 0 && j < length && n <= size && (i * size + n == length || n == size)
    ensures i * size <= j < i * size + n <==> i == j / size
  {
    DivFacts(j, size);
    var q := j / size;
    if i < q {
      MulMono(i + 1, q, size);
      Distribute2(i, 1, size);
    } else if i > q {
      MulMono(q + 1, i, size);
      Distribute2(q, 1, size);
    }
  }

  // ----- whole updates -----

  /** A chunk that names its index, the end of a flight, or the begin of an update, which may be refused. */
  datatype Ev = Arrived(index: nat, crc: Crc.Word32, data: seq<byte>)
              | UpdateDone(sent: bool, behind: seq<byte>)
              | Began(params: Params, accepted: bool)

  /** Everything the event reads and writes lies in memory. */
  predicate Possible(s: State, ev: Ev) {
    match ev
    case Arrived(index, crc, data) => Writable(s, Some(index), crc, data)
    case UpdateDone(_, behind) => Readable(s, behind)
    case Began(_, _) => true
  }

  function Step(s: State, ev: Ev): State
    requires Possible(s, ev)
  {
    match ev
    case Arrived(index, crc, data) => Chunk(s, Some(index), crc, data)
    case UpdateDone(sent, behind) => Done(s, sent, behind)
    case Began(p, accepted) => Begin(s, p, accepted)
  }

  /** A state after a run, or nothing when some event was not possible. */
  function Run(s: State, evs: seq<Ev>): Option<State> {
    if |evs| == 0 then Some(s)
    else
      var before, ev := Run(s, evs[..|evs| - 1]), evs[|evs| - 1];
      if before.Some? && Possible(before.value, ev) then Some(Step(before.value, ev)) else None
  }

  /** Chunk messages whose checksum matches carry bytes of the file. */
  ghost predicate Honest(evs: seq<Ev>, file: seq<byte>, size: nat) {
    forall k :: 0 <= k < |evs| && evs[k].Arrived? && Valid(evs[k].crc, evs[k].data) ==>
      evs[k].index * size < |file| && evs[k].data == FileChunk(file, size, evs[k].index)
  }

  /** The same place in the same store, and the same number of chunks of the update's size. */
  predicate SameFile(p: Params, q: Params) {
    q.store == p.store && q.address == p.address && ChunkCount(q.length, p.size) % U16 == ChunkCount(p.length, p.size)
  }

  /** Begins within the update are refused and name the same place and number of chunks. */
  ghost predicate Steady(evs: seq<Ev>, p: Params) {
    forall k :: 0 <= k < |evs| && evs[k].Began? ==>
      Refused(evs[k].params, evs[k].accepted) && SameFile(p, evs[k].params)
  }

  /** What a run keeps: place, number and size of the chunks, the bitmap, and that an ended update is complete. */
  ghost predicate UpdateInv(s: State, p: Params) {
    && Count(s) == ChunkCount(p.length, p.size) && s.size == p.size && Tracked(s)
    && s.file.store == p.store && s.file.address == p.address
    && (s.updating == 0 ==> forall i :: 0 <= i < Count(s) ==> Stored(s.saved, i))
  }

  lemma StepInv(s: State, ev: Ev, p: Params)
    requires UpdateInv(s, p) && Possible(s, ev)
    requires ev.Began? ==> Refused(ev.params, ev.accepted) && SameFile(p, ev.params)
    ensures UpdateInv(Step(s, ev), p)
    ensures forall k :: 0 <= k < |Step(s, ev).saved| ==>
              || (k < |s.saved| && Step(s, ev).saved[k] == s.saved[k])
              || (&& ev.Arrived? && Valid(ev.crc, ev.data)
                  && Step(s, ev).saved[k] == Save(ev.index, p.store, PlaceOf(p.address, ev.index, p.size), ev.data))
  {
    hide ChunkCount, Flag, Flagged, Valid, MissingFrom, NextMissing, Stored, PlaceOf;
    match ev {
      case Arrived(index, crc, data) => ChunkTracks(s, Some(index), crc, data);
      case UpdateDone(sent, behind) => DoneOnlyWhenStored(s, sent, behind);
      case Began(_, _) => RefusedBeginKeeps(s, p, ev);
    }
  }

  /**
   A begin that is refused in the middle of an update still overwrites the descriptor. The update keeps its meaning
   exactly when the descriptor keeps the store, the address and the number of chunks.
   */
  lemma RefusedBeginKeeps(s: State, p: Params, ev: Ev)
    requires UpdateInv(s, p) && ev.Began? && Refused(ev.params, ev.accepted)
    ensures UpdateInv(Step(s, ev), p) <==> SameFile(p, ev.params)
  {
    hide ChunkCount, Flagged, Stored;
  }

  /** After a refused begin a chunk that is stored lies in its place exactly when store and address are the same. */
  lemma LaterChunkPlaced(s: State, p: Params, ev: Ev, a: Ev)
    requires UpdateInv(s, p) && s.updating != 0 && ev.Began? && Refused(ev.params, ev.accepted)
    requires p.address < U32 && ev.params.address < U32
    requires a.Arrived? && Valid(a.crc, a.data) && a.index < MAX_CHUNKS && Possible(Step(s, ev), a)
    ensures var t := Step(Step(s, ev), a);
            && t.saved != [] && t.saved[|t.saved| - 1].index == a.index
            && (Placed(t.saved[|t.saved| - 1], p) <==> ev.params.store == p.store && ev.params.address == p.address)
  {
    hide ChunkCount, Flag, Tracked, Valid;
    SameShift(p.address, ev.params.address, a.index * p.size, U32);
  }

  lemma SameShift(a: nat, b: nat, x: int, m: nat)
    requires a < m && b < m && 0 <= x
    ensures (a + x) % m == (b + x) % m <==> a == b
  {
    DivFacts(a + x, m);
    DivFacts(b + x, m);
    var k := (a + x) / m - (b + x) / m;
    if (a + x) % m == (b + x) % m && a != b {
      assert a - b == k * m;
      MulAway(k, m);
    }
  }

  /** After a refused begin with fewer chunks the update ends as soon as these are stored, whatever else is missing. */
  lemma ShortenedEnds(s: State, p: Params, ev: Ev, behind: seq<byte>)
    requires UpdateInv(s, p) && s.updating != 0
    requires ev.Began? && Refused(ev.params, ev.accepted) && ChunkCount(ev.params.length, p.size) % U16 <= Count(s)
    ensures var n, t := ChunkCount(ev.params.length, p.size) % U16, Step(s, ev);
            && Sized(t)
            && (Done(t, true, behind).updating == 0 <==> forall i :: 0 <= i < n ==> Stored(s.saved, i))
  {
    var t := Step(s, ev);
    hide ChunkCount, Stored;
    assert BitmapSize(Count(t)) <= BitmapSize(Count(s));
    BehindUnread(t, behind);
    var mem := t.bitmap + behind;
    hide Flagged, MissingFrom;
    assert NextMissing(mem, Count(t), 0) == NO_CHUNKS_MISSING <==> forall i :: 0 <= i < Count(t) ==> Flagged(mem, i);
  }

  /**
   After a refused begin with the same number of chunks, the length handed over at the end is that of the refused
   message.
   */
  lemma RefusedBeginTellsLength(s: State, p: Params, ev: Ev, behind: seq<byte>)
    requires UpdateInv(s, p) && s.updating != 0 && forall i :: 0 <= i < Count(s) ==> Stored(s.saved, i)
    requires ev.Began? && Refused(ev.params, ev.accepted) && SameFile(p, ev.params)
    ensures var t := Step(s, ev);
            && Readable(t, behind)
            && Done(t, true, behind).out == s.out + [Acknowledged(true), Finished(ev.params.length)]
  {
    var t := Step(s, ev);
    hide ChunkCount, Stored, Flagged, MissingFrom;
    BehindUnread(t, behind);
    assert NextMissing(t.bitmap + behind, Count(t), 0) == NO_CHUNKS_MISSING;
    var n := ev.params.length;
    assert s.out + [Acknowledged(true)] + [Finished(n)] == s.out + [Acknowledged(true), Finished(n)];
  }

  /** Chunk messages since the last begin, or the last request for missing chunks of the running update. */
  function ArrivedSince(s: State, evs: seq<Ev>): nat {
    if |evs| == 0 then 0
    else
      var before, ev := evs[..|evs| - 1], evs[|evs| - 1];
      match ev
      case Arrived(_, _, _) => ArrivedSince(s, before) + 1
      case Began(_, _) => 0
      case UpdateDone(sent, behind) =>
        if Requests(Run(s, before), sent, behind) then 0 else ArrivedSince(s, before)
  }

  /** The server is asked for missing chunks of an update that goes on. */
  predicate Requests(s: Option<State>, sent: bool, behind: seq<byte>) {
    s.Some? && Readable(s.value, behind) && sent && s.value.updating != 0 && Done(s.value, sent, behind).updating != 0
  }

  /** In every run from a begin the counter tells how many chunk messages there were since then, in 16 bits. */
  lemma {:induction false} ArrivedCounts(s: State, evs: seq<Ev>)
    requires s.arrived == 0 && Run(s, evs).Some?
    ensures Run(s, evs).value.arrived == ArrivedSince(s, evs) % 0x1_0000
  {
    if |evs| > 0 {
      var before, ev := evs[..|evs| - 1], evs[|evs| - 1];
      ArrivedCounts(s, before);
      hide Flag, Flagged, ChunkCount, MissingFrom, NextMissing, Valid, PlaceOf, Run;
      RunBack(s, evs);
      NextCount(ArrivedSince(s, before));
    }
  }

  lemma RunBack(s: State, evs: seq<Ev>)
    requires |evs| > 0 && Run(s, evs).Some?
    ensures var before, ev := Run(s, evs[..|evs| - 1]), evs[|evs| - 1];
            before.Some? && Possible(before.value, ev) && Run(s, evs) == Some(Step(before.value, ev))
  {
    hide Possible, Step;
  }

  lemma NextCount(n: nat)
    ensures (n % 0x1_0000 + 1) % 0x1_0000 == (n + 1) % 0x1_0000
  {}

  /** All begins, refused or not, name this length. */
  ghost predicate SameLength(evs: seq<Ev>, length: nat) {
    forall k :: 0 <= k < |evs| && evs[k].Began? ==> evs[k].params.length == length
  }

  /** The updates that ended since then were handed over with this length. */
  ghost predicate HandedOver(before: seq<Out>, out: seq<Out>, length: nat) {
    before <= out && forall k :: |before| <= k < |out| && out[k].Finished? ==> out[k].length == length
  }

  lemma {:induction false} LengthKept(s: State, evs: seq<Ev>, length: nat)
    requires s.file.length == length && SameLength(evs, length) && Run(s, evs).Some?
    ensures var end := Run(s, evs).value; end.file.length == length && HandedOver(s.out, end.out, length)
  {
    if |evs| > 0 {
      var before, ev := evs[..|evs| - 1], evs[|evs| - 1];
      assert ev.Began? ==> ev.params.length == length;
      hide Possible, Step;
      LengthKept(s, before, length);
      LengthStep(Run(s, before).value, ev, s.out, length);
    }
  }

  lemma LengthStep(s: State, ev: Ev, before: seq<Out>, length: nat)
    requires Possible(s, ev) && s.file.length == length && HandedOver(before, s.out, length)
    requires ev.Began? ==> ev.params.length == length
    ensures Step(s, ev).file.length == length && HandedOver(before, Step(s, ev).out, length)
  {
    hide Flag, Flagged, ChunkCount, MissingFrom, NextMissing, Valid, PlaceOf;
  }

  /** The message that carries chunk i of a file. */
  function Message(file: seq<byte>, size: nat, i: nat): Ev {
    var data := FileChunk(file, size, i);
    Arrived(i, Crc.Crc32(Crc.ZERO, data), data)
  }

  /** Two chunks of 100 bytes at the start of a store. */
  const TWO_CHUNKS := Params(200, 100, FIRMWARE, 0, true)

  lemma FirstChunk(s: State, file: seq<byte>) returns (t: State)
    requires |file| == 200
    ensures var start, a := Begin(s, TWO_CHUNKS, true), Message(file, 100, 0);
            && Possible(start, a) && t == Step(start, a) && UpdateInv(t, TWO_CHUNKS) && t.updating == 1
            && t.out == s.out
    ensures t.saved == [Save(0, FIRMWARE, 0, file[..100])] && |t.bitmap| == 1
  {
    hide Crc.Crc32;
    var start, a := Begin(s, TWO_CHUNKS, true), Message(file, 100, 0);
    assert ChunkCount(200, 100) == 2;
    BeginInv(s, TWO_CHUNKS);
    t := Step(start, a);
    StepInv(start, a, TWO_CHUNKS);
  }

  /** A reachable case: of two chunks only the first is stored, and the update is acknowledged as complete and ends. */
  lemma RefusedBeginLosesChunk(s: State, file: seq<byte>, behind: seq<byte>)
    requires |file| == 200
    ensures var refused := Began(TWO_CHUNKS.(length := 100), false);
            var evs := [Message(file, 100, 0), refused, UpdateDone(true, behind)];
            var end := Run(Begin(s, TWO_CHUNKS, true), evs);
            && Honest(evs, file, 100) && end.Some? && end.value.updating == 0
            && end.value.out == s.out + [Acknowledged(true), Finished(100)] && !Stored(end.value.saved, 1)
  {
    var a, b, c := Message(file, 100, 0), Began(TWO_CHUNKS.(length := 100), false), UpdateDone(true, behind);
    var s1 := FirstChunk(s, file);
    assert s1.saved[0].index == 0;
    hide Crc.Crc32, Message;
    assert ChunkCount(200, 100) == 2 && ChunkCount(100, 100) == 1;
    ShortenedEnds(s1, TWO_CHUNKS, b, behind);
    ThreeSteps(Begin(s, TWO_CHUNKS, true), a, b, c);
    MessageHonest(file, 100, 0);
    assert s.out + [Acknowledged(true)] + [Finished(100)] == s.out + [Acknowledged(true), Finished(100)];
  }

  lemma MessageHonest(file: seq<byte>, size: nat, i: nat)
    requires i * size < |file|
    ensures Message(file, size, i).Arrived? && Honest([Message(file, size, i)], file, size)
  {}

  /**
   Another one: between the chunks a begin for the same length and another address is refused, because updates have
   been disabled meanwhile. All chunks are stored and acknowledged as complete, and the second one is missing from
   the file.
   */
  lemma RefusedBeginMovesChunk(s: State, file: seq<byte>, image: seq<byte>, address: nat, behind: seq<byte>)
    requires |file| == 200 && Room(image, 200, TWO_CHUNKS) && 200 <= address && address + 200 <= |image|
    ensures var refused := Began(TWO_CHUNKS.(address := address), false);
            var evs := [Message(file, 100, 0), refused, Message(file, 100, 1), UpdateDone(true, behind)];
            var end := Run(Begin(s, TWO_CHUNKS, true), evs);
            && Honest(evs, file, 100) && end.Some? && end.value.updating == 0
            && end.value.out == s.out + [Acknowledged(true), Finished(200)]
            && Stored(end.value.saved, 0) && Stored(end.value.saved, 1)
            && Image(image, end.value.saved, FIRMWARE)[100..200] == image[100..200]
            && Image(image, end.value.saved, FIRMWARE)[address + 100..address + 200] == file[100..]
  {
    var a, b := Message(file, 100, 0), Began(TWO_CHUNKS.(address := address), false);
    var c, d := Message(file, 100, 1), UpdateDone(true, behind);
    var start := Begin(s, TWO_CHUNKS, true);
    var s1 := FirstChunk(s, file);
    MovedChunk(s1, file, address);
    var s3 := Step(Step(s1, b), c);
    MovedDone(s3, s.out, behind);
    FourSteps(start, a, b, c, d);
    MessageHonest(file, 100, 0);
    MessageHonest(file, 100, 1);
    hide Message, Honest;
    HonestFour(a, b, c, d, file, 100);
    MovedImage(image, s3.saved, file, address);
  }

  lemma ThreeSteps(s: State, a: Ev, b: Ev, c: Ev)
    requires Possible(s, a) && Possible(Step(s, a), b) && Possible(Step(Step(s, a), b), c)
    ensures Run(s, [a, b, c]) == Some(Step(Step(Step(s, a), b), c))
  {
    hide Possible, Step;
    RunOne(s, a);
    RunNext(s, [a], b, Step(s, a));
    RunNext(s, [a, b], c, Step(Step(s, a), b));
    assert [a] + [b] == [a, b] && [a, b] + [c] == [a, b, c];
  }

  lemma RunOne(s: State, ev: Ev)
    requires Possible(s, ev)
    ensures Run(s, [ev]) == Some(Step(s, ev))
  {
    hide Possible, Step;
    assert [ev][..0] == [];
  }

  lemma RunNext(s: State, evs: seq<Ev>, ev: Ev, t: State)
    requires Run(s, evs) == Some(t) && Possible(t, ev)
    ensures Run(s, evs + [ev]) == Some(Step(t, ev))
  {
    hide Possible, Step;
    assert (evs + [ev])[..|evs|] == evs;
  }

  lemma FourSteps(s: State, a: Ev, b: Ev, c: Ev, d: Ev)
    requires Possible(s, a) && Possible(Step(s, a), b) && Possible(Step(Step(s, a), b), c)
    requires Possible(Step(Step(Step(s, a), b), c), d)
    ensures Run(s, [a, b, c, d]) == Some(Step(Step(Step(Step(s, a), b), c), d))
  {
    hide Possible, Step, Run;
    ThreeSteps(s, a, b, c);
    RunNext(s, [a, b, c], d, Step(Step(Step(s, a), b), c));
    assert [a, b, c] + [d] == [a, b, c, d];
  }

  lemma HonestFour(a: Ev, b: Ev, c: Ev, d: Ev, file: seq<byte>, size: nat)
    requires Honest([a], file, size) && !b.Arrived? && Honest([c], file, size) && !d.Arrived?
    ensures Honest([a, b, c, d], file, size)
  {
    hide Valid, FileChunk;
    assert [a][0] == a && [c][0] == c;
  }

  lemma MovedChunk(s: State, file: seq<byte>, address: nat)
    requires UpdateInv(s, TWO_CHUNKS) && s.updating == 1 && |s.bitmap| == 1 && |file| == 200 && address + 200 <= U32
    requires s.saved == [Save(0, FIRMWARE, 0, file[..100])]
    ensures var b, c := Began(TWO_CHUNKS.(address := address), false), Message(file, 100, 1);
            && Possible(Step(s, b), c)
            && var t := Step(Step(s, b), c);
               && t.updating == 1 && t.out == s.out && Tracked(t) && Count(t) == 2 && t.file.length == 200
               && t.saved == [Save(0, FIRMWARE, 0, file[..100]), Save(1, FIRMWARE, address + 100, file[100..])]
  {
    hide Crc.Crc32, Flag, Flagged, Stored;
    var b, c := Began(TWO_CHUNKS.(address := address), false), Message(file, 100, 1);
    assert ChunkCount(200, 100) == 2;
    var m := Step(s, b);
    assert Tracked(m);
    ChunkTracks(m, Some(1), c.crc, c.data);
    SmallMod(address + 100, U32);
    assert file[100..200] == file[100..];
  }

  lemma MovedDone(t: State, out: seq<Out>, behind: seq<byte>)
    requires Tracked(t) && Count(t) == 2 && t.updating == 1 && t.out == out
    requires |t.saved| == 2 && t.saved[0].index == 0 && t.saved[1].index == 1
    ensures Stored(t.saved, 0) && Stored(t.saved, 1) && Possible(t, UpdateDone(true, behind))
    ensures var end := Step(t, UpdateDone(true, behind));
            end.updating == 0 && end.out == out + [Acknowledged(true), Finished(t.file.length)] && end.saved == t.saved
  {
    hide ChunkCount, Flagged, MissingFrom, BitmapSize;
    BehindUnread(t, behind);
    var mem := t.bitmap + behind;
    assert NextMissing(mem, Count(t), 0) == NO_CHUNKS_MISSING;
    var n := t.file.length;
    assert out + [Acknowledged(true)] + [Finished(n)] == out + [Acknowledged(true), Finished(n)];
  }

  lemma MovedImage(image: seq<byte>, saved: seq<Save>, file: seq<byte>, address: nat)
    requires |file| == 200 && 200 <= address && address + 200 <= |image|
    requires saved == [Save(0, FIRMWARE, 0, file[..100]), Save(1, FIRMWARE, address + 100, file[100..])]
    ensures var r := Image(image, saved, FIRMWARE);
            r[100..200] == image[100..200] && r[address + 100..address + 200] == file[100..]
  {
    var one := saved[..1];
    assert one[..0] == [] && Image(image, [], FIRMWARE) == image;
    var r1 := Image(image, one, FIRMWARE);
    assert r1 == Splice(image, 0, file[..100]);
    var r := Image(image, saved, FIRMWARE);
    assert r == Splice(r1, address + 100, file[100..]);
    SpliceParts(image, 0, file[..100]);
    SpliceParts(r1, address + 100, file[100..]);
    assert r[100..200] == r[..address + 100][100..200] == r1[100..][..100] == image[100..][..100];
  }

  lemma RunFront(evs: seq<Ev>, file: seq<byte>, p: Params)
    requires Honest(evs, file, p.size) && Steady(evs, p) && |evs| > 0
    ensures Honest(evs[..|evs| - 1], file, p.size) && Steady(evs[..|evs| - 1], p)
    ensures var ev := evs[|evs| - 1]; Honest([ev], file, p.size) && Steady([ev], p)
  {
    hide Valid, FileChunk, Refused, SameFile;
  }

  /** In an update everything that is read and written lies in the bitmap. */
  lemma AlwaysPossible(s: State, ev: Ev, file: seq<byte>, p: Params)
    requires UpdateInv(s, p) && Honest([ev], file, p.size) && Transfer(file, p)
    ensures Possible(s, ev)
  {
    hide ChunkCount, Valid, FileChunk, Stored, Flagged;
    assert [ev][0] == ev;
    if ev.Arrived? && Valid(ev.crc, ev.data) {
      IndexInBitmap(s, ev.index, |file|, p.size);
    }
  }

  /** The parameters are those of a file in fast mode, and no 32-bit sum wraps. */
  predicate Transfer(file: seq<byte>, p: Params) {
    && p.length == |file| > 0 && 0 < p.size < U16 && |file| + p.size - 1 < U32 && p.fast
    && ChunkCount(|file|, p.size) < MAX_CHUNKS
  }

  lemma IndexInBitmap(s: State, i: nat, length: nat, size: nat)
    requires Sized(s) && Count(s) == ChunkCount(length, size) && 0 < size < U16
    requires length + size - 1 < U32 && i * size < length
    ensures i / 8 < |s.bitmap|
  {
    CountCovers(length, size);
    hide ChunkCount;
    InFile(i, ChunkCount(length, size), size, length);
  }

  lemma InFile(i: nat, count: nat, size: nat, length: nat)
    requires i * size < length <= count * size
    ensures i < count
  {
    if i >= count {
      MulMono(count, i, size);
    }
  }

  lemma {:induction false} RunInv(s: State, evs: seq<Ev>, file: seq<byte>, p: Params)
    requires UpdateInv(s, p) && s.saved == [] && Honest(evs, file, p.size) && Steady(evs, p) && Transfer(file, p)
    ensures var end := Run(s, evs);
            end.Some? && UpdateInv(end.value, p) && Genuine(end.value.saved, file, p)
  {
    hide UpdateInv, Step, Possible, Valid, FileChunk, Honest, Steady, Transfer;
    if |evs| > 0 {
      var before, ev := evs[..|evs| - 1], evs[|evs| - 1];
      RunFront(evs, file, p);
      RunInv(s, before, file, p);
      var t := Run(s, before).value;
      AlwaysPossible(t, ev, file, p);
      SteadyStep(t, ev, file, p);
    }
  }

  lemma SteadyStep(s: State, ev: Ev, file: seq<byte>, p: Params)
    requires UpdateInv(s, p) && Genuine(s.saved, file, p) && Possible(s, ev)
    requires Honest([ev], file, p.size) && Steady([ev], p)
    ensures UpdateInv(Step(s, ev), p) && Genuine(Step(s, ev).saved, file, p)
  {
    assert [ev][0] == ev;
    hide UpdateInv, Step, Possible, Valid, FileChunk, Refused, SameFile, PlaceOf;
    StepInv(s, ev, p);
  }

  /**
   For every order of arrival with losses, duplicates and corrupted chunks, and with refused begins that keep the
   place and the number of chunks: once the update has ended, every chunk has been stored with a matching checksum
   and the storage holds the file. If they keep the length as well, it is what is handed over at the end.
   */
  lemma TransferCorrect(s: State, evs: seq<Ev>, file: seq<byte>, p: Params, image: seq<byte>)
    requires Transfer(file, p) && Honest(evs, file, p.size) && Steady(evs, p) && Room(image, |file|, p)
    ensures var end := Run(Begin(s, p, true), evs);
            && end.Some?
            && (end.value.updating == 0 ==>
                  && (forall i :: 0 <= i < ChunkCount(|file|, p.size) ==> Stored(end.value.saved, i))
                  && Image(image, end.value.saved, p.store)[p.address..p.address + |file|] == file)
            && (SameLength(evs, |file|) ==> HandedOver(s.out, end.value.out, |file|))
  {
    hide *;
    var start := Begin(s, p, true);
    TransferMeans(file, p);
    BeginInv(s, p);
    RunInv(start, evs, file, p);
    RoomFor(image, |file|, p);
    var end := Run(start, evs).value;
    if SameLength(evs, |file|) {
      LengthKept(start, evs, |file|);
    }
    if end.updating == 0 {
      AllStored(end, p);
      WholeImage(image, end.saved, file, p);
    }
  }

  /** Chunk i has arrived intact. */
  ghost predicate Came(evs: seq<Ev>, i: nat) {
    exists k :: 0 <= k < |evs| && evs[k].Arrived? && evs[k].index == i && Valid(evs[k].crc, evs[k].data)
  }

  /** What has arrived intact during the update has been stored. */
  lemma {:induction false} ArrivedIsStored(s: State, evs: seq<Ev>, file: seq<byte>, p: Params, i: nat)
    requires UpdateInv(s, p) && s.saved == [] && Honest(evs, file, p.size) && Steady(evs, p) && Transfer(file, p)
    requires Came(evs, i) && i < ChunkCount(|file|, p.size)
    ensures Run(s, evs).Some? && Stored(Run(s, evs).value.saved, i)
  {
    hide UpdateInv, Step, Possible, Valid, FileChunk, Honest, Steady, Transfer, ChunkCount;
    var before, ev := evs[..|evs| - 1], evs[|evs| - 1];
    RunFront(evs, file, p);
    RunInv(s, before, file, p);
    var t := Run(s, before).value;
    AlwaysPossible(t, ev, file, p);
    if Came(before, i) {
      ArrivedIsStored(s, before, file, p, i);
      SteadyLast(ev, p);
      StaysStored(t, ev, p, i);
    } else {
      JustCame(evs, i);
      TransferMeans(file, p);
      NowStored(t, ev, p, i);
    }
  }

  lemma JustCame(evs: seq<Ev>, i: nat)
    requires Came(evs, i) && !Came(evs[..|evs| - 1], i)
    ensures var ev := evs[|evs| - 1]; ev.Arrived? && ev.index == i && Valid(ev.crc, ev.data)
  {
    hide Valid;
    var before := evs[..|evs| - 1];
    assert forall k :: 0 <= k < |before| ==> before[k] == evs[k];
  }

  lemma SteadyLast(ev: Ev, p: Params)
    requires Steady([ev], p)
    ensures ev.Began? ==> Refused(ev.params, ev.accepted)
  {
    assert [ev][0] == ev;
  }

  lemma StaysStored(s: State, ev: Ev, p: Params, i: nat)
    requires Possible(s, ev) && Stored(s.saved, i) && (ev.Began? ==> Refused(ev.params, ev.accepted))
    ensures Stored(Step(s, ev).saved, i)
  {
    hide Flag, ChunkCount, Valid, MissingFrom, NextMissing, PlaceOf;
    var k :| 0 <= k < |s.saved| && s.saved[k].index == i;
    assert Step(s, ev).saved[k] == s.saved[k];
  }

  lemma NowStored(s: State, ev: Ev, p: Params, i: nat)
    requires UpdateInv(s, p) && Possible(s, ev) && ev.Arrived? && ev.index == i && Valid(ev.crc, ev.data)
    requires i < ChunkCount(p.length, p.size) < MAX_CHUNKS
    ensures Stored(Step(s, ev).saved, i)
  {
    hide Flag, ChunkCount, Valid, Tracked, PlaceOf;
    if s.updating != 0 {
      var saved := Step(s, ev).saved;
      assert saved[|saved| - 1].index == i;
    }
  }

  /**
   Once every chunk has arrived intact, in any order and with any others between them, the update ends as soon as the
   server says it has sent everything and the acknowledgement goes out.
   */
  lemma TransferEnds(s: State, evs: seq<Ev>, file: seq<byte>, p: Params, behind: seq<byte>)
    requires Transfer(file, p) && Honest(evs, file, p.size) && Steady(evs, p)
    requires forall i :: 0 <= i < ChunkCount(|file|, p.size) ==> Came(evs, i)
    ensures var end := Run(Begin(s, p, true), evs + [UpdateDone(true, behind)]); end.Some? && end.value.updating == 0
  {
    hide *;
    var start, last := Begin(s, p, true), UpdateDone(true, behind);
    TransferMeans(file, p);
    BeginInv(s, p);
    RunInv(start, evs, file, p);
    var t := Run(start, evs).value;
    forall i | 0 <= i < ChunkCount(|file|, p.size)
      ensures Stored(t.saved, i)
    {
      ArrivedIsStored(start, evs, file, p, i);
    }
    NothingHonest(last, file, p.size);
    AlwaysPossible(t, last, file, p);
    RunNext(start, evs, last, t);
    EndsNow(t, p, behind);
  }

  lemma NothingHonest(ev: Ev, file: seq<byte>, size: nat)
    requires ev.UpdateDone?
    ensures Honest([ev], file, size)
  {}

  lemma EndsNow(s: State, p: Params, behind: seq<byte>)
    requires UpdateInv(s, p) && Possible(s, UpdateDone(true, behind))
    requires forall i :: 0 <= i < ChunkCount(p.length, p.size) ==> Stored(s.saved, i)
    ensures Step(s, UpdateDone(true, behind)).updating == 0
  {
    hide Done, Tracked, ChunkCount;
    DoneOnlyWhenStored(s, true, behind);
  }

  lemma TransferMeans(file: seq<byte>, p: Params)
    requires Transfer(file, p)
    ensures p.fast && p.length == |file| > 0 && 0 < p.size && p.length + p.size - 1 < U32
    ensures ChunkCount(p.length, p.size) < MAX_CHUNKS
  {}

  lemma BeginInv(s: State, p: Params)
    requires p.fast && 0 < p.size && 0 < p.length && p.length + p.size - 1 < U32
    requires ChunkCount(p.length, p.size) < MAX_CHUNKS
    ensures var t := Begin(s, p, true); UpdateInv(t, p) && t.saved == [] && t.out == s.out && t.file.length == p.length
  {
    CountPositive(p.length, p.size);
    BeginTracks(s, p);
    SmallMod(ChunkCount(p.length, p.size), U16);
    hide ChunkCount, Tracked;
  }

  lemma AllStored(s: State, p: Params)
    requires UpdateInv(s, p) && s.updating == 0
    ensures forall i :: 0 <= i < ChunkCount(p.length, p.size) ==> Stored(s.saved, i)
  {
    hide ChunkCount, Tracked;
  }

  lemma WholeImage(image: seq<byte>, saved: seq<Save>, file: seq<byte>, p: Params)
    requires Transfer(file, p) && Room(image, |file|, p) && Genuine(saved, file, p)
    requires forall i :: 0 <= i < ChunkCount(|file|, p.size) ==> Stored(saved, i)
    ensures p.address + |file| <= |image| && Image(image, saved, p.store)[p.address..p.address + |file|] == file
  {
    hide *;
    RoomFor(image, |file|, p);
    TransferMeans(file, p);
    TransferCovers(file, p);
    forall j | 0 <= j < |file|
      ensures Image(image, saved, p.store)[p.address + j] == file[j]
    {
      InSomeChunk(j, |file|, p.size, ChunkCount(|file|, p.size));
      ImageIsFile(image, saved, file, p, j);
    }
  }

  lemma TransferCovers(file: seq<byte>, p: Params)
    requires Transfer(file, p)
    ensures |file| <= ChunkCount(|file|, p.size) * p.size
  {
    CountCovers(|file|, p.size);
  }

  lemma CountPositive(length: nat, size: nat)
    requires 0 < size && 0 < length && length + size - 1 < U32
    ensures ChunkCount(length, size) > 0
  {
    SmallMod(length + size - 1, U32);
    var q, r := (length + size - 1) / size, (length + size - 1) % size;
    DivFacts(length + size - 1, size);
    QuotientAtLeast(1, q, size, r);
  }

  lemma InSomeChunk(j: nat, length: nat, size: nat, count: nat)
    requires 0 < size && j < length <= count * size
    ensures j / size < count
  {
    DivFacts(j, size);
    if j / size >= count {
      MulMono(count, j / size, size);
    }
  }

  /** A chunk damaged within four consecutive bytes does not pass under the checksum of the original. */
  lemma DamageRejected(a: seq<byte>, good: seq<byte>, bad: seq<byte>, b: seq<byte>)
    requires |good| == |bad| <= 4 && good != bad
    ensures !Valid(Crc.Crc32(Crc.ZERO, a + good + b), a + bad + b)
  {
    hide Crc.Crc32;
    Crc.BurstDetected(Crc.ZERO, a, good, bad, b);
  }

  // ----- the code -----

  /** The request loop: what is listed and what is still to be listed. */
  lemma Listing(bitmap: seq<byte>, count: nat, list: seq<nat>, from: nat, n: nat)
    requires BitmapSize(count) <= |bitmap| && count <= MAX_CHUNKS && |list| <= n
    ensures var i := NextMissing(bitmap, count, from);
            var todo := MissingFrom(bitmap, count, from, n - |list|);
            && (|list| == n || i == NO_CHUNKS_MISSING ==> list + todo == list)
            && (|list| < n && i != NO_CHUNKS_MISSING ==>
                  list + todo == (list + [i]) + MissingFrom(bitmap, count, i + 1, n - |list + [i]|))
            && [] + MissingFrom(bitmap, count, 0, n) == MissingFrom(bitmap, count, 0, n)
  {
    hide NextMissing, MissingFrom;
    MissingUnfold(bitmap, count, from, n - |list|);
  }

  class ChunkedTransfer {
    var updating: nat             // 0: idle, 1: receiving, 2: receiving missing chunks
    var file: Descriptor          // given to the callbacks
    var chunkSize: nat            // of the update; that of the descriptor is overwritten
    var chunkIndex: nat
    var chunkCount: nat           // chunks that arrived in the current flight
    var missedChunkIndex: nat
    var bitmap: array<byte>
    var saved: seq<Save>          // chunks given to the storage callback, in order
    var out: seq<Out>             // replies, resend requests and the final callback

    constructor ()
      ensures View() == State(0, Descriptor(0, FIRMWARE, 0, 0, 0), 0, 0, 0, [], [], [])
    {
      updating, chunkSize, chunkIndex, chunkCount, missedChunkIndex := 0, 0, 0, 0, 0;
      file := Descriptor(0, FIRMWARE, 0, 0, 0);
      bitmap := new byte[0];
      saved, out := [], [];
      new;
      assert bitmap[..] == [];
    }

    ghost function View(): State
      reads this, bitmap
    {
      State(updating, file, chunkSize, chunkIndex, chunkCount, bitmap[..], saved, out)
    }

    method FlagChunkReceived(i: nat)
      requires i / 8 < bitmap.Length
      modifies bitmap
      ensures bitmap[..] == Flag(old(bitmap[..]), i)
    {
      BitOfIsShift(i % 8);
      hide BitOf;
      bitmap[i / 8] := bitmap[i / 8] | ((1 as byte) << (i % 8));
    }

    /** The byte of the chunk, which may lie in the memory behind the bitmap. */
    function IsChunkReceived(i: nat, behind: seq<byte>): (received: bool)
      requires i / 8 < bitmap.Length + |behind|
      reads this, bitmap
      ensures received <==> Flagged(bitmap[..] + behind, i)
    {
      BitOfIsShift(i % 8);
      var b := if i / 8 < bitmap.Length then bitmap[i / 8] else behind[i / 8 - bitmap.Length];
      b & ((1 as byte) << (i % 8)) != 0
    }

    method SetChunksReceived(value: byte)
      requires bitmap.Length == BitmapSize(ChunkCount(file.length, chunkSize))
      modifies bitmap
      ensures bitmap[..] == Fill(bitmap.Length, value)
    {
      for i := 0 to bitmap.Length
        invariant forall j :: 0 <= j < i ==> bitmap[j] == value
      {
        bitmap[i] := value;
      }
    }

    method NextChunkMissing(start: nat, behind: seq<byte>) returns (chunk: nat)
      requires Readable(View(), behind)
      ensures chunk == NextMissing(bitmap[..] + behind, Count(View()), start)
    {
      hide ChunkCount, Flagged;
      ghost var mem := bitmap[..] + behind;
      chunk := NO_CHUNKS_MISSING;
      var chunks, idx := ChunkCount(file.length, chunkSize) % U16, start;
      while idx < chunks
        invariant start <= idx && NextMissing(mem, chunks, idx) == NextMissing(mem, chunks, start)
      {
        if !IsChunkReceived(idx, behind) {
          chunk := idx;
          break;
        }
        idx := idx + 1;
      }
    }

    /**
     Starts an update; given is what the message says, if it is long enough, and accepted is the answer of the
     callback that checks the parameters.
     */
    method HandleUpdateBegin(given: Option<Params>, accepted: bool)
      modifies this
      ensures View() == Begin(old(View()), if given.Some? then given.value else NO_PARAMS, accepted)
    {
      hide ChunkCount;
      var p := NO_PARAMS;
      chunkCount := 0;
      if given.Some? {
        p := given.value;
      }
      file := Descriptor(p.length, p.store, p.address, p.size, p.address);
      if accepted && ChunkCount(p.length, p.size) < MAX_CHUNKS {
        chunkIndex, chunkSize, updating := 0, p.size, 1;
        saved := [];
        bitmap := new byte[BitmapSize(ChunkCount(p.length, p.size))];
        SetChunksReceived(if p.fast then 0 else 0xFF);
      }
    }

    /**
     A chunk message with its checksum, an index in fast mode, and the bytes. The result is false when the flag of
     a stored chunk would be written outside the bitmap; nothing is said about what happens then.
     */
    method HandleChunk(index: Option<nat>, crc: Crc.Word32, data: seq<byte>) returns (inside: bool)
      modifies this, bitmap
      ensures inside == old(Writable(View(), index, crc, data))
      ensures inside ==> View() == Chunk(old(View()), index, crc, data)
    {
      hide ChunkCount, Flag, PlaceOf, Crc.Crc32;
      chunkCount := (chunkCount + 1) % U16;
      inside := true;
      if updating == 0 {
        return;
      }
      if index.Some? {
        chunkIndex := index.value;
      }
      file := file.(chunkSize := |data|, chunkAddress := PlaceOf(file.address, chunkIndex, chunkSize));
      if chunkIndex >= MAX_CHUNKS {
        return;
      }
      if Crc.Crc32(Crc.ZERO, data) == crc {
        if chunkIndex / 8 >= bitmap.Length {
          return false;
        }
        saved := saved + [Save(chunkIndex, file.store, file.chunkAddress, data)];
        FlagChunkReceived(chunkIndex);
        chunkIndex := (chunkIndex + 1) % U16;
      }
    }

    /** Lists up to count missing chunks in one request. */
    method SendMissingChunks(count: nat, behind: seq<byte>)
      requires Readable(View(), behind)
      modifies this`out, this`missedChunkIndex
      ensures var list := MissingFrom(bitmap[..] + behind, Count(View()), 0, count);
              out == if |list| > 0 then old(out) + [Request(list)] else old(out)
    {
      hide ChunkCount, NextMissing, MissingFrom, BitmapSize, Readable;
      ghost var chunks, bm, from := Count(View()), bitmap[..] + behind, 0;
      var list: seq<nat> := [];
      ReadableSize(View(), behind);
      var idx := NextChunkMissing(0, behind);
      Listing(bm, chunks, list, from, count);
      while idx != NO_CHUNKS_MISSING && |list| < count
        invariant |list| <= count && bitmap[..] + behind == bm && Count(View()) == chunks
                  && idx == NextMissing(bm, chunks, from)
        invariant list + MissingFrom(bm, chunks, from, count - |list|) == MissingFrom(bm, chunks, 0, count)
        invariant out == old(out)
        decreases count - |list|
      {
        Listing(bm, chunks, list, from, count);
        missedChunkIndex := idx;
        list := list + [idx];
        from := idx + 1;
        idx := NextChunkMissing(idx + 1, behind);
      }
      Listing(bm, chunks, list, from, count);
      if |list| > 0 {
        out := out + [Request(list)];
      }
    }

    /** The server has sent everything; sent tells whether the acknowledgement could be sent. */
    method HandleUpdateDone(sent: bool, behind: seq<byte>)
      requires Readable(View(), behind)
      modifies this
      ensures View() == Done(old(View()), sent, behind)
    {
      hide ChunkCount, NextMissing, MissingFrom;
      var index := NextChunkMissing(0, behind);
      var missing := index != NO_CHUNKS_MISSING;
      out := out + [Acknowledged(!missing)];
      if !sent {
        return;
      }
      if updating == 0 {
        return;
      }
      if !missing {
        updating := 0;
        out := out + [Finished(file.length)];
      } else {
        updating := 2;
        var increase := if chunkCount / 5 > MINIMUM_CHUNK_INCREASE then chunkCount / 5 else MINIMUM_CHUNK_INCREASE;
        var resend := if chunkCount + increase < MISSED_CHUNKS_TO_SEND then chunkCount + increase
          else MISSED_CHUNKS_TO_SEND;
        chunkCount := 0;
        SendMissingChunks(resend, behind);
      }
    }
  }
}
