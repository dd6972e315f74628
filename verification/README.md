# Device-side protocol core

A model of the hard parts of a CoAP-over-DTLS device client and of its proofs of correctness:

- **Multi-precision arithmetic** (`Arith`, `Words`, `Vli`, `VliMult`, `VliMod`, `ModInv`, `Ladder`): the in-place
  word-array routines of micro-ecc, each with one equation over the integers, for every word width and
  word count; the Montgomery ladder over an arbitrary commutative group.
- **DTLS** (`Bytes`, `Ccm`, `Record`, `Replay`, `Netq`, `Handshake`, `Asn1`): CCM over an arbitrary block function
  against its definition in RFC 3610, the record round trip, the anti-replay window over whole packet histories,
  handshake reordering over whole message sequences, the retransmission queue under a wrapping clock, and the
  signature codec.
- **CoAP reliability** (`Coap`, `CoapStore`): the message store as a linked list, and at-most-once delivery, bounded
  retransmission and its doubling timeouts over whole runs.
- **Completion handlers and publish** (`Vector`, `HandlerMap`, `Publish`): relative ticks as absolute deadlines,
  exactly-once callbacks, and the block-wise publish driven by them.
- **Firmware transfer and events** (`Crc`, `Chunked`, `Options`, `Subscriptions`): the chunk bitmap and the stored
  image, error detection by the checksum, the option codec with the in-place path join, and event dispatch.

Code that changes state step by step is modelled by methods on arrays and classes. Each such method is proved
equal to a function on values, or to an equation over numbers; what the code promises over whole runs is then
proved about that function. Where a promise fails on some inputs, an if-and-only-if says on which
(`StepExact`, `ReplyExact`, `LateReplyExact`, `DecodeExact`, `CountCovers`, `LadderProper`, `DispatchComplete`,
`AddReaches`, `WritesInside`, `TimeoutsFitExactly`, `RefusedBeginKeeps`, `LaterChunkPlaced`), and a lemma with a
reachable run or an input shows one.

`Arith`, `Words`, `Bytes`, `Lists` and `Wrappers` hold what the other modules share. `dafny verify dfyconfig.toml`
checks everything.

## Where a promise holds only under a condition

- `HandlerMap.StepExact`: the 32-bit sums `ticks_ + timeout` and
  `ticks_ + ticks` may wrap, and `UpdateMisses` shows that a wrapped update calls nothing; `ShortSpansFit` says when
  they do not.
- `Publish.ReplyExact`: the code trusts the server. A plain success for an earlier block leaves the slot taken for
  good (`StalledBySuccess`), and 2.31 to the last block sends once more (`RepeatedByContinue`); both are reached by
  short runs.
- `Publish.LateReplyExact`: a handler times out after 30 seconds (include/protocol_defs.h:100), while the message stays
  in the store for 30 to 45 seconds. 2.31 in between finds no handler, but its slot still has the token: the next block
  goes out with a new handler, and the publish is completed a second time (`LateInRun`).
- `Ladder.LadderProper`: for the exceptional scalars some addition of the ladder meets equal, opposite or infinite
  points. The model adds in the group all the same; `ScalarTimesPoint` says with its second result when this happens.
- `Options.DecodeExact`: `option_decode` reads the length only; an extended delta is taken for the value.
- `Subscriptions.AddReaches`: the test whether a handler is already there compares as many characters as the new
  name has, so a name that begins an existing filter counts as present; `ShorterNameShadowed` is an instance.
- `Record.WritesInside`: the size test leaves the 8-byte tag out of account, and the explicit nonce is written before
  it. `TagBehindBuffer` shows which payloads overrun the buffers the program uses.
- `Coap.TimeoutsFitExactly`: the wait is computed from a 15-fold that may wrap in 32 bits; a wrapped product in the
  random part only shortens a timeout.
- `Chunked.RefusedBeginKeeps`: an UpdateBegin that is refused during an update still overwrites length, store and
  address. With fewer chunks the update ends early (`RefusedBeginLosesChunk`); with more the bitmap is too short
  (`BehindMatters`); with another store or address the later chunks are stored elsewhere (`LaterChunkPlaced`,
  `RefusedBeginMovesChunk`); and the length handed over at the end is the one it names (`RefusedBeginTellsLength`).

## Model

| member | source | states |
|---|---|---|
| Vli.Add | lib/micro-ecc/uECC.c:335-349 | result + carry·Bⁿ is exactly the sum, also when result is one of the operands; the comparison with the left word recovers every carry, and words behind the n-th stay |
| Vli.Sub | lib/micro-ecc/uECC.c:354-368 | result − borrow·Bⁿ is exactly the difference, in place or not |
| Vli.Rshift1 | lib/micro-ecc/uECC.c:320-330 | the number is halved, rounding down; words around the region stay |
| Vli.CmpUnsafe | lib/micro-ecc/uECC.c:276-288 | the sign of left − right |
| Vli.Cmp | lib/micro-ecc/uECC.c:309-316 | the borrow and the zero test of the difference together give the sign of left − right |
| Vli.IsZero | lib/micro-ecc/uECC.c:222-229 | true exactly when the number is zero |
| Vli.TestBit | lib/micro-ecc/uECC.c:232-234 | true exactly when that bit of the number is set, across word boundaries |
| Vli.NumBits | lib/micro-ecc/uECC.c:237-263 | the bit length: the least b with value < 2^b |
| VliMult.MulAdd | lib/micro-ecc/uECC.c:404-412 | adds a·b to the three-word accumulator, modulo B³ |
| VliMult.WideProduct | lib/micro-ecc/uECC.c:380-399 | the four half-word products and their overflow give both words of a·b, for every even word width |
| VliMult.MulAddHalves | lib/micro-ecc/uECC.c:379-403 | the variant without a double-width type adds the same a·b: comparing words recovers both carries, also when p1 plus a carry wraps |
| VliMult.Mul2Add | lib/micro-ecc/uECC.c:486-496 | adds 2·a·b to the accumulator modulo B³ although 2·a·b does not fit a double word |
| VliMult.Mul2AddHalves | lib/micro-ecc/uECC.c:456-485 | the variant without a double-width type adds the same 2·a·b |
| VliMult.ColumnsValue | lib/micro-ecc/uECC.c:425-444 | all columns of partial products together are the product of the two numbers |
| VliMult.ColumnFits | lib/micro-ecc/uECC.c:426-434 | a column plus what was carried into it stays below B³, so the accumulator loses no carry for any n below B |
| VliMult.NextColumn | lib/micro-ecc/uECC.c:430-433 | storing the low word and moving the accumulator down keeps: stored words + carry·B^k = value of the columns so far |
| VliMult.LastWord | lib/micro-ecc/uECC.c:444 | after the last column the accumulator holds one word, and with it the stored words are the whole product |
| VliMult.Column | lib/micro-ecc/uECC.c:426-429 | the inner loop adds exactly the partial products of its column |
| VliMult.Mult | lib/micro-ecc/uECC.c:416-445 | value(result) = value(left)·value(right), for every word width and every word count below B |
| VliMult.FoldedColumn | lib/micro-ecc/uECC.c:508-515 | half of a column, doubled off the diagonal, is the whole column of the square |
| VliMult.Square | lib/micro-ecc/uECC.c:498-523 | the halved-work routine stores value(left)² |
| VliMod.ModAdd | lib/micro-ecc/uECC.c:540-550 | (left + right) % mod for operands below mod, with the dropped carry accounted for |
| VliMod.ModSub | lib/micro-ecc/uECC.c:554-565 | (left − right) % mod for operands below mod, through the wrapped difference |
| VliMod.Align | lib/micro-ecc/uECC.c:579-591 | mod_multiple = mod·2^shift with its top bit at the top of 2n words |
| VliMod.Halve | lib/micro-ecc/uECC.c:604-606 | halving the two n-word halves and moving one bit between them halves the 2n-word number |
| VliMod.ReduceRound | lib/micro-ecc/uECC.c:593-607 | one round keeps v ≡ product (mod mod) and v < 2·(mod << shift); after shift 0, v < mod |
| VliMod.Mmod | lib/micro-ecc/uECC.c:569-609 | result = product % mod for any mod with a nonzero top word and any 2n-word product, whichever of the two swapped buffers holds it in the end |
| VliMod.ModMult | lib/micro-ecc/uECC.c:612-620 | left·right % mod |
| VliMod.ModSquare | lib/micro-ecc/uECC.c:639-646 | left² % mod |
| ModInv.Update | lib/micro-ecc/uECC.c:681-692 | uv stays below the odd mod and doubling it gives back the old value or the old value + mod: the carry shifted back in is exactly the bit that was lost |
| ModInv.Difference | lib/micro-ecc/uECC.c:723-726 | u − v or u − v + mod, below mod, although the carry of the addition is dropped |
| ModInv.InvHalf | lib/micro-ecc/uECC.c:714-719 | halving the even remainder keeps a ≡ u·input, b ≡ v·input (mod mod) and the common divisors |
| ModInv.InvSubtract | lib/micro-ecc/uECC.c:720-736 | subtracting and halving keeps the same invariant |
| ModInv.Step | lib/micro-ecc/uECC.c:713-737 | every branch keeps the invariant and a + b falls, which is why the loop ends |
| ModInv.Inverse | lib/micro-ecc/uECC.c:696-739 | for an odd mod > 1 the result is below mod and result·input ≡ gcd(input, mod); it is the inverse when the two are coprime, and 0 for 0 |
| Ladder.MulOrder | lib/micro-ecc/uECC.c:907-918 | adding multiples of the order to the scalar does not change the multiple of the point |
| Ladder.Climb | lib/micro-ecc/uECC.c:881-888 | from R1 = jP and R0 = (j+1)P, sums and doublings give the next two neighbouring multiples |
| Ladder.Round | lib/micro-ecc/uECC.c:882-884 | one round takes (jP, (j+1)P) to (2j + bit)P and its neighbour, from the documented meaning of the two point operations; both meet points for which that meaning holds (finite, neither equal nor opposite) if and only if n divides none of j, j + 1 and 2j + 1 |
| Ladder.EccPointMult | lib/micro-ecc/uECC.c:862-905 | the ladder yields k·P, where k is the scalar with the bit at num_bits − 1 taken as set; every addition of its rounds meets points its formula is made for if and only if all prefixes of k are proper |
| Ladder.TopBitSeen | lib/micro-ecc/uECC.c:913-915 | bit num_n_bits of k + n is seen by the code in both cases: as a stored bit, or as the carry when it falls off the array |
| Ladder.RegularizeK | lib/micro-ecc/uECC.c:907-918 | the chosen one of k + n and k + 2n, read with an implicit top bit, is a number of exactly num_n_bits + 1 bits congruent to k |
| Ladder.ScalarTimesPoint | lib/micro-ecc/uECC.c:946-973 | for any commutative group with n·P = 0 and k < n, regularizing and climbing gives k·P; if n is the exact order, odd and at least 5, and k > 0, all additions meet points their formulas are made for if and only if k is not one of the exceptional scalars of LadderProper |
| Ladder.LadderProper | lib/micro-ecc/uECC.c:790-905 | no round meets the point at infinity or adds equal or opposite points, so that the documented meaning of the co-Z formulas applies, if and only if k is none of n − 1 and n − 2, and not 1 with n + 1 below 2^bits |
| Ccm.Block0 | lib/tinydtls/ccm.c:39-57 | writes B_0 of section 2.2 of RFC 3610: flags, nonce, message length |
| Ccm.AddAuthData | lib/tinydtls/ccm.c:73-123 | X is the CBC-MAC over B_0 and the length-coded, zero-padded additional data, for each of the three length codings |
| Ccm.SetCounter | lib/tinydtls/ccm.c:29-37 | the counter field becomes the counter modulo 256^L, most significant byte first, and the rest of the block stays |
| Ccm.MacChunk | lib/tinydtls/ccm.c:138-150 | absorbs one block or the zero-padded rest of the message |
| Ccm.EncryptMessage | lib/tinydtls/ccm.c:152-214 | in-place encryption of any message at any place of a buffer gives exactly the CCM definition (CBC-MAC, counter mode, encrypted tag) and touches nothing else |
| Ccm.DecryptMessage | lib/tinydtls/ccm.c:216-288 | returns the plaintext in place exactly when the specification opens the ciphertext and −1 otherwise; bytes outside stay |
| Ccm.CheckTag | lib/tinydtls/ccm.c:275-287 | accepts exactly when the decrypted tag equals the computed one |
| Ccm.Equals | lib/tinydtls/global.h:111-122 | the comparison without early exit is equality |
| Ccm.CtrTwice | lib/tinydtls/ccm.c:125-136 | encrypting twice in counter mode gives the message back |
| Ccm.OpenIffSealed | lib/tinydtls/ccm.c:152-288 | for every block function, c opens to m if and only if c is m sealed: decryption undoes encryption and accepts nothing else |
| Ccm.MacIsChain | lib/tinydtls/ccm.c:39-150 | the MAC is the chain X_(i+1) = E(X_i xor B_i) from the zero block over the first block, the coded additional data and the message, both filled up with zeros (section 2.2 of RFC 3610) |
| Ccm.FirstBlockFields | lib/tinydtls/ccm.c:39-57 | B_0 reads back to its fields: additional-data bit, tag size, length size, nonce, message length |
| Ccm.CounterBlockFields | lib/tinydtls/ccm.c:29-37 | A_i reads back to its fields: length size, nonce, counter |
| Ccm.MacInputInjective | lib/tinydtls/ccm.c:39-150 | the input of the MAC determines sizes, nonce, message and additional data, for any messages the length field can express and additional data below 2^64 bytes |
| Ccm.AadMatters | lib/tinydtls/ccm.c:73-123 | for every injective block function: one message under two additional data of equal length that differ within one block of the coded data (always so up to 14 bytes) has different MAC states |
| Ccm.MessageMatters | lib/tinydtls/ccm.c:138-150 | the same for two messages that differ within one block |
| Ccm.WrongAadFails | lib/tinydtls/ccm.c:216-288 | with a tag of a whole block, what was sealed under one additional data does not open under another one of the same length of up to 14 bytes |
| Ccm.BlocksApart | lib/tinydtls/ccm.c:29-57 | counter blocks differ whenever nonce or counter do, and none is a first block |
| Ccm.StreamFresh | lib/tinydtls/ccm.c:125-136 | no two blocks of a message are combined with the same key stream block, and none with that of the tag |
| Record.SetRecordHeader | lib/tinydtls/dtls.c:376-400 | writes the 13 header bytes with length 0 and moves to the next record sequence number |
| Record.AppendAll | lib/tinydtls/dtls.c:1303-1313 | takes all pieces if and only if their end does not pass the limit, and then they stand in the buffer |
| Record.ProtectFragment | lib/tinydtls/dtls.c:1374-1417 | behind the header stand the explicit nonce and the sealed payload with the right nonce and additional data; refused or overrun exactly in the stated cases |
| Record.PrepareRecord | lib/tinydtls/dtls.c:1276-1425 | for every limit up to the buffer size: refused exactly when the pieces do not fit the limit, otherwise the buffer holds exactly the wire record, unless bytes were written behind it; the sequence number moves on once whenever the limit leaves room for a header |
| Record.WritesInside | lib/tinydtls/dtls.c:1286-1423 | all stretches that are written lie in the buffer if and only if the record is unprotected, or there is room for the explicit nonce and, when the pieces are accepted, for the tag, which the size test does not count |
| Record.OverrunIsOutside | lib/tinydtls/dtls.c:1286-1423 | the outcome overrun stands for exactly the calls that write behind the buffer |
| Record.PreparedSize | lib/tinydtls/dtls.c:1286-1425 | refused exactly when the limit leaves no room for the header, or the pieces do not fit it; what is built is as long as the wire record: 13 bytes more than the payload, or 29 |
| Record.TagBehindBuffer | lib/tinydtls/dtls.c:1632-1633 | with all of a 1400-byte buffer as the limit, as the program calls it, exactly the payloads of 1372 to 1379 bytes overrun it; at 1379 bytes the tag ends at byte 1408 |
| Record.EpochReadBack | lib/tinydtls/dtls.c:3269 | the epoch read from a record is the one of its sender |
| Record.Deliver | lib/tinydtls/dtls.c:1276-1425 | building a record and taking it apart with the parameters its epoch selects hands over the payload, for every payload that fits the buffer with its tag |
| Record.DecryptVerify | lib/tinydtls/dtls.c:3264-3335 | the cleartext found in the packet is what opening the record yields, −1 if there are no parameters for the epoch or it does not open; frees the old epoch exactly when the code does |
| Record.RecordRoundTrip | lib/tinydtls/dtls.c:1276-1425 | a record protected by one role is recovered by the opposite role, for every payload, epoch, number, suite and key material |
| Record.OnlySealedOpens | lib/tinydtls/dtls.c:3284-3325 | under a given header and explicit nonce only the sealed payload opens to that payload |
| Record.NonceUnique | lib/tinydtls/dtls.c:1390-1393 | two records under one IV have the same nonce only if epoch and sequence number are the same |
| Record.NonceParts | lib/tinydtls/dtls.c:1390-1393 | the nonce is the implicit part followed by the explicit part as it stands in the record |
| Record.HeaderFields | lib/tinydtls/dtls.c:376-400 | type, version FEFD, epoch, sequence number and length are read back from their places in the header (section 4.1 of RFC 6347) |
| Record.AadFields | lib/tinydtls/dtls.c:1404-1406 | epoch, sequence number, type, version and payload length are read back from the 13 bytes of additional data (section 6.2.3.3 of RFC 5246) |
| Record.HeaderAuthenticated | lib/tinydtls/dtls.c:1404-1411 | for every injective block function: whatever changes in a header in front of its length, content type and version included, the same payload gets another MAC state |
| Record.OwnKeys | lib/tinydtls/crypto.h:166-200 | each side protects with its own write key and IV and the other side opens with those; the remaining ones play no part |
| Record.Peer.ParamsEpoch | lib/tinydtls/peer.h:64-73 | finds parameters with this epoch, and null only if neither slot has it |
| Record.Peer.ReadEpochFinds | lib/tinydtls/peer.h:82-92 | outside a handshake only the current parameters are found, during one only those of its read epoch, the current ones first |
| Record.Peer.Next | lib/tinydtls/peer.h:99-110 | the second slot holds fresh parameters of the next epoch |
| Record.Peer.FreeOther | lib/tinydtls/peer.h:112-122 | drops the second slot exactly when the current epoch has reached it |
| Record.Peer.Switch | lib/tinydtls/peer.h:124-130 | exchanges the slots |
| Record.Peer.StartNextEpoch | lib/tinydtls/peer.h:99-130 | after next and switch the current epoch is one higher and both epochs can still be looked up |
| Bytes.ReadBack | lib/tinydtls/numeric.h:38-130 | reading the n bytes written for v gives v modulo 256ⁿ |
| Bytes.BigEndianInjective | lib/tinydtls/numeric.h:38-85 | numbers that fit n bytes are written differently |
| Replay.ShiftBit | lib/tinydtls/dtls.c:4268 | bits of a 64-bit left shift |
| Replay.ShowsOlder | lib/tinydtls/dtls.c:4241-4257 | entering an older record sets its bit and no other |
| Replay.ShowsNewer | lib/tinydtls/dtls.c:4258-4274 | a newer record moves the window; numbers further back than 63 drop out |
| Replay.ReceiveCorrect | lib/tinydtls/dtls.c:4227-4280 | if bit i is set exactly when cseq − i was accepted with nonempty plaintext, this holds again after any record; duplicates inside the window and records older than it are recognised exactly |
| Replay.NoReplay | lib/tinydtls/dtls.c:4216-4281 | over any packet history of an epoch with an empty window at the start: the window shows the history and no number is accepted twice |
| Replay.CheckRecord | lib/tinydtls/dtls.c:4227-4280 | the branches of the receive path act on cseq and bitfield as the specification does |
| Netq.BeforeIsOrder | lib/tinydtls/dtls_time.h:49-52 | for times inside one half-range window, wherever it lies, the wrap-around comparison is their order |
| Netq.HalfRangeIsAmbiguous | lib/tinydtls/dtls_time.h:49-52 | a half range apart each of two times is before the other, so no wider window would do |
| Netq.Queue.Insert | lib/tinydtls/netq.c:38-61 | the node goes behind the leading run of nodes that are not later, all others keep their order |
| Netq.Queue.Remove | lib/tinydtls/netq.c:78-84 | the queue without this node, in order |
| Netq.Queue.PopFirst | lib/tinydtls/netq.c:86-94 | takes the head off; null for an empty queue |
| Netq.InsertSorted | lib/tinydtls/netq.c:45-58 | inserting keeps the queue sorted and first-in first-out among equal deadlines, under wrap-around |
| Netq.BackoffLater | lib/tinydtls/dtls.c:4503-4505 | the doubled timeout is later than now and still inside the window |
| Netq.CheckCorrect | lib/tinydtls/dtls.c:4555-4571 | from any point of the check: the rest of the due prefix is handled once each, in order, and only later deadlines remain, sorted |
| Netq.ResendCheck | lib/tinydtls/dtls.c:4478-4571 | on any sorted queue the due nodes are exactly those up to now; each is handled once, the rest and the renewed ones remain, sorted and later |
| Netq.DueNodes | lib/tinydtls/dtls.c:4478-4571 | a due node is resent if and only if its job is RESEND and its counter is below 7; it is then queued once again with its counter one higher and its deadline at its handling time plus timeout · 2^counter (the raised one) in 32 bits; every other due node is queued no more, and nodes that are not due stay |
| Netq.ResendLimit | lib/tinydtls/dtls.c:4484-4537 | no node is resent once its counter is 7, and no counter passes 7, whatever the clock does |
| Netq.CheckSends | lib/tinydtls/dtls.c:4555-4571 | within one check a node is resent at most as often as its counter leaves |
| Netq.ResentAtMost | lib/tinydtls/dtls.c:4478-4571 | in every run of insertions, removals and checks, with any clock readings, a node is resent at most 7 times for each time it is queued |
| Netq.RunInWindow | lib/tinydtls/dtls.c:4555-4571 | in every run whose deadlines and checks keep within half the clock range of the last check, the queue stays sorted in the window that begins there, however often the clock wraps |
| Netq.ChecksInRun | lib/tinydtls/dtls.c:4555-4571 | every check of such a run handles exactly the nodes whose deadline has been reached, once each and in order, and leaves only later ones |
| Netq.NodesInRun | lib/tinydtls/dtls.c:4478-4571 | the same for every check of a run in which only nodes that are not in the queue are put into it |
| Netq.Context.Retransmit | lib/tinydtls/dtls.c:4478-4537 | the linked queue changes as the specification says; by its fields: resent, with the counter raised and the deadline moved, exactly when the job is RESEND and the counter below 7, otherwise the queue stays as it is without the node |
| Netq.Context.CheckRetransmit | lib/tinydtls/dtls.c:4555-4571 | the loop ends, does to the linked queue what the specification does, and reports the new head or 0 |
| Handshake.DrainInOrder | lib/tinydtls/dtls.c:3981-4005 | draining ends with no expected message left in the queue and everything handled in order |
| Handshake.ReceiveInOrder | lib/tinydtls/dtls.c:3929-4007 | one more arrival, in any order and of any number, keeps the claim of the run |
| Handshake.RunInOrder | lib/tinydtls/dtls.c:3929-4007 | for any arrival order with duplicates: the handled messages are the longest contiguous run of numbers received, in order, once each, with the bytes of the first arrival; the queue holds exactly the distinct higher numbers |
| Handshake.HeaderFields | lib/tinydtls/dtls.h:414-423 | for a message built from its header fields the number that counts is its message sequence number, and it is whole if and only if the offset is 0 and length, fragment length and the size of the body are equal |
| Handshake.FlightInOrder | lib/tinydtls/dtls.c:3886-4010 | however the messages of a flight arrive: what has been handled are the messages from the expected one on, in the order they were sent and once each, up to the first one that has not arrived |
| Handshake.Parameters.HandleMsg | lib/tinydtls/dtls.c:3745-3749 | the expected number moves on only when the handler succeeds and the handshake goes on |
| Handshake.Parameters.FindNode | lib/tinydtls/dtls.c:3947-3955 | finds the queued message with this number if there is one |
| Handshake.Parameters.DrainQueue | lib/tinydtls/dtls.c:3981-4005 | the drain loop over the linked queue ends and computes the specified drain |
| Handshake.Parameters.HandleHandshake | lib/tinydtls/dtls.c:3886-4010 | framing errors are answered with the right alert and change nothing; a whole message has the effect of the ordering function; the answer tells exactly whether it was handled, failed in a handler, was buffered or ignored |
| Coap.PassedIsOrder | include/coap_channel.h:309-320 | less than half the clock range apart, the 32-bit comparison decides on the true times |
| Coap.HalfRangeAsymmetry | include/coap_channel.h:309-320 | at exactly half the range the answer depends on which clock has wrapped |
| Coap.TimeoutsFit | include/coap_channel.h:263-268 | the four timeouts of a message sum to at most MAX_TRANSMIT_WAIT for every random draw and every ACK timeout whose 15-fold does not wrap (section 4.8.2 of RFC 7252) |
| Coap.TimeoutsFitExactly | include/coap_channel.h:263-268 | for any ACK timeout the sum stays within the wait for all draws if and only if the four doubled 32-bit timeouts sum to less than 2^32 |
| Coap.WrappedWait | include/coap_channel.h:557-561 | the least ACK timeout that fails: its 15-fold wraps to 14, the wait becomes 21, and the first timeout alone is longer |
| Coap.ClearFacts | include/coap_channel.h:462-467 | clearing an id removes exactly the entries with it and keeps ids distinct |
| Coap.AddFacts | include/coap_channel.h:401-413 | adding replaces an entry with the same id: never two entries with one id |
| Coap.ProcessFacts | src/coap_channel.cpp:68-87 | one walk keeps, in order, what has not expired or may be resent, drops the rest, and resends exactly the expired ones that may be |
| Coap.ProcessCount | src/coap_channel.cpp:68-87 | one walk sends a given message again once if it is due and may be resent, otherwise not at all |
| Coap.GivenUpReported | src/coap_channel.cpp:68-87 | exactly the messages that have expired and may not be sent again are reported as timed out |
| Coap.AtMostOnce | src/coap_channel.cpp:125-187 | in every run after establish, two confirmable messages with the same id reach the application at least MAX_TRANSMIT_WAIT apart, and no two stored entries share an id (section 4.5 of RFC 7252) |
| Coap.DuplicateAnswered | src/coap_channel.cpp:161-172 | directly after the application has replied, a duplicate is answered with exactly those bytes and not delivered |
| Coap.DuplicatesAnsweredInRun | src/coap_channel.cpp:161-172 | in every run, from the reply of the application until the store is processed after MAX_TRANSMIT_WAIT or the application sends anew under that id, every duplicate is answered with exactly those bytes and not delivered (section 4.5 of RFC 7252) |
| Coap.ReceiveFates | src/coap_channel.cpp:125-187 | exactly confirmable messages with an unknown id, replies to a message that is waiting, and all that is neither reach the application; what the store then holds |
| Coap.FirstDelivered | src/coap_channel.cpp:161-187 | in every run the first confirmable message under an id reaches the application |
| Coap.BoundedRetransmission | src/coap_channel.cpp:34-120 | in every run no message is sent again more than MAX_RETRANSMIT times, always with the bytes the application sent (section 4.2 of RFC 7252) |
| Coap.TypeField | src/coap.cpp:46-60 | the two type bits of the header: 0 confirmable, 1 non-confirmable, 2 acknowledgement, 3 reset, whatever the token length (section 3 of RFC 7252) |
| Coap.SentIsStored | src/coap_channel.cpp:93-120 | in every run a confirmable message is stored for retransmission when the application sends it |
| Coap.ProcessDoubles | include/coap_channel.h:229-268 | what a walk keeps has not expired, or has been sent again with a deadline between once and one and a half times the ACK timeout doubled as often as it had been sent, for every ACK timeout whose 15-fold does not wrap |
| Coap.RunOnSchedule | include/coap_channel.h:229-268 | in every run the deadline of each stored message lies as far after its sending as the doubled timeouts sum to, at most one and a half of that and the delays of the polls |
| Coap.GivenUpInTime | src/coap_channel.cpp:68-87 | a message that is given up has been sent four times, no earlier than 15 times the ACK timeout after it was first sent, and, polled at its deadlines, no later than MAX_TRANSMIT_WAIT; later polls add their delays (section 4.8.2 of RFC 7252) |
| Coap.ReplyRemoves | src/coap_channel.cpp:129-160 | an ACK or RESET takes its message out of the store |
| Coap.NeverAfterReply | src/coap_channel.cpp:68-160 | what has left the store is never sent again, however the run goes on |
| CoapStore.CoAPMessage.PrepareRetransmit | include/coap_channel.h:229-240 | the entry becomes the specified one, whose deadline doubles (ProcessDoubles); the answer is whether the message may still be sent |
| CoapStore.CoAPMessage.SetExpiration | include/coap_channel.h:290-294 | the message is kept until then and never sent |
| CoapStore.MessageStore.ForId | include/coap_channel.h:338-349 | the first message with the id and its predecessor |
| CoapStore.MessageStore.Unlink | include/coap_channel.h:354-361 | the list without the message at that position |
| CoapStore.MessageStore.ClearMessage | include/coap_channel.h:420-467 | the linked list loses the entry with this id, and it is reported whether there was one |
| CoapStore.MessageStore.Add | include/coap_channel.h:401-413 | the list becomes the new message in front of all entries with other ids; a message that is still linked elsewhere is refused |
| CoapStore.MessageStore.Send | src/coap_channel.cpp:93-120 | the linked store follows the specified send for confirmable messages, replies and the rest |
| CoapStore.MessageStore.Receive | src/coap_channel.cpp:125-187 | store and fate of a received message are the specified ones |
| CoapStore.MessageStore.ProcessAll | src/coap_channel.cpp:68-87 | traversal with removal: store, bytes sent again and messages given up are those of the specified walk |
| Vector.Vector.Move | include/trackle_wiring_vector.h:212-235 | moving overlapping cells in the chosen direction moves every element unharmed and leaves exactly the vacated cells empty |
| Vector.Vector.Realloc | include/trackle_wiring_vector.h:161-178 | the contents stay; without memory nothing changes |
| Vector.Vector.Insert | include/trackle_wiring_vector.h:430-442 | x at position i with the rest moved up; false and unchanged when the vector cannot grow |
| Vector.Vector.RemoveAt | include/trackle_wiring_vector.h:478-489 | removes n elements, or all from i on when n is negative or too large |
| Vector.Vector.TakeAt | include/trackle_wiring_vector.h:533-542 | moves the element out and closes the gap |
| HandlerMap.NearestIsMinimum | include/completion_handler.h:333-339 | timeoutTicks_ is the minimum of the stored times |
| HandlerMap.AliveItems | include/completion_handler.h:406-427 | subtracting the tick count and restarting it at 0 moves no deadline, and what expires is what is due |
| HandlerMap.StepExact | include/completion_handler.h:294-432 | an operation acts on the relative times as on absolute deadlines if and only if no 32-bit sum wraps |
| HandlerMap.UpdateMisses | include/completion_handler.h:400-401 | when the counter wraps, every handler is overdue and none is called; only the counter changes |
| HandlerMap.MissedInRun | include/completion_handler.h:294-432 | a run of one addition and two updates in which a handler is due and not called |
| HandlerMap.RunExact | include/completion_handler.h:294-432 | in every run without wrap-around the map is a table of absolute deadlines and makes the same calls in the same order |
| HandlerMap.FinishTakes | include/completion_handler.h:317-392 | a result or error for a key goes to the handler added last under it, earlier ones get an internal error, no other handler is called, and exactly the handlers with other keys stay |
| HandlerMap.FinishUnknown | include/completion_handler.h:317-392 | for a key nobody waits under nobody is called and all handlers stay |
| HandlerMap.EndCodes | include/completion_handler.h:294-366 | clearing calls every handler once, in order, as aborted; a handler that finds no memory gets an internal error at once |
| HandlerMap.ShortSpansFit | include/completion_handler.h:294-432 | the tick counter is the time since it last restarted, and nothing wraps while this time plus the longest timeout stays below 2^32, however long the run is |
| HandlerMap.ShortRunsFit | include/completion_handler.h:294-432 | in particular nothing wraps in a run that is short as a whole |
| HandlerMap.NotBefore | include/completion_handler.h:396-432 | before its deadline a handler has not been invoked and is still held |
| HandlerMap.FiresOnTime | include/completion_handler.h:396-432 | the first update whose accumulated time reaches the deadline invokes the handler with a timeout, and no earlier one |
| HandlerMap.Conservation | include/completion_handler.h:58-123 | in every run each handler is held once or has been invoked once, also with duplicate keys, failed additions and wrap-around |
| HandlerMap.ExactlyOnce | include/completion_handler.h:64-68 | by the end of the map every handler handed over has been invoked exactly once |
| HandlerMap.CompletionHandlerMap.Pass | include/completion_handler.h:82-89 | at most one invocation, after which the handler is empty |
| HandlerMap.CompletionHandlerMap.AddHandler | include/completion_handler.h:294-310 | stored with its time, or refused; a handler that finds no memory is invoked with an internal error |
| HandlerMap.CompletionHandlerMap.TakeHandler | include/completion_handler.h:317-343 | the last handler with the key is returned, the others are invoked; the nearest time is computed anew |
| HandlerMap.CompletionHandlerMap.FinishHandler | include/completion_handler.h:378-392 | passes a result or an error to the handlers of a key |
| HandlerMap.CompletionHandlerMap.UpdateTicks | include/completion_handler.h:396-432 | the loop with removals computes the specified update and counts the timeouts |
| HandlerMap.CompletionHandlerMap.ClearAll | include/completion_handler.h:357-366 | all handlers are aborted and the table is as new |
| HandlerMap.CompletionHandlerMap.Destroy | include/completion_handler.h:64-68 | what is left is invoked with an internal error |
| Publish.BlockOptionBits | src/messages.cpp:372-378 | NUM is the block number, MORE is set exactly when a block follows, SZX means 1024 bytes (section 2.2 of RFC 7959) |
| Publish.ChunksCarryData | src/trackle.cpp:628-641 | the first n blocks carry the first bytes of the data, all blocks together exactly the data |
| Publish.ChunkIs | src/trackle.cpp:618-660 | block i has number i, the number of blocks, and the bytes of the data from 1024 · i on, at most 1024 |
| Publish.LastIs | src/protocol.cpp:164-165 | the byte-count test for the last block holds exactly at the last block number |
| Publish.NextIs | src/protocol.cpp:205-209 | offset and length cut exactly the block with that number out of the buffer, which starts with the second block |
| Publish.CallbackEnds | src/protocol.cpp:151-179 | an error or the last block frees the slot and completes the publish, once |
| Publish.ReplyExact | src/protocol.cpp:151-229 | a reply to a waiting handler keeps the account of all publishes if and only if it is an error, 2.31 to a block that is not the last, or a plain success to the last |
| Publish.ContinueAdvances | src/protocol.cpp:188-210 | 2.31 to a block that is not the last sends exactly the next bytes of the data under the next block number, and its handler waits in place of the old one |
| Publish.LastCompletes | src/protocol.cpp:151-179 | a plain success to the last block frees the slot and completes the publish without an error |
| Publish.ErrorsHaveCause | src/protocol.cpp:151-229 | a publish is completed with an error only by an error reply, by a timeout, or by a packet that is refused |
| Publish.LateReplyExact | src/protocol.cpp:188-210 | a reply whose handler has timed out keeps the account if and only if it is not 2.31, or no slot has its token any more (or it names token 0 of a slot never used and the next packet is refused) |
| Publish.LateInRun | src/protocol.cpp:188-210 | one publish of two blocks, the timeout of its handler, 2.31 within the retention of the message and a success: the second block is sent after the timeout, and the publish is completed twice |
| Publish.StalledBySuccess | src/protocol.cpp:211-214 | a plain success for an earlier block takes the handler away and changes nothing else: the publish runs on with nothing to wait for |
| Publish.RepeatedByContinue | src/protocol.cpp:188-210 | 2.31 to the last block completes the publish, frees its slot and sends a packet numbered one past the last, whose handler waits for a free slot; if that is refused the publish is completed twice |
| Publish.StalledInRun | src/protocol.cpp:211-214 | the stall is reached by one publish of several blocks and one reply |
| Publish.RepeatedInRun | src/protocol.cpp:188-210 | the repetition is reached by one publish of one block and one reply |
| Publish.StepKeeps | src/protocol.cpp:151-229 | starting, proper or harmless late replies and timeouts keep the account: blocks sent so far, one waiting handler per running slot, one completion per ended publish |
| Publish.RunKeeps | src/trackle.cpp:594-663 | the account holds in every run from the empty slots whose replies are proper or come too late to do harm |
| Publish.PublishOutcome | src/trackle.cpp:594-663 | in every such run each publish is running, not completed and waited for, or completed exactly once with its slot free; without an error only after blocks whose payloads are the data |
| Publish.Publisher.constructor | src/messages.cpp:407 | no slot is in use |
| Publish.AcceptsExactly | src/trackle.cpp:594-617 | a publish is accepted if and only if it has at most 4096 bytes and some slot is not running |
| Publish.TokenCounts | src/trackle.cpp:148-162 | tokens are counted up from 1 |
| Publish.TokenSticks | src/trackle.cpp:148-162 | after 255 publishes every further one gets token 1 |
| Publish.Publisher.FreeSlot | src/messages.cpp:409-420 | the first slot that is not running; the number of slots exactly when all are |
| Publish.Publisher.SlotByToken | src/messages.cpp:422-433 | the first slot with the token |
| Publish.Publisher.BlockCompleted | src/protocol.cpp:151-179 | the callback on the slot array does what is specified |
| Publish.Publisher.SendPublish | src/trackle.cpp:594-663 | fills the first free slot and sends the first block as specified; succeeds if and only if there are at most 4096 bytes, some slot is not running and the channel takes the packet |
| Publish.Publisher.NotifyMessageComplete | src/protocol.cpp:181-229 | calls the waiting handler and after 2.31 advances the slot and sends the next block, as specified |
| Crc.Crc32c | src/trackle.cpp:1231-1243 | the loops compute the specified checksum of the buffer |
| Crc.PolynomialIs | src/trackle.cpp:1239-1240 | one bit step from 1 gives the polynomial 0x04C11DB7 in reversed bit order |
| Crc.CheckValue | src/trackle.cpp:1231-1243 | the checksum of the digits 1 to 9 is CBF43926 |
| Crc.BitStepBijective | src/trackle.cpp:1239-1240 | the bit step has a left and a right inverse on 32-bit states |
| Crc.BitStepLinear | src/trackle.cpp:1239-1240 | the bit step is linear over exclusive or |
| Crc.CrcOfParts | src/trackle.cpp:1231-1243 | crc(crc(c, a), b) = crc(c, a + b) |
| Crc.RoundsInjective | src/trackle.cpp:1236-1241 | feeding the same bytes never merges two states |
| Crc.BurstDetected | src/trackle.cpp:1231-1243 | inputs of equal length that differ only within four consecutive bytes always have different checksums |
| Crc.ByteChangeDetected | src/trackle.cpp:1231-1243 | a change inside one byte is always detected |
| Chunked.CountCovers | include/file_transfer.h:76-79 | the chunks cover the file if and only if the sum in the chunk count does not wrap |
| Chunked.FlagSetsOne | include/chunked_transfer.h:103-112 | flagging a chunk changes the bit of this chunk only |
| Chunked.ChunkedTransfer.IsChunkReceived | include/chunked_transfer.h:109-112 | reads the bit of the chunk from the bitmap, or from the memory behind it |
| Chunked.ChunkedTransfer.FlagChunkReceived | include/chunked_transfer.h:103-107 | sets this flag in the bitmap and changes nothing else |
| Chunked.ChunkedTransfer.NextChunkMissing | src/chunked_transfer.cpp:342-357 | the first unflagged chunk from start on, or the mark that none is missing |
| Chunked.MissingListed | src/chunked_transfer.cpp:302-310 | the list is ascending, all of it missing, and leaves a missing chunk out only when it is full and all listed ones are smaller |
| Chunked.BeginTracks | src/chunked_transfer.cpp:65-85 | a fast update starts with nothing counted as received |
| Chunked.BeginStarts | src/chunked_transfer.cpp:11-97 | an update starts if and only if the begin is accepted and has fewer than 65535 chunks, with just enough bytes for the bitmap; otherwise only the descriptor and the counter change |
| Chunked.ChunkTracks | src/chunked_transfer.cpp:156-188 | a chunk counts as received exactly when it has been stored with a matching checksum |
| Chunked.NotStored | src/chunked_transfer.cpp:109-188 | without an update, with an index from 65535 on, or with another checksum a chunk is not stored |
| Chunked.DoneOnlyWhenStored | src/chunked_transfer.cpp:239-269 | while the chunk count is that of the update: acknowledged as complete exactly when every chunk has been stored, and ended exactly when, besides, the acknowledgement could be sent |
| Chunked.DoneAsks | src/chunked_transfer.cpp:271-283 | otherwise a request is sent with the smallest missing chunks, in ascending order: all of them, or as many as arrived since the last request and a fifth more, at least two more, and at most 40 |
| Chunked.ArrivedCounts | src/chunked_transfer.cpp:103 | in every run the counter tells how many chunk messages there were since the begin or the last request, in 16 bits |
| Chunked.StoredInOrder | src/chunked_transfer.cpp:156-188 | chunks without an index, as in an update that is not fast: those with a matching checksum are stored one after the other, others are left out |
| Chunked.SlowEnds | src/chunked_transfer.cpp:65-85 | an update that is not fast starts with nothing missing and ends when the server says so |
| Chunked.ImageIsFile | src/chunked_transfer.cpp:156-171 | wherever a chunk has been stored the image has the bytes of the file behind the file address, in any order and any number of times |
| Chunked.NothingElseWritten | src/chunked_transfer.cpp:156-171 | outside the place for the file, and in other stores, the image stays as it was |
| Chunked.TransferCorrect | src/chunked_transfer.cpp:156-283 | for any order, loss, duplication and corruption of chunks, and refused begins that keep store, address and number of chunks: nothing outside the bitmap is touched, and a finished update has stored every chunk and the image is the file; if they keep the length too, it is the length handed over at the end |
| Chunked.TransferEnds | src/chunked_transfer.cpp:156-269 | once every chunk has arrived intact, in any order and among any others, the update ends when the server says it has sent everything and the acknowledgement goes out |
| Chunked.RefusedBeginKeeps | src/chunked_transfer.cpp:31-54 | a begin that is refused in the middle of an update overwrites the whole descriptor; the update keeps its meaning if and only if store, address and number of chunks are the same |
| Chunked.LaterChunkPlaced | src/chunked_transfer.cpp:158 | a chunk stored after a refused begin lies in its place if and only if the refused message names the same store and address |
| Chunked.RefusedBeginMovesChunk | src/chunked_transfer.cpp:36-54 | a run in which a begin with the same length and another address is refused: both chunks are stored, acknowledged as complete and finished, and the second one is not where the file is |
| Chunked.RefusedBeginTellsLength | src/chunked_transfer.cpp:269 | after a refused begin with the same number of chunks the length handed over at the end is that of the refused message |
| Chunked.LengthKept | src/chunked_transfer.cpp:38-46 | as long as every begin names the same length, it is the length handed over whenever an update ends |
| Chunked.ShortenedEnds | src/chunked_transfer.cpp:239-269 | after a refused begin with fewer chunks the update ends if and only if these are stored, whatever else is missing |
| Chunked.RefusedBeginLosesChunk | src/chunked_transfer.cpp:31-54 | such a run: one of two chunks is stored, a begin is refused, and the update is acknowledged as complete and finished |
| Chunked.BehindMatters | src/chunked_transfer.cpp:342-357 | after a refused begin with more chunks than the bitmap has bits the answer depends on the memory behind the bitmap if and only if no chunk in the bitmap is missing |
| Chunked.AlwaysPossible | src/chunked_transfer.cpp:156-188 | as long as the chunk count is that of the update, every chunk of the file has its bit in the bitmap |
| Chunked.DamageRejected | src/chunked_transfer.cpp:164-171 | a chunk damaged within four consecutive bytes does not pass under the checksum of the original |
| Chunked.ChunkedTransfer.HandleUpdateBegin | src/chunked_transfer.cpp:11-97 | the descriptor (length, store, file address, chunk size and chunk address) is overwritten in any case, with zeros after a malformed message; the other fields, the bitmap and the history become those of the specified start unless the begin is refused |
| Chunked.ChunkedTransfer.HandleChunk | src/chunked_transfer.cpp:99-198 | as specified: the chunk address is file address + index · chunk size in 32 bits; handed to storage under it and flagged only with a matching checksum; reports exactly the chunks whose flag would be written outside the bitmap |
| Chunked.ChunkedTransfer.HandleUpdateDone | src/chunked_transfer.cpp:239-283 | as specified: acknowledged, finished with the length of the descriptor, or a request |
| Chunked.ChunkedTransfer.SendMissingChunks | src/chunked_transfer.cpp:285-323 | the request lists exactly the first missing chunks; nothing is sent when none is missing |
| Asn1.KeyFromUint32 | lib/tinydtls/crypto.c:308-318 | the words in reverse order, each most significant byte first |
| Asn1.KeyValue | lib/tinydtls/crypto.c:308-318 | as a big-endian number the bytes are the number the words stand for |
| Asn1.IntegerFromUint32 | lib/tinydtls/crypto.c:329-381 | exactly the DER integer of the key, in place with overlapping moves; 0 exactly for the zero key |
| Asn1.ContentIsShortest | lib/tinydtls/crypto.c:320-377 | the content is positive and as short as possible: a leading zero only in front of a set top bit |
| Asn1.IntegerIsDer | lib/tinydtls/crypto.c:320-381 | tag 2, the length in one byte, and content that denotes the same number as the key (section 8.3 of X.690) |
| Asn1.IntegerRoundTrip | lib/tinydtls/dtls.c:1887-1920 | reading a written integer gives the 32 bytes back and takes exactly the bytes written, whatever follows |
| Asn1.OctetsValue | lib/tinydtls/dtls.c:1862-1885 | the long form of a length is the big-endian number of its bytes in 32-bit arithmetic |
| Asn1.LengthForms | lib/tinydtls/dtls.c:1862-1885 | a length below 128 takes one byte; otherwise its lower bits count the bytes of the length, and it is too long exactly when these are not there |
| Asn1.IntegerReads | lib/tinydtls/dtls.c:1887-1920 | refused exactly when short, with another tag, or with a length that passes the end; what is read denotes the number of the content modulo the size of the key |
| Asn1.ElementReads | lib/tinydtls/dtls.c:1922-1989 | an element is read exactly when the algorithms, both lengths and both integers are acceptable |
| Asn1.AddSignature | lib/tinydtls/dtls.c:2181-2226 | exactly the signature element of r and s at its place, nothing in front changed |
| Asn1.ElementFields | lib/tinydtls/dtls.c:2181-2226 | hash and signature algorithm, both lengths count exactly what follows them, then the two integers |
| Asn1.ElementRoundTrip | lib/tinydtls/dtls.c:1922-1989 | for all nonzero 256-bit r and s reading undoes writing and consumes exactly the bytes written (section 5.4 of RFC 4492) |
| Options.AddOption | include/coap.h:176-191 | the option with its extended delta and length, at its place |
| Options.OptionDecode | src/coap.cpp:62-88 | length and position of the value, for all indicators including the reserved one |
| Options.DecodeExact | src/coap.cpp:62-88 | decoding undoes the length coding of add_option if and only if the delta is below 13, because extended deltas are not skipped |
| Options.OptionReadBack | include/coap.h:176-247 | every option written is read back by the rules of section 3.1 of RFC 7252: delta and length with their extensions, and the value, whatever follows |
| Options.JoinPath | include/subscriptions.h:117-132 | the loop over any bytes ends and leaves exactly the specified buffer and positions, or reports that bytes behind the buffer would be used |
| Options.JoinOption | include/subscriptions.h:119-131 | one round: a slash, and the value moved down behind it with overlap |
| Options.JoiningKeeps | include/subscriptions.h:117-132 | for any bytes, also with the reserved indicator and truncated options: nothing in front of the name is touched and the name only grows |
| Options.ReservedEnds | include/subscriptions.h:117-132 | at an option with the reserved indicator slashes are written from the end of the name up to the option and over it, and the loop ends |
| Options.JoinsPath | include/subscriptions.h:117-132 | any run of well-formed Uri-Path options becomes the segments separated by slashes, in place, and what follows stays |
| Options.JoinedNext | include/subscriptions.h:119-131 | the joined name ends with a slash and the last segment |
| Subscriptions.DispatchComplete | include/subscriptions.h:152-200 | the early end of the walk misses no subscription for any event if and only if the table has no gap |
| Subscriptions.AddKeepsGapFree | include/subscriptions.h:282-309 | adding keeps used slots together |
| Subscriptions.RemoveKeepsGapFree | include/subscriptions.h:220-249 | removing keeps used slots together |
| Subscriptions.RemoveTakesNamed | include/subscriptions.h:230-247 | exactly the handlers with this filter go, the others stay in order |
| Subscriptions.RemoveExactly | include/subscriptions.h:220-249 | of the handlers in use those with another filter stay as often as they were there, and no others |
| Subscriptions.OthersInOrder | include/subscriptions.h:220-249 | and each of them comes from a later place than the one before |
| Subscriptions.AddSucceeds | include/subscriptions.h:282-309 | an addition succeeds if and only if the handler is there already or a slot is free; it takes the first free slot, with 64 characters of the name and 12 of the device id, and changes no other |
| Subscriptions.ExistsAt | include/subscriptions.h:254-277 | the first entry that looks alike decides: it must be for the same device, or for any device if none is given |
| Subscriptions.ExistsNowhere | include/subscriptions.h:254-277 | without an entry that looks alike the handler is not there |
| Subscriptions.AddedIsCalled | include/subscriptions.h:289-306 | a handler put into a free slot is called for every event that starts with its filter |
| Subscriptions.AddReaches | include/subscriptions.h:254-309 | after a successful addition all events of the name reach the handler if and only if a new entry was made or the handler already had an entry whose filter begins the name |
| Subscriptions.ShorterNameShadowed | include/subscriptions.h:254-286 | an instance where they do not: a name that is the beginning of an existing filter of the same handler |
| Subscriptions.NobodyMissed | include/subscriptions.h:152-309 | after any additions and removals every event reaches all handlers subscribed to it |
| Subscriptions.Table.EventHandlerExists | include/subscriptions.h:254-277 | the first entry that looks alike decides by its device id |
| Subscriptions.Table.AddEventHandler | include/subscriptions.h:282-309 | the table and answer are the specified ones |
| Subscriptions.Table.RemoveEventHandlers | include/subscriptions.h:220-249 | the one-pass compaction leaves exactly the kept handlers, in order, followed by free slots |
| Subscriptions.Table.HandleEvent | include/subscriptions.h:152-200 | calls the handlers in front of the first free slot that match |

## Left out

- Sockets, user callbacks, logging, diagnostics, the C wrapper and the describe messages.
- AES, SHA-256, HMAC and random number generation: AES is an arbitrary function on blocks, random draws are parameters.
- The curve-specific fast reductions, and curves whose modulus has a zero top word: `Mmod` is the general reduction.
- The co-Z coordinate formulas, the initial doubling and the final 1/Z: they enter `Ladder.Round` by their documented meaning, and `LadderProper` says for which scalars that meaning applies to the rounds. The final 1/Z also divides by the x coordinate of the point (lib/micro-ecc/uECC.c:891-897), which is not modelled.
- ECDSA signing and verification as a whole, point compression and point validation.
- The assembler variants of the word routines.
- Ccm.EncryptMessage: length fields of 2 and 3 bytes (the record layer uses 3); longer ones are not modelled.
- Ccm.AadMatters: differences that spread over several blocks may cancel for some block function and are not covered; how hard that is to bring about is a question about AES.
- Record.PrepareRecord: nothing is said about the program once bytes have been written behind the buffer; a missing peer or missing parameters are not modelled; the two supported cipher suites protect a record alike and are one case.
- Record.DecryptVerify: what happens to the cleartext by content type, and alerts, are not modelled.
- Replay.NoReplay: starts from the empty window. The window of the first server epoch, which starts with all bits set, is not modelled, and a record with an empty plaintext is not entered, as in the code.
- Handshake.RunInOrder: messages up to the reorder buffer size and numbers below 65535; HELLO_REQUEST, handshakes whose parameters are missing from the start, and a failing allocation of a queue node are not modelled. What a handler does with a message is a parameter.
- Netq.CheckCorrect: deadlines within a half-range window and nonzero timeouts; with a wider spread the order is not defined (`HalfRangeIsAmbiguous`).
- Netq.Context.CheckRetransmit: an alert that times out may make the code tear the peer down and clear the queue; the model only drops its node. The record built for a resend is that of `PrepareRecord`.
- Coap.TimeoutsFit: once 15 times the ACK timeout times 1.5 passes 2^32 the conversion of the wait to 32 bits is undefined; the model takes the number itself.
- Coap.AtMostOnce: the clock does not run backwards and the stores are processed within half the clock range; the ACK timeout is constant during a run.
- Coap.GivenUpInTime: ACK timeouts whose 15-fold stays below 2^32 and whose maximum wait is below half the clock range.
- Coap.BoundedRetransmission: one clock reading and one random draw per expired message in each event.
- CoapStore.MessageStore.Send: messages above 1500 bytes, which would be stored without data, are not modelled (the channel's own buffer holds 1200 bytes, include/protocol_defs.h:102-106); delivery callbacks, the synchronous send and the CLOSE and DISCARD commands to the channel are not modelled.
- HandlerMap.RunExact: callbacks that call back into the map, and the list variant of the handler container, are not modelled; handlers carry a callback identity instead of a function pointer and its data.
- Vector.Vector.Insert: the model has one element type and no copy construction; a cell that holds no live element is explicit.
- Publish.PublishOutcome: tokens up to 255, after which the counter sticks and every token is 1; a reply whose message is waiting under another token; no memory for a handler; publishes without acknowledgement; message ids are new while in use. The rate limit and a failing channel are the refused packet.
- Publish.Publisher.SendPublish: event name, time to live and flags of the message, the connection test and the publish counter are not modelled; data is a byte sequence instead of a C string.
- Chunked.TransferCorrect: fast updates; the bitmap has an array of its own, and the storage callback is taken to write the chunk it is given at the chunk address. This excludes the default callback (src/trackle.cpp:2105-2114), which ignores the chunk address and appends in order of arrival, when chunks come out of order or twice; and it takes the callback to succeed, as its return value is ignored (src/chunked_transfer.cpp:171). The product of index and chunk size, a signed one in the source, is taken to wrap. An accepted begin starts another update.
- Chunked.ChunkedTransfer.HandleUpdateDone: the memory behind the bitmap is a parameter, constant during the call; the text that the validating callback adds to the acknowledgement is not modelled.
- Chunked.ChunkedTransfer.HandleChunk: nothing is said about the program once the flag of a chunk has been written outside the bitmap; the acknowledgements of the slow mode and the parsing of the option bytes are not modelled.
- Crc.BurstDetected: longer bursts and scattered changes may go undetected and are not covered.
- Asn1.IntegerRoundTrip: `size_t` is 32 bits wide; the long form of lengths is read as the code does and never written.
- Options.JoinPath: what bytes behind the buffer would be is not modelled; the loop then counts as ended.
- Subscriptions.Table.HandleEvent: string termination, the handler's payload, and filters without room for a terminator are not modelled.
- Reconnection back-off in floating point, session persistence and the checksum of the subscriptions.
