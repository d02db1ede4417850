# A DTLS 1.3 client's transport engine, modelled and proved

A Dafny model of a bare-metal DTLS 1.3 client: the record and handshake engine of its TLS library
(`boot/src/dtls13.c`, RFC 9147), the firmware's own receive ring and clock (`boot/dtls_io.c`), the QUIC record
assembly (`boot/src/quic.c`), the stateless ClientHello parser (`boot/src/dtls.c`) and the linked-list stack
(`boot/src/ssl_sk.c`).  `dafny verify dfyconfig.toml` checks all of it.

Code that changes things in place is modelled in place: classes whose methods refine specification functions on
values, over arrays (the epoch table, the ring, record headers), heap-linked nodes (the retransmission list with its
pointer to the tail link, the list of seen records, the stack) and buffers.  The claims about whole runs are proved of
the specification functions.

| file | part |
|---|---|
| `Words.dfy` | machine words, big-endian codecs, exclusive or of bytes |
| `EpochTable.dfy` | the table of epochs with their send counters |
| `RtxQueue.dfy`, `SeenRecords.dfy`, `AckMessage.dfy` | retransmission list, seen record numbers, ACK messages |
| `SenderSpec.dfy`, `Sender.dfy` | the sending engine as a state machine, and in place |
| `SenderProofs.dfy`, `KeyUpdateProofs.dfy`, `FragmentProofs.dfy`, `EmittedFragments.dfy` | its runs: record numbers, key updates, fragments |
| `RetransmissionProofs.dfy`, `OtherRecords.dfy`, `SizeProofs.dfy` | what a call of it sends: retransmissions, other records, the sizes of records |
| `SenderRuns.dfy` | concrete runs in which record numbers repeat, or an old epoch is sent in |
| `RecordHeader.dfy` | unified headers, record number encryption and reconstruction |
| `FragBuckets.dfy` | reassembly of one message |
| `HandshakeSpec.dfy`, `HandshakeReceiver.dfy`, `HandshakeProofs.dfy` | in-order delivery of messages |
| `HandOverProofs.dfy` | what one received record leads to |
| `EndToEnd.dfy`, `AnyOrder.dfy` | sender and receiver together, in any order of arrival |
| `RxRing.dfy`, `TickClock.dfy` | the interrupt-driven ring, the 64-bit clock |
| `QuicFraming.dfy`, `QuicInput.dfy`, `QuicOutput.dfy` | QUIC handshake data in and out |
| `NodeStack.dfy`, `ClientHelloParser.dfy` | the stack, the parser |

## How the outside world enters

Calls into code that is not part of the model are parameters, so that every theorem holds for all of their answers.
`Wire` says how building and flushing a record ends, `Attempt` whether there was room for it, `derived` whether keys
could be derived, `Mask` is the uninterpreted record number mask of an epoch, `Verdict` is the answer of the message
handler, `Schedule` is what the network interrupt brings between any two steps of the consumer, `accepts` is the
application's answer to forwarded handshake data, `Junk` is what freshly grown memory holds.  `DTLS13_EPOCH_SIZE` and
`DTLS13_RETRANS_RN_SIZE` are positive parameters; `DTLS_POOL_SZ`, `DTLS_FRAG_POOL_SZ` and the header sizes have the
values of `boot/wolfssl/internal.h:1218-1222`, `1376-1379` and `1618-1632`.  Memory allocation succeeds.

`EndToEnd.MessagesArriveAsSent`, `HandshakeProofs.DeliveredAsSent` and the flights of `AnyOrder` speak of fewer than 65536 messages, because
message numbers have 16 bits and a later message would be confused with an earlier one of the same number.

## Where the code falls short of what it is meant to do

Each point is a lemma with the exact condition or a concrete input.

- The nonce writer ignores the wrap error of the send counter (`boot/src/tls13.c:2386-2398`), so that the counter is
  lost and the next record repeats number 0 (`SenderProofs.WrapRepeats`).
- The counter of an epoch is lost, too, when the epoch is thrown out to make room.  If its number is installed again to
  decrypt, and two peer key updates later kept for encryption only, a record sent again in it repeats a number
  (`SenderRuns.OldEpochReturns`, a run of the client with four slots).  Record numbers are unique exactly in the runs
  in which nothing is sent in an epoch after its counter was lost (`SenderProofs.RecordNumbersNeverRepeat`).
- A pending message is given up by a call exactly if, among the attempts the call needs, the first that is not written
  out is refused (`FragmentProofs.CallGivesUpExactly`); one of them is that making room would block, where WANT_WRITE
  is returned although nothing is left to resume (`FragmentProofs.NoRoomAbandons`).  A short message sent meanwhile
  shares the pending one's number (`FragmentProofs.OvertakingSharesNumber`).  Messages are numbered and cut as they
  should be exactly in the runs without such a step (`FragmentProofs.MessagesAreTiled`).
- Resuming a message does not switch to the send epoch: what it sends goes out in the epoch used last, in the send
  epoch exactly if that is the one (`KeyUpdateProofs.ResumedInSendEpoch`; `SenderRuns.ResumedInOldEpoch` is a run in
  which it is not).
- A key update can be completed by an ACK that names no record of a KeyUpdate, exactly while one is awaited and none is
  on the retransmission list (`KeyUpdateProofs.RealAcksExactly`).  That comes about exactly when a KeyUpdate is sent of
  which no record is queued and none of another is left, or the list is flushed meanwhile (`KeyUpdateProofs.StepAwaited`).
  In `SenderRuns.UnsentKeyUpdateCompletes`, a run of the client, sending the KeyUpdate fails and an empty ACK still
  moves the send epoch on.  (Receiving a message flushes the list only before the handshake is done,
  `boot/src/dtls13.c:880-896`.)
- The 16-bit length of an ACK loses blocks of 4096 numbers (`AckMessage.AckSurvivesExactlyUpTo4095`).
- Installing epoch 0 for decryption after the handshake decrements the number to 2^64 - 1 and marks every epoch, its own
  included, as encrypt only (`EpochTable.InstallSlots`).  No caller does so, short of the peer epoch wrapping around at
  2^64 - 1.
- An epoch is not recovered when the peer epoch is another one with the same low bits, for example epoch 0 for epoch 4
  (`EpochTable.EpochRecovered`).
- The fixed bits of a unified header are compared under the mask `0x111 << 5`, which leaves bit 5 only
  (`RecordHeader.UnifiedMeansBit5`).
- Reassembly copies a piece to the wrong place when a fragment overlaps its front or lands in a later gap: true bytes
  stay true exactly if no fragment does, or what is copied happens to be right (`FragBuckets.FaithfulExactly`;
  `FragBuckets.ReorderingCanCorrupt` and `FragBuckets.EmptyPieceCorrupts` are inputs).
- When the next message arrives whole while a part of it is buffered, the part stays at the head of the list
  (`AnyOrder.StaleExactly`), and no message that needs buffering is handed over any more (`AnyOrder.StaleForever`).
- The buffered messages are ordered by epoch as well as number, and out of order across epochs
  (`HandshakeProofs.InsertKeepsSorted`).
- A QUIC message longer than 16384 bytes that does not fill its last TLS record leaves that record unfinished
  (`QuicFraming.FramingExactly`); a read with less than five bytes of room fails even inside a record
  (`QuicFraming.FatalExactly`).
- A record whose length turns out to be over the limit is kept with that length and its first buffer
  (`QuicInput.InputQueue.ProvideData`), so that appending to it again keeps within the buffer only as far as its 2048
  bytes reach (`QuicInput.QuicRecord.CopyFits`).
- A ClientHello with an empty block of extensions is refused (`ClientHelloParser.ParsesExactlyWhatIsPrinted`).

## Model

| member | source | states |
|---|---|---|
| `EpochTable.RoomForIs` | boot/src/dtls13.c:2256-2289 | Making room for an epoch takes a free slot when there is one, otherwise only a slot that holds neither the current send epoch nor the current peer epoch; it fails exactly when every slot is live and none may be thrown out. |
| `EpochTable.InstallKeeps` | boot/src/dtls13.c:2291-2328 | Installing an epoch keeps live slots at distinct epoch numbers, dead slots zeroed and the send and receive slots live; on BAD_STATE_E nothing changes; on success the new epoch is found in the chosen slot. |
| `EpochTable.InstallSlots` | boot/src/dtls13.c:2291-2328 | Slot by slot: on success the chosen slot serves a side if and only if that side was installed or the epoch was live and served it before; a live epoch keeps both its counters, a fresh one starts both at 0; every other slot is unchanged, or after the handshake demoted to encryption if it is older. Epoch 0 installed for decryption after the handshake is the exception. |
| `EpochTable.InstallCounters` | boot/src/dtls13.c:2291-2328 | An installation never touches the send counter of a live epoch, its own included, except the one evicted. |
| `EpochTable.CurrentEpochsSurvive` | boot/src/dtls13.c:2256-2328 | The current send epoch and peer epoch survive every installation with their counters. |
| `EpochTable.OlderEpochsStopDecrypting` | boot/src/dtls13.c:2140-2152 | After the handshake, installing epoch n >= 1 for decryption makes every request for decryption keys of an epoch below n-1 fail. |
| `EpochTable.OlderEpochsStayRefused` | boot/src/dtls13.c:2291-2412 | ... and they stay refused under every later installation of newer epochs, key switch or send. |
| `EpochTable.UseKeys` | boot/src/dtls13.c:2330-2412 | Keys are switched if and only if the epoch is live and kept for the wanted side; a refusal changes nothing. |
| `EpochTable.EpochRecovered` | boot/src/dtls13.c:1388-1424 | Exact condition under which a live nonzero epoch is recovered from its two low bits: the peer epoch decides if its bits match, otherwise the highest live epoch with those bits. |
| `EpochTable.DistinctBitsRecover` | boot/src/dtls13.c:1388-1424 | In particular whenever the live nonzero epochs differ mod 4 and a peer epoch with the same bits is live and nonzero. |
| `EpochTable.ReconstructedBits` | boot/src/dtls13.c:1388-1424 | What is recovered has the bits asked for; there is an error exactly if neither the peer epoch nor a nonzero live one has them. |
| `EpochTable.Epochs.NewEpochSlot` | boot/src/dtls13.c:2256-2289 | The slot scan in place: the slot found, wiped if it was live, others untouched. |
| `EpochTable.Epochs.NewEpoch` | boot/src/dtls13.c:2291-2328 | The installation in place carries out EpochTable.Install on the represented table. |
| `EpochTable.Epochs.SetEpochKeys` | boot/src/dtls13.c:2330-2412 | The key switch in place carries out EpochTable.UseKeys. |
| `EpochTable.Epochs.GetSeq` | boot/src/dtls13.c:2216-2254 | The next send number is handed out and the counter advanced, reporting the wrap. |
| `EpochTable.Epochs.ReconstructEpochNumber` | boot/src/dtls13.c:1388-1424 | The scan for an epoch with given low bits returns the peer epoch, or the highest live match, or an error. |
| `RtxQueue.RemoveOneIsFilter` | boot/src/dtls13.c:2646-2672 | Removing the first record tracking a number leaves exactly the records not tracking it, while no number is tracked twice. |
| `RtxQueue.RemoveEachIsFilter` | boot/src/dtls13.c:2784-2848 | Handling all numbers of an ACK leaves exactly the records tracked by none of them, in order. |
| `RtxQueue.FlushedIs` | boot/src/dtls13.c:676-700 | Flushing leaves nothing, or if tickets are to be kept exactly the session tickets, in order. |
| `RtxQueue.RtxRecord.TrackNumber` | boot/src/dtls13.c:1610-1627 | The array of tracked numbers takes the latest one, starting over when full, and keeps 1 <= rnIdx <= size. |
| `RtxQueue.RtxRecord.IsTrackedByRn` | boot/src/dtls13.c:2603-2616 | Says whether the record is tracked by the number in its epoch. |
| `RtxQueue.RtxList.AddRecord` | boot/src/dtls13.c:647-654 | Appends through the tail pointer; the list stays acyclic, its tail pointer names the final null link. |
| `RtxQueue.RtxList.Unlink` | boot/src/dtls13.c:656-674 | Takes one record out through the pointer to its link, with the tail pointer kept right. |
| `RtxQueue.RtxList.FlushBuffered` | boot/src/dtls13.c:676-700 | Leaves nothing, or exactly the session tickets in order, and the tail pointer at the final null. |
| `RtxQueue.RtxList.MoveToEndOfList` | boot/src/dtls13.c:1544-1554 | The record becomes the last one, the others keep their order. |
| `RtxQueue.RtxList.RemoveRecord` | boot/src/dtls13.c:2646-2672 | Removes exactly the first record tracked by the number. |
| `RtxQueue.RtxList.SaveClientHello` | boot/src/dtls13.c:858-870 | The first ClientHello leaves the list and is handed back. |
| `RtxQueue.RtxList.HasKeyUpdateBuffered` | boot/src/dtls13.c:2757-2769 | Says whether a KeyUpdate is on the list. |
| `SenderProofs.RecordNumbersNeverRepeat` | boot/src/dtls13.c:2216-2412 | Over every run of installing, switching, sending, retransmitting, acknowledging and key updating: no (epoch, sequence) pair is used for two records if and only if no record is sent in an epoch after its counter was lost, because the epoch was thrown out after use or its counter wrapped. |
| `SenderProofs.NumberStaysUnique` | boot/src/dtls13.c:2216-2254 | One record: from numbers that do not repeat the next one repeats none if and only if the counter of the epoch in use was never lost. |
| `SenderProofs.StepKeeps` | boot/src/dtls13.c:945-976 | Every operation its caller may make keeps the invariant behind it: counters bound the numbers handed out unless they were lost, numbers repeat exactly if one was handed out after such a loss, every record on the retransmission list tracks only numbers used for its fragment. |
| `SenderProofs.CounterIsExact` | boot/src/dtls13.c:2216-2254 | While numbers do not repeat, a live epoch has handed out exactly the numbers below its counter if and only if that counter was never lost. |
| `SenderProofs.AckLeavesTheUntracked` | boot/src/dtls13.c:2784-2848 | Section 7.2 of RFC 9147 after every run in which numbers do not repeat: an ACK leaves exactly the records tracked by none of its numbers, in order, and sets retransmit if some are left. |
| `SenderProofs.ListTracksApart` | boot/src/dtls13.c:613-645 | After every run in which numbers do not repeat no number is tracked by two records. |
| `SenderProofs.LatestTransmissionIsTracked` | boot/src/dtls13.c:1610-1627 | In every reachable state: of the n numbers with which a record was written or queued exactly the last (n - 1) mod size + 1 are tracked, in order, and each of them was used for its own fragment. |
| `SenderProofs.FirstTransmissionsAreTracked` | boot/src/dtls13.c:2603-2616 | In particular an ACK of any transmission names the record as long as it was not sent more often than the array is long. |
| `RetransmissionProofs.ResentExactly` | boot/src/dtls13.c:1556-1641 | For every list, state of the epochs and outcome of the attempts: exactly the records before the first that cannot be written out are sent again, in order, each in its own epoch, with its id and fragment and the next number of that epoch, which it tracks from then on; the value returned says why the call stopped there; a record that would block tracks its new number and is the last of the list. |
| `RetransmissionProofs.AllSentAgain` | boot/src/dtls13.c:1584-1638 | With room, keys and every record written the log grows by exactly one entry for each record of the list, in the order of the list. |
| `SenderProofs.BroughtBackToDecrypt` | boot/src/dtls13.c:2291-2328 | An epoch thrown out and installed again to decrypt is refused for sending. |
| `SenderProofs.SendingAgainRepeats` | boot/src/dtls13.c:2140-2152 | ... until an epoch at least two above it is installed to decrypt: then it can be sent in, and the first record repeats a number if and only if its counter was lost. |
| `SenderRuns.OldEpochReturns` | boot/src/dtls13.c:2291-2328 | A concrete run of a client with four slots: three own key updates throw out epoch 4, three of the peer bring it back and demote it, and sending an unacknowledged message again repeats a number. |
| `SenderProofs.WrapRepeats` | boot/src/tls13.c:2386-2398 | A protected record sent with the largest number succeeds and the one after it repeats number 0, because the nonce writer ignores the wrap error. |
| `KeyUpdateProofs.SendEpochMovesExactlyOnAck` | boot/src/dtls13.c:2618-2633 | After the handshake the send epoch changes in exactly the steps that process an ACK leaving no KeyUpdate on the list (and can derive and install keys), and then by one. |
| `OtherRecords.OneRecordInItsEpoch` | boot/src/dtls13.c:2850-2918 | An ACK, data or an alert is one record with the next number of its epoch: 2 for the ACK of a server that has not finished the handshake but sends in a later epoch, 1 for early data, otherwise the send epoch; without keys nothing happens, without room nothing is sent. |
| `KeyUpdateProofs.CompletedExactly` | boot/src/dtls13.c:2618-2633 | The ACK that completes a key update succeeds if and only if the keys can be derived, there is room for the next epoch and its number does not wrap; then that epoch is the send epoch and in use, otherwise the keys in use stay. |
| `KeyUpdateProofs.OldEpochUntilAcked` | boot/src/dtls13.c:2014-2031 | Over any run without such an ACK, every message, ACK, alert and record of application data goes out in the old epoch; a resumed message does, too, if and only if it sends nothing or the send epoch is in use. |
| `KeyUpdateProofs.ResumedInSendEpoch` | boot/src/dtls13.c:1935-1944 | A resumed message does not switch back first: what it sends goes out in the send epoch if and only if it sends nothing or that epoch is in use. |
| `SenderRuns.ResumedInOldEpoch` | boot/src/dtls13.c:1935-1944 | A concrete run: after a retransmission of an unacknowledged Finished message a new message resumed goes out in epoch 2 although the send epoch is 3. |
| `KeyUpdateProofs.KeyUpdateReallyAcked` | boot/src/dtls13.c:2771-2782 | Over every run: at every point of it only an ACK that names a record with which a KeyUpdate was sent can complete a key update, if and only if no step of the run loses a KeyUpdate that is awaited. |
| `KeyUpdateProofs.RealAcksExactly` | boot/src/dtls13.c:2757-2848 | In every reachable state: each ACK that completes a key update names a tracked number with which a KeyUpdate record was sent, if and only if none is awaited or one is on the list. |
| `KeyUpdateProofs.StepAwaited` | boot/src/dtls13.c:2014-2043 | One step: a KeyUpdate comes to be awaited with none on the list exactly if the step flushes the list meanwhile, or sends a KeyUpdate (the switch of epochs succeeding) of which no record is queued while none of another is on the list. |
| `KeyUpdateProofs.AwaitedExactly` | boot/src/dtls13.c:2014-2043 | An ACK is awaited from the sending of a KeyUpdate on, however that ends once the keys are there, until an ACK leaves none on the list; nothing else starts or ends the wait. |
| `SenderRuns.UnsentKeyUpdateCompletes` | boot/src/dtls13.c:2021-2041 | A concrete run: writing the KeyUpdate fails, nothing is on the list, and an ACK without numbers moves the send epoch from 3 to 4. |
| `FragmentProofs.TurnSends` | boot/src/dtls13.c:989-1038 | Every fragment built is nonempty, fits the maximum with the headers reckoned with, and is the only record to join the retransmission list, tracking its number, unless it is of a HelloRetryRequest. |
| `SizeProofs.RecordsFit` | boot/src/dtls13.c:978-1046 | The size of a record told from the bytes of its header (13 or 5 and the connection id) and of its encoded fragment: no record of a message is larger than the maximum, and each but the one with the end of the message is exactly as large. |
| `SizeProofs.RecordSize` | boot/src/dtls13.c:1300-1322 | The length of headers the fragmenter reckons with is that of the bytes of the record and handshake header. |
| `SizeProofs.PlainTypes` | boot/src/dtls13.c:208-238 | Exactly the hellos and the types without a name go out in the plain. |
| `FragmentProofs.MessagesAreTiled` | boot/src/dtls13.c:978-1093 | Over every run: message numbers are consecutive from zero and the fragments sent for each message tile it without gap or overlap, all with its number, whatever the interruptions and changes of fragment size, if and only if no step gives a message up or overtakes a pending one. |
| `FragmentProofs.StepKeepsOutput` | boot/src/dtls13.c:978-1046 | One step: from messages in order, a step that gives up or overtakes a message breaks their numbers or leaves one incomplete, and every other step keeps them. |
| `FragmentProofs.CallGivesUpExactly` | boot/src/dtls13.c:989-1038 | A call gives the pending message up if and only if, among the attempts it needs, the first that is not written out is refused; otherwise it finishes the message or gets further with it. |
| `FragmentProofs.TilesArePieces` | boot/src/dtls13.c:989-1038 | Every fragment of a tiling is the piece of the message at its offset. |
| `FragmentProofs.TilesCover` | boot/src/dtls13.c:989-1038 | Every byte is in one of the fragments. |
| `FragmentProofs.ResumptionFinishes` | boot/src/dtls13.c:1935-1944 | For every pattern of interruptions nothing of a message is pending after at most one call more than it has bytes, and its number is passed, once, if and only if none of the calls made gave it up. |
| `FragmentProofs.NoRoomAbandons` | boot/src/dtls13.c:1006-1010 | If flushing to make room would block, WANT_WRITE is returned but the message is given up, incomplete and with its number not passed. |
| `FragmentProofs.OvertakingSharesNumber` | boot/src/dtls13.c:2031-2041 | A short message sent while a fragmented one is pending takes the same message number. |
| `EmittedFragments.OnlyFragmentsAreSent` | boot/src/dtls13.c:945-976 | Over every run that disrupts nothing, each handshake record written or queued, first or again, and each record on the list carries a fragment cut from a message, with the type of that message. |
| `Sender.Dtls13Sender.SendFragmentedInternal` | boot/src/dtls13.c:978-1046 | The fragmenter loop in place carries out SenderSpec.SendPending. |
| `Sender.Dtls13Sender.FragmentsContinue` | boot/src/dtls13.c:1935-1944 | Resuming in place; the handshake number rises when the message is complete. |
| `Sender.Dtls13Sender.HandshakeSend` | boot/src/dtls13.c:1986-2043 | Sending a handshake message in place, switch to the send epoch and key update flag included. |
| `Sender.Dtls13Sender.SendOneFragmentRtx` | boot/src/dtls13.c:945-976 | Sending one fragment in place; it joins the retransmission list exactly when it was sent or queued. |
| `Sender.Dtls13Sender.SendDtls13Ack` | boot/src/dtls13.c:2850-2918 | The switch of epochs, the refusal when there is no room, and the record of an ACK in place. |
| `Sender.Dtls13Sender.SendData` | boot/src/internal.c:25926-25963 | The switch of epochs for application data and one record of it in place; an alert (`boot/src/internal.c:26426-26434`) is the same without early data. |
| `Sender.Dtls13Sender.RtxSendBuffered` | boot/src/dtls13.c:1556-1641 | The retransmission loop in place. |
| `Sender.Dtls13Sender.KeyUpdateAckReceived` | boot/src/dtls13.c:2618-2633 | The end of a key update in place. |
| `Sender.Dtls13Sender.DoDtls13Ack` | boot/src/dtls13.c:2784-2848 | Parsing and applying an ACK in place; a malformed one changes nothing. |
| `Sender.Dtls13Sender.DoDtls13KeyUpdateAck` | boot/src/dtls13.c:2771-2782 | The check for outstanding KeyUpdates in place. |
| `SeenRecords.ListIsOutstanding` | boot/src/dtls13.c:721-786 | After any sequence of additions, removals and flushes the seen-records list is strictly sorted and holds exactly the numbers added since the last flush and not removed. |
| `SeenRecords.InsertSorted` | boot/src/dtls13.c:721-759 | Insertion keeps the list strictly sorted. |
| `SeenRecords.InsertMembers` | boot/src/dtls13.c:721-759 | ... and adds exactly the number given. |
| `SeenRecords.SeenList.AddAck` | boot/src/dtls13.c:721-759 | The insertion through links in place; a number already there is not added. |
| `SeenRecords.SeenList.RemoveCurAck` | boot/src/dtls13.c:827-845 | The removal of the current record number in place. |
| `SeenRecords.SeenList.WriteAckMessage` | boot/src/dtls13.c:2541-2601 | The ACK message written from the linked list. |
| `AckMessage.WrittenAckParses` | boot/src/dtls13.c:2524-2601 | Parsing a written ACK gives back the list without its full blocks of 4096 numbers, whatever follows the message. |
| `AckMessage.AckSurvivesExactlyUpTo4095` | boot/src/dtls13.c:2795-2814 | The list survives writing and parsing if and only if it has at most 4095 numbers. |
| `AckMessage.ParsesExactly` | boot/src/dtls13.c:2795-2814 | Any bytes: refused exactly if they are not all there, or not whole numbers; otherwise they are the encoding of the numbers read. |
| `RecordHeader.AddCiphertextHeader` | boot/src/dtls13.c:1180-1215 | The unified header written in place: flags, connection id, 16-bit number, 16-bit length. |
| `RecordHeader.EncryptRecordNumber` | boot/src/dtls13.c:1254-1291 | The number masked in place, with the error for records too short and the length bit deciding its size. |
| `RecordHeader.ParseUnifiedRecordLayer` | boot/src/dtls13.c:1455-1525 | The header parsed in place, every error included, with the number decrypted in the input. |
| `RecordHeader.MaskedTwice` | boot/src/dtls13.c:292-312 | Masking the number a second time with the mask of the same ciphertext restores it. |
| `RecordHeader.UnifiedMeansBit5` | boot/src/dtls13.c:1330-1337 | A byte is taken for a unified header if and only if its bit 5 is set. |
| `RecordHeader.ReconstructsNearest` | boot/src/dtls13.c:1339-1386 | Section 4.2.2 of RFC 9147: the number reconstructed from 8 or 16 low bits is congruent to them and as close to the expected number as any 64-bit number, also near 0 and 2^64. |
| `RecordHeader.ReconstructsExactly` | boot/src/dtls13.c:1339-1386 | Exactly which numbers are recovered: those within less than half the span, and the ties and ends that share the higher bits with the expected number. |
| `RecordHeader.ParseUndoesProtect` | boot/src/dtls13.c:1102-1162 | For two ends with one connection id and mask: building, protecting and parsing gives back the length, epoch bits and low bits, and the header in the clear. |
| `RecordHeader.ParsesEveryForm` | boot/src/dtls13.c:1455-1525 | A header in any form of section 4 of RFC 9147, with 16 or 8 bits of the number, with a length or without, is parsed to what it says and left in the clear. |
| `RecordHeader.ReadsForm` | boot/src/dtls13.c:1455-1525 | Conversely, for any bytes that parse: in the clear they begin with the header that was read, in the form its first byte tells. |
| `RecordHeader.FailsExactly` | boot/src/dtls13.c:1455-1525 | Any bytes: each error has its cause, and leaves them alone. |
| `RecordHeader.NumberSurvivesTheWire` | boot/src/internal.c:11735-11828 | End to end: the receiver selects the sender's epoch, reads the record length, and recovers the full 64-bit number if and only if it is the preferred candidate (in particular within less than 2^15 of the expected one). |
| `RecordHeader.ReadsEveryForm` | boot/src/internal.c:11735-11828 | The same for headers of every form: with 8 bits of the number the span is 256 instead of 65536. |
| `RecordHeader.ReadsReceivableOnly` | boot/src/internal.c:11735-11780 | A header is read only in an epoch that is recovered from its bits and has keys, never in epoch 0, nor as early data after the handshake; if there is no such epoch it is refused and nothing changes. |
| `RecordHeader.ReadFailsExactly` | boot/src/internal.c:11781-11824 | Any bytes in a receivable epoch: each error has its cause, and leaves them alone. |
| `RecordHeader.GetRecordHeader` | boot/src/internal.c:11735-11828 | The receiving of a record header in place: keys selected, header parsed, full number reconstructed. |
| `FragBuckets.InsertKeepsApart` | boot/src/internal.c:9550-9666 | Reassembly keeps the received pieces of a message in order with gaps between them, whatever arrives. |
| `FragBuckets.InsertKeepsFaithful` | boot/src/internal.c:9386-9506 | True bytes stay true bytes at their places unless a fragment is misplaced. |
| `FragBuckets.FaithfulExactly` | boot/src/internal.c:9386-9506 | True bytes stay true bytes if and only if the fragment is not misplaced (it neither overlaps the front of a piece nor falls into a gap other than the first without closing it), or the bytes put behind it happen to belong there; pieces without bytes included. |
| `FragBuckets.MisplacedIsWrong` | boot/src/internal.c:9455-9469 | A misplaced fragment is followed by the first byte of the piece it meets, or an unset byte when that piece has none, so the bytes are wrong whenever another one belongs there. |
| `FragBuckets.InsertCovers` | boot/src/internal.c:9386-9506 | Unless a fragment is misplaced, exactly the bytes that arrived count as received. |
| `FragBuckets.CompleteIffCovered` | boot/src/internal.c:9508-9548 | A message is assembled exactly when none of its bytes is missing. |
| `FragBuckets.RefusedExactly` | boot/src/internal.c:9550-9666 | A fragment finds no room exactly if there are ten pieces and it lies before the first or behind the last without touching it. |
| `FragBuckets.ReorderingCanCorrupt` | boot/src/internal.c:9550-9666 | Concrete input: pieces 0, 4, 2, 1 of a five-byte message make it count as complete with wrong bytes. |
| `FragBuckets.EmptyPieceCorrupts` | boot/src/internal.c:9550-9666 | Concrete input: an empty fragment makes a piece without bytes, and a fragment in the gap before it is followed by an unset byte. |
| `HandshakeSpec.FragmentRoundTrip` | boot/src/dtls13.c:190-206 | The handshake header one end puts before a fragment is read back by the other. |
| `HandshakeProofs.InsertKeepsSorted` | boot/src/internal.c:9741-9771 | Insertion keeps the buffered messages in the order of their numbers exactly when the next message is not from an older epoch. |
| `HandshakeProofs.DeliveredInOrder` | boot/src/dtls13.c:1809-1912 | Over every run of arrivals and handler answers: each message handed over has the number after those done with before it, the number expected follows all of them, none is handed over again once done with (within 65536 messages), at most DTLS_POOL_SZ are kept. A message is done with if the handler accepts it, or if it was buffered and only its reply would block or a certificate requested after the handshake is pending. |
| `HandshakeProofs.AcceptedInOrder` | boot/src/dtls13.c:1903-1911 | If the handler accepts everything the i-th message handed over has the i-th number. |
| `HandshakeProofs.DeliveredAsSent` | boot/src/dtls13.c:352-428 | For genuine fragments in any order, lost, repeated or reordered but never misplaced, every message handed over is whole, with its type, the message that follows those processed before. |
| `HandOverProofs.HandedOverExactly` | boot/src/dtls13.c:352-428 | For every buffer and all answers of the handler: the messages handed over are the first n of the list, complete, numbered from the expected one on and rightly encrypted, all but the last accepted; those done with leave the list and raise the expected number, each by one; one handed over with any other answer stays at the head with its number expected; and why the loop stops. |
| `HandOverProofs.RefusedExactly` | boot/src/dtls13.c:1763-1891 | Each error has its cause in the bytes or the checks (too short, failed check of type or epoch, not all there, fragment beyond its message, pool full) and changes nothing; nor does a fragment of a message done with, or of one in pieces where those are not accepted. |
| `HandOverProofs.KeptExactly` | boot/src/dtls13.c:1875-1912 | Any other record is stored if it is no whole next message, or handed over at once and counted if accepted; then what is complete follows. |
| `HandOverProofs.SetExactly` | boot/src/internal.c:9550-9666 | A fragment is refused exactly if it tells another length, reaches beyond its message, belongs to another message or finds no room; a complete message stays; any other one is marked as encrypted only while all its fragments are. |
| `HandshakeReceiver.Dtls13Receiver.HandshakeRecv` | boot/src/dtls13.c:1763-1912 | Receiving in place carries out HandshakeSpec.Receive, errors included. |
| `HandshakeReceiver.Dtls13Receiver.ProcessBufferedMessages` | boot/src/dtls13.c:352-428 | The loop over buffered messages in place. |
| `HandshakeReceiver.Dtls13Receiver.MsgStore` | boot/src/internal.c:9669-9737 | Storing a fragment in place, the count of messages kept right. |
| `EndToEnd.MessagesArriveAsSent` | boot/src/dtls13.c:978-1912 | From the sender's fragmenter to the receiver's handler: after any sender run that disrupts nothing and for any arrivals made of records it wrote or queued, the i-th accepted message is the i-th message sent, whole and with its type. |
| `EndToEnd.EverythingArrives` | boot/src/dtls13.c:352-428 | Nothing is held back: when the fragments of the first n messages arrive in the order in which they were cut and pass every check, exactly those n messages have been handed over. |
| `AnyOrder.HandedUpToFirstGap` | boot/src/dtls13.c:352-428 | In whatever order the pieces of a flight arrive (each message in one epoch, epochs not going back), repeated at will but well placed, within the pools and with no stale head: exactly the messages before the first one of which a byte is missing have been handed over, whole and in order. |
| `AnyOrder.NothingIsHeldBack` | boot/src/dtls13.c:978-1912 | The same from end to end: for records of any sender run that disrupts nothing, arriving in any order. |
| `AnyOrder.StaleExactly` | boot/src/dtls13.c:1885-1911 | The head of the buffered messages becomes stale if and only if the next message arrives whole while a part of it is buffered. |
| `AnyOrder.StaleForever` | boot/src/dtls13.c:362-370 | A stale head stays whatever arrives (within 65536 messages), and nothing is handed over any more but messages that arrive whole. |
| `RxRing.FirstInFirstOut` | boot/dtls_io.c:39-70 | What was delivered and what is unread are the accepted datagrams in order of arrival, each cut to 1536 bytes; a datagram is lost exactly when seven are unread as it arrives. |
| `RxRing.NothingElseIsLost` | boot/dtls_io.c:39-70 | Arrivals = delivered + unread + lost. |
| `RxRing.KeepingUpLosesNothing` | boot/dtls_io.c:39-70 | If seven never wait when one arrives, nothing is lost and the datagrams come out as they came in. |
| `RxRing.Ring.RxCb` | boot/dtls_io.c:39-54 | The producer refines an arrival at the bounded queue. |
| `RxRing.Ring.Isr` | boot/dtls_io.c:161-165 | The interrupt handler drains every pending datagram. |
| `RxRing.Ring.RecvCb` | boot/dtls_io.c:56-70 | For every schedule of interrupts between any two steps of the consumer, inside its copy loop included: the caller gets the oldest datagram cut to its size and nothing else of its buffer changes, and the ring goes through exactly the queue steps of that schedule. |
| `TickClock.ReadingIsTrue` | boot/dtls_io.c:110-118 | An exact clock stays exact, and returns the true count, if and only if fewer than 2^32 ticks passed since the last reading (or whole 64-bit turns). |
| `TickClock.ReadingsAreTrue` | boot/dtls_io.c:96-118 | For every sequence of readings less than 2^32 ticks apart each returns the true number of ticks. |
| `TickClock.ClockIsMonotone` | boot/dtls_io.c:96-118 | ... so that the clock never runs backwards. |
| `TickClock.Timer.Ticks` | boot/dtls_io.c:110-118 | The reading in place. |
| `QuicInput.ChunkingDoesNotMatter` | boot/src/quic.c:698-760 | However a handshake stream is chunked, the queued messages, the bytes left over and the verdict on its lengths are those of the whole stream. |
| `QuicInput.SplitOfConcat` | boot/src/quic.c:725-756 | Cutting a stream undoes concatenating messages. |
| `QuicInput.ConcatOfSplit` | boot/src/quic.c:725-756 | ... and concatenating undoes cutting. |
| `QuicInput.SplitIntoMessages` | boot/src/quic.c:46-54 | Every piece cut is a message of the length its prefix tells. |
| `QuicFraming.StaysInOrder` | boot/src/quic.c:711-717 | What comes at a level that is not before that of the last message queued keeps the queue in the order of levels. |
| `QuicInput.QuicRecord.Append` | boot/src/quic.c:111-166 | One record filled in place: it takes what it still needs; at a length over the limit nothing counts as consumed, and the record is left with that length, its first four bytes and its first buffer, so that it takes everything that comes from then on. |
| `QuicInput.QuicRecord.CopyFits` | boot/src/quic.c:151-158 | A record with a length over the limit takes bytes within its buffer exactly if that has as much room left; any other record always does. |
| `QuicInput.InputQueue.ProvideData` | boot/src/quic.c:698-760 | Providing a chunk queues the messages that the bytes pending and the chunk split into and keeps the rest, or fails at a length over the limit, with the messages before it queued and nothing or the overlong record left; it refuses exactly a level before the one read, that of the last message queued or that of the data taken last, or another than that of the record begun, so that the levels queued never go back; its loop terminates. |
| `QuicFraming.ReceiveTakes` | boot/src/quic.c:764-803 | A read gives out the next bytes of the stream of TLS records and leaves the others. |
| `QuicFraming.FatalExactly` | boot/src/quic.c:185-200 | A read fails if and only if it would end less than a header behind the end of a TLS record, or begins with less, with more to come. |
| `QuicFraming.ReadsFollowTheWire` | boot/src/quic.c:764-803 | However reads are sized, together they give out that stream and nothing else if and only if no read of five bytes or more ends less than a header behind the end of a TLS record with more to come. |
| `QuicFraming.FailsWithNothing` | boot/src/quic.c:777-803 | A read that fails has taken bytes off the stream if and only if it had room for a header. |
| `QuicFraming.LosesExactly` | boot/src/quic.c:764-803 | A read fails after it took bytes off the stream if and only if it has room for a header and ends so. |
| `QuicInput.QuicRecord.TransferTo` | boot/src/quic.c:185-222 | One transfer in place. |
| `QuicInput.InputQueue.Receive` | boot/src/quic.c:764-803 | The reading loop in place: the bytes written, the queue left, the value returned. |
| `QuicFraming.FramingExactly` | boot/src/quic.c:200-208 | A message survives framing and sending if and only if it fits one TLS record or fills all of its records. |
| `QuicFraming.WireForwards` | boot/src/quic.c:811-871 | Sending the stream of TLS records of queued messages forwards exactly the messages in order. |
| `QuicFraming.FlushesDoNotMatter` | boot/src/quic.c:811-871 | However flushes split the payload, the same bytes are forwarded at the same levels. |
| `QuicFraming.SendFailsExactly` | boot/src/quic.c:811-871 | If the application takes everything, sending fails exactly if the handshake is done and the buffer holds a protected record. |
| `QuicFraming.SendsUpToRefusal` | boot/src/quic.c:811-871 | At the first chunk the application refuses sending fails, and up to that chunk it was given the same ones as otherwise. |
| `QuicFraming.ReadAndSentAgain` | boot/src/quic.c:764-871 | Messages read as TLS records by reads of any size that lose nothing, and sent again, are the messages. |
| `QuicOutput.Forwarder.SendInternal` | boot/src/quic.c:811-871 | The sending loop in place, its failures included. |
| `NodeStack.Stack.Insert` | boot/src/ssl_sk.c:661-746 | Insertion at any index, negative or too large included, inserts into the plain sequence; every node counts the nodes from it on and the first node stays. |
| `NodeStack.Stack.PopNode` | boot/src/ssl_sk.c:269-310 | Removal at any index likewise. |
| `NodeStack.Stack.FindPrevious` | boot/src/ssl_sk.c:709-722 | The counting loop of insertion ends before the right place with every count passed one higher. |
| `NodeStack.Stack.FindToPop` | boot/src/ssl_sk.c:293-300 | The counting loop of removal ends at the right node with every count passed one lower. |
| `NodeStack.Stack.NodeCopy` | boot/src/ssl_sk.c:123-133 | Copying a node, by which the second one moves into the place of the first. |
| `NodeStack.Stack.Value` | boot/src/ssl_sk.c:585-632 | The item at an index, the first one for an index that is not positive. |
| `NodeStack.Stack.GetNode` | boot/src/ssl_sk.c:96-112 | The node at an index, none at the number of nodes but in an empty stack. |
| `NodeStack.Stack.Num` | boot/src/ssl_sk.c:562-572 | The number of items. |
| `NodeStack.PopUndoesInsert` | boot/src/ssl_sk.c:269-310 | Popping at an index undoes inserting at it, whatever the index. |
| `NodeStack.LastInFirstOut` | boot/src/ssl_sk.c:647-766 | Items pushed and popped as often come back in reverse and leave the stack as it was. |
| `ClientHelloParser.ParseClientHello` | boot/src/dtls.c:298-345 | The parser with its running index computes the parse by fields. |
| `ClientHelloParser.ParsesExactlyWhatIsPrinted` | boot/src/dtls.c:298-345 | A whole message parses to exactly the ClientHello it is the printed form of: the fields tile the input, and every ClientHello with extensions absent or not empty parses back. |
| `ClientHelloParser.FragmentParses` | boot/src/dtls.c:324-341 | A first fragment that breaks off inside the extensions is accepted with the part that came; as a whole message it is refused. |
| `ClientHelloParser.FindExtByType` | boot/src/dtls.c:349-374 | The search in any bytes: the first extension of the type; if none, an error exactly when the bytes behind the last extension begin another that does not fit. |
| `ClientHelloParser.DecodeOfEncode` | boot/src/dtls.c:349-374 | A list of extensions is found again in its encoding, whatever is left behind it. |
| `ClientHelloParser.OutcomeOfEncode` | boot/src/dtls.c:349-374 | Searching a list of extensions, whatever incomplete bytes follow: the first of the type; without one an error exactly if four bytes or more follow. |
| `ClientHelloParser.EncodeOfDecode` | boot/src/dtls.c:349-374 | Every byte searched is in an extension or behind the last. |
| `ClientHelloParser.FirstOfIsFirst` | boot/src/dtls.c:349-374 | What is found is the first extension of the type. |
| `ClientHelloParser.FirstOfMissing` | boot/src/dtls.c:349-374 | Nothing is found exactly when no extension has the type. |

## Left out

- Cryptography, key derivation and key copying: a mask is an uninterpreted function, keys are only selected, never used.
- The content of records other than handshake fragments; a record is its number, its payload and how sending it ended.
- The mutexes of the multi-threaded build: the single-threaded one is modelled.
- Timers that decide when to retransmit or acknowledge (`Dtls13RtxTimeout`, `Dtls13DoScheduledWork`); the steps they start may happen at any time in a run.
- Sender.Dtls13Sender.HandshakeSend: the flush of the seen record numbers during the handshake (`boot/src/dtls13.c:2000-2012`) is not part of the sender; SeenRecords has it as an operation.
- Sender.Dtls13Sender.SendDtls13Ack: the list of seen numbers is not a field of the sender; what is written of it is SeenRecords.SeenList.WriteAckMessage, and its flush an operation there.
- Sender.Dtls13Sender.RtxSendBuffered: the minimum interval between retransmissions is left out; a call that comes too soon does nothing, which is no step of a run.
- Sender.Dtls13Sender.DoDtls13Ack: the transition of a waiting client when its last flight is acknowledged (`boot/src/dtls13.c:2812-2818`) is left out; it happens exactly if the list is empty afterwards, and changes nothing the sender uses.
- Sender.Dtls13Sender.SendData: one record, with all checks before it and the fragmentation of the data left to the caller.
- HandshakeReceiver.Dtls13Receiver.HandshakeRecv: the size reported as processed and the retransmissions and acknowledgements it schedules are left out.
- HandshakeReceiver.Dtls13Receiver.MsgStore: the message list is a field holding a sequence, so its links are not rewritten in place.
- Which replies acknowledge a flight implicitly (`Dtls13RtxMsgRecvd`): flushing may happen at any time in a run.
- Certificates that answer a CertificateRequest (`Dtls13RtxProcessingCertificate`, `boot/src/dtls13.c:2932-2961`) take one matching request off the list; no operation of a run does that.
- Callers that assign the send epoch, the peer epoch and the end of the handshake (`boot/src/tls13.c`) are operations of a run that may come in any order; only assigning the send epoch is limited to the handshake.
- Servers before they have verified a ClientHello: stateless mode, epoch 0 resets, DTLS 1.2 fallback and cookies.
- Replay windows and the check of record protection.
- The version check on the record a handshake header came in.
- RecordHeader.GetRecordHeader: the input is at most 65535 bytes, as a datagram is, so that the cast of its size to 16 bits loses nothing.
- The amount of input `_Dtls13HandshakeRecv` reports as processed, padding included.
- FragBuckets.Insert: the buckets are a sequence of values; the links and reallocations of `boot/src/internal.c:9386-9666` in place are not modelled, what they copy is.
- HandshakeSpec.Store: the buffered messages are a field holding a sequence, so the links of the message list are not modelled.
- QuicInput.InputQueue.ProvideData: a call on an object that is left with an overlong record is not modelled beyond QuicInput.QuicRecord.Append; at the early data level every chunk is a message of its own, so the result depends on the chunks.
- QuicOutput.Forwarder.SendInternal: the output buffer is required to hold whole record headers, as its producer leaves it.
- RxRing.Ring.RecvCb: the caller's size is not negative, as the TLS library guarantees.
- The guards that a connection is a QUIC one, and the post-handshake loop of `boot/src/quic.c`.
- ClientHelloParser.ParseClientHello: the build that accepts fragments of a ClientHello is modelled; the other one is the same with the flag off.
- NodeStack.Stack.Insert: stacks of generic pointers only; cipher stacks, hash functions and `wolfSSL_sk_push_node` are left out.
- The transmit side of `boot/dtls_io.c`, hardware registers, ARP, printing and the main loops.
- BIO pairs, OCSP, CRL and configuration files: plumbing without a property that holds of the code, or certificate stores.
