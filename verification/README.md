# Verified model of the UDT transport, RTMP chunking, AMF0, MD5 and TinyXML

This project models, in Dafny 4.11, the parts of the repository that carry data from one place to
another and must give it back unchanged, and proves that they do.  The largest part is the UDT
reliable transport (`udt/`).  Beside it stand RTMP chunking (`librtmp/rtmp.c`), the AMF0 coder
(`librtmp/amf.c`), streaming MD5 (`udt/md5.cpp`) and the TinyXML printer and parser (`tinyxml/`).
`dafny verify dfyconfig.toml` checks all of it.

## How the model is built

Every part has two layers.  A specification on values says what a call does: records of state,
functions and predicates.  Classes and methods over arrays, linked nodes and fields follow the
source statement by statement, and their postconditions equate the new state with the
specification.  The laws are then proved about the specification.

**UDT.**  Counters are unwrapped integers in the specification and 31-bit numbers in the classes;
`SeqNo.Wrap` relates them.  `SenderSpec` and `ReceiverSpec` give each step of one endpoint,
`Protocol` puts two endpoints and a network together.  The network is the set of everything ever
sent: any message may be delivered at any time, any number of times, or never, so a run covers every
way to lose, repeat and reorder.  `Protocol.Next` lists the steps: send, transmit, expiration timer,
data arrival, full and lite acknowledgement, periodic loss report, receive, and the arrival of each
control message.  `Runs.Reachable` proves the joint invariant in every state of every run, and
stream safety, conservation, stable retransmission, flow control and the sizes of the loss lists
follow from it.  Runs and what holds in all of them are in `Runs`; `Progress` proves that no state of a
run is a dead end.  `History` adds to a run the steps it took, and `SenderHistory`, `ReceiverHistory` and
`NetHistory` explain the state by them, in both directions: every counter, the window, both loss lists,
the receive buffer and every message on the network are what the steps so far make them, so that what is
due is sent and what fits is kept, not only that nothing wrong happens.

The classes are `CSndLossList`, `CRcvLossList`, `CSndBuffer`, `CRcvBuffer`, `CUnitQueue`, `CSender`,
`CReceiver`.  `CConnection` holds a sender and a receiver and shows, call by call, that each real
handler takes exactly one step of the protocol, so that what the classes demand (for instance that an
inserted gap lies above the whole loss list, or that a lite acknowledgement does not exceed what was
sent) is provided by the protocol's invariant and not assumed.  Message mode of the receive buffer is
specified in `MessageSpec` and refined by `CRcvBuffer.ReadMsg`; `Messages` puts it on top of the
two-party protocol and proves that messages arrive whole and once from end to end.

**Schedules.**  `SendSchedule` is the heap of sockets with something to send, `IdleList` the list of
sockets sorted by last activity and the sweep over it.

**RTMP.**  `RtmpSpec` defines the bytes of a message in chunks and a reader, and proves that any
sequence of messages over any mix of channels arrives.  `RtmpSender` writes chunk headers over body
bytes that were already sent, as the source does; `RtmpReader` reads one chunk per call.  Worked examples
pin the format down byte by byte, here and for the other formats.

**AMF0, MD5, XML.**  `AmfSpec`/`Amf`, `Md5Spec`/`Md5` and `XmlSpec`/`XmlPrinter`/`XmlParser` follow
the same pattern; `XmlPretty` is the printed form with indentation and line breaks.  `AmfGrammar` and
`XmlGrammar` describe everything the two readers accept, written by the library or not, and prove that they
read exactly that; `XmlReferences` does so for character references.  `XmlExact` says which values and
texts survive printing, `XmlLoop` when the parser stops.

## Where the code differs from what it is for

These are results: the code is modelled as it is, and a lemma says exactly when it meets its purpose.

- Range removal from the receiver's loss list skips the largest sequence number where the range wraps,
  and does not end where a range that does not wrap ends there (`RcvLossList.CRcvLossList.RangeExact`
  and `RcvLossList.RangeEndsExact`, if and only if).
- A receive call takes a buffer that holds a single unacknowledged packet at its front for empty, and does
  not return the message even if it is whole and may be read out of order (`Messages.ReceiveExact`, if and
  only if).
- Removing an inner node of the send heap only sifts down (`SendSchedule.CSndUList.RemoveNode`, if and
  only if; an example is `SendSchedule.InteriorRemovalBreaksOrder`).
- The RTMP sender writes a type-3 header for equal timestamps, and the reader adds the previous delta
  again (`RtmpSpec.RunStamps` and `RtmpSpec.StampsExact`, if and only if; an example is
  `RtmpSpec.StaleTimestamp`).
- An AMF property that is null or has no name is written without it, and an object without enough room
  is written incomplete and reported as a success (`AmfSpec.SurvivesExact` and `AmfSpec.RoomExact`, if
  and only if; an example is `AmfSpec.NullIsLost`).
- An XML attribute value that looks like a reference is not escaped (`XmlExact.AttrExact`, if and only
  if; an example is `XmlExact.ReferenceIsResolved`), and a text comes back only if it holds more than
  white space and its spaces are single and inner (`XmlExact.TextExact`, if and only if).
- A character reference that is not closed at once takes in whatever stands before the next `;`, and any `#`
  or `x` in that starts its digits anew (`XmlReferences.ReferenceExact`).
- The XML parser does not come back from a text that runs to the end of a document whose last
  character is no white space (`XmlLoop.LoopForever`, if and only if; an example is
  `XmlLoop.UnendedTextHangs`).

## Model

| member | source | states |
|---|---|---|
| Runs.StreamSafety | udt/core.cpp:972-1046 | In every state of every run over a network that drops, duplicates and reorders, the bytes `recv` has returned are a prefix of the bytes `send` has taken, and no honest peer ever breaks the connection |
| Runs.NothingLost | udt/core.cpp:893-970 | Whenever the send buffer is empty, the bytes returned followed by the bytes that can be read now are exactly all the bytes ever accepted |
| Runs.RetransmissionStable | udt/core.cpp:1979-2102 | Any two transmissions of one sequence number, at any two moments of a run, carry the same payload and message header |
| Runs.AckedMeansHeld | udt/core.cpp:1740-1758 | Every number the sender has freed was either handed to the reader or lies in the receive buffer under that number with the accepted payload |
| Runs.FlowControlBound | udt/core.cpp:1693-1735 | In every reachable state lastAck + window stays within the first unread number + buffer size + 1, so at most two packets in flight fall outside the receive buffer, whatever order full and lite acknowledgements arrive in |
| Runs.SenderLossesFit | udt/core.cpp:686 | All sender losses lie in [lastDataAck, curr], a stretch shorter than the doubled list allocated for them |
| Runs.ReceiverLossesFit | udt/core.cpp:687 | All receiver losses lie in [lastAck, curr], a stretch shorter than the list allocated for them |
| Runs.Reachable | udt/core.cpp:1675-1908 | The joint invariant of both ends and of everything on the network holds in every state of every run |
| Protocol.NextInv | udt/core.cpp:1675-1908 | Every one of the eleven atomic steps keeps that invariant: send, pack, expire, data, acknowledge, report, receive, lite and full acknowledgement, loss report, confirmation |
| Protocol.InitInv | udt/core.cpp:731-790 | The state after the handshake satisfies the invariant |
| Runs.NetGrows | udt/core.cpp:1979-2174 | What was accepted, returned or put on the network is never taken back later in a run |
| Protocol.PackKeepsInv | udt/core.cpp:1979-2102 | Transmitting, first or again, keeps the invariant and puts on the network only chunks that were accepted under their number |
| Protocol.FullAckKeepsInv | udt/core.cpp:1688-1810 | A full acknowledgement, possibly old or repeated, keeps the invariant: it is never beyond what was sent, and the freed part is exactly the acknowledged front |
| Protocol.LiteAckKeepsInv | udt/core.cpp:1692-1703 | A lite acknowledgement keeps the invariant although the code does not compare it with the last number sent |
| Protocol.LossKeepsInv | udt/core.cpp:1843-1908 | A loss report, possibly old or repeated, keeps the invariant and never trips the validity check |
| Protocol.DataKeepsInv | udt/core.cpp:2104-2174 | An arriving packet, possibly old, repeated or far ahead, keeps the invariant |
| Protocol.RecvKeepsInv | udt/core.cpp:972-1046 | A read of any length keeps the conservation of bytes: returned bytes plus unread ones are the acknowledged stream |
| Protocol.AckKeepsInv | udt/core.cpp:1484-1577 | Sending any acknowledgement keeps the invariant: the advertised window, never below 2, fits the reader’s position |
| Progress.NoDeadlock | udt/core.cpp:1484-1577 | From every state of every run, with at least two buffer slots and however long acknowledgements and confirmations were lost, there are steps that end with every accepted byte returned by `recv`; this uses that a full acknowledgement advertises at least 2 |
| Progress.Confirm | udt/core.cpp:1812-1841 | The last acknowledgement can still be delivered and confirmed, after which the receiver compares only numbers that are close together |
| Progress.NextConfirmable | udt/core.cpp:1484-1577 | Every step keeps the reason for that: what the receiver has acknowledged it has told the sender in full |
| Progress.OneSlotIsStuck | udt/buffer.cpp:473-485 | The partner of NoDeadlock: with one buffer slot nothing would ever be returned, because one slot always stays empty; options do not allow fewer than 32 (lines 277-284 of udt/core.cpp) |
| Progress.NextLive | udt/core.cpp:1549-1552 | Every step keeps the reason why the receiver may stop repeating a confirmed acknowledgement: the sender has seen it with an open window |
| SenderHistory.EdgeExact | udt/core.cpp:1730-1735 | In every run the right edge of the window is what the last full acknowledgement that was not outdated on arrival advertised, and the size of the receive buffer before the first; lite acknowledgements never move it |
| SenderHistory.EdgeIsAdvertised | udt/core.cpp:1730-1735 | In every state of every run lastAck + window is the initial edge or acknowledgement plus window of a full acknowledgement on the network |
| SenderHistory.CounterExact | udt/core.cpp:1692-1757 | In every run lastAck is the greatest number acknowledged so far, lastDataAck the greatest acknowledged in full, and the receiver’s confirmed number the greatest confirmed |
| SenderHistory.TransmitsExact | udt/core.cpp:1991-2041 | `packData` sends packet x if and only if x is the least lost number, or nothing is lost, x is the next number, a chunk waits for it and the packets in flight are fewer than both the flow window and the congestion window |
| SenderHistory.CongestionBound | udt/core.cpp:2030-2033 | In a run whose congestion windows never exceed w, never more than w packets are in flight |
| SenderHistory.SentExact | udt/core.cpp:2034-2040 | In every state of every run exactly the numbers from the initial one to the current one are on the network, each with its accepted chunk |
| SenderHistory.LostExact | udt/core.cpp:1855-1891 | In every run the loss list holds exactly the numbers that a report or the timer marked and that were neither sent again since nor acknowledged in full |
| SenderHistory.AllLostGoOut | udt/core.cpp:1990-2027 | As many calls of `packData` as there are losses send every one of them again, whatever the windows are |
| SenderHistory.TimeoutResendsAll | udt/core.cpp:2302-2309 | From every reachable state one expiration, followed by calls of `packData` alone, sends every packet in flight again with its accepted chunk |
| SenderHistory.PacksExist | udt/core.cpp:1979-2102 | Such calls can always follow, for any congestion windows |
| SenderHistory.SendExact | udt/core.cpp:952-964 | A send appends the chunks of the part it takes, as one message with the next message number and the caller’s order flag |
| SenderHistory.NumbersExact | udt/buffer.cpp:120-162 | In every run messages are numbered from 1 in the order they were accepted, and the send buffer never exceeds its limit |
| SenderSpec.AcceptedIsLongest | udt/core.cpp:952-957 | What a send takes is the longest front of the data whose chunks fit the send buffer: n bytes are taken if and only if their chunks fit |
| SenderSpec.NakExact | udt/core.cpp:1855-1903 | Any report adds exactly the numbers of its entries before the first invalid one, and breaks the connection if and only if there is one |
| SenderSpec.FullAckBreaks | udt/core.cpp:1721-1728 | A full acknowledgement breaks the connection if and only if it is beyond everything sent, and then changes nothing else |
| ReceiverHistory.HeldExact | udt/core.cpp:2137-2142 | In every run the receive buffer holds exactly the packets that ever arrived inside it and are not read |
| ReceiverHistory.CurrExact | udt/core.cpp:2165-2171 | The largest number received is that of a packet that arrived, and none that arrived is larger |
| ReceiverHistory.MissingExact | udt/core.cpp:2145-2171 | In every run the receiver’s loss list holds exactly the numbers that never arrived although a larger one did |
| ReceiverHistory.AckPointExact | udt/core.cpp:1488-1493 | In every run the number to acknowledge is the first packet of all that did not arrive |
| NetHistory.LastAckExact | udt/core.cpp:1512-1546 | Whole acknowledgements, and only they, move the acknowledged number, to the first packet that did not arrive |
| NetHistory.NetExact | udt/core.cpp:1484-1626 | In every run the network holds exactly what was due: packets as `packData` chooses them, full acknowledgements with the free space (at least 2) when the number is not confirmed and it is news or time, lite ones for any unconfirmed number, a report at once for every gap, and one confirmation per full acknowledgement |
| NetHistory.EveryLossReported | udt/core.cpp:2145-2157 | In every state of every run each number the receiver is missing is named by a loss report on the network |
| NetHistory.ReportsAreTrue | udt/core.cpp:1583-1626 | Every loss report on the network named only numbers that were missing when it was sent |
| SenderSpec.PackDataOk | udt/core.cpp:1979-2102 | Packing keeps the sender’s invariant, and what goes out is the chunk at offset number − lastDataAck |
| SenderSpec.OnFullAckOk | udt/core.cpp:1688-1810 | A full acknowledgement keeps the sender’s invariant for any number and any window the receiver can send |
| SenderSpec.OnNakOk | udt/core.cpp:1843-1908 | Any loss report, honest or not, keeps every loss inside [lastDataAck, curr] and changes only the losses and the broken flag |
| SenderSpec.HonestNakIsUnion | udt/core.cpp:1855-1891 | An honest report adds exactly the reported numbers not before lastAck, and never breaks the connection |
| ReceiverSpec.OnDataOk | udt/core.cpp:2137-2171 | Storing a packet keeps the coverage: from lastAck to curr every number is in exactly one of the loss list and the buffer |
| ReceiverSpec.GapIsAboveList | udt/core.cpp:2145-2148 | Every gap the receiver inserts lies above its whole loss list and within the list’s reach |
| ReceiverSpec.SendAckOk | udt/core.cpp:1484-1577 | Acknowledging keeps the receiver’s invariant: every acknowledged and unread slot is occupied |
| ReceiverSpec.ReadTakesPrefix | udt/buffer.cpp:390-425 | A read returns exactly the first len readable bytes and leaves exactly the others, across partial reads of a unit |
| Connection.CConnection.Send | udt/core.cpp:893-970 | The real send step is exactly the protocol’s step, with everything the classes require provided by the invariant |
| Connection.CConnection.SendMsg | udt/core.cpp:1048-1124 | A message goes in whole, as the protocol’s step, if and only if there is room for it, and otherwise nothing changes |
| Connection.CConnection.Pack | udt/core.cpp:1979-2102 | The packet the program builds, wrapped number and payload, is the protocol’s packet, and there is none only if the protocol sends none |
| Connection.CConnection.Expire | udt/core.cpp:2302-2309 | The expiration branch is exactly the protocol’s step |
| Connection.CConnection.DeliverLiteAck | udt/core.cpp:1692-1703 | For any lite acknowledgement on the network the real handler takes exactly the protocol’s step |
| Connection.CConnection.LiteAckFits | udt/core.cpp:1692-1703 | A lite acknowledgement on the network never exceeds what was sent, which the code does not check |
| Connection.CConnection.DeliverFullAck | udt/core.cpp:1705-1810 | For any full acknowledgement on the network the real handler takes exactly the protocol’s step and does not break |
| Connection.CConnection.DeliverReport | udt/core.cpp:1843-1908 | For any coded report on the network the real handler takes exactly the protocol’s step and does not break |
| Connection.CConnection.DeliverData | udt/core.cpp:2104-2174 | For any packet on the network the real handler takes exactly the protocol’s step, reports a gap at once in coded form, and tells whether it stored the packet; a refused unit stays free |
| Connection.CConnection.Arrive | udt/queue.cpp:948-985 | A packet is put into any free unit the pool hands out, over what that held before, without touching what the connection holds, and is then delivered; without a free unit it is dropped |
| Connection.CConnection.DeliverAckAck | udt/core.cpp:1812-1841 | For any confirmation on the network the real handler takes exactly the protocol’s step |
| Connection.CConnection.Acknowledge | udt/core.cpp:1484-1577 | The real acknowledgement is the protocol’s, in wrapped form, and nothing else enters the network |
| Connection.CConnection.Report | udt/core.cpp:1606-1626 | The words written are the code of a report that the protocol allows, the whole list unless they are full |
| Connection.CConnection.Recv | udt/core.cpp:972-1046 | The bytes the real call returns extend the delivered stream, which stays a prefix of the sent stream |
| Connection.CConnection.constructor | udt/core.cpp:667-690 | A new connection is the protocol’s initial state |
| Sender.CSender.constructor | udt/core.cpp:758-786 | The sender’s fields after the handshake |
| Sender.CSender.Send | udt/core.cpp:893-970 | `send` refines the specification: it takes what the buffer limit leaves room for and reports how much |
| Sender.CSender.SendMsg | udt/core.cpp:1048-1124 | `sendmsg`, without the waiting, takes a message whole if and only if it fits the room that is left, and otherwise nothing |
| Sender.CSender.PackData | udt/core.cpp:1979-2102 | `packData` refines the specification: the least lost number first, otherwise a new one as far as both windows reach |
| Sender.CSender.OnLiteAck | udt/core.cpp:1692-1703 | Refines the specification on wrapped numbers |
| Sender.CSender.OnFullAck | udt/core.cpp:1705-1810 | Refines the specification on wrapped numbers, buffer and loss list included |
| Sender.CSender.OnExpire | udt/core.cpp:2302-2309 | Everything in flight is reported lost |
| Sender.CSender.OnLossReport | udt/core.cpp:1855-1903 | The decoding loop refines the specification entry by entry, up to the first invalid one |
| Receiver.CReceiver.constructor | udt/core.cpp:667-690 | The receiver’s fields after the handshake |
| Receiver.CReceiver.ProcessData | udt/core.cpp:2104-2174 | `processData` refines the specification, with the immediate loss report in coded form |
| Receiver.CReceiver.FreeUnitIsNew | udt/queue.cpp:194-223 | A free unit is none of those that hold packets of this receiver |
| Receiver.CReceiver.Recv | udt/core.cpp:972-1046 | `recv`, without the waiting, refines the specification |
| Receiver.CReceiver.SendAck | udt/core.cpp:1484-1577 | The acknowledgement branch refines the specification on wrapped numbers |
| Receiver.CReceiver.ReportLosses | udt/core.cpp:1606-1626 | The periodic report names only numbers that are missing, and all of them if they fit |
| Receiver.CReceiver.OnAckAck | udt/core.cpp:1836-1838 | The confirmed number only moves forward |
| SeqNo.SeqCmpOrder | udt/common.h:206-207 | For counters less than 2^30−1 apart the wrapped comparison has the sign of the real difference |
| SeqNo.SeqCmpTotalOrder | udt/common.h:206-207 | On any set of pairwise near counters it is a total order |
| SeqNo.ThresholdExact | udt/common.h:206-207 | A distance is compared correctly everywhere if and only if it is below 2^30−1 |
| SeqNo.SeqOffExact | udt/common.h:212-221 | The wrapped offset is the real difference |
| SeqNo.SeqLenExact | udt/common.h:209-210 | The wrapped length is the real length |
| SeqNo.IncSeqExact | udt/common.h:223-224 | Increment commutes with wrapping, from −1 as well |
| SeqNo.DecSeqExact | udt/common.h:226-227 | Decrement commutes with wrapping |
| SeqNo.IncSeqByExact | udt/common.h:229-230 | Increment by an offset commutes with wrapping |
| SeqNo.WrapInjective | udt/common.h:203-235 | Near counters with equal stored forms are equal |
| SeqNo.FitsInt32Exact | udt/common.h:203-235 | No intermediate result of any of the six operations leaves 32 bits, except the length of the whole circle; both directions |
| SndLossList.CSndLossList.constructor | udt/list.cpp:43-70 | An empty list |
| SndLossList.CSndLossList.Insert | udt/list.cpp:85-255 | Union with [a..b], returning exactly how many numbers are new; the array holds a linked list of disjoint intervals at their slots and m_iLastInsertPos is −1 or a live node |
| SndLossList.CSndLossList.Remove | udt/list.cpp:257-367 | Exactly the numbers up to the argument disappear |
| SndLossList.CSndLossList.GetLostSeq | udt/list.cpp:376-418 | The minimum is removed and returned, or −1 from an empty list |
| SndLossList.CSndLossList.GetLossLength | udt/list.cpp:369-374 | The cardinality |
| RcvLossList.CRcvLossList.constructor | udt/list.cpp:422-446 | An empty list |
| RcvLossList.CRcvLossList.Insert | udt/list.cpp:456-504 | Union with [a..b] above the list, keeping the doubly linked list consistent |
| RcvLossList.CRcvLossList.Remove | udt/list.cpp:506-636 | Exactly one number is removed, by deleting, shifting, trimming or splitting a node, and the result tells whether it was there; the backward scan for the slot terminates |
| RcvLossList.CRcvLossList.RemoveRange | udt/list.cpp:638-654 | What range removal leaves, with the one number the wrapped branch passes over, for a range whose loop ends |
| RcvLossList.CRcvLossList.RangeExact | udt/list.cpp:638-654 | The loop ends and the range is removed whole if and only if the range ends below the largest number without wrapping, or wraps without a lost number that is stored as the largest |
| RcvLossList.RangeEndsExact | udt/list.cpp:640-644 | On 32-bit integers the loop over a range that does not wrap gets past its end if and only if that is not the largest number, which no 32-bit integer exceeds |
| RcvLossList.CRcvLossList.Find | udt/list.cpp:656-674 | True if and only if some number of the range is lost |
| RcvLossList.CRcvLossList.GetFirstLostSeq | udt/list.cpp:681-687 | The minimum, or −1 |
| RcvLossList.CRcvLossList.GetLossLength | udt/list.cpp:676-679 | The cardinality |
| RcvLossList.CRcvLossList.GetLossArray | udt/list.cpp:689-716 | The code of a prefix of the ordered intervals, all of them if they fit, written only below the limit |
| NakCodec.RoundTrip | udt/core.cpp:1855-1891 | Decoding a coded report gives back exactly its entries |
| NakCodec.OrderedAreNodes | udt/list.cpp:689-716 | The entries of a report are the nodes of the list |
| NakCodec.EncodeAppend | udt/list.cpp:689-716 | Entries are coded one after the other |
| NakCodec.CodeExample | udt/core.cpp:2150-2157 | A worked example of the coded form |
| SndBuffer.CSndBuffer.constructor | udt/buffer.cpp:47-92 | An empty buffer over a ring of blocks |
| SndBuffer.CSndBuffer.AddBuffer | udt/buffer.cpp:120-162 | Appends the message cut into chunks of at most the payload size, growing the ring as needed |
| SndBuffer.CSndBuffer.Increase | udt/buffer.cpp:272-329 | New blocks enter the ring after the last one and the contents stay |
| SndBuffer.CSndBuffer.ReadData | udt/buffer.cpp:204-217 | The next chunk that was never sent; the read position advances by one |
| SndBuffer.CSndBuffer.ReadAt | udt/buffer.cpp:219-253 | The chunk at an offset, for retransmission |
| SndBuffer.CSndBuffer.AckData | udt/buffer.cpp:255-265 | Exactly the first offset chunks are dropped |
| SndBuffer.CSndBuffer.GetCurrBufSize | udt/buffer.cpp:267-270 | The number of unacknowledged chunks |
| Chunks.SplitKeepsBytes | udt/buffer.cpp:120-162 | Cutting loses and reorders nothing, no chunk is empty or too long, and their number is the rounded-up quotient |
| Chunks.SplitExact | udt/buffer.cpp:129-147 | Chunk i holds bytes i·mss on, the first and only the first begins the message, the last and only the last ends it, and all carry the same number and order flag |
| Chunks.ConsumeBytes | udt/buffer.cpp:390-425 | A read takes the front of the unread bytes and leaves exactly the rest |
| Chunks.FlattenAppend | udt/buffer.cpp:120-162 | The bytes of a buffer are those of its parts in order |
| UnitQueue.CUnitQueue.constructor | udt/queue.cpp:85-125 | A pool of one entry, all units free |
| UnitQueue.CUnitQueue.Increase | udt/queue.cpp:127-186 | The count is corrected to the units really taken; an entry of free units is added exactly when nine in ten are taken |
| UnitQueue.CUnitQueue.GetNextAvailUnit | udt/queue.cpp:194-223 | A unit that is returned is free and in the pool, an old or a new one; after a null the count is exact and no unit that the search visits is free, and exactly which ones it visits |
| RcvBuffer.CRcvBuffer.constructor | udt/buffer.cpp:345-357 | An empty circle |
| RcvBuffer.CRcvBuffer.AddData | udt/buffer.cpp:373-388 | The unit is stored at its offset, or −1 and nothing changes if the slot is taken; the shared count follows |
| RcvBuffer.CRcvBuffer.AckData | udt/buffer.cpp:463-471 | The acknowledged position advances and the largest offset shrinks, not below 0 |
| RcvBuffer.CRcvBuffer.ReadBuffer | udt/buffer.cpp:390-425 | Bytes, freed units, notch and count are those of the specification |
| RcvBuffer.CRcvBuffer.DataSizeExact | udt/buffer.cpp:473-485 | The sizes computed from positions in the circle are the real ones; one slot always stays empty |
| RcvBuffer.CRcvBuffer.LookAhead | udt/buffer.cpp:558-580 | Whether the message at the front of the acknowledged part is whole |
| RcvBuffer.CRcvBuffer.SkipBad | udt/buffer.cpp:542-589 | Slots before the first whole message are freed, and the count follows |
| RcvBuffer.CRcvBuffer.FindMsg | udt/buffer.cpp:591-648 | The search in the circle finds the message the specification finds |
| RcvBuffer.CRcvBuffer.ScanMsg | udt/buffer.cpp:542-648 | `scanMsg` refines the specification |
| RcvBuffer.CRcvBuffer.ReadMsg | udt/buffer.cpp:494-533 | `readMsg` refines the specification: bytes, freed and marked units, and unit count |
| MessageSpec.MessagesWholeAndOnce | udt/buffer.cpp:494-533 | In every run every call that returns data returns exactly one whole sent message, cut to the caller’s length, and none is returned twice |
| Messages.MessagesArriveOnce | udt/core.cpp:1126-1207 | End to end, in every run of two parties over a network that loses, repeats and reorders: every receive call that returns data returns one message that was sent, whole or cut to the caller’s length, and no message is returned twice |
| Messages.AllMessagesArrive | udt/core.cpp:1126-1207 | Once the send buffer is empty and the receive buffer holds nothing, every message that was sent has been returned |
| Messages.ReceiveExact | udt/buffer.cpp:542-648 | In every run a receive call returns a message if and only if a whole one waits that is acknowledged or was sent without the order flag, except that a buffer with a single unacknowledged packet counts as empty; of several it returns the one that ends first, and frees everything up to its end if it is acknowledged |
| Messages.MaxPosExact | udt/buffer.cpp:376-378 | In every run m_iMaxPos is the distance from the acknowledged to the largest received number, not below 0 once something was acknowledged |
| Messages.EveryRun | udt/core.cpp:1126-1207 | The joint invariant of the two-party protocol and message mode holds in every state of every run |
| Messages.MoveKeepsInv | udt/core.cpp:1126-1207 | Sending a message, receiving one and every other step of the protocol keep it |
| MessageSpec.NoMessageLost | udt/buffer.cpp:542-589 | In every run every message before the first kept slot has been returned |
| MessageSpec.ReadKeepsInv | udt/buffer.cpp:494-533 | One receive call keeps the invariant, for acknowledged, unacknowledged and straddling messages |
| MessageSpec.WaitingIsFound | udt/buffer.cpp:542-648 | While a whole acknowledged message waits, a receive call returns one |
| MessageSpec.ScanExact | udt/buffer.cpp:542-648 | The search finds a message if and only if one is whole, unread, and acknowledged or free of the order flag within the largest offset, and the buffer does not count as empty; it finds the one that ends first |
| MessageSpec.GoodExact | udt/buffer.cpp:558-580 | For any contents: looking ahead succeeds if and only if every slot up to the end of the message or of the acknowledged part is there and unread |
| MessageSpec.StopsExact | udt/buffer.cpp:556-583 | For any contents: where skipping stops |
| MessageSpec.SkipExact | udt/buffer.cpp:546-589 | For any contents: exactly the slots before the first such place are freed |
| MessageSpec.MsgNextInv | udt/buffer.cpp:494-533 | Every step, sending, arrival, acknowledgement and receiving, keeps the invariant and the log of returned messages |
| MessageSpec.FindsMessage | udt/buffer.cpp:591-648 | What the search finds is exactly one message with all its packets unread |
| MessageSpec.SkipKeepsInv | udt/buffer.cpp:542-589 | Skipping never drops a message that was not returned |
| MessageSpec.SplitIsMessage | udt/buffer.cpp:129-147 | What one call of addBuffer appends has exactly one first and one last packet |
| MessageSpec.WellFormedAppend | udt/buffer.cpp:129-147 | Appended messages keep the boundary bits well formed |
| SendSchedule.CSndUList.constructor | udt/queue.cpp:226-242 | An empty heap |
| SendSchedule.CSndUList.InsertNode | udt/queue.cpp:350-392 | Exactly this node is added, every node’s heap index is its only position, and heap order is kept |
| SendSchedule.CSndUList.RemoveNode | udt/queue.cpp:394-429 | Exactly this node is removed; heap order survives if and only if the last node is not earlier than the parent of the hole |
| SendSchedule.CSndUList.Insert | udt/queue.cpp:255-280 | Grows a full array, then inserts |
| SendSchedule.CSndUList.Update | udt/queue.cpp:282-304 | The first node is rescheduled in place, any other is inserted again |
| SendSchedule.CSndUList.Pop | udt/queue.cpp:306-331 | The first node leaves, or returns with its next time; order is kept, and in an ordered heap it was the earliest |
| SendSchedule.CSndUList.GetNextProcTime | udt/queue.cpp:340-348 | In an ordered heap the minimum timestamp |
| SendSchedule.RootIsLeast | udt/queue.cpp:340-348 | The root of a heap is its minimum |
| SendSchedule.RefilledTooSmall | udt/queue.cpp:401-427 | Otherwise the moved node is earlier than its parent, which sifting down cannot repair |
| SendSchedule.InteriorRemovalBreaksOrder | udt/queue.cpp:401-427 | A heap of six nodes whose order an interior removal breaks |
| IdleList.CRcvUList.constructor | udt/queue.cpp:562-566 | An empty list |
| IdleList.CRcvUList.Insert | udt/queue.cpp:572-593 | Appends the node with the present time; links stay exact and times sorted |
| IdleList.CRcvUList.Remove | udt/queue.cpp:595-626 | Exactly this node leaves, and the order of the others stays |
| IdleList.CRcvUList.Update | udt/queue.cpp:628-656 | The node moves to the end with the present time |
| IdleList.CRcvUList.Sweep | udt/queue.cpp:1001-1023 | The loop ends after exactly the nodes older than the cutoff; the served ones stand at the end in their order, the others are gone |
| RtmpSpec.RunDelivered | librtmp/rtmp.c:2857-3021 | For every sequence of messages over any mix of channels 2..65599, types LARGE or MEDIUM or such that the channel has been described, and equal chunk sizes, repeated reads return the same channels, types, sizes and bodies in order and consume exactly what was written |
| RtmpSpec.RunStamps | librtmp/rtmp.c:2996-3007 | All timestamps of a run arrive, modulo 2^32, if and only if every message meets its stamp condition: for messages given as LARGE or MEDIUM, that none that starts with a type-3 header repeats a timestamp field other than 0 |
| RtmpSpec.StampsExact | librtmp/rtmp.c:3189-3201 | For messages given as LARGE or MEDIUM the stamp conditions of a run hold if and only if no message that the sender gives a type-3 header follows a timestamp field other than 0 on its channel |
| RtmpSpec.Delivered | librtmp/rtmp.c:2857-3021 | One message written in chunks is read back whole, whatever packet is passed in and whatever follows, and both sides remember the same |
| RtmpSpec.StampExact | librtmp/rtmp.c:3197-3199 | When the reader’s timestamp of one message is the sender’s: both directions |
| RtmpSpec.StaleTimestamp | librtmp/rtmp.c:3004-3005 | Two equal messages in a row whose second timestamp is read too late |
| RtmpSpec.InitialSync | librtmp/rtmp.c:2857-3021 | Empty tables on both sides agree |
| RtmpSpec.ParseHeaderWritten | librtmp/rtmp.c:2866-2956 | A written header of any type and channel is parsed to the fields it was written from |
| RtmpSpec.TailReads | librtmp/rtmp.c:2960-3020 | The chunks after the first are read to the end of the message |
| RtmpSpec.LargeStartsAfresh | librtmp/rtmp.c:2866-2956 | A message with a large header is read whole from any state of the reader, in the middle of whatever it was, and leaves the other channels as they are |
| RtmpSpec.OthersStay | librtmp/rtmp.c:2857-3021 | Reading a chunk touches only the tables of the channel it names |
| RtmpSpec.ChannelForm | librtmp/rtmp.c:3242-3261 | The basic header as the standard defines it: its length, type, and channel in one, two or three bytes |
| RtmpSpec.LargeExample | librtmp/rtmp.c:3242-3278 | A worked example of a large header and a second chunk, byte by byte |
| RtmpSpec.ShortExamples | librtmp/rtmp.c:3189-3201 | Worked examples of the three shorter headers |
| RtmpSpec.ExtendedExample | librtmp/rtmp.c:3242-3278 | A worked example of a large channel number, an extended timestamp and a negative stream number |
| RtmpSender.CRtmp.SendPacket | librtmp/rtmp.c:3176-3341 | Header compression, in-place headers and channel table: exactly the specified bytes go out although headers overwrite the body buffer |
| RtmpSender.CRtmp.SendChunks | librtmp/rtmp.c:3280-3341 | The loop writes every body byte once, in order, before a header overwrites its place |
| RtmpSender.CRtmp.SendChunk | librtmp/rtmp.c:3303-3340 | One round: what is pending afterwards is what the specification still has to write |
| RtmpSender.CRtmp.CompressHeader | librtmp/rtmp.c:3189-3201 | The header type chosen, and the base of the timestamp delta |
| RtmpSender.CRtmp.PutHeader | librtmp/rtmp.c:3210-3278 | The header ends right before the body, which it leaves alone |
| RtmpReader.CRtmp.ReadPacket | librtmp/rtmp.c:2857-3021 | One chunk is read as specified: input, packet and both channel tables |
| RtmpReader.CRtmp.ReadHeader | librtmp/rtmp.c:2866-2956 | Header parsing with the fields inherited from the channel |
| RtmpInts.UnLe32Le32 | librtmp/rtmp.c:2834-2854 | The little-endian 32-bit code round trips for every signed value |
| RtmpInts.Un24Be24 | librtmp/amf.c:48-55 | The 24-bit code round trips |
| RtmpInts.Un32Be32 | librtmp/amf.c:57-64 | The 32-bit code round trips |
| RtmpInts.Un16Be16 | librtmp/amf.c:39-46 | The 16-bit code round trips |
| RtmpInts.BigEndian | librtmp/amf.c:136-170 | The 16-, 24- and 32-bit codes are the positional digits to base 256, the most significant first |
| RtmpInts.LittleEndian | librtmp/rtmp.c:2843-2854 | The little-endian code has the most significant digit last, and two’s complement for negative numbers |
| AmfSpec.RoundTrip | librtmp/amf.c:1062-1106 | Every nested value with enough room is decoded to an equal tree, consuming exactly the encoded length, whatever follows |
| AmfSpec.PropRoundTrip | librtmp/amf.c:597-781 | The same for a named property |
| AmfSpec.RoomExact | librtmp/amf.c:862-893 | A value is written whole if and only if it has the room computed by Room |
| AmfSpec.TooLittleRoom | librtmp/amf.c:862-893 | With less room, when the encoder still reports success, the decoder returns an incomplete tree |
| AmfSpec.ValueReads | librtmp/amf.c:597-781 | For any room, what was encoded decodes to the value without the properties that found no room |
| AmfSpec.PropsRead | librtmp/amf.c:1062-1106 | The same for the properties of an object up to its end mark |
| AmfSpec.NullIsLost | librtmp/amf.c:367 | An example: a null property goes out without its name and takes the rest of its object with it |
| AmfSpec.SurvivesExact | librtmp/amf.c:358-405 | For every value, any room and anything following, the decoder returns the value and consumes exactly its bytes if and only if it has its room and no property at any depth is null, without a name, or with one of 65536 bytes or more |
| AmfSpec.ReadSize | librtmp/amf.c:597-781 | What the decoder returns has taken at least its size, unless the input ends with it |
| AmfSpec.WrittenSize | librtmp/amf.c:358-405 | What is written is as long as the value only if every property is named and not null |
| AmfGrammar.DecodeExact | librtmp/amf.c:597-781 | For all bytes: the decoder returns v and consumes n bytes if and only if those n bytes are one of the forms of v: short and long strings, any byte for a flag, three codes for null, and objects ended by the mark, by the end of the input, or by bytes that are no property before the first mark |
| AmfGrammar.Accepted | librtmp/amf.c:597-781 | Every form of every value is decoded to it, consuming exactly the form |
| AmfGrammar.Found | librtmp/amf.c:597-781 | Whatever is decoded was written in one of these forms |
| AmfSpec.StringForm | librtmp/amf.c:172-195 | A string is written short, with two bytes of length, if and only if they suffice |
| AmfSpec.FormatExamples | librtmp/amf.c:197-269 | Worked examples of numbers, booleans, strings and null |
| AmfSpec.ObjectExample | librtmp/amf.c:862-893 | A worked example of an object |
| AmfSpec.UnnamedExample | librtmp/amf.c:367-381 | A worked example: a property without a name needs the room of one with a name |
| Amf.PropEncode | librtmp/amf.c:358-405 | The encoder writes exactly the specified bytes at its output pointer, nothing beyond the end, and null when there is no room |
| Amf.ObjectEncode | librtmp/amf.c:862-893 | The loop over the properties refines the specification |
| Amf.EncodeStringAt | librtmp/amf.c:172-195 | Short and long strings, with the room test of the code |
| Amf.EncodeNumber | librtmp/amf.c:197-256 | Eight bytes in reverse order after the type |
| Amf.EncodeBoolean | librtmp/amf.c:258-269 | Two bytes |
| Amf.PropDecode | librtmp/amf.c:597-781 | The decoder refines the specification, error results included |
| Amf.ObjectDecode | librtmp/amf.c:1062-1106 | The loop refines the specification, with the search for the end mark after an error |
| Buffers.EncodeInt16 | librtmp/amf.c:136-145 | Two bytes at the pointer, or null and nothing written |
| Buffers.EncodeInt24 | librtmp/amf.c:147-157 | Three bytes at the pointer, or null and nothing written |
| Buffers.EncodeInt32 | librtmp/amf.c:159-170 | Four bytes at the pointer, or null and nothing written |
| Md5.CMd5State.Append | udt/md5.cpp:323-358 | However a message is cut into appends, the state stands for the bytes appended so far: bit count, partial block and fold over the whole blocks |
| Md5.CMd5State.Finish | udt/md5.cpp:361-381 | The digest is the fold over the padded message, independent of how it was cut |
| Md5.CMd5State.constructor | udt/md5.cpp:313-320 | The initial state |
| Md5.Compute | udt/common.cpp:674-681 | The digest of the input |
| Md5Spec.PaddedLength | udt/md5.cpp:361-381 | The padded message is a whole number of blocks |
| Md5Spec.PaddedExact | udt/md5.cpp:361-378 | Every byte of the padded message: the message, 0x80, zeros, and the length in bits modulo 2^64, least significant byte first |
| Md5Spec.OutputExample | udt/md5.cpp:313-320 | The digest of the initial words is the byte sequence the standard lists |
| Md5Spec.PaddingIsLeast | udt/md5.cpp:376 | No shorter padding reaches 56 modulo 64 |
| Md5Spec.PaddedInjective | udt/md5.cpp:361-381 | Different messages have different padded forms, while their bit length fits 64 bits |
| Md5Spec.FoldAppend | udt/md5.cpp:323-358 | The fold over a concatenation continues the fold over its first part |
| XmlSpec.RoundTrip | tinyxml/tinyxmlparser.cpp:1043-1176 | Parsing the compact printed form of any printable element tree gives back the same tree and consumes all of it |
| XmlSpec.ElementReads | tinyxml/tinyxmlparser.cpp:1043-1176 | The same with anything following |
| XmlGrammar.ParseExact | tinyxml/tinyxmlparser.cpp:1043-1247 | For every document: the parser returns the element n and stops before rest if and only if the document is n, written in any way of the grammar, followed by rest. The grammar has free white space, distinct attributes with either quote or none, characters as themselves, named or by number, a dropped unknown ampersand, and end tags that match |
| XmlGrammar.TagAccepted | tinyxml/tinyxmlparser.cpp:1043-1247 | Every way of writing an element is read as it |
| XmlGrammar.TagFound | tinyxml/tinyxmlparser.cpp:1043-1247 | Whatever is read as an element was written in such a way |
| XmlGrammar.UnclosedRead | tinyxml/tinyxmlparser.cpp:582-595 | A value that is not closed runs to the end of the document |
| XmlPretty.PrettyRoundTrip | tinyxml/tinyxml.cpp:1719-1807 | Parsing any printable tree, printed with any indentation and line breaks made of white space, gives back the same tree |
| XmlPretty.PrettyIsPrint | tinyxml/tinyxml.cpp:1719-1807 | Without indentation and line breaks that is the compact form |
| XmlReferences.ReferenceExact | tinyxml/tinyxmlparser.cpp:445-512 | For any characters between "&#" or "&#x" and the first ";": the digits after the last "#" or "x" are read, to the low byte of their value, or nothing is read if one of them is no digit |
| XmlReferences.DecimalReads | tinyxml/tinyxmlparser.cpp:478-500 | Every number written in decimal is read back, to its low byte |
| XmlReferences.HexadecimalReads | tinyxml/tinyxmlparser.cpp:451-477 | Every number written in hexadecimal, in upper or lower case, is read back, to its low byte |
| XmlReferences.BadDigitFails | tinyxml/tinyxmlparser.cpp:464-499 | A reference with a character that is no digit of its base is refused |
| XmlReferences.UnclosedFails | tinyxml/tinyxmlparser.cpp:456-486 | A reference without a ";" is refused |
| XmlReferences.EntityNames | tinyxml/tinyxmlparser.cpp:43-50 | The five named entities, written out |
| XmlReferences.CharacterClasses | tinyxml/tinyxmlparser.cpp:129-168 | White space and name characters, character by character |
| XmlReferences.ControlForm | tinyxml/tinyxml.cpp:108-123 | A control character is printed as a reference with two upper-case hexadecimal digits |
| XmlReferences.PrintExample | tinyxml/tinyxml.cpp:1719-1807 | A worked example of the compact printed form |
| XmlSpec.ChildrenRead | tinyxml/tinyxmlparser.cpp:1179-1247 | Printed children followed by an end tag are read back, stopping at the tag |
| XmlSpec.AttrsRead | tinyxml/tinyxmlparser.cpp:1083-1174 | Reading printed attributes with distinct names amounts to having them |
| XmlSpec.AttrReads | tinyxml/tinyxmlparser.cpp:1390-1461 | A printed attribute is read back, with either quote |
| XmlSpec.KeepReads | tinyxml/tinyxmlparser.cpp:574-637 | A printed value is read back up to its quote, whatever characters it has |
| XmlSpec.CondenseReads | tinyxml/tinyxmlparser.cpp:574-637 | A printed text is read with its runs of spaces condensed |
| XmlExact.TextExact | tinyxml/tinyxmlparser.cpp:1179-1247 | A text between tags comes back as a node if and only if it holds more than white space, nothing that looks like a reference, no space at either end and never two in a row |
| XmlExact.CondenseShortens | tinyxml/tinyxmlparser.cpp:574-637 | A text is never read longer than it was, and shorter if it holds something like a reference |
| XmlSpec.CharReads | tinyxml/tinyxmlparser.cpp:438-531 | Every character, printed as itself, an entity or a hexadecimal reference, is read back as itself |
| XmlExact.ReferenceIsResolved | tinyxml/tinyxml.cpp:60-82 | An example: a value that looks like a reference goes out unchanged and comes back resolved |
| XmlExact.AttrExact | tinyxml/tinyxmlparser.cpp:1390-1461 | A printed attribute with a valid name is read back if and only if nothing in its value looks like a reference |
| XmlExact.KeepExact | tinyxml/tinyxmlparser.cpp:574-637 | The same for a value up to its quote, whichever quote it is |
| XmlExact.KeepShortens | tinyxml/tinyxmlparser.cpp:574-637 | A value is never read longer than it was, and shorter if it holds something like a reference |
| XmlExact.ReferenceStep | tinyxml/tinyxmlparser.cpp:438-531 | What looks like a reference is read as one character at most in place of three or more, or swallows what follows the value, or nothing is read |
| XmlPrinter.EncodeString | tinyxml/tinyxml.cpp:52-133 | The loop with its inner pass-through loop computes the specified text |
| XmlPrinter.PrintAttribute | tinyxml/tinyxml.cpp:1165-1188 | The attribute as specified, with the quote its value allows |
| XmlPrinter.CPrinter.Accept | tinyxml/tinyxml.cpp:831-842 | Visiting a tree appends exactly its printed form, for any indentation and line break, and restores the depth |
| XmlPrinter.CPrinter.SetStreamPrinting | tinyxml/tinyxml.h:1764-1766 | From then on indentation and line breaks are empty |
| XmlPrinter.CPrinter.VisitEnter | tinyxml/tinyxml.cpp:1719-1753 | Indentation, the start tag with its attributes, and a line break unless one text follows |
| XmlPrinter.CPrinter.VisitExit | tinyxml/tinyxml.cpp:1756-1779 | Indentation, the end tag and a line break, unless the element is empty; after a single text without indentation |
| XmlPrinter.CPrinter.VisitText | tinyxml/tinyxml.cpp:1782-1807 | The encoded text, on a line of its own unless it is the only child |
| XmlParser.CElement.Parse | tinyxml/tinyxmlparser.cpp:1043-1176 | The parser advances its cursor and fills the element as specified, returns null, or reports that the source would not come back |
| XmlParser.CElement.ReadContent | tinyxml/tinyxmlparser.cpp:1179-1247 | The loop over texts and child elements refines the specification, loops that never end included |
| XmlParser.CAttribute.Parse | tinyxml/tinyxmlparser.cpp:1390-1461 | Name, equals sign and value as specified, quoted or bare |
| XmlParser.CText.Parse | tinyxml/tinyxmlparser.cpp:1533-1542 | The text as specified, with the cursor put back one character, onto the next tag if there is one |
| XmlParser.CText.IsBlank | tinyxml/tinyxmlparser.cpp:1628-1634 | True exactly if every character is white space |
| XmlLoop.LoopForever | tinyxml/tinyxmlparser.cpp:1185-1240 | The rounds of ReadValue never end, in this element or in a child, if and only if a text runs to the end of a document whose last character is no white space |
| XmlLoop.RoundMoves | tinyxml/tinyxmlparser.cpp:1539-1541 | A round that reads a text moves the cursor if and only if the text is not the last character of the document |
| XmlLoop.BackToTag | tinyxml/tinyxmlparser.cpp:1539-1541 | A text that is ended steps back to the tag that ended it |
| XmlLoop.UnendedTextHangs | tinyxml/tinyxmlparser.cpp:1185-1240 | A document on which the parser does not come back |
| XmlParser.StringEqual | tinyxml/tinyxmlparser.cpp:534-570 | Whether the document goes on with the tag |
| XmlParser.ReadKept | tinyxml/tinyxmlparser.cpp:582-595 | Text with its white space kept |
| XmlParser.ReadCondensed | tinyxml/tinyxmlparser.cpp:596-637 | Text with white space condensed |
| XmlParser.GetEntityAt | tinyxml/tinyxmlparser.cpp:438-531 | Named entities and references as specified, null for a malformed reference |
| XmlParser.ReadDigits | tinyxml/tinyxmlparser.cpp:453-500 | The backward digit loop in 32 and 64 bits yields the number’s low byte, although it may overflow |
| XmlParser.ReadNameAt | tinyxml/tinyxmlparser.cpp:401-436 | The longest name at the cursor |
| XmlParser.SkipWhiteSpace | tinyxml/tinyxmlparser.cpp:314-361 | The first character that is no white space |

## Left out

- Data in both directions at once: the protocol model sends one way; the other way is a second copy that shares no state but the control packets' carrier.
- Distance of numbers: a message is delivered, and an acknowledgement computed, only while the numbers that are compared are less than 2^30−1 apart, as 31-bit numbers require; `SeqNo.ThresholdExact` shows that the bound is exact.
- Connection.CConnection.Acknowledge: needs the last confirmed number to be that close to the next expected one; `Progress.Confirm` shows that this can always be reached again.
- Receiver.CReceiver.SendAck: the same.
- Connection.CConnection.constructor: the flight window must not be smaller than the receive buffer, which setting the options in the other order allows.
- Receiver.CReceiver.constructor: the same.
- Sender.CSender.OnLiteAck: for acknowledgements up to the next number to send, which is all that can be on the network (`Connection.CConnection.LiteAckFits`); the code takes any.
- Sender.CSender.OnFullAck: for advertised windows up to the receive buffer's size, which is all that can be on the network.
- Sender.CSender.OnLossReport: for well-formed reports; a report that ends in the first half of a pair makes the code read past its end.
- The table from acknowledgement numbers to acknowledged positions (`ACKWindow`): a confirmation names the position it confirms.
- Acknowledging a full acknowledgement only after a silent interval: the model sends every confirmation, and any of them may be lost.
- Time, round-trip estimates, congestion control and rate control: the congestion window, the choice of lite or full acknowledgement and the silence of timers are arbitrary inputs of a step.
- Threads, locks, blocking and signalling: each locked function is one atomic step, and `send`, `sendmsg`, `recv` and `recvmsg` are modelled without waiting.
- Handshake, keep-alive, shutdown, rendezvous, socket tables and garbage collection.
- Message expiry (TTL), the message-drop request and `dropMsg`.
- SndBuffer.CSndBuffer.ReadAt: without the branch for expired messages.
- File transfer (`sendfile`, `recvfile` and the buffer functions under them).
- Physical memory: payloads are sequences of bytes held by their block or unit; moving them and the pointers into shared memory is not modelled.
- The 29 bits of a message number: message numbers count without limit and are never compared.
- SndLossList.CSndLossList.Insert: the list and the new numbers must fit one stretch of the array's size, which `Runs.SenderLossesFit` provides; the sender's range check guarantees nothing else.
- RcvLossList.CRcvLossList.Remove: for numbers within one stretch of the array's size with the list.
- RcvLossList.CRcvLossList.Find: the same for ranges.
- RcvLossList.CRcvLossList.RemoveRange: the same, and for ranges on which the loop ends (`RcvLossList.RangeEndsExact`).
- UnitQueue.CUnitQueue.Increase: allocation always succeeds, and shrinking, which does nothing in the source, is not modelled.
- RcvBuffer.CRcvBuffer.ReadMsg: a message that fills the whole circle up to the acknowledged position is reported as found without a head; the model returns nothing for it.
- Messages.MessagesArriveOnce: in message mode the two endpoints are joined as specifications; of the classes, the receive buffer and sending are, `CReceiver` is for stream mode.
- SendSchedule.CSndUList.Update: inserting again needs a free cell, as in the source, which does not grow the array here.
- IdleList.CRcvUList.Sweep: the clock must have run for at least the interval; otherwise the unsigned subtraction wraps and every socket counts as idle.
- RtmpSender.CRtmp.SendPacket: without failures of writing to the socket, the path that collects chunks in one buffer for HTTP and the queue of pending invocations.
- RtmpReader.CRtmp.ReadPacket: without copying of raw chunks for the caller; the body buffer is a value, and its sharing between the packet and the channel table is not modelled.
- Everything in RTMP above packets.
- AMF numbers are eight opaque bytes; their meaning as floating point is not modelled.
- Amf.PropDecode: arrays, dates, references and AMF3 are errors.
- AmfSpec.RoundTrip: for well-formed values; `AmfSpec.SurvivesExact` shows that no others survive when something follows them.  Of values at the very end of the input only this direction is stated.
- Md5.Compute: for inputs below 2^28 bytes, whose length in bits fits the int it is given as.
- The MD5 compression function: it is a parameter, and all results hold for any function.
- XML comments, CDATA, declarations, unknown nodes, error codes, row and column, UTF-8 and its byte order marks, and stream input; a document is what precedes its first NUL, in an encoding of one byte per character.
- XmlPrinter.CPrinter.VisitText: without CDATA.
- XmlParser.CElement.ReadContent: returns null at nodes of other kinds, and a mark of its own where the source does not come back (`XmlLoop.LoopForever`).
- XmlParser.CElement.Parse: the same.
- XmlParser.StringEqual: without the branch that ignores case, which is not used.
- XmlParser.GetEntityAt: without the conversion of references to UTF-8.
- XmlParser.SkipWhiteSpace: without byte order marks.
- XmlSpec.RoundTrip: for trees whose names are names, whose attributes are distinct, and whose values and texts survive; that values and texts must be of this kind is shown one by one (`XmlExact.AttrExact`, `XmlExact.TextExact`), not for whole trees.
- Caches, hash tables, RTMP and UDT handshakes, cryptography, SOCKS, HTTP and the wrappers around sockets.
