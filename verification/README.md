# Verification of the Kinetic C++ client

A Dafny model of the transport, the paging iterator and the peer-to-peer translation of the client
library, with proofs. `dafny verify dfyconfig.toml` checks all of it.

## What is modelled

**The request pipeline.** A request that is submitted gets a key and a sequence number, waits in the sender's
queue, is written to the socket, and then waits in the receiver's two tables until its response comes. It can
leave at every stage: by a response, by an error that ends everything, by a removal, or when the connection is
shut down. `Pipeline.dfy` says this once as a state machine whose events may come in any order that the state
allows. `PipelineInvariants.dfy`, `Conservation.dfy`, `Correlation.dfy` and `Origins.dfy` prove what holds over every run of it.
The classes `Client`, `Receiver`, `Sender` and `Service` have the fields and the loops of the C++ classes; each
keeps a ghost run of the machine, and `Valid` says that its fields are the state which that run leads to. So
whatever is proved about all runs holds after any sequence of calls, with any partial input and output between.
`RunOperation.dfy` drives the service until one operation is over, and `Connection.dfy` puts the parts together.
`Progress.dfy` says what has to arrive for a request to be answered. Most contracts say that nothing wrong happens;
those of `Send`, `Run` and `RunOperation` also say that the right thing does, if the socket allows it.

**Framing.** `Framing.dfy` has the wire format as a function, a reference decoder, and the laws between the two.
`NonblockingString.dfy` and `NonblockingPacket.dfy` are the resumable state machines that write and read it;
`ReaderWriter.dfy`, `ByteStream.dfy` and `MessageStream.dfy` are the blocking implementation. Both are proved
against the same functions. `Socket.dfy` is the operating system's side: each direction has a finite script of
what the next calls do (transfer at most so many octets, end of stream, interrupted, would block, failed), and
everything is proved for all scripts. `Wire.dfy` says what each end can tell from the octets alone.

**Key ranges.** `KeyStore.dfy` has keys, the plain range filter, and what it means to miss a key;
`KeyRangeIterator.dfy` has the paging iterator, and `KeyRangeRun.dfy` whole iterations, over a store that stays as
it is and over one that changes between any two steps.

**Peer-to-peer pushes.** `P2P.dfy` translates trees of operations into messages, and says what either of them
asks the drives to do.

## Assumptions

- Handlers do not call back into the client library. `CallAllErrorHandlers` goes through a table while it calls
  them, so the library needs this too. It makes the branch for `handler_` at the start of that function dead.
- `NonblockingSender::Send` and `NonblockingReceiver::Receive` are not called again on an object that has reported
  a fatal error (`dead`), or once the service has failed. The service never does, which is proved: its `failed_` flag
  is sticky.
- Each handler is submitted once, which the ownership of `unique_ptr` gives in C++.
- Protobuf encoding is a function that may fail, and decoding undoes it (`Messages.CodecRoundTrips`). Only the lemmas
  about parsed messages use that. The keyed digest is any function of a key and an octet string.
- `ByteSize()` of a message is the length of its serialisation, wherever there is one (`MessageStreams.Sized`). The
  blocking writer puts it into the header before it serialises.
- Sequence numbers, keys and sizes are unbounded integers, and only the sizes in a header are cut to 32 bits. The
  handshake's number and key are -1, which for the unsigned key is its largest value.

## Results that are not as one might expect

- The destructor of the sender forgets the request that is being written: `Conservation.InFlightIsForgotten`
  gives a run, from the handshake on. `Conservation.ShutdownIsCompleteIff` says that this is the only exception, and
  `Services.Service.Destroy` promises it.
- `Remove` does not reach the request that is being written: by the contract of `Services.Service.Remove` it returns
  false, because the key is neither queued nor waiting. So `RunOperation` can return an error and have the callback
  called later; `Conservation.InFlightIsCalledLater` gives a run, and `Services.Service.Run` promises the call if
  the next call for the socket fails. It can happen if and only if the request is being written and the service has not
  failed: `RunOperations.BlockingConnection.LateCallIff`, `Conservation.MayStillBeCalledIff`. After a failure that
  handler is never called at all: `Conservation.FailedStaysSilent`.
- A frame can be read back if and only if both lengths are below 2^32, because the header keeps the low 32 bits:
  `Framing.FrameRoundTripIff`.
- An iterator with frames of no keys ends at once, whatever is in the store; `KeyRangeRuns.Collect` yields the
  range filter for every other frame size.
- A push request survives the translation unchanged if and only if no operation in it spells out its own key as the
  new one: `P2P.RoundTripIff`. Its meaning always survives: `P2P.MeaningPreserved`.

## Model

| member | source | states |
|---|---|---|
| Bytes.FromToBigEndian | src/main/nonblocking_packet.cc:108-120 | a length below 2^32 survives `htonl` and then `ntohl` |
| Bytes.ToFromBigEndian | src/main/nonblocking_packet.cc:211-227 | any four octets survive `ntohl` and then `htonl`, so no two spellings mean one length |
| Bytes.BigEndianOrder | src/main/nonblocking_packet.cc:108-120 | network byte order: of two lengths the smaller one has the octets that come first in lexicographic order |
| Bytes.BigEndianDigits | src/main/message_stream.cc:175-183 | the four octets are the digits of the length to the base 256, the most significant one first |
| Bytes.LessIff | src/main/key_range_iterator.cc:155-166 | lexicographic order: one string comes before another where they first differ, or if it is a proper first part of it |
| Framing.DecodeFrame | src/main/nonblocking_packet.cc:102-142 | a packet whose lengths fit is decoded from its frame unchanged, and exactly what followed the frame is left |
| Framing.FrameLayout | src/main/nonblocking_packet.cc:102-142 | a frame octet by octet: `F`, the two lengths modulo 2^32 with the most significant octet first, the message, the value |
| Framing.DecodeSound | src/main/nonblocking_packet.cc:193-233 | whatever decodes was the frame of the packet it decodes to |
| Framing.FrameRoundTripIff | src/main/nonblocking_packet.cc:102-123 | writing and reading back is the identity if and only if both lengths are below 2^32 |
| Framing.NeedMoreIffProperPrefix | src/main/nonblocking_packet.cc:156-191 | a reader waits for more exactly while what it has is a proper prefix of some frame |
| Framing.DecodeAllAfter | src/main/nonblocking_packet.cc:156-191 | packets written one after the other are the first ones to be decoded, whatever follows them |
| Framing.PipelinedRoundTrip | src/main/nonblocking_packet.cc:57-233 | a reader that has taken whole frames and a proper prefix off the octets of written packets has the first of those packets, in order; and all of them once it has taken all octets |
| NonblockingString.StringReader.Read | src/main/nonblocking_string.cc:41-70 | over any script, takes off the socket exactly the octets it appends to its buffer, never more than its size; done exactly with all of them, waiting only for a blocked read, failed only for a failed one |
| NonblockingString.StringWriter.Write | src/main/nonblocking_string.cc:75-125 | the same for writing: the socket has accepted exactly the next octets of the string |
| NonblockingPacket.PacketWriter.constructor | src/main/nonblocking_packet.cc:33-36 | a new writer has written nothing |
| NonblockingPacket.PacketWriter.Write | src/main/nonblocking_packet.cc:44-100 | resumed any number of times it appends the next octets of the frame; done means the whole frame, and failed exactly that a call failed or the message cannot be serialised |
| NonblockingPacket.PacketWriter.WrittenIsPrefix | src/main/nonblocking_packet.cc:44-142 | in every state what has been written is a prefix of the frame |
| NonblockingPacket.PacketWriter.FinishedIsFrame | src/main/nonblocking_packet.cc:82-95 | in the final state it is the whole frame, so that another call adds nothing |
| NonblockingPacket.PacketReader.constructor | src/main/nonblocking_packet.cc:144-148 | a new reader has consumed nothing |
| NonblockingPacket.PacketReader.Read | src/main/nonblocking_packet.cc:156-191 | resumed any number of times it consumes exactly the octets it takes; done means one whole frame with its message parsed, in progress a proper prefix, failed a failed read or octets that are no packet |
| NonblockingPacket.PacketReader.UnfinishedNeedsMore | src/main/nonblocking_packet.cc:156-227 | in every state before the end, what has been consumed is no whole frame and no other octets than the beginning of one |
| NonblockingPacket.PacketReader.FinishedIsFrame | src/main/nonblocking_packet.cc:184-233 | in the final state it is the frame of the message and value read, and nothing beyond it |
| Hmac.MacInputInjective | src/main/hmac_provider.cc:39-45 | different commands are authenticated by different octets |
| Hmac.ComputeHmac | src/main/hmac_provider.cc:33-53 | the digest of nothing for an empty command, and else of its length modulo 2^32 in four octets of network order followed by the command |
| Hmac.DigestIff | src/main/hmac_provider.cc:39-45 | no other digest is the right one |
| Hmac.ValidateHmac | src/main/hmac_provider.cc:55-74 | true if and only if the message carries a digest and it equals the right one, with the loop that never stops early; the right one is again spelled out |
| PipelineInvariants.TablesStayInverse | src/main/nonblocking_packet_receiver.cc:127-147 | in every reachable state the two tables are mutually inverse, from the handshake entry on; the `CHECK`s rely on it |
| PipelineInvariants.RunsAreDisciplined | src/main/nonblocking_packet_sender.cc:43-65 | in every run the sequence numbers on the wire, in flight and queued strictly increase in that order and are below the counter; each request is sealed with its own number and digest; each entry that waits is the handshake's or that of a request on the wire |
| PipelineInvariants.PlacesAreOrdered | src/main/nonblocking_packet_sender.cc:77-126 | what waits comes before what is in flight, which comes before what is queued |
| PipelineInvariants.RunsAreNumbered | src/main/nonblocking_packet_service.cc:39-51 | under the service a key is the sequence number of its request and the index of its submission, and until it fails both counters agree |
| PipelineInvariants.RejectionUnreachable | src/main/nonblocking_packet_sender.cc:118-123 | under the service the receiver never turns a handler down, so "Could not enqueue handler" is unreachable |
| PipelineInvariants.KeyIsInOnePlace | src/main/nonblocking_packet_service.cc:89-91 | a key is queued once, or in flight, or waiting, and never two of these |
| PipelineInvariants.KeysFindHandlers | src/main/nonblocking_packet_receiver.cc:252-272 | a key leads to the handler of the submission that it numbers |
| Conservation.HandlersAreConserved | src/main/nonblocking_packet_sender.cc:43-136 | in every run, for each handler, the times it is queued, in flight, waiting, removed and called add up to the times it was submitted (and one more for the handshake's) |
| Conservation.CalledAtMostOnce | src/main/nonblocking_packet_receiver.cc:206-222 | in every run no handler is called twice |
| Conservation.BookOnlyGrows | src/main/nonblocking_packet_service.cc:39-91 | calls and removals are never taken back or reordered |
| Conservation.RemovedStaysSilent | src/main/nonblocking_packet_service.cc:89-91 | a handler that was removed is never called, in any continuation of the run |
| Conservation.DrainedMeansSettled | src/main/nonblocking_packet_sender.cc:67-75 | once nothing is queued or waits, each handler has been either called or removed, not both; only the one in flight has been neither |
| Conservation.InFlightIsForgotten | src/main/nonblocking_packet_sender.cc:67-75 | a run from the handshake on, after which nothing is queued or waits and the connection is closed, and a handler has been neither called nor removed |
| Conservation.ShutdownIsCompleteIff | src/main/nonblocking_packet_sender.cc:67-75 | shutting down settles every handler if and only if no request is being written |
| Conservation.InFlightIsCalledLater | src/main/nonblocking_packet_service.cc:89-91 | a run from the handshake on in which a key is neither queued nor waiting, so that it cannot be removed, and then its handler is called because the write fails |
| Conservation.WithdrawnStaysSilent | src/main/nonblocking_packet_service.cc:89-91 | a handler whose request is neither queued, waiting nor being written, and that was not called, is not called in any continuation |
| Conservation.FailedKeepsInFlight | src/main/nonblocking_packet_service.cc:53-56 | once the service has failed it stays so, and the request that was being written stays where it is |
| Conservation.FailedStaysSilent | src/main/nonblocking_packet_sender.cc:67-75 | once the service has failed, the handler of the request that was being written is not called in any continuation, not even by the shutdown |
| Conservation.MayStillBeCalledIff | src/main/nonblocking_packet_service.cc:89-91 | a handler whose request is neither queued nor waiting can be called by the next event if and only if its request is being written and the service has not failed |
| Conservation.MayEverBeCalledIff | src/main/nonblocking_packet_service.cc:89-91 | the same for any number of further events |
| Conservation.CalledMeansGone | src/main/nonblocking_packet_receiver.cc:206-222 | a handler that has been called is in no place of the pipeline and has not been removed |
| Conservation.GoneMeansSettled | src/main/nonblocking_packet_sender.cc:77-136 | a submitted handler that is in no place of the pipeline has been called or removed |
| Conservation.BeforeFirstSubmission | src/main/nonblocking_packet_receiver.cc:99-118 | before the first submission the handshake's handler waits, alone, until it is called, once |
| Correlation.ResponsesReachTheirRequests | src/main/nonblocking_packet_receiver.cc:200-222 | in every run, a handler that is told of a response is told of one received packet: its message has no digest or the right one, the command in it acknowledges the number under which a request of this handler went out (or, for an unsolicited status, the handshake), and the handler gets just that command and value if it reports success, and else the error with its code and cluster version; no packet is passed on twice, and they are passed on in the order in which they came |
| Correlation.ResponsesAreDelivered | src/main/nonblocking_packet_receiver.cc:200-222 | the other way round: whatever a packet says to a request that waits, success or an error, its handler is told at once, nobody else is, and the request waits no more |
| Correlation.FailuresHaveCauses | src/main/nonblocking_packet_receiver.cc:175-198 | in every run, a handler is told of a wrong digest, a garbled command or a missing number only after a packet with just that fault has come |
| Correlation.MeaningIs | src/main/nonblocking_packet_receiver.cc:175-200 | what the receiver makes of a packet, in terms of its digest, its command and its type |
| Origins.RequestsComeFromSubmissions | src/main/nonblocking_packet_sender.cc:43-65 | in every run each request on the wire, in flight or queued comes from one submission: it has its key, handler, value, command and message, the number that was next at that moment and the connection id that came last before it, and a digest and identity exactly if its type asks for them |
| Origins.SubmissionsAreUsedOnce | src/main/nonblocking_packet_sender.cc:48 | no two requests come from the same submission |
| Origins.ConnectionIdIsLast | src/main/nonblocking_packet_receiver.cc:186-188 | in every run the connection id is the last one that a packet brought which was not forged and had a command, and 0 before |
| Correlation.GoneForGood | src/main/nonblocking_packet_receiver.cc:200-208 | a sequence number that has been used and no longer waits never waits again |
| Correlation.LateResponsesAreIgnored | src/main/nonblocking_packet_receiver.cc:200-205 | a response to a request that was answered, failed or removed calls nobody and changes no queue, table or ledger, however late it comes (the connection id it carries is noted) |
| Correlation.UnsolicitedStatusIsIgnored | src/main/nonblocking_packet_receiver.cc:190-205 | after the handshake an unsolicited status calls nobody and changes no queue, table or ledger, whatever it claims to acknowledge |
| Receivers.Receiver.constructor | src/main/nonblocking_packet_receiver.cc:93-101 | a new receiver waits for the handshake only, in both tables |
| Receivers.Receiver.Enqueue | src/main/nonblocking_packet_receiver.cc:127-147 | refuses exactly if the number or the key is taken, and then leaves both tables as they were, through either failing path |
| Receivers.Receiver.Remove | src/main/nonblocking_packet_receiver.cc:252-272 | true exactly if the key waits; the entry leaves both tables, as one step of the run, and no `CHECK` fires |
| Receivers.Receiver.CallAllErrorHandlers | src/main/nonblocking_packet_receiver.cc:230-250 | calls everything that waits once, with the given failure and nothing else, and empties both tables |
| Receivers.Receiver.Complete | src/main/nonblocking_packet_receiver.cc:175-223 | a wrong digest, a command that does not parse and a missing number each end everything that waits, with the error and the result of its own; otherwise the connection id is noted and at most the request with the acknowledged number is completed, with what the command reports |
| Receivers.Receiver.Deliver | src/main/nonblocking_packet_receiver.cc:200-222 | completes exactly the request with the acknowledged number, if it waits: its handler gets the command and the value if the status is success, and else the error with its code and cluster version |
| Receivers.Receiver.ReadPacket | src/main/nonblocking_packet_receiver.cc:158-173 | the octets read stay a concatenation of whole frames and a proper prefix of the next one |
| Receivers.Receiver.Receive | src/main/nonblocking_packet_receiver.cc:150-224 | ends on every script, in a state that a run leads to; idle only when nothing waits and no packet is half read, waiting only for a blocked read, fatal only for a failed read, octets that are no packet or a garbled command, and then nothing waits; handlers are told only what the drive says, or the one failure that ends everything; as long as all packets are responses, their arrival, in order, is all that happens; if everything that has arrived can be read, it waits only once that has been read |
| Receivers.Receiver.CompleteHandshake | src/main/nonblocking_packet_receiver.cc:104-118 | succeeds exactly if the handshake's handler was given a response, and then nothing waits and no packet is half read; it gives up without an answer only after every poll has been blocked |
| Receivers.Receiver.Destroy | src/main/nonblocking_packet_receiver.cc:120-125 | everything that waits is called once with the shutdown error |
| Senders.Sender.constructor | src/main/nonblocking_packet_sender.cc:35-41 | a new sender has nothing queued or in flight |
| Senders.Sender.Enqueue | src/main/nonblocking_packet_sender.cc:43-65 | the queue and the counter become those of the run after the submission, with the request stamped and sealed; it carries the submitted value, and every field of the command and the message that the sender does not set |
| Senders.Sender.Remove | src/main/nonblocking_packet_sender.cc:128-136 | true exactly if a queued request has the key; the first such request, and no other, leaves the queue |
| Senders.Sender.Drain | src/main/nonblocking_packet_sender.cc:106-111 | every queued handler is called once with the failure, oldest first, and the queue is empty |
| Senders.Sender.Destroy | src/main/nonblocking_packet_sender.cc:67-75 | every queued handler is called once with the shutdown error, oldest first; the one in flight is not called |
| Senders.Sender.WriteRequest | src/main/nonblocking_packet_sender.cc:94-100 | what has been sent is the frames of the requests on the wire and the first octets of the one in flight; done means its whole frame |
| Senders.Sender.HandOverRequest | src/main/nonblocking_packet_sender.cc:115-124 | the written request joins the wire and its handler joins both tables of the receiver |
| Senders.Sender.FailAll | src/main/nonblocking_packet_sender.cc:102-112 | after a failed write the handler in flight is called first, and then every queued one in order, each once and with that failure |
| Senders.Sender.Send | src/main/nonblocking_packet_sender.cc:77-126 | ends on every script, in a state that a run leads to; idle only when nothing is queued or in flight, waiting only for a blocked write, fatal only for a failed call or a request that cannot be serialised; no request is dropped or overtakes another, and under the service no handler is called, except that after a fatal error all that are not on the wire are, in their order; idle, with the whole line on the wire, whenever the socket takes that many octets before it stalls |
| Services.Service.constructor | src/main/nonblocking_packet_service.cc:29-33 | a new service has not failed and counts from zero |
| Services.Service.Submit | src/main/nonblocking_packet_service.cc:39-51 | the next key; the handler is queued, or called at once if the service has failed, and never both; the queued request carries what was submitted, with the connection id that came last |
| Services.Service.Run | src/main/nonblocking_packet_service.cc:53-79 | false exactly if it has failed, now (for one of the fatal reasons) or before, and from then on nothing happens any more; otherwise the two directions named are exactly those in which a call would have blocked, no request is dropped or overtakes another, and when no direction is named nothing is queued, in flight or waiting; if a request is being written and the next call for it fails, its handler is called |
| Services.Service.Remove | src/main/nonblocking_packet_service.cc:89-91 | true exactly if the key was queued or waiting; its handler, and only that one, is removed, and the key is in neither place afterwards |
| Services.Service.Destroy | src/main/nonblocking_packet_service.cc:35-37 | the queue fails, oldest first, and then everything that waits; afterwards every handler is settled if and only if none was in flight, and that one has been neither called nor removed |
| Services.Service.QuietMeansSettled | src/main/nonblocking_packet_service.cc:67-78 | no lost wake-up: when there is nothing to wait for, each submitted handler has been called or removed, and not both |
| RunOperations.BlockingConnection.RunOperation | src/main/blocking_kinetic_connection.cc:596-644 | on every path the key is neither queued nor waiting afterwards; OK exactly if the handler was given a response and the connection stands, its error exactly if it was called with one and the connection stands, a failed connection exactly if the service has failed, a timeout only if `select` reports one; if it was not called it was removed, or is the one in flight; and it does return OK if everything can be sent, and what waits to be read and what `select` brings has a response of success to the key and nothing but responses; for OK a packet has been read that acknowledges this key with success, and for an error of the drive one that refuses it with that code |
| RunOperations.BlockingConnection.ToldMeansReported | src/main/blocking_kinetic_connection.cc:638-643 | whatever the handler of an operation is told of a response was said by a packet that acknowledges its own key |
| RunOperations.BlockingConnection.DoneMeansReleased | src/main/blocking_kinetic_connection.cc:638-643 | once the handler has been called its key is neither queued nor waiting, as the comment there says |
| RunOperations.BlockingConnection.ReleasedMeansSettled | src/main/blocking_kinetic_connection.cc:620-634 | a handler whose key was withdrawn has been called or removed, or is the one in flight |
| RunOperations.BlockingConnection.ReleasedMeansWithdrawn | src/main/nonblocking_packet_service.cc:89-91 | once a key is neither queued nor waiting, no request of its handler is |
| RunOperations.BlockingConnection.LateCallIff | src/main/blocking_kinetic_connection.cc:619-634 | when an operation has been given up without its handler having been called, that handler can still be called later if and only if its request is the one being written and the service has not failed |
| RunOperations.BlockingConnection.RunServes | src/main/nonblocking_packet_service.cc:53-79 | if an answer to a request comes, then after one run the request has succeeded, or everything is sent and read and the answer is still to come |
| RunOperations.BlockingConnection.AnswerHasCome | src/main/blocking_kinetic_connection.cc:607-636 | and when nothing is left to come, it has succeeded |
| Progress.WaitsUnderItsKey | src/main/nonblocking_packet_service.cc:39-51 | under the service a request waits under its own key and no other |
| Progress.SentMeansWaiting | src/main/nonblocking_packet_sender.cc:115-124 | once everything is sent, a request that was neither answered nor removed waits under its key |
| Progress.ArrivalsDeliver | src/main/nonblocking_packet_receiver.cc:186-222 | while responses arrive, a request goes on waiting until one of them acknowledges it, and has then succeeded if those that do report success |
| Progress.AnswersAreNoFault | src/main/nonblocking_packet_receiver.cc:162-184 | if the octets, read and to come, are nothing but responses, the receiver has no reason to fail other than a failed read |
| Progress.EverythingRead | src/main/nonblocking_packet_receiver.cc:150-173 | once no octet is left to be read the receiver has read every packet that its octets decode to |
| Connections.Connect | src/main/kinetic_connection_factory.cc:117-143 | there is a service exactly if the handshake succeeded, and it is usable and has nothing to do |
| Wires.PeerDecodesRequests | src/main/nonblocking_packet_sender.cc:77-126 | decoding all octets sent gives the requests on the wire, in order, with nothing between them |
| Wires.PeerUnderstandsRequests | src/main/nonblocking_packet_sender.cc:43-65 | from each of those packets the peer parses the message, the command with its sequence number, and a digest that validates; and the numbers strictly increase |
| Wires.PeerGetsSubmissions | src/main/nonblocking_packet_sender.cc:43-65 | what the peer parses is what was submitted: value, authentication type, pin and command, with the connection id that came last before the submission, and an authentic digest of this user |
| Wires.ReceiverReadsPackets | src/main/nonblocking_packet_receiver.cc:150-204 | frame alignment: wherever the octets of the packets that the peer writes were cut, read, waiting or yet to come, the receiver has read the first of those packets, unchanged; and all, and nothing more, once no octet is left |
| Wires.ReceiverDecodes | src/main/nonblocking_packet_receiver.cc:150-204 | the same for a peer that may send anything: the packets read are the first ones that its octets decode to |
| Wires.PendingDecodes | src/main/nonblocking_packet.cc:44-142 | what has been written of a packet decodes to nothing or, all of it, to that packet |
| Wires.RequestsArrive | src/main/nonblocking_packet_sender.cc:77-126 | end to end: a receiver at the other end of a sender has read its requests, the first ones on the wire, in order, and understands each of them; beyond those at most the one packet that is still being written; and exactly them once the sender is idle and no octet is left |
| ReaderWriters.ReaderWriter.Read | src/main/reader_writer.cc:31-59 | true exactly if all `n` octets came, in order; otherwise a read failed or was blocked 20000 times; ends on every script and never discards a complete transfer |
| ReaderWriters.ReaderWriter.Write | src/main/reader_writer.cc:61-89 | the same for writing |
| ByteStreams.ByteStream.SslRead | src/main/byte_stream.cc:58-83 | true exactly if all octets came; the first read that transfers nothing ends it |
| ByteStreams.ByteStream.SslWrite | src/main/byte_stream.cc:85-110 | the same for writing |
| ByteStreams.ByteStream.ReadValue | src/main/byte_stream.cc:112-123 | a value exactly if all of its octets came |
| MessageStreams.MessageStream.WriteMessage | src/main/message_stream.cc:77-103 | what is sent is a prefix of the frame that the nonblocking writer writes; code 1 means that the header is not complete, 3 the header but not the message, 4 the message but not the value, 0 exactly the whole frame, and 2 a message without serialisation after the header |
| MessageStreams.MessageStream.ReadMessage | src/main/message_stream.cc:37-75 | success means that the octets taken are one frame that is small enough and parses, with that message and value; too large exactly if a header announces it; an error only for a wrong magic octet, a message that does not parse, or a read that failed |
| MessageStreams.MessageStream.ReadHeader | src/main/message_stream.cc:156-173 | nine octets that begin with the magic one, and the two sizes in them |
| MessageStreams.MessageStream.WriteHeader | src/main/message_stream.cc:175-183 | nine octets: the magic one and the two sizes |
| MessageStreams.ReadBack | src/main/message_stream.cc:37-183 | whichever implementation wrote a frame and whichever has read one off the same octets, it is the same packet |
| MessageStreams.MessageRoundTrip | src/main/message_stream.cc:37-103 | and the message and value are the ones that were written |
| KeyStore.RangeAfter | src/main/key_range_iterator.cc:155-166 | starting over after the last key of a frame gives exactly the rest of the range |
| KeyStore.RangeMembers | src/main/key_range_iterator.cc:162-166 | a range has exactly the keys of the store within the bounds |
| KeyStore.WithinIff | src/main/key_range_iterator.cc:162-166 | a key is within the bounds if it is outside of neither, and a bound itself if it is included |
| KeyStore.FrameFollows | src/main/key_range_iterator.cc:155-176 | whatever the store is by now, one more frame keeps the keys ascending and within the original bounds |
| KeyStore.FrameMissesNothing | src/main/key_range_iterator.cc:155-176 | a frame misses no key that was there every time, and an empty one shows that none is left |
| KeyRangeIterators.KeyRangeIterator.End | src/main/key_range_iterator.cc:31-41 | `KeyRangeEnd()` is at the end and in no good state |
| KeyRangeIterators.KeyRangeIterator.Copy | src/main/key_range_iterator.cc:63-77 | a copy is at the same place, and shares nothing that can change |
| KeyRangeIterators.KeyRangeIterator.Assign | src/main/key_range_iterator.cc:80-97 | the same for assignment, also to itself |
| KeyRangeIterators.KeyRangeIterator.EqualsEnd | src/main/key_range_iterator.cc:101-106 | an iterator equals `KeyRangeEnd()` if and only if it has reached the end |
| KeyRangeIterators.KeyRangeIterator.EqualsIffSameKey | src/main/key_range_iterator.cc:101-106 | two iterators that still have keys are equal if and only if they are at the same key |
| KeyRangeIterators.KeyRangeIterator.EqualsCopy | src/main/key_range_iterator.cc:63-106 | a usable iterator, or one at the end, equals its copy; a bad one that is not at the end equals nothing |
| KeyRangeIterators.KeyRangeIterator.Increment | src/main/key_range_iterator.cc:113-121 | moves to the next key, with a request only after the last key of a frame; at the end it stays there and requests nothing; a bad iterator throws and changes nothing |
| KeyRangeIterators.KeyRangeIterator.PostIncrement | src/main/key_range_iterator.cc:123-133 | the returned copy is where the iterator was |
| KeyRangeIterators.KeyRangeIterator.Deref | src/main/key_range_iterator.cc:145-153 | the current key, which is within the bounds; otherwise exactly the exception for a bad state or for the end |
| KeyRangeIterators.KeyRangeIterator.NextFrame | src/main/key_range_iterator.cc:155-176 | one request, from just after the last key seen; the keys seen so far stay sound |
| KeyRangeIterators.KeyRangeIterator.Advance | src/main/key_range_iterator.cc:178-184 | requests a frame exactly after the last key of one |
| KeyRangeIterators.IterateKeyRange | src/main/blocking_kinetic_connection.cc:483-490 | an iterator on the first frame, unless the first request fails |
| KeyRangeRuns.Collect | src/main/key_range_iterator.cc:101-184 | over a store that stays as it is, the loop yields exactly the range filter, for every frame size of at least 1, with one request for each frame and one more; it succeeds exactly if none of those requests fails, and otherwise yields the first keys of the range |
| KeyRangeRuns.CollectWhileChanging | src/main/key_range_iterator.cc:101-184 | over a store that may change before every step the keys are strictly ascending, within the bounds and each from one of the stores asked; those are one for each successful request, in the order of the changes and starting with the first; and at the end no key that was there at each request is missing |
| P2P.PopulateP2PMessage | src/main/nonblocking_kinetic_connection.cc:708-728 | the message gets the peer, and the translated operations after those it had, at every depth; ends on every tree |
| P2P.DecodeTranslate | src/main/nonblocking_kinetic_connection.cc:708-728 | reading the message back gives the request with redundant new keys left blank |
| P2P.SameMessageIff | src/main/nonblocking_kinetic_connection.cc:718-720 | two requests become the same message if and only if they differ in redundant new keys only |
| P2P.NormalizeIdempotent | src/main/nonblocking_kinetic_connection.cc:718-720 | leaving redundant new keys blank twice is the same as once |
| P2P.RoundTripIff | include/kinetic/nonblocking_kinetic_connection_interface.h:270-297 | a request survives the translation unchanged if and only if no operation has its own key as new key |
| P2P.MeaningPreserved | include/kinetic/nonblocking_kinetic_connection_interface.h:270-297 | the message orders exactly the copies that the request asks for, in order, through the same drives, to the same keys, with the same versions and force flags |

## Left out

- Real sockets, SSL, `fstat`, `setsockopt`, `select`, `errno` and clocks: scripts decide what each call does, and a
  call past the end of its script would block. The 30 seconds of the handshake are a number of polls, and the network
  timeout is one of the answers of `select`. The two descriptor sets are two truth values.
- Receivers.Receiver.CompleteHandshake: when it fails the exception is the result, and what is left of the object is not modelled.
- Callbacks that call back into the library, and threads: the thread-safe classes lock and forward.
- Wrap-around of 64-bit sequence numbers and keys, of the iterator's `int` position, and the conversion of the frame size to `int32_t`.
- KeyRangeIterators.KeyRangeIterator.Equals: two live iterators of which just one is used up are not compared, because the source then reads past the end of an empty vector.
- KeyRangeIterators.Drive.GetKeyRange: the drive answers a range request with the first keys of the sorted range; the drive's own code is not part of this model, and reverse order is never asked for by the iterator.
- ByteStreams.ByteStream.ReadValue: for a plain socket the factory for incoming values is supplied by the user; it is taken to read the octets with `ReaderWriter`.
- Outgoing values other than strings, and incoming values that are consumed more than once.
- P2P.PopulateP2PMessage: an operation is filled in before it is appended rather than after, which nobody can see; requests that contain themselves would make the source recurse for ever and cannot be built here.
- The destination members of the readers (`s_`, `value_`, `message_`, `response_`) are results of the calls that fill them.
- Protobuf, SHA-1 and HMAC internals; required fields are only present as the possibility that serialisation fails.
- Status codes and messages: failures are kept apart by their cause, and the tables that turn remote codes into texts are not modelled.
- Request builders, ACL and log copying, and the blocking wrappers around each operation, which only pass values on.
