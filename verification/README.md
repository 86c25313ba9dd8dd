# Verification of the message transport, the event loop and the list arithmetic

This project models the algorithmic core of the repository in Dafny and proves what it guarantees.

* **The socket.io and engine.io client protocol** (`public/js/socket.io.js`). The codecs (numerals, UTF-8, Base64,
  engine packets, text and binary payloads, message packets with binary attachments) are methods with the loops of the
  source, proved equal to specification functions about which round trips are proved. The manager's packet queue, the
  decoder and the engine socket are classes whose methods refine a step function, event by event and over whole runs; what
  holds in every run is proved about the steps. `EndToEnd` composes all the layers.
* **The event loop of the bundled Redis** (`lib/redis-2.8.19/src/ae.c`). `AeTimers` is the linked list of timers on the
  heap and refines the sequence of `TimerPass`, where order, termination and fairness are proved. `AeFiles` is the table of
  file events.
* **The doubly linked list of the bundled Redis** (`lib/redis-2.8.19/src/adlist.c`), on the heap, with iterators.
* **The repository's own code** for currency conversion, pagination and Redis keys.

The files follow the components: `Js`, `Numerals`, `Utf8`, `Base64`, `EnginePacket`, `EnginePayload`, `BinaryTree`,
`SocketPacket`, `Manager`, `EngineSocket`, `EndToEnd`, `Yeast`, `TimerPass`, `AeTimers`, `AeFiles`, `SeqOps`, `AdList`,
`Currency`, `Paginator`, `RedisKey`. `dafny verify dfyconfig.toml` checks them all.

The script `public/js/socket.io.js` is minified: line 1 holds modules 0 to 16 and the start of 17, line 2 the rest. The
descriptions name the module.

## Assumptions about the host

* `HandlesNumerals` and `ReadsDecimals`: decimal numerals are printed and read back, `Number("[")` is not a number.
* `JsonFaithful`: `JSON.parse` inverts `JSON.stringify` on the data of a packet, whose text begins with a bracket.
* `ClockOk`: the clock readings within one pass do not decrease, are bounded, and have 0 to 999 milliseconds. Between two
  operations the clock may be set to any time.
* `HandlersOk`: a timer handler returns `AE_NOMORE` or at least 1 millisecond. One that asks to be rescheduled does not
  delete its own event, because the code then writes to the node it has freed.
* `btoa`, which `encodePacket` calls for binary data on a transport without binary support, is the encoder of module 28.
* Amounts and rates are exact reals.

## What the proofs found out about the code

* Data that holds buffers survives the round trip exactly when no object in it has a truthy `_placeholder`.
* When the probe of an upgrade fails after its answer has come, while the old transport is still pausing, `upgrading` stays
  true in the open socket and nothing is sent any more, exactly unless a close waits for the upgrade; that close is then
  carried out (`ProbeFailureStalls`, `StalledForever`).
* A handshake that arrives after `close()` reopens the socket, and the pending close then drops a packet accepted since
  (`ReopenedSocketLosesPacket`). A close by the user loses packets exactly if it is carried out at the end of an upgrade
  while the write buffer is not empty (`CloseLosesExactly`).
* A binary frame with length zero would be given all the bytes that follow, which are then read again
  (`ZeroLengthFrame`); the encoder never makes one.
* Yeast ids of a run are distinct exactly when no clock reading comes back after a different one.
* `aeCreateFileEvent` with an empty mask above `maxfd` breaks the maximum. A handler called for reading is called again for
  writing, for the same fired descriptor, exactly if its own actions leave it the write handler next to another read handler
  (`SharedHandlerRunsOnce`). The comment of `aeResizeSetSize` speaks of the setsize minus one; the code refuses sizes up to
  `maxfd`, and the model follows the code.
* `aeProcessEvents` cuts the seconds of an overdue timer to zero but can leave a part of a second to sleep: deadlines are
  slept past exactly if the nearest event is overdue and its milliseconds differ from the clock's (`NeverSleepsPast`).
* The scan for a clock that went back sets only the seconds of the events to zero. In second 0 of the clock it makes an event
  due exactly if its milliseconds have passed; while the clock stands still there, no other event is fired (`SkewFiresAll`, with a
  failing state in `SkewInSecondZeroCanWait`).
* `create_paginator` compares an index with a float by identity, and accepts negative indexes. With at least one button it
  gives links to pages that do not exist exactly if the page index is negative or exceeds the number of pages. The search
  computes its offset before the request overrides the page size, so the pages then tile the result only if it fits on one
  page.
* `convert_to_raw` converts there and back to the same amount exactly when there is a route; with no markets it returns 0,
  without a route `false`. Of its error codes only -4 can be returned, and only for a market whose columns contradict its id.
* `decode` of a joined Redis key gives back the parts exactly when none holds the delimiter and none but the last ends in
  `-_`. `hgetall` drops the fields `""` and `"0"`.

## Model

| member | source | states |
|---|---|---|
| Numerals.ValueOfNumeral | public/js/socket.io.js:2 | printing a natural number in a base and reading it back gives the number |
| Numerals.NoLeadingZero | public/js/socket.io.js:2 | a printed number has no leading zero |
| Numerals.NumeralOfValue | public/js/socket.io.js:2 | a digit sequence without leading zero is what its value is printed as |
| Numerals.NumeralShortest | public/js/socket.io.js:2 | no digit sequence with the same value is shorter than the printed one |
| Utf8.Ucs2DecodeLoop | public/js/socket.io.js:2 | module 26, `ucs2decode`: the loop over code units computes the code points, lone surrogates kept |
| Utf8.Ucs2EncodeLoop | public/js/socket.io.js:2 | module 26, `ucs2encode`: the loop over code points computes the code units |
| Utf8.Ucs2EncodeOfDecode | public/js/socket.io.js:2 | splitting any string into code points and joining them gives the string |
| Utf8.Ucs2DecodeOfEncode | public/js/socket.io.js:2 | scalar values are split again as they were joined, and their string has no lone surrogate |
| Utf8.WellFormedDecodesToScalars | public/js/socket.io.js:2 | a string has no lone surrogate if and only if its code points are all scalar values |
| Utf8.EncodeLoop | public/js/socket.io.js:2 | module 26, `utf8encode`: the loop computes the encoding, or throws as specified |
| Utf8.DecodeLoop | public/js/socket.io.js:2 | module 26, `utf8decode`: the loop over the byte index computes the decoding, or throws as specified |
| Utf8.DecodeSymbolCanonical | public/js/socket.io.js:2 | section 3 of RFC 3629: strict decoding of a symbol accepts only the shortest form of a scalar value |
| Utf8.LenientReplacesSurrogate | public/js/socket.io.js:2 | strict and lenient decoding of a symbol differ only on the three bytes of a surrogate, which are an error or U+FFFD |
| Utf8.PairIsOneByte | public/js/socket.io.js:2 | module 26, `utf8decode`: it reads the low bytes of code points, so one byte of a pair of surrogates |
| Utf8.EncodedLayout | public/js/socket.io.js:2 | section 3 of RFC 3629: the number of bytes, their ranges and the place of every bit, for each scalar value |
| Utf8.UnitsLayout | public/js/socket.io.js:2 | a code point past U+FFFF is a pair of surrogates with its bits, every other one a unit |
| Utf8.EncodeThrows | public/js/socket.io.js:2 | encoding throws if and only if it is strict and there is a lone surrogate |
| Utf8.DecodeOfEncode | public/js/socket.io.js:2 | what was encoded decodes to the string with each lone surrogate, and nothing else, replaced by U+FFFD |
| Utf8.SanitizeIsIdentity | public/js/socket.io.js:2 | the replacement changes nothing if and only if the string is well formed |
| Utf8.RoundTrip | public/js/socket.io.js:2 | well-formed strings encode without error and decode to themselves, strict or not |
| Utf8.StrictDecodeIsInverse | public/js/socket.io.js:2 | strict decoding of bytes gives a string if and only if it is well formed and strictly encodes to these bytes |
| Base64.EncodeLoop | public/js/socket.io.js:2 | module 28, `encode`: the loop in steps of three bytes, with the padding afterwards, computes the encoding |
| Base64.DecodeLoop | public/js/socket.io.js:2 | module 28, `decode`: the loop into a buffer of the computed length, where writes past the end are dropped, computes the decoding |
| Base64.EncodedLength | public/js/socket.io.js:2 | section 4 of RFC 4648: four characters for each started group, the right padding, and from both the exact length of the data |
| Base64.AlphabetIsStandard | public/js/socket.io.js:2 | the symbols are those of table 1 of RFC 4648 |
| Base64.EncodedCharacter | public/js/socket.io.js:2 | section 4 of RFC 4648 for every character: its six bits of the 24 of its group, or the padding character |
| Base64.DecodedLength | public/js/socket.io.js:2 | what any text decodes to has three quarters of its length less the padding, truncated |
| Base64.DecodedByte | public/js/socket.io.js:2 | every byte any text decodes to is its part of the 24 bits of its group |
| Base64.RoundTrip | public/js/socket.io.js:2 | decoding inverts encoding for byte sequences of every length |
| EnginePacket.Slice | public/js/socket.io.js:2 | module 24: the part asked for when an end is given, all from the start on when it is zero or past the end; shorter than the buffer when it starts after the first byte |
| EnginePacket.PacketFormat | public/js/socket.io.js:2 | module 22: the type is a digit before text, a byte before binary data, and follows a `b` before Base64 |
| EnginePacket.UnknownPackets | public/js/socket.io.js:2 | module 22: text of no type is an error; binary or Base64 data of no type is delivered without one |
| EnginePacket.PacketRoundTrip | public/js/socket.io.js:2 | module 22, `encodePacket` and `decodePacket`: every packet is decoded to itself, as text, binary or Base64 (with the host's `btoa` as assumed above), up to empty data and lone surrogates |
| EnginePayload.DecodeTextLoop | public/js/socket.io.js:2 | module 22, `decodePayload`: the loop over the characters makes the specified sequence of callbacks |
| EnginePayload.TextPayloadRoundTrip | public/js/socket.io.js:2 | a text payload delivers exactly its packets in order, until the callback stops it, whatever their data holds; an empty one delivers nothing |
| EnginePayload.AtMostOneError | public/js/socket.io.js:2 | on any input at most one error is delivered, and nothing after it |
| EnginePayload.NoColonIsAnError | public/js/socket.io.js:2 | a text without a colon, the empty one included, is one error |
| EnginePayload.TruncatedIsAnError | public/js/socket.io.js:2 | a text that announces more than it holds is one error |
| EnginePayload.RestIsAnError | public/js/socket.io.js:2 | what follows a packet without a colon is an error after it |
| EnginePayload.EncodePayloadAsArrayBuffer | public/js/socket.io.js:2 | module 22: the buffer of precomputed size is filled exactly with the frames |
| EnginePayload.ReadLengthLoop | public/js/socket.io.js:2 | module 22: the loop over the length bytes of a frame reads up to the byte 255, or gives up behind 311 digits |
| EnginePayload.DecodePayloadAsBinary | public/js/socket.io.js:2 | module 22: the loop over the frames makes the specified sequence of callbacks |
| EnginePayload.SplitFrame | public/js/socket.io.js:2 | a frame followed by anything is split into exactly its flag, 0 for text and 1 for binary, its data and the rest; its length is not zero |
| EnginePayload.BinaryPayloadRoundTrip | public/js/socket.io.js:2 | a binary payload delivers exactly its packets in order, for any mix of text and binary whose lengths have at most 311 digits, up to empty data and lone surrogates |
| EnginePayload.TooLongLengthIsRefused | public/js/socket.io.js:2 | 312 digits of a length are refused with an error, whatever follows |
| EnginePayload.ZeroLengthFrame | public/js/socket.io.js:2 | what the zero-end default of module 24 does to a frame of length zero: its data is all that follows |
| BinaryTree.DeconstructKeepsBuffers | public/js/socket.io.js:1 | module 11: extraction appends to the buffers, and appends something if and only if module 9 finds binary data |
| BinaryTree.DeconstructLeavesNoBuffer | public/js/socket.io.js:1 | module 11: the tree that is sent as text holds no buffer |
| BinaryTree.PlaceholderFormat | public/js/socket.io.js:1 | module 11: a placeholder is an object with `_placeholder` true and the number of the buffer |
| BinaryTree.FalsyValues | public/js/socket.io.js:1 | which values of `_placeholder` do not make a placeholder |
| BinaryTree.ReconstructOfDeconstruct | public/js/socket.io.js:1 | module 11: with all buffers present the tree is restored if and only if no object in it passes for a placeholder |
| SocketPacket.DecodeStringLoop | public/js/socket.io.js:1 | module 7, `decodeString`: the scanner with its index computes the specified packet, or throws |
| SocketPacket.ScanNsp | public/js/socket.io.js:1 | module 7: the loop over the namespace ends at the comma or at the end of the text |
| SocketPacket.ScanId | public/js/socket.io.js:1 | module 7: the loop over the id ends at the first character that is not numeric |
| SocketPacket.DecodeStringOfPrinted | public/js/socket.io.js:1 | module 7: the text of a packet, with type, attachment count, namespace, id and data, is decoded to the packet |
| SocketPacket.WireType | public/js/socket.io.js:1 | module 7: an event (2) or acknowledgement (3) with a buffer is sent and expected as 5 or 6, every other packet as what it is |
| SocketPacket.WireFormat | public/js/socket.io.js:1 | module 7: the whole text of a packet with data, character by character, and the buffers that follow it |
| SocketPacket.DecodeErrors | public/js/socket.io.js:1 | module 7: a text of no type or without JSON is an error packet, one that announces buffers without their number throws, the empty one is a CONNECT |
| SocketPacket.NamespaceAlone | public/js/socket.io.js:1 | module 7: a namespace that ends the text needs no comma |
| SocketPacket.Decoder.AddFrame | public/js/socket.io.js:1 | module 7, `Decoder.add`: the new state and the packets emitted, or a throw that changes nothing |
| SocketPacket.Decoder.AddFrames | public/js/socket.io.js:1 | over any sequence of frames the decoder throws or emits as specified |
| SocketPacket.FramesRoundTrip | public/js/socket.io.js:1 | from any state of the decoder the frames of a packet make it emit one packet; it is the packet sent, up to the binary type, if and only if its data is unambiguous |
| Manager.PacketManager.Packet | public/js/socket.io.js:1 | module 13, `packet`: encode now, or wait in the buffer |
| Manager.PacketManager.ProcessQueue | public/js/socket.io.js:1 | module 13, `processPacketQueue`: the first waiting packet is taken when no encoding is under way |
| Manager.PacketManager.OnEncoded | public/js/socket.io.js:1 | module 13, the callback of the encoder: all frames are written, then the queue goes on |
| Manager.HandleAll | public/js/socket.io.js:1 | over every run of events the manager is in the state that the steps give |
| Manager.RunIsFifo | public/js/socket.io.js:1 | in every state of every run each packet's frames are written together and in order; the others are in the encoder or wait in order |
| Manager.EncodedFinishesOne | public/js/socket.io.js:1 | every completed encoding writes exactly the frames of its packet and takes the next packet |
| Manager.CompletionsFinishAll | public/js/socket.io.js:1 | after any run, each completion leaves one unfinished packet less, until none is left |
| Manager.TransportDelivers | public/js/socket.io.js:1 | after every run, whenever encodings complete, the decoder emits exactly the finished packets in order, and all of them once the encoder is idle |
| EngineSocket.Socket.FlushBuffer | public/js/socket.io.js:1 | module 15, `flush`: a writable transport that is not being replaced gets the whole buffer, which is then in flight |
| EngineSocket.Socket.Push | public/js/socket.io.js:1 | module 15, `sendPacket`: buffered and flushed, ignored when closing or closed |
| EngineSocket.Socket.Drained | public/js/socket.io.js:1 | module 15, `onDrain`: the packets in flight leave the buffer; a pending close or the next flush follows |
| EngineSocket.Socket.WriteCompleted | public/js/socket.io.js:2 | modules 20, 21 and 34: a completed write makes the transport writable, ends a pause that waits for it, and drains |
| EngineSocket.Socket.PollCompleted | public/js/socket.io.js:2 | module 21: a completed poll ends a pause that waits for it, or is followed by the next poll |
| EngineSocket.Socket.Paused | public/js/socket.io.js:1 | module 15, the callback of `pause`: the new transport takes over unless the socket was closed |
| EngineSocket.Socket.ProbeAnswered | public/js/socket.io.js:1 | module 15, `probe`: the answer starts the upgrade by pausing the old transport |
| EngineSocket.Socket.ShakeHands | public/js/socket.io.js:1 | module 15, `onHandshake` and `onOpen`: the socket opens, flushes and probes |
| EngineSocket.Socket.CloseByUser | public/js/socket.io.js:1 | module 15, `close`: at once, after the drain or after the upgrade |
| EngineSocket.Socket.Shut | public/js/socket.io.js:1 | module 15, `onClose`: buffer and count are cleared; what was not handed over is lost |
| EngineSocket.Socket.SendProbe | public/js/socket.io.js:1 | module 15, `probe`: when the new transport opens it sends the probe |
| EngineSocket.Socket.ProbeFails | public/js/socket.io.js:1 | module 15, `probe`: a failing probe ends the upgrade, and a close that waits for it is carried out |
| EngineSocket.Socket.HandleAll | public/js/socket.io.js:1 | over every run of events the object is in the state that the steps give |
| EngineSocket.StepKeeps | public/js/socket.io.js:1 | every step keeps the invariant |
| EngineSocket.RunIsReachable | public/js/socket.io.js:1 | the invariant holds in every state of every run |
| EngineSocket.RunAccepts | public/js/socket.io.js:1 | the accepted packets are those sent while the socket was opening or open, in order |
| EngineSocket.SentExactlyOnce | public/js/socket.io.js:1 | in every state that is not closed the packets transmitted, then the buffer without those in flight, are the accepted packets; with packets in flight the transport is not writable; nothing waits for an idle transport |
| EngineSocket.UpgradeKeepsOrder | public/js/socket.io.js:1 | an upgrade loses, doubles and reorders nothing; the old transport has completed all its writes and the new one starts with probe and upgrade packet |
| EngineSocket.CloseLosesNothing | public/js/socket.io.js:1 | in a closed socket what the transports sent and what was lost are what was accepted; a close by the user loses nothing unless the socket was reopened |
| EngineSocket.CloseLosesExactly | public/js/socket.io.js:1 | in every reachable state, what the step that closes the socket loses: with the transport, all that was not handed over; on a close by the user something if and only if the close waits for the upgrade and the buffer is not empty, and then the buffer |
| EngineSocket.CloseClosesOrWaits | public/js/socket.io.js:1 | in every reachable state `close()` closes at once if nothing waits, else waits for the buffer or the upgrade; a second one is ignored |
| EngineSocket.ClosingIsPending | public/js/socket.io.js:1 | in every reachable state a socket that is closing waits for a buffer that is not empty or for an upgrade under way |
| EngineSocket.AlwaysInOrder | public/js/socket.io.js:1 | in every reachable state: open only from the handshake on, nothing kept when closed, written to only an open transport |
| EngineSocket.AlwaysPolls | public/js/socket.io.js:1 | in every reachable state a polling transport has a poll under way, unless a pause has ended it |
| EngineSocket.ProbeWriteCompletes | public/js/socket.io.js:1 | a completed write of the probing transport makes it writable and changes nothing else |
| EngineSocket.WrongAnswerAbandons | public/js/socket.io.js:1 | a wrong answer to the probe abandons the upgrade and changes nothing else |
| EngineSocket.SendIsOneWrite | public/js/socket.io.js:1 | in every reachable state a packet sent is buffered, and all that is buffered is one more write if the transport is free |
| EngineSocket.HandshakeOpens | public/js/socket.io.js:1 | the handshake opens the socket, sends what waits, and begins a probe exactly when asked to on a polling transport |
| EngineSocket.DrainSendsRest | public/js/socket.io.js:1 | in every reachable state a completed write leaves the packets added since, which are one more write; if there are none, a close that waits for that is carried out |
| EngineSocket.PauseEndsInSwitch | public/js/socket.io.js:1-2 | the last of the poll and the write that the pause waits for makes the switch to the new transport, on which probe and upgrade packet come first |
| EngineSocket.ReopenedSocketLosesPacket | public/js/socket.io.js:1 | a run in which a handshake after `close()` leads to a lost packet |
| EngineSocket.ProbeFailureStalls | public/js/socket.io.js:1 | in every reachable state with a probe, its failure leaves an open socket that is stalled if and only if the probe was already answered and no close waits for the upgrade; it closes the socket if and only if one does, and changes nothing else |
| EngineSocket.StalledForever | public/js/socket.io.js:1 | a stalled socket stays stalled until it is closed, and hands no packet to a transport, whatever happens later |
| EndToEnd.TransmissionCarries | public/js/socket.io.js:2 | a batch arrives in order with its messages unchanged, as text payload, as binary payload or packet by packet |
| EndToEnd.MessageFormat | public/js/socket.io.js:1 | a frame becomes a packet of type 4 with the text or the buffer as data |
| EndToEnd.FeedMessages | public/js/socket.io.js:1-2 | the decoder gets exactly the frames of the messages, whatever other packets come between them |
| EndToEnd.AddAllPrefix | public/js/socket.io.js:1 | what the decoder has emitted after the first frames stays when more frames arrive |
| EndToEnd.MessagesArrive | public/js/socket.io.js:1-2 | over every run of the manager and of an engine socket that is not closed, with pings and other packets among the messages, and any batching: the decoder never throws and emits a prefix of the encoded packets in order, and all of them once no message waits |
| Yeast.EncodeLoop | public/js/socket.io.js:2 | module 32, `encode`: the loop computes the numeral in base 64 |
| Yeast.DecodeLoop | public/js/socket.io.js:2 | module 32, `decode`: the loop computes the value, NaN for other characters |
| Yeast.AlphabetInOrder | public/js/socket.io.js:2 | module 32: the alphabet of the digits |
| Yeast.RoundTrip | public/js/socket.io.js:2 | decoding inverts encoding for every natural number |
| Yeast.EncodeIsShortest | public/js/socket.io.js:2 | no shorter text has the same value |
| Yeast.Generator.Yeast | public/js/socket.io.js:2 | module 32, `yeast`: the id and the new state |
| Yeast.YeastAll | public/js/socket.io.js:2 | the calls of a run on one generator return the ids of the run |
| Yeast.StateAfterRun | public/js/socket.io.js:2 | over every run an id is its stamp with the number of repetitions so far |
| Yeast.EqualIds | public/js/socket.io.js:2 | two ids of a run are equal if and only if they have the same clock reading and were repeated equally often |
| Yeast.DistinctExactlyWhen | public/js/socket.io.js:2 | the ids of a run are pairwise distinct if and only if no reading comes back after a different one |
| Yeast.DistinctUnderMonotoneClock | public/js/socket.io.js:2 | under a clock that never goes back all ids are distinct |
| TimerPass.AddMillisecondsIsExact | lib/redis-2.8.19/src/ae.c:189-201 | exactly the delay is added; the milliseconds stay in 0 to 999 for every delay that is not negative, and the exact condition otherwise |
| TimerPass.NewEventIsDueAfterDelay | lib/redis-2.8.19/src/ae.c:203-220 | a new event has the next id, is the first of the list and is due after exactly its delay |
| TimerPass.FiredEventComesBack | lib/redis-2.8.19/src/ae.c:308-331 | a fired event is due again after exactly the delay its handler returned, by the clock when the handler is done, or is gone if it returned AE_NOMORE |
| TimerPass.ActionsAreCarriedOut | lib/redis-2.8.19/src/ae.c:203-242 | whatever a handler does: each creation takes an id, and of the events that were there exactly those deleted are gone |
| TimerPass.ActAllKeepsOrder | lib/redis-2.8.19/src/ae.c:203-242 | whatever a handler creates and deletes, the list stays strictly decreasing in id, with all ids below the next |
| TimerPass.RunStepKeepsOrder | lib/redis-2.8.19/src/ae.c:203-337 | creating, deleting and whole passes keep the order and the milliseconds |
| TimerPass.RunAll | lib/redis-2.8.19/src/ae.c:203-337 | over every run the list is ordered, also if the clock is set back between operations |
| TimerPass.RunsContinue | lib/redis-2.8.19/src/ae.c:203-337 | a run begins without events and with id 0, and each operation is carried out on the state to which those before it have led |
| TimerPass.FireLowersRemaining | lib/redis-2.8.19/src/ae.c:305-331 | firing lowers the remaining time to the bound, summed over the old events: the reason the pass ends although it restarts from the head |
| TimerPass.PassGuarantees | lib/redis-2.8.19/src/ae.c:271-337 | a pass fires only events that existed when it started, keeps the order, and leaves none of them due by its first clock reading |
| TimerPass.NoDueEventLeft | lib/redis-2.8.19/src/ae.c:271-337 | under a clock that stands still no old event is left due |
| TimerPass.DueEventFires | lib/redis-2.8.19/src/ae.c:271-337 | from any state, every event due by the first clock reading is fired at least once by the pass or deleted by a handler during it |
| TimerPass.OnlyDueEventFires | lib/redis-2.8.19/src/ae.c:296-335 | while the clock stands still no event is fired that is not due |
| TimerPass.NotDueEventStays | lib/redis-2.8.19/src/ae.c:285-335 | if the clock did not go back, an event that is not due stays as it is while the clock stands still, unless a handler deletes it |
| TimerPass.SkewFiresAll | lib/redis-2.8.19/src/ae.c:285-337 | after the clock went back every event that is due without its seconds is fired or deleted by a handler, which is every event from second 1 on; while the clock stands still no other event is fired, and an event no handler deletes is fired if and only if it is due without its seconds |
| TimerPass.SkewInSecondZeroCanWait | lib/redis-2.8.19/src/ae.c:285-337 | a state in which the clock went back to second 0 and the pass neither fires nor deletes an event with later milliseconds |
| TimerPass.SearchFindsNearest | lib/redis-2.8.19/src/ae.c:255-268 | the search finds the first of the events with the minimum deadline |
| TimerPass.TimeUntilIsExact | lib/redis-2.8.19/src/ae.c:371-386 | the time to sleep is normal, equals the distance to a deadline not past, and is below one second otherwise |
| TimerPass.NeverSleepsPast | lib/redis-2.8.19/src/ae.c:369-398 | for any list: the sleep is the distance to the nearest deadline, and no event is slept past, if and only if the nearest is not overdue by a part of a second; otherwise it is below one second |
| TimerPass.WaitsForEverExactlyWhen | lib/redis-2.8.19/src/ae.c:369-398 | without an event to wait for the poll waits for ever, and not at all under AE_DONT_WAIT |
| AeTimers.EventLoop.CreateTimeEvent | lib/redis-2.8.19/src/ae.c:203-220 | the new node is at the head of the list, with the next id |
| AeTimers.EventLoop.DeleteTimeEvent | lib/redis-2.8.19/src/ae.c:222-242 | exactly the event with the id is unlinked; the result says if there was one |
| AeTimers.EventLoop.SearchNearestTimer | lib/redis-2.8.19/src/ae.c:255-268 | the walk over the nodes returns the nearest event, or null |
| AeTimers.EventLoop.CheckClock | lib/redis-2.8.19/src/ae.c:285-292 | a clock that went back sets the seconds of every node to zero |
| AeTimers.EventLoop.FireEvent | lib/redis-2.8.19/src/ae.c:308-331 | the handler runs, then the event is rescheduled or deleted |
| AeTimers.EventLoop.Visit | lib/redis-2.8.19/src/ae.c:296-335 | one round of the loop: restart from the head after firing, else the next node |
| AeTimers.EventLoop.ProcessTimeEvents | lib/redis-2.8.19/src/ae.c:271-337 | the loop over the nodes ends and does to the list what the pass does to the sequence; the number of handlers called is returned |
| AeTimers.OperateAll | lib/redis-2.8.19/src/ae.c:203-337 | over every run of operations the linked list is the sequence that the operations on sequences give |
| AeTimers.EventLoop.SleepTime | lib/redis-2.8.19/src/ae.c:369-398 | the timeout of the poll for the nearest event of the list |
| AeFiles.FileLoop.CreateFileEvent | lib/redis-2.8.19/src/ae.c:135-153 | mask, handlers and maximum after registering, or the error |
| AeFiles.FileLoop.DeleteFileEvent | lib/redis-2.8.19/src/ae.c:155-171 | the mask after removing, and the maximum found by searching downwards |
| AeFiles.FileLoop.ResizeSetSize | lib/redis-2.8.19/src/ae.c:106-122 | a table of the new size with the same events, or the refusal of a size that is too small |
| AeFiles.ApplyRefinesPlain | lib/redis-2.8.19/src/ae.c:106-171 | every operation does to the table what it does to a plain map from descriptors to masks |
| AeFiles.ApplyKeepsMax | lib/redis-2.8.19/src/ae.c:106-171 | an operation keeps the maximum exact if and only if it does not register an empty mask above it |
| AeFiles.OperateAll | lib/redis-2.8.19/src/ae.c:106-171 | over every run of operations the object's table is that of the run |
| AeFiles.RunIsPlainMap | lib/redis-2.8.19/src/ae.c:106-171 | over every run the table is the plain map and `maxfd` bounds its keys; if no mask was empty it is the largest key, or -1 |
| AeFiles.HandlerIsTheLast | lib/redis-2.8.19/src/ae.c:106-171 | over every run a descriptor registered for a flag has the handler last registered for it |
| AeFiles.ResizeKeepsEvents | lib/redis-2.8.19/src/ae.c:106-122 | a resized table has the new size and the same events, a refused one is not changed |
| AeFiles.DispatchLoop | lib/redis-2.8.19/src/ae.c:400-419 | the loop over the fired descriptors makes the specified calls on the table as the handlers change it |
| AeFiles.DispatchCallsOnlyRegistered | lib/redis-2.8.19/src/ae.c:400-419 | no handler runs for a flag that is not registered at the moment of the call |
| AeFiles.CallsForOne | lib/redis-2.8.19/src/ae.c:400-419 | which calls one fired descriptor gets, in which order |
| AeFiles.CallsByMask | lib/redis-2.8.19/src/ae.c:400-419 | by the masks alone: which handlers one fired descriptor calls, also one that fired for writing only |
| AeFiles.SharedHandlerRunsOnce | lib/redis-2.8.19/src/ae.c:410-417 | a handler called for reading is called again for writing if and only if its own actions leave it registered for writing next to another read handler; while it is the write handler it runs once if and only if they do not |
| AeFiles.SharedHandlerCanRunTwice | lib/redis-2.8.19/src/ae.c:410-417 | a dispatch in which a shared handler does that and runs twice |
| SeqOps.RotatingFullCircle | lib/redis-2.8.19/src/adlist.c:328-341 | rotating as often as there are elements changes nothing |
| SeqOps.PositionFromBack | lib/redis-2.8.19/src/adlist.c:313-325 | index -1 is the last position and -n the first; out of range there is none |
| AdList.List.AddNodeHead | lib/redis-2.8.19/src/adlist.c:80-98 | the value is put in front of the elements |
| AdList.List.AddNodeTail | lib/redis-2.8.19/src/adlist.c:106-124 | the value is put behind the elements |
| AdList.List.InsertNode | lib/redis-2.8.19/src/adlist.c:126-153 | the value is inserted before or after the given node |
| AdList.List.DelNode | lib/redis-2.8.19/src/adlist.c:159-172 | exactly the given node is removed |
| AdList.List.Rotate | lib/redis-2.8.19/src/adlist.c:328-341 | the last node becomes the first |
| AdList.List.Index | lib/redis-2.8.19/src/adlist.c:313-325 | the node at a position from the front, or from the back for a negative index; null out of range |
| AdList.List.SearchKey | lib/redis-2.8.19/src/adlist.c:285-306 | the first node that matches, or null |
| AdList.FirstMatchIsFirst | lib/redis-2.8.19/src/adlist.c:285-306 | by equality or by the match function, it is the first match, and there is none only if nothing matches |
| AdList.List.PerformAll | lib/redis-2.8.19/src/adlist.c:80-341 | after any sequence of operations the nodes represent the sequence that the same operations give on sequences |
| AdList.AddedCanBeDeleted | lib/redis-2.8.19/src/adlist.c:80-172 | a value added at either end is there, and deleting it gives the list back |
| AdList.InsertedCanBeDeleted | lib/redis-2.8.19/src/adlist.c:126-172 | a value inserted before or after a position is there, and deleting it gives the list back |
| AdList.DeletedCanBeAdded | lib/redis-2.8.19/src/adlist.c:80-172 | what was deleted can be added again in its place |
| AdList.RotationMovesLast | lib/redis-2.8.19/src/adlist.c:328-341 | the last value becomes the first, and as many rotations as there are values change nothing |
| AdList.UsedAllAppend | lib/redis-2.8.19/src/adlist.c:80-341 | operations are carried out one after the other |
| AdList.ListIter.Next | lib/redis-2.8.19/src/adlist.c:221-232 | the current node is returned and its neighbour in the direction of the iterator comes next |
| AdList.List.VisitAndDelete | lib/redis-2.8.19/src/adlist.c:207-232 | iterating in either direction and deleting some of the nodes just returned visits every original node once, in order, and leaves exactly the others |
| AdList.List.Dup | lib/redis-2.8.19/src/adlist.c:242-274 | a fresh list of the copies in order, or nothing if a value cannot be copied; the original is not written to |
| AdList.CopiesAreImages | lib/redis-2.8.19/src/adlist.c:242-274 | there is a copy if and only if every value has one, and it is the image of the original; without a dup function the values are shared |
| Currency.ConvertToRaw | app/lib/__currency.php:121-234 | with its loops over markets and routes the function returns the specified amount, `false` or code |
| Currency.FollowRoutes | app/lib/__currency.php:171-204 | of the routes collected the first is taken, or none |
| Currency.ConvertedByRate | app/lib/__currency.php:121-234 | over well-formed markets the amount is multiplied by the rate of the direct market or of the route through bitcoin; without either the result is `false`, and no error code is returned |
| Currency.DirectMarketSetsAmount | app/lib/__currency.php:140-151 | the first live market named after the two currencies, in either order, sets the amount |
| Currency.BitcoinMarketsSetAmount | app/lib/__currency.php:154-227 | without one, the first live markets of each currency with bitcoin set it, one after the other |
| Currency.TethersAreDollars | app/lib/__currency.php:132-137 | USDT is converted as USD |
| Currency.RatesAreInverse | app/lib/__currency.php:195-227 | the rates there and back exist together and cancel out |
| Currency.RoundTrip | app/lib/__currency.php:121-234 | converting there and back over the same list returns the amount if and only if there is a route, direct or through bitcoin, USDT counting as USD |
| Currency.RouteIsTwoConversions | app/lib/__currency.php:154-204 | without a direct market the conversion is the one to bitcoin followed by the one from bitcoin |
| Currency.OnlyMisnamedMarketsFail | app/lib/__currency.php:211-231 | on any markets -4 is the only code, returned if and only if the direct market found does not name the target in its columns |
| Currency.ReverseLink | app/lib/__currency.php:236-249 | the link helpers recover base and quote from a market id, reversing twice gives it back, and the two ids of a direct market are each other's reverse |
| Currency.LinkWithoutUnderscore | app/lib/__currency.php:236-244 | what the helpers make of a link without underscore |
| Paginator.CreatePaginator | app/lib/__paginator.php:12-99 | the loops emit exactly the specified links in order, or nothing for a single page |
| Paginator.TotalPages | app/lib/__paginator.php:16 | the page count is the least that holds all elements |
| Paginator.LinksOfExistingPage | app/lib/__paginator.php:29-99 | for an existing page the links increase strictly from the first page to the last; they are these two and exactly the pages of a window that contains the page; half of the buttons, rounded up, are for the page and those after it, the rest for those before, as far as there are pages; they are at most two more than the buttons |
| Paginator.LinksOfAnyPage | app/lib/__paginator.php:44-99 | for any page index but 0, past the end and negative ones included: the first page, the last page and a window next to the index, with its exact share on each side |
| Paginator.LinksExistExactlyWhen | app/lib/__paginator.php:69-87 | for any page index, negative ones included, all links are to existing pages if and only if there is no button or the index is between 0 and the number of pages |
| Paginator.PagesTileResults | app/lib/__search.php:123-188 | the slices of all pages, one after another, are the result list, and none is empty |
| Paginator.OverriddenPagesTileExactlyWhen | app/lib/__search.php:123-188 | with an overridden page size the slices are the result list if and only if the size is the same or the result fits on one page |
| RedisKey.KeyRoundTrip | app/classes/__kekPHP/_Redis.php:72-127 | decoding the encoding of a list of parts gives it back if and only if no part holds the delimiter and none but the last ends in its beginning |
| RedisKey.NothingIsNoKey | app/classes/__kekPHP/_Redis.php:110-112 | an empty list of parts is an error, and nothing else |
| RedisKey.KeysAreUnambiguous | app/classes/__kekPHP/_Redis.php:72-127 | every key is the encoding of what it decodes to, and of no other separable list |
| RedisKey.HGetAll | app/classes/__kekPHP/_Redis.php:260-281 | the pairing loop returns the specified map for any reply |
| RedisKey.RepeatedFields | app/classes/__kekPHP/_Redis.php:260-281 | of repeated fields the last value counts, but the last field of a reply keeps the value seen before |
| RedisKey.HashRoundTrip | app/classes/__kekPHP/_Redis.php:260-281 | the reply to a hash is read back without the fields that are empty, so as the hash if and only if there are none |

## Left out

- Placeholders are replaced on tree values: the rewriting in place of `reconstructPacket`, and what it does to a tree that shares parts, is not captured.
- Transports are values inside the engine socket; requests, sockets, timers, timeouts and reconnection are steps that may or may not happen.
- Several probes at once, repeated open packets, the timers of the heartbeat and its answers are not steps of the engine socket; a ping is a packet sent like any other.
- Blobs, `toJSON`, typed arrays other than byte buffers, packets whose data is no string or buffer, and `Decoder.destroy`.
- EnginePayload.BinaryPayloadRoundTrip: requires lengths of at most 311 digits; longer ones are refused by the decoder (EnginePayload.TooLongLengthIsRefused).
- EndToEnd.MessagesArrive: the text of a message in a binary payload has no lone surrogate, since UTF-8 has no form for one; a closed socket is the subject of EngineSocket.CloseLosesNothing alone.
- The `epoll` and `kqueue` backends, `gettimeofday`, the before-sleep hook, memory allocation failures and the width of machine integers.
- Calls of `processTimeEvents` or resizing from inside a handler, finalizers of timers, and the free callbacks of lists.
- AeFiles.RunIsPlainMap: says for runs with empty masks only that `maxfd` is a bound; AeFiles.ApplyKeepsMax says which operation makes it inexact.
- A placeholder whose number is a text: `buffers[num]` would also answer keys such as `"0"` or `"length"`, the model gives no value; whether data survives the round trip does not depend on it.
- `listRelease`, `listRewind` and the accessor macros, which would only add easy members.
- `convert_to`, whose markets come from the database, and rounding of PHP floats.
- PHP's loose comparison of numeric strings, in `convert_to_raw` and in the keys of the array that `hgetall` fills.
- The HTML of the paginator; a link counts as present when its page was emitted.
- RedisKey.Encode: models a list of parts; strings and other types only give a warning status.
- SQL, MySQL and Redis connections, sessions, mail, payment and page rendering.
