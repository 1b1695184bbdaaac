# A model of the Event Socket client, with proofs

This project models the parts of the FreeSWITCH Event Socket client whose
behaviour is decided by its own code, and proves what they promise:

- **Incoming bytes.** `Buffer` is the byte buffer with its read cursor and
  in-place compaction, `Parser` the two-state parser on top of it, `Framing` the
  one-shot decoder they refine, `Incremental` the theory of incremental decoding
  (chunking, overflow, conservation) that the decoder instantiates.
  `IncomingFrames` says what literal header lines decode to, failures included.
- **Events.** `Event` is the event object and its printer, `PlainEvents` the plain
  event parser, `EndToEnd` the whole way from a list of events through printing,
  the outer envelope, arbitrary reads, framing and parsing. `Text`, `Utf8`,
  `Percent`, `Headers` and `WhiteSpace` hold the string operations below them; UTF-8 validity is
  that of section 4 of RFC 3629, percent-encoding that of section 2.1 of RFC 3986.
- **The connection.** `CommandSlot` is the command protocol as a step relation:
  every action between two suspension points of a caller or of the reader is one
  step, and steps interleave freely. `EventQueue` is event dispatch into a bounded
  queue while the consumer acts at any moment, also between the two sends of one
  dispatch. `ReaderLoop` is the reader on a script of read results; what it does to the
  event channel, the pending slot and the status channel is one log, in order.
  `Session` connects the three: what the consumer and the callers get from a stream.
  `CommandOutcomes` says what the outcomes of calls mean in terms of the schedule
  alone, `Notices` which disconnect notices end the connection.
- **Command languages.** `Tokenizer` (splitting, quoting), `Variables`,
  `Endpoints`, `Applications` and `Originate` print and parse originate commands;
  `PlainCommands` names a class of commands, recognisable field by field, that are
  all read back. `EslArrays` is the array header format. `WireFormat` converts
  commands to wire text, `OutgoingFrames` says how that text reads at the other
  end, `WireText` what it says. `OriginateText` and `DialStrings` take printed
  originate commands and dial strings apart, `Refusals` says what the parsers refuse.

Conventions. In the protocol, event and command layers a string is the sequence
of its UTF-8 bytes, and a byte is written as the character with the same code
(`Bytes`); "valid UTF-8" is then a property that is proved, not a type. In the
originate layer a string is a sequence of characters. Rust integers are unbounded
here except where their width decides the outcome: `usize` and `u32` bound the
numbers that parse. Error values keep their kind and the data that the theorems
speak about, not their wording.

A method with a loop or an update in place is proved against a function; the
theorems are about the function. A property that does not hold on all inputs is
stated as an equivalence: it holds exactly when the condition named there does.

What the proofs show about the code, where its documentation says more:

- Printing an event and parsing it back is the identity (up to the stated
  Content-Length) exactly for events whose header names can be written on a line
  and whose body is not the empty text (`PlainEvents.PlainRoundTripExactly`);
  `PlainEvents.ColonKeyExample` is an event for which it is not.
- A caller gets the reply to its own command exactly when no earlier reply was
  outstanding when its slot was set (`CommandSlot.FirstReplyAfterArming`); after a
  command that timed out, the next caller is answered with the late reply
  (`CommandSlot.LateReplyGoesToTheNextCall`).
- With a queue of one place and no receive between the two sends, no event is
  delivered after the first drop (`EventQueue.Starvation`).
- An originate command is read back exactly when it is well formed
  (`Originate.RoundTripExactly`). The endpoint documentation speaks of per-channel
  variables in square brackets, but the endpoint parser reads only braces as
  variables (`Endpoints.RoundTripExactly`, `Endpoints.ChannelScopeExample`), and
  it reads every endpoint as a plain dial string (`PlainCommands.LoopbackExample`).
- A command built from an event that carries a length header of its own is one
  frame exactly when that header states the length of the body
  (`OutgoingFrames.WireIsOneFrame`, `OutgoingFrames.ContradictingLengthExample`).
- The command builder does not validate the command line it is given; its text is
  one frame exactly under the condition of `OutgoingFrames.BuiltIsOneFrame`.

## Model

| member | source | states |
|---|---|---|
| `Buffer.EslBuffer.ExtendFromSlice` | src/buffer.rs:32-57 | appending adds the bytes after the unread ones and leaves the cursor; the storage may be replaced |
| `Buffer.EslBuffer.Advance` | src/buffer.rs:68-78 | skips exactly the requested bytes, or refuses and changes nothing when there are fewer |
| `Buffer.EslBuffer.FindPattern` | src/buffer.rs:81-88 | the first occurrence in the unread bytes, none for an empty pattern |
| `Buffer.EslBuffer.ExtractUntilPattern` | src/buffer.rs:91-100 | gives the bytes before the first match and drops them with the match, or changes nothing |
| `Buffer.EslBuffer.ExtractBytes` | src/buffer.rs:103-111 | gives exactly the requested bytes once they are there, or changes nothing |
| `Buffer.EslBuffer.Compact` | src/buffer.rs:114-136 | moves the unread bytes to the front in place; cursor zero, no unread byte changed |
| `Buffer.EslBuffer.CheckSizeLimits` | src/buffer.rs:139-159 | reports the raw fill level exactly when it exceeds the limit |
| `Parser.EslParser.AddData` | src/protocol.rs:105-111 | the bytes are kept even when the limit is exceeded; overflow is reported exactly when the unread bytes exceed 16 MiB |
| `Parser.EslParser.ParseHeaders` | src/protocol.rs:217-244 | the loop over lines is the strict header parser, with the first offending line as the error |
| `Parser.EslParser.ParseMessage` | src/protocol.rs:114-214 | parsing in place is one step of the one-shot decoder: answer, next state and unread bytes; the cursor is zero again on return |
| `Headers.ParseWrittenBlock` | src/protocol.rs:217-244 | both header parsers read a written block of clean entries back as the map of those entries |
| `Headers.StrictFailsOnFirstNoColon` | src/protocol.rs:217-244 | the strict parser fails exactly when a non-blank line has no colon, names the first one, and otherwise agrees with the lenient parser |
| `Headers.PaddedLineIsRead` | src/protocol.rs:220-233 | white space around the line, its name and its value does not matter |
| `Headers.LenientSkips` | src/protocol.rs:281-300 | the event parser skips a line without a colon wherever it stands |
| `IncomingFrames.NoLengthNoBody` | src/protocol.rs:134-182 | header lines with a content type and no length are a complete message without a body; what follows the blank line is left for the next one |
| `IncomingFrames.CommandReplyArrives` | src/protocol.rs:134-182 | an ordinary command reply, byte by byte, is a message of its type with its two headers |
| `IncomingFrames.MessageTypesExactly` | src/protocol.rs:33-46 | each message type has exactly its literal content types, any other is unknown and kept |
| `IncomingFrames.LengthSaysBody` | src/protocol.rs:146-207 | with a length of at most 8 MiB exactly so many bytes are the body: awaited, read, or refused if they are not UTF-8; zero means no body |
| `IncomingFrames.NoTypeFails` | src/protocol.rs:136-142 | a block without a content type fails, and what follows it is left |
| `IncomingFrames.LongLengthFails` | src/protocol.rs:147-160 | a length above 8 MiB fails as too large, one above the largest 64-bit number as unreadable |
| `IncomingFrames.BadLengthFails` | src/protocol.rs:147-152 | a length that is empty or holds anything but digits behind an optional plus sign fails and is named |
| `IncomingFrames.BadTextFails` | src/protocol.rs:129-131 | a header block that is not UTF-8 fails |
| `IncomingFrames.NoColonFails` | src/protocol.rs:217-244 | a header block with a line without a colon fails, and the first such line is named |
| `Framing.ParserIsIncremental` | src/protocol.rs:114-214 | every emitted message shrinks the buffer, later bytes never change an answer, asking again gives the same answer, and a message is read from its own bytes alone |
| `Framing.ChunkingIndependence` | src/connection.rs:355-440 | for every split of a stream into reads that do not overflow, the read loop gives the messages, first error, state and residue of decoding the concatenation |
| `Framing.BufferBound` | src/protocol.rs:105-111 | with reads of one socket buffer, overflow happens exactly when more than 16 MiB less 64 KiB without a header terminator are waiting, never while a body is awaited |
| `Framing.FrameIsFrame` | src/protocol.rs:114-214 | the bytes that give one message and nothing else are exactly a header block, its terminator and as many body bytes as it announces |
| `Framing.StreamDecomposes` | src/protocol.rs:114-214 | byte conservation: every stream is the frames of the messages decoded from it, in order, followed by what is left |
| `Framing.DecompositionIsDecoded` | src/protocol.rs:114-214 | any such decomposition is what the decoder finds, so it is unique |
| `Incremental.FeedIsContinue` | src/connection.rs:191-229 | chunking independence for any incremental parser, from any drained state |
| `Incremental.OverflowExactly` | src/connection.rs:355-440 | the loop overflows exactly when the residue of the stream so far does not fit with the next chunk |
| `Incremental.DecodeConserves` | src/protocol.rs:114-214 | byte conservation for any parser that reads each message locally |
| `Utf8.ValidConcat` | src/protocol.rs:130-131 | validity is closed under concatenation |
| `Utf8.ValidExactly` | src/protocol.rs:130-131 | a byte string is accepted exactly if it is the encoding of a list of Unicode scalar values |
| `WhiteSpace.LeadingWsExactly` | src/protocol.rs:221-233 | at byte level, trimming cuts a character in front exactly if its code point is white space |
| `WhiteSpace.TrailingWsExactly` | src/protocol.rs:221-233 | the same at the back |
| `Percent.EncodedByte` | src/event.rs:551-591 | letters and digits are written as they are, any other byte as a percent sign and two upper-case digits |
| `Percent.EscapeIsRead` | src/protocol.rs:229-232 | two digits of either case behind a percent sign are read as one byte |
| `Percent.OthersStay` | src/protocol.rs:229-232 | a percent sign without two digits, and any other character, stays |
| `Percent.ValueOfUndecodable` | src/protocol.rs:229-232 | a value whose decoding is no encoding of scalar values is taken as written |
| `Percent.DecodeOfEncode` | src/event.rs:551-591 | decoding undoes encoding for every byte string |
| `EslArrays.ThreeItems` | src/variables/esl_array.rs:56-71 | the notation of one item and of three |
| `EslArrays.ParseOfDisplay` | src/variables/esl_array.rs:12-71 | reading a printed list gives the list exactly when it is non-empty and no item contains the separator |
| `EslArrays.DisplayOfParse` | src/variables/esl_array.rs:12-71 | printing a list that was read gives the same text |
| `EslArrays.RunIsDequeExactly` | src/event.rs:399-435 | after any run of pushes and unshifts on an absent header its list view is that of a deque exactly when the first value is not itself an array and, from the second operation on, no value contains the separator |
| `EslArrays.EslArray.Push` | src/variables/esl_array.rs:27-29 | appends one item in place |
| `EslArrays.EslArray.Unshift` | src/variables/esl_array.rs:33-35 | puts one item in front in place |
| `EslArrays.EslArray.ToText` | src/variables/esl_array.rs:56-71 | the writing loop prints the array |
| `EslArrays.ParseArray` | src/variables/esl_array.rs:12-19 | the array object of a text with the prefix, and of no other text |
| `Text.LeqExactly` | src/event.rs:568-571 | header names are ordered by the first byte in which they differ, a prefix first |
| `Event.PlainFormatText` | src/event.rs:546-591 | the printed text, literally: event name first, every other header but a stored length in strict order of the names, the length of the body and the body behind a blank line |
| `Event.SortIsCanonical` | src/event.rs:562-571 | whatever order the map yields its names in, the sorted list is the same |
| `Event.EslEvent.StackHeader` | src/event.rs:418-435 | a first value is stored as it is; afterwards the header is read as an array, changed and printed, and no other header changes |
| `Event.EslEvent.PushHeader` | src/event.rs:399-406 | the same, appending |
| `Event.EslEvent.UnshiftHeader` | src/event.rs:414-416 | the same, in front |
| `Event.EslEvent.SetHeader` | src/event.rs:349-352 | sets or overwrites one header and nothing else |
| `Event.EslEvent.ToPlainFormat` | src/event.rs:551-591 | the appending loops print the plain form, for any order of the map |
| `PlainEvents.ParsePlainEventObject` | src/protocol.rs:263-318 | the object filled line by line is the parsed event, with the same errors |
| `PlainEvents.EventFailsExactly` | src/protocol.rs:264-272 | the two refusals, each exactly in its case |
| `PlainEvents.NormalExactly` | src/protocol.rs:263-318 | what an event reads back as, header by header: all headers but the length, the length of the body exactly if there is one, the type its name stands for |
| `PlainEvents.PlainRoundTripExactly` | src/protocol.rs:263-318 | parsing a printed event gives its normal form exactly when every printed name can be read back and the body is not the empty text, for arbitrary UTF-8 values and bodies |
| `PlainEvents.PrintAgain` | src/event.rs:551-591 | printing what was read back gives the identical text |
| `PlainEvents.ColonKeyIsLost` | src/protocol.rs:263-318 | an event with a colon in a header name is not read back |
| `PlainEvents.ColonKeyExample` | src/protocol.rs:263-318 | a concrete event that is not read back |
| `EndToEnd.EnvelopeIsFrame` | src/protocol.rs:114-214 | a body in its envelope is one frame that carries that body |
| `EndToEnd.PlainFormatIsValid` | src/event.rs:551-591 | the printed form of an event is valid UTF-8, so the frame-level checks pass |
| `EndToEnd.StreamNeverOverflows` | src/connection.rs:420-440 | reads of a stream of enveloped bodies never overflow the buffer |
| `EndToEnd.FeedStreamOfBodies` | src/connection.rs:355-440 | they give one message for each body and leave nothing over |
| `EndToEnd.EventsArrive` | src/protocol.rs:247-318 | any list of events, printed, enveloped, sent as one stream and read in any pieces, comes back complete and in order |
| `CommandSlot.RunKeeps` | src/connection.rs:631-696 | the protocol invariant holds over every interleaving of callers and reader |
| `CommandSlot.SlotSafety` | src/connection.rs:645-689 | at most one call listens, it holds the lock, and until its reply is there its own sender is in the slot; a receiver never finds its sender gone, also after the reader exited with or without a new status |
| `CommandSlot.RepliesAreConserved` | src/connection.rs:373-386 | replies received are those delivered plus those discarded, and no reply goes to two calls |
| `CommandOutcomes.RefusedExactly` | src/connection.rs:631-634 | over every schedule a call is refused exactly if it begins after the reader published its exit, and no command of a refused call is ever written |
| `CommandOutcomes.OutcomeHasCause` | src/connection.rs:631-696 | every phase and outcome of a call has its own steps in the schedule behind it |
| `CommandOutcomes.LossesAreCallsGivenUp` | src/connection.rs:645-689 | the losses are exactly the calls whose command was written and which ended, or are about to end, without a reply |
| `CommandOutcomes.OrderlyLosses` | src/connection.rs:645-689 | the same with a server that answers in order, so that the bound on the lag speaks of these calls |
| `CommandSlot.FirstReplyAfterArming` | src/connection.rs:645-696 | a call gets the first reply received after its slot was set, which is its own exactly when no earlier one was outstanding |
| `CommandSlot.RepliesLagByLosses` | src/connection.rs:631-696 | with a server that answers in order, a call's reply is never ahead of its command and behind it by at most the number of calls given up |
| `CommandSlot.CleanRunsCorrelate` | src/connection.rs:631-696 | without timeouts, write errors or abandoned calls every answered caller got its own reply and none was discarded |
| `CommandSlot.NextReplyExactly` | src/connection.rs:631-696 | a call nobody disturbs gets the next reply that arrives, its own exactly when nothing was outstanding |
| `CommandSlot.LateReplyGoesToTheNextCall` | src/connection.rs:672-689 | a concrete run in which the call after a timed-out one gets the late reply |
| `EventQueue.EventSender.DispatchEvent` | src/connection.rs:283-317 | dispatch in place is the dispatch of the specification, with the consumer acting between the two sends |
| `EventQueue.RunKeeps` | src/connection.rs:283-317 | over every run: received then queued items are those let in, in order; exactly the accepted items are decided, once and in order, all dispatched ones while the channel is open; the flag tells exactly whether a drop is unreported |
| `EventQueue.DropCounterIsExact` | src/connection.rs:283-317 | while the channel is open, dispatched items are an order-preserving merge of those let in and as many more as the counter says |
| `EventQueue.DropsAreReported` | src/connection.rs:283-317 | after a drop the flag is set or a notice was let in |
| `EventQueue.NoticesHaveDrops` | src/connection.rs:283-317 | a notice has a drop before it, with no other notice in between |
| `EventQueue.NoticesMarkTheGaps` | src/connection.rs:283-317 | if nothing is received between the two sends, notices sit exactly in the gaps |
| `EventQueue.GapsAtTheConsumer` | src/connection.rs:283-317 | in what is received and queued, every item is the accepted one at its place; two items are neighbours in what was dispatched exactly if no notice stands between them, and after the last one something is missing exactly if a notice follows or is owed, when nothing is received between the two sends |
| `EventQueue.EnoughRoom` | src/connection.rs:586-602 | with a queue as large as the number of dispatches nothing is dropped |
| `EventQueue.QueueIsBounded` | src/connection.rs:586-602 | the queue never holds more than the size asked for, or one if that is zero |
| `EventQueue.QueueFillsUp` | src/connection.rs:283-317 | while nobody receives, exactly the first so many items are in it and the others are counted as dropped |
| `EventQueue.Recovery` | src/connection.rs:288-316 | with two free places an item is let in, directly after the notice if one was owed |
| `EventQueue.Starvation` | src/connection.rs:586-602 | with one place and no receive between the sends nothing is let in after the first drop |
| `ReaderLoop.OnMessage` | src/connection.rs:357-406 | the arms for a message, each acting on the outside itself, do what the specification of one message says |
| `ReaderLoop.OnRead` | src/connection.rs:420-467 | the arms for a read, each publishing its own reason, end the loop exactly for an end of file, a failed read, a full buffer or an expired timer |
| `ReaderLoop.ReaderLoopInner` | src/connection.rs:345-470 | from a parser that may hold bytes left over from authentication: the loop goes on through every round that gives it no reason to end and ends with the first that does; what it dispatched, routed and published, in order, is that of one-shot decoding of what was held and read |
| `ReaderLoop.BehaviourIsDetermined` | src/connection.rs:345-470 | this contract fixes the whole outcome: no other log, exit or number of reads meets it |
| `ReaderLoop.ReadsBeforeTheEnd` | src/connection.rs:355-468 | no read the loop went past was an end of file or a failure, overfilled the buffer, followed an undecodable or terminating message, or exceeded the silence allowed |
| `ReaderLoop.CauseOfExit` | src/connection.rs:357-467 | the exit is the cause that ended the loop: the decoder's own error, the kind of the read the loop ended on, a disconnect notice that does not linger as the first terminating message, or an event refused by the closed channel as the first terminating message |
| `ReaderLoop.HandledExactly` | src/connection.rs:357-413 | the effects are exactly the events and replies before the first terminating message, in order, and then what that message announces; lingering notices end nothing |
| `ReaderLoop.HandledFromStream` | src/connection.rs:355-440 | the same of the whole stream, however the reads cut it: the loop ends at the read that completes the terminating message, with a server notice if that is a disconnect notice and with a closed channel if it is the refused event; when something else ends it, the effects are those of every message the reads before the end hold |
| `ReaderLoop.StatusChangesOnce` | src/connection.rs:345-470 | the status leaves Connected at most once, as the last thing the loop does, so nothing is dispatched or routed afterwards; it does so for every exit but a closed event channel, with the reason of the exit |
| `ReaderLoop.SilenceStaysBelow` | src/connection.rs:441-467 | with the timer on, wherever the loop gets to it has not been silent for longer than the threshold |
| `ReaderLoop.HeartbeatWindow` | src/connection.rs:431-467 | expiry is published only when the last reads, since data last came or since the start, all timed out, for longer than the threshold in all and without the last one not for longer; never with threshold zero |
| `ReaderLoop.SilenceIsAllowed` | src/connection.rs:431-467 | wherever the loop gets to, the reads that timed out since the last data took no longer than the threshold |
| `ReaderLoop.TrafficKeepsAlive` | src/connection.rs:431-467 | if data arrives before the threshold has passed, again and again, no expiry is ever published |
| `ReaderLoop.SilenceEndsTheLoop` | src/connection.rs:441-467 | when no data arrives from some point on for longer than the threshold, a loop that was alive there publishes that the heartbeat expired, at most one read timer after the threshold |
| `ReaderLoop.HeartbeatExample` | src/connection.rs:441-467 | a concrete run in which the second timed-out read publishes the expiry |
| `Notices.NoticeIsFinalExactly` | src/connection.rs:387-402 | a disconnect notice is final exactly if its last Content-Disposition line does not say linger |
| `Notices.NoticeEndsTheLoopExactly` | src/connection.rs:387-402 | from the bytes of a notice: the reader publishes a server notice exactly if it does not ask to linger, and goes on otherwise |
| `Session.LogFollowsStream` | src/connection.rs:345-470 | what the reader dispatches are the first events of the stream and what it routes its first replies, all of them if nothing ended the loop |
| `Session.AcceptedIsDispatched` | src/connection.rs:361-372 | when the queue's own answers tell the reader that the channel is closed, the queue has accepted exactly the items the reader dispatched, at any consumer behaviour |
| `Session.ConsumerReceives` | src/connection.rs:283-440 | what the consumer gets from a byte stream, however the reads cut it and it acts, is an order-preserving selection of the stream's first events, and the drop counter says how many of these are missing |
| `Session.GapsInTheStream` | src/connection.rs:283-440 | every item it gets is the event of the stream at its place, and notices stand exactly where events are missing, when nothing is received between the two sends |
| `Session.EventsReachTheConsumer` | src/connection.rs:283-440 | end to end: of any list of transmissible events sent as one stream the consumer gets an order-preserving selection in normal form, and every one if there is room for all and nothing ends the loop |
| `Session.CallerGetsAReplyOfTheStream` | src/connection.rs:373-386 | an answered call was given the reply message of the stream whose number is the number of replies received when its slot was set, and no other call was given it |
| `Session.CallerGetsItsOwnReply` | src/connection.rs:631-696 | with a server that answers in order and no call given up with its command out, the caller of command k was given reply message k of the stream |
| `Tokenizer.OriginateSplit` | src/commands/mod.rs:57-105 | the index loop with look-behind is the tokenizer of the specification |
| `Tokenizer.SplitInvertsJoinExactly` | src/commands/mod.rs:57-105 | splitting joined tokens returns them exactly when each is non-empty, trimmed, has balanced quotes and no separator outside quotes other than in front |
| `Tokenizer.SplitIsNormal` | src/commands/mod.rs:57-105 | the tokens of any line come back unchanged when joined and split again |
| `Tokenizer.FailsOnOpenQuote` | src/commands/mod.rs:92-94 | the only error is an unclosed quote, exactly when an odd number of quotes is not escaped |
| `Tokenizer.UnquoteOfQuote` | src/commands/mod.rs:27-48 | unquoting undoes quoting exactly when the text has a space or does not look quoted already |
| `Tokenizer.QuoteIsGoodExactly` | src/commands/mod.rs:27-34 | a quoted text is one token exactly when it does not end in a backslash |
| `Refusals.QuotesHoldSpaces` | src/commands/mod.rs:57-105 | a space between quotes does not separate words |
| `Variables.EscapeValueExactly` | src/commands/originate.rs:80-89 | the two replacements are one pass that puts a backslash before every quote and comma, with quotes around it exactly if there is a space |
| `Variables.UnescapeValueExactly` | src/commands/originate.rs:91-98 | reading is one pass too, and quotes around the value are dropped with or without a space in it |
| `Variables.UnescapeValueOfEscapeValue` | src/commands/originate.rs:80-98 | unescaping undoes escaping for every string |
| `Variables.SplitUnescapedCommas` | src/commands/originate.rs:208-221 | the loop with look-behind is the comma splitter of the specification |
| `Variables.ParseVariables` | src/commands/originate.rs:172-204 | filling the map part by part is the parser of the specification, with the same failures |
| `Variables.DisplayVariables` | src/commands/originate.rs:150-166 | the writing loop prints the set |
| `Variables.VariableBlock.Insert` | src/commands/originate.rs:118-121 | the new value is read under the key and every other key is unchanged; an existing key keeps its place |
| `Refusals.VariablesText` | src/commands/originate.rs:149-166 | the text of one and of two variables in each scope |
| `Refusals.VariablesFailExactly` | src/commands/originate.rs:172-204 | a block is refused exactly if it is not enclosed in one of the three pairs of delimiters or some part has no equals sign |
| `Variables.RoundTripExactly` | src/commands/originate.rs:149-221 | parsing gives back scope, order and values exactly when the set is non-empty, names have no equals sign and no unescaped comma, and no value but the last is free of spaces and ends in a backslash |
| `Variables.ReparseExactly` | src/commands/originate.rs:149-221 | a set that was parsed survives printing and parsing exactly unless a value glues to its successor |
| `DialStrings.GatewayDialsExactly` | src/commands/originate.rs:282-296 | a reader that cuts at the first slash and the first double colon gets uri, profile and gateway of a printed gateway endpoint exactly when the names hold neither |
| `DialStrings.LoopbackDialsExactly` | src/commands/originate.rs:274-281 | one that cuts at the last slash gets uri and context of a printed loopback endpoint exactly when the context holds no slash |
| `DialStrings.GeneralDials` | src/commands/originate.rs:270-273 | a general endpoint is printed as given behind its variables |
| `Refusals.EndpointFailsExactly` | src/commands/originate.rs:303-321 | an endpoint is refused exactly if its first brace is not closed or encloses no variable block |
| `Endpoints.RoundTripExactly` | src/commands/originate.rs:269-321 | a printed endpoint of any kind is read back in general form exactly when its variables are printable, of the default scope and free of closing braces, and the dial string fits |
| `Endpoints.ChannelScopeExample` | src/commands/originate.rs:303-321 | a concrete endpoint whose bracketed variables are not read back |
| `Endpoints.TokenIsDisplay` | src/commands/originate.rs:303-321 | a token that reads as an endpoint and starts the same line as its printed form is that form |
| `Refusals.XmlFailsExactly` | src/commands/mod.rs:113-140 | which texts are refused in the XML dialplan, and that a text without an ampersand is a name |
| `Refusals.InlineFailsExactly` | src/commands/mod.rs:113-140 | which texts are refused in the inline dialplan |
| `Applications.RoundTripExactly` | src/commands/mod.rs:113-140 | a printed list is read back exactly when it is one XML application without an opening parenthesis in its name and without empty arguments, or inline applications with arguments, no colon in the name and texts that are single tokens |
| `Applications.ParseApplicationList` | src/commands/mod.rs:113-140 | the pushing loop is the parser of the specification, with the same failures |
| `Applications.InlineToken` | src/commands/originate.rs:469-482 | in a command, the token read as an inline list is the quoted text of that list |
| `Applications.XmlToken` | src/commands/originate.rs:469-482 | the same for an XML list |
| `Originate.ParseOriginate` | src/commands/originate.rs:449-517 | taking tokens off the front is the parser of the specification, with the same failures |
| `OriginateText.PrintedWords` | src/commands/originate.rs:415-446 | a printed command word by word: its name, the endpoint, the applications in the notation of the dialplan, then dialplan, context, caller id name, caller id number and timeout as far as given |
| `Refusals.CommandFailsExactly` | src/commands/originate.rs:449-517 | a command is refused exactly if endpoint or applications are missing or refused, or the word in the place of the timeout is no 32-bit number |
| `Refusals.WordIsOptional` | src/commands/originate.rs:449-460 | the command word may be left out |
| `Originate.RoundTripExactly` | src/commands/originate.rs:415-518 | parsing a printed command gives it back, its endpoint in general form, exactly when the endpoint is printable and its text one token, the applications are printable and their quoted text is one token that did not look quoted before, and the optional fields are tokens that leave no gap and do not start with a dialplan name of their own |
| `Originate.IdentityExactly` | src/commands/originate.rs:415-518 | the command itself comes back exactly when, in addition, its endpoint is a plain dial string without an empty variable set |
| `Originate.PrintsTheSameAgain` | src/commands/originate.rs:415-518 | every well-formed command, whatever its endpoint, prints the same text again after it was read |
| `PlainCommands.PlainReadsBack` | src/commands/originate.rs:269-518 | every command that is plain field by field is well formed and read back |
| `PlainCommands.LoopbackExample` | src/commands/originate.rs:303-321 | a concrete command whose loopback endpoint comes back as a plain dial string |
| `WireFormat.CommandBuilder.Header` | src/command.rs:187-193 | rejects exactly names and values with a newline and otherwise sets one header |
| `WireFormat.CommandBuilder.Build` | src/command.rs:204-222 | the text is the command line, the headers in some order, the length of the body if there is one, and the body |
| `WireFormat.FormatSimpleCommand` | src/command.rs:377-385 | the loop writes the words of a one-line command |
| `WireFormat.ToWireFormat` | src/command.rs:388-540 | a command is accepted exactly when no field the caller supplied has a newline, and its text is then the one of its arm |
| `WireText.LineCommandText` | src/command.rs:388-540 | what goes out for a command without an event, literally |
| `WireText.LineCommandAcceptedExactly` | src/command.rs:388-540 | such a command is accepted exactly if its line is one line |
| `WireText.EventCommandAcceptedExactly` | src/command.rs:418-500 | one with an event exactly if session, header names and values are one line each |
| `WireText.SendMsgText` | src/command.rs:418-441 | a message names its session on the first line, then one line for each header, the length of the body and the body |
| `WireText.ExecuteText` | src/command.rs:442-467 | running an application sends exactly the lines that ask for it, name it and carry its arguments, and no body |
| `WireText.SendEventText` | src/command.rs:472-500 | a sent event is named by its type, else by its Event-Name header, else as custom |
| `OutgoingFrames.BuiltIsOneFrame` | src/command.rs:174-222 | for any command line, validated or not: the builder's text is one frame exactly under a condition on the command line, the headers and the body that can be checked before building: either the line holds a blank line and the lines before it announce the size of all that will follow, or it holds none, the block is not empty and neither its extra lines nor the headers state another length than the body's |
| `OutgoingFrames.BuiltReads` | src/command.rs:204-222 | for a command line of one line, the text reads back as that line, one line for each header and its body, and the condition above is that no header of its own states another length |
| `OutgoingFrames.BlankLineSplitsTheCommand` | src/command.rs:174-182 | a concrete command line with a blank line, accepted by the builder, is not one frame |
| `OutgoingFrames.WireIsOneFrame` | src/command.rs:388-540 | every accepted command, for any header order, reads back as its line, headers and body, and is one frame exactly when its event has no contradicting length header |
| `OutgoingFrames.ContradictingLengthExample` | src/command.rs:420-442 | a concrete event with a contradicting length header is accepted and what is sent is not one frame |
| `OutgoingFrames.WireIsAlwaysOneFrame` | src/command.rs:388-540 | a command without a length header of its own is always one frame |

## Left out

- JSON and XML events: their text is read by libraries that are not part of this model.
- Authentication, connecting and disconnecting: thin sequences over the modelled operations.
- The one-line client methods over `send_command`, the `uuid_*`, `conference` and dialplan-tool builders, response accessors, name tables and timetables: easy members.
- Panic catching around the reader loop: only the inner loop is modelled.
- The event type table: `PlainEvents` takes it as a parameter, so the theorems hold for any table; `OutgoingFrames.WireIsOneFrame` needs of it only that wire names have no newline.
- Reserving and releasing the capacity of the buffer: contents, length and cursor are modelled, the allocator is not.
- `CommandSlot.RunKeeps`: a write either puts out the whole command or fails, perhaps after the command went out; partial writes of a command are not modelled, and a command rejected for a newline, which ends before it takes the lock, is no step.
- `CommandSlot.RepliesLagByLosses`: the server is the orderly one, whose reply number k answers command number k.
- `EventQueue.RunKeeps`: items are opaque; `Session` takes the function from messages to items as a parameter, for the plain format the one of `PlainEvents`.
- `Session.CallerGetsAReplyOfTheStream`: the schedules of the queue and of the slot are given separately, each in the order of the reader's log; one interleaving of both, and the reader's exit as an event of the slot's schedule, are not joined.
- `ReaderLoop.ReaderLoopInner`: read results come from a list, and the event channel is found closed at a given dispatch, if ever (in `Session`, at the one the queue refuses); time passes only in reads, in steps of the 2000 ms timer, and the threshold is fixed for a run.
- `Originate.ParseOriginate`: the wording of parse errors is dropped, so all of them are one error; the tokenizer's unclosed quote and the list of several XML applications stay distinct.
- `WireFormat.ToWireFormat`: rejections do not say which field was at fault, since for headers that depends on the order of the map.
- `Variables.VariableBlock.Insert`: the block object holds its map; printing and parsing work on its value.
- Multi-part bodies, error classification and the channel tracker of the examples: no hard invariant.
