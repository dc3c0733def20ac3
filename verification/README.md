# Verified model of the PipiCube flight software

This project models the four stateful parts of the PipiCube firmware in Dafny and proves what they
promise. `dafny verify dfyconfig.toml` checks all of it.

- **GPS pipeline** (`Components/GpsReceiver`). NMEA 0183 bytes are assembled into lines, checked,
  cut at commas in place, parsed into fixed-point numbers and published. `NmeaChecksum`, `NmeaTokens`,
  `NmeaFields` and `NmeaFieldLaws` treat the stages, `LineAssembler` the byte loop, `GpsModel` the
  meaning of a byte stream, `GpsReceiver` the component as a class proved against that meaning,
  `GpsRuns` the laws over runs, `GpsSentence` and `GpsRoundTrip` printed sentences and the end-to-end
  round trip, and `GpsErrors` what unreadable sentences report.
- **Receive ring** (`hal/rp2040_uart.c`). `UartRing` is a step system in which the interrupt may run
  between any two memory accesses of the task; it refines a queue of capacity 255. `UartDriver` is
  the imperative code, its calls interleaved with arbitrary interrupt bursts. `UartStream` says what
  the calls return, and `UartToTelemetry` and `UartToPackets` join the ring to the two components that
  read it.
- **Static message queues** (`Os/Baremetal/Queue.cpp`). `QueueModel` says exactly when a queue with
  free-running 32-bit indices is a FIFO; `MessageQueues` carves such queues out of one byte array;
  `QueueRuns` proves that over any interleaving of creations and operations every queue behaves as if
  alone. `Os/CMakeLists.txt:1-4` leaves this file out of the present build.
- **LoRa driver** (`Components/LoRaDriver`). `AtCommands` builds commands and frames, `RcvParser` parses
  packet lines, `RcvLaws` and `RcvRoundTrip` say which lines it accepts and which packets it reads back,
  `LoRaModel` gives the meaning of every handler, `LoRaDriver` is the component as a class, `LoRaLink`,
  `LoRaStart`, `LoRaRuns`, `LoRaPackets` and `LoRaReports` hold the laws over conversations,
  initialisations, runs, counted and reported packets, and `LoRaLostPacket` is a run in which a packet is lost.

`MachineWords`, `Text` and `Decimal` are the shared vocabulary: machine integers, strings in buffers,
numerals.

## How the program is modelled

- A byte is a `char` below 256; a buffer is an `array<char>`; a C string is the text up to the first
  NUL (`Text.CString`). Reads through a pointer are array reads, so every proof includes that no
  read or write leaves its buffer.
- Each method has its source function's loops, branches and fields. Long C functions are cut into
  several methods, each proved against its own specification; the joints are the method's comments.
- `int32_t` arithmetic is wrapped to 32 bits where the source could overflow. Signed overflow is
  undefined in C++, so the parsers also return a ghost flag that tells whether every intermediate
  operation fitted, and their contracts say exactly for which inputs it does.
- Telemetry writes and events are appended to `outputs`, bytes given to the UART to `wire`.
- The clock is an input: `readATLine` gets one entry of `arrivals` for each turn that its deadline
  allows, holding what the interrupts deliver before that turn; `hal_uart_write` gets the
  outcome of each look at the FIFO.
- `hal_uart_getc` inside the two components takes bytes from a field `rx`; `UartStream` proves
  that this is what the ring delivers.

## Where the code differs from its comments

The model follows the code in each case.

- `hal/rp2040_uart.c:42` speaks of preserving the latest bytes; a full ring drops the incoming byte
  and keeps the old ones (`UartRing.IrqStep`).
- `Components/GpsReceiver/GpsReceiver.fpp:30` gives 38°7.423' as +38123717; the code truncates and
  publishes 38123716 (`NmeaFieldLaws.DocumentedExample`; `DegMinAccuracy` bounds the error and
  `MicroDegreesExact` says when there is none).
- `Components/LoRaDriver/LoRaDriver.hpp:59` says `sendAT` is true when +OK was received; every line
  starting `+O` or `+R` will do, a received packet included (`LoRaLink.PacketTakenForReply`), and a
  +OK behind an unsolicited line is not seen (`LoRaLink.LateOkRefused`). `LoRaLink.AcceptedExactly`
  says exactly when it is true.
- `Components/LoRaDriver/LoRaDriver.hpp:65-66` says `readATLine` returns the number of bytes when the
  buffer is full; it then returns 0. After a complete line it leaves the line in the buffer, which
  spoils the next packet (`LoRaPackets.StaleReplyLosesPacket`).
- A sentence without a fix and with blank coordinates is refused at the latitude, so FixLost
  (`Components/GpsReceiver/GpsReceiver.cpp:242-243`) is not reported for it
  (`GpsErrors.BlankPositionHidesLoss`).
- The queue's indices wrap at 2^32 but its slots are taken modulo the depth, so a queue is a FIFO for
  ever exactly when its depth divides 2^32 (`QueueModel.FifoIffDepthDivides`).

## Model

| member | source | states |
|---|---|---|
| NmeaChecksum.VerifyChecksum | Components/GpsReceiver/GpsReceiver.cpp:87-121 | the two loops and the nibble test accept exactly the lines with a first `*`, two hex digits of either case after it, and their value equal to the xor of the bytes between position 0 and the `*` |
| NmeaChecksum.AcceptsShape | Components/GpsReceiver/GpsReceiver.cpp:87-121 | a line with a `*`-free body and two characters after `*` is accepted if and only if both are hex digits and spell the xor of the body |
| NmeaChecksum.HexDigitsExactly | Components/GpsReceiver/GpsReceiver.cpp:108-113 | which characters are hexadecimal digits, and their values |
| NmeaChecksum.RefusedShapes | Components/GpsReceiver/GpsReceiver.cpp:88-99 | without a `*`, or with fewer than two characters behind the first, a line is refused; with the `*` in front the digits must be zeros |
| NmeaChecksum.AcceptsPrinted | Components/GpsReceiver/GpsReceiver.cpp:87-121 | every sentence with its printed checksum is accepted, in upper, lower or mixed case |
| NmeaChecksum.RejectsOneByteChange | Components/GpsReceiver/GpsReceiver.cpp:87-121 | replacing any one body byte by another (other than `*`) makes the checksum fail |
| NmeaChecksum.XorFoldDetects | Components/GpsReceiver/GpsReceiver.cpp:102-106 | two bodies that differ in one byte and have the same xor do not differ |
| NmeaTokens.Tokenise | Components/GpsReceiver/GpsReceiver.cpp:128-152 | the copy and the in-place cut leave in `scratch` NUL-terminated fields that are exactly the bounded split of the line up to its first NUL |
| NmeaTokens.SplitJoins | Components/GpsReceiver/GpsReceiver.cpp:139-152 | joining the pieces of a line with commas gives the line back, and no piece has a comma |
| NmeaTokens.SplitUnique | Components/GpsReceiver/GpsReceiver.cpp:139-152 | comma-free pieces are recovered from their join: splitting is the only such decomposition |
| NmeaTokens.FieldsOfLine | Components/GpsReceiver/GpsReceiver.cpp:139-152 | fields 0 to 14 are the split pieces, the sixteenth is the unsplit rest, and all fields joined are the line |
| NmeaFields.ParseFP | Components/GpsReceiver/GpsReceiver.cpp:310-342 | for every power-of-ten scale the result is sign * floor(abs(v) * scale) of the number the field denotes; all intermediate operations fit 32 bits if and only if that magnitude is below 2^31 (so exactly a field of value -2^31 fits and yet overflows on the way); refused exactly when empty or with a character other than a digit before the first dot |
| NmeaFields.ReadInteger | Components/GpsReceiver/GpsReceiver.cpp:317-321 | the integer loop reads exactly the digit run and stops at a dot or the end |
| NmeaFields.ReadFraction | Components/GpsReceiver/GpsReceiver.cpp:325-333 | the fraction loop reads the first k digits and never overflows |
| NmeaFields.AlignFraction | Components/GpsReceiver/GpsReceiver.cpp:334-336 | the alignment loop multiplies by the power of ten left over and never overflows |
| NmeaFieldLaws.OverflowsOnTheWay | Components/GpsReceiver/GpsReceiver.cpp:339-341 | the value of a field fits 32 bits while its magnitude does not if and only if the value is -2^31 |
| NmeaFieldLaws.MostNegative | Components/GpsReceiver/GpsReceiver.cpp:339-341 | -21474836.48 at scale 100 is such a field |
| NmeaFieldLaws.FixedPointReadsPrinted | Components/GpsReceiver/GpsReceiver.cpp:310-342 | a printed decimal with any number of places is read at any scale as its scaled value rounded toward zero |
| NmeaFieldLaws.FixedPointReadsExactly | Components/GpsReceiver/GpsReceiver.cpp:310-342 | with no more places than the scale has zeros nothing is lost |
| NmeaFields.ParseDegMin | Components/GpsReceiver/GpsReceiver.cpp:252-307 | the result is the signed microdegrees of degrees, minutes and the first four fraction digits; every operation fits 32 bits if and only if the magnitude is below 2^31 |
| NmeaFieldLaws.DegMinReadsPrinted | Components/GpsReceiver/GpsReceiver.cpp:252-307 | printed degrees and minutes of any width read back, negated for S and W only |
| NmeaFieldLaws.DegMinFits | Components/GpsReceiver/GpsReceiver.cpp:270-301 | with at most three degree digits nothing overflows |
| NmeaFieldLaws.DegMinAccuracy | Components/GpsReceiver/GpsReceiver.cpp:283-301 | the exact angle, with all its fraction digits, exceeds the published magnitude by at least 0 and less than 7/3 microdegrees |
| NmeaFieldLaws.MicroDegreesExact | Components/GpsReceiver/GpsReceiver.cpp:295-301 | with four decimals of minutes, the published magnitude is the exact angle if and only if the ten-thousandths of a minute are a multiple of three |
| NmeaFieldLaws.DocumentedExample | Components/GpsReceiver/GpsReceiver.cpp:295-301 | 38 degrees 7.423 minutes are published as 38123716 |
| NmeaFieldLaws.MicroDegreesOrder | Components/GpsReceiver/GpsReceiver.cpp:295-301 | the conversion is strictly monotone in both directions on (degrees, minutes below 60 with four decimals) |
| NmeaFieldLaws.MicroDegreesInvertible | Components/GpsReceiver/GpsReceiver.cpp:295-301 | quotient by 10^6 and ceil(3r/5) of the remainder recover degrees and ten-thousandths of a minute if and only if the minutes are below 60 |
| NmeaFields.ParseU8 | Components/GpsReceiver/GpsReceiver.cpp:344-354 | the value of the first four characters when they are digits and at most 255, else a refusal; an empty field is 0 |
| NmeaFieldLaws.SmallIntReadsPrinted | Components/GpsReceiver/GpsReceiver.cpp:344-354 | a printed number reads back exactly up to 255 and every larger one is refused |
| NmeaFieldLaws.SmallIntExact | Components/GpsReceiver/GpsReceiver.cpp:344-354 | a digit string reads as its value if and only if it is at most 255 and not longer than four digits, or zero |
| NmeaFieldLaws.NumberReadable | Components/GpsReceiver/GpsReceiver.cpp:310-342 | a number is read if and only if it is not empty and every character before its first dot is a digit, or a `-` in front |
| NmeaFieldLaws.AngleReadable | Components/GpsReceiver/GpsReceiver.cpp:252-307 | an angle is read if and only if its first dot stands behind 3 to 15 characters that are all digits; it is negated for S and W only |
| NmeaFieldLaws.CountReadable | Components/GpsReceiver/GpsReceiver.cpp:344-354 | a count is read if and only if its first four characters are digits of a value up to 255, and then as that value |
| LineAssembler.FeedConcat | Components/GpsReceiver/GpsReceiver.cpp:35-59 | buffer, lines and overruns depend on the concatenated stream only |
| LineAssembler.ClosedForm | Components/GpsReceiver/GpsReceiver.cpp:50-58 | after n stored bytes without newline there were n / size overruns and the buffer holds the last n % size bytes |
| LineAssembler.LineOutcome | Components/GpsReceiver/GpsReceiver.cpp:44-58 | what a newline delivers after a line of any length |
| LineAssembler.Resynchronises | Components/GpsReceiver/GpsReceiver.cpp:44-58 | after any history the first newline empties the buffer and the next line that fits is delivered intact |
| GpsModel.ChunkIndependence | Components/GpsReceiver/GpsReceiver.cpp:28-60 | outputs and state after any drains are those of their concatenation |
| GpsReceiver.GpsReceiver.constructor | Components/GpsReceiver/GpsReceiver.cpp:8-19 | the initial state |
| GpsReceiver.GpsReceiver.SchedIn | Components/GpsReceiver/GpsReceiver.cpp:28-60 | when enabled, drains at most 256 waiting bytes and ends in exactly the state and outputs that the stream means; when disabled, changes nothing |
| GpsReceiver.GpsReceiver.Assemble | Components/GpsReceiver/GpsReceiver.cpp:43-59 | one byte is one assembler step, with its line processed or its overrun reported |
| GpsReceiver.GpsReceiver.ProcessLine | Components/GpsReceiver/GpsReceiver.cpp:63-84 | only checksummed GGA lines reach the parser, and only accepted ones count |
| GpsReceiver.GpsReceiver.ParseGga | Components/GpsReceiver/GpsReceiver.cpp:125-248 | the tokenised sentence is reported as its fields mean |
| GpsReceiver.GpsReceiver.ReportFields | Components/GpsReceiver/GpsReceiver.cpp:154-248 | the field count test, then time, parse and publication |
| GpsReceiver.GpsReceiver.ParseFields | Components/GpsReceiver/GpsReceiver.cpp:187-229 | the six numeric fields, or the number of the first that is refused |
| GpsReceiver.GpsReceiver.Publish | Components/GpsReceiver/GpsReceiver.cpp:182-247 | channels, fix event and remembered quality, in order; a failed parse publishes its field number only |
| GpsReceiver.GpsReceiver.Reset | Components/GpsReceiver/GpsReceiver.cpp:370-376 | empties ring, buffer and fix memory, keeps counter and outputs |
| GpsReceiver.GpsReceiver.SetEnabled | Components/GpsReceiver/GpsReceiver.cpp:378-383 | changes nothing but the flag |
| GpsRuns.LineEffect | Components/GpsReceiver/GpsReceiver.cpp:63-248 | what every line does, in full and channel by channel: lines shorter than 6, without `$` in front or without GGA at positions 3 to 5 leave no trace; a wrong checksum gives that event, fewer than ten fields ParseError 0, an unreadable field the time and its number; an accepted line gives the time, the six channels, the fix event on a change and the count |
| GpsRuns.CountIsAcceptedLines | Components/GpsReceiver/GpsReceiver.cpp:80-83 | over every stream the sentence counter is the number of accepted lines modulo 2^32 |
| GpsRuns.FixEventsAlternate | Components/GpsReceiver/GpsReceiver.cpp:239-245 | over every run without reset, fix events strictly alternate and agree with the remembered quality |
| GpsRuns.FixEventsAfterReset | Components/GpsReceiver/GpsReceiver.cpp:370-376 | from any reset on they alternate starting with an acquisition |
| GpsRuns.TracelessExactly | Components/GpsReceiver/GpsReceiver.cpp:43-72 | a complete line that fits leaves no trace if and only if it is shorter than 6, has no `$` in front or no GGA at positions 3 to 5 |
| GpsRuns.OtherLinesIgnored | Components/GpsReceiver/GpsReceiver.cpp:43-72 | any number of such lines, and what follows is received as if they had not been there |
| GpsRuns.LongLine | Components/GpsReceiver/GpsReceiver.cpp:43-59 | a line of any length gives one overrun of 99 bytes for each 100 stored, then what is left of it is processed |
| GpsRuns.NothingWithoutDollar | Components/GpsReceiver/GpsReceiver.cpp:63-72 | bytes without `$` into a buffer without `$` publish and count nothing; exactly the overruns are reported |
| GpsRuns.CutSentenceIgnored | Components/GpsReceiver/GpsReceiver.cpp:370-376 | the rest of a sentence cut by a reset leaves no trace at all |
| GpsSentence.PrintedFields | Components/GpsReceiver/GpsReceiver.cpp:128-152 | from a checksummed sentence printed from any plain fields, the tokeniser recovers the fields |
| GpsRoundTrip.EndToEnd | Components/GpsReceiver/GpsReceiver.cpp:28-248 | every fix record printed as a checksummed sentence of at most 99 bytes, cut into drains anywhere, gives exactly, in this order: its time, quality, satellites, latitude, longitude, altitude and HDOP in their channels, the fix event on a change between no fix and a fix, and the count |
| GpsRoundTrip.EndToEndAfterNewline | Components/GpsReceiver/GpsReceiver.cpp:28-248 | the same after any history that ends in a newline and any lines of other types |
| GpsRoundTrip.PublishedDetermines | Components/GpsReceiver/GpsReceiver.cpp:154-247 | what two records announce is the same if and only if they agree on time to the second, quality, satellites, degrees and ten-thousandths of a minute of both coordinates, the hemisphere of every angle but zero, and HDOP and altitude as published; so the hemisphere of a zero angle, subseconds, talker and further fields are lost, and nothing else |
| GpsRoundTrip.PublishedExample | Components/GpsReceiver/GpsReceiver.cpp:231-245 | a fix at 48 degrees 7.038 minutes north, 11 degrees 31 minutes east, with its literal value in each channel |
| GpsErrors.TimeRead | Components/GpsReceiver/GpsReceiver.cpp:172-185 | a time of fewer than six characters is 0, six digits are packed, and other characters count as their distance from 0 modulo 256 for each pair |
| GpsErrors.FieldErrors | Components/GpsReceiver/GpsReceiver.cpp:187-229 | the fields are a fix if and only if all six are readable, and the error carries the number of the first that is not |
| GpsErrors.HdopPublished | Components/GpsReceiver/GpsReceiver.cpp:215-222 | an HDOP outside 16 bits is published as 9999 |
| GpsErrors.UnreadableField | Components/GpsReceiver/GpsReceiver.cpp:63-229 | a checksummed sentence with an unreadable field publishes its time and the number of the first such field; fix memory and count stay |
| GpsErrors.TooFewFields | Components/GpsReceiver/GpsReceiver.cpp:154-158 | with fewer than ten fields only ParseError 0 is reported |
| GpsErrors.BlankPositionHidesLoss | Components/GpsReceiver/GpsReceiver.cpp:187-247 | a sentence of quality 0 with a blank latitude neither reports nor remembers the loss of the fix |
| GpsErrors.CorruptedSentence | Components/GpsReceiver/GpsReceiver.cpp:63-78 | a sentence with one changed byte gives the checksum event with the line, or nothing when it is no longer GGA |
| UartRing.IrqStep | hal/rp2040_uart.c:38-58 | the interrupt appends the byte behind the unread ones, or drops it exactly when 255 are held as seen through the stored tail |
| UartRing.StepRefines | hal/rp2040_uart.c:38-140 | every memory access and every interrupt keeps the invariant and is one enabled operation of a queue of capacity 255 |
| UartRing.RunRefinesQueue | hal/rp2040_uart.c:38-140 | under every interleaving the ring's contents are those of the queue run |
| UartRing.RunInv | hal/rp2040_uart.c:38-140 | accepted bytes are, in order, the removed ones followed by the held ones, at every point of every run |
| UartRing.Conservation | hal/rp2040_uart.c:38-140 | received = delivered + flushed + held + dropped, and never more than 255 held |
| UartRing.HistoryIsFaithful | hal/rp2040_uart.c:38-130 | the history used above is what the interrupt received and what callers got, in order |
| UartRing.ResultMeaning | hal/rp2040_uart.c:116-140 | getc returns the oldest held byte; empty only by an empty sample; available lies between what was held at its beginning and end |
| UartRing.EmptyExactly | hal/rp2040_uart.c:122-126 | whatever arrives between the sample of the head and the test of the tail, getc returns empty if and only if nothing was held at the sample |
| UartRing.FlushExactly | hal/rp2040_uart.c:137-140 | under any interrupts between its two accesses, a flush throws away exactly what was held when it sampled the head, and holds at the end exactly what was accepted since |
| UartDriver.RingBuf.constructor | hal/rp2040_uart.c:61-65 | the initial ring is empty, whatever its buffer holds |
| UartDriver.RingBuf.RxIrqHandler | hal/rp2040_uart.c:38-58 | the handler's loop is one interrupt step for each readable byte; the bytes go behind the held ones up to 255 in all |
| UartDriver.RingBuf.GetcNb | hal/rp2040_uart.c:116-130 | with arbitrary interrupts before each memory access, a byte unread at the call is returned, oldest first; empty is answered if and only if nothing was held or arrived before the head was sampled; the run is the step system's |
| UartDriver.RingBuf.Fetch | hal/rp2040_uart.c:127-129 | the read and the tail update return and remove the same byte |
| UartDriver.RingBuf.RxAvailableCount | hal/rp2040_uart.c:132-135 | with the two volatile reads in either order, the count lies between what was held at the call and at the return |
| UartDriver.RingBuf.RxFlush | hal/rp2040_uart.c:137-140 | under any interrupts, what was held at the head sample is flushed, what arrives after it is held, up to 255 in all, and without arrivals the ring is empty |
| UartStream.FewArrivalsKept | hal/rp2040_uart.c:38-58 | while at most 255 bytes have arrived nothing was dropped, whatever the task did |
| UartStream.StreamFrom | hal/rp2040_uart.c:38-130 | from any state that satisfies the invariant, over any interleaving without flush: held bytes followed by those accepted since are the returned ones followed by those still held, wherever else bytes were dropped or flushed |
| UartStream.AcceptedPreserved | hal/rp2040_uart.c:38-130 | from power-up without flush the bytes returned are a prefix of those accepted, and all of them exactly when the ring is empty |
| UartStream.StreamPreserved | hal/rp2040_uart.c:38-130 | the same for the bytes received, when none was dropped |
| UartToTelemetry.InterruptToTelemetry | Components/GpsReceiver/GpsReceiver.cpp:28-248 | from any state of receiver and ring: when what the ring held and then accepted, in any interleaving, is a history ending in a newline, lines of other types and then a printed fix, and the task reads until the ring is empty, in any drains, exactly the fix is announced, channel by channel, behind what the history published; bytes may have been dropped or flushed before, and dropped anywhere else |
| UartToTelemetry.ReceivedToTelemetry | Components/GpsReceiver/GpsReceiver.cpp:28-248 | the same from power-up for the received bytes, when none was dropped |
| UartToTelemetry.FirstSentence | Components/GpsReceiver/GpsReceiver.cpp:28-248 | the first sentence after power-up needs neither the newline nor the assumption about drops |
| UartToPackets.InterruptToPackets | Components/LoRaDriver/LoRaDriver.cpp:163-207 | after any run that ends ready, from any state of the ring that holds what the driver has not read, in any interleaving and polling rounds: exactly the packet lines in what the buffer held followed by the returned bytes are counted and reported, in order, with their figures, and the driver is left with what the ring holds |
| QueueModel.StepValid | Os/Baremetal/Queue.cpp:66-132 | head - tail = count modulo 2^32 and count at most depth, kept by every operation |
| QueueModel.AnswersExactly | Os/Baremetal/Queue.cpp:76-132 | a full queue refuses whatever the size, then the size is checked, an empty one has no messages, and a refused call changes nothing |
| QueueModel.ReceiveIsFifo | Os/Baremetal/Queue.cpp:105-132 | receive returns the oldest message and leaves the others, in every state |
| QueueModel.SlotClash | Os/Baremetal/Queue.cpp:88-100 | which unread message, if any, shares the slot of the next send |
| QueueModel.SendIsFifo | Os/Baremetal/Queue.cpp:66-103 | an accepted send appends its message if and only if it overwrites no unread one (or the same one) |
| QueueModel.StepRefines | Os/Baremetal/Queue.cpp:66-132 | outside that case every operation is the bounded FIFO's, results included |
| QueueModel.RunIndices | Os/Baremetal/Queue.cpp:99-100 | over every run, head and tail are the accepted sends and receives modulo 2^32 |
| QueueModel.RunRefinesFifo | Os/Baremetal/Queue.cpp:66-132 | FIFO over every run with at most 2^32 accepted sends, and over every run when the depth divides 2^32 |
| QueueModel.FifoIffDepthDivides | Os/Baremetal/Queue.cpp:88-120 | all runs agree with the FIFO if and only if the depth divides 2^32 |
| QueueModel.BrokenRun | Os/Baremetal/Queue.cpp:88-120 | for every other depth, a run whose last receive is wrong |
| QueueModel.ConfiguredDepths | config/AcConstants.fpp:7-9 | for the configured depths 10 and 20, a run that a FIFO answers differently |
| MessageQueues.Queues.constructor | Os/Baremetal/Queue.cpp:16-29 | an empty, zeroed pool |
| MessageQueues.Queues.Create | Os/Baremetal/Queue.cpp:34-64 | succeeds if and only if fewer than 8 queues exist and the 32-bit sum of offset and size is at most 8192; which block it hands out, and that the pool stays sound if and only if the true size does not overflow 32 bits; then the queue is empty and all others are untouched |
| MessageQueues.Queues.Send | Os/Baremetal/Queue.cpp:66-103 | on the byte array, exactly the model's send, with every other queue's contents unchanged; full, too long or sent by the messages held and the size |
| MessageQueues.Queues.WriteMessage | Os/Baremetal/Queue.cpp:91-97 | the header and the copy loop change exactly the bytes of one message |
| MessageQueues.Queues.Receive | Os/Baremetal/Queue.cpp:105-132 | exactly the model's receive; a message that just fits the caller's buffer is delivered, and one too long for it is removed all the same |
| MessageQueues.Queues.ReadMessage | Os/Baremetal/Queue.cpp:123-128 | the decoded header and payload are the stored message |
| MessageQueues.WrittenReads | Os/Baremetal/Queue.cpp:91-128 | what is written with its big-endian length reads back |
| MessageQueues.WrittenBytes | Os/Baremetal/Queue.cpp:91-97 | the bytes written are the length, most significant byte first, and the message, and no others change |
| MessageQueues.WriteSlot | Os/Baremetal/Queue.cpp:87-97 | writing one slot changes that slot's message and no other |
| MessageQueues.AccessesDisjoint | Os/Baremetal/Queue.cpp:87-128 | the byte ranges of different slots, of one queue or two, are disjoint and inside the pool |
| MessageQueues.SendEffect | Os/Baremetal/Queue.cpp:66-103 | an accepted send keeps the whole pool sound and moves one queue by one model step |
| MessageQueues.ReceiveEffect | Os/Baremetal/Queue.cpp:105-132 | an accepted receive keeps the whole pool sound and moves one queue by one model step |
| QueueRuns.ActEffect | Os/Baremetal/Queue.cpp:34-132 | on the byte array, a send or receive is one step of its queue, and no action changes any other queue |
| QueueRuns.CreateGrows | Os/Baremetal/Queue.cpp:34-64 | a creation whose true size does not overflow keeps the pool sound, leaves every queue as it was and adds an empty one, or is refused and changes nothing; it is accepted if and only if a control block is free and it fits the pool |
| QueueRuns.QueuesAreIndependent | Os/Baremetal/Queue.cpp:34-132 | over every interleaving of operations on all queues and of further creations, each queue's contents and outcomes are those of its own operations alone |
| QueueRuns.EveryQueueIsFifo | Os/Baremetal/Queue.cpp:34-132 | so a queue that nothing has passed through yet is a FIFO from there on, for at most 2^32 accepted sends to it or for ever when its depth divides 2^32 |
| QueueRuns.FifoFromCreation | Os/Baremetal/Queue.cpp:34-132 | in particular every queue from its creation on, whatever is created or used besides it |
| QueueRuns.SlotsStayApart | Os/Baremetal/Queue.cpp:34-132 | from power-up, after any run of creations (without size overflow) and operations, the byte ranges of different slots are disjoint and inside the pool |
| MessageQueues.OverflowingCreate | Os/Baremetal/Queue.cpp:44-46 | a request whose size wraps to 0 is accepted though it exceeds the pool |
| AtCommands.U32toa | Components/LoRaDriver/LoRaDriver.cpp:13-29 | the canonical decimal of every 32-bit value, cut to the buffer, and uncut from 11 bytes on |
| AtCommands.LowDigits | Components/LoRaDriver/LoRaDriver.cpp:16-21 | the ten-digit guard never cuts a 32-bit value |
| AtCommands.Append | Components/LoRaDriver/LoRaDriver.cpp:287-293 | the copy loop appends the text, cut only at the end of the buffer |
| AtCommands.BuildFrame | Components/LoRaDriver/LoRaDriver.cpp:283-301 | for every payload of at most 80 bytes the command is `AT+SEND=0,` + decimal length + `,` + payload, uncut |
| AtCommands.BandCommand | Components/LoRaDriver/LoRaDriver.cpp:82-92 | the default frequency command |
| AtCommands.FrameReads | Components/LoRaDriver/LoRaDriver.cpp:283-312 | a reader that takes the length at its word gets the payload and the rest of the wire |
| AtCommands.FramesReadBack | Components/LoRaDriver/LoRaDriver.cpp:283-312 | any sequence of payloads, whatever bytes they hold, is recovered from its frames |
| RcvParser.ParseRcv | Components/LoRaDriver/LoRaDriver.cpp:211-269 | in every buffer, also one that ends at the terminator, no read leaves a line starting `+RCV=`, and the result is what the line means; no 32-bit operation overflows |
| RcvParser.SkipField | Components/LoRaDriver/LoRaDriver.cpp:215-231 | a field is skipped exactly when a comma ends it within its limit |
| RcvParser.ReadDigits | Components/LoRaDriver/LoRaDriver.cpp:236-241 | the value of the digit run, up to the limit |
| RcvParser.ReadSnr | Components/LoRaDriver/LoRaDriver.cpp:246-264 | tenths of the figure, with at most one decimal |
| RcvLaws.SnrRead | Components/LoRaDriver/LoRaDriver.cpp:246-264 | a sign, digits and any text that does not go on with a digit: ten times the first four digits plus the first decimal, if there are no more than four digits and a dot and a digit follow |
| RcvLaws.ParsePrinted | Components/LoRaDriver/LoRaDriver.cpp:211-269 | the exact result for every received line of comma-ended fields without NUL, in terms of its digits, limits and 16-bit wrap included |
| RcvLaws.AcceptedShape | Components/LoRaDriver/LoRaDriver.cpp:211-269 | conversely every accepted line, up to its first NUL, has that shape with parts that fit |
| RcvRoundTrip.PacketRoundTrip | Components/LoRaDriver/LoRaDriver.cpp:211-269 | for fields without comma and NUL, both figures of a printed packet are read back over the whole 16-bit range exactly when the fields fit, else the line is rejected |
| RcvRoundTrip.IntegerRoundTrip | Components/LoRaDriver/LoRaDriver.cpp:211-269 | the same for figures in whole decibels of up to four digits: ten times the figure is reported, as a 16-bit number |
| RcvRoundTrip.ReadBackExactly | Components/LoRaDriver/LoRaDriver.cpp:211-269 | for any fields: all 16-bit figures of a packet are read back if and only if every field fits its limit and has no comma and no NUL |
| RcvRoundTrip.StrengthBeforeComma | Components/LoRaDriver/LoRaDriver.cpp:227-244 | with a comma in front of them, the figures have no influence on the signal strength that is read |
| RcvRoundTrip.CommaMisread | Components/LoRaDriver/LoRaDriver.cpp:227-231 | one such packet: payload text is reported as the figures |
| RcvRoundTrip.NulInData | Components/LoRaDriver/LoRaDriver.cpp:211-231 | a packet whose comma-free data holds a NUL is rejected, whatever its figures |
| RcvRoundTrip.NulRejected | Components/LoRaDriver/LoRaDriver.cpp:211-231 | one such packet |
| LoRaDriver.LoRaDriver.constructor | Components/LoRaDriver/LoRaDriver.cpp:31-42 | the initial state |
| LoRaDriver.LoRaDriver.UartWrite | hal/rp2040_uart.c:96-113 | the byte loop and its wait loop, for every sequence of looks at the FIFO: exactly as many bytes leave as looks found space before one found it full and the deadline over, and success means all of them |
| LoRaDriver.LoRaDriver.ReadATLine | Components/LoRaDriver/LoRaDriver.cpp:138-160 | the reply loop, byte by byte, for any arrivals and deadline; the reply stays in the buffer |
| LoRaDriver.LoRaDriver.SendAT | Components/LoRaDriver/LoRaDriver.cpp:112-135 | text cut at 126 characters, line end, reply and its two-character test |
| LoRaDriver.LoRaDriver.InitModule | Components/LoRaDriver/LoRaDriver.cpp:63-109 | up to three probes, then the six set-up commands, each only after the one before was accepted |
| LoRaDriver.LoRaDriver.Restart | Components/LoRaDriver/LoRaDriver.cpp:50-60 | the module state, events and channel after an initialisation; also the reset command's |
| LoRaDriver.LoRaDriver.DataIn | Components/LoRaDriver/LoRaDriver.cpp:272-336 | the whole handler: refusal when not ready, size limit, frame, write errors, reply, error code, counters |
| LoRaDriver.LoRaDriver.SchedIn | Components/LoRaDriver/LoRaDriver.cpp:163-169 | polls only when ready |
| LoRaDriver.LoRaDriver.PollRx | Components/LoRaDriver/LoRaDriver.cpp:172-207 | drains at most 256 bytes and ends in what the stream means |
| LoRaDriver.LoRaDriver.TakeLine | Components/LoRaDriver/LoRaDriver.cpp:182-196 | a packet line is counted and reported with its figures, any other line ignored |
| LoRaLink.ReplyLoop | Components/LoRaDriver/LoRaDriver.cpp:138-160 | the loop consumes one piece of the stream: up to the first newline, or to the overrun, or all of what arrived; its stored bytes are the reply; nothing is lost or invented |
| LoRaLink.WaitingReply | Components/LoRaDriver/LoRaDriver.cpp:138-160 | a whole line at the front of the ring is the reply, whatever arrives meanwhile |
| LoRaLink.AcceptedExactly | Components/LoRaDriver/LoRaDriver.cpp:112-160 | `sendAT` returns true if and only if the whole text and line end went onto the wire and the first line then consumed from the ring is at least two characters, `+` and then `O` or `R`; in every other case (cut write, timeout, overrun, other line) it returns false; how many bytes got onto the wire, which were consumed and what was reported are stated for all |
| LoRaLink.AcceptedCommand | Components/LoRaDriver/LoRaDriver.cpp:112-135 | in particular an accepted command put its whole text on the wire and consumed exactly one line, an accepting reply |
| LoRaLink.FirstLineDecides | Components/LoRaDriver/LoRaDriver.cpp:112-160 | a waiting whole line alone decides, and what stands behind it stays |
| LoRaLink.ErrorRefused | Components/LoRaDriver/LoRaDriver.cpp:130-134 | a waiting line that starts +ERR makes the command fail |
| LoRaLink.CommandTextExactly | Components/LoRaDriver/LoRaDriver.cpp:114-116 | a command is sent up to its first NUL and cut at 126 characters |
| LoRaLink.RoomExactly | hal/rp2040_uart.c:96-113 | the bytes that get out are the looks that found space before the first that found the deadline over |
| LoRaLink.LateOkRefused | Components/LoRaDriver/LoRaDriver.cpp:112-160 | a +OK behind an unsolicited line is refused, and answers the next command instead |
| LoRaLink.CommandOnWire | Components/LoRaDriver/LoRaDriver.cpp:112-135 | any command leaves a beginning of its text and line end on the wire |
| LoRaLink.PacketTakenForReply | Components/LoRaDriver/LoRaDriver.cpp:130-134 | a waiting packet line makes the command succeed and is gone |
| LoRaStart.InitTranscript | Components/LoRaDriver/LoRaDriver.cpp:63-109 | success implies the wire carried one to three AT, the earlier ones perhaps cut short, then AT+RESET, AT+BAND=868000000, AT+PARAMETER=9,7,1,12, AT+ADDRESS=1, AT+NETWORKID=6 and AT+CRFOP=14, each with its line end, and nothing else, with an accepted reply to the last AT and to each later command |
| LoRaStart.InitExactly | Components/LoRaDriver/LoRaDriver.cpp:63-109 | every initialisation, whatever the replies: up to three AT of which only the last may be accepted, then the six commands in order up to the first that is refused; it succeeds if and only if all six are accepted |
| LoRaStart.ErrorStops | Components/LoRaDriver/LoRaDriver.cpp:63-134 | an error line waiting for a set-up command is the end of the initialisation, which fails |
| LoRaStart.RestartExactly | Components/LoRaDriver/LoRaDriver.cpp:50-60 | after any overruns of the replies: ModuleReady and state 1, or InitFailed with 3 attempts and state 2; the counters stay |
| LoRaRuns.StateIsLatestStart | Components/LoRaDriver/LoRaDriver.cpp:416-430 | over every run the module is ready exactly when the latest initialisation succeeded, and uninitialised exactly when there was none |
| LoRaRuns.ReadyWasSetUp | Components/LoRaDriver/LoRaDriver.cpp:50-109 | a ready module has been sent the whole set-up sequence, spelled out |
| LoRaRuns.SendCounts | Components/LoRaDriver/LoRaDriver.cpp:304-335 | each packet handed over while ready adds exactly one to exactly one of the two counters |
| LoRaRuns.CountersAddUp | Components/LoRaDriver/LoRaDriver.cpp:272-336 | over every run sent plus errors is the number of such packets, each counter modulo 2^32 |
| LoRaRuns.SentExactly | Components/LoRaDriver/LoRaDriver.cpp:272-336 | the whole handler: nothing happens before the module is ready, more than 80 bytes are only reported; else a packet counts as sent if and only if the whole frame (AT+SEND=0, length, payload) and line end went onto the wire and the first line consumed from the ring behind it is neither empty nor starts +E; every other ending (cut write, timeout, overrun, empty or error line) counts one error, with the error code of the reply; channels and events are stated for each, and no received byte is lost or invented |
| LoRaRuns.PayloadsReadable | Components/LoRaDriver/LoRaDriver.cpp:272-336 | whatever the replies, the wire carries one frame for each packet in order, and the payloads can be read back |
| LoRaPackets.CountsPackets | Components/LoRaDriver/LoRaDriver.cpp:172-207 | over every stream from an empty buffer the packet counter rises by exactly the number of completed lines whose tail (period 128, CR dropped) is an accepted packet line |
| LoRaPackets.PollsConsume | Components/LoRaDriver/LoRaDriver.cpp:163-207 | polling rounds consume a beginning of the stream, and how they cut it does not matter |
| LoRaPackets.RoundsDrain | Components/LoRaDriver/LoRaDriver.cpp:163-207 | k rounds without arrivals take 256 bytes each, so they empty the ring if and only if it holds at most 256 k; only a ready driver takes any |
| LoRaPackets.RunsKeepInv | Components/LoRaDriver/LoRaDriver.cpp:138-207 | after every run the buffer holds less than 128 bytes, without CR and newline |
| LoRaPackets.LeftoverIsPrefix | Components/LoRaDriver/LoRaDriver.cpp:138-207 | the poller treats what an AT exchange left in the buffer as text received just before |
| LoRaPackets.PollerCounts | Components/LoRaDriver/LoRaDriver.cpp:163-207 | after every run that ends ready, and over any polling rounds from there, the counter rises by exactly the number of packet lines in what the buffer held followed by the bytes drained |
| LoRaPackets.NextLineCounted | Components/LoRaDriver/LoRaDriver.cpp:172-207 | the next line, polled in any number of rounds, is counted if and only if the leftover followed by the line is a packet line once the overruns are gone |
| LoRaReports.ReportedExactly | Components/LoRaDriver/LoRaDriver.cpp:172-207 | a line of any length, CRs included, into an empty buffer is reported with given figures, behind its overruns and with the next count, if and only if its tail is a packet line with those figures |
| LoRaReports.PacketReported | Components/LoRaDriver/LoRaDriver.cpp:172-207 | a printed packet with room for its figures is reported with them if and only if its fields, CRs dropped, are read back |
| LoRaReports.PacketsReportedExactly | Components/LoRaDriver/LoRaDriver.cpp:172-269 | newline-free fields with room for the figures: the packet is reported with all 16-bit figures if and only if every field, CRs dropped, fits and has no comma and no NUL |
| LoRaReports.StreamReported | Components/LoRaDriver/LoRaDriver.cpp:172-207 | over every stream from an empty buffer, overruns, CRs, NULs and newlines anywhere: the packets reported are exactly the packet lines, each once, in order, with their figures |
| LoRaReports.PacketsJoin | Components/LoRaDriver/LoRaDriver.cpp:180-200 | a newline separates what precedes it from what follows, also inside a packet's fields |
| LoRaReports.PollerReports | Components/LoRaDriver/LoRaDriver.cpp:163-207 | after every run that ends ready, and over any polling rounds: exactly the packet lines in what the buffer held followed by the bytes drained are counted and reported, in order, with their figures |
| LoRaPackets.LeftoverSpoils | Components/LoRaDriver/LoRaDriver.cpp:184-187 | text left in front of a packet line spoils it, unless that text is itself the start of one |
| LoRaPackets.StaleReplyLosesPacket | Components/LoRaDriver/LoRaDriver.cpp:138-207 | a packet that follows a reply left in the buffer and fits behind it is not counted, unless the reply was itself a packet line |
| LoRaPackets.FirstLineAfterStart | Components/LoRaDriver/LoRaDriver.cpp:50-207 | after every run and a successful initialisation the buffer holds a reply starting +O or +R, and the first line polled then is counted if and only if that reply followed by the line is a packet line |
| LoRaLostPacket.LostPacket | Components/LoRaDriver/LoRaDriver.cpp:50-207 | a run from power-up, with a module that answers +OK, in which any short packet line is polled and not counted, though it is with an empty buffer |
| LoRaLostPacket.LostPacketExample | Components/LoRaDriver/LoRaDriver.cpp:50-207 | the same for one packet spelled out |

## Left out

- Hardware: pins, baud rates, FIFO registers, watchdog and I2C; the Pico SDK calls are not part of this model.
- Wall-clock time: deadlines and delays appear only as how many polls or bytes they allow.
- F' framework: ports, command dispatch, rate groups, autocode, priorities and blocking modes.
- The choice between the two rings by `uart_id` and the NULL argument checks of the UART functions; both rings run the same code.
- In `UartDriver` an interrupt burst runs between two memory accesses; tearing of a single 32-bit access is not modelled.
- Interrupt masking in the queue: `send` and `receive` are atomic, as `save_and_disable_interrupts` makes them.
- MessageQueues.Queues.Send: the first queue has index 0, a null handle, which the source's assertion refuses; the precondition is that assertion.
- MessageQueues.Queues.Receive: same assertion as for sending.
- `getNumMsgs`, `getQueueSize`, `getMsgSize`: field reads; `getMaxMsgs` returns the current count.
- NmeaFields.ParseFP: undefined behaviour on overflow is modelled as two's-complement wrap; the ghost flag says when it cannot occur.
- NmeaFields.ParseDegMin: same treatment of overflow; minutes of 60 and more and text after the fraction are accepted, as in the source.
- GpsReceiver.GpsReceiver.ProcessLine: the text of the checksum event is the line as a C string, without the length limit of event strings.
- `parseU16`, which nothing calls.
- `LORA_SET_FREQ`, `LORA_SET_SF` and `LORA_SET_POWER`: they print one number into a command and call `sendAT`; `LORA_SEND_AT` is `sendAT` itself.
- The command response of `LORA_RESET`, which is the boolean that `Restart` returns.
- `BatteryMonitor`, `Os/atomic.c`, `Os/Baremetal/Mutex.cpp`, `Task.cpp`, `File.cpp` and the timer: only easy claims.
