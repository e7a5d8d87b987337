# A verified model of the slip-bridge / slip-radio link

`slip-bridge` runs an IPv6 stack on a Linux host and reaches an 802.15.4 radio on a mote that runs
`slip-radio`. The two exchange packets and short commands over a serial line, framed as in RFC 1055.
This project models both ends of that line in Dafny and proves what the link is for.

| file | models |
|---|---|
| `SlipCodec.dfy` | the two escaping encoders and the RFC 1055 decoder |
| `TransmitLink.dfy` | the host's transmit side as an abstract machine; theorems over all schedules |
| `SlipQueue.dfy` | `slip_buf` and its four cursors as a class that refines that machine |
| `SerialInput.dfy`, `ReceiverTheorems.dfy` | the resumable receiver, and what it delivers |
| `MoteWire.dfy`, `SharedWire.dfy` | the mote's packet sender and debug output on one UART, and what the host sees of them |
| `SessionRings.dfy`, `SessionProtocol.dfy` | the callback ring, the session-id ring, and both nodes as a transition system |
| `BridgeRdc.dfy`, `MoteRadio.dfy`, `Commands.dfy`, `EndToEnd.dfy` | the code around the rings, and the frames between them |
| `SessionLinks.dfy`, `TwoNodes.dfy`, `TwoNodeTheorems.dfy`, `TwoNodeProgress.dfy` | both nodes and the serial line as one machine, with everything else the line carries; its runs are runs of the transition system, and can always go on |
| `SessionRun.dfy` | the code of both nodes put together, which carries out that machine move by move |
| `Fields.dfy`, `Ipv6Text.dfy`, `RoutesPage.dfy`, `Sensors.dfy`, `StatusPage.dfy`, `PageReader.dfy` | the status page: address printer, paged buffer, sensor table, and a reader of what is sent |
| `TunPacing.dfy` | pacing of packets read from the TUN device |
| `ClientStats.dfy` | the two scripts that summarise measurements |
| `CommandLetters.dfy`, `Options.dfy` | shared definitions |

Code that updates state in place is modelled by classes and loops with the source's variables; what it
promises is proved about the functions that specify it. Schedules are arbitrary: which steps happen,
how much `write` takes, how the input is cut, in which order the radio completes.

## What the proofs found

* An empty payload queued behind another frame breaks the transmit queue: the search for the next
  frame starts at index 1 and misses a lone END. It is then stranded, or sent together with the
  frame behind it (`LoneEndIsMisread`). The buffer keeps describing its queue exactly when that
  does not happen (`HandleWritable`); every caller in the repository passes at least two bytes. The bytes
  on the wire stay right in any case (`SlipQueue.Execute`).
* A report that arrives is matched to its packet if and only if the packet 16 sends later has not been registered when
  the host handles the report (`SessionMatching`, and `AnswersMatch` for both nodes with all other traffic).
  That rejected packets overwrite but do not advance the mote's ring does no harm.
* The mote passes on every frame its radio receives, and the host takes one that begins with "!R" for a report:
  it calls back a sender whose packet the mote may not even have received (`ForgedReport`). A frame of the
  single byte "!" does so too if the stale bytes behind it in the buffer ask for it (`LoneMarkReports`).
  Besides the calls that real reports lead to, which stay right, the host makes exactly the calls of
  such frames (`OnlyAnswers`, `OnlyAnswersUnlessForged`, `ReportsHeard`).
* At the verbosities that echo lines (2, 3, and above 4) a report for session id 10 never arrives as it is,
  because its first three bytes look like a line of text. What is handed on in its place is the bytes behind
  the last newline: usually a frame of two bytes, the status and the count (`ReportRemains`). Such a report,
  and one spoiled by an ESC of the debug text, is lost; nothing else is disturbed (`RunKeeps`, `AllAnswered`).
* Debug text can lose its marker byte in two ways: a packet splits its line, or the line fills the host's
  buffer of 2048 bytes. Either way its rest can be taken for a command (`SplitLineBecomesCommand`,
  `LongLineBecomesCommand`); `DebugTextStaysDebug` and `CommandsArrive` say exactly when.
* An ESC in debug text spoils a packet sent right behind it, an END harms none (`AnyTextSafety`).
* The delay between frames, meant to avoid losing data, is kept exactly when the next frame was queued before
  the last one was finished; a frame queued a moment later follows at once (`GapExactlyWithBacklog`).
* With sensors on the status page a closing tag is sent twice (`PagingIsExact`). Sensor readings stay inside
  their slots exactly when each of the fields kept has less than 32 characters (`SetSensors`).
* The total in a client summary counts successes and requests that never ran, not rows, so with failed
  requests the merged mean is a weighted mean with the wrong weights (`FailuresSkewTheMean`).
  `MergeIsExact` and `ExactForAllTimes` say when it is right nevertheless, and `NoMeanPrinted` when the
  script divides by zero.

## Model

| member | source | states |
|---|---|---|
| SlipCodec.EncodingBytes | tools/slip-bridge/slip-dev.c:355-405 | the bytes themselves: a payload byte 192 is sent as 219 220, 219 as 219 221, every other one as it is, and 192 ends the frame; the mote sends 192 before it too |
| SlipCodec.DecodingBytes | tools/slip-bridge/slip-dev.c:207-263 | 192 ends a frame, 219 opens an escape, 219 220 is 192 and 219 221 is 219; every other byte, behind 219 too, stands for itself |
| SlipCodec.EncodeIsFrame | tools/slip-bridge/slip-dev.c:383-403 | an encoding has END as its last byte and nowhere else; it is a lone END only for an empty payload |
| SlipCodec.EncodeSize | tools/slip-bridge/slip-dev.c:388-403 | an encoding has one byte per payload byte, one more per END and per ESC, and the final END: at most 2n+1 |
| SlipCodec.DecodeEncode | tools/slip-bridge/slip-dev.c:388-403 | decoding a host encoding yields pending bytes and payload merged into one frame; the payload alone if nothing was pending |
| SlipCodec.DecodeMoteEncode | tools/slip-radio/slip-net.c:56-68 | decoding a mote encoding yields the pending bytes as a frame of their own and then exactly the payload: the leading END keeps them apart |
| SlipCodec.HostRoundTrip | tools/slip-bridge/slip-dev.c:355-405 | for every list of payloads, decoding the concatenated host encodings yields exactly the non-empty ones, in order |
| SlipCodec.MoteRoundTrip | tools/slip-radio/slip-net.c:50-69 | the same for the mote's encodings |
| TransmitLink.DecodedFromWire | tools/slip-bridge/slip-dev.c:313-353 | what decodes from the bytes written so far is a prefix of the payloads accepted, and all of them once the queue is empty |
| TransmitLink.RunDelivers | tools/slip-bridge/slip-dev.c:289-405 | over every schedule of enqueues and partial, refused or failing writes: written bytes followed by pending bytes equal the bootstrap END and all encodings in order, and packets are delivered in order |
| TransmitLink.RunAcceptsAll | tools/slip-bridge/slip-dev.c:355-405 | as long as the program runs, the accepted payloads are all the payloads of the schedule |
| TransmitLink.WritesStayWithinFrames | tools/slip-bridge/slip-dev.c:322-337 | over every schedule each single write stays within one frame, and the writes in order are the wire |
| TransmitLink.FrameBoundaryPacing | tools/slip-bridge/slip-dev.c:329-350 | over every schedule with a send delay: if a write finishes a frame while another is queued, every write to that next frame comes at least the delay later |
| TransmitLink.GapExactlyWithBacklog | tools/slip-bridge/slip-dev.c:335-350 | after a write that finishes a frame, the delay before the next one is kept whatever follows if and only if a frame was queued already |
| TransmitLink.EnoughRoundsDeliver | tools/slip-bridge/slip-dev.c:313-353 | from every state of every schedule, as many rounds of the loop as bytes are waiting, each after the delay and with a write that takes at least one byte, empty the queue and deliver every packet accepted |
| SlipQueue.ScanFindsNextFrame | tools/slip-bridge/slip-dev.c:338-345 | the scan from index 1 marks the end of the oldest remaining frame if and only if that frame is not a lone END |
| SlipQueue.LoneEndIsMisread | tools/slip-bridge/slip-dev.c:338-345 | a lone END at the front is taken for an empty buffer, or for one frame together with the next |
| SlipQueue.NonEmptyPayloadsStayRepresented | tools/slip-bridge/slip-dev.c:313-353 | with non-empty payloads no flush ever brings a lone END to the front |
| SlipQueue.MatchesDrain | tools/slip-bridge/slip-dev.c:329-351 | after a partial write, or after compaction and scan, contents, cursors and count describe the drained queue, exactly unless a lone END came to the front |
| SlipQueue.SlipBuffer.constructor | tools/slip-bridge/slip-dev.c:539-540 | initially one END is queued and the timer has expired |
| SlipQueue.SlipBuffer.SlipSend | tools/slip-bridge/slip-dev.c:289-305 | one byte is appended, or the buffer is full and nothing changes; END counts a frame and marks the first frame end |
| SlipQueue.SlipBuffer.SlipEmptyIsExact | tools/slip-bridge/slip-dev.c:307-311 | slip_empty, an empty queue, slip_end = 0 and a frame count of 0 are the same thing |
| SlipQueue.SlipBuffer.WriteToSerial | tools/slip-bridge/slip-dev.c:355-405 | appends the encoding, whose bytes EncodingBytes gives, if and only if slip_end plus its length is at most 2048; on overflow the buffer holds the longest part that fits |
| SlipQueue.SlipBuffer.WriteToSlip | tools/slip-bridge/slip-dev.c:407-414 | no effect while the link is closed; otherwise, in every state, the encoding joins the pending bytes if it fits, and the program ends if it does not; a buffer that represents its queue then represents it with the payload added |
| SlipQueue.SlipBuffer.SlipFlushbuf | tools/slip-bridge/slip-dev.c:313-353 | in every state: the bytes put in are conserved, the taken bytes go to the wire, a finished frame is removed by the in-place shift, the timer is set if bytes remain |
| SlipQueue.SlipBuffer.HandleWritable | tools/slip-bridge/slip-dev.c:474-484 | the queue advances by the bytes taken, and the buffer goes on representing it if and only if no lone END came to the front |
| SlipQueue.SlipBuffer.SetFd | tools/slip-bridge/slip-dev.c:462-472 | asks for write permission exactly when a frame is queued and the delay is off or has expired |
| SlipQueue.NonEmptyPayloadsAreSmooth | tools/slip-bridge/slip-dev.c:338-345 | in a schedule without empty payloads no lone END ever comes to the front |
| SlipQueue.Execute | tools/slip-bridge/slip-dev.c:283-405 | any schedule carried out on the array and its cursors, empty payloads included: written and pending bytes are the encodings of all payloads in order, and what decodes is a prefix of them; as long as no lone END comes to the front the buffer follows the abstract machine, so the theorems about Run hold of it |
| SerialInput.SerialPort.IsSensibleString | tools/slip-bridge/slip-dev.c:147-160 | true exactly when all bytes but the first are printable, white space or NUL |
| SerialInput.SerialPort.EndOfFrame | tools/slip-bridge/slip-dev.c:208-243 | a non-empty buffer is handed on once and emptied: as a command if it begins with 33, a request with 63, a debug line with 13; otherwise as text if all bytes but the first are 0, 9, 10, 13 or 32 to 126, and as a packet if not |
| SerialInput.SerialPort.SerialInput | tools/slip-bridge/slip-dev.c:176-281 | leaves the state that the byte-by-byte reference reaches on all available input, with a trailing ESC pushed back; the buffer index stays below 2048 on both entry paths; ends the program exactly on an empty first read under Linux |
| SerialInput.SerialPort.HandleReadable | tools/slip-bridge/slip-dev.c:474-480 | one chunk of input takes the receiver, a pushed-back ESC included, to the state of the reference on that chunk |
| SerialInput.Feed | tools/slip-bridge/slip-dev.c:176-281 | however a stream is cut into non-empty chunks, the calls made are those of the reference on the whole stream |
| SerialInput.ChunkingIndependence | tools/slip-bridge/slip-dev.c:244-251 | at every verbosity two cuttings of one stream lead to the same calls in the same order and the same state |
| SerialInput.BoundedRefinesDecoder | tools/slip-bridge/slip-dev.c:190-278 | on every byte stream and at every verbosity the bounded receiver completes exactly the frames of the RFC 1055 decoder, each reduced to what the buffer holds of it at its end |
| SerialInput.LeftIsTail | tools/slip-bridge/slip-dev.c:190-206 | unless lines are echoed, that is the last length mod 2048 bytes |
| ReceiverTheorems.ReceivedBytes | tools/slip-bridge/slip-dev.c:207-276 | the receiver on every byte and every escape, at every verbosity: 192 completes the frame, 219 220 stores 192, 219 221 stores 219, another byte is stored; what is echoed, and when the buffer is emptied |
| ReceiverTheorems.HostStreamDelivery | tools/slip-bridge/slip-dev.c:190-278 | at every verbosity packets of any size in the host encoding are delivered in order, each reduced to what the buffer holds at its end (unless lines are echoed: its last length mod 2048 bytes), and the receiver is idle afterwards |
| ReceiverTheorems.MoteStreamDelivery | tools/slip-radio/slip-net.c:50-69 | the same for the mote's encoding |
| ReceiverTheorems.RoundTrip | tools/slip-bridge/slip-dev.c:207-278 | unless lines are echoed, a list of packets in the host encoding comes out as it went in if and only if every packet has 1 to 2047 bytes |
| ReceiverTheorems.MoteStreamRoundTrip | tools/slip-radio/slip-net.c:50-69 | the same for the mote's encoding |
| ReceiverTheorems.StreamFromAny | tools/slip-bridge/slip-dev.c:207-278 | at every verbosity a receiver in any state outside an escape completes what it had collected as a frame of its own and then all packets that the mote sends |
| ReceiverTheorems.Resynchronisation | tools/slip-bridge/slip-dev.c:208-243 | at every verbosity, after any bytes that do not end inside an escape, all packets of the mote that follow are delivered as if the stream began there |
| ReceiverTheorems.OnlyFirstIsLost | tools/slip-bridge/slip-dev.c:207-263 | a receiver in any state at all loses or spoils no packet of the mote but the first |
| ReceiverTheorems.CommandsOfFrames | tools/slip-bridge/slip-dev.c:209-212 | on every stream the command handler is given exactly the completed frames that begin with an exclamation mark, in order |
| ReceiverTheorems.FramesByKind | tools/slip-bridge/slip-dev.c:209-240 | on every stream and at every verbosity, of the decoder's frames as the buffer holds them: commands are exactly those that begin with 33, requests with 63, debug lines with 13; of the others the IP stack gets exactly those with a byte behind the first outside 0, 9, 10, 13, 32 to 126, and text is the rest; each in order |
| ReceiverTheorems.EchoingRoundTrip | tools/slip-bridge/slip-dev.c:265-276 | at the verbosities that echo lines a list of packets comes out as it went in if and only if every packet has 1 to 2047 bytes and no part of one up to a newline looks like text |
| MoteWire.Uart.SendPacket | tools/slip-radio/slip-net.c:50-69 | writes 192, the escaped payload, whose bytes EncodingBytes gives, and 192, whatever the debug state |
| MoteWire.Uart.PutChar | tools/slip-radio/slip-radio.c:186-211 | writes the character, with 192 and 13 before it when a line begins and 192 after a newline |
| MoteWire.InterleavingSafety | tools/slip-radio/slip-radio.c:186-211 | for every interleaving of packets and debug characters free of END and ESC, the wire decodes to pieces of which the packets are exactly the non-empty ones sent, intact, once and in order, and the rest is the debug text in order |
| MoteWire.AnyTextSafety | tools/slip-radio/slip-radio.c:186-211 | for every interleaving with debug characters of any kind, the frames on the wire that are packets are exactly the non-empty ones sent, intact, once and in order, if and only if none is sent while an ESC of the text waits for the next byte |
| SharedWire.HostSeesPieces | tools/slip-bridge/slip-dev.c:190-278 | at every verbosity the host's bounded receiver completes exactly those pieces, each reduced to what its buffer holds at its end; unless lines are echoed, whole if under 2048 bytes |
| SharedWire.MarkedUnlessSplit | tools/slip-radio/slip-radio.c:190-196 | all debug text is on the wire with the marker byte if and only if no packet was sent inside a line that then went on |
| SharedWire.HeadsExactly | tools/slip-bridge/slip-dev.c:190-216 | exactly which characters come to stand at the head of a piece of debug text in the host's buffer: those that go on with a line after a packet, or in an emptied buffer, and see its end before the buffer is full again |
| SharedWire.DebugTextStaysDebug | tools/slip-bridge/slip-dev.c:210-216 | unless lines are echoed, the frames the host completes are these; it takes all debug text among them for debug lines if and only if none of those characters differs from the marker byte |
| SharedWire.CommandsArrive | tools/slip-bridge/slip-dev.c:209-212 | unless lines are echoed, over every interleaving the host's command handler is given exactly the commands among the packets sent, in order, if and only if none of those characters is an exclamation mark |
| SharedWire.ShortUnsplitLinesKeepMarker | tools/slip-radio/slip-radio.c:186-211 | if no line is split and none reaches 2048 bytes with its marker, no marker is lost |
| SharedWire.LongLineBecomesCommand | tools/slip-bridge/slip-dev.c:190-212 | the end of a line of 2050 bytes reaches the host as a command although no packet splits it |
| SharedWire.SplitLineBecomesCommand | tools/slip-radio/slip-radio.c:192-196 | a split line can reach the host as a command |
| SessionRings.RegisterHolds | tools/slip-bridge/slip-bridge-rdc.c:82-98 | after any number of registrations the position is that number mod 16 and every slot holds the latest registration of its residue class |
| SessionProtocol.SessionMatching | tools/slip-radio/slip-radio.c:82-139 | in every run, with rejections, lost reports and completions in any order, a report invokes the callback registered for its packet if and only if the packet 16 sends later is not registered yet |
| SessionProtocol.OverrunMisroutes | tools/slip-bridge/slip-bridge-rdc.c:82-98 | there is a run in which a report goes to another packet's sender |
| SessionProtocol.ReportedOnce | tools/slip-radio/slip-radio.c:82-139 | in every run no packet is reported twice, and only packets that completed are reported |
| SessionProtocol.AllButRejectedReported | tools/slip-radio/slip-radio.c:82-139 | once nothing is underway, the packets reported are exactly those that the mote did not reject and whose reports were not lost |
| SessionProtocol.ReportsInOrder | tools/slip-radio/slip-radio.c:94-99 | in every run reports, lost ones excepted, arrive in the order of completion, each with the low bytes of its own status and transmission count |
| SessionProtocol.WindowedMatching | tools/slip-radio/slip-radio.c:61-63 | if a packet is sent only after the one 16 sends earlier was reported or rejected, or its report lost, every report invokes exactly its own packet's callback |
| SessionProtocol.WindowedExactlyOnce | tools/slip-radio/slip-radio.c:61-63 | in such a run no callback is invoked twice, and never that of a packet that was rejected or whose report was lost; once nothing is underway, all others have been |
| BridgeRdc.Rdc.SetupCallback | tools/slip-bridge/slip-bridge-rdc.c:82-98 | registers one callback under the number of earlier registrations mod 16 |
| BridgeRdc.Rdc.SendPacket | tools/slip-bridge/slip-bridge-rdc.c:100-140 | either one immediate fatal callback with ring and queue unchanged, exactly when framing or serialisation fails or the frame is too large, or one registration and one queued `!S` frame with its id, or the overflow that ends the program |
| BridgeRdc.Rdc.PacketSent | tools/slip-bridge/slip-bridge-rdc.c:69-80 | invokes the latest registration of the reported slot with the reported status and count; ignores ids from 16 on |
| MoteRadio.Radio.CmdHandler | tools/slip-radio/slip-radio.c:102-156 | for a command of any length: an `!S` command overwrites the current slot, and no other, with its id, well-formed or not; a well-formed one hands its payload, cut to the packet buffer, to the radio with that slot and advances the position mod 16, a malformed one does not |
| MoteRadio.Radio.PacketSent | tools/slip-radio/slip-radio.c:82-100 | the report carries the id found in the slot when the radio is done, and the low bytes of status and count |
| Commands.HexIsInjective | tools/slip-bridge/slip-bridge-cmds.c:101-106 | two addresses with the same hexadecimal text are the same |
| Commands.Handler.CmdHandler | tools/slip-bridge/slip-bridge-cmds.c:62-119 | which of the eight actions is taken is decided exactly by the two letters and the context; the `?M` answer is "!M" and the sixteen lower-case digits of the address, the high one of each byte first |
| EndToEnd.ReportLine | tools/slip-bridge/slip-dev.c:271-275 | exactly which reports look like a line of text |
| EndToEnd.ReportRemains | tools/slip-bridge/slip-dev.c:263-276 | what arrives of each report at every verbosity: all of it, or if lines are echoed and it looks like one the bytes behind its last newline |
| EndToEnd.ReportDelivery | tools/slip-bridge/slip-dev.c:207-276 | a report anywhere in the mote's stream, read by a receiver in any state outside an escape, reaches the command handler unchanged and in its place, unless lines are echoed and it looks like one; with session id 10 it always does |
| TwoNodes.RunKeeps | tools/slip-radio/slip-radio.c:82-139 | at every verbosity and in every run of both nodes, with partial writes, debug text of any characters, other packets, requests from the terminal and any cutting of the input: what is stored on each side is a state of the session protocol, and the mote's reports among the host's commands are that protocol's reports in order |
| TwoNodeTheorems.AnswersMatch | tools/slip-bridge/slip-bridge-rdc.c:69-80 | in every such run the calls that the mote's reports lead to are about the radio's completions in their order, with their status and count, and each invokes its own packet's callback if and only if the packet 16 sends later was not registered yet |
| TwoNodeTheorems.OnlyAnswers | tools/slip-bridge/slip-bridge-cmds.c:82-87 | in every run the host makes no calls but these if and only if no command it was given was taken for a report with an id of the ring without being one of the mote's |
| TwoNodeTheorems.StrangeHeard | tools/slip-radio/slip-net.c:72-95 | unless lines are echoed, if the debug text is free of END and ESC and none of it poses as a command, the commands the host hears besides the mote's reports are exactly those among the other packets, as its buffer keeps them |
| TwoNodeTheorems.ReportsHeard | tools/slip-radio/slip-net.c:72-95 | then the `!R` commands the host hears are exactly the mote's reports if and only if no other packet, as its buffer keeps it, begins with "!R" |
| TwoNodeTheorems.OnlyAnswersUnlessForged | tools/slip-radio/slip-net.c:72-95 | and, all read and no other command shorter than three bytes, the host has made no calls but the answers if and only if no other packet begins with "!R" and an id below 16 |
| TwoNodeTheorems.ForwardedCommand | tools/slip-radio/slip-net.c:72-95 | in every state without pending text, a forwarded packet that begins with "!" and that the receiver keeps whole is given to the host's handler, and nothing else changes |
| TwoNodeTheorems.ForgedReport | tools/slip-bridge/slip-bridge-cmds.c:82-87 | a forwarded frame "!R", id, status, count, unless it is echoed as a line, makes the host call the callback in that slot without any step of the protocol |
| TwoNodeTheorems.LoneMarkReports | tools/slip-bridge/slip-bridge-cmds.c:65-87 | a forwarded "!" alone leads to a call if and only if the bytes behind it in the buffer are "R" and an id below 16 |
| TwoNodeTheorems.WindowedAnswers | tools/slip-radio/slip-radio.c:61-63 | if a packet is sent only after the one 16 sends earlier was rejected or its report handled or lost, every report of the mote invokes exactly its own packet's callback, with that packet's outcome |
| TwoNodeTheorems.WindowedOnceEach | tools/slip-radio/slip-radio.c:61-63 | and once both lines are drained and the radio is done, the callback of every packet that was not rejected and whose report was not lost has been invoked with its outcome exactly once, and that of another one not at all |
| TwoNodeTheorems.AllAnswered | tools/slip-radio/slip-radio.c:82-139 | without the window: once drained, every packet that was not rejected and whose report was not lost has been reported and answered for exactly once, and no other; whose callback the answer was is the matter of AnswersMatch |
| TwoNodeProgress.CanFinish | tools/slip-radio/slip-radio.c:82-139 | progress: from every state of every run both nodes can go on, without sending anything else and without the program ending, until the lines are drained and the radio is done; and unless lines are echoed, so that every packet not rejected, and whose report was not lost, by then is reported |
| TwoNodeTheorems.LinkDownIsFifo | tools/slip-bridge/slip-bridge-rdc.c:122-137 | in every run the `!S` commands decoded by the mote carry the first packets sent, in order, and all of them once the transmit queue is empty |
| TwoNodeTheorems.RadioGetsPayload | tools/slip-radio/slip-radio.c:115-132 | what the radio gets for the next `!S` command is the payload of the next packet, cut to the packet buffer, if the attribute parser took exactly its attributes |
| TwoNodeTheorems.RunSends | tools/slip-bridge/slip-bridge-rdc.c:100-140 | as long as the program runs, the packets sent and callbacks registered are those of the list of moves, without the refused ones, in order |
| TwoNodeTheorems.RunEnds | tools/slip-bridge/slip-dev.c:289-327 | the program ends exactly when the transmit buffer overflows or a write that is due fails |
| SessionRun.Pair.Send | tools/slip-bridge/slip-bridge-rdc.c:100-140 | the driver and its transmit buffer make the machine's move: refused at once, or registered and queued under the next number mod 16, or ended by the overflow |
| SessionRun.Pair.Flush | tools/slip-bridge/slip-dev.c:313-353 | the transmit buffer drains as the abstract queue does, by what `write` takes when set_fd asks for it, and the mote decodes exactly these bytes |
| SessionRun.Pair.Receive | tools/slip-radio/slip-radio.c:102-139 | the mote's command handler makes the machine's move on its ring and its radio |
| SessionRun.Pair.Complete | tools/slip-radio/slip-radio.c:82-100 | the radio's callback and the report it sends over the UART make the machine's move, amid any debug text; the report is lost as such exactly if an ESC of the text waits for the next byte or the host echoes it as a line |
| SessionRun.Pair.Forward | tools/slip-radio/slip-net.c:72-95 | any packet that is passed on goes over the UART as the machine has it |
| SessionRun.Pair.HostReads | tools/slip-bridge/slip-dev.c:190-243 | any number of bytes through receiver, command handler and packet_sent lead to exactly the commands and calls of the machine |
| SessionRun.Pair.Stdin | tools/slip-bridge/slip-bridge-cmds.c:62-119 | a line typed at the terminal never reaches packet_sent, the MAC address or the sensors; a `?C` request joins the queue |
| SessionRun.Perform | tools/slip-radio/slip-radio.c:82-139 | each move of the machine, carried out by the code, leaves exactly the machine's next state, or ends the program exactly if that does |
| SessionRun.Execute | tools/slip-bridge/slip-bridge-rdc.c:69-140 | at every verbosity every list of moves, carried out by the code of both nodes from their initial state, ends the program exactly if the machine ends, and otherwise leaves exactly the state of the machine; so the theorems above are theorems about the code |
| Fields.JoinOfSplit | tools/slip-bridge/slip-bridge.c:270-292 | joining the fields of a text gives it back |
| Fields.SplitOfJoin | tools/slip-bridge/slip-bridge.c:270-292 | splitting joined fields gives them back |
| Ipv6Text.PrintRoundTrip | tools/slip-bridge/slip-bridge.c:121-142 | the printed text of every address parses, as section 2.2 of RFC 4291 has it, to that address |
| Ipv6Text.PrintRules | tools/slip-bridge/slip-bridge.c:121-142 | the text has only the characters 0123456789abcdef:, no group has a superfluous zero in front, and "::" stands for the whole of the first run of zero groups |
| Ipv6Text.PrintIsTheText | tools/slip-bridge/slip-bridge.c:121-142 | it is the only text with these properties that denotes the address |
| Ipv6Text.PrintInjective | tools/slip-bridge/slip-bridge.c:121-142 | different addresses have different texts |
| Ipv6Text.DoubleColonOnce | tools/slip-bridge/slip-bridge.c:128-136 | "::" occurs once, at the first zero group, if there is one, and otherwise not at all |
| Ipv6Text.PrintSize | tools/slip-bridge/slip-bridge.c:121-142 | an address takes at most 39 characters, none of them NUL |
| RoutesPage.AddrTextInjective | tools/slip-bridge/slip-bridge.c:126-127 | the same for addresses as sixteen bytes |
| RoutesPage.Page.Add | tools/slip-bridge/slip-bridge.c:117-119 | appends the text and a NUL, cut to the buffer, and moves the position by the whole text |
| RoutesPage.Page.IpaddrAdd | tools/slip-bridge/slip-bridge.c:121-142 | the loop appends exactly the text of the address, which PrintIsTheText characterises, given room |
| RoutesPage.Page.SendNeighbor | tools/slip-bridge/slip-bridge.c:160-165 | one neighbour line is appended uncut, and the buffer is sent before less than 45 characters are left |
| RoutesPage.Page.SendNeighbors | tools/slip-bridge/slip-bridge.c:155-170 | for every table the pieces sent amount to the complete neighbour listing |
| RoutesPage.Page.SendRoute | tools/slip-bridge/slip-bridge.c:174-183 | every route line fits the buffer and is sent whole; RouteReads says what it shows |
| RoutesPage.Page.GenerateRoutes | tools/slip-bridge/slip-bridge.c:144-208 | for all tables and sensors exactly the text Sent is sent; PageReads says what it shows |
| PageReader.AddressReads | tools/slip-bridge/slip-bridge.c:126-127 | the printed text of an address parses to its sixteen bytes |
| PageReader.RouteReads | tools/slip-bridge/slip-bridge.c:174-181 | a route line reads back: what stands before "/" is the destination, then come the prefix length, the next hop between " (via " and ")", and the lifetime exactly if it is below 600 |
| PageReader.PageReads | tools/slip-bridge/slip-bridge.c:144-208 | whatever the tables and the sensors, the page read by its tags and lines gives back the neighbour table and the route table, entry by entry and in order, under their titles |
| PageReader.SensorsRead | tools/slip-bridge/slip-bridge.c:191-200 | and the sensors under theirs, if their texts contain no tags and no newlines |
| PageReader.Serve | tools/slip-bridge/slip-bridge.c:144-208 | the same of the text that the code sends from a new buffer |
| Sensors.Table.SetSensors | tools/slip-bridge/slip-bridge.c:272-292 | every write stays inside its slot if and only if each of the first four fields between semicolons has less than 32 characters; then the slots hold exactly these, or all fields if there are fewer, each terminated |
| StatusPage.ServeReadings | tools/slip-bridge/slip-bridge.c:191-200 | after a message with readings that fit their slots the page shows its first four fields, each up to its first NUL |
| StatusPage.ShownUpToNul | tools/slip-bridge/slip-bridge.c:191-200 | a field is shown up to its first NUL |
| Sensors.KeptJoinsBack | tools/slip-bridge/slip-bridge.c:270-292 | joining the kept fields gives back the message if and only if it has at most four |
| TunPacing.TunReader.HandleFd | tools/slip-bridge/tun-bridge.c:278-311 | reads exactly when the device is readable and no delay is running, and then starts the delay |
| TunPacing.ElapsedIsExact | tools/slip-bridge/tun-bridge.c:288 | the difference computed with 32-bit variables is the true one in milliseconds, modulo 2^32 |
| TunPacing.WaitsExactly | tools/slip-bridge/tun-bridge.c:284-291 | a delay is running exactly while that difference is between 0 and the base delay |
| TunPacing.ReadsAreSpaced | tools/slip-bridge/tun-bridge.c:278-311 | over every run with a clock that does not go back, two consecutive packets are read more than the base delay apart |
| TunPacing.ReadsExactly | tools/slip-bridge/tun-bridge.c:278-311 | in every run, whatever the clock does, a readable device is read exactly unless a packet was read before and every call since, this one included, came while the 32-bit difference was between 0 and the delay |
| TunPacing.ReadsOnceDue | tools/slip-bridge/tun-bridge.c:284-296 | with a clock that does not go back, within 2^32 milliseconds of the last packet: a readable device is read exactly if none was read before or more than the delay has passed since |
| ClientStats.VarianceIsMeanSquaredDistance | scripts/summarize-client-results.awk:70 | the variance argument is the mean squared distance from the mean, hence never negative |
| ClientStats.MinMaxAreAttained | scripts/summarize-client-results.awk:57-58 | running minimum and maximum bound the list and are attained in it, or are the start values |
| ClientStats.MinMeanMax | scripts/summarize-client-results.awk:57-60 | minimum <= mean <= maximum for every non-empty list |
| ClientStats.ZeroOfVariance | scripts/summarize-client-results.awk:6-30 | on the variance zero() drops no more than a fraction below 1e-14 |
| ClientStats.ZeroOfNegative | scripts/summarize-client-results.awk:15-22 | a negative number is left alone exactly when it is whole |
| ClientStats.TimeToStr | scripts/summarize-client-results.awk:32-45 | microseconds below a millisecond, milliseconds below a second, seconds otherwise |
| ClientStats.Summarize | scripts/summarize-client-results.awk:47-76 | success and failed are the numbers of the rows that succeeded and failed, failed and total with what was given as failed; minimum and maximum bound the times and are attained, or are the start values; mean and variance are the sum, and the sum of the squared distances, over the number of rows |
| ClientStats.Merge | scripts/summarize-client-totals.awk:37-54 | the accumulators end as sums, minimum, maximum and weighted sum of the lines; a mean is printed unless the total is 0 |
| ClientStats.MergedCounts | scripts/summarize-client-totals.awk:37-40 | success and failed of the merge count the rows of all clients that succeeded and failed, failed and total with what was given as failed |
| ClientStats.MergeAll | scripts/summarize-client-totals.awk:37-54 | the same of both scripts carried out one after the other on all clients |
| ClientStats.MergedExtremes | scripts/summarize-client-totals.awk:42-45 | whatever failed, merged minimum and maximum are those of all requests, up to the start values |
| ClientStats.MergeIsExact | scripts/summarize-client-totals.awk:37-54 | with excess for how often a client is counted beyond its requests: the merged total is right if and only if the excesses add up to 0, and the merged mean if and only if the clients' means weighted with the excesses add up to the sum of the excesses times the true mean |
| ClientStats.ExactForAllTimes | scripts/summarize-client-totals.awk:46 | the merged mean is right whatever the times if and only if every client is counted in the same proportion to its requests |
| ClientStats.BalancedIsExact | scripts/summarize-client-totals.awk:37-54 | if for every client as many requests failed as were given as failed, and so if all succeed, total and mean are those of all requests |
| ClientStats.NoMeanPrinted | scripts/summarize-client-totals.awk:53 | the script divides by zero if and only if no request succeeded and none was given as failed |
| ClientStats.FailuresSkewTheMean | scripts/summarize-client-totals.awk:46 | with a failed request the merged mean can differ from the mean of all requests |

## Left out

- SlipQueue.SlipBuffer.SlipFlushbuf: the overlapping `memcpy` is modelled as a forward byte copy; that C leaves it undefined is not captured.
- SlipQueue.SlipBuffer.SlipSend: slip_sent is unbounded here.
- TransmitLink.FrameBoundaryPacing: Contiki's timer is not part of this model; a timer counts as expired once its interval has passed on a clock that does not wrap.
- SlipQueue.Execute: after a lone END has come to the front only conservation and order are stated, not which bytes one `write` is offered; no caller sends an empty payload.
- SerialInput.SerialPort.SerialInput: the diagnostic printf output and the slip_received counter; stdio is a sequence of available bytes.
- ReceiverTheorems.RoundTrip: for verbosities that do not echo lines; EchoingRoundTrip is the statement for the others.
- MoteWire.Uart.SendPacket: payloads of 65536 bytes or more, for which the 16-bit counter never ends the loop.
- MoteWire.InterleavingSafety: debug characters END and ESC, which putchar does not escape; AnyTextSafety is the statement for the packets among them.
- SessionProtocol.SessionMatching: loss or corruption of bytes on the serial line; a report is lost only to an open ESC of the debug text or to the echoing of lines. The radio calls back at most once per packet.
- SharedWire.DebugTextStaysDebug: debug characters END and ESC; and the verbosities that echo lines, at which debug lines are echoed and dropped as they arrive.
- SessionRun.Execute: a serial line that is not open, on which packets are dropped; the host's own `?M` request. The mote's SLIP input is the RFC 1055 decoder, and what a command buffer holds behind a command is arbitrary.
- TwoNodeTheorems.StrangeHeard: the verbosities that echo lines, and debug characters END and ESC; RunKeeps, AnswersMatch and OnlyAnswers hold with them too.
- TwoNodeTheorems.OnlyAnswersUnlessForged: the same, and other packets of one or two bytes that begin with "!", for which the bytes behind them in the buffer decide, as LoneMarkReports shows; OnlyAnswers covers them.
- MoteRadio.Radio.CmdHandler: the `?M` branch, and the attribute parser, whose result is a parameter.
- BridgeRdc.Rdc.SendPacket: the framer and the attribute serialiser, whose results are parameters; saved attributes are opaque.
- RoutesPage.Page.IpaddrAdd: the case of too little room, which no caller reaches.
- RoutesPage.Page.GenerateRoutes: the protothread may yield at each send; the tables are taken not to change meanwhile, and every route has a next hop.
- PageReader.SensorsRead: sensor texts with tags or newlines, which the page does not escape.
- Sensors.Table.SetSensors: what the memory holds once a field of 32 characters or more has been written past its slot.
- ClientStats.Summarize: rounding and number formatting; times are exact reals and a printed time is a number with a unit.
- Device, socket, terminal and TUN set-up, signals and `select` registration: foreign calls.
- The small web server, option parsing and per-chip channel commands: thin wrappers, or event machinery that is not part of this model.
- MAC address and prefix configuration, RPL: calls into Contiki.
- The experiment, launch and build scripts: process plumbing.
