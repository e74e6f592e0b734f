# Verified model of the live RTSP media path

This project models, in Dafny, how the server turns encoded camera frames into an
RTSP/RTP stream and proves what that path promises. Its parts:

- **Access units** (`AccessUnit.dfy`, `LengthPrefixes.dfy`): cutting H.264/H.265 access units
  into NAL units, at Annex-B start codes or by four-byte lengths.
- **RTP** (`Rtp.dfy`): single-NAL packets, FU-A and FU fragments, sequence numbers, marker.
- **Receiver** (`Receiver.dfy`): an independent depacketizer per RFC 6184 and RFC 7798, the
  partner the packetizer is proved against. The repository holds no such code.
- **Framing** (`Text.dfy`, `Framer.dfy`, `FramerTheorems.dfy`, `Garbage.dfy`): the incremental parser for RTSP
  messages and interleaved packets (section 10.12 of RFC 2326).
- **Requests, responses and control** (`Responses.dfy`, `Control.dfy`, `Transport.dfy`, `Requests.dfy`,
  `Answers.dfy`, `Handshake.dfy`): the text of requests and responses, the session state machine with
  its table of answers, and what each side reads of what the other wrote.
- **Queue and fan-out** (`FrameQueue.dfy`, `FanOut.dfy`, `FrameOrder.dfy`, `Recipients.dfy`,
  `Accounting.dfy`): the two-limit drop-oldest queue, frames fanned out by concurrent threads to
  exactly the clients that play their channel, session counters.
- **Session** (`Media.dfy`, `SessionTheorems.dfy`, `Reports.dfy`, `Untimed.dfy`, `Serving.dfy`, `EndToEnd.dfy`): the send state of
  one client, the requests it sends, theorems over whole sessions, and the path from the cameras' frames to bytes in
  arbitrary chunks and back to NAL units.
- **Parameter sets** (`Parameters.dfy`): Base64, the fmtp strings and the cache.
- **Ingest** (`Ingest.dfy`): the reconnecting worker and its counters.

`dafny verify dfyconfig.toml` checks the whole project.

## How the code is modelled

Code that updates objects or loops is imperative Dafny proved against specification
functions; theorems are about those functions. Threads are step machines: a run is any
interleaving of their atomic steps, where a step is what the source does under one lock or
in one atomic operation. Octets are integers 0..255, and the source's shifts and masks are
written as division, remainder and sums. Sequence numbers, timestamps and reported totals wrap
where the source's unsigned types do. Signed overflow, which has no defined result, yields
an input.

Inputs stand for what the code takes from outside: random ids and initial numbers, clocks,
the SDP text, the channel number read off a request target, whether a write succeeds, the
messages of the media pipeline.

## What is false of the code, and exactly when it holds

- **The parser can fail to return.** When a header is complete, its Content-Length refused, no later
  message start exists and the buffer is within the header limit, the loop repeats on the same
  buffer. `Responses.EmptyLengthSpins` gives an input, `Framer.PassProgress` the exact
  condition for a pass, `FramerTheorems.SpinsExactly` for a call. The model's result for
  such a call is `Spins`.
- **Timestamps overflow.** A frame more than 102481911520608 ns (about 28 and a half hours) after the first
  makes the signed 64-bit product overflow. `SessionTheorems.StampOverflows` gives an input,
  `SessionTheorems.SessionStampsDefined` and `SessionTheorems.SessionStamp` the exact conditions.
- **Frames without a presentation time drift.** Each is stamped with the whole ticks of its duration, and the
  rest is lost: a tick per frame at the default duration of 33333333 ns. `Untimed.DefaultDurationDrifts`
  gives the inputs, `Untimed.UntimedDrift` the exact condition (durations that are multiples of 100 microseconds).
- **Not every NAL comes back.** A small NAL whose type number means something else to a receiver (an
  aggregation or fragmentation packet) is not rebuilt. `Receiver.AggregateIsLost` gives an input,
  `Receiver.PacketizeRoundTrip` the exact condition.
- **Rejoining with start codes can lose a zero.** `AccessUnit.TrailingZeroIsLost` gives an input,
  `AccessUnit.JoinRoundTrip` the exact condition.
- **Length-prefixed units can look like Annex B.** A prefix such as that of a 256..511-byte NAL is a start
  code. `LengthPrefixes.LengthsLostExample` gives an input, `LengthPrefixes.LengthRoundTrip` the
  exact condition.
- **Resynchronising can eat a partial start.** Garbage over the header limit is cleared away together with the
  first bytes of the message behind it. `Garbage.BadRequestIsLost` gives an input,
  `Garbage.GarbageInChunks` the exact condition.
- **The marker is decided by index.** It goes missing when the last NAL is empty:
  `Rtp.EmptyLastNalLosesMarker` gives an input, `Rtp.PlanShape` the exact condition. The frames of
  a session never have such a NAL (`AccessUnit.SplitHasNoEmptyNal`).

## Model

| member | source | states |
|---|---|---|
| AccessUnit.StartFreeMeaning | src/live/live_rtsp_server.cpp:153-158 | a unit counts as free of start codes if and only if no position of it holds one |
| AccessUnit.ScanToStartCode | src/live/live_rtsp_server.cpp:351-353 | the scan stops at the first start code at or after its start, or at the end |
| AccessUnit.SplitAtStartCodes | src/live/live_rtsp_server.cpp:357-371 | the start-code loop yields the Annex-B NAL units of the unit from its first start code on |
| AccessUnit.SplitAtLengths | src/live/live_rtsp_server.cpp:374-389 | the length-prefix loop with its refused lengths, its trailing bytes and its fallback to the whole unit |
| AccessUnit.SplitAccessUnit | src/live/live_rtsp_server.cpp:347-390 | the whole splitter computes Split: start codes when the unit holds one, length prefixes otherwise |
| AccessUnit.AnnexBIsClean | src/live/live_rtsp_server.cpp:355-371 | no NAL cut at start codes is empty or holds a start code |
| AccessUnit.SplitNormalForm | src/live/live_rtsp_server.cpp:347-372 | for every unit with a start code: the NALs are clean, and rejoining them with 4-byte codes and splitting again gives the same list |
| AccessUnit.SplitOfJoin | src/live/live_rtsp_server.cpp:347-372 | what splitting makes of any mix of 3- and 4-byte codes: a short code takes one trailing zero of the NAL before it, empty NALs vanish |
| AccessUnit.JoinRoundTrip | src/live/live_rtsp_server.cpp:347-372 | split inverts joining if and only if no NAL that ends in zero is followed by a 3-byte code |
| AccessUnit.ZeroBeforeShortCode | src/live/live_rtsp_server.cpp:153-158 | a NAL that ends in zero loses that zero to a three-byte code behind it |
| AccessUnit.TrailingZeroIsLost | src/live/live_rtsp_server.cpp:153-158 | one such unit |
| AccessUnit.SplitHasNoEmptyNal | src/live/live_rtsp_server.cpp:347-390 | no input whatever makes the splitter emit an empty NAL |
| LengthPrefixes.LengthPrefixedSplit | src/live/live_rtsp_server.cpp:347-389 | any unit, by its lengths up to where the loop stops: cut as Annex B if it holds a start code anywhere, else split into its NALs; one to three left-over bytes append the whole unit, and a length of zero or beyond the end leaves the whole unit alone |
| LengthPrefixes.EveryUnitHalts | src/live/live_rtsp_server.cpp:374-386 | every unit has such a place where the loop stops |
| LengthPrefixes.LengthRoundTrip | src/live/live_rtsp_server.cpp:347-389 | any number of length-prefixed NALs below 2^24 bytes come back if and only if their encoding holds no start code or each is a single byte |
| LengthPrefixes.CutAsCodes | src/live/live_rtsp_server.cpp:347-372 | if prefixes are cut apart as start codes and the NALs still come back, every NAL is a single byte |
| LengthPrefixes.AnnexBAtLongCode | src/live/live_rtsp_server.cpp:355-372 | a four-byte code cuts a unit in two, whatever stands before it |
| LengthPrefixes.AnnexBLast | src/live/live_rtsp_server.cpp:355-372 | the last NAL of a unit that does not end in a start code is its end, right behind a start code |
| LengthPrefixes.LongerNalLooksLikeAnnexB | src/live/live_rtsp_server.cpp:153-158 | a unit that begins with a NAL of 256 to 511 bytes never comes back |
| LengthPrefixes.LengthsLostExample | src/live/live_rtsp_server.cpp:350-356 | one such unit, of 300 and 700 bytes |
| LengthPrefixes.OneLengthPrefixedNal | src/live/live_rtsp_server.cpp:347-390 | for one NAL of any length, exactly when its length-prefixed form splits back |
| LengthPrefixes.PrefixAsStartCode | src/live/live_rtsp_server.cpp:153-158 | exactly which length prefixes end like a start code |
| LengthPrefixes.EmbeddedStartCodeBreaksLengths | src/live/live_rtsp_server.cpp:350-356 | a NAL that holds a start code never survives length prefixing |
| Bytes.U16RoundTrip | src/live/live_rtsp_server.cpp:43-46 | two octets, the most significant first, read back |
| Bytes.U32RoundTrip | src/live/live_rtsp_server.cpp:48-53 | four octets, the most significant first, read back |
| Rtp.RtpRoundTrip | src/live/live_rtsp_server.cpp:55-66 | a header reader per section 5.1 of RFC 3550 recovers payload, marker, sequence number, timestamp and source |
| Rtp.FragmentNal | src/live/live_rtsp_server.cpp:408-450 | the fragment loop of both codecs emits exactly the fragments of the NAL, numbered on modulo 2^16 |
| Rtp.PacketizeNal | src/live/live_rtsp_server.cpp:398-450 | one NAL: nothing, one packet, or its fragments |
| Rtp.PacketizeAccessUnit | src/live/live_rtsp_server.cpp:392-453 | the packets are the planned payloads numbered from the given sequence number, which moves on by their count modulo 2^16; an MTU of 15 or less is refused |
| Rtp.NumberedFields | src/live/live_rtsp_server.cpp:55-66 | packet i of a run reads back as payload i under number n + i modulo 2^16 |
| Rtp.FragmentBits | src/live/live_rtsp_server.cpp:410-445 | the start bit of a fragment is set exactly at the first offset, the end bit exactly at the last |
| Rtp.FragmentedNalShape | src/live/live_rtsp_server.cpp:408-450 | a fragmented NAL has at least two fragments, the least number that holds it, each within the MTU, start bit on the first only, end bit on the last only; it has three bytes or more, so the short-NAL skip of line 429 is never taken |
| Rtp.PlanShape | src/live/live_rtsp_server.cpp:392-453 | every payload fits the MTU, and the marker is on the last packet exactly when the last NAL is not empty |
| Rtp.EmptyLastNalLosesMarker | src/live/live_rtsp_server.cpp:399-404 | one NAL list without a marker: its last NAL is empty |
| Receiver.HeaderRestored | src/live/live_rtsp_server.cpp:414-445 | the receiver restores every bit of the NAL header from a fragment's header |
| Receiver.ReceiveFragments | src/live/live_rtsp_server.cpp:408-450 | a receiver per section 5.8 of RFC 6184 and section 4.4.3 of RFC 7798 reassembles the fragments of a NAL to that NAL |
| Receiver.PacketizeRebuilds | src/live/live_rtsp_server.cpp:392-453 | from any receiver state no more NALs come out than went in; from the idle state they come out whole or, if one cannot stand alone, fewer do |
| Receiver.PacketizeRoundTrip | src/live/live_rtsp_server.cpp:392-453 | the receiver rebuilds exactly the non-empty NALs, in order and bit for bit, if and only if each of them is fragmented or of a type that may stand alone in a packet |
| Receiver.ReservedTypeIsLost | src/live/live_rtsp_server.cpp:402-405 | a small H.264 NAL of type 0 or 24 to 31 is never rebuilt |
| Receiver.AggregateIsLost | src/live/live_rtsp_server.cpp:402-405 | one such NAL |
| Text.SplitLinesKeepEmpty | src/rtsp/rtsp_message_parser.cpp:43-56 | the loop computes the lines between line breaks, the last one only if not empty |
| Text.LinesCons | src/rtsp/rtsp_message_parser.cpp:43-56 | a line without a break, put in front, becomes the first line |
| Text.HeaderValue | src/rtsp/rtsp_message_parser.cpp:74-90 | the loop returns the trimmed value of the first line with that name, ignoring case, or nothing |
| Text.HeaderFieldIsOneLine | src/rtsp/rtsp_message_parser.cpp:74-90 | a header value never holds a line break, so it can be echoed in a header |
| Text.StartsWithCiMeaning | src/rtsp/rtsp_message_parser.cpp:10-20 | prefixes are compared letter by letter, whatever their case |
| Text.TrimMeaning | src/rtsp/rtsp_message_parser.cpp:34-41 | trimming takes off blanks alone, and all of them at both ends |
| Text.DecimalRoundTrip | src/rtsp/rtsp_message_parser.cpp:92-109 | a printed number reads back as itself |
| Text.LengthLimit | src/rtsp/rtsp_message_parser.cpp:92-109 | a printed length is read as itself up to 2147483647 and refused beyond |
| Text.ContentLengthFromHeader | src/rtsp/rtsp_message_parser.cpp:92-109 | the loop finds the first Content-Length line, refuses what is not all digits or too large for an int, and gives 0 when there is none |
| Framer.FindNextMessageStart | src/rtsp/rtsp_message_parser.cpp:153-160 | the first position from the given one on where a message may start, or the end |
| Framer.InputBuffer.ResyncMessageBuffer | src/rtsp/rtsp_message_parser.cpp:162-172 | the buffer is cut to its next message start, cleared when there is none and it is over the header limit, or left as it is |
| Framer.InputBuffer.MeasureRtsp | src/rtsp/rtsp_message_parser.cpp:202-222 | how long the RTSP message at the front is, or why that cannot be told |
| Framer.InputBuffer.ExtractOneRtspMessage | src/rtsp/rtsp_message_parser.cpp:176-231 | the loop, pass by pass: the message and the buffer it leaves, or the buffer on which it loops for ever |
| Framer.ResyncShrinks | src/rtsp/rtsp_message_parser.cpp:162-172 | resynchronising leaves the length alone exactly when there is no later start and the buffer is within the header limit |
| Framer.PassProgress | src/rtsp/rtsp_message_parser.cpp:180-229 | a pass that does not return shortens the buffer unless its header is complete, its Content-Length refused, no later start exists and the buffer is within the header limit; that buffer it leaves as it is |
| FramerTheorems.StartMeaning | src/rtsp/rtsp_message_parser.cpp:142-160 | a message may start exactly at a dollar sign, at `RTSP/`, or at one of the ten methods and a space |
| FramerTheorems.WellFormedExactly | src/rtsp/rtsp_message_parser.cpp:176-231 | what counts as one message, spelled out for both kinds |
| FramerTheorems.UnfinishedHeader | src/rtsp/rtsp_message_parser.cpp:202-208 | a message whose header has no end yet is kept if and only if the buffer is within the header limit; beyond it the buffer is cut to its next start or cleared |
| Requests.RequestIsExtracted | src/rtsp/rtsp_message_parser.cpp:142-231 | every request with one of the ten methods, clean fields and its declared body, within the limits, is cut out of the buffer whole whatever follows it |
| FramerTheorems.HeadStable | src/rtsp/rtsp_message_parser.cpp:181-222 | a message length once readable does not change when more bytes arrive |
| FramerTheorems.IncompleteIsKept | src/rtsp/rtsp_message_parser.cpp:180-225 | a strict prefix of a message is kept unchanged, even one too short to name its method |
| FramerTheorems.DrainPrefix | src/rtsp/rtsp_message_parser.cpp:176-231 | draining any prefix of a stream of messages yields those it completes and keeps the bytes behind them |
| FramerTheorems.ChunkIndependence | src/rtsp/rtsp_message_parser.cpp:137-231 | however the concatenation of well-formed messages is cut into chunks, draining after each chunk yields exactly those messages in order, and an incomplete tail is kept |
| FramerTheorems.WellFormedMeaning | src/rtsp/rtsp_message_parser.cpp:181-228 | a well-formed message is within the limits, has exactly its declared length, and alone is returned with nothing left |
| FramerTheorems.LandingIsUnique | src/rtsp/rtsp_message_parser.cpp:180-229 | a call can come to rest at one place of the buffer only |
| FramerTheorems.SpinsExactly | src/rtsp/rtsp_message_parser.cpp:180-229 | a call fails to return if and only if, skipping what it passes over, it comes to a stuck rest of the buffer |
| FramerTheorems.ReturnsExactly | src/rtsp/rtsp_message_parser.cpp:180-229 | a call returns a message if and only if that message is the first complete one the loop comes to; all before it was passed over |
| FramerTheorems.GarbageIsSkipped | src/rtsp/rtsp_message_parser.cpp:162-172 | bytes in the buffer that look like no message start are skipped and the message behind them comes out whole |
| Garbage.GarbageInChunks | src/rtsp/rtsp_message_parser.cpp:162-209 | garbage and then messages, cut into any chunks: exactly the messages come out, if and only if no chunk ends inside the first start with the buffer over the header limit |
| Garbage.PartialStartIsLost | src/rtsp/rtsp_message_parser.cpp:168-170 | the losing family in two chunks: the partial start is cleared away and the message does not come out |
| Garbage.FullBufferEatsTheStart | src/rtsp/rtsp_message_parser.cpp:168-170 | two reads of garbage up to the header limit, then the first byte of a message alone: the message is lost |
| Garbage.BadRequestIsLost | src/rtsp/rtsp_message_parser.cpp:168-170 | one such stream under the default limits, in reads of at most 8192 bytes |
| Garbage.FeedBound | src/rtsp/rtsp_message_parser.cpp:176-231 | for arbitrary bytes in arbitrary chunks, the messages that come out are together no longer than what went in |
| FramerTheorems.KeepsSuffix | src/rtsp/rtsp_message_parser.cpp:176-231 | for arbitrary bytes: message and remaining buffer of a call that returns are together the end of the old buffer |
| FramerTheorems.MessageReparses | src/rtsp/rtsp_message_parser.cpp:176-231 | for arbitrary bytes: a returned message is complete and within the limits, and parsed alone it is returned again with nothing left |
| Responses.MakeResponse | src/live/live_rtsp_server.cpp:102-112 | the text built line by line is the header block of the response lines followed by the body |
| Responses.InterleavedReads | src/live/live_rtsp_server.cpp:68-79 | a reader per section 10.12 of RFC 2326 recovers channel and packet; a packet is refused only when its length does not fit sixteen bits |
| Responses.BlockLines | src/live/live_rtsp_server.cpp:102-112 | lines without breaks, written as a header block, are read back as those lines |
| Responses.ResponseLength | src/live/live_rtsp_server.cpp:102-112 | the Content-Length a response carries is read back as the length of its body |
| Responses.ResponseIsWellFormed | src/live/live_rtsp_server.cpp:102-112 | every response within the limits whose echoed CSeq holds no line break is one complete message for the parser |
| Responses.InterleavedIsWellFormed | src/live/live_rtsp_server.cpp:68-79 | every interleaved packet is one complete message for the parser |
| Responses.RefusedLengthSpins | src/rtsp/rtsp_message_parser.cpp:216-220 | a family of requests on which the parser does not return: a refused Content-Length and no later start |
| Responses.EmptyLengthSpins | src/rtsp/rtsp_message_parser.cpp:216-220 | under the default limits, PLAY with an empty Content-Length is such a request |
| Control.TransportReadsBack | src/live/live_rtsp_server.cpp:118-136 | the interleaved channels of a transport come out as written, and are refused exactly when one is over 255 or both are the same |
| Control.TransportDefaults | src/live/live_rtsp_server.cpp:118-136 | any transport: without RTP over TCP it is refused, and without interleaved channels it gets 0 and 1 |
| Control.TransportNames | src/live/live_rtsp_server.cpp:118-136 | any other transport: the channels are read from behind the first place that names them |
| Transport.ScanIntMeaning | src/live/live_rtsp_server.cpp:129-131 | a number read from any text: blanks are skipped, a sign is allowed, digits are needed, and 32 bits are the limit |
| Transport.EveryNumberText | src/live/live_rtsp_server.cpp:129-131 | every text is of the form that is read so |
| Transport.ChannelsMeaning | src/live/live_rtsp_server.cpp:129-136 | two numbers with a dash between them are accepted if and only if both are within 0..255 and differ; any other separator is refused |
| Transport.ChannelsMissing | src/live/live_rtsp_server.cpp:129-136 | a missing number or separator is refused |
| Control.RtspControl.constructor | src/live/live_rtsp_server.cpp:476-477 | a session starts in its initial phase without id or channel |
| Control.RtspControl.ProcessRtspRequest | src/live/live_rtsp_server.cpp:476-538 | every request is answered, and moves the session, as the transition function says |
| Control.RtspControl.ForChannel | src/live/live_rtsp_server.cpp:490-537 | the verbs that name a registered channel |
| Control.RtspControl.Setup | src/live/live_rtsp_server.cpp:497-514 | SETUP: refused outside the initial phase or for a bad transport, else the session is bound |
| Control.RtspControl.Play | src/live/live_rtsp_server.cpp:515-525 | PLAY: refused unless ready on the same channel with the session's id |
| Control.RtspControl.Maintain | src/live/live_rtsp_server.cpp:526-537 | GET_PARAMETER, TEARDOWN and unknown verbs |
| Control.Transition | src/live/live_rtsp_server.cpp:476-538 | every transition keeps the session invariant, moves no phase back, changes nothing unless it answers 200, keeps the binding after SETUP, and starts play exactly on the step from ready to playing |
| Control.NeverBack | src/live/live_rtsp_server.cpp:476-538 | over every request sequence: phases never move back, the session id is non-empty exactly after SETUP, the binding never changes, a stretch of refusals changes nothing |
| Control.PlayStartsOnce | src/live/live_rtsp_server.cpp:515-525 | over every request sequence: play starts at most once, after a successful SETUP on the same channel |
| Control.AnswerHeadersClean | src/live/live_rtsp_server.cpp:476-538 | no header of an answer holds a line break or poses as a Content-Length |
| Control.AnswerIsWellFormed | src/live/live_rtsp_server.cpp:476-538 | whatever the request, the answer within the limits is one complete message for the parser |
| Requests.FieldReads | src/rtsp/rtsp_message_parser.cpp:74-90 | a header value is that of the first line with the name, in letters of either case, without the blanks around it, or nothing when no line has it |
| Requests.RequestReads | src/rtsp/rtsp_message_parser.cpp:58-124 | from any request text the server reads the verb its first word spells and the values of its CSeq, Transport and Session lines, from the header alone |
| Requests.EveryFirstWord | src/rtsp/rtsp_message_parser.cpp:119-124 | every line has a first word, with the blanks before it and behind it |
| Answers.PlayTable | src/live/live_rtsp_server.cpp:515-525 | PLAY in every valid state: play starts if and only if the session is ready on that channel and the Session field is the id, or begins with the id in either case and a semicolon; 455 when phase or channel fails, 454 when only the field does |
| Answers.GetParameterTable | src/live/live_rtsp_server.cpp:526-530 | GET_PARAMETER in every valid state: 200 if and only if the field names the open session, else 454; nothing changes |
| Answers.TeardownTable | src/live/live_rtsp_server.cpp:531-536 | TEARDOWN in every valid state: the session closes with a 200 if and only if the field names it, else 454 |
| Answers.SetupTable | src/live/live_rtsp_server.cpp:497-514 | SETUP in every valid state: 455 in a session, 461 for a refused transport, else bound to the request's channels |
| Answers.OtherTable | src/live/live_rtsp_server.cpp:479-496 | 400 without a CSeq, 404 for an unregistered channel, 405 for an unknown method, 200 for OPTIONS and DESCRIBE; the state stays |
| Answers.StatusReadsBack | src/live/live_rtsp_server.cpp:102-112 | the status is read back from the first line of every reply |
| Answers.ReplyTellsStatus | src/live/live_rtsp_server.cpp:476-538 | whatever the request, the client reads the status of the answer, one of seven |
| Answers.CommonStatusTexts | src/live/live_rtsp_server.cpp:81-112 | the first lines of replies 200, 400 and 404 |
| Answers.MethodStatusTexts | src/live/live_rtsp_server.cpp:81-112 | the first lines of replies 405 and 455 |
| Answers.SessionStatusTexts | src/live/live_rtsp_server.cpp:81-112 | the first lines of replies 454 and 461 |
| Answers.DescribeReads | src/live/live_rtsp_server.cpp:490-496 | from the reply to DESCRIBE a client reads status 200, the type, the base with the channel number, and behind the header exactly the SDP, of the declared length |
| Answers.OptionsReads | src/live/live_rtsp_server.cpp:484-487 | OPTIONS names the six methods under Public |
| Answers.UnknownReads | src/live/live_rtsp_server.cpp:537 | an unknown method is answered 405 with the six methods under Allow |
| Answers.SessionReplyReads | src/live/live_rtsp_server.cpp:526-536 | an accepted GET_PARAMETER or TEARDOWN names the session |
| Answers.PlayReplyReads | src/live/live_rtsp_server.cpp:515-525 | an accepted PLAY names the session and the track of its channel |
| Answers.ServerReads | src/live/live_rtsp_server.cpp:107 | every reply names the server |
| Handshake.FieldOfBlock | src/live/live_rtsp_server.cpp:102-112 | a header field read from a header block is the trimmed value of its first line with that name |
| Handshake.CseqReadsBack | src/live/live_rtsp_server.cpp:102-112 | the CSeq a client reads from a reply is the one it sent |
| Handshake.ReplyCarriesCseq | src/live/live_rtsp_server.cpp:476-538 | whatever the request, its reply carries its CSeq |
| Handshake.SetupTransportReads | src/live/live_rtsp_server.cpp:497-514 | from the reply to SETUP a client reads the interleaved channels the server has bound |
| Handshake.SetupSessionReads | src/live/live_rtsp_server.cpp:497-514 | and the session id with its timeout |
| Handshake.SetupAccepted | src/live/live_rtsp_server.cpp:497-514 | on a fresh connection a SETUP for a registered channel with distinct channels up to 255 is accepted and binds them |
| Handshake.ClientGetsToPlay | src/live/live_rtsp_server.cpp:515-525 | over every request sequence: a client that sends back the Session field of its accepted SETUP while the session is ready is answered 200 and starts to play |
| Serving.AnsweredAreRequests | src/live/live_rtsp_server.cpp:880-897 | what is answered are the RTSP requests of the stream in order, interleaved packets left out, all of them unless one closes the session |
| Serving.ClosesExactly | src/live/live_rtsp_server.cpp:884-899 | a session is closed by a request without a CSeq or by an accepted TEARDOWN, and by nothing else |
| Serving.OnlyTheLastCloses | src/live/live_rtsp_server.cpp:884-899 | nothing is answered behind the request that closes |
| Serving.ServerSession.constructor | src/live/live_rtsp_server.cpp:852-858 | a connection starts open, with nothing read or written |
| Serving.ServerSession.Handle | src/live/live_rtsp_server.cpp:881-897 | one message: an interleaved packet is passed over, a request answered, and a closing answer ends the session |
| Serving.ServerSession.Serve | src/live/live_rtsp_server.cpp:868-897 | one read handles exactly the messages that draining the buffer yields, up to the one that closes |
| Serving.ServerSession.ServeAll | src/live/live_rtsp_server.cpp:868-897 | however a stream of well-formed messages is cut into reads, none is left hanging and the replies written are those to its requests |
| FrameQueue.CreateQueue | src/live/live_rtsp_server.cpp:291-294 | a queue exists exactly for non-zero limits |
| FrameQueue.BoundedFrameQueue.Push | src/live/live_rtsp_server.cpp:296-314 | push evicts the oldest frames until the new one fits, counts each as a drop, refuses oversized frames, and reports whether the frame went in without loss; below a byte limit of 2^63 its sums do not wrap around |
| FrameQueue.BoundedFrameQueue.TryPop | src/live/live_rtsp_server.cpp:316-323 | the oldest frame comes out; the byte count stays the sum of sizes |
| FrameQueue.BoundedFrameQueue.Close | src/live/live_rtsp_server.cpp:325-330 | a closed queue is empty |
| FrameQueue.WindowIsLongest | src/live/live_rtsp_server.cpp:296-314 | the window is the longest suffix that meets both limits |
| FrameQueue.PushMovesWindow | src/live/live_rtsp_server.cpp:305-312 | evicting and appending is the window of the longer sequence |
| FrameQueue.PopTakesOldest | src/live/live_rtsp_server.cpp:316-323 | the frame popped is the oldest of the window, at its recorded position |
| FrameQueue.QueueIsWindow | src/live/live_rtsp_server.cpp:296-323 | after every run of pushes and pops the queue is the longest suffix, within both limits, of the accepted frames behind the last popped; frames come out in push order; pushes are pops, queued frames and drops together |
| FanOut.EveryStep | src/live/live_rtsp_server.cpp:613-647 | every step of every thread keeps the fan-out invariant |
| FanOut.FanOutIsSound | src/live/live_rtsp_server.cpp:613-647 | under every interleaving: a queue holds frames of its client's channel only, is empty once closed, and the drop counter is the sum over clients less what producers have yet to add |
| FanOut.ClientsAreIsolated | src/live/live_rtsp_server.cpp:613-647 | under every interleaving each client's queue is what its own pushes, pops and close alone would have made it |
| FanOut.ClosedForGood | src/live/live_rtsp_server.cpp:924-926 | under every interleaving a queue that is closed is empty and stays as it is, drop count included |
| FanOut.ClientTakesOneCodec | src/live/live_rtsp_server.cpp:613-634 | under every interleaving all the frames a client takes are of the channel it plays, in that channel's codec, and not empty |
| FrameOrder.TakenInOrder | src/live/live_rtsp_server.cpp:296-323 | what a client has taken and what it has queued are, in order and each at most once, among the frames pushed to it |
| FrameOrder.FramesArriveInOrder | src/live/live_rtsp_server.cpp:613-647 | under every interleaving the frames pushed to a client, and those it takes, are in order and each at most once among the frames its channel's callback has begun |
| Recipients.FrameGoesToPlayers | src/live/live_rtsp_server.cpp:625-647 | under every interleaving, for every finished frame callback and every client: the client was looked at once, and was given the frame if and only if it was then listed, connected and playing on the channel |
| Recipients.PlayerGetsFrame | src/live/live_rtsp_server.cpp:625-647 | a client that plays the channel from Begin to Deliver has the frame by Finish |
| Recipients.PushedWasPlaying | src/live/live_rtsp_server.cpp:625-647 | every push goes to a client that was connected and playing on the channel between Begin and Deliver of that frame |
| Recipients.FieldsAreHistory | src/live/live_rtsp_server.cpp:842-926 | under every interleaving a client is connected until it disconnects, plays from a start to a stop, and is on the channel it bound |
| Recipients.SubscriberGetsFrame | src/live/live_rtsp_server.cpp:613-647 | by actions alone: who has bound a channel and started to play gets each frame it then begins, unless it stops, disconnects or is forgotten meanwhile |
| Recipients.WalksExclude | src/live/live_rtsp_server.cpp:626-636 | at most one callback walks the client list at a time |
| Recipients.ListIsLocked | src/live/live_rtsp_server.cpp:626-636 | no client joins the list from the lock to the end of a walk |
| Recipients.CallbackGoesOn | src/live/live_rtsp_server.cpp:625-647 | no callback is ever stuck: it can take its next step, or the one that has the client list can |
| Recipients.FrameIsAccepted | src/live/live_rtsp_server.cpp:613-616 | a frame is accepted exactly when it has data, is of a registered channel and in its codec |
| FanOut.OpenClientHoldsWindow | src/live/live_rtsp_server.cpp:888-891 | under every interleaving an open client holds the sliding window over the frames pushed to it |
| Accounting.Preserved | src/live/live_rtsp_server.cpp:838-850 | every opening and closing update keeps the counter invariant |
| Accounting.CountersAgree | src/live/live_rtsp_server.cpp:917-932 | in every reachable state active + closed - created is the threads between the opening updates less those between the closing ones; when all have ended active is 0 and closed equals created |
| Media.OverflowsExactly | src/live/live_rtsp_server.cpp:787-788 | the signed 64-bit product behind a timestamp overflows exactly beyond 102481911520608 ns |
| Media.TicksInInt64 | src/live/live_rtsp_server.cpp:787-791 | in 64-bit arithmetic the result is defined exactly up to 102481911520608 ns, and is then the number of whole 90 kHz ticks in the span |
| Media.ClientMedia.FrameTimestamp | src/live/live_rtsp_server.cpp:783-795 | both branches of the timestamp computation, and exactly when their arithmetic is defined |
| Media.ClientMedia.GatherNals | src/live/live_rtsp_server.cpp:800-810 | parameter sets lead the first key frame and only that |
| Media.ClientMedia.Prepare | src/live/live_rtsp_server.cpp:800-813 | the packets of a frame, with gate, sequence number and clock moved on |
| Media.ClientMedia.SendPackets | src/live/live_rtsp_server.cpp:814-822 | all packets written and counted, or a strict prefix of them |
| Media.ClientMedia.WriteReport | src/live/live_rtsp_server.cpp:825-831 | a sender report when one is due |
| Media.ClientMedia.SendFrame | src/live/live_rtsp_server.cpp:797-833 | on success exactly the frame's items have been written and the state moved on; on failure only a strict prefix has been written |
| Media.PacketsFit | src/main.cpp:246-246 | in the accepted MTU range no packet exceeds the MTU, so interleaving never refuses one |
| SessionTheorems.LeadingSetsSurvive | src/live/live_rtsp_server.cpp:757-781 | cached parameter sets are of types that may stand alone, so they always come through |
| SessionTheorems.SessionArrives | src/live/live_rtsp_server.cpp:797-819 | over a whole session the receiver rebuilds the cached parameter sets and then the NALs of every frame from the first key frame on, if and only if each NAL of those frames is fragmented or may stand alone; nothing is written before that key frame |
| SessionTheorems.MarkerEndsFrame | src/live/live_rtsp_server.cpp:800-813 | exactly the final packet of a frame has the marker |
| SessionTheorems.CountersMatchWire | src/live/live_rtsp_server.cpp:811-819 | after any number of frames packet and octet counts are the totals written, and the sequence number is the initial one plus the packet count modulo 2^16 |
| SessionTheorems.SequenceHasNoGap | src/live/live_rtsp_server.cpp:811-819 | packet i of a session carries the initial sequence number plus i modulo 2^16 |
| SessionTheorems.ReportsMatchWire | src/live/live_rtsp_server.cpp:265-287 | every sender report carries exactly the packet and payload-octet totals written before it, modulo 2^32 |
| SessionTheorems.ReportReadsBack | src/live/live_rtsp_server.cpp:265-287 | a sender report reads back with its type, length, source, wall clock, timestamp and totals (section 6.4.1 of RFC 3550) |
| Reports.ReportsAreDue | src/live/live_rtsp_server.cpp:825-831 | over every session: a frame writes a report if and only if it is not before the first key frame and none was written in the five seconds up to it |
| Reports.ReportStamped | src/live/live_rtsp_server.cpp:825-831 | the report stands behind the packets of its frame and carries the very timestamp they carry, and the wall clock |
| SessionTheorems.FirstRtpIsNoted | src/live/live_rtsp_server.cpp:820-824 | the first transmission is noted exactly when a packet has been written |
| SessionTheorems.FrameStamped | src/live/live_rtsp_server.cpp:811-813 | every packet of a frame carries the frame's timestamp |
| SessionTheorems.SessionClock | src/live/live_rtsp_server.cpp:783-788 | after any frames the clock's origin is unchanged and its zero is the first presentation time sent |
| SessionTheorems.SessionStampsDefined | src/live/live_rtsp_server.cpp:783-795 | every frame of a session is stamped without overflow if and only if none lies, or lasts, longer than 102481911520608 ns from the first |
| SessionTheorems.SessionStamp | src/live/live_rtsp_server.cpp:783-788 | a frame is stamped with the origin plus the whole ticks since the first frame sent, modulo 2^32, whatever an overflow yields, if and only if it lies within that span |
| SessionTheorems.StampOverflows | src/live/live_rtsp_server.cpp:787-788 | one session whose second frame overflows |
| SessionTheorems.SessionDoesNotDrift | src/live/live_rtsp_server.cpp:783-788 | of two frames of a session within that span the later presented is stamped no earlier, the ticks between them are off from true time by less than one, and frames from before the first carry its time |
| Untimed.UntimedStamp | src/live/live_rtsp_server.cpp:783-795 | a frame without a presentation time is stamped with the stamp before it plus the whole ticks of its duration, and with the origin where that would be zero |
| Untimed.UntimedRun | src/live/live_rtsp_server.cpp:783-795 | over a run of such frames the ticks add up, modulo 2^32 |
| Untimed.UntimedDrift | src/live/live_rtsp_server.cpp:791-793 | they fall behind true time by less than a tick each, and keep it if and only if every duration is a multiple of 100 microseconds |
| Untimed.DefaultDurationDrifts | src/live/live_rtsp_server.cpp:791-793 | at the default duration each frame is given 2999 ticks and loses 0.99997 of one |
| EndToEnd.RtpChannelOf | src/live/live_rtsp_server.cpp:814-831 | the packets read off the RTP channel are the RTP packets written, in order |
| EndToEnd.RtcpChannelOf | src/live/live_rtsp_server.cpp:814-831 | the packets read off the RTCP channel are the sender reports written, in order |
| EndToEnd.NoOtherChannel | src/live/live_rtsp_server.cpp:814-831 | every interleaved message of the stream is on one of the two channels |
| EndToEnd.SetupNamesChannels | src/live/live_rtsp_server.cpp:497-514 | the reply to an accepted SETUP names the channels the session uses ever after |
| EndToEnd.ControlWritesReplies | src/live/live_rtsp_server.cpp:476-538 | from a fresh connection, over any request texts, a control session within the limits writes well-formed replies and nothing else |
| EndToEnd.StreamDelivers | src/live/live_rtsp_server.cpp:797-933 | any requests and any frames: replies, packets and reports in any order, cut into any chunks, come back as exactly the messages written; the NALs rebuilt from the RTP channel are those delivered, under the exact condition of the packetizer; the RTCP channel carries the reports; nothing is on a third channel; and both channels are those the SETUP reply names |
| EndToEnd.LeadingAreLast | src/live/live_rtsp_server.cpp:757-781 | the parameter sets sent ahead are the last ones in the frames the channel had begun |
| EndToEnd.ClientReceives | src/live/live_rtsp_server.cpp:613-933 | from the cameras' frames on, under every interleaving: a client's frames are in order and each at most once among those its channel has begun, the sets ahead of them are the last ones in such frames, and its receiver rebuilds those sets and frames |
| EndToEnd.AnswersAreReplies | src/live/live_rtsp_server.cpp:476-538 | every answer of the control machine, within the limits, is such a reply |
| Parameters.Base64Encode | src/live/live_rtsp_server.cpp:165-182 | the loop computes the encoding group by group |
| Parameters.Base64RoundTrip | src/live/live_rtsp_server.cpp:165-182 | a decoder per section 4 of RFC 4648 recovers every byte sequence; the text has 4 * ceil(n / 3) characters |
| Parameters.EncodingHasNoSeparator | src/live/live_rtsp_server.cpp:165-182 | neither comma nor semicolon appears in an encoding |
| Parameters.H264FmtpReads | src/live/live_rtsp_server.cpp:745-751 | a client that looks the parameters up by name finds packetization mode 1 and decodes both parameter sets |
| Parameters.H265FmtpReads | src/live/live_rtsp_server.cpp:752-754 | a client that looks the parameters up by name decodes each of the three sets |
| Parameters.ParameterCache.UpdateParameterSets | src/live/live_rtsp_server.cpp:764-781 | a frame's sets replace those of its channel and of no other |
| Parameters.CacheHoldsLast | src/live/live_rtsp_server.cpp:764-781 | the cache holds the last set of each type seen, or what it held before |
| Parameters.CacheOverFrames | src/live/live_rtsp_server.cpp:764-781 | frame after frame is the same as all their NALs at once |
| Ingest.ChannelIngest.constructor | src/media/channel_ingest.cpp:364-370 | a worker starts with all counters at zero |
| Ingest.ChannelIngest.OnIngestBuffer | src/media/channel_ingest.cpp:104-125 | the first buffer of an attempt is counted, no other |
| Ingest.LoopEndsExactly | src/media/channel_ingest.cpp:451-491 | by the places of messages and buffers among the turns: exactly when the attempt's loop ends as end of stream, as pipeline error, or with an exception, and whether it has seen a buffer |
| Ingest.AttemptEndsExactly | src/media/channel_ingest.cpp:399-524 | the same for a whole attempt, with a pipeline that cannot be built, does not start, or throws while it is drained |
| Ingest.CountersAreNumbers | src/media/channel_ingest.cpp:364-397 | the counters are the numbers of attempts that ended so, that saw a buffer, and that were followed by a reconnect |
| Ingest.ChannelIngest.RunLoop | src/media/channel_ingest.cpp:451-491 | how the attempt's loop ends, with its one failure and its first buffer counted |
| Ingest.ChannelIngest.RunAttempt | src/media/channel_ingest.cpp:399-524 | one attempt with every way it can end; a failure is counted once even when the attempt then reports that it was stopped |
| Ingest.ChannelIngest.Try | src/media/channel_ingest.cpp:369-387 | one turn of the worker: attempt, and a reconnect after a failure of a running worker |
| Ingest.ChannelIngest.Run | src/media/channel_ingest.cpp:364-397 | after every single update in every run, also one ended by shutdown or an exception: reconnects <= errors + ends of stream <= attempts <= reconnects + 1 and first buffers <= attempts; and the counters count exactly the attempts made and how they ended |
| Ingest.RunIsConsistent | src/media/channel_ingest.cpp:364-388 | the counts of every run form that chain; attempts equal reconnects exactly when none is open |
| Ingest.WaitBeforeReconnect | src/media/channel_ingest.cpp:549-557 | a worker that runs on waits the whole delay and no more, a stopped one is found so within one slice of 100 ms, no slice but the last is shorter, and the result is a reading of its own |

## Left out

- LengthRoundTrip: asks for NALs below 2^24 bytes; beyond that units exist that split back by coincidence (65536 bytes of value 1, then a clean NAL of 2^24 + 1 bytes), and which ones do is stated for a single NAL only (`OneLengthPrefixedNal`).
- CutAsCodes: asks for NALs below 2^24 bytes, for the same reason.
- LongerNalLooksLikeAnnexB: asks for NALs below 2^24 bytes, for the same reason.
- FrameTimestamp: after an overflow the model goes on with arbitrary ticks, while the language promises nothing at all.
- SendFrame: asks for an MTU of 16..65535 and distinct channels in 0..255, which start-up validation and SETUP establish; a write succeeds whole or fails, so a partly written message is not modelled.
- UpdateParameterSets: asks for a channel number within the cache's table, which the caller has checked.
- Run: the concurrent reader of the ingest counters loads them one by one; the chain is proved of each state of the counters, not of such a mixed reading.
- ExtractOneRtspMessage: a call that would loop for ever ends with the result `Spins`.
- ProcessRtspRequest: the channel number of the target, the SDP text and the fresh session id are inputs; reading the target and building the SDP would only add easy members.
- FanOutIsSound: a client the server forgets keeps its place in the model, so that client numbers stay put; its queue is closed and never changes again (`ClosedForGood`).
- ClientReceives: takes as given that each delivery finds the cache as the frames begun by some moment have left it; at which moment is left open.
- StreamDelivers: assumes that each reply stays within the limits of its reader and that session ids hold no carriage return, as the hexadecimal ids drawn do not.
- The session loop's own checks: the limit on unread input and the 400 answer for leftover input after draining.
- Sockets, TLS, select, listeners, thread creation and shutdown.
- Wrap-around of the 64-bit counters of packets, octets and drops.
- Log lines, log redaction, and the counters of write failures and first transmissions.
- Media pipelines, pad probes other than the first-buffer flags, recording files and their names.
- The recording index, storage management, and the RTSP proxy, rewriter and digest code.
- Command line, configuration parsing, tools and test clients.
