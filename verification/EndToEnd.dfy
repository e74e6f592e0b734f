/**
 From the server's writes to the receiver's NAL units: control replies, RTP packets and
 sender reports share one byte stream, which arrives in arbitrary chunks.
 */
module EndToEnd {
  import opened Bytes
  import opened Rtp
  import opened Receiver
  import opened Text
  import opened Framer
  import opened FramerTheorems
  import opened Responses
  import opened SessionTheorems
  import opened Reports
  import FanOut
  import FrameOrder
  import P = Parameters
  import opened AccessUnit
  import Queue = FrameQueue
  import M = Media
  import Control
  import Handshake

  /** One write of a session: a control reply, or an item of the media path. */
  datatype Output = Reply(message: bytes) | Medium(item: M.Item)

  function MessageOf(output: Output, config: M.Config): (message: bytes) {
    match output
    case Reply(message) => message
    case Medium(item) => M.WireOf(item, config)
  }

  function Messages(outputs: seq<Output>, config: M.Config): (messages: seq<bytes>)
    ensures |messages| == |outputs|
  {
    if outputs == [] then []
    else Messages(outputs[..|outputs| - 1], config) + [MessageOf(outputs[|outputs| - 1], config)]
  }

  function MediaItems(outputs: seq<Output>): (items: seq<M.Item>) {
    if outputs == [] then []
    else
      var last := outputs[|outputs| - 1];
      MediaItems(outputs[..|outputs| - 1]) + if last.Medium? then [last.item] else []
  }

  /** The payload of a message that is an interleaved packet on `channel`. */
  function PayloadOn(message: bytes, channel: int): (packets: seq<bytes>) {
    match ReadInterleaved(message)
    case Some((on, packet)) => if on == channel then [packet] else []
    case None => []
  }

  /** What a receiver that has split the stream into messages hands to its RTP side. */
  function ChannelPackets(messages: seq<bytes>, channel: int): (packets: seq<bytes>) {
    if messages == [] then []
    else ChannelPackets(messages[..|messages| - 1], channel) + PayloadOn(messages[|messages| - 1], channel)
  }

  ghost predicate Fits(item: M.Item) {
    match item
    case RtpItem(packet) => |packet| <= 0xffff
    case RtcpItem(report) => |report| <= 0xffff
  }

  /** A reply is a well-formed RTSP message, not an interleaved packet. */
  ghost predicate IsReply(message: bytes, limits: Limits) {
    WellFormed(message, limits) && message[0] != DOLLAR
  }

  ghost predicate OutputOk(output: Output, limits: Limits) {
    match output
    case Reply(message) => IsReply(message, limits)
    case Medium(item) => Fits(item)
  }

  ghost predicate AllOutputsOk(outputs: seq<Output>, limits: Limits) {
    forall i :: 0 <= i < |outputs| ==> OutputOk(outputs[i], limits)
  }

  // ------------------------------------------------------- one output at a time

  lemma InterleavedPayload(channel: int, packet: bytes, other: int)
    requires |packet| <= 0xffff && 0 <= channel <= 255
    ensures PayloadOn(Interleaved(channel, packet).value, other) == if other == channel then [packet] else []
  {
    InterleavedReads(channel, packet);
  }

  lemma OutputIsWellFormed(output: Output, limits: Limits, config: M.Config)
    requires OutputOk(output, limits)
    ensures WellFormed(MessageOf(output, config), limits)
  {
    match output {
      case Reply(_) =>
      case Medium(RtpItem(packet)) => InterleavedIsWellFormed(config.rtpChannel, packet, limits);
      case Medium(RtcpItem(report)) => InterleavedIsWellFormed(config.rtcpChannel, report, limits);
    }
  }

  lemma OutputPayload(output: Output, limits: Limits, config: M.Config)
    requires OutputOk(output, limits) && config.Usable()
    ensures PayloadOn(MessageOf(output, config), config.rtpChannel)
         == if output.Medium? && output.item.RtpItem? then [output.item.packet] else []
  {
    match output {
      case Reply(_) =>
      case Medium(RtpItem(packet)) => InterleavedPayload(config.rtpChannel, packet, config.rtpChannel);
      case Medium(RtcpItem(report)) => InterleavedPayload(config.rtcpChannel, report, config.rtpChannel);
    }
  }

  lemma {:induction false} AllMessagesWellFormed(outputs: seq<Output>, limits: Limits, config: M.Config)
    requires AllOutputsOk(outputs, limits)
    ensures AllWellFormed(Messages(outputs, config), limits)
  {
    if outputs != [] {
      AllMessagesWellFormed(outputs[..|outputs| - 1], limits, config);
      OutputIsWellFormed(outputs[|outputs| - 1], limits, config);
    }
  }

  /** On the RTP channel of the stream are exactly the RTP packets of the session, in order. */
  lemma {:induction false} RtpChannelOf(outputs: seq<Output>, limits: Limits, config: M.Config)
    requires AllOutputsOk(outputs, limits) && config.Usable()
    ensures ChannelPackets(Messages(outputs, config), config.rtpChannel) == RtpPackets(MediaItems(outputs))
  {
    if outputs != [] {
      var front, last := outputs[..|outputs| - 1], outputs[|outputs| - 1];
      RtpChannelOf(front, limits, config);
      OutputPayload(last, limits, config);
      assert Messages(outputs, config)[..|outputs| - 1] == Messages(front, config);
      RtpPacketsConcat(MediaItems(front), if last.Medium? then [last.item] else []);
      assert RtpPackets(MediaItems(front)) + [] == RtpPackets(MediaItems(front));
      if last.Medium? {
        assert RtpPackets([last.item]) == if last.item.RtpItem? then [last.item.packet] else [];
      }
    }
  }

  lemma OutputReport(output: Output, limits: Limits, config: M.Config)
    requires OutputOk(output, limits) && config.Usable()
    ensures PayloadOn(MessageOf(output, config), config.rtcpChannel)
         == if output.Medium? && output.item.RtcpItem? then [output.item.report] else []
  {
    match output {
      case Reply(_) =>
      case Medium(RtpItem(packet)) => InterleavedPayload(config.rtpChannel, packet, config.rtcpChannel);
      case Medium(RtcpItem(report)) => InterleavedPayload(config.rtcpChannel, report, config.rtcpChannel);
    }
  }

  /** On the RTCP channel of the stream are exactly the sender reports of the session, in order. */
  lemma {:induction false} RtcpChannelOf(outputs: seq<Output>, limits: Limits, config: M.Config)
    requires AllOutputsOk(outputs, limits) && config.Usable()
    ensures ChannelPackets(Messages(outputs, config), config.rtcpChannel) == ReportsIn(MediaItems(outputs))
  {
    if outputs != [] {
      var front, last := outputs[..|outputs| - 1], outputs[|outputs| - 1];
      RtcpChannelOf(front, limits, config);
      OutputReport(last, limits, config);
      assert Messages(outputs, config)[..|outputs| - 1] == Messages(front, config);
      if last.Medium? {
        ReportsInStep(MediaItems(front), last.item);
      } else {
        assert MediaItems(front) + [] == MediaItems(front);
      }
    }
  }

  /** Not an interleaved packet, or one on either of the two channels. */
  ghost predicate OnOneOf(message: bytes, rtp: int, rtcp: int) {
    match ReadInterleaved(message)
    case None => true
    case Some((channel, _)) => channel == rtp || channel == rtcp
  }

  lemma OutputOnOneOf(output: Output, limits: Limits, config: M.Config)
    requires OutputOk(output, limits) && config.Usable()
    ensures OnOneOf(MessageOf(output, config), config.rtpChannel, config.rtcpChannel)
  {
    match output {
      case Reply(_) =>
      case Medium(RtpItem(packet)) => InterleavedReads(config.rtpChannel, packet);
      case Medium(RtcpItem(report)) => InterleavedReads(config.rtcpChannel, report);
    }
  }

  /** Nothing of the stream is on any other channel. */
  lemma {:induction false} NoOtherChannel(outputs: seq<Output>, limits: Limits, config: M.Config)
    requires AllOutputsOk(outputs, limits) && config.Usable()
    ensures forall i :: 0 <= i < |outputs| ==>
              OnOneOf(Messages(outputs, config)[i], config.rtpChannel, config.rtcpChannel)
  {
    if outputs != [] {
      NoOtherChannel(outputs[..|outputs| - 1], limits, config);
      OutputOnOneOf(outputs[|outputs| - 1], limits, config);
    }
  }

  // ----------------------------------------------------------- session outputs

  ghost predicate AllFit(items: seq<M.Item>) {
    forall i :: 0 <= i < |items| ==> Fits(items[i])
  }

  lemma {:induction false} PacketItemsFit(packets: seq<RtpPacket>)
    requires M.Sendable(packets)
    ensures AllFit(M.AsItems(packets))
  {
    if packets != [] {
      PacketItemsFit(packets[..|packets| - 1]);
    }
  }

  lemma FrameItemsFit(m: M.State, d: M.Delivery, config: M.Config)
    requires config.Usable()
    ensures AllFit(M.SentFrame(m, d, config).items)
  {
    if !M.Skipped(m, d) {
      M.PacketsAreSendable(m, d, config);
      PacketItemsFit(M.FramePackets(m, d, config.mtu));
    }
  }

  lemma {:induction false} SessionItemsFit(m: M.State, ds: seq<M.Delivery>, config: M.Config)
    requires config.Usable()
    ensures AllFit(Session(m, ds, config).items)
  {
    if ds != [] {
      SessionItemsFit(m, ds[..|ds| - 1], config);
      FrameItemsFit(Session(m, ds[..|ds| - 1], config).state, ds[|ds| - 1], config);
    }
  }

  ghost predicate RepliesOk(outputs: seq<Output>, limits: Limits) {
    forall i :: 0 <= i < |outputs| && outputs[i].Reply? ==> IsReply(outputs[i].message, limits)
  }

  lemma {:induction false} OutputsOk(outputs: seq<Output>, limits: Limits)
    requires RepliesOk(outputs, limits) && AllFit(MediaItems(outputs))
    ensures AllOutputsOk(outputs, limits)
  {
    if outputs != [] {
      var front, last := outputs[..|outputs| - 1], outputs[|outputs| - 1];
      var before, items := MediaItems(front), MediaItems(outputs);
      assert AllFit(before) by {
        assert forall i :: 0 <= i < |before| ==> before[i] == items[i];
      }
      assert last.Medium? ==> items[|items| - 1] == last.item;
      OutputsOk(front, limits);
    }
  }

  /** Answers of the control machine are such replies, whatever the request was, within the limits. */
  lemma AnswersAreReplies(s: Control.State, text: bytes, channel: int, registered: int, sdp: bytes, freshId: bytes,
                          limits: Limits)
    requires NoCr(s.sessionId) && NoCr(freshId)
    requires
      var q := Control.Read(text, channel, registered, sdp, freshId);
      var a := Control.Respond(s, q);
      && |HeaderBlock(ResponseLines(a.status, q.cseq, a.headers, a.body))| <= limits.maxHeader
      && |a.body| <= limits.maxBody && |a.body| <= MAX_INT
    ensures
      var q := Control.Read(text, channel, registered, sdp, freshId);
      var a := Control.Respond(s, q);
      IsReply(Response(a.status, q.cseq, a.headers, a.body), limits)
  {
    var q := Control.Read(text, channel, registered, sdp, freshId);
    var a := Control.Respond(s, q);
    Control.AnswerIsWellFormed(s, text, channel, registered, sdp, freshId, limits);
    ResponseIsStart(a.status, q.cseq, a.headers, a.body);
  }

  // -------------------------------------------------------- the control session

  /** A request and what the server draws on to answer it. */
  datatype Exchange = Exchange(text: bytes, channel: int, registered: int, sdp: bytes, freshId: bytes)

  function RequestOf(x: Exchange): (q: Control.Request) {
    Control.Read(x.text, x.channel, x.registered, x.sdp, x.freshId)
  }

  function AnswerTo(s: Control.State, x: Exchange): (a: Control.Answer) {
    Control.Respond(s, RequestOf(x))
  }

  function ReplyTo(s: Control.State, x: Exchange): (message: bytes) {
    var a := AnswerTo(s, x);
    Response(a.status, RequestOf(x).cseq, a.headers, a.body)
  }

  /** The control state after any requests, from a fresh connection. */
  function ControlAfter(xs: seq<Exchange>): (s: Control.State) {
    if xs == [] then Control.FRESH else AnswerTo(ControlAfter(xs[..|xs| - 1]), xs[|xs| - 1]).state
  }

  function Replies(xs: seq<Exchange>): (messages: seq<bytes>) {
    if xs == [] then [] else Replies(xs[..|xs| - 1]) + [ReplyTo(ControlAfter(xs[..|xs| - 1]), xs[|xs| - 1])]
  }

  /** Session ids as they are drawn: not empty, and no carriage return among their characters. */
  ghost predicate IdsOk(xs: seq<Exchange>) {
    forall i :: 0 <= i < |xs| ==> xs[i].freshId != [] && NoCr(xs[i].freshId)
  }

  ghost predicate ReplyWithin(s: Control.State, x: Exchange, limits: Limits) {
    var a := AnswerTo(s, x);
    && |HeaderBlock(ResponseLines(a.status, RequestOf(x).cseq, a.headers, a.body))| <= limits.maxHeader
    && |a.body| <= limits.maxBody && |a.body| <= MAX_INT
  }

  /** Every reply stays within what the reader accepts. */
  ghost predicate RepliesWithin(xs: seq<Exchange>, limits: Limits) {
    xs == [] ||
    (RepliesWithin(xs[..|xs| - 1], limits) && ReplyWithin(ControlAfter(xs[..|xs| - 1]), xs[|xs| - 1], limits))
  }

  lemma SessionIdStep(s: Control.State, x: Exchange)
    requires Control.Valid(s) && NoCr(s.sessionId) && x.freshId != [] && NoCr(x.freshId)
    ensures Control.Valid(AnswerTo(s, x).state) && NoCr(AnswerTo(s, x).state.sessionId)
  {
    Control.Transition(s, RequestOf(x));
  }

  /** In every reachable control state the invariant holds and the session id can be echoed in a header. */
  lemma {:induction false} ControlStateOk(xs: seq<Exchange>)
    requires IdsOk(xs)
    ensures Control.Valid(ControlAfter(xs)) && NoCr(ControlAfter(xs).sessionId)
  {
    if xs != [] {
      ControlStateOk(xs[..|xs| - 1]);
      SessionIdStep(ControlAfter(xs[..|xs| - 1]), xs[|xs| - 1]);
    }
  }

  ghost predicate AllReplies(messages: seq<bytes>, limits: Limits) {
    forall i :: 0 <= i < |messages| ==> IsReply(messages[i], limits)
  }

  lemma ReplyIsReply(s: Control.State, x: Exchange, limits: Limits)
    requires NoCr(s.sessionId) && NoCr(x.freshId) && ReplyWithin(s, x, limits)
    ensures IsReply(ReplyTo(s, x), limits)
  {
    AnswersAreReplies(s, x.text, x.channel, x.registered, x.sdp, x.freshId, limits);
  }

  /** Whatever the requests, a control session within the limits writes replies and nothing else. */
  lemma {:induction false} ControlWritesReplies(xs: seq<Exchange>, limits: Limits)
    requires IdsOk(xs) && RepliesWithin(xs, limits)
    ensures AllReplies(Replies(xs), limits)
  {
    if xs != [] {
      var front, last := xs[..|xs| - 1], xs[|xs| - 1];
      ControlWritesReplies(front, limits);
      ControlStateOk(front);
      ReplyIsReply(ControlAfter(front), last, limits);
    }
  }

  function ReplyMessages(outputs: seq<Output>): (messages: seq<bytes>) {
    if outputs == [] then []
    else
      var last := outputs[|outputs| - 1];
      ReplyMessages(outputs[..|outputs| - 1]) + if last.Reply? then [last.message] else []
  }

  lemma {:induction false} RepliesOkOf(outputs: seq<Output>, limits: Limits)
    requires AllReplies(ReplyMessages(outputs), limits)
    ensures RepliesOk(outputs, limits)
  {
    if outputs != [] {
      var front, last := outputs[..|outputs| - 1], outputs[|outputs| - 1];
      var before, messages := ReplyMessages(front), ReplyMessages(outputs);
      assert AllReplies(before, limits) by {
        assert forall i :: 0 <= i < |before| ==> before[i] == messages[i];
      }
      assert last.Reply? ==> messages[|messages| - 1] == last.message;
      RepliesOkOf(front, limits);
    }
  }

  /** Request `k` is a SETUP that was accepted. */
  ghost predicate SetUpBy(xs: seq<Exchange>, k: nat)
    requires k < |xs|
  {
    RequestOf(xs[k]).verb == Control.SETUP && AnswerTo(ControlAfter(xs[..k]), xs[k]).status == 200
  }

  /** The Transport field a client reads off the reply names these channels. */
  ghost predicate NamesChannels(reply: bytes, rtp: int, rtcp: int) {
    Control.InterleavedChannels(HeaderField(Control.HeaderPart(reply), Ascii("Transport"))) == Some((rtp, rtcp))
  }

  lemma {:induction false} BindingStays(xs: seq<Exchange>, k: nat)
    requires IdsOk(xs) && k <= |xs| && !ControlAfter(xs[..k]).phase.Initial?
    ensures Control.SameBinding(ControlAfter(xs[..k]), ControlAfter(xs))
    ensures !ControlAfter(xs).phase.Initial?
    decreases |xs|
  {
    if k == |xs| {
      assert xs[..k] == xs;
    } else {
      var front, last := xs[..|xs| - 1], xs[|xs| - 1];
      assert front[..k] == xs[..k];
      BindingStays(front, k);
      ControlStateOk(front);
      Control.Transition(ControlAfter(front), RequestOf(last));
    }
  }

  lemma SetupReplyNames(s: Control.State, x: Exchange)
    requires RequestOf(x).verb == Control.SETUP && AnswerTo(s, x).status == 200 && NoCr(x.freshId)
    ensures
      var after := AnswerTo(s, x).state;
      after.phase.Ready? && NamesChannels(ReplyTo(s, x), after.rtpChannel, after.rtcpChannel)
  {
    var q, after := RequestOf(x), AnswerTo(s, x).state;
    HeaderFieldIsOneLine(Control.HeaderPart(x.text), Ascii("CSeq"));
    Handshake.SetupAnswer(s, q);
    Handshake.SetupTransportReads(q.cseq, after.rtpChannel, after.rtcpChannel, x.freshId);
  }

  lemma NextControl(xs: seq<Exchange>, k: nat)
    requires k < |xs|
    ensures ControlAfter(xs[..k + 1]) == AnswerTo(ControlAfter(xs[..k]), xs[k]).state
  {
    assert xs[..k + 1][..k] == xs[..k];
  }

  lemma NamedChannelsStay(reply: bytes, s: Control.State, t: Control.State)
    requires NamesChannels(reply, s.rtpChannel, s.rtcpChannel) && Control.SameBinding(s, t)
    ensures NamesChannels(reply, t.rtpChannel, t.rtcpChannel)
  {
  }

  /** The reply to an accepted SETUP names the channels the session uses ever after. */
  lemma {:induction false} SetupNamesChannels(xs: seq<Exchange>, k: nat)
    requires IdsOk(xs) && k < |xs| && SetUpBy(xs, k)
    ensures NamesChannels(ReplyTo(ControlAfter(xs[..k]), xs[k]), ControlAfter(xs).rtpChannel, ControlAfter(xs).rtcpChannel)
  {
    var before := ControlAfter(xs[..k]);
    SetupReplyNames(before, xs[k]);
    NextControl(xs, k);
    BindingStays(xs, k + 1);
    NamedChannelsStay(ReplyTo(before, xs[k]), AnswerTo(before, xs[k]).state, ControlAfter(xs));
  }

  // ------------------------------------------------------------- the whole path

  /** The interleaved channels of a control session, with an MTU. */
  function ConfigOf(s: Control.State, mtu: nat): (config: M.Config) {
    M.Config(mtu, s.rtpChannel, s.rtcpChannel)
  }

  /** A session's writes: the replies of its control session and the items of its media session, in any order. */
  ghost predicate IsSession(outputs: seq<Output>, xs: seq<Exchange>, m: M.State, ds: seq<M.Delivery>, config: M.Config) {
    ReplyMessages(outputs) == Replies(xs) && (config.Usable() ==> MediaItems(outputs) == Session(m, ds, config).items)
  }

  lemma ChannelsAreUsable(xs: seq<Exchange>, mtu: nat)
    requires IdsOk(xs) && 15 < mtu <= 0xffff
    ensures ConfigOf(ControlAfter(xs), mtu).Usable()
  {
    ControlStateOk(xs);
  }

  /**
   The whole path. A session answers any requests and sends any frames; its replies,
   packets and reports are written in any order that keeps each kind in sequence, and the
   bytes arrive cut into any chunks. The framer returns exactly the messages written,
   nothing is left over, and the NAL units rebuilt from the RTP channel are the delivered
   ones, if and only if each NAL of the frames is fragmented or of a type that may stand
   alone. The RTCP channel carries the session's reports, nothing is on a third channel, and
   both are the channels a client reads off the reply to its SETUP.
   */
  lemma {:induction false} StreamDelivers(
    codec: Codec, m: M.State, ds: seq<M.Delivery>, xs: seq<Exchange>, config: M.Config, outputs: seq<Output>,
    chunks: seq<bytes>, limits: Limits)
    requires 15 < config.mtu <= 0xffff && config == ConfigOf(ControlAfter(xs), config.mtu) && m.waitingForKeyframe
    requires forall i :: 0 <= i < |ds| ==> ds[i].frame.codec == codec
    requires IdsOk(xs) && RepliesWithin(xs, limits)
    requires IsSession(outputs, xs, m, ds, config)
    requires Flatten(chunks) == Flatten(Messages(outputs, config))
    ensures Feed([], chunks, limits) == Some(Progress(Messages(outputs, config), []))
    ensures Receive(codec, Idle, ChannelPackets(Messages(outputs, config), config.rtpChannel)).nals == Delivered(ds)
       <==> AllSurvive(codec, SentNals(ds), config.mtu)
    ensures config.Usable()
         && ChannelPackets(Messages(outputs, config), config.rtcpChannel) == ReportsIn(Session(m, ds, config).items)
    ensures forall i :: 0 <= i < |outputs| ==>
              OnOneOf(Messages(outputs, config)[i], config.rtpChannel, config.rtcpChannel)
    ensures forall k :: 0 <= k < |xs| && SetUpBy(xs, k) ==>
              NamesChannels(ReplyTo(ControlAfter(xs[..k]), xs[k]), config.rtpChannel, config.rtcpChannel)
  {
    ChannelsAreUsable(xs, config.mtu);
    ControlWritesReplies(xs, limits);
    RepliesOkOf(outputs, limits);
    SessionItemsFit(m, ds, config);
    OutputsOk(outputs, limits);
    AllMessagesWellFormed(outputs, limits, config);
    ChunkIndependence(Messages(outputs, config), chunks, limits);
    RtpChannelOf(outputs, limits, config);
    RtcpChannelOf(outputs, limits, config);
    NoOtherChannel(outputs, limits, config);
    forall k | 0 <= k < |xs| && SetUpBy(xs, k)
      ensures NamesChannels(ReplyTo(ControlAfter(xs[..k]), xs[k]), config.rtpChannel, config.rtcpChannel)
    {
      SetupNamesChannels(xs, k);
    }
    SessionArrives(codec, m, ds, config);
  }

  lemma TakenCodec(ds: seq<M.Delivery>, frames: seq<Queue.Frame>, channel: int, codecs: seq<Codec>)
    requires frames == FramesOf(ds) && FanOut.AllOf(frames, channel, codecs) && 0 <= channel < |codecs|
    ensures forall i :: 0 <= i < |ds| ==> ds[i].frame.codec == codecs[channel]
  {
    forall i | 0 <= i < |ds| ensures ds[i].frame.codec == codecs[channel] {
      assert FanOut.FrameOf(frames[i], channel, codecs);
    }
  }

  // ------------------------------------------------------ the parameter sets sent

  /** The NAL units of a channel's frames. */
  ghost function NalsOf(frames: seq<Queue.Frame>): (nals: seq<bytes>) {
    if frames == [] then [] else NalsOf(frames[..|frames| - 1]) + Split(frames[|frames| - 1].data)
  }

  /** The cache of a channel whose producer has begun these frames. */
  ghost function CacheOver(frames: seq<Queue.Frame>, codec: Codec): (sets: P.ParameterSets) {
    P.RememberAll(P.NO_SETS, codec, NalsOf(frames))
  }

  /** The last parameter set of each type among NAL units. */
  function LastSets(codec: Codec, nals: seq<bytes>): (sets: seq<bytes>) {
    if codec.H264? then [P.LastOf(codec, 7, nals, []), P.LastOf(codec, 8, nals, [])]
    else [P.LastOf(codec, 32, nals, []), P.LastOf(codec, 33, nals, []), P.LastOf(codec, 34, nals, [])]
  }

  lemma CachedAreLast(codec: Codec, nals: seq<bytes>)
    ensures P.SetsOf(P.RememberAll(P.NO_SETS, codec, nals), codec) == LastSets(codec, nals)
  {
    if codec.H264? {
      P.CacheHoldsLast(P.NO_SETS, codec, nals, 7);
      P.CacheHoldsLast(P.NO_SETS, codec, nals, 8);
    } else {
      P.CacheHoldsLast(P.NO_SETS, codec, nals, 32);
      P.CacheHoldsLast(P.NO_SETS, codec, nals, 33);
      P.CacheHoldsLast(P.NO_SETS, codec, nals, 34);
    }
  }

  /** Each delivery finds the cache as the frames begun by then have left it. */
  ghost predicate CachesAre(ds: seq<M.Delivery>, begun: seq<Queue.Frame>, codec: Codec) {
    forall i :: 0 <= i < |ds| ==> CachedBy(ds[i], begun, codec)
  }

  ghost predicate CachedBy(d: M.Delivery, begun: seq<Queue.Frame>, codec: Codec) {
    exists t: nat :: t <= |begun| && d.cache == CacheOver(begun[..t], codec)
  }

  /** The sets sent ahead are the last ones in the frames the channel had begun. */
  ghost predicate LeadsWithLast(d: M.Delivery, begun: seq<Queue.Frame>, codec: Codec) {
    exists t: nat :: t <= |begun| && LeadingSets(d) == NonEmpty(LastSets(codec, NalsOf(begun[..t])))
  }

  lemma LeadingAreLast(d: M.Delivery, begun: seq<Queue.Frame>, codec: Codec)
    requires CachedBy(d, begun, codec) && d.frame.codec == codec
    ensures LeadsWithLast(d, begun, codec)
  {
    var t: nat :| t <= |begun| && d.cache == CacheOver(begun[..t], codec);
    CachedAreLast(codec, NalsOf(begun[..t]));
    assert LeadingSets(d) == NonEmpty(LastSets(codec, NalsOf(begun[..t])));
  }

  /** Frames as they lie in the deliveries of a session. */
  function FramesOf(ds: seq<M.Delivery>): (frames: seq<Queue.Frame>)
    ensures |frames| == |ds| && forall i :: 0 <= i < |ds| ==> frames[i] == ds[i].frame
  {
    seq(|ds|, i requires 0 <= i < |ds| => ds[i].frame)
  }

  /**
   One client of a running server: the fan-out run up to its `n`-th action and the client's
   number in it; the client's media and control sessions; its writes; and the chunks in
   which they arrive at a reader with its limits.
   */
  datatype Live = Live(
    queue: Queue.Limits, codecs: seq<Codec>, actions: seq<FanOut.Action>, states: seq<FanOut.Server>, n: nat, client: nat,
    m: M.State, ds: seq<M.Delivery>, xs: seq<Exchange>, config: M.Config, outputs: seq<Output>, chunks: seq<bytes>,
    limits: Limits)
  {
    /** The channel the client plays. */
    ghost predicate Plays(channel: int) {
      && FanOut.IsRun(queue, codecs, actions, states) && n <= |actions| && client < |states[n].clients|
      && channel == states[n].clients[client].channel && 0 <= channel < |codecs|
    }

    /** The media session sends what the client took from its queue, with the cache as it was by then. */
    ghost predicate SendsTaken(channel: int)
      requires Plays(channel)
    {
      && FramesOf(ds) == FanOut.Taken(queue, FanOut.Project(actions[..n], client))
      && CachesAre(ds, FrameOrder.Begun(actions[..n], channel), codecs[channel])
    }

    /** The session's writes, over the channels its control session has bound, and the chunks they arrive in. */
    ghost predicate Writes() {
      && 15 < config.mtu <= 0xffff && config == ConfigOf(ControlAfter(xs), config.mtu) && m.waitingForKeyframe
      && IdsOk(xs) && RepliesWithin(xs, limits) && IsSession(outputs, xs, m, ds, config)
      && Flatten(chunks) == Flatten(Messages(outputs, config))
    }
  }

  /**
   From the cameras' frames on. Under every interleaving of producers and sessions, the
   frames a client sends are in order and each at most once among those its channel has
   begun; the parameter sets ahead of them are the last ones in such frames; and what the
   client's receiver rebuilds, in the codec of the channel, are those sets and frames.
   */
  lemma {:induction false} ClientReceives(l: Live, channel: int)
    requires l.Plays(channel) && l.SendsTaken(channel) && l.Writes()
    ensures
      var begun, codec := FrameOrder.Begun(l.actions[..l.n], channel), l.codecs[channel];
      && FrameOrder.Subsequence(FramesOf(l.ds), begun)
      && (FirstKey(l.ds) < |l.ds| ==> LeadsWithLast(l.ds[FirstKey(l.ds)], begun, codec))
    ensures Feed([], l.chunks, l.limits) == Some(Progress(Messages(l.outputs, l.config), []))
    ensures
      var packets, codec := ChannelPackets(Messages(l.outputs, l.config), l.config.rtpChannel), l.codecs[channel];
      Receive(codec, Idle, packets).nals == Delivered(l.ds) <==> AllSurvive(codec, SentNals(l.ds), l.config.mtu)
  {
    FrameOrder.FramesArriveInOrder(l.queue, l.codecs, l.actions, l.states, l.n, l.client);
    FanOut.ClientTakesOneCodec(l.queue, l.codecs, l.actions, l.states, l.n, l.client);
    TakenCodec(l.ds, FramesOf(l.ds), channel, l.codecs);
    if FirstKey(l.ds) < |l.ds| {
      LeadingAreLast(l.ds[FirstKey(l.ds)], FrameOrder.Begun(l.actions[..l.n], channel), l.codecs[channel]);
    }
    StreamDelivers(l.codecs[channel], l.m, l.ds, l.xs, l.config, l.outputs, l.chunks, l.limits);
  }
}
