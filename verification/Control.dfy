/** The RTSP control machine of one connection, over every sequence of requests. */
module Control {
  import opened Bytes
  import opened Text
  import opened Framer
  import opened FramerTheorems
  import opened Responses

  datatype Phase = Initial | Ready | Playing | Closed

  datatype State = State(phase: Phase, sessionId: bytes, channelId: int, rtpChannel: int, rtcpChannel: int)

  const FRESH: State := State(Initial, [], -1, 0, 1)

  /** The methods the server knows; any other word is Unknown. */
  datatype Verb = OPTIONS | DESCRIBE | SETUP | PLAY | TEARDOWN | GET_PARAMETER | Unknown

  /**
   What one request brings: its CSeq, method, Transport and Session fields, the public
   channel its target names (-1 for none), the channel registered under that number (-1
   for none), the SDP of that channel, and the id a successful SETUP would draw.
   */
  datatype Request = Request(cseq: bytes, verb: Verb, transport: bytes, session: bytes,
                             channel: int, registered: int, sdp: bytes, freshId: bytes)

  datatype Answer = Answer(status: nat, headers: seq<bytes>, body: bytes, startPlay: bool, closeSession: bool,
                           state: State)

  // ------------------------------------------------------- reading the request

  function HeaderPart(message: bytes): (r: bytes) {
    if HeaderComplete(message) then message[..HeaderBytes(message)] else message
  }

  function SkipBlanks(s: bytes): (r: bytes)
    ensures |r| <= |s|
  {
    if s != [] && (s[0] == 32 || 9 <= s[0] <= 13) then SkipBlanks(s[1..]) else s
  }

  function Word(s: bytes): (r: bytes)
    ensures r <= s
  {
    if s == [] || s[0] == 32 || 9 <= s[0] <= 13 then [] else [s[0]] + Word(s[1..])
  }

  function VerbOf(word: bytes): (v: Verb) {
    if word == Ascii("OPTIONS") then OPTIONS
    else if word == Ascii("DESCRIBE") then DESCRIBE
    else if word == Ascii("SETUP") then SETUP
    else if word == Ascii("PLAY") then PLAY
    else if word == Ascii("TEARDOWN") then TEARDOWN
    else if word == Ascii("GET_PARAMETER") then GET_PARAMETER
    else Unknown
  }

  /** Field extraction from the request text; the numbers of the channel are the caller's. */
  function Read(text: bytes, channel: int, registered: int, sdp: bytes, freshId: bytes): (r: Request) {
    var header := HeaderPart(text);
    Request(HeaderField(header, Ascii("CSeq")), VerbOf(Word(SkipBlanks(FirstLine(text)))),
            HeaderField(header, Ascii("Transport")), HeaderField(header, Ascii("Session")),
            channel, registered, sdp, freshId)
  }

  function IndexOf(s: bytes, p: bytes, from: nat): (j: nat)
    requires from <= |s|
    ensures from <= j <= |s|
    decreases |s| - from
  {
    if from == |s| || p <= s[from..] then from else IndexOf(s, p, from + 1)
  }

  function Lower(s: bytes): (r: bytes)
    ensures |r| == |s|
  {
    seq(|s|, i requires 0 <= i < |s| => LowerByte(s[i]))
  }

  function Digits(s: bytes): (r: bytes)
    ensures r <= s && AllDigits(r)
  {
    if s != [] && IsDigit(s[0]) then [s[0]] + Digits(s[1..]) else []
  }

  /** A decimal int as a formatted read takes it: blanks, a sign, digits, and failure outside 32 bits. */
  function ScanInt(s: bytes): (r: Option<(int, bytes)>) {
    var t := SkipBlanks(s);
    var signed := t != [] && (t[0] == 43 || t[0] == 45);
    var d := Digits(if signed then t[1..] else t);
    if d == [] then None
    else
      var magnitude: int := DecimalValue(d);
      var n := if signed && t[0] == 45 then -magnitude else magnitude;
      if n > MAX_INT || n < -(MAX_INT + 1) then None
      else Some((n, if signed then t[1 + |d|..] else t[|d|..]))
  }

  function ParseChannels(values: bytes): (r: Option<(int, int)>) {
    match ScanInt(values)
    case None => None
    case Some((rtp, rest)) =>
      var separated := SkipBlanks(rest);
      if separated == [] then None
      else
        match ScanInt(separated[1..])
        case None => None
        case Some((rtcp, _)) =>
          if separated[0] != 45 || rtp < 0 || rtcp < 0 || rtp > 255 || rtcp > 255 || rtp == rtcp then None
          else Some((rtp, rtcp))
  }

  function ChannelsIn(lower: bytes): (r: Option<(int, int)>)
    ensures r.Some? ==> 0 <= r.value.0 <= 255 && 0 <= r.value.1 <= 255 && r.value.0 != r.value.1
  {
    var key := Ascii("interleaved=");
    var pos := IndexOf(lower, key, 0);
    if IndexOf(lower, Ascii("rtp/avp/tcp"), 0) == |lower| then None
    else if pos == |lower| then Some((0, 1))
    else if pos + |key| <= |lower| then ParseChannels(lower[pos + |key|..])
    else None
  }

  /** The interleaved channels of a Transport field, or None when it is refused. */
  function InterleavedChannels(transport: bytes): (r: Option<(int, int)>)
    ensures r.Some? ==> 0 <= r.value.0 <= 255 && 0 <= r.value.1 <= 255 && r.value.0 != r.value.1
  {
    ChannelsIn(Lower(transport))
  }

  predicate ValidSession(header: bytes, expected: bytes) {
    expected != [] && (header == expected || StartsWithCi(header, expected + [59]))
  }

  // --------------------------------------------------------------- the machine

  function Verbs(): (r: bytes) {
    Ascii("OPTIONS, DESCRIBE, ") + (Ascii("SETUP, PLAY, ") + (Ascii("TEARDOWN, ") + Ascii("GET_PARAMETER")))
  }

  function PublicLine(): (line: bytes) {
    Ascii("Public: ") + Verbs()
  }

  function AllowLine(): (line: bytes) {
    Ascii("Allow: ") + Verbs()
  }

  function SdpTypeLine(): (line: bytes) {
    Ascii("Content-Type: ") + Ascii("application/sdp")
  }

  function BaseLine(channel: nat): (line: bytes) {
    Ascii("Content-Base: /ch") + (Decimal(channel) + [47])
  }

  function TimeoutLine(id: bytes): (line: bytes) {
    Ascii("Session: ") + (id + Ascii(";timeout=60"))
  }

  function RtpInfoLine(channel: nat): (line: bytes) {
    Ascii("RTP-Info: url=/ch") + (Decimal(channel) + Ascii("/trackID=0"))
  }

  function Refuse(s: State, status: nat): (a: Answer) {
    Answer(status, [], [], false, false, s)
  }

  function SessionLine(id: bytes): (line: bytes) {
    Ascii("Session: ") + id
  }

  function TransportValue(rtp: nat, rtcp: nat): (value: bytes) {
    Ascii("RTP/AVP/TCP;unicast;") + (Ascii("interleaved=") + (Decimal(rtp) + ([45] + Decimal(rtcp))))
  }

  function TransportLine(rtp: nat, rtcp: nat): (line: bytes) {
    Ascii("Transport: ") + TransportValue(rtp, rtcp)
  }

  function OnSetup(s: State, q: Request): (a: Answer) {
    if s.phase != Initial then Refuse(s, 455)
    else
      match InterleavedChannels(q.transport)
      case None => Refuse(s, 461)
      case Some((rtp, rtcp)) =>
        Answer(200, [TransportLine(rtp, rtcp), TimeoutLine(q.freshId)], [], false, false,
               State(Ready, q.freshId, q.channel, rtp, rtcp))
  }

  function OnPlay(s: State, q: Request): (a: Answer)
    requires q.channel >= 0
  {
    if s.phase != Ready || s.channelId != q.channel then Refuse(s, 455)
    else if !ValidSession(q.session, s.sessionId) then Refuse(s, 454)
    else Answer(200, [SessionLine(s.sessionId), RtpInfoLine(q.channel)],
                [], true, false, s.(phase := Playing))
  }

  /** The verbs that need an open session. */
  function InSession(s: State, q: Request): (a: Answer) {
    if q.verb == GET_PARAMETER then
      if !ValidSession(q.session, s.sessionId) then Refuse(s, 454)
      else Answer(200, [SessionLine(s.sessionId)], [], false, false, s)
    else if q.verb == TEARDOWN then
      if !ValidSession(q.session, s.sessionId) then Refuse(s, 454)
      else Answer(200, [SessionLine(s.sessionId)], [], false, true, s.(phase := Closed))
    else Answer(405, [AllowLine()], [], false, false, s)
  }

  function OnChannel(s: State, q: Request): (a: Answer)
    requires q.channel >= 0
  {
    if q.verb == DESCRIBE then
      Answer(200, [SdpTypeLine(), BaseLine(q.channel)], q.sdp, false, false, s)
    else if q.verb == SETUP then OnSetup(s, q)
    else if q.verb == PLAY then OnPlay(s, q)
    else InSession(s, q)
  }

  function Respond(s: State, q: Request): (a: Answer) {
    if q.cseq == [] then Answer(400, [], [], false, true, s)
    else if q.verb == OPTIONS then Answer(200, [PublicLine()], [], false, false, s)
    else if q.channel < 0 || q.channel != q.registered then Refuse(s, 404)
    else OnChannel(s, q)
  }

  class RtspControl {
    var phase: Phase
    var sessionId: bytes
    var channelId: int
    var rtpChannel: int
    var rtcpChannel: int

    constructor ()
      ensures Value() == FRESH
    {
      phase, sessionId, channelId, rtpChannel, rtcpChannel := Initial, [], -1, 0, 1;
    }

    ghost function Value(): (v: State)
      reads this
    {
      State(phase, sessionId, channelId, rtpChannel, rtcpChannel)
    }

    method ProcessRtspRequest(text: bytes, channel: int, registered: int, sdp: bytes, freshId: bytes)
      returns (response: bytes, startPlay: bool, closeSession: bool)
      modifies this
      ensures
        var q := Read(text, channel, registered, sdp, freshId);
        var a := Respond(old(Value()), q);
        && response == Response(a.status, q.cseq, a.headers, a.body)
        && startPlay == a.startPlay && closeSession == a.closeSession
        && Value() == a.state
    {
      var q := Read(text, channel, registered, sdp, freshId);
      var status, headers, body := 200, [], [];
      startPlay, closeSession := false, false;
      if q.cseq == [] {
        status, closeSession := 400, true;
      } else if q.verb == OPTIONS {
        headers := [PublicLine()];
      } else if channel < 0 || channel != registered {
        status := 404;
      } else {
        status, headers, body, startPlay, closeSession := ForChannel(q);
      }
      response := MakeResponse(status, q.cseq, headers, body);
    }

    /** The verbs that name a registered channel. */
    method ForChannel(q: Request)
      returns (status: nat, headers: seq<bytes>, body: bytes, startPlay: bool, closeSession: bool)
      requires q.channel >= 0
      modifies this
      ensures OnChannel(old(Value()), q) == Answer(status, headers, body, startPlay, closeSession, Value())
    {
      body, startPlay, closeSession := [], false, false;
      if q.verb == DESCRIBE {
        return 200, [SdpTypeLine(), BaseLine(q.channel)], q.sdp, false, false;
      } else if q.verb == SETUP {
        status, headers := Setup(q);
      } else if q.verb == PLAY {
        status, headers := Play(q);
        startPlay := status == 200;
      } else {
        status, headers, closeSession := Maintain(q);
      }
    }

    method Maintain(q: Request) returns (status: nat, headers: seq<bytes>, closeSession: bool)
      modifies this
      ensures InSession(old(Value()), q) == Answer(status, headers, [], false, closeSession, Value())
    {
      if q.verb == GET_PARAMETER {
        if !ValidSession(q.session, sessionId) {
          return 454, [], false;
        }
        return 200, [SessionLine(sessionId)], false;
      }
      if q.verb == TEARDOWN {
        if !ValidSession(q.session, sessionId) {
          return 454, [], false;
        }
        phase := Closed;
        return 200, [SessionLine(sessionId)], true;
      }
      return 405, [AllowLine()], false;
    }

    method Setup(q: Request) returns (status: nat, headers: seq<bytes>)
      modifies this
      ensures OnSetup(old(Value()), q) == Answer(status, headers, [], false, false, Value())
    {
      if phase != Initial {
        return 455, [];
      }
      var channels := InterleavedChannels(q.transport);
      if channels.None? {
        return 461, [];
      }
      sessionId, channelId, phase := q.freshId, q.channel, Ready;
      rtpChannel, rtcpChannel := channels.value.0, channels.value.1;
      return 200, [TransportLine(rtpChannel, rtcpChannel), TimeoutLine(sessionId)];
    }

    method Play(q: Request) returns (status: nat, headers: seq<bytes>)
      requires q.channel >= 0
      modifies this
      ensures OnPlay(old(Value()), q) == Answer(status, headers, [], status == 200, false, Value())
    {
      if phase != Ready || channelId != q.channel {
        return 455, [];
      }
      if !ValidSession(q.session, sessionId) {
        return 454, [];
      }
      phase := Playing;
      return 200, [SessionLine(sessionId), RtpInfoLine(q.channel)];
    }
  }

  // ------------------------------------------------------------ one transition

  function Rank(p: Phase): (n: nat) {
    match p
    case Initial => 0
    case Ready => 1
    case Playing => 2
    case Closed => 3
  }

  ghost predicate Valid(s: State) {
    && (s.phase.Initial? <==> s.sessionId == [])
    && (s.phase.Initial? ==> s == FRESH)
    && (!s.phase.Initial? ==> s.channelId >= 0)
    && 0 <= s.rtpChannel <= 255 && 0 <= s.rtcpChannel <= 255 && s.rtpChannel != s.rtcpChannel
  }

  /** The session keeps its id, its channel and its interleaved channels. */
  ghost predicate SameBinding(s: State, t: State) {
    s.sessionId == t.sessionId && s.channelId == t.channelId
    && s.rtpChannel == t.rtpChannel && s.rtcpChannel == t.rtcpChannel
  }

  /** What one request may do to the session. */
  ghost predicate Allowed(s: State, q: Request, a: Answer) {
    && Valid(s) && Valid(a.state)
    && Rank(s.phase) <= Rank(a.state.phase)
    && (a.status != 200 ==> a.state == s)
    && (!s.phase.Initial? ==> SameBinding(s, a.state))
    && (a.startPlay <==> s.phase.Ready? && a.state.phase.Playing?)
    && (a.startPlay ==> a.status == 200 && q.channel == s.channelId == q.registered)
    && (s.phase.Initial? && !a.state.phase.Initial? ==> SetsUp(q, a))
    && (a.state.phase.Closed? && !s.phase.Closed? ==> a.closeSession && q.verb == TEARDOWN)
  }

  ghost predicate SetsUp(q: Request, a: Answer) {
    && q.verb == SETUP && a.status == 200 && a.state.phase.Ready?
    && a.state.channelId == q.channel == q.registered && a.state.sessionId == q.freshId
  }

  lemma SetupAllowed(s: State, q: Request)
    requires Valid(s) && q.freshId != [] && q.verb == SETUP && q.channel == q.registered >= 0
    ensures Allowed(s, q, OnSetup(s, q))
  {
  }

  lemma PlayAllowed(s: State, q: Request)
    requires Valid(s) && q.channel == q.registered >= 0
    ensures Allowed(s, q, OnPlay(s, q))
  {
  }

  lemma InSessionAllowed(s: State, q: Request)
    requires Valid(s)
    ensures Allowed(s, q, InSession(s, q))
  {
  }

  /** An answer that leaves the session as it is and starts nothing. */
  lemma UnchangedAllowed(s: State, q: Request, a: Answer)
    requires Valid(s) && a.state == s && !a.startPlay
    ensures Allowed(s, q, a)
  {
  }

  lemma Transition(s: State, q: Request)
    requires Valid(s) && q.freshId != []
    ensures Allowed(s, q, Respond(s, q))
  {
    var a := Respond(s, q);
    if a.state == s && !a.startPlay {
      UnchangedAllowed(s, q, a);
    } else if q.verb == SETUP {
      SetupAllowed(s, q);
    } else if q.verb == PLAY {
      PlayAllowed(s, q);
    } else {
      InSessionAllowed(s, q);
    }
  }

  // ------------------------------------------------------------- whole sessions

  /** A run of the machine: the requests, its states before and after each, and its answers. */
  ghost predicate IsRun(qs: seq<Request>, ss: seq<State>, answers: seq<Answer>) {
    && |ss| == |qs| + 1 && |answers| == |qs| && ss[0] == FRESH
    && (forall i :: 0 <= i < |qs| ==> qs[i].freshId != [])
    && (forall i :: 0 <= i < |qs| ==> RunsAt(qs, ss, answers, i))
  }

  ghost predicate RunsAt(qs: seq<Request>, ss: seq<State>, answers: seq<Answer>, i: nat)
    requires i < |qs| == |answers| < |ss|
  {
    answers[i] == Respond(ss[i], qs[i]) && ss[i + 1] == answers[i].state
  }

  ghost predicate IsTrace(qs: seq<Request>, ss: seq<State>, answers: seq<Answer>) {
    && |ss| == |qs| + 1 && |answers| == |qs| && ss[0] == FRESH
    && (forall i :: 0 <= i < |qs| ==> MovesAt(qs, ss, answers, i))
  }

  ghost predicate MovesAt(qs: seq<Request>, ss: seq<State>, answers: seq<Answer>, i: nat)
    requires i < |qs| == |answers| < |ss|
  {
    Allowed(ss[i], qs[i], answers[i]) && ss[i + 1] == answers[i].state
  }

  lemma ValidNext(s: State, q: Request, a: Answer)
    requires Valid(s) && q.freshId != [] && a == Respond(s, q)
    ensures Valid(a.state)
  {
    Transition(s, q);
  }

  lemma {:induction false} ValidAfter(qs: seq<Request>, ss: seq<State>, answers: seq<Answer>, n: nat)
    requires IsRun(qs, ss, answers) && n < |ss|
    ensures Valid(ss[n])
  {
    if n > 0 {
      ValidAfter(qs, ss, answers, n - 1);
      assert RunsAt(qs, ss, answers, n - 1);
      ValidNext(ss[n - 1], qs[n - 1], answers[n - 1]);
    }
  }

  lemma RunIsTrace(qs: seq<Request>, ss: seq<State>, answers: seq<Answer>)
    requires IsRun(qs, ss, answers)
    ensures IsTrace(qs, ss, answers)
  {
    forall i | 0 <= i < |qs| ensures MovesAt(qs, ss, answers, i) {
      ValidAfter(qs, ss, answers, i);
      Transition(ss[i], qs[i]);
      assert RunsAt(qs, ss, answers, i);
    }
  }

  lemma {:induction false} TraceNeverBack(qs: seq<Request>, ss: seq<State>, answers: seq<Answer>, m: nat, n: nat)
    requires IsTrace(qs, ss, answers) && m <= n < |ss|
    ensures Rank(ss[m].phase) <= Rank(ss[n].phase)
    ensures !ss[m].phase.Initial? ==> SameBinding(ss[m], ss[n])
    decreases n - m
  {
    if m < n {
      TraceNeverBack(qs, ss, answers, m, n - 1);
      assert MovesAt(qs, ss, answers, n - 1);
    }
  }

  lemma {:induction false} TraceSetUp(qs: seq<Request>, ss: seq<State>, answers: seq<Answer>, n: nat) returns (k: nat)
    requires IsTrace(qs, ss, answers) && n < |ss| && !ss[n].phase.Initial?
    ensures k < n && SetsUp(qs[k], answers[k]) && qs[k].channel == ss[n].channelId
  {
    assert MovesAt(qs, ss, answers, n - 1);
    if ss[n - 1].phase.Initial? {
      k := n - 1;
    } else {
      k := TraceSetUp(qs, ss, answers, n - 1);
    }
  }

  /**
   Every run of requests: the phase never moves back; what SETUP bound (session id,
   channel, interleaved channels) stays bound; an answer other than 200 changes nothing.
   */
  lemma NeverBack(qs: seq<Request>, ss: seq<State>, answers: seq<Answer>, m: nat, n: nat)
    requires IsRun(qs, ss, answers) && m <= n < |ss|
    ensures Valid(ss[n])
    ensures Rank(ss[m].phase) <= Rank(ss[n].phase)
    ensures !ss[m].phase.Initial? ==> SameBinding(ss[m], ss[n])
    ensures m < n && (forall i :: m <= i < n ==> answers[i].status != 200) ==> ss[n] == ss[m]
  {
    ValidAfter(qs, ss, answers, n);
    RunIsTrace(qs, ss, answers);
    TraceNeverBack(qs, ss, answers, m, n);
    if forall i :: m <= i < n ==> answers[i].status != 200 {
      RefusalsChangeNothing(qs, ss, answers, m, n);
    }
  }

  lemma {:induction false} RefusalsChangeNothing(qs: seq<Request>, ss: seq<State>, answers: seq<Answer>, m: nat, n: nat)
    requires IsTrace(qs, ss, answers) && m <= n < |ss|
    requires forall i :: m <= i < n ==> answers[i].status != 200
    ensures ss[n] == ss[m]
    decreases n - m
  {
    if m < n {
      RefusalsChangeNothing(qs, ss, answers, m, n - 1);
      assert MovesAt(qs, ss, answers, n - 1);
    }
  }

  /** Every run: play starts at most once, and only on the channel of an earlier successful SETUP. */
  lemma PlayStartsOnce(qs: seq<Request>, ss: seq<State>, answers: seq<Answer>, i: nat) returns (k: nat)
    requires IsRun(qs, ss, answers) && i < |qs| && answers[i].startPlay
    ensures k < i && SetsUp(qs[k], answers[k]) && qs[k].channel == qs[i].channel
    ensures forall j :: 0 <= j < |qs| && answers[j].startPlay ==> j == i
  {
    RunIsTrace(qs, ss, answers);
    assert MovesAt(qs, ss, answers, i);
    k := TraceSetUp(qs, ss, answers, i);
    forall j | 0 <= j < |qs| && answers[j].startPlay ensures j == i {
      assert MovesAt(qs, ss, answers, j);
      if i < j {
        TraceNeverBack(qs, ss, answers, i + 1, j);
      } else if j < i {
        TraceNeverBack(qs, ss, answers, j + 1, i);
      }
    }
  }

  // -------------------------------------------------- answers as wire messages

  lemma FieldClean(name: string, i: nat, value: bytes)
    requires i < |name| && i < 15 && NoCrText(name) && NoCr(value)
    requires LowerByte(Ascii(name)[i]) != LowerByte(CONTENT_LENGTH[i])
    ensures CleanLine(Ascii(name) + value)
  {
    var line := Ascii(name) + value;
    AsciiNoCr(name);
    NoCrIsNoCrlf(line);
    assert line[i] == Ascii(name)[i];
    OtherField(line, i);
  }

  lemma NoCrConcat(a: bytes, b: bytes)
    requires NoCr(a) && NoCr(b)
    ensures NoCr(a + b)
  {
  }

  lemma LastVerbsNoCr()
    ensures NoCr(Ascii("TEARDOWN, ") + Ascii("GET_PARAMETER"))
  {
    AsciiNoCr("TEARDOWN, ");
    AsciiNoCr("GET_PARAMETER");
    NoCrConcat(Ascii("TEARDOWN, "), Ascii("GET_PARAMETER"));
  }

  lemma VerbsNoCr()
    ensures NoCr(Verbs())
  {
    LastVerbsNoCr();
    var last := Ascii("TEARDOWN, ") + Ascii("GET_PARAMETER");
    AsciiNoCr("SETUP, PLAY, ");
    NoCrConcat(Ascii("SETUP, PLAY, "), last);
    AsciiNoCr("OPTIONS, DESCRIBE, ");
    NoCrConcat(Ascii("OPTIONS, DESCRIBE, "), Ascii("SETUP, PLAY, ") + last);
  }

  lemma PublicLineClean()
    ensures CleanLine(PublicLine())
  {
    VerbsNoCr();
    assert Ascii("Public: ")[0] == 80 && CONTENT_LENGTH[0] == 67;
    FieldClean("Public: ", 0, Verbs());
  }

  lemma AllowLineClean()
    ensures CleanLine(AllowLine())
  {
    VerbsNoCr();
    assert Ascii("Allow: ")[0] == 65 && CONTENT_LENGTH[0] == 67;
    FieldClean("Allow: ", 0, Verbs());
  }

  lemma SdpTypeLineClean()
    ensures CleanLine(SdpTypeLine())
  {
    AsciiNoCr("application/sdp");
    assert Ascii("Content-Type: ")[8] == 84 && CONTENT_LENGTH[8] == 76;
    FieldClean("Content-Type: ", 8, Ascii("application/sdp"));
  }

  lemma BaseLineClean(channel: nat)
    ensures CleanLine(BaseLine(channel))
  {
    DecimalNoCr(channel);
    assert Ascii("Content-Base: /ch")[8] == 66 && CONTENT_LENGTH[8] == 76;
    FieldClean("Content-Base: /ch", 8, Decimal(channel) + [47]);
  }

  lemma SessionLineClean(id: bytes)
    requires NoCr(id)
    ensures CleanLine(SessionLine(id))
  {
    assert Ascii("Session: ")[0] == 83 && CONTENT_LENGTH[0] == 67;
    FieldClean("Session: ", 0, id);
  }

  lemma TimeoutLineClean(id: bytes)
    requires NoCr(id)
    ensures CleanLine(TimeoutLine(id))
  {
    AsciiNoCr(";timeout=60");
    NoCrConcat(id, Ascii(";timeout=60"));
    assert Ascii("Session: ")[0] == 83 && CONTENT_LENGTH[0] == 67;
    FieldClean("Session: ", 0, id + Ascii(";timeout=60"));
  }

  lemma TransportValueNoCr(rtp: nat, rtcp: nat)
    ensures NoCr(Ascii("RTP/AVP/TCP;unicast;") + (Ascii("interleaved=") + (Decimal(rtp) + ([45] + Decimal(rtcp)))))
  {
    DecimalNoCr(rtp);
    DecimalNoCr(rtcp);
    AsciiNoCr("RTP/AVP/TCP;unicast;");
    AsciiNoCr("interleaved=");
    var channels := Decimal(rtp) + ([45] + Decimal(rtcp));
    NoCrConcat(Ascii("interleaved="), channels);
    NoCrConcat(Ascii("RTP/AVP/TCP;unicast;"), Ascii("interleaved=") + channels);
  }

  lemma TransportNameDiffers()
    ensures LowerByte(Ascii("Transport: ")[0]) != LowerByte(CONTENT_LENGTH[0])
  {
    assert Ascii("Transport: ")[0] == 84 && CONTENT_LENGTH[0] == 67;
  }

  lemma TransportLineClean(rtp: nat, rtcp: nat)
    ensures CleanLine(TransportLine(rtp, rtcp))
  {
    TransportValueNoCr(rtp, rtcp);
    TransportNameDiffers();
    FieldClean("Transport: ", 0,
               Ascii("RTP/AVP/TCP;unicast;") + (Ascii("interleaved=") + (Decimal(rtp) + ([45] + Decimal(rtcp)))));
  }

  lemma RtpInfoLineClean(channel: nat)
    ensures CleanLine(RtpInfoLine(channel))
  {
    DecimalNoCr(channel);
    AsciiNoCr("/trackID=0");
    NoCrConcat(Decimal(channel), Ascii("/trackID=0"));
    assert Ascii("RTP-Info: url=/ch")[0] == 82 && CONTENT_LENGTH[0] == 67;
    FieldClean("RTP-Info: url=/ch", 0, Decimal(channel) + Ascii("/trackID=0"));
  }

  lemma SetupHeadersClean(s: State, q: Request)
    requires NoCr(q.freshId)
    ensures AllClean(OnSetup(s, q).headers)
  {
    TimeoutLineClean(q.freshId);
    var channels := InterleavedChannels(q.transport);
    if channels.Some? {
      TransportLineClean(channels.value.0, channels.value.1);
    }
  }

  lemma PlayHeadersClean(s: State, q: Request)
    requires NoCr(s.sessionId) && q.channel >= 0
    ensures AllClean(OnPlay(s, q).headers)
  {
    SessionLineClean(s.sessionId);
    RtpInfoLineClean(q.channel);
  }

  lemma DescribeHeadersClean(channel: nat)
    ensures AllClean([SdpTypeLine(), BaseLine(channel)])
  {
    SdpTypeLineClean();
    BaseLineClean(channel);
  }

  lemma InSessionHeadersClean(s: State, q: Request)
    requires NoCr(s.sessionId)
    ensures AllClean(InSession(s, q).headers)
  {
    AllowLineClean();
    SessionLineClean(s.sessionId);
  }

  lemma AnswerHeadersClean(s: State, q: Request)
    requires NoCr(s.sessionId) && NoCr(q.freshId)
    ensures AllClean(Respond(s, q).headers)
  {
    PublicLineClean();
    SetupHeadersClean(s, q);
    InSessionHeadersClean(s, q);
    if q.channel >= 0 {
      DescribeHeadersClean(q.channel);
      PlayHeadersClean(s, q);
    }
  }

  /** Whatever the request text, the answer to it is one well-formed message, as long as it is within the limits. */
  lemma AnswerIsWellFormed(s: State, text: bytes, channel: int, registered: int, sdp: bytes, freshId: bytes,
                           limits: Limits)
    requires NoCr(s.sessionId) && NoCr(freshId)
    requires
      var q := Read(text, channel, registered, sdp, freshId);
      var a := Respond(s, q);
      && |HeaderBlock(ResponseLines(a.status, q.cseq, a.headers, a.body))| <= limits.maxHeader
      && |a.body| <= limits.maxBody && |a.body| <= MAX_INT
    ensures
      var q := Read(text, channel, registered, sdp, freshId);
      var a := Respond(s, q);
      WellFormed(Response(a.status, q.cseq, a.headers, a.body), limits)
  {
    var q := Read(text, channel, registered, sdp, freshId);
    var a := Respond(s, q);
    HeaderFieldIsOneLine(HeaderPart(text), Ascii("CSeq"));
    AnswerHeadersClean(s, q);
    ResponseIsWellFormed(a.status, q.cseq, a.headers, a.body, limits);
  }

  // ------------------------------------------------- the transport that is read

  lemma {:induction false} IndexOfIs(s: bytes, p: bytes, from: nat, j: nat)
    requires from <= j <= |s| && p <= s[j..] && forall k :: from <= k < j ==> !(p <= s[k..])
    ensures IndexOf(s, p, from) == j
    decreases j - from
  {
    if from < j {
      IndexOfIs(s, p, from + 1, j);
    }
  }

  ghost predicate Occurs(s: bytes, p: bytes) {
    exists k :: 0 <= k < |s| && OccursAt(s, p, k)
  }

  ghost predicate OccursAt(s: bytes, p: bytes, k: nat)
    requires k <= |s|
  {
    p <= s[k..]
  }

  lemma {:induction false} IndexOfFirst(s: bytes, p: bytes, from: nat)
    requires from <= |s|
    ensures var j := IndexOf(s, p, from);
      && (j < |s| ==> OccursAt(s, p, j))
      && forall k :: from <= k < j ==> !OccursAt(s, p, k)
    decreases |s| - from
  {
    if from < |s| && !(p <= s[from..]) {
      IndexOfFirst(s, p, from + 1);
    }
  }

  ghost predicate FirstAt(s: bytes, p: bytes, k: nat) {
    k < |s| && OccursAt(s, p, k) && forall i :: 0 <= i < k ==> !OccursAt(s, p, i)
  }

  lemma IndexOfExactly(s: bytes, p: bytes)
    ensures IndexOf(s, p, 0) < |s| <==> Occurs(s, p)
    ensures IndexOf(s, p, 0) < |s| ==> FirstAt(s, p, IndexOf(s, p, 0))
  {
    IndexOfFirst(s, p, 0);
  }

  lemma FirstIsUnique(s: bytes, p: bytes, k: nat)
    requires FirstAt(s, p, k)
    ensures IndexOf(s, p, 0) == k
  {
    IndexOfFirst(s, p, 0);
    assert OccursAt(s, p, k);
  }

  /** Any transport: without RTP over TCP it is refused, and without interleaved channels it gets 0 and 1. */
  lemma TransportDefaults(transport: bytes)
    ensures !Occurs(Lower(transport), Ascii("rtp/avp/tcp")) ==> InterleavedChannels(transport) == None
    ensures Occurs(Lower(transport), Ascii("rtp/avp/tcp")) && !Occurs(Lower(transport), Ascii("interleaved=")) ==>
              InterleavedChannels(transport) == Some((0, 1))
  {
    IndexOfExactly(Lower(transport), Ascii("rtp/avp/tcp"));
    IndexOfExactly(Lower(transport), Ascii("interleaved="));
  }

  /** Otherwise the channels are read from behind the first place that names them. */
  lemma TransportNames(transport: bytes, k: nat)
    requires Occurs(Lower(transport), Ascii("rtp/avp/tcp")) && FirstAt(Lower(transport), Ascii("interleaved="), k)
    ensures k + 12 <= |transport| && InterleavedChannels(transport) == ParseChannels(Lower(transport)[k + 12..])
  {
    assert |Ascii("interleaved=")| == 12;
    IndexOfExactly(Lower(transport), Ascii("rtp/avp/tcp"));
    FirstIsUnique(Lower(transport), Ascii("interleaved="), k);
  }

  lemma {:induction false} DigitsOf(d: bytes, rest: bytes)
    requires AllDigits(d) && (rest == [] || !IsDigit(rest[0]))
    ensures Digits(d + rest) == d
  {
    if d == [] {
      assert d + rest == rest;
    } else {
      assert (d + rest)[1..] == d[1..] + rest;
      DigitsOf(d[1..], rest);
    }
  }

  lemma ScanDecimal(n: nat, rest: bytes)
    requires rest == [] || !IsDigit(rest[0])
    ensures ScanInt(Decimal(n) + rest) == if n <= MAX_INT then Some((n, rest)) else None
  {
    var d := Decimal(n);
    assert IsDigit((d + rest)[0]);
    DigitsOf(d, rest);
    DecimalRoundTrip(n);
    assert (d + rest)[|d|..] == rest;
  }

  lemma ChannelsParse(rtp: nat, rtcp: nat)
    ensures ParseChannels(Decimal(rtp) + ([45] + Decimal(rtcp)))
         == if rtp <= 255 && rtcp <= 255 && rtp != rtcp then Some((rtp, rtcp)) else None
  {
    var rest := [45] + Decimal(rtcp);
    ScanDecimal(rtp, rest);
    assert SkipBlanks(rest) == rest && rest[1..] == Decimal(rtcp);
    assert Decimal(rtcp) + [] == Decimal(rtcp);
    ScanDecimal(rtcp, []);
  }

  lemma ChannelsAreLower(rtp: nat, rtcp: nat)
    ensures Lower(Decimal(rtp) + ([45] + Decimal(rtcp))) == Decimal(rtp) + ([45] + Decimal(rtcp))
  {
    var v := Decimal(rtp) + ([45] + Decimal(rtcp));
    forall i | 0 <= i < |v| ensures LowerByte(v[i]) == v[i] {
      assert IsDigit(v[i]) || v[i] == 45;
    }
  }

  lemma LowerPrefix()
    ensures
      var p := Lower(Ascii("RTP/AVP/TCP;unicast;"));
      && |p| == 20 && Ascii("rtp/avp/tcp") <= p
      && forall k :: 0 <= k < 20 && p[k] == 105 ==> k == 14 && p[15] == 99
  {
  }

  lemma LowerConcat(a: bytes, b: bytes)
    ensures Lower(a + b) == Lower(a) + Lower(b)
  {
  }

  lemma KeyNotBefore(p: bytes, key: bytes, rest: bytes, k: nat)
    requires |p| == 20 && k < 20 && |key| == 12 && key[0] == 105 && key[1] == 110
    requires forall i :: 0 <= i < 20 && p[i] == 105 ==> i == 14 && p[15] == 99
    ensures !(key <= (p + (key + rest))[k..])
  {
    var s := p + (key + rest);
    assert s[k..][0] == s[k] == p[k] && s[k..][1] == s[k + 1];
  }

  lemma KeyText()
    ensures var key := Ascii("interleaved="); |key| == 12 && key[0] == 105 && key[1] == 110 && Lower(key) == key
  {
  }

  lemma TransportIsLower(rtp: nat, rtcp: nat)
    ensures Lower(TransportValue(rtp, rtcp))
         == Lower(Ascii("RTP/AVP/TCP;unicast;")) + (Ascii("interleaved=") + (Decimal(rtp) + ([45] + Decimal(rtcp))))
  {
    var key, values := Ascii("interleaved="), Decimal(rtp) + ([45] + Decimal(rtcp));
    KeyText();
    ChannelsAreLower(rtp, rtcp);
    LowerConcat(key, values);
    LowerConcat(Ascii("RTP/AVP/TCP;unicast;"), key + values);
  }

  lemma KeyFound(p: bytes, key: bytes, values: bytes)
    requires |p| == 20 && |key| == 12 && key[0] == 105 && key[1] == 110
    requires forall i :: 0 <= i < 20 && p[i] == 105 ==> i == 14 && p[15] == 99
    ensures IndexOf(p + (key + values), key, 0) == 20
  {
    var s := p + (key + values);
    forall k | 0 <= k < 20 ensures !(key <= s[k..]) {
      KeyNotBefore(p, key, values, k);
    }
    assert s[20..] == key + values;
    IndexOfIs(s, key, 0, 20);
  }

  lemma PrefixFound(p: bytes, name: bytes, rest: bytes)
    requires name <= p
    ensures IndexOf(p + rest, name, 0) == 0
  {
    assert (p + rest)[0..] == p + rest;
    IndexOfIs(p + rest, name, 0, 0);
  }

  lemma ChannelsFound(lower: bytes, values: bytes)
    requires |lower| > 32 && lower[32..] == values && |Ascii("interleaved=")| == 12
    requires IndexOf(lower, Ascii("rtp/avp/tcp"), 0) == 0 && IndexOf(lower, Ascii("interleaved="), 0) == 20
    ensures ChannelsIn(lower) == ParseChannels(values)
  {
  }

  /**
   The transport a SETUP asks for, as clients write it and as the server echoes it: the
   channels come out as written, and are refused exactly when one is over 255 or both are
   the same.
   */
  lemma TransportReadsBack(rtp: nat, rtcp: nat)
    ensures InterleavedChannels(TransportValue(rtp, rtcp))
         == if rtp <= 255 && rtcp <= 255 && rtp != rtcp then Some((rtp, rtcp)) else None
  {
    var p, key, values := Lower(Ascii("RTP/AVP/TCP;unicast;")), Ascii("interleaved="), Decimal(rtp) + ([45] + Decimal(rtcp));
    var lower := p + (key + values);
    TransportIsLower(rtp, rtcp);
    LowerPrefix();
    KeyText();
    PrefixFound(p, Ascii("rtp/avp/tcp"), key + values);
    KeyFound(p, key, values);
    assert lower[32..] == values;
    ChannelsFound(lower, values);
    ChannelsParse(rtp, rtcp);
  }
}
