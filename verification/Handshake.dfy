/** What a client reads from the replies, and that echoing it gets the client to play. */
module Handshake {
  import opened Bytes
  import opened Text
  import opened Framer
  import opened Responses
  import opened Control

  // --------------------------------------------------------- fields of a reply

  lemma FieldHere(line: bytes, rest: bytes, name: bytes)
    requires NoCrlf(line) && StartsWithCi(line, name + [58])
    ensures HeaderField(line + (CRLF + rest), name) == Trim(line[|name| + 1..])
  {
    var b := line + (CRLF + rest);
    FindAfterLine(line, rest);
    assert b[..|line|] == line;
  }

  lemma FieldLater(line: bytes, rest: bytes, name: bytes)
    requires NoCrlf(line) && !StartsWithCi(line, name + [58])
    ensures HeaderField(line + (CRLF + rest), name) == HeaderField(rest, name)
  {
    var b := line + (CRLF + rest);
    FindAfterLine(line, rest);
    assert b[..|line|] == line && b[|line| + 2..] == rest;
  }

  /** The first line with that name. */
  ghost predicate NamedAt(lines: seq<bytes>, name: bytes, k: nat) {
    && k < |lines| && StartsWithCi(lines[k], name + [58])
    && forall i :: 0 <= i < k ==> !StartsWithCi(lines[i], name + [58])
  }

  lemma NamedBehind(lines: seq<bytes>, name: bytes, k: nat)
    requires NamedAt(lines, name, k) && k > 0
    ensures NamedAt(lines[1..], name, k - 1) && !StartsWithCi(lines[0], name + [58])
  {
    forall i | 0 <= i < k - 1 ensures !StartsWithCi(lines[1..][i], name + [58]) {
      assert !StartsWithCi(lines[i + 1], name + [58]);
    }
  }

  lemma {:induction false} FieldOfBlock(lines: seq<bytes>, name: bytes, k: nat)
    requires AllGood(lines) && NamedAt(lines, name, k)
    ensures HeaderField(HeaderBlock(lines), name) == Trim(lines[k][|name| + 1..])
    decreases k
  {
    var line, rest := lines[0], HeaderBlock(lines[1..]);
    assert GoodLine(line);
    if k == 0 {
      FieldHere(line, rest, name);
    } else {
      NamedBehind(lines, name, k);
      FieldLater(line, rest, name);
      FieldOfBlock(lines[1..], name, k - 1);
    }
  }

  lemma HeaderPartOfReply(lines: seq<bytes>, body: bytes)
    requires AllGood(lines) && lines != []
    ensures HeaderPart(HeaderBlock(lines) + body) == HeaderBlock(lines)
  {
    BlankLineFound(lines, body);
    assert (HeaderBlock(lines) + body)[..|HeaderBlock(lines)|] == HeaderBlock(lines);
  }

  lemma FieldOfReply(status: nat, cseq: bytes, headers: seq<bytes>, body: bytes, name: bytes, k: nat)
    requires NoCrlf(cseq) && AllClean(headers) && |body| <= MAX_INT
    requires NamedAt(ResponseLines(status, cseq, headers, body), name, k)
    ensures HeaderField(HeaderPart(Response(status, cseq, headers, body)), name)
         == Trim(ResponseLines(status, cseq, headers, body)[k][|name| + 1..])
  {
    var lines := ResponseLines(status, cseq, headers, body);
    ResponseLength(status, cseq, headers, body);
    HeaderPartOfReply(lines, body);
    FieldOfBlock(lines, name, k);
  }

  /** A value as it can be read off a header line: not blank at either end. */
  ghost predicate Bare(v: bytes) {
    v != [] && !IsBlank(v[0]) && !IsBlank(v[|v| - 1])
  }

  lemma TrimIsBare(s: bytes)
    ensures Trim(s) == [] || Bare(Trim(s))
  {
    assert Trim(s) <= TrimLeft(s);
  }

  lemma {:induction false} FieldIsBare(header: bytes, name: bytes)
    ensures HeaderField(header, name) == [] || Bare(HeaderField(header, name))
    decreases |header|
  {
    if !NoCrlf(header) {
      var line := FirstLine(header);
      if StartsWithCi(line, name + [58]) {
        TrimIsBare(line[|name| + 1..]);
      } else {
        FieldIsBare(AfterLine(header), name);
      }
    }
  }

  lemma NamedLine(name: bytes, value: bytes, line: bytes)
    requires line == name + [58] + ([32] + value)
    ensures StartsWithCi(line, name + [58]) && line[|name| + 1..] == [32] + value
  {
    assert forall i :: 0 <= i < |name| + 1 ==> line[i] == (name + [58])[i];
  }

  lemma NotNamed(line: bytes, name: bytes, i: nat)
    requires i < |name| && i < |line| && LowerByte(line[i]) != LowerByte(name[i])
    ensures !StartsWithCi(line, name + [58])
  {
    assert (name + [58])[i] == name[i];
  }

  // ------------------------------------------------------------------ the CSeq

  lemma CseqText(cseq: bytes)
    ensures CseqLine(cseq) == Ascii("CSeq") + [58] + ([32] + cseq)
  {
    assert Ascii("CSeq: ") == Ascii("CSeq") + [58] + [32];
  }

  lemma StatusIsNot(status: nat, name: bytes)
    requires name != [] && LowerByte(name[0]) != 114
    ensures !StartsWithCi(StatusLine(status), name + [58])
  {
    StatusLineStart(status);
    NotNamed(StatusLine(status), name, 0);
  }

  /** Every reply carries the CSeq of its request where the client looks for it. */
  lemma CseqReadsBack(status: nat, cseq: bytes, headers: seq<bytes>, body: bytes)
    requires NoCrlf(cseq) && Bare(cseq) && AllClean(headers) && |body| <= MAX_INT
    ensures HeaderField(HeaderPart(Response(status, cseq, headers, body)), Ascii("CSeq")) == cseq
  {
    var name := Ascii("CSeq");
    assert name[0] == 67;
    StatusIsNot(status, name);
    CseqText(cseq);
    NamedLine(name, cseq, CseqLine(cseq));
    FieldOfReply(status, cseq, headers, body, name, 1);
    TrimOfBare(cseq);
  }

  /** Whatever the request, the reply to it that has a CSeq has that of the request. */
  lemma ReplyCarriesCseq(s: State, q: Request)
    requires NoCrlf(q.cseq) && Bare(q.cseq) && NoCr(s.sessionId) && NoCr(q.freshId)
    requires |Respond(s, q).body| <= MAX_INT
    ensures
      var a := Respond(s, q);
      HeaderField(HeaderPart(Response(a.status, q.cseq, a.headers, a.body)), Ascii("CSeq")) == q.cseq
  {
    AnswerHeadersClean(s, q);
    var a := Respond(s, q);
    CseqReadsBack(a.status, q.cseq, a.headers, a.body);
  }

  // ------------------------------------------------------------ SETUP and PLAY

  function SetupReply(cseq: bytes, rtp: nat, rtcp: nat, id: bytes): (reply: bytes) {
    Response(200, cseq, [TransportLine(rtp, rtcp), TimeoutLine(id)], [])
  }

  /** A session id as it is drawn: hexadecimal digits. */
  ghost predicate IdOk(id: bytes) {
    id != [] && NoCr(id) && !IsBlank(id[0])
  }

  lemma SetupLines(cseq: bytes, rtp: nat, rtcp: nat, id: bytes)
    requires cseq != []
    ensures ResponseLines(200, cseq, [TransportLine(rtp, rtcp), TimeoutLine(id)], [])
         == [StatusLine(200), CseqLine(cseq), SERVER_LINE, TransportLine(rtp, rtcp), TimeoutLine(id)]
  {
  }

  lemma SetupIsClean(rtp: nat, rtcp: nat, id: bytes)
    requires NoCr(id)
    ensures AllClean([TransportLine(rtp, rtcp), TimeoutLine(id)])
  {
    TransportLineClean(rtp, rtcp);
    TimeoutLineClean(id);
  }

  lemma TransportText(rtp: nat, rtcp: nat)
    ensures TransportLine(rtp, rtcp) == Ascii("Transport") + [58] + ([32] + TransportValue(rtp, rtcp))
  {
    assert Ascii("Transport: ") == Ascii("Transport") + [58] + [32];
  }

  lemma TimeoutText(id: bytes)
    ensures TimeoutLine(id) == Ascii("Session") + [58] + ([32] + (id + Ascii(";timeout=60")))
  {
    assert Ascii("Session: ") == Ascii("Session") + [58] + [32];
  }

  lemma TransportIsBare(rtp: nat, rtcp: nat)
    ensures Bare(TransportValue(rtp, rtcp))
  {
    var v, d := TransportValue(rtp, rtcp), Decimal(rtcp);
    assert v[0] == Ascii("RTP/AVP/TCP;unicast;")[0] == 82;
    assert v[|v| - 1] == d[|d| - 1] && IsDigit(d[|d| - 1]);
  }

  lemma TimeoutIsBare(id: bytes)
    requires IdOk(id)
    ensures Bare(id + Ascii(";timeout=60"))
  {
    assert Ascii(";timeout=60")[10] == 48;
  }

  lemma FirstLettersDiffer(cseq: bytes)
    ensures !StartsWithCi(CseqLine(cseq), Ascii("Transport") + [58]) && !StartsWithCi(CseqLine(cseq), Ascii("Session") + [58])
    ensures !StartsWithCi(SERVER_LINE, Ascii("Transport") + [58]) && !StartsWithCi(SERVER_LINE, Ascii("Session") + [58])
  {
    assert CseqLine(cseq)[0] == Ascii("CSeq: ")[0] == 67 && Ascii("Transport")[0] == 84 && Ascii("Session")[0] == 83;
    assert SERVER_LINE[0] == 83 && SERVER_LINE[2] == 114 && Ascii("Session")[2] == 115;
    NotNamed(CseqLine(cseq), Ascii("Transport"), 0);
    NotNamed(CseqLine(cseq), Ascii("Session"), 0);
    NotNamed(SERVER_LINE, Ascii("Transport"), 0);
    NotNamed(SERVER_LINE, Ascii("Session"), 2);
  }

  lemma TransportIsNotSession(rtp: nat, rtcp: nat)
    ensures !StartsWithCi(TransportLine(rtp, rtcp), Ascii("Session") + [58])
  {
    assert TransportLine(rtp, rtcp)[0] == Ascii("Transport: ")[0] == 84 && Ascii("Session")[0] == 83;
    NotNamed(TransportLine(rtp, rtcp), Ascii("Session"), 0);
  }

  lemma TransportNamed(cseq: bytes, rtp: nat, rtcp: nat, id: bytes)
    requires cseq != []
    ensures
      var lines := ResponseLines(200, cseq, [TransportLine(rtp, rtcp), TimeoutLine(id)], []);
      NamedAt(lines, Ascii("Transport"), 3) && lines[3] == TransportLine(rtp, rtcp)
  {
    assert Ascii("Transport")[0] == 84;
    SetupLines(cseq, rtp, rtcp, id);
    StatusIsNot(200, Ascii("Transport"));
    FirstLettersDiffer(cseq);
    TransportText(rtp, rtcp);
    NamedLine(Ascii("Transport"), TransportValue(rtp, rtcp), TransportLine(rtp, rtcp));
  }

  lemma SessionNamed(cseq: bytes, rtp: nat, rtcp: nat, id: bytes)
    requires cseq != []
    ensures
      var lines := ResponseLines(200, cseq, [TransportLine(rtp, rtcp), TimeoutLine(id)], []);
      NamedAt(lines, Ascii("Session"), 4) && lines[4] == TimeoutLine(id)
  {
    assert Ascii("Session")[0] == 83;
    SetupLines(cseq, rtp, rtcp, id);
    StatusIsNot(200, Ascii("Session"));
    FirstLettersDiffer(cseq);
    TransportIsNotSession(rtp, rtcp);
    TimeoutText(id);
    NamedLine(Ascii("Session"), id + Ascii(";timeout=60"), TimeoutLine(id));
  }

  lemma TransportFieldReads(cseq: bytes, rtp: nat, rtcp: nat, id: bytes)
    requires NoCrlf(cseq) && cseq != [] && NoCr(id)
    ensures HeaderField(HeaderPart(SetupReply(cseq, rtp, rtcp, id)), Ascii("Transport")) == TransportValue(rtp, rtcp)
  {
    TransportNamed(cseq, rtp, rtcp, id);
    SetupIsClean(rtp, rtcp, id);
    FieldOfReply(200, cseq, [TransportLine(rtp, rtcp), TimeoutLine(id)], [], Ascii("Transport"), 3);
    TransportText(rtp, rtcp);
    NamedLine(Ascii("Transport"), TransportValue(rtp, rtcp), TransportLine(rtp, rtcp));
    TransportIsBare(rtp, rtcp);
    TrimOfBare(TransportValue(rtp, rtcp));
  }

  /** The client reads from the reply the interleaved channels the server bound. */
  lemma SetupTransportReads(cseq: bytes, rtp: nat, rtcp: nat, id: bytes)
    requires NoCrlf(cseq) && cseq != [] && NoCr(id) && rtp <= 255 && rtcp <= 255 && rtp != rtcp
    ensures InterleavedChannels(HeaderField(HeaderPart(SetupReply(cseq, rtp, rtcp, id)), Ascii("Transport")))
         == Some((rtp, rtcp))
  {
    TransportFieldReads(cseq, rtp, rtcp, id);
    TransportReadsBack(rtp, rtcp);
  }

  /** The Session field of the reply, with its timeout, is what the client echoes. */
  lemma SetupSessionReads(cseq: bytes, rtp: nat, rtcp: nat, id: bytes)
    requires NoCrlf(cseq) && cseq != [] && IdOk(id)
    ensures HeaderField(HeaderPart(SetupReply(cseq, rtp, rtcp, id)), Ascii("Session")) == id + Ascii(";timeout=60")
  {
    SessionNamed(cseq, rtp, rtcp, id);
    SetupIsClean(rtp, rtcp, id);
    FieldOfReply(200, cseq, [TransportLine(rtp, rtcp), TimeoutLine(id)], [], Ascii("Session"), 4);
    TimeoutText(id);
    NamedLine(Ascii("Session"), id + Ascii(";timeout=60"), TimeoutLine(id));
    TimeoutIsBare(id);
    TrimOfBare(id + Ascii(";timeout=60"));
  }

  lemma EchoIsValid(id: bytes)
    requires id != []
    ensures ValidSession(id + Ascii(";timeout=60"), id) && ValidSession(id, id)
  {
    var header := id + Ascii(";timeout=60");
    assert Ascii(";timeout=60")[0] == 59;
    assert forall i :: 0 <= i < |id| + 1 ==> header[i] == (id + [59])[i];
  }

  /** A PLAY on a registered channel with the given Session field. */
  ghost predicate Plays(q: Request, channel: int, session: bytes) {
    q.verb == PLAY && q.cseq != [] && q.channel == q.registered == channel && q.session == session
  }

  lemma PlayAccepted(s: State, q: Request, session: bytes)
    requires s.phase.Ready? && s.channelId >= 0 && Plays(q, s.channelId, session) && ValidSession(session, s.sessionId)
    ensures Respond(s, q).status == 200 && Respond(s, q).startPlay
  {
  }

  /** The reply a successful SETUP is answered with. */
  lemma SetupAnswer(s: State, q: Request)
    requires q.verb == SETUP && Respond(s, q).status == 200
    ensures
      var a := Respond(s, q);
      && q.cseq != [] && a.state.sessionId == q.freshId && a.state.phase.Ready? && a.body == []
      && 0 <= a.state.rtpChannel <= 255 && 0 <= a.state.rtcpChannel <= 255 && a.state.rtpChannel != a.state.rtcpChannel
      && a.headers == [TransportLine(a.state.rtpChannel, a.state.rtcpChannel), TimeoutLine(q.freshId)]
  {
  }

  lemma SetupBinds(s: State, q: Request)
    requires q.verb == SETUP && Respond(s, q).status == 200
    ensures Respond(s, q).state.channelId == q.channel >= 0
  {
  }

  lemma EchoGetsToPlay(before: State, setup: Request, a: Answer, s: State, q: Request, session: bytes)
    requires setup.verb == SETUP && a == Respond(before, setup) && a.status == 200
    requires NoCrlf(setup.cseq) && IdOk(setup.freshId)
    requires s.phase.Ready? && s.sessionId == setup.freshId && s.channelId == setup.channel >= 0
    requires session == HeaderField(HeaderPart(Response(200, setup.cseq, a.headers, a.body)), Ascii("Session"))
    requires Plays(q, setup.channel, session)
    ensures Respond(s, q).status == 200 && Respond(s, q).startPlay
  {
    SetupAnswer(before, setup);
    SetupSessionReads(setup.cseq, a.state.rtpChannel, a.state.rtcpChannel, setup.freshId);
    EchoIsValid(setup.freshId);
    PlayAccepted(s, q, session);
  }

  lemma BoundAfterSetup(qs: seq<Request>, ss: seq<State>, answers: seq<Answer>, k: nat, n: nat)
    requires IsRun(qs, ss, answers) && k < n < |ss| && qs[k].verb == SETUP && answers[k].status == 200
    ensures answers[k] == Respond(ss[k], qs[k])
    ensures ss[n].sessionId == qs[k].freshId && ss[n].channelId == qs[k].channel >= 0
  {
    assert RunsAt(qs, ss, answers, k);
    SetupAnswer(ss[k], qs[k]);
    SetupBinds(ss[k], qs[k]);
    NeverBack(qs, ss, answers, k + 1, n);
  }

  /**
   In every run: a client whose SETUP was accepted, and that sends back the Session field
   of the reply as it stands while the session is still ready, is answered 200 and gets
   to play.
   */
  lemma ClientGetsToPlay(qs: seq<Request>, ss: seq<State>, answers: seq<Answer>, k: nat, n: nat, q: Request)
    requires IsRun(qs, ss, answers) && k < n < |ss| && ss[n].phase.Ready?
    requires qs[k].verb == SETUP && answers[k].status == 200 && NoCrlf(qs[k].cseq) && IdOk(qs[k].freshId)
    requires
      var reply := Response(200, qs[k].cseq, answers[k].headers, answers[k].body);
      Plays(q, qs[k].channel, HeaderField(HeaderPart(reply), Ascii("Session")))
    ensures Respond(ss[n], q).status == 200 && Respond(ss[n], q).startPlay
  {
    BoundAfterSetup(qs, ss, answers, k, n);
    EchoGetsToPlay(ss[k], qs[k], answers[k], ss[n], q, q.session);
  }

  /** From a fresh connection: a SETUP with a well-formed transport is accepted with the channels it asks for. */
  lemma SetupAccepted(q: Request, rtp: nat, rtcp: nat)
    requires q.verb == SETUP && q.cseq != [] && q.channel == q.registered >= 0
    requires q.transport == TransportValue(rtp, rtcp) && rtp <= 255 && rtcp <= 255 && rtp != rtcp
    ensures
      var a := Respond(FRESH, q);
      a.status == 200 && a.state == State(Ready, q.freshId, q.channel, rtp, rtcp)
  {
    TransportReadsBack(rtp, rtcp);
  }
}
