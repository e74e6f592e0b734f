/** Which answer each request gets, in every state, and what a client reads off the reply to it. */
module Answers {
  import opened Bytes
  import opened Text
  import opened Framer
  import opened Responses
  import opened Control
  import opened Handshake

  // ---------------------------------------------------------------- the tables

  lemma ValidSessionMeaning(field: bytes, id: bytes)
    requires id != []
    ensures ValidSession(field, id) <==>
      field == id || (|field| > |id| && SameButCase(field[..|id|], id) && field[|id|] == 59)
  {
    var n := |id|;
    StartsWithCiMeaning(field, id + [59]);
    if |field| > n {
      var long, short := field[..n + 1], field[..n];
      assert forall i :: 0 <= i < n ==> long[i] == short[i] && (id + [59])[i] == id[i];
      assert long[n] == field[n] && (id + [59])[n] == 59;
      assert SameLetter(long[n], 59) <==> long[n] == 59;
    }
  }

  /** A request with a CSeq, on a channel that is registered. */
  ghost predicate OnRegistered(q: Request) {
    q.cseq != [] && q.channel == q.registered >= 0
  }

  /**
   PLAY: 455 unless the session is ready on that channel, else 454 unless the Session field
   is the id, or begins with the id in either case and a semicolon; else play starts.
   */
  lemma PlayTable(s: State, q: Request)
    requires Valid(s) && OnRegistered(q) && q.verb == PLAY
    ensures
      var a := Respond(s, q);
      var ready := s.phase == Ready && s.channelId == q.channel;
      var named := || q.session == s.sessionId
                   || (&& |q.session| > |s.sessionId| && SameButCase(q.session[..|s.sessionId|], s.sessionId)
                       && q.session[|s.sessionId|] == 59);
      && (a.startPlay <==> ready && named)
      && a.status == (if !ready then 455 else if !named then 454 else 200)
      && a.state == (if ready && named then s.(phase := Playing) else s)
      && !a.closeSession
  {
    if s.phase == Ready {
      ValidSessionMeaning(q.session, s.sessionId);
    }
  }

  /** GET_PARAMETER: 200 in an open session that the field names, else 454; nothing changes. */
  lemma GetParameterTable(s: State, q: Request)
    requires Valid(s) && OnRegistered(q) && q.verb == GET_PARAMETER
    ensures
      var a := Respond(s, q);
      var named := && s.phase != Initial
                   && (|| q.session == s.sessionId
                       || (&& |q.session| > |s.sessionId| && SameButCase(q.session[..|s.sessionId|], s.sessionId)
                           && q.session[|s.sessionId|] == 59));
      && a.status == (if named then 200 else 454)
      && a.state == s && !a.startPlay && !a.closeSession
  {
    if s.phase != Initial {
      ValidSessionMeaning(q.session, s.sessionId);
    }
  }

  /** TEARDOWN: an open session that the field names is closed with a 200, else 454 and nothing changes. */
  lemma TeardownTable(s: State, q: Request)
    requires Valid(s) && OnRegistered(q) && q.verb == TEARDOWN
    ensures
      var a := Respond(s, q);
      var named := && s.phase != Initial
                   && (|| q.session == s.sessionId
                       || (&& |q.session| > |s.sessionId| && SameButCase(q.session[..|s.sessionId|], s.sessionId)
                           && q.session[|s.sessionId|] == 59));
      && a.status == (if named then 200 else 454)
      && a.state == (if named then s.(phase := Closed) else s)
      && (a.closeSession <==> named) && !a.startPlay
  {
    if s.phase != Initial {
      ValidSessionMeaning(q.session, s.sessionId);
    }
  }

  /** SETUP: 455 in a session, else 461 for a transport that is refused, else the session is bound as asked. */
  lemma SetupTable(s: State, q: Request)
    requires Valid(s) && OnRegistered(q) && q.verb == SETUP
    ensures
      var a := Respond(s, q);
      && a.status == (if s.phase != Initial then 455
                      else if InterleavedChannels(q.transport) == None then 461 else 200)
      && (a.status != 200 ==> a.state == s)
      && (a.status == 200 ==>
            && a.state.phase == Ready && a.state.sessionId == q.freshId && a.state.channelId == q.channel
            && InterleavedChannels(q.transport) == Some((a.state.rtpChannel, a.state.rtcpChannel)))
      && !a.startPlay && !a.closeSession
  {
  }

  /** Everything else: 400 without a CSeq, 404 for a channel that is not registered, 405 for an unknown method. */
  lemma OtherTable(s: State, q: Request)
    requires !OnRegistered(q) || q.verb == OPTIONS || q.verb == DESCRIBE || q.verb == Unknown
    ensures
      var a := Respond(s, q);
      && a.status == (if q.cseq == [] then 400
                      else if q.verb == OPTIONS then 200
                      else if !OnRegistered(q) then 404
                      else if q.verb == DESCRIBE then 200 else 405)
      && a.state == s && !a.startPlay && (a.closeSession <==> q.cseq == [])
  {
  }

  // ------------------------------------------------------------ the status line

  /** The status a client reads: the number behind the version on the first line. */
  function StatusOf(reply: bytes): (status: Option<int>) {
    var line := SkipBlanks(FirstLine(reply));
    match ScanInt(line[|Word(line)|..])
    case None => None
    case Some((n, _)) => Some(n)
  }

  lemma ReplyFirstLine(status: nat, cseq: bytes, headers: seq<bytes>, body: bytes)
    ensures FirstLine(Response(status, cseq, headers, body)) == StatusLine(status)
  {
    var lines := ResponseLines(status, cseq, headers, body);
    var line, rest := StatusLine(status), HeaderBlock(lines[1..]) + body;
    assert lines[0] == line;
    StatusLineClean(status);
    BlockCons(lines, body);
    FindAfterLine(line, rest);
    assert (line + (CRLF + rest))[..|line|] == line;
  }

  lemma VersionWord(rest: bytes)
    ensures
      var line := Ascii("RTSP/1.0 ") + rest;
      && SkipBlanks(line) == line && |Word(line)| == 8 && line[8..] == [32] + rest
  {
    var name, line := Ascii("RTSP/1.0 "), Ascii("RTSP/1.0 ") + rest;
    assert name[0] == 82 && name[1] == 84 && name[2] == 83 && name[3] == 80 && name[4] == 47 && name[5] == 49;
    assert name[6] == 46 && name[7] == 48 && name[8] == 32;
    assert line[0] == 82;
    VersionLetters(line);
    assert line[8..] == [32] + rest;
  }

  lemma {:induction false} WordLength(s: bytes, n: nat)
    requires n < |s| && s[n] == 32 && forall i :: 0 <= i < n ==> s[i] != 32 && !(9 <= s[i] <= 13)
    ensures |Word(s)| == n
  {
    if n > 0 {
      WordLength(s[1..], n - 1);
    }
  }

  lemma VersionLetters(line: bytes)
    requires |line| > 8 && line[0] == 82 && line[1] == 84 && line[2] == 83 && line[3] == 80 && line[4] == 47
    requires line[5] == 49 && line[6] == 46 && line[7] == 48 && line[8] == 32
    ensures |Word(line)| == 8
  {
    WordLength(line, 8);
  }

  lemma SkipSpace(s: bytes)
    ensures SkipBlanks([32] + s) == SkipBlanks(s)
  {
    assert ([32] + s)[1..] == s;
  }

  lemma ScanBehindSpace(n: nat, rest: bytes)
    requires n <= MAX_INT && (rest == [] || !IsDigit(rest[0]))
    ensures ScanInt([32] + (Decimal(n) + rest)) == Some((n, rest))
  {
    SkipSpace(Decimal(n) + rest);
    ScanDecimal(n, rest);
  }

  /** The status of every reply is read back from its first line. */
  lemma StatusReadsBack(status: nat, cseq: bytes, headers: seq<bytes>, body: bytes)
    requires status <= MAX_INT
    ensures StatusOf(Response(status, cseq, headers, body)) == Some(status)
  {
    var reason := [32] + Ascii(ReasonPhrase(status));
    ReplyFirstLine(status, cseq, headers, body);
    VersionWord(Decimal(status) + reason);
    ScanBehindSpace(status, reason);
  }

  /** Whatever the request, the client reads off the reply the status of the answer, one of seven. */
  lemma ReplyTellsStatus(s: State, q: Request)
    ensures
      var a := Respond(s, q);
      && a.status in {200, 400, 404, 405, 454, 455, 461}
      && StatusOf(Response(a.status, q.cseq, a.headers, a.body)) == Some(a.status)
  {
    var a := Respond(s, q);
    StatusReadsBack(a.status, q.cseq, a.headers, a.body);
  }

  lemma ThreeDigits(n: nat)
    requires 100 <= n <= 999
    ensures Decimal(n) == [48 + n / 100, 48 + n / 10 % 10, 48 + n % 10]
  {
    assert Decimal(n) == Decimal(n / 10) + [48 + n % 10];
    assert Decimal(n / 10) == Decimal(n / 100) + [48 + n / 10 % 10];
    assert Decimal(n / 100) == [48 + n / 100];
  }

  /** The first lines of the replies. */
  lemma CommonStatusTexts(cseq: bytes, headers: seq<bytes>, body: bytes)
    ensures FirstLine(Response(200, cseq, headers, body)) == Ascii("RTSP/1.0 200 ") + Ascii("OK")
    ensures FirstLine(Response(400, cseq, headers, body)) == Ascii("RTSP/1.0 400 ") + Ascii("Bad Request")
    ensures FirstLine(Response(404, cseq, headers, body)) == Ascii("RTSP/1.0 404 ") + Ascii("Not Found")
  {
    StatusText(200, "RTSP/1.0 200 ", "OK", cseq, headers, body);
    StatusText(400, "RTSP/1.0 400 ", "Bad Request", cseq, headers, body);
    StatusText(404, "RTSP/1.0 404 ", "Not Found", cseq, headers, body);
  }

  lemma MethodStatusTexts(cseq: bytes, headers: seq<bytes>, body: bytes)
    ensures FirstLine(Response(405, cseq, headers, body)) == Ascii("RTSP/1.0 405 ") + Ascii("Method Not Allowed")
    ensures FirstLine(Response(455, cseq, headers, body))
         == Ascii("RTSP/1.0 455 ") + Ascii("Method Not Valid in This State")
  {
    StatusText(405, "RTSP/1.0 405 ", "Method Not Allowed", cseq, headers, body);
    StatusText(455, "RTSP/1.0 455 ", "Method Not Valid in This State", cseq, headers, body);
  }

  lemma SessionStatusTexts(cseq: bytes, headers: seq<bytes>, body: bytes)
    ensures FirstLine(Response(454, cseq, headers, body)) == Ascii("RTSP/1.0 454 ") + Ascii("Session Not Found")
    ensures FirstLine(Response(461, cseq, headers, body)) == Ascii("RTSP/1.0 461 ") + Ascii("Unsupported Transport")
  {
    StatusText(454, "RTSP/1.0 454 ", "Session Not Found", cseq, headers, body);
    StatusText(461, "RTSP/1.0 461 ", "Unsupported Transport", cseq, headers, body);
  }

  lemma StatusText(status: nat, start: string, reason: string, cseq: bytes, headers: seq<bytes>, body: bytes)
    requires 100 <= status <= 999 && reason == ReasonPhrase(status)
    requires |start| == 13 && start[..9] == "RTSP/1.0 " && start[12] == ' '
    requires start[9] as int == 48 + status / 100 && start[10] as int == 48 + status / 10 % 10
    requires start[11] as int == 48 + status % 10
    ensures FirstLine(Response(status, cseq, headers, body)) == Ascii(start) + Ascii(reason)
  {
    ReplyFirstLine(status, cseq, headers, body);
    ThreeDigits(status);
    StartText(start, Decimal(status));
    Assoc(Ascii("RTSP/1.0 "), Decimal(status), [32] + Ascii(reason));
    Assoc(Ascii("RTSP/1.0 ") + Decimal(status), [32], Ascii(reason));
  }

  lemma StartText(start: string, digits: bytes)
    requires |start| == 13 && start[..9] == "RTSP/1.0 " && start[12] == ' ' && |digits| == 3
    requires start[9] as int == digits[0] && start[10] as int == digits[1] && start[11] as int == digits[2]
    ensures Ascii(start) == Ascii("RTSP/1.0 ") + digits + [32]
  {
    var name := Ascii("RTSP/1.0 ");
    assert forall i :: 0 <= i < 9 ==> start[i] == start[..9][i] && Ascii(start)[i] == name[i];
  }

  // ------------------------------------------------------- the fields of replies

  /** A name that no line above the headers of a reply has. */
  ghost predicate Below(name: bytes, status: nat, cseq: bytes) {
    forall i :: 0 <= i < |TopLines(status, cseq)| ==> !StartsWithCi(TopLines(status, cseq)[i], name + [58])
  }

  lemma NamedBelow(top: seq<bytes>, headers: seq<bytes>, last: seq<bytes>, name: bytes, k: nat)
    requires k < |headers| && NamedAt(headers, name, k)
    requires forall i :: 0 <= i < |top| ==> !StartsWithCi(top[i], name + [58])
    ensures
      var lines := top + headers + last;
      NamedAt(lines, name, |top| + k) && lines[|top| + k] == headers[k]
  {
    var lines := top + headers + last;
    forall i | 0 <= i < |top| + k ensures !StartsWithCi(lines[i], name + [58]) {
      if i < |top| {
        assert lines[i] == top[i];
      } else {
        assert lines[i] == headers[i - |top|];
      }
    }
  }

  lemma FieldOfLine(status: nat, cseq: bytes, headers: seq<bytes>, body: bytes, name: bytes, k: nat, line: bytes)
    requires NoCrlf(cseq) && AllClean(headers) && |body| <= MAX_INT
    requires NamedAt(ResponseLines(status, cseq, headers, body), name, k)
    requires line == ResponseLines(status, cseq, headers, body)[k] && |line| > |name|
    ensures HeaderField(HeaderPart(Response(status, cseq, headers, body)), name) == Trim(line[|name| + 1..])
  {
    FieldOfReply(status, cseq, headers, body, name, k);
  }

  lemma HeaderFieldIs(status: nat, cseq: bytes, headers: seq<bytes>, body: bytes, name: bytes, k: nat)
    requires NoCrlf(cseq) && AllClean(headers) && |body| <= MAX_INT && Below(name, status, cseq)
    requires NamedAt(headers, name, k)
    ensures HeaderField(HeaderPart(Response(status, cseq, headers, body)), name) == Trim(headers[k][|name| + 1..])
  {
    var top := TopLines(status, cseq);
    NamedBelow(top, headers, BodyLines(body), name, k);
    FieldOfLine(status, cseq, headers, body, name, |top| + k, headers[k]);
  }

  /** A header of a reply, read back by its name. */
  lemma HeaderReads(status: nat, cseq: bytes, headers: seq<bytes>, body: bytes, name: bytes, value: bytes, k: nat)
    requires NoCrlf(cseq) && AllClean(headers) && |body| <= MAX_INT && Below(name, status, cseq) && Bare(value)
    requires k < |headers| && headers[k] == name + [58] + ([32] + value)
    requires forall i :: 0 <= i < k ==> !StartsWithCi(headers[i], name + [58])
    ensures HeaderField(HeaderPart(Response(status, cseq, headers, body)), name) == value
  {
    NamedLine(name, value, headers[k]);
    HeaderFieldIs(status, cseq, headers, body, name, k);
    TrimOfBare(value);
  }

  lemma StatusBegins(status: nat)
    ensures var line := StatusLine(status); |line| > 3 && line[0] == 82 && line[1] == 84 && line[2] == 83
  {
    assert Ascii("RTSP/1.0 ")[0] == 82 && Ascii("RTSP/1.0 ")[1] == 84 && Ascii("RTSP/1.0 ")[2] == 83;
  }

  lemma CseqBegins(cseq: bytes)
    ensures var line := CseqLine(cseq); |line| > 3 && line[0] == 67 && line[1] == 83 && line[2] == 101
  {
    assert Ascii("CSeq: ")[0] == 67 && Ascii("CSeq: ")[1] == 83 && Ascii("CSeq: ")[2] == 101;
  }

  lemma ServerBegins()
    ensures |SERVER_LINE| > 3 && SERVER_LINE[0] == 83 && SERVER_LINE[1] == 101 && SERVER_LINE[2] == 114
  {
  }

  /** Three letters tell a name from those above. */
  lemma NameIsBelow(name: bytes, status: nat, cseq: bytes)
    requires |name| > 3
    requires LowerByte(name[0]) != 114 || LowerByte(name[1]) != 116 || LowerByte(name[2]) != 115
    requires LowerByte(name[0]) != 99 || LowerByte(name[1]) != 115 || LowerByte(name[2]) != 101
    requires LowerByte(name[0]) != 115 || LowerByte(name[1]) != 101 || LowerByte(name[2]) != 114
    ensures Below(name, status, cseq)
  {
    StatusBegins(status);
    CseqBegins(cseq);
    ServerBegins();
    Differs(StatusLine(status), name);
    Differs(CseqLine(cseq), name);
    Differs(SERVER_LINE, name);
  }

  lemma Differs(line: bytes, name: bytes)
    requires |line| > 3 && |name| > 3
    ensures StartsWithCi(line, name + [58]) ==>
      && LowerByte(line[0]) == LowerByte(name[0]) && LowerByte(line[1]) == LowerByte(name[1])
      && LowerByte(line[2]) == LowerByte(name[2])
  {
    if LowerByte(line[0]) != LowerByte(name[0]) {
      NotNamed(line, name, 0);
    } else if LowerByte(line[1]) != LowerByte(name[1]) {
      NotNamed(line, name, 1);
    } else if LowerByte(line[2]) != LowerByte(name[2]) {
      NotNamed(line, name, 2);
    }
  }

  lemma ServerText()
    ensures SERVER_LINE == Ascii("Server") + [58] + ([32] + Ascii("rpi-vms-m3")) && Bare(Ascii("rpi-vms-m3"))
  {
    assert Ascii("Server: rpi-vms-m3") == Ascii("Server") + [58] + ([32] + Ascii("rpi-vms-m3"));
    assert Ascii("rpi-vms-m3")[0] == 114 && Ascii("rpi-vms-m3")[9] == 51;
  }

  lemma ServerNamed(status: nat, cseq: bytes, headers: seq<bytes>, body: bytes)
    ensures
      var lines, k := ResponseLines(status, cseq, headers, body), |TopLines(status, cseq)| - 1;
      NamedAt(lines, Ascii("Server"), k) && lines[k] == SERVER_LINE
  {
    var name := Ascii("Server");
    assert name[0] == 83;
    StatusIsNot(status, name);
    CseqBegins(cseq);
    NotNamed(CseqLine(cseq), name, 0);
    ServerText();
    NamedLine(name, Ascii("rpi-vms-m3"), SERVER_LINE);
  }

  /** Every reply names the server. */
  lemma ServerReads(status: nat, cseq: bytes, headers: seq<bytes>, body: bytes)
    requires NoCrlf(cseq) && AllClean(headers) && |body| <= MAX_INT
    ensures HeaderField(HeaderPart(Response(status, cseq, headers, body)), Ascii("Server")) == Ascii("rpi-vms-m3")
  {
    ServerText();
    ServerNamed(status, cseq, headers, body);
    NamedLine(Ascii("Server"), Ascii("rpi-vms-m3"), SERVER_LINE);
    FieldOfLine(status, cseq, headers, body, Ascii("Server"), |TopLines(status, cseq)| - 1, SERVER_LINE);
    TrimOfBare(Ascii("rpi-vms-m3"));
  }

  function ReplyTo(s: State, q: Request): (reply: bytes) {
    var a := Respond(s, q);
    Response(a.status, q.cseq, a.headers, a.body)
  }

  /** What the client finds under a name in the reply to its request. */
  function ReplyField(s: State, q: Request, name: string): (value: bytes) {
    HeaderField(HeaderPart(ReplyTo(s, q)), Ascii(name))
  }

  /** A request whose CSeq can be echoed, in a session whose id can be. */
  ghost predicate Echoable(s: State, q: Request) {
    NoCrlf(q.cseq) && NoCr(s.sessionId) && NoCr(q.freshId) && |q.sdp| <= MAX_INT
  }

  // ------------------------------------------------------------------- DESCRIBE

  lemma ContentTypeText()
    ensures SdpTypeLine() == Ascii("Content-Type") + [58] + ([32] + Ascii("application/sdp"))
    ensures Bare(Ascii("application/sdp"))
  {
    assert Ascii("Content-Type: ") == Ascii("Content-Type") + [58] + [32];
    assert Ascii("application/sdp")[0] == 97 && Ascii("application/sdp")[14] == 112;
  }

  function BaseOf(channel: nat): (value: bytes) {
    Ascii("/ch") + (Decimal(channel) + Ascii("/"))
  }

  lemma ContentBaseText(channel: nat)
    ensures BaseLine(channel) == Ascii("Content-Base") + [58] + ([32] + BaseOf(channel))
    ensures Bare(BaseOf(channel))
    ensures !StartsWithCi(SdpTypeLine(), Ascii("Content-Base") + [58])
  {
    assert Ascii("Content-Base: /ch") == Ascii("Content-Base") + [58] + ([32] + Ascii("/ch"));
    assert Ascii("/") == [47];
    assert Ascii("/ch")[0] == 47;
    assert SdpTypeLine()[8] == Ascii("Content-Type: ")[8] == 84 && Ascii("Content-Base")[8] == 66;
    NotNamed(SdpTypeLine(), Ascii("Content-Base"), 8);
  }

  lemma ContentNamesBelow(status: nat, cseq: bytes)
    ensures Below(Ascii("Content-Type"), status, cseq) && Below(Ascii("Content-Base"), status, cseq)
  {
    assert Ascii("Content-Type")[1] == 111 && Ascii("Content-Base")[1] == 111;
    assert Ascii("Content-Type")[0] == 67 && Ascii("Content-Base")[0] == 67;
    NameIsBelow(Ascii("Content-Type"), status, cseq);
    NameIsBelow(Ascii("Content-Base"), status, cseq);
  }

  lemma ReplyBody(status: nat, cseq: bytes, headers: seq<bytes>, body: bytes)
    requires NoCrlf(cseq) && AllClean(headers) && |body| <= MAX_INT
    ensures
      var reply := Response(status, cseq, headers, body);
      && |HeaderPart(reply)| <= |reply| && reply[|HeaderPart(reply)|..] == body
      && ContentLength(HeaderPart(reply)) == |body|
  {
    ResponseLength(status, cseq, headers, body);
    HeaderPartOfReply(ResponseLines(status, cseq, headers, body), body);
  }

  lemma TypeReads(cseq: bytes, channel: nat, sdp: bytes)
    requires NoCrlf(cseq) && |sdp| <= MAX_INT
    ensures HeaderField(HeaderPart(Response(200, cseq, [SdpTypeLine(), BaseLine(channel)], sdp)), Ascii("Content-Type"))
         == Ascii("application/sdp")
  {
    DescribeHeadersClean(channel);
    ContentTypeText();
    ContentNamesBelow(200, cseq);
    HeaderReads(200, cseq, [SdpTypeLine(), BaseLine(channel)], sdp, Ascii("Content-Type"), Ascii("application/sdp"), 0);
  }

  lemma BaseReads(cseq: bytes, channel: nat, sdp: bytes)
    requires NoCrlf(cseq) && |sdp| <= MAX_INT
    ensures HeaderField(HeaderPart(Response(200, cseq, [SdpTypeLine(), BaseLine(channel)], sdp)), Ascii("Content-Base"))
         == BaseOf(channel)
  {
    DescribeHeadersClean(channel);
    ContentBaseText(channel);
    ContentNamesBelow(200, cseq);
    HeaderReads(200, cseq, [SdpTypeLine(), BaseLine(channel)], sdp, Ascii("Content-Base"), BaseOf(channel), 1);
  }

  lemma DescribeAnswer(s: State, q: Request)
    requires OnRegistered(q) && q.verb == DESCRIBE
    ensures ReplyTo(s, q) == Response(200, q.cseq, [SdpTypeLine(), BaseLine(q.channel)], q.sdp)
  {
  }

  /** DESCRIBE is answered with the SDP of the channel, declared by type and length, and with the base of its URLs. */
  lemma DescribeReads(s: State, q: Request)
    requires OnRegistered(q) && q.verb == DESCRIBE && Echoable(s, q)
    ensures
      var reply := ReplyTo(s, q);
      && StatusOf(reply) == Some(200)
      && |HeaderPart(reply)| <= |reply| && reply[|HeaderPart(reply)|..] == q.sdp
      && ContentLength(HeaderPart(reply)) == |q.sdp|
    ensures ReplyField(s, q, "Content-Type") == Ascii("application/sdp")
    ensures ReplyField(s, q, "Content-Base") == Ascii("/ch") + (Decimal(q.channel) + Ascii("/"))
  {
    DescribeAnswer(s, q);
    DescribeHeadersClean(q.channel);
    StatusReadsBack(200, q.cseq, [SdpTypeLine(), BaseLine(q.channel)], q.sdp);
    ReplyBody(200, q.cseq, [SdpTypeLine(), BaseLine(q.channel)], q.sdp);
    TypeReads(q.cseq, q.channel, q.sdp);
    BaseReads(q.cseq, q.channel, q.sdp);
  }

  // ------------------------------------------------- OPTIONS and unknown methods

  lemma VerbsAreBare()
    ensures Bare(Verbs())
  {
    var v, last := Verbs(), Ascii("GET_PARAMETER");
    assert v[0] == Ascii("OPTIONS, DESCRIBE, ")[0] == 79;
    assert v[|v| - 1] == last[12] == 82;
  }

  lemma SplitName(name: string, spaced: string, value: bytes)
    requires spaced == name + ": "
    ensures Ascii(spaced) + value == Ascii(name) + [58] + ([32] + value)
  {
    assert Ascii(spaced) == Ascii(name) + [58] + [32];
    Assoc(Ascii(name) + [58], [32], value);
  }

  lemma PublicText()
    ensures PublicLine() == Ascii("Public") + [58] + ([32] + Verbs())
  {
    SplitName("Public", "Public: ", Verbs());
  }
  lemma AllowText()
    ensures AllowLine() == Ascii("Allow") + [58] + ([32] + Verbs())
  {
    SplitName("Allow", "Allow: ", Verbs());
  }
  lemma ListNamesBelow(status: nat, cseq: bytes)
    ensures Below(Ascii("Public"), status, cseq) && Below(Ascii("Allow"), status, cseq)
  {
    assert Ascii("Public")[0] == 80 && Ascii("Allow")[0] == 65;
    NameIsBelow(Ascii("Public"), status, cseq);
    NameIsBelow(Ascii("Allow"), status, cseq);
  }

  /** A reply whose one header lists the methods. */
  lemma ListReads(status: nat, cseq: bytes, header: bytes, name: bytes)
    requires NoCrlf(cseq) && CleanLine(header) && Below(name, status, cseq) && status <= MAX_INT
    requires header == name + [58] + ([32] + Verbs())
    ensures StatusOf(Response(status, cseq, [header], [])) == Some(status)
    ensures HeaderField(HeaderPart(Response(status, cseq, [header], [])), name) == Verbs()
  {
    VerbsAreBare();
    StatusReadsBack(status, cseq, [header], []);
    HeaderReads(status, cseq, [header], [], name, Verbs(), 0);
  }

  /** OPTIONS names the six methods the server answers. */
  lemma OptionsReads(s: State, q: Request)
    requires q.cseq != [] && NoCrlf(q.cseq) && q.verb == OPTIONS
    ensures StatusOf(ReplyTo(s, q)) == Some(200)
    ensures ReplyField(s, q, "Public")
         == Ascii("OPTIONS, DESCRIBE, ") + (Ascii("SETUP, PLAY, ") + (Ascii("TEARDOWN, ") + Ascii("GET_PARAMETER")))
  {
    ListNamesBelow(200, q.cseq);
    PublicText();
    PublicLineClean();
    ListReads(200, q.cseq, PublicLine(), Ascii("Public"));
  }

  lemma UnknownHeaders(s: State, q: Request)
    requires OnRegistered(q) && q.verb == Unknown
    ensures Respond(s, q).status == 405 && Respond(s, q).headers == [AllowLine()] && Respond(s, q).body == []
  {
  }

  /** A request with any other method is told them. */
  lemma UnknownReads(s: State, q: Request)
    requires OnRegistered(q) && NoCrlf(q.cseq) && q.verb == Unknown
    ensures StatusOf(ReplyTo(s, q)) == Some(405)
    ensures ReplyField(s, q, "Allow")
         == Ascii("OPTIONS, DESCRIBE, ") + (Ascii("SETUP, PLAY, ") + (Ascii("TEARDOWN, ") + Ascii("GET_PARAMETER")))
  {
    UnknownHeaders(s, q);
    ListNamesBelow(405, q.cseq);
    AllowText();
    AllowLineClean();
    ListReads(405, q.cseq, AllowLine(), Ascii("Allow"));
  }

  // ------------------------------------------------------- within an open session

  lemma SessionText(id: bytes)
    ensures SessionLine(id) == Ascii("Session") + [58] + ([32] + id)
  {
    assert Ascii("Session: ") == Ascii("Session") + [58] + [32];
  }

  lemma SessionNameBelow(status: nat, cseq: bytes)
    ensures Below(Ascii("Session"), status, cseq)
  {
    assert Ascii("Session")[0] == 83 && Ascii("Session")[1] == 101 && Ascii("Session")[2] == 115;
    NameIsBelow(Ascii("Session"), status, cseq);
  }

  /** The URL a PLAY reply gives for the track. */
  function TrackOf(channel: nat): (value: bytes) {
    Ascii("url=/ch") + (Decimal(channel) + Ascii("/trackID=0"))
  }

  lemma RtpInfoText(channel: nat)
    ensures RtpInfoLine(channel) == Ascii("RTP-Info") + [58] + ([32] + TrackOf(channel))
    ensures Bare(TrackOf(channel))
  {
    assert Ascii("RTP-Info: url=/ch") == Ascii("RTP-Info") + [58] + ([32] + Ascii("url=/ch"));
    var v, last := TrackOf(channel), Ascii("/trackID=0");
    assert v[0] == Ascii("url=/ch")[0] == 117;
    assert v[|v| - 1] == last[9] == 48;
  }

  lemma RtpInfoNameBelow(status: nat, cseq: bytes, id: bytes)
    ensures Below(Ascii("RTP-Info"), status, cseq) && !StartsWithCi(SessionLine(id), Ascii("RTP-Info") + [58])
  {
    assert Ascii("RTP-Info")[0] == 82 && Ascii("RTP-Info")[1] == 84 && Ascii("RTP-Info")[2] == 80;
    NameIsBelow(Ascii("RTP-Info"), status, cseq);
    assert SessionLine(id)[0] == Ascii("Session: ")[0] == 83;
    NotNamed(SessionLine(id), Ascii("RTP-Info"), 0);
  }

  lemma SessionFieldReads(cseq: bytes, id: bytes, more: seq<bytes>)
    requires NoCrlf(cseq) && NoCr(id) && Bare(id) && AllClean(more)
    ensures
      var reply := Response(200, cseq, [SessionLine(id)] + more, []);
      StatusOf(reply) == Some(200) && HeaderField(HeaderPart(reply), Ascii("Session")) == id
  {
    var headers := [SessionLine(id)] + more;
    StatusReadsBack(200, cseq, headers, []);
    SessionLineClean(id);
    SessionText(id);
    SessionNameBelow(200, cseq);
    HeaderReads(200, cseq, headers, [], Ascii("Session"), id, 0);
  }

  lemma SessionHeaders(s: State, q: Request)
    requires OnRegistered(q) && Respond(s, q).status == 200 && (q.verb == GET_PARAMETER || q.verb == TEARDOWN)
    ensures Respond(s, q).headers == [SessionLine(s.sessionId)] + [] && Respond(s, q).body == []
  {
  }

  /** A GET_PARAMETER or TEARDOWN that is accepted names the session. */
  lemma SessionReplyReads(s: State, q: Request)
    requires Echoable(s, q) && OnRegistered(q) && Bare(s.sessionId) && Respond(s, q).status == 200
    requires q.verb == GET_PARAMETER || q.verb == TEARDOWN
    ensures StatusOf(ReplyTo(s, q)) == Some(200) && ReplyField(s, q, "Session") == s.sessionId
  {
    SessionHeaders(s, q);
    SessionFieldReads(q.cseq, s.sessionId, []);
  }

  lemma PlayHeaders(s: State, q: Request)
    requires OnRegistered(q) && Respond(s, q).status == 200 && q.verb == PLAY
    ensures Respond(s, q).headers == [SessionLine(s.sessionId)] + [RtpInfoLine(q.channel)] && Respond(s, q).body == []
  {
  }

  lemma TrackReads(cseq: bytes, id: bytes, channel: nat)
    requires NoCrlf(cseq) && NoCr(id)
    ensures HeaderField(HeaderPart(Response(200, cseq, [SessionLine(id)] + [RtpInfoLine(channel)], [])), Ascii("RTP-Info"))
         == TrackOf(channel)
  {
    SessionLineClean(id);
    RtpInfoLineClean(channel);
    RtpInfoText(channel);
    RtpInfoNameBelow(200, cseq, id);
    HeaderReads(200, cseq, [SessionLine(id)] + [RtpInfoLine(channel)], [], Ascii("RTP-Info"), TrackOf(channel), 1);
  }

  /** A PLAY that is accepted names the session and the track that starts. */
  lemma PlayReplyReads(s: State, q: Request)
    requires Echoable(s, q) && OnRegistered(q) && Bare(s.sessionId) && Respond(s, q).status == 200 && q.verb == PLAY
    ensures StatusOf(ReplyTo(s, q)) == Some(200) && ReplyField(s, q, "Session") == s.sessionId
    ensures ReplyField(s, q, "RTP-Info") == Ascii("url=/ch") + (Decimal(q.channel) + Ascii("/trackID=0"))
  {
    PlayHeaders(s, q);
    RtpInfoLineClean(q.channel);
    SessionFieldReads(q.cseq, s.sessionId, [RtpInfoLine(q.channel)]);
    TrackReads(q.cseq, s.sessionId, q.channel);
  }
}
