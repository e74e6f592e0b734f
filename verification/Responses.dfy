/** What the server writes: RTSP responses and interleaved packets, and that the framer reads them back. */
module Responses {
  import opened Bytes
  import opened Text
  import opened Framer
  import opened FramerTheorems

  function ReasonPhrase(status: nat): (r: string) {
    match status
    case 200 => "OK"
    case 400 => "Bad Request"
    case 404 => "Not Found"
    case 405 => "Method Not Allowed"
    case 454 => "Session Not Found"
    case 455 => "Method Not Valid in This State"
    case 461 => "Unsupported Transport"
    case _ => "Error"
  }

  function StatusLine(status: nat): (line: bytes) {
    Ascii("RTSP/1.0 ") + (Decimal(status) + ([32] + Ascii(ReasonPhrase(status))))
  }

  function LengthLine(n: nat): (line: bytes) {
    CONTENT_LENGTH + ([32] + Decimal(n))
  }

  const SERVER_LINE: bytes := Ascii("Server: rpi-vms-m3")

  function CseqLine(cseq: bytes): (line: bytes) {
    Ascii("CSeq: ") + cseq
  }

  function TopLines(status: nat, cseq: bytes): (lines: seq<bytes>) {
    if cseq == [] then [StatusLine(status), SERVER_LINE] else [StatusLine(status), CseqLine(cseq), SERVER_LINE]
  }

  function BodyLines(body: bytes): (lines: seq<bytes>) {
    if body == [] then [] else [LengthLine(|body|)]
  }

  /** The header lines of a response, in the order they are written. */
  function ResponseLines(status: nat, cseq: bytes, headers: seq<bytes>, body: bytes): (lines: seq<bytes>) {
    TopLines(status, cseq) + headers + BodyLines(body)
  }

  /** Header lines, each with its line break, and the blank line that ends them. */
  function HeaderBlock(lines: seq<bytes>): (r: bytes) {
    if lines == [] then CRLF else lines[0] + (CRLF + HeaderBlock(lines[1..]))
  }

  function Response(status: nat, cseq: bytes, headers: seq<bytes>, body: bytes): (r: bytes) {
    HeaderBlock(ResponseLines(status, cseq, headers, body)) + body
  }

  /** The lines written so far, without the blank line. */
  function Broken(lines: seq<bytes>): (r: bytes) {
    if lines == [] then [] else Broken(lines[..|lines| - 1]) + (lines[|lines| - 1] + CRLF)
  }

  lemma {:induction false} BrokenThenBlock(a: seq<bytes>, b: seq<bytes>)
    ensures Broken(a) + HeaderBlock(b) == HeaderBlock(a + b)
    decreases |a|
  {
    if a == [] {
      assert a + b == b;
    } else {
      var front, last := a[..|a| - 1], a[|a| - 1];
      assert a + b == front + ([last] + b);
      BrokenThenBlock(front, [last] + b);
      assert ([last] + b)[1..] == b;
      assert Broken(a) + HeaderBlock(b) == Broken(front) + (last + (CRLF + HeaderBlock(b)));
    }
  }

  method AddHeaders(top: bytes, ghost lines: seq<bytes>, headers: seq<bytes>) returns (out: bytes)
    requires top == Broken(lines)
    ensures out == Broken(lines + headers)
  {
    out := top;
    assert lines + headers[..0] == lines;
    for i := 0 to |headers|
      invariant out == Broken(lines + headers[..i])
    {
      out := out + (headers[i] + CRLF);
      BrokenStep(lines + headers[..i], headers[i]);
      assert lines + headers[..i] + [headers[i]] == lines + headers[..i + 1];
    }
    assert headers[..|headers|] == headers;
  }

  lemma BrokenIsBlock(lines: seq<bytes>)
    ensures Broken(lines) + CRLF == HeaderBlock(lines)
  {
    BrokenThenBlock(lines, []);
    assert lines + [] == lines;
  }

  method MakeResponse(status: nat, cseq: bytes, headers: seq<bytes>, body: bytes) returns (out: bytes)
    ensures out == Response(status, cseq, headers, body)
  {
    out := MakeTop(status, cseq);
    out := AddHeaders(out, TopLines(status, cseq), headers);
    ghost var lines := TopLines(status, cseq) + headers;
    if body != [] {
      out := out + (LengthLine(|body|) + CRLF);
      BrokenStep(lines, LengthLine(|body|));
    }
    assert lines + [] == lines;
    assert out == Broken(lines + BodyLines(body));
    BrokenIsBlock(lines + BodyLines(body));
    out := out + CRLF + body;
  }

  method MakeTop(status: nat, cseq: bytes) returns (out: bytes)
    ensures out == Broken(TopLines(status, cseq))
  {
    ghost var lines: seq<bytes> := [];
    out := StatusLine(status) + CRLF;
    BrokenStep(lines, StatusLine(status));
    assert [] + (StatusLine(status) + CRLF) == out;
    lines := lines + [StatusLine(status)];
    if cseq != [] {
      out := out + (CseqLine(cseq) + CRLF);
      BrokenStep(lines, CseqLine(cseq));
      lines := lines + [CseqLine(cseq)];
    }
    out := out + (SERVER_LINE + CRLF);
    BrokenStep(lines, SERVER_LINE);
    lines := lines + [SERVER_LINE];
    assert lines == TopLines(status, cseq);
  }

  lemma BrokenStep(lines: seq<bytes>, line: bytes)
    ensures Broken(lines + [line]) == Broken(lines) + (line + CRLF)
  {
    assert (lines + [line])[..|lines|] == lines;
  }

  function Interleaved(channel: int, packet: bytes): (r: Result<bytes>)
    ensures r.Error? <==> |packet| > 0xffff
  {
    if |packet| > 0xffff then Error("interleaved RTP packet is too large")
    else Ok([DOLLAR, channel % 256] + U16(|packet|) + packet)
  }

  /** The channel and the packet of an interleaved message (section 10.12 of RFC 2326). */
  function ReadInterleaved(message: bytes): (r: Option<(byte, bytes)>) {
    if |message| >= 4 && message[0] == DOLLAR && |message| == 4 + ReadU16(message[2..4])
    then Some((message[1], message[4..])) else None
  }

  /** What is interleaved reads back; what its length field cannot hold is refused. */
  lemma InterleavedReads(channel: byte, packet: bytes)
    ensures match Interleaved(channel, packet)
      case Ok(message) => ReadInterleaved(message) == Some((channel, packet))
      case Error(_) => |packet| >= 0x1_0000
  {
    if |packet| < 0x1_0000 {
      var message := Interleaved(channel, packet).value;
      assert message[2..4] == U16(|packet|) && message[4..] == packet;
      U16RoundTrip(|packet|);
    }
  }

  // -------------------------------------------------------------- clean lines

  ghost predicate NoCr(b: bytes) {
    forall i :: 0 <= i < |b| ==> b[i] != 13
  }

  lemma NoCrIsNoCrlf(b: bytes)
    requires NoCr(b)
    ensures NoCrlf(b)
  {
    FindIs(b, false, 0, |b|);
  }

  lemma NoCrlfBehind(a: bytes, b: bytes)
    requires NoCr(a) && NoCrlf(b)
    ensures NoCrlf(a + b)
  {
    forall k | 0 <= k < |a + b| ensures !BreakAt(a + b, false, k) {
      if k >= |a| {
        FindNoneBefore(b, false, 0, k - |a|);
      }
    }
    FindIs(a + b, false, 0, |a + b|);
  }

  lemma {:induction false} DecimalNoCr(n: nat)
    ensures NoCr(Decimal(n))
  {
    assert forall i :: 0 <= i < |Decimal(n)| ==> IsDigit(Decimal(n)[i]);
  }

  /** A line that can stand in a header without ending it or declaring a body. */
  ghost predicate CleanLine(line: bytes) {
    line != [] && NoCrlf(line) && !StartsWithCi(line, CONTENT_LENGTH)
  }

  ghost predicate AllClean(lines: seq<bytes>) {
    forall i :: 0 <= i < |lines| ==> CleanLine(lines[i])
  }

  ghost predicate NoCrText(s: string) {
    forall i :: 0 <= i < |s| ==> s[i] as int % 256 != 13
  }

  lemma AsciiNoCr(s: string)
    requires NoCrText(s)
    ensures NoCr(Ascii(s)) && NoCrlf(Ascii(s))
  {
    NoCrIsNoCrlf(Ascii(s));
  }

  lemma StateReasonNoCr()
    ensures NoCrText("Method Not Valid in This State")
  {
  }

  lemma LongReasonsNoCr()
    ensures NoCrText("Method Not Allowed") && NoCrText("Session Not Found") && NoCrText("Unsupported Transport")
  {
  }

  lemma ShortReasonsNoCr()
    ensures NoCrText("OK") && NoCrText("Bad Request") && NoCrText("Not Found") && NoCrText("Error")
  {
  }

  lemma ReasonNoCr(status: nat)
    ensures NoCrText(ReasonPhrase(status))
  {
    StateReasonNoCr();
    LongReasonsNoCr();
    ShortReasonsNoCr();
  }

  /** A text line whose byte `i` tells it from a Content-Length field. */
  lemma OtherField(line: bytes, i: nat)
    requires i < 15 && i < |line| && LowerByte(line[i]) != LowerByte(CONTENT_LENGTH[i])
    ensures !StartsWithCi(line, CONTENT_LENGTH)
  {
  }

  lemma StatusLineClean(status: nat)
    ensures CleanLine(StatusLine(status))
  {
    ReasonNoCr(status);
    AsciiNoCr(ReasonPhrase(status));
    AsciiNoCr("RTSP/1.0 ");
    DecimalNoCr(status);
    var line := StatusLine(status);
    assert NoCr(line);
    NoCrIsNoCrlf(line);
    assert line[0] == 82 && CONTENT_LENGTH[0] == 67;
    OtherField(line, 0);
  }

  lemma CseqLineClean(cseq: bytes)
    requires NoCrlf(cseq)
    ensures CleanLine(CseqLine(cseq))
  {
    AsciiNoCr("CSeq: ");
    NoCrlfBehind(Ascii("CSeq: "), cseq);
    assert CseqLine(cseq)[1] == 83 && CONTENT_LENGTH[1] == 111;
    OtherField(CseqLine(cseq), 1);
  }

  lemma ServerLineClean()
    ensures CleanLine(SERVER_LINE)
  {
    AsciiNoCr("Server: rpi-vms-m3");
    assert SERVER_LINE[0] == 83 && CONTENT_LENGTH[0] == 67;
    OtherField(SERVER_LINE, 0);
  }

  // ------------------------------------------------------------ header blocks

  ghost predicate GoodLine(line: bytes) {
    line != [] && NoCrlf(line)
  }

  ghost predicate AllGood(lines: seq<bytes>) {
    forall i :: 0 <= i < |lines| ==> GoodLine(lines[i])
  }

  lemma LineStart(line: bytes, rest: bytes)
    requires GoodLine(line)
    ensures !CrlfAt(line + (CRLF + rest), 0)
  {
    FindAfterLine(line, rest);
    FindNoneBefore(line + (CRLF + rest), false, 0, 0);
  }

  lemma BlockCons(lines: seq<bytes>, body: bytes)
    requires lines != []
    ensures HeaderBlock(lines) + body == lines[0] + (CRLF + (HeaderBlock(lines[1..]) + body))
  {
  }

  lemma BlockStart(lines: seq<bytes>, body: bytes)
    requires AllGood(lines)
    ensures |HeaderBlock(lines) + body| >= 2
    ensures CrlfAt(HeaderBlock(lines) + body, 0) <==> lines == []
  {
    if lines != [] {
      BlockCons(lines, body);
      LineStart(lines[0], HeaderBlock(lines[1..]) + body);
    }
  }

  /** The first blank line of a message is the one its header block ends in. */
  lemma {:induction false} BlankLineFound(lines: seq<bytes>, body: bytes)
    requires lines != [] && AllGood(lines)
    ensures Find(HeaderBlock(lines) + body, true, 0) + 4 == |HeaderBlock(lines)|
    decreases |lines|
  {
    var line, rest := lines[0], HeaderBlock(lines[1..]) + body;
    var b := HeaderBlock(lines) + body;
    BlockCons(lines, body);
    FindAfterLine(line, rest);
    BlockStart(lines[1..], body);
    BreakAfterLine(b, line, rest);
    if |lines| > 1 {
      BlankLineFound(lines[1..], body);
      SkipToRest(b, |line|, rest);
    } else {
      FindIs(b, true, 0, |line|);
    }
  }

  lemma BreakAfterLine(b: bytes, line: bytes, rest: bytes)
    requires b == line + (CRLF + rest) && Find(b, false, 0) == |line|
    ensures |b| >= |line| + 2 && b[|line| + 2..] == rest && b[|line| + 1] == 10
    ensures forall k :: 0 <= k < |line| ==> !BreakAt(b, true, k)
    ensures BreakAt(b, true, |line|) == CrlfAt(rest, 0)
  {
    forall k | 0 <= k < |line| ensures !BreakAt(b, true, k) {
      FindNoneBefore(b, false, 0, k);
    }
    assert b[|line|] == 13 && b[|line| + 1] == 10;
    assert b[|line| + 2..] == rest;
    assert CrlfAt(b, |line| + 2) == CrlfAt(rest, 0);
  }

  lemma SkipToRest(b: bytes, n: nat, rest: bytes)
    requires n + 2 <= |b| && b[n + 2..] == rest && b[n + 1] == 10
    requires forall k :: 0 <= k <= n ==> !BreakAt(b, true, k)
    requires Find(rest, true, 0) < |rest|
    ensures Find(b, true, 0) == n + 2 + Find(rest, true, 0)
  {
    var j := Find(rest, true, 0);
    forall k | 0 <= k < n + 2 + j ensures !BreakAt(b, true, k) {
      if k > n + 1 {
        FindNoneBefore(rest, true, 0, k - n - 2);
      }
    }
    FindIs(b, true, 0, n + 2 + j);
  }

  lemma {:induction false} BlockLines(lines: seq<bytes>)
    requires AllGood(lines)
    ensures Lines(HeaderBlock(lines)) == lines + [[]]
  {
    if lines == [] {
      assert CRLF == [] + (CRLF + []);
      LinesCons([], []);
    } else {
      BlockLines(lines[1..]);
      LinesCons(lines[0], HeaderBlock(lines[1..]));
      assert [lines[0]] + (lines[1..] + [[]]) == lines + [[]];
    }
  }

  lemma {:induction false} NoLengthField(lines: seq<bytes>)
    requires AllClean(lines)
    ensures LengthField(lines + [[]]) == 0
  {
    if lines != [] {
      assert (lines + [[]])[1..] == lines[1..] + [[]];
      NoLengthField(lines[1..]);
    } else {
      assert (lines + [[]])[1..] == [];
    }
  }

  lemma {:induction false} FirstLengthField(lines: seq<bytes>, line: bytes, more: seq<bytes>)
    requires AllClean(lines) && StartsWithCi(line, CONTENT_LENGTH)
    ensures LengthField(lines + ([line] + more)) == ParseLength(Trim(line[|CONTENT_LENGTH|..]))
  {
    if lines != [] {
      assert (lines + ([line] + more))[1..] == lines[1..] + ([line] + more);
      FirstLengthField(lines[1..], line, more);
    } else {
      assert lines + ([line] + more) == [line] + more;
    }
  }

  lemma LengthLineIsGood(n: nat)
    ensures GoodLine(LengthLine(n)) && StartsWithCi(LengthLine(n), CONTENT_LENGTH)
  {
    var line := LengthLine(n);
    DecimalNoCr(n);
    AsciiNoCr("Content-Length:");
    assert NoCr(line);
    NoCrIsNoCrlf(line);
  }

  lemma LengthLineParses(n: nat)
    requires n <= MAX_INT
    ensures |LengthLine(n)| >= |CONTENT_LENGTH|
    ensures ParseLength(Trim(LengthLine(n)[|CONTENT_LENGTH|..])) == n
  {
    var d := Decimal(n);
    assert LengthLine(n)[|CONTENT_LENGTH|..] == [32] + d;
    assert IsDigit(d[0]) && IsDigit(d[|d| - 1]);
    TrimOfBare(d);
    DecimalRoundTrip(n);
  }

  // ------------------------------------------------------------- reading back

  lemma TopLinesClean(status: nat, cseq: bytes)
    requires NoCrlf(cseq)
    ensures AllClean(TopLines(status, cseq))
  {
    StatusLineClean(status);
    CseqLineClean(cseq);
    ServerLineClean();
  }

  lemma CleanIsGood(lines: seq<bytes>)
    requires AllClean(lines)
    ensures AllGood(lines)
  {
    forall i | 0 <= i < |lines| ensures GoodLine(lines[i]) {
      assert CleanLine(lines[i]);
    }
  }

  lemma AllGoodConcat(a: seq<bytes>, b: seq<bytes>)
    requires AllGood(a) && AllGood(b)
    ensures AllGood(a + b)
  {
  }

  /** The Content-Length of a header block is what its one length line, if any, says. */
  lemma BlockLength(clean: seq<bytes>, tail: seq<bytes>)
    requires AllClean(clean) && AllGood(tail) && |tail| <= 1
    requires |tail| == 1 ==> StartsWithCi(tail[0], CONTENT_LENGTH)
    ensures AllGood(clean + tail)
    ensures ContentLength(HeaderBlock(clean + tail))
         == if tail == [] then 0 else ParseLength(Trim(tail[0][|CONTENT_LENGTH|..]))
  {
    CleanIsGood(clean);
    AllGoodConcat(clean, tail);
    BlockLines(clean + tail);
    if tail == [] {
      assert clean + tail == clean;
      NoLengthField(clean);
    } else {
      assert clean + tail + [[]] == clean + ([tail[0]] + [[]]);
      FirstLengthField(clean, tail[0], [[]]);
    }
  }

  /** The header block of a response declares exactly its body. */
  lemma ResponseLength(status: nat, cseq: bytes, headers: seq<bytes>, body: bytes)
    requires NoCrlf(cseq) && AllClean(headers) && |body| <= MAX_INT
    ensures AllGood(ResponseLines(status, cseq, headers, body))
    ensures ContentLength(HeaderBlock(ResponseLines(status, cseq, headers, body))) == |body|
  {
    TopLinesClean(status, cseq);
    assert AllClean(TopLines(status, cseq) + headers);
    LengthLineIsGood(|body|);
    LengthLineParses(|body|);
    BlockLength(TopLines(status, cseq) + headers, BodyLines(body));
  }

  lemma PrefixKept(a: bytes, b: bytes, name: string)
    requires StartsWith(a, name) && name != ""
    ensures StartsWith(a + b, name) && (a + b)[0] == a[0]
  {
    assert forall i :: 0 <= i < |name| ==> (a + b)[i] == a[i];
  }

  lemma StatusLineStart(status: nat)
    ensures StartsWith(StatusLine(status), "RTSP/") && StatusLine(status)[0] == 82
  {
    var name := Ascii("RTSP/1.0 ");
    PrefixKept(name, Decimal(status) + ([32] + Ascii(ReasonPhrase(status))), "RTSP/");
  }

  lemma ResponseIsStart(status: nat, cseq: bytes, headers: seq<bytes>, body: bytes)
    ensures IsRtspStart(Response(status, cseq, headers, body)) && Response(status, cseq, headers, body)[0] == 82
  {
    var r := Response(status, cseq, headers, body);
    var lines := ResponseLines(status, cseq, headers, body);
    assert lines[0] == StatusLine(status);
    BlockCons(lines, body);
    StatusLineStart(status);
    assert forall i :: 0 <= i < 5 ==> r[i] == StatusLine(status)[i];
    assert StartsWith(r, "RTSP/");
  }

  /** Every response within the limits is one well-formed message. */
  lemma ResponseIsWellFormed(status: nat, cseq: bytes, headers: seq<bytes>, body: bytes, limits: Limits)
    requires NoCrlf(cseq) && AllClean(headers)
    requires |HeaderBlock(ResponseLines(status, cseq, headers, body))| <= limits.maxHeader
    requires |body| <= limits.maxBody && |body| <= MAX_INT
    ensures WellFormed(Response(status, cseq, headers, body), limits)
  {
    var lines := ResponseLines(status, cseq, headers, body);
    var block := HeaderBlock(lines);
    var r := Response(status, cseq, headers, body);
    ResponseLength(status, cseq, headers, body);
    BlankLineFound(lines, body);
    ResponseIsStart(status, cseq, headers, body);
    assert r[..|block|] == block;
  }

  lemma InterleavedIsWellFormed(channel: int, packet: bytes, limits: Limits)
    requires |packet| <= 0xffff
    ensures WellFormed(Interleaved(channel, packet).value, limits)
  {
    var w := Interleaved(channel, packet).value;
    assert w[2..4] == U16(|packet|);
    U16RoundTrip(|packet|);
  }

  // ----------------------------------------------------- a call that never returns

  /** A request within the limits whose Content-Length is no number, with nothing behind it. */
  lemma RefusedLengthSpins(lines: seq<bytes>, line: bytes, limits: Limits)
    requires AllClean(lines) && lines != [] && GoodLine(line) && StartsWithCi(line, CONTENT_LENGTH)
    requires ParseLength(Trim(line[|CONTENT_LENGTH|..])) == -1
    requires IsRtspStart(HeaderBlock(lines + [line])) && |HeaderBlock(lines + [line])| <= limits.maxHeader
    requires NextMessageStart(HeaderBlock(lines + [line]), 1) == |HeaderBlock(lines + [line])|
    ensures Extract(HeaderBlock(lines + [line]), limits).Spins?
  {
    var b := HeaderBlock(lines + [line]);
    RtspStartIsNotDollar(b);
    BlockLength(lines, [line]);
    assert b + [] == b && b[..|b|] == b;
    BlankLineFound(lines + [line], []);
    BlockIsStuck(b, limits);
  }

  lemma BlockIsStuck(b: bytes, limits: Limits)
    requires b != [] && b[0] != DOLLAR && IsRtspStart(b) && HeaderComplete(b) && HeaderBytes(b) == |b| <= limits.maxHeader
    requires ContentLength(b) == -1 && !HasLaterStart(b)
    ensures Extract(b, limits).Spins?
  {
    assert b[..|b|] == b;
    PassProgress(b, limits);
  }

  const EMPTY_LENGTH_REQUEST: bytes := HeaderBlock([Ascii("PLAY ")] + [CONTENT_LENGTH])

  /** A start holds a space or slash behind its first four bytes. */
  lemma {:induction false} NoEnderNoStart(b: bytes, names: seq<string>)
    requires AllShaped(names) && forall e :: 4 <= e < |b| ==> !Ender(b[e])
    ensures !StartsWithAny(b, names)
    decreases |names|
  {
    if names != [] {
      NoEnderNoStart(b, names[1..]);
      var e := |names[0]| - 1;
      if e < |b| {
        assert !Ender(b[e]);
        assert b[e] != names[0][e] as int;
      }
    }
  }

  lemma {:induction false} NoLateStart(b: bytes, from: nat)
    requires 1 <= from <= |b|
    requires forall i :: 1 <= i < |b| ==> b[i] != DOLLAR
    requires forall i :: 5 <= i < |b| ==> !Ender(b[i])
    ensures NextMessageStart(b, from) == |b|
    decreases |b| - from
  {
    if from < |b| {
      NoLateStart(b, from + 1);
      StartsAreShaped();
      assert forall e :: 4 <= e < |b[from..]| ==> b[from..][e] == b[from + e];
      NoEnderNoStart(b[from..], STARTS);
    }
  }

  lemma EmptyLengthRequestText()
    ensures EMPTY_LENGTH_REQUEST == Ascii("PLAY ") + CRLF + CONTENT_LENGTH + CRLF + CRLF
  {
    var lines: seq<bytes> := [Ascii("PLAY ")] + [CONTENT_LENGTH];
    assert lines[1..] == [CONTENT_LENGTH];
    assert |lines[1..][1..]| == 0;
    assert HeaderBlock([CONTENT_LENGTH]) == CONTENT_LENGTH + (CRLF + CRLF);
  }

  lemma PlayIsStart(b: bytes)
    requires StartsWith(b, "PLAY ")
    ensures IsRtspStart(b)
  {
    assert STARTS[1..][1..][1..][1..][0] == "PLAY ";
    assert StartsWithAny(b, STARTS[1..][1..][1..][1..]);
    assert StartsWithAny(b, STARTS[1..][1..][1..]);
    assert StartsWithAny(b, STARTS[1..][1..]);
  }

  lemma EmptyLengthIsStart()
    ensures IsRtspStart(EMPTY_LENGTH_REQUEST)
    ensures NextMessageStart(EMPTY_LENGTH_REQUEST, 1) == |EMPTY_LENGTH_REQUEST|
  {
    var b := EMPTY_LENGTH_REQUEST;
    EmptyLengthRequestText();
    assert StartsWith(b, "PLAY ");
    PlayIsStart(b);
    NoLateStart(b, 1);
  }

  lemma EmptyLengthLines()
    ensures AllClean([Ascii("PLAY ")]) && GoodLine(CONTENT_LENGTH)
    ensures ParseLength(Trim(CONTENT_LENGTH[|CONTENT_LENGTH|..])) == -1
  {
    var play := Ascii("PLAY ");
    AsciiNoCr("PLAY ");
    AsciiNoCr("Content-Length:");
    assert play[0] == 80 && CONTENT_LENGTH[0] == 67;
    OtherField(play, 0);
    assert CONTENT_LENGTH[|CONTENT_LENGTH|..] == [];
    var none: bytes := [];
    assert Trim(none) == none;
  }

  /** One such request, under the default limits: PLAY with an empty Content-Length. */
  lemma EmptyLengthSpins()
    ensures Extract(EMPTY_LENGTH_REQUEST, Limits(16 * 1024, 1024 * 1024)).Spins?
  {
    EmptyLengthRequestText();
    EmptyLengthIsStart();
    EmptyLengthLines();
    RefusedLengthSpins([Ascii("PLAY ")], CONTENT_LENGTH, Limits(16 * 1024, 1024 * 1024));
  }
}
