/** The reading half of a session: bytes arrive in chunks, requests are answered, interleaved packets passed over. */
module Serving {
  import opened Bytes
  import opened Framer
  import opened FramerTheorems
  import opened EndToEnd
  import Control

  /** What the server draws on for one request: the channel it names, the one registered, its SDP, a session id. */
  datatype Draw = Draw(channel: int, registered: int, sdp: bytes, freshId: bytes)

  function ExchangeOf(text: bytes, d: Draw): (x: Exchange) {
    Exchange(text, d.channel, d.registered, d.sdp, d.freshId)
  }

  predicate IsInterleaved(message: bytes) {
    message != [] && message[0] == DOLLAR
  }

  /** The last answer has ended the session. */
  predicate HasClosed(xs: seq<Exchange>) {
    xs != [] && AnswerTo(ControlAfter(xs[..|xs| - 1]), xs[|xs| - 1]).closeSession
  }

  /** The requests answered out of a stream of messages: all but interleaved packets, up to the one that closes. */
  function Answered(messages: seq<bytes>, draw: nat -> Draw): (xs: seq<Exchange>) {
    if messages == [] then []
    else
      var before, last := Answered(messages[..|messages| - 1], draw), messages[|messages| - 1];
      if HasClosed(before) || IsInterleaved(last) then before else before + [ExchangeOf(last, draw(|before|))]
  }

  lemma AnsweredNext(messages: seq<bytes>, last: bytes, draw: nat -> Draw)
    ensures
      var before := Answered(messages, draw);
      Answered(messages + [last], draw)
      == if HasClosed(before) || IsInterleaved(last) then before else before + [ExchangeOf(last, draw(|before|))]
  {
    assert (messages + [last])[..|messages|] == messages;
  }

  lemma AnsweredStays(messages: seq<bytes>, last: bytes, draw: nat -> Draw, xs: seq<Exchange>)
    requires Answered(messages, draw) == xs && HasClosed(xs)
    ensures Answered(messages + [last], draw) == xs
  {
    AnsweredNext(messages, last, draw);
  }

  lemma {:induction false} AnsweredNoMore(messages: seq<bytes>, more: seq<bytes>, draw: nat -> Draw, xs: seq<Exchange>)
    requires Answered(messages, draw) == xs && HasClosed(xs)
    ensures Answered(messages + more, draw) == xs
    decreases |more|
  {
    if more == [] {
      assert messages + more == messages;
    } else {
      LastApart(messages, more);
      AnsweredNoMore(messages, more[..|more| - 1], draw, xs);
      AnsweredStays(messages + more[..|more| - 1], more[|more| - 1], draw, xs);
    }
  }

  /** The RTSP requests of a stream: what does not begin with a dollar sign. */
  function Requests(messages: seq<bytes>): (texts: seq<bytes>) {
    if messages == [] then []
    else
      var last := messages[|messages| - 1];
      Requests(messages[..|messages| - 1]) + if Ascii("$") <= last then [] else [last]
  }

  lemma InterleavedMeaning(message: bytes)
    ensures IsInterleaved(message) <==> Ascii("$") <= message
  {
    assert Ascii("$") == [36];
  }

  function Texts(xs: seq<Exchange>): (texts: seq<bytes>)
    ensures |texts| == |xs|
  {
    if xs == [] then [] else Texts(xs[..|xs| - 1]) + [xs[|xs| - 1].text]
  }

  lemma PrefixOfLonger(a: seq<bytes>, b: seq<bytes>, c: seq<bytes>)
    requires a <= b
    ensures a <= b + c
  {
  }

  /** What is answered are the requests of the stream in order, all of them unless one closes the session. */
  lemma {:induction false} AnsweredAreRequests(messages: seq<bytes>, draw: nat -> Draw)
    ensures Texts(Answered(messages, draw)) <= Requests(messages)
    ensures !HasClosed(Answered(messages, draw)) ==> Texts(Answered(messages, draw)) == Requests(messages)
  {
    if messages != [] {
      var front, last := messages[..|messages| - 1], messages[|messages| - 1];
      var before := Answered(front, draw);
      AnsweredAreRequests(front, draw);
      InterleavedMeaning(last);
      assert Requests(front) + [] == Requests(front);
      if HasClosed(before) {
        PrefixOfLonger(Texts(before), Requests(front), if IsInterleaved(last) then [] else [last]);
      } else if !IsInterleaved(last) {
        var x := ExchangeOf(last, draw(|before|));
        assert (before + [x])[..|before|] == before;
      }
    }
  }

  lemma AnswerCloses(s: Control.State, q: Control.Request)
    ensures Control.Respond(s, q).closeSession <==>
      q.cseq == [] || (q.verb == Control.TEARDOWN && Control.Respond(s, q).status == 200)
  {
  }

  /** A session is closed by a request without a CSeq, or by a TEARDOWN that is accepted. */
  lemma {:induction false} ClosesExactly(xs: seq<Exchange>, x: Exchange)
    ensures HasClosed(xs + [x]) <==>
      || RequestOf(x).cseq == []
      || (RequestOf(x).verb == Control.TEARDOWN && AnswerTo(ControlAfter(xs), x).status == 200)
  {
    assert (xs + [x])[..|xs|] == xs;
    AnswerCloses(ControlAfter(xs), RequestOf(x));
  }

  /** Nothing is answered behind a request that closes the session. */
  lemma {:induction false} OnlyTheLastCloses(messages: seq<bytes>, draw: nat -> Draw, k: nat)
    requires k < |Answered(messages, draw)|
    ensures !HasClosed(Answered(messages, draw)[..k])
  {
    var front := messages[..|messages| - 1];
    var before, now := Answered(front, draw), Answered(messages, draw);
    if k < |before| {
      OnlyTheLastCloses(front, draw, k);
      assert now[..k] == before[..k];
    } else {
      assert now[..k] == before;
    }
  }

  // ---------------------------------------------------------------- the code

  class ServerSession {
    const draw: nat -> Draw
    const limits: Limits
    const input: InputBuffer
    const control: Control.RtspControl
    var written: seq<bytes>
    var requests: nat
    var connected: bool
    /** The messages taken from the input so far. */
    ghost var handled: seq<bytes>

    constructor (draw: nat -> Draw, limits: Limits)
      ensures Valid() && connected && handled == [] && input.data == [] && written == []
      ensures this.draw == draw && this.limits == limits && fresh(input) && fresh(control)
    {
      this.draw, this.limits := draw, limits;
      this.input := new InputBuffer();
      this.control := new Control.RtspControl();
      written, requests, connected, handled := [], 0, true, [];
    }

    ghost predicate Valid()
      reads this, control
    {
      var xs := Answered(handled, draw);
      && control.Value() == ControlAfter(xs) && written == Replies(xs)
      && requests == |xs| && (connected <==> !HasClosed(xs))
    }

    /** One message: an interleaved packet is passed over, a request answered. */
    method Handle(message: bytes)
      requires Valid() && connected
      modifies this, control
      ensures Valid() && handled == old(handled) + [message]
    {
      AnsweredNext(handled, message, draw);
      handled := handled + [message];
      if message != [] && message[0] == DOLLAR {
        return;
      }
      Answer(message, draw(requests));
    }

    method Answer(message: bytes, d: Draw)
      modifies this`written, this`requests, this`connected, control
      ensures control.Value() == AnswerTo(old(control.Value()), ExchangeOf(message, d)).state
      ensures written == old(written) + [ReplyTo(old(control.Value()), ExchangeOf(message, d))]
      ensures requests == old(requests) + 1
      ensures connected <==> old(connected) && !AnswerTo(old(control.Value()), ExchangeOf(message, d)).closeSession
    {
      var response, startPlay, closeSession :=
        control.ProcessRtspRequest(message, d.channel, d.registered, d.sdp, d.freshId);
      written := written + [response];
      requests := requests + 1;
      if closeSession {
        connected := false;
      }
    }

    /**
     One read: the chunk is appended and messages are handled until none is left or one
     closes the session. `k` of the messages that draining would yield have been handled.
     */
    method Serve(chunk: bytes) returns (hung: bool, ghost k: nat)
      requires Valid() && connected
      modifies this, input, control
      ensures Valid()
      ensures Drain(old(input.data) + chunk, limits).Some? ==>
        var p := Drain(old(input.data) + chunk, limits).value;
        && !hung && k <= |p.messages| && handled == old(handled) + p.messages[..k]
        && (connected ==> k == |p.messages| && input.data == p.buffer)
    {
      input.Append(chunk);
      ghost var before, b := handled, input.data;
      k := 0;
      assert handled == before + [];
      while connected
        invariant Valid()
        invariant Drain(b, limits).Some? ==> Drained(b, input.data, k) && handled == before + Drain(b, limits).value.messages[..k]
        decreases |input.data|
      {
        ghost var now := input.data;
        var outcome := input.ExtractOneRtspMessage(limits);
        match outcome {
          case Spins =>
            return true, k;
          case NoMessage(_) =>
            return false, k;
          case Message(message, _) =>
            MessageBound(now, limits);
            if Drain(b, limits).Some? {
              OneMoreDrained(b, now, input.data, message, k);
            }
            Handle(message);
            k := k + 1;
        }
      }
      return false, k;
    }

    /** Draining `b`, with `k` messages taken and `now` left. */
    ghost predicate Drained(b: bytes, now: bytes, k: nat) {
      && Drain(b, limits).Some? && Drain(now, limits).Some?
      && k <= |Drain(b, limits).value.messages|
      && Drain(now, limits).value.messages == Drain(b, limits).value.messages[k..]
      && Drain(now, limits).value.buffer == Drain(b, limits).value.buffer
    }

    lemma OneMoreDrained(b: bytes, now: bytes, rest: bytes, message: bytes, k: nat)
      requires Drained(b, now, k) && Extract(now, limits) == Message(message, rest) && |rest| < |now|
      ensures Drained(b, rest, k + 1) && k < |Drain(b, limits).value.messages|
      ensures Drain(b, limits).value.messages[..k] + [message] == Drain(b, limits).value.messages[..k + 1]
    {
      var all, more := Drain(b, limits).value.messages, Drain(rest, limits).value.messages;
      assert all[k..] == [message] + more;
      assert all[k] == all[k..][0] && all[k + 1..] == all[k..][1..];
    }

    /** One read of a stream of which `rest` is still to be handled. */
    method ServeNext(chunk: bytes, ghost later: seq<bytes>, ghost rest: seq<bytes>)
      returns (hung: bool, ghost rest': seq<bytes>)
      requires Valid() && connected && Feed(input.data, [chunk] + later, limits) == Some(Progress(rest, []))
      modifies this, input, control
      ensures Valid() && !hung && handled + rest' == old(handled) + rest
      ensures connected ==> Feed(input.data, later, limits) == Some(Progress(rest', []))
    {
      ghost var before := handled;
      ghost var p, more := FirstChunk(input.data, chunk, later, limits, rest);
      ghost var k;
      hung, k := Serve(chunk);
      AfterChunk(before, p.messages, more, k);
      rest' := p.messages[k..] + more;
    }

    /**
     A whole connection: however a stream of well-formed messages is cut into chunks, the
     replies written are those to its requests, in order, up to the one that closes.
     */
    method ServeAll(chunks: seq<bytes>, ghost messages: seq<bytes>) returns (hung: bool)
      requires Valid() && connected && handled == [] && input.data == []
      requires AllWellFormed(messages, limits) && Flatten(chunks) == Flatten(messages)
      modifies this, input, control
      ensures Valid() && !hung && Answered(handled, draw) == Answered(messages, draw)
      ensures written == Replies(Answered(messages, draw))
    {
      hung := false;
      ChunkIndependence(messages, chunks, limits);
      assert chunks[0..] == chunks && [] + messages == messages;
      ghost var rest := messages;
      var i := 0;
      while i < |chunks| && connected
        invariant i <= |chunks| && Valid() && !hung
        invariant handled + rest == messages
        invariant connected ==> Feed(input.data, chunks[i..], limits) == Some(Progress(rest, []))
        decreases |chunks| - i
      {
        assert chunks[i..] == [chunks[i]] + chunks[i + 1..];
        hung, rest := ServeNext(chunks[i], chunks[i + 1..], rest);
        i := i + 1;
      }
      if connected {
        assert chunks[i..] == [];
        assert handled + [] == handled;
      } else {
        AnsweredNoMore(handled, rest, draw, Answered(handled, draw));
      }
    }
  }

  lemma FirstChunk(buffer: bytes, chunk: bytes, later: seq<bytes>, limits: Limits, rest: seq<bytes>)
    returns (p: Progress, more: seq<bytes>)
    requires Feed(buffer, [chunk] + later, limits) == Some(Progress(rest, []))
    ensures Drain(buffer + chunk, limits) == Some(p) && rest == p.messages + more
    ensures Feed(p.buffer, later, limits) == Some(Progress(more, []))
  {
    assert ([chunk] + later)[1..] == later;
    p := Drain(buffer + chunk, limits).value;
    more := Feed(p.buffer, later, limits).value.messages;
  }

  /** What is still to be handled after `k` messages of one chunk. */
  lemma AfterChunk(before: seq<bytes>, now: seq<bytes>, more: seq<bytes>, k: nat)
    requires k <= |now|
    ensures before + now[..k] + (now[k..] + more) == before + (now + more)
    ensures k == |now| ==> now[k..] + more == more
  {
    assert now[..k] + now[k..] == now;
  }

  lemma MessageBound(b: bytes, limits: Limits)
    requires Extract(b, limits).Message?
    ensures |Extract(b, limits).rest| < |b|
  {
    KeepsSuffix(b, limits);
    MessageReparses(b, limits);
  }
}
