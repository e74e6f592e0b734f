/**
 Garbage before the first message, arriving in chunks: exactly when the messages behind it
 still come out.
 */
module Garbage {
  import opened Bytes
  import opened Framer
  import opened Text
  import opened FramerTheorems
  import opened Responses

  ghost predicate StartAt(s: bytes, j: int) {
    0 <= j <= |s| && IsStart(s[j..])
  }

  /** No message may start in the first `g` bytes. */
  ghost predicate NoStartIn(s: bytes, g: nat) {
    forall j :: 0 <= j < g ==> !StartAt(s, j)
  }

  // ------------------------------------------------------- what a drain holds

  lemma ExtractBound(b: bytes, limits: Limits)
    requires Extract(b, limits).Message?
    ensures |Extract(b, limits).message| + |Extract(b, limits).rest| <= |b| && Extract(b, limits).message != []
  {
    KeepsSuffix(b, limits);
    MessageReparses(b, limits);
  }

  lemma {:induction false} DrainBound(b: bytes, limits: Limits)
    requires Drain(b, limits).Some?
    ensures |Flatten(Drain(b, limits).value.messages)| + |Drain(b, limits).value.buffer| <= |b|
    decreases |b|
  {
    match Extract(b, limits) {
      case NoMessage(_) => KeepsSuffix(b, limits);
      case Message(m, rest) =>
        ExtractBound(b, limits);
        DrainBound(rest, limits);
        var more := Drain(rest, limits).value.messages;
        assert ([m] + more)[1..] == more;
    }
  }

  /** What comes out of the reads is no longer than what went in. */
  lemma {:induction false} FeedBound(buffer: bytes, chunks: seq<bytes>, limits: Limits)
    requires Feed(buffer, chunks, limits).Some?
    ensures |Flatten(Feed(buffer, chunks, limits).value.messages)| <= |buffer| + |Flatten(chunks)|
    decreases |chunks|
  {
    if chunks != [] {
      DrainBound(buffer + chunks[0], limits);
      var p := Drain(buffer + chunks[0], limits).value;
      FeedBound(p.buffer, chunks[1..], limits);
      FlattenConcat(p.messages, Feed(p.buffer, chunks[1..], limits).value.messages);
    }
  }

  /** A buffer without a start anywhere yields nothing; over the header limit it is cleared. */
  lemma QuietDrain(b: bytes, limits: Limits)
    requires NoStartIn(b, |b|)
    ensures Drain(b, limits) == Some(Progress([], if |b| > limits.maxHeader then [] else b))
  {
    if b != [] {
      assert b[0..] == b;
      var n := NextMessageStart(b, 1);
      assert !StartAt(b, 0) && (n < |b| ==> StartAt(b, n));
    }
  }

  lemma StartBehind(x: bytes, y: bytes)
    requires x != [] && IsStart(y) && NoStartIn(x + y, |x|)
    ensures NextMessageStart(x + y, 1) == |x| && (x + y)[|x|..] == y && !IsStart(x + y)
  {
    var b := x + y;
    assert b[|x|..] == y && b[0..] == b;
    LaterStart(b, 1, |x|);
    var n := NextMessageStart(b, 1);
    assert !StartAt(b, 0) && (n < |b| ==> StartAt(b, n));
  }

  lemma GarbageDropped(x: bytes, y: bytes, limits: Limits)
    requires IsStart(y) && NoStartIn(x + y, |x|)
    ensures Extract(x + y, limits) == Extract(y, limits)
  {
    if x == [] {
      assert x + y == y;
    } else {
      StartBehind(x, y);
      assert LoopPass(x + y, limits) == Again(y);
      PassAgain(x + y, y, limits);
    }
  }

  lemma GarbageDrained(x: bytes, y: bytes, limits: Limits)
    requires IsStart(y) && NoStartIn(x + y, |x|)
    ensures Drain(x + y, limits) == Drain(y, limits)
  {
    GarbageDropped(x, y, limits);
    if Extract(y, limits).Message? {
      ExtractBound(y, limits);
    }
  }

  // --------------------------------------------------------- chunk by chunk

  /**
   The stream `s` begins with `g` bytes of garbage; `p` bytes have arrived and those from
   `from` on are held. A chunk is the loser when it brings part of the first message, not
   enough to tell its start, and fills the buffer beyond the header limit.
   */
  ghost predicate Loses(s: bytes, g: nat, from: nat, p: nat, chunks: seq<bytes>, limits: Limits)
    decreases |chunks|
  {
    chunks != [] &&
    var p', rest := p + |chunks[0]|, chunks[1..];
    if Told(s, g, p') then false
    else if p' - from > limits.maxHeader then p' > g || Loses(s, g, p', p', rest, limits)
    else Loses(s, g, from, p', rest, limits)
  }

  /** The first start can be told from the bytes before `p`. */
  ghost predicate Told(s: bytes, g: nat, p: nat) {
    g <= p <= |s| && IsStart(s[g..p])
  }

  lemma StartStable(t: bytes, more: bytes)
    requires IsStart(t)
    ensures IsStart(t + more)
  {
    assert (t + more)[0] == t[0];
    if t[0] != DOLLAR {
      StartsWithAnyStable(t, more, STARTS);
    }
  }

  /** The first bytes of a message, too few to tell its start, hold no start either. */
  lemma PartialHoldsNone(msgs: seq<bytes>, u: bytes, limits: Limits)
    requires AllWellFormed(msgs, limits) && msgs != [] && u <= Flatten(msgs) && !IsStart(u)
    ensures NoStartIn(u, |u|)
  {
    var m, all := msgs[0], Flatten(msgs);
    assert WellFormed(m, limits);
    assert all == m + Flatten(msgs[1..]) && all[0] == m[0];
    if u != [] {
      assert u[0] == all[0];
      StartsWithAnyStable(m, Flatten(msgs[1..]), STARTS);
      assert all == u + all[|u|..];
      StartsAreShaped();
      PartialStart(u, all[|u|..], STARTS);
      InnerHasNoNext(u, 0);
      forall j | 0 <= j < |u| ensures !StartAt(u, j) {
        NoStartBetween(u, 0, j);
      }
    }
  }

  lemma HeldHoldsNone(s: bytes, g: nat, msgs: seq<bytes>, from: nat, p: nat, limits: Limits)
    requires AllWellFormed(msgs, limits) && msgs != [] && g <= |s| && s[g..] == Flatten(msgs) && NoStartIn(s, g)
    requires from <= p <= |s| && from <= g && !Told(s, g, p)
    ensures NoStartIn(s[from..p], p - from)
  {
    var b := s[from..p];
    if p > g {
      assert s[g..p] == s[g..][..p - g];
      PartialHoldsNone(msgs, s[g..p], limits);
    }
    forall j | 0 <= j < p - from ensures !StartAt(b, j) {
      HeldAt(s, g, from, p, j);
    }
  }

  lemma HeldAt(s: bytes, g: nat, from: nat, p: nat, j: nat)
    requires g <= |s| && NoStartIn(s, g) && from <= p <= |s| && j < p - from
    requires p > g ==> NoStartIn(s[g..p], p - g)
    ensures !StartAt(s[from..p], j)
  {
    var t, k := s[from..p][j..], from + j;
    assert t == s[k..p];
    if k < g {
      assert s[k..] == t + s[p..];
      assert !StartAt(s, k);
      if IsStart(t) {
        StartStable(t, s[p..]);
      }
    } else {
      assert t == s[g..p][k - g..];
      assert !StartAt(s[g..p], k - g);
    }
  }

  /** One chunk that lets the first start be told: from there on it is as if no garbage had been. */
  lemma FeedAtStart(x: bytes, y: bytes, buffer: bytes, msgs: seq<bytes>, chunks: seq<bytes>, limits: Limits)
    requires AllWellFormed(msgs, limits) && chunks != [] && buffer + chunks[0] == x + y
    requires IsStart(y) && NoStartIn(x + y, |x|) && y + Flatten(chunks[1..]) == Flatten(msgs)
    ensures Feed(buffer, chunks, limits) == Some(Progress(msgs, []))
  {
    var other := [y] + chunks[1..];
    GarbageDrained(x, y, limits);
    assert other[1..] == chunks[1..] && other[0] == y && [] + y == y;
    ChunkIndependence(msgs, other, limits);
  }

  lemma FeedQuiet(buffer: bytes, chunks: seq<bytes>, limits: Limits)
    requires chunks != [] && NoStartIn(buffer + chunks[0], |buffer + chunks[0]|)
    ensures
      var b := buffer + chunks[0];
      Feed(buffer, chunks, limits) == Feed(if |b| > limits.maxHeader then [] else b, chunks[1..], limits)
  {
    var b := buffer + chunks[0];
    QuietDrain(b, limits);
    var next := if |b| > limits.maxHeader then [] else b;
    match Feed(next, chunks[1..], limits) {
      case None =>
      case Some(q) => assert [] + q.messages == q.messages;
    }
  }

  lemma TooLittleLeft(chunks: seq<bytes>, msgs: seq<bytes>, limits: Limits)
    requires |Flatten(chunks)| < |Flatten(msgs)|
    ensures Feed([], chunks, limits) != Some(Progress(msgs, []))
  {
    if Feed([], chunks, limits).Some? {
      FeedBound([], chunks, limits);
    }
  }

  lemma NextChunk(s: bytes, from: nat, p: nat, chunks: seq<bytes>)
    requires from <= p <= |s| && chunks != [] && Flatten(chunks) == s[p..]
    ensures
      var p' := p + |chunks[0]|;
      p' <= |s| && s[from..p] + chunks[0] == s[from..p'] && Flatten(chunks[1..]) == s[p'..]
  {
    var c, rest := chunks[0], Flatten(chunks[1..]);
    assert c + rest == s[p..];
    assert (c + rest)[..|c|] == c && (c + rest)[|c|..] == rest;
    assert s[p..][|c|..] == s[p + |c|..];
  }

  ghost predicate Delivers(buffer: bytes, chunks: seq<bytes>, msgs: seq<bytes>, limits: Limits) {
    Feed(buffer, chunks, limits) == Some(Progress(msgs, []))
  }

  /** Garbage and then messages, of which the first start cannot be told yet. */
  ghost predicate Waits(s: bytes, g: nat, msgs: seq<bytes>, from: nat, p: nat, limits: Limits) {
    && AllWellFormed(msgs, limits) && msgs != []
    && g <= |s| && s[g..] == Flatten(msgs) && NoStartIn(s, g)
    && from <= p <= |s| && from <= g && !Told(s, g, p)
  }

  lemma WholeIsStart(msgs: seq<bytes>, limits: Limits)
    requires AllWellFormed(msgs, limits) && msgs != []
    ensures IsStart(Flatten(msgs))
  {
    var m := msgs[0];
    assert WellFormed(m, limits);
    StartStable(m, Flatten(msgs[1..]));
  }

  lemma MoreToCome(s: bytes, g: nat, msgs: seq<bytes>, from: nat, p: nat, limits: Limits)
    requires Waits(s, g, msgs, from, p, limits)
    ensures p < |s|
  {
    WholeIsStart(msgs, limits);
    assert s[g..|s|] == s[g..];
  }

  lemma GarbagePart(s: bytes, g: nat, from: nat, p: nat)
    requires from <= g <= p <= |s| && NoStartIn(s, g)
    ensures NoStartIn(s[from..p], g - from)
  {
    forall j | 0 <= j < g - from ensures !StartAt(s[from..p], j) {
      var t := s[from..p][j..];
      assert s[from + j..] == t + s[p..];
      assert !StartAt(s, from + j);
      if IsStart(t) {
        StartStable(t, s[p..]);
      }
    }
  }

  lemma TwoParts(s: bytes, from: nat, g: nat, p: nat)
    requires from <= g <= p <= |s|
    ensures s[from..g] + s[g..p] == s[from..p] && s[g..p] + s[p..] == s[g..]
  {
  }

  lemma GarbageInFront(s: bytes, g: nat, from: nat, p: nat, x: bytes, y: bytes)
    requires from <= g <= p <= |s| && NoStartIn(s, g) && x == s[from..g] && y == s[g..p]
    ensures NoStartIn(x + y, |x|) && x + y == s[from..p] && y + s[p..] == s[g..]
  {
    TwoParts(s, from, g, p);
    GarbagePart(s, g, from, p);
  }

  lemma StartTold(s: bytes, g: nat, msgs: seq<bytes>, from: nat, p: nat, chunks: seq<bytes>, limits: Limits)
    requires Waits(s, g, msgs, from, p, limits) && chunks != [] && Flatten(chunks) == s[p..]
    requires Told(s, g, p + |chunks[0]|)
    ensures Delivers(s[from..p], chunks, msgs, limits)
  {
    var p' := p + |chunks[0]|;
    var x, y, buffer := s[from..g], s[g..p'], s[from..p];
    assert buffer + chunks[0] == s[from..p'] && Flatten(chunks[1..]) == s[p'..] by {
      NextChunk(s, from, p, chunks);
    }
    GarbageInFront(s, g, from, p', x, y);
    FeedAtStart(x, y, buffer, msgs, chunks, limits);
  }

  /** A chunk that tells no start is held, or cleared away with what was held. */
  lemma StartNotTold(s: bytes, g: nat, msgs: seq<bytes>, from: nat, p: nat, p': nat, chunks: seq<bytes>, limits: Limits)
    requires Waits(s, g, msgs, from, p', limits) && from <= p <= p' && chunks != []
    requires s[from..p] + chunks[0] == s[from..p']
    ensures Delivers(s[from..p], chunks, msgs, limits)
       <==> Delivers(if p' - from > limits.maxHeader then [] else s[from..p'], chunks[1..], msgs, limits)
  {
    HeldHoldsNone(s, g, msgs, from, p', limits);
    FeedQuiet(s[from..p], chunks, limits);
  }

  lemma LosesStep(s: bytes, g: nat, from: nat, p: nat, chunks: seq<bytes>, limits: Limits)
    requires chunks != [] && from <= p
    ensures
      var p', rest := p + |chunks[0]|, chunks[1..];
      Loses(s, g, from, p, chunks, limits) <==>
      !Told(s, g, p') &&
      if p' - from > limits.maxHeader then p' > g || Loses(s, g, p', p', rest, limits)
      else Loses(s, g, from, p', rest, limits)
  {
  }

  lemma FirstBytesGone(s: bytes, g: nat, msgs: seq<bytes>, p: nat, rest: seq<bytes>, limits: Limits)
    requires g < p <= |s| && s[g..] == Flatten(msgs) && Flatten(rest) == s[p..]
    ensures !Delivers([], rest, msgs, limits)
  {
    TooLittleLeft(rest, msgs, limits);
  }

  /** The claim about the reads from any point before the first start is told. */
  ghost predicate Claim(s: bytes, g: nat, msgs: seq<bytes>, from: nat, p: nat, chunks: seq<bytes>, limits: Limits)
    requires from <= p <= |s|
  {
    Delivers(s[from..p], chunks, msgs, limits) <==> !Loses(s, g, from, p, chunks, limits)
  }

  lemma ClaimWhenTold(s: bytes, g: nat, msgs: seq<bytes>, from: nat, p: nat, chunks: seq<bytes>, limits: Limits)
    requires Waits(s, g, msgs, from, p, limits) && chunks != [] && Flatten(chunks) == s[p..]
    requires Told(s, g, p + |chunks[0]|)
    ensures Claim(s, g, msgs, from, p, chunks, limits)
  {
    LosesStep(s, g, from, p, chunks, limits);
    StartTold(s, g, msgs, from, p, chunks, limits);
  }

  lemma ClaimWhenHeld(s: bytes, g: nat, msgs: seq<bytes>, from: nat, p: nat, chunks: seq<bytes>, limits: Limits)
    requires from <= p && chunks != [] && p + |chunks[0]| <= |s| && p + |chunks[0]| - from <= limits.maxHeader
    requires Waits(s, g, msgs, from, p + |chunks[0]|, limits) && s[from..p] + chunks[0] == s[from..p + |chunks[0]|]
    requires Claim(s, g, msgs, from, p + |chunks[0]|, chunks[1..], limits)
    ensures Claim(s, g, msgs, from, p, chunks, limits)
  {
    LosesStep(s, g, from, p, chunks, limits);
    StartNotTold(s, g, msgs, from, p, p + |chunks[0]|, chunks, limits);
  }

  lemma ClaimWhenCleared(s: bytes, g: nat, msgs: seq<bytes>, from: nat, p: nat, chunks: seq<bytes>, limits: Limits)
    requires from <= p && chunks != [] && p + |chunks[0]| <= |s| && p + |chunks[0]| - from > limits.maxHeader
    requires Waits(s, g, msgs, from, p + |chunks[0]|, limits) && s[from..p] + chunks[0] == s[from..p + |chunks[0]|]
    requires Flatten(chunks[1..]) == s[p + |chunks[0]|..]
    requires p + |chunks[0]| <= g ==> Claim(s, g, msgs, p + |chunks[0]|, p + |chunks[0]|, chunks[1..], limits)
    ensures Claim(s, g, msgs, from, p, chunks, limits)
  {
    var p' := p + |chunks[0]|;
    LosesStep(s, g, from, p, chunks, limits);
    StartNotTold(s, g, msgs, from, p, p', chunks, limits);
    assert s[p'..p'] == [];
    if p' > g {
      FirstBytesGone(s, g, msgs, p', chunks[1..], limits);
    }
  }

  lemma {:induction false} GarbageFrom(s: bytes, g: nat, msgs: seq<bytes>, from: nat, p: nat, chunks: seq<bytes>,
                                       limits: Limits)
    requires Waits(s, g, msgs, from, p, limits) && Flatten(chunks) == s[p..]
    ensures Claim(s, g, msgs, from, p, chunks, limits)
    decreases |chunks|
  {
    MoreToCome(s, g, msgs, from, p, limits);
    var p', rest := p + |chunks[0]|, chunks[1..];
    NextChunk(s, from, p, chunks);
    if Told(s, g, p') {
      ClaimWhenTold(s, g, msgs, from, p, chunks, limits);
    } else if p' - from <= limits.maxHeader {
      GarbageFrom(s, g, msgs, from, p', rest, limits);
      ClaimWhenHeld(s, g, msgs, from, p, chunks, limits);
    } else {
      if p' <= g {
        GarbageFrom(s, g, msgs, p', p', rest, limits);
      }
      ClaimWhenCleared(s, g, msgs, from, p, chunks, limits);
    }
  }

  /**
   Messages behind garbage that looks like no message start, the whole cut into any
   chunks: exactly those messages come out, unless a chunk ends inside the first start
   with the buffer over the header limit, so that the partial start is cleared away.
   */
  lemma GarbageInChunks(garbage: bytes, msgs: seq<bytes>, chunks: seq<bytes>, limits: Limits)
    requires AllWellFormed(msgs, limits) && msgs != []
    requires NoStartIn(garbage + Flatten(msgs), |garbage|) && Flatten(chunks) == garbage + Flatten(msgs)
    ensures Feed([], chunks, limits) == Some(Progress(msgs, []))
       <==> !Loses(garbage + Flatten(msgs), |garbage|, 0, 0, chunks, limits)
  {
    var s := garbage + Flatten(msgs);
    assert s[|garbage|..] == Flatten(msgs) && s[0..] == s && s[0..0] == [];
    GarbageFrom(s, |garbage|, msgs, 0, 0, chunks, limits);
  }

  /** The losing family in two chunks: the first ends inside the start of the message, over the header limit. */
  lemma PartialStartIsLost(garbage: bytes, m: bytes, k: nat, limits: Limits)
    requires WellFormed(m, limits) && NoStartIn(garbage + m, |garbage|)
    requires 0 < k < |m| && !IsStart(m[..k]) && |garbage| + k > limits.maxHeader
    ensures Feed([], [garbage + m[..k], m[k..]], limits) != Some(Progress([m], []))
  {
    var chunks, msgs: seq<bytes> := [garbage + m[..k], m[k..]], [m];
    assert chunks[1..] == [m[k..]];
    FlattenOne(m[k..]);
    FlattenOne(m);
    var s, p := garbage + m, |garbage| + k;
    assert Flatten(chunks) == garbage + m[..k] + m[k..] == s;
    assert s[|garbage|..p] == m[..k];
    LosesStep(s, |garbage|, 0, 0, chunks, limits);
    GarbageInChunks(garbage, msgs, chunks, limits);
  }

  /** Bytes no message can start with: neither '$' nor a capital letter. */
  ghost predicate Plain(b: bytes) {
    forall i :: 0 <= i < |b| ==> b[i] != DOLLAR && !(65 <= b[i] <= 90)
  }

  ghost predicate Capital(names: seq<string>) {
    forall i :: 0 <= i < |names| ==> names[i] != "" && 'A' <= names[i][0] <= 'Z'
  }

  lemma {:induction false} PlainIsNoStart(b: bytes, names: seq<string>)
    requires Capital(names) && b != [] && !(65 <= b[0] <= 90)
    ensures !StartsWithAny(b, names)
    decreases |names|
  {
    if names != [] {
      PlainIsNoStart(b, names[1..]);
    }
  }

  lemma PlainHoldsNone(garbage: bytes, rest: bytes)
    requires Plain(garbage)
    ensures NoStartIn(garbage + rest, |garbage|)
  {
    assert Capital(STARTS);
    forall j | 0 <= j < |garbage| ensures !StartAt(garbage + rest, j) {
      var t := (garbage + rest)[j..];
      assert t[0] == garbage[j];
      PlainIsNoStart(t, STARTS);
    }
  }

  lemma {:induction false} OneByteIsNoStart(b: bytes, names: seq<string>)
    requires AllShaped(names) && |b| == 1
    ensures !StartsWithAny(b, names)
    decreases |names|
  {
    if names != [] {
      OneByteIsNoStart(b, names[1..]);
      assert Shaped(names[0]);
    }
  }

  lemma ThirdChunkLoses(s: bytes, g: nat, a: bytes, b: bytes, c: bytes, d: bytes, limits: Limits)
    requires 0 < |a| && 0 < |b| && |a| + |b| == g == limits.maxHeader < |s| && |c| == 1 && !IsStart(s[g..g + 1])
    ensures Loses(s, g, 0, 0, [a, b, c, d], limits)
  {
    assert [a, b, c, d][1..] == [b, c, d] && [b, c, d][1..] == [c, d] && s[g..g] == [];
    LosesStep(s, g, 0, g, [c, d], limits);
    LosesStep(s, g, 0, |a|, [b, c, d], limits);
    LosesStep(s, g, 0, 0, [a, b, c, d], limits);
  }

  lemma FirstByteTellsNothing(garbage: bytes, m: bytes)
    requires |m| > 1 && m[0] != DOLLAR
    ensures !IsStart((garbage + m)[|garbage|..|garbage| + 1])
  {
    var t := (garbage + m)[|garbage|..|garbage| + 1];
    assert t == [m[0]];
    StartsAreShaped();
    OneByteIsNoStart(t, STARTS);
  }

  /**
   Two reads of garbage that fill the buffer to the header limit, then the first byte of a
   message alone, then the rest of it: the message is lost.
   */
  lemma FullBufferEatsTheStart(a: bytes, b: bytes, m: bytes, limits: Limits)
    requires 0 < |a| && 0 < |b| && |a| + |b| == limits.maxHeader && Plain(a + b)
    requires WellFormed(m, limits) && m[0] != DOLLAR && |m| > 1
    ensures Feed([], [a, b, m[..1], m[1..]], limits) != Some(Progress([m], []))
  {
    var garbage := a + b;
    FourChunks(a, b, m[..1], m[1..]);
    assert m[..1] + m[1..] == m;
    FlattenOne(m);
    PlainHoldsNone(garbage, m);
    FirstByteTellsNothing(garbage, m);
    ThirdChunkLoses(garbage + m, |garbage|, a, b, m[..1], m[1..], limits);
    GarbageInChunks(garbage, [m], [a, b, m[..1], m[1..]], limits);
  }

  lemma FourChunks(a: bytes, b: bytes, c: bytes, d: bytes)
    ensures Flatten([a, b, c, d]) == a + b + (c + d)
  {
    FlattenOne(d);
    assert [c, d][1..] == [d] && [b, c, d][1..] == [c, d] && [a, b, c, d][1..] == [b, c, d];
    assert Flatten([b, c, d]) == b + (c + d);
  }

  function Xs(n: nat): (r: bytes)
    ensures |r| == n && forall i :: 0 <= i < n ==> r[i] == 120
  {
    seq(n, _ => 120)
  }

  lemma BadRequestIsMessage(m: bytes, limits: Limits)
    requires m == Response(400, [], [], []) && limits.maxHeader >= 100
    ensures |m| > 1 && m[0] != DOLLAR && WellFormed(m, limits)
  {
    BadRequestSize();
    ResponseIsWellFormed(400, [], [], [], limits);
    ResponseIsStart(400, [], [], []);
  }

  lemma XsEatTheStart(m: bytes, limits: Limits)
    requires limits.maxHeader == 16384 && |m| > 1 && m[0] != DOLLAR && WellFormed(m, limits)
    ensures Feed([], [Xs(8192), Xs(8192), m[..1], m[1..]], limits) != Some(Progress([m], []))
  {
    FullBufferEatsTheStart(Xs(8192), Xs(8192), m, limits);
  }

  /** One such stream under the default limits, in reads of at most 8192 bytes: letters x and the server's own 400. */
  lemma BadRequestIsLost(m: bytes, limits: Limits)
    requires m == Response(400, [], [], []) && limits == Limits(16 * 1024, 1024 * 1024)
    ensures |m| > 1 && WellFormed(m, limits)
    ensures Feed([], [Xs(8192), Xs(8192), m[..1], m[1..]], limits) != Some(Progress([m], []))
  {
    BadRequestIsMessage(m, limits);
    XsEatTheStart(m, limits);
  }

  lemma BadRequestSize()
    ensures 1 < |HeaderBlock(ResponseLines(400, [], [], []))| <= 100
    ensures NoCrlf([]) && Response(400, [], [], []) == HeaderBlock(ResponseLines(400, [], [], []))
  {
    var status, lines := StatusLine(400), ResponseLines(400, [], [], []);
    assert lines == [status, SERVER_LINE];
    assert lines[1..] == [SERVER_LINE] && [SERVER_LINE][1..] == [];
    assert |status| == 9 + |Decimal(400)| + 1 + 11;
    assert Decimal(400) == Decimal(40) + [48] && Decimal(40) == Decimal(4) + [48];
  }
}
