/** What the framer guarantees: chunk independence, soundness, and exactly when a call returns. */
module FramerTheorems {
  import opened Bytes
  import opened Text
  import opened Framer

  // ---------------------------------------------------- shape of the starts

  /** Space or slash ends a start; neither they nor '$' nor CR occur before. */
  predicate Ender(c: int) {
    c == 32 || c == 47
  }

  predicate Inner(c: int) {
    c != 32 && c != 47 && c != 36 && c != 13
  }

  ghost predicate Shaped(name: string) {
    && |name| >= 5
    && Ender(name[|name| - 1] as int)
    && forall i :: 0 <= i < |name| - 1 ==> Inner(name[i] as int)
  }

  ghost predicate AllShaped(names: seq<string>) {
    forall i :: 0 <= i < |names| ==> Shaped(names[i])
  }

  lemma StartsAreShaped()
    ensures AllShaped(STARTS)
  {
    assert Shaped("RTSP/");
    assert Shaped("OPTIONS ");
    assert Shaped("DESCRIBE ");
    assert Shaped("SETUP ");
    assert Shaped("PLAY ");
    assert Shaped("PAUSE ");
    assert Shaped("TEARDOWN ");
    assert Shaped("GET_PARAMETER ");
    assert Shaped("SET_PARAMETER ");
    assert Shaped("ANNOUNCE ");
    assert Shaped("RECORD ");
  }

  lemma StartsWithIs(b: bytes, name: string)
    requires forall i :: 0 <= i < |name| ==> name[i] as int < 256
    ensures StartsWith(b, name) <==> Ascii(name) <= b
  {
    if StartsWith(b, name) {
      assert b[..|name|] == Ascii(name);
    }
    if Ascii(name) <= b {
      assert forall i :: 0 <= i < |name| ==> b[i] == Ascii(name)[i];
    }
  }

  lemma {:induction false} OneOfNames(b: bytes, names: seq<string>)
    ensures StartsWithAny(b, names) <==> exists i :: 0 <= i < |names| && StartsWith(b, names[i])
    decreases |names|
  {
    if names != [] {
      OneOfNames(b, names[1..]);
      if i :| 0 <= i < |names| && StartsWith(b, names[i]) {
        assert i > 0 ==> names[1..][i - 1] == names[i];
      }
    }
  }

  ghost predicate RequestWord(b: bytes) {
    || Ascii("OPTIONS ") <= b || Ascii("DESCRIBE ") <= b || Ascii("SETUP ") <= b || Ascii("PLAY ") <= b
    || Ascii("PAUSE ") <= b || Ascii("TEARDOWN ") <= b || Ascii("GET_PARAMETER ") <= b
    || Ascii("SET_PARAMETER ") <= b || Ascii("ANNOUNCE ") <= b || Ascii("RECORD ") <= b
  }

  lemma RequestWordNamed(b: bytes)
    ensures RequestWord(b) <==>
      || StartsWith(b, "OPTIONS ") || StartsWith(b, "DESCRIBE ") || StartsWith(b, "SETUP ") || StartsWith(b, "PLAY ")
      || StartsWith(b, "PAUSE ") || StartsWith(b, "TEARDOWN ") || StartsWith(b, "GET_PARAMETER ")
      || StartsWith(b, "SET_PARAMETER ") || StartsWith(b, "ANNOUNCE ") || StartsWith(b, "RECORD ")
  {
    StartsWithIs(b, "OPTIONS ");
    StartsWithIs(b, "DESCRIBE ");
    StartsWithIs(b, "SETUP ");
    StartsWithIs(b, "PLAY ");
    StartsWithIs(b, "PAUSE ");
    StartsWithIs(b, "TEARDOWN ");
    StartsWithIs(b, "GET_PARAMETER ");
    StartsWithIs(b, "SET_PARAMETER ");
    StartsWithIs(b, "ANNOUNCE ");
    StartsWithIs(b, "RECORD ");
  }

  /** An RTSP message starts with the version, or with one of the ten methods and a space. */
  lemma RtspStartMeaning(b: bytes)
    ensures IsRtspStart(b) <==> Ascii("RTSP/") <= b || RequestWord(b)
  {
    OneOfNames(b, STARTS);
    StartsWithIs(b, "RTSP/");
    RequestWordNamed(b);
    assert |STARTS| == 11 && STARTS[0] == "RTSP/" && STARTS[1] == "OPTIONS " && STARTS[2] == "DESCRIBE ";
    assert STARTS[3] == "SETUP " && STARTS[4] == "PLAY " && STARTS[5] == "PAUSE " && STARTS[6] == "TEARDOWN ";
    assert STARTS[7] == "GET_PARAMETER " && STARTS[8] == "SET_PARAMETER " && STARTS[9] == "ANNOUNCE ";
    assert STARTS[10] == "RECORD ";
  }

  /** Where a message may start: at a dollar sign, at the version, or at one of the ten methods and a space. */
  lemma StartMeaning(b: bytes)
    ensures IsStart(b) <==>
      || Ascii("$") <= b || Ascii("RTSP/") <= b
      || Ascii("OPTIONS ") <= b || Ascii("DESCRIBE ") <= b || Ascii("SETUP ") <= b || Ascii("PLAY ") <= b
      || Ascii("PAUSE ") <= b || Ascii("TEARDOWN ") <= b || Ascii("GET_PARAMETER ") <= b
      || Ascii("SET_PARAMETER ") <= b || Ascii("ANNOUNCE ") <= b || Ascii("RECORD ") <= b
  {
    RtspStartMeaning(b);
    StartsWithIs(b, "$");
  }

  ghost predicate AllInner(b: bytes) {
    forall i :: 0 <= i < |b| ==> Inner(b[i])
  }

  lemma {:induction false} StartsWithAnyStable(b: bytes, c: bytes, names: seq<string>)
    requires StartsWithAny(b, names)
    ensures StartsWithAny(b + c, names)
    decreases |names|
  {
    if !StartsWith(b, names[0]) {
      StartsWithAnyStable(b, c, names[1..]);
    }
  }

  lemma StartsWithPrefix(b: bytes, c: bytes, name: string)
    requires StartsWith(b + c, name) && |b| >= |name|
    ensures StartsWith(b, name)
  {
    assert forall i :: 0 <= i < |name| ==> b[i] == (b + c)[i];
  }

  /** A prefix of a start that is not yet a start holds inner bytes only. */
  lemma {:induction false} PartialStart(b: bytes, c: bytes, names: seq<string>)
    requires AllShaped(names) && StartsWithAny(b + c, names) && !StartsWithAny(b, names)
    ensures AllInner(b)
    decreases |names|
  {
    if StartsWith(b + c, names[0]) {
      if |b| >= |names[0]| {
        StartsWithPrefix(b, c, names[0]);
        assert false;
      }
      forall i | 0 <= i < |b| ensures Inner(b[i]) {
        assert (b + c)[i] == names[0][i] as int;
      }
    } else {
      PartialStart(b, c, names[1..]);
    }
  }

  lemma CompleteStart(b: bytes, c: bytes, h: nat)
    requires IsRtspStart(b + c) && h < |b| && !Inner(b[h])
    ensures IsRtspStart(b)
  {
    StartsAreShaped();
    if !IsRtspStart(b) {
      PartialStart(b, c, STARTS);
    }
  }

  lemma {:induction false} InnerHoldsNoStart(b: bytes, names: seq<string>)
    requires AllShaped(names) && AllInner(b)
    ensures !StartsWithAny(b, names)
    decreases |names|
  {
    if names != [] {
      InnerHoldsNoStart(b, names[1..]);
      var k := |names[0]| - 1;
      if k < |b| {
        assert Inner(b[k]);
        assert b[k] != names[0][k] as int;
      }
    }
  }

  lemma {:induction false} InnerHasNoNext(b: bytes, from: nat)
    requires AllInner(b) && from <= |b|
    ensures NextMessageStart(b, from) == |b|
    decreases |b| - from
  {
    if from < |b| {
      StartsAreShaped();
      InnerHoldsNoStart(b[from..], STARTS);
      InnerHasNoNext(b, from + 1);
    }
  }

  lemma {:induction false} StartIsNotDollar(b: bytes, names: seq<string>)
    requires AllShaped(names) && StartsWithAny(b, names)
    ensures b != [] && b[0] != DOLLAR
    decreases |names|
  {
    if StartsWith(b, names[0]) {
      assert b[0] == names[0][0] as int;
    } else {
      StartIsNotDollar(b, names[1..]);
    }
  }

  lemma RtspStartIsNotDollar(b: bytes)
    requires IsRtspStart(b)
    ensures b != [] && b[0] != DOLLAR
  {
    StartsAreShaped();
    StartIsNotDollar(b, STARTS);
  }

  // ------------------------------------------------------- one message ahead

  /** A complete message within the limits: an interleaved packet, or an RTSP message with its declared body. */
  ghost predicate WellFormed(m: bytes, limits: Limits) {
    m != [] && ReadHead(m, limits) == Total(|m|)
  }

  lemma HeaderSlice(b: bytes, c: bytes, n: nat)
    requires n <= |b|
    ensures (b + c)[..n] == b[..n]
  {
  }

  /** A length once readable does not change when more bytes arrive. */
  lemma HeadStable(b: bytes, c: bytes, limits: Limits)
    requires b != [] && ReadHead(b, limits).Total?
    ensures ReadHead(b + c, limits) == ReadHead(b, limits)
  {
    assert (b + c)[0] == b[0];
    if b[0] == DOLLAR {
      assert (b + c)[2..4] == b[2..4];
    } else {
      StartsWithAnyStable(b, c, STARTS);
      FindStable(b, c, true);
      HeaderSlice(b, c, HeaderBytes(b));
    }
  }

  lemma FirstMessage(m: bytes, rest: bytes, limits: Limits)
    requires WellFormed(m, limits)
    ensures m + rest != [] && LoopPass(m + rest, limits) == Found(m, rest)
    ensures Extract(m + rest, limits) == Message(m, rest)
  {
    HeadStable(m, rest, limits);
    assert (m + rest)[..|m|] == m;
    assert (m + rest)[|m|..] == rest;
  }

  /** An RTSP message cut before its start is complete: nothing in the piece is mistaken for a message. */
  lemma ShortPiece(t: bytes, c: bytes, limits: Limits)
    requires t != [] && t[0] != DOLLAR && !IsRtspStart(t)
    requires RtspHead(t + c, limits).Total?
    ensures !HasLaterStart(t) && |t| <= limits.maxHeader
  {
    var m := t + c;
    var h := Find(m, true, 0);
    assert CrlfAt(m, h);
    if |t| > h {
      assert t[h] == m[h] == 13;
      CompleteStart(t, c, h);
    } else {
      StartsAreShaped();
      PartialStart(t, c, STARTS);
      InnerHasNoNext(t, 1);
    }
  }

  lemma LongPiece(t: bytes, c: bytes, limits: Limits)
    requires t != [] && t[0] != DOLLAR && IsRtspStart(t)
    requires RtspHead(t + c, limits).Total?
    ensures RtspHead(t, limits) == NeedMore || RtspHead(t, limits) == RtspHead(t + c, limits)
  {
    if HeaderComplete(t) {
      FindStable(t, c, true);
      HeaderSlice(t, c, HeaderBytes(t));
    } else if |t| > limits.maxHeader {
      FindInside(t, c, true);
    }
  }

  /** A strict prefix of a message is kept as it is, even one too short to name its method. */
  lemma IncompleteIsKept(t: bytes, c: bytes, limits: Limits)
    requires t != [] && c != [] && WellFormed(t + c, limits)
    ensures LoopPass(t, limits) == Stop(t)
    ensures Extract(t, limits) == NoMessage(t)
  {
    var m := t + c;
    assert m[0] == t[0];
    if t[0] == DOLLAR {
      if |t| >= 4 {
        assert m[2..4] == t[2..4];
      }
    } else if IsRtspStart(t) {
      LongPiece(t, c, limits);
    } else {
      ShortPiece(t, c, limits);
    }
  }

  // ------------------------------------------------------------------ chunks

  datatype Progress = Progress(messages: seq<bytes>, buffer: bytes)

  /** Extracting until no message is left; None if a call never returns. */
  function Drain(b: bytes, limits: Limits): (r: Option<Progress>)
    decreases |b|
  {
    match Extract(b, limits)
    case Spins => None
    case NoMessage(rest) => Some(Progress([], rest))
    case Message(m, rest) =>
      if |rest| >= |b| then None
      else
        match Drain(rest, limits)
        case None => None
        case Some(p) => Some(Progress([m] + p.messages, p.buffer))
  }

  /** The session's reads: each chunk is appended and the buffer drained. */
  function Feed(buffer: bytes, chunks: seq<bytes>, limits: Limits): (r: Option<Progress>)
    decreases |chunks|
  {
    if chunks == [] then Some(Progress([], buffer))
    else
      match Drain(buffer + chunks[0], limits)
      case None => None
      case Some(p) =>
        match Feed(p.buffer, chunks[1..], limits)
        case None => None
        case Some(q) => Some(Progress(p.messages + q.messages, q.buffer))
  }

  /** The messages that lie wholly inside the first |s| bytes of the stream, and the bytes after them. */
  ghost function Cutoff(msgs: seq<bytes>, s: bytes): (p: Progress)
  {
    if msgs == [] || |s| < |msgs[0]| then Progress([], s)
    else
      var p := Cutoff(msgs[1..], s[|msgs[0]|..]);
      Progress([msgs[0]] + p.messages, p.buffer)
  }

  ghost predicate AllWellFormed(msgs: seq<bytes>, limits: Limits) {
    forall i :: 0 <= i < |msgs| ==> WellFormed(msgs[i], limits)
  }

  lemma {:induction false} DrainPrefix(msgs: seq<bytes>, s: bytes, limits: Limits)
    requires AllWellFormed(msgs, limits) && s <= Flatten(msgs)
    ensures Drain(s, limits) == Some(Cutoff(msgs, s))
    decreases |msgs|
  {
    if msgs == [] {
      assert s == [];
    } else {
      var m := msgs[0];
      assert WellFormed(m, limits);
      if |s| < |m| {
        assert s == Flatten(msgs)[..|s|] == m[..|s|];
        assert m == s + m[|s|..];
        if s != [] {
          IncompleteIsKept(s, m[|s|..], limits);
        }
      } else {
        var rest := s[|m|..];
        assert Flatten(msgs)[..|m|] == m;
        assert s == m + rest;
        assert rest <= Flatten(msgs[1..]) by {
          assert Flatten(msgs)[..|s|] == s;
          assert Flatten(msgs)[|m|..] == Flatten(msgs[1..]);
          assert Flatten(msgs[1..])[..|rest|] == rest;
        }
        FirstMessage(m, rest, limits);
        DrainPrefix(msgs[1..], rest, limits);
      }
    }
  }

  /** Reading on after a cut: the messages already taken, then the rest from the kept tail. */
  lemma {:induction false} CutoffResumes(msgs: seq<bytes>, s: bytes, more: bytes)
    requires s + more <= Flatten(msgs)
    ensures
      var p := Cutoff(msgs, s);
      && |p.messages| <= |msgs|
      && p.buffer + more <= Flatten(msgs[|p.messages|..])
      && var q := Cutoff(msgs[|p.messages|..], p.buffer + more);
         Cutoff(msgs, s + more) == Progress(p.messages + q.messages, q.buffer)
    decreases |msgs|
  {
    if msgs == [] || |s| < |msgs[0]| {
      assert msgs[0..] == msgs;
      var q := Cutoff(msgs, s + more);
      assert [] + q.messages == q.messages;
    } else {
      var m := msgs[0];
      var s' := s[|m|..];
      assert (s + more)[|m|..] == s' + more;
      assert s' + more <= Flatten(msgs[1..]) by {
        assert Flatten(msgs)[|m|..] == Flatten(msgs[1..]);
        assert Flatten(msgs)[..|s + more|] == s + more;
        assert Flatten(msgs[1..])[..|s' + more|] == s' + more;
      }
      CutoffResumes(msgs[1..], s', more);
      var p := Cutoff(msgs[1..], s');
      assert msgs[1..][|p.messages|..] == msgs[1 + |p.messages|..];
      Assoc([m], p.messages, Cutoff(msgs[1 + |p.messages|..], p.buffer + more).messages);
    }
  }

  lemma CutoffTail(msgs: seq<bytes>, limits: Limits, k: nat)
    requires AllWellFormed(msgs, limits) && k <= |msgs|
    ensures AllWellFormed(msgs[k..], limits)
  {
  }

  lemma {:induction false} FeedFrom(msgs: seq<bytes>, tail: bytes, chunks: seq<bytes>, limits: Limits)
    requires AllWellFormed(msgs, limits) && tail + Flatten(chunks) <= Flatten(msgs)
    requires Cutoff(msgs, tail) == Progress([], tail)
    ensures Feed(tail, chunks, limits) == Some(Cutoff(msgs, tail + Flatten(chunks)))
    decreases |chunks|
  {
    if chunks == [] {
      assert tail + Flatten(chunks) == tail;
    } else {
      var s, more := tail + chunks[0], Flatten(chunks[1..]);
      assert tail + Flatten(chunks) == s + more;
      assert s <= Flatten(msgs);
      DrainPrefix(msgs, s, limits);
      CutoffResumes(msgs, s, more);
      var p := Cutoff(msgs, s);
      var msgs' := msgs[|p.messages|..];
      CutoffTail(msgs, limits, |p.messages|);
      CutoffIsDone(msgs, s);
      FeedFrom(msgs', p.buffer, chunks[1..], limits);
    }
  }

  lemma {:induction false} CutoffIsDone(msgs: seq<bytes>, s: bytes)
    ensures |Cutoff(msgs, s).messages| <= |msgs|
    ensures Cutoff(msgs[|Cutoff(msgs, s).messages|..], Cutoff(msgs, s).buffer) == Progress([], Cutoff(msgs, s).buffer)
    decreases |msgs|
  {
    if msgs == [] || |s| < |msgs[0]| {
      assert msgs[0..] == msgs;
    } else {
      CutoffIsDone(msgs[1..], s[|msgs[0]|..]);
      var n := |Cutoff(msgs[1..], s[|msgs[0]|..]).messages|;
      assert msgs[1..][n..] == msgs[1 + n..];
    }
  }

  /**
   Framing does not depend on chunking: whatever part of the stream has arrived and
   however it was cut, the messages taken are those complete so far, in order, and
   the bytes of the unfinished one wait unchanged.
   */
  lemma ChunkIndependence(msgs: seq<bytes>, chunks: seq<bytes>, limits: Limits)
    requires AllWellFormed(msgs, limits) && Flatten(chunks) <= Flatten(msgs)
    ensures Feed([], chunks, limits) == Some(Cutoff(msgs, Flatten(chunks)))
    ensures Flatten(chunks) == Flatten(msgs) ==> Feed([], chunks, limits) == Some(Progress(msgs, []))
  {
    assert [] + Flatten(chunks) == Flatten(chunks);
    if msgs != [] {
      assert WellFormed(msgs[0], limits);
    }
    FeedFrom(msgs, [], chunks, limits);
    CutoffAll(msgs);
  }

  lemma {:induction false} CutoffAll(msgs: seq<bytes>)
    ensures Cutoff(msgs, Flatten(msgs)) == Progress(msgs, [])
  {
    if msgs != [] {
      CutoffAll(msgs[1..]);
      assert Flatten(msgs)[|msgs[0]|..] == Flatten(msgs[1..]);
    }
  }

  // -------------------------------------------------------------- soundness

  /** What the framer accepted stands on its own: cut out of the buffer it is well-formed. */
  lemma FoundIsWellFormed(b: bytes, limits: Limits)
    requires b != [] && ReadHead(b, limits).Total? && ReadHead(b, limits).n <= |b|
    ensures WellFormed(b[..ReadHead(b, limits).n], limits)
  {
    var n := ReadHead(b, limits).n;
    var m, c := b[..n], b[n..];
    assert b == m + c;
    assert m[0] == b[0];
    if b[0] == DOLLAR {
      assert m[2..4] == b[2..4];
    } else {
      var h := Find(b, true, 0);
      assert m[h] == b[h] == 13;
      CompleteStart(m, c, h);
      FindInside(m, c, true);
      HeaderSlice(m, c, h + 4);
    }
  }

  /** Within the limits, of exactly the declared length, and read back alone as itself. */
  lemma WellFormedMeaning(m: bytes, limits: Limits)
    requires WellFormed(m, limits)
    ensures Extract(m, limits) == Message(m, [])
    ensures m[0] == DOLLAR ==> |m| >= 4 && |m| == 4 + ReadU16(m[2..4])
    ensures m[0] != DOLLAR ==>
      && IsRtspStart(m) && HeaderComplete(m) && HeaderBytes(m) <= limits.maxHeader
      && 0 <= ContentLength(m[..HeaderBytes(m)]) <= limits.maxBody
      && |m| == HeaderBytes(m) + ContentLength(m[..HeaderBytes(m)])
  {
    assert m + [] == m;
    FirstMessage(m, [], limits);
  }

  /** What is a message, spelled out. */
  lemma WellFormedExactly(m: bytes, limits: Limits)
    ensures WellFormed(m, limits) <==>
      m != [] &&
      if m[0] == 36 then |m| >= 4 && |m| == 4 + 256 * m[2] as int + m[3]
      else
        && (Ascii("RTSP/") <= m || RequestWord(m)) && HeaderComplete(m) && HeaderBytes(m) <= limits.maxHeader
        && 0 <= ContentLength(m[..HeaderBytes(m)]) <= limits.maxBody
        && |m| == HeaderBytes(m) + ContentLength(m[..HeaderBytes(m)])
  {
    RtspStartMeaning(m);
    if |m| >= 4 {
      assert m[2..4][0] == m[2] && m[2..4][1] == m[3];
    }
  }

  /**
   A message whose header has no end yet is kept as long as it is within the header limit;
   beyond that the buffer is cut to its next message start, or cleared.
   */
  lemma UnfinishedHeader(b: bytes, limits: Limits)
    requires Ascii("RTSP/") <= b || RequestWord(b)
    requires forall i :: 0 <= i < |b| ==> !BreakAt(b, true, i)
    ensures b != [] && Extract(b, limits) == NoMessage(
      if |b| <= limits.maxHeader then b
      else if NextMessageStart(b, 1) < |b| then b[NextMessageStart(b, 1)..] else [])
  {
    RtspStartMeaning(b);
    RtspStartIsNotDollar(b);
    FindIs(b, true, 0, |b|);
  }

  // ------------------------------------------------------ where the loop looks

  /** The loop looks at the front of the buffer and then only at message starts. */
  ghost predicate Looked(b: bytes, j: nat)
    requires j <= |b|
  {
    j == 0 || IsStart(b[j..])
  }

  /** No message can begin here: not a start, or a header that is too long or has a refused Content-Length. */
  ghost predicate PassedOver(t: bytes, limits: Limits)
    requires t != []
  {
    ReadHead(t, limits).NotAStart? || ReadHead(t, limits).Refused?
  }

  ghost predicate AllPassed(b: bytes, k: nat, limits: Limits)
    requires k <= |b|
  {
    forall j {:trigger Looked(b, j)} :: 0 <= j < k && Looked(b, j) ==> PassedOver(b[j..], limits)
  }

  ghost predicate Reached(b: bytes, k: nat, limits: Limits) {
    k < |b| && Looked(b, k) && AllPassed(b, k, limits)
  }

  ghost predicate Terminal(t: bytes, limits: Limits)
    requires t != []
  {
    !PassedOver(t, limits) || !HasLaterStart(t)
  }

  lemma {:induction false} NoStartBetween(b: bytes, from: nat, j: nat)
    requires from <= j < |b| && j < NextMessageStart(b, from)
    ensures !IsStart(b[j..])
    decreases |b| - from
  {
    if from < j {
      NoStartBetween(b, from + 1, j);
    }
  }

  lemma {:induction false} LaterStart(b: bytes, from: nat, j: nat)
    requires from <= j < |b| && IsStart(b[j..])
    ensures NextMessageStart(b, from) <= j
    decreases |b| - from
  {
    if from < j {
      LaterStart(b, from + 1, j);
    }
  }

  lemma PassedBefore(b: bytes, n: nat, limits: Limits)
    requires b != [] && PassedOver(b, limits) && n == NextMessageStart(b, 1)
    ensures AllPassed(b, n, limits)
  {
    assert b[0..] == b;
    forall j | 0 < j < n ensures !Looked(b, j) {
      NoStartBetween(b, 1, j);
    }
  }

  /** The places looked at in what a pass leaves are places looked at in the whole. */
  lemma PassedBehind(b: bytes, rest: bytes, n: nat, i: nat, limits: Limits)
    requires 0 < n && n + i < |b| && rest == b[n..] && IsStart(rest)
    requires AllPassed(b, n, limits) && AllPassed(rest, i, limits)
    ensures AllPassed(b, n + i, limits)
  {
    forall j | n <= j < n + i && Looked(b, j) ensures PassedOver(b[j..], limits) {
      assert b[j..] == rest[j - n..];
      assert Looked(rest, j - n);
    }
  }

  lemma LooksBehind(b: bytes, rest: bytes, n: nat, i: nat)
    requires n + i < |b| && rest == b[n..] && IsStart(rest) && Looked(rest, i)
    ensures b[n + i..] == rest[i..] && Looked(b, n + i)
  {
    assert b[n + i..] == rest[i..];
  }

  lemma LandsBehind(b: bytes, rest: bytes, n: nat, i: nat, limits: Limits)
    requires b != [] && PassedOver(b, limits) && n == NextMessageStart(b, 1) && n < |b|
    requires rest == b[n..] && IsStart(rest) && Reached(rest, i, limits)
    ensures Reached(b, n + i, limits) && b[n + i..] == rest[i..]
  {
    assert AllPassed(b, n + i, limits) by {
      PassedBefore(b, n, limits);
      PassedBehind(b, rest, n, i, limits);
    }
    LooksBehind(b, rest, n, i);
  }

  lemma PassGoesOn(b: bytes, n: nat, limits: Limits)
    requires b != [] && !Terminal(b, limits) && n == NextMessageStart(b, 1)
    ensures PassedOver(b, limits) && n < |b| && IsStart(b[n..])
    ensures Extract(b, limits) == Extract(b[n..], limits)
  {
    assert LoopPass(b, limits) == Again(b[n..]);
  }

  /** The rest of the buffer a call lands on: the first it does not pass over, or the one with the last start. */
  ghost function Landed(b: bytes, limits: Limits): (t: bytes)
    requires b != []
    ensures t != [] && |t| <= |b|
    decreases |b|
  {
    if Terminal(b, limits) then b else Landed(b[NextMessageStart(b, 1)..], limits)
  }

  lemma LandsLater(b: bytes, n: nat, i: nat, limits: Limits)
    requires b != [] && !Terminal(b, limits) && n == NextMessageStart(b, 1)
    requires Reached(b[n..], i, limits)
    ensures Reached(b, n + i, limits) && b[n + i..] == b[n..][i..]
  {
    PassGoesOn(b, n, limits);
    LandsBehind(b, b[n..], n, i, limits);
  }

  /** Where in the buffer that rest begins. */
  ghost function LandingOf(b: bytes, limits: Limits): (k: nat)
    requires b != []
    ensures k < |b|
    decreases |b|
  {
    if Terminal(b, limits) then 0
    else
      var n := NextMessageStart(b, 1);
      n + LandingOf(b[n..], limits)
  }

  lemma ReachedLater(b: bytes, n: nat, rest: bytes, i: nat, k: nat, limits: Limits)
    requires b != [] && !Terminal(b, limits) && n == NextMessageStart(b, 1) && rest == b[n..]
    requires Reached(rest, i, limits) && k == n + i
    ensures Reached(b, k, limits)
  {
    LandsLater(b, n, i, limits);
  }

  lemma LandingBehind(b: bytes, n: nat, limits: Limits)
    requires b != [] && !Terminal(b, limits) && n == NextMessageStart(b, 1)
    ensures 1 <= n < |b| && LandingOf(b, limits) == n + LandingOf(b[n..], limits)
  {
  }

  lemma {:induction false} LandingIsReached(b: bytes, limits: Limits)
    requires b != []
    ensures Reached(b, LandingOf(b, limits), limits)
    decreases |b|
  {
    if Terminal(b, limits) {
      ReachedAtOnce(b, limits);
    } else {
      var n := NextMessageStart(b, 1);
      LandingBehind(b, n, limits);
      var rest := b[n..];
      LandingIsReached(rest, limits);
      ReachedLater(b, n, rest, LandingOf(rest, limits), LandingOf(b, limits), limits);
    }
  }

  lemma ReachedAtOnce(b: bytes, limits: Limits)
    requires b != []
    ensures Reached(b, 0, limits)
  {
  }

  lemma {:induction false} LandedAt(b: bytes, limits: Limits)
    requires b != []
    ensures b[LandingOf(b, limits)..] == Landed(b, limits)
    decreases |b|
  {
    if !Terminal(b, limits) {
      var n := NextMessageStart(b, 1);
      LandedAt(b[n..], limits);
    }
  }

  lemma {:induction false} LandingIsTerminal(b: bytes, limits: Limits)
    requires b != []
    ensures Terminal(Landed(b, limits), limits)
    decreases |b|
  {
    if !Terminal(b, limits) {
      LandingIsTerminal(b[NextMessageStart(b, 1)..], limits);
    }
  }

  lemma {:induction false} LandingExtracts(b: bytes, limits: Limits)
    requires b != []
    ensures Extract(b, limits) == Extract(Landed(b, limits), limits)
    decreases |b|
  {
    if !Terminal(b, limits) {
      var n := NextMessageStart(b, 1);
      PassGoesOn(b, n, limits);
      LandingExtracts(b[n..], limits);
    }
  }

  /** One call comes to its landing and no further, and does there what it would do in a buffer of its own. */
  lemma Landing(b: bytes, limits: Limits) returns (k: nat)
    requires b != []
    ensures Reached(b, k, limits) && Terminal(b[k..], limits) && Extract(b, limits) == Extract(b[k..], limits)
  {
    k := LandingOf(b, limits);
    LandingIsReached(b, limits);
    LandedAt(b, limits);
    LandingIsTerminal(b, limits);
    LandingExtracts(b, limits);
  }

  lemma LandingIsUnique(b: bytes, limits: Limits, k: nat, k': nat)
    requires Reached(b, k, limits) && Terminal(b[k..], limits)
    requires Reached(b, k', limits) && Terminal(b[k'..], limits)
    ensures k == k'
  {
    if k < k' {
      NotTerminalBefore(b, limits, k, k');
    } else if k' < k {
      NotTerminalBefore(b, limits, k', k);
    }
  }

  lemma NotTerminalBefore(b: bytes, limits: Limits, k: nat, k': nat)
    requires k < k' && Reached(b, k', limits) && Looked(b, k)
    ensures !Terminal(b[k..], limits)
  {
    assert PassedOver(b[k..], limits);
    assert b[k..][k' - k..] == b[k'..];
    LaterStart(b[k..], 1, k' - k);
  }

  lemma SpinsAtLanding(t: bytes, limits: Limits)
    requires t != [] && Terminal(t, limits)
    ensures Extract(t, limits).Spins? <==> Stuck(t, limits)
  {
    if LoopPass(t, limits).Again? {
      PassProgress(t, limits);
    }
  }

  lemma StuckIsTerminal(t: bytes, limits: Limits)
    requires Stuck(t, limits)
    ensures Terminal(t, limits)
  {
  }

  /** Exactly when a call fails to return: the loop comes to a stuck rest of the buffer. */
  lemma SpinsExactly(b: bytes, limits: Limits)
    ensures Extract(b, limits).Spins? <==> exists k: nat :: Reached(b, k, limits) && Stuck(b[k..], limits)
  {
    if b != [] {
      var k := Landing(b, limits);
      SpinsAtLanding(b[k..], limits);
      forall k': nat | Reached(b, k', limits) && Stuck(b[k'..], limits) ensures k' == k {
        StuckIsTerminal(b[k'..], limits);
        LandingIsUnique(b, limits, k, k');
      }
    }
  }

  lemma ReturnsAtLanding(t: bytes, limits: Limits, m: bytes, rest: bytes)
    requires t != [] && Terminal(t, limits) && Extract(t, limits) == Message(m, rest)
    ensures WellFormed(m, limits) && t == m + rest
  {
    if LoopPass(t, limits).Again? {
      ResyncShrinks(t, limits);
    }
    FoundIsWellFormed(t, limits);
    assert t == m + rest;
  }

  lemma WellFormedIsTerminal(m: bytes, rest: bytes, limits: Limits)
    requires WellFormed(m, limits)
    ensures m + rest != [] && Terminal(m + rest, limits)
  {
    HeadStable(m, rest, limits);
  }

  /** Exactly which message a call returns: the first complete one the loop comes to. */
  lemma ReturnsExactly(b: bytes, limits: Limits, m: bytes, rest: bytes)
    ensures Extract(b, limits) == Message(m, rest)
       <==> exists k: nat :: Reached(b, k, limits) && WellFormed(m, limits) && b[k..] == m + rest
  {
    if b != [] {
      var k := Landing(b, limits);
      if Extract(b, limits) == Message(m, rest) {
        ReturnsAtLanding(b[k..], limits, m, rest);
      }
      forall k': nat | Reached(b, k', limits) && WellFormed(m, limits) && b[k'..] == m + rest
        ensures Extract(b, limits) == Message(m, rest)
      {
        WellFormedIsTerminal(m, rest, limits);
        LandingIsUnique(b, limits, k, k');
        FirstMessage(m, rest, limits);
      }
    }
  }

  /** Garbage that looks like no message start is skipped and the next message comes out whole. */
  lemma GarbageIsSkipped(g: bytes, m: bytes, rest: bytes, limits: Limits)
    requires WellFormed(m, limits)
    requires forall j :: 0 <= j < |g| ==> !IsStart((g + (m + rest))[j..])
    ensures Extract(g + (m + rest), limits) == Message(m, rest)
  {
    var b := g + (m + rest);
    var k := |g|;
    assert b[k..] == m + rest;
    assert IsStart(m + rest) by {
      if m[0] != DOLLAR {
        StartsWithAnyStable(m, rest, STARTS);
      }
    }
    forall j | 0 <= j < k && Looked(b, j) ensures PassedOver(b[j..], limits) {
      assert !IsStart(b[j..]);
    }
    assert Reached(b, k, limits);
    ReturnsExactly(b, limits, m, rest);
  }

  // --------------------------------------------------------------- soundness

  ghost predicate IsSuffix(s: bytes, b: bytes) {
    |s| <= |b| && b[|b| - |s|..] == s
  }

  lemma SuffixOfSuffix(s: bytes, t: bytes, b: bytes)
    requires IsSuffix(s, t) && IsSuffix(t, b)
    ensures IsSuffix(s, b)
  {
    assert t[|t| - |s|..] == b[|b| - |s|..];
  }

  lemma ResyncLeavesSuffix(b: bytes, limits: Limits)
    requires b != []
    ensures IsSuffix(Resync(b, limits), b)
  {
    assert b[0..] == b && b[|b|..] == [];
  }

  /** What one pass leaves, behind the message it found if any, is the end of the buffer. */
  lemma PassLeavesSuffix(b: bytes, limits: Limits)
    requires b != []
    ensures match LoopPass(b, limits)
      case Found(m, rest) => IsSuffix(m + rest, b)
      case Stop(rest) => IsSuffix(rest, b)
      case Again(rest) => IsSuffix(rest, b)
  {
    ResyncLeavesSuffix(b, limits);
    if LoopPass(b, limits).Found? {
      assert LoopPass(b, limits).message + LoopPass(b, limits).rest == b;
    }
    assert b[0..] == b;
  }

  /** The bytes a call that returns still holds: its message, if any, and the buffer it leaves. */
  ghost function Kept(r: Outcome): (kept: bytes)
    requires !r.Spins?
  {
    match r
    case NoMessage(rest) => rest
    case Message(m, rest) => m + rest
  }

  /** For arbitrary bytes, message and remaining buffer of a call that returns are the end of the old buffer. */
  lemma {:induction false} KeepsSuffix(b: bytes, limits: Limits)
    requires !Extract(b, limits).Spins?
    ensures IsSuffix(Kept(Extract(b, limits)), b)
    decreases |b|
  {
    if b != [] {
      PassLeavesSuffix(b, limits);
      if LoopPass(b, limits).Again? {
        var rest := LoopPass(b, limits).rest;
        KeepsSuffix(rest, limits);
        SuffixOfSuffix(Kept(Extract(rest, limits)), rest, b);
      }
    }
  }

  /** A message returned for arbitrary bytes is complete, and alone in a buffer it is returned again. */
  lemma MessageReparses(b: bytes, limits: Limits)
    requires Extract(b, limits).Message?
    ensures WellFormed(Extract(b, limits).message, limits)
    ensures Extract(Extract(b, limits).message, limits) == Message(Extract(b, limits).message, [])
  {
    ReturnsExactly(b, limits, Extract(b, limits).message, Extract(b, limits).rest);
    WellFormedMeaning(Extract(b, limits).message, limits);
  }
}
