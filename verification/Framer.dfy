/**
 The incremental framer: RTSP messages and interleaved packets cut out of a byte
 stream that arrives in arbitrary chunks.
 */
module Framer {
  import opened Bytes
  import opened Text

  datatype Limits = Limits(maxHeader: nat, maxBody: nat)

  const DOLLAR: byte := 36

  const STARTS: seq<string> := [
    "RTSP/", "OPTIONS ", "DESCRIBE ", "SETUP ", "PLAY ", "PAUSE ", "TEARDOWN ", "GET_PARAMETER ",
    "SET_PARAMETER ", "ANNOUNCE ", "RECORD "]

  predicate StartsWith(b: bytes, name: string) {
    |b| >= |name| && forall i :: 0 <= i < |name| ==> b[i] == name[i] as int
  }

  predicate StartsWithAny(b: bytes, names: seq<string>) {
    names != [] && (StartsWith(b, names[0]) || StartsWithAny(b, names[1..]))
  }

  predicate IsRtspStart(b: bytes) {
    StartsWithAny(b, STARTS)
  }

  predicate IsStart(b: bytes) {
    b != [] && (b[0] == DOLLAR || IsRtspStart(b))
  }

  /** First position from `from` on where a message may start, or |b|. */
  function NextMessageStart(b: bytes, from: nat): (j: nat)
    requires from <= |b|
    ensures from <= j <= |b|
    ensures j < |b| ==> IsStart(b[j..])
    decreases |b| - from
  {
    if from == |b| || IsStart(b[from..]) then from else NextMessageStart(b, from + 1)
  }

  method FindNextMessageStart(b: bytes, from: nat) returns (j: nat)
    requires from <= |b|
    ensures j == NextMessageStart(b, from)
  {
    j := from;
    while j < |b| && !IsStart(b[j..])
      invariant from <= j <= |b|
      invariant NextMessageStart(b, j) == NextMessageStart(b, from)
    {
      j := j + 1;
    }
  }

  /** What resynchronisation leaves in the buffer. */
  function Resync(b: bytes, limits: Limits): (r: bytes)
    requires b != []
  {
    var next := NextMessageStart(b, 1);
    if next < |b| then b[next..] else if |b| > limits.maxHeader then [] else b
  }

  predicate HasLaterStart(b: bytes)
    requires b != []
  {
    NextMessageStart(b, 1) < |b|
  }

  /** What the front of the buffer says: how long its message is, or why that cannot be told. */
  datatype Head = NotAStart | NeedMore | HeaderTooLong | Refused | Total(n: nat)

  function HeaderBytes(b: bytes): (n: nat) {
    Find(b, true, 0) + 4
  }

  predicate HeaderComplete(b: bytes) {
    Find(b, true, 0) < |b|
  }

  function RtspHead(b: bytes, limits: Limits): (h: Head)
    ensures h.Total? ==> h.n > 0
  {
    if !IsRtspStart(b) then NotAStart
    else if !HeaderComplete(b) then (if |b| > limits.maxHeader then HeaderTooLong else NeedMore)
    else if HeaderBytes(b) > limits.maxHeader then Refused
    else
      var body := ContentLength(b[..HeaderBytes(b)]);
      if body < 0 || body > limits.maxBody then Refused else Total(HeaderBytes(b) + body)
  }

  function ReadHead(b: bytes, limits: Limits): (h: Head)
    requires b != []
    ensures h.Total? ==> h.n > 0
  {
    if b[0] == DOLLAR then (if |b| < 4 then NeedMore else Total(4 + ReadU16(b[2..4])))
    else RtspHead(b, limits)
  }

  /** One pass of the extraction loop. */
  datatype Pass = Again(rest: bytes) | Stop(rest: bytes) | Found(message: bytes, rest: bytes)

  function LoopPass(b: bytes, limits: Limits): (p: Pass)
    requires b != []
  {
    match ReadHead(b, limits)
    case Total(n) => if |b| < n then Stop(b) else Found(b[..n], b[n..])
    case NeedMore => Stop(b)
    case NotAStart => if HasLaterStart(b) then Again(Resync(b, limits)) else Stop(Resync(b, limits))
    case HeaderTooLong => Stop(Resync(b, limits))
    case Refused => Again(Resync(b, limits))
  }

  /** The passes of one call; Spins when a pass leaves the buffer as it was, and so would every later one. */
  datatype Outcome = NoMessage(rest: bytes) | Message(message: bytes, rest: bytes) | Spins

  function Extract(b: bytes, limits: Limits): (r: Outcome)
    decreases |b|
  {
    if b == [] then NoMessage([])
    else
      match LoopPass(b, limits)
      case Stop(rest) => NoMessage(rest)
      case Found(message, rest) => Message(message, rest)
      case Again(rest) => if |rest| < |b| then Extract(rest, limits) else Spins
  }

  // ---------------------------------------------------------------- the code

  /** The input buffer of one connection. */
  class InputBuffer {
    var data: bytes

    constructor ()
      ensures data == []
    {
      data := [];
    }

    method Append(chunk: bytes)
      modifies this
      ensures data == old(data) + chunk
    {
      data := data + chunk;
    }

    method ResyncMessageBuffer(limits: Limits) returns (found: bool)
      requires data != []
      modifies this
      ensures data == Resync(old(data), limits)
      ensures found == HasLaterStart(old(data))
    {
      var next := FindNextMessageStart(data, 1);
      if next < |data| {
        data := data[next..];
        return true;
      }
      if |data| > limits.maxHeader {
        data := [];
      }
      return false;
    }

    /** How long the RTSP message at the front is, or why that cannot be told. */
    method MeasureRtsp(limits: Limits) returns (head: Head)
      requires IsRtspStart(data)
      ensures head == RtspHead(data, limits) && !head.NotAStart?
    {
      var headerEnd := Find(data, true, 0);
      if headerEnd == |data| {
        return if |data| > limits.maxHeader then HeaderTooLong else NeedMore;
      }
      var headerBytes := headerEnd + 4;
      if headerBytes > limits.maxHeader {
        return Refused;
      }
      var bodyLen := ContentLengthFromHeader(data[..headerBytes]);
      if bodyLen < 0 || bodyLen > limits.maxBody {
        return Refused;
      }
      return Total(headerBytes + bodyLen);
    }

    /** The original loops for ever where this returns Spins, with the buffer as it stands then. */
    method ExtractOneRtspMessage(limits: Limits) returns (outcome: Outcome)
      modifies this
      ensures outcome == Extract(old(data), limits)
      ensures outcome.NoMessage? || outcome.Message? ==> data == outcome.rest
      ensures outcome.Spins? ==> data != [] && LoopPass(data, limits) == Again(data)
    {
      ghost var goal := Extract(data, limits);
      while data != []
        invariant Extract(data, limits) == goal
        decreases |data|
      {
        ghost var b := data;
        if data[0] == DOLLAR {
          if |data| < 4 {
            return NoMessage(data);
          }
          var total := 4 + ReadU16(data[2..4]);
          if |data| < total {
            return NoMessage(data);
          }
          var message := data[..total];
          data := data[total..];
          return Message(message, data);
        }
        if !IsRtspStart(data) {
          assert ReadHead(b, limits) == NotAStart;
          var found := ResyncMessageBuffer(limits);
          if found {
            PassAgain(b, data, limits);
            continue;
          }
          return NoMessage(data);
        }
        var head := MeasureRtsp(limits);
        assert ReadHead(b, limits) == head;
        match head {
          case Total(total) =>
            if |data| < total {
              return NoMessage(data);
            }
            var message := data[..total];
            data := data[total..];
            return Message(message, data);
          case NeedMore =>
            return NoMessage(data);
          case HeaderTooLong =>
            var _ := ResyncMessageBuffer(limits);
            return NoMessage(data);
          case Refused =>
            var size := |data|;
            var _ := ResyncMessageBuffer(limits);
            if |data| == size {
              ResyncUnchanged(b, limits);
              return Spins;
            }
            ResyncShrinks(b, limits);
            PassAgain(b, data, limits);
        }
      }
      return NoMessage([]);
    }
  }

  lemma PassAgain(b: bytes, rest: bytes, limits: Limits)
    requires b != [] && LoopPass(b, limits) == Again(rest) && |rest| < |b|
    ensures Extract(b, limits) == Extract(rest, limits)
  {
  }

  lemma ResyncUnchanged(b: bytes, limits: Limits)
    requires b != [] && |Resync(b, limits)| >= |b|
    ensures Resync(b, limits) == b
  {
  }

  lemma ResyncShrinks(b: bytes, limits: Limits)
    requires b != []
    ensures |Resync(b, limits)| <= |b|
    ensures |Resync(b, limits)| == |b| <==> !HasLaterStart(b) && |b| <= limits.maxHeader
  {
  }

  // --------------------------------------------------------------- progress

  /** The buffer on which the loop makes no headway. */
  predicate Stuck(b: bytes, limits: Limits) {
    && b != [] && b[0] != DOLLAR && IsRtspStart(b) && HeaderComplete(b)
    && HeaderBytes(b) <= limits.maxHeader
    && !(0 <= ContentLength(b[..HeaderBytes(b)]) <= limits.maxBody)
    && !HasLaterStart(b) && |b| <= limits.maxHeader
  }

  /** A pass that does not return shortens the buffer, except on a stuck buffer, which it leaves as it is for ever. */
  lemma PassProgress(b: bytes, limits: Limits)
    requires b != [] && LoopPass(b, limits).Again?
    ensures |LoopPass(b, limits).rest| <= |b|
    ensures |LoopPass(b, limits).rest| == |b| <==> Stuck(b, limits)
    ensures Stuck(b, limits) ==> LoopPass(b, limits) == Again(b)
  {
    ResyncShrinks(b, limits);
  }
}
