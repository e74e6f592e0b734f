/** The bounded per-client queue: two limits, oldest frames dropped first, and the window it holds. */
module FrameQueue {
  import opened Bytes
  import opened Rtp

  datatype Frame = Frame(data: bytes, ptsNs: int, durationNs: int, keyFrame: bool, channelId: int, codec: Codec)

  datatype Limits = Limits(frames: nat, bytes: nat) {
    predicate Usable() {
      frames > 0 && bytes > 0
    }
  }

  function Size(frames: seq<Frame>): (n: nat) {
    if frames == [] then 0 else |frames[0].data| + Size(frames[1..])
  }

  predicate Fits(frames: seq<Frame>, limits: Limits) {
    |frames| <= limits.frames && Size(frames) <= limits.bytes
  }

  /** The frames left when the oldest have made room for `frame`. */
  function Evict(frames: seq<Frame>, frame: Frame, limits: Limits): (kept: seq<Frame>)
    ensures |kept| <= |frames|
  {
    if frames != [] && (|frames| >= limits.frames || Size(frames) + |frame.data| > limits.bytes)
    then Evict(frames[1..], frame, limits) else frames
  }

  /** A queue as a value; its byte count is the size of its frames. */
  datatype Queue = Queue(limits: Limits, frames: seq<Frame>, drops: nat, closed: bool)

  function EmptyQueue(limits: Limits): (q: Queue) {
    Queue(limits, [], 0, false)
  }

  function Pushed(q: Queue, frame: Frame): (r: Queue) {
    if q.closed then q
    else if |frame.data| > q.limits.bytes then q.(drops := q.drops + 1)
    else
      var kept := Evict(q.frames, frame, q.limits);
      q.(frames := kept + [frame], drops := q.drops + |q.frames| - |kept|)
  }

  function Popped(q: Queue): (r: Queue) {
    if q.frames == [] then q else q.(frames := q.frames[1..])
  }

  function ClosedQueue(q: Queue): (r: Queue) {
    q.(frames := [], closed := true)
  }

  lemma {:induction false} SizeConcat(a: seq<Frame>, b: seq<Frame>)
    ensures Size(a + b) == Size(a) + Size(b)
  {
    if a == [] {
      assert a + b == b;
    } else {
      assert (a + b)[1..] == a[1..] + b;
      SizeConcat(a[1..], b);
    }
  }

  class BoundedFrameQueue {
    const limits: Limits
    var frames: seq<Frame>
    var bytes: int
    var drops: nat
    var closed: bool

    ghost predicate Valid()
      reads this
    {
      limits.Usable() && bytes == Size(frames) && Fits(frames, limits)
    }

    ghost function Value(): (v: Queue)
      reads this
    {
      Queue(limits, frames, drops, closed)
    }

    /** Limits of zero are refused before a queue exists; see CreateQueue. */
    constructor (limits: Limits)
      requires limits.Usable()
      ensures Valid() && Value() == EmptyQueue(limits)
    {
      this.limits := limits;
      frames, bytes, drops, closed := [], 0, 0, false;
    }

    method Push(frame: Option<Frame>) returns (accepted: bool)
      requires Valid()
      modifies this
      ensures Valid()
      ensures Value() == if frame.None? then old(Value()) else Pushed(old(Value()), frame.value)
      ensures accepted <==> frame.Some? && !old(closed) && frames == old(frames) + [frame.value]
    {
      if frame.None? || closed {
        return false;
      }
      var size := |frame.value.data|;
      if size > limits.bytes {
        drops := drops + 1;
        return false;
      }
      var dropped := false;
      ghost var kept := Evict(frames, frame.value, limits);
      while frames != [] && (|frames| >= limits.frames || bytes + size > limits.bytes)
        invariant bytes == Size(frames) && Fits(frames, limits) && !closed
        invariant |frames| <= |old(frames)| && (dropped <==> |frames| < |old(frames)|)
        invariant !dropped ==> frames == old(frames)
        invariant drops == old(drops) + |old(frames)| - |frames|
        invariant Evict(frames, frame.value, limits) == kept
        // The sum in the guard does not wrap around in 64 bits while the byte limit is below 2^63.
        invariant limits.bytes < 0x8000_0000_0000_0000 ==> bytes + size < 0x1_0000_0000_0000_0000
        decreases |frames|
      {
        bytes := bytes - |frames[0].data|;
        frames := frames[1..];
        drops := drops + 1;
        dropped := true;
      }
      SizeConcat(frames, [frame.value]);
      bytes := bytes + size;
      frames := frames + [frame.value];
      return !dropped;
    }

    method TryPop() returns (frame: Option<Frame>)
      requires Valid()
      modifies this
      ensures Valid() && Value() == Popped(old(Value()))
      ensures frame == if old(frames) == [] then None else Some(old(frames)[0])
    {
      if frames == [] {
        return None;
      }
      frame := Some(frames[0]);
      frames := frames[1..];
      bytes := bytes - |frame.value.data|;
    }

    method Close()
      requires Valid()
      modifies this
      ensures Valid() && Value() == ClosedQueue(old(Value()))
    {
      closed := true;
      frames := [];
      bytes := 0;
    }
  }

  method CreateQueue(limits: Limits) returns (r: Result<BoundedFrameQueue>)
    ensures r.Ok? <==> limits.Usable()
    ensures r.Ok? ==> fresh(r.value) && r.value.Valid() && r.value.Value() == EmptyQueue(limits)
  {
    if limits.frames == 0 || limits.bytes == 0 {
      return Error("live client queue limits must be non-zero");
    }
    var queue := new BoundedFrameQueue(limits);
    return Ok(queue);
  }

  // --------------------------------------------------------- the sliding window

  /** The longest suffix of `s` that meets both limits. */
  function Window(s: seq<Frame>, limits: Limits): (w: seq<Frame>)
  {
    if Fits(s, limits) then s else if s == [] then [] else Window(s[1..], limits)
  }

  /** Window is what it is called: it fits, it is a suffix, and no longer suffix fits. */
  lemma {:induction false} WindowIsLongest(s: seq<Frame>, limits: Limits)
    ensures Fits(Window(s, limits), limits)
    ensures |Window(s, limits)| <= |s| && Window(s, limits) == s[|s| - |Window(s, limits)|..]
    ensures forall k :: 0 <= k < |s| - |Window(s, limits)| ==> !Fits(s[k..], limits)
  {
    assert s[0..] == s;
    if !Fits(s, limits) {
      WindowIsLongest(s[1..], limits);
      forall k | 0 <= k < |s| - |Window(s, limits)| ensures !Fits(s[k..], limits) {
        if k > 0 {
          assert s[1..][k - 1..] == s[k..];
        }
      }
    }
  }

  lemma FitsOneMore(w: seq<Frame>, x: Frame, limits: Limits)
    requires Fits(w, limits)
    ensures Fits(w + [x], limits) <==> |w| < limits.frames && Size(w) + |x.data| <= limits.bytes
  {
    SizeConcat(w, [x]);
  }

  lemma {:induction false} EvictIsWindow(w: seq<Frame>, x: Frame, limits: Limits)
    requires limits.Usable() && Fits(w, limits) && |x.data| <= limits.bytes
    ensures Evict(w, x, limits) + [x] == Window(w + [x], limits)
  {
    FitsOneMore(w, x, limits);
    if w != [] && !Fits(w + [x], limits) {
      assert (w + [x])[1..] == w[1..] + [x];
      EvictIsWindow(w[1..], x, limits);
    }
  }

  /** One push moves the window by one frame. */
  lemma {:induction false} PushMovesWindow(s: seq<Frame>, x: Frame, limits: Limits)
    requires limits.Usable() && |x.data| <= limits.bytes
    ensures Evict(Window(s, limits), x, limits) + [x] == Window(s + [x], limits)
  {
    if Fits(s, limits) {
      EvictIsWindow(s, x, limits);
    } else {
      SizeConcat(s, [x]);
      assert (s + [x])[1..] == s[1..] + [x];
      PushMovesWindow(s[1..], x, limits);
    }
  }

  datatype Event = Push(frame: Frame) | Pop

  /**
   A queue and its past: the pushed frames that were not oversized, the positions among
   them of the frames popped, in the order they came out, and the number of pushes.
   */
  datatype Log = Log(queue: Queue, accepted: seq<Frame>, popped: seq<int>, pushes: nat)

  function Record(log: Log, e: Event): (r: Log) {
    var q := log.queue;
    match e
    case Push(x) =>
      Log(Pushed(q, x), if |x.data| <= q.limits.bytes then log.accepted + [x] else log.accepted, log.popped,
          log.pushes + 1)
    case Pop =>
      Log(Popped(q), log.accepted,
          if q.frames == [] then log.popped else log.popped + [|log.accepted| - |q.frames|], log.pushes)
  }

  function History(limits: Limits, events: seq<Event>): (log: Log) {
    if events == [] then Log(EmptyQueue(limits), [], [], 0)
    else Record(History(limits, events[..|events| - 1]), events[|events| - 1])
  }

  /** Where the frames behind the last one popped begin. */
  function Unpopped(log: Log): (n: int) {
    if log.popped == [] then 0 else log.popped[|log.popped| - 1] + 1
  }

  ghost predicate InOrder(log: Log) {
    && (forall i :: 0 <= i < |log.popped| ==> 0 <= log.popped[i] < |log.accepted|)
    && (forall i, j :: 0 <= i < j < |log.popped| ==> log.popped[i] < log.popped[j])
  }

  ghost predicate IsWindow(log: Log, limits: Limits) {
    && log.queue.limits == limits && !log.queue.closed
    && InOrder(log)
    && log.queue.frames == Window(log.accepted[Unpopped(log)..], limits)
    && log.pushes == |log.popped| + |log.queue.frames| + log.queue.drops
  }

  lemma RecordPush(log: Log, x: Frame, limits: Limits)
    requires limits.Usable() && IsWindow(log, limits)
    ensures IsWindow(Record(log, Push(x)), limits)
  {
    if |x.data| <= limits.bytes {
      var from := Unpopped(log);
      PushMovesWindow(log.accepted[from..], x, limits);
      assert (log.accepted + [x])[from..] == log.accepted[from..] + [x];
    }
  }

  lemma OldestOfWindow(accepted: seq<Frame>, from: nat, w: seq<Frame>, limits: Limits)
    requires from <= |accepted| && w == Window(accepted[from..], limits) && w != []
    ensures
      var at := |accepted| - |w|;
      from <= at && accepted[at..] == w && Fits(w, limits)
  {
    var s := accepted[from..];
    WindowIsLongest(s, limits);
    assert s[|s| - |w|..] == accepted[|accepted| - |w|..];
  }

  lemma FitsWithoutOldest(w: seq<Frame>, limits: Limits)
    requires w != [] && Fits(w, limits)
    ensures Fits(w[1..], limits)
  {
  }

  /** The frame popped is the one at its recorded position. */
  lemma PopTakesOldest(log: Log, limits: Limits)
    requires IsWindow(log, limits) && log.queue.frames != []
    ensures
      var at := |log.accepted| - |log.queue.frames|;
      && Unpopped(log) <= at < |log.accepted|
      && log.accepted[at] == log.queue.frames[0]
      && log.accepted[at + 1..] == log.queue.frames[1..]
      && Fits(log.queue.frames[1..], limits)
  {
    var w := log.queue.frames;
    OldestOfWindow(log.accepted, Unpopped(log), w, limits);
    FitsWithoutOldest(w, limits);
    var at := |log.accepted| - |w|;
    assert log.accepted[at..][1..] == log.accepted[at + 1..];
  }

  lemma RecordPop(log: Log, limits: Limits)
    requires IsWindow(log, limits)
    ensures IsWindow(Record(log, Pop), limits)
  {
    if log.queue.frames != [] {
      PopTakesOldest(log, limits);
      var r := Record(log, Pop);
      assert Unpopped(r) == |log.accepted| - |log.queue.frames| + 1;
      assert InOrder(r);
    }
  }

  /**
   After every run of pushes and pops: the queue holds the longest suffix, within
   both limits, of the accepted frames behind the last one popped; frames come out
   in the order they went in; and pushes are pops, queued frames and drops together.
   */
  lemma {:induction false} QueueIsWindow(limits: Limits, events: seq<Event>)
    requires limits.Usable()
    ensures IsWindow(History(limits, events), limits)
  {
    if events != [] {
      var front, e := events[..|events| - 1], events[|events| - 1];
      QueueIsWindow(limits, front);
      match e {
        case Push(x) => RecordPush(History(limits, front), x, limits);
        case Pop => RecordPop(History(limits, front), limits);
      }
    }
  }
}
