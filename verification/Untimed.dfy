/** Frames without a presentation time: stamped from their durations, and how far that falls behind. */
module Untimed {
  import opened Bytes
  import opened Rtp
  import opened SessionTheorems
  import M = Media

  /** The timestamp the packets of frame `k` carry. */
  ghost function FrameStamp(m: M.State, ds: seq<M.Delivery>, config: M.Config, k: nat): (timestamp: u32)
    requires config.Usable() && k < |ds|
  {
    M.Stamped(Session(m, ds[..k], config).state, ds[k]).lastTimestamp
  }

  lemma SentStamp(m: M.State, d: M.Delivery, config: M.Config)
    requires config.Usable() && !M.Skipped(m, d)
    ensures M.SentFrame(m, d, config).state.lastTimestamp == M.Stamped(m, d).lastTimestamp
  {
  }

  /** The stamp a session goes on from is that of the frame before, or the initial one at the first key frame. */
  lemma StampBefore(m: M.State, ds: seq<M.Delivery>, config: M.Config, k: nat)
    requires config.Usable() && Fresh(m) && FirstKey(ds) <= k < |ds|
    ensures Session(m, ds[..k], config).state.lastTimestamp
         == if k == FirstKey(ds) then m.lastTimestamp else FrameStamp(m, ds, config, k - 1)
  {
    if k == FirstKey(ds) {
      FirstKeyOfPrefix(ds, k);
      StillWaiting(m, ds[..k], config);
    } else {
      assert ds[..k][..k - 1] == ds[..k - 1];
      SkippedExactly(m, ds, config, k - 1);
      SentStamp(Session(m, ds[..k - 1], config).state, ds[k - 1], config);
    }
  }

  /** The stamp `span` nanoseconds behind another, with the origin for zero. */
  function StampBehind(before: u32, span: nat, origin: u32): (timestamp: u32) {
    var next := (before + span * 90000 / 1_000_000_000) % 0x1_0000_0000;
    if next == 0 then origin else next
  }

  lemma StampByDuration(m: M.State, d: M.Delivery)
    requires d.frame.ptsNs < 0 && M.Span(m, d.frame) <= M.LONGEST_SPAN
    ensures M.Stamped(m, d).lastTimestamp == StampBehind(m.lastTimestamp, M.Span(m, d.frame), m.timestampOrigin)
  {
    M.OverflowsExactly(M.Span(m, d.frame));
  }

  /**
   A frame without a presentation time is stamped with the stamp before it plus the whole
   ticks of its duration, and with the origin where that would be zero.
   */
  lemma {:induction false} UntimedStamp(m: M.State, ds: seq<M.Delivery>, config: M.Config, k: nat)
    requires config.Usable() && Fresh(m) && FirstKey(ds) <= k < |ds|
    requires ds[k].frame.ptsNs < 0 && SpanOf(ds, k) <= M.LONGEST_SPAN
    ensures
      var before := if k == FirstKey(ds) then m.lastTimestamp else FrameStamp(m, ds, config, k - 1);
      FrameStamp(m, ds, config, k) == StampBehind(before, SpanOf(ds, k), m.timestampOrigin)
  {
    StampBefore(m, ds, config, k);
    SpanInSession(m, ds, config, k);
    SessionClock(m, ds[..k], config);
    StampByDuration(Session(m, ds[..k], config).state, ds[k]);
  }

  lemma UntimedNext(m: M.State, ds: seq<M.Delivery>, config: M.Config, k: nat)
    requires config.Usable() && Fresh(m) && FirstKey(ds) < k < |ds|
    requires ds[k].frame.ptsNs < 0 && SpanOf(ds, k) <= M.LONGEST_SPAN
    ensures FrameStamp(m, ds, config, k)
         == StampBehind(FrameStamp(m, ds, config, k - 1), SpanOf(ds, k), m.timestampOrigin)
  {
    UntimedStamp(m, ds, config, k);
  }

  // -------------------------------------------------------------- runs of frames

  /** The time the frames behind `i` up to `j` take, and the ticks they are given. */
  function Elapsed(spans: seq<nat>, i: nat, j: nat): (ns: nat)
    requires i <= j < |spans|
    decreases j
  {
    if i == j then 0 else Elapsed(spans, i, j - 1) + spans[j]
  }

  function TickSum(spans: seq<nat>, i: nat, j: nat): (ticks: nat)
    requires i <= j < |spans|
    decreases j
  {
    if i == j then 0 else TickSum(spans, i, j - 1) + spans[j] * 90000 / 1_000_000_000
  }

  /** A stamp so many ticks behind another, modulo 2^32. */
  predicate TicksApart(first: u32, stamp: u32, ticks: nat) {
    stamp == (first + ticks) % 0x1_0000_0000
  }

  lemma AddWrapped(a: nat, c: nat)
    ensures (a % 0x1_0000_0000 + c) % 0x1_0000_0000 == (a + c) % 0x1_0000_0000
  {
  }

  lemma StampsAdd(first: u32, before: u32, ticks: nat, span: nat, origin: u32)
    requires TicksApart(first, before, ticks) && !TicksApart(first, 0, ticks + span * 90000 / 1_000_000_000)
    ensures TicksApart(first, StampBehind(before, span, origin), ticks + span * 90000 / 1_000_000_000)
  {
    AddWrapped(first + ticks, span * 90000 / 1_000_000_000);
  }

  /** Each stamp follows from the one before. */
  ghost predicate StampsFollow(stamps: seq<u32>, spans: seq<nat>, origin: u32, i: nat, j: nat)
    requires i <= j < |stamps| == |spans|
  {
    forall k :: i < k <= j ==> stamps[k] == StampBehind(stamps[k - 1], spans[k], origin)
  }

  /** None comes to the zero that would be replaced. */
  ghost predicate NeverZero(first: u32, spans: seq<nat>, i: nat, j: nat)
    requires i <= j < |spans|
  {
    forall k :: i < k <= j ==> !TicksApart(first, 0, TickSum(spans, i, k))
  }

  lemma {:induction false} StampsRun(stamps: seq<u32>, spans: seq<nat>, origin: u32, i: nat, j: nat)
    requires i <= j < |stamps| == |spans| && StampsFollow(stamps, spans, origin, i, j)
    requires NeverZero(stamps[i], spans, i, j)
    ensures TicksApart(stamps[i], stamps[j], TickSum(spans, i, j))
    decreases j
  {
    if i < j {
      StampsRun(stamps, spans, origin, i, j - 1);
      assert !TicksApart(stamps[i], 0, TickSum(spans, i, j));
      StampsAdd(stamps[i], stamps[j - 1], TickSum(spans, i, j - 1), spans[j], origin);
    }
  }

  ghost function StampsOf(m: M.State, ds: seq<M.Delivery>, config: M.Config): (stamps: seq<u32>)
    requires config.Usable()
    ensures |stamps| == |ds|
  {
    seq(|ds|, k requires 0 <= k < |ds| => FrameStamp(m, ds, config, k))
  }

  ghost function SpansOf(ds: seq<M.Delivery>): (spans: seq<nat>)
    ensures |spans| == |ds|
  {
    seq(|ds|, k requires 0 <= k < |ds| => SpanOf(ds, k))
  }

  lemma StampAfter(m: M.State, ds: seq<M.Delivery>, config: M.Config, k: nat)
    requires config.Usable() && Fresh(m) && FirstKey(ds) < k < |ds|
    requires ds[k].frame.ptsNs < 0 && SpanOf(ds, k) <= M.LONGEST_SPAN
    ensures StampsOf(m, ds, config)[k]
         == StampBehind(StampsOf(m, ds, config)[k - 1], SpansOf(ds)[k], m.timestampOrigin)
  {
    UntimedNext(m, ds, config, k);
  }

  lemma {:induction false} AllFollow(m: M.State, ds: seq<M.Delivery>, config: M.Config, i: nat, j: nat)
    requires config.Usable() && Fresh(m) && FirstKey(ds) <= i <= j < |ds|
    requires forall k :: i < k <= j ==> ds[k].frame.ptsNs < 0 && SpanOf(ds, k) <= M.LONGEST_SPAN
    ensures StampsFollow(StampsOf(m, ds, config), SpansOf(ds), m.timestampOrigin, i, j)
  {
    var stamps, spans := StampsOf(m, ds, config), SpansOf(ds);
    forall k | i < k <= j ensures stamps[k] == StampBehind(stamps[k - 1], spans[k], m.timestampOrigin) {
      StampAfter(m, ds, config, k);
    }
  }

  /**
   Over a run of frames without presentation times, of durations that do not overflow, the
   ticks add up, as long as no stamp comes to zero.
   */
  lemma {:induction false} UntimedRun(m: M.State, ds: seq<M.Delivery>, config: M.Config, i: nat, j: nat)
    requires config.Usable() && Fresh(m) && FirstKey(ds) <= i <= j < |ds|
    requires forall k :: i < k <= j ==> ds[k].frame.ptsNs < 0 && SpanOf(ds, k) <= M.LONGEST_SPAN
    requires NeverZero(StampsOf(m, ds, config)[i], SpansOf(ds), i, j)
    ensures TicksApart(StampsOf(m, ds, config)[i], StampsOf(m, ds, config)[j], TickSum(SpansOf(ds), i, j))
  {
    AllFollow(m, ds, config, i, j);
    StampsRun(StampsOf(m, ds, config), SpansOf(ds), m.timestampOrigin, i, j);
  }

  lemma NineTimes(d: int, r: nat)
    requires d * 1_000_000_000 == r * 90000 && r < 100_000
    ensures r == 0
  {
    assert d * 100_000 == r * 9;
    assert 0 <= d < 9;
  }

  lemma TicksOfSpan(span: nat)
    ensures 0 <= span * 90000 - span * 90000 / 1_000_000_000 * 1_000_000_000 < 1_000_000_000
    ensures span * 90000 == span * 90000 / 1_000_000_000 * 1_000_000_000 <==> span % 100_000 == 0
  {
    var q, r := span / 100_000, span % 100_000;
    assert span == 100_000 * q + r;
    assert span * 90000 == 9 * q * 1_000_000_000 + r * 90000;
    if r == 0 {
      Divides(span * 90000, 1_000_000_000, 9 * q, 0);
    } else if span * 90000 % 1_000_000_000 == 0 {
      NineTimes(span * 90000 / 1_000_000_000 - 9 * q, r);
    }
  }

  /** How much the ticks of a run fall behind its time, in ticks times 10^9. */
  function Behind(spans: seq<nat>, i: nat, j: nat): (lag: int)
    requires i <= j < |spans|
  {
    Elapsed(spans, i, j) * 90000 - TickSum(spans, i, j) * 1_000_000_000
  }

  /**
   Stamped from their durations, frames fall behind true time by less than one tick each, and
   they keep it if and only if every duration is a multiple of a tenth of a millisecond.
   */
  lemma {:induction false} UntimedDrift(spans: seq<nat>, i: nat, j: nat)
    requires i <= j < |spans|
    ensures 0 <= Behind(spans, i, j) && (i < j ==> Behind(spans, i, j) < (j - i) * 1_000_000_000)
    ensures Behind(spans, i, j) == 0 <==> forall k :: i < k <= j ==> spans[k] % 100_000 == 0
    decreases j
  {
    if i < j {
      UntimedDrift(spans, i, j - 1);
      TicksOfSpan(spans[j]);
      assert Behind(spans, i, j)
          == Behind(spans, i, j - 1) + (spans[j] * 90000 - spans[j] * 90000 / 1_000_000_000 * 1_000_000_000);
    }
  }

  lemma {:induction false} EvenSpansDrift(spans: seq<nat>, i: nat, j: nat)
    requires i <= j < |spans| && forall k :: i < k <= j ==> spans[k] == 33333333
    ensures TickSum(spans, i, j) == (j - i) * 2999 && Behind(spans, i, j) == (j - i) * 999_970_000
    decreases j
  {
    if i < j {
      EvenSpansDrift(spans, i, j - 1);
    }
  }

  /** Frames without a duration either are taken to last 33333333 ns, and each is stamped nearly a tick short. */
  lemma DefaultDurationDrifts(ds: seq<M.Delivery>, i: nat, j: nat)
    requires i <= j < |ds| && forall k :: i < k <= j ==> ds[k].frame.ptsNs < 0 && ds[k].frame.durationNs <= 0
    ensures TickSum(SpansOf(ds), i, j) == (j - i) * 2999 && Behind(SpansOf(ds), i, j) == (j - i) * 999_970_000
  {
    EvenSpansDrift(SpansOf(ds), i, j);
  }
}
