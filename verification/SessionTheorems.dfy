/** Whole sessions: what a receiver rebuilds, and how the counters agree with what was written. */
module SessionTheorems {
  import opened Bytes
  import opened AccessUnit
  import opened Rtp
  import opened Receiver
  import M = Media
  import P = Parameters

  /** All frames of a session, sent one after the other with every write succeeding. */
  ghost function Session(m: M.State, ds: seq<M.Delivery>, config: M.Config): (r: M.Sent)
    requires config.Usable()
  {
    if ds == [] then M.Sent(m, [])
    else
      var before := Session(m, ds[..|ds| - 1], config);
      var last := M.SentFrame(before.state, ds[|ds| - 1], config);
      M.Sent(last.state, before.items + last.items)
  }

  /** The RTP packets among the items written. */
  function RtpPackets(items: seq<M.Item>): (packets: seq<bytes>) {
    if items == [] then []
    else
      var last := items[|items| - 1];
      RtpPackets(items[..|items| - 1]) + if last.RtpItem? then [last.packet] else []
  }

  lemma {:induction false} RtpPacketsConcat(a: seq<M.Item>, b: seq<M.Item>)
    ensures RtpPackets(a + b) == RtpPackets(a) + RtpPackets(b)
    decreases |b|
  {
    if b == [] {
      assert a + b == a;
      assert RtpPackets(a) + [] == RtpPackets(a);
    } else {
      var front, last := b[..|b| - 1], b[|b| - 1];
      assert (a + b)[..|a + b| - 1] == a + front;
      RtpPacketsConcat(a, front);
      Assoc(RtpPackets(a), RtpPackets(front), if last.RtpItem? then [last.packet] else []);
    }
  }

  lemma {:induction false} RtpPacketsOfItems(packets: seq<RtpPacket>)
    ensures RtpPackets(M.AsItems(packets)) == Wires(packets)
  {
    if packets != [] {
      var front, last := packets[..|packets| - 1], packets[|packets| - 1];
      RtpPacketsOfItems(front);
      assert packets == front + [last];
      WiresConcat(front, [last]);
      assert M.AsItems(packets)[..|packets| - 1] == M.AsItems(front);
    }
  }

  lemma FrameRtpPackets(m: M.State, d: M.Delivery, config: M.Config)
    requires config.Usable() && !M.Skipped(m, d)
    ensures RtpPackets(M.SentFrame(m, d, config).items) == Wires(M.FramePackets(m, d, config.mtu))
  {
    var packets := M.FramePackets(m, d, config.mtu);
    var reported := M.Reported(M.Counted(M.Prepared(m, d, packets), packets), d);
    RtpPacketsConcat(M.AsItems(packets), reported.items);
    RtpPacketsOfItems(packets);
    assert RtpPackets(reported.items) == [];
  }

  // ------------------------------------------------------------ what is rebuilt

  /** Position of the first key frame, or the number of frames. */
  ghost function FirstKey(ds: seq<M.Delivery>): (k: nat)
    ensures k <= |ds|
  {
    if ds == [] then 0
    else
      var k := FirstKey(ds[..|ds| - 1]);
      if k < |ds| - 1 || ds[|ds| - 1].frame.keyFrame then k else |ds|
  }

  ghost function Splits(ds: seq<M.Delivery>): (nals: seq<bytes>) {
    if ds == [] then [] else Splits(ds[..|ds| - 1]) + Split(ds[|ds| - 1].frame.data)
  }

  /** The cached parameter sets that go ahead of a first key frame. */
  ghost function LeadingSets(d: M.Delivery): (nals: seq<bytes>) {
    NonEmpty(P.SetsOf(d.cache, d.frame.codec))
  }

  /** The cached parameter sets at the first key frame, then the NAL units of every frame from it on. */
  ghost function Delivered(ds: seq<M.Delivery>): (nals: seq<bytes>) {
    var k := FirstKey(ds);
    if k == |ds| then [] else LeadingSets(ds[k]) + Splits(ds[k..])
  }

  lemma {:induction false} FirstKeyMeaning(ds: seq<M.Delivery>)
    ensures forall i :: 0 <= i < FirstKey(ds) ==> !ds[i].frame.keyFrame
    ensures FirstKey(ds) < |ds| ==> ds[FirstKey(ds)].frame.keyFrame
  {
    if ds != [] {
      FirstKeyMeaning(ds[..|ds| - 1]);
    }
  }

  lemma FrameNalsAreNonEmpty(m: M.State, d: M.Delivery)
    ensures NonEmpty(M.FrameNals(m, d)) == M.FrameNals(m, d)
  {
    SplitHasNoEmptyNal(d.frame.data);
    NonEmptyIdentity(M.FrameNals(m, d));
  }

  /** One frame at the receiver: never more NAL units than it has, and from an idle receiver all of them or fewer. */
  lemma FrameArrives(codec: Codec, state: State, m: M.State, d: M.Delivery, config: M.Config)
    requires config.Usable() && !M.Skipped(m, d) && d.frame.codec == codec
    ensures
      var r := Receive(codec, state, RtpPackets(M.SentFrame(m, d, config).items));
      && |r.nals| <= |M.FrameNals(m, d)|
      && (state.Idle? ==> Rebuilds(r, M.FrameNals(m, d), AllSurvive(codec, M.FrameNals(m, d), config.mtu)))
  {
    FrameRtpPackets(m, d, config);
    FrameNalsAreNonEmpty(m, d);
    PacketizeRebuilds(codec, state, M.FrameNals(m, d), config.mtu, m.sequence, M.Stamped(m, d).lastTimestamp,
                      m.ssrc);
  }

  lemma GateStep(m: M.State, d: M.Delivery, config: M.Config)
    requires config.Usable()
    ensures M.SentFrame(m, d, config).state.waitingForKeyframe <==> M.Skipped(m, d)
    ensures M.Skipped(m, d) ==> M.SentFrame(m, d, config) == M.Sent(m, [])
  {
  }

  lemma {:induction false} StillWaiting(m: M.State, ds: seq<M.Delivery>, config: M.Config)
    requires config.Usable() && m.waitingForKeyframe
    ensures Session(m, ds, config).state.waitingForKeyframe <==> FirstKey(ds) == |ds|
    ensures FirstKey(ds) == |ds| ==> Session(m, ds, config) == M.Sent(m, [])
  {
    if ds != [] {
      StillWaiting(m, ds[..|ds| - 1], config);
      GateStep(Session(m, ds[..|ds| - 1], config).state, ds[|ds| - 1], config);
    }
  }

  lemma DeliveredStep(ds: seq<M.Delivery>)
    requires ds != []
    ensures
      var front, last := ds[..|ds| - 1], ds[|ds| - 1];
      Delivered(ds) == Delivered(front)
        + if FirstKey(front) < |front| then Split(last.frame.data)
          else if last.frame.keyFrame then LeadingSets(last) + Split(last.frame.data) else []
  {
    var front, last := ds[..|ds| - 1], ds[|ds| - 1];
    var k := FirstKey(front);
    if k < |front| {
      assert ds[k..][..|ds[k..]| - 1] == front[k..];
      Assoc(LeadingSets(ds[k]), Splits(front[k..]), Split(last.frame.data));
    } else if last.frame.keyFrame {
      assert ds[k..] == [last];
      assert [last][..0] == [];
      assert Splits([last]) == [] + Split(last.frame.data) == Split(last.frame.data);
    }
  }

  lemma FrameNalsOf(m: M.State, d: M.Delivery)
    ensures M.FrameNals(m, d)
         == if m.waitingForKeyframe then LeadingSets(d) + Split(d.frame.data) else Split(d.frame.data)
  {
    assert [] + Split(d.frame.data) == Split(d.frame.data);
  }

  lemma AllSurviveConcat(codec: Codec, a: seq<bytes>, b: seq<bytes>, mtu: nat)
    ensures AllSurvive(codec, a + b, mtu) <==> AllSurvive(codec, a, mtu) && AllSurvive(codec, b, mtu)
  {
    if AllSurvive(codec, a + b, mtu) {
      assert forall i :: 0 <= i < |a| ==> a[i] == (a + b)[i];
      assert forall i :: 0 <= i < |b| ==> b[i] == (a + b)[|a| + i];
    }
  }

  lemma RebuildFrame(mid: Step, last: Step, sent: seq<bytes>, nals: seq<bytes>, ok: bool, okFrame: bool)
    requires Rebuilds(mid, sent, ok)
    requires |last.nals| <= |nals| && (mid.state.Idle? ==> Rebuilds(last, nals, okFrame))
    ensures Rebuilds(Step(last.state, mid.nals + last.nals), sent + nals, ok && okFrame)
  {
  }

  lemma {:induction false} SessionRebuilds(codec: Codec, m: M.State, ds: seq<M.Delivery>, config: M.Config)
    requires config.Usable() && m.waitingForKeyframe
    requires forall i :: 0 <= i < |ds| ==> ds[i].frame.codec == codec
    ensures Rebuilds(Receive(codec, Idle, RtpPackets(Session(m, ds, config).items)), Delivered(ds),
                     AllSurvive(codec, Delivered(ds), config.mtu))
  {
    if ds != [] {
      var front, last := ds[..|ds| - 1], ds[|ds| - 1];
      SessionRebuilds(codec, m, front, config);
      StillWaiting(m, front, config);
      DeliveredStep(ds);
      var before := Session(m, front, config);
      var sent := M.SentFrame(before.state, last, config);
      var mid := Receive(codec, Idle, RtpPackets(before.items));
      RtpPacketsConcat(before.items, sent.items);
      if M.Skipped(before.state, last) {
        assert Delivered(front) + [] == Delivered(front);
        assert before.items + [] == before.items;
      } else {
        var nals := M.FrameNals(before.state, last);
        ReceiveConcat(codec, Idle, RtpPackets(before.items), RtpPackets(sent.items));
        FrameArrives(codec, mid.state, before.state, last, config);
        FrameNalsOf(before.state, last);
        AllSurviveConcat(codec, Delivered(front), nals, config.mtu);
        RebuildFrame(mid, Receive(codec, mid.state, RtpPackets(sent.items)), Delivered(front), nals,
                     AllSurvive(codec, Delivered(front), config.mtu), AllSurvive(codec, nals, config.mtu));
      }
    }
  }

  /** The NAL units of the frames themselves, from the first key frame on. */
  ghost function SentNals(ds: seq<M.Delivery>): (nals: seq<bytes>) {
    Splits(ds[FirstKey(ds)..])
  }

  lemma CachedSetSurvives(codec: Codec, t: nat, nal: bytes, mtu: nat)
    requires P.SetType(codec, t) && P.SetOrNone(codec, t, nal)
    ensures Survives(codec, nal, mtu)
  {
  }

  /** Cached parameter sets are of types that may stand alone, so they always come through. */
  lemma LeadingSetsSurvive(d: M.Delivery, mtu: nat)
    ensures AllSurvive(d.frame.codec, LeadingSets(d), mtu)
  {
    var codec, nals := d.frame.codec, P.SetsOf(d.cache, d.frame.codec);
    var first := if codec.H264? then 7 else 32;
    forall i | 0 <= i < |nals| ensures Survives(codec, nals[i], mtu) {
      CachedSetSurvives(codec, first + i, nals[i], mtu);
    }
    NonEmptySurvive(codec, nals, mtu);
  }

  lemma {:induction false} NonEmptySurvive(codec: Codec, nals: seq<bytes>, mtu: nat)
    requires AllSurvive(codec, nals, mtu)
    ensures AllSurvive(codec, NonEmpty(nals), mtu)
  {
    if nals != [] {
      NonEmptySurvive(codec, nals[1..], mtu);
    }
  }

  lemma DeliveredSurvives(codec: Codec, ds: seq<M.Delivery>, mtu: nat)
    requires forall i :: 0 <= i < |ds| ==> ds[i].frame.codec == codec
    ensures AllSurvive(codec, Delivered(ds), mtu) <==> AllSurvive(codec, SentNals(ds), mtu)
  {
    var k := FirstKey(ds);
    if k < |ds| {
      LeadingSetsSurvive(ds[k], mtu);
      AllSurviveConcat(codec, LeadingSets(ds[k]), SentNals(ds), mtu);
    } else {
      assert ds[k..] == [];
    }
  }

  /**
   A whole session: the receiver rebuilds exactly the cached parameter sets and then the
   NAL units of every frame from the first key frame on, if and only if each NAL of those
   frames is fragmented or of a type that may stand alone; and nothing at all is written
   before that key frame.
   */
  lemma SessionArrives(codec: Codec, m: M.State, ds: seq<M.Delivery>, config: M.Config)
    requires config.Usable() && m.waitingForKeyframe
    requires forall i :: 0 <= i < |ds| ==> ds[i].frame.codec == codec
    ensures Receive(codec, Idle, RtpPackets(Session(m, ds, config).items)).nals == Delivered(ds)
       <==> AllSurvive(codec, SentNals(ds), config.mtu)
    ensures forall k :: 0 <= k <= FirstKey(ds) ==> Session(m, ds[..k], config) == M.Sent(m, [])
  {
    SessionRebuilds(codec, m, ds, config);
    DeliveredSurvives(codec, ds, config.mtu);
    forall k | 0 <= k <= FirstKey(ds) ensures Session(m, ds[..k], config) == M.Sent(m, []) {
      FirstKeyMeaning(ds);
      FirstKeyMeaning(ds[..k]);
      StillWaiting(m, ds[..k], config);
    }
  }

  /** The marker bit is on the last packet of a frame and on no other. */
  lemma MarkerEndsFrame(m: M.State, d: M.Delivery, mtu: nat, i: nat)
    requires mtu > 15 && i < |M.FramePackets(m, d, mtu)|
    ensures
      var packets := M.FramePackets(m, d, mtu);
      ParseRtp(packets[i].wire).Some? && (ParseRtp(packets[i].wire).value.marker <==> i == |packets| - 1)
  {
    var nals := M.FrameNals(m, d);
    var sends := Plan(d.frame.codec, nals, mtu);
    SplitHasNoEmptyNal(d.frame.data);
    PlanShape(d.frame.codec, nals, mtu);
    assert nals != [] && nals[|nals| - 1] != [];
    NumberedFields(sends, m.sequence, M.Stamped(m, d).lastTimestamp, m.ssrc, i);
  }

  // --------------------------------------------------------------- the counters

  lemma {:induction false} PayloadOctetsConcat(a: seq<bytes>, b: seq<bytes>)
    ensures M.PayloadOctets(a + b) == M.PayloadOctets(a) + M.PayloadOctets(b)
    decreases |b|
  {
    if b == [] {
      assert a + b == a;
    } else {
      assert (a + b)[..|a + b| - 1] == a + b[..|b| - 1];
      PayloadOctetsConcat(a, b[..|b| - 1]);
    }
  }

  /** What the state has counted against what is on the wire. */
  ghost predicate Agrees(m: M.State, r: M.State, packets: seq<bytes>) {
    && r.packetCount == m.packetCount + |packets|
    && r.octetCount == m.octetCount + M.PayloadOctets(packets)
    && r.sequence == Wrap16(m.sequence + |packets|)
    && r.ssrc == m.ssrc && r.timestampOrigin == m.timestampOrigin
  }

  lemma WrapTwice(a: nat, b: nat)
    ensures Wrap16(Wrap16(a) + b) == Wrap16(a + b)
  {
    assert a == 0x1_0000 * (a / 0x1_0000) + a % 0x1_0000;
  }

  lemma CountedAgrees(m: M.State, d: M.Delivery, packets: seq<RtpPacket>)
    ensures Agrees(m, M.Counted(M.Prepared(m, d, packets), packets), Wires(packets))
  {
  }

  lemma PacketsAgree(m: M.State, d: M.Delivery, packets: seq<RtpPacket>)
    ensures Agrees(m, M.SentPackets(m, d, packets).state, Wires(packets))
  {
    CountedAgrees(m, d, packets);
  }

  lemma FrameAgrees(m: M.State, d: M.Delivery, config: M.Config)
    requires config.Usable()
    ensures Agrees(m, M.SentFrame(m, d, config).state, RtpPackets(M.SentFrame(m, d, config).items))
  {
    if M.Skipped(m, d) {
      assert Wrap16(m.sequence + 0) == m.sequence;
    } else {
      FrameRtpPackets(m, d, config);
      PacketsAgree(m, d, M.FramePackets(m, d, config.mtu));
    }
  }

  lemma AgreesStep(m: M.State, mid: M.State, r: M.State, a: seq<bytes>, b: seq<bytes>)
    requires Agrees(m, mid, a) && Agrees(mid, r, b)
    ensures Agrees(m, r, a + b)
  {
    PayloadOctetsConcat(a, b);
    WrapTwice(m.sequence + |a|, |b|);
  }

  /** After any number of frames the counters are the totals of what was written, and the sequence number follows them. */
  lemma {:induction false} CountersMatchWire(m: M.State, ds: seq<M.Delivery>, config: M.Config)
    requires config.Usable()
    ensures Agrees(m, Session(m, ds, config).state, RtpPackets(Session(m, ds, config).items))
  {
    if ds != [] {
      var before := Session(m, ds[..|ds| - 1], config);
      var sent := M.SentFrame(before.state, ds[|ds| - 1], config);
      CountersMatchWire(m, ds[..|ds| - 1], config);
      FrameAgrees(before.state, ds[|ds| - 1], config);
      RtpPacketsConcat(before.items, sent.items);
      AgreesStep(m, before.state, sent.state, RtpPackets(before.items), RtpPackets(sent.items));
    }
  }

  lemma {:induction false} WiresAt(packets: seq<RtpPacket>, i: nat)
    requires i < |packets|
    ensures Wires(packets)[i] == packets[i].wire
  {
    if i > 0 {
      WiresAt(packets[1..], i - 1);
    }
  }

  /** The packet's sequence number and source, as its receiver reads them. */
  ghost predicate Numbered(packet: bytes, n: nat, ssrc: u32) {
    match ParseRtp(packet)
    case None => false
    case Some(fields) => fields.sequence == Wrap16(n) && fields.ssrc == ssrc
  }

  lemma NumberedWrap(packet: bytes, a: nat, b: nat, ssrc: u32)
    requires Numbered(packet, Wrap16(a) + b, ssrc)
    ensures Numbered(packet, a + b, ssrc)
  {
    WrapTwice(a, b);
  }

  lemma PacketsNumbered(sends: seq<Send>, n: nat, timestamp: u32, ssrc: u32, i: nat)
    requires i < |sends|
    ensures Numbered(Wires(Number(sends, n, timestamp, ssrc))[i], n + i, ssrc)
  {
    WiresAt(Number(sends, n, timestamp, ssrc), i);
    NumberedFields(sends, n, timestamp, ssrc, i);
  }

  /** Consecutive numbers from `n` on. */
  ghost predicate NumberedFrom(packets: seq<bytes>, n: nat, ssrc: u32) {
    packets == [] ||
    (NumberedFrom(packets[..|packets| - 1], n, ssrc) && Numbered(packets[|packets| - 1], n + |packets| - 1, ssrc))
  }

  lemma {:induction false} SendsNumberedTo(sends: seq<Send>, n: nat, timestamp: u32, ssrc: u32, k: nat)
    requires k <= |sends|
    ensures NumberedFrom(Wires(Number(sends, n, timestamp, ssrc))[..k], n, ssrc)
  {
    if k > 0 {
      var wires := Wires(Number(sends, n, timestamp, ssrc));
      SendsNumberedTo(sends, n, timestamp, ssrc, k - 1);
      PacketsNumbered(sends, n, timestamp, ssrc, k - 1);
      assert wires[..k][..k - 1] == wires[..k - 1];
    }
  }

  lemma NumberedNext(packets: seq<bytes>, last: bytes, n: nat, ssrc: u32)
    requires NumberedFrom(packets, n, ssrc) && Numbered(last, n + |packets|, ssrc)
    ensures NumberedFrom(packets + [last], n, ssrc)
  {
    assert (packets + [last])[..|packets|] == packets;
  }

  lemma {:induction false} NumberedConcat(a: seq<bytes>, b: seq<bytes>, n: nat, next: u16, ssrc: u32)
    requires NumberedFrom(a, n, ssrc) && NumberedFrom(b, next, ssrc) && next == Wrap16(n + |a|)
    ensures NumberedFrom(a + b, n, ssrc)
    decreases |b|
  {
    if b == [] {
      assert a + b == a;
    } else {
      var front, last := b[..|b| - 1], b[|b| - 1];
      LastApart(a, b);
      NumberedConcat(a, front, n, next, ssrc);
      NumberedWrap(last, n + |a|, |front|, ssrc);
      NumberedNext(a + front, last, n, ssrc);
    }
  }

  lemma {:induction false} NumberedAt(packets: seq<bytes>, n: nat, ssrc: u32, i: nat)
    requires NumberedFrom(packets, n, ssrc) && i < |packets|
    ensures Numbered(packets[i], n + i, ssrc)
    decreases |packets|
  {
    if i < |packets| - 1 {
      NumberedAt(packets[..|packets| - 1], n, ssrc, i);
    }
  }

  lemma FrameNumbered(m: M.State, d: M.Delivery, config: M.Config)
    requires config.Usable()
    ensures NumberedFrom(RtpPackets(M.SentFrame(m, d, config).items), m.sequence, m.ssrc)
  {
    if !M.Skipped(m, d) {
      FrameRtpPackets(m, d, config);
      var sends := Plan(d.frame.codec, M.FrameNals(m, d), config.mtu);
      var wires := Wires(M.FramePackets(m, d, config.mtu));
      SendsNumberedTo(sends, m.sequence, M.Stamped(m, d).lastTimestamp, m.ssrc, |sends|);
      assert wires[..|sends|] == wires;
    }
  }

  lemma NumberedOn(m: M.State, mid: M.State, a: seq<bytes>, b: seq<bytes>)
    requires Agrees(m, mid, a) && NumberedFrom(a, m.sequence, m.ssrc) && NumberedFrom(b, mid.sequence, mid.ssrc)
    ensures NumberedFrom(a + b, m.sequence, m.ssrc)
  {
    NumberedConcat(a, b, m.sequence, mid.sequence, m.ssrc);
  }

  lemma {:induction false} SessionNumbered(m: M.State, ds: seq<M.Delivery>, config: M.Config)
    requires config.Usable()
    ensures NumberedFrom(RtpPackets(Session(m, ds, config).items), m.sequence, m.ssrc)
    decreases |ds|
  {
    if ds != [] {
      var front, d := ds[..|ds| - 1], ds[|ds| - 1];
      var before := Session(m, front, config);
      var sent := M.SentFrame(before.state, d, config);
      SessionNumbered(m, front, config);
      CountersMatchWire(m, front, config);
      FrameNumbered(before.state, d, config);
      RtpPacketsConcat(before.items, sent.items);
      NumberedOn(m, before.state, RtpPackets(before.items), RtpPackets(sent.items));
    }
  }

  /** Sequence numbers run on through the whole session without a gap, modulo 2^16. */
  lemma {:induction false} SequenceHasNoGap(m: M.State, ds: seq<M.Delivery>, config: M.Config, i: nat)
    requires config.Usable() && i < |RtpPackets(Session(m, ds, config).items)|
    ensures Numbered(RtpPackets(Session(m, ds, config).items)[i], m.sequence + i, m.ssrc)
  {
    SessionNumbered(m, ds, config);
    NumberedAt(RtpPackets(Session(m, ds, config).items), m.sequence, m.ssrc, i);
  }

  lemma FrameSetsFlag(m: M.State, d: M.Delivery, config: M.Config)
    requires config.Usable()
    ensures M.SentFrame(m, d, config).state.firstRtpSent
       <==> m.firstRtpSent || RtpPackets(M.SentFrame(m, d, config).items) != []
  {
    if !M.Skipped(m, d) {
      FrameRtpPackets(m, d, config);
    }
  }

  /** The first transmission is noted exactly when a packet has been written. */
  lemma {:induction false} FirstRtpIsNoted(m: M.State, ds: seq<M.Delivery>, config: M.Config)
    requires config.Usable()
    ensures Session(m, ds, config).state.firstRtpSent
       <==> m.firstRtpSent || RtpPackets(Session(m, ds, config).items) != []
  {
    if ds != [] {
      var before, last := Session(m, ds[..|ds| - 1], config), ds[|ds| - 1];
      FirstRtpIsNoted(m, ds[..|ds| - 1], config);
      FrameSetsFlag(before.state, last, config);
      RtpPacketsConcat(before.items, M.SentFrame(before.state, last, config).items);
    }
  }

  // ------------------------------------------------------------- sender reports

  /** What a sender report carries (section 6.4.1 of RFC 3550). */
  datatype Report = Report(ssrc: u32, ntpSeconds: u32, ntpFraction: u32, timestamp: u32, packets: u32, octets: u32)

  /** Version 2 with no report blocks, type 200, and a length of as many 32-bit words less one. */
  predicate IsReport(report: bytes) {
    |report| == 28 && report[0] == 128 && report[1] == 200 && report[2] == 0 && report[3] == 6
  }

  function ReadReport(report: bytes): (r: Report)
    requires IsReport(report)
  {
    Report(ReadU32(report[4..8]), ReadU32(report[8..12]), ReadU32(report[12..16]), ReadU32(report[16..20]),
           ReadU32(report[20..24]), ReadU32(report[24..28]))
  }

  lemma ReportFields(m: M.State, timestamp: u32, ntpSeconds: u32, ntpFraction: u32)
    ensures
      var r := M.SenderReport(m, timestamp, ntpSeconds, ntpFraction);
      && IsReport(r)
      && r[4..8] == U32(m.ssrc) && r[8..12] == U32(ntpSeconds) && r[12..16] == U32(ntpFraction)
      && r[16..20] == U32(timestamp) && r[20..24] == U32(M.Wrap32(m.packetCount))
      && r[24..28] == U32(M.Wrap32(m.octetCount))
  {
  }

  lemma ReportReadsBack(m: M.State, timestamp: u32, ntpSeconds: u32, ntpFraction: u32)
    ensures IsReport(M.SenderReport(m, timestamp, ntpSeconds, ntpFraction))
    ensures ReadReport(M.SenderReport(m, timestamp, ntpSeconds, ntpFraction))
         == Report(m.ssrc, ntpSeconds, ntpFraction, timestamp, M.Wrap32(m.packetCount), M.Wrap32(m.octetCount))
  {
    ReportFields(m, timestamp, ntpSeconds, ntpFraction);
    U32RoundTrip(m.ssrc);
    U32RoundTrip(ntpSeconds);
    U32RoundTrip(ntpFraction);
    U32RoundTrip(timestamp);
    U32RoundTrip(M.Wrap32(m.packetCount));
    U32RoundTrip(M.Wrap32(m.octetCount));
  }

  /** The report carries the totals over `packets`, on top of what `m` had counted. */
  ghost predicate ReportsTotals(item: M.Item, m: M.State, packets: seq<bytes>) {
    && item.RtcpItem? && IsReport(item.report)
    && var r := ReadReport(item.report);
       && r.ssrc == m.ssrc
       && r.packets == M.Wrap32(m.packetCount + |packets|)
       && r.octets == M.Wrap32(m.octetCount + M.PayloadOctets(packets))
  }

  /** Every report among the items carries the totals over the packets before it. */
  ghost predicate ReportsFrom(items: seq<M.Item>, m: M.State) {
    items == [] ||
    (&& ReportsFrom(items[..|items| - 1], m)
     && (items[|items| - 1].RtcpItem? ==> ReportsTotals(items[|items| - 1], m, RtpPackets(items[..|items| - 1]))))
  }

  lemma {:induction false} PacketsHoldNoReport(packets: seq<RtpPacket>, m: M.State)
    ensures ReportsFrom(M.AsItems(packets), m)
  {
    if packets != [] {
      PacketsHoldNoReport(packets[..|packets| - 1], m);
      assert M.AsItems(packets)[..|packets| - 1] == M.AsItems(packets[..|packets| - 1]);
    }
  }

  lemma TotalsOf(report: bytes, m: M.State, counted: M.State, wires: seq<bytes>)
    requires IsReport(report) && Agrees(m, counted, wires)
    requires
      var r := ReadReport(report);
      && r.ssrc == counted.ssrc && r.packets == M.Wrap32(counted.packetCount)
      && r.octets == M.Wrap32(counted.octetCount)
    ensures ReportsTotals(M.RtcpItem(report), m, wires)
  {
  }

  lemma ReportTotals(m: M.State, counted: M.State, d: M.Delivery, wires: seq<bytes>)
    requires Agrees(m, counted, wires)
    ensures ReportsTotals(M.RtcpItem(M.SenderReport(counted, counted.lastTimestamp, d.ntpSeconds, d.ntpFraction)), m,
                          wires)
  {
    ReportReadsBack(counted, counted.lastTimestamp, d.ntpSeconds, d.ntpFraction);
    TotalsOf(M.SenderReport(counted, counted.lastTimestamp, d.ntpSeconds, d.ntpFraction), m, counted, wires);
  }

  lemma PacketsReport(m: M.State, d: M.Delivery, packets: seq<RtpPacket>)
    ensures ReportsFrom(M.SentPackets(m, d, packets).items, m)
  {
    var counted := M.Counted(M.Prepared(m, d, packets), packets);
    PacketsHoldNoReport(packets, m);
    if M.ReportDue(counted, d.now) {
      var items := M.SentPackets(m, d, packets).items;
      assert items[..|items| - 1] == M.AsItems(packets);
      RtpPacketsOfItems(packets);
      CountedAgrees(m, d, packets);
      ReportTotals(m, counted, d, Wires(packets));
    } else {
      assert M.AsItems(packets) + [] == M.AsItems(packets);
    }
  }

  lemma ReportShift(item: M.Item, m: M.State, mid: M.State, a: seq<bytes>, b: seq<bytes>)
    requires Agrees(m, mid, a) && ReportsTotals(item, mid, b)
    ensures ReportsTotals(item, m, a + b)
  {
    PayloadOctetsConcat(a, b);
  }

  lemma {:induction false} ReportsConcat(a: seq<M.Item>, b: seq<M.Item>, m: M.State, mid: M.State)
    requires Agrees(m, mid, RtpPackets(a)) && ReportsFrom(a, m) && ReportsFrom(b, mid)
    ensures ReportsFrom(a + b, m)
    decreases |b|
  {
    if b == [] {
      assert a + b == a;
    } else {
      var front, last := b[..|b| - 1], b[|b| - 1];
      ReportsConcat(a, front, m, mid);
      assert (a + b)[..|a + b| - 1] == a + front;
      RtpPacketsConcat(a, front);
      if last.RtcpItem? {
        ReportShift(last, m, mid, RtpPackets(a), RtpPackets(front));
      }
    }
  }

  lemma FrameReports(m: M.State, d: M.Delivery, config: M.Config)
    requires config.Usable()
    ensures ReportsFrom(M.SentFrame(m, d, config).items, m)
  {
    if !M.Skipped(m, d) {
      PacketsReport(m, d, M.FramePackets(m, d, config.mtu));
    }
  }

  lemma {:induction false} SessionReports(m: M.State, ds: seq<M.Delivery>, config: M.Config)
    requires config.Usable()
    ensures ReportsFrom(Session(m, ds, config).items, m)
    decreases |ds|
  {
    if ds != [] {
      var front, d := ds[..|ds| - 1], ds[|ds| - 1];
      var before := Session(m, front, config);
      SessionReports(m, front, config);
      CountersMatchWire(m, front, config);
      FrameReports(before.state, d, config);
      ReportsConcat(before.items, M.SentFrame(before.state, d, config).items, m, before.state);
    }
  }

  lemma {:induction false} ReportsAt(items: seq<M.Item>, m: M.State, k: nat)
    requires ReportsFrom(items, m) && k < |items| && items[k].RtcpItem?
    ensures ReportsTotals(items[k], m, RtpPackets(items[..k]))
    decreases |items|
  {
    if k < |items| - 1 {
      assert items[..|items| - 1][..k] == items[..k];
      ReportsAt(items[..|items| - 1], m, k);
    }
  }

  /** Every sender report of a session carries exactly the packets and payload octets written before it, modulo 2^32. */
  lemma ReportsMatchWire(m: M.State, ds: seq<M.Delivery>, config: M.Config, k: nat)
    requires config.Usable() && k < |Session(m, ds, config).items| && Session(m, ds, config).items[k].RtcpItem?
    ensures ReportsTotals(Session(m, ds, config).items[k], m, RtpPackets(Session(m, ds, config).items[..k]))
  {
    SessionReports(m, ds, config);
    ReportsAt(Session(m, ds, config).items, m, k);
  }

  // ---------------------------------------------------------------- timestamps

  ghost predicate StampedWith(packet: bytes, timestamp: u32) {
    match ParseRtp(packet)
    case None => false
    case Some(fields) => fields.timestamp == timestamp
  }

  /** Every packet of a frame carries the frame's timestamp. */
  lemma FrameStamped(m: M.State, d: M.Delivery, mtu: nat, i: nat)
    requires mtu > 15 && i < |M.FramePackets(m, d, mtu)|
    ensures StampedWith(M.FramePackets(m, d, mtu)[i].wire, M.Stamped(m, d).lastTimestamp)
  {
    NumberedFields(Plan(d.frame.codec, M.FrameNals(m, d), mtu), m.sequence, M.Stamped(m, d).lastTimestamp,
                   m.ssrc, i);
  }

  /** As a session begins: no frame sent, no clock set. */
  ghost predicate Fresh(m: M.State) {
    m.waitingForKeyframe && m.firstPtsNs == -1
  }

  /** The first presentation time among the frames sent, or -1. */
  ghost function FirstPts(ds: seq<M.Delivery>): (pts: int)
    ensures pts >= -1
    ensures FirstKey(ds) == |ds| ==> pts == -1
  {
    if ds == [] then -1
    else
      var before := FirstPts(ds[..|ds| - 1]);
      if before >= 0 || FirstKey(ds) == |ds| || ds[|ds| - 1].frame.ptsNs < 0 then before
      else ds[|ds| - 1].frame.ptsNs
  }

  /** The stretch of time frame `k` is stamped from, read off the frames alone. */
  ghost function SpanOf(ds: seq<M.Delivery>, k: nat): (ns: nat)
    requires k < |ds|
  {
    var frame := ds[k].frame;
    if frame.ptsNs >= 0 then M.Max(0, frame.ptsNs - FirstPts(ds))
    else if frame.durationNs > 0 then frame.durationNs else 33333333
  }

  lemma FrameClock(m: M.State, d: M.Delivery, config: M.Config)
    requires config.Usable()
    ensures
      var r := M.SentFrame(m, d, config).state;
      && r.timestampOrigin == m.timestampOrigin
      && r.firstPtsNs == if M.Skipped(m, d) || d.frame.ptsNs < 0 || m.firstPtsNs >= 0 then m.firstPtsNs else d.frame.ptsNs
  {
  }

  /** The two fields a timestamp is computed from, after any number of frames. */
  lemma {:induction false} SessionClock(m: M.State, ds: seq<M.Delivery>, config: M.Config)
    requires config.Usable() && Fresh(m)
    ensures Session(m, ds, config).state.timestampOrigin == m.timestampOrigin
    ensures Session(m, ds, config).state.firstPtsNs == FirstPts(ds)
  {
    if ds != [] {
      var front, last := ds[..|ds| - 1], ds[|ds| - 1];
      SessionClock(m, front, config);
      StillWaiting(m, front, config);
      FrameClock(Session(m, front, config).state, last, config);
    }
  }

  lemma {:induction false} FirstKeyOfPrefix(ds: seq<M.Delivery>, j: nat)
    requires j <= |ds|
    ensures FirstKey(ds[..j]) == if FirstKey(ds) < j then FirstKey(ds) else j
    decreases |ds|
  {
    if j == |ds| {
      assert ds[..j] == ds;
    } else {
      assert ds[..|ds| - 1][..j] == ds[..j];
      FirstKeyOfPrefix(ds[..|ds| - 1], j);
    }
  }

  /** The frames passed over are those before the first key frame. */
  lemma SkippedExactly(m: M.State, ds: seq<M.Delivery>, config: M.Config, k: nat)
    requires config.Usable() && Fresh(m) && k < |ds|
    ensures M.Skipped(Session(m, ds[..k], config).state, ds[k]) <==> k < FirstKey(ds)
  {
    FirstKeyOfPrefix(ds, k);
    FirstKeyMeaning(ds);
    StillWaiting(m, ds[..k], config);
  }

  lemma {:induction false} FirstPtsStays(ds: seq<M.Delivery>, k: nat)
    requires k <= |ds| && FirstPts(ds[..k]) >= 0
    ensures FirstPts(ds) == FirstPts(ds[..k])
    decreases |ds|
  {
    if k == |ds| {
      assert ds[..k] == ds;
    } else {
      assert ds[..|ds| - 1][..k] == ds[..k];
      FirstPtsStays(ds[..|ds| - 1], k);
    }
  }

  lemma FirstPtsAt(ds: seq<M.Delivery>, k: nat)
    requires FirstKey(ds) <= k < |ds| && ds[k].frame.ptsNs >= 0
    ensures FirstPts(ds) == if FirstPts(ds[..k]) >= 0 then FirstPts(ds[..k]) else ds[k].frame.ptsNs
  {
    assert ds[..k + 1][..k] == ds[..k];
    FirstKeyOfPrefix(ds, k + 1);
    FirstPtsStays(ds, k + 1);
  }

  lemma SpanInSession(m: M.State, ds: seq<M.Delivery>, config: M.Config, k: nat)
    requires config.Usable() && Fresh(m) && FirstKey(ds) <= k < |ds|
    ensures M.Span(Session(m, ds[..k], config).state, ds[k].frame) == SpanOf(ds, k)
  {
    SessionClock(m, ds[..k], config);
    if ds[k].frame.ptsNs >= 0 {
      FirstPtsAt(ds, k);
    }
  }

  /** Frame `k` of a session is passed over, or stamped without overflow. */
  ghost predicate StampDefined(m: M.State, ds: seq<M.Delivery>, config: M.Config, k: nat)
    requires config.Usable() && k < |ds|
  {
    var before := Session(m, ds[..k], config).state;
    M.Skipped(before, ds[k]) || !M.Overflows(M.Span(before, ds[k].frame))
  }

  lemma StampDefinedExactly(m: M.State, ds: seq<M.Delivery>, config: M.Config, k: nat)
    requires config.Usable() && Fresh(m) && k < |ds|
    ensures StampDefined(m, ds, config, k) <==> k < FirstKey(ds) || SpanOf(ds, k) <= M.LONGEST_SPAN
  {
    SkippedExactly(m, ds, config, k);
    if k >= FirstKey(ds) {
      SpanInSession(m, ds, config, k);
      M.OverflowsExactly(SpanOf(ds, k));
    }
  }

  /**
   Every frame of a session is stamped without overflow exactly when none lies further
   than the longest span from the first one sent, or lasts longer.
   */
  lemma SessionStampsDefined(m: M.State, ds: seq<M.Delivery>, config: M.Config)
    requires config.Usable() && Fresh(m)
    ensures (forall k :: 0 <= k < |ds| ==> StampDefined(m, ds, config, k))
       <==> (forall k :: FirstKey(ds) <= k < |ds| ==> SpanOf(ds, k) <= M.LONGEST_SPAN)
  {
    forall k | 0 <= k < |ds|
      ensures StampDefined(m, ds, config, k) <==> k < FirstKey(ds) || SpanOf(ds, k) <= M.LONGEST_SPAN
    {
      StampDefinedExactly(m, ds, config, k);
    }
    if forall k :: 0 <= k < |ds| ==> StampDefined(m, ds, config, k) {
      forall k | FirstKey(ds) <= k < |ds| ensures SpanOf(ds, k) <= M.LONGEST_SPAN {
        assert StampDefined(m, ds, config, k);
      }
    }
  }

  /** The timestamp of frame `k`, with `w` for what an overflow would yield. */
  ghost function StampOf(m: M.State, ds: seq<M.Delivery>, config: M.Config, k: nat, w: u32): (timestamp: u32)
    requires config.Usable() && k < |ds|
  {
    M.Stamped(Session(m, ds[..k], config).state, ds[k].(overflowTicks := w)).lastTimestamp
  }

  /** The stamp at the end of a span, with `w` for what an overflow would yield. */
  ghost function StampFor(origin: u32, span: nat, w: u32): (timestamp: u32) {
    if span <= M.LONGEST_SPAN then M.StampAt(origin, span) else M.Wrap32(origin + w)
  }

  lemma StampFrom(m: M.State, d: M.Delivery, span: nat, w: u32)
    requires d.frame.ptsNs >= 0 && span == M.Span(m, d.frame)
    ensures M.Stamped(m, d.(overflowTicks := w)).lastTimestamp == StampFor(m.timestampOrigin, span, w)
  {
    M.OverflowsExactly(span);
  }

  lemma SessionStampIs(m: M.State, ds: seq<M.Delivery>, config: M.Config, k: nat, w: u32)
    requires config.Usable() && Fresh(m) && FirstKey(ds) <= k < |ds| && ds[k].frame.ptsNs >= 0
    ensures StampOf(m, ds, config, k, w) == StampFor(m.timestampOrigin, SpanOf(ds, k), w)
  {
    var before := Session(m, ds[..k], config).state;
    SessionClock(m, ds[..k], config);
    SpanInSession(m, ds, config, k);
    StampFrom(before, ds[k], SpanOf(ds, k), w);
  }

  lemma StampForExactly(origin: u32, span: nat)
    ensures (forall w: u32 :: StampFor(origin, span, w) == M.StampAt(origin, span)) <==> span <= M.LONGEST_SPAN
  {
    if span > M.LONGEST_SPAN {
      assert M.Wrap32(origin + 0) != M.Wrap32(origin + 1);
      assert StampFor(origin, span, 0) != StampFor(origin, span, 1);
    }
  }

  /**
   A frame is stamped with the origin plus the whole ticks since the first frame sent,
   whatever an overflow may yield, exactly when it lies within the longest span.
   */
  lemma SessionStamp(m: M.State, ds: seq<M.Delivery>, config: M.Config, k: nat)
    requires config.Usable() && Fresh(m) && FirstKey(ds) <= k < |ds| && ds[k].frame.ptsNs >= 0
    ensures (forall w: u32 :: StampOf(m, ds, config, k, w) == M.StampAt(m.timestampOrigin, SpanOf(ds, k)))
       <==> SpanOf(ds, k) <= M.LONGEST_SPAN
  {
    var origin, span := m.timestampOrigin, SpanOf(ds, k);
    forall w: u32 ensures StampOf(m, ds, config, k, w) == StampFor(origin, span, w) {
      SessionStampIs(m, ds, config, k, w);
    }
    StampForExactly(origin, span);
  }

  /** One session in which the arithmetic overflows: a frame at 0, and one a nanosecond past the longest span. */
  lemma StampOverflows(m: M.State, config: M.Config, first: M.Delivery, later: M.Delivery)
    requires config.Usable() && Fresh(m)
    requires first.frame.keyFrame && first.frame.ptsNs == 0 && later.frame.ptsNs == 102_481_911_520_609
    ensures StampDefined(m, [first, later], config, 0) && !StampDefined(m, [first, later], config, 1)
  {
    var ds := [first, later];
    FirstKeyMeaning(ds);
    FirstKeyOfPrefix(ds, 1);
    FirstPtsAt(ds, 0);
    assert ds[..0] == [];
    StampDefinedExactly(m, ds, config, 0);
    StampDefinedExactly(m, ds, config, 1);
  }

  /** Two instants, and the first frame's: how far the ticks between them may be off. */
  ghost predicate NoDrift(a: nat, b: nat, ptsA: int, ptsB: int, first: int) {
    && a <= b
    && (ptsA >= first ==> -1_000_000_000 < (b - a) * 1_000_000_000 - (ptsB - ptsA) * 90000 < 1_000_000_000)
    && (ptsA <= first ==> a == 0)
  }

  lemma ClampedTicksDoNotDrift(ptsA: int, ptsB: int, first: int)
    requires ptsA <= ptsB
    ensures NoDrift(M.Ticks(M.Max(0, ptsA - first)), M.Ticks(M.Max(0, ptsB - first)), ptsA, ptsB, first)
  {
    M.TicksDoNotDrift(M.Max(0, ptsA - first), M.Max(0, ptsB - first));
    assert M.Ticks(0) == 0;
  }

  /**
   RTP time does not drift. Of two frames of one session within the longest span, the
   one presented later is stamped no earlier, and the ticks between them are off from the
   true time between them by less than one; frames from before the first are stamped
   with its time.
   */
  lemma SessionDoesNotDrift(m: M.State, ds: seq<M.Delivery>, config: M.Config, i: nat, j: nat, w: u32)
    requires config.Usable() && Fresh(m) && FirstKey(ds) <= i < |ds| && FirstKey(ds) <= j < |ds|
    requires 0 <= ds[i].frame.ptsNs <= ds[j].frame.ptsNs && SpanOf(ds, j) <= M.LONGEST_SPAN
    ensures StampOf(m, ds, config, i, w) == M.StampAt(m.timestampOrigin, SpanOf(ds, i))
    ensures StampOf(m, ds, config, j, w) == M.StampAt(m.timestampOrigin, SpanOf(ds, j))
    ensures NoDrift(M.Ticks(SpanOf(ds, i)), M.Ticks(SpanOf(ds, j)), ds[i].frame.ptsNs, ds[j].frame.ptsNs, FirstPts(ds))
  {
    SessionStampIs(m, ds, config, i, w);
    SessionStampIs(m, ds, config, j, w);
    ClampedTicksDoNotDrift(ds[i].frame.ptsNs, ds[j].frame.ptsNs, FirstPts(ds));
  }
}
