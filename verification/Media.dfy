/** The sending half of a session: timestamps, sequence numbers, counters, the key-frame gate, sender reports. */
module Media {
  import opened Bytes
  import opened AccessUnit
  import opened Rtp
  import opened FrameQueue
  import opened Responses
  import P = Parameters

  const TWO32: nat := 0x1_0000_0000
  const RTCP_INTERVAL: nat := 5_000_000_000

  datatype State = State(
    sequence: u16, ssrc: u32, timestampOrigin: u32, firstPtsNs: int, lastTimestamp: u32,
    packetCount: nat, octetCount: int, firstRtpSent: bool, waitingForKeyframe: bool, lastRtcp: int)

  /** The MTU in the range the server accepts, and the interleaved channels bound by SETUP. */
  datatype Config = Config(mtu: nat, rtpChannel: int, rtcpChannel: int) {
    predicate Usable() {
      && 15 < mtu <= 0xffff
      && 0 <= rtpChannel <= 255 && 0 <= rtcpChannel <= 255 && rtpChannel != rtcpChannel
    }
  }

  /**
   A frame taken from the queue, the parameter sets cached for its channel then, what the
   clocks say, and the ticks the machine makes of a product that overflows.
   */
  datatype Delivery = Delivery(frame: Frame, cache: P.ParameterSets, now: int, ntpSeconds: u32, ntpFraction: u32,
                               overflowTicks: u32)

  // ------------------------------------------------------------------- RTP time

  function Ticks(ns: nat): (t: nat) {
    ns * 90000 / 1_000_000_000
  }

  function Wrap32(n: int): (r: u32) {
    n % TWO32
  }

  /** The timestamp of an instant `delta` nanoseconds after the first frame. */
  function StampAt(origin: u32, delta: nat): (timestamp: u32) {
    Wrap32(origin + Ticks(delta))
  }

  function Max(a: int, b: int): (m: int) {
    if a < b then b else a
  }

  /** The stretch of time the ticks of a frame are computed from. */
  function Span(m: State, frame: Frame): (ns: nat) {
    if frame.ptsNs >= 0 then Max(0, frame.ptsNs - if m.firstPtsNs < 0 then frame.ptsNs else m.firstPtsNs)
    else if frame.durationNs > 0 then frame.durationNs else 33333333
  }

  const MAX_INT64: nat := 0x7fff_ffff_ffff_ffff

  /** About 28 hours and a half. */
  const LONGEST_SPAN: nat := 102_481_911_520_608

  /** The product behind the ticks does not fit a signed 64-bit integer. */
  predicate Overflows(span: nat) {
    span * 90000 > MAX_INT64
  }

  lemma OverflowsExactly(span: nat)
    ensures Overflows(span) <==> span > LONGEST_SPAN
  {
  }

  /** Signed overflow has no defined result, so the ticks may then be anything: the input `overflowTicks`. */
  function TicksOf(span: nat, overflowTicks: u32): (t: nat) {
    if Overflows(span) then overflowTicks else Ticks(span)
  }

  /** The state after stamping a frame; its timestamp is `lastTimestamp`. */
  function Stamped(m: State, d: Delivery): (r: State) {
    var ticks := TicksOf(Span(m, d.frame), d.overflowTicks);
    if d.frame.ptsNs >= 0 then
      m.(firstPtsNs := if m.firstPtsNs < 0 then d.frame.ptsNs else m.firstPtsNs,
         lastTimestamp := Wrap32(m.timestampOrigin + ticks))
    else
      var next := Wrap32(m.lastTimestamp + ticks);
      m.(lastTimestamp := if next == 0 then m.timestampOrigin else next)
  }

  /** Ticks are monotone, and between any two instants they are off from true elapsed time by less than one tick. */
  lemma TicksDoNotDrift(a: nat, b: nat)
    requires a <= b
    ensures Ticks(a) <= Ticks(b)
    ensures -1_000_000_000 < (Ticks(b) - Ticks(a)) * 1_000_000_000 - (b - a) * 90000 < 1_000_000_000
  {
    var x, y := a * 90000, b * 90000;
    assert x == 1_000_000_000 * (x / 1_000_000_000) + x % 1_000_000_000;
    assert y == 1_000_000_000 * (y / 1_000_000_000) + y % 1_000_000_000;
  }

  // ------------------------------------------------------------- what is written

  datatype Item = RtpItem(packet: bytes) | RtcpItem(report: bytes)

  function SenderReport(m: State, timestamp: u32, ntpSeconds: u32, ntpFraction: u32): (report: bytes)
    ensures |report| == 28
  {
    [0x80, 200] + (U16(6) + (U32(m.ssrc) + (U32(ntpSeconds) + (U32(ntpFraction) + (U32(timestamp)
    + (U32(Wrap32(m.packetCount)) + U32(Wrap32(m.octetCount))))))))
  }

  function FrameNals(m: State, d: Delivery): (nals: seq<bytes>) {
    (if m.waitingForKeyframe then NonEmpty(P.SetsOf(d.cache, d.frame.codec)) else []) + Split(d.frame.data)
  }

  predicate Skipped(m: State, d: Delivery) {
    m.waitingForKeyframe && !d.frame.keyFrame
  }

  function FramePackets(m: State, d: Delivery, mtu: nat): (packets: seq<RtpPacket>)
    requires mtu > 15
  {
    Number(Plan(d.frame.codec, FrameNals(m, d), mtu), m.sequence, Stamped(m, d).lastTimestamp, m.ssrc)
  }

  /** Payload bytes: what packets hold behind their twelve-byte headers. */
  function PayloadOctets(packets: seq<bytes>): (n: int) {
    if packets == [] then 0 else PayloadOctets(packets[..|packets| - 1]) + |packets[|packets| - 1]| - 12
  }

  lemma OneMorePacket(packets: seq<RtpPacket>, i: nat)
    requires i < |packets|
    ensures Wires(packets[..i + 1]) == Wires(packets[..i]) + [packets[i].wire]
    ensures PayloadOctets(Wires(packets[..i + 1])) == PayloadOctets(Wires(packets[..i])) + |packets[i].wire| - 12
  {
    assert packets[..i + 1] == packets[..i] + [packets[i]];
    WiresConcat(packets[..i], [packets[i]]);
    assert Wires([packets[i]]) == [packets[i].wire];
    var wires := Wires(packets[..i + 1]);
    assert wires[..|wires| - 1] == Wires(packets[..i]);
  }

  function AsItems(packets: seq<RtpPacket>): (items: seq<Item>)
    ensures |items| == |packets|
  {
    if packets == [] then [] else AsItems(packets[..|packets| - 1]) + [RtpItem(packets[|packets| - 1].wire)]
  }

  predicate ReportDue(m: State, now: int) {
    m.lastRtcp == 0 || now - m.lastRtcp >= RTCP_INTERVAL
  }

  /** Stamped, past the gate, and with the sequence number moved over the packets of the frame. */
  function Prepared(m: State, d: Delivery, packets: seq<RtpPacket>): (r: State) {
    Stamped(m, d).(sequence := Wrap16(m.sequence + |packets|), waitingForKeyframe := false)
  }

  /** Counters after the packets of one frame. */
  function Counted(m: State, packets: seq<RtpPacket>): (r: State) {
    m.(packetCount := m.packetCount + |packets|,
       octetCount := m.octetCount + PayloadOctets(Wires(packets)),
       firstRtpSent := m.firstRtpSent || packets != [])
  }

  datatype Sent = Sent(state: State, items: seq<Item>)

  /** The report that may follow a frame's packets. */
  function Reported(m: State, d: Delivery): (r: Sent) {
    if ReportDue(m, d.now) then
      Sent(m.(lastRtcp := d.now), [RtcpItem(SenderReport(m, m.lastTimestamp, d.ntpSeconds, d.ntpFraction))])
    else Sent(m, [])
  }

  function SentPackets(m: State, d: Delivery, packets: seq<RtpPacket>): (r: Sent) {
    var reported := Reported(Counted(Prepared(m, d, packets), packets), d);
    Sent(reported.state, AsItems(packets) + reported.items)
  }

  /** What one call writes and leaves behind when every write succeeds. */
  function SentFrame(m: State, d: Delivery, config: Config): (r: Sent)
    requires config.Usable()
  {
    if Skipped(m, d) then Sent(m, []) else SentPackets(m, d, FramePackets(m, d, config.mtu))
  }

  /** An item as it goes over the connection. */
  function WireOf(item: Item, config: Config): (wire: bytes) {
    var r := match item
      case RtpItem(packet) => Interleaved(config.rtpChannel, packet)
      case RtcpItem(report) => Interleaved(config.rtcpChannel, report);
    if r.Ok? then r.value else []
  }

  function Encode(items: seq<Item>, config: Config): (wires: seq<bytes>)
    ensures |wires| == |items|
  {
    if items == [] then [] else Encode(items[..|items| - 1], config) + [WireOf(items[|items| - 1], config)]
  }

  lemma {:induction false} EncodeConcat(a: seq<Item>, b: seq<Item>, config: Config)
    ensures Encode(a + b, config) == Encode(a, config) + Encode(b, config)
    decreases |b|
  {
    if b == [] {
      assert a + b == a;
    } else {
      assert (a + b)[..|a + b| - 1] == a + b[..|b| - 1];
      EncodeConcat(a, b[..|b| - 1], config);
    }
  }

  lemma EncodeBehind(before: seq<bytes>, a: seq<Item>, b: seq<Item>, config: Config)
    ensures before + Encode(a + b, config) == before + Encode(a, config) + Encode(b, config)
  {
    EncodeConcat(a, b, config);
    Assoc(before, Encode(a, config), Encode(b, config));
  }

  /** The wires of packets alone. */
  function PacketWires(packets: seq<RtpPacket>, config: Config): (wires: seq<bytes>)
    ensures |wires| == |packets|
  {
    if packets == [] then []
    else PacketWires(packets[..|packets| - 1], config) + [WireOf(RtpItem(packets[|packets| - 1].wire), config)]
  }

  lemma {:induction false} PacketWiresAre(packets: seq<RtpPacket>, config: Config)
    ensures PacketWires(packets, config) == Encode(AsItems(packets), config)
  {
    if packets != [] {
      PacketWiresAre(packets[..|packets| - 1], config);
      assert AsItems(packets)[..|packets| - 1] == AsItems(packets[..|packets| - 1]);
    }
  }

  lemma {:induction false} PacketWiresPrefix(packets: seq<RtpPacket>, n: nat, config: Config)
    requires n <= |packets|
    ensures PacketWires(packets[..n], config) <= PacketWires(packets, config)
    decreases |packets|
  {
    if n == |packets| {
      assert packets[..n] == packets;
    } else {
      var front := packets[..|packets| - 1];
      PacketWiresPrefix(front, n, config);
      assert front[..n] == packets[..n];
    }
  }

  lemma GateAndStamp(m: State, d: Delivery)
    ensures Stamped(m.(waitingForKeyframe := false), d) == Stamped(m, d).(waitingForKeyframe := false)
    ensures Stamped(m, d).sequence == m.sequence && Stamped(m, d).ssrc == m.ssrc
  {
  }

  /** In the accepted MTU range no packet is too large to be interleaved. */
  lemma PacketsFit(m: State, d: Delivery, config: Config, i: nat)
    requires config.Usable() && i < |FramePackets(m, d, config.mtu)|
    ensures 12 <= |FramePackets(m, d, config.mtu)[i].wire| <= config.mtu
  {
    var sends := Plan(d.frame.codec, FrameNals(m, d), config.mtu);
    PlanShape(d.frame.codec, FrameNals(m, d), config.mtu);
    NumberAt(sends, m.sequence, Stamped(m, d).lastTimestamp, m.ssrc, i);
  }

  // ---------------------------------------------------------------- the code

  /** The client's connection: `budget` writes succeed, then it fails for good. */
  class Connection {
    var written: seq<bytes>
    var budget: nat

    constructor (budget: nat)
      ensures written == [] && this.budget == budget
    {
      written, this.budget := [], budget;
    }

    method Write(data: bytes) returns (ok: bool)
      modifies this
      ensures ok <==> old(budget) > 0
      ensures written == if ok then old(written) + [data] else old(written)
      ensures budget == if ok then old(budget) - 1 else 0
    {
      if budget == 0 {
        return false;
      }
      budget := budget - 1;
      written := written + [data];
      return true;
    }
  }

  /** The conversion in 64-bit arithmetic: the whole ticks of the span, where they are defined. */
  method TicksInInt64(span: nat, overflowTicks: u32) returns (ticks: nat, defined: bool)
    ensures ticks == TicksOf(span, overflowTicks)
    ensures defined <==> span <= LONGEST_SPAN
    ensures defined ==> ticks * 1_000_000_000 <= span * 90000 < (ticks + 1) * 1_000_000_000
  {
    OverflowsExactly(span);
    var product := span * 90000;
    if product > MAX_INT64 {
      return overflowTicks, false;
    }
    return product / 1_000_000_000, true;
  }

  class ClientMedia {
    var sequence: u16
    const ssrc: u32
    const timestampOrigin: u32
    var firstPtsNs: int
    var lastTimestamp: u32
    var packetCount: nat
    var octetCount: int
    var firstRtpSent: bool
    var waitingForKeyframe: bool
    var lastRtcp: int

    constructor (sequence: u16, ssrc: u32, timestampOrigin: u32)
      ensures Value() == State(sequence, ssrc, timestampOrigin, -1, 0, 0, 0, false, true, 0)
    {
      this.sequence, this.ssrc, this.timestampOrigin := sequence, ssrc, timestampOrigin;
      firstPtsNs, lastTimestamp, packetCount, octetCount, lastRtcp := -1, 0, 0, 0, 0;
      firstRtpSent, waitingForKeyframe := false, true;
    }

    ghost function Value(): (v: State)
      reads this
    {
      State(sequence, ssrc, timestampOrigin, firstPtsNs, lastTimestamp, packetCount, octetCount, firstRtpSent,
            waitingForKeyframe, lastRtcp)
    }

    /** The timestamp of a frame, and whether the arithmetic behind it is defined. */
    method FrameTimestamp(d: Delivery) returns (timestamp: u32, defined: bool)
      modifies this
      ensures Value() == Stamped(old(Value()), d) && timestamp == lastTimestamp
      ensures defined <==> Span(old(Value()), d.frame) <= LONGEST_SPAN
    {
      var ticks;
      if d.frame.ptsNs >= 0 {
        if firstPtsNs < 0 {
          firstPtsNs := d.frame.ptsNs;
        }
        var delta := Max(0, d.frame.ptsNs - firstPtsNs);
        ticks, defined := TicksInInt64(delta, d.overflowTicks);
        lastTimestamp := Wrap32(timestampOrigin + ticks);
      } else {
        var duration := if d.frame.durationNs > 0 then d.frame.durationNs else 33333333;
        ticks, defined := TicksInInt64(duration, d.overflowTicks);
        lastTimestamp := Wrap32(lastTimestamp + ticks);
        if lastTimestamp == 0 {
          lastTimestamp := timestampOrigin;
        }
      }
      timestamp := lastTimestamp;
    }

    method GatherNals(d: Delivery) returns (nals: seq<bytes>)
      modifies this
      ensures nals == FrameNals(old(Value()), d)
      ensures Value() == old(Value()).(waitingForKeyframe := false)
    {
      nals := [];
      if waitingForKeyframe {
        nals := NonEmpty(P.SetsOf(d.cache, d.frame.codec));
        waitingForKeyframe := false;
      }
      var frameNals := SplitAccessUnit(d.frame.data);
      nals := nals + frameNals;
    }

    /** The gate is opened, the NAL units gathered and the frame stamped. */
    method StampFrame(d: Delivery) returns (nals: seq<bytes>, timestamp: u32)
      modifies this
      ensures nals == FrameNals(old(Value()), d) && timestamp == Stamped(old(Value()), d).lastTimestamp
      ensures Value() == Stamped(old(Value()), d).(waitingForKeyframe := false)
    {
      ghost var m := Value();
      nals := GatherNals(d);
      var stamp, _ := FrameTimestamp(d);
      timestamp := stamp;
      GateAndStamp(m, d);
    }

    /** Everything up to the packets. */
    method Prepare(d: Delivery, config: Config) returns (packets: seq<RtpPacket>)
      requires config.Usable() && !Skipped(Value(), d)
      modifies this
      ensures packets == FramePackets(old(Value()), d, config.mtu)
      ensures Value() == Prepared(old(Value()), d, packets)
    {
      GateAndStamp(Value(), d);
      var nals, timestamp := StampFrame(d);
      var packetized, next := PacketizeAccessUnit(d.frame.codec, nals, sequence, timestamp, ssrc, config.mtu);
      packets := packetized.value;
      sequence := next;
    }

    /** The loop that writes a frame's packets; on a failed write the packets before it are counted. */
    method WritePackets(connection: Connection, packets: seq<RtpPacket>, config: Config) returns (ok: bool)
      requires config.Usable() && Sendable(packets)
      modifies this`packetCount, this`octetCount, connection
      ensures
        var n := packetCount - old(packetCount);
        && 0 <= n <= |packets| && (ok <==> n == |packets|)
        && connection.written == old(connection.written) + PacketWires(packets[..n], config)
        && octetCount == old(octetCount) + PayloadOctets(Wires(packets[..n]))
    {
      assert packets[..0] == [];
      for i := 0 to |packets|
        invariant connection.written == old(connection.written) + PacketWires(packets[..i], config)
        invariant packetCount == old(packetCount) + i
        invariant octetCount == old(octetCount) + PayloadOctets(Wires(packets[..i]))
      {
        var wire := Interleaved(config.rtpChannel, packets[i].wire);
        var written := connection.Write(wire.value);
        if !written {
          return false;
        }
        packetCount := packetCount + 1;
        octetCount := octetCount + |packets[i].wire| - 12;
        assert packets[..i + 1][..i] == packets[..i];
        OneMorePacket(packets, i);
      }
      return true;
    }

    method SendPackets(connection: Connection, packets: seq<RtpPacket>, config: Config) returns (ok: bool)
      requires config.Usable() && Sendable(packets)
      modifies this, connection
      ensures ok ==> Value() == Counted(old(Value()), packets)
      ensures ok ==> connection.written == old(connection.written) + Encode(AsItems(packets), config)
      ensures !ok ==> connection.written < old(connection.written) + Encode(AsItems(packets), config)
    {
      ghost var count := packetCount;
      ok := WritePackets(connection, packets, config);
      PacketWiresAre(packets, config);
      ghost var n := packetCount - count;
      PacketWiresPrefix(packets, n, config);
      assert packets[..|packets|] == packets;
      if !ok {
        PrefixBehind(old(connection.written), PacketWires(packets[..n], config), PacketWires(packets, config));
        return false;
      }
      if packets != [] && !firstRtpSent {
        firstRtpSent := true;
      }
    }

    method WriteReport(connection: Connection, d: Delivery, config: Config) returns (ok: bool)
      requires config.Usable()
      modifies this, connection
      ensures
        var r := Reported(old(Value()), d);
        && (ok ==> Value() == r.state)
        && (!ok ==> r.items != [] && Value() == old(Value()))
        && connection.written == old(connection.written) + Encode(if ok then r.items else [], config)
    {
      if lastRtcp == 0 || d.now - lastRtcp >= RTCP_INTERVAL {
        var report := SenderReport(State(sequence, ssrc, timestampOrigin, firstPtsNs, lastTimestamp, packetCount,
                                         octetCount, firstRtpSent, waitingForKeyframe, lastRtcp),
                                   lastTimestamp, d.ntpSeconds, d.ntpFraction);
        var wire := Interleaved(config.rtcpChannel, report);
        ok := connection.Write(wire.value);
        if ok {
          lastRtcp := d.now;
        }
      } else {
        ok := true;
      }
    }

    /**
     One frame. On success the whole of it has been written and the state moved on; on
     failure only a strict prefix has been written, and the session ends.
     */
    method SendFrame(connection: Connection, d: Delivery, config: Config) returns (ok: bool)
      requires config.Usable()
      modifies this, connection
      ensures ok ==> Value() == SentFrame(old(Value()), d, config).state
      ensures ok ==> connection.written == old(connection.written) + Encode(SentFrame(old(Value()), d, config).items, config)
      ensures !ok ==> connection.written < old(connection.written) + Encode(SentFrame(old(Value()), d, config).items, config)
    {
      ghost var m, before := Value(), connection.written;
      if waitingForKeyframe && !d.frame.keyFrame {
        return true;
      }
      var packets := Prepare(d, config);
      PacketsAreSendable(m, d, config);
      ghost var reported := Reported(Counted(Value(), packets), d);
      assert SentFrame(m, d, config).items == AsItems(packets) + reported.items;
      EncodeBehind(before, AsItems(packets), reported.items, config);
      ok := SendPackets(connection, packets, config);
      if ok {
        ok := WriteReport(connection, d, config);
      }
    }
  }

  ghost predicate Sendable(packets: seq<RtpPacket>) {
    forall i :: 0 <= i < |packets| ==> 12 <= |packets[i].wire| <= 0xffff
  }

  lemma PacketsAreSendable(m: State, d: Delivery, config: Config)
    requires config.Usable()
    ensures Sendable(FramePackets(m, d, config.mtu))
  {
    forall i | 0 <= i < |FramePackets(m, d, config.mtu)|
      ensures 12 <= |FramePackets(m, d, config.mtu)[i].wire| <= 0xffff
    {
      PacketsFit(m, d, config, i);
    }
  }

  lemma PrefixBehind<T>(a: seq<T>, b: seq<T>, c: seq<T>)
    requires b < c
    ensures a + b < a + c
  {
  }
}
