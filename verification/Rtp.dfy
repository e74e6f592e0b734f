/** RTP packets and the packetization of NAL units: one packet each, or FU-A / FU fragments. */
module Rtp {
  import opened Bytes

  datatype Codec = H264 | H265

  datatype RtpPacket = RtpPacket(wire: bytes, marker: bool)

  function MakeRtpPacket(payload: bytes, marker: bool, sequence: u16, timestamp: u32, ssrc: u32): (packet: bytes)
    ensures |packet| == 12 + |payload|
  {
    [0x80, if marker then 0x80 + 96 else 96] + U16(sequence) + U32(timestamp) + U32(ssrc) + payload
  }

  /** The fields a receiver reads (section 5.1 of RFC 3550). */
  datatype Fields = Fields(payload: bytes, marker: bool, sequence: u16, timestamp: u32, ssrc: u32)

  function ParseRtp(packet: bytes): (r: Option<Fields>)
  {
    if |packet| < 12 || packet[0] != 0x80 || packet[1] % 128 != 96 then None
    else Some(Fields(packet[12..], packet[1] >= 128, ReadU16(packet[2..4]),
                     ReadU32(packet[4..8]), ReadU32(packet[8..12])))
  }

  lemma RtpRoundTrip(payload: bytes, marker: bool, sequence: u16, timestamp: u32, ssrc: u32)
    ensures ParseRtp(MakeRtpPacket(payload, marker, sequence, timestamp, ssrc))
         == Some(Fields(payload, marker, sequence, timestamp, ssrc))
  {
    var p := MakeRtpPacket(payload, marker, sequence, timestamp, ssrc);
    assert p[2..4] == U16(sequence);
    assert p[4..8] == U32(timestamp);
    assert p[8..12] == U32(ssrc);
    assert p[12..] == payload;
    U16RoundTrip(sequence);
    U32RoundTrip(timestamp);
    U32RoundTrip(ssrc);
  }

  // ------------------------------------------------------------ fragmenting

  /** Bytes of the NAL header, which travel in the fragment header instead. */
  function HeaderSize(codec: Codec): (n: nat) {
    if codec.H264? then 1 else 2
  }

  function FuSize(codec: Codec): (n: nat) {
    if codec.H264? then 2 else 3
  }

  /** FU indicator and FU header of RFC 6184, payload header and FU header of RFC 7798. */
  function FuHeader(codec: Codec, nal: bytes, first: bool, end: bool): (r: bytes)
    requires |nal| >= HeaderSize(codec)
    ensures |r| == FuSize(codec)
  {
    var flags: int := (if first then 0x80 else 0) + (if end then 0x40 else 0);
    if codec.H264? then [nal[0] / 32 * 32 + 28, nal[0] % 32 + flags]
    else [nal[0] / 128 * 128 + 49 * 2 + nal[0] % 2, nal[1], nal[0] / 2 % 64 + flags]
  }

  function Min(a: nat, b: nat): (m: nat) {
    if a < b then a else b
  }

  function Fragment(codec: Codec, nal: bytes, offset: nat, chunk: nat): (payload: bytes)
    requires HeaderSize(codec) <= offset && offset + chunk <= |nal|
  {
    FuHeader(codec, nal, offset == HeaderSize(codec), offset + chunk == |nal|) + nal[offset..offset + chunk]
  }

  function Fragments(codec: Codec, nal: bytes, offset: nat, limit: nat): (payloads: seq<bytes>)
    requires HeaderSize(codec) <= offset <= |nal| && limit > 0
    decreases |nal| - offset
  {
    if offset == |nal| then []
    else
      var chunk := Min(limit, |nal| - offset);
      [Fragment(codec, nal, offset, chunk)] + Fragments(codec, nal, offset + chunk, limit)
  }

  predicate Fragmented(nal: bytes, mtu: nat) {
    |nal| > mtu - 12
  }

  function NalPayloads(codec: Codec, nal: bytes, mtu: nat): (payloads: seq<bytes>)
    requires mtu > 15
  {
    if nal == [] then []
    else if Fragmented(nal, mtu) then Fragments(codec, nal, HeaderSize(codec), mtu - 12 - FuSize(codec))
    else [nal]
  }

  datatype Send = Send(payload: bytes, marker: bool)

  function Mark(payloads: seq<bytes>, lastNal: bool): (sends: seq<Send>)
    ensures |sends| == |payloads|
  {
    if payloads == [] then []
    else [Send(payloads[0], lastNal && |payloads| == 1)] + Mark(payloads[1..], lastNal)
  }

  /** What is sent for the first `k` NAL units of an access unit. */
  function PlanTo(codec: Codec, nals: seq<bytes>, mtu: nat, k: nat): (sends: seq<Send>)
    requires mtu > 15 && k <= |nals|
  {
    if k == 0 then []
    else PlanTo(codec, nals, mtu, k - 1) + Mark(NalPayloads(codec, nals[k - 1], mtu), k == |nals|)
  }

  function Plan(codec: Codec, nals: seq<bytes>, mtu: nat): (sends: seq<Send>)
    requires mtu > 15
  {
    PlanTo(codec, nals, mtu, |nals|)
  }

  /** A running packet count as the 16-bit sequence number it is sent with. */
  function Wrap16(n: nat): (r: u16) {
    n % 0x1_0000
  }

  lemma WrapNext(n: nat)
    ensures (Wrap16(n) + 1) % 0x1_0000 == Wrap16(n + 1)
  {
  }

  function PacketOf(send: Send, n: nat, timestamp: u32, ssrc: u32): (packet: RtpPacket) {
    RtpPacket(MakeRtpPacket(send.payload, send.marker, Wrap16(n), timestamp, ssrc), send.marker)
  }

  /** The packets of `sends`, numbered from `n` on without wrapping. */
  function Number(sends: seq<Send>, n: nat, timestamp: u32, ssrc: u32): (packets: seq<RtpPacket>)
    ensures |packets| == |sends|
    decreases |sends|
  {
    if sends == [] then []
    else [PacketOf(sends[0], n, timestamp, ssrc)] + Number(sends[1..], n + 1, timestamp, ssrc)
  }

  lemma {:induction false} NumberConcat(a: seq<Send>, b: seq<Send>, n: nat, timestamp: u32, ssrc: u32)
    ensures Number(a + b, n, timestamp, ssrc) == Number(a, n, timestamp, ssrc) + Number(b, n + |a|, timestamp, ssrc)
    decreases |a|
  {
    if a == [] {
      assert a + b == b;
    } else {
      assert (a + b)[1..] == a[1..] + b;
      NumberConcat(a[1..], b, n + 1, timestamp, ssrc);
    }
  }

  lemma {:induction false} NumberAt(sends: seq<Send>, n: nat, timestamp: u32, ssrc: u32, i: nat)
    requires i < |sends|
    ensures Number(sends, n, timestamp, ssrc)[i] == PacketOf(sends[i], n + i, timestamp, ssrc)
    decreases |sends|
  {
    if i > 0 {
      NumberAt(sends[1..], n + 1, timestamp, ssrc, i - 1);
    }
  }

  /** Sequence number, timestamp, source and payload of every packet, as the receiver reads them. */
  lemma NumberedFields(sends: seq<Send>, n: nat, timestamp: u32, ssrc: u32, i: nat)
    requires i < |sends|
    ensures ParseRtp(Number(sends, n, timestamp, ssrc)[i].wire)
         == Some(Fields(sends[i].payload, sends[i].marker, Wrap16(n + i), timestamp, ssrc))
  {
    NumberAt(sends, n, timestamp, ssrc, i);
    RtpRoundTrip(sends[i].payload, sends[i].marker, Wrap16(n + i), timestamp, ssrc);
  }

  /** The bytes of numbered packets, as they go to the wire. */
  function Wires(packets: seq<RtpPacket>): (r: seq<bytes>)
    ensures |r| == |packets|
  {
    if packets == [] then [] else [packets[0].wire] + Wires(packets[1..])
  }

  lemma {:induction false} WiresConcat(a: seq<RtpPacket>, b: seq<RtpPacket>)
    ensures Wires(a + b) == Wires(a) + Wires(b)
  {
    if a == [] {
      assert a + b == b;
    } else {
      assert (a + b)[1..] == a[1..] + b;
      WiresConcat(a[1..], b);
    }
  }

  // ---------------------------------------------------------------- the code

  method NextPacket(payload: bytes, marker: bool, sequence: u16, timestamp: u32, ssrc: u32, ghost n: nat)
    returns (packet: RtpPacket)
    requires sequence == Wrap16(n)
    ensures packet == PacketOf(Send(payload, marker), n, timestamp, ssrc)
  {
    packet := RtpPacket(MakeRtpPacket(payload, marker, sequence, timestamp, ssrc), marker);
  }

  /** The packets still to come from a fragmented NAL. */
  ghost function FragmentPackets(codec: Codec, nal: bytes, offset: nat, limit: nat, lastNal: bool,
                                 n: nat, timestamp: u32, ssrc: u32): (packets: seq<RtpPacket>)
    requires HeaderSize(codec) <= offset <= |nal| && limit > 0
    decreases |nal| - offset
  {
    if offset == |nal| then []
    else
      var chunk := Min(limit, |nal| - offset);
      [PacketOf(Send(Fragment(codec, nal, offset, chunk), offset + chunk == |nal| && lastNal), n, timestamp, ssrc)]
      + FragmentPackets(codec, nal, offset + chunk, limit, lastNal, n + 1, timestamp, ssrc)
  }

  lemma {:induction false} FragmentPacketsAre(codec: Codec, nal: bytes, offset: nat, limit: nat, lastNal: bool,
                                              n: nat, timestamp: u32, ssrc: u32)
    requires HeaderSize(codec) <= offset <= |nal| && limit > 0
    ensures FragmentPackets(codec, nal, offset, limit, lastNal, n, timestamp, ssrc)
         == Number(Mark(Fragments(codec, nal, offset, limit), lastNal), n, timestamp, ssrc)
    decreases |nal| - offset
  {
    if offset < |nal| {
      var chunk := Min(limit, |nal| - offset);
      FragmentPacketsAre(codec, nal, offset + chunk, limit, lastNal, n + 1, timestamp, ssrc);
      var f, rest := Fragments(codec, nal, offset, limit), Fragments(codec, nal, offset + chunk, limit);
      assert f[1..] == rest;
      assert rest == [] <==> offset + chunk == |nal|;
      assert Mark(f, lastNal)[1..] == Mark(rest, lastNal);
    }
  }

  lemma FragmentPacketsStep(packets: seq<RtpPacket>, packet: RtpPacket, codec: Codec, nal: bytes, offset: nat,
                            limit: nat, chunk: nat, lastNal: bool, n: nat, timestamp: u32, ssrc: u32)
    requires HeaderSize(codec) <= offset < |nal| && limit > 0 && chunk == Min(limit, |nal| - offset)
    requires packet == PacketOf(Send(Fragment(codec, nal, offset, chunk), offset + chunk == |nal| && lastNal), n,
                                timestamp, ssrc)
    ensures packets + FragmentPackets(codec, nal, offset, limit, lastNal, n, timestamp, ssrc)
         == packets + [packet] + FragmentPackets(codec, nal, offset + chunk, limit, lastNal, n + 1, timestamp, ssrc)
  {
  }

  method FragmentPacket(codec: Codec, nal: bytes, offset: nat, chunk: nat, first: bool, lastNal: bool, sequence: u16,
                        timestamp: u32, ssrc: u32, ghost k: nat)
    returns (packet: RtpPacket)
    requires HeaderSize(codec) <= offset && offset + chunk <= |nal| && sequence == Wrap16(k)
    requires first <==> offset == HeaderSize(codec)
    ensures packet == PacketOf(Send(Fragment(codec, nal, offset, chunk), offset + chunk == |nal| && lastNal), k,
                               timestamp, ssrc)
  {
    var end := offset + chunk == |nal|;
    var payload := FuHeader(codec, nal, first, end) + nal[offset..offset + chunk];
    packet := NextPacket(payload, end && lastNal, sequence, timestamp, ssrc, k);
  }

  /** One turn of the fragment loop; `k` is the unwrapped count behind `sequence`, `goal` all the packets. */
  method EmitFragment(packets: seq<RtpPacket>, codec: Codec, nal: bytes, offset: nat, limit: nat, first: bool,
                      lastNal: bool, sequence: u16, timestamp: u32, ssrc: u32, ghost k: nat,
                      ghost goal: seq<RtpPacket>)
    returns (packets': seq<RtpPacket>, offset': nat, sequence': u16)
    requires HeaderSize(codec) <= offset < |nal| && limit > 0 && sequence == Wrap16(k)
    requires first <==> offset == HeaderSize(codec)
    requires packets + FragmentPackets(codec, nal, offset, limit, lastNal, k, timestamp, ssrc) == goal
    ensures offset < offset' <= |nal| && |packets'| == |packets| + 1 && sequence' == Wrap16(k + 1)
    ensures packets' + FragmentPackets(codec, nal, offset', limit, lastNal, k + 1, timestamp, ssrc) == goal
  {
    var chunk := Min(limit, |nal| - offset);
    var packet := FragmentPacket(codec, nal, offset, chunk, first, lastNal, sequence, timestamp, ssrc, k);
    FragmentPacketsStep(packets, packet, codec, nal, offset, limit, chunk, lastNal, k, timestamp, ssrc);
    WrapNext(k);
    return packets + [packet], offset + chunk, (sequence + 1) % 0x1_0000;
  }

  /** The fragment loop shared by both codecs; `n` is the unwrapped count behind `sequence`. */
  method FragmentNal(codec: Codec, nal: bytes, lastNal: bool, sequence: u16, timestamp: u32, ssrc: u32, limit: nat,
                     ghost n: nat)
    returns (packets: seq<RtpPacket>, sequence': u16)
    requires |nal| > HeaderSize(codec) && limit > 0 && sequence == Wrap16(n)
    ensures packets == FragmentPackets(codec, nal, HeaderSize(codec), limit, lastNal, n, timestamp, ssrc)
    ensures sequence' == Wrap16(n + |packets|)
  {
    packets, sequence' := [], sequence;
    var offset := HeaderSize(codec);
    var first := true;
    ghost var k, goal := n, FragmentPackets(codec, nal, offset, limit, lastNal, n, timestamp, ssrc);
    while offset < |nal|
      invariant HeaderSize(codec) <= offset <= |nal| && (first <==> offset == HeaderSize(codec))
      invariant k == n + |packets| && sequence' == Wrap16(k)
      invariant packets + FragmentPackets(codec, nal, offset, limit, lastNal, k, timestamp, ssrc) == goal
    {
      packets, offset, sequence' :=
        EmitFragment(packets, codec, nal, offset, limit, first, lastNal, sequence', timestamp, ssrc, k, goal);
      k, first := k + 1, false;
    }
  }

  ghost function NalPackets(codec: Codec, nal: bytes, lastNal: bool, mtu: nat, n: nat, timestamp: u32, ssrc: u32)
    : (packets: seq<RtpPacket>)
    requires mtu > 15
  {
    Number(Mark(NalPayloads(codec, nal, mtu), lastNal), n, timestamp, ssrc)
  }

  lemma OnePacket(codec: Codec, nal: bytes, lastNal: bool, mtu: nat, n: nat, timestamp: u32, ssrc: u32)
    requires mtu > 15 && 0 < |nal| <= mtu - 12
    ensures NalPackets(codec, nal, lastNal, mtu, n, timestamp, ssrc)
         == [PacketOf(Send(nal, lastNal), n, timestamp, ssrc)]
  {
    assert [nal][1..] == [];
    assert Mark([nal], lastNal) == [Send(nal, lastNal)];
  }

  lemma FragmentedPackets(codec: Codec, nal: bytes, lastNal: bool, mtu: nat, n: nat, timestamp: u32, ssrc: u32)
    requires mtu > 15 && |nal| > mtu - 12
    ensures |nal| > HeaderSize(codec) && mtu - 12 - FuSize(codec) > 0
    ensures NalPackets(codec, nal, lastNal, mtu, n, timestamp, ssrc)
         == FragmentPackets(codec, nal, HeaderSize(codec), mtu - 12 - FuSize(codec), lastNal, n, timestamp, ssrc)
  {
    FragmentPacketsAre(codec, nal, HeaderSize(codec), mtu - 12 - FuSize(codec), lastNal, n, timestamp, ssrc);
  }

  /** The packets of one NAL unit. */
  method PacketizeNal(codec: Codec, nal: bytes, lastNal: bool, sequence: u16, timestamp: u32, ssrc: u32, mtu: nat,
                      ghost n: nat)
    returns (packets: seq<RtpPacket>, sequence': u16)
    requires mtu > 15 && sequence == Wrap16(n)
    ensures packets == NalPackets(codec, nal, lastNal, mtu, n, timestamp, ssrc)
    ensures sequence' == Wrap16(n + |packets|)
  {
    if nal == [] {
      return [], sequence;
    }
    var maxPayload := mtu - 12;
    if |nal| <= maxPayload {
      OnePacket(codec, nal, lastNal, mtu, n, timestamp, ssrc);
      var packet := NextPacket(nal, lastNal, sequence, timestamp, ssrc, n);
      WrapNext(n);
      return [packet], (sequence + 1) % 0x1_0000;
    }
    // An H.265 NAL of fewer than three bytes never reaches this point: the payload limit is at least four.
    FragmentedPackets(codec, nal, lastNal, mtu, n, timestamp, ssrc);
    packets, sequence' := FragmentNal(codec, nal, lastNal, sequence, timestamp, ssrc, maxPayload - FuSize(codec), n);
  }

  lemma PlanStep(packets: seq<RtpPacket>, ofNal: seq<RtpPacket>, codec: Codec, nals: seq<bytes>, mtu: nat, k: nat,
                 n: nat, timestamp: u32, ssrc: u32)
    requires mtu > 15 && k < |nals| && packets == Number(PlanTo(codec, nals, mtu, k), n, timestamp, ssrc)
    requires ofNal == NalPackets(codec, nals[k], k + 1 == |nals|, mtu, n + |packets|, timestamp, ssrc)
    ensures packets + ofNal == Number(PlanTo(codec, nals, mtu, k + 1), n, timestamp, ssrc)
  {
    var before, sends := PlanTo(codec, nals, mtu, k), Mark(NalPayloads(codec, nals[k], mtu), k + 1 == |nals|);
    NumberConcat(before, sends, n, timestamp, ssrc);
    assert PlanTo(codec, nals, mtu, k + 1) == before + sends;
  }

  /** One turn of the loop over the NAL units, behind the packets of those before. */
  method PacketizeNext(packets: seq<RtpPacket>, codec: Codec, nals: seq<bytes>, index: nat, sequence: u16,
                       timestamp: u32, ssrc: u32, mtu: nat, ghost n: nat, ghost first: nat)
    returns (packets': seq<RtpPacket>, sequence': u16)
    requires mtu > 15 && index < |nals| && sequence == Wrap16(n) && n == first + |packets|
    requires packets == Number(PlanTo(codec, nals, mtu, index), first, timestamp, ssrc)
    ensures packets' == Number(PlanTo(codec, nals, mtu, index + 1), first, timestamp, ssrc)
    ensures sequence' == Wrap16(first + |packets'|)
  {
    var ofNal;
    ofNal, sequence' := PacketizeNal(codec, nals[index], index + 1 == |nals|, sequence, timestamp, ssrc, mtu, n);
    PlanStep(packets, ofNal, codec, nals, mtu, index, first, timestamp, ssrc);
    packets' := packets + ofNal;
    assert first + |packets'| == n + |ofNal|;
  }

  method PacketizeAccessUnit(codec: Codec, nals: seq<bytes>, sequence: u16, timestamp: u32, ssrc: u32, mtu: nat)
    returns (r: Result<seq<RtpPacket>>, sequence': u16)
    ensures mtu <= 15 ==> r.Error? && sequence' == sequence
    ensures mtu > 15 ==> r == Ok(Number(Plan(codec, nals, mtu), sequence, timestamp, ssrc))
    ensures mtu > 15 ==> sequence' == Wrap16(sequence + |r.value|)
  {
    sequence' := sequence;
    if mtu <= 15 {
      return Error("RTP MTU is too small"), sequence;
    }
    var packets: seq<RtpPacket> := [];
    for index := 0 to |nals|
      invariant packets == Number(PlanTo(codec, nals, mtu, index), sequence, timestamp, ssrc)
      invariant sequence' == Wrap16(sequence + |packets|)
    {
      packets, sequence' := PacketizeNext(packets, codec, nals, index, sequence', timestamp, ssrc, mtu,
                                          sequence + |packets|, sequence);
    }
    r := Ok(packets);
  }

  // ------------------------------------------------------- shape of packets

  lemma {:induction false} FragmentCount(codec: Codec, nal: bytes, offset: nat, limit: nat)
    requires HeaderSize(codec) <= offset < |nal| && limit > 0
    ensures (|Fragments(codec, nal, offset, limit)| - 1) * limit < |nal| - offset
    ensures |nal| - offset <= |Fragments(codec, nal, offset, limit)| * limit
    decreases |nal| - offset
  {
    var chunk := Min(limit, |nal| - offset);
    var rest := Fragments(codec, nal, offset + chunk, limit);
    if offset + chunk < |nal| {
      FragmentCount(codec, nal, offset + chunk, limit);
      assert (|rest| + 1) * limit == |rest| * limit + limit;
    }
  }

  ghost predicate StartBit(codec: Codec, payload: bytes)
    requires |payload| >= FuSize(codec)
  {
    payload[FuSize(codec) - 1] >= 0x80
  }

  ghost predicate EndBit(codec: Codec, payload: bytes)
    requires |payload| >= FuSize(codec)
  {
    payload[FuSize(codec) - 1] / 64 % 2 == 1
  }

  lemma FragmentBits(codec: Codec, nal: bytes, offset: nat, chunk: nat)
    requires HeaderSize(codec) <= offset && offset + chunk <= |nal|
    ensures |Fragment(codec, nal, offset, chunk)| == FuSize(codec) + chunk
    ensures StartBit(codec, Fragment(codec, nal, offset, chunk)) <==> offset == HeaderSize(codec)
    ensures EndBit(codec, Fragment(codec, nal, offset, chunk)) <==> offset + chunk == |nal|
  {
  }

  lemma {:induction false} FragmentsShape(codec: Codec, nal: bytes, offset: nat, limit: nat, i: nat)
    requires HeaderSize(codec) <= offset <= |nal| && limit > 0 && i < |Fragments(codec, nal, offset, limit)|
    ensures
      var f := Fragments(codec, nal, offset, limit);
      && FuSize(codec) < |f[i]| <= FuSize(codec) + limit
      && (StartBit(codec, f[i]) <==> i == 0 && offset == HeaderSize(codec))
      && (EndBit(codec, f[i]) <==> i == |f| - 1)
    decreases |nal| - offset
  {
    var chunk := Min(limit, |nal| - offset);
    if i > 0 {
      FragmentsShape(codec, nal, offset + chunk, limit, i - 1);
    } else {
      FragmentBits(codec, nal, offset, chunk);
      assert Fragments(codec, nal, offset + chunk, limit) == [] <==> offset + chunk == |nal|;
    }
  }

  /**
   A fragmented NAL: at least two fragments, the fewest that hold it, each within
   the MTU, the start bit on the first alone and the end bit on the last alone.
   */
  lemma FragmentedNalShape(codec: Codec, nal: bytes, mtu: nat)
    requires mtu > 15 && Fragmented(nal, mtu)
    ensures |nal| >= 3
    ensures
      var f, room := NalPayloads(codec, nal, mtu), mtu - 12 - FuSize(codec);
      && |f| >= 2
      && (|f| - 1) * room < |nal| - HeaderSize(codec) <= |f| * room
      && forall i :: 0 <= i < |f| ==>
           && FuSize(codec) < |f[i]| <= mtu - 12
           && (StartBit(codec, f[i]) <==> i == 0)
           && (EndBit(codec, f[i]) <==> i == |f| - 1)
  {
    var f, room := NalPayloads(codec, nal, mtu), mtu - 12 - FuSize(codec);
    FragmentCount(codec, nal, HeaderSize(codec), room);
    forall i | 0 <= i < |f|
      ensures FuSize(codec) < |f[i]| <= mtu - 12
           && (StartBit(codec, f[i]) <==> i == 0)
           && (EndBit(codec, f[i]) <==> i == |f| - 1)
    {
      FragmentsShape(codec, nal, HeaderSize(codec), room, i);
    }
  }

  lemma PayloadsFit(codec: Codec, nal: bytes, mtu: nat)
    requires mtu > 15
    ensures nal != [] ==> NalPayloads(codec, nal, mtu) != []
    ensures forall i :: 0 <= i < |NalPayloads(codec, nal, mtu)| ==> |NalPayloads(codec, nal, mtu)[i]| <= mtu - 12
  {
    if Fragmented(nal, mtu) {
      FragmentedNalShape(codec, nal, mtu);
    }
  }

  lemma {:induction false} MarkAt(payloads: seq<bytes>, lastNal: bool, i: nat)
    requires i < |payloads|
    ensures Mark(payloads, lastNal)[i] == Send(payloads[i], lastNal && i == |payloads| - 1)
  {
    if i > 0 {
      MarkAt(payloads[1..], lastNal, i - 1);
    }
  }

  lemma {:induction false} PlanToShape(codec: Codec, nals: seq<bytes>, mtu: nat, k: nat, i: nat)
    requires mtu > 15 && k <= |nals| && i < |PlanTo(codec, nals, mtu, k)|
    ensures |PlanTo(codec, nals, mtu, k)[i].payload| <= mtu - 12
    ensures PlanTo(codec, nals, mtu, k)[i].marker
       <==> k == |nals| && nals[k - 1] != [] && i == |PlanTo(codec, nals, mtu, k)| - 1
    decreases k
  {
    var before := PlanTo(codec, nals, mtu, k - 1);
    var payloads := NalPayloads(codec, nals[k - 1], mtu);
    PayloadsFit(codec, nals[k - 1], mtu);
    if i < |before| {
      PlanToShape(codec, nals, mtu, k - 1, i);
      assert PlanTo(codec, nals, mtu, k)[i] == before[i];
    } else {
      MarkAt(payloads, k == |nals|, i - |before|);
      assert PlanTo(codec, nals, mtu, k)[i] == Mark(payloads, k == |nals|)[i - |before|];
    }
  }

  /** Every packet fits the MTU, and the marker is on the last packet alone, or nowhere when the last NAL is empty. */
  lemma PlanShape(codec: Codec, nals: seq<bytes>, mtu: nat)
    requires mtu > 15
    ensures
      var sends := Plan(codec, nals, mtu);
      && (nals != [] && nals[|nals| - 1] != [] ==> sends != [])
      && forall i :: 0 <= i < |sends| ==>
           && |sends[i].payload| <= mtu - 12
           && (sends[i].marker <==> i == |sends| - 1 && nals[|nals| - 1] != [])
  {
    var sends := Plan(codec, nals, mtu);
    if nals != [] {
      PayloadsFit(codec, nals[|nals| - 1], mtu);
    }
    forall i | 0 <= i < |sends|
      ensures |sends[i].payload| <= mtu - 12
      ensures sends[i].marker <==> i == |sends| - 1 && nals[|nals| - 1] != []
    {
      PlanToShape(codec, nals, mtu, |nals|, i);
    }
  }

  /** One list without a marker: the last NAL is empty, so the only packet is not the last NAL's. */
  lemma EmptyLastNalLosesMarker()
    ensures Plan(H264, [[0x65], []], 1400) == [Send([0x65], false)]
  {
    var nals: seq<bytes> := [[0x65], []];
    assert NalPayloads(H264, nals[0], 1400) == [[0x65]] && NalPayloads(H264, nals[1], 1400) == [];
    var one: seq<bytes> := [[0x65]];
    assert Mark(one, false) == [Send([0x65], false)] + Mark(one[1..], false) == [Send([0x65], false)];
    assert PlanTo(H264, nals, 1400, 1) == [] + Mark(one, false);
  }
}
