/**
 A receiver for the packets of module Rtp, written from section 5.8 of RFC 6184
 and section 4.4.3 of RFC 7798, and the theorem that it rebuilds the NAL units.
 */
module Receiver {
  import opened Bytes
  import opened Rtp

  /** Idle, or holding the start of a NAL whose next fragment must be packet number `next`. */
  datatype State = Idle | Assembling(nal: bytes, next: u16)

  datatype Step = Step(state: State, nals: seq<bytes>)

  function NalType(codec: Codec, b: byte): (t: nat) {
    if codec.H264? then b % 32 else b / 2 % 64
  }

  /** The types a payload may carry as it stands: 1..23 in H.264, below 48 in H.265. */
  predicate SingleNalType(codec: Codec, t: nat) {
    if codec.H264? then 1 <= t <= 23 else t < 48
  }

  function FuType(codec: Codec): (t: nat) {
    if codec.H264? then 28 else 49
  }

  /** The NAL header that a fragment header stands for. */
  function RestoredHeader(codec: Codec, payload: bytes): (header: bytes)
    requires |payload| >= FuSize(codec)
    ensures |header| == HeaderSize(codec)
  {
    if codec.H264? then [payload[0] / 32 * 32 + payload[1] % 32]
    else [payload[0] / 128 * 128 + payload[2] % 64 * 2 + payload[0] % 2, payload[1]]
  }

  function ReceiveFragment(codec: Codec, state: State, payload: bytes, sequence: u16): (r: Step)
    requires |payload| >= FuSize(codec)
  {
    var flags := payload[FuSize(codec) - 1];
    var start, end := flags >= 0x80, flags / 64 % 2 == 1;
    var data := payload[FuSize(codec)..];
    if start then
      if end then Step(Idle, [])
      else Step(Assembling(RestoredHeader(codec, payload) + data, Wrap16(sequence + 1)), [])
    else if state.Idle? || state.next != sequence then Step(Idle, [])
    else if end then Step(Idle, [state.nal + data])
    else Step(Assembling(state.nal + data, Wrap16(sequence + 1)), [])
  }

  function ReceivePayload(codec: Codec, state: State, payload: bytes, sequence: u16): (r: Step) {
    if |payload| < HeaderSize(codec) then Step(Idle, [])
    else
      var t := NalType(codec, payload[0]);
      if SingleNalType(codec, t) then Step(Idle, [payload])
      else if t == FuType(codec) && |payload| >= FuSize(codec) then ReceiveFragment(codec, state, payload, sequence)
      else Step(Idle, [])
  }

  /** A packet that is not RTP version 2 with the stream's payload type is ignored. */
  function ReceivePacket(codec: Codec, state: State, packet: bytes): (r: Step) {
    match ParseRtp(packet)
    case None => Step(state, [])
    case Some(fields) => ReceivePayload(codec, state, fields.payload, fields.sequence)
  }

  function Receive(codec: Codec, state: State, packets: seq<bytes>): (r: Step)
    decreases |packets|
  {
    if packets == [] then Step(state, [])
    else
      var first := ReceivePacket(codec, state, packets[0]);
      var rest := Receive(codec, first.state, packets[1..]);
      Step(rest.state, first.nals + rest.nals)
  }

  lemma {:induction false} ReceiveConcat(codec: Codec, state: State, a: seq<bytes>, b: seq<bytes>)
    ensures var first := Receive(codec, state, a);
            var rest := Receive(codec, first.state, b);
            Receive(codec, state, a + b) == Step(rest.state, first.nals + rest.nals)
    decreases |a|
  {
    if a == [] {
      assert a + b == b;
      assert [] + Receive(codec, state, b).nals == Receive(codec, state, b).nals;
    } else {
      assert (a + b)[1..] == a[1..] + b;
      var first := ReceivePacket(codec, state, a[0]);
      ReceiveConcat(codec, first.state, a[1..], b);
      var mid := Receive(codec, first.state, a[1..]);
      Assoc(first.nals, mid.nals, Receive(codec, mid.state, b).nals);
    }
  }

  /** Payloads received in sequence from packet number `n` on. */
  ghost function ReceiveSends(codec: Codec, state: State, sends: seq<Send>, n: nat): (r: Step)
    decreases |sends|
  {
    if sends == [] then Step(state, [])
    else
      var first := ReceivePayload(codec, state, sends[0].payload, Wrap16(n));
      var rest := ReceiveSends(codec, first.state, sends[1..], n + 1);
      Step(rest.state, first.nals + rest.nals)
  }

  lemma {:induction false} ReceiveNumbered(codec: Codec, state: State, sends: seq<Send>, n: nat, timestamp: u32, ssrc: u32)
    ensures Receive(codec, state, Wires(Number(sends, n, timestamp, ssrc))) == ReceiveSends(codec, state, sends, n)
    decreases |sends|
  {
    if sends != [] {
      var packets := Number(sends, n, timestamp, ssrc);
      assert packets[0] == PacketOf(sends[0], n, timestamp, ssrc);
      assert packets[1..] == Number(sends[1..], n + 1, timestamp, ssrc);
      RtpRoundTrip(sends[0].payload, sends[0].marker, Wrap16(n), timestamp, ssrc);
      assert ReceivePacket(codec, state, packets[0].wire) == ReceivePayload(codec, state, sends[0].payload, Wrap16(n));
      assert Wires(packets)[1..] == Wires(packets[1..]);
      ReceiveNumbered(codec, ReceivePayload(codec, state, sends[0].payload, Wrap16(n)).state, sends[1..], n + 1,
                      timestamp, ssrc);
    }
  }

  lemma {:induction false} ReceiveSendsConcat(codec: Codec, state: State, a: seq<Send>, b: seq<Send>, n: nat)
    ensures var first := ReceiveSends(codec, state, a, n);
            var rest := ReceiveSends(codec, first.state, b, n + |a|);
            ReceiveSends(codec, state, a + b, n) == Step(rest.state, first.nals + rest.nals)
    decreases |a|
  {
    if a == [] {
      assert a + b == b;
      assert [] + ReceiveSends(codec, state, b, n).nals == ReceiveSends(codec, state, b, n).nals;
    } else {
      assert (a + b)[1..] == a[1..] + b;
      var first := ReceivePayload(codec, state, a[0].payload, Wrap16(n));
      ReceiveSendsConcat(codec, first.state, a[1..], b, n + 1);
      var mid := ReceiveSends(codec, first.state, a[1..], n + 1);
      Assoc(first.nals, mid.nals, ReceiveSends(codec, mid.state, b, n + |a|).nals);
    }
  }

  lemma ReceiveSendsFirst(codec: Codec, state: State, sends: seq<Send>, n: nat, first: Step, rest: Step)
    requires sends != []
    requires first == ReceivePayload(codec, state, sends[0].payload, Wrap16(n))
    requires rest == ReceiveSends(codec, first.state, sends[1..], n + 1)
    ensures ReceiveSends(codec, state, sends, n) == Step(rest.state, first.nals + rest.nals)
  {
  }

  // -------------------------------------------------------------- fragments

  lemma H264HeaderBits(b: int, flags: int)
    requires 0 <= b < 256 && (flags == 0 || flags == 0x40 || flags == 0x80 || flags == 0xc0)
    ensures (b / 32 * 32 + 28) / 32 * 32 + (b % 32 + flags) % 32 == b
    ensures (b / 32 * 32 + 28) % 32 == 28
  {
  }

  lemma H265HeaderBits(b: int, flags: int)
    requires 0 <= b < 256 && (flags == 0 || flags == 0x40 || flags == 0x80 || flags == 0xc0)
    ensures var h := b / 128 * 128 + 49 * 2 + b % 2;
            && h / 128 * 128 + (b / 2 % 64 + flags) % 64 * 2 + h % 2 == b
            && h / 2 % 64 == 49
  {
    assert b == b / 128 * 128 + b / 2 % 64 * 2 + b % 2;
  }

  /** Every bit of the NAL header travels through the fragment header. */
  lemma HeaderRestored(codec: Codec, nal: bytes, first: bool, end: bool, data: bytes)
    requires |nal| >= HeaderSize(codec)
    ensures RestoredHeader(codec, FuHeader(codec, nal, first, end) + data) == nal[..HeaderSize(codec)]
    ensures NalType(codec, FuHeader(codec, nal, first, end)[0]) == FuType(codec)
  {
    var flags := (if first then 0x80 else 0) + (if end then 0x40 else 0);
    var h := FuHeader(codec, nal, first, end);
    var r := RestoredHeader(codec, h + data);
    if codec.H264? {
      H264HeaderBits(nal[0], flags);
      assert r == [nal[0]];
    } else {
      H265HeaderBits(nal[0], flags);
      assert r == [nal[0], nal[1]];
    }
  }

  /** One fragment of `nal`, received in its turn. */
  lemma ReceiveOneFragment(codec: Codec, state: State, nal: bytes, offset: nat, chunk: nat, n: nat)
    requires HeaderSize(codec) <= offset && 0 < chunk && offset + chunk <= |nal|
    requires offset == HeaderSize(codec) ==> offset + chunk < |nal|
    requires offset > HeaderSize(codec) ==> state == Assembling(nal[..offset], Wrap16(n))
    ensures ReceivePayload(codec, state, Fragment(codec, nal, offset, chunk), Wrap16(n))
         == if offset + chunk == |nal| then Step(Idle, [nal])
            else Step(Assembling(nal[..offset + chunk], Wrap16(n + 1)), [])
  {
    var first, end := offset == HeaderSize(codec), offset + chunk == |nal|;
    var h, data := FuHeader(codec, nal, first, end), nal[offset..offset + chunk];
    var p := Fragment(codec, nal, offset, chunk);
    HeaderRestored(codec, nal, first, end, data);
    FragmentBits(codec, nal, offset, chunk);
    assert p[0] == h[0];
    assert p[FuSize(codec)..] == data;
    assert nal[..offset] + data == nal[..offset + chunk];
    assert end ==> nal[..offset + chunk] == nal;
    assert Wrap16(Wrap16(n) + 1) == Wrap16(n + 1) by { WrapNext(n); }
    assert ReceivePayload(codec, state, p, Wrap16(n)) == ReceiveFragment(codec, state, p, Wrap16(n));
  }

  lemma FirstFragmentSent(codec: Codec, nal: bytes, offset: nat, limit: nat, lastNal: bool)
    requires HeaderSize(codec) <= offset < |nal| && limit > 0
    ensures
      var chunk := Min(limit, |nal| - offset);
      var sends := Mark(Fragments(codec, nal, offset, limit), lastNal);
      && sends != [] && sends[0].payload == Fragment(codec, nal, offset, chunk)
      && sends[1..] == Mark(Fragments(codec, nal, offset + chunk, limit), lastNal)
  {
    var chunk := Min(limit, |nal| - offset);
    var f := Fragments(codec, nal, offset, limit);
    assert f[1..] == Fragments(codec, nal, offset + chunk, limit);
  }

  /** One fragment and then the others. */
  lemma ReceiveFirstFragment(codec: Codec, state: State, nal: bytes, offset: nat, limit: nat, lastNal: bool, n: nat,
                             first: Step, rest: Step)
    requires HeaderSize(codec) <= offset < |nal| && limit > 0
    requires
      var chunk := Min(limit, |nal| - offset);
      && first == ReceivePayload(codec, state, Fragment(codec, nal, offset, chunk), Wrap16(n))
      && rest == ReceiveSends(codec, first.state, Mark(Fragments(codec, nal, offset + chunk, limit), lastNal), n + 1)
    ensures ReceiveSends(codec, state, Mark(Fragments(codec, nal, offset, limit), lastNal), n)
         == Step(rest.state, first.nals + rest.nals)
  {
    FirstFragmentSent(codec, nal, offset, limit, lastNal);
    ReceiveSendsFirst(codec, state, Mark(Fragments(codec, nal, offset, limit), lastNal), n, first, rest);
  }

  lemma {:induction false} ReceiveFragments(codec: Codec, state: State, nal: bytes, offset: nat, limit: nat,
                                            lastNal: bool, n: nat)
    requires HeaderSize(codec) <= offset < |nal| && limit > 0
    requires offset == HeaderSize(codec) ==> |nal| - offset > limit
    requires offset > HeaderSize(codec) ==> state == Assembling(nal[..offset], Wrap16(n))
    ensures ReceiveSends(codec, state, Mark(Fragments(codec, nal, offset, limit), lastNal), n) == Step(Idle, [nal])
    decreases |nal| - offset
  {
    var chunk := Min(limit, |nal| - offset);
    ReceiveOneFragment(codec, state, nal, offset, chunk, n);
    if offset + chunk < |nal| {
      var next := Assembling(nal[..offset + chunk], Wrap16(n + 1));
      ReceiveFragments(codec, next, nal, offset + chunk, limit, lastNal, n + 1);
      ReceiveFirstFragment(codec, state, nal, offset, limit, lastNal, n, Step(next, []), Step(Idle, [nal]));
    } else {
      ReceiveFirstFragment(codec, state, nal, offset, limit, lastNal, n, Step(Idle, [nal]), Step(Idle, []));
    }
  }

  // ------------------------------------------------------------- NAL by NAL

  /** A NAL comes through when it is fragmented, or has a whole header of a type that may stand alone in a packet. */
  ghost predicate Survives(codec: Codec, nal: bytes, mtu: nat) {
    nal == [] || Fragmented(nal, mtu) ||
    (|nal| >= HeaderSize(codec) && SingleNalType(codec, NalType(codec, nal[0])))
  }

  /** What the receiver makes of the packets of one NAL. */
  ghost predicate NalReceived(state: State, r: Step, nal: bytes, survives: bool) {
    && (nal == [] ==> r == Step(state, []) && survives)
    && (nal != [] && survives ==> r == Step(Idle, [nal]))
    && (nal != [] ==> |r.nals| <= 1)
    && (!survives && state.Idle? ==> r.nals == [])
  }

  lemma ReceiveNal(codec: Codec, state: State, nal: bytes, mtu: nat, lastNal: bool, n: nat)
    requires mtu > 15
    ensures NalReceived(state, ReceiveSends(codec, state, Mark(NalPayloads(codec, nal, mtu), lastNal), n), nal,
                        Survives(codec, nal, mtu))
  {
    if nal != [] && Fragmented(nal, mtu) {
      ReceiveFragments(codec, state, nal, HeaderSize(codec), mtu - 12 - FuSize(codec), lastNal, n);
    } else if nal != [] {
      var sends := Mark([nal], lastNal);
      assert sends[1..] == [];
      var first := ReceivePayload(codec, state, nal, Wrap16(n));
      assert ReceiveSends(codec, state, sends, n) == Step(first.state, first.nals + []);
      assert first.nals + [] == first.nals;
    }
  }

  /** How the receiver gets from `mid` to `r` on the packets of one NAL. */
  ghost predicate OneMore(mid: Step, r: Step, nal: bytes, survives: bool) {
    && (nal == [] ==> r == mid && survives)
    && (nal != [] && survives ==> r == Step(Idle, mid.nals + [nal]))
    && (nal != [] ==> |r.nals| <= |mid.nals| + 1)
    && (!survives && mid.state.Idle? ==> r.nals == mid.nals)
  }

  lemma ReceivedIsOneMore(mid: Step, rest: Step, nal: bytes, survives: bool)
    requires NalReceived(mid.state, rest, nal, survives)
    ensures OneMore(mid, Step(rest.state, mid.nals + rest.nals), nal, survives)
  {
    assert mid.nals + [] == mid.nals;
  }

  /** Receiving the plan of `k` NAL units is receiving that of `k - 1` and then one NAL. */
  lemma ReceivePlanStep(codec: Codec, nals: seq<bytes>, mtu: nat, k: nat, n: nat)
    requires mtu > 15 && 0 < k <= |nals|
    ensures OneMore(ReceiveSends(codec, Idle, PlanTo(codec, nals, mtu, k - 1), n),
                    ReceiveSends(codec, Idle, PlanTo(codec, nals, mtu, k), n),
                    nals[k - 1], Survives(codec, nals[k - 1], mtu))
  {
    var before, sends := PlanTo(codec, nals, mtu, k - 1), Mark(NalPayloads(codec, nals[k - 1], mtu), k == |nals|);
    var mid := ReceiveSends(codec, Idle, before, n);
    var rest := ReceiveSends(codec, mid.state, sends, n + |before|);
    ReceiveSendsConcat(codec, Idle, before, sends, n);
    assert PlanTo(codec, nals, mtu, k) == before + sends;
    ReceiveNal(codec, mid.state, nals[k - 1], mtu, k == |nals|, n + |before|);
    ReceivedIsOneMore(mid, rest, nals[k - 1], Survives(codec, nals[k - 1], mtu));
  }

  lemma NonEmptyStep(nals: seq<bytes>, k: nat)
    requires 0 < k <= |nals|
    ensures NonEmpty(nals[..k]) == NonEmpty(nals[..k - 1]) + if nals[k - 1] == [] then [] else [nals[k - 1]]
  {
    assert nals[..k] == nals[..k - 1] + [nals[k - 1]];
    NonEmptyConcat(nals[..k - 1], [nals[k - 1]]);
    assert NonEmpty([nals[k - 1]]) == if nals[k - 1] == [] then [] else [nals[k - 1]];
  }

  ghost predicate AllSurvive(codec: Codec, nals: seq<bytes>, mtu: nat) {
    forall i :: 0 <= i < |nals| ==> Survives(codec, nals[i], mtu)
  }

  lemma AllSurviveStep(codec: Codec, nals: seq<bytes>, mtu: nat, k: nat)
    requires 0 < k <= |nals|
    ensures AllSurvive(codec, nals[..k], mtu)
       <==> AllSurvive(codec, nals[..k - 1], mtu) && Survives(codec, nals[k - 1], mtu)
  {
    assert nals[..k] == nals[..k - 1] + [nals[k - 1]];
  }

  /** `r` is what the receiver should make of `sent`: all of it when `ok`, and fewer NALs than sent otherwise. */
  ghost predicate Rebuilds(r: Step, sent: seq<bytes>, ok: bool) {
    && |r.nals| <= |sent|
    && (ok ==> r == Step(Idle, sent))
    && (!ok ==> |r.nals| < |sent|)
  }

  lemma RebuildOneMore(mid: Step, r: Step, sent: seq<bytes>, nal: bytes, ok: bool, survives: bool)
    requires Rebuilds(mid, sent, ok) && OneMore(mid, r, nal, survives)
    ensures Rebuilds(r, sent + if nal == [] then [] else [nal], ok && survives)
  {
    assert sent + [] == sent;
  }

  lemma {:induction false} ReceivePlan(codec: Codec, nals: seq<bytes>, mtu: nat, k: nat, n: nat)
    requires mtu > 15 && k <= |nals|
    ensures Rebuilds(ReceiveSends(codec, Idle, PlanTo(codec, nals, mtu, k), n), NonEmpty(nals[..k]),
                     AllSurvive(codec, nals[..k], mtu))
    decreases k
  {
    if k > 0 {
      ReceivePlan(codec, nals, mtu, k - 1, n);
      ReceivePlanStep(codec, nals, mtu, k, n);
      NonEmptyStep(nals, k);
      AllSurviveStep(codec, nals, mtu, k);
      RebuildOneMore(ReceiveSends(codec, Idle, PlanTo(codec, nals, mtu, k - 1), n),
                     ReceiveSends(codec, Idle, PlanTo(codec, nals, mtu, k), n), NonEmpty(nals[..k - 1]),
                     nals[k - 1], AllSurvive(codec, nals[..k - 1], mtu), Survives(codec, nals[k - 1], mtu));
    }
  }

  /** From whatever state, the receiver never makes more NAL units out of a plan than went in. */
  lemma ReceiveNalBound(codec: Codec, state: State, nal: bytes, mtu: nat, lastNal: bool, n: nat)
    requires mtu > 15
    ensures |ReceiveSends(codec, state, Mark(NalPayloads(codec, nal, mtu), lastNal), n).nals|
         <= if nal == [] then 0 else 1
  {
    ReceiveNal(codec, state, nal, mtu, lastNal, n);
  }

  lemma {:induction false} ReceiveBound(codec: Codec, state: State, nals: seq<bytes>, mtu: nat, k: nat, n: nat)
    requires mtu > 15 && k <= |nals|
    ensures |ReceiveSends(codec, state, PlanTo(codec, nals, mtu, k), n).nals| <= |NonEmpty(nals[..k])|
    decreases k
  {
    if k > 0 {
      var before, sends := PlanTo(codec, nals, mtu, k - 1), Mark(NalPayloads(codec, nals[k - 1], mtu), k == |nals|);
      ReceiveBound(codec, state, nals, mtu, k - 1, n);
      ReceiveSendsConcat(codec, state, before, sends, n);
      var mid := ReceiveSends(codec, state, before, n);
      ReceiveNalBound(codec, mid.state, nals[k - 1], mtu, k == |nals|, n + |before|);
      NonEmptyStep(nals, k);
    }
  }

  /** The packets of an access unit, numbered from `n`, as the receiver takes them. */
  lemma PacketizeRebuilds(codec: Codec, state: State, nals: seq<bytes>, mtu: nat, n: nat, timestamp: u32, ssrc: u32)
    requires mtu > 15
    ensures
      var r := Receive(codec, state, Wires(Number(Plan(codec, nals, mtu), n, timestamp, ssrc)));
      && |r.nals| <= |NonEmpty(nals)|
      && (state.Idle? ==> Rebuilds(r, NonEmpty(nals), AllSurvive(codec, nals, mtu)))
  {
    ReceiveNumbered(codec, state, Plan(codec, nals, mtu), n, timestamp, ssrc);
    ReceiveBound(codec, state, nals, mtu, |nals|, n);
    ReceivePlan(codec, nals, mtu, |nals|, n);
    assert nals[..|nals|] == nals;
  }

  /**
   Packetizing loses nothing that can be told apart: the receiver rebuilds exactly
   the non-empty NAL units, in order and bit for bit, if and only if every NAL
   small enough for one packet has a type that may stand alone.
   */
  lemma PacketizeRoundTrip(codec: Codec, nals: seq<bytes>, mtu: nat, n: nat, timestamp: u32, ssrc: u32)
    requires mtu > 15
    ensures
      var r := Receive(codec, Idle, Wires(Number(Plan(codec, nals, mtu), n, timestamp, ssrc)));
      && (r.nals == NonEmpty(nals) <==> AllSurvive(codec, nals, mtu))
      && (r.nals == NonEmpty(nals) ==> r.state == Idle)
  {
    PacketizeRebuilds(codec, Idle, nals, mtu, n, timestamp, ssrc);
  }

  /**
   The inputs that fail, one NAL at a time: an H.264 NAL small enough for one packet and of
   type 0 or 24 to 31 is taken for something else and never rebuilt.
   */
  lemma ReservedTypeIsLost(nal: bytes, mtu: nat, n: nat, timestamp: u32, ssrc: u32)
    requires mtu > 15 && 0 < |nal| <= mtu - 12 && (nal[0] % 32 == 0 || nal[0] % 32 >= 24)
    ensures Receive(H264, Idle, Wires(Number(Plan(H264, [nal], mtu), n, timestamp, ssrc))).nals != [nal]
  {
    NonEmptyIdentity([nal]);
    assert !Survives(H264, [nal][0], mtu);
    PacketizeRoundTrip(H264, [nal], mtu, n, timestamp, ssrc);
  }

  /** One of them: a two-byte NAL of type 24, an aggregation packet to its receiver. */
  lemma AggregateIsLost()
    ensures Receive(H264, Idle, Wires(Number(Plan(H264, [[0x78, 1]], 1400), 0, 0, 0))).nals != [[0x78, 1]]
  {
    ReservedTypeIsLost([0x78, 1], 1400, 0, 0, 0);
  }
}
