/** The sender reports of a session: when one is written, what it says, and that it goes out on the RTCP channel. */
module Reports {
  import opened Bytes
  import opened Rtp
  import opened SessionTheorems
  import M = Media

  /** The sender reports among the items written. */
  function ReportsIn(items: seq<M.Item>): (reports: seq<bytes>) {
    if items == [] then []
    else
      var last := items[|items| - 1];
      ReportsIn(items[..|items| - 1]) + if last.RtcpItem? then [last.report] else []
  }

  lemma ReportsInStep(items: seq<M.Item>, item: M.Item)
    ensures ReportsIn(items + [item]) == ReportsIn(items) + if item.RtcpItem? then [item.report] else []
  {
    assert (items + [item])[..|items|] == items;
  }

  lemma {:induction false} NoReportIn(packets: seq<RtpPacket>)
    ensures ReportsIn(M.AsItems(packets)) == []
  {
    if packets != [] {
      NoReportIn(packets[..|packets| - 1]);
      assert M.AsItems(packets)[..|packets| - 1] == M.AsItems(packets[..|packets| - 1]);
    }
  }

  // ------------------------------------------------------------ frame by frame

  /** What frame `i` of a session writes. */
  ghost function FrameSent(m: M.State, ds: seq<M.Delivery>, config: M.Config, i: nat): (r: M.Sent)
    requires config.Usable() && i < |ds|
  {
    M.SentFrame(Session(m, ds[..i], config).state, ds[i], config)
  }

  ghost predicate HasReport(m: M.State, ds: seq<M.Delivery>, config: M.Config, i: nat)
    requires config.Usable() && i < |ds|
  {
    ReportsIn(FrameSent(m, ds, config, i).items) != []
  }

  lemma NextFrame(m: M.State, ds: seq<M.Delivery>, config: M.Config, i: nat)
    requires config.Usable() && i < |ds|
    ensures Session(m, ds[..i + 1], config).state == FrameSent(m, ds, config, i).state
  {
    assert ds[..i + 1][..i] == ds[..i];
  }

  /** The items end in their one report, which carries this source, this timestamp and this wall clock. */
  ghost predicate OneReport(items: seq<M.Item>, ssrc: u32, timestamp: u32, d: M.Delivery) {
    && items != [] && items[|items| - 1].RtcpItem?
    && ReportsIn(items) == [items[|items| - 1].report]
    && Says(items[|items| - 1].report, ssrc, timestamp, d)
  }

  ghost predicate Says(report: bytes, ssrc: u32, timestamp: u32, d: M.Delivery) {
    && IsReport(report)
    && var r := ReadReport(report);
       r.ssrc == ssrc && r.timestamp == timestamp && r.ntpSeconds == d.ntpSeconds && r.ntpFraction == d.ntpFraction
  }

  predicate Due(lastRtcp: int, now: int) {
    lastRtcp == 0 || now - lastRtcp >= 5_000_000_000
  }

  lemma ReportBehind(items: seq<M.Item>, m: M.State, d: M.Delivery)
    requires ReportsIn(items) == []
    ensures
      var r := M.Reported(m, d);
      if Due(m.lastRtcp, d.now)
      then OneReport(items + r.items, m.ssrc, m.lastTimestamp, d) && r.state.lastRtcp == d.now
      else ReportsIn(items + r.items) == [] && r.state.lastRtcp == m.lastRtcp
  {
    var r := M.Reported(m, d);
    if M.ReportDue(m, d.now) {
      ReportsInStep(items, r.items[0]);
      ReportReadsBack(m, m.lastTimestamp, d.ntpSeconds, d.ntpFraction);
    } else {
      assert items + [] == items;
    }
  }

  lemma CountedKeeps(m: M.State, d: M.Delivery, packets: seq<RtpPacket>)
    ensures
      var counted := M.Counted(M.Prepared(m, d, packets), packets);
      && counted.lastRtcp == m.lastRtcp && counted.ssrc == m.ssrc
      && counted.lastTimestamp == M.Stamped(m, d).lastTimestamp
  {
  }

  /** One frame writes at most one report, behind its packets, and remembers when. */
  lemma FrameReport(m: M.State, d: M.Delivery, config: M.Config)
    requires config.Usable()
    ensures
      var r := M.SentFrame(m, d, config);
      if !M.Skipped(m, d) && Due(m.lastRtcp, d.now)
      then OneReport(r.items, m.ssrc, M.Stamped(m, d).lastTimestamp, d) && r.state.lastRtcp == d.now
      else ReportsIn(r.items) == [] && r.state.lastRtcp == m.lastRtcp
  {
    if !M.Skipped(m, d) {
      var packets := M.FramePackets(m, d, config.mtu);
      NoReportIn(packets);
      CountedKeeps(m, d, packets);
      ReportBehind(M.AsItems(packets), M.Counted(M.Prepared(m, d, packets), packets), d);
    }
  }

  // ------------------------------------------------------------ whole sessions

  ghost predicate NoneBetween(m: M.State, ds: seq<M.Delivery>, config: M.Config, from: int, to: nat)
    requires config.Usable() && -1 <= from && to <= |ds|
  {
    forall l :: from < l < to ==> !HasReport(m, ds, config, l)
  }

  lemma Remembers(m: M.State, ds: seq<M.Delivery>, config: M.Config, i: nat)
    requires config.Usable() && i < |ds|
    ensures Session(m, ds[..i + 1], config).state.lastRtcp
         == if HasReport(m, ds, config, i) then ds[i].now else Session(m, ds[..i], config).state.lastRtcp
  {
    NextFrame(m, ds, config, i);
    FrameReport(Session(m, ds[..i], config).state, ds[i], config);
  }

  /** Frame `j` wrote the last report before frame `n`, or there was none and `j` is -1. */
  ghost predicate LastBefore(m: M.State, ds: seq<M.Delivery>, config: M.Config, j: int, n: nat)
    requires config.Usable() && n <= |ds|
  {
    -1 <= j < n && (j >= 0 ==> HasReport(m, ds, config, j)) && NoneBetween(m, ds, config, j, n)
  }

  lemma LastStays(m: M.State, ds: seq<M.Delivery>, config: M.Config, j: int, n: nat)
    requires config.Usable() && n < |ds| && LastBefore(m, ds, config, j, n) && !HasReport(m, ds, config, n)
    ensures LastBefore(m, ds, config, j, n + 1)
  {
    forall l | j < l < n + 1 ensures !HasReport(m, ds, config, l) {
      if l < n {
        assert NoneBetween(m, ds, config, j, n);
      }
    }
  }

  /** It is the one the session remembers. */
  lemma {:induction false} LastReport(m: M.State, ds: seq<M.Delivery>, config: M.Config, n: nat) returns (j: int)
    requires config.Usable() && n <= |ds|
    ensures LastBefore(m, ds, config, j, n)
    ensures Session(m, ds[..n], config).state.lastRtcp == if j == -1 then m.lastRtcp else ds[j].now
    decreases n
  {
    if n == 0 {
      j := -1;
    } else {
      Remembers(m, ds, config, n - 1);
      if HasReport(m, ds, config, n - 1) {
        j := n - 1;
      } else {
        j := LastReport(m, ds, config, n - 1);
        LastStays(m, ds, config, j, n - 1);
      }
    }
  }

  /** Behind the last report before it, frame `i` comes five seconds later, or that report was written at clock zero. */
  ghost predicate LongSince(m: M.State, ds: seq<M.Delivery>, config: M.Config, i: nat)
    requires config.Usable() && i < |ds|
  {
    forall j :: 0 <= j < i && HasReport(m, ds, config, j) && NoneBetween(m, ds, config, j, i) ==>
      ds[j].now == 0 || ds[i].now - ds[j].now >= 5_000_000_000
  }

  /**
   In every session, a frame writes a report if and only if it is not before the first key
   frame and no report was written in the five seconds up to it.
   */
  lemma ReportsAreDue(m: M.State, ds: seq<M.Delivery>, config: M.Config, i: nat)
    requires config.Usable() && Fresh(m) && m.lastRtcp == 0 && i < |ds|
    ensures HasReport(m, ds, config, i) <==> FirstKey(ds) <= i && LongSince(m, ds, config, i)
  {
    var s := Session(m, ds[..i], config).state;
    SkippedExactly(m, ds, config, i);
    FrameReport(s, ds[i], config);
    var last := LastReport(m, ds, config, i);
    if last == -1 {
      assert forall j :: 0 <= j < i ==> !HasReport(m, ds, config, j);
    } else {
      forall j | 0 <= j < i && HasReport(m, ds, config, j) && NoneBetween(m, ds, config, j, i) ensures j == last {
        assert NoneBetween(m, ds, config, last, i);
      }
    }
  }

  /** A frame's report comes behind its packets and carries the very timestamp they carry, and the wall clock. */
  lemma ReportStamped(m: M.State, ds: seq<M.Delivery>, config: M.Config, i: nat, k: nat)
    requires config.Usable() && i < |ds| && HasReport(m, ds, config, i)
    requires k < |RtpPackets(FrameSent(m, ds, config, i).items)|
    ensures
      var items := FrameSent(m, ds, config, i).items;
      && items[|items| - 1].RtcpItem? && ReportsIn(items) == [items[|items| - 1].report]
      && IsReport(items[|items| - 1].report)
      && var r := ReadReport(items[|items| - 1].report);
         && r.ntpSeconds == ds[i].ntpSeconds && r.ntpFraction == ds[i].ntpFraction
         && StampedWith(RtpPackets(items)[k], r.timestamp)
  {
    var s := Session(m, ds[..i], config).state;
    FrameReport(s, ds[i], config);
    FrameRtpPackets(s, ds[i], config);
    WireAt(M.FramePackets(s, ds[i], config.mtu), k);
    FrameStamped(s, ds[i], config.mtu, k);
  }

  lemma {:induction false} WireAt(packets: seq<RtpPacket>, k: nat)
    requires k < |packets|
    ensures Wires(packets)[k] == packets[k].wire
  {
    if k > 0 {
      WireAt(packets[1..], k - 1);
    }
  }
}
