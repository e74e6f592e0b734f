/**
 Fan-out of channel frames to client queues, as a step machine: one producer per
 channel, one session per client, interleaved in every possible way.
 */
module FanOut {
  import opened Rtp
  import opened FrameQueue

  /**
   A client as the producers see it; `channel` is -1 until play starts and never changes
   afterwards, `listed` is false once the server has forgotten it.
   */
  datatype Client = Client(queue: Queue, channel: int, playing: bool, connected: bool, listed: bool)

  /**
   Where the producer of a channel stands in its frame callback: idle; with an accepted
   frame; walking the client list under its lock, with `next` the client looked at next and
   `todo` those picked so far; or handing the frame to the picked clients one by one.
   */
  datatype Producer =
    | Resting
    | Accepted(frame: Frame)
    | Collecting(frame: Frame, next: nat, todo: seq<nat>)
    | Delivering(frame: Frame, todo: seq<nat>)
    | ReadDrops(frame: Frame, todo: seq<nat>, client: nat, before: nat)
    | PushedFrame(frame: Frame, todo: seq<nat>, client: nat, before: nat)
    | ReadAgain(frame: Frame, todo: seq<nat>, client: nat, before: nat, after: nat)

  /** `producers[i]` serves channel i, registered with `codecs[i]`; `queueDrops` is the server-wide drop counter. */
  datatype Server = Server(limits: Limits, codecs: seq<Codec>, clients: seq<Client>, producers: seq<Producer>,
                           queueDrops: int)

  datatype Action =
    | Connect
    | BindChannel(client: nat, channel: nat)
    | StartPlaying(client: nat)
    | PopFrame(client: nat)
    | Disconnect(client: nat)
    | StopPlaying(client: nat)
    | CloseQueue(client: nat)
    | Forget(client: nat)
    | Begin(channel: nat, frame: Frame)
    | LockClients(channel: nat)
    | Visit(channel: nat, client: nat)
    | Deliver(channel: nat)
    | ReadBefore(channel: nat)
    | PushFrame(channel: nat, client: nat, frame: Frame)
    | ReadAfter(channel: nat)
    | AddDrops(channel: nat)
    | Finish(channel: nat)

  predicate Eligible(c: Client, channel: nat) {
    c.listed && c.connected && c.playing && c.channel == channel
  }

  /** The producer has a list of picked clients. */
  predicate Picks(p: Producer) {
    !p.Resting? && !p.Accepted?
  }

  predicate OfClient(s: Server, client: nat) {
    client < |s.clients|
  }

  predicate OfProducer(s: Server, channel: nat) {
    channel < |s.producers|
  }

  predicate Holds(p: Producer, client: nat) {
    Picks(p) && (client in p.todo || ((p.ReadDrops? || p.PushedFrame? || p.ReadAgain?) && p.client == client))
  }

  /** No producer is about to deliver to the client. */
  ghost predicate Unheld(s: Server, client: nat) {
    forall ch :: 0 <= ch < |s.producers| ==> !Holds(s.producers[ch], client)
  }

  /** No producer walks the client list. */
  ghost predicate Unlocked(s: Server) {
    forall ch :: 0 <= ch < |s.producers| ==> !s.producers[ch].Collecting?
  }

  ghost predicate InStep(s: Server, e: Action)
    requires Indexed(s, e)
  {
    match e
    case Connect => Unlocked(s)
    case BindChannel(c, _) => s.clients[c].channel == -1
    case StartPlaying(c) => s.clients[c].channel >= 0
    case PopFrame(c) => true
    case Disconnect(c) => true
    case StopPlaying(c) => true
    case CloseQueue(c) => true
    case Forget(c) => s.clients[c].queue.closed && Unheld(s, c)
    case Begin(ch, frame) => s.producers[ch].Resting? && frame.channelId == ch && frame.data != []
                             && ch < |s.codecs| && frame.codec == s.codecs[ch]
    case LockClients(ch) => s.producers[ch].Accepted? && Unlocked(s)
    case Visit(ch, c) => s.producers[ch].Collecting? && s.producers[ch].next == c
    case Deliver(ch) => s.producers[ch].Collecting? && s.producers[ch].next == |s.clients|
    case ReadBefore(ch) => s.producers[ch].Delivering? && s.producers[ch].todo != []
                           && s.producers[ch].todo[0] < |s.clients|
    case PushFrame(ch, c, frame) => s.producers[ch].ReadDrops? && s.producers[ch].client == c
                                    && s.producers[ch].frame == frame
    case ReadAfter(ch) => s.producers[ch].PushedFrame? && s.producers[ch].client < |s.clients|
    case AddDrops(ch) => s.producers[ch].ReadAgain?
    case Finish(ch) => s.producers[ch].Delivering? && s.producers[ch].todo == []
  }

  predicate Indexed(s: Server, e: Action) {
    match e
    case Connect => true
    case BindChannel(c, ch) => OfClient(s, c) && OfProducer(s, ch)
    case StartPlaying(c) => OfClient(s, c)
    case PopFrame(c) => OfClient(s, c)
    case Disconnect(c) => OfClient(s, c)
    case StopPlaying(c) => OfClient(s, c)
    case CloseQueue(c) => OfClient(s, c)
    case Forget(c) => OfClient(s, c)
    case Begin(ch, _) => OfProducer(s, ch)
    case LockClients(ch) => OfProducer(s, ch)
    case Visit(ch, c) => OfProducer(s, ch) && OfClient(s, c)
    case Deliver(ch) => OfProducer(s, ch)
    case ReadBefore(ch) => OfProducer(s, ch)
    case PushFrame(ch, c, _) => OfProducer(s, ch) && OfClient(s, c)
    case ReadAfter(ch) => OfProducer(s, ch)
    case AddDrops(ch) => OfProducer(s, ch)
    case Finish(ch) => OfProducer(s, ch)
  }

  ghost predicate Enabled(s: Server, e: Action) {
    Indexed(s, e) && InStep(s, e)
  }

  function WithClient(s: Server, c: nat, client: Client): (r: Server)
    requires OfClient(s, c)
  {
    s.(clients := s.clients[c := client])
  }

  function WithProducer(s: Server, ch: nat, p: Producer): (r: Server)
    requires OfProducer(s, ch)
  {
    s.(producers := s.producers[ch := p])
  }

  ghost function Apply(s: Server, e: Action): (r: Server)
    requires Enabled(s, e)
  {
    match e
    case Connect => s.(clients := s.clients + [Client(EmptyQueue(s.limits), -1, false, true, true)])
    case BindChannel(c, ch) => WithClient(s, c, s.clients[c].(channel := ch))
    case StartPlaying(c) => WithClient(s, c, s.clients[c].(playing := true))
    case PopFrame(c) => WithClient(s, c, s.clients[c].(queue := Popped(s.clients[c].queue)))
    case Disconnect(c) => WithClient(s, c, s.clients[c].(connected := false))
    case StopPlaying(c) => WithClient(s, c, s.clients[c].(playing := false))
    case CloseQueue(c) => WithClient(s, c, s.clients[c].(queue := ClosedQueue(s.clients[c].queue)))
    case Forget(c) => WithClient(s, c, s.clients[c].(listed := false))
    case Begin(ch, frame) => WithProducer(s, ch, Accepted(frame))
    case LockClients(ch) => WithProducer(s, ch, Collecting(s.producers[ch].frame, 0, []))
    case Visit(ch, c) =>
      var p := s.producers[ch];
      WithProducer(s, ch, Collecting(p.frame, c + 1, p.todo + if Eligible(s.clients[c], ch) then [c] else []))
    case Deliver(ch) => WithProducer(s, ch, Delivering(s.producers[ch].frame, s.producers[ch].todo))
    case ReadBefore(ch) =>
      var p := s.producers[ch];
      WithProducer(s, ch, ReadDrops(p.frame, p.todo[1..], p.todo[0], s.clients[p.todo[0]].queue.drops))
    case PushFrame(ch, c, frame) =>
      var p := s.producers[ch];
      WithProducer(WithClient(s, c, s.clients[c].(queue := Pushed(s.clients[c].queue, frame))), ch,
                   PushedFrame(frame, p.todo, c, p.before))
    case ReadAfter(ch) =>
      var p := s.producers[ch];
      WithProducer(s, ch, ReadAgain(p.frame, p.todo, p.client, p.before, s.clients[p.client].queue.drops))
    case AddDrops(ch) =>
      var p := s.producers[ch];
      WithProducer(s.(queueDrops := if p.after > p.before then s.queueDrops + p.after - p.before else s.queueDrops), ch,
                   Delivering(p.frame, p.todo))
    case Finish(ch) => WithProducer(s, ch, Resting)
  }

  // -------------------------------------------------------------- the invariant

  ghost predicate ClientOk(c: Client, limits: Limits) {
    && c.queue.limits == limits
    && (c.playing ==> c.channel >= 0)
    && (c.channel == -1 ==> c.queue.frames == [])
    && (forall i :: 0 <= i < |c.queue.frames| ==> c.queue.frames[i].channelId == c.channel)
    && (c.queue.closed ==> c.queue.frames == [])
  }

  ghost predicate OnChannel(s: Server, client: nat, ch: nat) {
    client < |s.clients| && s.clients[client].channel == ch
  }

  ghost predicate ProducerOk(s: Server, p: Producer, ch: nat) {
    p.Resting? ||
    (&& p.frame.channelId == ch && ch < |s.codecs| && p.frame.codec == s.codecs[ch] && p.frame.data != []
     && (Picks(p) ==> forall i :: 0 <= i < |p.todo| ==> OnChannel(s, p.todo[i], ch))
     && (p.ReadDrops? ==> OnChannel(s, p.client, ch) && s.clients[p.client].queue.drops == p.before)
     && (p.PushedFrame? ==> OnChannel(s, p.client, ch) && s.clients[p.client].queue.drops >= p.before)
     && (p.ReadAgain? ==> OnChannel(s, p.client, ch) && s.clients[p.client].queue.drops == p.after >= p.before))
  }

  ghost predicate AllOk(s: Server) {
    && s.limits.Usable()
    && (forall c :: 0 <= c < |s.clients| ==> ClientOk(s.clients[c], s.limits))
    && (forall ch :: 0 <= ch < |s.producers| ==> ProducerOk(s, s.producers[ch], ch))
  }

  /** Drops a producer has caused and not yet added to the server's counter. */
  ghost function InFlight(clients: seq<Client>, p: Producer): (n: int) {
    if (p.PushedFrame? || p.ReadAgain?) && p.client < |clients| then clients[p.client].queue.drops - p.before else 0
  }

  ghost function SumInFlight(clients: seq<Client>, producers: seq<Producer>): (n: int) {
    if producers == [] then 0 else InFlight(clients, producers[0]) + SumInFlight(clients, producers[1..])
  }

  ghost function SumDrops(clients: seq<Client>): (n: int) {
    if clients == [] then 0 else clients[0].queue.drops + SumDrops(clients[1..])
  }

  ghost predicate Balanced(s: Server) {
    s.queueDrops == SumDrops(s.clients) - SumInFlight(s.clients, s.producers)
  }

  lemma {:induction false} SumDropsUpdate(clients: seq<Client>, c: nat, client: Client)
    requires c < |clients|
    ensures SumDrops(clients[c := client]) == SumDrops(clients) - clients[c].queue.drops + client.queue.drops
  {
    if c > 0 {
      assert clients[c := client][1..] == clients[1..][c - 1 := client];
      SumDropsUpdate(clients[1..], c - 1, client);
    } else {
      assert clients[c := client][1..] == clients[1..];
    }
  }

  lemma {:induction false} SumDropsAppend(clients: seq<Client>, client: Client)
    ensures SumDrops(clients + [client]) == SumDrops(clients) + client.queue.drops
  {
    if clients != [] {
      assert (clients + [client])[1..] == clients[1..] + [client];
      SumDropsAppend(clients[1..], client);
    } else {
      assert clients + [client] == [client];
    }
  }

  lemma {:induction false} SumInFlightUpdate(clients: seq<Client>, producers: seq<Producer>, ch: nat, p: Producer)
    requires ch < |producers|
    ensures SumInFlight(clients, producers[ch := p])
         == SumInFlight(clients, producers) - InFlight(clients, producers[ch]) + InFlight(clients, p)
    decreases |producers|
  {
    if ch > 0 {
      assert producers[ch := p][1..] == producers[1..][ch - 1 := p];
      SumInFlightUpdate(clients, producers[1..], ch - 1, p);
    } else {
      assert producers[ch := p][1..] == producers[1..];
    }
  }

  lemma {:induction false} SumInFlightSame(clients: seq<Client>, clients': seq<Client>, producers: seq<Producer>)
    requires forall i :: 0 <= i < |producers| ==> InFlight(clients, producers[i]) == InFlight(clients', producers[i])
    ensures SumInFlight(clients, producers) == SumInFlight(clients', producers)
    decreases |producers|
  {
    if producers != [] {
      SumInFlightSame(clients, clients', producers[1..]);
    }
  }

  // ---------------------------------------------------------------- each step

  ghost predicate Inv(s: Server) {
    AllOk(s) && Balanced(s)
  }

  /** A change of one client that keeps its drops and, once set, its channel. */
  lemma ClientStep(s: Server, c: nat, x: Client)
    requires Inv(s) && OfClient(s, c) && ClientOk(x, s.limits)
    requires x.queue.drops == s.clients[c].queue.drops
    requires s.clients[c].channel == -1 || x.channel == s.clients[c].channel
    ensures Inv(WithClient(s, c, x))
  {
    var s' := WithClient(s, c, x);
    SumDropsUpdate(s.clients, c, x);
    forall ch | 0 <= ch < |s.producers|
      ensures ProducerOk(s', s.producers[ch], ch)
      ensures InFlight(s.clients, s.producers[ch]) == InFlight(s'.clients, s.producers[ch])
    {
      var p := s.producers[ch];
      assert ProducerOk(s, p, ch);
      if Picks(p) {
        forall i | 0 <= i < |p.todo| ensures OnChannel(s', p.todo[i], ch) {
          assert OnChannel(s, p.todo[i], ch);
        }
      }
    }
    SumInFlightSame(s.clients, s'.clients, s.producers);
  }

  /** A change of one producer, with the counter taking over what it no longer has in flight. */
  lemma ProducerStep(s: Server, ch: nat, p: Producer, queueDrops: int)
    requires Inv(s) && OfProducer(s, ch) && ProducerOk(s, p, ch)
    requires queueDrops == s.queueDrops + InFlight(s.clients, s.producers[ch]) - InFlight(s.clients, p)
    ensures Inv(WithProducer(s.(queueDrops := queueDrops), ch, p))
  {
    var s' := WithProducer(s.(queueDrops := queueDrops), ch, p);
    SumInFlightUpdate(s.clients, s.producers, ch, p);
    forall i | 0 <= i < |s'.producers| ensures ProducerOk(s', s'.producers[i], i) {
      assert ProducerOk(s, s.producers[i], i);
      assert ProducerOk(s, s'.producers[i], i);
    }
  }

  lemma {:induction false} EvictIsSuffix(frames: seq<Frame>, x: Frame, limits: Limits)
    ensures Evict(frames, x, limits) == frames[|frames| - |Evict(frames, x, limits)|..]
  {
    if frames != [] && (|frames| >= limits.frames || Size(frames) + |x.data| > limits.bytes) {
      EvictIsSuffix(frames[1..], x, limits);
    }
  }

  lemma PushKeepsClient(c: Client, x: Frame, limits: Limits)
    requires ClientOk(c, limits) && x.channelId == c.channel >= 0
    ensures ClientOk(c.(queue := Pushed(c.queue, x)), limits)
    ensures Pushed(c.queue, x).drops >= c.queue.drops
  {
    EvictIsSuffix(c.queue.frames, x, c.queue.limits);
  }

  lemma OthersUntouched(s: Server, ch: nat, c: nat, x: Client, i: nat)
    requires Inv(s) && OnChannel(s, c, ch) && x.channel == ch && i < |s.producers| && i != ch
    ensures ProducerOk(WithClient(s, c, x), s.producers[i], i)
    ensures InFlight(s.clients, s.producers[i]) == InFlight(s.clients[c := x], s.producers[i])
  {
    var s', p := WithClient(s, c, x), s.producers[i];
    assert ProducerOk(s, p, i);
    if Picks(p) {
      forall k | 0 <= k < |p.todo| ensures OnChannel(s', p.todo[k], i) {
        assert OnChannel(s, p.todo[k], i);
      }
    }
  }

  lemma PushStep(s: Server, ch: nat)
    requires Inv(s) && OfProducer(s, ch) && s.producers[ch].ReadDrops?
    ensures OfClient(s, s.producers[ch].client)
    ensures Inv(Apply(s, PushFrame(ch, s.producers[ch].client, s.producers[ch].frame)))
  {
    var p := s.producers[ch];
    assert ProducerOk(s, p, ch);
    var c := p.client;
    var x := s.clients[c].(queue := Pushed(s.clients[c].queue, p.frame));
    var p' := PushedFrame(p.frame, p.todo, c, p.before);
    PushKeepsClient(s.clients[c], p.frame, s.limits);
    var clients := s.clients[c := x];
    var s' := Apply(s, PushFrame(ch, c, p.frame));
    forall i | 0 <= i < |s.producers| ensures ProducerOk(s', s'.producers[i], i) {
      if i == ch {
        forall k | 0 <= k < |p.todo| ensures OnChannel(s', p.todo[k], ch) {
          assert OnChannel(s, p.todo[k], ch);
        }
      } else {
        OthersUntouched(s, ch, c, x, i);
        assert ProducerOk(WithClient(s, c, x), s.producers[i], i);
      }
    }
    PushBalances(s, ch, c, x, p');
  }

  lemma PushBalances(s: Server, ch: nat, c: nat, x: Client, p': Producer)
    requires Inv(s) && OfProducer(s, ch) && s.producers[ch].ReadDrops? && OnChannel(s, c, ch) && x.channel == ch
    requires p'.PushedFrame? && p'.client == c && p'.before == s.clients[c].queue.drops
    ensures SumDrops(s.clients[c := x]) - SumInFlight(s.clients[c := x], s.producers[ch := p'])
         == SumDrops(s.clients) - SumInFlight(s.clients, s.producers)
  {
    var clients, calm := s.clients[c := x], s.producers[ch := Resting];
    SumDropsUpdate(s.clients, c, x);
    SumInFlightUpdate(s.clients, s.producers, ch, Resting);
    forall i | 0 <= i < |calm| ensures InFlight(s.clients, calm[i]) == InFlight(clients, calm[i]) {
      if i != ch {
        OthersUntouched(s, ch, c, x, i);
      }
    }
    SumInFlightSame(s.clients, clients, calm);
    SumInFlightUpdate(clients, calm, ch, p');
    assert calm[ch := p'] == s.producers[ch := p'];
  }

  lemma ConnectStep(s: Server)
    requires Inv(s) && Enabled(s, Connect)
    ensures Inv(Apply(s, Connect))
  {
    var s' := Apply(s, Connect);
    SumDropsAppend(s.clients, Client(EmptyQueue(s.limits), -1, false, true, true));
    forall ch | 0 <= ch < |s.producers|
      ensures ProducerOk(s', s.producers[ch], ch)
      ensures InFlight(s.clients, s.producers[ch]) == InFlight(s'.clients, s.producers[ch])
    {
      var p := s.producers[ch];
      assert ProducerOk(s, p, ch);
      if Picks(p) {
        forall i | 0 <= i < |p.todo| ensures OnChannel(s', p.todo[i], ch) {
          assert OnChannel(s, p.todo[i], ch);
        }
      }
    }
    SumInFlightSame(s.clients, s'.clients, s.producers);
  }

  lemma SessionStep(s: Server, e: Action)
    requires Inv(s) && Enabled(s, e)
    requires e.BindChannel? || e.StartPlaying? || e.PopFrame? || e.Disconnect? || e.StopPlaying? || e.CloseQueue?
          || e.Forget?
    ensures Inv(Apply(s, e))
  {
    var c := s.clients[e.client];
    assert ClientOk(c, s.limits);
    match e {
      case BindChannel(i, ch) => ClientStep(s, i, c.(channel := ch));
      case StartPlaying(i) => ClientStep(s, i, c.(playing := true));
      case PopFrame(i) => ClientStep(s, i, c.(queue := Popped(c.queue)));
      case Disconnect(i) => ClientStep(s, i, c.(connected := false));
      case StopPlaying(i) => ClientStep(s, i, c.(playing := false));
      case CloseQueue(i) => ClientStep(s, i, c.(queue := ClosedQueue(c.queue)));
      case Forget(i) => ClientStep(s, i, c.(listed := false));
    }
  }

  lemma BeginStep(s: Server, ch: nat, frame: Frame)
    requires Inv(s) && Enabled(s, Begin(ch, frame))
    ensures Inv(Apply(s, Begin(ch, frame)))
  {
    ProducerStep(s, ch, Accepted(frame), s.queueDrops);
  }

  lemma LockStep(s: Server, ch: nat)
    requires Inv(s) && Enabled(s, LockClients(ch))
    ensures Inv(Apply(s, LockClients(ch)))
  {
    var p := s.producers[ch];
    assert ProducerOk(s, p, ch);
    ProducerStep(s, ch, Collecting(p.frame, 0, []), s.queueDrops);
  }

  lemma VisitStep(s: Server, ch: nat, c: nat)
    requires Inv(s) && Enabled(s, Visit(ch, c))
    ensures Inv(Apply(s, Visit(ch, c)))
  {
    var p := s.producers[ch];
    assert ProducerOk(s, p, ch);
    var picked := p.todo + if Eligible(s.clients[c], ch) then [c] else [];
    assert forall i :: 0 <= i < |picked| ==> OnChannel(s, picked[i], ch);
    ProducerStep(s, ch, Collecting(p.frame, c + 1, picked), s.queueDrops);
  }

  lemma DeliverStep(s: Server, ch: nat)
    requires Inv(s) && Enabled(s, Deliver(ch))
    ensures Inv(Apply(s, Deliver(ch)))
  {
    var p := s.producers[ch];
    assert ProducerOk(s, p, ch);
    ProducerStep(s, ch, Delivering(p.frame, p.todo), s.queueDrops);
  }

  lemma ReadBeforeStep(s: Server, ch: nat)
    requires Inv(s) && Enabled(s, ReadBefore(ch))
    ensures Inv(Apply(s, ReadBefore(ch)))
  {
    var p := s.producers[ch];
    assert ProducerOk(s, p, ch) && OnChannel(s, p.todo[0], ch);
    ProducerStep(s, ch, ReadDrops(p.frame, p.todo[1..], p.todo[0], s.clients[p.todo[0]].queue.drops), s.queueDrops);
  }

  lemma ReadAfterStep(s: Server, ch: nat)
    requires Inv(s) && Enabled(s, ReadAfter(ch))
    ensures Inv(Apply(s, ReadAfter(ch)))
  {
    var p := s.producers[ch];
    assert ProducerOk(s, p, ch);
    ProducerStep(s, ch, ReadAgain(p.frame, p.todo, p.client, p.before, s.clients[p.client].queue.drops), s.queueDrops);
  }

  lemma AddDropsStep(s: Server, ch: nat)
    requires Inv(s) && Enabled(s, AddDrops(ch))
    ensures Inv(Apply(s, AddDrops(ch)))
  {
    var p := s.producers[ch];
    assert ProducerOk(s, p, ch);
    ProducerStep(s, ch, Delivering(p.frame, p.todo), s.queueDrops + p.after - p.before);
  }

  lemma FinishStep(s: Server, ch: nat)
    requires Inv(s) && Enabled(s, Finish(ch))
    ensures Inv(Apply(s, Finish(ch)))
  {
    ProducerStep(s, ch, Resting, s.queueDrops);
  }

  lemma EveryStep(s: Server, e: Action)
    requires Inv(s) && Enabled(s, e)
    ensures Inv(Apply(s, e))
  {
    match e {
      case Connect => ConnectStep(s);
      case PushFrame(ch, _, _) => PushStep(s, ch);
      case BindChannel(_, _) => SessionStep(s, e);
      case StartPlaying(_) => SessionStep(s, e);
      case PopFrame(_) => SessionStep(s, e);
      case Disconnect(_) => SessionStep(s, e);
      case StopPlaying(_) => SessionStep(s, e);
      case CloseQueue(_) => SessionStep(s, e);
      case Forget(_) => SessionStep(s, e);
      case Begin(ch, frame) => BeginStep(s, ch, frame);
      case LockClients(ch) => LockStep(s, ch);
      case Visit(ch, c) => VisitStep(s, ch, c);
      case Deliver(ch) => DeliverStep(s, ch);
      case ReadBefore(ch) => ReadBeforeStep(s, ch);
      case ReadAfter(ch) => ReadAfterStep(s, ch);
      case AddDrops(ch) => AddDropsStep(s, ch);
      case Finish(ch) => FinishStep(s, ch);
    }
  }

  // ----------------------------------------------------------------- every run

  ghost predicate IsRun(limits: Limits, codecs: seq<Codec>, actions: seq<Action>, states: seq<Server>) {
    && limits.Usable()
    && |states| == |actions| + 1
    && states[0] == Server(limits, codecs, [], seq(|codecs|, _ => Resting), 0)
    && forall i :: 0 <= i < |actions| ==> StepsAt(actions, states, i)
  }

  ghost predicate StepsAt(actions: seq<Action>, states: seq<Server>, i: nat)
    requires i < |actions| < |states|
  {
    Enabled(states[i], actions[i]) && states[i + 1] == Apply(states[i], actions[i])
  }

  lemma {:induction false} NothingInFlight(producers: seq<Producer>)
    requires forall i :: 0 <= i < |producers| ==> producers[i].Resting?
    ensures SumInFlight([], producers) == 0
  {
    if producers != [] {
      NothingInFlight(producers[1..]);
    }
  }

  lemma {:induction false} RunInv(limits: Limits, codecs: seq<Codec>, actions: seq<Action>, states: seq<Server>, n: nat)
    requires IsRun(limits, codecs, actions, states) && n < |states|
    ensures Inv(states[n])
  {
    if n == 0 {
      NothingInFlight(states[0].producers);
    } else {
      RunInv(limits, codecs, actions, states, n - 1);
      assert StepsAt(actions, states, n - 1);
      EveryStep(states[n - 1], actions[n - 1]);
    }
  }

  /**
   In every reachable state, under every interleaving: a client's queue holds only
   frames of the channel it plays, a closed queue is empty, and the server's drop
   counter is the sum over the clients less what the producers have yet to add.
   */
  lemma FanOutIsSound(limits: Limits, codecs: seq<Codec>, actions: seq<Action>, states: seq<Server>, n: nat, c: nat)
    requires IsRun(limits, codecs, actions, states) && n < |states| && c < |states[n].clients|
    ensures
      var client := states[n].clients[c];
      && (forall i :: 0 <= i < |client.queue.frames| ==> client.queue.frames[i].channelId == client.channel)
      && (client.queue.closed ==> client.queue.frames == [])
    ensures states[n].queueDrops == SumDrops(states[n].clients) - SumInFlight(states[n].clients, states[n].producers)
  {
    RunInv(limits, codecs, actions, states, n);
    assert ClientOk(states[n].clients[c], states[n].limits);
  }

  // ----------------------------------------------------------------- isolation

  /** What happens to one client's queue. */
  datatype Own = OwnPush(frame: Frame) | OwnPop | OwnClose

  function Replay(limits: Limits, own: seq<Own>): (q: Queue) {
    if own == [] then EmptyQueue(limits)
    else
      var q := Replay(limits, own[..|own| - 1]);
      match own[|own| - 1]
      case OwnPush(x) => Pushed(q, x)
      case OwnPop => Popped(q)
      case OwnClose => ClosedQueue(q)
  }

  function OwnOf(e: Action, c: nat): (r: seq<Own>) {
    match e
    case PushFrame(_, i, frame) => if i == c then [OwnPush(frame)] else []
    case PopFrame(i) => if i == c then [OwnPop] else []
    case CloseQueue(i) => if i == c then [OwnClose] else []
    case _ => []
  }

  function Project(actions: seq<Action>, c: nat): (own: seq<Own>) {
    if actions == [] then [] else Project(actions[..|actions| - 1], c) + OwnOf(actions[|actions| - 1], c)
  }

  lemma ReplayStep(limits: Limits, own: seq<Own>, o: Own)
    ensures Replay(limits, own + [o]) ==
      match o
      case OwnPush(x) => Pushed(Replay(limits, own), x)
      case OwnPop => Popped(Replay(limits, own))
      case OwnClose => ClosedQueue(Replay(limits, own))
  {
    assert (own + [o])[..|own|] == own;
  }

  lemma LimitsStay(s: Server, e: Action)
    requires Enabled(s, e)
    ensures Apply(s, e).limits == s.limits && Apply(s, e).codecs == s.codecs
    ensures |Apply(s, e).clients| >= |s.clients|
  {
  }

  /** The client's queue is what `own` makes of an empty one; before it connects there is nothing of its own. */
  ghost predicate Isolated(s: Server, own: seq<Own>, c: nat) {
    if c < |s.clients| then s.clients[c].queue == Replay(s.limits, own) else own == []
  }

  /** No other client's action, and nothing a producer does for others, touches a client's queue. */
  lemma IsolatedStep(s: Server, e: Action, own: seq<Own>, c: nat)
    requires Enabled(s, e) && Isolated(s, own, c)
    ensures Isolated(Apply(s, e), own + OwnOf(e, c), c)
  {
    assert own + [] == own;
    match e {
      case PushFrame(_, i, frame) => if i == c { ReplayStep(s.limits, own, OwnPush(frame)); }
      case PopFrame(i) => if i == c { ReplayStep(s.limits, own, OwnPop); }
      case CloseQueue(i) => if i == c { ReplayStep(s.limits, own, OwnClose); }
      case _ =>
    }
  }

  lemma ProjectStep(actions: seq<Action>, n: nat, c: nat)
    requires 0 < n <= |actions|
    ensures Project(actions[..n], c) == Project(actions[..n - 1], c) + OwnOf(actions[n - 1], c)
  {
    assert actions[..n][..n - 1] == actions[..n - 1];
  }

  lemma {:induction false} RunIsIsolated(limits: Limits, codecs: seq<Codec>, actions: seq<Action>, states: seq<Server>,
                                         n: nat, c: nat)
    requires IsRun(limits, codecs, actions, states) && n <= |actions|
    ensures Isolated(states[n], Project(actions[..n], c), c)
  {
    if n > 0 {
      RunIsIsolated(limits, codecs, actions, states, n - 1, c);
      assert StepsAt(actions, states, n - 1);
      IsolatedStep(states[n - 1], actions[n - 1], Project(actions[..n - 1], c), c);
      ProjectStep(actions, n, c);
    }
  }

  /** In every run, each client's queue is what its own pushes, pops and close alone would have made it. */
  lemma ClientsAreIsolated(limits: Limits, codecs: seq<Codec>, actions: seq<Action>, states: seq<Server>, n: nat, c: nat)
    requires IsRun(limits, codecs, actions, states) && n <= |actions| && c < |states[n].clients|
    ensures states[n].clients[c].queue == Replay(limits, Project(actions[..n], c))
  {
    RunLimits(limits, codecs, actions, states, n);
    RunIsIsolated(limits, codecs, actions, states, n, c);
  }

  lemma {:induction false} RunLimits(limits: Limits, codecs: seq<Codec>, actions: seq<Action>, states: seq<Server>, n: nat)
    requires IsRun(limits, codecs, actions, states) && n <= |actions|
    ensures states[n].limits == limits && states[n].codecs == codecs
  {
    if n > 0 {
      RunLimits(limits, codecs, actions, states, n - 1);
      assert StepsAt(actions, states, n - 1);
      LimitsStay(states[n - 1], actions[n - 1]);
    }
  }

  lemma ClosedStep(s: Server, e: Action, c: nat)
    requires Inv(s) && Enabled(s, e) && c < |s.clients| && s.clients[c].queue.closed
    ensures Apply(s, e).clients[c].queue == s.clients[c].queue
  {
    assert ClientOk(s.clients[c], s.limits);
  }

  /** In every run, once closed a client's queue is empty and stays as it is, its drop count included. */
  lemma {:induction false} ClosedForGood(limits: Limits, codecs: seq<Codec>, actions: seq<Action>, states: seq<Server>,
                                         m: nat, n: nat, c: nat)
    requires IsRun(limits, codecs, actions, states) && m <= n < |states|
    requires c < |states[m].clients| && states[m].clients[c].queue.closed
    ensures c < |states[n].clients| && states[n].clients[c].queue == states[m].clients[c].queue
    ensures states[n].clients[c].queue.frames == []
    decreases n - m
  {
    RunInv(limits, codecs, actions, states, m);
    assert ClientOk(states[m].clients[c], states[m].limits);
    if m < n {
      assert StepsAt(actions, states, m);
      LimitsStay(states[m], actions[m]);
      ClosedStep(states[m], actions[m], c);
      ClosedForGood(limits, codecs, actions, states, m + 1, n, c);
    }
  }

  ghost predicate NeverClosed(own: seq<Own>) {
    forall i :: 0 <= i < |own| ==> !own[i].OwnClose?
  }

  function AsEvents(own: seq<Own>): (events: seq<Event>)
    ensures |events| == |own|
  {
    if own == [] then []
    else AsEvents(own[..|own| - 1]) + [if own[|own| - 1].OwnPush? then Push(own[|own| - 1].frame) else Pop]
  }

  lemma {:induction false} ReplayIsHistory(limits: Limits, own: seq<Own>)
    requires NeverClosed(own)
    ensures Replay(limits, own) == History(limits, AsEvents(own)).queue
  {
    if own != [] {
      var front := own[..|own| - 1];
      ReplayIsHistory(limits, front);
      assert AsEvents(own)[..|own| - 1] == AsEvents(front);
    }
  }

  lemma {:induction false} OpenMeansNeverClosed(limits: Limits, own: seq<Own>)
    requires !Replay(limits, own).closed
    ensures NeverClosed(own)
  {
    if own != [] {
      var front := own[..|own| - 1];
      assert own == front + [own[|own| - 1]];
      OpenMeansNeverClosed(limits, front);
    }
  }

  /**
   In every run, a client that is still open holds the sliding window over the frames
   pushed to it: the longest suffix within its limits behind the frame it took last.
   */
  lemma OpenClientHoldsWindow(limits: Limits, codecs: seq<Codec>, actions: seq<Action>, states: seq<Server>, n: nat, c: nat)
    requires IsRun(limits, codecs, actions, states) && n <= |actions| && c < |states[n].clients|
    requires !states[n].clients[c].queue.closed
    ensures
      var log := History(limits, AsEvents(Project(actions[..n], c)));
      states[n].clients[c].queue == log.queue && IsWindow(log, limits)
  {
    var own := Project(actions[..n], c);
    ClientsAreIsolated(limits, codecs, actions, states, n, c);
    OpenMeansNeverClosed(limits, own);
    ReplayIsHistory(limits, own);
    QueueIsWindow(limits, AsEvents(own));
  }

  // --------------------------------------------------------- one channel, one codec

  /** The frames a client has taken from its queue, in order. */
  function Taken(limits: Limits, own: seq<Own>): (frames: seq<Frame>) {
    if own == [] then []
    else
      var front := own[..|own| - 1];
      var q := Replay(limits, front);
      Taken(limits, front) + if own[|own| - 1].OwnPop? && q.frames != [] then [q.frames[0]] else []
  }

  ghost predicate FrameOf(frame: Frame, channel: int, codecs: seq<Codec>) {
    0 <= channel < |codecs| && frame.channelId == channel && frame.codec == codecs[channel] && frame.data != []
  }

  ghost predicate AllOf(frames: seq<Frame>, channel: int, codecs: seq<Codec>) {
    forall i :: 0 <= i < |frames| ==> FrameOf(frames[i], channel, codecs)
  }

  ghost predicate PushesOf(own: seq<Own>, channel: int, codecs: seq<Codec>) {
    forall i :: 0 <= i < |own| && own[i].OwnPush? ==> FrameOf(own[i].frame, channel, codecs)
  }

  lemma PushedAllOf(q: Queue, x: Frame, channel: int, codecs: seq<Codec>)
    requires AllOf(q.frames, channel, codecs) && FrameOf(x, channel, codecs)
    ensures AllOf(Pushed(q, x).frames, channel, codecs)
  {
    EvictIsSuffix(q.frames, x, q.limits);
  }

  /** What is queued and what was taken are frames that were pushed. */
  lemma {:induction false} TakenAllOf(limits: Limits, own: seq<Own>, channel: int, codecs: seq<Codec>)
    requires PushesOf(own, channel, codecs)
    ensures AllOf(Replay(limits, own).frames, channel, codecs) && AllOf(Taken(limits, own), channel, codecs)
  {
    if own != [] {
      var front, last := own[..|own| - 1], own[|own| - 1];
      TakenAllOf(limits, front, channel, codecs);
      if last.OwnPush? {
        PushedAllOf(Replay(limits, front), last.frame, channel, codecs);
      }
    }
  }

  lemma ChannelStays(s: Server, e: Action, c: nat)
    requires Enabled(s, e) && c < |s.clients|
    ensures Apply(s, e).clients[c].channel == s.clients[c].channel || s.clients[c].channel == -1
  {
  }

  lemma PushIsOfChannel(s: Server, e: Action, c: nat)
    requires Inv(s) && Enabled(s, e) && c < |s.clients|
    ensures PushesOf(OwnOf(e, c), Apply(s, e).clients[c].channel, s.codecs)
  {
    if e.PushFrame? && e.client == c {
      assert ProducerOk(s, s.producers[e.channel], e.channel);
    }
  }

  lemma PushesOfNew(s: Server, e: Action, c: nat)
    requires Enabled(s, e) && c >= |s.clients|
    ensures OwnOf(e, c) == []
  {
  }

  lemma PushesOfStep(own: seq<Own>, more: seq<Own>, before: int, after: int, codecs: seq<Codec>)
    requires PushesOf(own, before, codecs) && PushesOf(more, after, codecs) && (before == after || before == -1)
    ensures PushesOf(own + more, after, codecs)
  {
  }

  /** In every run, what is pushed to a client is of the channel it plays and in that channel's codec. */
  lemma {:induction false} PushesOfRun(limits: Limits, codecs: seq<Codec>, actions: seq<Action>, states: seq<Server>,
                                       n: nat, c: nat)
    requires IsRun(limits, codecs, actions, states) && n <= |actions| && c < |states[n].clients|
    ensures PushesOf(Project(actions[..n], c), states[n].clients[c].channel, codecs)
  {
    if n > 0 {
      var s, e := states[n - 1], actions[n - 1];
      RunInv(limits, codecs, actions, states, n - 1);
      RunLimits(limits, codecs, actions, states, n - 1);
      assert StepsAt(actions, states, n - 1);
      ProjectStep(actions, n, c);
      if c < |s.clients| {
        PushesOfRun(limits, codecs, actions, states, n - 1, c);
        ChannelStays(s, e, c);
        PushIsOfChannel(s, e, c);
        PushesOfStep(Project(actions[..n - 1], c), OwnOf(e, c), s.clients[c].channel, states[n].clients[c].channel,
                     codecs);
      } else {
        RunIsIsolated(limits, codecs, actions, states, n - 1, c);
        PushesOfNew(s, e, c);
      }
    }
  }

  /** In every run, all the frames a client takes are of one channel and in one codec, and none is empty. */
  lemma ClientTakesOneCodec(limits: Limits, codecs: seq<Codec>, actions: seq<Action>, states: seq<Server>, n: nat, c: nat)
    requires IsRun(limits, codecs, actions, states) && n <= |actions| && c < |states[n].clients|
    ensures AllOf(Taken(limits, Project(actions[..n], c)), states[n].clients[c].channel, codecs)
  {
    PushesOfRun(limits, codecs, actions, states, n, c);
    TakenAllOf(limits, Project(actions[..n], c), states[n].clients[c].channel, codecs);
  }
}
