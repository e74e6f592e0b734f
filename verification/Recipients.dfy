/**
 Who gets a frame: under every interleaving, exactly the clients that were connected and
 playing its channel when the producer's walk over the client list came to them.
 */
module Recipients {
  import opened Rtp
  import opened FrameQueue
  import opened FanOut
  import opened FrameOrder

  predicate OpensOrEnds(e: Action, ch: nat) {
    (e.Begin? || e.Finish?) && e.channel == ch
  }

  /** The frame callback of a channel begun by action `i` is still on before action `n`. */
  ghost predicate Callback(actions: seq<Action>, ch: nat, i: nat, n: nat) {
    && i < n <= |actions| && actions[i].Begin? && actions[i].channel == ch
    && forall m :: i < m < n ==> !OpensOrEnds(actions[m], ch)
  }

  ghost predicate PushedBetween(actions: seq<Action>, ch: nat, c: nat, frame: Frame, j: nat, n: nat)
    requires n <= |actions|
  {
    exists m :: j < m < n && actions[m] == PushFrame(ch, c, frame)
  }

  // ------------------------------------------------------------- the callback

  /** A producer that has a frame has a callback on, begun with that frame. */
  lemma {:induction false} BegunAt(limits: Limits, codecs: seq<Codec>, actions: seq<Action>, states: seq<Server>,
                                   ch: nat, n: nat)
    returns (i: nat)
    requires IsRun(limits, codecs, actions, states) && n <= |actions| && ch < |codecs|
    requires ch < |states[n].producers| && !states[n].producers[ch].Resting?
    ensures Callback(actions, ch, i, n) && actions[i].frame == states[n].producers[ch].frame
  {
    ProducerCount(limits, codecs, actions, states, n - 1);
    assert StepsAt(actions, states, n - 1);
    if actions[n - 1].Begin? && actions[n - 1].channel == ch {
      i := n - 1;
    } else {
      i := BegunAt(limits, codecs, actions, states, ch, n - 1);
    }
  }

  lemma CallbackFrame(limits: Limits, codecs: seq<Codec>, actions: seq<Action>, states: seq<Server>, ch: nat, i: nat, n: nat)
    requires IsRun(limits, codecs, actions, states) && Callback(actions, ch, i, n)
    ensures ch < |codecs| == |states[n].producers|
    ensures !states[n].producers[ch].Resting? && states[n].producers[ch].frame == actions[i].frame
    decreases n
  {
    ProducerCount(limits, codecs, actions, states, n);
    ProducerCount(limits, codecs, actions, states, n - 1);
    assert StepsAt(actions, states, n - 1);
    if i < n - 1 {
      CallbackFrame(limits, codecs, actions, states, ch, i, n - 1);
      assert !OpensOrEnds(actions[n - 1], ch);
    }
  }

  // ------------------------------------------------------------------ the walk

  lemma VisitedStep(s: Server, e: Action, ch: nat, c: nat, begun: seq<Frame>)
    requires Enabled(s, e) && ch < |s.producers| && BegunOk(s.producers[ch], begun)
    requires Apply(s, e).producers[ch].Collecting? && c < Apply(s, e).producers[ch].next
    ensures s.producers[ch].Collecting?
    ensures e == Visit(ch, c) ==> c < |s.clients| && (c in Apply(s, e).producers[ch].todo <==> Eligible(s.clients[c], ch))
    ensures e != Visit(ch, c) ==>
              c < s.producers[ch].next && (c in Apply(s, e).producers[ch].todo <==> c in s.producers[ch].todo)
  {
  }

  /** The walk has looked at every client it is past, and has picked it if it was playing the channel then. */
  lemma {:induction false} VisitedAt(limits: Limits, codecs: seq<Codec>, actions: seq<Action>, states: seq<Server>,
                                     ch: nat, c: nat, i: nat, n: nat)
    returns (t: nat)
    requires IsRun(limits, codecs, actions, states) && Callback(actions, ch, i, n)
    requires ch < |codecs| && ch < |states[n].producers|
    requires states[n].producers[ch].Collecting? && c < states[n].producers[ch].next
    ensures i < t < n && actions[t] == Visit(ch, c) && c < |states[t].clients|
    ensures c in states[n].producers[ch].todo <==> Eligible(states[t].clients[c], ch)
    decreases n
  {
    assert StepsAt(actions, states, n - 1);
    ProducersOk(limits, codecs, actions, states, n - 1, ch);
    VisitedStep(states[n - 1], actions[n - 1], ch, c, Begun(actions[..n - 1], ch));
    if actions[n - 1] == Visit(ch, c) {
      t := n - 1;
    } else {
      t := VisitedAt(limits, codecs, actions, states, ch, c, i, n - 1);
    }
  }

  // -------------------------------------------------------------- the delivery

  predicate InDelivery(p: Producer) {
    Picks(p) && !p.Collecting?
  }

  /** The client is still to be given the frame. */
  predicate Owed(p: Producer, c: nat) {
    Picks(p) && (c in p.todo || (p.ReadDrops? && p.client == c))
  }

  lemma OwedStep(s: Server, e: Action, ch: nat, c: nat)
    requires Enabled(s, e) && ch < |s.producers| && InDelivery(s.producers[ch]) && !OpensOrEnds(e, ch)
    ensures |Apply(s, e).producers| == |s.producers| && InDelivery(Apply(s, e).producers[ch])
    ensures Owed(s.producers[ch], c) <==>
            Owed(Apply(s, e).producers[ch], c) || e == PushFrame(ch, c, s.producers[ch].frame)
  {
  }

  lemma PushedLater(actions: seq<Action>, ch: nat, c: nat, frame: Frame, j: nat, n: nat)
    requires j < n < |actions|
    ensures PushedBetween(actions, ch, c, frame, j, n + 1) <==>
            PushedBetween(actions, ch, c, frame, j, n) || actions[n] == PushFrame(ch, c, frame)
  {
  }

  /** From Deliver on, the picked clients are those that have been given the frame or are still to be. */
  lemma {:induction false} PickedArePushed(limits: Limits, codecs: seq<Codec>, actions: seq<Action>, states: seq<Server>,
                                           ch: nat, c: nat, i: nat, j: nat, n: nat)
    requires IsRun(limits, codecs, actions, states) && Callback(actions, ch, i, n)
    requires i < j < n && actions[j] == Deliver(ch)
    ensures ch < |states[n].producers| == |states[j].producers| && InDelivery(states[n].producers[ch])
    ensures states[j].producers[ch].Collecting?
    ensures c in states[j].producers[ch].todo <==>
            Owed(states[n].producers[ch], c) || PushedBetween(actions, ch, c, actions[i].frame, j, n)
    decreases n
  {
    CallbackFrame(limits, codecs, actions, states, ch, i, n);
    ProducerCount(limits, codecs, actions, states, j);
    assert StepsAt(actions, states, n - 1);
    if j < n - 1 {
      PickedArePushed(limits, codecs, actions, states, ch, c, i, j, n - 1);
      CallbackFrame(limits, codecs, actions, states, ch, i, n - 1);
      OwedStep(states[n - 1], actions[n - 1], ch, c);
      PushedLater(actions, ch, c, actions[i].frame, j, n - 1);
    }
  }

  // -------------------------------------------------------------- the theorems

  /**
   In every run, for every finished callback and every client there was at its Deliver: the
   producer looked at the client once its list was locked, and gave it the frame if and only
   if the client was then listed, connected and playing on the frame's channel.
   */
  lemma FrameGoesToPlayers(limits: Limits, codecs: seq<Codec>, actions: seq<Action>, states: seq<Server>,
                           ch: nat, c: nat, i: nat, j: nat, k: nat)
    returns (t: nat)
    requires IsRun(limits, codecs, actions, states) && Callback(actions, ch, i, k)
    requires i < j < k < |actions| && actions[j] == Deliver(ch) && actions[k] == Finish(ch) && c < |states[j].clients|
    ensures i < t < j && actions[t] == Visit(ch, c) && c < |states[t].clients|
    ensures
      var client := states[t].clients[c];
      PushedBetween(actions, ch, c, actions[i].frame, j, k) <==>
      client.listed && client.connected && client.playing && client.channel == ch
  {
    CallbackFrame(limits, codecs, actions, states, ch, i, k);
    PickedArePushed(limits, codecs, actions, states, ch, c, i, j, k);
    assert StepsAt(actions, states, j);
    assert StepsAt(actions, states, k);
    t := VisitedAt(limits, codecs, actions, states, ch, c, i, j);
  }

  /** A client that plays a channel all the while from Begin to Deliver has the frame by the matching Finish. */
  lemma PlayerGetsFrame(limits: Limits, codecs: seq<Codec>, actions: seq<Action>, states: seq<Server>,
                        ch: nat, c: nat, i: nat, j: nat, k: nat)
    requires IsRun(limits, codecs, actions, states) && Callback(actions, ch, i, k)
    requires i < j < k < |actions| && actions[j] == Deliver(ch) && actions[k] == Finish(ch)
    requires forall t :: i < t <= j ==>
               && c < |states[t].clients| && states[t].clients[c].listed && states[t].clients[c].connected
               && states[t].clients[c].playing && states[t].clients[c].channel == ch
    ensures exists m :: j < m < k && actions[m] == PushFrame(ch, c, actions[i].frame)
  {
    var _ := FrameGoesToPlayers(limits, codecs, actions, states, ch, c, i, j, k);
  }

  lemma HeldStep(s: Server, e: Action, ch: nat, c: nat)
    requires Enabled(s, e) && ch < |s.producers| && ch < |Apply(s, e).producers| && Holds(Apply(s, e).producers[ch], c)
    ensures Picks(s.producers[ch])
    ensures e == Visit(ch, c) ==> c < |s.clients| && (Eligible(s.clients[c], ch) || Holds(s.producers[ch], c))
    ensures e != Visit(ch, c) ==> Holds(s.producers[ch], c)
    ensures InDelivery(Apply(s, e).producers[ch]) && e != Deliver(ch) ==> InDelivery(s.producers[ch])
  {
  }

  /** A producer holds only clients it found playing its channel during this callback. */
  lemma {:induction false} HeldWasPlaying(limits: Limits, codecs: seq<Codec>, actions: seq<Action>, states: seq<Server>,
                                          ch: nat, c: nat, i: nat, n: nat)
    returns (t: nat, j: nat)
    requires IsRun(limits, codecs, actions, states) && Callback(actions, ch, i, n)
    requires ch < |states[n].producers| && Holds(states[n].producers[ch], c)
    ensures i < t < n && c < |states[t].clients| && Eligible(states[t].clients[c], ch)
    ensures InDelivery(states[n].producers[ch]) ==> t < j < n && actions[j] == Deliver(ch)
    decreases n
  {
    ProducerCount(limits, codecs, actions, states, n);
    ProducerCount(limits, codecs, actions, states, n - 1);
    assert StepsAt(actions, states, n - 1);
    HeldStep(states[n - 1], actions[n - 1], ch, c);
    if Holds(states[n - 1].producers[ch], c) {
      t, j := HeldWasPlaying(limits, codecs, actions, states, ch, c, i, n - 1);
      if actions[n - 1] == Deliver(ch) {
        j := n - 1;
      }
    } else {
      t, j := n - 1, n;
    }
  }

  /**
   Every push goes to a client that was listed, connected and playing on the frame's channel
   at some point between the Begin of that frame and its Deliver.
   */
  lemma PushedWasPlaying(limits: Limits, codecs: seq<Codec>, actions: seq<Action>, states: seq<Server>,
                         ch: nat, c: nat, frame: Frame, n: nat)
    returns (i: nat, t: nat, j: nat)
    requires IsRun(limits, codecs, actions, states) && n < |actions| && actions[n] == PushFrame(ch, c, frame)
    ensures i < t < j < n && Callback(actions, ch, i, n) && actions[i] == Begin(ch, frame) && actions[j] == Deliver(ch)
    ensures
      && c < |states[t].clients| && states[t].clients[c].listed && states[t].clients[c].connected
      && states[t].clients[c].playing && states[t].clients[c].channel == ch
  {
    ProducerCount(limits, codecs, actions, states, n);
    assert StepsAt(actions, states, n);
    i := BegunAt(limits, codecs, actions, states, ch, n);
    t, j := HeldWasPlaying(limits, codecs, actions, states, ch, c, i, n);
  }

  // -------------------------------------------- a client's fields, by its actions

  /** A client has started to play and not stopped since. */
  ghost predicate PlaysBy(actions: seq<Action>, c: nat, n: nat)
    requires n <= |actions|
  {
    exists i :: 0 <= i < n && actions[i] == StartPlaying(c) && forall j :: i < j < n ==> actions[j] != StopPlaying(c)
  }

  /** The fields of client `c` are those its own actions have made. */
  ghost predicate FieldsBy(client: Client, actions: seq<Action>, c: nat, n: nat)
    requires n <= |actions|
  {
    && (client.connected <==> Disconnect(c) !in actions[..n])
    && (client.listed <==> Forget(c) !in actions[..n])
    && (client.playing <==> PlaysBy(actions, c, n))
    && (client.channel == -1 || (client.channel >= 0 && BindChannel(c, client.channel) in actions[..n]))
    && (forall ch: nat :: BindChannel(c, ch) in actions[..n] ==> client.channel == ch)
    && (client.queue.closed <==> CloseQueue(c) in actions[..n])
  }

  /** An action of the session of client `c`. */
  predicate OfSession(e: Action, c: nat) {
    (e.BindChannel? || e.StartPlaying? || e.Disconnect? || e.StopPlaying? || e.CloseQueue? || e.Forget?) && e.client == c
  }

  lemma OneMoreAction(actions: seq<Action>, n: nat, e: Action)
    requires 0 < n <= |actions|
    ensures e in actions[..n] <==> e in actions[..n - 1] || e == actions[n - 1]
  {
    assert actions[..n] == actions[..n - 1] + [actions[n - 1]];
  }

  lemma PlaysStep(actions: seq<Action>, c: nat, n: nat)
    requires 0 < n <= |actions|
    ensures PlaysBy(actions, c, n) <==>
      actions[n - 1] == StartPlaying(c) || (PlaysBy(actions, c, n - 1) && actions[n - 1] != StopPlaying(c))
  {
    if actions[n - 1] == StartPlaying(c) {
      assert PlaysBy(actions, c, n);
    }
    if i :| 0 <= i < n - 1 && actions[i] == StartPlaying(c) && forall j :: i < j < n - 1 ==> actions[j] != StopPlaying(c) {
      if actions[n - 1] != StopPlaying(c) {
        assert forall j :: i < j < n ==> actions[j] != StopPlaying(c);
      }
    }
  }

  /** Before it connects a client has done nothing. */
  lemma {:induction false} NothingBefore(limits: Limits, codecs: seq<Codec>, actions: seq<Action>, states: seq<Server>,
                                         n: nat, c: nat)
    requires IsRun(limits, codecs, actions, states) && n <= |actions| && c >= |states[n].clients|
    ensures forall i :: 0 <= i < n ==> !OfSession(actions[i], c)
  {
    if n > 0 {
      assert StepsAt(actions, states, n - 1);
      LimitsStay(states[n - 1], actions[n - 1]);
      NothingBefore(limits, codecs, actions, states, n - 1, c);
    }
  }

  lemma FreshFields(actions: seq<Action>, c: nat, n: nat, limits: Limits)
    requires n <= |actions| && forall i :: 0 <= i < n ==> !OfSession(actions[i], c)
    ensures FieldsBy(Client(EmptyQueue(limits), -1, false, true, true), actions, c, n)
  {
  }

  /** What one action does to the fields of a client. */
  lemma FieldsStep(s: Server, e: Action, c: nat)
    requires Enabled(s, e) && c < |s.clients|
    ensures c < |Apply(s, e).clients|
    ensures
      var x, y := s.clients[c], Apply(s, e).clients[c];
      && (y.connected <==> x.connected && e != Disconnect(c))
      && (y.listed <==> x.listed && e != Forget(c))
      && (y.playing <==> e == StartPlaying(c) || (x.playing && e != StopPlaying(c)))
      && (y.channel != x.channel ==> x.channel == -1 && y.channel >= 0 && e == BindChannel(c, y.channel))
      && (forall ch: nat :: e == BindChannel(c, ch) ==> x.channel == -1 && y.channel == ch)
      && (y.queue.closed <==> x.queue.closed || e == CloseQueue(c))
  {
  }

  lemma FieldsKept(x: Client, y: Client, actions: seq<Action>, c: nat, n: nat)
    requires 0 < n <= |actions| && FieldsBy(x, actions, c, n - 1)
    requires var e := actions[n - 1];
      && (y.connected <==> x.connected && e != Disconnect(c))
      && (y.listed <==> x.listed && e != Forget(c))
      && (y.playing <==> e == StartPlaying(c) || (x.playing && e != StopPlaying(c)))
      && (y.channel != x.channel ==> x.channel == -1 && y.channel >= 0 && e == BindChannel(c, y.channel))
      && (forall ch: nat :: e == BindChannel(c, ch) ==> x.channel == -1 && y.channel == ch)
      && (y.queue.closed <==> x.queue.closed || e == CloseQueue(c))
    ensures FieldsBy(y, actions, c, n)
  {
    OneMoreAction(actions, n, Disconnect(c));
    OneMoreAction(actions, n, Forget(c));
    OneMoreAction(actions, n, CloseQueue(c));
    PlaysStep(actions, c, n);
    if y.channel >= 0 {
      OneMoreAction(actions, n, BindChannel(c, y.channel));
    }
    forall ch: nat | BindChannel(c, ch) in actions[..n] ensures y.channel == ch {
      OneMoreAction(actions, n, BindChannel(c, ch));
    }
  }

  lemma ConnectIsFresh(s: Server, e: Action, c: nat)
    requires Enabled(s, e) && |s.clients| <= c < |Apply(s, e).clients|
    ensures e == Connect && Apply(s, e).clients[c] == Client(EmptyQueue(s.limits), -1, false, true, true)
  {
  }

  /** In every run: connected until it disconnects, playing from a start to a stop, on the channel it bound. */
  lemma {:induction false} FieldsAreHistory(limits: Limits, codecs: seq<Codec>, actions: seq<Action>, states: seq<Server>,
                                            n: nat, c: nat)
    requires IsRun(limits, codecs, actions, states) && n <= |actions| && c < |states[n].clients|
    ensures FieldsBy(states[n].clients[c], actions, c, n)
  {
    if n > 0 {
      var s, e := states[n - 1], actions[n - 1];
      assert StepsAt(actions, states, n - 1);
      if c < |s.clients| {
        FieldsAreHistory(limits, codecs, actions, states, n - 1, c);
        FieldsStep(s, e, c);
        FieldsKept(s.clients[c], states[n].clients[c], actions, c, n);
      } else {
        ConnectIsFresh(s, e, c);
        NothingBefore(limits, codecs, actions, states, n - 1, c);
        FreshFields(actions, c, n, s.limits);
      }
    }
  }

  lemma PlaysOn(actions: seq<Action>, c: nat, i: nat, t: nat)
    requires i <= t <= |actions| && PlaysBy(actions, c, i) && StopPlaying(c) !in actions[i..t]
    ensures PlaysBy(actions, c, t)
  {
    var k :| 0 <= k < i && actions[k] == StartPlaying(c) && forall j :: k < j < i ==> actions[j] != StopPlaying(c);
    forall j | k < j < t ensures actions[j] != StopPlaying(c) {
      if j >= i {
        assert actions[j] == actions[i..t][j - i];
      }
    }
  }

  lemma {:induction false} ClientsStay(limits: Limits, codecs: seq<Codec>, actions: seq<Action>, states: seq<Server>,
                                       i: nat, t: nat)
    requires IsRun(limits, codecs, actions, states) && i <= t <= |actions|
    ensures |states[i].clients| <= |states[t].clients|
    decreases t
  {
    if i < t {
      ClientsStay(limits, codecs, actions, states, i, t - 1);
      assert StepsAt(actions, states, t - 1);
      LimitsStay(states[t - 1], actions[t - 1]);
    }
  }

  lemma SubscribedAt(limits: Limits, codecs: seq<Codec>, actions: seq<Action>, states: seq<Server>, ch: nat, c: nat,
                     i: nat, t: nat)
    requires IsRun(limits, codecs, actions, states) && i <= t <= |actions| && c < |states[i].clients|
    requires BindChannel(c, ch) in actions[..i] && PlaysBy(actions, c, i) && StopPlaying(c) !in actions[i..t]
    requires Disconnect(c) !in actions[..t] && Forget(c) !in actions[..t]
    ensures
      && c < |states[t].clients| && states[t].clients[c].listed && states[t].clients[c].connected
      && states[t].clients[c].playing && states[t].clients[c].channel == ch
  {
    ClientsStay(limits, codecs, actions, states, i, t);
    FieldsAreHistory(limits, codecs, actions, states, t, c);
    PlaysOn(actions, c, i, t);
    assert actions[..i] <= actions[..t];
  }

  /**
   By actions alone: a client that has bound a channel and started to play it gets every
   frame that channel then begins, unless it stops, disconnects or is forgotten meanwhile.
   */
  lemma SubscriberGetsFrame(limits: Limits, codecs: seq<Codec>, actions: seq<Action>, states: seq<Server>,
                            ch: nat, c: nat, i: nat, j: nat, k: nat)
    requires IsRun(limits, codecs, actions, states) && Callback(actions, ch, i, k)
    requires i < j < k < |actions| && actions[j] == Deliver(ch) && actions[k] == Finish(ch) && c < |states[i].clients|
    requires BindChannel(c, ch) in actions[..i] && PlaysBy(actions, c, i) && StopPlaying(c) !in actions[i..j]
    requires Disconnect(c) !in actions[..j] && Forget(c) !in actions[..j]
    ensures exists m :: j < m < k && actions[m] == PushFrame(ch, c, actions[i].frame)
  {
    forall t | i < t <= j
      ensures
        && c < |states[t].clients| && states[t].clients[c].listed && states[t].clients[c].connected
        && states[t].clients[c].playing && states[t].clients[c].channel == ch
    {
      assert actions[i..t] <= actions[i..j] && actions[..t] <= actions[..j];
      SubscribedAt(limits, codecs, actions, states, ch, c, i, t);
    }
    PlayerGetsFrame(limits, codecs, actions, states, ch, c, i, j, k);
  }

  // ---------------------------------------------------------- one walk at a time

  ghost predicate OneWalk(s: Server) {
    forall x, y :: 0 <= x < y < |s.producers| ==> !(s.producers[x].Collecting? && s.producers[y].Collecting?)
  }

  lemma OneWalkStep(s: Server, e: Action)
    requires Enabled(s, e) && OneWalk(s)
    ensures OneWalk(Apply(s, e))
  {
  }

  /** In every reachable state at most one producer walks the client list. */
  lemma {:induction false} WalksExclude(limits: Limits, codecs: seq<Codec>, actions: seq<Action>, states: seq<Server>,
                                        n: nat)
    requires IsRun(limits, codecs, actions, states) && n <= |actions|
    ensures OneWalk(states[n])
  {
    if n > 0 {
      WalksExclude(limits, codecs, actions, states, n - 1);
      assert StepsAt(actions, states, n - 1);
      OneWalkStep(states[n - 1], actions[n - 1]);
    }
  }

  lemma ListStays(s: Server, e: Action, ch: nat)
    requires Enabled(s, e) && ch < |s.producers| && s.producers[ch].Collecting?
    ensures |Apply(s, e).clients| == |s.clients|
  {
  }

  lemma WalkBefore(s: Server, e: Action, ch: nat)
    requires Enabled(s, e) && ch < |s.producers| && ch < |Apply(s, e).producers| && e != LockClients(ch)
    requires Apply(s, e).producers[ch].Collecting?
    ensures s.producers[ch].Collecting?
  {
  }

  /** From the lock to the end of a walk no client joins the list. */
  lemma {:induction false} ListIsLocked(limits: Limits, codecs: seq<Codec>, actions: seq<Action>, states: seq<Server>,
                                        ch: nat, n: nat)
    returns (i: nat)
    requires IsRun(limits, codecs, actions, states) && n <= |actions| && ch < |codecs|
    requires ch < |states[n].producers| && states[n].producers[ch].Collecting?
    ensures i < n && actions[i] == LockClients(ch)
    ensures forall t :: i <= t <= n ==> |states[t].clients| == |states[n].clients|
  {
    var s, e := states[n - 1], actions[n - 1];
    ProducerCount(limits, codecs, actions, states, n - 1);
    assert StepsAt(actions, states, n - 1);
    if e == LockClients(ch) {
      i := n - 1;
    } else {
      WalkBefore(s, e, ch);
      ListStays(s, e, ch);
      i := ListIsLocked(limits, codecs, actions, states, ch, n - 1);
    }
  }

  // ------------------------------------------------------------- nothing is stuck

  /** A walk never runs past the end of the list. */
  ghost predicate WithinList(s: Server) {
    forall ch :: 0 <= ch < |s.producers| && s.producers[ch].Collecting? ==> s.producers[ch].next <= |s.clients|
  }

  lemma WithinListStep(s: Server, e: Action)
    requires Enabled(s, e) && WithinList(s)
    ensures WithinList(Apply(s, e))
  {
    LimitsStay(s, e);
  }

  lemma {:induction false} WalksWithin(limits: Limits, codecs: seq<Codec>, actions: seq<Action>, states: seq<Server>, n: nat)
    requires IsRun(limits, codecs, actions, states) && n <= |actions|
    ensures WithinList(states[n])
  {
    if n > 0 {
      WalksWithin(limits, codecs, actions, states, n - 1);
      assert StepsAt(actions, states, n - 1);
      WithinListStep(states[n - 1], actions[n - 1]);
    }
  }

  /** A step of the callback of `ch`. */
  predicate OfCallback(e: Action, ch: nat) {
    (e.LockClients? || e.Visit? || e.Deliver? || e.ReadBefore? || e.PushFrame? || e.ReadAfter? || e.AddDrops? || e.Finish?)
    && e.channel == ch
  }

  /** The next step of a producer that is not waiting for the lock. */
  lemma NextStep(s: Server, ch: nat) returns (e: Action)
    requires Inv(s) && WithinList(s) && ch < |s.producers| && !s.producers[ch].Resting?
    requires s.producers[ch].Accepted? ==> Unlocked(s)
    ensures Enabled(s, e) && OfCallback(e, ch)
  {
    var p := s.producers[ch];
    assert ProducerOk(s, p, ch);
    match p {
      case Accepted(_) => e := LockClients(ch);
      case Collecting(_, next, _) => e := if next < |s.clients| then Visit(ch, next) else Deliver(ch);
      case Delivering(_, todo) =>
        if todo == [] {
          e := Finish(ch);
        } else {
          assert OnChannel(s, todo[0], ch);
          e := ReadBefore(ch);
        }
      case ReadDrops(frame, _, client, _) => e := PushFrame(ch, client, frame);
      case PushedFrame(_, _, _, _) => e := ReadAfter(ch);
      case ReadAgain(_, _, _, _, _) => e := AddDrops(ch);
    }
  }

  /**
   In every reachable state a callback that is on can take its next step; if it waits for the
   client list, the callback that has the list can.
   */
  lemma CallbackGoesOn(limits: Limits, codecs: seq<Codec>, actions: seq<Action>, states: seq<Server>, n: nat, ch: nat)
    returns (e: Action, holder: nat)
    requires IsRun(limits, codecs, actions, states) && n <= |actions| && ch < |states[n].producers|
    requires !states[n].producers[ch].Resting?
    ensures Enabled(states[n], e) && OfCallback(e, holder) && holder < |states[n].producers|
    ensures holder == ch || (states[n].producers[ch].Accepted? && states[n].producers[holder].Collecting?)
  {
    var s := states[n];
    RunInv(limits, codecs, actions, states, n);
    WalksWithin(limits, codecs, actions, states, n);
    holder := ch;
    if s.producers[ch].Accepted? && !Unlocked(s) {
      holder :| 0 <= holder < |s.producers| && s.producers[holder].Collecting?;
    }
    e := NextStep(s, holder);
  }

  /** A frame with data, of the channel and in its codec, is accepted whenever the channel's callback is not on. */
  lemma FrameIsAccepted(limits: Limits, codecs: seq<Codec>, actions: seq<Action>, states: seq<Server>, n: nat, ch: nat,
                        frame: Frame)
    requires IsRun(limits, codecs, actions, states) && n <= |actions| && ch < |codecs|
    ensures Enabled(states[n], Begin(ch, frame)) <==>
      && |states[n].producers| == |codecs| && states[n].producers[ch] == Resting
      && frame.data != [] && frame.channelId == ch && frame.codec == codecs[ch]
  {
    ProducerCount(limits, codecs, actions, states, n);
    RunLimits(limits, codecs, actions, states, n);
  }
}
