/**
 Which of a camera's frames reach a client: under every interleaving, in the order they
 came in and each at most once.
 */
module FrameOrder {
  import opened Rtp
  import opened FrameQueue
  import opened FanOut

  // -------------------------------------------------------------- subsequences

  /** `a` is `b` with some elements left out. */
  ghost predicate Subsequence<T>(a: seq<T>, b: seq<T>)
    decreases |b|
  {
    a == [] ||
    (b != [] &&
     ((a[|a| - 1] == b[|b| - 1] && Subsequence(a[..|a| - 1], b[..|b| - 1])) || Subsequence(a, b[..|b| - 1])))
  }

  lemma SubLonger<T>(a: seq<T>, b: seq<T>, x: T)
    requires Subsequence(a, b)
    ensures Subsequence(a, b + [x])
  {
    assert (b + [x])[..|b|] == b;
  }

  lemma SubBoth<T>(a: seq<T>, b: seq<T>, x: T)
    requires Subsequence(a, b)
    ensures Subsequence(a + [x], b + [x])
  {
    assert (a + [x])[..|a|] == a && (b + [x])[..|b|] == b;
  }

  lemma {:induction false} SubExtend<T>(a: seq<T>, b: seq<T>, c: seq<T>)
    requires Subsequence(a, b)
    ensures Subsequence(a, b + c)
    decreases |c|
  {
    if c == [] {
      assert b + c == b;
    } else {
      var front, last := c[..|c| - 1], c[|c| - 1];
      SubExtend(a, b, front);
      SubLonger(a, b + front, last);
      assert b + front + [last] == b + c;
    }
  }

  lemma {:induction false} SubSelf<T>(a: seq<T>)
    ensures Subsequence(a, a)
  {
    if a != [] {
      SubSelf(a[..|a| - 1]);
    }
  }

  lemma {:induction false} SubTrans<T>(a: seq<T>, b: seq<T>, c: seq<T>)
    requires Subsequence(a, b) && Subsequence(b, c)
    ensures Subsequence(a, c)
    decreases |c|
  {
    if a != [] {
      var a', b', c' := a[..|a| - 1], b[..|b| - 1], c[..|c| - 1];
      if Subsequence(b, c') {
        SubTrans(a, b, c');
      } else if Subsequence(a, b') {
        SubTrans(a, b', c');
      } else {
        SubTrans(a', b', c');
      }
    }
  }

  /** Leaving out the front of what follows `a`. */
  lemma {:induction false} SubBehind<T>(a: seq<T>, b: seq<T>, k: nat)
    requires k <= |b|
    ensures Subsequence(a + b[k..], a + b)
    decreases |b|
  {
    if k == |b| {
      assert a + b[k..] == a;
      SubSelf(a);
      SubExtend(a, a, b);
    } else {
      var front, last := b[..|b| - 1], b[|b| - 1];
      SubBehind(a, front, k);
      SubBoth(a + front[k..], a + front, last);
      assert a + front[k..] + [last] == a + b[k..];
      assert a + front + [last] == a + b;
    }
  }

  // -------------------------------------------- what a client takes was pushed

  function PushesIn(own: seq<Own>): (frames: seq<Frame>) {
    if own == [] then []
    else PushesIn(own[..|own| - 1]) + if own[|own| - 1].OwnPush? then [own[|own| - 1].frame] else []
  }

  lemma PushKeepsOrder(taken: seq<Frame>, q: Queue, x: Frame, pushes: seq<Frame>)
    requires Subsequence(taken + q.frames, pushes)
    ensures Subsequence(taken + Pushed(q, x).frames, pushes + [x])
  {
    if q.closed || |x.data| > q.limits.bytes {
      SubLonger(taken + q.frames, pushes, x);
    } else {
      var kept := Evict(q.frames, x, q.limits);
      EvictIsSuffix(q.frames, x, q.limits);
      SubBehind(taken, q.frames, |q.frames| - |kept|);
      SubTrans(taken + kept, taken + q.frames, pushes);
      SubBoth(taken + kept, pushes, x);
      assert taken + kept + [x] == taken + (kept + [x]);
    }
  }

  lemma PopKeepsOrder(taken: seq<Frame>, q: Queue)
    requires q.frames != []
    ensures taken + [q.frames[0]] + Popped(q).frames == taken + q.frames
  {
  }

  /** What was taken and what is queued are, in order and each at most once, among the frames pushed. */
  lemma {:induction false} TakenInOrder(limits: Limits, own: seq<Own>)
    ensures Subsequence(Taken(limits, own) + Replay(limits, own).frames, PushesIn(own))
  {
    if own != [] {
      var front, last := own[..|own| - 1], own[|own| - 1];
      var taken, q, pushes := Taken(limits, front), Replay(limits, front), PushesIn(front);
      TakenInOrder(limits, front);
      assert taken + [] == taken && pushes + [] == pushes;
      match last {
        case OwnPush(x) => PushKeepsOrder(taken, q, x, pushes);
        case OwnPop => if q.frames != [] { PopKeepsOrder(taken, q); }
        case OwnClose =>
          SubBehind(taken, q.frames, |q.frames|);
          assert q.frames[|q.frames|..] == [];
          SubTrans(taken + [], taken + q.frames, pushes);
      }
    }
  }

  lemma TakenArePushed(limits: Limits, own: seq<Own>)
    ensures Subsequence(Taken(limits, own), PushesIn(own))
  {
    var taken, q := Taken(limits, own), Replay(limits, own);
    TakenInOrder(limits, own);
    SubSelf(taken);
    SubExtend(taken, taken, q.frames);
    SubTrans(taken, taken + q.frames, PushesIn(own));
  }

  // --------------------------------------------- what is pushed was begun

  function BegunOf(e: Action, ch: int): (frames: seq<Frame>) {
    if e.Begin? && e.channel == ch then [e.frame] else []
  }

  /** The frames a channel's producer has begun to deliver, in order. */
  function Begun(actions: seq<Action>, ch: int): (frames: seq<Frame>) {
    if actions == [] then [] else Begun(actions[..|actions| - 1], ch) + BegunOf(actions[|actions| - 1], ch)
  }

  ghost predicate Distinct(todo: seq<nat>) {
    forall i, j :: 0 <= i < j < |todo| ==> todo[i] != todo[j]
  }

  /** A producer works on the frame begun last and holds no client twice. */
  ghost predicate BegunOk(p: Producer, begun: seq<Frame>) {
    p.Resting? ||
    (&& begun != [] && begun[|begun| - 1] == p.frame
     && (Picks(p) ==> Distinct(p.todo))
     && (p.Collecting? ==> forall i :: 0 <= i < |p.todo| ==> p.todo[i] < p.next)
     && (p.ReadDrops? || p.PushedFrame? || p.ReadAgain? ==> p.client !in p.todo))
  }

  lemma BegunStep(s: Server, e: Action, ch: nat, begun: seq<Frame>)
    requires Enabled(s, e) && ch < |s.producers| && BegunOk(s.producers[ch], begun)
    ensures |Apply(s, e).producers| == |s.producers|
    ensures BegunOk(Apply(s, e).producers[ch], begun + BegunOf(e, ch))
  {
    assert begun + [] == begun;
  }

  lemma BegunSteps(actions: seq<Action>, n: nat, ch: int)
    requires 0 < n <= |actions|
    ensures Begun(actions[..n], ch) == Begun(actions[..n - 1], ch) + BegunOf(actions[n - 1], ch)
  {
    assert actions[..n][..n - 1] == actions[..n - 1];
  }

  lemma {:induction false} ProducersOk(limits: Limits, codecs: seq<Codec>, actions: seq<Action>, states: seq<Server>,
                                       n: nat, ch: nat)
    requires IsRun(limits, codecs, actions, states) && n <= |actions| && ch < |codecs|
    ensures |states[n].producers| == |codecs| && BegunOk(states[n].producers[ch], Begun(actions[..n], ch))
  {
    if n > 0 {
      ProducersOk(limits, codecs, actions, states, n - 1, ch);
      assert StepsAt(actions, states, n - 1);
      BegunStep(states[n - 1], actions[n - 1], ch, Begun(actions[..n - 1], ch));
      BegunSteps(actions, n, ch);
    }
  }

  lemma {:induction false} ProducerCount(limits: Limits, codecs: seq<Codec>, actions: seq<Action>, states: seq<Server>,
                                         n: nat)
    requires IsRun(limits, codecs, actions, states) && n <= |actions|
    ensures |states[n].producers| == |codecs|
  {
    if n > 0 {
      ProducerCount(limits, codecs, actions, states, n - 1);
      assert StepsAt(actions, states, n - 1);
    }
  }

  /** The client may still get the frame the producer works on. */
  ghost predicate Due(p: Producer, c: nat) {
    p.Accepted? || p.Collecting? || (Picks(p) && c in p.todo) || (p.ReadDrops? && p.client == c)
  }

  /** The pushes to a client against the frames begun on its channel, the last of which may still be due. */
  ghost predicate InOrder(pushes: seq<Frame>, begun: seq<Frame>, due: bool) {
    Subsequence(pushes, begun) && (due ==> begun != [] && Subsequence(pushes, begun[..|begun| - 1]))
  }

  lemma DueOnlyEnds(s: Server, e: Action, ch: nat, c: nat)
    requires Enabled(s, e) && ch < |s.producers| && BegunOf(e, ch) == []
    ensures |Apply(s, e).producers| == |s.producers|
    ensures Due(Apply(s, e).producers[ch], c) ==> Due(s.producers[ch], c)
  {
  }

  lemma OrderAtBegin(pushes: seq<Frame>, begun: seq<Frame>, due: bool, x: Frame)
    requires InOrder(pushes, begun, due)
    ensures InOrder(pushes, begun + [x], true)
  {
    SubLonger(pushes, begun, x);
    assert (begun + [x])[..|begun|] == begun;
  }

  lemma OrderAtPush(pushes: seq<Frame>, front: seq<Frame>, x: Frame)
    requires Subsequence(pushes, front)
    ensures InOrder(pushes + [x], front + [x], false)
  {
    SubBoth(pushes, front, x);
  }

  /** As far as client `c` is concerned, with the pushes to it and the frames begun on its channel. */
  ghost predicate Placed(s: Server, c: nat, pushes: seq<Frame>, begun: seq<Frame>)
    requires c < |s.clients|
  {
    var ch := s.clients[c].channel;
    if ch == -1 then pushes == [] else 0 <= ch < |s.producers| && InOrder(pushes, begun, Due(s.producers[ch], c))
  }

  /** In the state `s` reached by `actions`. */
  ghost predicate ClientInOrder(s: Server, actions: seq<Action>, c: nat) {
    var pushes := PushesIn(Project(actions, c));
    if c >= |s.clients| then pushes == [] else Placed(s, c, pushes, Begun(actions, s.clients[c].channel))
  }

  lemma {:induction false} PushesConcat(own: seq<Own>, more: seq<Own>)
    ensures PushesIn(own + more) == PushesIn(own) + PushesIn(more)
    decreases |more|
  {
    if more == [] {
      assert own + more == own;
    } else {
      var front, last := more[..|more| - 1], more[|more| - 1];
      assert (own + more)[..|own + more| - 1] == own + front;
      PushesConcat(own, front);
    }
  }

  lemma PushesStep(actions: seq<Action>, n: nat, c: nat)
    requires 0 < n <= |actions|
    ensures PushesIn(Project(actions[..n], c)) == PushesIn(Project(actions[..n - 1], c)) + PushesIn(OwnOf(actions[n - 1], c))
  {
    ProjectStep(actions, n, c);
    PushesConcat(Project(actions[..n - 1], c), OwnOf(actions[n - 1], c));
  }

  lemma PushIsDue(s: Server, e: Action, c: nat, begun: seq<Frame>)
    requires Inv(s) && Enabled(s, e) && e.PushFrame? && e.client == c && BegunOk(s.producers[e.channel], begun)
    ensures s.clients[c].channel == e.channel && Due(s.producers[e.channel], c)
    ensures begun != [] && begun[|begun| - 1] == e.frame
    ensures Apply(s, e).clients[c].channel == e.channel && !Due(Apply(s, e).producers[e.channel], c)
  {
    assert ProducerOk(s, s.producers[e.channel], e.channel);
  }

  lemma NoPush(e: Action, c: nat)
    requires !(e.PushFrame? && e.client == c)
    ensures PushesIn(OwnOf(e, c)) == []
  {
    var own := OwnOf(e, c);
    if own != [] {
      assert own[..0] == [] && PushesIn(own[..0]) == [];
    }
  }

  lemma OnePush(e: Action, c: nat)
    requires e.PushFrame? && e.client == c
    ensures PushesIn(OwnOf(e, c)) == [e.frame]
  {
    var own := OwnOf(e, c);
    assert own[..0] == [];
    assert PushesIn(own) == [] + [e.frame];
  }

  lemma PlacedAtPush(s: Server, e: Action, c: nat, pushes: seq<Frame>, begun: seq<Frame>)
    requires Inv(s) && Enabled(s, e) && e.PushFrame? && e.client == c && BegunOk(s.producers[e.channel], begun)
    requires Placed(s, c, pushes, begun)
    ensures c < |Apply(s, e).clients| && Apply(s, e).clients[c].channel == e.channel
    ensures Placed(Apply(s, e), c, pushes + [e.frame], begun)
  {
    PushIsDue(s, e, c, begun);
    var front := begun[..|begun| - 1];
    assert Subsequence(pushes, front);
    OrderAtPush(pushes, front, e.frame);
    assert front + [e.frame] == begun;
  }

  lemma PlacedAtBind(s: Server, e: Action, c: nat, begun: seq<Frame>)
    requires Enabled(s, e) && e.BindChannel? && e.client == c && BegunOk(s.producers[e.channel], begun)
    ensures c < |Apply(s, e).clients| && Apply(s, e).clients[c].channel == e.channel
    ensures Placed(Apply(s, e), c, [], begun)
  {
  }

  lemma ChannelChanges(s: Server, e: Action, c: nat)
    requires Enabled(s, e) && c < |s.clients|
    ensures c < |Apply(s, e).clients|
    ensures Apply(s, e).clients[c].channel != s.clients[c].channel ==> e.BindChannel? && e.client == c
  {
  }

  /** One step that neither pushes to the client nor binds it. */
  lemma PlacedElsewhere(s: Server, e: Action, c: nat, pushes: seq<Frame>, begun: seq<Frame>)
    requires Enabled(s, e) && c < |s.clients| && !(e.PushFrame? && e.client == c) && !(e.BindChannel? && e.client == c)
    requires Placed(s, c, pushes, begun)
    ensures c < |Apply(s, e).clients| && Apply(s, e).clients[c].channel == s.clients[c].channel
    ensures Placed(Apply(s, e), c, pushes, begun + BegunOf(e, s.clients[c].channel))
  {
    var ch := s.clients[c].channel;
    ChannelChanges(s, e, c);
    if ch != -1 {
      if BegunOf(e, ch) == [] {
        DueOnlyEnds(s, e, ch, c);
        assert begun + [] == begun;
      } else {
        OrderAtBegin(pushes, begun, Due(s.producers[ch], c), e.frame);
      }
    }
  }

  lemma NewClient(s: Server, e: Action, c: nat)
    requires Enabled(s, e) && c >= |s.clients|
    ensures c < |Apply(s, e).clients| ==> Apply(s, e).clients[c].channel == -1
    ensures PushesIn(OwnOf(e, c)) == []
  {
  }

  /** In every run, for every client. */
  lemma {:induction false} RunInOrder(limits: Limits, codecs: seq<Codec>, actions: seq<Action>, states: seq<Server>,
                                      n: nat, c: nat)
    requires IsRun(limits, codecs, actions, states) && n <= |actions|
    ensures ClientInOrder(states[n], actions[..n], c)
  {
    if n > 0 {
      var s, e := states[n - 1], actions[n - 1];
      RunInOrder(limits, codecs, actions, states, n - 1, c);
      RunInv(limits, codecs, actions, states, n - 1);
      assert StepsAt(actions, states, n - 1);
      PushesStep(actions, n, c);
      if c >= |s.clients| {
        NewClient(s, e, c);
      } else {
        OrderStep(limits, codecs, actions, states, n, c);
      }
    }
  }

  lemma OrderStep(limits: Limits, codecs: seq<Codec>, actions: seq<Action>, states: seq<Server>, n: nat, c: nat)
    requires IsRun(limits, codecs, actions, states) && 0 < n <= |actions| && c < |states[n - 1].clients|
    requires Inv(states[n - 1]) && StepsAt(actions, states, n - 1)
    requires ClientInOrder(states[n - 1], actions[..n - 1], c)
    ensures ClientInOrder(states[n], actions[..n], c)
  {
    var s, e := states[n - 1], actions[n - 1];
    var pushes := PushesIn(Project(actions[..n - 1], c));
    PushesStep(actions, n, c);
    if e.PushFrame? && e.client == c {
      StepAtPush(limits, codecs, actions, states, n, c);
    } else {
      NoPush(e, c);
      assert pushes + [] == pushes;
      if e.BindChannel? && e.client == c {
        ProducerCount(limits, codecs, actions, states, n - 1);
        ProducersOk(limits, codecs, actions, states, n - 1, e.channel);
        PlacedAtBind(s, e, c, Begun(actions[..n - 1], e.channel));
        BegunSteps(actions, n, e.channel);
        assert Begun(actions[..n - 1], e.channel) + [] == Begun(actions[..n - 1], e.channel);
      } else {
        PlacedElsewhere(s, e, c, pushes, Begun(actions[..n - 1], s.clients[c].channel));
        BegunSteps(actions, n, s.clients[c].channel);
      }
    }
  }

  lemma StepAtPush(limits: Limits, codecs: seq<Codec>, actions: seq<Action>, states: seq<Server>, n: nat, c: nat)
    requires IsRun(limits, codecs, actions, states) && 0 < n <= |actions| && c < |states[n - 1].clients|
    requires Inv(states[n - 1]) && StepsAt(actions, states, n - 1)
    requires ClientInOrder(states[n - 1], actions[..n - 1], c)
    requires actions[n - 1].PushFrame? && actions[n - 1].client == c
    ensures ClientInOrder(states[n], actions[..n], c)
  {
    var s, e := states[n - 1], actions[n - 1];
    var begun := Begun(actions[..n - 1], e.channel);
    ProducerCount(limits, codecs, actions, states, n - 1);
    ProducersOk(limits, codecs, actions, states, n - 1, e.channel);
    PushIsDue(s, e, c, begun);
    PlacedAtPush(s, e, c, PushesIn(Project(actions[..n - 1], c)), begun);
    PushesStep(actions, n, c);
    OnePush(e, c);
    BegunSteps(actions, n, e.channel);
    assert begun + [] == begun;
  }

  /**
   In every run: the frames pushed to a client, and those it takes from its queue, are in
   order and each at most once among the frames its channel has begun to deliver.
   */
  lemma FramesArriveInOrder(limits: Limits, codecs: seq<Codec>, actions: seq<Action>, states: seq<Server>, n: nat, c: nat)
    requires IsRun(limits, codecs, actions, states) && n <= |actions| && c < |states[n].clients|
    ensures
      var own, begun := Project(actions[..n], c), Begun(actions[..n], states[n].clients[c].channel);
      Subsequence(PushesIn(own), begun) && Subsequence(Taken(limits, own), begun)
  {
    var own, begun := Project(actions[..n], c), Begun(actions[..n], states[n].clients[c].channel);
    RunInOrder(limits, codecs, actions, states, n, c);
    TakenArePushed(limits, own);
    SubTrans(Taken(limits, own), PushesIn(own), begun);
  }
}
