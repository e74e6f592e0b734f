/** The session counters, under every interleaving of session threads. */
module Accounting {

  /** Where a session thread stands: which of its four counter updates it has made. */
  datatype Thread = Starting | Opened | Running | Leaving | Ended

  /** Each counter update is one atomic step; other threads may run between any two. */
  datatype Counters = Counters(threads: seq<Thread>, active: int, created: int, closed: int)

  datatype Step =
    | Accept
    | HandshakeFails(thread: nat)
    | AddActive(thread: nat)
    | AddCreated(thread: nat)
    | SubActive(thread: nat)
    | AddClosed(thread: nat)

  predicate Enabled(s: Counters, step: Step) {
    step.Accept? ||
    (step.thread < |s.threads| &&
     match step
     case HandshakeFails(i) => s.threads[i].Starting?
     case AddActive(i) => s.threads[i].Starting?
     case AddCreated(i) => s.threads[i].Opened?
     case SubActive(i) => s.threads[i].Running?
     case AddClosed(i) => s.threads[i].Leaving?)
  }

  function Apply(s: Counters, step: Step): (r: Counters)
    requires Enabled(s, step)
  {
    match step
    case Accept => s.(threads := s.threads + [Starting])
    case HandshakeFails(i) => s.(threads := s.threads[i := Ended])
    case AddActive(i) => s.(threads := s.threads[i := Opened], active := s.active + 1)
    case AddCreated(i) => s.(threads := s.threads[i := Running], created := s.created + 1)
    case SubActive(i) => s.(threads := s.threads[i := Leaving], active := s.active - 1)
    case AddClosed(i) => s.(threads := s.threads[i := Ended], closed := s.closed + 1)
  }

  function Count(threads: seq<Thread>, t: Thread): (n: nat) {
    if threads == [] then 0 else Count(threads[1..], t) + if threads[0] == t then 1 else 0
  }

  lemma {:induction false} CountUpdate(threads: seq<Thread>, i: nat, x: Thread, t: Thread)
    requires i < |threads|
    ensures Count(threads[i := x], t)
         == Count(threads, t) - (if threads[i] == t then 1 else 0) + (if x == t then 1 else 0)
    decreases |threads|
  {
    if i == 0 {
      assert threads[i := x][1..] == threads[1..];
    } else {
      assert threads[i := x][1..] == threads[1..][i - 1 := x];
      CountUpdate(threads[1..], i - 1, x, t);
    }
  }

  lemma {:induction false} CountAppend(threads: seq<Thread>, x: Thread, t: Thread)
    ensures Count(threads + [x], t) == Count(threads, t) + if x == t then 1 else 0
  {
    if threads == [] {
      assert threads + [x] == [x];
    } else {
      assert (threads + [x])[1..] == threads[1..] + [x];
      CountAppend(threads[1..], x, t);
    }
  }

  ghost predicate Inv(s: Counters) {
    && s.active == Count(s.threads, Opened) + Count(s.threads, Running)
    && s.created - s.closed == Count(s.threads, Running) + Count(s.threads, Leaving)
  }

  lemma Preserved(s: Counters, step: Step)
    requires Inv(s) && Enabled(s, step)
    ensures Inv(Apply(s, step))
  {
    var t := Apply(s, step).threads;
    if step.Accept? {
      CountAppend(s.threads, Starting, Opened);
      CountAppend(s.threads, Starting, Running);
      CountAppend(s.threads, Starting, Leaving);
    } else {
      CountUpdate(s.threads, step.thread, t[step.thread], Opened);
      CountUpdate(s.threads, step.thread, t[step.thread], Running);
      CountUpdate(s.threads, step.thread, t[step.thread], Leaving);
    }
  }

  ghost predicate IsRun(steps: seq<Step>, states: seq<Counters>) {
    && |states| == |steps| + 1 && states[0] == Counters([], 0, 0, 0)
    && forall i :: 0 <= i < |steps| ==> StepsAt(steps, states, i)
  }

  ghost predicate StepsAt(steps: seq<Step>, states: seq<Counters>, i: nat)
    requires i < |steps| < |states|
  {
    Enabled(states[i], steps[i]) && states[i + 1] == Apply(states[i], steps[i])
  }

  lemma {:induction false} RunInv(steps: seq<Step>, states: seq<Counters>, n: nat)
    requires IsRun(steps, states) && n < |states|
    ensures Inv(states[n])
  {
    if n > 0 {
      RunInv(steps, states, n - 1);
      assert StepsAt(steps, states, n - 1);
      Preserved(states[n - 1], steps[n - 1]);
    }
  }

  lemma {:induction false} AllEnded(threads: seq<Thread>, t: Thread)
    requires !t.Ended? && forall i :: 0 <= i < |threads| ==> threads[i].Ended?
    ensures Count(threads, t) == 0
  {
    if threads != [] {
      AllEnded(threads[1..], t);
    }
  }

  /**
   In every reachable state the counters disagree by exactly the threads between
   their two updates; when every thread has ended nothing is active and every
   session created has been closed.
   */
  lemma CountersAgree(steps: seq<Step>, states: seq<Counters>, n: nat)
    requires IsRun(steps, states) && n < |states|
    ensures
      var s := states[n];
      && s.active + s.closed - s.created == Count(s.threads, Opened) - Count(s.threads, Leaving)
      && s.active >= 0 && s.created >= s.closed
      && ((forall i :: 0 <= i < |s.threads| ==> s.threads[i].Ended?) ==> s.active == 0 && s.closed == s.created)
  {
    RunInv(steps, states, n);
    var s := states[n];
    if forall i :: 0 <= i < |s.threads| ==> s.threads[i].Ended? {
      AllEnded(s.threads, Opened);
      AllEnded(s.threads, Running);
      AllEnded(s.threads, Leaving);
    }
  }
}
