/** The ingest worker: connection attempts, reconnects, and the counters it keeps consistent all the while. */
module Ingest {

  datatype Message = Nothing | ErrorMessage | EosMessage | ElementMessage(handlerThrows: bool)

  /**
   What one turn of the attempt's loop meets: the running flag, a buffer before the startup
   deadline is looked at, a buffer while the bus is polled, and the bus message.
   */
  datatype Turn = Turn(running: bool, buffer: bool, deadlinePassed: bool, bufferInPoll: bool, message: Message)

  /**
   The world during one attempt: whether the pipeline can be built and started, buffers
   before and after its loop, the turns of that loop (the running flag falls when they are
   used up), whether an element handler throws while a stopped pipeline is drained, and
   the running flag as the attempt reads it last, as the worker reads it then, and after the wait.
   */
  datatype Attempt = Attempt(builds: bool, plays: bool, earlyBuffer: bool, turns: seq<Turn>, drainThrows: bool,
                             lateBuffer: bool, runningAtReturn: bool, runningAfter: bool, runningAfterWait: bool)

  datatype AttemptResult = Stopped | PipelineError | EndOfStream | Threw

  datatype Ending = Ending(result: AttemptResult, seen: bool)

  /** How the attempt's loop ends, and whether it has seen a buffer by then. */
  function LoopEnding(turns: seq<Turn>, seen: bool): (end: Ending)
    ensures seen ==> end.seen
  {
    if turns == [] || !turns[0].running then Ending(Stopped, seen)
    else
      var turn := turns[0];
      if !seen && !turn.buffer && turn.deadlinePassed then Ending(PipelineError, false)
      else
        var seenNow := seen || turn.buffer || turn.bufferInPoll;
        match turn.message
        case ErrorMessage => Ending(PipelineError, seenNow)
        case EosMessage => Ending(EndOfStream, seenNow)
        case ElementMessage(true) => Ending(Threw, seenNow)
        case _ => LoopEnding(turns[1..], seenNow)
  }

  /** How an attempt really ends, whatever it then reports. */
  function AttemptEnding(a: Attempt): (end: Ending) {
    if !a.builds then Ending(Threw, false)
    else
      var loop := if a.plays then LoopEnding(a.turns, a.earlyBuffer) else Ending(PipelineError, a.earlyBuffer);
      Ending(if loop.result == Stopped && a.drainThrows then Threw else loop.result, loop.seen || a.lateBuffer)
  }

  predicate Failed(a: Attempt) {
    AttemptEnding(a).result in {PipelineError, EndOfStream}
  }

  predicate Reconnects(a: Attempt) {
    Failed(a) && a.runningAtReturn && a.runningAfter
  }

  datatype Stats = Stats(attempts: nat, reconnects: nat, firstBuffers: nat, pipelineErrors: nat, eosEvents: nat)

  /** The chain of inequalities the counters satisfy. */
  predicate Consistent(s: Stats) {
    && s.reconnects <= s.pipelineErrors + s.eosEvents <= s.attempts <= s.reconnects + 1
    && s.firstBuffers <= s.attempts
  }

  /** The counters when an attempt has ended so, with or without its first buffer. */
  function Ended(s: Stats, result: AttemptResult, first: bool): (r: Stats) {
    s.(firstBuffers := s.firstBuffers + if first then 1 else 0,
    pipelineErrors := s.pipelineErrors + if result == PipelineError then 1 else 0,
    eosEvents := s.eosEvents + if result == EndOfStream then 1 else 0)
  }

  /** The counters after one more attempt. */
  function Counted(s: Stats, a: Attempt): (r: Stats) {
    var end := AttemptEnding(a);
    Ended(s, end.result, end.seen).(
    attempts := s.attempts + 1,
    reconnects := s.reconnects + if Reconnects(a) then 1 else 0)
  }

  function CountedAll(s: Stats, attempts: seq<Attempt>): (r: Stats) {
    if attempts == [] then s else Counted(CountedAll(s, attempts[..|attempts| - 1]), attempts[|attempts| - 1])
  }

  const NO_STATS := Stats(0, 0, 0, 0, 0)

  /** In a run, where every attempt but the last is followed by a reconnect, the counts form the chain. */
  lemma {:induction false} RunIsConsistent(attempts: seq<Attempt>)
    requires forall i :: 0 <= i < |attempts| - 1 ==> Reconnects(attempts[i])
    ensures var s := CountedAll(NO_STATS, attempts);
      && Consistent(s) && s.attempts == |attempts|
      && (s.attempts == s.reconnects <==> attempts == [] || Reconnects(attempts[|attempts| - 1]))
  {
    if attempts != [] {
      RunIsConsistent(attempts[..|attempts| - 1]);
    }
  }

  // ------------------------------------------------- how an attempt ends, by its turns

  /** The deadline is met at turn `i` and no buffer has come by then. */
  ghost predicate Starved(early: bool, turns: seq<Turn>, i: nat)
    requires i < |turns|
  {
    && turns[i].deadlinePassed && !early && !turns[i].buffer
    && forall j :: 0 <= j < i ==> !turns[j].buffer && !turns[j].bufferInPoll
  }

  /** The loop gets as far as turn `i`: it runs, and nothing before that turn has ended it. */
  ghost predicate Reaches(early: bool, turns: seq<Turn>, i: nat) {
    && i < |turns|
    && (forall j :: 0 <= j <= i ==> turns[j].running)
    && (forall j :: 0 <= j < i ==> turns[j].message == Nothing || turns[j].message == ElementMessage(false))
    && (forall j :: 0 <= j < i ==> !Starved(early, turns, j))
  }

  /** Turn `i` is reached, the attempt is not given up there, and the bus then has that message. */
  ghost predicate Gets(early: bool, turns: seq<Turn>, i: nat, message: Message) {
    Reaches(early, turns, i) && !Starved(early, turns, i) && turns[i].message == message
  }

  ghost predicate LoopFails(early: bool, turns: seq<Turn>) {
    exists i: nat :: Gets(early, turns, i, ErrorMessage) || (Reaches(early, turns, i) && Starved(early, turns, i))
  }

  ghost predicate LoopMeets(early: bool, turns: seq<Turn>, message: Message) {
    exists i: nat :: Gets(early, turns, i, message)
  }

  /** A buffer comes at a turn that is reached; while the bus is polled only if the attempt goes on. */
  ghost predicate BufferAt(early: bool, turns: seq<Turn>, i: nat) {
    Reaches(early, turns, i) && (turns[i].buffer || (turns[i].bufferInPoll && !Starved(early, turns, i)))
  }

  ghost predicate LoopSees(early: bool, turns: seq<Turn>) {
    early || exists i: nat :: BufferAt(early, turns, i)
  }

  /** The first turn is done with and the loop goes on. */
  ghost predicate GoesOn(early: bool, turns: seq<Turn>) {
    && turns != [] && turns[0].running && (turns[0].message == Nothing || turns[0].message == ElementMessage(false))
    && !Starved(early, turns, 0)
  }

  function SeenAfter(early: bool, turn: Turn): (seen: bool) {
    early || turn.buffer || turn.bufferInPoll
  }

  /** Once the first turn is done with, the turns behind it decide. */
  lemma TurnsBehind(early: bool, turns: seq<Turn>, i: nat)
    requires GoesOn(early, turns) && i + 1 < |turns|
    ensures Starved(early, turns, i + 1) <==> Starved(SeenAfter(early, turns[0]), turns[1..], i)
  {
    var rest := turns[1..];
    assert rest[i] == turns[i + 1];
    if Starved(SeenAfter(early, turns[0]), rest, i) {
      forall j | 0 <= j < i + 1 ensures !turns[j].buffer && !turns[j].bufferInPoll {
        assert j > 0 ==> turns[j] == rest[j - 1];
      }
    }
    if Starved(early, turns, i + 1) {
      assert !turns[0].buffer && !turns[0].bufferInPoll;
      assert forall j :: 0 <= j < i ==> rest[j] == turns[j + 1];
    }
  }

  lemma ReachesBehind(early: bool, turns: seq<Turn>, i: nat)
    requires GoesOn(early, turns)
    ensures Reaches(early, turns, i + 1) <==> Reaches(SeenAfter(early, turns[0]), turns[1..], i)
  {
    var rest, seen := turns[1..], SeenAfter(early, turns[0]);
    if Reaches(early, turns, i + 1) {
      forall j | 0 <= j < i ensures !Starved(seen, rest, j) {
        TurnsBehind(early, turns, j);
        assert !Starved(early, turns, j + 1);
      }
      assert forall j :: 0 <= j <= i ==> rest[j] == turns[j + 1];
    }
    if Reaches(seen, rest, i) {
      forall j | 0 <= j < i + 1 ensures !Starved(early, turns, j) {
        if j > 0 {
          TurnsBehind(early, turns, j - 1);
          assert !Starved(seen, rest, j - 1);
        }
      }
      assert forall j :: 0 < j <= i + 1 ==> turns[j] == rest[j - 1];
    }
  }

  lemma StepBehind(early: bool, turns: seq<Turn>, i: nat)
    requires GoesOn(early, turns)
    ensures Reaches(early, turns, i + 1) <==> Reaches(SeenAfter(early, turns[0]), turns[1..], i)
    ensures Reaches(early, turns, i + 1) ==>
              (Starved(early, turns, i + 1) <==> Starved(SeenAfter(early, turns[0]), turns[1..], i))
    ensures i + 1 < |turns| ==> turns[1..][i] == turns[i + 1]
  {
    ReachesBehind(early, turns, i);
    if i + 1 < |turns| {
      TurnsBehind(early, turns, i);
    }
  }

  lemma MeetsBehind(early: bool, turns: seq<Turn>, message: Message)
    requires GoesOn(early, turns) && turns[0].message != message
    ensures LoopMeets(early, turns, message) <==> LoopMeets(SeenAfter(early, turns[0]), turns[1..], message)
  {
    var rest, seen := turns[1..], SeenAfter(early, turns[0]);
    if i: nat :| Gets(early, turns, i, message) {
      StepBehind(early, turns, i - 1);
      assert Gets(seen, rest, i - 1, message);
    }
    if i: nat :| Gets(seen, rest, i, message) {
      StepBehind(early, turns, i);
      assert Gets(early, turns, i + 1, message);
    }
  }

  lemma FailsBehind(early: bool, turns: seq<Turn>)
    requires GoesOn(early, turns)
    ensures LoopFails(early, turns) <==> LoopFails(SeenAfter(early, turns[0]), turns[1..])
  {
    var rest, seen := turns[1..], SeenAfter(early, turns[0]);
    if i: nat :| Gets(early, turns, i, ErrorMessage) || (Reaches(early, turns, i) && Starved(early, turns, i)) {
      StepBehind(early, turns, i - 1);
      assert Gets(seen, rest, i - 1, ErrorMessage) || (Reaches(seen, rest, i - 1) && Starved(seen, rest, i - 1));
    }
    if i: nat :| Gets(seen, rest, i, ErrorMessage) || (Reaches(seen, rest, i) && Starved(seen, rest, i)) {
      StepBehind(early, turns, i);
      assert Gets(early, turns, i + 1, ErrorMessage) || (Reaches(early, turns, i + 1) && Starved(early, turns, i + 1));
    }
  }

  lemma SeesBehind(early: bool, turns: seq<Turn>)
    requires GoesOn(early, turns)
    ensures LoopSees(early, turns) <==> LoopSees(SeenAfter(early, turns[0]), turns[1..])
  {
    var rest, seen := turns[1..], SeenAfter(early, turns[0]);
    if i: nat :| BufferAt(early, turns, i) {
      if i > 0 {
        StepBehind(early, turns, i - 1);
        assert BufferAt(seen, rest, i - 1);
      }
    }
    if i: nat :| BufferAt(seen, rest, i) {
      StepBehind(early, turns, i);
      assert BufferAt(early, turns, i + 1);
    }
    if turns[0].buffer || turns[0].bufferInPoll {
      assert BufferAt(early, turns, 0);
    }
  }

  /** The loop's ending, in terms of where its messages and buffers lie among its turns. */
  ghost predicate EndsSo(end: Ending, early: bool, turns: seq<Turn>) {
    && (end.result == EndOfStream <==> LoopMeets(early, turns, EosMessage))
    && (end.result == PipelineError <==> LoopFails(early, turns))
    && (end.result == Threw <==> LoopMeets(early, turns, ElementMessage(true)))
    && (end.seen <==> LoopSees(early, turns))
  }

  /** A loop that ends at its first turn, or before it. */
  lemma EndsAtOnce(early: bool, turns: seq<Turn>)
    requires !GoesOn(early, turns)
    ensures EndsSo(LoopEnding(turns, early), early, turns)
  {
    assert forall i: nat :: Reaches(early, turns, i) ==> i == 0;
    if turns != [] && turns[0].running {
      assert Reaches(early, turns, 0);
      assert BufferAt(early, turns, 0) || !BufferAt(early, turns, 0);
      assert Gets(early, turns, 0, turns[0].message) || Starved(early, turns, 0);
    }
  }

  lemma {:induction false} LoopEndsExactly(early: bool, turns: seq<Turn>)
    ensures EndsSo(LoopEnding(turns, early), early, turns)
    decreases |turns|
  {
    if GoesOn(early, turns) {
      LoopEndsExactly(SeenAfter(early, turns[0]), turns[1..]);
      MeetsBehind(early, turns, EosMessage);
      MeetsBehind(early, turns, ElementMessage(true));
      FailsBehind(early, turns);
      SeesBehind(early, turns);
    } else {
      EndsAtOnce(early, turns);
    }
  }

  /** The attempt reaches a turn with an end-of-stream message. */
  ghost predicate MeetsEos(a: Attempt) {
    a.builds && a.plays && LoopMeets(a.earlyBuffer, a.turns, EosMessage)
  }

  /** The pipeline does not start, or a turn is reached with an error or with its deadline met and no buffer yet. */
  ghost predicate MeetsError(a: Attempt) {
    a.builds && (!a.plays || LoopFails(a.earlyBuffer, a.turns))
  }

  /** The pipeline cannot be built, or a handler throws in the loop or while the stopped pipeline is drained. */
  ghost predicate MeetsThrow(a: Attempt) {
    !a.builds || (a.plays && (|| LoopMeets(a.earlyBuffer, a.turns, ElementMessage(true))
                              || (a.drainThrows && !MeetsEos(a) && !MeetsError(a))))
  }

  /** A buffer comes before the loop, at one of its turns, or behind it. */
  ghost predicate MeetsBuffer(a: Attempt) {
    a.builds && (a.earlyBuffer || a.lateBuffer || (a.plays && LoopSees(a.earlyBuffer, a.turns)))
  }

  /** Which way an attempt ends, for every attempt. */
  lemma AttemptEndsExactly(a: Attempt)
    ensures var end := AttemptEnding(a);
      && (end.result == EndOfStream <==> MeetsEos(a))
      && (end.result == PipelineError <==> MeetsError(a))
      && (end.result == Threw <==> MeetsThrow(a))
      && (end.seen <==> MeetsBuffer(a))
  {
    LoopEndsExactly(a.earlyBuffer, a.turns);
  }

  ghost predicate MeetsReconnect(a: Attempt) {
    (MeetsEos(a) || MeetsError(a)) && a.runningAtReturn && a.runningAfter
  }

  /** What an attempt can be counted for. */
  datatype Kind = Eos | Failure | FirstBuffer | Reconnect

  ghost predicate IsOf(a: Attempt, kind: Kind) {
    match kind
    case Eos => MeetsEos(a)
    case Failure => MeetsError(a)
    case FirstBuffer => MeetsBuffer(a)
    case Reconnect => MeetsReconnect(a)
  }

  /** The attempts of a kind, by their places. */
  ghost function Places(attempts: seq<Attempt>, kind: Kind): (places: set<nat>) {
    set i: nat | i < |attempts| && IsOf(attempts[i], kind)
  }

  lemma PlaceIn(front: seq<Attempt>, a: Attempt, kind: Kind, i: nat)
    ensures i in Places(front + [a], kind) <==> i in Places(front, kind) || (i == |front| && IsOf(a, kind))
  {
  }

  lemma PlacesGrow(front: seq<Attempt>, a: Attempt, kind: Kind)
    ensures |Places(front + [a], kind)| == |Places(front, kind)| + if IsOf(a, kind) then 1 else 0
  {
    var before, after := Places(front, kind), Places(front + [a], kind);
    forall i: nat ensures i in after <==> i in before || (i == |front| && IsOf(a, kind)) {
      PlaceIn(front, a, kind, i);
    }
    PlaceAdded(before, after, |front|, IsOf(a, kind));
  }

  lemma PlaceAdded(before: set<nat>, after: set<nat>, n: nat, added: bool)
    requires n !in before && forall i: nat :: i in after <==> i in before || (i == n && added)
    ensures |after| == |before| + if added then 1 else 0
  {
    assert after == if added then before + {n} else before;
  }

  /** `s` with the numbers of such attempts added. */
  ghost predicate CountsAre(r: Stats, s: Stats, attempts: seq<Attempt>) {
    && r.attempts == s.attempts + |attempts|
    && r.reconnects == s.reconnects + |Places(attempts, Reconnect)|
    && r.firstBuffers == s.firstBuffers + |Places(attempts, FirstBuffer)|
    && r.pipelineErrors == s.pipelineErrors + |Places(attempts, Failure)|
    && r.eosEvents == s.eosEvents + |Places(attempts, Eos)|
  }

  /** The counters are the numbers of attempts that ended so. */
  lemma {:induction false} CountersAreNumbers(s: Stats, attempts: seq<Attempt>)
    ensures CountsAre(CountedAll(s, attempts), s, attempts)
  {
    if attempts != [] {
      var front, a := attempts[..|attempts| - 1], attempts[|attempts| - 1];
      CountersAreNumbers(s, front);
      AttemptEndsExactly(a);
      PlacesGrow(front, a, Eos);
      PlacesGrow(front, a, Failure);
      PlacesGrow(front, a, FirstBuffer);
      PlacesGrow(front, a, Reconnect);
      assert attempts == front + [a];
    }
  }

  class ChannelIngest {
    var attempts: nat
    var reconnects: nat
    var firstBuffers: nat
    var pipelineErrors: nat
    var eosEvents: nat
    var firstBufferSeen: bool
    /** The counters after every single update. */
    ghost var history: seq<Stats>

    constructor ()
      ensures BetweenAttempts() && firstBuffers == attempts == 0
    {
      attempts, reconnects, firstBuffers, pipelineErrors, eosEvents := 0, 0, 0, 0, 0;
      firstBufferSeen := false;
      history := [NO_STATS];
    }

    ghost function Now(): (s: Stats)
      reads this
    {
      Stats(attempts, reconnects, firstBuffers, pipelineErrors, eosEvents)
    }

    ghost predicate AlwaysConsistent()
      reads this
    {
      forall i :: 0 <= i < |history| ==> Consistent(history[i])
    }

    /** Every attempt so far has failed exactly once and been followed by a reconnect. */
    ghost predicate BetweenAttempts()
      reads this
    {
      AlwaysConsistent() && attempts == reconnects == pipelineErrors + eosEvents && firstBuffers <= attempts
    }

    /** An attempt is on; `failed` says whether its one failure has been counted. */
    ghost predicate InAttempt(failed: bool)
      reads this
    {
      && AlwaysConsistent() && attempts == reconnects + 1
      && pipelineErrors + eosEvents == reconnects + (if failed then 1 else 0)
      && firstBuffers + (if firstBufferSeen then 0 else 1) <= attempts
    }

    /** The pad probe: the first buffer of an attempt is counted once. */
    method OnIngestBuffer(attemptSeen: bool, ghost failed: bool) returns (seen: bool)
      requires InAttempt(failed)
      modifies this
      ensures InAttempt(failed) && seen
      ensures firstBufferSeen == (old(firstBufferSeen) || !attemptSeen)
      ensures Now() == old(Now()).(firstBuffers := firstBuffers)
      ensures firstBuffers == old(firstBuffers) + if !attemptSeen && !old(firstBufferSeen) then 1 else 0
    {
      if !attemptSeen {
        if !firstBufferSeen {
          firstBufferSeen := true;
          firstBuffers := firstBuffers + 1;
          history := history + [Now()];
        }
      }
      return true;
    }

    method CountError()
      requires InAttempt(false)
      modifies this
      ensures firstBufferSeen == old(firstBufferSeen)
      ensures InAttempt(true) && Now() == old(Now()).(pipelineErrors := old(pipelineErrors) + 1)
    {
      pipelineErrors := pipelineErrors + 1;
      history := history + [Now()];
    }

    method CountEos()
      requires InAttempt(false)
      modifies this
      ensures firstBufferSeen == old(firstBufferSeen)
      ensures InAttempt(true) && Now() == old(Now()).(eosEvents := old(eosEvents) + 1)
    {
      eosEvents := eosEvents + 1;
      history := history + [Now()];
    }

    /**
     One attempt, from a cleared first-buffer flag. A failure is counted once, by its kind,
     even when the attempt then reports that it was stopped.
     */
    method RunAttempt(a: Attempt) returns (result: AttemptResult)
      requires InAttempt(false) && !firstBufferSeen
      modifies this
      ensures InAttempt(Failed(a))
      ensures var end := AttemptEnding(a);
        && Now() == Ended(old(Now()), end.result, end.seen)
        && result == if a.runningAtReturn || end.result == Threw then end.result else Stopped
    {
      if !a.builds {
        return Threw;
      }
      result := Stopped;
      var attemptSeen := false;
      if a.earlyBuffer {
        attemptSeen := OnIngestBuffer(attemptSeen, false);
      }
      if a.plays {
        result, attemptSeen := RunLoop(a.turns, attemptSeen);
      } else {
        CountError();
        result := PipelineError;
      }
      if result == Stopped && a.drainThrows {
        result := Threw;
      }
      if a.lateBuffer {
        attemptSeen := OnIngestBuffer(attemptSeen, result in {PipelineError, EndOfStream});
      }
      if result != Threw && !a.runningAtReturn {
        result := Stopped;
      }
    }

    /** The loop of an attempt over the bus messages, until a failure, an exception or the running flag ends it. */
    method RunLoop(turns: seq<Turn>, seenBefore: bool) returns (result: AttemptResult, attemptSeen: bool)
      requires InAttempt(false) && firstBufferSeen == seenBefore
      modifies this
      ensures Ending(result, attemptSeen) == LoopEnding(turns, seenBefore)
      ensures InAttempt(result in {PipelineError, EndOfStream}) && firstBufferSeen == attemptSeen
      ensures Now() == Ended(old(Now()), result, attemptSeen && !seenBefore)
    {
      result, attemptSeen := Stopped, seenBefore;
      var i := 0;
      while result == Stopped && i < |turns| && turns[i].running
        invariant 0 <= i <= |turns| && (seenBefore ==> attemptSeen)
        invariant InAttempt(result in {PipelineError, EndOfStream}) && firstBufferSeen == attemptSeen
        invariant Now() == Ended(old(Now()), result, attemptSeen && !seenBefore)
        invariant LoopEnding(turns, seenBefore) ==
                  if result == Stopped then LoopEnding(turns[i..], attemptSeen) else Ending(result, attemptSeen)
        decreases |turns| - i
      {
        var turn := turns[i];
        assert turns[i..][0] == turn && turns[i..][1..] == turns[i + 1..];
        i := i + 1;
        if turn.buffer {
          attemptSeen := OnIngestBuffer(attemptSeen, false);
        }
        if !attemptSeen && turn.deadlinePassed {
          CountError();
          result := PipelineError;
          break;
        }
        if turn.bufferInPoll {
          attemptSeen := OnIngestBuffer(attemptSeen, false);
        }
        match turn.message {
          case Nothing => continue;
          case ErrorMessage =>
            CountError();
            result := PipelineError;
          case EosMessage =>
            CountEos();
            result := EndOfStream;
          case ElementMessage(handlerThrows) =>
            if handlerThrows {
              result := Threw;
            }
        }
      }
    }

    /** One turn of the worker's loop: an attempt and, after a failure of a running worker, a reconnect. */
    method Try(a: Attempt) returns (goOn: bool, threw: bool)
      requires BetweenAttempts()
      modifies this
      ensures Now() == Counted(old(Now()), a) && Consistent(Now())
      ensures if Reconnects(a) then BetweenAttempts() else InAttempt(Failed(a))
      ensures goOn == (Reconnects(a) && a.runningAfterWait)
      ensures threw == (AttemptEnding(a).result == Threw)
    {
      attempts := attempts + 1;
      history := history + [Now()];
      firstBufferSeen := false;
      var result := RunAttempt(a);
      if result == Threw {
        return false, true;
      }
      if !a.runningAfter || result == Stopped {
        return false, false;
      }
      reconnects := reconnects + 1;
      history := history + [Now()];
      return a.runningAfterWait, false;
    }

    /**
     The worker's life: attempts until the running flag falls or an attempt throws. All the
     values its counters ever had satisfy the chain, and they count exactly the attempts
     made, the failures of each kind, the first buffers and the reconnects.
     */
    method Run(world: seq<Attempt>) returns (tried: nat, threw: bool)
      requires BetweenAttempts()
      modifies this
      ensures AlwaysConsistent() && Consistent(Now())
      ensures tried <= |world| && Now() == CountedAll(old(Now()), world[..tried])
      ensures CountsAre(Now(), old(Now()), world[..tried])
      ensures forall i :: 0 <= i < tried - 1 ==> Reconnects(world[i]) && world[i].runningAfterWait
      ensures tried < |world| ==> tried > 0 && !(Reconnects(world[tried - 1]) && world[tried - 1].runningAfterWait)
      ensures threw <==> tried > 0 && AttemptEnding(world[tried - 1]).result == Threw
    {
      tried, threw := 0, false;
      var goOn := true;
      while goOn && tried < |world|
        invariant tried <= |world| && AlwaysConsistent() && Consistent(Now())
        invariant Now() == CountedAll(old(Now()), world[..tried])
        invariant goOn ==> BetweenAttempts()
        invariant forall i :: 0 <= i < tried - 1 ==> Reconnects(world[i]) && world[i].runningAfterWait
        invariant goOn <==> tried == 0 || (Reconnects(world[tried - 1]) && world[tried - 1].runningAfterWait)
        invariant threw <==> tried > 0 && AttemptEnding(world[tried - 1]).result == Threw
        decreases |world| - tried
      {
        goOn, threw := Try(world[tried]);
        assert world[..tried + 1][..tried] == world[..tried];
        tried := tried + 1;
      }
      CountersAreNumbers(old(Now()), world[..tried]);
    }
  }

  function Larger(a: int, b: int): (m: int) {
    if a < b then b else a
  }

  /**
   The wait before a reconnect, in slices of at most 100 ms; `running(i)` is what the
   i-th reading of the flag gives. A worker that runs on sleeps the whole delay and no
   more; one that is stopped is found so within one slice.
   */
  method WaitBeforeReconnect(delayMs: int, running: nat -> bool) returns (slept: int, goOn: bool, slices: nat)
    ensures 0 <= slept <= Larger(0, delayMs) && slept <= 100 * slices && (slices > 0 ==> 100 * (slices - 1) < slept)
    ensures forall i: nat :: i < slices ==> running(i)
    ensures slept == Larger(0, delayMs) || !running(slices)
    ensures goOn == running(slices + 1)
  {
    var remaining := delayMs;
    slept, slices := 0, 0;
    while running(slices) && remaining > 0
      invariant slept + remaining == delayMs && 0 <= slept <= 100 * slices && (remaining < 0 ==> slept == 0)
      invariant slices > 0 ==> 100 * (slices - 1) < slept
      invariant remaining > 0 ==> slept == 100 * slices
      invariant forall i: nat :: i < slices ==> running(i)
    {
      var slice := if remaining < 100 then remaining else 100;
      slept := slept + slice;
      remaining := remaining - slice;
      slices := slices + 1;
    }
    goOn := running(slices + 1);
  }
}
