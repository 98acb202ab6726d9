// The order of a supervisor's system calls, from what they answered alone.
module SupervisorCalls {
  import opened Supervisor

  /** Answers of `waitpid`, of `sigwaitinfo` and of `kill`. */
  predicate OfWait(a: Answer) {
    a.Reaped? || a.NoneReady? || a.WaitError?
  }

  predicate OfSignal(a: Answer) {
    a.Got? || a.SignalError?
  }

  predicate OfKill(a: Answer) {
    a.Sent? || a.SendError?
  }

  /** A signal to pass on was received. */
  predicate ToForward(a: Answer) {
    a.Got? && a.signal != SIGCHLD
  }

  /** The supervisor has returned or given up: its own child was reaped, or a call failed for good. */
  predicate Final(child: nat, a: Answer) {
    (a.Reaped? && a.pid == child) || a == WaitError(false) || a == SignalError(false) || a == SendError(false)
  }

  /**
   * Whatever the kernel answers, the next call is `kill` exactly when a signal other than SIGCHLD was
   * just received, it waits for a signal exactly when no child was ready or the wait was
   * interrupted, and nothing is called after a final answer; otherwise it goes on reaping.
   */
  lemma NextCall(child: nat, answers: seq<Answer>, places: seq<Place>, k: nat)
    requires Follows(child, answers, places) && k + 1 < |answers|
    ensures OfKill(answers[k + 1]) <==> ToForward(answers[k])
    ensures OfSignal(answers[k + 1]) <==> answers[k].NoneReady? || answers[k] == WaitError(true)
    ensures !Final(child, answers[k])
  {
    assert Fits(places[k], answers[k]) && Fits(places[k + 1], answers[k + 1]);
  }

  /** The loop is left exactly after a final answer: with the child's status, or as a failure. */
  lemma WhenLeft(child: nat, answers: seq<Answer>, places: seq<Place>)
    requires Follows(child, answers, places)
    ensures !Supervising(places[|answers|]) <==> answers != [] && Final(child, answers[|answers| - 1])
    ensures places[|answers|].Failed? <==>
            answers != [] && answers[|answers| - 1] in {WaitError(false), SignalError(false), SendError(false)}
    ensures forall code :: places[|answers|] == Returned(code) <==>
              && answers != [] && answers[|answers| - 1].Reaped? && answers[|answers| - 1].pid == child
              && code == ExitStatus(answers[|answers| - 1].status)
  {
    if answers != [] {
      assert Fits(places[|answers| - 1], answers[|answers| - 1]);
    }
  }

  /** The signal about to be sent is the one just received, and none is about to be sent otherwise. */
  lemma SendsWhatArrived(child: nat, answers: seq<Answer>, places: seq<Place>, signal: nat)
    requires Follows(child, answers, places)
    ensures places[|answers|] == Forwarding(signal) <==>
            answers != [] && answers[|answers| - 1] == Got(signal) && signal != SIGCHLD
  {
    if answers != [] {
      assert Fits(places[|answers| - 1], answers[|answers| - 1]);
    }
  }

  /** The first call is `waitpid`. */
  lemma FirstCall(child: nat, answers: seq<Answer>, places: seq<Place>)
    requires Follows(child, answers, places) && answers != []
    ensures OfWait(answers[0])
  {
    assert Fits(places[0], answers[0]);
  }

  // ----- Over every run with the kernel -----

  /** Every signal received that is not SIGCHLD is passed on next, and no other call is `kill`. */
  lemma EverySignalForwarded(states: seq<State>, events: seq<Event>, k: nat)
    requires Run(states, events) && k + 1 < |AnswersIn(events)|
    ensures OfKill(AnswersIn(events)[k + 1]) <==> ToForward(AnswersIn(events)[k])
    ensures OfSignal(AnswersIn(events)[k + 1]) <==> AnswersIn(events)[k].NoneReady?
  {
    var places := RunDrivesLoop(states, events);
    NextCall(states[|events|].child, AnswersIn(events), places, k);
    NeverInterruptedWait(states, events, k);
  }

  lemma {:induction false} NeverInterruptedWait(states: seq<State>, events: seq<Event>, k: nat)
    requires Run(states, events) && k < |AnswersIn(events)|
    ensures AnswersIn(events)[k] != WaitError(true)
  {
    var n := |events| - 1;
    assert Step(states[n], events[n], states[n + 1]);
    if k < |AnswersIn(events[..n])| {
      NeverInterruptedWait(states[..n + 1], events[..n], k);
    }
  }

  /** In every run the supervisor is about to send a signal exactly when it is the one just received. */
  lemma ForwardsWhatArrived(states: seq<State>, events: seq<Event>, signal: nat)
    requires Run(states, events)
    ensures states[|events|].place == Forwarding(signal) <==>
            var answers := AnswersIn(events);
            answers != [] && answers[|answers| - 1] == Got(signal) && signal != SIGCHLD
  {
    var places := RunDrivesLoop(states, events);
    if !states[|events|].place.Starting? && !states[|events|].place.Blocked? {
      SendsWhatArrived(states[|events|].child, AnswersIn(events), places, signal);
    }
  }
}
