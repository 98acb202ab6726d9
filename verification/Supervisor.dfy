// The container runtime's supervisors: a wait loop against the kernel's children and signals.
module Supervisor {
  import opened Text

  const RUNTIME_ERROR := 125
  const SIGCHLD := 17

  /** SIGINT, SIGTERM, SIGHUP and SIGQUIT: forwarded to the child. */
  const FORWARDED := {2, 15, 1, 3}

  // ----- Wait statuses -----

  /** How a process ended. */
  datatype Ending = Exited(code: nat) | Killed(signal: nat, core: bool)

  predicate ValidEnding(e: Ending) {
    match e
    case Exited(code) => code < 256
    case Killed(signal, _) => 1 <= signal <= 126
  }

  /** The status word `waitpid` stores. */
  function StatusWord(e: Ending): nat {
    match e
    case Exited(code) => code * 256
    case Killed(signal, core) => signal + if core then 128 else 0
  }

  /** `exit_status`: the low seven bits tell an exit from a signal. */
  function ExitStatus(status: nat): nat {
    if status % 128 == 0 then status / 256 % 256 else 128 + status % 128
  }

  /** The code a shell would report. */
  function CodeOf(e: Ending): nat {
    match e
    case Exited(code) => code
    case Killed(signal, _) => 128 + signal
  }

  lemma {:induction false} ExitStatusIs(e: Ending)
    requires ValidEnding(e)
    ensures ExitStatus(StatusWord(e)) == CodeOf(e) < 256
  {
    match e
    case Exited(code) =>
      assert code * 256 % 128 == 0 && code * 256 / 256 == code;
    case Killed(signal, core) =>
  }

  // ----- The wait loop -----

  /** Where the supervisor is. `Starting` is before the signals are blocked, `Blocked` before the child exists. */
  datatype Place =
    | Starting
    | Blocked
    | Reaping              // about to call waitpid(-1, &status, WNOHANG)
    | Waiting              // in sigwaitinfo
    | Forwarding(signal: nat)
    | Returned(code: nat)
    | Failed               // _exit(RUNTIME_ERROR)

  predicate Supervising(p: Place) {
    p.Reaping? || p.Waiting? || p.Forwarding?
  }

  /** What one system call answers. */
  datatype Answer =
    | Reaped(pid: nat, status: nat)
    | NoneReady
    | WaitError(interrupted: bool)
    | Got(signal: nat)
    | SignalError(interrupted: bool)
    | Sent
    | SendError(gone: bool)

  /** The kernel answers the call that is being made. */
  predicate Fits(p: Place, a: Answer) {
    match p
    case Reaping => a.Reaped? || a.NoneReady? || a.WaitError?
    case Waiting => a.Got? || a.SignalError?
    case Forwarding(_) => a.Sent? || a.SendError?
    case _ => false
  }

  function Advance(child: nat, p: Place, a: Answer): Place {
    match a
    case Reaped(pid, status) => if pid == child then Returned(ExitStatus(status)) else Reaping
    case NoneReady => Waiting
    case WaitError(interrupted) => if interrupted then Waiting else Failed
    case Got(signal) => if signal == SIGCHLD then Reaping else Forwarding(signal)
    case SignalError(interrupted) => if interrupted then Reaping else Failed
    case Sent => Reaping
    case SendError(gone) => if gone then Reaping else Failed
  }

  /**
   * The loop's meaning: it starts by reaping, every answer is one to the call being made, and the
   * answer decides where it goes. So no answer comes after it has returned or failed.
   */
  predicate Follows(child: nat, answers: seq<Answer>, places: seq<Place>) {
    && |places| == |answers| + 1 && places[0] == Reaping
    && forall i | 0 <= i < |answers| ::
         Fits(places[i], answers[i]) && places[i + 1] == Advance(child, places[i], answers[i])
  }

  lemma GoesOn(child: nat, answers: seq<Answer>, places: seq<Place>, i: nat)
    requires Follows(child, answers, places) && i <= |answers|
    ensures i < |answers| ==> Supervising(places[i])
  {
    assert i < |answers| ==> Fits(places[i], answers[i]);
  }

  /** `supervise`, run until it returns, fails or has no further answer from the kernel. */
  method Supervise(child: nat, answers: seq<Answer>, ghost places: seq<Place>) returns (place: Place, i: nat)
    requires Follows(child, answers, places)
    ensures i == |answers| && place == places[i]
  {
    place, i := Reaping, 0;
    while true
      invariant i <= |answers| && place == Reaping == places[i]
      decreases |answers| - i
    {
      while i < |answers| && answers[i].Reaped?
        invariant i <= |answers| && place == Reaping == places[i]
      {
        i := i + 1;
        if answers[i - 1].pid == child {
          place := Returned(ExitStatus(answers[i - 1].status));
          GoesOn(child, answers, places, i);
          return;
        }
      }
      if i == |answers| { return; }
      i := i + 1;
      if answers[i - 1].WaitError? && !answers[i - 1].interrupted {
        place := Failed;
        GoesOn(child, answers, places, i);
        return;
      }
      place := Waiting;
      if i == |answers| { return; }
      i := i + 1;
      var received := answers[i - 1];
      if received.SignalError? {
        place := Reaping;
        if received.interrupted { continue; }
        place := Failed;
        GoesOn(child, answers, places, i);
        return;
      }
      if received.signal != SIGCHLD {
        place := Forwarding(received.signal);
        if i == |answers| { return; }
        i := i + 1;
        if answers[i - 1].SendError? && !answers[i - 1].gone {
          place := Failed;
          GoesOn(child, answers, places, i);
          return;
        }
      }
      place := Reaping;
    }
  }

  // ----- One supervisor and the kernel -----

  /**
   * The kernel's view of one supervising process: its children that still run, those that have
   * ended but not been waited for, and the blocked signals pending for it.
   */
  datatype State = State(
    place: Place, child: nat, running: set<nat>, ended: map<nat, Ending>, pending: set<nat>,
    waits: nat)   // sigwaitinfo calls that returned since the own child ended

  datatype Event =
    | Block                              // or a mask inherited from the parent
    | Fork(pid: nat)
    | Adopt(pid: nat)                    // an orphan is reparented to the supervisor
    | Ends(pid: nat, ending: Ending)     // a child exits or is killed
    | Arrives(signal: nat)               // someone signals the supervisor, or a child stops or continues
    | Answers(answer: Answer)            // the supervisor's system call returns

  const START := State(Starting, 0, {}, map[], {}, 0)

  /** Signals the supervisor blocks; a standard signal is pending at most once. */
  const WAIT_SIGNALS := FORWARDED + {SIGCHLD}

  /** The own child has ended and not been reaped yet. */
  predicate ChildEnded(s: State) {
    s.child in s.ended
  }

  /** A signal to the supervisor: kept pending while blocked, otherwise without lasting effect. */
  function Signal(s: State, signal: nat): State {
    if !s.place.Starting? && signal in WAIT_SIGNALS then s.(pending := s.pending + {signal}) else s
  }

  /**
   * What the kernel may answer: `waitpid` with WNOHANG returns any ended child, zero if there are
   * only running ones, and an error if there are none; `sigwaitinfo` returns a pending signal.
   */
  predicate MayAnswer(s: State, a: Answer) {
    && Fits(s.place, a)
    && match a
       case Reaped(pid, status) => pid in s.ended && status == StatusWord(s.ended[pid])
       case NoneReady => s.ended == map[] && s.running != {}
       case WaitError(interrupted) => !interrupted && s.ended == map[] && s.running == {}
       case Got(signal) => signal in s.pending
       case SignalError(interrupted) => interrupted
       case _ => true
  }

  /** A call's effect on the kernel: a reaped child and a received signal are gone. */
  function Taken(s: State, a: Answer): State {
    match a
    case Reaped(pid, _) => s.(ended := s.ended - {pid})
    case Got(signal) => s.(pending := s.pending - {signal}, waits := s.waits + if ChildEnded(s) then 1 else 0)
    case SignalError(_) => s.(waits := s.waits + if ChildEnded(s) then 1 else 0)
    case _ => s
  }

  predicate Step(s: State, e: Event, s': State) {
    match e
    case Block =>
      s.place.Starting? && s' == s.(place := Blocked)
    case Fork(pid) =>
      s.place.Blocked? && s' == s.(place := Reaping, child := pid, running := s.running + {pid})
    case Adopt(pid) =>
      && !s.place.Starting? && !s.place.Blocked? && pid != s.child && pid !in s.running && pid !in s.ended
      && s' == s.(running := s.running + {pid})
    case Ends(pid, ending) =>
      && pid in s.running && ValidEnding(ending)
      && s' == Signal(s.(running := s.running - {pid}, ended := s.ended[pid := ending]), SIGCHLD)
    case Arrives(signal) =>
      s' == Signal(s, signal)
    case Answers(a) =>
      MayAnswer(s, a) && s' == Taken(s, a).(place := Advance(s.child, s.place, a))
  }

  predicate Run(states: seq<State>, events: seq<Event>) {
    && |states| == |events| + 1 && states[0] == START
    && forall i | 0 <= i < |events| :: Step(states[i], events[i], states[i + 1])
  }

  /** What every reachable state keeps. */
  predicate Inv(s: State) {
    && (s.place.Starting? || s.place.Blocked? ==> s.waits == 0 && s.running == {} && s.ended == map[])
    && (Supervising(s.place) ==> s.child in s.running || ChildEnded(s))
    && (s.child in s.running ==> !ChildEnded(s) && s.waits == 0)
    && (s.place.Waiting? ==> s.ended == map[] || SIGCHLD in s.pending)
    && (s.place.Waiting? && ChildEnded(s) ==> s.waits == 0)
    && (s.place.Returned? ==> s.child !in s.running && !ChildEnded(s))
    && s.waits <= 1
  }

  lemma {:induction false} InvStep(s: State, e: Event, s': State)
    requires Inv(s) && Step(s, e, s')
    ensures Inv(s')
  {
  }

  lemma {:induction false} Invariant(states: seq<State>, events: seq<Event>)
    requires Run(states, events)
    ensures Inv(states[|events|])
  {
    if events != [] {
      var n := |events| - 1;
      Invariant(states[..n + 1], events[..n]);
      InvStep(states[n], events[n], states[n + 1]);
    }
  }

  /**
   * No lost wake-up: whenever the supervisor waits for a signal while any child has ended, SIGCHLD
   * is pending; from its own child's end to its return it takes at most one signal; and `waitpid`
   * never finds it without children.
   */
  lemma NoLostWakeup(states: seq<State>, events: seq<Event>, i: nat)
    requires Run(states, events) && i <= |events|
    ensures states[i].place.Waiting? && states[i].ended != map[] ==> SIGCHLD in states[i].pending
    ensures states[i].waits <= 1
    ensures !MayAnswer(states[i], WaitError(false))
  {
    Invariant(states[..i + 1], events[..i]);
  }

  /** Calls left until the own child is reaped, when the kernel makes no further move. */
  function CallsLeft(s: State): nat {
    |s.ended| + match s.place case Waiting => 2 case Forwarding(_) => 1 case _ => 0
  }

  /** The supervisor's next answer when its child has ended. */
  function Offer(s: State): Answer
    requires Supervising(s.place)
  {
    match s.place
    case Reaping => Reaped(s.child, if ChildEnded(s) then StatusWord(s.ended[s.child]) else 0)
    case Waiting => Got(SIGCHLD)
    case _ => Sent
  }

  /**
   * Once the own child has ended, the supervisor is never stuck, and every answer returns the
   * child's code, fails to forward, or brings the return nearer with the child still to be reaped.
   */
  lemma {:induction false} Progress(s: State, a: Answer)
    requires Inv(s) && Supervising(s.place) && ChildEnded(s)
    ensures MayAnswer(s, Offer(s))
    ensures MayAnswer(s, a) ==>
      var s' := Taken(s, a).(place := Advance(s.child, s.place, a));
      || s'.place == Returned(ExitStatus(StatusWord(s.ended[s.child])))
      || (a == SendError(false) && s'.place.Failed?)
      || (Supervising(s'.place) && ChildEnded(s') && CallsLeft(s') < CallsLeft(s))
  {
    if a.Reaped? && a.pid in s.ended {
      assert s.ended.Keys == (s.ended - {a.pid}).Keys + {a.pid};
      assert |s.ended.Keys| == |(s.ended - {a.pid}).Keys| + 1;
    }
  }

  // ----- The returned status -----

  ghost predicate OnlyEnding(events: seq<Event>, pid: nat, ending: Ending) {
    ValidEnding(ending) && forall e :: Ends(pid, e) in events <==> e == ending
  }

  /** What the events so far say about the supervisor's own child. */
  ghost predicate Told(events: seq<Event>, s: State) {
    && (s.place.Starting? || s.place.Blocked? ==> forall p, e :: Ends(p, e) !in events)
    && (s.child in s.running ==> forall e :: Ends(s.child, e) !in events)
    && (ChildEnded(s) ==> OnlyEnding(events, s.child, s.ended[s.child]))
    && (s.place.Returned? ==> exists e :: OnlyEnding(events, s.child, e) && s.place.code == CodeOf(e))
  }

  lemma ToldStep(events: seq<Event>, s: State, e: Event, s': State)
    requires Inv(s) && Told(events, s) && Step(s, e, s')
    ensures Told(events + [e], s')
  {
    Adds(events, e);
    if e.Answers? {
      if e.answer.Reaped? && e.answer.pid == s.child {
        ExitStatusIs(s.ended[s.child]);
        assert OnlyEnding(events + [e], s'.child, s.ended[s.child]);
      }
    } else if s.place.Returned? {
      var ending :| OnlyEnding(events, s.child, ending) && s.place.code == CodeOf(ending);
      assert OnlyEnding(events + [e], s.child, ending);
    }
  }

  lemma Adds(events: seq<Event>, e: Event)
    ensures forall x :: x in events + [e] <==> x in events || x == e
  {
  }

  lemma {:induction false} TellsOfChild(states: seq<State>, events: seq<Event>)
    requires Run(states, events)
    ensures Told(events, states[|events|])
  {
    if events != [] {
      var n := |events| - 1;
      Invariant(states[..n + 1], events[..n]);
      TellsOfChild(states[..n + 1], events[..n]);
      ToldStep(events[..n], states[n], events[n], states[n + 1]);
      assert events == events[..n] + [events[n]];
    }
  }

  /** A supervisor returns the code of its own child, which has ended exactly once, whatever else it reaps. */
  lemma ReturnsChildCode(states: seq<State>, events: seq<Event>, ending: Ending)
    requires Run(states, events) && states[|events|].place.Returned?
    ensures exists e :: Ends(states[|events|].child, e) in events
    ensures Ends(states[|events|].child, ending) in events ==> states[|events|].place.code == CodeOf(ending) < 256
  {
    TellsOfChild(states, events);
    var s := states[|events|];
    var e :| OnlyEnding(events, s.child, e) && s.place.code == CodeOf(e);
    assert Ends(s.child, e) in events;
  }

  /**
   * The runtime supervises init, which supervises the command: when init exits with what its own
   * supervisor returned, the runtime returns the command's code unchanged.
   */
  lemma InSeries(
    states: seq<State>, events: seq<Event>, command: Ending, outerStates: seq<State>, outerEvents: seq<Event>)
    requires Run(states, events) && states[|events|].place.Returned?
    requires Ends(states[|events|].child, command) in events
    requires Run(outerStates, outerEvents) && outerStates[|outerEvents|].place.Returned?
    requires Ends(outerStates[|outerEvents|].child, Exited(states[|events|].place.code)) in outerEvents
    ensures outerStates[|outerEvents|].place.code == CodeOf(command)
  {
    ReturnsChildCode(states, events, command);
    ReturnsChildCode(outerStates, outerEvents, Exited(states[|events|].place.code));
  }

  /** The answers a run gave to the supervisor. */
  function AnswersIn(events: seq<Event>): seq<Answer> {
    if events == [] then []
    else
      var e := events[|events| - 1];
      AnswersIn(events[..|events| - 1]) + if e.Answers? then [e.answer] else []
  }

  /** Every run is a run of the wait loop: after the fork its answers drive the loop to where the supervisor is. */
  lemma {:induction false} RunDrivesLoop(states: seq<State>, events: seq<Event>) returns (places: seq<Place>)
    requires Run(states, events)
    ensures var s, answers := states[|events|], AnswersIn(events);
            if s.place.Starting? || s.place.Blocked? then answers == []
            else Follows(s.child, answers, places) && s.place == places[|answers|]
  {
    places := [Reaping];
    if events != [] {
      var n := |events| - 1;
      places := RunDrivesLoop(states[..n + 1], events[..n]);
      var s, s' := states[n], states[n + 1];
      assert Step(s, events[n], s');
      if events[n].Fork? {
        places := [Reaping];
      } else if events[n].Answers? {
        places := places + [s'.place];
      }
    }
  }
}
