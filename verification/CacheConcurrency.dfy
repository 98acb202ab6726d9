// Client threads interleaving around the store's mutex, as a step relation.
module CacheConcurrency {
  import opened Text
  import opened CacheStore
  import opened CacheProtocol

  type Slots = seq<Entry<string, string>>
  type Words = Table<string, string>
  type Answer = Reply<string>

  /** Where a client thread is in handling its current line. */
  datatype Phase =
    | Idle
    | Received(raw: string)
    | Locked(raw: string)
    | Clocked(raw: string, now: int)
    | Operated(reply: Answer)
    | Replying(reply: Answer)

  datatype System = System(slots: Slots, holder: Option<nat>, clock: int, phases: map<nat, Phase>)

  datatype Event =
    | Receive(thread: nat, raw: string)   // a complete line has been framed
    | Reject(thread: nat, raw: string)    // not a command: no lock is taken
    | Acquire(thread: nat)
    | Tick(now: int)
    | ReadClock(thread: nat)
    | Operate(thread: nat, raw: string, now: int)
    | Release(thread: nat)
    | Send(thread: nat, reply: Answer)

  function PhaseOf(s: System, t: nat): Phase {
    if t in s.phases then s.phases[t] else Idle
  }

  function Move(s: System, t: nat, p: Phase): System {
    s.(phases := s.phases[t := p])
  }

  ghost predicate Step(s: System, e: Event, s': System) {
    match e
    case Receive(t, raw) =>
      PhaseOf(s, t) == Idle && s' == Move(s, t, Received(raw))
    case Reject(t, raw) =>
      PhaseOf(s, t) == Received(raw) && CommandOf(raw).None? && s' == Move(s, t, Replying(Error))
    case Acquire(t) =>
      var p := PhaseOf(s, t);
      && p.Received? && CommandOf(p.raw).Some? && s.holder.None?
      && s' == Move(s, t, Locked(p.raw)).(holder := Some(t))
    case Tick(now) =>
      s.clock <= now && s' == s.(clock := now)
    case ReadClock(t) =>
      var p := PhaseOf(s, t);
      p.Locked? && s' == Move(s, t, Clocked(p.raw, s.clock))
    case Operate(t, raw, now) =>
      && PhaseOf(s, t) == Clocked(raw, now) && CommandOf(raw).Some?
      && var done := Lazy(s.slots, CommandOf(raw).value, now);
         s' == Move(s, t, Operated(done.1)).(slots := done.0)
    case Release(t) =>
      var p := PhaseOf(s, t);
      p.Operated? && s' == Move(s, t, Replying(p.reply)).(holder := None)
    case Send(t, reply) =>
      PhaseOf(s, t) == Replying(reply) && s' == Move(s, t, Idle)
  }

  ghost predicate Initial(s: System) {
    ValidSlots(s.slots) && s.holder.None? && s.phases == map[]
  }

  ghost predicate Run(states: seq<System>, events: seq<Event>) {
    && |states| == |events| + 1 && Initial(states[0])
    && forall i | 0 <= i < |events| :: Step(states[i], events[i], states[i + 1])
  }

  // ----- The sequential run: commands one after the other, in lock order -----

  datatype LogEntry = Rejected(thread: nat, raw: string) | Ran(thread: nat, raw: string, now: int)

  /** A line takes effect when it is rejected, or while its thread holds the lock. */
  function LogOf(e: Event): seq<LogEntry> {
    match e
    case Reject(t, raw) => [Rejected(t, raw)]
    case Operate(t, raw, now) => [Ran(t, raw, now)]
    case _ => []
  }

  /** The order in which lines took effect. */
  function Log(events: seq<Event>): seq<LogEntry> {
    if events == [] then [] else Log(events[..|events| - 1]) + LogOf(events[|events| - 1])
  }

  lemma LogGrows(events: seq<Event>, e: Event)
    ensures Log(events + [e]) == Log(events) + LogOf(e)
    ensures LogOf(e) == [] ==> Log(events + [e]) == Log(events)
    ensures |LogOf(e)| == 1 ==> Log(events + [e])[..|Log(events)|] == Log(events)
  {
    Halves(events, [e]);
    Halves(Log(events), LogOf(e));
  }

  function Effect(table: Words, e: LogEntry): (Words, Answer) {
    if e.Rejected? || CommandOf(e.raw).None? then (table, Error)
    else Eager(table, CommandOf(e.raw).value, e.now)
  }

  function TableAfter(table: Words, log: seq<LogEntry>): Words {
    if log == [] then table
    else Effect(TableAfter(table, log[..|log| - 1]), log[|log| - 1]).0
  }

  function AnswerTo(table: Words, e: LogEntry, t: nat): seq<Answer> {
    if e.thread == t then [Effect(table, e).1] else []
  }

  /** What the map specification answers to one thread's lines. */
  function AnswersTo(table: Words, log: seq<LogEntry>, t: nat): seq<Answer> {
    if log == [] then []
    else
      var n := |log| - 1;
      AnswersTo(table, log[..n], t) + AnswerTo(TableAfter(table, log[..n]), log[n], t)
  }

  function LineOf(e: LogEntry, t: nat): seq<string> {
    if e.thread == t then [e.raw] else []
  }

  function LinesOf(log: seq<LogEntry>, t: nat): seq<string> {
    if log == [] then [] else LinesOf(log[..|log| - 1], t) + LineOf(log[|log| - 1], t)
  }

  function LogTime(log: seq<LogEntry>, start: int): int {
    if log == [] then start
    else if log[|log| - 1].Ran? then log[|log| - 1].now
    else LogTime(log[..|log| - 1], start)
  }

  /** The clock readings under the lock never decrease. */
  predicate InOrder(log: seq<LogEntry>, start: int) {
    log == [] ||
    var n := |log| - 1;
    InOrder(log[..n], start) && (log[n].Ran? ==> LogTime(log[..n], start) <= log[n].now)
  }

  // ----- What each client sees -----

  function SentIn(e: Event, t: nat): seq<Answer> {
    if e.Send? && e.thread == t then [e.reply] else []
  }

  function Sent(events: seq<Event>, t: nat): seq<Answer> {
    if events == [] then [] else Sent(events[..|events| - 1], t) + SentIn(events[|events| - 1], t)
  }

  function ReceivedIn(e: Event, t: nat): seq<string> {
    if e.Receive? && e.thread == t then [e.raw] else []
  }

  function ReceivedBy(events: seq<Event>, t: nat): seq<string> {
    if events == [] then [] else ReceivedBy(events[..|events| - 1], t) + ReceivedIn(events[|events| - 1], t)
  }

  /** A reply already fixed by the lock point but not yet sent. */
  function Owed(p: Phase): seq<Answer> {
    if p.Operated? || p.Replying? then [p.reply] else []
  }

  /** A line received that has not taken effect yet. */
  function Waiting(p: Phase): seq<string> {
    if p.Received? || p.Locked? || p.Clocked? then [p.raw] else []
  }

  predicate Holds(p: Phase) {
    p.Locked? || p.Clocked? || p.Operated?
  }

  ghost predicate MutexInv(s: System) {
    forall t: nat :: Holds(PhaseOf(s, t)) <==> s.holder == Some(t)
  }

  ghost predicate StoreInv(table: Words, start: int, events: seq<Event>, s: System) {
    var log := Log(events);
    && ValidSlots(s.slots)
    && InOrder(log, start) && LogTime(log, start) <= s.clock
    && LiveTable(s.slots, LogTime(log, start)) == TableAfter(table, log)
    && forall t: nat | PhaseOf(s, t).Clocked? :: LogTime(log, start) <= PhaseOf(s, t).now <= s.clock
  }

  ghost predicate ClientInv(table: Words, events: seq<Event>, s: System, t: nat) {
    && Sent(events, t) + Owed(PhaseOf(s, t)) == AnswersTo(table, Log(events), t)
    && LinesOf(Log(events), t) + Waiting(PhaseOf(s, t)) == ReceivedBy(events, t)
  }

  // ----- Every step keeps the invariants -----

  lemma Phases(s: System, e: Event, s': System, t: nat)
    requires Step(s, e, s')
    requires e.Tick? || e.thread != t
    ensures PhaseOf(s', t) == PhaseOf(s, t)
  {
  }

  lemma {:induction false} MutexStep(s: System, e: Event, s': System)
    requires Step(s, e, s') && MutexInv(s)
    ensures MutexInv(s')
  {
    forall t
      ensures Holds(PhaseOf(s', t)) <==> s'.holder == Some(t)
    {
      assert Holds(PhaseOf(s, t)) <==> s.holder == Some(t);
      if e.Tick? || e.thread != t {
        Phases(s, e, s', t);
      }
    }
  }

  /** Nobody else has read the clock while a thread operates. */
  lemma NoneClocked(s: System, e: Event, s': System, u: nat)
    requires Step(s, e, s') && MutexInv(s) && e.Operate?
    ensures !PhaseOf(s', u).Clocked?
  {
    assert Holds(PhaseOf(s, e.thread));
    assert Holds(PhaseOf(s, u)) ==> u == e.thread;
    if u != e.thread {
      Phases(s, e, s', u);
    }
  }

  lemma {:induction false} LogRan(table: Words, start: int, log: seq<LogEntry>, t: nat, raw: string, now: int)
    requires InOrder(log, start) && LogTime(log, start) <= now && CommandOf(raw).Some?
    ensures var more := log + [Ran(t, raw, now)];
            && InOrder(more, start) && LogTime(more, start) == now
            && TableAfter(table, more) == Eager(TableAfter(table, log), CommandOf(raw).value, now).0
  {
    Halves(log, [Ran(t, raw, now)]);
  }

  lemma SlotsRefine(slots: Slots, table: Words, last: int, c: Command<string, string>, now: int, slots': Slots, table': Words)
    requires ValidSlots(slots) && LiveTable(slots, last) == table && last <= now
    requires slots' == Lazy(slots, c, now).0 && table' == Eager(table, c, now).0
    ensures ValidSlots(slots') && LiveTable(slots', now) == table'
  {
    StepRefines(slots, table, last, c, now);
  }

  lemma {:induction false} StoreOperate(table: Words, start: int, events: seq<Event>, s: System, e: Event, s': System)
    requires Step(s, e, s') && MutexInv(s) && StoreInv(table, start, events, s) && e.Operate?
    ensures StoreInv(table, start, events + [e], s')
  {
    var log := Log(events);
    LogGrows(events, e);
    assert PhaseOf(s, e.thread).Clocked?;
    LogRan(table, start, log, e.thread, e.raw, e.now);
    SlotsRefine(s.slots, TableAfter(table, log), LogTime(log, start), CommandOf(e.raw).value, e.now,
                s'.slots, TableAfter(table, Log(events + [e])));
    forall u: nat {
      NoneClocked(s, e, s', u);
    }
  }

  lemma StoreStep(table: Words, start: int, events: seq<Event>, s: System, e: Event, s': System)
    requires Step(s, e, s') && MutexInv(s) && StoreInv(table, start, events, s)
    ensures StoreInv(table, start, events + [e], s')
  {
    LogGrows(events, e);
    if e.Operate? {
      StoreOperate(table, start, events, s, e, s');
    } else {
      forall u: nat | PhaseOf(s', u).Clocked? && (e.Tick? || e.thread != u)
        ensures PhaseOf(s, u) == PhaseOf(s', u)
      {
        Phases(s, e, s', u);
      }
    }
  }

  /** What one step adds to the answers the specification gives a thread, and to its lines. */
  function AnswersIn(table: Words, e: Event, t: nat): seq<Answer> {
    if LogOf(e) == [] then [] else AnswerTo(table, LogOf(e)[0], t)
  }

  function LinesIn(e: Event, t: nat): seq<string> {
    if LogOf(e) == [] then [] else LineOf(LogOf(e)[0], t)
  }

  lemma {:induction false} Grows(events: seq<Event>, e: Event, t: nat)
    ensures Sent(events + [e], t) == Sent(events, t) + SentIn(e, t)
    ensures ReceivedBy(events + [e], t) == ReceivedBy(events, t) + ReceivedIn(e, t)
  {
    Halves(events, [e]);
  }

  lemma AnswersGrow(table: Words, events: seq<Event>, e: Event, t: nat)
    ensures AnswersTo(table, Log(events + [e]), t) ==
            AnswersTo(table, Log(events), t) + AnswersIn(TableAfter(table, Log(events)), e, t)
    ensures LinesOf(Log(events + [e]), t) == LinesOf(Log(events), t) + LinesIn(e, t)
  {
    LogGrows(events, e);
  }

  /** In one step, what a thread is sent and still owed is what it was owed and newly earns. */
  lemma {:induction false} Balance(table: Words, s: System, e: Event, s': System, t: nat)
    requires Step(s, e, s')
    requires e.Operate? ==> Lazy(s.slots, CommandOf(e.raw).value, e.now).1 == Eager(table, CommandOf(e.raw).value, e.now).1
    ensures SentIn(e, t) + Owed(PhaseOf(s', t)) == Owed(PhaseOf(s, t)) + AnswersIn(table, e, t)
    ensures LinesIn(e, t) + Waiting(PhaseOf(s', t)) == Waiting(PhaseOf(s, t)) + ReceivedIn(e, t)
  {
    if e.Tick? || e.thread != t {
      Phases(s, e, s', t);
    }
  }

  lemma Carry<T>(done: seq<T>, open: seq<T>, all: seq<T>, newlyDone: seq<T>, nowOpen: seq<T>, more: seq<T>)
    requires done + open == all && newlyDone + nowOpen == open + more
    ensures (done + newlyDone) + nowOpen == all + more
  {
    Assoc(done, newlyDone, nowOpen);
    Assoc(done, open, more);
  }

  lemma ClientStep(table: Words, start: int, events: seq<Event>, s: System, e: Event, s': System, t: nat)
    requires Step(s, e, s') && StoreInv(table, start, events, s) && ClientInv(table, events, s, t)
    ensures ClientInv(table, events + [e], s', t)
  {
    var log := Log(events);
    var now := TableAfter(table, log);
    if e.Operate? {
      assert PhaseOf(s, e.thread).Clocked?;
      StepRefines(s.slots, now, LogTime(log, start), CommandOf(e.raw).value, e.now);
    }
    Grows(events, e, t);
    AnswersGrow(table, events, e, t);
    Balance(now, s, e, s', t);
    Carry(Sent(events, t), Owed(PhaseOf(s, t)), AnswersTo(table, log, t),
          SentIn(e, t), Owed(PhaseOf(s', t)), AnswersIn(now, e, t));
    Carry(LinesOf(log, t), Waiting(PhaseOf(s, t)), ReceivedBy(events, t),
          LinesIn(e, t), Waiting(PhaseOf(s', t)), ReceivedIn(e, t));
  }

  /**
   * In every interleaving the slot array, the clock readings under the lock, and every client's
   * replies are those of the map specification running the lines one at a time in lock order;
   * CacheRealTime.EffectBetween places each line's turn between its receipt and its reply.  A client has been sent the answers to its lines, in order, except at
   * most one answer fixed at its lock point and still to be sent, whatever ran since.
   */
  lemma {:induction false} Linearizable(states: seq<System>, events: seq<Event>)
    requires Run(states, events)
    ensures var table, start, s := LiveTable(states[0].slots, states[0].clock), states[0].clock, states[|events|];
            && MutexInv(s)
            && StoreInv(table, start, events, s)
            && forall t: nat :: ClientInv(table, events, s, t)
  {
    var n := |events| - 1;
    var table, start := LiveTable(states[0].slots, states[0].clock), states[0].clock;
    if n >= 0 {
      Linearizable(states[..n + 1], events[..n]);
      var s, e, s' := states[n], events[n], states[n + 1];
      assert Step(s, e, s');
      Rejoin(events, n);
      assert events[n..] == [e];
      MutexStep(s, e, s');
      StoreStep(table, start, events[..n], s, e, s');
      forall t: nat
        ensures ClientInv(table, events, s', t)
      {
        ClientStep(table, start, events[..n], s, e, s', t);
      }
    }
  }

  /** A client with nothing outstanding has had every line answered as the map specification would. */
  lemma {:induction false} IdleClientAnswered(states: seq<System>, events: seq<Event>, t: nat)
    requires Run(states, events) && PhaseOf(states[|events|], t) == Idle
    ensures Sent(events, t) == AnswersTo(LiveTable(states[0].slots, states[0].clock), Log(events), t)
    ensures ReceivedBy(events, t) == LinesOf(Log(events), t)
  {
    Linearizable(states, events);
    assert ClientInv(LiveTable(states[0].slots, states[0].clock), events, states[|events|], t);
  }
}
