// The accept loop and client threads around the counter of active clients.
module ClientSlots {
  import opened Text

  const CLIENT_LIMIT := 32
  const SIZE_T_RANGE := 0x1_0000_0000_0000_0000

  /** Where the accept loop is; connections are numbered in the order they are accepted. */
  datatype Main = Accepting | Accepted(c: nat) | Reserved(c: nat) | Allocated(c: nat)

  /** A client thread handles its connection, then closes it, then gives its slot back. */
  datatype State = State(active: nat, accepted: nat, main: Main, handling: set<nat>, closed: set<nat>)

  datatype Event =
    | Accept
    | Refuse(c: nat)
    | Reserve(c: nat)
    | Allocate(c: nat)
    | AllocateFails(c: nat)
    | Spawn(c: nat)
    | SpawnFails(c: nat)
    | Close(c: nat)
    | Release(c: nat)

  const START := State(0, 0, Accepting, {}, {})

  /** `active_clients--` on a size_t. */
  function Decrement(active: nat): nat {
    (active + SIZE_T_RANGE - 1) % SIZE_T_RANGE
  }

  predicate Step(s: State, e: Event, s': State) {
    match e
    case Accept =>
      s.main.Accepting? && s' == s.(accepted := s.accepted + 1, main := Accepted(s.accepted))
    case Refuse(c) =>
      s.main == Accepted(c) && s.active >= CLIENT_LIMIT && s' == s.(main := Accepting)
    case Reserve(c) =>
      s.main == Accepted(c) && s.active < CLIENT_LIMIT && s' == s.(main := Reserved(c), active := s.active + 1)
    case Allocate(c) =>
      s.main == Reserved(c) && s' == s.(main := Allocated(c))
    case AllocateFails(c) =>
      s.main == Reserved(c) && s' == s.(main := Accepting, active := Decrement(s.active))
    case Spawn(c) =>
      s.main == Allocated(c) && s' == s.(main := Accepting, handling := s.handling + {c})
    case SpawnFails(c) =>
      s.main == Allocated(c) && s' == s.(main := Accepting, active := Decrement(s.active))
    case Close(c) =>
      c in s.handling && s' == s.(handling := s.handling - {c}, closed := s.closed + {c})
    case Release(c) =>
      c in s.closed && s' == s.(closed := s.closed - {c}, active := Decrement(s.active))
  }

  predicate Run(states: seq<State>, events: seq<Event>) {
    && |states| == |events| + 1 && states[0] == START
    && forall i | 0 <= i < |events| :: Step(states[i], events[i], states[i + 1])
  }

  predicate Releases(e: Event, c: nat) {
    e in {AllocateFails(c), SpawnFails(c), Release(c)}
  }

  function Reservations(events: seq<Event>, c: nat): nat {
    if events == [] then 0
    else Reservations(events[..|events| - 1], c) + if events[|events| - 1] == Reserve(c) then 1 else 0
  }

  function ReleaseCount(events: seq<Event>, c: nat): nat {
    if events == [] then 0
    else ReleaseCount(events[..|events| - 1], c) + if Releases(events[|events| - 1], c) then 1 else 0
  }

  /** The connection whose slot the accept loop itself is responsible for. */
  function MainHolder(m: Main): set<nat> {
    if m.Reserved? || m.Allocated? then {m.c} else {}
  }

  /** The connections that have reserved a slot and not given it back. */
  function Holders(s: State): set<nat> {
    s.handling + s.closed + MainHolder(s.main)
  }

  ghost predicate Shape(s: State) {
    && s.handling !! s.closed && MainHolder(s.main) !! s.handling + s.closed
    && (s.main.Accepted? ==> s.main.c < s.accepted && s.main.c !in Holders(s))
    && (forall c | c in Holders(s) :: c < s.accepted)
  }

  ghost predicate CounterInv(s: State) {
    Shape(s) && s.active == |Holders(s)| <= CLIENT_LIMIT
  }

  ghost predicate ConnectionInv(events: seq<Event>, s: State, c: nat) {
    && Reservations(events, c) == ReleaseCount(events, c) + (if c in Holders(s) then 1 else 0)
    && Reservations(events, c) <= 1
    && (c >= s.accepted || s.main == Accepted(c) ==> Reservations(events, c) == 0)
  }

  /** Who joins the holders in a step, and who leaves them. */
  function Joining(e: Event): set<nat> {
    if e.Reserve? then {e.c} else {}
  }

  function Leaving(e: Event): set<nat> {
    if e.AllocateFails? || e.SpawnFails? || e.Release? then {e.c} else {}
  }

  lemma HoldsStep(s: State, e: Event, s': State, c: nat)
    requires Step(s, e, s') && Shape(s)
    ensures c in Holders(s') <==> (c in Holders(s) || c in Joining(e)) && c !in Leaving(e)
    ensures c in Joining(e) ==> c !in Holders(s)
    ensures c in Leaving(e) ==> c in Holders(s)
  {
  }

  lemma ShapeStep(s: State, e: Event, s': State)
    requires Step(s, e, s') && Shape(s)
    ensures Shape(s')
  {
    forall c | c in Holders(s')
      ensures c < s'.accepted && (s'.main.Accepted? ==> s'.main.c != c)
    {
      HoldsStep(s, e, s', c);
    }
  }

  lemma HoldersStep(s: State, e: Event, s': State)
    requires Step(s, e, s') && Shape(s)
    ensures Holders(s') == Holders(s) + Joining(e) - Leaving(e)
    ensures Joining(e) !! Holders(s) && Leaving(e) <= Holders(s)
  {
    forall c: nat {
      HoldsStep(s, e, s', c);
    }
    Same(Holders(s'), Holders(s), Joining(e), Leaving(e));
  }

  lemma Same(after: set<nat>, before: set<nat>, joining: set<nat>, leaving: set<nat>)
    requires forall c: nat :: c in after <==> (c in before || c in joining) && c !in leaving
    requires forall c: nat :: (c in joining ==> c !in before) && (c in leaving ==> c in before)
    ensures after == before + joining - leaving && joining !! before && leaving <= before
  {
  }

  lemma Sizes(s: set<nat>, joining: set<nat>, leaving: set<nat>)
    requires joining !! s && leaving <= s
    ensures |s + joining - leaving| == |s| + |joining| - |leaving|
  {
    assert s + joining - leaving == (s - leaving) + joining || joining * leaving != {};
    assert s == (s - leaving) + leaving;
  }

  lemma {:induction false} CounterStep(s: State, e: Event, s': State)
    requires Step(s, e, s') && CounterInv(s)
    ensures CounterInv(s')
    ensures Leaving(e) != {} ==> s.active >= 1 && s'.active == s.active - 1
  {
    ShapeStep(s, e, s');
    HoldersStep(s, e, s');
    Sizes(Holders(s), Joining(e), Leaving(e));
  }

  lemma ConnectionStep(events: seq<Event>, s: State, e: Event, s': State, c: nat)
    requires Step(s, e, s') && CounterInv(s) && ConnectionInv(events, s, c)
    ensures ConnectionInv(events + [e], s', c)
  {
    Counted(events, e, c);
    HoldsStep(s, e, s', c);
  }

  lemma Counted(events: seq<Event>, e: Event, c: nat)
    ensures Reservations(events + [e], c) == Reservations(events, c) + |Joining(e) * {c}|
    ensures ReleaseCount(events + [e], c) == ReleaseCount(events, c) + |Leaving(e) * {c}|
  {
    Halves(events, [e]);
  }

  /**
   * In every reachable state the counter is the number of admitted connections still holding a
   * slot, never above the limit, and a connection reserves at most once and has been released
   * exactly when it reserved and holds no slot.
   */
  lemma {:induction false} SlotsConserved(states: seq<State>, events: seq<Event>)
    requires Run(states, events)
    ensures CounterInv(states[|events|]) && forall c: nat :: ConnectionInv(events, states[|events|], c)
  {
    if events != [] {
      var n := |events| - 1;
      SlotsConserved(states[..n + 1], events[..n]);
      Rejoin(events, n);
      var s, e, s' := states[n], events[n], states[n + 1];
      assert events[n..] == [e];
      CounterStep(s, e, s');
      forall c: nat
        ensures ConnectionInv(events, s', c)
      {
        ConnectionStep(events[..n], s, e, s', c);
      }
    }
  }

  /** No decrement ever underflows. */
  lemma NoUnderflow(states: seq<State>, events: seq<Event>, i: nat, c: nat)
    requires Run(states, events) && i < |events| && Releases(events[i], c)
    ensures states[i].active >= 1 && states[i + 1].active == states[i].active - 1
  {
    SlotsConserved(states[..i + 1], events[..i]);
    CounterStep(states[i], events[i], states[i + 1]);
  }

  /** A connection is turned away exactly when 32 slots are held, and admitted otherwise. */
  lemma TurnedAwayWhenFull(states: seq<State>, events: seq<Event>, i: nat)
    requires Run(states, events) && i < |events|
    ensures events[i].Refuse? ==> |Holders(states[i])| == CLIENT_LIMIT
    ensures events[i].Reserve? ==> |Holders(states[i])| < CLIENT_LIMIT
  {
    SlotsConserved(states[..i + 1], events[..i]);
    assert Step(states[i], events[i], states[i + 1]);
  }

  /** Once every connection is gone, all slots are free and each admitted one was released exactly once. */
  lemma QuietMeansFree(states: seq<State>, events: seq<Event>, c: nat)
    requires Run(states, events)
    requires states[|events|].main.Accepting? && states[|events|].handling == states[|events|].closed == {}
    ensures states[|events|].active == 0
    ensures Reserve(c) in events ==> Reservations(events, c) == ReleaseCount(events, c) == 1
    ensures Reserve(c) !in events ==> ReleaseCount(events, c) == 0
  {
    SlotsConserved(states, events);
    assert ConnectionInv(events, states[|events|], c);
    Occurs(events, c);
  }

  lemma {:induction false} Occurs(events: seq<Event>, c: nat)
    ensures Reserve(c) in events <==> Reservations(events, c) > 0
  {
    if events != [] {
      Occurs(events[..|events| - 1], c);
      Rejoin(events, |events| - 1);
    }
  }
}
