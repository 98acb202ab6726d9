// One backend's two deadlines, from what has happened to it.
module BackendHealth {
  import opened Text
  import opened LeaseTable

  const COOLDOWN := 1_000_000_000

  datatype Event = Renewed(now: int) | Failed(now: int) | Succeeded(now: int)

  /** A backend's two deadlines. */
  datatype Health = Health(expiresAt: int, retryAt: Option<int>)

  function Apply(h: Health, e: Event): Health {
    match e
    case Renewed(now) => h.(expiresAt := now + LEASE)
    case Failed(now) => h.(retryAt := Some(now + COOLDOWN))
    case Succeeded(_) => h.(retryAt := None)
  }

  /** The deadlines the events leave behind, starting from the registration that created the backend. */
  function Fold(registered: int, events: seq<Event>): Health {
    if events == [] then Health(registered + LEASE, None)
    else Apply(Fold(registered, events[..|events| - 1]), events[|events| - 1])
  }

  function LastRenewed(registered: int, events: seq<Event>): int {
    if events == [] then registered
    else if events[|events| - 1].Renewed? then events[|events| - 1].now
    else LastRenewed(registered, events[..|events| - 1])
  }

  /** The latest health report, if any. */
  function LastHealth(events: seq<Event>): Option<Event> {
    if events == [] then None
    else if !events[|events| - 1].Renewed? then Some(events[|events| - 1])
    else LastHealth(events[..|events| - 1])
  }

  /** The latest report is a failure less than a cooldown old. */
  predicate CoolingDown(events: seq<Event>, now: int) {
    var h := LastHealth(events);
    h.Some? && h.value.Failed? && now < h.value.now + COOLDOWN
  }

  /** `available`, on the deadlines. */
  predicate Allows(expiresAt: int, retryAt: Option<int>, now: int) {
    now < expiresAt && (retryAt.None? || retryAt.value <= now)
  }

  /** Deadlines allow a backend exactly while its lease lives and its latest report is no fresh failure. */
  lemma AvailableIs(registered: int, events: seq<Event>, now: int)
    ensures Allows(Fold(registered, events).expiresAt, Fold(registered, events).retryAt, now) <==>
            now < LastRenewed(registered, events) + LEASE && !CoolingDown(events, now)
  {
    FoldIs(registered, events);
  }

  lemma {:induction false} FoldIs(registered: int, events: seq<Event>)
    ensures Fold(registered, events).expiresAt == LastRenewed(registered, events) + LEASE
    ensures Fold(registered, events).retryAt ==
            if LastHealth(events).Some? && LastHealth(events).value.Failed?
            then Some(LastHealth(events).value.now + COOLDOWN) else None
  {
    if events != [] {
      FoldIs(registered, events[..|events| - 1]);
    }
  }

  lemma FoldNext(registered: int, events: seq<Event>, e: Event)
    ensures Fold(registered, events + [e]) == Apply(Fold(registered, events), e)
  {
    Halves(events, [e]);
  }
}
