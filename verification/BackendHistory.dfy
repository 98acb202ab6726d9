// Backends over a run of registry calls and health reports, as values: which one each operation
// touches, and when a request may use it.
module BackendHistory {
  import opened Text
  import opened LeaseTable
  import opened BackendHealth

  /** One backend the pool has ever held; requests may go on holding it after it has left. */
  datatype Record<+A> = Record(address: A, expiresAt: int, retryAt: Option<int>)

  /** Every backend in order of its registration, and the current members in the pool's order. */
  datatype State<+A> = State(records: seq<Record<A>>, members: seq<nat>)

  /** A registry call or snapshot, or a request's report on a backend it holds. */
  datatype Op<+A> = Call(c: Timed<A>) | Report(id: nat, failed: bool, now: int)

  predicate Unique<T(==)>(s: seq<T>) {
    forall i, j | 0 <= i < j < |s| :: s[i] != s[j]
  }

  /** The elements whose rows stay when the expired are dropped, in order. */
  function Kept<T(==), A(!new)>(s: seq<T>, rows: seq<Row<A>>, now: int): seq<T>
    requires |s| == |rows|
  {
    if s == [] then []
    else
      var n := |s| - 1;
      if Live(rows[n], now) then Kept(s[..n], rows[..n], now) + [s[n]] else Kept(s[..n], rows[..n], now)
  }

  lemma {:induction false} KeptFrom<T, A(!new)>(s: seq<T>, rows: seq<Row<A>>, now: int)
    requires |s| == |rows|
    ensures var kept := Kept(s, rows, now);
            && |kept| == |Prune(rows, now)| <= |s|
            && (forall k | 0 <= k < |kept| :: kept[k] in s)
            && (Unique(s) ==> Unique(kept))
  {
    if s != [] {
      var n := |s| - 1;
      KeptFrom(s[..n], rows[..n], now);
      assert Unique(s) ==> s[n] !in s[..n];
    }
  }

  predicate Bounded(ids: seq<nat>, n: nat) {
    forall i | 0 <= i < |ids| :: ids[i] < n
  }

  predicate Shaped<A>(s: State<A>) {
    Unique(s.members) && Bounded(s.members, |s.records|)
  }

  function RowAt<A>(r: Record<A>): Row<A> {
    Row(r.address, Some(r.expiresAt))
  }

  function RowsAt<A>(records: seq<Record<A>>, ids: seq<nat>): (rows: seq<Row<A>>)
    requires Bounded(ids, |records|)
    ensures |rows| == |ids| && forall i | 0 <= i < |ids| :: rows[i] == RowAt(records[ids[i]])
  {
    seq(|ids|, i requires 0 <= i < |ids| => RowAt(records[ids[i]]))
  }

  /** The rows the members stand for. */
  function Rows<A>(s: State<A>): seq<Row<A>>
    requires Shaped(s)
  {
    RowsAt(s.records, s.members)
  }

  /** The pool without its expired members. */
  function Pruned<A(!new)>(s: State<A>, now: int): (s': State<A>)
    requires Shaped(s)
    ensures Shaped(s') && s'.records == s.records && |s'.members| == |Prune(Rows(s), now)|
    ensures forall k | 0 <= k < |s'.members| :: s'.members[k] in s.members
  {
    KeptFrom(s.members, Rows(s), now);
    s.(members := Kept(s.members, Rows(s), now))
  }

  /** The position of the member a registration renews, or -1. */
  function Renewing<A(==, !new)>(s: State<A>, a: A, now: int): (i: int)
    requires Shaped(s)
    ensures -1 <= i < |Pruned(s, now).members|
  {
    FirstRow(Prune(Rows(s), now), a, 0)
  }

  function Renew<A>(s: State<A>, i: nat, now: int): (s': State<A>)
    requires Shaped(s) && i < |s.members|
    ensures Shaped(s') && |s'.records| == |s.records|
  {
    var id := s.members[i];
    s.(records := s.records[id := s.records[id].(expiresAt := now + LEASE)])
  }

  function Join<A>(s: State<A>, a: A, now: int): (s': State<A>)
    requires Shaped(s)
    ensures Shaped(s') && |s'.records| == |s.records| + 1
  {
    var id := |s.records|;
    assert forall k | 0 <= k < |s.members| :: s.members[k] != id;
    State(s.records + [Record(a, now + LEASE, None)], s.members + [id])
  }

  function Leave<A>(s: State<A>, i: nat): (s': State<A>)
    requires Shaped(s) && i < |s.members|
    ensures Shaped(s')
  {
    s.(members := s.members[..i] + s.members[i + 1..])
  }

  function NextCall<A(==, !new)>(s: State<A>, c: Timed<A>): (s': State<A>)
    requires Shaped(s)
    ensures Shaped(s') && |s.records| <= |s'.records|
  {
    match c.call
    case Put(a) =>
      var pruned, i := Pruned(s, c.now), Renewing(s, a, c.now);
      if i >= 0 then Renew(pruned, i, c.now)
      else if |pruned.members| >= MAX_BACKENDS then pruned
      else Join(pruned, a, c.now)
    case Del(a) =>
      var i := FirstRow(Rows(s), a, 0);
      if i < 0 then s else Leave(s, i)
    case List => Pruned(s, c.now)
  }

  function Next<A(==, !new)>(s: State<A>, op: Op<A>): (s': State<A>)
    requires Shaped(s)
    ensures Shaped(s') && |s.records| <= |s'.records|
  {
    match op
    case Call(c) => NextCall(s, c)
    case Report(id, failed, now) =>
      if id < |s.records| then
        s.(records := s.records[id := s.records[id].(retryAt := if failed then Some(now + COOLDOWN) else None)])
      else s
  }

  function After<A(==, !new)>(ops: seq<Op<A>>): (s: State<A>)
    ensures Shaped(s)
  {
    if ops == [] then State([], []) else Next(After(ops[..|ops| - 1]), ops[|ops| - 1])
  }

  function Calls<A>(ops: seq<Op<A>>): seq<Timed<A>> {
    if ops == [] then []
    else Calls(ops[..|ops| - 1]) + if ops[|ops| - 1].Call? then [ops[|ops| - 1].c] else []
  }

  // ----- The members' rows follow the calls alone -----

  lemma {:induction false} KeptRowsAt<A(!new)>(records: seq<Record<A>>, ids: seq<nat>, rows: seq<Row<A>>, now: int)
    requires Bounded(ids, |records|) && rows == RowsAt(records, ids)
    ensures Bounded(Kept(ids, rows, now), |records|)
    ensures RowsAt(records, Kept(ids, rows, now)) == Prune(rows, now)
  {
    if ids != [] {
      var n := |ids| - 1;
      assert rows[..n] == RowsAt(records, ids[..n]);
      KeptRowsAt(records, ids[..n], rows[..n], now);
    }
  }

  lemma RenewRows<A(!new)>(s: State<A>, i: nat, now: int)
    requires Shaped(s) && i < |s.members|
    ensures Rows(Renew(s, i, now)) == Rows(s)[i := Row(Rows(s)[i].address, Some(now + LEASE))]
  {
  }

  lemma JoinRows<A(!new)>(s: State<A>, a: A, now: int)
    requires Shaped(s)
    ensures Rows(Join(s, a, now)) == Rows(s) + [LeaseTable.Renewed(a, now)]
  {
  }

  lemma LeaveRows<A(!new)>(s: State<A>, i: nat)
    requires Shaped(s) && i < |s.members|
    ensures Rows(Leave(s, i)) == Rows(s)[..i] + Rows(s)[i + 1..]
  {
  }

  lemma PrunedRows<A(!new)>(s: State<A>, now: int)
    requires Shaped(s)
    ensures Rows(Pruned(s, now)) == Prune(Rows(s), now)
  {
    KeptRowsAt(s.records, s.members, Rows(s), now);
  }

  lemma CallRows<A(!new)>(s: State<A>, c: Timed<A>)
    requires Shaped(s)
    ensures Rows(NextCall(s, c)) == Lazy(Rows(s), c).0
  {
    PrunedRows(s, c.now);
    match c.call
    case Put(a) =>
      var i := Renewing(s, a, c.now);
      if i >= 0 {
        RenewRows(Pruned(s, c.now), i, c.now);
      } else {
        JoinRows(Pruned(s, c.now), a, c.now);
      }
    case Del(a) =>
      var i := FirstRow(Rows(s), a, 0);
      if i >= 0 {
        LeaveRows(s, i);
      }
    case List =>
  }

  lemma ReportRows<A(!new)>(s: State<A>, op: Op<A>)
    requires Shaped(s) && op.Report?
    ensures Rows(Next(s, op)) == Rows(s)
  {
  }

  lemma {:induction false} RowsFollow<A(!new)>(ops: seq<Op<A>>)
    ensures Rows(After(ops)) == RunLazy(Calls(ops))
  {
    if ops != [] {
      var n := |ops| - 1;
      RowsFollow(ops[..n]);
      if ops[n].Call? {
        CallRows(After(ops[..n]), ops[n].c);
        Halves(Calls(ops[..n]), [ops[n].c]);
      } else {
        ReportRows(After(ops[..n]), ops[n]);
        assert Calls(ops[..n]) + [] == Calls(ops[..n]);
      }
    }
  }

  // ----- What happened to one backend -----

  /** What an operation does to a backend that exists before it. */
  function EventsIn<A(==, !new)>(s: State<A>, op: Op<A>, id: nat): seq<Event>
    requires Shaped(s)
  {
    match op
    case Call(c) =>
      if c.call.Put? && Renewing(s, c.call.address, c.now) >= 0
         && Pruned(s, c.now).members[Renewing(s, c.call.address, c.now)] == id
      then [Renewed(c.now)] else []
    case Report(of, failed, now) =>
      if of == id then [if failed then Failed(now) else Succeeded(now)] else []
  }

  /** What a run did to a backend since it was created. */
  function OwnEvents<A(==, !new)>(ops: seq<Op<A>>, id: nat): seq<Event> {
    if ops == [] then []
    else
      var n := |ops| - 1;
      OwnEvents(ops[..n], id) +
      if id < |After(ops[..n]).records| then EventsIn(After(ops[..n]), ops[n], id) else []
  }

  /** When the backend was created. */
  function CreatedAt<A(==, !new)>(ops: seq<Op<A>>, id: nat): int
    requires id < |After(ops).records|
  {
    var n := |ops| - 1;
    if id < |After(ops[..n]).records| then CreatedAt(ops[..n], id) else ops[n].c.now
  }

  function HealthOf<A>(r: Record<A>): Health {
    Health(r.expiresAt, r.retryAt)
  }

  /** One operation does at most one thing to a backend. */
  lemma EventApplies<A(!new)>(s: State<A>, op: Op<A>, id: nat)
    requires Shaped(s) && id < |s.records|
    ensures var more, before, after := EventsIn(s, op, id), s.records[id], Next(s, op).records[id];
            && after.address == before.address && |more| <= 1
            && HealthOf(after) == if more == [] then HealthOf(before) else Apply(HealthOf(before), more[0])
  {
  }

  lemma FoldMore(registered: int, events: seq<Event>, more: seq<Event>)
    requires |more| <= 1
    ensures Fold(registered, events + more) ==
            if more == [] then Fold(registered, events) else Apply(Fold(registered, events), more[0])
  {
    if more == [] {
      assert events + more == events;
    } else {
      FoldNext(registered, events, more[0]);
      assert more == [more[0]];
    }
  }

  lemma HealthStep<A(!new)>(s: State<A>, op: Op<A>, id: nat, registered: int, events: seq<Event>)
    requires Shaped(s) && id < |s.records| && HealthOf(s.records[id]) == Fold(registered, events)
    ensures HealthOf(Next(s, op).records[id]) == Fold(registered, events + EventsIn(s, op, id))
    ensures Next(s, op).records[id].address == s.records[id].address
  {
    EventApplies(s, op, id);
    FoldMore(registered, events, EventsIn(s, op, id));
  }

  /** Over every run, a backend's deadlines are the fold of its own events, member or not. */
  lemma {:induction false} HealthFollows<A(!new)>(ops: seq<Op<A>>, id: nat)
    requires id < |After(ops).records|
    ensures HealthOf(After(ops).records[id]) == Fold(CreatedAt(ops, id), OwnEvents(ops, id))
  {
    var n := |ops| - 1;
    var s, before := After(ops[..n]), OwnEvents(ops[..n], id);
    if id < |s.records| {
      HealthFollows(ops[..n], id);
      HealthStep(s, ops[n], id, CreatedAt(ops[..n], id), before);
    } else {
      NoEventsYet(ops[..n], id);
      Created(s, ops[n], id);
      assert before + [] == before;
    }
  }

  lemma Created<A(!new)>(s: State<A>, op: Op<A>, id: nat)
    requires Shaped(s) && |s.records| <= id < |Next(s, op).records|
    ensures op.Call? && HealthOf(Next(s, op).records[id]) == Health(op.c.now + LEASE, None)
  {
  }

  lemma {:induction false} NoEventsYet<A(!new)>(ops: seq<Op<A>>, id: nat)
    requires id >= |After(ops).records|
    ensures OwnEvents(ops, id) == []
  {
    if ops != [] {
      NoEventsYet(ops[..|ops| - 1], id);
    }
  }

  // ----- When a request may use a backend -----

  /** What `available` answers about a backend. */
  predicate Offered<A>(r: Record<A>, now: int) {
    Allows(r.expiresAt, r.retryAt, now)
  }

  /**
   * After every run, of any backend a request may hold: it is offered exactly while less than a
   * lease has passed since it was last renewed itself and its latest report is no fresh failure.
   */
  lemma OfferedIs<A(!new)>(ops: seq<Op<A>>, id: nat, now: int)
    requires id < |After(ops).records|
    ensures Offered(After(ops).records[id], now) <==>
            now < LastRenewed(CreatedAt(ops, id), OwnEvents(ops, id)) + LEASE && !CoolingDown(OwnEvents(ops, id), now)
  {
    HealthFollows(ops, id);
    AvailableIs(CreatedAt(ops, id), OwnEvents(ops, id), now);
  }

  /**
   * After every run, of a member: it is offered exactly while its address holds a lease by the
   * history of calls and its latest report is no fresh failure.
   */
  lemma MemberOfferedIs<A(!new)>(ops: seq<Op<A>>, id: nat, now: int)
    requires Monotone(Calls(ops)) && id in After(ops).members
    ensures Offered(After(ops).records[id], now) <==>
            Leased(Calls(ops), After(ops).records[id].address, now) && !CoolingDown(OwnEvents(ops, id), now)
  {
    var s, calls := After(ops), Calls(ops);
    OfferedIs(ops, id, now);
    HealthFollows(ops, id);
    FoldIs(CreatedAt(ops, id), OwnEvents(ops, id));
    RowsFollow(ops);
    HistoryExplains(calls);
    var i :| 0 <= i < |s.members| && s.members[i] == id;
    assert Dated(Rows(s)[i], calls);
  }

  /** A backend that has left the pool never comes back: its lease ends when it would have. */
  lemma LeftStep<A(!new)>(s: State<A>, op: Op<A>, id: nat)
    requires Shaped(s) && id < |s.records| && id !in s.members
    ensures id !in Next(s, op).members && Next(s, op).records[id].expiresAt == s.records[id].expiresAt
  {
    if op.Call? && op.c.call.Put? {
      var pruned, i := Pruned(s, op.c.now), Renewing(s, op.c.call.address, op.c.now);
      assert i >= 0 ==> pruned.members[i] in s.members;
    }
  }

  lemma AfterNext<A(!new)>(ops: seq<Op<A>>, op: Op<A>, more: seq<Op<A>>)
    requires ops + [op] == more
    ensures After(more) == Next(After(ops), op)
    ensures Calls(more) == Calls(ops) + if op.Call? then [op.c] else []
  {
    Halves(ops, [op]);
  }

  lemma LastOf<T>(a: seq<T>, b: seq<T>)
    requires b != []
    ensures a + b[..|b| - 1] + [b[|b| - 1]] == a + b
  {
  }

  lemma {:induction false} LeftForGood<A(!new)>(ops: seq<Op<A>>, more: seq<Op<A>>, id: nat)
    requires id < |After(ops).records| && id !in After(ops).members
    ensures var s := After(ops + more);
            id < |s.records| && id !in s.members && s.records[id].expiresAt == After(ops).records[id].expiresAt
  {
    if more == [] {
      assert ops + more == ops;
    } else {
      var n := |more| - 1;
      LeftForGood(ops, more[..n], id);
      LastOf(ops, more);
      AfterNext(ops + more[..n], more[n], ops + more);
      LeftStep(After(ops + more[..n]), more[n], id);
    }
  }

  /**
   * So a request that took its snapshot before a removal is still offered the backend, until
   * the old lease ends, though its address holds none.
   */
  lemma RemovedStillOffered<A(!new)>(a: A)
    ensures var ops := [Call(Timed(Put(a), 0)), Call(Timed(List, 0)), Call(Timed(Del(a), 1))];
            && After(ops[..2]).members == [0] && After(ops).members == []
            && |After(ops).records| == 1 && After(ops).records[0].address == a
            && !Leased(Calls(ops), a, 2) && Offered(After(ops).records[0], 2)
  {
    var put, list, del := Call(Timed(Put(a), 0)), Call(Timed(List, 0)), Call(Timed(Del(a), 1));
    ThreeOps(put, list, del);
    Joins(a);
    Stays(a);
    Leaves(a);
    DeletedUnleased(Calls([put, list, del]), a, 2);
  }

  lemma ThreeOps<A(!new)>(x: Op<A>, y: Op<A>, z: Op<A>)
    ensures var s := Next(Next(State([], []), x), y);
            After([x, y, z][..2]) == s && After([x, y, z]) == Next(s, z)
    ensures z.Call? ==> Calls([x, y, z]) != [] && Calls([x, y, z])[|Calls([x, y, z])| - 1] == z.c
  {
    var none: seq<Op<A>> := [];
    Displays(x, y, z);
    AfterNext(none, x, [x]);
    AfterNext([x], y, [x, y]);
    AfterNext([x, y], z, [x, y, z]);
  }

  lemma Displays<T>(x: T, y: T, z: T)
    ensures [] + [x] == [x] && [x] + [y] == [x, y] && [x, y] + [z] == [x, y, z] && [x, y, z][..2] == [x, y]
  {
  }

  lemma DeletedUnleased<A(!new)>(calls: seq<Timed<A>>, a: A, now: int)
    requires calls != [] && calls[|calls| - 1].call == Del(a)
    ensures !Leased(calls, a, now)
  {
  }

  /** The only member of a pool. */
  function Alone<A>(a: A): State<A> {
    State([Record(a, LEASE, None)], [0])
  }

  lemma Joins<A(!new)>(a: A)
    ensures Next(State([], []), Call(Timed(Put(a), 0))) == Alone(a)
  {
    var none: seq<Row<A>> := [];
    assert Rows(State<A>.State([], [])) == none && Prune(none, 0) == none;
  }

  lemma Stays<A(!new)>(a: A)
    ensures Next(Alone(a), Call(Timed(List, 0))) == Alone(a)
  {
    var rows := Rows(Alone(a));
    assert rows[..0] == [] && Alone(a).members[..0] == [];
    assert [] + [0] == [0];
  }

  lemma Leaves<A(!new)>(a: A)
    ensures Next(Alone(a), Call(Timed(Del(a), 1))) == State(Alone(a).records, [])
  {
    assert FirstRow(Rows(Alone(a)), a, 0) == 0;
    assert Leave(Alone(a), 0).members == [];
  }
}
