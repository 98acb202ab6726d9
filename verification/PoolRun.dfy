// The pool's objects over a run of registry calls and health reports, against their history.
module PoolRun {
  import opened Text
  import opened LeaseTable
  import opened BackendHealth
  import opened BackendHistory
  import opened BackendPool

  /** The backends ever registered, in order, carry the recorded addresses and deadlines. */
  ghost predicate Recorded<A(!new)>(known: seq<Backend<A>>, records: seq<Record<A>>)
    reads known
  {
    && |known| == |records|
    && forall i | 0 <= i < |known| ::
         && known[i].address == records[i].address
         && known[i].expiresAt == Some(records[i].expiresAt)
         && known[i].retryAt == records[i].retryAt
  }

  /** A sequence of backends is that of the ids, looked up. */
  ghost predicate Lists<A(!new)>(entries: seq<Backend<A>>, known: seq<Backend<A>>, ids: seq<nat>) {
    |entries| == |ids| && forall i | 0 <= i < |ids| :: ids[i] < |known| && entries[i] == known[ids[i]]
  }

  /** The pool and the backends anyone may hold stand for a state of the history. */
  ghost predicate Represents<A(!new)>(pool: Pool<A>, known: seq<Backend<A>>, s: State<A>)
    reads pool, pool.Repr, known
  {
    && pool.Valid() && Shaped(s) && Unique(known)
    && (forall i | 0 <= i < |known| :: known[i] in pool.Repr)
    && Recorded(known, s.records) && Lists(pool.Entries(), known, s.members)
  }

  lemma {:induction false} KeptLists<A(!new)>(
    entries: seq<Backend<A>>, known: seq<Backend<A>>, ids: seq<nat>, rows: seq<Row<A>>, now: int)
    requires Lists(entries, known, ids) && |rows| == |ids|
    ensures Lists(Kept(entries, rows, now), known, Kept(ids, rows, now))
  {
    if ids != [] {
      var n := |ids| - 1;
      KeptLists(entries[..n], known, ids[..n], rows[..n], now);
    }
  }

  lemma RowsListed<A(!new)>(entries: seq<Backend<A>>, known: seq<Backend<A>>, s: State<A>)
    requires Shaped(s) && Recorded(known, s.records) && Lists(entries, known, s.members)
    ensures RowsOf(entries) == Rows(s)
  {
  }

  /** Apart from the members' leases, nothing recorded has changed. */
  ghost predicate OnlyLeases<A(!new)>(known: seq<Backend<A>>, records: seq<Record<A>>, entries: seq<Backend<A>>)
    reads known
  {
    && |known| == |records|
    && forall i | 0 <= i < |known| ::
         && known[i].address == records[i].address && known[i].retryAt == records[i].retryAt
         && (known[i] !in entries ==> known[i].expiresAt == Some(records[i].expiresAt))
  }

  /** With the members' leases as in the rows, the whole record is known. */
  lemma LeasesListed<A(!new)>(known: seq<Backend<A>>, records: seq<Record<A>>, s: State<A>, entries: seq<Backend<A>>)
    requires Shaped(s) && Unique(known) && |s.records| == |records|
    requires OnlyLeases(known, records, entries) && Lists(entries, known, s.members) && RowsOf(entries) == Rows(s)
    requires forall i | 0 <= i < |records| ::
               && records[i].address == s.records[i].address && records[i].retryAt == s.records[i].retryAt
               && (i !in s.members ==> records[i].expiresAt == s.records[i].expiresAt)
    ensures Recorded(known, s.records)
  {
    forall i | 0 <= i < |known|
      ensures known[i].expiresAt == Some(s.records[i].expiresAt)
    {
      if i in s.members {
        var p :| 0 <= p < |s.members| && s.members[p] == i;
        assert entries[p] == known[i] && RowsOf(entries)[p] == RowOf(known[i]);
      }
    }
  }

  /** A registration that does not add a backend. */
  lemma SameMembers<A(!new)>(known: seq<Backend<A>>, records: seq<Record<A>>, s: State<A>,
      kept: seq<Backend<A>>, entries: seq<Backend<A>>)
    requires Shaped(s) && Unique(known) && |s.records| == |records|
    requires OnlyLeases(known, records, entries) && Lists(kept, known, s.members)
    requires kept <= entries && RowsOf(entries) == Rows(s)
    requires forall i | 0 <= i < |records| ::
               && records[i].address == s.records[i].address && records[i].retryAt == s.records[i].retryAt
               && (i !in s.members ==> records[i].expiresAt == s.records[i].expiresAt)
    ensures Recorded(known, s.records) && Lists(entries, known, s.members) && forall b | b in entries :: b in known
  {
    assert |entries| == |RowsOf(entries)|;
    LeasesListed(known, records, s, entries);
  }

  /** A registration that adds one. */
  lemma OneMore<A(!new)>(known: seq<Backend<A>>, s: State<A>, a: A, now: int, kept: seq<Backend<A>>, b: Backend<A>)
    requires Shaped(s) && Unique(known) && b !in known
    requires OnlyLeases(known, s.records, kept + [b]) && Lists(kept, known, s.members) && b.retryAt.None?
    requires RowsOf(kept + [b]) == Rows(Join(s, a, now))
    ensures Unique(known + [b]) && Recorded(known + [b], Join(s, a, now).records)
    ensures Lists(kept + [b], known + [b], Join(s, a, now).members)
  {
    var rows := RowsOf(kept + [b]);
    JoinRows(s, a, now);
    assert rows[|kept|] == RowOf(b);
    assert forall p | 0 <= p < |kept| :: rows[p] == RowOf(kept[p]);
    assert RowsOf(kept) == Rows(s);
    LeasesListed(known, s.records, s, kept);
  }

  /** What a registration leaves, before newcomers are noted. */
  ghost predicate Registered<A(!new)>(
    known: seq<Backend<A>>, s: State<A>, a: A, now: int, kept: seq<Backend<A>>, entries: seq<Backend<A>>)
    requires Shaped(s)
    reads known, entries
  {
    && OnlyLeases(known, s.records, entries)
    && Lists(kept, known, Pruned(s, now).members) && kept <= entries && Unique(entries)
    && RowsOf(entries) == Rows(NextCall(s, Timed(Put(a), now)))
    && forall b | b in entries && b !in kept :: b !in known && b.retryAt.None?
  }

  /** The backends known after a registration: one more if the last member is new. */
  function Noted<A(!new)>(known: seq<Backend<A>>, entries: seq<Backend<A>>): seq<Backend<A>> {
    if entries != [] && entries[|entries| - 1] !in known then known + [entries[|entries| - 1]] else known
  }

  lemma Settled<A(!new)>(
    known: seq<Backend<A>>, s: State<A>, a: A, now: int, kept: seq<Backend<A>>, entries: seq<Backend<A>>)
    requires Shaped(s) && Unique(known) && Registered(known, s, a, now, kept, entries)
    ensures var s', known' := NextCall(s, Timed(Put(a), now)), Noted(known, entries);
            Unique(known') && Recorded(known', s'.records) && Lists(entries, known', s'.members)
  {
    var pruned, i := Pruned(s, now), Renewing(s, a, now);
    assert |entries| == |RowsOf(entries)|;
    if i >= 0 {
      SameMembers(known, s.records, Renew(pruned, i, now), kept, entries);
    } else if |pruned.members| >= MAX_BACKENDS {
      SameMembers(known, s.records, pruned, kept, entries);
    } else {
      Joined(known, s, a, now, kept, entries);
    }
  }

  lemma Joined<A(!new)>(
    known: seq<Backend<A>>, s: State<A>, a: A, now: int, kept: seq<Backend<A>>, entries: seq<Backend<A>>)
    requires Shaped(s) && Unique(known) && Registered(known, s, a, now, kept, entries)
    requires Renewing(s, a, now) < 0 && |Pruned(s, now).members| < MAX_BACKENDS
    ensures var s', known' := Join(Pruned(s, now), a, now), Noted(known, entries);
            Unique(known') && Recorded(known', s'.records) && Lists(entries, known', s'.members)
  {
    var b := entries[|kept|];
    assert |entries| == |RowsOf(entries)|;
    assert entries == kept + [b] && forall k | 0 <= k < |kept| :: entries[k] == kept[k];
    OneMore(known, Pruned(s, now), a, now, kept, b);
  }

  /** The call itself. */
  method CallRegister<A(==, !new)>(pool: Pool<A>, known: seq<Backend<A>>, a: A, now: int, ghost s: State<A>)
    returns (ghost kept: seq<Backend<A>>)
    requires Represents(pool, known, s)
    modifies pool.Repr
    ensures pool.Valid() && fresh(pool.Repr - old(pool.Repr))
    ensures forall i | 0 <= i < |known| :: known[i] in pool.Repr
    ensures Registered(known, s, a, now, kept, pool.Entries())
  {
    ghost var was, rows := pool.Entries(), RowsOf(pool.Entries());
    RowsListed(was, known, s);
    kept := Kept(was, rows, now);
    KeptLists(was, known, s.members, rows, now);
    KeptFrom(was, rows, now);
    CallRows(s, Timed(Put(a), now));
    var ok := pool.Register(a, now);
    forall i | 0 <= i < |known|
      ensures known[i].address == s.records[i].address && known[i].retryAt == s.records[i].retryAt
      ensures known[i] !in pool.Entries() ==> known[i].expiresAt == Some(s.records[i].expiresAt)
    {
      var b := known[i];
      assert b in old(pool.Repr) && old(b.expiresAt) == Some(s.records[i].expiresAt);
    }
  }

  /** A registration: the members are renewed, kept or joined as the history says. */
  method Register<A(==, !new)>(pool: Pool<A>, known: seq<Backend<A>>, a: A, now: int, ghost s: State<A>)
    returns (known': seq<Backend<A>>)
    requires Represents(pool, known, s)
    modifies pool.Repr
    ensures fresh(pool.Repr - old(pool.Repr)) && known <= known'
    ensures Represents(pool, known', NextCall(s, Timed(Put(a), now)))
  {
    ghost var kept := CallRegister(pool, known, a, now, s);
    Settled(known, s, a, now, kept, pool.Entries());
    known' := Noted(known, pool.backing[..pool.len]);
  }

  lemma LeavingLists<A(!new)>(entries: seq<Backend<A>>, known: seq<Backend<A>>, s: State<A>, a: A, now: int)
    requires Shaped(s) && Lists(entries, known, s.members)
    ensures var i, next := FirstRow(Rows(s), a, 0), NextCall(s, Timed(Del(a), now));
            && next.records == s.records
            && Lists(if i < 0 then entries else entries[..i] + entries[i + 1..], known, next.members)
  {
  }

  method Remove<A(==, !new)>(pool: Pool<A>, known: seq<Backend<A>>, a: A, now: int, ghost s: State<A>)
    requires Represents(pool, known, s)
    modifies pool`len, pool.backing
    ensures Represents(pool, known, NextCall(s, Timed(Del(a), now))) && pool.Repr == old(pool.Repr)
  {
    ghost var was, next := pool.Entries(), NextCall(s, Timed(Del(a), now));
    RowsListed(was, known, s);
    LeavingLists(was, known, s, a, now);
    var found := pool.Remove(a);
    assert Lists(pool.Entries(), known, next.members);
  }

  method Prune<A(==, !new)>(pool: Pool<A>, known: seq<Backend<A>>, now: int, ghost s: State<A>)
    requires Represents(pool, known, s)
    modifies pool`len, pool.backing
    ensures Represents(pool, known, Pruned(s, now)) && pool.Repr == old(pool.Repr)
  {
    RowsListed(pool.Entries(), known, s);
    KeptLists(pool.Entries(), known, s.members, Rows(s), now);
    pool.PruneExpired(now);
  }

  method Report<A(==, !new)>(pool: Pool<A>, backend: Backend<A>, failed: bool, now: int,
      ghost id: nat, ghost known: seq<Backend<A>>, ghost s: State<A>)
    requires Represents(pool, known, s) && id < |known| && backend == known[id]
    modifies backend`retryAt
    ensures Represents(pool, known, Next(s, Op.Report(id, failed, now)))
  {
    if failed {
      pool.MarkFailure(backend, now);
    } else {
      pool.MarkSuccess(backend);
    }
  }

  /**
   * Whatever happens next, in the registry or to a request holding any backend, the pool and
   * every backend anyone may hold go on standing for the history's next state.
   */
  method Observe<A(==, !new)>(pool: Pool<A>, known: seq<Backend<A>>, op: Op<A>, ghost s: State<A>)
    returns (known': seq<Backend<A>>)
    requires Represents(pool, known, s)
    requires op.Report? ==> op.id < |known|
    modifies pool.Repr
    ensures fresh(pool.Repr - old(pool.Repr)) && known <= known'
    ensures Represents(pool, known', Next(s, op))
  {
    known' := known;
    match op
    case Call(c) =>
      match c.call {
        case Put(a) => known' := Register(pool, known, a, c.now, s);
        case Del(a) => Remove(pool, known, a, c.now, s);
        case List => Prune(pool, known, c.now, s);
      }
    case Report(id, failed, now) => Report(pool, known[id], failed, now, id, known, s);
  }

  /** Reports name backends that have been registered by then. */
  ghost predicate Held<A(!new)>(ops: seq<Op<A>>) {
    forall n | 0 <= n < |ops| && ops[n].Report? :: ops[n].id < |After(ops[..n]).records|
  }

  /** A whole run from an empty pool. */
  method Serve<A(==, !new)>(pool: Pool<A>, ops: seq<Op<A>>) returns (known: seq<Backend<A>>)
    requires pool.Valid() && pool.Entries() == [] && Held(ops)
    modifies pool.Repr
    ensures Represents(pool, known, After(ops))
  {
    known := [];
    for i := 0 to |ops|
      invariant fresh(pool.Repr - old(pool.Repr))
      invariant Represents(pool, known, After(ops[..i]))
    {
      Slices(ops, i, i + 1);
      AfterNext(ops[..i], ops[i], ops[..i + 1]);
      known := Observe(pool, known, ops[i], After(ops[..i]));
    }
    Whole(ops);
  }

  /**
   * `available`, after any run, of any backend a request may hold; of a member it is true
   * exactly when its address holds a lease and its latest report is no failure under a cooldown old.
   */
  method Available<A(==, !new)>(pool: Pool<A>, known: seq<Backend<A>>, id: nat, now: int, ghost ops: seq<Op<A>>)
    returns (ok: bool)
    requires Represents(pool, known, After(ops)) && id < |known|
    ensures ok <==>
            now < LastRenewed(CreatedAt(ops, id), OwnEvents(ops, id)) + LEASE && !CoolingDown(OwnEvents(ops, id), now)
    ensures Monotone(Calls(ops)) && known[id] in pool.Entries() ==>
              (ok <==> Leased(Calls(ops), known[id].address, now) && !CoolingDown(OwnEvents(ops, id), now))
  {
    OfferedIs(ops, id, now);
    if Monotone(Calls(ops)) && known[id] in pool.Entries() {
      ghost var s := After(ops);
      ghost var p :| 0 <= p < |s.members| && pool.Entries()[p] == known[id];
      assert s.members[p] == id;
      MemberOfferedIs(ops, id, now);
    }
    ok := pool.Available(known[id], now);
  }
}
