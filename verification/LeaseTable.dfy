// The load balancer's registry as rows: lazy pruning against an eager lease table, and both
// against the history of registrations and removals.
//
// Times are nanoseconds on the monotonic clock. Addresses are only compared, so the module is
// generic in them.
module LeaseTable {
  import opened Text

  const LEASE := 3_000_000_000
  const MAX_BACKENDS := 32

  /** A registered backend; a statically configured one never expires. */
  datatype Row<+A> = Row(address: A, expiresAt: Option<int>)

  predicate Live<A>(r: Row<A>, now: int) {
    r.expiresAt.None? || now < r.expiresAt.value
  }

  // ----- The operations as the code performs them -----

  function Prune<A(!new)>(rows: seq<Row<A>>, now: int): (kept: seq<Row<A>>)
    ensures |kept| <= |rows|
    ensures forall r :: r in kept <==> r in rows && Live(r, now)
  {
    if rows == [] then []
    else
      var n := |rows| - 1;
      if Live(rows[n], now) then Prune(rows[..n], now) + [rows[n]] else Prune(rows[..n], now)
  }

  /** Index of the first row for an address, or -1. */
  function FirstRow<A(==, !new)>(rows: seq<Row<A>>, a: A, from: nat): (i: int)
    requires from <= |rows|
    ensures i == -1 || from <= i < |rows|
    ensures i >= 0 ==> rows[i].address == a
    ensures forall k | from <= k < (if i < 0 then |rows| else i) :: rows[k].address != a
    decreases |rows| - from
  {
    if from == |rows| then -1
    else if rows[from].address == a then from
    else FirstRow(rows, a, from + 1)
  }

  function Renewed<A>(a: A, now: int): Row<A> {
    Row(a, Some(now + LEASE))
  }

  /** Registration against rows that have just been pruned; false is "backend limit reached". */
  function Admit<A(==, !new)>(rows: seq<Row<A>>, a: A, now: int): (seq<Row<A>>, bool) {
    var i := FirstRow(rows, a, 0);
    if i >= 0 then (rows[i := Row(rows[i].address, Some(now + LEASE))], true)
    else if |rows| >= MAX_BACKENDS then (rows, false)
    else (rows + [Renewed(a, now)], true)
  }

  function Register<A(==, !new)>(rows: seq<Row<A>>, a: A, now: int): (seq<Row<A>>, bool) {
    Admit(Prune(rows, now), a, now)
  }

  /** Removal looks at the rows as they are, expired ones included. */
  function Remove<A(==, !new)>(rows: seq<Row<A>>, a: A): (seq<Row<A>>, bool) {
    var i := FirstRow(rows, a, 0);
    if i >= 0 then (rows[..i] + rows[i + 1..], true) else (rows, false)
  }

  // ----- Runs of registry calls -----

  datatype Call<+A> = Put(address: A) | Del(address: A) | List

  /** What a call answers: whether it succeeded, or the backends a request would be given. */
  datatype Answer<+A> = Done(ok: bool) | Members(rows: seq<Row<A>>)

  datatype Timed<+A> = Timed(call: Call<A>, now: int)

  function Lazy<A(==, !new)>(rows: seq<Row<A>>, c: Timed<A>): (seq<Row<A>>, Answer<A>) {
    match c.call
    case Put(a) => var r := Register(rows, a, c.now); (r.0, Done(r.1))
    case Del(a) => var r := Remove(rows, a); (r.0, Done(r.1))
    case List => (Prune(rows, c.now), Members(Prune(rows, c.now)))
  }

  /** The reference: every expired row is dropped before every call. */
  function Eager<A(==, !new)>(rows: seq<Row<A>>, c: Timed<A>): (seq<Row<A>>, Answer<A>) {
    var live := Prune(rows, c.now);
    match c.call
    case Put(a) => var r := Admit(live, a, c.now); (r.0, Done(r.1))
    case Del(a) => var r := Remove(live, a); (r.0, Done(r.1))
    case List => (live, Members(live))
  }

  function RunLazy<A(==, !new)>(calls: seq<Timed<A>>): seq<Row<A>> {
    if calls == [] then [] else Lazy(RunLazy(calls[..|calls| - 1]), calls[|calls| - 1]).0
  }

  function RunEager<A(==, !new)>(calls: seq<Timed<A>>): seq<Row<A>> {
    if calls == [] then [] else Eager(RunEager(calls[..|calls| - 1]), calls[|calls| - 1]).0
  }

  ghost predicate Monotone<A>(calls: seq<Timed<A>>) {
    forall i, j | 0 <= i <= j < |calls| :: calls[i].now <= calls[j].now
  }

  ghost predicate Distinct<A(!new)>(rows: seq<Row<A>>) {
    forall i, j | 0 <= i < j < |rows| :: rows[i].address != rows[j].address
  }

  // ----- Lazy pruning refines eager pruning -----

  lemma {:induction false} PruneLive<A(!new)>(rows: seq<Row<A>>, now: int)
    requires forall r | r in rows :: Live(r, now)
    ensures Prune(rows, now) == rows
  {
    if rows != [] {
      PruneLive(rows[..|rows| - 1], now);
    }
  }

  lemma {:induction false} PruneLater<A(!new)>(rows: seq<Row<A>>, now: int, later: int)
    requires now <= later
    ensures Prune(Prune(rows, now), later) == Prune(rows, later)
  {
    if rows != [] {
      var n := |rows| - 1;
      PruneLater(rows[..n], now, later);
      if Live(rows[n], now) {
        Halves(Prune(rows[..n], now), [rows[n]]);
      }
    }
  }

  lemma PruneSnoc<A(!new)>(rows: seq<Row<A>>, r: Row<A>, now: int)
    ensures Prune(rows + [r], now) == if Live(r, now) then Prune(rows, now) + [r] else Prune(rows, now)
  {
    Halves(rows, [r]);
  }

  lemma {:induction false} PruneConcat<A(!new)>(a: seq<Row<A>>, b: seq<Row<A>>, now: int)
    ensures Prune(a + b, now) == Prune(a, now) + Prune(b, now)
  {
    if b == [] {
      assert a + b == a;
    } else {
      var n := |b| - 1;
      PruneConcat(a, b[..n], now);
      PruneSnoc(a + b[..n], b[n], now);
      Assoc(a, b[..n], [b[n]]);
      assert b[..n] + [b[n]] == b;
      Assoc(Prune(a, now), Prune(b[..n], now), [b[n]]);
    }
  }

  lemma {:induction false} PruneDistinct<A(!new)>(rows: seq<Row<A>>, now: int)
    requires Distinct(rows)
    ensures Distinct(Prune(rows, now))
  {
    if rows != [] {
      var n := |rows| - 1;
      PruneDistinct(rows[..n], now);
      assert forall q | q in rows[..n] :: q.address != rows[n].address;
      assert forall k | 0 <= k < |Prune(rows[..n], now)| :: Prune(rows[..n], now)[k] in Prune(rows[..n], now);
    }
  }

  /** The pieces of a table around one of its rows. */
  lemma PruneAround<A(!new)>(rows: seq<Row<A>>, i: nat, now: int)
    requires i < |rows|
    ensures var (x, y) := (Prune(rows[..i], now), Prune(rows[i + 1..], now));
            && Prune(rows[..i] + rows[i + 1..], now) == x + y
            && Prune(rows, now) == x + (if Live(rows[i], now) then [rows[i]] else []) + y
  {
    PruneConcat(rows[..i], rows[i + 1..], now);
    PruneConcat(rows[..i + 1], rows[i + 1..], now);
    Rejoin(rows, i + 1);
    Slices(rows, i, i + 1);
  }

  lemma RemoveMiddle<A(!new)>(x: seq<Row<A>>, r: Row<A>, y: seq<Row<A>>)
    requires forall q | q in x :: q.address != r.address
    ensures Remove(x + [r] + y, r.address) == (x + y, true)
  {
    var s := x + [r] + y;
    assert FirstRow(s, r.address, 0) == |x| by {
      assert forall k | 0 <= k < |x| :: s[k] in x;
      assert s[|x|] == r;
    }
    assert s[..|x|] == x && s[|x| + 1..] == y;
  }

  lemma RemoveAbsent<A(!new)>(rows: seq<Row<A>>, a: A)
    requires forall q | q in rows :: q.address != a
    ensures Remove(rows, a) == (rows, false)
  {
  }

  /** Removing and then forgetting the expired is forgetting and then removing. */
  lemma RemovePrunes<A(!new)>(rows: seq<Row<A>>, a: A, now: int)
    requires Distinct(rows)
    ensures Prune(Remove(rows, a).0, now) == Remove(Prune(rows, now), a).0
  {
    var i := FirstRow(rows, a, 0);
    if i < 0 {
      RemoveAbsent(Prune(rows, now), a);
    } else {
      var x, r, y := Prune(rows[..i], now), rows[i], Prune(rows[i + 1..], now);
      PruneAround(rows, i, now);
      OthersDiffer(rows, i);
      if Live(r, now) {
        RemoveMiddle(x, r, y);
      } else {
        assert x + [] == x;
        RemoveAbsent(x + y, a);
      }
    }
  }

  lemma OthersDiffer<A(!new)>(rows: seq<Row<A>>, i: nat)
    requires Distinct(rows) && i < |rows|
    ensures forall q | q in rows[..i] :: q.address != rows[i].address
    ensures forall q | q in rows[i + 1..] :: q.address != rows[i].address
  {
  }

  /** A removal finds a row exactly when there is one. */
  lemma RemoveFinds<A(!new)>(rows: seq<Row<A>>, a: A)
    ensures Remove(rows, a).1 <==> exists r :: r in rows && r.address == a
  {
    if FirstRow(rows, a, 0) >= 0 {
      assert rows[FirstRow(rows, a, 0)] in rows;
    }
  }

  lemma LazyDistinct<A(!new)>(rows: seq<Row<A>>, c: Timed<A>)
    requires Distinct(rows) && |rows| <= MAX_BACKENDS
    ensures Distinct(Lazy(rows, c).0) && |Lazy(rows, c).0| <= MAX_BACKENDS
  {
    PruneDistinct(rows, c.now);
  }

  lemma {:induction false} RunsDistinct<A(!new)>(calls: seq<Timed<A>>)
    ensures Distinct(RunLazy(calls)) && |RunLazy(calls)| <= MAX_BACKENDS
  {
    if calls != [] {
      var n := |calls| - 1;
      RunsDistinct(calls[..n]);
      LazyDistinct(RunLazy(calls[..n]), calls[n]);
    }
  }

  /** Admission leaves only live rows. */
  lemma AdmitLive<A(!new)>(rows: seq<Row<A>>, a: A, now: int)
    requires forall r | r in rows :: Live(r, now)
    ensures forall r | r in Admit(rows, a, now).0 :: Live(r, now)
  {
  }

  function LastTime<A>(calls: seq<Timed<A>>): int {
    if calls == [] then 0 else calls[|calls| - 1].now
  }

  /** One call keeps the lazy rows, once pruned, equal to the eager ones. */
  lemma StepRefines<A(!new)>(rows: seq<Row<A>>, live: seq<Row<A>>, last: int, c: Timed<A>)
    requires Distinct(rows) && Prune(rows, last) == live && last <= c.now
    ensures Prune(Lazy(rows, c).0, c.now) == Eager(live, c).0
    ensures forall r | r in Eager(live, c).0 :: Live(r, c.now)
    ensures !c.call.Del? ==> Lazy(rows, c).1 == Eager(live, c).1
  {
    PruneLater(rows, last, c.now);
    var pruned := Prune(rows, c.now);
    PruneLive(pruned, c.now);
    match c.call
    case Put(a) =>
      AdmitLive(pruned, a, c.now);
      PruneLive(Admit(pruned, a, c.now).0, c.now);
    case Del(a) =>
      RemovePrunes(rows, a, c.now);
    case List =>
  }

  /**
   * Over every run with a clock that never goes back, the lazily pruned rows are the eager
   * lease table, and every call is answered alike except that deleting an expired row that
   * has not been pruned yet reports success.
   */
  lemma {:induction false} LazyRefinesEager<A(!new)>(calls: seq<Timed<A>>)
    requires Monotone(calls)
    ensures Prune(RunLazy(calls), LastTime(calls)) == RunEager(calls)
    ensures forall r | r in RunEager(calls) :: Live(r, LastTime(calls))
  {
    if calls != [] {
      var n := |calls| - 1;
      LazyRefinesEager(calls[..n]);
      RunsDistinct(calls[..n]);
      if n == 0 {
        assert RunLazy(calls[..0]) == [];
        StepRefines([], [], calls[0].now, calls[0]);
      } else {
        StepRefines(RunLazy(calls[..n]), RunEager(calls[..n]), LastTime(calls[..n]), calls[n]);
      }
    }
  }

  lemma RemovalsDiffer<A(!new)>(rows: seq<Row<A>>, a: A, now: int)
    requires Distinct(rows)
    ensures Remove(rows, a).1 != Remove(Prune(rows, now), a).1 <==>
            exists r :: r in rows && r.address == a && !Live(r, now)
  {
    RemoveFinds(rows, a);
    RemoveFinds(Prune(rows, now), a);
    forall r, q | r in rows && q in rows && r.address == a && q.address == a
      ensures r == q
    {
    }
  }

  /** The answers along a run: only a deletion can differ, and exactly when an expired row is still stored. */
  lemma AnswersRefine<A(!new)>(calls: seq<Timed<A>>)
    requires calls != [] && Monotone(calls)
    ensures var n := |calls| - 1;
            var rows, lazy, eager := RunLazy(calls[..n]), Lazy(RunLazy(calls[..n]), calls[n]).1, Eager(RunEager(calls[..n]), calls[n]).1;
            lazy != eager <==>
            && calls[n].call.Del?
            && exists r :: r in rows && r.address == calls[n].call.address && !Live(r, calls[n].now)
  {
    var n := |calls| - 1;
    var rows, c := RunLazy(calls[..n]), calls[n];
    LazyRefinesEager(calls[..n]);
    RunsDistinct(calls[..n]);
    if n == 0 {
      assert rows == [] && RunEager(calls[..0]) == [];
      StepRefines(rows, [], c.now, c);
    } else {
      StepRefines(rows, RunEager(calls[..n]), LastTime(calls[..n]), c);
      PruneLater(rows, LastTime(calls[..n]), c.now);
    }
    if c.call.Del? {
      RemovalsDiffer(rows, c.call.address, c.now);
    }
  }

  // ----- Membership and order from the history alone -----

  function Succeeded<A(==, !new)>(calls: seq<Timed<A>>, n: nat): bool
    requires n < |calls|
  {
    Lazy(RunLazy(calls[..n]), calls[n]).1 == Done(true)
  }

  /** When the address was last registered successfully, unless it was deleted since. */
  function Renewal<A(==, !new)>(calls: seq<Timed<A>>, a: A): Option<int> {
    if calls == [] then None
    else
      var n := |calls| - 1;
      if calls[n].call == Put(a) && Succeeded(calls, n) then Some(calls[n].now)
      else if calls[n].call == Del(a) then None
      else Renewal(calls[..n], a)
  }

  /** The address was renewed less than a lease ago and not deleted since. */
  predicate Leased<A(==, !new)>(calls: seq<Timed<A>>, a: A, now: int) {
    var t := Renewal(calls, a);
    t.Some? && now < t.value + LEASE
  }

  /** The last call at which the address became a member, rather than renewing its lease. */
  function JoinedAt<A(==, !new)>(calls: seq<Timed<A>>, a: A): int {
    if calls == [] then -1
    else
      var n := |calls| - 1;
      if calls[n].call == Put(a) && Succeeded(calls, n) && !Leased(calls[..n], a, calls[n].now) then n
      else JoinedAt(calls[..n], a)
  }

  ghost predicate Member<A(!new)>(rows: seq<Row<A>>, a: A) {
    exists i :: 0 <= i < |rows| && rows[i].address == a
  }

  /** A row's deadline comes from its last renewal. */
  ghost predicate RowsDated<A(!new)>(rows: seq<Row<A>>, calls: seq<Timed<A>>) {
    forall i | 0 <= i < |rows| :: Dated(rows[i], calls)
  }

  ghost predicate Dated<A(!new)>(r: Row<A>, calls: seq<Timed<A>>) {
    var t := Renewal(calls, r.address);
    t.Some? && r.expiresAt == Some(t.value + LEASE)
  }

  ghost predicate RowsComplete<A(!new)>(rows: seq<Row<A>>, calls: seq<Timed<A>>, now: int) {
    forall a | Leased(calls, a, now) :: Member(rows, a)
  }

  ghost predicate RowsOrdered<A(!new)>(rows: seq<Row<A>>, calls: seq<Timed<A>>) {
    && (forall i | 0 <= i < |rows| :: JoinedAt(calls, rows[i].address) < |calls|)
    && forall i, j | 0 <= i < j < |rows| :: JoinedAt(calls, rows[i].address) < JoinedAt(calls, rows[j].address)
  }

  ghost predicate Explained<A(!new)>(rows: seq<Row<A>>, calls: seq<Timed<A>>, now: int) {
    Distinct(rows) && RowsDated(rows, calls) && RowsComplete(rows, calls, now) && RowsOrdered(rows, calls)
  }

  /** Where pruning puts each live row: positions keep their order. */
  lemma {:induction false} PruneOrdered<A(!new)>(rows: seq<Row<A>>, calls: seq<Timed<A>>, now: int)
    requires RowsOrdered(rows, calls) && RowsDated(rows, calls) && Distinct(rows)
    ensures RowsOrdered(Prune(rows, now), calls) && RowsDated(Prune(rows, now), calls) && Distinct(Prune(rows, now))
  {
    if rows != [] {
      var n := |rows| - 1;
      var kept := Prune(rows[..n], now);
      PruneOrdered(rows[..n], calls, now);
      forall k | 0 <= k < |kept|
        ensures kept[k].address != rows[n].address
        ensures JoinedAt(calls, kept[k].address) < JoinedAt(calls, rows[n].address)
      {
        assert kept[k] in rows[..n];
        var i :| 0 <= i < n && rows[i] == kept[k];
      }
    }
  }

  /** Dropping expired rows keeps the explanation, at any later time. */
  lemma PruneExplained<A(!new)>(rows: seq<Row<A>>, calls: seq<Timed<A>>, last: int, now: int)
    requires Explained(rows, calls, last) && last <= now
    ensures Explained(Prune(rows, now), calls, now)
  {
    PruneOrdered(rows, calls, now);
    forall a | Leased(calls, a, now)
      ensures Member(Prune(rows, now), a)
    {
      assert Leased(calls, a, last);
      var i :| 0 <= i < |rows| && rows[i].address == a;
      assert Dated(rows[i], calls);
      assert rows[i] in Prune(rows, now);
      var k :| 0 <= k < |Prune(rows, now)| && Prune(rows, now)[k] == rows[i];
    }
  }

  /** A call says nothing about the addresses it does not name. */
  lemma Unaffected<A(!new)>(calls: seq<Timed<A>>, b: A)
    requires calls != []
    requires var c := calls[|calls| - 1].call; c.List? || c.address != b
    ensures Renewal(calls, b) == Renewal(calls[..|calls| - 1], b)
    ensures JoinedAt(calls, b) == JoinedAt(calls[..|calls| - 1], b)
  {
  }

  /** A renewal keeps the row's place. */
  lemma RenewExplained<A(!new)>(pruned: seq<Row<A>>, calls: seq<Timed<A>>, n: nat, i: nat)
    requires n + 1 == |calls| && i < |pruned|
    requires Explained(pruned, calls[..n], calls[n].now) && Live(pruned[i], calls[n].now)
    requires calls[n].call == Put(pruned[i].address) && Succeeded(calls, n)
    ensures Explained(pruned[i := Renewed(pruned[i].address, calls[n].now)], calls, calls[n].now)
  {
    var now, a := calls[n].now, pruned[i].address;
    var rows := pruned[i := Renewed(a, now)];
    assert Leased(calls[..n], a, now) by {
      assert Dated(pruned[i], calls[..n]);
    }
    forall k | 0 <= k < |rows|
      ensures rows[k].address == pruned[k].address && Dated(rows[k], calls)
      ensures JoinedAt(calls, rows[k].address) == JoinedAt(calls[..n], pruned[k].address)
    {
      if k != i {
        Unaffected(calls, rows[k].address);
        assert Dated(pruned[k], calls[..n]);
      }
    }
    forall b | Leased(calls, b, now)
      ensures Member(rows, b)
    {
      if b == a {
        assert rows[i].address == a;
      } else {
        Unaffected(calls, b);
        assert Member(pruned, b);
        var k :| 0 <= k < |pruned| && pruned[k].address == b;
        assert rows[k].address == b;
      }
    }
  }

  /** A newcomer goes to the end. */
  lemma JoinDated<A(!new)>(pruned: seq<Row<A>>, calls: seq<Timed<A>>, n: nat, a: A)
    requires n + 1 == |calls| && calls[n].call == Put(a) && Succeeded(calls, n)
    requires Distinct(pruned) && RowsDated(pruned, calls[..n]) && RowsOrdered(pruned, calls[..n])
    requires !Member(pruned, a) && !Leased(calls[..n], a, calls[n].now)
    ensures var rows := pruned + [Renewed(a, calls[n].now)];
            Distinct(rows) && RowsDated(rows, calls) && RowsOrdered(rows, calls)
  {
    var rows := pruned + [Renewed(a, calls[n].now)];
    forall k | 0 <= k < |pruned|
      ensures rows[k] == pruned[k] && rows[k].address != a && Dated(rows[k], calls)
      ensures JoinedAt(calls, rows[k].address) == JoinedAt(calls[..n], pruned[k].address)
    {
      Unaffected(calls, rows[k].address);
      assert Dated(pruned[k], calls[..n]);
    }
  }

  lemma JoinComplete<A(!new)>(pruned: seq<Row<A>>, calls: seq<Timed<A>>, n: nat, a: A)
    requires n + 1 == |calls| && calls[n].call == Put(a) && RowsComplete(pruned, calls[..n], calls[n].now)
    ensures RowsComplete(pruned + [Renewed(a, calls[n].now)], calls, calls[n].now)
  {
    var rows := pruned + [Renewed(a, calls[n].now)];
    forall b | Leased(calls, b, calls[n].now)
      ensures Member(rows, b)
    {
      if b == a {
        assert rows[|pruned|].address == a;
      } else {
        Unaffected(calls, b);
        assert Member(pruned, b);
        var k :| 0 <= k < |pruned| && pruned[k].address == b;
        assert rows[k].address == b;
      }
    }
  }

  lemma JoinExplained<A(!new)>(pruned: seq<Row<A>>, calls: seq<Timed<A>>, n: nat, a: A)
    requires n + 1 == |calls| && calls[n].call == Put(a) && Succeeded(calls, n)
    requires Explained(pruned, calls[..n], calls[n].now) && !Member(pruned, a)
    ensures Explained(pruned + [Renewed(a, calls[n].now)], calls, calls[n].now)
  {
    JoinDated(pruned, calls, n, a);
    JoinComplete(pruned, calls, n, a);
  }

  /** A call that changes no lease keeps the explanation. */
  lemma QuietExplained<A(!new)>(rows: seq<Row<A>>, calls: seq<Timed<A>>, n: nat)
    requires n + 1 == |calls| && Explained(rows, calls[..n], calls[n].now)
    requires calls[n].call.List? || (calls[n].call.Put? && !Succeeded(calls, n))
    ensures Explained(rows, calls, calls[n].now)
  {
    assert forall b :: Renewal(calls, b) == Renewal(calls[..n], b);
    assert forall b :: JoinedAt(calls, b) == JoinedAt(calls[..n], b);
    forall i | 0 <= i < |rows|
      ensures Dated(rows[i], calls)
    {
      assert Dated(rows[i], calls[..n]);
    }
    forall b | Leased(calls, b, calls[n].now)
      ensures Member(rows, b)
    {
      assert Leased(calls[..n], b, calls[n].now);
    }
  }

  /** The rows that stay after a deletion, and where they were. */
  lemma DeleteDated<A(!new)>(rows: seq<Row<A>>, rows': seq<Row<A>>, calls: seq<Timed<A>>, n: nat, i: nat)
    requires n + 1 == |calls| && calls[n].call.Del? && i < |rows| && rows[i].address == calls[n].call.address
    requires Distinct(rows) && RowsDated(rows, calls[..n]) && RowsOrdered(rows, calls[..n])
    requires rows' == rows[..i] + rows[i + 1..]
    ensures Distinct(rows') && RowsDated(rows', calls) && RowsOrdered(rows', calls)
  {
    forall k | 0 <= k < |rows'|
      ensures rows'[k] == rows[if k < i then k else k + 1]
      ensures Dated(rows'[k], calls)
      ensures JoinedAt(calls, rows'[k].address) == JoinedAt(calls[..n], rows'[k].address)
    {
      var m := if k < i then k else k + 1;
      assert rows'[k] == rows[m] && rows[m].address != rows[i].address;
      Unaffected(calls, rows[m].address);
      assert Dated(rows[m], calls[..n]);
    }
  }

  lemma DeleteComplete<A(!new)>(rows: seq<Row<A>>, rows': seq<Row<A>>, calls: seq<Timed<A>>, n: nat, i: nat, last: int)
    requires n + 1 == |calls| && last <= calls[n].now && calls[n].call.Del?
    requires i < |rows| && rows[i].address == calls[n].call.address && RowsComplete(rows, calls[..n], last)
    requires rows' == rows[..i] + rows[i + 1..]
    ensures RowsComplete(rows', calls, calls[n].now)
  {
    forall b | Leased(calls, b, calls[n].now)
      ensures Member(rows', b)
    {
      Unaffected(calls, b);
      assert Leased(calls[..n], b, last);
      assert Member(rows, b);
      var m :| 0 <= m < |rows| && rows[m].address == b;
      assert rows'[if m < i then m else m - 1].address == b;
    }
  }

  lemma DeleteExplained<A(!new)>(rows: seq<Row<A>>, calls: seq<Timed<A>>, n: nat, last: int)
    requires n + 1 == |calls| && last <= calls[n].now && calls[n].call.Del?
    requires Explained(rows, calls[..n], last)
    ensures Explained(Remove(rows, calls[n].call.address).0, calls, calls[n].now)
  {
    var a := calls[n].call.address;
    var i := FirstRow(rows, a, 0);
    if i >= 0 {
      DeleteDated(rows, Remove(rows, a).0, calls, n, i);
      DeleteComplete(rows, Remove(rows, a).0, calls, n, i, last);
    } else {
      AbsentExplained(rows, calls, n, last);
    }
  }

  /** Deleting an address that has no row changes nothing. */
  lemma AbsentExplained<A(!new)>(rows: seq<Row<A>>, calls: seq<Timed<A>>, n: nat, last: int)
    requires n + 1 == |calls| && last <= calls[n].now && calls[n].call.Del?
    requires Explained(rows, calls[..n], last) && FirstRow(rows, calls[n].call.address, 0) < 0
    ensures Explained(rows, calls, calls[n].now)
  {
    forall k | 0 <= k < |rows|
      ensures Dated(rows[k], calls)
      ensures JoinedAt(calls, rows[k].address) == JoinedAt(calls[..n], rows[k].address)
    {
      Unaffected(calls, rows[k].address);
      assert Dated(rows[k], calls[..n]);
    }
    forall b | Leased(calls, b, calls[n].now)
      ensures Member(rows, b)
    {
      Unaffected(calls, b);
      assert Leased(calls[..n], b, last);
    }
  }

  lemma StepExplained<A(!new)>(calls: seq<Timed<A>>, last: int)
    requires calls != []
    requires var n := |calls| - 1; Explained(RunLazy(calls[..n]), calls[..n], last) && last <= calls[n].now
    ensures Explained(RunLazy(calls), calls, calls[|calls| - 1].now)
  {
    var n, c := |calls| - 1, calls[|calls| - 1];
    var rows := RunLazy(calls[..n]);
    var pruned := Prune(rows, c.now);
    PruneExplained(rows, calls[..n], last, c.now);
    match c.call
    case Put(a) =>
      var i := FirstRow(pruned, a, 0);
      if i >= 0 {
        RenewExplained(pruned, calls, n, i);
      } else if |pruned| >= MAX_BACKENDS {
        QuietExplained(pruned, calls, n);
      } else {
        JoinExplained(pruned, calls, n, a);
      }
    case Del(a) => DeleteExplained(rows, calls, n, last);
    case List => QuietExplained(pruned, calls, n);
  }

  /** The lazy rows are always explained by the history. */
  lemma {:induction false} HistoryExplains<A(!new)>(calls: seq<Timed<A>>)
    requires Monotone(calls)
    ensures Explained(RunLazy(calls), calls, LastTime(calls))
  {
    if calls != [] {
      var n := |calls| - 1;
      HistoryExplains(calls[..n]);
      StepExplained(calls, if n == 0 then calls[0].now else LastTime(calls[..n]));
    }
  }

  lemma SnapshotExplained<A(!new)>(calls: seq<Timed<A>>, now: int)
    requires Monotone(calls) && (calls != [] ==> LastTime(calls) <= now)
    ensures Explained(Prune(RunLazy(calls), now), calls, now)
  {
    HistoryExplains(calls);
    if calls != [] {
      PruneExplained(RunLazy(calls), calls, LastTime(calls), now);
    }
  }

  // ----- What is stored, and when a deletion's answer differs, from the history alone -----

  /** Some call that drops expired rows was made at that time or later. */
  ghost predicate PrunedSince<A(!new)>(calls: seq<Timed<A>>, time: int) {
    exists k :: 0 <= k < |calls| && !calls[k].call.Del? && time <= calls[k].now
  }

  /** The address was renewed, and neither deleted nor pruned after its lease ended. */
  ghost predicate Stored<A(!new)>(calls: seq<Timed<A>>, a: A) {
    var t := Renewal(calls, a);
    t.Some? && !PrunedSince(calls, t.value + LEASE)
  }

  lemma PrunedLater<A(!new)>(calls: seq<Timed<A>>, time: int)
    requires calls != []
    ensures var n := |calls| - 1;
            PrunedSince(calls, time) <==> PrunedSince(calls[..n], time) || (!calls[n].call.Del? && time <= calls[n].now)
  {
    var n := |calls| - 1;
    if PrunedSince(calls[..n], time) {
      var k :| 0 <= k < n && !calls[..n][k].call.Del? && time <= calls[..n][k].now;
      assert !calls[k].call.Del? && time <= calls[k].now;
    }
    if k :| 0 <= k < n && !calls[k].call.Del? && time <= calls[k].now {
      assert calls[..n][k] == calls[k];
    }
  }

  lemma MemberPruned<A(!new)>(rows: seq<Row<A>>, calls: seq<Timed<A>>, a: A, now: int)
    requires RowsDated(rows, calls)
    ensures Member(Prune(rows, now), a) <==> Member(rows, a) && Leased(calls, a, now)
  {
    var kept := Prune(rows, now);
    if k :| 0 <= k < |kept| && kept[k].address == a {
      assert kept[k] in rows;
      var i :| 0 <= i < |rows| && rows[i] == kept[k];
      assert Dated(rows[i], calls);
    }
    if i :| 0 <= i < |rows| && rows[i].address == a && Leased(calls, a, now) {
      assert Dated(rows[i], calls);
      assert rows[i] in kept;
      var k :| 0 <= k < |kept| && kept[k] == rows[i];
    }
  }

  lemma MemberRemoved<A(!new)>(rows: seq<Row<A>>, b: A, a: A)
    requires Distinct(rows)
    ensures Member(Remove(rows, b).0, a) <==> Member(rows, a) && a != b
  {
    var i, left := FirstRow(rows, b, 0), Remove(rows, b).0;
    if i >= 0 {
      forall k | 0 <= k < |rows| && k != i
        ensures left[if k < i then k else k - 1] == rows[k] && rows[k].address != b
      {
      }
      if k :| 0 <= k < |left| && left[k].address == a {
        assert rows[if k < i then k else k + 1] == left[k];
      }
    }
  }

  lemma MemberAdmitted<A(!new)>(rows: seq<Row<A>>, b: A, now: int, a: A)
    ensures Member(Admit(rows, b, now).0, a) <==> Member(rows, a) || (a == b && Admit(rows, b, now).1)
  {
    var i, more := FirstRow(rows, b, 0), Admit(rows, b, now).0;
    assert forall k | 0 <= k < |rows| :: more[k].address == rows[k].address;
    if i >= 0 {
      assert Member(rows, b);
    } else if |rows| < MAX_BACKENDS {
      assert more[|rows|].address == b;
    }
  }

  /** Which addresses have a row, expired or not. */
  lemma {:induction false} StoredIs<A(!new)>(calls: seq<Timed<A>>, a: A)
    requires Monotone(calls)
    ensures Member(RunLazy(calls), a) <==> Stored(calls, a)
  {
    if calls != [] {
      var n := |calls| - 1;
      var rows, c := RunLazy(calls[..n]), calls[n];
      StoredIs(calls[..n], a);
      HistoryExplains(calls[..n]);
      MemberPruned(rows, calls[..n], a, c.now);
      StoredStep(calls, n, rows, a);
    }
  }

  lemma StoredStep<A(!new)>(calls: seq<Timed<A>>, n: nat, rows: seq<Row<A>>, a: A)
    requires Monotone(calls) && n + 1 == |calls| && rows == RunLazy(calls[..n])
    requires Distinct(rows) && (Member(rows, a) <==> Stored(calls[..n], a))
    requires Member(Prune(rows, calls[n].now), a) <==> Member(rows, a) && Leased(calls[..n], a, calls[n].now)
    ensures Member(RunLazy(calls), a) <==> Stored(calls, a)
  {
    var c := calls[n];
    var t := Renewal(calls, a);
    if t.Some? {
      PrunedLater(calls, t.value + LEASE);
    }
    match c.call
    case Put(b) =>
      MemberAdmitted(Prune(rows, c.now), b, c.now, a);
      assert a == b && Succeeded(calls, n) ==> !PrunedSince(calls, c.now + LEASE);
    case Del(b) => MemberRemoved(rows, b, a);
    case List =>
  }

  /**
   * When lazy pruning shows: a deletion is told success where the eager table would refuse
   * exactly when the address was renewed, its lease has ended, and nothing pruned or deleted
   * it in between.
   */
  lemma AnswersDiffer<A(!new)>(calls: seq<Timed<A>>)
    requires calls != [] && Monotone(calls)
    ensures var n := |calls| - 1;
            Lazy(RunLazy(calls[..n]), calls[n]).1 != Eager(RunEager(calls[..n]), calls[n]).1 <==>
            && calls[n].call.Del?
            && Stored(calls[..n], calls[n].call.address) && !Leased(calls[..n], calls[n].call.address, calls[n].now)
  {
    var n := |calls| - 1;
    var rows, c := RunLazy(calls[..n]), calls[n];
    AnswersRefine(calls);
    if c.call.Del? {
      var a := c.call.address;
      StoredIs(calls[..n], a);
      HistoryExplains(calls[..n]);
      assert forall i | 0 <= i < |rows| && rows[i].address == a :: Dated(rows[i], calls[..n]);
      if Member(rows, a) {
        var i :| 0 <= i < |rows| && rows[i].address == a;
        assert rows[i] in rows;
      }
    }
  }

  /** An address whose lease has just ended is deleted with success, though nobody may use it any more. */
  lemma ExpiredDeletionSucceeds<A(!new)>(a: A)
    ensures var calls := [Timed(Put(a), 0), Timed(Del(a), LEASE)];
            && Monotone(calls) && !Leased(calls[..1], a, LEASE)
            && Lazy(RunLazy(calls[..1]), calls[1]).1 == Done(true)
            && Eager(RunEager(calls[..1]), calls[1]).1 == Done(false)
  {
    var calls := [Timed(Put(a), 0), Timed(Del(a), LEASE)];
    var first := calls[..1];
    assert first[..0] == [] && first[0] == calls[0];
    var row := Renewed(a, 0);
    var none: seq<Row<A>> := [];
    assert RunLazy(calls[..0]) == RunEager(calls[..0]) == none && Prune(none, 0) == none;
    assert none + [row] == [row];
    assert Admit(none, a, 0) == ([row], true);
    assert RunLazy(first) == [row] && RunEager(first) == [row];
    assert [row][..0] == [];
    assert Prune([row], LEASE) == [];
    assert Renewal(first, a) == Some(0);
  }

  /**
   * A request arriving now is given, in order of joining and each once, exactly the addresses
   * renewed less than a lease ago and not deleted since; at most 32 of them.
   */
  lemma {:induction false} SnapshotIsLeased<A(!new)>(calls: seq<Timed<A>>, now: int)
    requires Monotone(calls) && (calls != [] ==> LastTime(calls) <= now)
    ensures var members := Prune(RunLazy(calls), now);
            && |members| <= MAX_BACKENDS && Distinct(members)
            && (forall a :: Leased(calls, a, now) <==> Member(members, a))
            && forall i, j | 0 <= i < j < |members| ::
                 JoinedAt(calls, members[i].address) < JoinedAt(calls, members[j].address)
  {
    SnapshotExplained(calls, now);
    RunsDistinct(calls);
    var members := Prune(RunLazy(calls), now);
    forall i | 0 <= i < |members|
      ensures Leased(calls, members[i].address, now)
    {
      assert members[i] in members && Dated(members[i], calls);
    }
  }

  /** Registration is refused only to an address without a lease while 32 others hold one. */
  lemma RefusedOnlyWhenFull<A(!new)>(calls: seq<Timed<A>>, a: A, now: int)
    requires Monotone(calls) && (calls != [] ==> LastTime(calls) <= now)
    ensures !Register(RunLazy(calls), a, now).1 <==>
            !Leased(calls, a, now) && |Prune(RunLazy(calls), now)| == MAX_BACKENDS
  {
    SnapshotIsLeased(calls, now);
    var members := Prune(RunLazy(calls), now);
    assert Member(members, a) <==> FirstRow(members, a, 0) >= 0;
  }
}
