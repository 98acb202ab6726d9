// The load balancer's backend pool: a slice compacted, shifted and appended to in place.
module BackendPool {
  import opened Text
  import opened LeaseTable
  import opened BackendHealth
  import opened BackendHistory

  class Backend<A(!new)> {
    const address: A
    var retryAt: Option<int>
    var expiresAt: Option<int>

    constructor (address: A, expiresAt: Option<int>)
      ensures this.address == address && this.expiresAt == expiresAt && retryAt == None
    {
      this.address := address;
      this.expiresAt := expiresAt;
      retryAt := None;
    }
  }

  ghost function RowOf<A(!new)>(b: Backend<A>): Row<A>
    reads b
  {
    Row(b.address, b.expiresAt)
  }

  /** The rows a sequence of backends stands for. */
  ghost function RowsOf<A(!new)>(s: seq<Backend<A>>): (rows: seq<Row<A>>)
    reads s
    ensures |rows| == |s|
    ensures forall i | 0 <= i < |s| :: rows[i] == RowOf(s[i])
  {
    seq(|s|, i requires 0 <= i < |s| reads s => RowOf(s[i]))
  }

  lemma KeptNext<A(!new)>(s: seq<Backend<A>>, rows: seq<Row<A>>, i: nat, now: int)
    requires i < |s| == |rows|
    ensures var before := Kept(s[..i], rows[..i], now);
            Kept(s[..i + 1], rows[..i + 1], now) == if Live(rows[i], now) then before + [s[i]] else before
  {
    Slices(s, i, i + 1);
    Slices(rows, i, i + 1);
  }

  lemma {:induction false} KeptRows<A(!new)>(s: seq<Backend<A>>, rows: seq<Row<A>>, now: int)
    requires rows == RowsOf(s)
    ensures RowsOf(Kept(s, rows, now)) == Prune(rows, now)
  {
    if s != [] {
      var n := |s| - 1;
      assert rows[..n] == RowsOf(s[..n]);
      KeptRows(s[..n], rows[..n], now);
    }
  }

  lemma RemovedRows<A(!new)>(s: seq<Backend<A>>, left: seq<Backend<A>>, i: nat)
    requires i < |s| && Unique(s) && |left| == |s| - 1
    requires forall k | 0 <= k < |left| :: left[k] == s[if k < i then k else k + 1]
    ensures Unique(left) && forall b | b in left :: b in s
    ensures RowsOf(left) == RowsOf(s)[..i] + RowsOf(s)[i + 1..]
  {
  }

  class Pool<A(==, !new)> {
    var backing: array<Backend<A>>
    var len: nat
    ghost var Repr: set<object>

    ghost predicate Valid()
      reads this, Repr
    {
      && this in Repr && backing in Repr && len <= backing.Length
      && (forall b | b in backing[..len] :: b in Repr)
      && Unique(backing[..len])
    }

    /** The backends of `pool.backends`, which may use only the front of its backing array. */
    ghost function Entries(): seq<Backend<A>>
      requires len <= backing.Length
      reads this, backing
    {
      backing[..len]
    }

    constructor ()
      ensures Valid() && fresh(Repr) && Entries() == []
    {
      backing := new Backend<A>[0];
      len := 0;
      Repr := {this, backing};
    }

    /** Compacts the slice over its own backing array. */
    method PruneExpired(now: int)
      requires Valid()
      modifies this`len, backing
      ensures Valid() && backing == old(backing)
      ensures Entries() == Kept(old(Entries()), old(RowsOf(Entries())), now)
      ensures RowsOf(Entries()) == Prune(old(RowsOf(Entries())), now)
    {
      ghost var was, rows := Entries(), RowsOf(Entries());
      KeptFrom(was, rows, now);
      var active := Compact(now, was, rows);
      len := active;
      KeptRows(was, rows, now);
    }

    /** `append(active, backend)`: over the backend that was read already. */
    method PutBack(active: nat, backend: Backend<A>)
      requires active < backing.Length
      modifies backing
      ensures backing[..active + 1] == old(backing[..active]) + [backend]
      ensures forall k | active < k < backing.Length :: backing[k] == old(backing[k])
    {
      backing[active] := backend;
    }

    /** The loop of `pruneExpired`. */
    method Compact(now: int, ghost was: seq<Backend<A>>, ghost rows: seq<Row<A>>) returns (active: nat)
      requires len <= backing.Length && was == Entries() && rows == RowsOf(was)
      modifies backing
      ensures active <= len && backing[..active] == Kept(was, rows, now)
      ensures RowsOf(was) == rows
    {
      active := 0;
      for i := 0 to len
        invariant active <= i
        invariant backing[..active] == Kept(was[..i], rows[..i], now)
        invariant forall k | i <= k < len :: backing[k] == was[k]
        invariant forall k | 0 <= k < len :: RowOf(was[k]) == rows[k]
      {
        KeptNext(was, rows, i, now);
        var backend := backing[i];
        assert rows[i] == RowOf(backend);
        if backend.expiresAt.None? || now < backend.expiresAt.value {
          PutBack(active, backend);
          active := active + 1;
        }
      }
      Whole(was);
      Whole(rows);
    }

    /** `append(pool.backends, backend)`: in place while the array has room, else into a larger one. */
    method Append(backend: Backend<A>)
      requires Valid() && backend !in Entries()
      modifies this, backing
      ensures Valid() && Entries() == old(Entries()) + [backend]
      ensures Repr == old(Repr) + {backing, backend} && (backing == old(backing) || fresh(backing))
    {
      if len == backing.Length {
        var grown := new Backend<A>[2 * len + 1](i reads this, backing =>
          if 0 <= i < len <= backing.Length then backing[i] else backend);
        assert grown[..len] == backing[..len];
        backing := grown;
      }
      backing[len] := backend;
      len := len + 1;
      Repr := Repr + {backing, backend};
    }

    /** The loop over the pool for an address. */
    method IndexOf(address: A) returns (index: int)
      requires Valid()
      ensures index == FirstRow(RowsOf(Entries()), address, 0)
    {
      ghost var rows := RowsOf(Entries());
      for i := 0 to len
        invariant FirstRow(rows, address, 0) == FirstRow(rows, address, i)
      {
        assert rows[i] == RowOf(backing[i]);
        if backing[i].address == address {
          return i;
        }
      }
      return -1;
    }

    method Register(address: A, now: int) returns (ok: bool)
      requires Valid()
      modifies Repr
      ensures Valid() && fresh(Repr - old(Repr)) && old(Repr) <= Repr
      ensures (RowsOf(Entries()), ok) == LeaseTable.Register(old(RowsOf(Entries())), address, now)
      ensures Kept(old(Entries()), old(RowsOf(Entries())), now) <= Entries()
      ensures forall b | b in Entries() && b !in Kept(old(Entries()), old(RowsOf(Entries())), now) :: fresh(b) && b.retryAt.None?
      ensures forall b: Backend<A> | b in old(Repr) ::
                b.retryAt == old(b.retryAt) && (b !in Entries() ==> b.expiresAt == old(b.expiresAt))
    {
      ghost var was, rows := Entries(), RowsOf(Entries());
      KeptFrom(was, rows, now);
      PruneExpired(now);
      assert RowsOf(Entries()) == Prune(rows, now);
      ok := Admit(address, now);
    }

    /** Registration after pruning. */
    method Admit(address: A, now: int) returns (ok: bool)
      requires Valid()
      modifies Repr
      ensures Valid() && fresh(Repr - old(Repr)) && old(Repr) <= Repr
      ensures (RowsOf(Entries()), ok) == LeaseTable.Admit(old(RowsOf(Entries())), address, now)
      ensures old(Entries()) <= Entries()
      ensures forall b | b in Entries() && b !in old(Entries()) :: fresh(b) && b.retryAt.None?
      ensures forall b: Backend<A> | b in old(Repr) ::
                b.retryAt == old(b.retryAt) && (b !in Entries() ==> b.expiresAt == old(b.expiresAt))
    {
      ghost var was, rows := Entries(), RowsOf(Entries());
      var index := IndexOf(address);
      if index >= 0 {
        backing[index].expiresAt := Some(now + LEASE);
        assert Entries() == was;
        assert RowsOf(was) == rows[index := Row(address, Some(now + LEASE))];
        return true;
      }
      if len >= MAX_BACKENDS {
        return false;
      }
      var backend := new Backend<A>(address, Some(now + LEASE));
      Append(backend);
      assert RowsOf(was) == rows;
      assert RowsOf(was + [backend]) == rows + [RowOf(backend)];
      return true;
    }

    /** Shifts the later backends down over the first one with the address. */
    method Remove(address: A) returns (found: bool)
      requires Valid()
      modifies this`len, backing
      ensures Valid() && backing == old(backing)
      ensures (RowsOf(Entries()), found) == LeaseTable.Remove(old(RowsOf(Entries())), address)
      ensures var was, i := old(Entries()), FirstRow(old(RowsOf(Entries())), address, 0);
              Entries() == if i < 0 then was else was[..i] + was[i + 1..]
    {
      var index := IndexOf(address);
      if index < 0 {
        return false;
      }
      ghost var was := Entries();
      forall k | index <= k < len - 1 {
        backing[k] := backing[k + 1];
      }
      len := len - 1;
      RemovedRows(was, Entries(), index);
      return true;
    }

    /** A copy of the current members, in an array of its own. */
    method Snapshot(now: int) returns (snap: array<Backend<A>>)
      requires Valid()
      modifies this`len, backing
      ensures Valid() && backing == old(backing)
      ensures fresh(snap) && snap[..] == Entries()
      ensures Entries() == Kept(old(Entries()), old(RowsOf(Entries())), now)
      ensures RowsOf(Entries()) == Prune(old(RowsOf(Entries())), now)
    {
      PruneExpired(now);
      snap := Copy();
    }

    method Copy() returns (snap: array<Backend<A>>)
      requires len <= backing.Length
      ensures fresh(snap) && snap[..] == Entries()
    {
      snap := new Backend<A>[len](i reads this, backing requires 0 <= i < len <= backing.Length => backing[i]);
    }

    method Available(backend: Backend<A>, now: int) returns (ok: bool)
      ensures ok <==> Live(RowOf(backend), now) && (backend.retryAt.None? || backend.retryAt.value <= now)
    {
      ok := (backend.expiresAt.None? || now < backend.expiresAt.value)
            && (backend.retryAt.None? || !(now < backend.retryAt.value));
    }

    method MarkFailure(backend: Backend<A>, now: int)
      modifies backend`retryAt
      ensures backend.retryAt == Some(now + COOLDOWN)
    {
      backend.retryAt := Some(now + COOLDOWN);
    }

    method MarkSuccess(backend: Backend<A>)
      modifies backend`retryAt
      ensures backend.retryAt == None
    {
      backend.retryAt := None;
    }
  }

  /** One registry call or request snapshot, after the calls so far. */
  method Handle<A(==, !new)>(pool: Pool<A>, c: Timed<A>, ghost calls: seq<Timed<A>>)
    requires pool.Valid() && RowsOf(pool.Entries()) == RunLazy(calls)
    modifies pool.Repr
    ensures pool.Valid() && fresh(pool.Repr - old(pool.Repr))
    ensures RowsOf(pool.Entries()) == RunLazy(calls + [c])
  {
    RunLazyNext(calls, c);
    match c.call
    case Put(a) => var ok := pool.Register(a, c.now);
    case Del(a) => var found := pool.Remove(a);
    case List => pool.PruneExpired(c.now);
  }

  /**
   * Any calls made while a request still holds its snapshot: the pool follows the rows'
   * history, and the snapshot lists the same backends as before.
   */
  method ServeWhileHolding<A(==, !new)>(
    pool: Pool<A>, snap: array<Backend<A>>, calls: seq<Timed<A>>, ghost before: seq<Timed<A>>)
    returns (ghost done: seq<Timed<A>>)
    requires pool.Valid() && snap !in pool.Repr
    requires RowsOf(pool.Entries()) == RunLazy(before)
    modifies pool.Repr
    ensures pool.Valid() && snap !in pool.Repr
    ensures done == before + calls && RowsOf(pool.Entries()) == RunLazy(done)
    ensures snap[..] == old(snap[..])
  {
    done := before;
    for i := 0 to |calls|
      invariant pool.Valid() && fresh(pool.Repr - old(pool.Repr)) && snap !in pool.Repr
      invariant done == before + calls[..i] && RowsOf(pool.Entries()) == RunLazy(done)
      invariant snap[..] == old(snap[..])
    {
      Handle(pool, calls[i], done);
      Slices(calls, i, i + 1);
      Assoc(before, calls[..i], calls[i..i + 1]);
      done := done + [calls[i]];
    }
    Whole(calls);
  }

  lemma RunLazyNext<A(!new)>(calls: seq<Timed<A>>, c: Timed<A>)
    ensures RunLazy(calls + [c]) == Lazy(RunLazy(calls), c).0
  {
    Halves(calls, [c]);
  }
}
