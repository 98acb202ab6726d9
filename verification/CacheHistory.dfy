// The store's replies from the bare history of commands: when a value is there, and when it no
// longer is.
module CacheHistory {
  import opened Text
  import opened CacheStore

  /** What last happened to a key: nothing, a successful DELETE, or a successful SET. */
  datatype Latest = Untouched | Deleted | SetAt(i: nat)

  function LatestOf<K(==), V>(run: seq<Timed<K, V>>, replies: seq<Reply<V>>, key: K): (l: Latest)
    requires |run| == |replies|
    ensures l.SetAt? ==> l.i < |run| && run[l.i].command.Set? && run[l.i].command.key == key
  {
    if run == [] then Untouched
    else
      var n := |run| - 1;
      var c := run[n].command;
      if c.key != key || c.Get? || !replies[n].Ok? then LatestOf(run[..n], replies[..n], key)
      else if c.Set? then SetAt(n)
      else Deleted
  }

  /** A value set with this TTL in seconds is still there, by the millisecond. */
  predicate InTime(setAt: int, ttl: nat, now: int) {
    ttl == 0 || now < setAt + 1000 * ttl
  }

  /** What a key holds at a time, by the history since a table. */
  function Held<K(==), V>(t: Table<K, V>, run: seq<Timed<K, V>>, replies: seq<Reply<V>>, key: K, now: int): Option<V>
    requires |run| == |replies|
  {
    match LatestOf(run, replies, key)
    case Untouched => if key in t && ItemLive(t[key], now) then Some(t[key].value) else None
    case Deleted => None
    case SetAt(i) => if InTime(run[i].now, run[i].command.ttl, now) then Some(run[i].command.value) else None
  }

  // ----- The map against the history -----

  /** What the map stores under a key is what the history says it holds, at any time from `last` on. */
  ghost predicate Tells<K(!new), V(!new)>(
    t: Table<K, V>, run: seq<Timed<K, V>>, replies: seq<Reply<V>>, now: Table<K, V>, last: int, key: K)
    requires |run| == |replies|
  {
    forall time | last <= time ::
      Held(t, run, replies, key, time) == (if key in now && ItemLive(now[key], time) then Some(now[key].value) else None)
  }

  /** One command, seen from one key. */
  lemma TellsStep<K(!new), V(!new)>(
    t: Table<K, V>, run: seq<Timed<K, V>>, replies: seq<Reply<V>>, table: Table<K, V>, last: int, key: K, c: Timed<K, V>)
    requires |run| == |replies| && last <= c.now && Tells(t, run, replies, table, last, key)
    ensures var (after, reply) := Eager(table, c.command, c.now);
            Tells(t, run + [c], replies + [reply], after, c.now, key)
  {
    var (after, reply) := Eager(table, c.command, c.now);
    Halves(run, [c]);
    Halves(replies, [reply]);
    LatestNext(run, replies, c, reply, key);
    forall time | c.now <= time
      ensures Held(t, run + [c], replies + [reply], key, time) ==
              (if key in after && ItemLive(after[key], time) then Some(after[key].value) else None)
    {
      var l := LatestOf(run, replies, key);
      assert l.SetAt? ==> (run + [c])[l.i] == run[l.i];
      assert (run + [c])[|run|] == c;
      assert Held(t, run, replies, key, time) == (if key in table && ItemLive(table[key], time) then Some(table[key].value) else None);
    }
  }

  lemma LatestNext<K(!new), V(!new)>(
    run: seq<Timed<K, V>>, replies: seq<Reply<V>>, c: Timed<K, V>, reply: Reply<V>, key: K)
    requires |run| == |replies|
    ensures LatestOf(run + [c], replies + [reply], key) ==
            if c.command.key != key || c.command.Get? || !reply.Ok? then LatestOf(run, replies, key)
            else if c.command.Set? then SetAt(|run|)
            else Deleted
  {
    Halves(run, [c]);
    Halves(replies, [reply]);
  }

  lemma {:induction false} MapTells<K(!new), V(!new)>(t: Table<K, V>, run: seq<Timed<K, V>>, start: int, key: K)
    requires Monotone(run, start)
    ensures Tells(t, run, RunEager(t, run).1, RunEager(t, run).0, LastTime(run, start), key)
  {
    if run != [] {
      var n := |run| - 1;
      MapTells(t, run[..n], start, key);
      TellsStep(t, run[..n], RunEager(t, run[..n]).1, RunEager(t, run[..n]).0, LastTime(run[..n], start), key, run[n]);
      Rejoin(run, n);
      assert run[n..] == [run[n]];
    }
  }

  /** The keys that hold a value, of a table's and all that were ever set. */
  ghost predicate HoldsValue<K(!new), V(!new)>(
    t: Table<K, V>, run: seq<Timed<K, V>>, replies: seq<Reply<V>>, now: int, key: K)
    requires |run| == |replies|
  {
    Held(t, run, replies, key, now).Some?
  }

  // ----- Every reply of every run -----

  /** The reply the history calls for; `full` says that 1024 keys hold a value. */
  function Called<K(==), V>(c: Command<K, V>, held: Option<V>, full: bool): Reply<V> {
    match c
    case Get(_) => if held.Some? then Value(held.value) else NotFound
    case Delete(_) => if held.Some? then Ok else NotFound
    case Set(_, _, _) => if held.None? && full then Error else Ok
  }

  /**
   * In every run on the slot array, a GET returns what was last set under the key if it was not
   * deleted and its TTL has not run out; a DELETE succeeds exactly when a GET would return a
   * value; and a SET fails exactly when a GET would not and 1024 keys hold values.
   */
  lemma Replies<K(!new), V(!new)>(s: seq<Entry<K, V>>, run: seq<Timed<K, V>>, start: int, n: nat) returns (keys: set<K>)
    requires ValidSlots(s) && Monotone(run, start) && n < |run|
    ensures var replies, now := RunLazy(s, run).1[..n], run[n].now;
            forall k :: k in keys <==> HoldsValue(LiveTable(s, start), run[..n], replies, now, k)
    ensures var replies, c := RunLazy(s, run).1, run[n].command;
            replies[n] == Called(c, Held(LiveTable(s, start), run[..n], replies[..n], c.key, run[n].now), |keys| >= STORE_CAP)
  {
    var t, before := LiveTable(s, start), run[..n];
    var table, now := RunEager(t, before).0, run[n].now;
    RunsRefine(s, run, start);
    RunLast(t, run, n);
    EarlierReplies(t, run, n);
    keys := Expire(table, now).Keys;
    forall k
      ensures k in keys <==> HoldsValue(t, before, RunEager(t, before).1, now, k)
    {
      MapTells(t, before, start, k);
    }
    MapTells(t, before, start, run[n].command.key);
  }

  lemma EarlierReplies<K(!new), V(!new)>(t: Table<K, V>, run: seq<Timed<K, V>>, n: nat)
    requires n <= |run|
    ensures RunEager(t, run).1[..n] == RunEager(t, run[..n]).1
  {
    Rejoin(run, n);
    EagerConcat(t, run[..n], run[n..]);
    Halves(RunEager(t, run[..n]).1, RunEager(RunEager(t, run[..n]).0, run[n..]).1);
  }

  // ----- When a value is gone -----

  /** No SET of the key between two commands of a run. */
  ghost predicate Unset<K(!new), V(!new)>(run: seq<Timed<K, V>>, from: nat, n: nat, key: K)
    requires n <= |run|
  {
    forall i | from <= i < n :: !run[i].command.Set? || run[i].command.key != key
  }

  /** Without a later SET, what was set or deleted last is the first command or a later DELETE. */
  lemma {:induction false} LatestIsFirst<K(!new), V(!new)>(run: seq<Timed<K, V>>, replies: seq<Reply<V>>, key: K)
    requires |run| == |replies| > 0 && run[0].command.key == key && !run[0].command.Get? && replies[0] == Ok
    requires Unset(run, 1, |run|, key)
    ensures LatestOf(run, replies, key) == Deleted || (run[0].command.Set? && LatestOf(run, replies, key) == SetAt(0))
  {
    if |run| > 1 {
      LatestIsFirst(run[..|run| - 1], replies[..|run| - 1], key);
    }
  }

  /** A GET at or past the deadline of a value that was not set again finds nothing. */
  lemma GoneWhenExpired<K(!new), V(!new)>(s: seq<Entry<K, V>>, run: seq<Timed<K, V>>, start: int, n: nat)
    requires ValidSlots(s) && Monotone(run, start) && 0 < n < |run|
    requires run[0].command.Set? && run[0].command.ttl > 0 && RunLazy(s, run).1[0] == Ok
    requires run[n].command == Get(run[0].command.key) && Unset(run, 1, n, run[0].command.key)
    requires run[n].now >= run[0].now + run[0].command.ttl * 1000
    ensures RunLazy(s, run).1[n] == NotFound
  {
    var keys := Replies(s, run, start, n);
    LatestIsFirst(run[..n], RunLazy(s, run).1[..n], run[0].command.key);
  }

  /** A GET after a DELETE finds nothing, unless the key was set again. */
  lemma GoneWhenDeleted<K(!new), V(!new)>(s: seq<Entry<K, V>>, run: seq<Timed<K, V>>, start: int, n: nat)
    requires ValidSlots(s) && Monotone(run, start) && 0 < n < |run|
    requires run[0].command.Delete?
    requires run[n].command == Get(run[0].command.key) && Unset(run, 1, n, run[0].command.key)
    ensures RunLazy(s, run).1[n] == NotFound
  {
    var replies, key := RunLazy(s, run).1, run[0].command.key;
    var keys := Replies(s, run, start, n);
    if replies[0] == Ok {
      LatestIsFirst(run[..n], replies[..n], key);
    } else {
      // There was nothing to delete.
      var none := Replies(s, run, start, 0);
      NothingSince(run[..n], replies[..n], key);
    }
  }

  /** With nothing set and a first command that failed, the history of a key is as before, or a deletion. */
  lemma {:induction false} NothingSince<K(!new), V(!new)>(run: seq<Timed<K, V>>, replies: seq<Reply<V>>, key: K)
    requires |run| == |replies| > 0 && replies[0] != Ok && Unset(run, 1, |run|, key)
    ensures LatestOf(run, replies, key) in {Untouched, Deleted}
  {
    if |run| > 1 {
      NothingSince(run[..|run| - 1], replies[..|run| - 1], key);
    } else {
      assert run[..0] == [] && replies[..0] == [];
    }
  }

  /** At any moment a DELETE succeeds exactly when a GET in its place would return a value. */
  lemma DeleteLikeGet<K(!new), V(!new)>(s: seq<Entry<K, V>>, key: K, now: int)
    requires ValidSlots(s)
    ensures Lazy(s, Delete(key), now).1 in {Ok, NotFound}
    ensures Lazy(s, Delete(key), now).1 == Ok <==> Lazy(s, Get(key), now).1.Value?
  {
    LazyRefines(s, Delete(key), now);
    LazyRefines(s, Get(key), now);
  }
}
