// The cache's slot array with lazy expiry, and the plain map it stands for.
module CacheStore {
  import opened Text

  const STORE_CAP := 1024

  /** One slot of the array. */
  datatype Entry<+K, +V> = Entry(used: bool, key: K, value: V, hasExpiry: bool, expiresAt: int)

  predicate Expired<K(==), V>(e: Entry<K, V>, now: int) {
    e.hasExpiry && now >= e.expiresAt
  }

  predicate Live<K(==), V>(e: Entry<K, V>, now: int) {
    e.used && !Expired(e, now)
  }

  datatype Command<+K, +V> = Get(key: K) | Delete(key: K) | Set(key: K, ttl: nat, value: V)

  datatype Reply<+V> = Value(value: V) | NotFound | Ok | Error

  // ----- The specification: a map that forgets expired keys before every command -----

  /** A value and the time at which it expires, if it does. */
  datatype Item<+V> = Item(value: V, expiry: Option<int>)

  type Table<!K(==), +V> = map<K, Item<V>>

  predicate ItemLive<V>(i: Item<V>, now: int) {
    i.expiry.None? || now < i.expiry.value
  }

  function Expire<K(==), V>(t: Table<K, V>, now: int): Table<K, V> {
    map k | k in t && ItemLive(t[k], now) :: t[k]
  }

  function Deadline(now: int, ttl: nat): Option<int> {
    if ttl == 0 then None else Some(now + ttl * 1000)
  }

  /** One command against a table without expired keys. */
  function Apply<K(==), V>(live: Table<K, V>, c: Command<K, V>, now: int): (Table<K, V>, Reply<V>) {
    match c
    case Get(k) => (live, if k in live then Value(live[k].value) else NotFound)
    case Delete(k) => if k in live then (live - {k}, Ok) else (live, NotFound)
    case Set(k, ttl, v) =>
      if k !in live && |live| >= STORE_CAP then (live, Error)
      else (live[k := Item(v, Deadline(now, ttl))], Ok)
  }

  function Eager<K(==), V>(t: Table<K, V>, c: Command<K, V>, now: int): (Table<K, V>, Reply<V>) {
    Apply(Expire(t, now), c, now)
  }

  datatype Timed<+K, +V> = Timed(command: Command<K, V>, now: int)

  function RunEager<K(==), V>(t: Table<K, V>, run: seq<Timed<K, V>>): (r: (Table<K, V>, seq<Reply<V>>))
    ensures |r.1| == |run|
  {
    if run == [] then (t, [])
    else
      var n := |run| - 1;
      var before := RunEager(t, run[..n]);
      var step := Eager(before.0, run[n].command, run[n].now);
      (step.0, before.1 + [step.1])
  }

  // ----- The slot array, as the loops leave it -----

  /** Used slots carry pairwise distinct keys. */
  ghost predicate ValidSlots<K(!new), V(!new)>(s: seq<Entry<K, V>>) {
    && |s| == STORE_CAP
    && Distinct(s)
  }

  ghost predicate Distinct<K(!new), V(!new)>(s: seq<Entry<K, V>>) {
    forall i, j | 0 <= i < j < |s| && s[i].used && s[j].used :: s[i].key != s[j].key
  }

  ghost predicate Absent<K, V>(s: seq<Entry<K, V>>, key: K) {
    forall i | 0 <= i < |s| && s[i].used :: s[i].key != key
  }

  /** First index from `from` on whose slot is used for the key, or -1. */
  function FirstUsed<K(==), V>(s: seq<Entry<K, V>>, key: K, from: nat): (r: int)
    requires from <= |s|
    ensures r == -1 || from <= r < |s|
    ensures r >= 0 ==> s[r].used && s[r].key == key
    ensures forall i | from <= i < (if r < 0 then |s| else r) :: !(s[i].used && s[i].key == key)
    decreases |s| - from
  {
    if from == |s| then -1
    else if s[from].used && s[from].key == key then from
    else FirstUsed(s, key, from + 1)
  }

  /** First index from `from` on whose slot is free or expired, or -1. */
  function FirstFree<K(==), V>(s: seq<Entry<K, V>>, now: int, from: nat): (r: int)
    requires from <= |s|
    ensures r == -1 || from <= r < |s|
    ensures r >= 0 ==> !Live(s[r], now)
    ensures forall i | from <= i < (if r < 0 then |s| else r) :: Live(s[i], now)
    decreases |s| - from
  {
    if from == |s| then -1
    else if !Live(s[from], now) then from
    else FirstFree(s, now, from + 1)
  }

  function Discard<K(==), V>(s: seq<Entry<K, V>>, i: nat): seq<Entry<K, V>>
    requires i < |s|
  {
    s[i := s[i].(used := false)]
  }

  function LookupSlots<K(==), V>(s: seq<Entry<K, V>>, key: K, now: int): (r: (seq<Entry<K, V>>, int))
    ensures |r.0| == |s| && -1 <= r.1 < |s|
  {
    var i := FirstUsed(s, key, 0);
    if i >= 0 && Expired(s[i], now) then (Discard(s, i), -1) else (s, i)
  }

  function FreeSlots<K(==), V>(s: seq<Entry<K, V>>, now: int): (r: (seq<Entry<K, V>>, int))
    ensures |r.0| == |s| && -1 <= r.1 < |s|
  {
    var i := FirstFree(s, now, 0);
    if i >= 0 then (Discard(s, i), i) else (s, i)
  }

  function Written<K(==), V>(slot: Entry<K, V>, key: K, value: V, ttl: nat, now: int): Entry<K, V> {
    Entry(true, key, value, ttl != 0, if ttl == 0 then slot.expiresAt else now + ttl * 1000)
  }

  function Lazy<K(==), V>(s: seq<Entry<K, V>>, c: Command<K, V>, now: int): (r: (seq<Entry<K, V>>, Reply<V>))
    ensures |r.0| == |s|
  {
    var found := LookupSlots(s, c.key, now);
    match c
    case Get(_) => (found.0, if found.1 < 0 then NotFound else Value(s[found.1].value))
    case Delete(_) =>
      if found.1 < 0 then (found.0, NotFound) else (Discard(found.0, found.1), Ok)
    case Set(k, ttl, v) =>
      var at := if found.1 < 0 then FreeSlots(found.0, now) else found;
      if at.1 < 0 then (at.0, Error)
      else (at.0[at.1 := Written(at.0[at.1], k, v, ttl, now)], Ok)
  }

  function RunLazy<K(==), V>(s: seq<Entry<K, V>>, run: seq<Timed<K, V>>): (r: (seq<Entry<K, V>>, seq<Reply<V>>))
    ensures |r.1| == |run|
  {
    if run == [] then (s, [])
    else
      var n := |run| - 1;
      var before := RunLazy(s, run[..n]);
      var step := Lazy(before.0, run[n].command, run[n].now);
      (step.0, before.1 + [step.1])
  }

  // ----- The array in place -----

  class Store<K(==, !new), V(!new)> {
    const slots: array<Entry<K, V>>

    ghost predicate Valid()
      reads this, slots
    {
      ValidSlots(slots[..])
    }

    /** The array starts out as copies of a zero-filled, unused slot. */
    constructor (zero: Entry<K, V>)
      requires !zero.used
      ensures Valid() && fresh(slots)
      ensures forall now :: LiveTable(slots[..], now) == map[]
    {
      slots := new Entry<K, V>[STORE_CAP](_ => zero);
    }

    /** Finds a key, discarding it when it has expired. */
    method Lookup(key: K, now: int) returns (index: int)
      modifies slots
      ensures (slots[..], index) == LookupSlots(old(slots[..]), key, now)
    {
      ghost var was := slots[..];
      for i := 0 to slots.Length
        invariant slots[..] == was
        invariant FirstUsed(was, key, 0) == FirstUsed(was, key, i)
      {
        if slots[i].used && slots[i].key == key {
          if slots[i].hasExpiry && now >= slots[i].expiresAt {
            slots[i] := slots[i].(used := false);
            return -1;
          }
          return i;
        }
      }
      return -1;
    }

    /** Claims the first slot that is free or holds an expired entry. */
    method FreeSlot(now: int) returns (index: int)
      modifies slots
      ensures (slots[..], index) == FreeSlots(old(slots[..]), now)
    {
      ghost var was := slots[..];
      for i := 0 to slots.Length
        invariant slots[..] == was
        invariant FirstFree(was, now, 0) == FirstFree(was, now, i)
      {
        if !slots[i].used || (slots[i].hasExpiry && now >= slots[i].expiresAt) {
          slots[i] := slots[i].(used := false);
          return i;
        }
      }
      return -1;
    }

    method Get(key: K, now: int) returns (reply: Reply<V>)
      modifies slots
      ensures (slots[..], reply) == Lazy(old(slots[..]), Command.Get(key), now)
    {
      var index := Lookup(key, now);
      reply := if index < 0 then NotFound else Value(slots[index].value);
    }

    method Delete(key: K, now: int) returns (reply: Reply<V>)
      modifies slots
      ensures (slots[..], reply) == Lazy(old(slots[..]), Command.Delete(key), now)
    {
      var index := Lookup(key, now);
      if index < 0 {
        return NotFound;
      }
      slots[index] := slots[index].(used := false);
      reply := Ok;
    }

    method Set(key: K, ttl: nat, value: V, now: int) returns (reply: Reply<V>)
      modifies slots
      ensures (slots[..], reply) == Lazy(old(slots[..]), Command.Set(key, ttl, value), now)
    {
      var index := Lookup(key, now);
      if index < 0 {
        index := FreeSlot(now);
        if index < 0 {
          return Error;
        }
      }
      ghost var found := slots[..];
      slots[index] := slots[index].(key := key, value := value, used := true);
      if ttl == 0 {
        slots[index] := slots[index].(hasExpiry := false);
      } else {
        slots[index] := slots[index].(hasExpiry := true, expiresAt := now + ttl * 1000);
      }
      assert slots[..] == found[index := Written(found[index], key, value, ttl, now)];
      reply := Ok;
    }

    /** The part of a command that runs under the store's mutex. */
    method Execute(c: Command<K, V>, now: int) returns (reply: Reply<V>)
      requires Valid()
      modifies slots
      ensures Valid()
      ensures (slots[..], reply) == Lazy(old(slots[..]), c, now)
      ensures (LiveTable(slots[..], now), reply) == Apply(LiveTable(old(slots[..]), now), c, now)
    {
      LazyRefines(slots[..], c, now);
      match c
      case Get(key) => reply := Get(key, now);
      case Delete(key) => reply := Delete(key, now);
      case Set(key, ttl, value) => reply := Set(key, ttl, value, now);
    }
  }

  // ----- Lazy expiry refines eager expiry -----

  function ItemOf<K(==), V>(e: Entry<K, V>): Item<V> {
    Item(e.value, if e.hasExpiry then Some(e.expiresAt) else None)
  }

  /** Slot `i` holds a live entry for the key. */
  ghost predicate LiveAt<K(!new), V(!new)>(s: seq<Entry<K, V>>, i: int, key: K, now: int) {
    0 <= i < |s| && Live(s[i], now) && s[i].key == key
  }

  ghost function LiveKeys<K(!new), V(!new)>(s: seq<Entry<K, V>>, now: int): (keys: set<K>)
    ensures forall k :: k in keys <==> exists i :: LiveAt(s, i, k, now)
  {
    var keys := set i | 0 <= i < |s| && Live(s[i], now) :: s[i].key;
    assert forall i | 0 <= i < |s| && Live(s[i], now) :: LiveAt(s, i, s[i].key, now);
    keys
  }

  /** The table the array stands for at a time: its live entries by key. */
  ghost function LiveTable<K(!new), V(!new)>(s: seq<Entry<K, V>>, now: int): (t: Table<K, V>)
    requires Distinct(s)
    ensures forall i, k | LiveAt(s, i, k, now) :: k in t && t[k] == ItemOf(s[i])
    ensures forall k | k in t :: exists i :: LiveAt(s, i, k, now)
  {
    map k | k in LiveKeys(s, now) :: var i :| LiveAt(s, i, k, now); ItemOf(s[i])
  }

  /** A table is the array's when it holds just the live entries. */
  lemma LiveTableIs<K(!new), V(!new)>(s: seq<Entry<K, V>>, now: int, t: Table<K, V>)
    requires Distinct(s)
    requires forall i, k | LiveAt(s, i, k, now) :: k in t && t[k] == ItemOf(s[i])
    requires forall k | k in t :: exists i :: LiveAt(s, i, k, now)
    ensures LiveTable(s, now) == t
  {
  }

  /** The last slot adds its key if it is live, and nothing otherwise. */
  lemma LiveKeysSnoc<K(!new), V(!new)>(s: seq<Entry<K, V>>, now: int)
    requires Distinct(s) && s != []
    ensures var n := |s| - 1; var keys := LiveKeys(s[..n], now);
            if Live(s[n], now) then LiveKeys(s, now) == keys + {s[n].key} && s[n].key !in keys
            else LiveKeys(s, now) == keys
  {
    var n := |s| - 1;
    forall k
      ensures (exists i :: LiveAt(s, i, k, now)) <==> (exists i :: LiveAt(s[..n], i, k, now)) || LiveAt(s, n, k, now)
    {
      assert forall i :: LiveAt(s[..n], i, k, now) <==> i != n && LiveAt(s, i, k, now);
    }
  }

  /** Distinct keys: as many live keys as live slots, so the table is full just when no slot is free. */
  lemma {:induction false} LiveKeysCount<K(!new), V(!new)>(s: seq<Entry<K, V>>, now: int)
    requires Distinct(s)
    ensures |LiveKeys(s, now)| <= |s|
    ensures |LiveKeys(s, now)| == |s| <==> forall i | 0 <= i < |s| :: Live(s[i], now)
  {
    if s != [] {
      var n := |s| - 1;
      LiveKeysCount(s[..n], now);
      LiveKeysSnoc(s, now);
      assert forall i | 0 <= i < n :: s[..n][i] == s[i];
    }
  }

  /** Giving up a slot that is not live changes nothing a client can see. */
  lemma FreedSlot<K(!new), V(!new)>(s: seq<Entry<K, V>>, f: nat, now: int)
    requires Distinct(s) && f < |s| && !Live(s[f], now)
    ensures Distinct(Discard(s, f))
    ensures LiveTable(Discard(s, f), now) == LiveTable(s, now)
  {
    var s' := Discard(s, f);
    assert forall i, k :: LiveAt(s', i, k, now) <==> LiveAt(s, i, k, now);
    LiveTableIs(s', now, LiveTable(s, now));
  }

  lemma LookupRefines<K(!new), V(!new)>(s: seq<Entry<K, V>>, key: K, now: int)
    requires Distinct(s)
    ensures var (s', i) := LookupSlots(s, key, now);
            && Distinct(s')
            && LiveTable(s', now) == LiveTable(s, now)
            && (i >= 0 <==> key in LiveTable(s, now))
            && (i >= 0 ==> s' == s && LiveAt(s, i, key, now))
            && (i < 0 ==> Absent(s', key))
  {
    var i := FirstUsed(s, key, 0);
    if i >= 0 {
      if Expired(s[i], now) {
        FreedSlot(s, i, now);
        assert forall j :: !LiveAt(s, j, key, now);
        assert forall j | 0 <= j < |s| && j != i && s[j].used :: s[j].key != key;
      } else {
        assert LiveAt(s, i, key, now);
      }
    } else {
      assert forall j :: !LiveAt(s, j, key, now);
    }
  }

  lemma OverwriteRefines<K(!new), V(!new)>(s: seq<Entry<K, V>>, i: nat, e: Entry<K, V>, now: int)
    requires Distinct(s) && i < |s| && e.used && !Expired(e, now)
    requires (Absent(s, e.key) && !s[i].used) || LiveAt(s, i, e.key, now)
    ensures Distinct(s[i := e])
    ensures LiveTable(s[i := e], now) == LiveTable(s, now)[e.key := ItemOf(e)]
  {
    var s' := s[i := e];
    assert LiveAt(s', i, e.key, now);
    assert forall j, k | j != i :: LiveAt(s', j, k, now) <==> LiveAt(s, j, k, now);
    assert forall j, k | LiveAt(s, j, k, now) :: k == e.key <==> j == i;
    LiveTableIs(s', now, LiveTable(s, now)[e.key := ItemOf(e)]);
  }

  lemma DiscardRefines<K(!new), V(!new)>(s: seq<Entry<K, V>>, i: nat, key: K, now: int)
    requires Distinct(s) && LiveAt(s, i, key, now)
    ensures Distinct(Discard(s, i))
    ensures LiveTable(Discard(s, i), now) == LiveTable(s, now) - {key}
  {
    var s' := Discard(s, i);
    assert forall j, k :: LiveAt(s', j, k, now) <==> LiveAt(s, j, k, now) && j != i;
    assert forall j, k | LiveAt(s, j, k, now) :: k == key <==> j == i;
    LiveTableIs(s', now, LiveTable(s, now) - {key});
  }

  lemma FullRefines<K(!new), V(!new)>(s: seq<Entry<K, V>>, now: int)
    requires ValidSlots(s)
    ensures FirstFree(s, now, 0) == -1 <==> |LiveTable(s, now)| >= STORE_CAP
  {
    LiveKeysCount(s, now);
    assert LiveTable(s, now).Keys == LiveKeys(s, now);
    if FirstFree(s, now, 0) != -1 {
      assert !Live(s[FirstFree(s, now, 0)], now);
    }
  }

  /** One command on the array is one command on the map that forgot its expired keys. */
  lemma LazyRefines<K(!new), V(!new)>(s: seq<Entry<K, V>>, c: Command<K, V>, now: int)
    requires ValidSlots(s)
    ensures var lazy, eager := Lazy(s, c, now), Apply(LiveTable(s, now), c, now);
            ValidSlots(lazy.0) && LiveTable(lazy.0, now) == eager.0 && lazy.1 == eager.1
  {
    LookupRefines(s, c.key, now);
    var (s', i) := LookupSlots(s, c.key, now);
    match c
    case Get(_) =>
    case Delete(_) =>
      if i >= 0 {
        DiscardRefines(s', i, c.key, now);
      }
    case Set(k, ttl, v) =>
      if i >= 0 {
        OverwriteRefines(s', i, Written(s'[i], k, v, ttl, now), now);
      } else {
        FullRefines(s', now);
        var f := FirstFree(s', now, 0);
        if f >= 0 {
          FreedSlot(s', f, now);
          var s'' := Discard(s', f);
          OverwriteRefines(s'', f, Written(s''[f], k, v, ttl, now), now);
        }
      }
  }

  /** Waiting expires in the array exactly what it expires in the table. */
  lemma LaterTable<K(!new), V(!new)>(s: seq<Entry<K, V>>, now: int, later: int)
    requires Distinct(s) && now <= later
    ensures LiveTable(s, later) == Expire(LiveTable(s, now), later)
  {
    var t := Expire(LiveTable(s, now), later);
    forall i, k | LiveAt(s, i, k, later)
      ensures k in t && t[k] == ItemOf(s[i])
    {
      assert LiveAt(s, i, k, now);
    }
    forall k | k in t
      ensures exists i :: LiveAt(s, i, k, later)
    {
      var i :| LiveAt(s, i, k, now);
      assert LiveAt(s, i, k, later);
    }
    LiveTableIs(s, later, t);
  }

  /** The clock never runs backwards along a run, nor behind `start`. */
  ghost predicate Monotone<K(!new), V(!new)>(run: seq<Timed<K, V>>, start: int) {
    forall i | 0 <= i < |run| ::
      start <= run[i].now && forall j | 0 <= j < i :: run[j].now <= run[i].now
  }

  function LastTime<K(==), V>(run: seq<Timed<K, V>>, start: int): int {
    if run == [] then start else run[|run| - 1].now
  }

  lemma StepRefines<K(!new), V(!new)>(s: seq<Entry<K, V>>, t: Table<K, V>, last: int, c: Command<K, V>, now: int)
    requires ValidSlots(s) && LiveTable(s, last) == t && last <= now
    ensures ValidSlots(Lazy(s, c, now).0)
    ensures (LiveTable(Lazy(s, c, now).0, now), Lazy(s, c, now).1) == Eager(t, c, now)
  {
    LaterTable(s, last, now);
    LazyRefines(s, c, now);
  }

  /** Every run of commands under a clock that never goes back gets the map's replies. */
  lemma {:induction false} RunsRefine<K(!new), V(!new)>(s: seq<Entry<K, V>>, run: seq<Timed<K, V>>, start: int)
    requires ValidSlots(s) && Monotone(run, start)
    ensures var lazy, eager := RunLazy(s, run), RunEager(LiveTable(s, start), run);
            && ValidSlots(lazy.0)
            && lazy.1 == eager.1
            && LiveTable(lazy.0, LastTime(run, start)) == eager.0
  {
    if run != [] {
      var n := |run| - 1;
      RunsRefine(s, run[..n], start);
      StepRefines(RunLazy(s, run[..n]).0, RunEager(LiveTable(s, start), run[..n]).0,
                  LastTime(run[..n], start), run[n].command, run[n].now);
    }
  }

  /** A live item survives every run that neither sets nor deletes its key nor outlives it. */
  lemma {:induction false} LiveItemSurvives<K(!new), V(!new)>(t: Table<K, V>, run: seq<Timed<K, V>>, start: int, key: K)
    requires Monotone(run, start)
    requires key in t && ItemLive(t[key], LastTime(run, start))
    requires forall i | 0 <= i < |run| :: run[i].command.Get? || run[i].command.key != key
    ensures key in RunEager(t, run).0 && RunEager(t, run).0[key] == t[key]
  {
    if run != [] {
      var n := |run| - 1;
      assert ItemLive(t[key], LastTime(run[..n], start));
      LiveItemSurvives(t, run[..n], start, key);
    }
  }

  lemma {:induction false} EagerConcat<K(!new), V(!new)>(t: Table<K, V>, a: seq<Timed<K, V>>, b: seq<Timed<K, V>>)
    ensures var first := RunEager(t, a);
            var second := RunEager(first.0, b);
            RunEager(t, a + b) == (second.0, first.1 + second.1)
  {
    if b == [] {
      assert a + b == a;
      assert RunEager(t, a).1 + [] == RunEager(t, a).1;
    } else {
      var n := |b| - 1;
      EagerConcat(t, a, b[..n]);
      assert (a + b)[..|a + b| - 1] == a + b[..n];
      var first := RunEager(t, a);
      var before := RunEager(first.0, b[..n]);
      Assoc(first.1, before.1, [Eager(before.0, b[n].command, b[n].now).1]);
    }
  }

  /** The state before the last command of a run, and its answer. */
  lemma RunLast<K(!new), V(!new)>(t: Table<K, V>, run: seq<Timed<K, V>>, n: nat)
    requires n < |run|
    ensures RunEager(t, run).1[n] == Eager(RunEager(t, run[..n]).0, run[n].command, run[n].now).1
  {
    assert run[..n + 1][..n] == run[..n];
    EagerConcat(t, run[..n + 1], run[n + 1..]);
    assert run == run[..n + 1] + run[n + 1..];
  }

  /** What an acknowledged SET stores is there until its deadline if nobody writes the key. */
  lemma StoredStays<K(!new), V(!new)>(t: Table<K, V>, run: seq<Timed<K, V>>, start: int, n: nat)
    requires Monotone(run, start) && 0 < n < |run| && run[0].command.Set?
    requires forall i | 1 <= i < n :: run[i].command.Get? || run[i].command.key != run[0].command.key
    requires run[0].command.ttl == 0 || run[n].now < run[0].now + run[0].command.ttl * 1000
    requires RunEager(t, run).1[0] == Ok
    ensures var key, stored := run[0].command.key, RunEager(t, run[..n]).0;
            var item := Item(run[0].command.value, Deadline(run[0].now, run[0].command.ttl));
            key in stored && stored[key] == item && ItemLive(item, run[n].now)
  {
    var first, mid := run[..1], run[1..n];
    RunLast(t, run, 0);
    assert first[..0] == [] && run[..0] == [];
    var stored := RunEager(t, first).0;
    LiveItemSurvives(stored, mid, run[0].now, run[0].command.key);
    EagerConcat(t, first, mid);
    assert run[..n] == first + mid;
  }

  /** A successful SET is what a later GET of the key returns, unless it expired or the key was written. */
  lemma {:induction false} SetThenGet<K(!new), V(!new)>(s: seq<Entry<K, V>>, run: seq<Timed<K, V>>, start: int)
    requires ValidSlots(s) && Monotone(run, start) && |run| >= 2
    requires run[0].command.Set? && run[|run| - 1].command == Get(run[0].command.key)
    requires forall i | 1 <= i < |run| :: run[i].command.Get? || run[i].command.key != run[0].command.key
    requires run[0].command.ttl == 0 || run[|run| - 1].now < run[0].now + run[0].command.ttl * 1000
    requires RunLazy(s, run).1[0] == Ok
    ensures RunLazy(s, run).1[|run| - 1] == Value(run[0].command.value)
  {
    var t, n := LiveTable(s, start), |run| - 1;
    RunsRefine(s, run, start);
    StoredStays(t, run, start, n);
    RunLast(t, run, n);
  }
}
