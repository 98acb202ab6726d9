// Real-time order between the cache's clients: every answer is the map's at a moment between
// the receipt of its line and its sending.
module CacheRealTime {
  import opened Text
  import opened CacheStore
  import opened CacheProtocol
  import opened CacheConcurrency

  /** At event `q` a thread's line takes effect, and the map answers this. */
  ghost predicate TakesEffect(table: Words, events: seq<Event>, q: nat, t: nat, raw: string, reply: Answer) {
    && q < |events| && LogOf(events[q]) != []
    && var e := LogOf(events[q])[0];
       e.thread == t && e.raw == raw && Effect(TableAfter(table, Log(events[..q])), e).1 == reply
  }

  ghost predicate Sends(e: Event, t: nat) {
    e.Send? && e.thread == t
  }

  /** A line received at event `j` and answered at event `k`, by the thread's next reply. */
  ghost predicate Exchange(events: seq<Event>, t: nat, raw: string, reply: Answer, j: nat, k: nat) {
    && j < k < |events| && events[j] == Receive(t, raw) && events[k] == Send(t, reply)
    && forall i | j < i < k :: !Sends(events[i], t)
  }

  /** Between the two, the line waits, or has taken effect with the answer now owed. */
  ghost predicate InExchange(table: Words, events: seq<Event>, p: Phase, t: nat, raw: string, j: nat, m: nat) {
    || Waiting(p) == [raw]
    || ((p.Operated? || p.Replying?) && exists q: nat :: j < q < m && TakesEffect(table, events, q, t, raw, p.reply))
  }

  lemma InitialTable(states: seq<System>, events: seq<Event>, m: nat)
    requires Run(states, events) && m <= |events|
    ensures StoreInv(LiveTable(states[0].slots, states[0].clock), states[0].clock, events[..m], states[m])
  {
    Linearizable(states[..m + 1], events[..m]);
  }

  /** An operation's answer is the map's. */
  lemma OperateAnswers(table: Words, start: int, events: seq<Event>, s: System, e: Event, s': System)
    requires Step(s, e, s') && e.Operate? && StoreInv(table, start, events, s)
    ensures PhaseOf(s', e.thread) == Operated(Effect(TableAfter(table, Log(events)), LogOf(e)[0]).1)
  {
    var log := Log(events);
    assert PhaseOf(s, e.thread).Clocked?;
    StepRefines(s.slots, TableAfter(table, log), LogTime(log, start), CommandOf(e.raw).value, e.now);
  }

  lemma ExchangeStep(
    states: seq<System>, events: seq<Event>, t: nat, raw: string, j: nat, m: nat, table: Words)
    requires Run(states, events) && j < m < |events| && !Sends(events[m], t)
    requires table == LiveTable(states[0].slots, states[0].clock)
    requires InExchange(table, events, PhaseOf(states[m], t), t, raw, j, m)
    ensures InExchange(table, events, PhaseOf(states[m + 1], t), t, raw, j, m + 1)
  {
    var s, e, s' := states[m], events[m], states[m + 1];
    assert Step(s, e, s');
    if e.Tick? || e.thread != t {
      Phases(s, e, s', t);
    } else if e.Operate? {
      InitialTable(states, events, m);
      OperateAnswers(table, states[0].clock, events[..m], s, e, s');
      assert TakesEffect(table, events, m, t, raw, PhaseOf(s', t).reply);
    } else if e.Reject? {
      assert TakesEffect(table, events, m, t, raw, Error);
    }
  }

  lemma LineReceived(states: seq<System>, events: seq<Event>, t: nat, raw: string, j: nat)
    requires Run(states, events) && j < |events| && events[j] == Receive(t, raw)
    ensures Waiting(PhaseOf(states[j + 1], t)) == [raw]
  {
    assert Step(states[j], events[j], states[j + 1]);
  }

  lemma {:induction false} ExchangeRuns(
    states: seq<System>, events: seq<Event>, t: nat, raw: string, reply: Answer, j: nat, k: nat, m: nat, table: Words)
    requires Run(states, events) && Exchange(events, t, raw, reply, j, k) && j < m <= k
    requires table == LiveTable(states[0].slots, states[0].clock)
    ensures InExchange(table, events, PhaseOf(states[m], t), t, raw, j, m)
  {
    if m > j + 1 {
      ExchangeRuns(states, events, t, raw, reply, j, k, m - 1, table);
      assert !Sends(events[m - 1], t);
      ExchangeStep(states, events, t, raw, j, m - 1, table);
    } else {
      LineReceived(states, events, t, raw, j);
    }
  }

  /** Every answer is the one the map gives at a moment between receipt and reply. */
  lemma EffectBetween(states: seq<System>, events: seq<Event>, t: nat, raw: string, reply: Answer, j: nat, k: nat)
    returns (q: nat)
    requires Run(states, events) && Exchange(events, t, raw, reply, j, k)
    ensures j < q < k
    ensures TakesEffect(LiveTable(states[0].slots, states[0].clock), events, q, t, raw, reply)
  {
    var table := LiveTable(states[0].slots, states[0].clock);
    ExchangeRuns(states, events, t, raw, reply, j, k, k, table);
    assert Step(states[k], events[k], states[k + 1]);
    q :| j < q < k && TakesEffect(table, events, q, t, raw, PhaseOf(states[k], t).reply);
  }

  /** So a line answered before another client's is received takes effect before it. */
  lemma RealTimeOrder(states: seq<System>, events: seq<Event>,
      t: nat, first: string, answer: Answer, a: nat, b: nat, u: nat, second: string, reply: Answer, c: nat, d: nat)
    returns (p: nat, q: nat)
    requires Run(states, events) && b < c
    requires Exchange(events, t, first, answer, a, b) && Exchange(events, u, second, reply, c, d)
    ensures a < p < b < c < q < d
    ensures var table := LiveTable(states[0].slots, states[0].clock);
            TakesEffect(table, events, p, t, first, answer) && TakesEffect(table, events, q, u, second, reply)
  {
    p := EffectBetween(states, events, t, first, answer, a, b);
    q := EffectBetween(states, events, u, second, reply, c, d);
  }

  // ----- A set that returned, and a get received after it -----

  /** A SET or DELETE of the key takes effect. */
  predicate Writes(e: Event, key: string) {
    e.Operate? && CommandOf(e.raw).Some? && !CommandOf(e.raw).value.Get? && CommandOf(e.raw).value.key == key
  }

  predicate OperatesAs(e: Event, t: nat, raw: string) {
    e.Operate? && e.thread == t && e.raw == raw
  }

  /** A command takes effect by an operation under the lock. */
  lemma Operates(states: seq<System>, events: seq<Event>, q: nat, t: nat, raw: string, reply: Answer, table: Words)
    requires Run(states, events) && TakesEffect(table, events, q, t, raw, reply) && CommandOf(raw).Some?
    ensures OperatesAs(events[q], t, raw)
    ensures Eager(TableAfter(table, Log(events[..q])), CommandOf(raw).value, events[q].now).1 == reply
  {
    assert Step(states[q], events[q], states[q + 1]);
  }

  lemma TableGrows(table: Words, log: seq<LogEntry>, e: LogEntry)
    ensures TableAfter(table, log + [e]) == Effect(TableAfter(table, log), e).0
  {
    Halves(log, [e]);
  }

  lemma LogAt(events: seq<Event>, x: nat)
    requires x < |events|
    ensures Log(events[..x + 1]) == Log(events[..x]) + LogOf(events[x])
    ensures LogOf(events[x]) == [] ==> Log(events[..x + 1]) == Log(events[..x])
  {
    Slices(events, x, x + 1);
    LogGrows(events[..x], events[x]);
    assert events[..x + 1] == events[..x] + [events[x]];
  }

  lemma TableNext(table: Words, events: seq<Event>, x: nat)
    requires x < |events|
    ensures var before := TableAfter(table, Log(events[..x]));
            TableAfter(table, Log(events[..x + 1])) ==
            if LogOf(events[x]) == [] then before else Effect(before, LogOf(events[x])[0]).0
  {
    LogAt(events, x);
    if LogOf(events[x]) != [] {
      TableGrows(table, Log(events[..x]), LogOf(events[x])[0]);
    }
  }

  lemma EffectRan(table: Words, t: nat, raw: string, now: int, c: Command<string, string>)
    requires CommandOf(raw) == Some(c)
    ensures Effect(table, Ran(t, raw, now)) == Eager(table, c, now)
  {
  }

  lemma OperatedTable(table: Words, events: seq<Event>, x: nat, c: Command<string, string>)
    requires x < |events| && events[x].Operate? && CommandOf(events[x].raw) == Some(c)
    ensures TableAfter(table, Log(events[..x + 1])) == Eager(TableAfter(table, Log(events[..x])), c, events[x].now).0
  {
    var e := events[x];
    LogAt(events, x);
    TableGrows(table, Log(events[..x]), Ran(e.thread, e.raw, e.now));
    EffectRan(TableAfter(table, Log(events[..x])), e.thread, e.raw, e.now, c);
  }

  lemma {:induction false} TimesInOrder(events: seq<Event>, start: int, x: nat, y: nat)
    requires x <= y <= |events| && InOrder(Log(events[..y]), start)
    ensures LogTime(Log(events[..x]), start) <= LogTime(Log(events[..y]), start)
  {
    if x < y {
      LogAt(events, y - 1);
      TimesInOrder(events, start, x, y - 1);
    }
  }

  lemma OperatedAt(states: seq<System>, events: seq<Event>, x: nat, q: nat)
    requires Run(states, events) && x <= q < |events| && events[x].Operate? && events[q].Operate?
    ensures events[x].now <= events[q].now
  {
    var start := states[0].clock;
    InitialTable(states, events, q + 1);
    TimesInOrder(events, start, x + 1, q + 1);
    LastOperate(events, x, start);
    LastOperate(events, q, start);
  }

  lemma LastOperate(events: seq<Event>, x: nat, start: int)
    requires x < |events| && events[x].Operate?
    ensures LogTime(Log(events[..x + 1]), start) == events[x].now
  {
    LogAt(events, x);
  }

  lemma KeepsItem<K(!new), V(!new)>(t: Table<K, V>, c: Command<K, V>, now: int, key: K, item: Item<V>)
    requires key in t && t[key] == item && ItemLive(item, now) && (c.Get? || c.key != key)
    ensures key in Eager(t, c, now).0 && Eager(t, c, now).0[key] == item
  {
  }

  /** The map holds the item under the key after the first `x` events. */
  ghost predicate Holding(table: Words, events: seq<Event>, key: string, item: Item<string>, x: nat) {
    x <= |events| && var t := TableAfter(table, Log(events[..x])); key in t && t[key] == item
  }

  lemma StaysStep(
    states: seq<System>, events: seq<Event>, table: Words, key: string, item: Item<string>, x: nat, q: nat)
    requires Run(states, events) && x < q < |events| && events[q].Operate? && ItemLive(item, events[q].now)
    requires Holding(table, events, key, item, x) && !Writes(events[x], key)
    ensures Holding(table, events, key, item, x + 1)
  {
    TableNext(table, events, x);
    var e := events[x];
    assert Step(states[x], e, states[x + 1]);
    if e.Operate? {
      OperatedAt(states, events, x, q);
      OperatedTable(table, events, x, CommandOf(e.raw).value);
      KeepsItem(TableAfter(table, Log(events[..x])), CommandOf(e.raw).value, e.now, key, item);
    }
  }

  lemma {:induction false} UpTo(P: nat -> bool, lo: nat, hi: nat)
    requires lo <= hi && P(lo) && forall i | lo <= i < hi && P(i) :: P(i + 1)
    ensures P(hi)
    decreases hi - lo
  {
    if lo < hi {
      UpTo(P, lo + 1, hi);
    }
  }

  /** What an acknowledged SET stores stays in the map until its deadline or another write. */
  lemma StaysInMap(
    states: seq<System>, events: seq<Event>, table: Words, key: string, item: Item<string>, p: nat, q: nat)
    requires Run(states, events) && p < q < |events| && events[q].Operate? && ItemLive(item, events[q].now)
    requires Holding(table, events, key, item, p + 1) && forall i | p < i < q :: !Writes(events[i], key)
    ensures Holding(table, events, key, item, q)
  {
    ghost var P := (x: nat) => Holding(table, events, key, item, x);
    forall x | p + 1 <= x < q && P(x)
      ensures P(x + 1)
    {
      assert !Writes(events[x], key);
      StaysStep(states, events, table, key, item, x, q);
    }
    UpTo(P, p + 1, q);
  }

  lemma Stores<K(!new), V(!new)>(t: Table<K, V>, c: Command<K, V>, now: int, t': Table<K, V>, key: K, ttl: nat, value: V)
    requires c == Set(key, ttl, value) && Eager(t, c, now).1 == Ok && t' == Eager(t, c, now).0
    ensures key in t' && t'[key] == Item(value, Deadline(now, ttl))
  {
  }

  lemma Finds<K(!new), V(!new)>(t: Table<K, V>, key: K, item: Item<V>, now: int)
    requires key in t && t[key] == item && ItemLive(item, now)
    ensures Eager(t, Get(key), now).1 == Value(item.value)
  {
  }

  lemma StoredAt(events: seq<Event>, table: Words, p: nat, key: string, ttl: nat, value: string)
    requires p < |events| && events[p].Operate? && CommandOf(events[p].raw) == Some(Set(key, ttl, value))
    requires Eager(TableAfter(table, Log(events[..p])), Set(key, ttl, value), events[p].now).1 == Ok
    ensures Holding(table, events, key, Item(value, Deadline(events[p].now, ttl)), p + 1)
  {
    OperatedTable(table, events, p, CommandOf(events[p].raw).value);
    Stores(TableAfter(table, Log(events[..p])), CommandOf(events[p].raw).value, events[p].now,
           TableAfter(table, Log(events[..p + 1])), key, ttl, value);
  }

  /**
   * A SET answered OK before a GET of the key is received, over any number of clients: unless
   * another write of the key takes effect between the two, or the value expires, the GET is
   * answered with it.
   */
  lemma SetSeenByGet(states: seq<System>, events: seq<Event>,
      t: nat, setRaw: string, a: nat, b: nat, u: nat, getRaw: string, reply: Answer, c: nat, d: nat,
      key: string, ttl: nat, value: string)
    returns (p: nat, q: nat)
    requires Run(states, events) && b < c
    requires Exchange(events, t, setRaw, Ok, a, b) && CommandOf(setRaw) == Some(Set(key, ttl, value))
    requires Exchange(events, u, getRaw, reply, c, d) && CommandOf(getRaw) == Some(Get(key))
    ensures a < p < b < c < q < d
    ensures OperatesAs(events[p], t, setRaw) && OperatesAs(events[q], u, getRaw)
    ensures (forall i | p < i < q :: !Writes(events[i], key)) && (ttl == 0 || events[q].now < events[p].now + ttl * 1000)
            ==> reply == Value(value)
  {
    var table := LiveTable(states[0].slots, states[0].clock);
    p, q := RealTimeOrder(states, events, t, setRaw, Ok, a, b, u, getRaw, reply, c, d);
    Operates(states, events, p, t, setRaw, Ok, table);
    Operates(states, events, q, u, getRaw, reply, table);
    var item := Item(value, Deadline(events[p].now, ttl));
    if (forall i | p < i < q :: !Writes(events[i], key)) && ItemLive(item, events[q].now) {
      StoredAt(events, table, p, key, ttl, value);
      StaysInMap(states, events, table, key, item, p, q);
      Finds(TableAfter(table, Log(events[..q])), key, item, events[q].now);
    }
  }
}
