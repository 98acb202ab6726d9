// The cache end to end: a connection's bytes in, any interleaving with other connections, and its
// bytes out.
module CacheSessions {
  import opened Text
  import opened Chunking
  import opened CacheStore
  import opened CacheProtocol
  import opened CacheConcurrency
  import opened CacheRealTime
  import Framing = CacheFraming
  import Client = CacheClient

  // ----- What a connection receives -----

  /** The bytes of some answers, in order. */
  function Replies(answers: seq<Answer>): string {
    if answers == [] then "" else Replies(answers[..|answers| - 1]) + Format(answers[|answers| - 1])
  }

  /** What the framing sends on its own: ERROR, when a chunk does not fit. */
  function Farewell(end: Framing.Session): string {
    if end.TooLong? then "ERROR\n" else ""
  }

  /** All bytes sent on thread t's connection. */
  function BytesOut(events: seq<Event>, t: nat, end: Framing.Session): string {
    Replies(Sent(events, t)) + Farewell(end)
  }

  lemma {:induction false} OneAnswerEach(table: Words, log: seq<LogEntry>, t: nat)
    ensures |AnswersTo(table, log, t)| == |LinesOf(log, t)|
  {
    if log != [] {
      OneAnswerEach(table, log[..|log| - 1], t);
    }
  }

  /**
   * However a connection's bytes are cut and however its thread interleaves with the others, once
   * every line its framing has handled is answered, the bytes it was sent are one reply to
   * each handled line, in order, as the map gives them in lock order, and at most one ERROR.
   */
  lemma SessionServed(
    states: seq<System>, events: seq<Event>, t: nat, chunks: seq<string>, sendable: nat)
    requires Run(states, events) && PhaseOf(states[|events|], t) == Idle
    requires ReceivedBy(events, t) == Framing.Serve(chunks, sendable).handled
    ensures var table, log, end := LiveTable(states[0].slots, states[0].clock), Log(events), Framing.Serve(chunks, sendable);
            && LinesOf(log, t) == end.handled
            && |AnswersTo(table, log, t)| == |end.handled|
            && BytesOut(events, t, end) == Replies(AnswersTo(table, log, t)) + Farewell(end)
  {
    IdleClientAnswered(states, events, t);
    OneAnswerEach(LiveTable(states[0].slots, states[0].clock), Log(events), t);
  }

  /** Where the largest chunk always fits, the lines answered are those of the whole stream. */
  lemma StreamServed(
    states: seq<System>, events: seq<Event>, t: nat, chunks: seq<string>, sendable: nat)
    requires Run(states, events) && PhaseOf(states[|events|], t) == Idle
    requires ReceivedBy(events, t) == Framing.Serve(chunks, sendable).handled
    requires Chunks(chunks) && Framing.AlwaysFits(Concat(chunks))
    requires |Framing.Split(Concat(chunks)).lines| <= sendable
    ensures var table, log, end := LiveTable(states[0].slots, states[0].clock), Log(events), Framing.Serve(chunks, sendable);
            && LinesOf(log, t) == Framing.Split(Concat(chunks)).lines
            && BytesOut(events, t, end) == Replies(AnswersTo(table, log, t))
  {
    SessionServed(states, events, t, chunks, sendable);
    Framing.ServesWhole(chunks, sendable);
    var table, log := LiveTable(states[0].slots, states[0].clock), Log(events);
    assert Replies(AnswersTo(table, log, t)) + "" == Replies(AnswersTo(table, log, t));
  }

  // ----- A set that returned, then a get, on connections of their own -----

  lemma SetAnswer(t: Table<string, string>, key: string, ttl: nat, value: string, now: int)
    ensures Eager(t, Set(key, ttl, value), now).1 in {Ok, Error}
  {
  }

  /** A set returned to the client only if the server answered OK. */
  lemma SetReturned(states: seq<System>, events: seq<Event>, t: nat, raw: string, reply: Answer, a: nat, b: nat,
      key: string, ttl: nat, value: string, more: string)
    requires Run(states, events) && Exchange(events, t, raw, reply, a, b)
    requires CommandOf(raw) == Some(Set(key, ttl, value))
    requires Client.DecodeSet(Client.ReadReply(Format(reply) + more))
    ensures reply == Ok
  {
    var table := LiveTable(states[0].slots, states[0].clock);
    var p := EffectBetween(states, events, t, raw, reply, a, b);
    Operates(states, events, p, t, raw, reply, table);
    SetAnswer(TableAfter(table, Log(events[..p])), key, ttl, value, events[p].now);
    Client.ReplyRoundTrip(reply, value, more);
  }

  /**
   * The Python client opens a connection for each command. If its set returned before the server
   * received the get, then over every interleaving with any other clients the get returns
   * the same bytes, unless another write of the key took effect between the two or it expired.
   */
  lemma StoredThenFetched(states: seq<System>, events: seq<Event>,
      t: nat, setReply: Answer, a: nat, b: nat, u: nat, getReply: Answer, c: nat, d: nat,
      key: string, ttl: nat, value: string, more: string)
    returns (p: nat, q: nat)
    requires Client.SetCommand(key, value, ttl).Some? && Client.GetCommand(key).Some?
    requires Run(states, events) && b < c
    requires Exchange(events, t, Framing.Split(Client.SetCommand(key, value, ttl).value).lines[0], setReply, a, b)
    requires Exchange(events, u, Framing.Split(Client.GetCommand(key).value).lines[0], getReply, c, d)
    requires Client.DecodeSet(Client.ReadReply(Format(setReply) + more))
    ensures a < p < b < c < q < d && events[p].Operate? && events[q].Operate?
    ensures (forall i | p < i < q :: !Writes(events[i], key)) && (ttl == 0 || events[q].now < events[p].now + ttl * 1000)
            ==> Client.DecodeGet(Client.ReadReply(Format(getReply) + more)) == Client.Hit(value)
  {
    Client.SetRoundTrip(key, value, ttl);
    Client.GetRoundTrip(key);
    var setRaw := Framing.Split(Client.SetCommand(key, value, ttl).value).lines[0];
    var getRaw := Framing.Split(Client.GetCommand(key).value).lines[0];
    SetReturned(states, events, t, setRaw, setReply, a, b, key, ttl, value, more);
    p, q := SetSeenByGet(states, events, t, setRaw, a, b, u, getRaw, getReply, c, d, key, ttl, value);
    Client.ReplyRoundTrip(Value(value), value, more);
  }
}
