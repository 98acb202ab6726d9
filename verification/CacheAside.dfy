// The HTTP server's cache-aside path for /hello, with any number of servers sharing one cache.
module CacheAside {
  import opened Text
  import opened CacheStore
  import opened CacheProtocol
  import opened CacheClient
  import Framing = CacheFraming

  const CACHE_KEY := "http:/hello"
  const CACHE_TTL := 60

  type Words = Table<string, string>

  datatype Request = Request(verb: string, target: string)
  datatype Response = Response(status: string, body: string, headers: seq<(string, string)>)

  const ROUTES := map[
    "/" := ("200 OK", "HELLO WORLD!\n"),
    "/health" := ("200 OK", "OK\n"),
    "/hello" := ("200 OK", "HELLO WORLD!\n")
  ]

  /** The application without a cache. */
  function Respond(r: Request): Response {
    if r.verb != "GET" then Response("405 Method Not Allowed", "Method Not Allowed\n", [("Allow", "GET")])
    else if r.target in ROUTES then Response(ROUTES[r.target].0, ROUTES[r.target].1, [])
    else Response("404 Not Found", "Not Found\n", [])
  }

  predicate Cacheable(r: Request) {
    r.verb == "GET" && r.target == "/hello"
  }

  /** What is stored for a response: the body without its final newline. */
  function CacheValue(r: Response): string {
    if r.body != "" && r.body[|r.body| - 1] == '\n' then r.body[..|r.body| - 1] else r.body
  }

  // ----- respond_with_cache, one cache call at a time -----

  /** A request before its cache GET, between GET and SET, or answered. */
  datatype Phase = Asked(request: Request) | Missed(request: Request) | Answered(request: Request, response: Response)

  function Begin(r: Request, hasCache: bool): Phase {
    if !hasCache || !Cacheable(r) then Answered(r, Respond(r)) else Asked(r)
  }

  function AfterGet(r: Request, fetched: Fetched): Phase {
    match fetched
    case CacheError => Answered(r, Respond(r))
    case Hit(body) => Answered(r, Response("200 OK", body + "\n", []))
    case Miss => Missed(r)
  }

  function AfterSet(r: Request): Phase {
    Answered(r, Respond(r))
  }

  /** The command the cache executes for some bytes sent on a fresh connection, if any. */
  function Executed(sent: Option<string>): Option<Line> {
    if sent.None? then None
    else
      var f := Framing.Split(sent.value);
      if |f.lines| == 1 then CommandOf(f.lines[0]) else None
  }

  datatype Shared = Shared(table: Words, clock: int, requests: map<nat, Phase>)

  datatype Event =
    | Arrive(id: nat, request: Request, hasCache: bool)
    | GetFails(id: nat)                            // refused, timed out, or cut off
    | GetReplies(id: nat, now: int)
    | SetEnds(id: nat, now: int, applied: bool)    // success and failure are treated alike
    | LateSet(id: nat, now: int)                   // a SET the server gave up on is applied after all
    | Other(command: Line, now: int)               // anyone else using the cache

  /** The cache after the SET for a request, if it is applied. */
  function TableAfterSet(table: Words, r: Request, now: int, applied: bool): Words {
    var command := Executed(SetCommand(CACHE_KEY, CacheValue(Respond(r)), CACHE_TTL));
    if applied && command.Some? then Eager(table, command.value, now).0 else table
  }

  ghost predicate Step(s: Shared, e: Event, s': Shared) {
    match e
    case Arrive(id, request, hasCache) =>
      id !in s.requests && s' == s.(requests := s.requests[id := Begin(request, hasCache)])
    case GetFails(id) =>
      && id in s.requests && s.requests[id].Asked?
      && s' == s.(requests := s.requests[id := AfterGet(s.requests[id].request, CacheError)])
    case GetReplies(id, now) =>
      && id in s.requests && s.requests[id].Asked? && s.clock <= now
      && var command := Executed(GetCommand(CACHE_KEY));
      && command.Some?
      && var done := Eager(s.table, command.value, now);
      && var fetched := DecodeGet(ReadReply(Format(done.1)));
      && s' == Shared(done.0, now, s.requests[id := AfterGet(s.requests[id].request, fetched)])
    case SetEnds(id, now, applied) =>
      && id in s.requests && s.requests[id].Missed? && s.clock <= now
      && var r := s.requests[id].request;
      && s' == Shared(TableAfterSet(s.table, r, now, applied), now, s.requests[id := AfterSet(r)])
    case LateSet(id, now) =>
      && id in s.requests && Cacheable(s.requests[id].request) && s.clock <= now
      && s' == s.(table := TableAfterSet(s.table, s.requests[id].request, now, true), clock := now)
    case Other(command, now) =>
      && s.clock <= now && (command.Set? ==> command.key != CACHE_KEY)
      && s' == s.(table := Eager(s.table, command, now).0, clock := now)
  }

  ghost predicate Run(states: seq<Shared>, events: seq<Event>) {
    && |states| == |events| + 1
    && states[0].requests == map[] && CACHE_KEY !in states[0].table
    && forall i | 0 <= i < |events| :: Step(states[i], events[i], states[i + 1])
  }

  /** A phase a request may be in: an answer, once given, is the application's. */
  ghost predicate PhaseInv(p: Phase) {
    match p
    case Answered(r, response) => response == Respond(r)
    case _ => Cacheable(p.request)
  }

  ghost predicate TableInv(table: Words) {
    CACHE_KEY in table ==> table[CACHE_KEY].value == HelloBody()
  }

  /** Only the route's own body is ever cached, and every answer so far is the application's. */
  ghost predicate Inv(s: Shared) {
    TableInv(s.table) && forall id | id in s.requests :: PhaseInv(s.requests[id])
  }

  /** The cached form of the one cacheable route's body. */
  function HelloBody(): (body: string)
    ensures EncodeValue(body) == Some(body) && SetCommand(CACHE_KEY, body, CACHE_TTL).Some?
  {
    "HELLO WORLD!"
  }

  lemma {:induction false} HelloCached(r: Request)
    requires Cacheable(r)
    ensures CacheValue(Respond(r)) == HelloBody()
    ensures AfterGet(r, Hit(HelloBody())) == Answered(r, Respond(r))
  {
    assert "/hello" in ROUTES && Respond(r).body == "HELLO WORLD!\n";
  }

  /** A GET of a key that only ever held `body` misses or returns it. */
  lemma FetchesOnly(table: Words, key: string, body: string, now: int)
    requires key in table ==> table[key].value == body
    requires EncodeValue(body).Some?
    ensures var fetched := DecodeGet(ReadReply(Format(Eager(table, Get(key), now).1)));
            fetched == Hit(body) || fetched == Miss
  {
    AnswerReadsBack(Eager(table, Get(key), now).1, body);
  }

  lemma {:induction false} GetStep(s: Shared, id: nat, now: int, s': Shared)
    requires Step(s, GetReplies(id, now), s') && Inv(s)
    ensures Inv(s')
  {
    GetRoundTrip(CACHE_KEY);
    FetchesOnly(s.table, CACHE_KEY, HelloBody(), now);
    var r := s.requests[id].request;
    HelloCached(r);
    assert PhaseInv(s.requests[id]);
    assert PhaseInv(s'.requests[id]);
  }

  lemma StoresHello(r: Request)
    requires Cacheable(r)
    ensures Executed(SetCommand(CACHE_KEY, CacheValue(Respond(r)), CACHE_TTL)) == Some(Set(CACHE_KEY, CACHE_TTL, HelloBody()))
  {
    HelloCached(r);
    SetRoundTrip(CACHE_KEY, HelloBody(), CACHE_TTL);
  }

  /** A table that held nothing but `body` under a key still does after a SET of it. */
  lemma StoresOnly<K(!new), V(!new)>(table: Table<K, V>, key: K, ttl: nat, body: V, now: int)
    requires key in table ==> table[key].value == body
    ensures var t := Eager(table, Set(key, ttl, body), now).0; key in t ==> t[key].value == body
  {
  }

  lemma SetTable(table: Words, r: Request, now: int, applied: bool)
    requires TableInv(table) && Cacheable(r)
    ensures TableInv(TableAfterSet(table, r, now, applied))
  {
    StoresHello(r);
    StoresOnly(table, CACHE_KEY, CACHE_TTL, HelloBody(), now);
  }

  lemma {:induction false} SetStep(s: Shared, id: nat, now: int, applied: bool, s': Shared)
    requires Step(s, SetEnds(id, now, applied), s') && Inv(s)
    ensures Inv(s')
  {
    assert PhaseInv(s.requests[id]);
    SetTable(s.table, s.requests[id].request, now, applied);
    assert PhaseInv(s'.requests[id]);
  }

  lemma {:induction false} InvStep(s: Shared, e: Event, s': Shared)
    requires Step(s, e, s') && Inv(s)
    ensures Inv(s')
  {
    match e
    case GetReplies(id, now) => GetStep(s, id, now, s');
    case SetEnds(id, now, applied) => SetStep(s, id, now, applied, s');
    case LateSet(id, now) => SetTable(s.table, s.requests[id].request, now, true);
    case _ =>
  }

  /**
   * Transparency: whatever the cache loses, expires, refuses or misreports, and however the
   * servers' requests interleave, every response is the one the application gives on its own.
   */
  lemma Transparent(states: seq<Shared>, events: seq<Event>, id: nat)
    requires Run(states, events)
    requires id in states[|events|].requests && states[|events|].requests[id].Answered?
    ensures var answered := states[|events|].requests[id]; answered.response == Respond(answered.request)
  {
    Invariant(states, events);
  }

  lemma {:induction false} Invariant(states: seq<Shared>, events: seq<Event>)
    requires Run(states, events)
    ensures Inv(states[|events|])
  {
    if events != [] {
      var n := |events| - 1;
      Invariant(states[..n + 1], events[..n]);
      InvStep(states[n], events[n], states[n + 1]);
    }
  }
}
