# A verified model of the container-networking stack

The repository is a stack of small programs that meet on the wire: an HTTP client and server in
Python, a reverse proxy, a load balancer and a DNS server in Go, an in-memory cache and a
container launcher in C. This project models the logic of those programs in Dafny and proves
what they promise each other. `dafny verify dfyconfig.toml` checks all of it.

Each file holds one module. Code that works by changing things in place is a class or a method
with loops (`CacheStore.Store`, `BackendPool.Pool`, the receive loops, the readers, the DNS walk,
the response buffer, the wait loop); each method is proved equal to a specification function, and
the lemmas are about that function. Code made of expressions is functions. Threads, processes and
signals are step relations, and their theorems are about every run.

- **The cache.** `CacheStore` is the 1024-slot array with lazy expiry, proved to answer every run
  of commands as a plain map that drops all expired keys before each command; `CacheHistory` gives every
  reply from the bare history of commands, without that map. `CacheConcurrency`
  interleaves any number of client threads around the mutex: the replies are those of the map in
  lock order. `CacheRealTime` places each line's turn between its receipt and its reply, so that a
  line answered before another is received comes first. `CacheFraming` is the in-place line buffer
  and `CacheCuts` says exactly which streams it serves alike under every chunking. `CacheLines` pins the cut into lines. `CacheProtocol` is the command parser and `CacheGrammar` its
  grammar, `CacheClient` the Python client against it and `CacheReplies` what it takes from replies, `CacheSessions` a connection from its bytes in to its bytes out,
  `ClientSlots` the counter of active clients, and `CacheAside` the HTTP
  servers' shared use of one key.
- **The load balancer.** `BackendPool` compacts, shifts and appends to a backing array, refining the
  rows of `LeaseTable`; `LeaseTable` relates lazy pruning to an eager lease table and to the bare
  history of registrations and removals. `BackendHealth` and `BackendHistory` follow every backend ever
  registered through registry calls and health reports, as values, and `PoolRun` proves the pool's
  objects follow them. `RoundRobin` is the shared 64-bit counter, `Failover`
  the connection handler over a snapshot with every network outcome an oracle; `FailoverOutcome` says who
  answers and with which bytes, from those outcomes alone, and `ErrorPages` has the HTTP client read its error responses.
- **HTTP.** `RequestReaders` compares the three bounded request readers, alone and in a row;
  `ReaderOutcomes` gives their result for any chunks at all. `HttpRequest` is the server's parser and the
  Go programs' scan for body headers, `HttpRequestGrammar` exactly what the one accepts and `BodyHeaders`
  exactly what the other finds. `HttpResponse` is the server's printer and the client's parser, and
  `HttpResponseGrammar` exactly what the one writes and the other accepts (RFC 9112, sections 2.1, 3, 4 and 5).
- **DNS.** `DnsMessage` is the grammar of names, `DnsServer` the response builder, `DnsClient` the
  encoder, the answer parser and a whole lookup. `DnsAnswers` gives the response to every packet,
  `DnsHosts` the hosts that are encoded and how, `DnsRecords` the packets an address is taken from (RFC 1035, sections 2.3.4, 3.1 and 4.1).
- **The container launcher.** `Supervisor` is the wait loop and its interleaving with exiting
  children and pending signals; `SupervisorCalls` is the order of its system calls.

`Text`, `Decimal` and `Chunking` hold what several of these share. A byte of a text protocol is a
`char`; the theorems hold for all characters, so for bytes too. DNS bytes are integers below 256.

## Where the code departs from what one might expect

- The HTTP server and the reverse proxy check the buffer's size before they look for the end of the
  header block, so a block of at most 64 KiB, which the documentation accepts, can be refused when bytes
  follow it. `RequestReaders.ExactBound` gives the exact condition under which no chunking does that, and
  `RequestReaders.AllowedBlockRefused` an input.
- The cache refuses a line by the size of its whole buffer, so whether a line near LINE_MAX is served depends
  on how it arrives. `CacheCuts.CutsIndistinguishable` says exactly for which streams it does not,
  `CacheFraming.EveryCutAgrees` for which streams every chunking is served whole, and
  `CacheCuts.SameStreamTwoFates` gives a stream with both outcomes.
- `remove` does not prune, so removing an expired address that is still stored succeeds, where the
  documentation says an unknown address is not found. `LeaseTable.AnswersDiffer` shows that this is the only
  answer that differs from eager pruning, and when, by the history of calls alone;
  `LeaseTable.ExpiredDeletionSucceeds` is an input.
- A request that holds a backend removed since its snapshot is, as documented, still offered it, until the old lease ends:
  `BackendHistory.LeftForGood` for every run, `BackendHistory.RemovedStillOffered` for an input.
- Converting the round-robin counter to a signed integer makes the index negative for counters of
  2^63 or more; `RoundRobin.ClaimUsable` gives the exact condition, `RoundRobin.ClaimNegative` an input.
- A host name whose query exceeds 512 bytes is accepted by the encoder, cut by the server's receive buffer, and
  refused; `DnsClient.LongQueryFails` is the case, and the lookup theorem covers it.

## Model

| member | source | states |
|---|---|---|
| CacheStore.Store.constructor | in-mem-cache/server.c:38 | the zero-filled store is well formed and holds no key at any time |
| CacheStore.Store.Lookup | in-mem-cache/server.c:66-78 | index of the key's used slot, or -1; an expired one is freed and nothing else changes |
| CacheStore.Store.FreeSlot | in-mem-cache/server.c:80-89 | claims the first slot that is free or expired; -1 and no change when all are live |
| CacheStore.Store.Get | in-mem-cache/server.c:165-174 | the whole new array and the reply of a GET |
| CacheStore.Store.Delete | in-mem-cache/server.c:183-192 | the whole new array and the reply of a DELETE |
| CacheStore.Store.Set | in-mem-cache/server.c:224-245 | the whole new array and the reply of a SET |
| CacheStore.Store.Execute | in-mem-cache/server.c:157-246 | used slots keep distinct keys, and array and reply are those of the command on the map of live entries |
| CacheStore.LookupRefines | in-mem-cache/server.c:66-78 | lookup finds a slot exactly when the key is live, and freeing an expired slot changes nothing a client can see |
| CacheStore.FullRefines | in-mem-cache/server.c:80-89 | no slot can be claimed exactly when 1024 keys are live |
| CacheStore.LiveKeysCount | in-mem-cache/server.c:66-89 | with distinct keys, live keys are as many as slots exactly when every slot is live |
| CacheStore.LazyRefines | in-mem-cache/server.c:157-246 | one command on the array with lazy expiry is the command on the map without expired keys |
| CacheStore.LaterTable | in-mem-cache/server.c:70-73 | as time passes the array loses exactly the keys whose deadline has passed |
| CacheStore.RunsRefine | in-mem-cache/server.c:157-246 | every run under a clock that never goes back gets the replies, and ends in the state, of the eager map; keys stay distinct |
| CacheStore.LiveItemSurvives | in-mem-cache/server.c:66-89 | a live entry is lost only to a SET or DELETE of its own key or to its deadline |
| CacheStore.SetThenGet | in-mem-cache/server.c:165-174 | after an acknowledged SET, a GET before the deadline with no other write to the key returns the value |
| CacheHistory.MapTells | in-mem-cache/server.c:66-89 | over every run, what the map stores under a key is what the history of successful SETs and DELETEs and the milliseconds since say it holds |
| CacheHistory.Replies | in-mem-cache/server.c:157-246 | in every run on the array, a GET returns what was last set and neither deleted nor outlived its TTL; a DELETE succeeds exactly when such a value is there; a SET fails exactly when none is and 1024 keys hold one |
| CacheHistory.GoneWhenExpired | in-mem-cache/server.c:237-242 | a GET at or past the deadline of a SET with a TTL, the key not set again, is answered NOT_FOUND |
| CacheHistory.GoneWhenDeleted | in-mem-cache/server.c:183-192 | a GET after a DELETE, the key not set again, is answered NOT_FOUND |
| CacheHistory.DeleteLikeGet | in-mem-cache/server.c:165-192 | at any moment a DELETE answers OK exactly when a GET would return a value |
| CacheProtocol.CheckKey | in-mem-cache/server.c:122-133 | true exactly for 1 to 256 characters without white space |
| CacheProtocol.ReadTtl | in-mem-cache/server.c:135-154 | the number 1 to 5 digits denote if at most 86400, else refused |
| CacheProtocol.ParseLineIsSet | in-mem-cache/server.c:195-222 | a line is a SET of a key, TTL and value exactly when it is the word SET, the key, a numeral of the TTL and the value, one space apart |
| CacheGrammar.ParseLineIsGet | in-mem-cache/server.c:158-163 | a line is a GET of a key exactly when it is the word GET and the key, one space apart |
| CacheGrammar.ParseLineIsDelete | in-mem-cache/server.c:177-181 | a line is a DELETE of a key exactly when it is the word DELETE and the key, one space apart |
| CacheGrammar.LineEndings | in-mem-cache/server.c:285-301 | one carriage return before the newline is dropped and changes no command; an empty line or a NUL makes none |
| CacheProtocol.StoredValueFits | in-mem-cache/server.c:110-120 | every value the parser admits fits the reply buffer |
| Decimal.PrintParses | http-server/cache_client.py:69 | the decimal text of a number reads back as the number |
| CacheFraming.TakeLines | in-mem-cache/server.c:275-304 | the inner loop handles exactly the complete lines of the buffer and leaves the unfinished rest, or stops at the first answer that cannot be sent |
| CacheFraming.MoveDown | in-mem-cache/server.c:306 | the unprocessed bytes end up at the front of the buffer |
| CacheFraming.ReceiveChunk | in-mem-cache/server.c:268-312 | one pass of the receive loop in place equals the session step, and the pending length stays within LINE_MAX |
| CacheFraming.HandleClient | in-mem-cache/server.c:251-314 | the whole loop over a buffer of LINE_MAX + 1 bytes ends as the specification of the session does |
| CacheFraming.SplitAppend | in-mem-cache/server.c:277-284 | the lines of a stream are the lines of its first part, then those of its unfinished line and the second part |
| CacheLines.SplitRejoins | in-mem-cache/server.c:276-284 | the lines with their newlines and the rest make up the stream, and no line holds a newline |
| CacheLines.SplitUnlines | in-mem-cache/server.c:276-284 | any lines put together are cut into the same lines |
| CacheFraming.ServesWhole | in-mem-cache/server.c:257-313 | where the largest chunk always fits, every chunking handles exactly the newline-split lines |
| CacheFraming.EveryCutAgrees | in-mem-cache/server.c:268-271 | for a client that takes its answers: every chunking handles exactly the newline-split lines and leaves the rest pending if and only if at every offset the unfinished line and the largest next chunk fit LINE_MAX together |
| CacheFraming.ShortLinesFit | in-mem-cache/server.c:268-271 | newline-free runs of at most LINE_MAX - RECV_BUF bytes meet that condition |
| CacheFraming.LongLineEnds | in-mem-cache/server.c:268-271 | for a client that takes its answers: short lines followed by a line that overruns LINE_MAX, its newline included: every chunking handles exactly the short lines, answers one ERROR and closes |
| CacheFraming.CutThatOverflows | in-mem-cache/server.c:268-271 | where the condition fails, a chunking that is turned away |
| CacheFraming.NeverPastLimit | in-mem-cache/server.c:305-312 | the pending length never exceeds LINE_MAX, so the last check never fires |
| CacheCuts.AlwaysOverrunsEnds | in-mem-cache/server.c:268-271 | a stream that always fits up to a line of at least LINE_MAX bytes and goes beyond it ends there in every chunking |
| CacheCuts.FirstMisfitEnds | in-mem-cache/server.c:268-271 | at the first offset where the largest chunk does not fit, that chunk is turned away with the lines before it handled |
| CacheCuts.ByteByByte | in-mem-cache/server.c:257-313 | fed single bytes, a stream is served whole or ends at a line that fills the buffer |
| CacheCuts.CutsIndistinguishable | in-mem-cache/server.c:257-313 | for a client that takes its answers: any two chunkings of a stream get the same session if and only if the largest chunk always fits, or always fits up to a line of at least LINE_MAX bytes that the stream goes beyond |
| CacheCuts.SameStreamTwoFates | in-mem-cache/server.c:268-271 | a stream of LINE_MAX + 1 bytes that one chunking serves and another turns away |
| CacheClient.SetRoundTrip | http-server/cache_client.py:63-70 | the server reads every SET the client encodes as one line and executes exactly its key, TTL and value |
| CacheClient.GetRoundTrip | http-server/cache_client.py:53-55 | the same for GET |
| CacheClient.ReadsReply | http-server/cache_client.py:40-51 | the client reads back a reply whole if and only if it fits its bound, whatever follows on the connection |
| CacheClient.ReplyRoundTrip | http-server/cache_client.py:53-72 | a hit, a miss or a successful set is reported if and only if the server replied so |
| CacheReplies.ReplyIs | http-server/cache_client.py:40-51 | of any bytes, a reply is taken exactly if they have a first line within the bound, and is that line |
| CacheReplies.GetResultIs | http-server/cache_client.py:53-61 | a reply line is a hit exactly if it is the word VALUE and an acceptable value, and a miss exactly if it is NOT_FOUND |
| CacheReplies.RepliesAre | in-mem-cache/README.md:12-18 | the four documented reply lines |
| CacheReplies.SetCommandIs | http-server/cache_client.py:15-32 | a SET is sent exactly for keys, values and TTLs in the documented ranges |
| CacheClient.StoredThenFetched | http-server/cache_client.py:53-72 | through both codecs and one sequential run of the array: a set that returned, then a get before expiry with no other write to the key, returns the same bytes |
| CacheConcurrency.MutexStep | in-mem-cache/server.c:165-173 | every step keeps: exactly the thread that owns the mutex is between lock and unlock |
| CacheConcurrency.StoreStep | in-mem-cache/server.c:165-166 | every step keeps: the array stands for the map after the commands in lock order, and their clock readings are in lock order too |
| CacheConcurrency.ClientStep | in-mem-cache/server.c:165-174 | every step keeps: what a client was sent and is owed are the map's answers to its lines in lock order |
| CacheConcurrency.Balance | in-mem-cache/server.c:157-249 | in any one step what a thread is sent and still owed is what it was owed and newly earned at its lock point |
| CacheConcurrency.Linearizable | in-mem-cache/server.c:165-245 | all three hold in every reachable state of every interleaving, so a reply is fixed at the lock point whatever runs before it is sent |
| CacheRealTime.EffectBetween | in-mem-cache/server.c:157-249 | every answer is the one the map gives, in lock order, at a moment between the receipt of its line and its sending |
| CacheRealTime.RealTimeOrder | in-mem-cache/server.c:157-249 | a line answered before another client's line is received takes effect before it |
| CacheRealTime.SetSeenByGet | in-mem-cache/server.c:165-245 | over every interleaving, a SET answered OK before a GET of the key is received is what the GET returns, unless another write takes effect between their lock points or the value expires |
| CacheSessions.SessionServed | in-mem-cache/server.c:251-314 | over every chunking and interleaving, once a connection's handled lines are answered, the bytes sent on it are one reply to each handled line, in order, as the map gives them in lock order, and ERROR if it was turned away |
| CacheSessions.StreamServed | in-mem-cache/server.c:251-314 | where the largest chunk always fits, those are the replies to exactly the newline-split lines of what the client sent |
| CacheSessions.StoredThenFetched | http-server/cache_client.py:40-72 | over every interleaving, with a connection for each command: a set that returned before the get is received is what the get returns, byte for byte, unless another write takes effect between or it expires |
| CacheConcurrency.IdleClientAnswered | in-mem-cache/server.c:301-303 | an idle client has had every line it sent answered, in order, as the sequential map does |
| ClientSlots.CounterStep | in-mem-cache/server.c:43-58 | every step keeps the counter equal to the number of slot holders, at most 32, and a release subtracts exactly one |
| ClientSlots.SlotsConserved | in-mem-cache/server.c:388-419 | in every reachable state the counter is the number of connections that reserved and have not released; each reserves at most once and has released exactly when it reserved and holds no slot |
| ClientSlots.NoUnderflow | in-mem-cache/server.c:54-58 | no decrement wraps |
| ClientSlots.TurnedAwayWhenFull | in-mem-cache/server.c:43-52 | a connection is turned away only while 32 slots are held, and admitted only while fewer are |
| ClientSlots.QuietMeansFree | in-mem-cache/server.c:316-323 | when all threads are gone all slots are free, and each admitted connection was released exactly once, by allocation failure, thread failure or normal end |
| CacheAside.HelloCached | http-server/server.py:130-138 | the cached form of the route's body turns back into the application's response |
| CacheAside.FetchesOnly | http-server/server.py:125-131 | a get of a key that only ever held one body misses or returns that body, through both codecs |
| CacheAside.InvStep | http-server/server.py:121-143 | every step of any server or other cache user keeps: only the route's own body is cached, every answer is the application's |
| CacheAside.Transparent | http-server/server.py:121-143 | over every run, with expiry, a full store, failing gets, sets that fail, apply but report failure or apply late, each response equals the application's own |
| LeaseTable.RemovePrunes | load-balancer/server.go:94-104 | removing without pruning, then pruning, leaves what pruning first would |
| LeaseTable.RemoveFinds | load-balancer/server.go:94-104 | removal succeeds exactly when a stored row, expired or not, has the address |
| LeaseTable.LazyRefinesEager | load-balancer/server.go:57-104 | over every run with a clock that never goes back, the lazily pruned rows are the eager table's once expired rows are dropped |
| LeaseTable.AnswersRefine | load-balancer/server.go:74-104 | registrations and snapshots answer as the eager table; an answer differs if and only if the call is a removal and an expired row with its address is still stored |
| LeaseTable.StoredIs | load-balancer/server.go:57-104 | an address has a row, expired or not, if and only if it was registered, not removed since, and no call pruned after its lease ended |
| LeaseTable.AnswersDiffer | load-balancer/server.go:94-104 | the same difference by the history alone: a removal of an address whose lease has ended, with neither a removal nor a pruning call since |
| LeaseTable.ExpiredDeletionSucceeds | load-balancer/server.go:94-104 | one registration and a removal 3 s later: success, where the eager table refuses |
| LeaseTable.HistoryExplains | load-balancer/server.go:57-104 | in every run each row dates from its address's last renewal, no leased address is missing, and rows are in order of joining |
| LeaseTable.SnapshotIsLeased | load-balancer/server.go:67-72 | a snapshot lists, in order of joining and each once, exactly the addresses renewed less than 3 s ago and not removed since; at most 32 |
| LeaseTable.RefusedOnlyWhenFull | load-balancer/server.go:74-92 | registration fails if and only if the address has no lease and 32 others do |
| LeaseTable.RunsDistinct | load-balancer/server.go:79-91 | addresses are distinct and at most 32 in every run |
| BackendPool.Pool.PruneExpired | load-balancer/server.go:57-65 | compaction over the shared array keeps exactly the unexpired backends, in order |
| BackendPool.Pool.Compact | load-balancer/server.go:58-63 | the loop leaves the kept backends at the front of the array and touches no backend |
| BackendPool.Pool.Append | load-balancer/server.go:88-90 | the backend joins at the end, in place or in a larger array |
| BackendPool.Pool.Register | load-balancer/server.go:74-92 | rows and result are those of the specification; members keep their identity, place and cooldown, a new one starts without cooldown |
| BackendPool.Pool.Admit | load-balancer/server.go:79-91 | registration after pruning: renewal, refusal or append |
| BackendPool.Pool.Remove | load-balancer/server.go:94-104 | the shift within the array is deletion of the first row with the address |
| BackendPool.Pool.Snapshot | load-balancer/server.go:67-72 | the pruned members, copied to an array of their own |
| BackendPool.Pool.Available | load-balancer/server.go:106-112 | true exactly when the lease is live and no cooldown runs |
| BackendPool.Pool.MarkFailure | load-balancer/server.go:114-118 | starts a cooldown of one second and changes nothing else |
| BackendPool.Pool.MarkSuccess | load-balancer/server.go:120-124 | ends any cooldown and changes nothing else |
| BackendPool.KeptRows | load-balancer/server.go:57-65 | compacting backends is filtering their rows |
| BackendPool.Handle | load-balancer/server.go:57-104 | each call takes a pool that stands for a history's rows to one that stands for the longer history's |
| BackendPool.ServeWhileHolding | load-balancer/server.go:67-72 | through any later registrations, removals and prunings a held snapshot keeps its sequence of backends, while the pool follows its history |
| BackendHealth.AvailableIs | load-balancer/server.go:106-124 | for every history of one backend: its deadlines allow it if and only if it was renewed less than 3 s ago and its latest report is not a failure less than 1 s old |
| BackendHistory.RowsFollow | load-balancer/server.go:57-104 | over every run of registry calls and reports, reports by anyone leave the members' rows those of the calls alone |
| BackendHistory.HealthFollows | load-balancer/server.go:74-124 | over every such run, the deadlines of every backend ever registered, member or not, are the fold of its own renewals and reports |
| BackendHistory.OfferedIs | load-balancer/server.go:106-124 | over every such run, any backend a request may hold is available if and only if its own last renewal is less than 3 s old and its latest report is not a failure less than 1 s old |
| BackendHistory.MemberOfferedIs | load-balancer/server.go:106-124 | over every such run, a member is available if and only if its address holds a lease by the history of calls and its latest report is not a failure less than 1 s old |
| BackendHistory.LeftForGood | load-balancer/server.go:57-104 | a backend that has left the pool never rejoins it and keeps its last lease, whatever follows |
| BackendHistory.RemovedStillOffered | load-balancer/server.go:94-112 | registered, listed in a snapshot and removed: still available 2 ns later, though its address holds no lease |
| PoolRun.Register | load-balancer/server.go:74-92 | a registration takes the pool's objects, and every backend anyone may hold, to the history's next state: the renewed backend is the same object, a new one joins |
| PoolRun.Remove | load-balancer/server.go:94-104 | the same for a removal: the backend leaves the pool and its deadlines stay |
| PoolRun.Prune | load-balancer/server.go:57-65 | the same for pruning |
| PoolRun.Report | load-balancer/server.go:114-124 | the same for a success or failure reported on any backend ever registered |
| PoolRun.Observe | load-balancer/server.go:57-124 | the same for any operation |
| PoolRun.Serve | load-balancer/server.go:57-124 | so a whole run from an empty pool leaves objects that stand for the run's history |
| PoolRun.Available | load-balancer/server.go:106-112 | what available answers after any run: by a backend's own events for any backend held, by the history's leases for a member |
| RoundRobin.ClaimUsable | load-balancer/server.go:306 | a claimed index is in range if and only if the counter is below 2^63 or its distance to 2^64 is a multiple of n |
| RoundRobin.ClaimNegative | load-balancer/server.go:306 | counter 2^63 and three backends: index -2 |
| RoundRobin.TriesAll | load-balancer/server.go:307-308 | the indices tried are 0 to n - 1, each exactly once |
| RoundRobin.OnePerRound | load-balancer/server.go:306-308 | n consecutive claims start at each backend once |
| RoundRobin.WindowFair | load-balancer/server.go:306-308 | m consecutive claims start at each backend floor(m/n) or ceil(m/n) times |
| RoundRobin.Fair | load-balancer/server.go:291-308 | the same for every interleaving of requests with fixed membership below 2^63; rejected requests and empty snapshots never move the counter |
| Failover.Relay | load-balancer/server.go:334-359 | what reaches the client, whether the backend ended cleanly, and that a response has started exactly when a byte reached the client |
| Failover.RelayPrefix | load-balancer/server.go:343-358 | the client gets a prefix of what the backend sent |
| Failover.TryBackends | load-balancer/server.go:307-331 | every backend before the answering one was skipped; dials, failures and success are recorded as the loop makes them |
| Failover.HandleConnection | load-balancer/server.go:287-332 | 400 exactly for an invalid request, 502 for an empty snapshot, the counter moves only for a claim, and otherwise the failover outcome |
| Failover.DialledOnce | load-balancer/server.go:307-314 | the backends dialled come in cyclic order from the claimed one, none twice |
| Failover.ClientSeesOneSource | load-balancer/server.go:300-332 | the client gets the 502 message or a possibly empty prefix of one backend's bytes; 502 only after every backend was unavailable or failed before any byte |
| FailoverOutcome.RelayIs | load-balancer/server.go:343-358 | the client gets all data up to the first read that ends, fails or is not delivered, that read's data too if delivered; nothing if the request was not sent |
| FailoverOutcome.CleanIs | load-balancer/server.go:343-358 | a relay is clean exactly if the request was sent and some read ended the response with all before it delivered, and the client then got all of it |
| FailoverOutcome.WhoAnswers | load-balancer/server.go:307-331 | a backend that answers is the first in turn that begins or finishes a response; it is marked a success exactly if it finishes, and all dialled before it, and only those, are marked failed |
| FailoverOutcome.NobodyAnswers | load-balancer/server.go:329-331 | 502 exactly if no available backend would bring the client a byte or a finished response; every available one was dialled and marked failed |
| ErrorPages.ErrorIsRead | load-balancer/server.go:402-410 | the HTTP client reads any error response back as its code, reason, body, the body's decimal length and the close |
| ErrorPages.ErrorPagesAreRead | load-balancer/server.go:296-303 | the 400 and 502 responses are read as those codes and reasons |
| RequestReaders.ReadForLoadBalancer | load-balancer/server.go:361-384 | the loop's result for any chunks |
| RequestReaders.ReadForReverseProxy | reverse-proxy/server.go:148-165 | the loop's result for any chunks |
| RequestReaders.ReadForHttpServer | http-server/server.py:91-105 | the loop's result for any chunks |
| RequestReaders.LoadBalancerExact | load-balancer/server.go:361-384 | for every chunking the first h bytes if the header block ends at h of at most 64 KiB, and a refusal if it ends beyond |
| ReaderOutcomes.NeverComplete | http-server/server.py:94-100 | without a blank line the server and the proxy have read everything, or refuse more than 64 KiB, in any chunks |
| ReaderOutcomes.FirstComplete | reverse-proxy/server.go:152-164 | in any chunks, when one first completes the blank line they take the request exactly if at most 64 KiB were received by then: the server the header block, the proxy everything received |
| RequestReaders.AcceptsWhatFits | http-server/server.py:91-105 | the other two readers take a block ending at h of at most 64 KiB - 4 KiB + 1, or a stream within the limit, under every chunking |
| RequestReaders.ExactBound | reverse-proxy/server.go:148-165 | they do so under every chunking if and only if that bound holds |
| RequestReaders.CutTooLarge | http-server/server.py:99-100 | beyond the bound, a chunking that is refused |
| RequestReaders.AllowedBlockRefused | http-server/server.py:99-100 | a header block of exactly 64 KiB and one byte behind it: a chunking that the load balancer takes and the reader refuses |
| RequestReaders.SameHeaderLines | load-balancer/server.go:388-389 | the header lines a body check scans do not depend on bytes behind the blank line |
| RequestReaders.StackPassesHeaders | http-server/server.py:91-105 | for a stream without body headers that meets the bound, both proxies admit it and the server gets exactly the client's first h bytes, however the three connections are cut |
| HttpRequest.ReadHeaders | http-server/server.py:55-73 | the header loop's mapping or refusal |
| HttpRequest.SplitJoin | http-server/server.py:82-87 | splitting joined lines gives the lines back |
| HttpRequest.JoinSplit | http-server/server.py:82-87 | joining split text gives the text back |
| HttpRequest.HeaderNames | http-server/server.py:55-73 | the parsed names are exactly the folded names of the lines |
| HttpRequestGrammar.RequestLineIs | http-server/server.py:36-52 | a request line gives a method, target and version exactly if it is those three, one space apart, a token, a path without controls or spaces, and a supported version |
| HttpRequestGrammar.StripIs | http-server/server.py:72 | a stripped value is the text without the spaces and tabs at either end |
| HttpRequestGrammar.HeadersAre | http-server/server.py:55-73 | header lines are accepted exactly if each has a colon, a name that folds to a token and no controls, and no two names fold alike; the mapping is each folded name with its stripped text |
| HttpRequestGrammar.RequestParses | http-server/server.py:76-88 | such a line and header lines, a blank line and anything parse to that method, target, version and mapping |
| HttpRequestGrammar.RequestParts | http-server/server.py:76-88 | and every accepted request has those parts |
| HttpRequest.HasUnsupportedBody | load-balancer/server.go:386-400 | true exactly when some line after the first names a body header |
| BodyHeaders.KeyIs | load-balancer/server.go:391-396 | a line is taken for a body header exactly if what precedes its colon spells one in any case, white space around it aside |
| BodyHeaders.NamesBodyIs | reverse-proxy/server.go:167-181 | the scan of any request is true exactly if a line after the first does |
| HttpRequest.KeysAgree | http-server/server.py:60-72 | of a line the server accepts, whatever bytes its name has, both sides see a body header or neither does |
| HttpRequest.BodyGateAgrees | http-server/server.py:151-152 | for every request the server can parse, the Go scan is true if and only if the parsed headers hold content-length or transfer-encoding |
| HttpResponse.ReadFields | http-server/client.py:60-82 | the header loop's mapping and the rest of the stream, or refusal |
| HttpResponse.ParsesFields | http-server/client.py:60-82 | from the printed fields the loop collects exactly them and stops just before the body |
| HttpResponse.RoundTrip | http-server/server.py:108-118 | for every body, three-digit status, ASCII reason and list of token names with ASCII values, the client reads back status, reason, collected headers and exact body, or refuses a named encoding |
| HttpResponse.HeadersSurvive | http-server/client.py:60-95 | the headers read are the fields under lower-cased names with trimmed values, the decimal length and the close, and no others |
| HttpResponse.RefusesEncodings | http-server/client.py:84-87 | a response is refused as unsupported if and only if a field names a transfer or content encoding |
| HttpResponseGrammar.StatusLineIs | http-server/client.py:41-58 | a status line is accepted exactly if it is a supported version, three digits and a reason without controls, one space apart |
| HttpResponseGrammar.ResponseRead | http-server/client.py:36-95 | a status line, good field lines, a blank line and a body are read as those parts, or refused for naming an encoding |
| HttpResponseGrammar.ResponseParts | http-server/client.py:36-95 | and every other text is malformed |
| HttpResponseGrammar.PrintedIs | http-server/server.py:108-118 | the server writes the status line, a line for each field, the length, the close, a blank line and the body, and fails exactly for text that is not ASCII |
| DnsMessage.WalkIsGrammar | dns-server/server.go:96-112 | the walk ends at an offset if and only if the bytes up to it are labels of 1 to 63 bytes closed by zero |
| DnsMessage.WalkPrefix | dns-server/server.go:96-112 | only the bytes of the name decide the walk |
| DnsMessage.EncodeInjective | http-server/client.py:98-114 | different names have different encodings |
| DnsMessage.LowerEncode | dns-server/server.go:128 | folding an encoded name is encoding the folded labels |
| DnsServer.FindNameEnd | dns-server/server.go:96-112 | the loop by position is the walk |
| DnsServer.Fill | dns-server/server.go:142-150 | the buffer written in place is header, question and answer |
| DnsServer.MakeResponse | dns-server/server.go:75-151 | the response, error response or silence of the specification |
| DnsServer.CarriesQuestion | dns-server/server.go:75-117 | a response carries a question if and only if the query is a standard one with one question in the grammar and four more bytes |
| DnsServer.ResponseShape | dns-server/server.go:64-151 | every response keeps the id, is marked as one, is at most max(query length, 43) bytes and gets no response itself |
| DnsServer.QuestionEchoed | dns-server/server.go:142-150 | the question comes back byte for byte and is walked to the same offset |
| DnsServer.TrailingIgnored | dns-server/server.go:114-120 | bytes after the question do not change the response |
| DnsAnswers.QuestionAnswered | dns-server/server.go:114-150 | a standard query with one well-formed question: NOTIMP for another class, NXDOMAIN with AA for another name, no error with AA otherwise, with the one record exactly for type A; RD kept, all counts and bytes given |
| DnsAnswers.OthersAnswered | dns-server/server.go:64-115 | any other query: NOTIMP with the opcode kept for another opcode, FORMERR for more than one or a malformed question; silence exactly for short packets, responses and queries without a question |
| DnsClient.EncodeHost | http-server/client.py:98-114 | the growing buffer is the encoding of the host's labels, and is refused for an empty, long or non-ASCII label |
| DnsHosts.LabelsAre | http-server/client.py:99 | a host is its labels with dots between and perhaps behind, and no label holds a dot |
| DnsHosts.EncodeNameIs | http-server/client.py:98-114 | a host is encoded exactly if it is labels of 1 to 63 ASCII characters so put together, and then as those labels |
| DnsClient.SkipDnsName | http-server/client.py:125-141 | the loop by position is the recursive skip, pointers included |
| DnsClient.ReadAnswers | http-server/client.py:163-181 | the first A record of class IN with four bytes, or refusal |
| DnsClient.ParseDnsAddress | http-server/client.py:144-181 | the address bytes or refusal of the specification |
| DnsRecords.SkipIsGrammar | http-server/client.py:125-141 | the walker skips exactly labels of 1 to 63 bytes closed by zero or by a two-byte pointer |
| DnsRecords.AddressIs | http-server/client.py:144-181 | an address is taken exactly from a successful response with the id and one question, and from the first of its records that is of type A, class IN and four bytes, all before it well formed |
| DnsClient.ClientSkipsQuestion | http-server/client.py:125-141 | the client's walker skips the echoed question to where the server found its end |
| DnsClient.QueryShape | http-server/client.py:117-122 | the built query has the id, RD, one question and the name where the server's walk finds it |
| DnsClient.QueryCounts | http-server/client.py:118 | the query announces no records |
| DnsClient.FoldsToRecord | dns-server/server.go:128 | the server's comparison succeeds if and only if the labels are app and local in any case |
| DnsClient.ShortQueryAnswered | dns-server/server.go:114-140 | a query that arrives whole gets the address or the name error its labels call for |
| DnsClient.LongQueryFails | dns-server/server.go:40-49 | a query cut by the receive buffer gets an error the client refuses |
| DnsClient.LookupIsAppLocal | http-server/client.py:189-200 | for every host the encoder accepts and every id, a lookup gives 127.0.0.1 if and only if the labels are app and local in any case, and fails otherwise |
| Supervisor.ExitStatusIs | container-runtime/runtime.c:42-44 | the status word of an exit gives its code, that of a signal 128 plus the signal |
| Supervisor.Supervise | container-runtime/runtime.c:46-70 | the nested loops take exactly the places the automaton takes on the same system call results |
| SupervisorCalls.NextCall | container-runtime/runtime.c:47-69 | whatever the kernel answers, the next call is kill exactly after a signal other than SIGCHLD, sigwaitinfo exactly after a waitpid with nothing ready or interrupted, none after a final answer |
| SupervisorCalls.WhenLeft | container-runtime/runtime.c:50-68 | the loop is left exactly when the own child is reaped, with its status, or a call fails other than by an interruption or a vanished child |
| SupervisorCalls.EverySignalForwarded | container-runtime/runtime.c:58-68 | in every run each signal received other than SIGCHLD is passed on next, and nothing else is |
| SupervisorCalls.ForwardsWhatArrived | container-runtime/runtime.c:65-66 | in every run the signal about to be sent is exactly the one just received |
| Supervisor.RunDrivesLoop | container-runtime/runtime.c:46-70 | every run with the kernel drives the wait loop along the places the supervisor takes |
| Supervisor.InvStep | container-runtime/runtime.c:247-254 | every kernel or supervisor step keeps the invariant behind the next two |
| Supervisor.NoLostWakeup | container-runtime/runtime.c:46-70 | over every interleaving of exits, stops and any signals from outside: no wait with an ended child and no SIGCHLD pending; at most one signal is taken after the own child ended; waitpid never finds no children |
| Supervisor.Progress | container-runtime/runtime.c:46-70 | once the own child has ended, the kernel can always answer, and each answer returns the child's status, fails to forward, or leaves fewer calls to go |
| Supervisor.ReturnsChildCode | container-runtime/runtime.c:50-54 | what a supervisor returns is the code of its own child's one ending, whatever else it reaps |
| Supervisor.InSeries | container-runtime/runtime.c:185 | when init exits with its supervisor's result, the outer supervisor returns the command's code unchanged |

## Left out

- Sockets, timeouts, command lines and name resolution by the system: reads are arbitrary chunks, dials and relays are oracles.
- Integer width of times: clocks and deadlines are unbounded integers, where C uses `long long` milliseconds and Go 64-bit nanoseconds.
- CacheFraming.HandleClient: handles a line by recording it; CacheSessions.SessionServed joins it to the threads that answer, for a connection whose answers can all be sent.
- CacheFraming.HandleClient: a failing reply is given by how many replies can be sent; partial sends are not modelled, and recv errors end the list of chunks.
- CacheConcurrency: thread creation is not a step of it; a line arrives whole, and CacheSessions takes the lines a thread receives to be those its framing hands over.
- CacheAside.Transparent: the key is absent at first and written only by the HTTP servers, which run the same routes; other users may read it, delete it and write other keys.
- CacheClient.SetRoundTrip: Python booleans passed as TTLs, and arguments of the wrong type, are not modelled.
- BackendPool.Pool.Append: Go's growth factor is not fixed by the language, so the larger array's size is a choice of the model.
- BackendPool: the statically configured pool and the HTTP registry in front of it; a row without deadline never expires, but runs start from an empty pool.
- LeaseTable.SnapshotIsLeased: addresses are compared only; their syntax is checked elsewhere.
- Failover.HandleConnection: a failed client write is taken to deliver nothing, and a backend's availability at its turn is an oracle; what the pool would answer is PoolRun.Available.
- RoundRobin.Fair: stated for counters up to 2^63, beyond which an index may be negative.
- RequestReaders: a Go read that returns data together with an error is left out; Failover.Relay does model it.
- RequestReaders.StackPassesHeaders: each program's relay is taken to deliver an admitted request to the next one whole.
- HttpRequest.HasUnsupportedBody: the Go lower-casing is not modelled on well-formed multi-byte characters; the server refuses every name that holds one.
- HttpResponse.RoundTrip: fields are tokens and ASCII text without controls but tab, status codes three digits; other values can fail to encode or be refused.
- DnsMessage.LowerEncode: Unicode folds are not modelled; the letters of the record's name have none that matter.
- DnsClient.ParseDnsAddress: gives the four address bytes; their dotted text is left to the library.
- Supervisor: the clone, the id maps and their failure path, namespaces, mounts, capabilities and exec; a kernel that answers a non-blocking waitpid with an interruption is excluded from runs, though the loop's handling of it is modelled.
- Supervisor.Supervise: the process group flag and which process a signal reaches; the loop's place after any finite list of kernel answers is given, since the loop itself need not end.
- Reverse proxy relay and its choice between 502 and 504, URL parsing, the registry's HTTP handler and registration loop: they would add only easy members.
