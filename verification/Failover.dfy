// The load balancer's handling of one connection: failover over a snapshot, and the relay.
//
// What the backends, the client and the pool do is an oracle. A failed client write is taken
// to deliver nothing.
module Failover {
  import opened Text
  import opened Decimal
  import RoundRobin

  /** `sendError`. */
  function ErrorResponse(status: string, body: string): string {
    "HTTP/1.0 " + status + CRLF + "Content-Length: " + Print(|body|) + CRLF + "Connection: close" + CRLF + CRLF + body
  }

  const BAD_REQUEST := ErrorResponse("400 Bad Request", "Bad Request\n")
  const BAD_GATEWAY := ErrorResponse("502 Bad Gateway", "Bad Gateway\n")

  datatype ReadEnd = More | Eof | Failed

  /** One read from a backend, and whether the client took its data. */
  datatype Read = Read(data: string, end: ReadEnd, delivered: bool)

  /** What happens if a backend is tried: the reads end, at the latest, with the deadline. */
  datatype Attempt = Attempt(available: bool, dialled: bool, requestSent: bool, chunks: seq<Read>)

  /** Everything a backend sent back. */
  function Offered(chunks: seq<Read>): string {
    if chunks == [] then "" else Offered(chunks[..|chunks| - 1]) + chunks[|chunks| - 1].data
  }

  /** The relay's result: what reached the client, and whether the backend finished cleanly. */
  datatype Relayed = Relayed(received: string, clean: bool)

  /** The relay's loop, from a read on. */
  function RelayFrom(chunks: seq<Read>, i: nat): Relayed
    requires i <= |chunks|
    decreases |chunks| - i
  {
    if i == |chunks| then Relayed("", false)
    else
      var r := chunks[i];
      if r.data != "" && !r.delivered then Relayed("", false)
      else if r.end != More then Relayed(r.data, r.end == Eof)
      else
        var rest := RelayFrom(chunks, i + 1);
        Relayed(r.data + rest.received, rest.clean)
  }

  function RelayOf(a: Attempt): Relayed {
    if a.dialled && a.requestSent then RelayFrom(a.chunks, 0) else Relayed("", false)
  }

  /** `relay`: sends the request and copies the response until the backend ends it. */
  method Relay(a: Attempt) returns (received: string, clean: bool, started: bool)
    requires a.dialled
    ensures Relayed(received, clean) == RelayOf(a)
    ensures started <==> received != ""
  {
    received, clean, started := "", false, false;
    if !a.requestSent {
      return;
    }
    for i := 0 to |a.chunks|
      invariant started <==> received != ""
      invariant !clean
      invariant RelayFrom(a.chunks, 0) == Relayed(received + RelayFrom(a.chunks, i).received, RelayFrom(a.chunks, i).clean)
    {
      var r := a.chunks[i];
      Assoc(received, r.data, RelayFrom(a.chunks, i + 1).received);
      if r.data != "" {
        if !r.delivered {
          return;
        }
        received := received + r.data;
        started := true;
      }
      if r.end == Eof {
        clean := true;
        return;
      }
      if r.end == Failed {
        return;
      }
    }
  }

  /** The client only ever gets a prefix of what the backend sent. */
  lemma {:induction false} RelayPrefix(chunks: seq<Read>, i: nat)
    requires i <= |chunks|
    ensures Offered(chunks[..i]) + RelayFrom(chunks, i).received <= Offered(chunks)
    decreases |chunks| - i
  {
    if i < |chunks| {
      RelayPrefix(chunks, i + 1);
      Slices(chunks, i, i + 1);
      Assoc(Offered(chunks[..i]), chunks[i].data, RelayFrom(chunks, i + 1).received);
      OfferedGrows(chunks, i);
      OfferedGrows(chunks, i + 1);
    } else {
      Whole(chunks);
    }
  }

  lemma {:induction false} OfferedGrows(chunks: seq<Read>, i: nat)
    requires i <= |chunks|
    ensures Offered(chunks[..i]) <= Offered(chunks)
  {
    if i < |chunks| {
      var n := |chunks| - 1;
      Slices(chunks, i, n);
      OfferedGrows(chunks[..n], i);
    } else {
      Whole(chunks);
    }
  }

  /** An attempt after which the next backend is tried: nothing had reached the client. */
  predicate Skipped(a: Attempt) {
    !a.available || (!RelayOf(a).clean && RelayOf(a).received == "")
  }

  /** The backends dialled in the first offsets: the available ones, going round. */
  function Dialled(attempts: seq<Attempt>, initial: nat, offsets: nat): seq<nat>
    requires attempts != []
  {
    if offsets == 0 then []
    else
      var k := RoundRobin.Tried(initial, offsets - 1, |attempts|);
      Dialled(attempts, initial, offsets - 1) + if attempts[k].available then [k] else []
  }

  datatype End =
    | Rejected                // 400
    | Panicked                // a negative index
    | Unavailable             // 502
    | Served(backend: nat)    // the backend's response, to its end
    | Broken(backend: nat)    // a response cut off after it had begun

  /** What the pool and the client saw of one connection. */
  datatype Trace = Trace(
    end: End, received: string, counter: nat,
    dialled: seq<nat>, failed: seq<nat>, succeeded: Option<nat>)

  /**
   * One connection. `errorSent` says whether an error response can be delivered; the attempt
   * at an index is what would happen if that backend of the snapshot were tried.
   */
  method HandleConnection(valid: bool, attempts: seq<Attempt>, counter: nat, errorSent: bool) returns (t: Trace)
    requires counter < RoundRobin.UINT64_RANGE
    ensures t.counter == if valid && attempts != [] then (counter + 1) % RoundRobin.UINT64_RANGE else counter
    ensures t.end.Rejected? <==> !valid
    ensures t.end.Panicked? <==> valid && attempts != [] && RoundRobin.Claim(counter, |attempts|).1 < 0
    ensures t.end.Rejected? ==> t.received == if errorSent then BAD_REQUEST else ""
    ensures t.end.Unavailable? ==> t.received == if errorSent then BAD_GATEWAY else ""
    ensures attempts == [] || !valid || t.end.Panicked? ==>
              t.dialled == t.failed == [] && t.succeeded.None?
    ensures t.end.Panicked? ==> t.received == ""
    ensures valid && attempts == [] ==> t.end.Unavailable?
    ensures valid && attempts != [] && !t.end.Panicked? ==>
              FailsOver(attempts, RoundRobin.Claim(counter, |attempts|).1, t)
  {
    t := Trace(Rejected, "", counter, [], [], None);
    if !valid {
      return t.(received := if errorSent then BAD_REQUEST else "");
    }
    if attempts == [] {
      return t.(end := Unavailable, received := if errorSent then BAD_GATEWAY else "");
    }
    var next, initial := RoundRobin.Claim(counter, |attempts|).0, RoundRobin.Claim(counter, |attempts|).1;
    RoundRobin.ClaimUsable(counter, |attempts|);
    if initial < 0 {
      return t.(end := Panicked, counter := next);
    }
    t := TryBackends(attempts, initial, next, if errorSent then BAD_GATEWAY else "");
  }

  /** The failover loop. */
  method TryBackends(attempts: seq<Attempt>, initial: nat, counter: nat, gatewayError: string) returns (t: Trace)
    requires attempts != [] && initial < |attempts|
    ensures t.counter == counter && !t.end.Rejected? && !t.end.Panicked?
    ensures t.end.Unavailable? ==> t.received == gatewayError
    ensures FailsOver(attempts, initial, t)
  {
    var n := |attempts|;
    var dialled, failed := [], [];
    for offset := 0 to n
      invariant dialled == failed == Dialled(attempts, initial, offset)
      invariant forall o: nat | o < offset :: Skipped(attempts[RoundRobin.Tried(initial, o, n)])
    {
      var k := (initial + offset) % n;
      var a := attempts[k];
      assert Dialled(attempts, initial, offset + 1) == dialled + if a.available then [k] else [];
      if a.available {
        dialled := dialled + [k];
        var received, clean, started := "", false, false;
        if a.dialled {
          received, clean, started := Relay(a);
        }
        if clean {
          t := Trace(Served(k), received, counter, dialled, failed, Some(k));
          assert StopsAt(attempts, initial, offset, k, t);
          return;
        }
        if started {
          t := Trace(Broken(k), received, counter, dialled, failed, None);
          assert StopsAt(attempts, initial, offset, k, t);
          return;
        }
        failed := failed + [k];
      }
    }
    t := Trace(Unavailable, gatewayError, counter, dialled, failed, None);
  }

  /** The outcome of trying the snapshot's backends in turn from an index. */
  ghost predicate FailsOver(attempts: seq<Attempt>, initial: int, t: Trace)
    requires attempts != []
  {
    var n := |attempts|;
    && 0 <= initial
    && match t.end {
         case Served(k) => exists o: nat :: StopsAt(attempts, initial, o, k, t) && RelayOf(attempts[k]).clean
         case Broken(k) => exists o: nat :: StopsAt(attempts, initial, o, k, t) && !RelayOf(attempts[k]).clean
         case Unavailable =>
           && (forall o: nat | o < n :: Skipped(attempts[RoundRobin.Tried(initial, o, n)]))
           && t.dialled == t.failed == Dialled(attempts, initial, n) && t.succeeded.None?
         case _ => false
       }
  }

  /** Every backend before offset `o` was skipped, and the one there answered the client. */
  ghost predicate StopsAt(attempts: seq<Attempt>, initial: nat, o: nat, k: nat, t: Trace)
    requires attempts != []
  {
    var n := |attempts|;
    && o < n && k == RoundRobin.Tried(initial, o, n)
    && (forall p: nat | p < o :: Skipped(attempts[RoundRobin.Tried(initial, p, n)]))
    && !Skipped(attempts[k]) && t.received == RelayOf(attempts[k]).received
    && t.dialled == Dialled(attempts, initial, o + 1)
    && t.failed == Dialled(attempts, initial, o)
    && t.succeeded == (if t.end.Served? then Some(k) else None)
  }

  // ----- What that means for the client -----

  lemma OffsetAt(initial: nat, o: nat, n: nat)
    requires initial < n && o < n
    ensures RoundRobin.Tried(initial, o, n) < n && RoundRobin.OffsetOf(initial, RoundRobin.Tried(initial, o, n), n) == o
  {
    RoundRobin.ModOffset(initial, o, n);
  }

  /** `k` is dialled before the offset is reached. */
  predicate DialledBefore(attempts: seq<Attempt>, initial: nat, k: nat, offset: nat)
    requires initial < |attempts|
  {
    k < |attempts| && attempts[k].available && RoundRobin.OffsetOf(initial, k, |attempts|) < offset
  }

  ghost predicate GoingRound(d: seq<nat>, initial: nat, n: nat)
    requires initial < n
  {
    && (forall i | 0 <= i < |d| :: d[i] < n)
    && forall i, j | 0 <= i < j < |d| ::
         RoundRobin.OffsetOf(initial, d[i], n) < RoundRobin.OffsetOf(initial, d[j], n)
  }

  lemma {:induction false} DialledOnce(attempts: seq<Attempt>, initial: nat, offsets: nat)
    requires attempts != [] && initial < |attempts| && offsets <= |attempts|
    ensures var d := Dialled(attempts, initial, offsets);
            && (forall i | 0 <= i < |d| :: DialledBefore(attempts, initial, d[i], offsets))
            && GoingRound(d, initial, |attempts|)
  {
    if offsets > 0 {
      DialledOnce(attempts, initial, offsets - 1);
      OffsetAt(initial, offsets - 1, |attempts|);
      var d := Dialled(attempts, initial, offsets - 1);
      assert forall i | 0 <= i < |d| :: DialledBefore(attempts, initial, d[i], offsets - 1);
    }
  }

  /**
   * The client gets the 502 message or a prefix, possibly empty, of one backend's bytes; the
   * message only after every backend of the snapshot was unavailable at its turn or failed
   * before a byte reached the client; and each backend is dialled at most once, going round.
   */
  lemma {:induction false} ClientSeesOneSource(attempts: seq<Attempt>, initial: nat, t: Trace)
    requires attempts != [] && initial < |attempts| && FailsOver(attempts, initial, t)
    ensures t.end.Unavailable? ==> forall k: nat | k < |attempts| :: Skipped(attempts[k])
    ensures !t.end.Unavailable? ==>
              (t.end.Served? || t.end.Broken?) && t.end.backend < |attempts| && attempts[t.end.backend].available
              && t.received <= Offered(attempts[t.end.backend].chunks)
    ensures t.end.Broken? ==> t.received != ""
    ensures t.end.Served? && t.received == "" ==> RelayOf(attempts[t.end.backend]) == Relayed("", true)
    ensures GoingRound(t.dialled, initial, |attempts|)
  {
    var n := |attempts|;
    if t.end.Unavailable? {
      DialledOnce(attempts, initial, n);
      forall k: nat | k < n
        ensures Skipped(attempts[k])
      {
        RoundRobin.TriesAll(initial, n, k);
        assert Skipped(attempts[RoundRobin.Tried(initial, RoundRobin.OffsetOf(initial, k, n), n)]);
      }
    } else {
      var o: nat :| StopsAt(attempts, initial, o, t.end.backend, t);
      DialledOnce(attempts, initial, o + 1);
      RelayPrefix(attempts[t.end.backend].chunks, 0);
    }
  }
}
