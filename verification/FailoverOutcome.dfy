// Who answers a client, and with which bytes, from what the backends and connections do alone.
module FailoverOutcome {
  import opened Text
  import RoundRobin
  import opened Failover

  // ----- One relay -----

  /** A read whose data, if any, the client took. */
  predicate Reaches(r: Read) {
    r.data == "" || r.delivered
  }

  /** A read after which the relay reads again. */
  predicate Passes(r: Read) {
    Reaches(r) && r.end == More
  }

  /** The first read after which the relay does not go on; all of them if there is none. */
  ghost predicate StopsAfter(chunks: seq<Read>, i: nat) {
    i <= |chunks| && (forall j | 0 <= j < i :: Passes(chunks[j])) && (i < |chunks| ==> !Passes(chunks[i]))
  }

  lemma {:induction false} FirstStop(chunks: seq<Read>) returns (i: nat)
    ensures StopsAfter(chunks, i)
  {
    i := 0;
    while i < |chunks| && Passes(chunks[i])
      invariant i <= |chunks| && forall j | 0 <= j < i :: Passes(chunks[j])
    {
      i := i + 1;
    }
  }

  /** All data before a read, and its own if the client took it. */
  function Taken(chunks: seq<Read>, i: nat): string
    requires i <= |chunks|
  {
    Offered(chunks[..i]) + if i < |chunks| && Reaches(chunks[i]) then chunks[i].data else ""
  }

  lemma {:induction false} RelayFromStop(chunks: seq<Read>, from: nat, i: nat)
    requires from <= i && StopsAfter(chunks, i)
    ensures Offered(chunks[..from]) + RelayFrom(chunks, from).received == Taken(chunks, i)
    ensures RelayFrom(chunks, from).clean <==> i < |chunks| && Reaches(chunks[i]) && chunks[i].end == Eof
    decreases i - from
  {
    if from < i {
      RelayFromStop(chunks, from + 1, i);
      Slices(chunks, from, from + 1);
      Assoc(Offered(chunks[..from]), chunks[from].data, RelayFrom(chunks, from + 1).received);
      assert Passes(chunks[from]);
    }
  }

  /**
   * The client gets all data up to the first read that ends the response, fails or is not
   * delivered, that read's own data too if it was delivered; and nothing if the request was not sent.
   */
  lemma RelayIs(a: Attempt, i: nat)
    requires StopsAfter(a.chunks, i)
    ensures RelayOf(a).received == if a.dialled && a.requestSent then Taken(a.chunks, i) else ""
  {
    RelayFromStop(a.chunks, 0, i);
    assert Offered(a.chunks[..0]) == "";
  }

  /** The response ends cleanly with a read: all before it passed, and its data reached the client. */
  ghost predicate EndsWith(chunks: seq<Read>, i: nat) {
    && i < |chunks| && chunks[i].end == Eof
    && (forall j | 0 <= j < i :: chunks[j].end == More)
    && forall j | 0 <= j <= i :: Reaches(chunks[j])
  }

  /** A relay is clean exactly when the backend's response ended and all of it was delivered, and then all of it was. */
  lemma CleanIs(a: Attempt)
    ensures RelayOf(a).clean <==> a.dialled && a.requestSent && exists i: nat :: EndsWith(a.chunks, i)
    ensures forall i: nat | a.dialled && a.requestSent && EndsWith(a.chunks, i) ::
              RelayOf(a).received == Offered(a.chunks[..i + 1])
  {
    var s := FirstStop(a.chunks);
    RelayFromStop(a.chunks, 0, s);
    RelayIs(a, s);
    if s < |a.chunks| {
      Slices(a.chunks, s, s + 1);
      assert RelayOf(a).clean ==> EndsWith(a.chunks, s);
    }
    forall i: nat | EndsWith(a.chunks, i)
      ensures i == s
    {
      assert forall j | 0 <= j < i :: Passes(a.chunks[j]);
      assert !Passes(a.chunks[i]);
    }
  }

  // ----- The whole connection -----

  /** Trying the backend would bring the client its whole response. */
  ghost predicate Finishes(a: Attempt) {
    a.available && a.dialled && a.requestSent && exists i: nat :: EndsWith(a.chunks, i)
  }

  /** Trying the backend would bring the client at least a byte. */
  ghost predicate Begins(a: Attempt) {
    && a.available && a.dialled && a.requestSent
    && exists i: nat :: StopsAfter(a.chunks, i) && Taken(a.chunks, i) != ""
  }

  lemma SkippedIs(a: Attempt)
    ensures Skipped(a) <==> !Finishes(a) && !Begins(a)
  {
    var s := FirstStop(a.chunks);
    RelayIs(a, s);
    CleanIs(a);
    forall i: nat | StopsAfter(a.chunks, i)
      ensures i == s
    {
    }
  }

  /** A backend's turn comes before another's. */
  predicate Before(initial: nat, n: nat, j: nat, k: nat)
    requires initial < n && j < n && k < n
  {
    RoundRobin.OffsetOf(initial, j, n) < RoundRobin.OffsetOf(initial, k, n)
  }

  /** The backend that answers: the first in turn that finishes or at least begins a response. */
  ghost predicate Answers(attempts: seq<Attempt>, initial: nat, k: nat)
    requires initial < |attempts|
  {
    && k < |attempts| && (Finishes(attempts[k]) || Begins(attempts[k]))
    && forall j: nat | j < |attempts| && Before(initial, |attempts|, j, k) ::
         !Finishes(attempts[j]) && !Begins(attempts[j])
  }

  lemma {:induction false} DialledAll(attempts: seq<Attempt>, initial: nat, offsets: nat, k: nat)
    requires attempts != [] && initial < |attempts| && offsets <= |attempts|
    ensures k in Dialled(attempts, initial, offsets) <==> DialledBefore(attempts, initial, k, offsets)
  {
    if offsets > 0 {
      DialledAll(attempts, initial, offsets - 1, k);
      OffsetAt(initial, offsets - 1, |attempts|);
      if k < |attempts| && RoundRobin.OffsetOf(initial, k, |attempts|) == offsets - 1 {
        RoundRobin.TriesAll(initial, |attempts|, k);
      }
    }
  }

  /** An offset before which every backend is skipped, in terms of turns. */
  lemma SkippedBefore(attempts: seq<Attempt>, initial: nat, o: nat, j: nat)
    requires initial < |attempts| && o <= |attempts|
    requires forall p: nat | p < o :: Skipped(attempts[RoundRobin.Tried(initial, p, |attempts|)])
    requires j < |attempts| && RoundRobin.OffsetOf(initial, j, |attempts|) < o
    ensures !Finishes(attempts[j]) && !Begins(attempts[j])
  {
    RoundRobin.TriesAll(initial, |attempts|, j);
    assert Skipped(attempts[RoundRobin.Tried(initial, RoundRobin.OffsetOf(initial, j, |attempts|), |attempts|)]);
    SkippedIs(attempts[j]);
  }

  /**
   * When a backend answers, it is the first in turn that begins or finishes a response; it is
   * reported a success exactly if it finishes, in which case the client got all of it; otherwise the
   * client got what it took before the response broke off.  The backends dialled are the available ones up
   * to its turn, and all but it are reported as failed.
   */
  lemma WhoAnswers(attempts: seq<Attempt>, initial: nat, t: Trace)
    requires attempts != [] && initial < |attempts| && FailsOver(attempts, initial, t) && !t.end.Unavailable?
    ensures (t.end.Served? || t.end.Broken?) && Answers(attempts, initial, t.end.backend)
    ensures t.end.Served? <==> Finishes(attempts[t.end.backend])
    ensures t.succeeded == if t.end.Served? then Some(t.end.backend) else None
    ensures forall i: nat :: EndsWith(attempts[t.end.backend].chunks, i) ==>
              t.received == Offered(attempts[t.end.backend].chunks[..i + 1])
    ensures forall i: nat :: StopsAfter(attempts[t.end.backend].chunks, i) ==>
              t.received == Taken(attempts[t.end.backend].chunks, i)
    ensures forall k: nat :: k in t.dialled <==>
              k < |attempts| && attempts[k].available && !Before(initial, |attempts|, t.end.backend, k)
    ensures forall k: nat :: k in t.failed <==> k in t.dialled && k != t.end.backend
  {
    var k, n := t.end.backend, |attempts|;
    var o: nat :| StopsAt(attempts, initial, o, k, t);
    OffsetAt(initial, o, n);
    SkippedIs(attempts[k]);
    CleanIs(attempts[k]);
    forall j: nat | j < n && Before(initial, n, j, k)
      ensures !Finishes(attempts[j]) && !Begins(attempts[j])
    {
      SkippedBefore(attempts, initial, o, j);
    }
    forall i: nat | StopsAfter(attempts[k].chunks, i)
      ensures t.received == Taken(attempts[k].chunks, i)
    {
      RelayIs(attempts[k], i);
    }
    forall j: nat
      ensures j in t.dialled <==> j < n && attempts[j].available && !Before(initial, n, k, j)
      ensures j in t.failed <==> j in t.dialled && j != k
    {
      DialledAll(attempts, initial, o + 1, j);
      DialledAll(attempts, initial, o, j);
      if j < n {
        SameTurn(initial, n, j, k);
      }
    }
  }

  lemma SameTurn(initial: nat, n: nat, j: nat, k: nat)
    requires initial < n && j < n && k < n
    ensures RoundRobin.OffsetOf(initial, j, n) == RoundRobin.OffsetOf(initial, k, n) <==> j == k
  {
  }

  /** The 502 message is sent exactly when no backend even begins a response; every available one was dialled and failed. */
  lemma NobodyAnswers(attempts: seq<Attempt>, initial: nat, t: Trace)
    requires attempts != [] && initial < |attempts| && FailsOver(attempts, initial, t)
    ensures t.end.Unavailable? <==> forall k: nat | k < |attempts| :: !Finishes(attempts[k]) && !Begins(attempts[k])
    ensures t.end.Unavailable? ==>
              t.succeeded.None? && forall k: nat :: k in t.dialled <==> k < |attempts| && attempts[k].available
    ensures t.end.Unavailable? ==> t.failed == t.dialled
  {
    var n := |attempts|;
    if t.end.Unavailable? {
      forall k: nat
        ensures k < n ==> !Finishes(attempts[k]) && !Begins(attempts[k])
        ensures k in t.dialled <==> k < n && attempts[k].available
      {
        DialledAll(attempts, initial, n, k);
        if k < n {
          RoundRobin.TriesAll(initial, n, k);
          SkippedBefore(attempts, initial, n, k);
        }
      }
    } else {
      WhoAnswers(attempts, initial, t);
    }
  }
}
