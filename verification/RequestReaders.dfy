// The three bounded request readers: load balancer, reverse proxy and HTTP server.
module RequestReaders {
  import opened Text
  import opened Chunking
  import HttpRequest

  const MAX_REQUEST := 64 * 1024
  const BLANK := HttpRequest.BLANK

  datatype Reader = LoadBalancer | ReverseProxy | HttpServer

  /** A reader after some chunks. At the end of the stream, `Reading` is an incomplete request. */
  datatype Progress = Reading(buffer: string) | Got(request: string) | TooLarge

  /** Offset just behind the first blank line. */
  function HeaderEnd(s: string): Option<nat> {
    var i := Find(s, BLANK);
    if i.None? then None else Some(i.value + 4)
  }

  /** One pass of a reader's loop. */
  function Feed(r: Reader, p: Progress, chunk: string): Progress {
    if !p.Reading? then p
    else
      var buffer := p.buffer + chunk;
      var end := HeaderEnd(buffer);
      match r
      case LoadBalancer =>
        if end.None? then
          if |buffer| > MAX_REQUEST then TooLarge else Reading(buffer)
        else if end.value > MAX_REQUEST then TooLarge
        else Got(buffer[..end.value])
      case ReverseProxy =>
        if |buffer| > MAX_REQUEST then TooLarge
        else if end.None? then Reading(buffer)
        else Got(buffer)
      case HttpServer =>
        if |buffer| > MAX_REQUEST then TooLarge
        else if end.None? then Reading(buffer)
        else if end.value > MAX_REQUEST then TooLarge
        else Got(buffer[..end.value])
  }

  function After(r: Reader, chunks: seq<string>): Progress {
    if chunks == [] then Reading("") else Feed(r, After(r, chunks[..|chunks| - 1]), chunks[|chunks| - 1])
  }

  lemma AfterNext(r: Reader, chunks: seq<string>, i: nat)
    requires i < |chunks|
    ensures After(r, chunks[..i + 1]) == Feed(r, After(r, chunks[..i]), chunks[i])
  {
    Slices(chunks, i, i + 1);
  }

  lemma {:induction false} DoneStays(r: Reader, chunks: seq<string>, n: nat)
    requires n <= |chunks|
    ensures !After(r, chunks[..n]).Reading? ==> After(r, chunks) == After(r, chunks[..n])
  {
    if n < |chunks| {
      Slices(chunks, n, |chunks| - 1);
      DoneStays(r, chunks[..|chunks| - 1], n);
    } else {
      Whole(chunks);
    }
  }

  // ----- The loops -----

  method ReadForLoadBalancer(chunks: seq<string>) returns (p: Progress)
    ensures p == After(LoadBalancer, chunks)
  {
    var request := "";
    for i := 0 to |chunks|
      invariant After(LoadBalancer, chunks[..i]) == Reading(request)
    {
      AfterNext(LoadBalancer, chunks, i);
      DoneStays(LoadBalancer, chunks, i + 1);
      request := request + chunks[i];
      var headerEnd := Find(request, BLANK);
      if headerEnd.None? && |request| > MAX_REQUEST {
        return TooLarge;
      }
      if headerEnd.Some? {
        var end := headerEnd.value + 4;
        if end > MAX_REQUEST {
          return TooLarge;
        }
        return Got(request[..end]);
      }
    }
    Whole(chunks);
    p := Reading(request);
  }

  method ReadForReverseProxy(chunks: seq<string>) returns (p: Progress)
    ensures p == After(ReverseProxy, chunks)
  {
    var request := "";
    for i := 0 to |chunks|
      invariant After(ReverseProxy, chunks[..i]) == Reading(request)
    {
      AfterNext(ReverseProxy, chunks, i);
      DoneStays(ReverseProxy, chunks, i + 1);
      request := request + chunks[i];
      if |request| > MAX_REQUEST {
        return TooLarge;
      }
      if Find(request, BLANK).Some? {
        return Got(request);
      }
    }
    Whole(chunks);
    p := Reading(request);
  }

  method ReadForHttpServer(chunks: seq<string>) returns (p: Progress)
    ensures p == After(HttpServer, chunks)
  {
    var request := "";
    for i := 0 to |chunks|
      invariant After(HttpServer, chunks[..i]) == Reading(request)
    {
      AfterNext(HttpServer, chunks, i);
      DoneStays(HttpServer, chunks, i + 1);
      request := request + chunks[i];
      if |request| > MAX_REQUEST {
        return TooLarge;
      }
      var found := Find(request, BLANK);
      if found.Some? {
        var headerEnd := found.value + 4;
        if headerEnd > MAX_REQUEST {
          return TooLarge;
        }
        return Got(request[..headerEnd]);
      }
    }
    Whole(chunks);
    p := Reading(request);
  }

  // ----- Where a header block ends does not depend on what follows -----

  lemma EndInLonger(s: string, more: string)
    requires HeaderEnd(s).Some?
    ensures HeaderEnd(s + more) == HeaderEnd(s)
  {
    var i := Find(s, BLANK).value;
    forall j: nat | j <= i
      ensures At(s + more, BLANK, j) <==> At(s, BLANK, j)
    {
      assert (s + more)[j..j + 4] == s[j..j + 4];
    }
    FindIs(s + more, BLANK, i);
  }

  lemma EndInShorter(s: string, more: string)
    requires HeaderEnd(s + more).Some? && HeaderEnd(s + more).value <= |s|
    ensures HeaderEnd(s) == HeaderEnd(s + more)
  {
    var i := Find(s + more, BLANK).value;
    forall j: nat | j <= i
      ensures At(s + more, BLANK, j) <==> At(s, BLANK, j)
    {
      assert (s + more)[j..j + 4] == s[j..j + 4];
    }
    FindIs(s, BLANK, i);
  }

  // ----- The load balancer's reader is exact -----

  /** What the load balancer makes of a whole stream. */
  function Exact(stream: string): Progress {
    var end := HeaderEnd(stream);
    if end.Some? then
      if end.value <= MAX_REQUEST then Got(stream[..end.value]) else TooLarge
    else if |stream| > MAX_REQUEST then TooLarge
    else Reading(stream)
  }

  lemma FeedExact(stream: string, chunk: string)
    ensures Feed(LoadBalancer, Exact(stream), chunk) == Exact(stream + chunk)
  {
    if HeaderEnd(stream).Some? {
      EndInLonger(stream, chunk);
    } else if HeaderEnd(stream + chunk).Some? && HeaderEnd(stream + chunk).value <= |stream| {
      EndInShorter(stream, chunk);
    }
  }

  /** For every chunking: the first h bytes exactly when h is at most 64 KiB, and never more. */
  lemma {:induction false} LoadBalancerExact(chunks: seq<string>)
    ensures After(LoadBalancer, chunks) == Exact(Concat(chunks))
  {
    if chunks != [] {
      var n := |chunks| - 1;
      LoadBalancerExact(chunks[..n]);
      FeedExact(Concat(chunks[..n]), chunks[n]);
    } else {
      assert Find("", BLANK).None?;
    }
  }

  // ----- The other two depend on chunking near the limit -----

  /** Neither a full read that completes the header block nor the whole stream exceeds the limit. */
  predicate Fits(stream: string, h: nat) {
    h - 1 + RECV_BUF <= MAX_REQUEST || |stream| <= MAX_REQUEST
  }

  /** The request holds the header block, and for the reverse proxy perhaps bytes behind it. */
  ghost predicate Accepts(r: Reader, p: Progress, stream: string, h: nat)
    requires h <= |stream|
  {
    && p.Got?
    && match r
       case ReverseProxy => stream[..h] <= p.request <= stream
       case _ => p.request == stream[..h]
  }

  lemma NoEarlierEnd(stream: string, h: nat, m: nat)
    requires HeaderEnd(stream) == Some(h) && m <= |stream|
    ensures m < h ==> HeaderEnd(stream[..m]).None?
    ensures h <= m ==> HeaderEnd(stream[..m]) == Some(h)
  {
    Rejoin(stream, m);
    if HeaderEnd(stream[..m]).Some? {
      EndInLonger(stream[..m], stream[m..]);
    }
    if h <= m {
      EndInShorter(stream[..m], stream[m..]);
    }
  }

  /** One chunk of a stream that fits. */
  lemma FeedFits(r: Reader, stream: string, h: nat, m: nat, chunk: string)
    requires !r.LoadBalancer? && HeaderEnd(stream) == Some(h) && Fits(stream, h)
    requires m < h && m + |chunk| <= |stream| && |chunk| <= RECV_BUF && chunk == stream[m..m + |chunk|]
    ensures var p := Feed(r, Reading(stream[..m]), chunk);
            if m + |chunk| < h then p == Reading(stream[..m + |chunk|]) else Accepts(r, p, stream, h)
  {
    Slices(stream, m, m + |chunk|);
    NoEarlierEnd(stream, h, m + |chunk|);
    if h <= m + |chunk| {
      Slices(stream, h, m + |chunk|);
    }
  }

  lemma {:induction false} AcceptsWhatFits(r: Reader, stream: string, h: nat, chunks: seq<string>, m: nat)
    requires !r.LoadBalancer? && HeaderEnd(stream) == Some(h) && Fits(stream, h)
    requires Chunks(chunks) && m <= |stream| && Concat(chunks) == stream[..m]
    ensures if m < h then After(r, chunks) == Reading(stream[..m]) else Accepts(r, After(r, chunks), stream, h)
  {
    if chunks == [] {
    } else {
      var k := |chunks| - 1;
      var chunk, b := chunks[k], m - |chunks[k]|;
      assert chunk in chunks;
      Halves(Concat(chunks[..k]), chunk);
      Slices(stream, b, m);
      AcceptsWhatFits(r, stream, h, chunks[..k], b);
      if b < h {
        FeedFits(r, stream, h, b, chunk);
      }
    }
  }

  lemma {:induction false} ProgressIs(r: Reader, chunks: seq<string>)
    ensures After(r, chunks).Reading? ==> After(r, chunks).buffer == Concat(chunks)
    ensures After(r, chunks).Got? ==> HeaderEnd(Concat(chunks)).Some?
  {
    if chunks != [] {
      var k := |chunks| - 1;
      ProgressIs(r, chunks[..k]);
      if After(r, chunks[..k]).Got? {
        EndInLonger(Concat(chunks[..k]), chunks[k]);
      }
    }
  }

  /** Fed one byte at a time, a reader is still reading just before the end of the header block. */
  lemma HeadReads(r: Reader, stream: string, h: nat)
    requires HeaderEnd(stream) == Some(h)
    ensures var p := After(r, Singletons(stream[..h - 1])); p.TooLarge? || p == Reading(stream[..h - 1])
  {
    SingletonsConcat(stream[..h - 1]);
    NoEarlierEnd(stream, h, h - 1);
    ProgressIs(r, Singletons(stream[..h - 1]));
  }

  lemma AfterSnoc(r: Reader, chunks: seq<string>, chunk: string)
    ensures After(r, chunks + [chunk]) == Feed(r, After(r, chunks), chunk)
  {
    Halves(chunks, [chunk]);
  }

  lemma FrontTooLarge(r: Reader, stream: string, h: nat, q: nat)
    requires !r.LoadBalancer? && HeaderEnd(stream) == Some(h) && h - 1 <= q <= |stream| && q > MAX_REQUEST
    ensures After(r, Singletons(stream[..h - 1]) + [stream[h - 1..q]]).TooLarge?
  {
    HeadReads(r, stream, h);
    AfterSnoc(r, Singletons(stream[..h - 1]), stream[h - 1..q]);
  }

  lemma EndWithin(stream: string, h: nat)
    requires HeaderEnd(stream) == Some(h)
    ensures 4 <= h <= |stream|
  {
  }

  lemma TooLargeStays(r: Reader, front: seq<string>, tail: seq<string>)
    requires After(r, front).TooLarge?
    ensures After(r, front + tail).TooLarge?
  {
    Halves(front, tail);
    DoneStays(r, front + tail, |front|);
  }

  /** A cut that lets the buffer grow past the limit just as the header block completes. */
  lemma CutTooLarge(r: Reader, stream: string, h: nat) returns (chunks: seq<string>)
    requires !r.LoadBalancer? && HeaderEnd(stream) == Some(h) && !Fits(stream, h)
    ensures Chunks(chunks) && Concat(chunks) == stream && After(r, chunks).TooLarge?
  {
    EndWithin(stream, h);
    var q := Min(h - 1 + RECV_BUF, |stream|);
    var front, tail := Singletons(stream[..h - 1]) + [stream[h - 1..q]], Singletons(stream[q..]);
    chunks := front + tail;
    CutConcat(stream, h - 1, q);
    FrontTooLarge(r, stream, h, q);
    TooLargeStays(r, front, tail);
  }

  /**
   * The reverse proxy and the HTTP server take a stream whose header block ends at h under
   * every chunking exactly when h is at most 64 KiB - 4 KiB + 1 or the whole stream is within the limit.
   */
  lemma ExactBound(r: Reader, stream: string, h: nat)
    requires !r.LoadBalancer? && HeaderEnd(stream) == Some(h)
    ensures (forall chunks | Chunks(chunks) && Concat(chunks) == stream :: Accepts(r, After(r, chunks), stream, h))
            <==> Fits(stream, h)
  {
    if Fits(stream, h) {
      forall chunks | Chunks(chunks) && Concat(chunks) == stream
        ensures Accepts(r, After(r, chunks), stream, h)
      {
        Whole(stream);
        AcceptsWhatFits(r, stream, h, chunks, |stream|);
      }
    } else {
      var chunks := CutTooLarge(r, stream, h);
    }
  }

  /**
   * A block of exactly 64 KiB and one byte behind it: the load balancer takes it, the other two
   * refuse it when the last byte of the block and the byte behind it arrive together.
   */
  lemma AllowedBlockRefused(r: Reader) returns (stream: string, chunks: seq<string>)
    requires !r.LoadBalancer?
    ensures HeaderEnd(stream) == Some(MAX_REQUEST) && |stream| == MAX_REQUEST + 1
    ensures Chunks(chunks) && Concat(chunks) == stream
    ensures After(r, chunks).TooLarge? && After(LoadBalancer, chunks) == Got(stream[..MAX_REQUEST])
  {
    var filler: string := seq(MAX_REQUEST - 4, _ => 'a');
    stream := filler + BLANK + "x";
    assert stream[|filler|..|filler| + 4] == BLANK;
    forall j: nat | j < |filler|
      ensures !At(stream, BLANK, j)
    {
      assert stream[j..j + 4][0] == 'a';
    }
    FindIs(stream, BLANK, |filler|);
    chunks := CutTooLarge(r, stream, MAX_REQUEST);
    LoadBalancerExact(chunks);
  }

  // ----- Three programs in a row -----

  /** A program's request, if it reads one and its scan finds no body header. */
  ghost predicate Forwards(p: Progress) {
    p.Got? && !HttpRequest.NamesBody(p.request)
  }

  /** Each program sends on the request it read and admits, however the next one receives it. */
  ghost predicate Relayed(stream: string, atProxy: seq<string>, atBalancer: seq<string>, atServer: seq<string>) {
    && Chunks(atProxy) && Chunks(atBalancer) && Chunks(atServer)
    && Concat(atProxy) == stream
    && (Forwards(After(ReverseProxy, atProxy)) ==> Concat(atBalancer) == After(ReverseProxy, atProxy).request)
    && (Forwards(After(LoadBalancer, atBalancer)) ==> Concat(atServer) == After(LoadBalancer, atBalancer).request)
  }

  /** The header lines do not depend on the bytes behind the blank line. */
  lemma SameHeaderLines(stream: string, h: nat, m: nat)
    requires HeaderEnd(stream) == Some(h) && h <= m <= |stream|
    ensures HttpRequest.HeaderLines(stream[..m]) == HttpRequest.HeaderLines(stream)
  {
    NoEarlierEnd(stream, h, m);
    Slices(stream, h - 4, m);
  }

  /**
   * A header block without body headers, ending at h of at most 64 KiB - 4 KiB + 1 (or in a
   * stream within 64 KiB), reaches the HTTP server as exactly the client's first h bytes,
   * however the three connections cut it up.
   */
  lemma StackPassesHeaders(
    stream: string, h: nat, atProxy: seq<string>, atBalancer: seq<string>, atServer: seq<string>)
    requires HeaderEnd(stream) == Some(h) && Fits(stream, h) && !HttpRequest.NamesBody(stream)
    requires Relayed(stream, atProxy, atBalancer, atServer)
    ensures Forwards(After(ReverseProxy, atProxy))
    ensures Forwards(After(LoadBalancer, atBalancer)) && After(LoadBalancer, atBalancer) == Got(stream[..h])
    ensures After(HttpServer, atServer) == Got(stream[..h])
  {
    Whole(stream);
    AcceptsWhatFits(ReverseProxy, stream, h, atProxy, |stream|);
    var forwarded := After(ReverseProxy, atProxy).request;
    assert forwarded == stream[..|forwarded|];
    SameHeaderLines(stream, h, |forwarded|);
    SameHeaderLines(stream, h, h);
    NoEarlierEnd(stream, h, |forwarded|);
    LoadBalancerExact(atBalancer);
    Slices(stream, h, |forwarded|);
    var request := stream[..h];
    NoEarlierEnd(stream, h, h);
    Whole(request);
    AcceptsWhatFits(HttpServer, request, h, atServer, h);
  }
}
