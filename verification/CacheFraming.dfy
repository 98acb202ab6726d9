// The cache's per-client loop: lines cut out of whatever chunks recv delivers.
module CacheFraming {
  import opened Text
  import opened Chunking

  const LINE_MAX := 64 * 1024

  // ----- Lines of a whole stream -----

  /** The complete lines of a stream, without their newlines, and the unfinished rest. */
  datatype Frames = Frames(lines: seq<string>, rest: string)

  function Split(s: string): (f: Frames)
    ensures '\n' !in f.rest && |f.rest| <= |s|
  {
    var nl := IndexOf(s, '\n');
    if nl.None? then Frames([], s)
    else
      var tail := Split(s[nl.value + 1..]);
      Frames([s[..nl.value]] + tail.lines, tail.rest)
  }

  lemma SplitLine(line: string, tail: string)
    requires '\n' !in line
    ensures Split(line + "\n" + tail) == Frames([line] + Split(tail).lines, Split(tail).rest)
  {
    var s := line + "\n" + tail;
    assert s[..|line|] == line;
    IndexOfIs(s, '\n', |line|);
    assert s[|line| + 1..] == tail;
  }

  /** The finished lines of the first part come first; its unfinished line goes on. */
  ghost predicate Continues(a: string, b: string) {
    var f, g := Split(a), Split(Split(a).rest + b);
    Split(a + b) == Frames(f.lines + g.lines, g.rest)
  }

  lemma ContinuesAfterLine(line: string, tail: string, b: string)
    requires '\n' !in line && Continues(tail, b)
    ensures Continues(line + "\n" + tail, b)
  {
    SplitLine(line, tail);
    SplitLine(line, tail + b);
    Assoc(line + "\n", tail, b);
    Assoc([line], Split(tail).lines, Split(Split(tail).rest + b).lines);
  }

  /** More input only continues the unfinished line. */
  lemma {:induction false} SplitAppend(a: string, b: string)
    ensures Continues(a, b)
  {
    var nl := IndexOf(a, '\n');
    if nl.Some? {
      var line, tail := a[..nl.value], a[nl.value + 1..];
      SplitAppend(tail, b);
      ContinuesAfterLine(line, tail, b);
      assert a == line + "\n" + tail;
    }
  }

  lemma NoNewline(s: string)
    requires '\n' !in s
    ensures Split(s) == Frames([], s)
  {
  }

  // ----- One client session -----

  /**
   * A session after some chunks: the lines handled so far, in order, and whether it goes on.
   * Every handled line has been answered once; `TooLong` has also sent ERROR and closed, and
   * `Gone` closed because the answer to its last line could not be sent.
   */
  datatype Session =
    | Open(handled: seq<string>, pending: string)
    | TooLong(handled: seq<string>)
    | Gone(handled: seq<string>)

  /** One pass of the receive loop. Replies up to number `sendable` reach the client. */
  function Feed(s: Session, chunk: string, sendable: nat): Session {
    if !s.Open? then s
    else if |s.pending| + |chunk| > LINE_MAX then TooLong(s.handled)
    else
      var f := Split(s.pending + chunk);
      var handled := s.handled + f.lines;
      if |handled| > sendable then Gone(handled[..sendable + 1]) else Open(handled, f.rest)
  }

  function Serve(chunks: seq<string>, sendable: nat): Session {
    if chunks == [] then Open([], "")
    else
      var n := |chunks| - 1;
      Feed(Serve(chunks[..n], sendable), chunks[n], sendable)
  }

  lemma {:induction false} EndedStays(chunks: seq<string>, n: nat, sendable: nat)
    requires n <= |chunks|
    ensures !Serve(chunks[..n], sendable).Open? ==> Serve(chunks, sendable) == Serve(chunks[..n], sendable)
  {
    if n < |chunks| {
      var m := |chunks| - 1;
      assert chunks[..m][..n] == chunks[..n];
      EndedStays(chunks[..m], n, sendable);
    } else {
      assert chunks[..n] == chunks;
    }
  }

  lemma ServeNext(chunks: seq<string>, i: nat, sendable: nat)
    requires i < |chunks|
    ensures Serve(chunks[..i + 1], sendable) == Feed(Serve(chunks[..i], sendable), chunks[i], sendable)
  {
    Slices(chunks, i, i + 1);
  }

  // ----- The loop over its buffer -----

  /** Handles every complete line in the buffer, until an answer cannot be sent. */
  method TakeLines(pending: array<char>, pendingLen: nat, before: seq<string>, sendable: nat)
    returns (handled: seq<string>, processed: nat, gone: bool)
    requires pendingLen <= pending.Length && |before| <= sendable
    ensures gone <==> |before + Split(pending[..pendingLen]).lines| > sendable
    ensures gone ==> handled == (before + Split(pending[..pendingLen]).lines)[..sendable + 1]
    ensures !gone ==> handled == before + Split(pending[..pendingLen]).lines
    ensures !gone ==> processed <= pendingLen && pending[processed..pendingLen] == Split(pending[..pendingLen]).rest
  {
    handled, processed := before, 0;
    var input := pending[..pendingLen];
    Drops(input, 0, 0);
    while true
      invariant processed <= pendingLen && |handled| <= sendable
      invariant before + Split(input).lines == handled + Split(input[processed..]).lines
      invariant Split(input).rest == Split(input[processed..]).rest
      decreases pendingLen - processed
    {
      var rest := input[processed..];
      var nl := IndexOf(rest, '\n');
      if nl.None? {
        return handled, processed, false;
      }
      var line := rest[..nl.value];
      Drops(input, processed, nl.value + 1);
      processed := processed + nl.value + 1;
      Assoc(handled, [line], Split(input[processed..]).lines);
      handled := handled + [line];
      if |handled| > sendable {
        Halves(handled, Split(input[processed..]).lines);
        return handled, processed, true;
      }
    }
  }

  /** Copies a chunk behind the pending bytes. */
  method Fill(pending: array<char>, at: nat, chunk: string)
    requires at + |chunk| <= pending.Length
    modifies pending
    ensures pending[..at + |chunk|] == old(pending[..at]) + chunk
  {
    forall k | 0 <= k < |chunk| {
      pending[at + k] := chunk[k];
    }
  }

  /** Moves the bytes `from..to` to the front of the buffer. */
  method MoveDown(pending: array<char>, from: nat, to: nat)
    requires from <= to <= pending.Length
    modifies pending
    ensures pending[..to - from] == old(pending[from..to])
  {
    forall k | 0 <= k < to - from {
      pending[k] := pending[from + k];
    }
  }

  /** One pass of the receive loop, in place. */
  method ReceiveChunk(pending: array<char>, pendingLen: nat, handled: seq<string>, chunk: string, sendable: nat)
    returns (next: Session, newLen: nat)
    requires pending.Length == LINE_MAX + 1 && pendingLen <= LINE_MAX && |handled| <= sendable
    modifies pending
    ensures next == Feed(Open(handled, old(pending[..pendingLen])), chunk, sendable)
    ensures next.Open? ==> |next.handled| <= sendable && newLen <= LINE_MAX && next.pending == pending[..newLen]
  {
    if pendingLen + |chunk| > LINE_MAX {
      return TooLong(handled), pendingLen;
    }
    Fill(pending, pendingLen, chunk);
    newLen := pendingLen + |chunk|;
    var lines, processed, gone := TakeLines(pending, newLen, handled, sendable);
    if gone {
      return Gone(lines), newLen;
    }
    MoveDown(pending, processed, newLen);
    newLen := newLen - processed;
    // The length check after the shift can never fire.
    assert newLen <= LINE_MAX;
    next := Open(lines, pending[..newLen]);
  }

  method HandleClient(chunks: seq<string>, sendable: nat) returns (end: Session)
    requires Chunks(chunks)
    ensures end == Serve(chunks, sendable)
  {
    var pending := new char[LINE_MAX + 1];
    var pendingLen: nat := 0;
    end := Open([], "");
    for i := 0 to |chunks|
      invariant end.Open? && |end.handled| <= sendable
      invariant pendingLen <= LINE_MAX && end.pending == pending[..pendingLen]
      invariant end == Serve(chunks[..i], sendable)
    {
      ServeNext(chunks, i, sendable);
      EndedStays(chunks, i + 1, sendable);
      end, pendingLen := ReceiveChunk(pending, pendingLen, end.handled, chunks[i], sendable);
      if !end.Open? {
        return;
      }
    }
    Whole(chunks);
  }

  // ----- Chunking does not matter -----

  /** Input received but not yet part of a complete line after the first `p` bytes. */
  function Unfinished(stream: string, p: nat): nat
    requires p <= |stream|
  {
    |Split(stream[..p]).rest|
  }

  /** The largest chunk does not fit behind what is unfinished at an offset. */
  predicate Misfit(stream: string, p: nat)
    requires p <= |stream|
  {
    Unfinished(stream, p) + Min(RECV_BUF, |stream| - p) > LINE_MAX
  }

  /** Wherever a recv may start, the largest chunk it may return fits behind the unfinished line. */
  ghost predicate AlwaysFits(stream: string) {
    forall p: nat | p <= |stream| :: !Misfit(stream, p)
  }

  /** The answer the whole stream deserves, however it is cut. */
  function WholeStream(stream: string, sendable: nat): Session {
    var f := Split(stream);
    if |f.lines| > sendable then Gone(f.lines[..sendable + 1]) else Open(f.lines, f.rest)
  }

  /** One more chunk after a prefix served as a whole. */
  lemma FeedWhole(stream: string, chunk: string, sendable: nat)
    requires Unfinished(stream, |stream|) + |chunk| <= LINE_MAX
    ensures Feed(WholeStream(stream, sendable), chunk, sendable) == WholeStream(stream + chunk, sendable)
  {
    SplitAppend(stream, chunk);
    assert stream[..|stream|] == stream;
    var f, g := Split(stream), Split(stream + chunk);
    if |f.lines| > sendable {
      assert g.lines[..sendable + 1] == f.lines[..sendable + 1];
    }
  }

  lemma {:induction false} ServesWhole(chunks: seq<string>, sendable: nat)
    requires Chunks(chunks) && AlwaysFits(Concat(chunks))
    ensures Serve(chunks, sendable) == WholeStream(Concat(chunks), sendable)
  {
    if chunks != [] {
      var n := |chunks| - 1;
      var stream, before := Concat(chunks), Concat(chunks[..n]);
      FitsPrefix(stream, |before|);
      assert stream[..|before|] == before;
      ServesWhole(chunks[..n], sendable);
      assert chunks[n] in chunks;
      assert !Misfit(stream, |before|);
      assert before[..|before|] == before;
      FeedWhole(before, chunks[n], sendable);
    }
  }

  lemma FitsPrefix(stream: string, n: nat)
    requires n <= |stream| && AlwaysFits(stream)
    ensures AlwaysFits(stream[..n])
  {
    forall p: nat | p <= n
      ensures !Misfit(stream[..n], p)
    {
      assert stream[..n][..p] == stream[..p];
      assert !Misfit(stream, p);
    }
  }

  /** While a session is open it has seen exactly the lines of its input. */
  lemma {:induction false} OpenIsWhole(chunks: seq<string>, sendable: nat)
    requires Serve(chunks, sendable).Open?
    ensures Serve(chunks, sendable) == WholeStream(Concat(chunks), sendable)
  {
    if chunks != [] {
      var n := |chunks| - 1;
      OpenIsWhole(chunks[..n], sendable);
      var before := Concat(chunks[..n]);
      assert before[..|before|] == before;
      FeedWhole(before, chunks[n], sendable);
    }
  }

  lemma {:induction false} HandledFromStream(chunks: seq<string>, sendable: nat)
    ensures |Serve(chunks, sendable).handled| <= |Split(Concat(chunks)).lines|
  {
    if chunks != [] {
      var n := |chunks| - 1;
      HandledFromStream(chunks[..n], sendable);
      SplitAppend(Concat(chunks[..n]), chunks[n]);
      if Serve(chunks[..n], sendable).Open? {
        OpenIsWhole(chunks[..n], sendable);
      }
    }
  }

  lemma FewerLines(s: string, n: nat)
    requires n <= |s|
    ensures |Split(s[..n]).lines| <= |Split(s).lines|
  {
    Rejoin(s, n);
    SplitAppend(s[..n], s[n..]);
  }

  /** An open session has everything it was fed as complete lines or pending. */
  lemma NeverGone(chunks: seq<string>, sendable: nat)
    requires |Split(Concat(chunks)).lines| <= sendable
    ensures var s := Serve(chunks, sendable);
            s.TooLong? || (s.Open? && s.pending == Split(Concat(chunks)).rest)
  {
    match Serve(chunks, sendable)
    case Open(_, _) => OpenIsWhole(chunks, sendable);
    case Gone(_) =>
      HandledFromStream(chunks, sendable);
      GoneCount(chunks, sendable);
    case TooLong(_) =>
  }

  /** Feeding the start of a stream one byte at a time leaves its lines handled and its rest pending. */
  lemma ReachesOffset(stream: string, p: nat, sendable: nat)
    requires p <= |stream| && |Split(stream).lines| <= sendable
    ensures var s := Serve(Singletons(stream[..p]), sendable);
            s.TooLong? || (s.Open? && |s.pending| == Unfinished(stream, p))
  {
    SingletonsConcat(stream[..p]);
    FewerLines(stream, p);
    NeverGone(Singletons(stream[..p]), sendable);
  }

  /** Where the fit fails, some way of cutting the stream gets its client turned away. */
  lemma CutThatOverflows(stream: string, p: nat, sendable: nat) returns (chunks: seq<string>)
    requires p <= |stream| && Misfit(stream, p) && |Split(stream).lines| <= sendable
    ensures Chunks(chunks) && Concat(chunks) == stream && Serve(chunks, sendable).TooLong?
  {
    var head := Singletons(stream[..p]);
    SingletonsConcat(stream[..p]);
    ReachesOffset(stream, p, sendable);
    if p == |stream| {
      // Nothing is left to receive, and the buffer cannot hold what came.
      chunks := head;
      assert stream[..p] == stream;
      if Serve(head, sendable).Open? {
        NeverPastLimit(head, sendable);
      }
    } else {
      var q := p + Min(RECV_BUF, |stream| - p);
      chunks := head + [stream[p..q]] + Singletons(stream[q..]);
      CutConcat(stream, p, q);
      assert chunks[..|head| + 1] == head + [stream[p..q]];
      assert (head + [stream[p..q]])[..|head|] == head;
      EndedStays(chunks, |head| + 1, sendable);
    }
  }

  lemma {:induction false} NeverPastLimit(chunks: seq<string>, sendable: nat)
    requires Serve(chunks, sendable).Open?
    ensures |Serve(chunks, sendable).pending| <= LINE_MAX
  {
    if chunks != [] {
      NeverPastLimit(chunks[..|chunks| - 1], sendable);
    }
  }

  lemma {:induction false} GoneCount(chunks: seq<string>, sendable: nat)
    requires Serve(chunks, sendable).Gone?
    ensures |Serve(chunks, sendable).handled| == sendable + 1
  {
    if chunks != [] {
      var n := |chunks| - 1;
      if Serve(chunks[..n], sendable).Gone? {
        GoneCount(chunks[..n], sendable);
      }
    }
  }

  /**
   * Every cut of a stream gets the answers of the whole stream exactly when the largest chunk
   * always fits; otherwise some cut is turned away with ERROR.
   */
  lemma EveryCutAgrees(stream: string, sendable: nat)
    requires |Split(stream).lines| <= sendable
    ensures (forall chunks | Chunks(chunks) && Concat(chunks) == stream ::
               Serve(chunks, sendable) == Open(Split(stream).lines, Split(stream).rest))
            <==> AlwaysFits(stream)
  {
    if AlwaysFits(stream) {
      forall chunks | Chunks(chunks) && Concat(chunks) == stream
        ensures Serve(chunks, sendable) == WholeStream(stream, sendable)
      {
        ServesWhole(chunks, sendable);
      }
    } else {
      var p: nat :| p <= |stream| && Misfit(stream, p);
      var chunks := CutThatOverflows(stream, p, sendable);
    }
  }

  /** Lines of at most LINE_MAX - RECV_BUF bytes always fit. */
  ghost predicate ShortLines(stream: string) {
    forall p: nat | p <= |stream| :: Unfinished(stream, p) <= LINE_MAX - RECV_BUF
  }

  lemma ShortLinesFit(stream: string)
    requires ShortLines(stream)
    ensures AlwaysFits(stream)
  {
  }

  /** What a session has come to after the first `n` bytes of short lines and an overlong one. */
  function Overrun(good: string, tail: string, n: nat, sendable: nat): Session
    requires n <= |good| + |tail|
  {
    if n <= |good| then WholeStream(good[..n], sendable)
    else if n <= |good| + LINE_MAX then Open(Split(good).lines, tail[..n - |good|])
    else TooLong(Split(good).lines)
  }

  /** An input of short lines and then one that overruns the buffer. */
  ghost predicate LongLine(good: string, tail: string, sendable: nat) {
    && ShortLines(good) && Split(good).rest == "" && |Split(good).lines| <= sendable
    && forall i: nat | i < LINE_MAX && i < |tail| :: tail[i] != '\n'
  }

  /** Still within the short lines. */
  lemma OverrunWithin(good: string, tail: string, n: nat, chunk: string, sendable: nat)
    requires LongLine(good, tail, sendable) && |chunk| <= RECV_BUF
    requires n + |chunk| <= |good| && chunk == good[n..n + |chunk|]
    ensures Feed(Overrun(good, tail, n, sendable), chunk, sendable) == Overrun(good, tail, n + |chunk|, sendable)
  {
    Slices(good, n, n + |chunk|);
    ShortPrefix(good, n);
    FeedWhole(good[..n], chunk, sendable);
    FewerLines(good, n);
  }

  lemma ShortPrefix(good: string, n: nat)
    requires ShortLines(good) && n <= |good|
    ensures Unfinished(good[..n], n) <= LINE_MAX - RECV_BUF
  {
    Whole(good[..n]);
    assert Unfinished(good, n) <= LINE_MAX - RECV_BUF;
  }

  /** The chunk in which the overlong line begins. */
  lemma OverrunCrosses(good: string, tail: string, n: nat, chunk: string, over: string, sendable: nat)
    requires LongLine(good, tail, sendable) && |chunk| <= RECV_BUF
    requires n <= |good| < n + |chunk| <= |good| + |tail|
    requires over == tail[..n + |chunk| - |good|] && good[..n] + chunk == good + over
    ensures Feed(Overrun(good, tail, n, sendable), chunk, sendable) == Overrun(good, tail, n + |chunk|, sendable)
  {
    ShortPrefix(good, n);
    FeedWhole(good[..n], chunk, sendable);
    SplitAppend(good, over);
    NoNewline(over);
    assert Split(good).rest + over == over;
  }

  lemma OverrunBeyond(good: string, tail: string, n: nat, chunk: string, sendable: nat)
    requires LongLine(good, tail, sendable) && |chunk| <= RECV_BUF
    requires |good| < n && n + |chunk| <= |good| + |tail| && chunk == tail[n - |good|..n + |chunk| - |good|]
    ensures Feed(Overrun(good, tail, n, sendable), chunk, sendable) == Overrun(good, tail, n + |chunk|, sendable)
  {
    Slices(tail, n - |good|, n + |chunk| - |good|);
    if n + |chunk| <= |good| + LINE_MAX {
      NoNewline(tail[..n + |chunk| - |good|]);
    }
  }

  lemma OverrunStep(good: string, tail: string, m: nat, chunk: string, sendable: nat)
    requires LongLine(good, tail, sendable) && |chunk| <= RECV_BUF
    requires m + |chunk| <= |good| + |tail| && chunk == (good + tail)[m..m + |chunk|]
    ensures Feed(Overrun(good, tail, m, sendable), chunk, sendable) == Overrun(good, tail, m + |chunk|, sendable)
  {
    var n := m + |chunk|;
    if n <= |good| {
      assert chunk == good[m..n];
      OverrunWithin(good, tail, m, chunk, sendable);
    } else if m <= |good| {
      var over := tail[..n - |good|];
      assert good[..m] + chunk == good + over;
      OverrunCrosses(good, tail, m, chunk, over, sendable);
    } else {
      assert chunk == tail[m - |good|..n - |good|];
      OverrunBeyond(good, tail, m, chunk, sendable);
    }
  }

  lemma {:induction false} OverrunServe(good: string, tail: string, chunks: seq<string>, n: nat, sendable: nat)
    requires LongLine(good, tail, sendable) && n <= |good| + |tail|
    requires Chunks(chunks) && Concat(chunks) == (good + tail)[..n]
    ensures Serve(chunks, sendable) == Overrun(good, tail, n, sendable)
  {
    if chunks == [] {
    } else {
      var k := |chunks| - 1;
      var chunk, m := chunks[k], n - |chunks[k]|;
      assert chunk in chunks;
      Halves(Concat(chunks[..k]), chunk);
      Slices(good + tail, m, n);
      OverrunServe(good, tail, chunks[..k], m, sendable);
      assert chunk == (good + tail)[m..n];
      OverrunStep(good, tail, m, chunk, sendable);
    }
  }

  /**
   * Short lines followed by one that, with its newline if it has one, overruns the buffer: every
   * cut handles exactly the short lines, answers ERROR once and closes.
   */
  lemma LongLineEnds(good: string, tail: string, chunks: seq<string>, sendable: nat)
    requires LongLine(good, tail, sendable) && |tail| > LINE_MAX
    requires Chunks(chunks) && Concat(chunks) == good + tail
    ensures Serve(chunks, sendable) == TooLong(Split(good).lines)
  {
    Whole(good + tail);
    OverrunServe(good, tail, chunks, |good + tail|, sendable);
  }
}
