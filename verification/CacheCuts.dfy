// Which streams the cache serves alike however they are cut into chunks.
module CacheCuts {
  import opened Text
  import opened Chunking
  import opened CacheFraming

  /** From offset `n` on, a line of at least LINE_MAX bytes that the stream goes beyond. */
  ghost predicate OverrunsAt(stream: string, n: nat) {
    n + LINE_MAX < |stream| && Split(stream[..n]).rest == "" && '\n' !in stream[n..n + LINE_MAX]
  }

  /** And no cut can be turned away before that line. */
  ghost predicate AlwaysOverruns(stream: string, n: nat) {
    OverrunsAt(stream, n) && forall p: nat | p < n :: !Misfit(stream, p)
  }

  lemma UnfinishedPrefix(stream: string, n: nat, p: nat)
    requires p <= n <= |stream|
    ensures Unfinished(stream[..n], p) == Unfinished(stream, p)
  {
    Slices(stream, p, n);
  }

  lemma ShortBefore(stream: string, n: nat)
    requires AlwaysOverruns(stream, n)
    ensures ShortLines(stream[..n])
  {
    forall p: nat | p <= n
      ensures Unfinished(stream[..n], p) <= LINE_MAX - RECV_BUF
    {
      UnfinishedPrefix(stream, n, p);
      if p < n {
        assert !Misfit(stream, p);
      }
    }
  }

  /** Every cut of such a stream ends at the overlong line. */
  lemma AlwaysOverrunsEnds(stream: string, n: nat, chunks: seq<string>, sendable: nat)
    requires AlwaysOverruns(stream, n) && |Split(stream).lines| <= sendable
    requires Chunks(chunks) && Concat(chunks) == stream
    ensures Serve(chunks, sendable) == TooLong(Split(stream[..n]).lines)
  {
    var good, tail := stream[..n], stream[n..];
    Rejoin(stream, n);
    FewerLines(stream, n);
    ShortBefore(stream, n);
    forall i: nat | i < LINE_MAX
      ensures tail[i] != '\n'
    {
      assert tail[i] == stream[n..n + LINE_MAX][i];
    }
    LongLineEnds(good, tail, chunks, sendable);
  }

  /** A chunk of one byte is turned away just when the unfinished line already fills the buffer. */
  lemma FeedByte(stream: string, m: nat, sendable: nat)
    requires m < |stream| && |Split(stream).lines| <= sendable
    ensures Feed(WholeStream(stream[..m], sendable), stream[m..m + 1], sendable) ==
            if Unfinished(stream, m) == LINE_MAX then TooLong(Split(stream[..m]).lines)
            else if Unfinished(stream, m) < LINE_MAX then WholeStream(stream[..m + 1], sendable)
            else TooLong(Split(stream[..m]).lines)
  {
    FewerLines(stream, m);
    Slices(stream, m, m + 1);
    if Unfinished(stream, m) < LINE_MAX {
      Whole(stream[..m]);
      FeedWhole(stream[..m], stream[m..m + 1], sendable);
    }
  }

  /** The unfinished line is the end of the stream, and what precedes it is finished. */
  ghost predicate StartsAt(s: string, n: nat) {
    n <= |s| && s[n..] == Split(s).rest && Split(s[..n]) == Frames(Split(s).lines, "")
  }

  lemma LastNewline(s: string) returns (k: nat)
    requires '\n' in s
    ensures k < |s| && s[k] == '\n' && '\n' !in s[k + 1..]
  {
    k := |s| - 1;
    while s[k] != '\n'
      invariant k < |s| && forall i | k < i < |s| :: s[i] != '\n'
      decreases k
    {
      assert k == 0 ==> '\n' !in s;
      k := k - 1;
    }
  }

  lemma NewlineEnds(s: string)
    ensures Split(s + "\n").rest == ""
  {
    SplitAppend(s, "\n");
    SplitLine(Split(s).rest, "");
    NoNewline("");
    assert Split(s).rest + "\n" + "" == Split(s).rest + "\n";
  }

  /** Where the unfinished line began. */
  lemma LineStart(s: string) returns (n: nat)
    ensures StartsAt(s, n)
  {
    n := 0;
    if '\n' in s {
      var k := LastNewline(s);
      n := k + 1;
      NewlineEnds(s[..k]);
      assert s[..n] == s[..k] + "\n";
    } else {
      assert s[..0] == "";
      NoNewline("");
    }
    Rejoin(s, n);
    SplitAppend(s[..n], s[n..]);
    NoNewline(s[n..]);
    assert "" + s[n..] == s[n..];
  }

  lemma FullLine(stream: string, m: nat) returns (n: nat)
    requires m < |stream| && Unfinished(stream, m) == LINE_MAX
    ensures n + LINE_MAX == m && OverrunsAt(stream, n) && Split(stream[..n]).lines == Split(stream[..m]).lines
  {
    var s := stream[..m];
    n := LineStart(s);
    Slices(stream, n, m);
    assert s[n..] == stream[n..m];
  }

  /** A session fed the first `m` bytes one at a time. */
  function Bytewise(stream: string, m: nat, sendable: nat): Session
    requires m <= |stream|
  {
    if m == 0 then Open([], "") else Feed(Bytewise(stream, m - 1, sendable), stream[m - 1..m], sendable)
  }

  lemma {:induction false} BytewiseIs(stream: string, m: nat, sendable: nat)
    requires m <= |stream|
    ensures Serve(Singletons(stream[..m]), sendable) == Bytewise(stream, m, sendable)
  {
    if m > 0 {
      BytewiseIs(stream, m - 1, sendable);
      NextByte(stream, m - 1, sendable);
    }
  }

  lemma NextByte(stream: string, m: nat, sendable: nat)
    requires m < |stream|
    ensures Serve(Singletons(stream[..m + 1]), sendable)
            == Feed(Serve(Singletons(stream[..m]), sendable), stream[m..m + 1], sendable)
  {
    var bytes, before := Singletons(stream[..m + 1]), Singletons(stream[..m]);
    Slices(stream, m, m + 1);
    assert stream[..m + 1][m..] == stream[m..m + 1];
    assert bytes == before + [stream[m..m + 1]];
    Halves(before, [stream[m..m + 1]]);
  }

  /** What a session fed single bytes may be after `m` of them. */
  ghost predicate AtByte(stream: string, m: nat, s: Session, sendable: nat)
    requires m <= |stream|
  {
    || (s == WholeStream(stream[..m], sendable) && Unfinished(stream, m) <= LINE_MAX)
    || exists n: nat :: OverrunsAt(stream, n) && s == TooLong(Split(stream[..n]).lines)
  }

  /** Fed one byte at a time, a stream is served whole until a line fills the buffer. */
  lemma {:induction false} ByteByByte(stream: string, m: nat, sendable: nat)
    requires m <= |stream| && |Split(stream).lines| <= sendable
    ensures AtByte(stream, m, Bytewise(stream, m, sendable), sendable)
  {
    if m > 0 {
      ByteByByte(stream, m - 1, sendable);
      ByteStep(stream, m - 1, Bytewise(stream, m - 1, sendable), sendable);
    } else {
      NothingRead(stream, sendable);
    }
  }

  lemma NothingRead(stream: string, sendable: nat)
    ensures WholeStream(stream[..0], sendable) == Open([], "") && Unfinished(stream, 0) == 0
  {
    assert stream[..0] == "";
    NoNewline("");
  }

  lemma ByteStep(stream: string, m: nat, s: Session, sendable: nat)
    requires m < |stream| && |Split(stream).lines| <= sendable && AtByte(stream, m, s, sendable)
    ensures AtByte(stream, m + 1, Feed(s, stream[m..m + 1], sendable), sendable)
  {
    FewerLines(stream, m);
    if s.Open? {
      FeedByte(stream, m, sendable);
      OneMore(stream, m);
      if Unfinished(stream, m) == LINE_MAX {
        var n := FullLine(stream, m);
      }
    }
  }

  lemma OneMore(stream: string, m: nat)
    requires m < |stream|
    ensures Unfinished(stream, m + 1) <= Unfinished(stream, m) + 1
  {
    Slices(stream, m, m + 1);
    SplitAppend(stream[..m], stream[m..m + 1]);
  }

  /** Past the end of a line there are more lines. */
  lemma MoreLines(stream: string, p: nat, n: nat)
    requires p < n <= |stream| && Split(stream[..n]).rest == ""
    ensures |Split(stream[..p]).lines| < |Split(stream[..n]).lines|
  {
    Slices(stream, p, n);
    SplitAppend(stream[..p], stream[p..n]);
    assert Split(Split(stream[..p]).rest + stream[p..n]).rest == "";
  }

  lemma FirstMisfitFrom(stream: string, from: nat, bad: nat) returns (p: nat)
    requires from <= bad <= |stream| && Misfit(stream, bad)
    requires forall q: nat | q < from :: !Misfit(stream, q)
    ensures p <= |stream| && Misfit(stream, p) && forall q: nat | q < p :: !Misfit(stream, q)
    decreases bad - from
  {
    if Misfit(stream, from) {
      p := from;
    } else {
      p := FirstMisfitFrom(stream, from + 1, bad);
    }
  }

  /** The first offset at which the largest chunk does not fit. */
  lemma FirstMisfit(stream: string) returns (p: nat)
    requires !AlwaysFits(stream)
    ensures p < |stream| && Misfit(stream, p) && forall q: nat | q < p :: !Misfit(stream, q)
  {
    var bad: nat :| bad <= |stream| && Misfit(stream, bad);
    p := FirstMisfitFrom(stream, 0, bad);
    if p > 0 {
      OneMore(stream, p - 1);
      assert !Misfit(stream, p - 1);
    }
  }

  /** An open session is turned away by a chunk that does not fit, whatever follows. */
  lemma TurnedAway(head: seq<string>, chunk: string, tail: seq<string>, sendable: nat)
    requires Serve(head, sendable).Open? && |Serve(head, sendable).pending| + |chunk| > LINE_MAX
    ensures Serve(head + [chunk] + tail, sendable) == TooLong(Serve(head, sendable).handled)
  {
    Halves(head, [chunk]);
    Halves(head + [chunk], tail);
    EndedStays(head + [chunk] + tail, |head| + 1, sendable);
  }

  /** The largest chunk at the first such offset is turned away, with the lines before it handled. */
  lemma FirstMisfitEnds(stream: string, p: nat, sendable: nat) returns (chunks: seq<string>)
    requires p < |stream| && Misfit(stream, p) && forall q: nat | q < p :: !Misfit(stream, q)
    requires |Split(stream).lines| <= sendable
    ensures Chunks(chunks) && Concat(chunks) == stream
    ensures Serve(chunks, sendable) == TooLong(Split(stream[..p]).lines)
  {
    var q := p + Min(RECV_BUF, |stream| - p);
    chunks := Singletons(stream[..p]) + [stream[p..q]] + Singletons(stream[q..]);
    CutConcat(stream, p, q);
    BytewiseIs(stream, p, sendable);
    FirstBytes(stream, p, sendable);
    FewerLines(stream, p);
    TurnedAway(Singletons(stream[..p]), stream[p..q], Singletons(stream[q..]), sendable);
  }

  lemma ByteFits(stream: string, p: nat, sendable: nat)
    requires p < |stream| && |Split(stream).lines| <= sendable && !Misfit(stream, p)
    ensures Feed(WholeStream(stream[..p], sendable), stream[p..p + 1], sendable) == WholeStream(stream[..p + 1], sendable)
  {
    FeedByte(stream, p, sendable);
  }

  lemma {:induction false} FirstBytes(stream: string, p: nat, sendable: nat)
    requires p <= |stream| && |Split(stream).lines| <= sendable
    requires forall q: nat | q < p :: !Misfit(stream, q)
    ensures Bytewise(stream, p, sendable) == WholeStream(stream[..p], sendable)
  {
    if p > 0 {
      FirstBytes(stream, p - 1, sendable);
      ByteFits(stream, p - 1, sendable);
    } else {
      NothingRead(stream, sendable);
    }
  }

  /**
   * All cuts of a stream, from a client that takes its answers, get the same session exactly
   * when the largest chunk always fits, or it fits up to a line that overruns the buffer
   * however it is cut.
   */
  lemma CutsIndistinguishable(stream: string, sendable: nat)
    requires |Split(stream).lines| <= sendable
    ensures (forall c, d | Chunks(c) && Chunks(d) && Concat(c) == Concat(d) == stream :: Serve(c, sendable) == Serve(d, sendable))
            <==> AlwaysFits(stream) || exists n: nat :: AlwaysOverruns(stream, n)
  {
    if AlwaysFits(stream) {
      forall c, d | Chunks(c) && Chunks(d) && Concat(c) == Concat(d) == stream
        ensures Serve(c, sendable) == Serve(d, sendable)
      {
        ServesWhole(c, sendable);
        ServesWhole(d, sendable);
      }
    } else if n: nat :| AlwaysOverruns(stream, n) {
      forall c, d | Chunks(c) && Chunks(d) && Concat(c) == Concat(d) == stream
        ensures Serve(c, sendable) == Serve(d, sendable)
      {
        AlwaysOverrunsEnds(stream, n, c, sendable);
        AlwaysOverrunsEnds(stream, n, d, sendable);
      }
    } else {
      var c, d := TellApart(stream, sendable);
    }
  }

  /** Otherwise two cuts can be told apart: one byte at a time, and a largest chunk that does not fit. */
  lemma TellApart(stream: string, sendable: nat) returns (c: seq<string>, d: seq<string>)
    requires |Split(stream).lines| <= sendable && !AlwaysFits(stream)
    requires forall n: nat :: !AlwaysOverruns(stream, n)
    ensures Chunks(c) && Chunks(d) && Concat(c) == Concat(d) == stream
    ensures Serve(c, sendable) != Serve(d, sendable)
  {
    var p := FirstMisfit(stream);
    c := FirstMisfitEnds(stream, p, sendable);
    d := Singletons(stream);
    SingletonsConcat(stream);
    Whole(stream);
    BytewiseIs(stream, |stream|, sendable);
    ByteByByte(stream, |stream|, sendable);
    if Serve(d, sendable).TooLong? {
      var n: nat :| OverrunsAt(stream, n) && Serve(d, sendable) == TooLong(Split(stream[..n]).lines);
      assert !AlwaysOverruns(stream, n);
      assert p < n;
      MoreLines(stream, p, n);
    }
  }

  /** A line of LINE_MAX - 1 bytes and one byte more: served byte by byte, turned away in another cut. */
  lemma SameStreamTwoFates(sendable: nat) returns (stream: string, served: seq<string>, refused: seq<string>)
    requires 0 < sendable
    ensures Chunks(served) && Chunks(refused) && Concat(served) == Concat(refused) == stream
    ensures |stream| == LINE_MAX + 1 && |Split(stream).lines| == 1
    ensures Serve(served, sendable) == Open(Split(stream).lines, "x")
    ensures Serve(refused, sendable).TooLong?
  {
    var line: string := seq(LINE_MAX - 1, _ => 'x');
    stream := line + "\n" + "x";
    SplitLine(line, "x");
    NoNewline("x");
    served := Singletons(stream);
    SingletonsConcat(stream);
    Whole(stream);
    BytewiseIs(stream, |stream|, sendable);
    ByteByByte(stream, |stream|, sendable);
    forall n: nat
      ensures !OverrunsAt(stream, n)
    {
      if n + LINE_MAX < |stream| {
        assert stream[n..n + LINE_MAX][LINE_MAX - 1] == '\n';
      }
    }
    Halves(line, "\n" + "x");
    Assoc(line, "\n", "x");
    NoNewline(line);
    refused := CutThatOverflows(stream, |line|, sendable);
  }
}
