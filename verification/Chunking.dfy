// A byte stream as the chunks a socket delivers it in.
module Chunking {
  import opened Text

  /** The most one read returns, in the cache, both proxies and the HTTP server alike. */
  const RECV_BUF := 4096

  function Min(a: int, b: int): int {
    if a < b then a else b
  }

  /** What recv can return before the stream ends. */
  predicate Chunks(chunks: seq<string>) {
    forall c | c in chunks :: 0 < |c| <= RECV_BUF
  }

  function Concat(chunks: seq<string>): string {
    if chunks == [] then "" else Concat(chunks[..|chunks| - 1]) + chunks[|chunks| - 1]
  }

  function Singletons(s: string): (c: seq<string>)
    ensures Chunks(c)
  {
    if s == "" then [] else Singletons(s[..|s| - 1]) + [s[|s| - 1..]]
  }

  lemma {:induction false} SingletonsConcat(s: string)
    ensures Concat(Singletons(s)) == s
  {
    if s != "" {
      var n := |s| - 1;
      SingletonsConcat(s[..n]);
      var c := Singletons(s);
      assert c[..|c| - 1] == Singletons(s[..n]);
      assert s == s[..n] + s[n..];
    }
  }

  lemma {:induction false} ConcatAppend(a: seq<string>, b: seq<string>)
    ensures Concat(a + b) == Concat(a) + Concat(b)
  {
    if b == [] {
      assert a + b == a;
    } else {
      var n := |b| - 1;
      ConcatAppend(a, b[..n]);
      assert (a + b)[..|a + b| - 1] == a + b[..n];
    }
  }

  lemma CutConcat(stream: string, p: nat, q: nat)
    requires p <= q <= |stream|
    ensures Concat(Singletons(stream[..p]) + [stream[p..q]] + Singletons(stream[q..])) == stream
    ensures 0 < q - p <= RECV_BUF ==> Chunks(Singletons(stream[..p]) + [stream[p..q]] + Singletons(stream[q..]))
  {
    var head, tail := Singletons(stream[..p]), Singletons(stream[q..]);
    SingletonsConcat(stream[..p]);
    SingletonsConcat(stream[q..]);
    ConcatAppend(head + [stream[p..q]], tail);
    Halves(head, [stream[p..q]]);
    Slices(stream, p, q);
    Rejoin(stream, q);
  }
}
