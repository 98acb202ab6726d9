// What each bounded reader makes of any chunks at all, from their sizes and the first blank line.
module ReaderOutcomes {
  import opened Text
  import opened Chunking
  import opened RequestReaders

  /** What has been received after `k` chunks. */
  function Received(chunks: seq<string>, k: nat): string
    requires k <= |chunks|
  {
    Concat(chunks[..k])
  }

  lemma ReceivedNext(chunks: seq<string>, k: nat)
    requires k < |chunks|
    ensures Received(chunks, k + 1) == Received(chunks, k) + chunks[k]
    ensures |Received(chunks, k)| <= |Received(chunks, k + 1)|
  {
    Slices(chunks, k, k + 1);
  }

  /** Before the blank line is complete the proxy and the server only compare the size with the limit. */
  lemma {:induction false} StillReading(r: Reader, chunks: seq<string>, k: nat)
    requires !r.LoadBalancer? && k <= |chunks| && HeaderEnd(Received(chunks, k)).None?
    ensures After(r, chunks[..k]) == if |Received(chunks, k)| > MAX_REQUEST then TooLarge else Reading(Received(chunks, k))
  {
    if k > 0 {
      ReceivedNext(chunks, k - 1);
      AfterNext(r, chunks, k - 1);
      if HeaderEnd(Received(chunks, k - 1)).Some? {
        EndInLonger(Received(chunks, k - 1), chunks[k - 1]);
      }
      StillReading(r, chunks, k - 1);
    } else {
      assert chunks[..0] == [];
    }
  }

  /**
   * Where no chunk completes a blank line, they have read everything, or refuse it if it is more than 64 KiB.
   */
  lemma NeverComplete(r: Reader, chunks: seq<string>)
    requires !r.LoadBalancer? && HeaderEnd(Concat(chunks)).None?
    ensures After(r, chunks) == if |Concat(chunks)| > MAX_REQUEST then TooLarge else Reading(Concat(chunks))
  {
    Whole(chunks);
    StillReading(r, chunks, |chunks|);
  }

  /**
   * Where a chunk first completes it, they take the request if no more than 64 KiB have been received
   * by then: the server exactly the header block, the proxy everything received; otherwise they refuse.
   */
  lemma FirstComplete(r: Reader, chunks: seq<string>, k: nat)
    requires !r.LoadBalancer? && k < |chunks|
    requires HeaderEnd(Received(chunks, k)).None? && HeaderEnd(Received(chunks, k + 1)).Some?
    ensures var received := Received(chunks, k + 1);
            After(r, chunks) ==
            if |received| > MAX_REQUEST then TooLarge
            else if r.ReverseProxy? then Got(received)
            else Got(received[..HeaderEnd(received).value])
  {
    StillReading(r, chunks, k);
    ReceivedNext(chunks, k);
    AfterNext(r, chunks, k);
    DoneStays(r, chunks, k + 1);
  }

  /** One of the two cases holds of any chunks. */
  lemma {:induction false} WhenComplete(chunks: seq<string>) returns (k: nat)
    ensures HeaderEnd(Concat(chunks)).Some? ==>
              k < |chunks| && HeaderEnd(Received(chunks, k)).None? && HeaderEnd(Received(chunks, k + 1)).Some?
  {
    k := 0;
    Whole(chunks);
    assert chunks[..0] == [] && Find("", BLANK).None?;
    while k < |chunks| && HeaderEnd(Received(chunks, k + 1)).None?
      invariant k <= |chunks| && HeaderEnd(Received(chunks, k)).None?
    {
      k := k + 1;
    }
  }
}
