// The shared counter that spreads requests over the backends.
module RoundRobin {
  import opened Text

  const UINT64_RANGE := 0x1_0000_0000_0000_0000
  const INT_MAX := 0x7fff_ffff_ffff_ffff

  /** Go's conversion of a uint64 to a 64-bit int. */
  function ToInt(u: nat): int {
    if u <= INT_MAX then u else u - UINT64_RANGE
  }

  /** Go's remainder, which takes the sign of the dividend. */
  function Rem(a: int, n: nat): (r: int)
    requires n > 0
    ensures a >= 0 ==> 0 <= r == a % n
  {
    if a >= 0 then a % n else -((-a) % n)
  }

  /** `selection.Add(1)`, wrapping, and the index it claims. */
  function Claim(counter: nat, n: nat): (nat, int)
    requires n > 0
  {
    var next := (counter + 1) % UINT64_RANGE;
    (next, Rem(ToInt((next + UINT64_RANGE - 1) % UINT64_RANGE), n))
  }

  /** The backend tried at an offset; negative indexing panics in Go. */
  function Tried(initial: int, offset: nat, n: nat): int
    requires n > 0
  {
    Rem(initial + offset, n)
  }

  /** A claim is a usable index exactly below 2^63, or where the wrapped value is a multiple of n. */
  lemma {:induction false} ClaimUsable(counter: nat, n: nat)
    requires n > 0 && counter < UINT64_RANGE
    ensures var initial := Claim(counter, n).1;
            && (initial >= 0 <==> counter <= INT_MAX || (UINT64_RANGE - counter) % n == 0)
            && initial < n
            && (counter <= INT_MAX ==> initial == counter % n)
  {
    var next := (counter + 1) % UINT64_RANGE;
    assert (next + UINT64_RANGE - 1) % UINT64_RANGE == counter;
  }

  /** The first counter beyond the signed range claims index -2 of three backends. */
  lemma ClaimNegative()
    ensures Claim(INT_MAX + 1, 3) == (INT_MAX + 2, -2)
  {
    assert INT_MAX + 1 == 3 * 3074457345618258602 + 2;
  }

  lemma ClaimBelow(counter: nat, n: nat)
    requires n > 0 && counter <= INT_MAX
    ensures Claim(counter, n) == (counter + 1, counter % n)
  {
    var next := (counter + 1) % UINT64_RANGE;
    assert next == counter + 1;
    assert (next + UINT64_RANGE - 1) % UINT64_RANGE == counter;
    assert ToInt(counter) == counter;
  }

  // ----- One request tries every backend once -----

  lemma ModOffset(initial: nat, offset: nat, n: nat)
    requires initial < n && offset < n
    ensures (initial + offset) % n == if initial + offset < n then initial + offset else initial + offset - n
  {
    if initial + offset >= n {
      var r := initial + offset - n;
      assert (r + n) % n == r % n by {
        Shift(r, n);
      }
    }
  }

  lemma Shift(k: nat, n: nat)
    requires n > 0
    ensures (k + n) % n == k % n
  {
    var q, r := k / n, k % n;
    assert k + n == (q + 1) * n + r;
    Unique(k + n, n, q + 1, r);
  }

  /** Quotient and remainder are determined by their defining equation. */
  lemma Unique(x: nat, n: nat, q: nat, r: nat)
    requires n > 0 && x == q * n + r && r < n
    ensures x / n == q && x % n == r
  {
    var d := x / n - q;
    assert d * n == r - x % n;
    assert d > 0 ==> d * n >= n;
    assert d < 0 ==> d * n <= 0 - n;
  }

  /** The offset at which a backend is tried. */
  function OffsetOf(initial: nat, b: nat, n: nat): nat
    requires initial < n && b < n
  {
    if b >= initial then b - initial else b + n - initial
  }

  /** The indices tried are 0..n-1, each exactly once, going round from the claimed one. */
  lemma {:induction false} TriesAll(initial: nat, n: nat, b: nat)
    requires initial < n && b < n
    ensures OffsetOf(initial, b, n) < n && Tried(initial, OffsetOf(initial, b, n), n) == b
    ensures forall o: nat | o < n && Tried(initial, o, n) == b :: o == OffsetOf(initial, b, n)
  {
    ModOffset(initial, OffsetOf(initial, b, n), n);
    forall o: nat | o < n && Tried(initial, o, n) == b
      ensures o == OffsetOf(initial, b, n)
    {
      ModOffset(initial, o, n);
    }
  }

  // ----- Fairness over many requests -----

  /** How many of the counter values c, ..., c+m-1 start at backend b. */
  function Starts(c: nat, m: nat, n: nat, b: nat): nat
    requires n > 0
  {
    if m == 0 then 0 else Starts(c, m - 1, n, b) + if (c + m - 1) % n == b then 1 else 0
  }

  lemma {:induction false} StartsFirst(c: nat, m: nat, n: nat, b: nat)
    requires n > 0
    ensures Starts(c, m + 1, n, b) == (if c % n == b then 1 else 0) + Starts(c + 1, m, n, b)
  {
    if m > 0 {
      StartsFirst(c, m - 1, n, b);
    }
  }

  lemma {:induction false} StartsAt0(m: nat, n: nat, b: nat)
    requires m <= n && b < n
    ensures Starts(0, m, n, b) == if b < m then 1 else 0
  {
    if m > 0 {
      StartsAt0(m - 1, n, b);
      Unique(m - 1, n, 0, m - 1);
    }
  }

  /** n consecutive values start at each backend once. */
  lemma {:induction false} OnePerRound(c: nat, n: nat, b: nat)
    requires b < n
    ensures Starts(c, n, n, b) == 1
  {
    if c == 0 {
      StartsAt0(n, n, b);
    } else {
      OnePerRound(c - 1, n, b);
      StartsFirst(c - 1, n, n, b);
      Shift(c - 1, n);
    }
  }

  lemma {:induction false} StartsSplit(c: nat, m: nat, k: nat, n: nat, b: nat)
    requires n > 0
    ensures Starts(c, m + k, n, b) == Starts(c, m, n, b) + Starts(c + m, k, n, b)
  {
    if k > 0 {
      StartsSplit(c, m, k - 1, n, b);
    }
  }

  lemma {:induction false} WindowFair(c: nat, m: nat, n: nat, b: nat)
    requires b < n
    ensures m / n <= Starts(c, m, n, b) <= (m + n - 1) / n
    decreases m
  {
    if m < n {
      StartsSplit(c, m, n - m, n, b);
      OnePerRound(c, n, b);
      Unique(m, n, 0, m);
      if m > 0 {
        Unique(m + n - 1, n, 1, m - 1);
      }
    } else {
      WindowFair(c + n, m - n, n, b);
      StartsSplit(c, n, m - n, n, b);
      OnePerRound(c, n, b);
      Quotient(m - n, n);
      Quotient(m - 1, n);
    }
  }

  lemma Quotient(k: nat, n: nat)
    requires n > 0
    ensures (k + n) / n == k / n + 1
  {
    var q, r := k / n, k % n;
    assert k + n == (q + 1) * n + r;
    Unique(k + n, n, q + 1, r);
  }

  /** What requests do to the counter; claims are atomic, so their order is the interleaving. */
  datatype Event = Invalid | EmptySnapshot | Claimed(n: nat)

  function CounterAfter(counter: nat, events: seq<Event>): nat {
    if events == [] then counter
    else
      var before := CounterAfter(counter, events[..|events| - 1]);
      var e := events[|events| - 1];
      if e.Claimed? && e.n > 0 then Claim(before, e.n).0 else before
  }

  function Claims(events: seq<Event>): nat {
    if events == [] then 0
    else Claims(events[..|events| - 1]) + if events[|events| - 1].Claimed? then 1 else 0
  }

  /** How many requests of a run start at backend b. */
  function StartsAt(counter: nat, events: seq<Event>, b: nat): nat {
    if events == [] then 0
    else
      var n, e := |events| - 1, events[|events| - 1];
      StartsAt(counter, events[..n], b) +
      if e.Claimed? && e.n > 0 && Claim(CounterAfter(counter, events[..n]), e.n).1 == b then 1 else 0
  }

  ghost predicate Membership(events: seq<Event>, n: nat) {
    forall e | e in events :: e.Claimed? ==> e.n == n
  }

  lemma {:induction false} ClaimsCount(counter: nat, events: seq<Event>, n: nat, b: nat)
    requires n > 0 && Membership(events, n) && counter + Claims(events) <= INT_MAX + 1
    ensures CounterAfter(counter, events) == counter + Claims(events)
    ensures StartsAt(counter, events, b) == Starts(counter, Claims(events), n, b)
  {
    if events != [] {
      var k := |events| - 1;
      ClaimsCount(counter, events[..k], n, b);
      assert events[k] in events;
      if events[k].Claimed? {
        ClaimBelow(counter + Claims(events[..k]), n);
      }
    }
  }

  /**
   * While the membership stays at n backends and the counter below 2^63, every run of requests
   * with m claims, in any interleaving and among any number of rejected requests, starts at
   * each backend floor(m/n) or ceil(m/n) times.
   */
  lemma {:induction false} Fair(counter: nat, events: seq<Event>, n: nat, b: nat)
    requires b < n && Membership(events, n) && counter + Claims(events) <= INT_MAX + 1
    ensures var m := Claims(events);
            m / n <= StartsAt(counter, events, b) <= (m + n - 1) / n
  {
    ClaimsCount(counter, events, n, b);
    WindowFair(counter, Claims(events), n, b);
  }
}
