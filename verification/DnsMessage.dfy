// What the two DNS programs share: bytes, big-endian words, and the grammar of names
// (sections 2.3.4, 3.1 and 4.1 of RFC 1035).
module DnsMessage {
  import opened Text

  type byte = b: int | 0 <= b < 256
  type Packet = seq<byte>

  const HEADER := 12

  function Word(p: Packet, i: nat): nat
    requires i + 2 <= |p|
  {
    (p[i] as int) * 256 + p[i + 1]
  }

  function Bytes(w: nat): (p: Packet)
    requires w < 0x1_0000
    ensures |p| == 2 && Word(p, 0) == w
  {
    [w / 256, w % 256]
  }

  // ----- Names -----

  type Label = seq<byte>

  predicate ValidLabels(labels: seq<Label>) {
    forall i | 0 <= i < |labels| :: 1 <= |labels[i]| <= 63
  }

  /** Length-prefixed labels closed by a zero byte. */
  function Encode(labels: seq<Label>): (p: Packet)
    requires ValidLabels(labels)
    ensures |p| >= 1
  {
    if labels == [] then [0] else [|labels[0]| as byte] + labels[0] + Encode(labels[1..])
  }

  /** A name without pointers, from an offset on: where it ends, if it is well formed. */
  function Walk(p: Packet, at: nat): (end: Option<nat>)
    ensures end.Some? ==> at < end.value <= |p|
    decreases |p| - at
  {
    if at >= |p| then None
    else if p[at] == 0 then Some(at + 1)
    else if p[at] >= 64 || at + 1 + p[at] > |p| then None
    else Walk(p, at + 1 + p[at])
  }

  lemma {:induction false} WalkEncoded(labels: seq<Label>, p: Packet, at: nat)
    requires ValidLabels(labels) && at + |Encode(labels)| <= |p|
    requires p[at..at + |Encode(labels)|] == Encode(labels)
    ensures Walk(p, at) == Some(at + |Encode(labels)|)
  {
    var e := Encode(labels);
    assert p[at] == e[0];
    if labels != [] {
      var l, rest := labels[0], Encode(labels[1..]);
      var next := at + 1 + |l|;
      assert e[1 + |l|..] == rest;
      assert p[next..next + |rest|] == p[at..at + |e|][1 + |l|..];
      WalkEncoded(labels[1..], p, next);
    }
  }

  lemma {:induction false} WalkDecodes(p: Packet, at: nat) returns (labels: seq<Label>)
    requires Walk(p, at).Some?
    ensures ValidLabels(labels) && Walk(p, at).value == at + |Encode(labels)|
    ensures p[at..at + |Encode(labels)|] == Encode(labels)
    decreases |p| - at
  {
    if p[at] == 0 {
      labels := [];
      assert p[at..at + 1] == [0];
    } else {
      var next := at + 1 + p[at];
      var rest := WalkDecodes(p, next);
      var l := p[at + 1..next];
      labels := [l] + rest;
      assert labels[1..] == rest;
      assert p[at..next + |Encode(rest)|] == [p[at]] + l + p[next..next + |Encode(rest)|];
    }
  }

  /** The walk succeeds exactly on the grammar: labels of 1 to 63 bytes and a zero byte. */
  lemma WalkIsGrammar(p: Packet, at: nat, end: nat)
    ensures Walk(p, at) == Some(end) <==>
            exists labels :: ValidLabels(labels) && end == at + |Encode(labels)| <= |p| && p[at..end] == Encode(labels)
  {
    if Walk(p, at) == Some(end) {
      var labels := WalkDecodes(p, at);
    }
    forall labels | ValidLabels(labels) && end == at + |Encode(labels)| <= |p| && p[at..end] == Encode(labels)
      ensures Walk(p, at) == Some(end)
    {
      WalkEncoded(labels, p, at);
    }
  }

  /** Only the bytes of the name itself decide the walk. */
  lemma {:induction false} WalkPrefix(p: Packet, q: Packet, at: nat)
    requires Walk(p, at).Some? && Walk(p, at).value <= |q|
    requires p[at..Walk(p, at).value] == q[at..Walk(p, at).value]
    ensures Walk(q, at) == Walk(p, at)
    decreases |p| - at
  {
    var end := Walk(p, at).value;
    assert p[at..end][0] == q[at..end][0];
    if p[at] != 0 {
      var next := at + 1 + p[at];
      assert p[next..end] == p[at..end][next - at..] == q[at..end][next - at..] == q[next..end];
      WalkPrefix(p, q, next);
    }
  }

  /** Different names have different encodings. */
  lemma {:induction false} EncodeInjective(a: seq<Label>, b: seq<Label>)
    requires ValidLabels(a) && ValidLabels(b) && Encode(a) == Encode(b)
    ensures a == b
  {
    assert Encode(a)[0] == Encode(b)[0];
    if a != [] && b != [] {
      var n := |a[0]|;
      assert n == |b[0]|;
      assert a[0] == Encode(a)[1..1 + n] == Encode(b)[1..1 + n] == b[0];
      assert Encode(a[1..]) == Encode(a)[1 + n..] == Encode(b)[1 + n..] == Encode(b[1..]);
      EncodeInjective(a[1..], b[1..]);
      assert a == [a[0]] + a[1..] && b == [b[0]] + b[1..];
    }
  }

  // ----- Letter case -----

  function LowerByte(b: byte): byte {
    if 65 <= b <= 90 then b + 32 else b
  }

  function Lower(p: seq<byte>): (q: seq<byte>)
    ensures |q| == |p| && forall i | 0 <= i < |p| :: q[i] == LowerByte(p[i])
  {
    seq(|p|, i requires 0 <= i < |p| => LowerByte(p[i]))
  }

  function LowerLabels(labels: seq<Label>): (l: seq<Label>)
    ensures |l| == |labels| && forall i | 0 <= i < |labels| :: l[i] == Lower(labels[i])
  {
    seq(|labels|, i requires 0 <= i < |labels| => Lower(labels[i]))
  }

  /** Length bytes are no letters, so lowering a name lowers its labels. */
  lemma {:induction false} LowerEncode(labels: seq<Label>)
    requires ValidLabels(labels)
    ensures ValidLabels(LowerLabels(labels))
    ensures Lower(Encode(labels)) == Encode(LowerLabels(labels))
  {
    if labels != [] {
      LowerEncode(labels[1..]);
      assert LowerLabels(labels)[1..] == LowerLabels(labels[1..]);
      var l, rest := labels[0], Encode(labels[1..]);
      assert Lower([|l| as byte] + l + rest) == [|l| as byte] + Lower(l) + Lower(rest);
    }
  }

  /** `bytes.EqualFold` against ASCII text whose letters have no folds outside ASCII. */
  predicate EqualFold(a: seq<byte>, b: seq<byte>) {
    Lower(a) == Lower(b)
  }
}
