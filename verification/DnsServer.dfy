// The DNS server's response to a query packet.
//
// Masks on the flag word are written on its two bytes: byte 2 holds QR (128), the opcode
// (8..64), AA (4), TC (2) and RD (1); the response code is the low part of byte 3.
module DnsServer {
  import opened Text
  import opened DnsMessage

  const TYPE_A := 1
  const CLASS_IN := 1

  /** `\x03app\x05local\x00` */
  const RECORD_NAME: Packet := [3, 97, 112, 112, 5, 108, 111, 99, 97, 108, 0]

  /** Pointer to offset 12, type A, class IN, TTL 60, four bytes: 127.0.0.1. */
  const ANSWER: Packet := [0xc0, 0x0c, 0, 1, 0, 1, 0, 0, 0, 60, 0, 4, 127, 0, 0, 1]

  function Rd(q: Packet): byte
    requires |q| >= HEADER
  {
    q[2] % 2
  }

  function Opcode(q: Packet): nat
    requires |q| >= HEADER
  {
    q[2] / 8 % 16
  }

  /** `errorResponse`: a bare header keeping the id, the opcode and RD. */
  function ErrorResponse(q: Packet, code: byte): (r: Packet)
    requires |q| >= HEADER
    ensures |r| == HEADER
  {
    [q[0], q[1], 128 + Opcode(q) * 8 + Rd(q), code] + seq(8, _ => 0)
  }

  /** The header of a response that carries the question. */
  function AnswerHeader(q: Packet, high: byte, code: byte, answers: byte): (r: Packet)
    requires |q| >= HEADER && high < 255
    ensures |r| == HEADER
  {
    [q[0], q[1], high + Rd(q), code, 0, 1, 0, answers, 0, 0, 0, 0]
  }

  /** Where the question ends: the name and four more bytes. */
  function QuestionEnd(q: Packet): (end: Option<nat>)
    ensures end.Some? ==> HEADER + 5 <= end.value <= |q|
  {
    var name := Walk(q, HEADER);
    if name.None? || name.value + 4 > |q| then None else Some(name.value + 4)
  }

  /** A standard query with one question: what the server tries to answer. */
  predicate Answerable(q: Packet) {
    |q| >= HEADER && q[2] < 128 && Opcode(q) == 0 && Word(q, 4) == 1
  }

  function Respond(q: Packet): Option<Packet> {
    if |q| < HEADER || q[2] >= 128 then None
    else if Opcode(q) != 0 then Some(ErrorResponse(q, 4))
    else if Word(q, 4) > 1 then Some(ErrorResponse(q, 1))
    else if Word(q, 4) == 0 then None
    else
      var end := QuestionEnd(q);
      if end.None? then Some(ErrorResponse(q, 1)) else Some(AnswerTo(q, end.value))
  }

  /** High flag byte before RD, response code, answer count and answer for a well-formed question. */
  function Decide(q: Packet, end: nat): (d: (byte, byte, byte, Packet))
    requires HEADER + 5 <= end <= |q|
    ensures d.0 < 255 && d.0 >= 128 && |d.3| <= |ANSWER|
  {
    if Word(q, end - 2) != CLASS_IN then (0x80, 4, 0, [])
    else if !EqualFold(q[HEADER..end - 4], RECORD_NAME) then (0x84, 3, 0, [])
    else if Word(q, end - 4) == TYPE_A then (0x84, 0, 1, ANSWER)
    else (0x84, 0, 0, [])
  }

  /** The response to a well-formed question: a header, the question, and perhaps an answer. */
  function AnswerTo(q: Packet, end: nat): Packet
    requires HEADER + 5 <= end <= |q|
  {
    var d := Decide(q, end);
    AnswerHeader(q, d.0, d.1, d.2) + q[HEADER..end] + d.3
  }

  // ----- The code's own form: a walk by position, and a response filled in place -----

  /** The label loop; None where it returns a format error. */
  method FindNameEnd(q: Packet) returns (position: Option<nat>)
    requires |q| >= HEADER
    ensures position == Walk(q, HEADER)
  {
    var at := HEADER;
    while true
      invariant HEADER <= at && Walk(q, HEADER) == Walk(q, at)
      decreases |q| - at
    {
      if at >= |q| {
        return None;
      }
      var length := q[at];
      if length == 0 {
        return Some(at + 1);
      }
      if length / 64 != 0 || at + 1 + length > |q| {
        return None;
      }
      at := at + 1 + length;
    }
  }

  /** `copy(response[at:], bytes)` */
  method Copy(response: array<byte>, at: nat, bytes: seq<byte>)
    requires at + |bytes| <= response.Length
    modifies response
    ensures response[..] == old(response[..at]) + bytes + old(response[at + |bytes|..])
  {
    forall i | 0 <= i < |bytes| {
      response[at + i] := bytes[i];
    }
  }

  method MakeResponse(q: Packet) returns (r: Option<Packet>)
    ensures r == Respond(q)
  {
    if |q| < HEADER || q[2] >= 128 {
      return None;
    }
    if q[2] / 8 % 16 != 0 {
      return Some(ErrorResponse(q, 4));
    }
    var questions := Word(q, 4);
    if questions > 1 {
      return Some(ErrorResponse(q, 1));
    }
    if questions == 0 {
      return None;
    }
    var position := FindNameEnd(q);
    if position.None? || position.value + 4 > |q| {
      return Some(ErrorResponse(q, 1));
    }
    var end := position.value + 4;
    var question := q[HEADER..end];
    var high: byte, code: byte, answers: byte := 0x84, 0, 0;
    var answer: Packet := [];
    if Word(q, position.value + 2) != CLASS_IN {
      high, code := 0x80, 4;
    } else if !EqualFold(q[HEADER..position.value], RECORD_NAME) {
      code := 3;
    } else if Word(q, position.value) == TYPE_A {
      answers, answer := 1, ANSWER;
    }
    var response := Fill(q, high, code, answers, question, answer);
    return Some(response);
  }

  /** The response buffer: header words, then the question, then the answer. */
  method Fill(q: Packet, high: byte, code: byte, answers: byte, question: Packet, answer: Packet)
    returns (r: Packet)
    requires |q| >= HEADER && high < 255
    ensures r == AnswerHeader(q, high, code, answers) + question + answer
  {
    var response := new byte[HEADER + |question| + |answer|](_ => 0);
    response[0], response[1] := q[0], q[1];
    response[2], response[3] := high + q[2] % 2, code;
    response[4], response[5] := 0, 1;
    response[6], response[7] := 0, answers;
    assert response[..HEADER] == AnswerHeader(q, high, code, answers);
    Copy(response, HEADER, question);
    assert response[..HEADER + |question|] == AnswerHeader(q, high, code, answers) + question;
    Copy(response, HEADER + |question|, answer);
    r := response[..];
  }

  // ----- Properties of every response -----

  /** A response carries a question exactly when the query is answerable and its question well formed. */
  lemma CarriesQuestion(q: Packet)
    ensures Respond(q).Some? && |Respond(q).value| > HEADER <==>
            && Answerable(q)
            && exists labels :: ValidLabels(labels) && HEADER + |Encode(labels)| + 4 <= |q|
                 && q[HEADER..HEADER + |Encode(labels)|] == Encode(labels)
  {
    if Answerable(q) {
      if Walk(q, HEADER).Some? {
        var labels := WalkDecodes(q, HEADER);
        assert ValidLabels(labels) && q[HEADER..HEADER + |Encode(labels)|] == Encode(labels);
      }
      forall labels | ValidLabels(labels) && HEADER + |Encode(labels)| + 4 <= |q|
          && q[HEADER..HEADER + |Encode(labels)|] == Encode(labels)
        ensures Walk(q, HEADER) == Some(HEADER + |Encode(labels)|)
      {
        WalkEncoded(labels, q, HEADER);
      }
    }
  }

  /** Every response keeps the id, is marked as a response, fits its bound and gets no response itself. */
  lemma {:induction false} ResponseShape(q: Packet)
    requires Respond(q).Some?
    ensures var r := Respond(q).value;
            && |r| >= HEADER && r[..2] == q[..2] && r[2] >= 128
            && |r| <= (if |q| > 43 then |q| else 43)
            && Respond(r) == None
  {
    if Answerable(q) && QuestionEnd(q).Some? {
      var end := QuestionEnd(q).value;
      var name := q[HEADER..end - 4];
      assert |Lower(name)| == |name|;
      assert EqualFold(name, RECORD_NAME) ==> |name| == |RECORD_NAME|;
    }
  }

  /** The question comes back byte for byte, and a walker skips its name to the same offset. */
  lemma QuestionEchoed(q: Packet)
    requires Answerable(q) && QuestionEnd(q).Some?
    ensures var r, end := Respond(q).value, QuestionEnd(q).value;
            && end <= |r| && r[HEADER..end] == q[HEADER..end]
            && Walk(r, HEADER) == Walk(q, HEADER) == Some(end - 4)
  {
    var end := QuestionEnd(q).value;
    var r := AnswerTo(q, end);
    var d := Decide(q, end);
    var header := AnswerHeader(q, d.0, d.1, d.2);
    Halves(header + q[HEADER..end], d.3);
    Halves(header, q[HEADER..end]);
    Slices(r, HEADER, end);
    SubTake(r, end, HEADER, end);
    Within(r, HEADER, end - 4, end);
    Within(q, HEADER, end - 4, end);
    WalkPrefix(q, r, HEADER);
  }

  /** Bytes behind the question change nothing. */
  lemma TrailingIgnored(q: Packet, more: Packet)
    requires Answerable(q) && QuestionEnd(q).Some?
    ensures Respond(q + more) == Respond(q)
  {
    var end, longer := QuestionEnd(q).value, q + more;
    assert longer[HEADER..end] == q[HEADER..end];
    Within(longer, HEADER, end - 4, end);
    Within(q, HEADER, end - 4, end);
    WalkPrefix(q, longer, HEADER);
    SameAnswer(q, longer, end);
  }

  lemma SameAnswer(q: Packet, p: Packet, end: nat)
    requires HEADER + 5 <= end <= |q| && end <= |p|
    requires p[HEADER..end] == q[HEADER..end] && p[HEADER..end - 4] == q[HEADER..end - 4]
    requires forall i | 0 <= i < end :: p[i] == q[i]
    ensures AnswerTo(p, end) == AnswerTo(q, end)
  {
    assert p[0] == q[0] && p[1] == q[1] && p[2] == q[2];
    assert Decide(p, end) == Decide(q, end);
  }
}
