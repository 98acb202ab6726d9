// The server's response to every packet, from the packet's words and labels alone
// (sections 4.1.1 and 4.1.2 of RFC 1035).
module DnsAnswers {
  import opened Text
  import opened DnsMessage
  import DnsServer
  import DnsClient

  /** Byte 2 of a query: QR clear, so the opcode, then flags, then RD. */
  predicate IsQuery(q: Packet) {
    |q| >= HEADER && q[2] < 128
  }

  /** The question is this name and four more bytes. */
  predicate Asks(q: Packet, labels: seq<Label>) {
    && ValidLabels(labels) && HEADER + |Encode(labels)| + 4 <= |q|
    && q[HEADER..HEADER + |Encode(labels)|] == Encode(labels)
  }

  function NameEnd(labels: seq<Label>): nat
    requires ValidLabels(labels)
  {
    HEADER + |Encode(labels)|
  }

  /** The labels are app and local, whatever the case of their ASCII letters. */
  predicate NamesApp(labels: seq<Label>) {
    LowerLabels(labels) == [[97, 112, 112], [108, 111, 99, 97, 108]]
  }

  lemma FoldsToApp(labels: seq<Label>)
    requires ValidLabels(labels)
    ensures EqualFold(Encode(labels), DnsServer.RECORD_NAME) <==> NamesApp(labels)
  {
    DnsClient.RecordNameIs();
    LowerEncode(labels);
    if Encode(LowerLabels(labels)) == Encode(DnsClient.APP_LOCAL) {
      EncodeInjective(LowerLabels(labels), DnsClient.APP_LOCAL);
    }
  }

  lemma AskedWalk(q: Packet, labels: seq<Label>)
    requires |q| >= HEADER && Asks(q, labels)
    ensures DnsServer.QuestionEnd(q) == Some(NameEnd(labels) + 4)
  {
    WalkEncoded(labels, q, HEADER);
  }

  /** The bytes of a response by position. */
  lemma ResponseBytes(q: Packet, end: nat)
    requires |q| >= HEADER && HEADER + 5 <= end <= |q|
    ensures var r, d := DnsServer.AnswerTo(q, end), DnsServer.Decide(q, end);
            && |r| == end + |d.3| && r[0] == q[0] && r[1] == q[1] && r[2] == d.0 + q[2] % 2 && r[3] == d.1
            && Word(r, 4) == 1 && Word(r, 6) == d.2 && Word(r, 8) == 0 && Word(r, 10) == 0
            && r[HEADER..end] == q[HEADER..end] && r[end..] == d.3
  {
    var r, d := DnsServer.AnswerTo(q, end), DnsServer.Decide(q, end);
    var header := DnsServer.AnswerHeader(q, d.0, d.1, d.2);
    Halves(header + q[HEADER..end], d.3);
    Halves(header, q[HEADER..end]);
    Slices(r, HEADER, end);
    assert forall i | 0 <= i < HEADER :: r[i] == header[i];
    SubTake(r, end, HEADER, end);
  }

  /**
   * A standard query with one well-formed question: NOTIMP without AA for a class other than IN,
   * NXDOMAIN for another name, and otherwise no error, with the one address record exactly for type A.
   */
  lemma QuestionAnswered(q: Packet, labels: seq<Label>)
    requires IsQuery(q) && q[2] / 8 == 0 && Word(q, 4) == 1 && Asks(q, labels)
    ensures DnsServer.Respond(q).Some?
    ensures var r, end := DnsServer.Respond(q).value, NameEnd(labels) + 4;
            && |r| >= end && r[..2] == q[..2] && r[HEADER..end] == q[HEADER..end]
            && Word(r, 4) == 1 && Word(r, 8) == 0 && Word(r, 10) == 0
            && (if Word(q, end - 2) != 1 then r[2] == 0x80 + q[2] % 2 && r[3] == 4 && Word(r, 6) == 0 && |r| == end
                else if !NamesApp(labels) then r[2] == 0x84 + q[2] % 2 && r[3] == 3 && Word(r, 6) == 0 && |r| == end
                else if Word(q, end - 4) != 1 then r[2] == 0x84 + q[2] % 2 && r[3] == 0 && Word(r, 6) == 0 && |r| == end
                else r[2] == 0x84 + q[2] % 2 && r[3] == 0 && Word(r, 6) == 1
                     && r[end..] == [0xc0, 0x0c, 0, 1, 0, 1, 0, 0, 0, 60, 0, 4, 127, 0, 0, 1])
  {
    AskedWalk(q, labels);
    FoldsToApp(labels);
    ResponseBytes(q, NameEnd(labels) + 4);
    assert DnsServer.Respond(q).value[..2] == q[..2];
  }

  /** Twelve bytes: the id, QR with the query's opcode and RD, the code, and no sections. */
  predicate BareError(q: Packet, r: Packet, code: byte)
    requires |q| >= HEADER
  {
    && |r| == HEADER && r[..2] == q[..2] && r[3] == code
    && r[2] == 128 + q[2] / 8 % 16 * 8 + q[2] % 2
    && forall i | 4 <= i < HEADER :: r[i] == 0
  }

  /** The question section does not hold a name in the grammar and four more bytes. */
  ghost predicate Malformed(q: Packet) {
    forall labels :: !Asks(q, labels)
  }

  /**
   * Everything else: NOTIMP for another opcode, FORMERR for more than one question or a malformed
   * one, and silence exactly for short packets, responses and queries without a question.
   */
  lemma OthersAnswered(q: Packet)
    ensures IsQuery(q) && q[2] / 8 != 0 ==> DnsServer.Respond(q).Some? && BareError(q, DnsServer.Respond(q).value, 4)
    ensures IsQuery(q) && q[2] / 8 == 0 && (Word(q, 4) > 1 || (Word(q, 4) == 1 && Malformed(q))) ==>
              DnsServer.Respond(q).Some? && BareError(q, DnsServer.Respond(q).value, 1)
    ensures DnsServer.Respond(q).None? <==> !IsQuery(q) || (q[2] / 8 == 0 && Word(q, 4) == 0)
  {
    if IsQuery(q) && q[2] / 8 == 0 && Word(q, 4) == 1 && Malformed(q) {
      if Walk(q, HEADER).Some? {
        var labels := WalkDecodes(q, HEADER);
        assert !Asks(q, labels);
      }
    }
  }
}
