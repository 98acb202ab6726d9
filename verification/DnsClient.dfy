// The DNS client's query encoder and answer parser, and a lookup through the server.
module DnsClient {
  import opened Text
  import opened DnsMessage
  import DnsServer

  const TYPE_A := 1
  const CLASS_IN := 1
  const DATAGRAM := 512

  // ----- Encoding a host name -----

  /** `host.rstrip(".")` */
  function StripDots(host: string): string {
    if host != "" && host[|host| - 1] == '.' then StripDots(host[..|host| - 1]) else host
  }

  /** `split(".")` */
  function SplitDots(s: string): (parts: seq<string>)
    ensures parts != []
    decreases |s|
  {
    var dot := IndexOf(s, '.');
    if dot.None? then [s] else [s[..dot.value]] + SplitDots(s[dot.value + 1..])
  }

  /** The labels of a host after stripping trailing dots. */
  function LabelsOf(host: string): seq<string> {
    SplitDots(StripDots(host))
  }

  predicate GoodLabel(l: string) {
    1 <= |l| <= 63 && forall i | 0 <= i < |l| :: l[i] as int < 128
  }

  /** `label.encode("ascii")` */
  function LabelBytes(l: string): (b: Label)
    requires GoodLabel(l)
    ensures |b| == |l|
  {
    seq(|l|, i requires 0 <= i < |l| => l[i] as int)
  }

  predicate GoodLabels(labels: seq<string>) {
    forall i | 0 <= i < |labels| :: GoodLabel(labels[i])
  }

  function AllBytes(labels: seq<string>): (b: seq<Label>)
    requires GoodLabels(labels)
    ensures ValidLabels(b)
  {
    seq(|labels|, i requires 0 <= i < |labels| => LabelBytes(labels[i]))
  }

  /** `_encode_dns_name`; None is a ValueError. */
  function EncodeName(host: string): Option<Packet> {
    if host == "" || !GoodLabels(LabelsOf(host)) then None else Some(Encode(AllBytes(LabelsOf(host))))
  }

  /** The label loop that grows the encoding. */
  method EncodeHost(host: string) returns (encoded: Option<Packet>)
    ensures encoded == EncodeName(host)
  {
    var labels := LabelsOf(host);
    if host == "" || exists i :: 0 <= i < |labels| && labels[i] == "" {
      return None;
    }
    var bytes: Packet := [];
    for i := 0 to |labels|
      invariant GoodLabels(labels[..i])
      invariant bytes + [0] == Encode(AllBytes(labels[..i]))
    {
      if (exists j :: 0 <= j < |labels[i]| && labels[i][j] as int >= 128) || |labels[i]| > 63 {
        assert !GoodLabel(labels[i]);
        return None;
      }
      assert labels[..i + 1] == labels[..i] + [labels[i]];
      EncodeSnoc(labels[..i], labels[i], bytes);
      bytes := bytes + [|labels[i]| as byte] + LabelBytes(labels[i]);
    }
    Whole(labels);
    return Some(bytes + [0]);
  }

  lemma EncodeSnoc(labels: seq<string>, l: string, bytes: Packet)
    requires GoodLabels(labels) && GoodLabel(l) && bytes + [0] == Encode(AllBytes(labels))
    ensures GoodLabels(labels + [l])
    ensures bytes + [|l| as byte] + LabelBytes(l) + [0] == Encode(AllBytes(labels + [l]))
  {
    assert AllBytes(labels + [l]) == AllBytes(labels) + [LabelBytes(l)];
    EncodeAppend(AllBytes(labels), LabelBytes(l), bytes);
  }

  lemma {:induction false} EncodeAppend(a: seq<Label>, l: Label, bytes: Packet)
    requires ValidLabels(a) && 1 <= |l| <= 63 && bytes + [0] == Encode(a)
    ensures bytes + [|l| as byte] + l + [0] == Encode(a + [l])
  {
    if a == [] {
      assert bytes == [];
      assert [l][1..] == [] && a + [l] == [l];
    } else {
      var n := 1 + |a[0]|;
      var head, rest := bytes[..n], bytes[n..];
      assert Encode(a)[n..] == Encode(a[1..]);
      assert (bytes + [0])[n..] == rest + [0];
      EncodeAppend(a[1..], l, rest);
      assert (a + [l])[1..] == a[1..] + [l];
      assert head == (bytes + [0])[..n] == [|a[0]| as byte] + a[0];
      assert bytes + [|l| as byte] + l + [0] == head + (rest + [|l| as byte] + l + [0]);
    }
  }

  /** `_build_dns_query`: RD set, one question of type A, class IN. */
  function BuildQuery(host: string, id: nat): Option<Packet>
    requires id < 0x1_0000
  {
    var name := EncodeName(host);
    if name.None? then None
    else Some(Bytes(id) + [1, 0, 0, 1, 0, 0, 0, 0, 0, 0] + name.value + [0, 1, 0, 1])
  }

  // ----- Parsing a response -----

  /** `_skip_dns_name`, which also steps over a pointer; None is a ValueError. */
  function SkipName(p: Packet, at: nat): (next: Option<nat>)
    ensures next.Some? ==> at < next.value <= |p|
    decreases |p| - at
  {
    if at >= |p| then None
    else if p[at] == 0 then Some(at + 1)
    else if p[at] >= 192 then if at + 2 > |p| then None else Some(at + 2)
    else if p[at] >= 64 then None
    else if at + 1 + p[at] > |p| then None
    else SkipName(p, at + 1 + p[at])
  }

  method SkipDnsName(p: Packet, start: nat) returns (next: Option<nat>)
    ensures next == SkipName(p, start)
  {
    var at := start;
    while true
      invariant SkipName(p, start) == SkipName(p, at)
      decreases |p| - at
    {
      if at >= |p| {
        return None;
      }
      var length := p[at];
      if length == 0 {
        return Some(at + 1);
      }
      if length / 64 == 3 {
        return if at + 2 > |p| then None else Some(at + 2);
      }
      if length / 64 != 0 {
        return None;
      }
      at := at + 1;
      if at + length > |p| {
        return None;
      }
      at := at + length;
    }
  }

  /** The first A record among the next answers; None is a ValueError. */
  function FindAddress(p: Packet, at: nat, answers: nat): (address: Option<Packet>)
    ensures address.Some? ==> |address.value| == 4
    decreases answers
  {
    if answers == 0 then None
    else
      var name := SkipName(p, at);
      if name.None? || name.value + 10 > |p| then None
      else
        var fixed := name.value;
        var data, length := fixed + 10, Word(p, fixed + 8);
        if data + length > |p| then None
        else if Word(p, fixed) == TYPE_A && Word(p, fixed + 2) == CLASS_IN && length == 4 then Some(p[data..data + 4])
        else FindAddress(p, data + length, answers - 1)
  }

  /** `_parse_dns_address`: the four address bytes, or None for a ValueError. */
  function ParseAddress(p: Packet, id: nat): Option<Packet> {
    if |p| < HEADER || Word(p, 0) != id || p[2] < 128 || p[3] % 16 != 0 || Word(p, 4) != 1 then None
    else
      var name := SkipName(p, HEADER);
      if name.None? || name.value + 4 > |p| then None else FindAddress(p, name.value + 4, Word(p, 6))
  }

  /** The answer loop. */
  method ReadAnswers(p: Packet, start: nat, answers: nat) returns (address: Option<Packet>)
    ensures address == FindAddress(p, start, answers)
  {
    var position: nat := start;
    for i := 0 to answers
      invariant FindAddress(p, start, answers) == FindAddress(p, position, answers - i)
    {
      var name := SkipDnsName(p, position);
      if name.None? || name.value + 10 > |p| {
        return None;
      }
      var data := name.value + 10;
      var length := Word(p, name.value + 8);
      if data + length > |p| {
        return None;
      }
      if Word(p, name.value) == TYPE_A && Word(p, name.value + 2) == CLASS_IN && length == 4 {
        return Some(p[data..data + 4]);
      }
      position := data + length;
    }
    return None;
  }

  method ParseDnsAddress(p: Packet, id: nat) returns (address: Option<Packet>)
    ensures address == ParseAddress(p, id)
  {
    if |p| < HEADER || Word(p, 0) != id || p[2] < 128 || p[3] % 16 != 0 || Word(p, 4) != 1 {
      return None;
    }
    var name := SkipDnsName(p, HEADER);
    if name.None? || name.value + 4 > |p| {
      return None;
    }
    address := ReadAnswers(p, name.value + 4, Word(p, 6));
  }

  /** A name without pointers is skipped to where the server's walk ends. */
  lemma {:induction false} SkipIsWalk(p: Packet, at: nat)
    requires Walk(p, at).Some?
    ensures SkipName(p, at) == Walk(p, at)
    decreases |p| - at
  {
    if p[at] != 0 {
      SkipIsWalk(p, at + 1 + p[at]);
    }
  }

  /** The client skips the echoed question to the offset at which the server found its end. */
  lemma ClientSkipsQuestion(q: Packet)
    requires DnsServer.Answerable(q) && DnsServer.QuestionEnd(q).Some?
    ensures var r, end := DnsServer.Respond(q).value, DnsServer.QuestionEnd(q).value;
            SkipName(r, HEADER) == Some(end - 4) && SkipName(q, HEADER) == Some(end - 4)
  {
    DnsServer.QuestionEchoed(q);
    SkipIsWalk(DnsServer.Respond(q).value, HEADER);
    SkipIsWalk(q, HEADER);
  }

  // ----- A lookup end to end -----

  /** What a receiver gets of a datagram. */
  function Received(p: Packet): Packet {
    if |p| <= DATAGRAM then p else p[..DATAGRAM]
  }

  /** `resolve` against this server; no response is a timeout. */
  function Resolve(host: string, id: nat): Option<Packet>
    requires id < 0x1_0000
  {
    var query := BuildQuery(host, id);
    if query.None? then None
    else
      var response := DnsServer.Respond(Received(query.value));
      if response.None? then None else ParseAddress(Received(response.value), id)
  }

  const LOCALHOST: Packet := [127, 0, 0, 1]

  /** The labels are app and local, whatever the case of their letters. */
  predicate IsAppLocal(labels: seq<string>)
    requires GoodLabels(labels)
  {
    LowerLabels(AllBytes(labels)) == APP_LOCAL
  }

  const APP_LOCAL: seq<Label> := [[97, 112, 112], [108, 111, 99, 97, 108]]

  lemma RecordNameIs()
    ensures ValidLabels(APP_LOCAL) && Encode(APP_LOCAL) == DnsServer.RECORD_NAME
    ensures Lower(DnsServer.RECORD_NAME) == DnsServer.RECORD_NAME
  {
    var app, local := APP_LOCAL[0], APP_LOCAL[1];
    var last: seq<Label> := [local];
    assert APP_LOCAL[1..] == last && last[1..] == [];
    assert Encode([]) == [0];
    assert Encode(last) == [5] + local + [0];
    assert Encode(APP_LOCAL) == [3] + app + ([5] + local + [0]);
  }

  /** The server's comparison of encoded names is a comparison of labels. */
  lemma FoldsToRecord(labels: seq<string>)
    requires GoodLabels(labels)
    ensures EqualFold(Encode(AllBytes(labels)), DnsServer.RECORD_NAME) <==> IsAppLocal(labels)
  {
    var l := AllBytes(labels);
    RecordNameIs();
    LowerEncode(l);
    if Encode(LowerLabels(l)) == Encode(APP_LOCAL) {
      EncodeInjective(LowerLabels(l), APP_LOCAL);
    }
  }

  /** The pieces of a query. */
  lemma QueryShape(host: string, id: nat)
    requires id < 0x1_0000 && EncodeName(host).Some?
    ensures var q, name := BuildQuery(host, id).value, EncodeName(host).value;
            && |q| == HEADER + |name| + 4 && Word(q, 0) == id
            && q[2] == 1 && q[3] == 0 && Word(q, 4) == 1
            && q[HEADER..HEADER + |name|] == name
            && q[HEADER + |name|..] == [0, 1, 0, 1]
            && Walk(q, HEADER) == Some(HEADER + |name|)
  {
    var q, name := BuildQuery(host, id).value, EncodeName(host).value;
    var head := Bytes(id) + [1, 0, 0, 1, 0, 0, 0, 0, 0, 0];
    assert |head| == HEADER && q == head + name + [0, 1, 0, 1];
    assert q[HEADER..HEADER + |name|] == name;
    assert q[HEADER + |name|..] == [0, 1, 0, 1];
    WalkEncoded(AllBytes(LabelsOf(host)), q, HEADER);
  }

  /** A query carries no records. */
  lemma QueryCounts(host: string, id: nat)
    requires id < 0x1_0000 && EncodeName(host).Some?
    ensures var q := BuildQuery(host, id).value; |q| >= HEADER && Word(q, 6) == Word(q, 8) == Word(q, 10) == 0
  {
  }

  /** A query cut off by the datagram limit gets a format error, which the client refuses. */
  lemma {:induction false} LongQueryFails(host: string, id: nat)
    requires id < 0x1_0000 && EncodeName(host).Some?
    requires |BuildQuery(host, id).value| > DATAGRAM
    ensures Resolve(host, id) == None
  {
    var q, name := BuildQuery(host, id).value, EncodeName(host).value;
    QueryShape(host, id);
    var cut := q[..DATAGRAM];
    assert Word(cut, 4) == 1 && cut[2] == 1;
    if Walk(cut, HEADER).Some? {
      var end := Walk(cut, HEADER).value;
      SubTake(q, DATAGRAM, HEADER, end);
      WalkPrefix(cut, q, HEADER);
    }
    assert DnsServer.QuestionEnd(cut).None?;
    assert DnsServer.Respond(cut) == Some(DnsServer.ErrorResponse(cut, 1));
    assert DnsServer.ErrorResponse(cut, 1)[3] == 1;
  }

  /** A query that arrives whole is answered on its name. */
  lemma ShortQueryAnswered(host: string, id: nat)
    requires id < 0x1_0000 && EncodeName(host).Some?
    requires |BuildQuery(host, id).value| <= DATAGRAM
    ensures var q, labels := BuildQuery(host, id).value, LabelsOf(host);
            && DnsServer.Respond(q) == Some(DnsServer.AnswerTo(q, |q|))
            && DnsServer.Decide(q, |q|) ==
               (if IsAppLocal(labels) then (0x84, 0, 1, DnsServer.ANSWER) else (0x84, 3, 0, []))
            && (IsAppLocal(labels) ==> |q| == 27)
  {
    var q, name := BuildQuery(host, id).value, EncodeName(host).value;
    QueryShape(host, id);
    QuestionWords(q, HEADER + |name|);
    FoldsToRecord(LabelsOf(host));
    if IsAppLocal(LabelsOf(host)) {
      AppLocalLength(host);
    }
  }

  lemma QuestionWords(q: Packet, at: nat)
    requires at + 4 == |q| && q[at..] == [0, 1, 0, 1]
    ensures Word(q, at) == 1 && Word(q, at + 2) == 1
  {
    var t := q[at..];
    assert q[at] == t[0] && q[at + 1] == t[1] && q[at + 2] == t[2] && q[at + 3] == t[3];
  }

  lemma AppLocalLength(host: string)
    requires EncodeName(host).Some? && IsAppLocal(LabelsOf(host))
    ensures |EncodeName(host).value| == 11
  {
    FoldsToRecord(LabelsOf(host));
    assert |Lower(EncodeName(host).value)| == |EncodeName(host).value|;
    assert |Lower(DnsServer.RECORD_NAME)| == 11;
  }

  /** The client reads the address out of the server's one answer record. */
  lemma AnswerRead(r: Packet, at: nat)
    requires at + 16 == |r| && r[at..] == DnsServer.ANSWER
    ensures FindAddress(r, at, 1) == Some(LOCALHOST)
  {
    var t := r[at..];
    assert r[at] == t[0] && r[at + 2] == t[2] && r[at + 3] == t[3] && r[at + 4] == t[4] && r[at + 5] == t[5];
    assert r[at + 10] == t[10] && r[at + 11] == t[11];
    assert SkipName(r, at) == Some(at + 2);
    assert r[at + 12..at + 16] == t[12..16] == LOCALHOST;
  }

  /** The header of the positive response passes the client's checks. */
  lemma HeaderAccepted(q: Packet, r: Packet)
    requires |q| >= HEADER && |r| > HEADER && q[2] == 1 && r[..HEADER] == DnsServer.AnswerHeader(q, 0x84, 0, 1)
    ensures Word(r, 0) == Word(q, 0) && r[2] >= 128 && r[3] == 0 && Word(r, 4) == 1 && Word(r, 6) == 1
  {
    var h := DnsServer.AnswerHeader(q, 0x84, 0, 1);
    assert forall i | 0 <= i < HEADER :: r[i] == r[..HEADER][i];
    assert r[0] == h[0] && r[1] == h[1] && r[2] == h[2] && r[3] == h[3];
    assert r[4] == h[4] && r[5] == h[5] && r[6] == h[6] && r[7] == h[7];
  }

  lemma NameEchoed(q: Packet, header: Packet, r: Packet)
    requires |q| == 27 && |header| == HEADER && r == header + q[HEADER..27] + DnsServer.ANSWER
    ensures r[HEADER..23] == q[HEADER..23]
  {
    Halves(header + q[HEADER..27], DnsServer.ANSWER);
    Halves(header, q[HEADER..27]);
    SubTake(r, 27, HEADER, 27);
    Within(r, HEADER, 23, 27);
    Within(q, HEADER, 23, 27);
  }

  /** The one positive response gives the client its address. */
  lemma ParsesAnswer(q: Packet, header: Packet, r: Packet, id: nat)
    requires |q| == 27 && Walk(q, HEADER) == Some(23) && Word(q, 0) == id && q[2] == 1
    requires header == DnsServer.AnswerHeader(q, 0x84, 0, 1)
    requires r == header + q[HEADER..27] + DnsServer.ANSWER
    ensures ParseAddress(r, id) == Some(LOCALHOST)
  {
    var question := q[HEADER..27];
    Halves(header + question, DnsServer.ANSWER);
    Assoc(header, question, DnsServer.ANSWER);
    Halves(header, question + DnsServer.ANSWER);
    HeaderAccepted(q, r);
    NameEchoed(q, header, r);
    WalkPrefix(q, r, HEADER);
    SkipIsWalk(r, HEADER);
    AnswerRead(r, 27);
  }

  /**
   * For every host the encoder accepts and every 16-bit id, a lookup yields 127.0.0.1 exactly
   * when the labels, trailing dots stripped, are app and local in any case, and fails otherwise.
   */
  lemma {:induction false} LookupIsAppLocal(host: string, id: nat)
    requires id < 0x1_0000 && EncodeName(host).Some?
    ensures Resolve(host, id) == if IsAppLocal(LabelsOf(host)) then Some(LOCALHOST) else None
  {
    var q := BuildQuery(host, id).value;
    QueryShape(host, id);
    if |q| > DATAGRAM {
      LongQueryFails(host, id);
      if IsAppLocal(LabelsOf(host)) {
        AppLocalLength(host);
      }
    } else {
      ShortQueryAnswered(host, id);
      if IsAppLocal(LabelsOf(host)) {
        ParsesAnswer(q, DnsServer.AnswerHeader(q, 0x84, 0, 1), DnsServer.AnswerTo(q, |q|), id);
      } else {
        RefusesNegative(q, DnsServer.AnswerTo(q, |q|), id);
      }
    }
  }

  lemma RefusesNegative(q: Packet, r: Packet, id: nat)
    requires HEADER + 5 <= |q| <= DATAGRAM
    requires r == DnsServer.AnswerHeader(q, 0x84, 3, 0) + q[HEADER..] + []
    ensures |r| <= DATAGRAM && ParseAddress(r, id) == None
  {
    assert r[3] == DnsServer.AnswerHeader(q, 0x84, 3, 0)[3] == 3;
  }
}
