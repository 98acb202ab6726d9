// Which packets carry which address (section 4.1 of RFC 1035).
module DnsRecords {
  import opened Text
  import opened DnsMessage
  import opened DnsClient

  // ----- Names in a packet -----

  /** Labels of 1 to 63 bytes, without the closing zero. */
  function Prefix(labels: seq<Label>): Packet
    requires ValidLabels(labels)
  {
    if labels == [] then [] else [|labels[0]| as byte] + labels[0] + Prefix(labels[1..])
  }

  /** A name at an offset: labels closed by a zero byte, or by a two-byte pointer. */
  ghost predicate NameAt(p: Packet, at: nat, next: nat, labels: seq<Label>) {
    && ValidLabels(labels) && at + |Prefix(labels)| < |p|
    && p[at..at + |Prefix(labels)|] == Prefix(labels)
    && var end := at + |Prefix(labels)|;
       (p[end] == 0 && next == end + 1) || (p[end] >= 192 && next == end + 2 <= |p|)
  }

  lemma LabelFirst(p: Packet, at: nat, word: Label, labels: seq<Label>)
    requires ValidLabels([word] + labels)
    requires at + |Prefix([word] + labels)| <= |p|
    ensures p[at..at + |Prefix([word] + labels)|] == Prefix([word] + labels) <==>
            var next := at + 1 + |word|;
            p[at] == |word| && p[at + 1..next] == word && p[next..next + |Prefix(labels)|] == Prefix(labels)
  {
    var all := [word] + labels;
    assert all[1..] == labels;
    var n, next := |Prefix(labels)|, at + 1 + |word|;
    var slice := p[at..next + n];
    assert slice == [p[at]] + p[at + 1..next] + p[next..next + n];
    if slice == Prefix(all) {
      assert slice[0] == p[at];
      Halves([p[at]] + p[at + 1..next], p[next..next + n]);
      Halves([|word| as byte] + word, Prefix(labels));
      Halves([p[at]], p[at + 1..next]);
      Halves([|word| as byte], word);
    }
  }

  lemma {:induction false} SkipFinds(p: Packet, at: nat, next: nat, labels: seq<Label>)
    requires NameAt(p, at, next, labels)
    ensures SkipName(p, at) == Some(next)
    decreases |labels|
  {
    if labels != [] {
      var word, rest := labels[0], labels[1..];
      assert [word] + rest == labels;
      LabelFirst(p, at, word, rest);
      SkipFinds(p, at + 1 + |word|, next, rest);
    }
  }

  lemma {:induction false} SkipDecodes(p: Packet, at: nat) returns (labels: seq<Label>)
    requires SkipName(p, at).Some?
    ensures NameAt(p, at, SkipName(p, at).value, labels)
    decreases |p| - at
  {
    if p[at] == 0 || p[at] >= 192 {
      labels := [];
      assert p[at..at] == [];
    } else {
      var word := p[at + 1..at + 1 + p[at]];
      var rest := SkipDecodes(p, at + 1 + p[at]);
      labels := [word] + rest;
      assert ValidLabels(labels);
      assert labels[1..] == rest;
      LabelFirst(p, at, word, rest);
    }
  }

  /** The client skips exactly the names of the grammar. */
  lemma SkipIsGrammar(p: Packet, at: nat, next: nat)
    ensures SkipName(p, at) == Some(next) <==> exists labels :: NameAt(p, at, next, labels)
  {
    if SkipName(p, at) == Some(next) {
      var labels := SkipDecodes(p, at);
    }
    forall labels | NameAt(p, at, next, labels)
      ensures SkipName(p, at) == Some(next)
    {
      SkipFinds(p, at, next, labels);
    }
  }

  // ----- Answer records -----

  /** A record from an offset to another: a name, ten bytes of fields, and as many of data as they say. */
  ghost predicate RecordAt(p: Packet, at: nat, name: nat, next: nat) {
    && (exists labels :: NameAt(p, at, name, labels))
    && name + 10 <= |p| && next == name + 10 + Word(p, name + 8) <= |p|
  }

  /** Its fields say type A, class IN and four bytes. */
  predicate IsAddress(p: Packet, name: nat) {
    name + 10 <= |p| && Word(p, name) == 1 && Word(p, name + 2) == 1 && Word(p, name + 8) == 4
  }

  /**
   * The offsets and names of consecutive records from `at`, of which only the last is an address, given
   * by its data.
   */
  ghost predicate FirstAddress(p: Packet, ats: seq<nat>, names: seq<nat>, address: Packet) {
    && |ats| == |names| + 1 && names != []
    && (forall i | 0 <= i < |names| :: RecordAt(p, ats[i], names[i], ats[i + 1]))
    && (forall i | 0 <= i < |names| - 1 :: !IsAddress(p, names[i]))
    && IsAddress(p, names[|names| - 1]) && names[|names| - 1] + 10 <= ats[|names|] <= |p|
    && address == p[names[|names| - 1] + 10..ats[|names|]]
  }

  /** One record of the loop. */
  lemma FindStep(p: Packet, at: nat, name: nat, next: nat, answers: nat)
    requires RecordAt(p, at, name, next) && answers > 0
    ensures FindAddress(p, at, answers) ==
            if IsAddress(p, name) then Some(p[name + 10..next]) else FindAddress(p, next, answers - 1)
  {
    SkipIsGrammar(p, at, name);
  }

  lemma {:induction false} AddressFound(p: Packet, answers: nat, ats: seq<nat>, names: seq<nat>, address: Packet)
    requires FirstAddress(p, ats, names, address) && |names| <= answers
    ensures FindAddress(p, ats[0], answers) == Some(address)
    decreases answers
  {
    assert RecordAt(p, ats[0], names[0], ats[1]);
    FindStep(p, ats[0], names[0], ats[1], answers);
    if |names| > 1 {
      assert !IsAddress(p, names[0]);
      LaterRecords(p, ats, names, address);
      AddressFound(p, answers - 1, ats[1..], names[1..], address);
    }
  }

  lemma LaterRecords(p: Packet, ats: seq<nat>, names: seq<nat>, address: Packet)
    requires FirstAddress(p, ats, names, address) && |names| > 1
    ensures FirstAddress(p, ats[1..], names[1..], address)
  {
    forall i | 0 <= i < |names| - 1
      ensures RecordAt(p, ats[1..][i], names[1..][i], ats[1..][i + 1])
      ensures i < |names| - 2 ==> !IsAddress(p, names[1..][i])
    {
      assert RecordAt(p, ats[i + 1], names[i + 1], ats[i + 2]);
    }
  }

  lemma EarlierRecord(p: Packet, at: nat, name: nat, ats: seq<nat>, names: seq<nat>, address: Packet)
    requires FirstAddress(p, ats, names, address) && RecordAt(p, at, name, ats[0]) && !IsAddress(p, name)
    ensures FirstAddress(p, [at] + ats, [name] + names, address)
  {
    forall i | 0 <= i < |names| + 1
      ensures RecordAt(p, ([at] + ats)[i], ([name] + names)[i], ([at] + ats)[i + 1])
    {
      if i > 0 {
        assert RecordAt(p, ats[i - 1], names[i - 1], ats[i]);
      }
    }
  }

  lemma FirstRecord(p: Packet, at: nat, answers: nat, name: nat, next: nat)
    requires FindAddress(p, at, answers).Some? && SkipName(p, at) == Some(name)
    requires name + 10 <= |p| && next == name + 10 + Word(p, name + 8)
    ensures RecordAt(p, at, name, next)
  {
    SkipIsGrammar(p, at, name);
  }

  lemma {:induction false} AddressParts(p: Packet, at: nat, answers: nat) returns (ats: seq<nat>, names: seq<nat>)
    requires FindAddress(p, at, answers).Some?
    ensures FirstAddress(p, ats, names, FindAddress(p, at, answers).value) && ats[0] == at && |names| <= answers
    decreases answers
  {
    var name := SkipName(p, at).value;
    var next := name + 10 + Word(p, name + 8);
    FirstRecord(p, at, answers, name, next);
    FindStep(p, at, name, next, answers);
    if IsAddress(p, name) {
      ats, names := [at, next], [name];
    } else {
      ats, names := AddressParts(p, next, answers - 1);
      EarlierRecord(p, at, name, ats, names, FindAddress(p, next, answers - 1).value);
      ats, names := [at] + ats, [name] + names;
    }
  }

  /** The header of a successful response to the query with this id, with one question. */
  predicate Acceptable(p: Packet, id: nat) {
    |p| >= HEADER && Word(p, 0) == id && p[2] >= 128 && p[3] % 16 == 0 && Word(p, 4) == 1
  }

  /**
   * An address is taken exactly from a successful response with the id and one question, and from
   * the first of its answer records that is of type A, class IN and four bytes, all before it well formed.
   */
  lemma AddressIs(p: Packet, id: nat, address: Packet)
    ensures ParseAddress(p, id) == Some(address) <==>
            && Acceptable(p, id)
            && exists question: nat, labels, ats, names ::
                 && NameAt(p, HEADER, question, labels) && question + 4 <= |p|
                 && FirstAddress(p, ats, names, address) && ats[0] == question + 4 && |names| <= Word(p, 6)
  {
    if ParseAddress(p, id) == Some(address) {
      var question := SkipName(p, HEADER).value;
      var labels := SkipDecodes(p, HEADER);
      var ats, names := AddressParts(p, question + 4, Word(p, 6));
      assert NameAt(p, HEADER, question, labels) && FirstAddress(p, ats, names, address);
    }
    forall question: nat, labels, ats, names |
        && Acceptable(p, id)
        && NameAt(p, HEADER, question, labels) && question + 4 <= |p|
        && FirstAddress(p, ats, names, address) && ats[0] == question + 4 && |names| <= Word(p, 6)
      ensures ParseAddress(p, id) == Some(address)
    {
      SkipFinds(p, HEADER, question, labels);
      AddressFound(p, Word(p, 6), ats, names, address);
    }
  }
}
