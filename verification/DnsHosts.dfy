// Which hosts become which names (sections 2.3.4 and 3.1 of RFC 1035).
module DnsHosts {
  import opened Text
  import opened DnsMessage
  import opened DnsClient

  /** Labels with dots between them. */
  function JoinDots(labels: seq<string>): string {
    if labels == [] then "" else if |labels| == 1 then labels[0] else labels[0] + "." + JoinDots(labels[1..])
  }

  function Dots(n: nat): string {
    seq(n, _ => '.')
  }

  lemma {:induction false} SplitDotsIs(s: string)
    ensures JoinDots(SplitDots(s)) == s
    ensures forall i | 0 <= i < |SplitDots(s)| :: '.' !in SplitDots(s)[i]
    decreases |s|
  {
    var dot := IndexOf(s, '.');
    if dot.Some? {
      var tail := s[dot.value + 1..];
      SplitDotsIs(tail);
      assert SplitDots(s)[1..] == SplitDots(tail);
      assert s == s[..dot.value] + "." + tail;
    }
  }

  lemma {:induction false} StripDotsIs(host: string) returns (n: nat)
    ensures host == StripDots(host) + Dots(n)
    ensures StripDots(host) == "" || StripDots(host)[|StripDots(host)| - 1] != '.'
  {
    n := 0;
    if host != "" && host[|host| - 1] == '.' {
      var k := StripDotsIs(host[..|host| - 1]);
      n := k + 1;
      assert Dots(n) == Dots(k) + ".";
      Assoc(StripDots(host), Dots(k), ".");
      Rejoin(host, |host| - 1);
    } else {
      assert host + Dots(0) == host;
    }
  }

  /** The labels of a host: the text between its dots, dots at the end aside. */
  lemma LabelsAre(host: string) returns (n: nat)
    ensures var labels := LabelsOf(host);
            && host == JoinDots(labels) + Dots(n)
            && (forall i | 0 <= i < |labels| :: '.' !in labels[i])
            && (JoinDots(labels) == "" || JoinDots(labels)[|JoinDots(labels)| - 1] != '.')
  {
    n := StripDotsIs(host);
    SplitDotsIs(StripDots(host));
  }

  /** Labels without dots, put together with dots, are split into the same labels. */
  lemma {:induction false} SplitJoined(labels: seq<string>)
    requires labels != [] && forall i | 0 <= i < |labels| :: '.' !in labels[i]
    ensures SplitDots(JoinDots(labels)) == labels
  {
    if |labels| > 1 {
      SplitJoined(labels[1..]);
      SplitsAt(labels[0], '.', JoinDots(labels[1..]));
      Rejoin(labels, 1);
      assert labels[..1] == [labels[0]];
    } else {
      assert labels == [labels[0]];
    }
  }

  lemma {:induction false} StripJoined(s: string, n: nat)
    requires s == "" || s[|s| - 1] != '.'
    ensures StripDots(s + Dots(n)) == s
  {
    if n > 0 {
      StripJoined(s, n - 1);
      assert Dots(n) == Dots(n - 1) + ".";
      Assoc(s, Dots(n - 1), ".");
      Halves(s + Dots(n - 1), ".");
    } else {
      assert s + Dots(0) == s;
    }
  }

  lemma {:induction false} JoinedLast(labels: seq<string>)
    requires labels != [] && forall i | 0 <= i < |labels| :: '.' !in labels[i] && labels[i] != ""
    ensures JoinDots(labels) != "" && JoinDots(labels)[|JoinDots(labels)| - 1] != '.'
  {
    if |labels| > 1 {
      JoinedLast(labels[1..]);
    } else {
      var l := labels[0];
      assert l[|l| - 1] in l;
    }
  }

  /** A host is encoded exactly when it is labels of 1 to 63 ASCII characters with dots between, and perhaps behind. */
  lemma EncodeNameIs(host: string, name: Packet)
    ensures EncodeName(host) == Some(name) <==>
            exists labels, n: nat :: labels != [] && GoodLabels(labels) && (forall i | 0 <= i < |labels| :: '.' !in labels[i])
                                && host == JoinDots(labels) + Dots(n) && name == Encode(AllBytes(labels))
  {
    if EncodeName(host) == Some(name) {
      var n := LabelsAre(host);
      assert LabelsOf(host) != [];
    }
    forall labels, n: nat |
        && labels != [] && GoodLabels(labels) && (forall i | 0 <= i < |labels| :: '.' !in labels[i])
        && host == JoinDots(labels) + Dots(n)
      ensures EncodeName(host) == Some(Encode(AllBytes(labels)))
    {
      JoinedLast(labels);
      StripJoined(JoinDots(labels), n);
      SplitJoined(labels);
    }
  }
}
