// Which bytes are which request (sections 3 and 5 of RFC 9112, as the server takes them).
module HttpRequestGrammar {
  import opened Text
  import opened HttpRequest

  // ----- The request line -----

  lemma FindSpace(s: string)
    ensures Find(s, " ") == IndexOf(s, ' ')
  {
    if IndexOf(s, ' ').Some? {
      var i := IndexOf(s, ' ').value;
      forall j: nat | j < i
        ensures !At(s, " ", j)
      {
        assert s[j..j + 1][0] == s[j];
      }
      assert s[i..i + 1] == " ";
      FindIs(s, " ", i);
    } else if Find(s, " ").Some? {
      SpaceAt(s, Find(s, " ").value);
    }
  }

  lemma SpaceAt(s: string, i: nat)
    requires At(s, " ", i)
    ensures i < |s| && s[i] == ' ' && ' ' in s
  {
    assert s[i..i + 1][0] == s[i];
  }

  /** A word up to the first space, and the parts of the rest. */
  lemma SplitWord(word: string, rest: string)
    requires ' ' !in word
    ensures SplitOn(word + " " + rest, " ") == [word] + SplitOn(rest, " ")
  {
    SplitsAt(word, ' ', rest);
    FindSpace(word + " " + rest);
  }

  lemma SplitOne(word: string)
    requires ' ' !in word
    ensures SplitOn(word, " ") == [word]
  {
    FindSpace(word);
  }

  lemma {:induction false} PartsPlain(s: string)
    ensures forall p | p in SplitOn(s, " ") :: ' ' !in p
    decreases |s|
  {
    FindSpace(s);
    var i := IndexOf(s, ' ');
    if i.Some? {
      PartsPlain(s[i.value + 1..]);
    }
  }

  lemma Joins(a: string, b: string, c: string)
    ensures Join([a, b, c], " ") == a + " " + (b + " " + c)
  {
    assert [a, b, c][1..] == [b, c] && [b, c][1..] == [c];
    assert Join([c], " ") == c && Join([b, c], " ") == b + " " + c;
  }

  /** The server's demands on a request line's three words. */
  predicate GoodWords(verb: string, target: string, version: string) {
    && IsToken(verb) && version in SUPPORTED_VERSIONS
    && target != "" && target[0] == '/' && (forall i | 0 <= i < |target| :: 32 < target[i] as int < 127)
  }

  lemma WordsPlain(verb: string, target: string, version: string)
    requires GoodWords(verb, target, version)
    ensures ' ' !in verb && ' ' !in target && ' ' !in version
    ensures Ascii(verb + " " + (target + " " + version))
  {
    assert forall c | c in TOKEN_SYMBOLS :: 32 < c as int < 127;
    assert forall i | 0 <= i < |verb| :: verb[i] in verb;
    VersionPlain(version);
  }

  lemma VersionPlain(version: string)
    requires version in SUPPORTED_VERSIONS
    ensures ' ' !in version && Ascii(version)
  {
  }

  /** A request line is accepted exactly when it is a method token, a target and a version, one space apart. */
  lemma RequestLineIs(line: string, verb: string, target: string, version: string)
    ensures ParseRequestLine(line) == Some((verb, target, version)) <==>
            GoodWords(verb, target, version) && line == verb + " " + (target + " " + version)
  {
    if ParseRequestLine(line) == Some((verb, target, version)) {
      var parts := SplitOn(line, " ");
      assert parts == [verb, target, version];
      JoinSplit(line, " ");
      Joins(verb, target, version);
      PartsPlain(line);
      TargetChars(line, verb, target, version);
    }
    if GoodWords(verb, target, version) && line == verb + " " + (target + " " + version) {
      WordsPlain(verb, target, version);
      SplitWord(verb, target + " " + version);
      SplitWord(target, version);
      SplitOne(version);
      assert [verb] + ([target] + [version]) == [verb, target, version];
      assert forall i | 0 <= i < |line| :: line[i] as int < 128;
    }
  }

  lemma TargetChars(line: string, verb: string, target: string, version: string)
    requires line == verb + " " + (target + " " + version) && ' ' !in target
    requires !(exists c | c in line :: c as int >= 128) && !(exists c | c in target :: Control(c))
    ensures forall i | 0 <= i < |target| :: 32 < target[i] as int < 127
  {
    forall i | 0 <= i < |target|
      ensures 32 < target[i] as int < 127
    {
      assert target[i] in target;
      assert line[|verb| + 1 + i] == target[i];
      assert target[i] in line;
    }
  }

  // ----- Header fields -----

  /** A stripped value is the text without the spaces and tabs at either end. */
  lemma {:induction false} StripIs(v: string) returns (i: nat, j: nat)
    ensures i <= j <= |v| && Strip(v) == v[i..j]
    ensures forall k | 0 <= k < i || j <= k < |v| :: v[k] in " \t"
    ensures i < j ==> v[i] !in " \t" && v[j - 1] !in " \t"
    decreases |v|
  {
    if v != "" && v[0] in " \t" {
      i, j := StripIs(v[1..]);
      assert v[1..][i..j] == v[i + 1..j + 1];
      assert forall k | 1 <= k < |v| :: v[k] == v[1..][k - 1];
      i, j := i + 1, j + 1;
    } else if v != "" && v[|v| - 1] in " \t" {
      i, j := StripIs(v[..|v| - 1]);
      SubTake(v, |v| - 1, i, j);
    } else {
      i, j := 0, |v|;
      assert v[0..|v|] == v;
    }
  }

  /** The text after a line's first colon. */
  function TextOf(line: string): string
    requires IndexOf(line, ':').Some?
  {
    line[IndexOf(line, ':').value + 1..]
  }

  /** A field line on its own: a name that folds to a token, a colon, and no controls but tab after it. */
  predicate GoodLine(line: string) {
    && IndexOf(line, ':').Some? && IsToken(Fold(NameOf(line)))
    && forall c | c in TextOf(line) :: 32 <= c as int != 127 || c == '\t'
  }

  lemma AddIs(headers: Headers, line: string)
    ensures AddHeader(headers, line).Some? <==> GoodLine(line) && Fold(NameOf(line)) !in headers
    ensures AddHeader(headers, line).Some? ==>
              AddHeader(headers, line).value == headers[Fold(NameOf(line)) := Strip(TextOf(line))]
  {
  }

  /** All lines are good, and no two names fold alike. */
  ghost predicate GoodLines(lines: seq<string>) {
    && (forall i | 0 <= i < |lines| :: GoodLine(lines[i]))
    && forall i, j | 0 <= i < j < |lines| :: Fold(NameOf(lines[i])) != Fold(NameOf(lines[j]))
  }

  /** The mapping holds, for each line, its folded name with its stripped text, and nothing else. */
  ghost predicate MapOf(headers: Headers, lines: seq<string>) {
    && (forall i | 0 <= i < |lines| && GoodLine(lines[i]) ::
          Fold(NameOf(lines[i])) in headers && headers[Fold(NameOf(lines[i]))] == Strip(TextOf(lines[i])))
    && forall k | k in headers :: exists i :: 0 <= i < |lines| && Fold(NameOf(lines[i])) == k
  }

  /** A header block is accepted exactly when its lines are good and name each field once, and is then their mapping. */
  lemma {:induction false} HeadersAre(lines: seq<string>)
    ensures HeadersOf(lines).Some? <==> GoodLines(lines)
    ensures HeadersOf(lines).Some? ==> MapOf(HeadersOf(lines).value, lines)
  {
    if lines != [] {
      var n := |lines| - 1;
      HeadersAre(lines[..n]);
      if HeadersOf(lines[..n]).Some? {
        HeadersStep(lines, n, HeadersOf(lines[..n]).value);
      } else if GoodLines(lines) {
        GoodPrefix(lines, n);
      }
    }
  }

  lemma GoodPrefix(lines: seq<string>, n: nat)
    requires n <= |lines| && GoodLines(lines)
    ensures GoodLines(lines[..n])
  {
    assert forall i | 0 <= i < n :: lines[..n][i] == lines[i];
  }

  lemma HeadersStep(lines: seq<string>, n: nat, headers: Headers)
    requires n + 1 == |lines| && GoodLines(lines[..n]) && MapOf(headers, lines[..n])
    ensures AddHeader(headers, lines[n]).Some? <==> GoodLines(lines)
    ensures AddHeader(headers, lines[n]).Some? ==> MapOf(AddHeader(headers, lines[n]).value, lines)
  {
    AddIs(headers, lines[n]);
    var name := Fold(NameOf(lines[n]));
    if name in headers {
      NameTaken(lines, n, headers);
    } else if GoodLine(lines[n]) {
      NewName(lines, n, headers);
    }
  }

  lemma NameTaken(lines: seq<string>, n: nat, headers: Headers)
    requires n + 1 == |lines| && MapOf(headers, lines[..n]) && Fold(NameOf(lines[n])) in headers
    ensures !GoodLines(lines)
  {
    var i :| 0 <= i < n && Fold(NameOf(lines[..n][i])) == Fold(NameOf(lines[n]));
    assert lines[..n][i] == lines[i];
  }

  lemma NewName(lines: seq<string>, n: nat, headers: Headers)
    requires n + 1 == |lines| && GoodLines(lines[..n]) && MapOf(headers, lines[..n])
    requires GoodLine(lines[n]) && Fold(NameOf(lines[n])) !in headers
    ensures GoodLines(lines) && MapOf(headers[Fold(NameOf(lines[n])) := Strip(TextOf(lines[n]))], lines)
  {
    forall i | 0 <= i < n
      ensures lines[..n][i] == lines[i] && GoodLine(lines[i]) && Fold(NameOf(lines[i])) != Fold(NameOf(lines[n]))
    {
      assert GoodLine(lines[..n][i]);
    }
    StillDistinct(lines, n);
    StillMapOf(lines, n, headers, Fold(NameOf(lines[n])), Strip(TextOf(lines[n])));
  }

  lemma StillDistinct(lines: seq<string>, n: nat)
    requires n + 1 == |lines| && GoodLines(lines[..n]) && GoodLine(lines[n])
    requires forall i | 0 <= i < n :: Fold(NameOf(lines[i])) != Fold(NameOf(lines[n]))
    ensures GoodLines(lines)
  {
    forall i | 0 <= i < n
      ensures GoodLine(lines[i])
    {
      assert GoodLine(lines[..n][i]);
    }
    forall i, j | 0 <= i < j < n
      ensures Fold(NameOf(lines[i])) != Fold(NameOf(lines[j]))
    {
      assert Fold(NameOf(lines[..n][i])) != Fold(NameOf(lines[..n][j]));
    }
  }

  lemma StillMapOf(lines: seq<string>, n: nat, headers: Headers, name: string, value: string)
    requires n + 1 == |lines| && MapOf(headers, lines[..n]) && name !in headers
    requires name == Fold(NameOf(lines[n])) && (GoodLine(lines[n]) ==> value == Strip(TextOf(lines[n])))
    ensures MapOf(headers[name := value], lines)
  {
    var more := headers[name := value];
    forall i | 0 <= i < |lines| && GoodLine(lines[i])
      ensures Fold(NameOf(lines[i])) in more && more[Fold(NameOf(lines[i]))] == Strip(TextOf(lines[i]))
    {
      if i < n {
        assert GoodLine(lines[..n][i]);
      }
    }
    forall k | k in more
      ensures exists i :: 0 <= i < |lines| && Fold(NameOf(lines[i])) == k
    {
      if k != name {
        var i :| 0 <= i < n && Fold(NameOf(lines[..n][i])) == k;
        assert Fold(NameOf(lines[i])) == k;
      } else {
        assert Fold(NameOf(lines[n])) == k;
      }
    }
  }

  // ----- A whole request -----

  /** Lines with a break after each but the last: no break inside, and none empty. */
  ghost predicate HeadLines(lines: seq<string>) {
    lines != [] && forall i | 0 <= i < |lines| :: Plain(lines[i]) && lines[i] != ""
  }

  lemma BlankIsTwoBreaks(s: string, j: nat)
    ensures At(s, BLANK, j) <==> At(s, CRLF, j) && At(s, CRLF, j + 2)
  {
    if At(s, BLANK, j) {
      assert s[j..j + 4][..2] == s[j..j + 2] && s[j..j + 4][2..] == s[j + 2..j + 4];
    }
    if At(s, CRLF, j) && At(s, CRLF, j + 2) {
      assert s[j..j + 4] == s[j..j + 2] + s[j + 2..j + 4];
    }
  }

  lemma ShiftAt(head: string, s: string, pat: string, j: nat)
    ensures At(head + s, pat, |head| + j) <==> At(s, pat, j)
  {
    if j + |pat| <= |s| {
      assert (head + s)[|head| + j..|head| + j + |pat|] == s[j..j + |pat|];
    }
  }

  /** What follows a line in a block that ends with a blank line. */
  lemma HeadSplits(lines: seq<string>, rest: string)
    requires |lines| > 1
    ensures Join(lines, CRLF) + BLANK + rest == lines[0] + CRLF + (Join(lines[1..], CRLF) + BLANK + rest)
  {
    var tail := Join(lines[1..], CRLF);
    Assoc(lines[0] + CRLF, tail, BLANK);
    Assoc(lines[0] + CRLF, tail + BLANK, rest);
  }

  /** The first blank line is the one after the head. */
  lemma {:induction false} HeadEnds(lines: seq<string>, rest: string)
    requires HeadLines(lines)
    ensures FirstAt(Join(lines, CRLF) + BLANK + rest, BLANK, |Join(lines, CRLF)|)
  {
    var line := lines[0];
    if |lines| == 1 {
      LastLineEnds(line, rest);
    } else {
      var tail := Join(lines[1..], CRLF);
      var s := tail + BLANK + rest;
      HeadEnds(lines[1..], rest);
      HeadSplits(lines, rest);
      FirstLineNot(lines[1..], rest);
      NotBefore(line, s, |tail|);
    }
  }

  lemma LastLineEnds(line: string, rest: string)
    requires Plain(line)
    ensures FirstAt(line + BLANK + rest, BLANK, |line|)
  {
    var s := line + BLANK + rest;
    assert s == line + CRLF + (CRLF + rest);
    FirstBreak(line, CRLF + rest);
    assert s[|line|..|line| + 4] == BLANK;
    forall j: nat | j < |line|
      ensures !At(s, BLANK, j)
    {
      BlankIsTwoBreaks(s, j);
    }
  }

  /** A head does not begin with a break. */
  lemma FirstLineNot(lines: seq<string>, rest: string)
    requires HeadLines(lines)
    ensures !At(Join(lines, CRLF) + BLANK + rest, CRLF, 0)
  {
    var line, s := lines[0], Join(lines, CRLF) + BLANK + rest;
    if |lines| == 1 {
      assert s == line + CRLF + (CRLF + rest);
      FirstBreak(line, CRLF + rest);
    } else {
      HeadSplits(lines, rest);
      FirstBreak(line, Join(lines[1..], CRLF) + BLANK + rest);
    }
  }

  /** Putting a line in front moves the first blank line by its length. */
  lemma NotBefore(line: string, s: string, i: nat)
    requires Plain(line) && !At(s, CRLF, 0) && FirstAt(s, BLANK, i)
    ensures FirstAt(line + CRLF + s, BLANK, |line| + 2 + i)
  {
    var t, head := line + CRLF + s, line + CRLF;
    FirstBreak(line, s);
    ShiftAt(head, s, BLANK, i);
    ShiftAt(head, s, CRLF, 0);
    forall j: nat | j < |line| + 2 + i
      ensures !At(t, BLANK, j)
    {
      BlankIsTwoBreaks(t, j);
      if j >= |line| + 2 {
        ShiftAt(head, s, BLANK, j - |line| - 2);
      } else if j == |line| + 1 {
        assert t[j] == '\n';
      }
    }
  }

  /**
   * A request is its method, target and version on a line, good header lines, a blank line and
   * anything: it parses to those words and the headers' mapping.
   */
  lemma RequestParses(verb: string, target: string, version: string, lines: seq<string>, rest: string)
    requires GoodWords(verb, target, version) && GoodLines(lines)
    requires forall i | 0 <= i < |lines| :: Plain(lines[i])
    ensures var head := [verb + " " + (target + " " + version)] + lines;
            var r := ParseRequest(Join(head, CRLF) + BLANK + rest);
            && HeadersOf(lines).Some? && MapOf(HeadersOf(lines).value, lines)
            && r == Some(Request(verb, target, version, HeadersOf(lines).value))
  {
    var line := verb + " " + (target + " " + version);
    RequestLineIs(line, verb, target, version);
    LinePlain(verb, target, version);
    HeadersAre(lines);
    BlockLines(lines);
    HeadIsGood(line, lines);
    HeadCut(line, lines, rest);
    PartsParse(Join([line] + lines, CRLF) + BLANK + rest, line, lines, (verb, target, version), HeadersOf(lines).value);
  }

  lemma HeadIsGood(line: string, lines: seq<string>)
    requires Plain(line) && line != "" && GoodLines(lines) && forall i | 0 <= i < |lines| :: Plain(lines[i])
    ensures HeadLines([line] + lines)
  {
    assert forall i | 0 <= i < |lines| :: GoodLine(lines[i]) && ([line] + lines)[i + 1] == lines[i];
  }

  lemma PartsParse(s: string, line: string, lines: seq<string>, first: (string, string, string), headers: Headers)
    requires Find(s, BLANK).Some? && HeaderLines(s) == [line] + lines && line != ""
    requires ParseRequestLine(line) == Some(first) && ParseHeaders(Join(lines, CRLF)) == Some(headers)
    ensures ParseRequest(s) == Some(Request(first.0, first.1, first.2, headers))
  {
    Halves([line], lines);
  }

  /** The head of such a request is cut into the request line and the header lines. */
  lemma HeadCut(line: string, lines: seq<string>, rest: string)
    requires HeadLines([line] + lines)
    ensures var s, head := Join([line] + lines, CRLF) + BLANK + rest, [line] + lines;
            && Find(s, BLANK).Some? && HeaderLines(s) == head && head[0] == line && head[1..] == lines
  {
    var head := [line] + lines;
    var s := Join(head, CRLF) + BLANK + rest;
    HeadEnds(head, rest);
    FindIs(s, BLANK, |Join(head, CRLF)|);
    Assoc(Join(head, CRLF), BLANK, rest);
    Halves(Join(head, CRLF), BLANK + rest);
    SplitJoin(head);
    Halves([line], lines);
  }

  lemma LinePlain(verb: string, target: string, version: string)
    requires GoodWords(verb, target, version)
    ensures Plain(verb + " " + (target + " " + version))
  {
    var line := verb + " " + (target + " " + version);
    assert forall c | c in TOKEN_SYMBOLS :: c != '\r';
    assert forall i | 0 <= i < |verb| :: verb[i] in verb;
    NoReturn(version);
    assert '\r' !in line;
    forall j: nat
      ensures !At(line, CRLF, j)
    {
      if j + 2 <= |line| {
        assert line[j..j + 2][0] == line[j];
      }
    }
  }

  lemma NoReturn(version: string)
    requires version in SUPPORTED_VERSIONS
    ensures '\r' !in version
  {
  }

  /** The block of the header lines is taken apart into them again. */
  lemma BlockLines(lines: seq<string>)
    requires GoodLines(lines) && forall i | 0 <= i < |lines| :: Plain(lines[i])
    ensures ParseHeaders(Join(lines, CRLF)) == HeadersOf(lines)
  {
    if lines != [] {
      SplitJoin(lines);
      assert GoodLine(lines[0]);
      assert Join(lines, CRLF) != "" by {
        assert lines[0] != "";
      }
    }
  }

  /** And nothing else is accepted: an accepted request has these parts. */
  lemma RequestParts(request: string) returns (lines: seq<string>, rest: string)
    requires ParseRequest(request).Some?
    ensures var r := ParseRequest(request).value;
            && GoodWords(r.verb, r.target, r.version)
            && GoodLines(lines) && (forall i | 0 <= i < |lines| :: Plain(lines[i]))
            && request == Join([r.verb + " " + (r.target + " " + r.version)] + lines, CRLF) + BLANK + rest
            && Some(r.headers) == HeadersOf(lines)
  {
    var r, head, end := ParseRequest(request).value, HeaderLines(request), Find(request, BLANK).value;
    lines, rest := head[1..], request[end + 4..];
    RequestLineIs(head[0], r.verb, r.target, r.version);
    JoinSplit(request[..end], CRLF);
    SplitPlain(request[..end]);
    assert forall i | 0 <= i < |lines| :: lines[i] == head[i + 1] && head[i + 1] in head;
    assert [head[0]] + lines == head;
    CutAtBlank(request, end);
    NoLoneLine(request, end, head);
    if lines != [] {
      SplitJoin(lines);
      assert Join(lines, CRLF) != "" by {
        LoneLine(lines);
      }
    }
    HeadersAre(lines);
  }

  lemma CutAtBlank(request: string, end: nat)
    requires At(request, BLANK, end)
    ensures request == request[..end] + BLANK + request[end + 4..]
  {
    Slices(request, end, end + 4);
    Rejoin(request, end + 4);
  }

  /** Lines that join to nothing are one empty line, or none. */
  lemma LoneLine(lines: seq<string>)
    requires lines != []
    ensures Join(lines, CRLF) == "" ==> lines == [""]
  {
    assert |lines| > 1 ==> |Join(lines, CRLF)| >= 2;
  }

  /** A head is not one line and an empty one: the blank line would have come earlier. */
  lemma NoLoneLine(request: string, end: nat, head: seq<string>)
    requires FirstAt(request, BLANK, end) && head != [] && Join(head, CRLF) == request[..end]
    ensures head[1..] != [""]
  {
    if head[1..] == [""] {
      assert |head| == 2 && Join(head, CRLF) == head[0] + CRLF + "";
      assert request[..end] == head[0] + CRLF;
      var j := |head[0]|;
      assert request[j..j + 2] == request[..end][j..j + 2] == CRLF;
      assert request[end..end + 2] == request[end..end + 4][..2];
      BlankIsTwoBreaks(request, j);
    }
  }
}
