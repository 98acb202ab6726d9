// Which bytes are which response (sections 2.1, 4 and 5 of RFC 9112, as the client takes them).
module HttpResponseGrammar {
  import opened Text
  import opened Decimal
  import opened HttpRequest
  import opened HttpResponse
  import opened HttpRequestGrammar

  // ----- The status line -----

  /** A supported version, three digits and a reason without controls but tab. */
  predicate GoodStatusLine(version: string, raw: string, reason: string) {
    version in SUPPORTED_VERSIONS && |raw| == 3 && AllDigits(raw) && !BadText(reason)
  }

  lemma DigitsPlain(raw: string)
    requires AllDigits(raw)
    ensures ' ' !in raw && '\n' !in raw
  {
  }

  lemma StatusTaken(line: string, version: string, code: nat, reason: string) returns (raw: string)
    requires ParseStatus(line) == Some((version, code, reason))
    ensures GoodStatusLine(version, raw, reason) && code == ValueOf(raw) && line == version + " " + (raw + " " + reason)
  {
    var sp := IndexOf(line, ' ').value;
    var rest := line[sp + 1..];
    raw := rest[..IndexOf(rest, ' ').value];
    CutAt(line, ' ');
    CutAt(rest, ' ');
    Assoc(raw, " ", reason);
  }

  lemma StatusAccepted(version: string, raw: string, reason: string)
    requires GoodStatusLine(version, raw, reason)
    ensures ParseStatus(version + " " + (raw + " " + reason)) == Some((version, ValueOf(raw), reason))
  {
    VersionPlain(version);
    DigitsPlain(raw);
    SplitsAt(version, ' ', raw + " " + reason);
    SplitsAt(raw, ' ', reason);
  }

  /** A status line is accepted exactly when it is those three, one space apart. */
  lemma StatusLineIs(line: string, version: string, code: nat, reason: string)
    ensures ParseStatus(line) == Some((version, code, reason)) <==>
            exists raw :: GoodStatusLine(version, raw, reason) && code == ValueOf(raw)
                          && line == version + " " + (raw + " " + reason)
  {
    if ParseStatus(line) == Some((version, code, reason)) {
      var raw := StatusTaken(line, version, code, reason);
    }
    forall raw | GoodStatusLine(version, raw, reason)
      ensures ParseStatus(version + " " + (raw + " " + reason)) == Some((version, ValueOf(raw), reason))
    {
      StatusAccepted(version, raw, reason);
    }
  }

  /** A string is its part before the first occurrence, the character, and its part after. */
  lemma CutAt(s: string, c: char)
    requires IndexOf(s, c).Some?
    ensures var i := IndexOf(s, c).value; s == s[..i] + [c] + s[i + 1..]
  {
  }

  // ----- Field lines -----

  /** A name that folds to a token, a colon, and no controls but tab after it. */
  predicate GoodFieldLine(line: string) {
    IndexOf(line, ':').Some? && IsToken(Fold(NameOf(line))) && !BadText(TextOf(line))
  }

  predicate GoodFieldLines(lines: seq<string>) {
    forall i | 0 <= i < |lines| :: GoodFieldLine(lines[i])
  }

  /** The mapping of field lines, a later line of a name replacing an earlier one. */
  function Mapping(headers: Headers, lines: seq<string>): Headers
    requires GoodFieldLines(lines)
    decreases |lines|
  {
    if lines == [] then headers
    else Mapping(headers[Fold(NameOf(lines[0])) := HttpRequest.Strip(TextOf(lines[0]))], lines[1..])
  }

  lemma {:induction false} FoldKeepsBreak(s: string)
    requires '\n' in s
    ensures '\n' in Fold(s)
  {
    var n := |s| - 1;
    if s[n] == '\n' {
      assert Fold(s)[|Fold(s[..n])|] == '\n';
    } else {
      FoldKeepsBreak(s[..n]);
      assert forall c :: c in Fold(s[..n]) ==> c in Fold(s);
    }
  }

  lemma FieldLinePlain(line: string)
    requires GoodFieldLine(line)
    ensures '\n' !in line && line != ""
  {
    CutAt(line, ':');
    if '\n' in NameOf(line) {
      FoldKeepsBreak(NameOf(line));
    }
    assert '\n' !in TextOf(line);
  }

  lemma BlockStarts(lines: seq<string>, body: string)
    requires lines != []
    ensures Block(lines) + CRLF + body == lines[0] + CRLF + (Block(lines[1..]) + CRLF + body)
  {
    Assoc(lines[0] + CRLF, Block(lines[1..]), CRLF);
    Assoc(lines[0] + CRLF, Block(lines[1..]) + CRLF, body);
  }

  lemma LineNotBlank(line: string)
    requires line != ""
    ensures line + CRLF != CRLF && line + CRLF != ""
  {
    assert |line + CRLF| > 2;
  }

  /** Good field lines, a blank line and a body are read as the lines' mapping and the body. */
  lemma {:induction false} FieldsRead(lines: seq<string>, headers: Headers, body: string)
    requires GoodFieldLines(lines)
    ensures ParseFields(Block(lines) + CRLF + body, headers) == Some((Mapping(headers, lines), body))
    decreases |lines|
  {
    if lines == [] {
      ReadsLine("", body);
      assert "" + CRLF == CRLF;
    } else {
      BlockStarts(lines, body);
      FieldLinePlain(lines[0]);
      LineNotBlank(lines[0]);
      ReadsLine(lines[0], Block(lines[1..]) + CRLF + body);
      FieldsRead(lines[1..], headers[Fold(NameOf(lines[0])) := HttpRequest.Strip(TextOf(lines[0]))], body);
    }
  }

  /** One line read, taken apart. */
  lemma LineParts(s: string, line: string)
    requires DecodeLine(ReadLine(s).0) == Some(line)
    ensures s == line + CRLF + ReadLine(s).1
  {
    var raw := ReadLine(s).0;
    Rejoin(raw, |raw| - 2);
  }

  /** The lines and the body behind what the header loop accepts. */
  ghost predicate ReadAs(s: string, headers: Headers, r: (Headers, string), lines: seq<string>) {
    GoodFieldLines(lines) && s == Block(lines) + CRLF + r.1 && r.0 == Mapping(headers, lines)
  }

  lemma OneMoreLine(s: string, headers: Headers, r: (Headers, string), line: string, rest: string, lines: seq<string>)
    requires GoodFieldLine(line) && s == line + CRLF + rest
    requires ReadAs(rest, headers[Fold(NameOf(line)) := HttpRequest.Strip(TextOf(line))], r, lines)
    ensures ReadAs(s, headers, r, [line] + lines)
  {
    var all := [line] + lines;
    assert all[1..] == lines;
    BlockStarts(all, r.1);
  }

  /** And nothing else is accepted. */
  lemma {:induction false} FieldsParts(s: string, headers: Headers) returns (lines: seq<string>)
    requires ParseFields(s, headers).Some?
    ensures ReadAs(s, headers, ParseFields(s, headers).value, lines)
    decreases |s|
  {
    var (raw, rest) := ReadLine(s);
    if raw == CRLF {
      lines := [];
      assert "" + CRLF == CRLF;
    } else {
      var line := DecodeLine(raw).value;
      LineParts(s, line);
      var more := FieldsParts(rest, headers[Fold(NameOf(line)) := HttpRequest.Strip(TextOf(line))]);
      OneMoreLine(s, headers, ParseFields(s, headers).value, line, rest, more);
      lines := [line] + more;
    }
  }

  // ----- A whole response -----

  /** A status line, field lines, a blank line and a body. */
  function ResponseText(version: string, raw: string, reason: string, lines: seq<string>, body: string): string {
    version + " " + (raw + " " + reason) + CRLF + (Block(lines) + CRLF + body)
  }

  /** What the client makes of it. */
  function ResponseOf(version: string, raw: string, reason: string, lines: seq<string>, body: string): Parsed
    requires AllDigits(raw) && GoodFieldLines(lines)
  {
    var headers := Mapping(map[], lines);
    if "transfer-encoding" in headers || "content-encoding" in headers then Unsupported
    else Parsed.Ok(Response(version, ValueOf(raw), reason, headers, body))
  }

  lemma StatusPlain(version: string, raw: string, reason: string)
    requires GoodStatusLine(version, raw, reason)
    ensures '\n' !in version + " " + (raw + " " + reason)
  {
    DigitsPlain(raw);
    VersionUnbroken(version);
    assert '\n' !in reason;
  }

  lemma VersionUnbroken(version: string)
    requires version in SUPPORTED_VERSIONS
    ensures '\n' !in version
  {
  }

  /** Such a text is read as its parts, or refused for naming an encoding. */
  lemma ResponseRead(version: string, raw: string, reason: string, lines: seq<string>, body: string)
    requires GoodStatusLine(version, raw, reason) && GoodFieldLines(lines)
    ensures Parse(ResponseText(version, raw, reason, lines, body)) == ResponseOf(version, raw, reason, lines, body)
  {
    var line, rest := version + " " + (raw + " " + reason), Block(lines) + CRLF + body;
    StatusPlain(version, raw, reason);
    StatusLineIs(line, version, ValueOf(raw), reason);
    ReadsLine(line, rest);
    FieldsRead(lines, map[], body);
    LineThenFields(line, rest, (version, ValueOf(raw), reason), Mapping(map[], lines), body);
  }

  lemma LineThenFields(line: string, rest: string, status: (string, nat, string), headers: Headers, body: string)
    requires ReadLine(line + CRLF + rest) == (line + CRLF, rest) && DecodeLine(line + CRLF) == Some(line)
    requires ParseStatus(line) == Some(status) && ParseFields(rest, map[]) == Some((headers, body))
    ensures Parse(line + CRLF + rest) ==
            if "transfer-encoding" in headers || "content-encoding" in headers then Unsupported
            else Parsed.Ok(Response(status.0, status.1, status.2, headers, body))
  {
    assert |line + CRLF| >= 2;
  }

  /** And every other text is malformed. */
  lemma ResponseParts(s: string) returns (version: string, raw: string, reason: string, lines: seq<string>, body: string)
    requires !Parse(s).Malformed?
    ensures GoodStatusLine(version, raw, reason) && GoodFieldLines(lines)
    ensures s == ResponseText(version, raw, reason, lines, body)
    ensures Parse(s) == ResponseOf(version, raw, reason, lines, body)
  {
    var rest, line := ReadLine(s).1, DecodeLine(ReadLine(s).0).value;
    var status := ParseStatus(line).value;
    LineParts(s, line);
    StatusLineIs(line, status.0, status.1, status.2);
    version, reason, body := status.0, status.2, ParseFields(rest, map[]).value.1;
    raw :| GoodStatusLine(version, raw, reason) && status.1 == ValueOf(raw) && line == version + " " + (raw + " " + reason);
    lines := FieldsParts(rest, map[]);
  }

  // ----- What the server prints -----

  /** The printed lines: each field's name, a colon, a space and its value; then the body's length and the close. */
  ghost predicate PrintedLines(lines: seq<string>, fields: seq<Field>, body: string) {
    && |lines| == |fields| + 2
    && (forall i | 0 <= i < |fields| :: lines[i] == fields[i].0 + ": " + fields[i].1)
    && lines[|fields|] == "Content-Length: " + Print(|body|)
    && lines[|fields| + 1] == "Connection: close"
  }

  lemma {:induction false} FieldLinesAt(fields: seq<Field>)
    ensures |FieldLines(fields)| == |fields|
    ensures forall i | 0 <= i < |fields| :: FieldLines(fields)[i] == fields[i].0 + ": " + fields[i].1
  {
    if fields != [] {
      FieldLinesAt(fields[1..]);
    }
  }

  lemma LastTwo(fields: seq<Field>, body: string)
    ensures PrintedLines(FieldLines(AllFields(fields, body)), fields, body)
  {
    var all, n := AllFields(fields, body), |fields|;
    FieldLinesAt(all);
    var length := Framing(body)[0];
    assert all[n] == length && length.0 + ": " == "Content-Length: ";
    assert all[n + 1] == ("Connection", "close") && "Connection" + ": " + "close" == "Connection: close";
  }

  /**
   * The server prints exactly the text of the grammar with those lines, for any status and fields of
   * ASCII characters, and fails to encode any other.
   */
  lemma PrintedIs(status: string, body: string, fields: seq<Field>)
    ensures var lines := FieldLines(AllFields(fields, body));
            && PrintedLines(lines, fields, body)
            && Build(status, body, fields) ==
               (if Ascii("HTTP/1.1 " + status + CRLF + (Block(lines) + CRLF))
                then Some("HTTP/1.1 " + status + CRLF + (Block(lines) + CRLF) + body) else None)
  {
    LastTwo(fields, body);
    HeadIs("HTTP/1.1 " + status, FieldLines(AllFields(fields, body)));
  }
}
