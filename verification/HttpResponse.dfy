// The server's response printer and the client's response parser.
module HttpResponse {
  import opened Text
  import opened Decimal
  import opened HttpRequest

  type Field = (string, string)

  datatype Response = Response(version: string, status: nat, reason: string, headers: Headers, body: string)

  /** A response, a ValueError, or a NotImplementedError. */
  datatype Parsed = Ok(response: Response) | Malformed | Unsupported

  // ----- The printer -----

  function FieldLine(f: Field): string {
    f.0 + ": " + f.1
  }

  function FieldLines(fields: seq<Field>): seq<string> {
    if fields == [] then [] else [FieldLine(fields[0])] + FieldLines(fields[1..])
  }

  /** The fields `build_response` adds. */
  function Framing(body: string): seq<Field> {
    [("Content-Length", Print(|body|)), ("Connection", "close")]
  }

  function AllFields(fields: seq<Field>, body: string): seq<Field> {
    fields + Framing(body)
  }

  /** `build_response`; None is the UnicodeEncodeError of `encode("ascii")`. */
  function Build(status: string, body: string, fields: seq<Field>): Option<string> {
    var head := Join(["HTTP/1.1 " + status] + FieldLines(AllFields(fields, body)) + ["", ""], CRLF);
    if Ascii(head) then Some(head + body) else None
  }

  // ----- The parser -----

  /** `readline()`: up to and including the next newline, or what is left. */
  function ReadLine(s: string): (r: (string, string))
    ensures r.0 + r.1 == s
    ensures s != "" ==> r.0 != ""
  {
    var nl := IndexOf(s, '\n');
    if nl.Some? then (s[..nl.value + 1], s[nl.value + 1..]) else (s, "")
  }

  /** `_decode_line`. */
  function DecodeLine(line: string): Option<string> {
    if |line| >= 2 && line[|line| - 2..] == CRLF then Some(line[..|line| - 2]) else None
  }

  predicate BadText(s: string) {
    exists c | c in s :: Control(c) && c != '\t'
  }

  /** The status line's version, status and reason. */
  function ParseStatus(line: string): Option<(string, nat, string)> {
    var sp1 := IndexOf(line, ' ');
    if sp1.None? then None
    else
      var version, rest := line[..sp1.value], line[sp1.value + 1..];
      var sp2 := IndexOf(rest, ' ');
      if sp2.None? then None
      else
        var raw, reason := rest[..sp2.value], rest[sp2.value + 1..];
        if version !in SUPPORTED_VERSIONS || |raw| != 3 || !AllDigits(raw) || BadText(reason) then None
        else Some((version, ValueOf(raw), reason))
  }

  /** One field line; a repeated name overrides. */
  function ParseField(headers: Headers, line: string): Option<Headers> {
    var colon := IndexOf(line, ':');
    if colon.None? then None
    else
      var name, value := Fold(line[..colon.value]), line[colon.value + 1..];
      if !IsToken(name) || BadText(value) then None else Some(headers[name := HttpRequest.Strip(value)])
  }

  /** The field lines up to the blank line, and what follows it. */
  function ParseFields(s: string, headers: Headers): Option<(Headers, string)>
    decreases |s|
  {
    var (raw, rest) := ReadLine(s);
    if raw == "" then None
    else if raw == CRLF then Some((headers, rest))
    else
      var line := DecodeLine(raw);
      if line.None? then None
      else
        var next := ParseField(headers, line.value);
        if next.None? then None else ParseFields(rest, next.value)
  }

  /** `_read_response`. */
  function Parse(s: string): Parsed {
    var (raw, rest) := ReadLine(s);
    var line := DecodeLine(raw);
    if raw == "" || line.None? then Malformed
    else
      var status := ParseStatus(line.value);
      if status.None? then Malformed
      else
        var fields := ParseFields(rest, map[]);
        if fields.None? then Malformed
        else if "transfer-encoding" in fields.value.0 || "content-encoding" in fields.value.0 then Unsupported
        else Ok(Response(status.value.0, status.value.1, status.value.2, fields.value.0, fields.value.1))
  }

  /** The header loop. */
  method ReadFields(s: string) returns (r: Option<(Headers, string)>)
    ensures r == ParseFields(s, map[])
  {
    var headers: Headers := map[];
    var rest := s;
    while true
      invariant ParseFields(s, map[]) == ParseFields(rest, headers)
      decreases |rest|
    {
      var read := ReadLine(rest);
      if read.0 == "" {
        return None;
      }
      if read.0 == CRLF {
        return Some((headers, read.1));
      }
      var line := DecodeLine(read.0);
      if line.None? {
        return None;
      }
      var colon := IndexOf(line.value, ':');
      if colon.None? {
        return None;
      }
      var name, value := Fold(line.value[..colon.value]), line.value[colon.value + 1..];
      if !IsToken(name) || BadText(value) {
        return None;
      }
      headers := headers[name := HttpRequest.Strip(value)];
      rest := read.1;
    }
  }

  // ----- What the parser makes of the printer's text -----

  /** A field the server may send: an ASCII token and ASCII text without controls but tab. */
  predicate GoodField(f: Field) {
    IsToken(f.0) && Ascii(f.1) && !BadText(f.1)
  }

  predicate GoodFields(fields: seq<Field>) {
    forall i | 0 <= i < |fields| :: GoodField(fields[i])
  }

  /** The mapping a list of fields stands for: lower-cased names, trimmed values, the last one wins. */
  function Collect(headers: Headers, fields: seq<Field>): Headers
    decreases |fields|
  {
    if fields == [] then headers
    else Collect(headers[Lower(fields[0].0) := HttpRequest.Strip(fields[0].1)], fields[1..])
  }

  /** Lines, each with its line break. */
  function Block(lines: seq<string>): string {
    if lines == [] then "" else lines[0] + CRLF + Block(lines[1..])
  }

  lemma {:induction false} JoinBlank(lines: seq<string>)
    ensures Join(lines + ["", ""], CRLF) == Block(lines) + CRLF
  {
    if lines == [] {
      assert ["", ""][1..] == [""];
      assert lines + ["", ""] == ["", ""];
      assert Join([""], CRLF) == "";
    } else {
      JoinBlank(lines[1..]);
      assert (lines + ["", ""])[1..] == lines[1..] + ["", ""];
      Assoc(lines[0] + CRLF, Block(lines[1..]), CRLF);
    }
  }

  lemma ReadsLine(line: string, rest: string)
    requires '\n' !in line
    ensures ReadLine(line + CRLF + rest) == (line + CRLF, rest)
    ensures DecodeLine(line + CRLF) == Some(line)
  {
    var s := line + CRLF + rest;
    assert s[..|line| + 1] == line + "\r";
    IndexOfIs(s, '\n', |line| + 1);
    assert s[..|line| + 2] == line + CRLF;
  }

  /** Token characters are printable ASCII other than space and colon. */
  lemma TokenChars(s: string)
    requires IsToken(s)
    ensures forall i | 0 <= i < |s| :: 32 < s[i] as int < 127 && s[i] != ':'
  {
    assert forall c | c in TOKEN_SYMBOLS :: 32 < c as int < 127 && c != ':';
    assert forall i | 0 <= i < |s| :: s[i] in s;
  }

  lemma GoodLine(f: Field)
    requires GoodField(f)
    ensures '\n' !in FieldLine(f) && FieldLine(f) != "" && Ascii(FieldLine(f))
    ensures IndexOf(FieldLine(f), ':') == Some(|f.0|)
  {
    var line := FieldLine(f);
    TokenChars(f.0);
    assert forall i | 0 <= i < |f.1| :: f.1[i] in f.1 && !(Control(f.1[i]) && f.1[i] != '\t');
    assert line == f.0 + ": " + f.1;
    assert line[..|f.0|] == f.0;
    IndexOfIs(line, ':', |f.0|);
  }

  lemma GoodFieldParses(f: Field, headers: Headers)
    requires GoodField(f)
    ensures ParseField(headers, FieldLine(f)) == Some(headers[Lower(f.0) := HttpRequest.Strip(f.1)])
  {
    var line := FieldLine(f);
    GoodLine(f);
    assert line[..|f.0|] == f.0 && line[|f.0| + 1..] == " " + f.1;
    SpaceIsText(f.1);
    TokenFolds(f.0);
    StripSpace(f.1);
  }

  lemma SpaceIsText(v: string)
    requires !BadText(v)
    ensures !BadText(" " + v)
  {
    assert forall c | c in " " + v :: c == ' ' || c in v;
  }

  lemma TokenFolds(s: string)
    requires IsToken(s)
    ensures Ascii(s) && Fold(s) == Lower(s) && IsToken(Lower(s))
  {
    TokenChars(s);
    FoldAscii(s);
    forall c | c in Lower(s)
      ensures Alnum(c) || c in TOKEN_SYMBOLS
    {
      var i :| 0 <= i < |s| && Lower(s)[i] == c;
      assert s[i] in s;
    }
  }

  lemma StripSpace(v: string)
    ensures HttpRequest.Strip(" " + v) == HttpRequest.Strip(v)
  {
    assert (" " + v)[1..] == v;
  }

  /** The parser collects the printed fields and stops just before the body. */
  lemma {:induction false} ParsesFields(fields: seq<Field>, headers: Headers, body: string)
    requires GoodFields(fields)
    ensures ParseFields(Block(FieldLines(fields)) + CRLF + body, headers) == Some((Collect(headers, fields), body))
  {
    if fields == [] {
      ReadsLine("", body);
      assert "" + CRLF == CRLF;
    } else {
      PrintedFields(fields, body);
      var rest := Block(FieldLines(fields[1..])) + CRLF + body;
      GoodLine(fields[0]);
      GoodFieldParses(fields[0], headers);
      ParsesFields(fields[1..], headers[Lower(fields[0].0) := HttpRequest.Strip(fields[0].1)], body);
      ReadsLine(FieldLine(fields[0]), rest);
    }
  }

  lemma PrintedFields(fields: seq<Field>, body: string)
    requires fields != []
    ensures Block(FieldLines(fields)) + CRLF + body
            == FieldLine(fields[0]) + CRLF + (Block(FieldLines(fields[1..])) + CRLF + body)
  {
    var line, more := FieldLine(fields[0]), FieldLines(fields[1..]);
    assert FieldLines(fields)[1..] == more;
    Assoc(line + CRLF, Block(more), CRLF);
    Assoc(line + CRLF, Block(more) + CRLF, body);
  }

  /** Three digits, a space, and a reason of ASCII text without controls but tab. */
  predicate GoodStatus(raw: string, reason: string) {
    |raw| == 3 && AllDigits(raw) && Ascii(reason) && !BadText(reason)
  }

  function StatusLine(raw: string, reason: string): string {
    "HTTP/1.1 " + (raw + " " + reason)
  }

  lemma StatusParses(raw: string, reason: string)
    requires GoodStatus(raw, reason)
    ensures ParseStatus(StatusLine(raw, reason)) == Some(("HTTP/1.1", ValueOf(raw), reason))
    ensures '\n' !in StatusLine(raw, reason) && Ascii(StatusLine(raw, reason))
  {
    var version := "HTTP/1.1";
    assert StatusLine(raw, reason) == version + " " + (raw + " " + reason);
    assert forall i | 0 <= i < 8 :: version[i] != ' ' && version[i] != '\n' && version[i] as int < 128;
    VersionParses(version, raw, reason);
  }

  lemma VersionParses(version: string, raw: string, reason: string)
    requires version in SUPPORTED_VERSIONS && GoodStatus(raw, reason)
    requires ' ' !in version && '\n' !in version && Ascii(version)
    ensures var line := version + " " + (raw + " " + reason);
            ParseStatus(line) == Some((version, ValueOf(raw), reason)) && '\n' !in line && Ascii(line)
  {
    SplitsAt(version, ' ', raw + " " + reason);
    RestParses(raw, reason);
    assert '\n' !in reason;
    PlainPieces(version, raw, reason);
  }

  lemma PlainPieces(a: string, b: string, c: string)
    requires '\n' !in a && '\n' !in b && '\n' !in c && Ascii(a) && Ascii(b) && Ascii(c)
    ensures '\n' !in a + " " + (b + " " + c) && Ascii(a + " " + (b + " " + c))
  {
    PlainPair(b, c);
    PlainPair(a, b + " " + c);
  }

  lemma PlainPair(a: string, b: string)
    requires '\n' !in a && '\n' !in b && Ascii(a) && Ascii(b)
    ensures '\n' !in a + " " + b && Ascii(a + " " + b)
  {
  }

  lemma RestParses(raw: string, reason: string)
    requires GoodStatus(raw, reason)
    ensures var rest := raw + " " + reason;
            IndexOf(rest, ' ') == Some(3) && rest[..3] == raw && rest[4..] == reason && '\n' !in raw && Ascii(raw)
  {
    SplitsAt(raw, ' ', reason);
    assert forall i | 0 <= i < 3 :: raw[i] in raw;
  }

  lemma FramingGood(body: string)
    ensures GoodFields(Framing(body))
  {
    assert forall i | 0 <= i < |Print(|body|)| :: Print(|body|)[i] in Print(|body|);
  }

  /** The printed head: status line, all fields, blank line. */
  lemma HeadIs(line: string, lines: seq<string>)
    ensures Join([line] + lines + ["", ""], CRLF) == line + CRLF + (Block(lines) + CRLF)
  {
    JoinBlank([line] + lines);
    Halves([line], lines);
    Assoc(line + CRLF, Block(lines), CRLF);
  }

  lemma {:induction false} BlockAscii(fields: seq<Field>)
    requires GoodFields(fields)
    ensures Ascii(Block(FieldLines(fields)))
  {
    if fields != [] {
      BlockAscii(fields[1..]);
      GoodLine(fields[0]);
      assert FieldLines(fields)[1..] == FieldLines(fields[1..]);
    }
  }

  lemma AllGood(fields: seq<Field>, body: string)
    requires GoodFields(fields)
    ensures GoodFields(AllFields(fields, body))
  {
    FramingGood(body);
  }

  /**
   * For every body, status and field list, the client reads from the server's text the same
   * status, reason and body, and the fields with lower-cased names and trimmed values; it
   * refuses exactly the responses that name a transfer or content encoding.
   */
  lemma {:induction false} RoundTrip(raw: string, reason: string, fields: seq<Field>, body: string)
    requires GoodStatus(raw, reason) && GoodFields(fields)
    ensures var text := Build(raw + " " + reason, body, fields);
            var headers := Collect(map[], AllFields(fields, body));
            && text.Some?
            && Parse(text.value) ==
               if "transfer-encoding" in headers || "content-encoding" in headers then Unsupported
               else Ok(Response("HTTP/1.1", ValueOf(raw), reason, headers, body))
  {
    var all, line := AllFields(fields, body), StatusLine(raw, reason);
    AllGood(fields, body);
    HeadIs(line, FieldLines(all));
    BlockAscii(all);
    StatusParses(raw, reason);
    var rest := Block(FieldLines(all)) + CRLF;
    assert Ascii(line + CRLF + rest);
    Assoc(line + CRLF, rest, body);
    TextParses(line, rest, raw, reason, all, body);
  }

  lemma TextParses(line: string, rest: string, raw: string, reason: string, all: seq<Field>, body: string)
    requires AllDigits(raw) && '\n' !in line && ParseStatus(line) == Some(("HTTP/1.1", ValueOf(raw), reason))
    requires GoodFields(all) && rest == Block(FieldLines(all)) + CRLF
    ensures var headers := Collect(map[], all);
            Parse(line + CRLF + (rest + body)) ==
            if "transfer-encoding" in headers || "content-encoding" in headers then Unsupported
            else Ok(Response("HTTP/1.1", ValueOf(raw), reason, headers, body))
  {
    ReadsLine(line, rest + body);
    ParsesFields(all, map[], body);
  }

  // ----- The collected mapping -----

  lemma {:induction false} CollectAppend(headers: Headers, a: seq<Field>, b: seq<Field>)
    ensures Collect(headers, a + b) == Collect(Collect(headers, a), b)
    decreases |a|
  {
    if a == [] {
      assert a + b == b;
    } else {
      assert (a + b)[1..] == a[1..] + b;
      CollectAppend(headers[Lower(a[0].0) := HttpRequest.Strip(a[0].1)], a[1..], b);
    }
  }

  ghost predicate Named(fields: seq<Field>, key: string) {
    exists i :: 0 <= i < |fields| && Lower(fields[i].0) == key
  }

  lemma {:induction false} CollectKeys(headers: Headers, fields: seq<Field>, key: string)
    ensures key in Collect(headers, fields) <==> key in headers || Named(fields, key)
    ensures !Named(fields, key) && key in headers ==> Collect(headers, fields)[key] == headers[key]
    decreases |fields|
  {
    if fields != [] {
      var f := fields[0];
      CollectKeys(headers[Lower(f.0) := HttpRequest.Strip(f.1)], fields[1..], key);
      assert Named(fields, key) <==> Lower(f.0) == key || Named(fields[1..], key) by {
        if i :| 0 <= i < |fields[1..]| && Lower(fields[1..][i].0) == key {
          assert Lower(fields[i + 1].0) == key;
        }
        if i :| 1 <= i < |fields| && Lower(fields[i].0) == key {
          assert Lower(fields[1..][i - 1].0) == key;
        }
      }
    }
  }

  /** A field whose name no later field repeats keeps its value. */
  lemma CollectLast(headers: Headers, fields: seq<Field>, i: nat)
    requires i < |fields| && !Named(fields[i + 1..], Lower(fields[i].0))
    ensures var key := Lower(fields[i].0);
            key in Collect(headers, fields) && Collect(headers, fields)[key] == HttpRequest.Strip(fields[i].1)
  {
    Rejoin(fields, i);
    CollectAppend(headers, fields[..i], fields[i..]);
    var before, key := Collect(headers, fields[..i]), Lower(fields[i].0);
    Drops(fields, i, 1);
    CollectKeys(before[key := HttpRequest.Strip(fields[i].1)], fields[i + 1..], key);
  }

  /** Names distinct when lower-cased, and none of them one the server adds. */
  ghost predicate DistinctNames(fields: seq<Field>) {
    && (forall i, j | 0 <= i < j < |fields| :: Lower(fields[i].0) != Lower(fields[j].0))
    && forall i | 0 <= i < |fields| :: Lower(fields[i].0) !in {"content-length", "connection"}
  }

  lemma LengthName()
    ensures Lower("Content-Length") == "content-length"
  {
  }

  lemma ConnectionName()
    ensures Lower("Connection") == "connection"
  {
  }

  lemma StripDigits(n: nat)
    ensures HttpRequest.Strip(Print(n)) == Print(n)
  {
    var digits := Print(n);
    assert digits[0] in digits && digits[|digits| - 1] in digits;
  }

  /** The two added fields end up under their lower-cased names. */
  lemma FramingCollects(headers: Headers, body: string)
    ensures Collect(headers, Framing(body)) == headers["content-length" := Print(|body|)]["connection" := "close"]
  {
    LengthName();
    ConnectionName();
    StripDigits(|body|);
    assert HttpRequest.Strip("close") == "close";
    CollectTwo(headers, ("Content-Length", Print(|body|)), ("Connection", "close"));
  }

  lemma CollectTwo(headers: Headers, f: Field, g: Field)
    ensures Collect(headers, [f, g]) ==
            headers[Lower(f.0) := HttpRequest.Strip(f.1)][Lower(g.0) := HttpRequest.Strip(g.1)]
  {
    assert [f, g][1..] == [g];
    var next := headers[Lower(f.0) := HttpRequest.Strip(f.1)];
    assert Collect(next, [g]) == next[Lower(g.0) := HttpRequest.Strip(g.1)] by {
      assert [g][1..] == [];
    }
  }

  /** The server's own fields, before the two it adds. */
  lemma OwnFields(fields: seq<Field>)
    requires DistinctNames(fields)
    ensures forall key :: key in Collect(map[], fields) <==> Named(fields, key)
    ensures forall i | 0 <= i < |fields| ::
              Lower(fields[i].0) in Collect(map[], fields)
              && Collect(map[], fields)[Lower(fields[i].0)] == HttpRequest.Strip(fields[i].1)
  {
    forall key
      ensures key in Collect(map[], fields) <==> Named(fields, key)
    {
      CollectKeys(map[], fields, key);
    }
    forall i | 0 <= i < |fields|
      ensures Lower(fields[i].0) in Collect(map[], fields)
      ensures Collect(map[], fields)[Lower(fields[i].0)] == HttpRequest.Strip(fields[i].1)
    {
      LaterNames(fields, i);
      CollectLast(map[], fields, i);
    }
  }

  /** The client's headers are exactly the server's fields, the decimal body length and the close. */
  lemma {:induction false} HeadersSurvive(fields: seq<Field>, body: string)
    requires DistinctNames(fields)
    ensures var headers := Collect(map[], AllFields(fields, body));
            && (forall key :: key in headers <==> Named(fields, key) || key in {"content-length", "connection"})
            && (forall i | 0 <= i < |fields| ::
                  Lower(fields[i].0) in headers && headers[Lower(fields[i].0)] == HttpRequest.Strip(fields[i].1))
            && headers["content-length"] == Print(|body|) && headers["connection"] == "close"
  {
    CollectAppend(map[], fields, Framing(body));
    FramingCollects(Collect(map[], fields), body);
    OwnFields(fields);
    assert |"content-length"| != |"connection"|;
    WithTwo(fields, Collect(map[], fields), "content-length", Print(|body|), "connection", "close");
  }

  lemma WithTwo(fields: seq<Field>, own: Headers, a: string, x: string, b: string, y: string)
    requires a != b && forall i | 0 <= i < |fields| :: Lower(fields[i].0) != a && Lower(fields[i].0) != b
    requires forall key :: key in own <==> Named(fields, key)
    requires forall i | 0 <= i < |fields| ::
               Lower(fields[i].0) in own && own[Lower(fields[i].0)] == HttpRequest.Strip(fields[i].1)
    ensures var headers := own[a := x][b := y];
            && (forall key :: key in headers <==> Named(fields, key) || key in {a, b})
            && (forall i | 0 <= i < |fields| ::
                  Lower(fields[i].0) in headers && headers[Lower(fields[i].0)] == HttpRequest.Strip(fields[i].1))
            && headers[a] == x && headers[b] == y
  {
    PutTwo(own, a, x, b, y);
  }

  lemma PutTwo<K(!new), V>(m: map<K, V>, a: K, x: V, b: K, y: V)
    requires a != b
    ensures var n := m[a := x][b := y];
            && (forall k :: k in n <==> k in m || k == a || k == b)
            && (forall k | k in m && k != a && k != b :: n[k] == m[k])
            && n[a] == x && n[b] == y
  {
  }

  lemma LaterNames(fields: seq<Field>, i: nat)
    requires DistinctNames(fields) && i < |fields|
    ensures !Named(fields[i + 1..], Lower(fields[i].0))
  {
  }

  /** The client refuses exactly the responses with a field naming a transfer or content encoding. */
  lemma {:induction false} RefusesEncodings(raw: string, reason: string, fields: seq<Field>, body: string)
    requires GoodStatus(raw, reason) && GoodFields(fields)
    ensures Build(raw + " " + reason, body, fields).Some?
    ensures Parse(Build(raw + " " + reason, body, fields).value) == Unsupported <==>
            Named(fields, "transfer-encoding") || Named(fields, "content-encoding")
  {
    RoundTrip(raw, reason, fields, body);
    OtherKey(fields, body, "transfer-encoding");
    OtherKey(fields, body, "content-encoding");
  }

  lemma OtherKey(fields: seq<Field>, body: string, key: string)
    requires |key| > |"content-length"|
    ensures key in Collect(map[], AllFields(fields, body)) <==> Named(fields, key)
  {
    CollectAppend(map[], fields, Framing(body));
    FramingCollects(Collect(map[], fields), body);
    CollectKeys(map[], fields, key);
  }
}
