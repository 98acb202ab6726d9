// Request parsing in the HTTP server, and the Go programs' scan for body headers.
module HttpRequest {
  import opened Text

  const BLANK := "\r\n\r\n"
  const TOKEN_SYMBOLS := "!#$%&'*+-.^_`|~"
  const SUPPORTED_VERSIONS := {"HTTP/1.0", "HTTP/1.1"}

  // ----- Splitting and joining -----

  /** `split(separator)`: leftmost, not overlapping. */
  function SplitOn(s: string, pat: string): (parts: seq<string>)
    requires pat != ""
    ensures parts != []
    decreases |s|
  {
    var i := Find(s, pat);
    if i.None? then [s] else [s[..i.value]] + SplitOn(s[i.value + |pat|..], pat)
  }

  function Join(parts: seq<string>, pat: string): string {
    if parts == [] then ""
    else if |parts| == 1 then parts[0]
    else parts[0] + pat + Join(parts[1..], pat)
  }

  lemma {:induction false} JoinSplit(s: string, pat: string)
    requires pat != ""
    ensures Join(SplitOn(s, pat), pat) == s
    decreases |s|
  {
    var i := Find(s, pat);
    if i.Some? {
      var tail := s[i.value + |pat|..];
      JoinSplit(tail, pat);
      assert SplitOn(s, pat)[1..] == SplitOn(tail, pat);
      Slices(s, i.value, i.value + |pat|);
      Rejoin(s, i.value + |pat|);
    }
  }

  predicate Plain(line: string) {
    Find(line, CRLF).None?
  }

  /** In `line CRLF rest` the first CRLF is the one after the line. */
  lemma FirstBreak(line: string, rest: string)
    requires Plain(line)
    ensures Find(line + CRLF + rest, CRLF) == Some(|line|)
  {
    var s := line + CRLF + rest;
    assert s[|line|..|line| + 2] == CRLF;
    forall j: nat | j < |line|
      ensures !At(s, CRLF, j)
    {
      if j + 1 < |line| {
        assert !At(line, CRLF, j);
        assert s[j..j + 2] == line[j..j + 2];
      } else {
        assert s[j..j + 2][1] == '\r';
      }
    }
    FindIs(s, CRLF, |line|);
  }

  lemma {:induction false} SplitJoin(lines: seq<string>)
    requires lines != [] && forall l | l in lines :: Plain(l)
    ensures SplitOn(Join(lines, CRLF), CRLF) == lines
  {
    if |lines| > 1 {
      SplitJoin(lines[1..]);
      var rest := Join(lines[1..], CRLF);
      FirstBreak(lines[0], rest);
      var s := lines[0] + CRLF + rest;
      assert s[..|lines[0]|] == lines[0] && s[|lines[0]| + 2..] == rest;
      assert Join(lines, CRLF) == s;
      Rejoin(lines, 1);
      assert lines[..1] == [lines[0]];
    } else {
      assert [lines[0]] == lines;
      assert Plain(lines[0]);
    }
  }

  lemma {:induction false} SplitPlain(s: string)
    ensures forall l | l in SplitOn(s, CRLF) :: Plain(l)
    decreases |s|
  {
    var i := Find(s, CRLF);
    if i.Some? {
      SplitPlain(s[i.value + 2..]);
      var line := s[..i.value];
      forall j: nat
        ensures !At(line, CRLF, j)
      {
        if j + |CRLF| <= |line| {
          SubTake(s, i.value, j, j + |CRLF|);
          assert !At(s, CRLF, j);
        }
      }
    }
  }

  // ----- The Python server -----

  /** `str.casefold` on text decoded from ISO-8859-1. */
  function FoldChar(c: char): string {
    if 'A' <= c <= 'Z' then [(c as int + 32) as char]
    else if c as int == 0xB5 then "\U{3BC}"
    else if 0xC0 <= c as int <= 0xDE && c as int != 0xD7 then [(c as int + 32) as char]
    else if c as int == 0xDF then "ss"
    else [c]
  }

  function Fold(s: string): string {
    if s == "" then "" else Fold(s[..|s| - 1]) + FoldChar(s[|s| - 1])
  }

  predicate Alnum(c: char) {
    'a' <= c <= 'z' || 'A' <= c <= 'Z' || '0' <= c <= '9'
  }

  predicate IsToken(s: string) {
    s != "" && forall c | c in s :: Alnum(c) || c in TOKEN_SYMBOLS
  }

  predicate Control(c: char) {
    c as int < 32 || c as int == 127
  }

  /** `strip(" \t")`. */
  function Strip(s: string): string {
    if s != "" && s[0] in " \t" then Strip(s[1..])
    else if s != "" && s[|s| - 1] in " \t" then Strip(s[..|s| - 1])
    else s
  }

  type Headers = map<string, string>

  /** One header line added to those before it; None is a ValueError. */
  function AddHeader(headers: Headers, line: string): Option<Headers> {
    var colon := IndexOf(line, ':');
    if colon.None? then None
    else
      var name, value := Fold(line[..colon.value]), line[colon.value + 1..];
      if !IsToken(name) || name in headers then None
      else if exists c | c in value :: Control(c) && c != '\t' then None
      else Some(headers[name := Strip(value)])
  }

  function HeadersOf(lines: seq<string>): Option<Headers> {
    if lines == [] then Some(map[])
    else
      var before := HeadersOf(lines[..|lines| - 1]);
      if before.None? then None else AddHeader(before.value, lines[|lines| - 1])
  }

  /** `parse_headers`. */
  function ParseHeaders(block: string): Option<Headers> {
    HeadersOf(if block == "" then [] else SplitOn(block, CRLF))
  }

  method ReadHeaders(block: string) returns (r: Option<Headers>)
    ensures r == ParseHeaders(block)
  {
    var lines := if block == "" then [] else SplitOn(block, CRLF);
    var headers: Headers := map[];
    for i := 0 to |lines|
      invariant HeadersOf(lines[..i]) == Some(headers)
    {
      Slices(lines, i, i + 1);
      RefusedStays(lines, i + 1);
      var colon := IndexOf(lines[i], ':');
      if colon.None? {
        return None;
      }
      var name, value := Fold(lines[i][..colon.value]), lines[i][colon.value + 1..];
      if !IsToken(name) || name in headers {
        return None;
      }
      if exists c | c in value :: Control(c) && c != '\t' {
        return None;
      }
      headers := headers[name := Strip(value)];
    }
    Whole(lines);
    return Some(headers);
  }

  lemma {:induction false} RefusedStays(lines: seq<string>, n: nat)
    requires n <= |lines|
    ensures HeadersOf(lines[..n]).None? ==> HeadersOf(lines).None?
  {
    if n < |lines| {
      Slices(lines, n, |lines| - 1);
      RefusedStays(lines[..|lines| - 1], n);
    } else {
      Whole(lines);
    }
  }

  datatype Request = Request(verb: string, target: string, version: string, headers: Headers)

  /** `parse_request_line`. */
  function ParseRequestLine(line: string): Option<(string, string, string)> {
    var parts := SplitOn(line, " ");
    if (exists c | c in line :: c as int >= 128) || |parts| != 3 then None
    else
      var (verb, target, version) := (parts[0], parts[1], parts[2]);
      if !IsToken(verb) || target == "" || target[0] != '/'
         || (exists c | c in target :: Control(c)) || version !in SUPPORTED_VERSIONS
      then None
      else Some((verb, target, version))
  }

  /** The lines before the first blank line, or of the whole request when there is none. */
  function HeaderLines(request: string): (lines: seq<string>)
    ensures lines != []
  {
    var end := Find(request, BLANK);
    SplitOn(if end.Some? then request[..end.value] else request, CRLF)
  }

  /** `parse_request`. */
  function ParseRequest(request: string): Option<Request> {
    if Find(request, BLANK).None? then None
    else
      var lines := HeaderLines(request);
      var first, headers := ParseRequestLine(lines[0]), ParseHeaders(Join(lines[1..], CRLF));
      if lines[0] == "" || first.None? || headers.None? then None
      else Some(Request(first.value.0, first.value.1, first.value.2, headers.value))
  }

  // ----- The Go programs -----

  const UNSUPPORTED := {"content-length", "transfer-encoding"}

  function Lower(s: string): string {
    seq(|s|, i requires 0 <= i < |s| => if 'A' <= s[i] <= 'Z' then (s[i] as int + 32) as char else s[i])
  }

  const REPLACEMENT := [0xEF as char, 0xBF as char, 0xBD as char]

  /**
   * `bytes.ToLower` on text without well-formed multi-byte characters: ASCII letters are
   * lowered, and every other byte becomes the three bytes of the replacement character.
   */
  function GoLower(s: string): string {
    if s == "" then ""
    else
      var c := s[|s| - 1];
      GoLower(s[..|s| - 1]) +
      if c as int >= 128 then REPLACEMENT else if 'A' <= c <= 'Z' then [(c as int + 32) as char] else [c]
  }

  /** `bytes.TrimSpace` on ASCII. */
  function TrimSpace(s: string): string {
    if s != "" && IsSpace(s[0]) then TrimSpace(s[1..])
    else if s != "" && IsSpace(s[|s| - 1]) then TrimSpace(s[..|s| - 1])
    else s
  }

  /** The part of a line before its first colon, or all of it. */
  function NameOf(line: string): string {
    var colon := IndexOf(line, ':');
    if colon.Some? then line[..colon.value] else line
  }

  /** The header name a Go program compares. */
  function KeyOf(line: string): string {
    TrimSpace(GoLower(NameOf(line)))
  }

  /** Some line after the first names a body header. */
  ghost predicate NamesBody(request: string) {
    exists i :: 1 <= i < |HeaderLines(request)| && KeyOf(HeaderLines(request)[i]) in UNSUPPORTED
  }

  /** `hasUnsupportedBody`, alike in the load balancer and the reverse proxy. */
  method HasUnsupportedBody(request: string) returns (found: bool)
    ensures found <==> NamesBody(request)
  {
    var lines := HeaderLines(request)[1..];
    var unsupported := ["content-length", "transfer-encoding"];
    for i := 0 to |lines|
      invariant forall k | 0 <= k < i :: KeyOf(lines[k]) !in UNSUPPORTED
    {
      var colon := IndexOf(lines[i], ':');
      var name := if colon.Some? then lines[i][..colon.value] else lines[i];
      var key := TrimSpace(GoLower(name));
      for j := 0 to |unsupported|
        invariant forall k | 0 <= k < j :: key != unsupported[k]
      {
        if key == unsupported[j] {
          assert KeyOf(HeaderLines(request)[i + 1]) in UNSUPPORTED;
          return true;
        }
      }
      assert key != unsupported[0] && key != unsupported[1];
    }
    assert forall i | 1 <= i < |HeaderLines(request)| :: HeaderLines(request)[i] == lines[i - 1];
    return false;
  }

  // ----- Agreement -----

  predicate Ascii(s: string) {
    forall i | 0 <= i < |s| :: s[i] as int < 128
  }

  lemma {:induction false} FoldAscii(s: string)
    requires Ascii(s)
    ensures Fold(s) == Lower(s)
  {
    if s != "" {
      FoldAscii(s[..|s| - 1]);
    }
  }

  lemma {:induction false} GoLowerAscii(s: string)
    requires Ascii(s)
    ensures GoLower(s) == Lower(s)
  {
    if s != "" {
      GoLowerAscii(s[..|s| - 1]);
    }
  }

  /** A name with any other byte keeps one that is not ASCII. */
  lemma {:induction false} GoLowerForeign(s: string)
    requires !Ascii(s)
    ensures REPLACEMENT[0] in GoLower(s)
  {
    var n := |s| - 1;
    if s[n] as int >= 128 {
      assert REPLACEMENT[0] in REPLACEMENT;
    } else {
      GoLowerForeign(s[..n]);
    }
  }

  lemma {:induction false} TrimKeeps(s: string, c: char)
    requires c in s && !IsSpace(c)
    ensures c in TrimSpace(s)
    decreases |s|
  {
    if IsSpace(s[0]) {
      TrimKeeps(s[1..], c);
    } else if IsSpace(s[|s| - 1]) {
      TrimKeeps(s[..|s| - 1], c);
    }
  }

  /** Two letters s in a row: what the sharp s folds to. */
  predicate DoubleS(s: string) {
    exists i :: 0 <= i < |s| - 1 && s[i] == 's' && s[i + 1] == 's'
  }

  predicate TokenText(s: string) {
    forall i | 0 <= i < |s| :: Alnum(s[i]) || s[i] in TOKEN_SYMBOLS
  }

  lemma DoubleSGrows(s: string, t: string)
    requires DoubleS(s) || DoubleS(t)
    ensures DoubleS(s + t)
  {
    if DoubleS(s) {
      var i :| 0 <= i < |s| - 1 && s[i] == 's' && s[i + 1] == 's';
      assert (s + t)[i] == 's' && (s + t)[i + 1] == 's';
    } else {
      var i :| 0 <= i < |t| - 1 && t[i] == 's' && t[i + 1] == 's';
      assert (s + t)[|s| + i] == 's' && (s + t)[|s| + i + 1] == 's';
    }
  }

  lemma TokenTextAscii(c: char)
    requires Alnum(c) || c in TOKEN_SYMBOLS
    ensures c as int < 128
  {
  }

  /** The only other names that fold to a token hold a sharp s. */
  lemma {:induction false} FoldForeign(s: string)
    requires !Ascii(s) && TokenText(Fold(s))
    ensures DoubleS(Fold(s))
  {
    var n := |s| - 1;
    var before, last := Fold(s[..n]), FoldChar(s[n]);
    assert forall i | 0 <= i < |before| :: Fold(s)[i] == before[i];
    if s[n] as int >= 128 {
      assert Fold(s)[|before|] == last[0];
      TokenTextAscii(last[0]);
      assert last == "ss" && last[0] == 's' && last[1] == 's';
      DoubleSGrows(before, last);
    } else {
      FoldForeign(s[..n]);
      DoubleSGrows(before, last);
    }
  }

  lemma UnsupportedPlain(k: string)
    requires k in UNSUPPORTED
    ensures !DoubleS(k) && REPLACEMENT[0] !in k
  {
  }

  /** Of a line whose folded name is a token, both sides see a body header or neither does. */
  lemma KeysAgree(line: string)
    requires IsToken(Fold(NameOf(line)))
    ensures KeyOf(line) in UNSUPPORTED <==> Fold(NameOf(line)) in UNSUPPORTED
  {
    var name := NameOf(line);
    assert forall i | 0 <= i < |Fold(name)| :: Fold(name)[i] in Fold(name);
    if Ascii(name) {
      FoldAscii(name);
      GoLowerAscii(name);
      TokenUntrimmed(Fold(name));
    } else {
      FoldForeign(name);
      GoLowerForeign(name);
      TrimKeeps(GoLower(name), REPLACEMENT[0]);
      if KeyOf(line) in UNSUPPORTED {
        UnsupportedPlain(KeyOf(line));
      }
      if Fold(name) in UNSUPPORTED {
        UnsupportedPlain(Fold(name));
      }
    }
  }

  lemma TokenUntrimmed(s: string)
    requires IsToken(s)
    ensures TrimSpace(s) == s
  {
    assert s[0] in s && s[|s| - 1] in s;
    assert forall c | c in TOKEN_SYMBOLS :: !IsSpace(c);
  }

  /** The parsed headers are exactly the folded names of the lines. */
  lemma {:induction false} HeaderNames(lines: seq<string>)
    requires HeadersOf(lines).Some?
    ensures forall l | l in lines :: IndexOf(l, ':').Some? && IsToken(Fold(NameOf(l)))
    ensures forall k :: k in HeadersOf(lines).value <==> exists l :: l in lines && Fold(NameOf(l)) == k
  {
    if lines != [] {
      var n := |lines| - 1;
      HeaderNames(lines[..n]);
      Rejoin(lines, n);
      assert forall l :: l in lines <==> l in lines[..n] || l == lines[n];
    }
  }

  /**
   * For every request the HTTP server can parse, the Go scan finds a body header exactly when
   * the parsed headers hold one.
   */
  lemma BodyGateAgrees(request: string)
    requires ParseRequest(request).Some?
    ensures NamesBody(request) <==> exists k :: k in UNSUPPORTED && k in ParseRequest(request).value.headers
  {
    var lines := HeaderLines(request);
    var tail, headers := lines[1..], ParseRequest(request).value.headers;
    var end := Find(request, BLANK);
    SplitPlain(request[..end.value]);
    assert forall l | l in tail :: l in lines;
    if tail != [] && Join(tail, CRLF) != "" {
      SplitJoin(tail);
      HeaderNames(tail);
      forall l | l in tail
        ensures KeyOf(l) in UNSUPPORTED <==> Fold(NameOf(l)) in UNSUPPORTED
      {
        KeysAgree(l);
      }
      KeysMatch(lines, headers);
    } else {
      NoHeaderLines(tail);
    }
  }

  lemma KeysMatch(lines: seq<string>, headers: Headers)
    requires lines != []
    requires forall l | l in lines[1..] :: KeyOf(l) in UNSUPPORTED <==> Fold(NameOf(l)) in UNSUPPORTED
    requires forall k :: k in headers <==> exists l :: l in lines[1..] && Fold(NameOf(l)) == k
    ensures (exists i :: 1 <= i < |lines| && KeyOf(lines[i]) in UNSUPPORTED) <==> exists k :: k in UNSUPPORTED && k in headers
  {
    if i :| 1 <= i < |lines| && KeyOf(lines[i]) in UNSUPPORTED {
      assert lines[i] in lines[1..];
      assert Fold(NameOf(lines[i])) in headers;
    }
    if k :| k in UNSUPPORTED && k in headers {
      var l :| l in lines[1..] && Fold(NameOf(l)) == k;
      var i :| 0 <= i < |lines[1..]| && lines[1..][i] == l;
      assert KeyOf(lines[i + 1]) in UNSUPPORTED;
    }
  }

  /** Lines that join to nothing hold no name. */
  lemma NoHeaderLines(tail: seq<string>)
    requires tail == [] || Join(tail, CRLF) == ""
    ensures forall l | l in tail :: KeyOf(l) !in UNSUPPORTED
  {
    assert |tail| > 1 ==> |Join(tail, CRLF)| >= 2;
    assert KeyOf("") == "";
  }
}
