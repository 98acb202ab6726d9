// The load balancer's own responses, as the HTTP client reads them.
module ErrorPages {
  import opened Text
  import opened Decimal
  import opened HttpRequest
  import opened HttpResponse
  import opened HttpRequestGrammar
  import opened HttpResponseGrammar
  import Failover

  /** A line of a plain name and text. */
  lemma PlainField(name: string, value: string)
    requires IsToken(name) && Ascii(name) && !BadText(value) && ':' !in name
    ensures var line := name + ": " + value;
            GoodFieldLine(line) && NameOf(line) == name && TextOf(line) == " " + value
  {
    var line := name + ": " + value;
    assert line == name + ":" + (" " + value);
    SplitsAt(name, ':', " " + value);
    TokenFolds(name);
    SpaceIsText(value);
  }

  /** The headers of an error response. */
  function ErrorHeaders(length: nat): Headers {
    map["content-length" := Print(length), "connection" := "close"]
  }

  /** The two lines of an error response are read as its body's length and the close. */
  lemma ErrorLines(lines: seq<string>, length: nat)
    requires lines == ["Content-Length: " + Print(length), "Connection: close"]
    ensures GoodFieldLines(lines) && Mapping(map[], lines) == ErrorHeaders(length)
  {
    DigitsText(length);
    Names();
    PlainField("Content-Length", Print(length));
    PlainField("Connection", "close");
    assert "Content-Length" + ": " == "Content-Length: " && "Connection" + ": " + "close" == "Connection: close";
    TwoLines(lines, "Content-Length", Print(length), "Connection", "close");
  }

  lemma DigitsText(n: nat)
    ensures !BadText(Print(n)) && HttpRequest.Strip(Print(n)) == Print(n) && HttpRequest.Strip("close") == "close"
  {
    StripDigits(n);
  }

  lemma LengthIsToken()
    ensures IsToken("Content-Length") && ':' !in "Content-Length"
  {
    assert '-' in TOKEN_SYMBOLS;
  }

  lemma ConnectionIsToken()
    ensures IsToken("Connection") && ':' !in "Connection" && !BadText("close")
  {
  }

  lemma Names()
    ensures IsToken("Content-Length") && IsToken("Connection")
    ensures Ascii("Content-Length") && Ascii("Connection") && ':' !in "Content-Length" && ':' !in "Connection"
    ensures Fold("Content-Length") == "content-length" && Fold("Connection") == "connection"
    ensures !BadText("close")
  {
    LengthIsToken();
    ConnectionIsToken();
    TokenFolds("Content-Length");
    TokenFolds("Connection");
    LengthName();
    ConnectionName();
  }

  lemma TwoLines(lines: seq<string>, a: string, x: string, b: string, y: string)
    requires lines == [a + ": " + x, b + ": " + y] && HttpRequest.Strip(x) == x && HttpRequest.Strip(y) == y
    requires GoodFieldLine(lines[0]) && NameOf(lines[0]) == a && TextOf(lines[0]) == " " + x
    requires GoodFieldLine(lines[1]) && NameOf(lines[1]) == b && TextOf(lines[1]) == " " + y
    ensures GoodFieldLines(lines) && Mapping(map[], lines) == map[][Fold(a) := x][Fold(b) := y]
  {
    StripSpace(x);
    StripSpace(y);
    var first: Headers := map[];
    var next := first[Fold(a) := x];
    assert lines[1..] == [lines[1]] && lines[1..][1..] == [];
    assert Mapping(next, lines[1..]) == next[Fold(b) := y];
  }

  lemma LongKeys(length: nat)
    ensures "transfer-encoding" !in ErrorHeaders(length) && "content-encoding" !in ErrorHeaders(length)
  {
    assert |"transfer-encoding"| == 17 && |"content-encoding"| == 16 && |"content-length"| == 14 && |"connection"| == 10;
  }

  lemma TextOfTwo(status: string, first: string, second: string, body: string)
    ensures status + CRLF + (Block([first, second]) + CRLF + body) == status + CRLF + first + CRLF + second + CRLF + CRLF + body
  {
    assert [first, second][1..] == [second] && [second][1..] == [];
    assert Block([second]) == second + CRLF;
    assert Block([first, second]) == first + CRLF + (second + CRLF);
  }

  lemma TextOfPieces(version: string, status: string, name: string, length: string, second: string, body: string)
    ensures version + status + CRLF + name + length + CRLF + second + CRLF + CRLF + body ==
            version + status + CRLF + (Block([name + length, second]) + CRLF + body)
  {
    Assoc(version + status + CRLF, name, length);
    TextOfTwo(version + status, name + length, second, body);
  }

  lemma ErrorText(raw: string, reason: string, body: string)
    ensures Failover.ErrorResponse(raw + " " + reason, body) ==
            ResponseText("HTTP/1.0", raw, reason, ["Content-Length: " + Print(|body|), "Connection: close"], body)
  {
    TextOfPieces("HTTP/1.0 ", raw + " " + reason, "Content-Length: ", Print(|body|), "Connection: close", body);
    VersionWord();
  }

  lemma VersionWord()
    ensures "HTTP/1.0" + " " == "HTTP/1.0 "
  {
  }

  /**
   * Whatever status and body the load balancer reports, the client reads them back with the body's
   * decimal length and the close.
   */
  lemma ErrorIsRead(raw: string, reason: string, body: string)
    requires |raw| == 3 && AllDigits(raw) && !BadText(reason)
    ensures Parse(Failover.ErrorResponse(raw + " " + reason, body)) ==
            Parsed.Ok(Response("HTTP/1.0", ValueOf(raw), reason, ErrorHeaders(|body|), body))
  {
    var lines := ["Content-Length: " + Print(|body|), "Connection: close"];
    ErrorText(raw, reason, body);
    ErrorLines(lines, |body|);
    ResponseRead("HTTP/1.0", raw, reason, lines, body);
    LongKeys(|body|);
  }

  /** In particular 400 and 502. */
  lemma ErrorPagesAreRead()
    ensures Parse(Failover.BAD_REQUEST) ==
            Parsed.Ok(Response("HTTP/1.0", 400, "Bad Request", ErrorHeaders(|"Bad Request\n"|), "Bad Request\n"))
    ensures Parse(Failover.BAD_GATEWAY) ==
            Parsed.Ok(Response("HTTP/1.0", 502, "Bad Gateway", ErrorHeaders(|"Bad Gateway\n"|), "Bad Gateway\n"))
  {
    Codes();
    assert "400" + " " + "Bad Request" == "400 Bad Request" && "502" + " " + "Bad Gateway" == "502 Bad Gateway";
    ErrorIsRead("400", "Bad Request", "Bad Request\n");
    ErrorIsRead("502", "Bad Gateway", "Bad Gateway\n");
  }

  lemma Codes()
    ensures AllDigits("400") && ValueOf("400") == 400 && AllDigits("502") && ValueOf("502") == 502
    ensures !BadText("Bad Request") && !BadText("Bad Gateway")
  {
    assert "400"[..2] == "40" && "40"[..1] == "4" && "4"[..0] == "";
    assert "502"[..2] == "50" && "50"[..1] == "5" && "5"[..0] == "";
    assert ValueOf("4") == 4 && ValueOf("40") == 40 && ValueOf("5") == 5 && ValueOf("50") == 50;
  }
}
