// The Python cache client's command encoders and reply checks, against the C server's parser.
module CacheClient {
  import opened Text
  import opened CacheStore
  import opened Decimal
  import opened CacheProtocol
  import opened Chunking
  import Framing = CacheFraming

  const MAX_REPLY_SIZE := VALUE_MAX + |"VALUE "| + 1

  /** `_encode_key`; None is a CacheError. */
  function EncodeKey(key: string): Option<string> {
    if (forall c | c in key :: c as int < 128)
       && 0 < |key| <= KEY_MAX && (forall c | c in key :: c as int > 32)
    then Some(key) else None
  }

  function EncodeValue(value: string): Option<string> {
    if 0 < |value| <= VALUE_MAX && '\r' !in value && '\n' !in value && '\0' !in value
    then Some(value) else None
  }

  function GetCommand(key: string): Option<string> {
    var k := EncodeKey(key);
    if k.None? then None else Some("GET " + k.value + "\n")
  }

  function SetCommand(key: string, value: string, ttl: int): Option<string> {
    var k, v := EncodeKey(key), EncodeValue(value);
    if k.None? || v.None? || !(0 <= ttl <= TTL_MAX) then None
    else Some("SET " + k.value + " " + Print(ttl) + " " + v.value + "\n")
  }

  /** `readline(MAX_REPLY_SIZE + 1)` and the checks of `_command`; None is a CacheError. */
  function ReadReply(stream: string): Option<string> {
    var nl := IndexOf(stream, '\n');
    var limit := Min(|stream|, MAX_REPLY_SIZE + 1);
    var reply := if nl.Some? && nl.value < limit then stream[..nl.value + 1] else stream[..limit];
    if |reply| > MAX_REPLY_SIZE || reply == "" || reply[|reply| - 1] != '\n' then None else Some(reply)
  }

  datatype Fetched = Hit(value: string) | Miss | CacheError

  /** `get` after `_command`. */
  function DecodeGet(reply: Option<string>): Fetched {
    if reply.None? then CacheError
    else
      var text := reply.value;
      if text == "NOT_FOUND\n" then Miss
      else if "VALUE " <= text && |text| > 6 && '\n' !in text[..|text| - 1] then
        var value := EncodeValue(text[6..|text| - 1]);
        if value.None? then CacheError else Hit(value.value)
      else CacheError
  }

  /** `set` after `_command`: true when it returns, false when it raises. */
  predicate DecodeSet(reply: Option<string>) {
    reply == Some("OK\n")
  }

  // ----- Round trips -----

  /** A command is one short line for the server's framing. */
  lemma OneLine(line: string)
    requires '\n' !in line
    ensures Framing.Split(line + "\n") == Framing.Frames([line], "")
  {
    Framing.SplitLine(line, "");
    assert line + "\n" + "" == line + "\n";
  }

  lemma PlainLine(line: string)
    requires line != "" && '\0' !in line && line[|line| - 1] != '\r'
    ensures Strip(line) == Some(line)
  {
  }

  /** The server executes exactly the SET the client meant, and nothing else. */
  lemma SetRoundTrip(key: string, value: string, ttl: int)
    requires SetCommand(key, value, ttl).Some?
    ensures var f := Framing.Split(SetCommand(key, value, ttl).value);
            && |f.lines| == 1 && f.rest == "" && |f.lines[0]| <= Framing.LINE_MAX - RECV_BUF
            && CommandOf(f.lines[0]) == Some(Set(key, ttl, value))
  {
    var digits := Print(ttl);
    PrintParses(ttl);
    var line := SetText(key, digits, value);
    assert line + "\n" == SetCommand(key, value, ttl).value;
    assert '\n' !in line && '\0' !in line;
    assert line[|line| - 1] == value[|value| - 1];
    OneLine(line);
    PlainLine(line);
    assert ValidKey(key);
    SetTextParses(key, digits, value);
  }

  lemma GetRoundTrip(key: string)
    requires GetCommand(key).Some?
    ensures var f := Framing.Split(GetCommand(key).value);
            && |f.lines| == 1 && f.rest == "" && |f.lines[0]| <= Framing.LINE_MAX - RECV_BUF
            && CommandOf(f.lines[0]) == Some(Get(key))
  {
    var line := "GET " + key;
    assert line[|line| - 1] == key[|key| - 1] && key[|key| - 1] in key;
    OneLine(line);
    PlainLine(line);
    assert line[4..] == key;
  }

  /** A reply line reads back whole when it fits the client's bound, and is refused otherwise. */
  lemma ReadsLine(text: string, more: string)
    requires '\n' !in text
    ensures ReadReply(text + "\n" + more) == if |text| < MAX_REPLY_SIZE then Some(text + "\n") else None
  {
    var stream := text + "\n" + more;
    assert stream[..|text|] == text;
    IndexOfIs(stream, '\n', |text|);
    if |text| < MAX_REPLY_SIZE {
      assert stream[..|text| + 1] == text + "\n";
    }
  }

  /**
   * The client takes a hit from a reply exactly when the server sent that value and it is one
   * the client could have stored; whatever follows the reply on the connection is ignored.
   */
  lemma ReplyRoundTrip(r: Reply<string>, value: string, more: string)
    requires r.Value? ==> '\n' !in r.value
    ensures DecodeGet(ReadReply(Format(r) + more)) == Hit(value) <==>
            r == Value(value) && EncodeValue(value).Some?
    ensures DecodeGet(ReadReply(Format(r) + more)) == Miss <==> r == NotFound
    ensures DecodeSet(ReadReply(Format(r) + more)) <==> r == Ok
  {
    ReadsReply(r, more);
    match r
    case Value(v) => ValueDecodes(v, value);
    case NotFound =>
    case Ok =>
    case Error =>
  }

  /** The client reads back the reply the server sent, unless it exceeds the client's bound. */
  lemma ReadsReply(r: Reply<string>, more: string)
    requires r.Value? ==> '\n' !in r.value
    ensures ReadReply(Format(r) + more) == if |Format(r)| <= MAX_REPLY_SIZE then Some(Format(r)) else None
  {
    var text := Format(r);
    var line := text[..|text| - 1];
    assert text == line + "\n" && '\n' !in line;
    ReadsLine(line, more);
  }

  lemma ValueDecodes(v: string, value: string)
    requires '\n' !in v
    ensures var text := Format(Value(v));
            var got := DecodeGet(if |text| <= MAX_REPLY_SIZE then Some(text) else None);
            got != Miss && (got == Hit(value) <==> v == value && EncodeValue(v).Some?)
  {
    var text := Format(Value(v));
    if |v| <= VALUE_MAX {
      assert text == "VALUE " + v + "\n" && text[0] == 'V';
      assert text[6..|text| - 1] == v;
      assert text[..|text| - 1] == "VALUE " + v;
    }
  }

  /** A reply to GET, on a connection that carries nothing else. */
  lemma AnswerReadsBack(r: Reply<string>, value: string)
    requires EncodeValue(value).Some? && (r == Value(value) || r == NotFound)
    ensures DecodeGet(ReadReply(Format(r))) == if r == NotFound then Miss else Hit(value)
  {
    ReplyRoundTrip(r, value, "");
    assert Format(r) + "" == Format(r);
  }

  /** A set that succeeded is what a get returns, byte for byte, until it expires or is overwritten. */
  lemma {:induction false} StoredThenFetched(
    s: seq<Entry<string, string>>, run: seq<Timed<string, string>>, start: int,
    key: string, value: string, ttl: nat, more: string)
    requires SetCommand(key, value, ttl).Some? && GetCommand(key).Some?
    requires ValidSlots(s) && Monotone(run, start) && |run| >= 2
    requires Some(run[0].command) == CommandOf(Framing.Split(SetCommand(key, value, ttl).value).lines[0])
    requires Some(run[|run| - 1].command) == CommandOf(Framing.Split(GetCommand(key).value).lines[0])
    requires forall i | 1 <= i < |run| :: run[i].command.Get? || run[i].command.key != key
    requires ttl == 0 || run[|run| - 1].now < run[0].now + ttl * 1000
    requires DecodeSet(ReadReply(Format(RunLazy(s, run).1[0]) + more))
    ensures DecodeGet(ReadReply(Format(RunLazy(s, run).1[|run| - 1]) + more)) == Hit(value)
  {
    SetRoundTrip(key, value, ttl);
    GetRoundTrip(key);
    assert run[0].command == Set(key, ttl, value);
    SetReply(s, run);
    ReplyRoundTrip(RunLazy(s, run).1[0], value, more);
    SetThenGet(s, run, start);
    ReplyRoundTrip(Value(value), value, more);
  }

  lemma {:induction false} SetReply(s: seq<Entry<string, string>>, run: seq<Timed<string, string>>)
    requires run != [] && run[0].command.Set?
    ensures RunLazy(s, run).1[0] in {Ok, Error}
  {
    var n := |run| - 1;
    if n > 0 {
      SetReply(s, run[..n]);
    }
  }
}
