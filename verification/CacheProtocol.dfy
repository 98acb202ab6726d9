// The cache's text protocol: which command a line is, and what a reply looks like.
module CacheProtocol {
  import opened Text
  import opened CacheStore
  import opened Decimal

  const KEY_MAX := 256
  const VALUE_MAX := 4096
  const TTL_MAX := 86400
  const REPLY_BUF := VALUE_MAX + 32

  /** Commands and replies of the store as the protocol instantiates it. */
  type Line = Command<string, string>

  predicate ValidKey(key: string) {
    0 < |key| <= KEY_MAX && forall c | c in key :: !IsSpace(c)
  }

  method CheckKey(key: string) returns (ok: bool)
    ensures ok == ValidKey(key)
  {
    if |key| == 0 || |key| > KEY_MAX {
      return false;
    }
    for i := 0 to |key|
      invariant forall c | c in key[..i] :: !IsSpace(c)
    {
      if IsSpace(key[i]) {
        return false;
      }
    }
    return true;
  }

  /** 1 to 5 digits denoting at most a day of seconds. */
  function ParseTtl(s: string): Option<nat> {
    if 0 < |s| <= 5 && AllDigits(s) && ValueOf(s) <= TTL_MAX then Some(ValueOf(s)) else None
  }

  method ReadTtl(s: string) returns (ttl: Option<nat>)
    ensures ttl == ParseTtl(s)
  {
    if |s| == 0 || |s| > 5 {
      return None;
    }
    for i := 0 to |s|
      invariant AllDigits(s[..i])
    {
      if !IsDigit(s[i]) {
        return None;
      }
    }
    // strtol
    var v := 0;
    for i := 0 to |s|
      invariant v == ValueOf(s[..i])
    {
      v := v * 10 + (s[i] as int - '0' as int);
      assert s[..i + 1][..i] == s[..i];
    }
    assert s[..|s|] == s;
    return if v > TTL_MAX then None else Some(v);
  }

  /** The command on a line, or None where the server answers ERROR without taking the lock. */
  function ParseLine(line: string): Option<Line> {
    if "GET " <= line then
      var key := line[4..];
      if ValidKey(key) then Some(Get(key)) else None
    else if "DELETE " <= line then
      var key := line[7..];
      if ValidKey(key) then Some(Delete(key)) else None
    else if "SET " <= line then
      ParseSet(line[4..])
    else
      None
  }

  function ParseSet(p: string): Option<Line> {
    var sp1 := IndexOf(p, ' ');
    if sp1.None? then None
    else
      var key, ts := p[..sp1.value], p[sp1.value + 1..];
      if !ValidKey(key) then None
      else
        var sp2 := IndexOf(ts, ' ');
        if sp2.None? then None
        else
          var ttl, value := ParseTtl(ts[..sp2.value]), ts[sp2.value + 1..];
          if ttl.None? || |value| == 0 || |value| > VALUE_MAX then None
          else Some(Set(key, ttl.value, value))
  }

  /** What a framed line holds for the command parser: no NUL, one trailing CR dropped, not empty. */
  function Strip(raw: string): Option<string> {
    if '\0' in raw then None
    else
      var line := if |raw| > 0 && raw[|raw| - 1] == '\r' then raw[..|raw| - 1] else raw;
      if line == "" then None else Some(line)
  }

  function CommandOf(raw: string): Option<Line> {
    var line := Strip(raw);
    if line.None? then None else ParseLine(line.value)
  }

  /** `send_reply`: a reply that overruns the buffer is sent as ERROR. */
  function Format(r: Reply<string>): string {
    var text := match r
      case Value(v) => "VALUE " + v + "\n"
      case NotFound => "NOT_FOUND\n"
      case Ok => "OK\n"
      case Error => "ERROR\n";
    if |text| >= REPLY_BUF then "ERROR\n" else text
  }

  // ----- The grammar -----

  function SetText(key: string, ttl: string, value: string): string {
    "SET " + key + " " + ttl + " " + value
  }

  lemma SetBodyParses(key: string, ttl: string, value: string)
    requires ValidKey(key) && ParseTtl(ttl).Some? && 0 < |value| <= VALUE_MAX
    ensures ParseSet(key + " " + (ttl + " " + value)) == Some(Set(key, ParseTtl(ttl).value, value))
  {
    SplitsAt(key, ' ', ttl + " " + value);
    SplitsAt(ttl, ' ', value);
  }

  lemma SetTextParses(key: string, ttl: string, value: string)
    requires ValidKey(key) && ParseTtl(ttl).Some? && 0 < |value| <= VALUE_MAX
    ensures ParseLine(SetText(key, ttl, value)) == Some(Set(key, ParseTtl(ttl).value, value))
  {
    var p := key + " " + (ttl + " " + value);
    Joined(key, ttl, value, p, ttl + " " + value);
    SetLine(p);
    SetBodyParses(key, ttl, value);
  }

  lemma SetLine(p: string)
    ensures ParseLine("SET " + p) == ParseSet(p)
  {
    Halves("SET ", p);
    assert ("SET " + p)[0] == 'S';
  }

  /** A string is its part before the first occurrence, the character, and its part after. */
  lemma Cut(s: string, c: char)
    requires IndexOf(s, c).Some?
    ensures var i := IndexOf(s, c).value; s == s[..i] + [c] + s[i + 1..]
  {
  }

  lemma Joined(key: string, digits: string, value: string, p: string, ts: string)
    requires p == key + " " + ts && ts == digits + " " + value
    ensures "SET " + p == SetText(key, digits, value)
  {
  }

  lemma SetDigits(line: string, key: string, ttl: nat, value: string) returns (digits: string)
    requires ParseLine(line) == Some(Set(key, ttl, value))
    ensures ValidKey(key) && 0 < |value| <= VALUE_MAX
    ensures ParseTtl(digits) == Some(ttl) && line == SetText(key, digits, value)
  {
    assert "SET " <= line && ParseSet(line[4..]) == Some(Set(key, ttl, value)) by {
      if "GET " <= line {
      } else if "DELETE " <= line {
      }
    }
    var p := line[4..];
    Cut(p, ' ');
    var ts := p[IndexOf(p, ' ').value + 1..];
    Cut(ts, ' ');
    digits := ts[..IndexOf(ts, ' ').value];
    Joined(key, digits, value, p, ts);
    assert line == "SET " + p;
  }

  /** A line is a SET exactly when it is the word, a key, a TTL numeral and a value, one space apart. */
  lemma ParseLineIsSet(line: string, key: string, ttl: nat, value: string)
    ensures ParseLine(line) == Some(Set(key, ttl, value)) <==>
            && ValidKey(key) && 0 < |value| <= VALUE_MAX
            && exists digits :: ParseTtl(digits) == Some(ttl) && line == SetText(key, digits, value)
  {
    if ParseLine(line) == Some(Set(key, ttl, value)) {
      var digits := SetDigits(line, key, ttl, value);
    }
    if ValidKey(key) && 0 < |value| <= VALUE_MAX {
      forall digits | ParseTtl(digits) == Some(ttl) && line == SetText(key, digits, value)
        ensures ParseLine(line) == Some(Set(key, ttl, value))
      {
        SetTextParses(key, digits, value);
      }
    }
  }

  /** Every value the parser lets in fits the reply buffer, so a stored value is never sent as ERROR. */
  lemma {:induction false} StoredValueFits(line: string, key: string, ttl: nat, value: string)
    requires ParseLine(line) == Some(Set(key, ttl, value))
    ensures Format(Value(value)) == "VALUE " + value + "\n"
  {
    ParseLineIsSet(line, key, ttl, value);
  }
}
