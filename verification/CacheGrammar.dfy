// Which bytes before a newline are which command.
module CacheGrammar {
  import opened Text
  import opened CacheStore
  import opened CacheProtocol

  /** A line that is the word, a space and a rest. */
  lemma WordFirst(word: string, rest: string, line: string)
    requires line == word + rest
    ensures word <= line && line[|word|..] == rest
  {
    Halves(word, rest);
  }

  /** A line is a GET exactly when it is the word and a key, one space apart. */
  lemma ParseLineIsGet(line: string, key: string)
    ensures ParseLine(line) == Some(Get(key)) <==> ValidKey(key) && line == "GET " + key
  {
    if line == "GET " + key {
      WordFirst("GET ", key, line);
    }
    if "GET " <= line {
      Rejoin(line, 4);
    }
  }

  /** A line is a DELETE exactly when it is the word and a key, one space apart. */
  lemma ParseLineIsDelete(line: string, key: string)
    ensures ParseLine(line) == Some(Delete(key)) <==> ValidKey(key) && line == "DELETE " + key
  {
    if line == "DELETE " + key {
      WordFirst("DELETE ", key, line);
      assert line[0] == 'D';
    }
    if "DELETE " <= line {
      Rejoin(line, 7);
    }
  }

  /**
   * What the framed bytes before the newline mean: one carriage return at the end is dropped, and
   * an empty line or a NUL makes no command.
   */
  lemma LineEndings(line: string)
    ensures '\0' in line ==> CommandOf(line) == CommandOf(line + "\r") == None
    ensures line == "" ==> CommandOf(line) == CommandOf(line + "\r") == None
    ensures '\0' !in line && line != "" ==> CommandOf(line + "\r") == ParseLine(line)
    ensures '\0' !in line && line != "" && line[|line| - 1] != '\r' ==> CommandOf(line) == ParseLine(line)
  {
    Halves(line, "\r");
    assert (line + "\r")[|line|] == '\r';
    assert forall c :: c in line + "\r" <==> c in line || c == '\r';
  }
}
