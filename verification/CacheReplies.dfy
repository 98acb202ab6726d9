// Which bytes from the cache are which result for the Python client.
module CacheReplies {
  import opened Text
  import opened CacheStore
  import opened CacheProtocol
  import opened CacheClient

  /** A reply is taken exactly when the stream has a first line that, with its newline, is within the bound. */
  lemma ReplyIs(stream: string, reply: string)
    ensures ReadReply(stream) == Some(reply) <==>
            exists text, more :: '\n' !in text && |text| < MAX_REPLY_SIZE
                                 && stream == text + "\n" + more && reply == text + "\n"
  {
    var nl := IndexOf(stream, '\n');
    if nl.Some? {
      var text, more := stream[..nl.value], stream[nl.value + 1..];
      assert stream == text + "\n" + more && '\n' !in text;
      ReadsLine(text, more);
    }
    forall text, more | '\n' !in text && |text| < MAX_REPLY_SIZE && stream == text + "\n" + more
      ensures ReadReply(stream) == Some(text + "\n")
    {
      ReadsLine(text, more);
    }
  }

  /** A get's result: the value between the word and the newline, a miss, or an error for anything else. */
  lemma GetResultIs(text: string, value: string)
    requires '\n' !in text
    ensures DecodeGet(Some(text + "\n")) == Hit(value) <==> text == "VALUE " + value && EncodeValue(value).Some?
    ensures DecodeGet(Some(text + "\n")) == Miss <==> text == "NOT_FOUND"
  {
    var reply := text + "\n";
    Halves(text, "\n");
    assert reply[..|reply| - 1] == text;
    if "VALUE " <= reply {
      assert reply[5] == ' ' && |text| >= 6;
      assert reply[6..|reply| - 1] == text[6..];
      Rejoin(text, 6);
      assert text[..6] == reply[..6] == "VALUE ";
    }
    if text == "VALUE " + value {
      assert reply == "VALUE " + value + "\n";
      assert reply[..6] == "VALUE ";
      assert text[6..] == value;
    }
    if reply == "NOT_FOUND\n" {
      Halves("NOT_FOUND", "\n");
      assert text == "NOT_FOUND\n"[..9];
    }
  }

  /** The four replies the protocol documents, a line each. */
  lemma RepliesAre(value: string)
    ensures Format(Ok) == "OK\n" && Format(NotFound) == "NOT_FOUND\n" && Format(Error) == "ERROR\n"
    ensures |value| <= VALUE_MAX ==> Format(Value(value)) == "VALUE " + value + "\n"
  {
  }

  /** The client sends a SET exactly for keys, values and TTLs in its documented ranges. */
  lemma SetCommandIs(key: string, value: string, ttl: int)
    ensures SetCommand(key, value, ttl).Some? <==>
            && 1 <= |key| <= 256 && (forall i | 0 <= i < |key| :: 32 < key[i] as int < 128)
            && 1 <= |value| <= 4096 && (forall i | 0 <= i < |value| :: value[i] !in "\r\n\0")
            && 0 <= ttl <= 86400
  {
    assert forall i | 0 <= i < |key| :: key[i] in key;
    assert forall i | 0 <= i < |value| :: value[i] in value;
    assert forall c :: c in "\r\n\0" <==> c == '\r' || c == '\n' || c == '\0';
  }
}
