// Which lines the Go programs take for body headers, whether or not the server could parse them.
module BodyHeaders {
  import opened Text
  import opened HttpRequest

  /** White space at both ends of a text, up to an offset and from another. */
  ghost predicate SpacesAround(s: string, i: nat, j: nat) {
    i <= j <= |s| && forall k | 0 <= k < i || j <= k < |s| :: IsSpace(s[k])
  }

  lemma {:induction false} TrimIs(s: string) returns (i: nat, j: nat)
    ensures SpacesAround(s, i, j) && TrimSpace(s) == s[i..j]
    decreases |s|
  {
    if s != "" && IsSpace(s[0]) {
      i, j := TrimIs(s[1..]);
      assert s[1..][i..j] == s[i + 1..j + 1];
      assert forall k | 1 <= k < |s| :: s[k] == s[1..][k - 1];
      i, j := i + 1, j + 1;
    } else if s != "" && IsSpace(s[|s| - 1]) {
      i, j := TrimIs(s[..|s| - 1]);
      SubTake(s, |s| - 1, i, j);
    } else {
      i, j := 0, |s|;
      assert s[0..|s|] == s;
    }
  }

  /** What is left between the spaces is trimmed to, if it neither starts nor ends with one. */
  lemma {:induction false} TrimsTo(s: string, i: nat, j: nat)
    requires SpacesAround(s, i, j) && i < j && !IsSpace(s[i]) && !IsSpace(s[j - 1])
    ensures TrimSpace(s) == s[i..j]
    decreases |s|
  {
    if i > 0 {
      assert forall k | 0 <= k < |s| - 1 :: s[1..][k] == s[k + 1];
      TrimsTo(s[1..], i - 1, j - 1);
      assert s[1..][i - 1..j - 1] == s[i..j];
    } else if j < |s| {
      TrimsTo(s[..|s| - 1], i, j);
      SubTake(s, |s| - 1, i, j);
    } else {
      assert s[0..|s|] == s;
    }
  }

  lemma LowerSlice(s: string, i: nat, j: nat)
    requires i <= j <= |s|
    ensures Lower(s)[i..j] == Lower(s[i..j])
  {
  }

  lemma LowerSpaces(s: string, i: nat, j: nat)
    ensures SpacesAround(Lower(s), i, j) <==> SpacesAround(s, i, j)
  {
    assert forall k | 0 <= k < |s| :: IsSpace(Lower(s)[k]) <==> IsSpace(s[k]);
  }

  lemma UnsupportedEnds(k: string)
    requires k in UNSUPPORTED
    ensures k != "" && !IsSpace(k[0]) && !IsSpace(k[|k| - 1])
  {
  }

  /** The name of a line is this word in any case of its letters, white space around it aside. */
  ghost predicate Spells(name: string, word: string) {
    exists i: nat, j: nat :: SpacesAround(name, i, j) && Ascii(name[i..j]) && Lower(name[i..j]) == word
  }

  /** The part of the line before its first colon spells a body header exactly when the scan takes it for one. */
  lemma KeyIs(line: string, word: string)
    requires word in UNSUPPORTED
    ensures KeyOf(line) == word <==> Spells(NameOf(line), word)
  {
    var name := NameOf(line);
    if KeyOf(line) == word {
      KeySpells(name, word);
    }
    if Spells(name, word) {
      var i: nat, j: nat :| SpacesAround(name, i, j) && Ascii(name[i..j]) && Lower(name[i..j]) == word;
      SpelledKey(name, word, i, j);
    }
  }

  lemma KeySpells(name: string, word: string)
    requires word in UNSUPPORTED && TrimSpace(GoLower(name)) == word
    ensures Spells(name, word)
  {
    UnsupportedPlain(word);
    if !Ascii(name) {
      GoLowerForeign(name);
      TrimKeeps(GoLower(name), REPLACEMENT[0]);
    } else {
      GoLowerAscii(name);
      var i, j := TrimIs(Lower(name));
      LowerSpaces(name, i, j);
      LowerSlice(name, i, j);
      assert Ascii(name[i..j]);
    }
  }

  lemma SpelledKey(name: string, word: string, i: nat, j: nat)
    requires word in UNSUPPORTED
    requires SpacesAround(name, i, j) && Ascii(name[i..j]) && Lower(name[i..j]) == word
    ensures TrimSpace(GoLower(name)) == word
  {
    UnsupportedEnds(word);
    forall k | 0 <= k < |name|
      ensures name[k] as int < 128
    {
      assert i <= k < j ==> name[k] == name[i..j][k - i];
    }
    GoLowerAscii(name);
    LowerSlice(name, i, j);
    LowerSpaces(name, i, j);
    assert Lower(name)[i] == word[0] && Lower(name)[j - 1] == word[|word| - 1];
    TrimsTo(Lower(name), i, j);
  }

  /** The scan of a whole request. */
  lemma NamesBodyIs(request: string)
    ensures NamesBody(request) <==>
            exists i, word :: 1 <= i < |HeaderLines(request)| && word in UNSUPPORTED && Spells(NameOf(HeaderLines(request)[i]), word)
  {
    var lines := HeaderLines(request);
    forall i, word | 1 <= i < |lines| && word in UNSUPPORTED
      ensures KeyOf(lines[i]) == word <==> Spells(NameOf(lines[i]), word)
    {
      KeyIs(lines[i], word);
    }
    if i :| 1 <= i < |lines| && KeyOf(lines[i]) in UNSUPPORTED {
      assert Spells(NameOf(lines[i]), KeyOf(lines[i]));
    }
  }
}
