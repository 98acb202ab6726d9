// Byte strings and the searching operations the protocol code is written with.
//
// A byte of a text protocol is a char below 256, so byte strings are Dafny strings and
// literals stay readable.  Nothing here needs the bound: every result holds for it too.
module Text {

  datatype Option<+T> = None | Some(value: T)

  const CRLF := "\r\n"

  /** `pat` occurs in `s` at offset `i`. */
  predicate At(s: string, pat: string, i: nat) {
    i + |pat| <= |s| && s[i..i + |pat|] == pat
  }

  predicate FirstAt(s: string, pat: string, i: nat) {
    At(s, pat, i) && forall j: nat | j < i :: !At(s, pat, j)
  }

  lemma {:induction false} FirstExists(s: string, pat: string, n: nat)
    requires At(s, pat, n)
    ensures exists i: nat :: i <= n && FirstAt(s, pat, i)
  {
    if j: nat :| j < n && At(s, pat, j) {
      FirstExists(s, pat, j);
    } else {
      assert FirstAt(s, pat, n);
    }
  }

  /** Offset of the first occurrence of a pattern (`bytes.Index`, `bytes.find`). */
  function Find(s: string, pat: string): (r: Option<nat>)
    ensures r.Some? ==> FirstAt(s, pat, r.value)
    ensures r.None? ==> forall j: nat :: !At(s, pat, j)
  {
    if exists n: nat :: n <= |s| && At(s, pat, n) then
      assert exists i: nat :: i <= |s| && FirstAt(s, pat, i) by {
        var n: nat :| n <= |s| && At(s, pat, n);
        FirstExists(s, pat, n);
      }
      var i: nat :| i <= |s| && FirstAt(s, pat, i);
      Some(i)
    else
      None
  }

  /** The first occurrence is the only offset with the two properties of `Find`. */
  lemma FindIs(s: string, pat: string, i: nat)
    requires FirstAt(s, pat, i)
    ensures Find(s, pat) == Some(i)
  {
    var r := Find(s, pat);
    assert r.Some?;
    assert !(r.value < i) && !(i < r.value);
  }

  predicate FirstChar(s: string, c: char, i: nat) {
    i < |s| && s[i] == c && forall j | 0 <= j < i :: s[j] != c
  }

  lemma {:induction false} FirstCharExists(s: string, c: char, n: nat)
    requires n < |s| && s[n] == c
    ensures exists i: nat :: i <= n && FirstChar(s, c, i)
  {
    if j: nat :| j < n && s[j] == c {
      FirstCharExists(s, c, j);
    } else {
      assert FirstChar(s, c, n);
    }
  }

  /** Offset of the first occurrence of a character (`strchr`, `memchr`). */
  function IndexOf(s: string, c: char): (r: Option<nat>)
    ensures r.Some? ==> FirstChar(s, c, r.value)
    ensures r.None? ==> c !in s
  {
    if c in s then
      assert exists i: nat :: i < |s| && FirstChar(s, c, i) by {
        var n :| 0 <= n < |s| && s[n] == c;
        FirstCharExists(s, c, n);
      }
      var i: nat :| i < |s| && FirstChar(s, c, i);
      Some(i)
    else
      None
  }

  lemma IndexOfIs(s: string, c: char, i: nat)
    requires i < |s| && s[i] == c && c !in s[..i]
    ensures IndexOf(s, c) == Some(i)
  {
    assert forall j: nat | j < i :: s[..i][j] == s[j];
  }

  // ----- Sequence facts, kept generic so that they stay cheap on sequences of strings -----

  lemma Assoc<T>(a: seq<T>, b: seq<T>, c: seq<T>)
    ensures a + b + c == a + (b + c)
  {
  }

  lemma Halves<T>(a: seq<T>, b: seq<T>)
    ensures (a + b)[..|a|] == a && (a + b)[|a|..] == b
  {
  }

  lemma Rejoin<T>(s: seq<T>, n: nat)
    requires n <= |s|
    ensures s[..n] + s[n..] == s
  {
  }

  lemma Slices<T>(s: seq<T>, m: nat, n: nat)
    requires m <= n <= |s|
    ensures s[..n][..m] == s[..m] && s[..m] + s[m..n] == s[..n] && s[m..n] + s[n..] == s[m..]
  {
  }

  lemma Whole<T>(s: seq<T>)
    ensures s[..|s|] == s
  {
  }

  lemma Drops<T>(s: seq<T>, m: nat, n: nat)
    requires m + n <= |s|
    ensures s[m..][n..] == s[m + n..]
    ensures s[0..] == s
  {
  }

  lemma SubTake<T>(s: seq<T>, n: nat, a: nat, b: nat)
    requires a <= b <= n <= |s|
    ensures s[..n][a..b] == s[a..b]
  {
  }

  lemma Within<T>(s: seq<T>, a: nat, b: nat, c: nat)
    requires a <= b <= c <= |s|
    ensures s[a..c][..b - a] == s[a..b]
  {
  }

  // ----- Words and white space -----

  /** `isspace` in the C locale, and the ASCII characters `bytes.TrimSpace` trims. */
  predicate IsSpace(c: char) {
    c == ' ' || '\t' <= c <= '\r'
  }

  /** A string without the separator, the separator and anything: it is cut there. */
  lemma SplitsAt(word: string, separator: char, rest: string)
    requires separator !in word
    ensures var s := word + [separator] + rest;
            IndexOf(s, separator) == Some(|word|) && s[..|word|] == word && s[|word| + 1..] == rest
  {
    var s := word + [separator] + rest;
    Halves(word + [separator], rest);
    Assoc(word, [separator], rest);
    Halves(word, [separator] + rest);
    IndexOfIs(s, separator, |word|);
  }
}
