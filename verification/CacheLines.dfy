// The cut of a stream into lines, against putting lines together.
module CacheLines {
  import opened Text
  import opened CacheFraming

  /** Lines, each with its newline. */
  function Unlines(lines: seq<string>): string {
    if lines == [] then "" else lines[0] + "\n" + Unlines(lines[1..])
  }

  ghost predicate NoBreaks(lines: seq<string>) {
    forall i | 0 <= i < |lines| :: '\n' !in lines[i]
  }

  /** The pieces of a stream make it up again, and none holds a newline. */
  ghost predicate Pieces(s: string, f: Frames) {
    Unlines(f.lines) + f.rest == s && NoBreaks(f.lines) && '\n' !in f.rest
  }

  /** Cutting a stream loses nothing, and no piece holds a newline. */
  lemma {:induction false} SplitRejoins(s: string)
    ensures Pieces(s, Split(s))
  {
    var nl := IndexOf(s, '\n');
    if nl.Some? {
      var line, tail := s[..nl.value], s[nl.value + 1..];
      SplitRejoins(tail);
      SplitLine(line, tail);
      PiecesStep(line, tail, Split(tail));
      assert s == line + "\n" + tail;
    } else {
      assert "" + s == s;
    }
  }

  lemma PiecesStep(line: string, tail: string, f: Frames)
    requires '\n' !in line && Pieces(tail, f)
    ensures Pieces(line + "\n" + tail, Frames([line] + f.lines, f.rest))
  {
    Rejoins(line, f.lines, f.rest);
  }

  lemma Rejoins(line: string, lines: seq<string>, rest: string)
    ensures Unlines([line] + lines) + rest == line + "\n" + (Unlines(lines) + rest)
  {
    assert ([line] + lines)[1..] == lines;
    Assoc(line + "\n", Unlines(lines), rest);
  }

  /** Lines put together are cut into the same lines: the cut is the only one. */
  lemma {:induction false} SplitUnlines(lines: seq<string>, rest: string)
    requires NoBreaks(lines) && '\n' !in rest
    ensures Split(Unlines(lines) + rest) == Frames(lines, rest)
  {
    if lines == [] {
      NoNewline(rest);
      assert "" + rest == rest;
    } else {
      SplitUnlines(lines[1..], rest);
      SplitLine(lines[0], Unlines(lines[1..]) + rest);
      Assoc(lines[0] + "\n", Unlines(lines[1..]), rest);
    }
  }
}
