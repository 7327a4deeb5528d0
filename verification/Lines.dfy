/** Text as lines. */
module Lines {
  /** `strings.Split(s, "\n")`: never empty. */
  function Split(s: string): (lines: seq<string>)
    ensures lines != []
  {
    if s == "" then [""]
    else
      var rest := Split(s[1..]);
      if s[0] == '\n' then [""] + rest else [[s[0]] + rest[0]] + rest[1..]
  }

  function Join(lines: seq<string>): string
    requires lines != []
  {
    if |lines| == 1 then lines[0] else lines[0] + "\n" + Join(lines[1..])
  }

  function TrimBreak(s: string): string {
    if s != "" && s[|s| - 1] == '\n' then s[..|s| - 1] else s
  }

  ghost predicate OneLine(s: string) {
    forall i :: 0 <= i < |s| ==> s[i] != '\n'
  }

  lemma {:induction false} SplitHead(s: string, rest: string)
    requires OneLine(s)
    ensures Split(s + "\n" + rest) == [s] + Split(rest)
    ensures Split(s) == [s]
  {
    if s == "" {
      assert s + "\n" + rest == "\n" + rest;
    } else {
      SplitHead(s[1..], rest);
      assert (s + "\n" + rest)[1..] == s[1..] + "\n" + rest;
      assert [s[0]] + s[1..] == s;
    }
  }

  lemma {:induction false} SplitOfJoin(lines: seq<string>)
    requires lines != [] && forall i :: 0 <= i < |lines| ==> OneLine(lines[i])
    ensures Split(Join(lines)) == lines
    decreases |lines|
  {
    if |lines| == 1 {
      SplitHead(lines[0], "");
      assert lines == [lines[0]];
    } else {
      SplitOfJoin(lines[1..]);
      SplitHead(lines[0], Join(lines[1..]));
      assert lines == [lines[0]] + lines[1..];
    }
  }

  lemma {:induction false} JoinAppend(lines: seq<string>, line: string)
    requires lines != []
    ensures Join(lines + [line]) == Join(lines) + "\n" + line
    decreases |lines|
  {
    if |lines| > 1 {
      JoinAppend(lines[1..], line);
      assert (lines + [line])[1..] == lines[1..] + [line];
      assert lines[0] + "\n" + (Join(lines[1..]) + "\n" + line) == Join(lines) + "\n" + line;
    } else {
      assert (lines + [line])[1..] == [line];
    }
  }

  lemma {:induction false} JoinOfSplit(s: string)
    ensures Join(Split(s)) == s
  {
    if s == "" {
    } else {
      JoinOfSplit(s[1..]);
      var rest := Split(s[1..]);
      if s[0] == '\n' {
        assert Join([""] + rest) == "" + "\n" + Join(rest) by { assert ([""] + rest)[1..] == rest; }
      } else {
        PrependToFirst(s[0], rest);
      }
      assert s == [s[0]] + s[1..];
    }
  }

  lemma PrependToFirst(c: char, lines: seq<string>)
    requires lines != []
    ensures Join([[c] + lines[0]] + lines[1..]) == [c] + Join(lines)
  {
    var longer := [[c] + lines[0]] + lines[1..];
    if |lines| > 1 {
      assert longer[1..] == lines[1..];
      assert ([c] + lines[0]) + "\n" + Join(lines[1..]) == [c] + (lines[0] + "\n" + Join(lines[1..]));
    }
  }

  /** The lines of a file: a final newline ends the last one and starts no other. */
  function SplitLines(s: string): seq<string> {
    if TrimBreak(s) == "" then [] else Split(TrimBreak(s))
  }

  /** Two texts have the same lines exactly when they are the same but for one final
      newline. */
  lemma SplitLinesTells(s: string, t: string)
    ensures SplitLines(s) == SplitLines(t) <==> TrimBreak(s) == TrimBreak(t)
  {
    JoinOfSplit(TrimBreak(s));
    JoinOfSplit(TrimBreak(t));
  }
}
