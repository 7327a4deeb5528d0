/** The chain on disk: a header line, then one line per record. */
module ChainFile {
  import opened Wrappers
  import opened Text
  import opened Lines
  import opened ChainEntry
  import Base64
  import Canon

  const FILE_HEADER := "aurvet-chain-v1"

  /** Where the last space is, since a note or a host may hold others. */
  function LastSpace(s: string): (k: Option<nat>)
    ensures k.Some? ==> k.value < |s|
  {
    if s == "" then None
    else if s[|s| - 1] == ' ' then Some(|s| - 1)
    else LastSpace(s[..|s| - 1])
  }

  lemma {:induction false} LastSpaceBeforeToken(head: string, token: string)
    requires Base64.Token(token)
    ensures LastSpace(head + " " + token) == Some(|head|)
    decreases |token|
  {
    var s := head + " " + token;
    if token == "" {
      assert s[|s| - 1] == ' ';
    } else {
      assert s[..|s| - 1] == head + " " + token[..|token| - 1];
      LastSpaceBeforeToken(head, token[..|token| - 1]);
    }
  }

  // -- encoding -------------------------------------------------------------

  function Line(r: Record): string {
    r.raw + " " + Base64.Encode(r.sig)
  }

  function LinesOf(rs: seq<Record>): seq<string> {
    seq(|rs|, i requires 0 <= i < |rs| => Line(rs[i]))
  }

  function EncodeRecords(rs: seq<Record>): string {
    if rs == [] then "" else EncodeRecords(rs[..|rs| - 1]) + (Line(rs[|rs| - 1]) + "\n")
  }

  function Encode(rs: seq<Record>): string {
    FILE_HEADER + "\n" + EncodeRecords(rs)
  }

  lemma EncodeSnoc(rs: seq<Record>, i: nat)
    requires i < |rs|
    ensures Encode(rs[..i + 1]) == Encode(rs[..i]) + (Line(rs[i]) + "\n")
  {
    assert rs[..i + 1][..i] == rs[..i];
    Assoc(FILE_HEADER + "\n", EncodeRecords(rs[..i]), Line(rs[i]) + "\n");
  }

  lemma LineWritten(buf: string, r: Record)
    ensures buf + r.raw + " " + Base64.Encode(r.sig) + "\n" == buf + (Line(r) + "\n")
  {
    Assoc(buf, r.raw, " ");
    Assoc(buf, r.raw + " ", Base64.Encode(r.sig));
    Assoc(buf, Line(r), "\n");
  }

  method EncodeChainFile(rs: seq<Record>) returns (buf: string)
    ensures buf == Encode(rs)
  {
    buf := FILE_HEADER + "\n";
    for i := 0 to |rs|
      invariant buf == Encode(rs[..i])
    {
      EncodeSnoc(rs, i);
      LineWritten(buf, rs[i]);
      buf := buf + rs[i].raw;
      buf := buf + " ";
      buf := buf + Base64.Encode(rs[i].sig);
      buf := buf + "\n";
    }
    assert rs[..|rs|] == rs;
  }

  lemma {:induction false} EncodeIsLines(rs: seq<Record>)
    ensures Encode(rs) == Join([FILE_HEADER] + LinesOf(rs)) + "\n"
    decreases |rs|
  {
    if rs == [] {
      assert [FILE_HEADER] + LinesOf(rs) == [FILE_HEADER];
    } else {
      var n := |rs| - 1;
      EncodeIsLines(rs[..n]);
      EncodeSnoc(rs, n);
      assert rs[..n + 1] == rs;
      LinesSnoc(rs);
      var lines := Join([FILE_HEADER] + LinesOf(rs[..n])) + "\n";
      Assoc(lines, Line(rs[n]), "\n");
    }
  }

  lemma LinesSnoc(rs: seq<Record>)
    requires rs != []
    ensures Join([FILE_HEADER] + LinesOf(rs)) == Join([FILE_HEADER] + LinesOf(rs[..|rs| - 1])) + "\n" + Line(rs[|rs| - 1])
  {
    var init, last := rs[..|rs| - 1], rs[|rs| - 1];
    assert LinesOf(rs) == LinesOf(init) + [Line(last)];
    JoinAppend([FILE_HEADER] + LinesOf(init), Line(last));
    assert [FILE_HEADER] + LinesOf(rs) == [FILE_HEADER] + LinesOf(init) + [Line(last)];
  }

  // -- parsing --------------------------------------------------------------

  function ParseLine(t: Trust, line: string): Result<Record, Error> {
    match LastSpace(line)
    case None => Err(NotAChainFile)
    case Some(k) =>
      match Base64.Decode(line[k + 1..])
      case None => Err(NotAChainFile)
      case Some(sig) => ParseRecord(t, line[..k], sig)
  }

  /** Reads lines in order and stops at the first that is refused. */
  function ReadAll(read: string -> Result<Record, Error>, lines: seq<string>): Result<seq<Record>, Error> {
    if lines == [] then Ok([])
    else
      match read(lines[0])
      case Err(e) => Err(e)
      case Ok(r) =>
        match ReadAll(read, lines[1..])
        case Err(e) => Err(e)
        case Ok(rs) => Ok([r] + rs)
  }

  function LineReader(t: Trust): string -> Result<Record, Error> {
    line => ParseLine(t, line)
  }

  function Parse(t: Trust, text: string): Result<seq<Record>, Error> {
    var lines := Split(TrimBreak(text));
    if lines[0] != FILE_HEADER then Err(NotAChainFile) else ReadAll(LineReader(t), lines[1..])
  }

  lemma {:induction false} ReadAllSnoc(read: string -> Result<Record, Error>, lines: seq<string>, line: string)
    requires ReadAll(read, lines).Ok?
    ensures ReadAll(read, lines + [line])
         == match read(line) case Err(e) => Err(e) case Ok(r) => Ok(ReadAll(read, lines).value + [r])
    decreases |lines|
  {
    if lines == [] {
      assert lines + [line] == [line] && [line][1..] == [];
      if read(line).Ok? {
        assert [read(line).value] + [] == [] + [read(line).value];
      }
    } else {
      assert (lines + [line])[1..] == lines[1..] + [line];
      ReadAllSnoc(read, lines[1..], line);
      var head, rs := read(lines[0]).value, ReadAll(read, lines[1..]).value;
      if read(line).Ok? {
        assert [head] + (rs + [read(line).value]) == [head] + rs + [read(line).value];
      }
    }
  }

  lemma {:induction false} ReadAllStops(read: string -> Result<Record, Error>, lines: seq<string>, k: nat)
    requires k <= |lines| && ReadAll(read, lines[..k]).Err?
    ensures ReadAll(read, lines) == Err(ReadAll(read, lines[..k]).error)
    decreases k
  {
    assert k > 0;
    assert lines[..k][1..] == lines[1..][..k - 1];
    if read(lines[0]).Err? {
    } else {
      ReadAllStops(read, lines[1..], k - 1);
    }
  }

  method ReadLines(read: string -> Result<Record, Error>, lines: seq<string>) returns (r: Result<seq<Record>, Error>)
    ensures r == ReadAll(read, lines)
  {
    var out: seq<Record> := [];
    for i := 0 to |lines|
      invariant ReadAll(read, lines[..i]) == Ok(out)
    {
      assert lines[..i + 1] == lines[..i] + [lines[i]];
      ReadAllSnoc(read, lines[..i], lines[i]);
      var rec := read(lines[i]);
      if rec.Err? {
        ReadAllStops(read, lines, i + 1);
        return Err(rec.error);
      }
      out := out + [rec.value];
    }
    assert lines[..|lines|] == lines;
    return Ok(out);
  }

  /** The parser as it runs, growing its result a line at a time. An empty line
      has no space in it, so it is refused as any line without a signature is. */
  method ParseChainFile(t: Trust, text: string) returns (r: Result<seq<Record>, Error>)
    ensures r == Parse(t, text)
  {
    var lines := Split(TrimBreak(text));
    if lines[0] != FILE_HEADER {
      return Err(NotAChainFile);
    }
    r := ReadLines(LineReader(t), lines[1..]);
  }

  // -- the file reads back --------------------------------------------------

  ghost predicate AllAdmitted(t: Trust, rs: seq<Record>) {
    forall i :: 0 <= i < |rs| ==> Admitted(t, rs[i])
  }

  /** Canonical bytes hold no line break, whatever a note or a host says. */
  lemma RawIsOneLine(t: Trust, r: Record)
    requires Authentic(t, r)
    ensures OneLine(r.raw)
  {
    var v := Canon.Object(EntryMembers(r.entry));
    Canon.MarshalAdmits(v, Canon.Typed);
    Canon.PrintClean(Canon.Normal(v));
  }

  lemma ParseOfLine(t: Trust, r: Record)
    requires Admitted(t, r)
    ensures ParseLine(t, Line(r)) == Ok(r) && OneLine(Line(r))
  {
    RawIsOneLine(t, r);
    Base64.Base64RoundTrip(r.sig);
    LineParts(r);
    ParseRecordExact(t, r.raw, r.sig, r);
  }

  lemma LineParts(r: Record)
    requires Base64.Token(Base64.Encode(r.sig))
    ensures LastSpace(Line(r)) == Some(|r.raw|)
    ensures Line(r)[..|r.raw|] == r.raw && Line(r)[|r.raw| + 1..] == Base64.Encode(r.sig)
  {
    LastSpaceBeforeToken(r.raw, Base64.Encode(r.sig));
  }

  lemma {:induction false} ReadAllLines(read: string -> Result<Record, Error>, rs: seq<Record>)
    requires forall i :: 0 <= i < |rs| ==> read(Line(rs[i])) == Ok(rs[i])
    ensures ReadAll(read, LinesOf(rs)) == Ok(rs)
    decreases |rs|
  {
    if rs == [] {
    } else {
      assert LinesOf(rs)[1..] == LinesOf(rs[1..]);
      ReadAllLines(read, rs[1..]);
      assert rs == [rs[0]] + rs[1..];
    }
  }

  /** Whatever the verifier would admit is read back from the file it is written
      to, record for record: notes with spaces, no records at all. */
  lemma ChainFileRoundTrip(t: Trust, rs: seq<Record>)
    requires AllAdmitted(t, rs)
    ensures Parse(t, Encode(rs)) == Ok(rs)
  {
    forall i | 0 <= i < |rs| ensures ParseLine(t, Line(rs[i])) == Ok(rs[i]) && OneLine(Line(rs[i])) {
      assert Admitted(t, rs[i]);
      ParseOfLine(t, rs[i]);
    }
    ReadAllLines(LineReader(t), rs);
    FileLines(rs);
  }

  lemma FileLines(rs: seq<Record>)
    requires forall i :: 0 <= i < |rs| ==> OneLine(Line(rs[i]))
    ensures Split(TrimBreak(Encode(rs))) == [FILE_HEADER] + LinesOf(rs)
  {
    var lines := [FILE_HEADER] + LinesOf(rs);
    EncodeIsLines(rs);
    assert TrimBreak(Join(lines) + "\n") == Join(lines);
    assert OneLine(FILE_HEADER);
    SplitOfJoin(lines);
  }

  /** What holds of every record a reader can give holds of all it gives. */
  lemma {:induction false} ReadAllKeeps(read: string -> Result<Record, Error>, good: Record -> bool, lines: seq<string>)
    requires forall line :: read(line).Ok? ==> good(read(line).value)
    requires ReadAll(read, lines).Ok?
    ensures forall i :: 0 <= i < |ReadAll(read, lines).value| ==> good(ReadAll(read, lines).value[i])
    decreases |lines|
  {
    if lines == [] {
    } else {
      ReadAllKeeps(read, good, lines[1..]);
    }
  }

  lemma ParsedLineIsAdmitted(t: Trust, line: string)
    ensures ParseLine(t, line).Ok? ==> Admitted(t, ParseLine(t, line).value)
  {
    if ParseLine(t, line).Ok? {
      var r := ParseLine(t, line).value;
      ParseRecordExact(t, r.raw, r.sig, r);
    }
  }

  /** Whatever the parser accepts, the verifier admits record by record: bytes
      that nobody trusted signed never become an entry. */
  lemma ParsedIsAdmitted(t: Trust, text: string)
    requires Parse(t, text).Ok?
    ensures AllAdmitted(t, Parse(t, text).value)
  {
    forall line ensures LineReader(t)(line).Ok? ==> Admitted(t, LineReader(t)(line).value) {
      ParsedLineIsAdmitted(t, line);
    }
    ReadAllKeeps(LineReader(t), r => Admitted(t, r), Split(TrimBreak(text))[1..]);
  }
}
