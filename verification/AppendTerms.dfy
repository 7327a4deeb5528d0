/** One append in the terms of the file, the record and the chain they would make. */
module AppendTerms {
  import opened Wrappers
  import opened ChainEntry
  import opened Chain
  import opened Append
  import opened ChainAcceptance
  import ChainFile
  import Encodings

  /** The chain a file holds, if a call can read it: none where there is no file, and
      nothing past 2^29 bytes. */
  lemma LoadExactly(t: Trust, file: Option<string>, rs: seq<Record>)
    ensures file.None? ==> (Load(t, file) == Ok(rs) <==> rs == [])
    ensures file.Some? ==> (Load(t, file) == Ok(rs) <==> |file.value| <= 512 * 1024 * 1024 && Encodings.TextHolds(t, file.value, rs))
  {
    if file.Some? {
      Encodings.FileReadsExactly(t, file.value, rs);
    }
  }

  /** Every record stands, in its place, behind the one it names, nothing comes twice and
      time does not go back. */
  ghost predicate Verifies(t: Trust, rs: seq<Record>) {
    && AllStand(t, rs) && InPlace(rs) && Follows(rs) && InTime(t, rs)
    && NewHashes(rs) && NewPredecessors(rs) && NewPayloads(rs)
  }

  lemma VerifiesExactly(t: Trust, rs: seq<Record>)
    ensures Verifies(t, rs) <==> Outcome(t, rs, None) == None
    ensures Verifies(t, rs) <==> Sound(t, rs)
  {
    AcceptedExactly(t, rs, None);
    VerifyExact(t, rs, None);
  }

  /** A call passes every check exactly when nothing refused it, the chain was read, its
      builder made a record from the last one, and the chain with that record verifies.
      That the old chain verifies, and that the record names its last one and comes next,
      is checked besides and is no further condition. */
  lemma PassesExactly(t: Trust, file: Option<string>, c: Call)
    ensures Passes(t, file, c) <==>
      && c.gate == None && Load(t, file).Ok?
      && var rs := Load(t, file).value;
         var built := c.build(if rs == [] then None else Some(rs[|rs| - 1]));
         built.Ok? && Verifies(t, rs + [built.value])
  {
    if c.gate == None && Load(t, file).Ok? {
      var rs := Load(t, file).value;
      var built := c.build(HeadOf(rs));
      if built.Ok? {
        var next := rs + [built.value];
        VerifiesExactly(t, next);
        if Verifies(t, next) {
          TheRestVerifies(t, rs, built.value);
        }
      }
    }
  }

  lemma TheRestVerifies(t: Trust, rs: seq<Record>, rec: Record)
    requires Verifies(t, rs + [rec])
    ensures Appendable(t, rs) && rec.entry.prevHash == WantPrev(HeadOf(rs)) && rec.entry.position == WantPosition(HeadOf(rs))
  {
    var next := rs + [rec];
    VerifiesExactly(t, next);
    PrefixSound(t, next, |rs|);
    assert next[..|rs|] == rs;
    VerifyExact(t, rs, None);
    assert NamesTheOneBefore(next, |rs|) && next[|rs|].entry.position == |rs|;
    if rs != [] {
      assert next[|rs| - 1].entry.position == |rs| - 1;
    }
  }

  /** What a call that passes writes is the chain with its record, and it is there once
      it has been renamed, whatever is reported then. */
  lemma AfterExactly(t: Trust, file: Option<string>, c: Call)
    ensures Passes(t, file, c) && (c.write == Synced || c.write == Unsynced) ==>
      var rs := Load(t, file).value;
      AfterAppend(t, file, c) == Some(ChainFile.Encode(rs + [c.build(if rs == [] then None else Some(rs[|rs| - 1])).value]))
    ensures !Passes(t, file, c) || c.write == NotRenamed ==> AfterAppend(t, file, c) == file
  {
  }
}
