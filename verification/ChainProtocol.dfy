/** The protocol over the chain file itself. */
module ChainProtocol {
  import opened Wrappers
  import opened ChainEntry
  import opened Chain
  import opened Append
  import opened Protocol
  import ChainFile

  /** The records a version of the chain file holds. */
  function ChainOf(t: Trust, file: Option<string>): seq<Record> {
    match file
    case None => []
    case Some(text) => match ChainFile.Parse(t, text) case Ok(rs) => rs case Err(_) => []
  }

  /** Absent, or a chain that parses and verifies. */
  ghost predicate GoodVersion(t: Trust, file: Option<string>) {
    file.Some? ==>
      var parsed := ChainFile.Parse(t, file.value);
      parsed.Ok? && Outcome(t, parsed.value, None) == None
  }

  ghost predicate Loads(t: Trust, file: Option<string>) {
    Load(t, file).Ok? && Appendable(t, Load(t, file).value)
  }

  ghost predicate Accepts(t: Trust, existing: seq<Record>, rec: Record) {
    Authentic(t, rec) && AppendFault(t, existing, rec) == None
  }

  /** Loading, the size cap, verification, linkage and encoding, as `Append` does
      them. */
  ghost function ChainFormat(t: Trust): Format {
    Format(
      file => ChainOf(t, file),
      file => Loads(t, file),
      rs => ChainFile.Encode(rs),
      (existing, rec) => Accepts(t, existing, rec),
      file => GoodVersion(t, file))
  }

  lemma AcceptedReadsBack(t: Trust, file: Option<string>, rec: Record)
    requires Loads(t, file) && Accepts(t, ChainOf(t, file), rec)
    ensures var next := ChainOf(t, file) + [rec];
            GoodVersion(t, Some(ChainFile.Encode(next))) && ChainOf(t, Some(ChainFile.Encode(next))) == next
  {
    var existing := ChainOf(t, file);
    CheckedAppendReadsBack(t, file, existing, rec);
    VerifyExact(t, existing + [rec], None);
  }

  lemma ChainFormatFaithful(t: Trust)
    ensures Faithful(ChainFormat(t))
  {
    var f := ChainFormat(t);
    forall file, rec | f.loads(file) && f.accepts(f.read(file), rec)
      ensures var next := f.read(file) + [rec];
              f.good(Some(f.write(next))) && f.read(Some(f.write(next))) == next
    {
      AcceptedReadsBack(t, file, rec);
    }
  }

  /** A run of appenders from a chain file that is absent or good. */
  ghost predicate ChainRun(t: Trust, run: seq<State>) {
    var f := ChainFormat(t);
    && run != [] && Init(f, run[0])
    && (forall i :: 0 <= i < |run| ==> run[i].disk != [])
    && (forall i {:trigger NextIn(f, run, i)} :: 0 <= i < |run| - 1 ==> NextIn(f, run, i))
  }

  lemma ChainRunIsRun(t: Trust, run: seq<State>)
    requires ChainRun(t, run)
    ensures Run(ChainFormat(t), run)
  {
    ChainFormatFaithful(t);
  }

  /** At every point of every run, every version of the file that is seen or may
      come back is absent or a chain that parses and verifies. */
  lemma DiskAlwaysVerifies(t: Trust, run: seq<State>, i: nat, k: nat)
    requires ChainRun(t, run) && i < |run| && k < |run[i].disk|
    ensures GoodVersion(t, run[i].disk[k])
  {
    ChainRunIsRun(t, run);
    RunInv(ChainFormat(t), run, i);
    assert ChainFormat(t).good(run[i].disk[k]);
  }

  /** No update is lost: a record whose Append returned success is in every
      version of the chain from then on. */
  lemma NoUpdateLost(t: Trust, run: seq<State>, i: nat, j: nat, p: Pid, k: nat)
    requires ChainRun(t, run) && i <= j < |run| && k < |run[j].disk|
    requires p in run[i].procs && run[i].procs[p].Done?
    ensures run[i].procs[p].rec in ChainOf(t, run[j].disk[k])
  {
    ChainRunIsRun(t, run);
    SuccessIsForever(ChainFormat(t), run, i, j, p, k);
  }

  /** No fork: while the power is on, any two sightings of the chain agree as far
      as the earlier goes; across power cuts what is durable does. */
  lemma NoForks(t: Trust, run: seq<State>, i: nat, j: nat)
    requires ChainRun(t, run) && i <= j < |run|
    ensures ChainOf(t, run[i].disk[0]) <= ChainOf(t, run[j].disk[0])
    ensures Run(ChainFormat(t), run) && (PowerOn(ChainFormat(t), run, i, j) ==>
              ChainOf(t, Visible(run[i])) <= ChainOf(t, Visible(run[j])))
  {
    ChainRunIsRun(t, run);
    DurableGrows(ChainFormat(t), run, i, j);
    if PowerOn(ChainFormat(t), run, i, j) {
      VisibleGrows(ChainFormat(t), run, i, j);
    }
  }

  /** There are runs that get somewhere: on a good chain file, a call that is alone and
      whose record the checks accept ends in success, and the chain has grown by it. */
  lemma AppendSucceeds(t: Trust, file: Option<string>, p: Pid, rec: Record) returns (run: seq<State>)
    requires GoodVersion(t, file) && Loads(t, file) && Accepts(t, ChainOf(t, file), rec)
    ensures ChainRun(t, run) && run[0].disk == [file] && run[0].procs == map[]
    ensures var end := run[|run| - 1];
      && p in end.procs && end.procs[p] == Done(rec) && end.lock == None
      && |end.disk| == 1 && ChainOf(t, end.disk[0]) == ChainOf(t, file) + [rec]
  {
    ChainFormatFaithful(t);
    run := AloneSucceeds(ChainFormat(t), file, p, rec);
    AcceptedReadsBack(t, file, rec);
  }
}
