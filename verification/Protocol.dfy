/** Any number of appenders on one chain file, interleaved step by step, any of
    them stopping anywhere, and the power going out. */
module Protocol {
  import opened Wrappers
  import opened ChainEntry

  type Pid = nat

  /** How far one call of `Append` has come. */
  datatype Phase =
    | Waiting
    | Locked
    | Loaded(existing: seq<Record>)
    | Built(existing: seq<Record>, rec: Record)
    | Checked(existing: seq<Record>, rec: Record)
    | TempWritten(existing: seq<Record>, rec: Record)
    | Renamed(rec: Record)
    | Synced(rec: Record)
    | Done(rec: Record)
    | Failed
    | Crashed

  /** `disk` is every version of the chain file a power cut might bring back: the
      one known durable first, the one a reader sees last. */
  datatype State = State(disk: seq<Option<string>>, temps: map<Pid, string>, lock: Option<Pid>, procs: map<Pid, Phase>)

  predicate Final(ph: Phase) {
    ph.Done? || ph.Failed? || ph.Crashed?
  }

  predicate Holding(ph: Phase) {
    !ph.Waiting? && !Final(ph)
  }

  function Visible(s: State): Option<string>
    requires s.disk != []
  {
    s.disk[|s.disk| - 1]
  }

  /** What the protocol takes from the file format and the checks: the records a
      version of the file holds, whether an appender can load it, the text it
      would write, whether it accepts a record after a chain, and what counts as
      a good version. */
  datatype Format = Format(
    read: Option<string> -> seq<Record>,
    loads: Option<string> -> bool,
    write: seq<Record> -> string,
    accepts: (seq<Record>, Record) -> bool,
    good: Option<string> -> bool)

  /** An accepted record gives a good version that reads back. */
  ghost predicate Faithful(f: Format) {
    forall file, rec :: f.loads(file) && f.accepts(f.read(file), rec) ==>
      var next := f.read(file) + [rec];
      f.good(Some(f.write(next))) && f.read(Some(f.write(next))) == next
  }

  ghost predicate Extends(later: seq<Record>, earlier: seq<Record>) {
    earlier <= later
  }

  // -- the steps ------------------------------------------------------------

  function At(s: State, p: Pid, ph: Phase): State {
    s.(procs := s.procs[p := ph])
  }

  /** Leaving the lock behind, whether by return or by the process ending. */
  function Leave(s: State, p: Pid, ph: Phase): State {
    At(s, p, ph).(lock := if s.lock == Some(p) then None else s.lock)
  }

  ghost predicate Start(s: State, s': State, p: Pid) {
    p !in s.procs && s' == At(s, p, Waiting)
  }

  ghost predicate TakeLock(s: State, s': State, p: Pid) {
    p in s.procs && s.procs[p].Waiting? && s.lock == None && s' == At(s, p, Locked).(lock := Some(p))
  }

  ghost predicate ReadChain(f: Format, s: State, s': State, p: Pid)
    requires s.disk != []
  {
    p in s.procs && s.procs[p].Locked? && f.loads(Visible(s)) && s' == At(s, p, Loaded(f.read(Visible(s))))
  }

  /** The builder may answer with any record at all. */
  ghost predicate Build(s: State, s': State, p: Pid, rec: Record) {
    p in s.procs && s.procs[p].Loaded? && s' == At(s, p, Built(s.procs[p].existing, rec))
  }

  ghost predicate Check(f: Format, s: State, s': State, p: Pid) {
    p in s.procs && s.procs[p].Built? && f.accepts(s.procs[p].existing, s.procs[p].rec)
    && s' == At(s, p, Checked(s.procs[p].existing, s.procs[p].rec))
  }

  /** Part of the temp file, or anything at all: nobody reads it under that name. */
  ghost predicate Scribble(s: State, s': State, p: Pid, text: string) {
    p in s.procs && s.procs[p].Checked? && s' == s.(temps := s.temps[p := text])
  }

  ghost predicate FinishTemp(f: Format, s: State, s': State, p: Pid) {
    p in s.procs && s.procs[p].Checked? &&
    var ph := s.procs[p];
    s' == At(s, p, TempWritten(ph.existing, ph.rec)).(temps := s.temps[p := f.write(ph.existing + [ph.rec])])
  }

  ghost predicate Rename(s: State, s': State, p: Pid) {
    p in s.procs && s.procs[p].TempWritten? && p in s.temps
    && s' == At(s, p, Renamed(s.procs[p].rec)).(disk := s.disk + [Some(s.temps[p])], temps := s.temps - {p})
  }

  /** The directory is synced: what is visible is now what a power cut keeps. */
  ghost predicate SyncDirectory(s: State, s': State, p: Pid)
    requires s.disk != []
  {
    p in s.procs && s.procs[p].Renamed? && s' == At(s, p, Phase.Synced(s.procs[p].rec)).(disk := [Visible(s)])
  }

  ghost predicate Return(s: State, s': State, p: Pid) {
    p in s.procs && s.procs[p].Synced? && s' == Leave(s, p, Done(s.procs[p].rec))
  }

  /** Any refusal or I/O error, wherever it strikes; a failed call removes its
      temp file. */
  ghost predicate Fail(s: State, s': State, p: Pid) {
    p in s.procs && !Final(s.procs[p]) && s' == Leave(s, p, Failed).(temps := s.temps - {p})
  }

  /** The process is gone; its temp file may stay behind. */
  ghost predicate Crash(s: State, s': State, p: Pid) {
    p in s.procs && !Final(s.procs[p]) && s' == Leave(s, p, Crashed)
  }

  /** Everyone stops, and the file is one of the versions that may come back. */
  ghost predicate PowerCut(s: State, s': State, k: nat) {
    k < |s.disk| && s'.disk == [s.disk[k]] && s'.lock == None
    && s'.procs == map p | p in s.procs :: if Final(s.procs[p]) then s.procs[p] else Crashed
  }

  /** One appender's step: the power stays on. */
  ghost predicate ProcessStep(f: Format, s: State, s': State)
    requires s.disk != []
  {
    exists p :: StepBy(f, s, s', p)
  }

  ghost predicate StepBy(f: Format, s: State, s': State, p: Pid)
    requires s.disk != []
  {
    || Start(s, s', p) || TakeLock(s, s', p) || ReadChain(f, s, s', p) || (exists rec :: Build(s, s', p, rec))
    || Check(f, s, s', p) || (exists text :: Scribble(s, s', p, text)) || FinishTemp(f, s, s', p) || Rename(s, s', p)
    || SyncDirectory(s, s', p) || Return(s, s', p) || Fail(s, s', p) || Crash(s, s', p)
  }

  ghost predicate Step(f: Format, s: State, s': State)
    requires s.disk != []
  {
    ProcessStep(f, s, s') || exists k :: PowerCut(s, s', k)
  }

  // -- what every step keeps ------------------------------------------------

  ghost predicate GoodDisk(f: Format, disk: seq<Option<string>>) {
    && disk != []
    && (forall i :: 0 <= i < |disk| ==> f.good(disk[i]))
    && (forall i, j :: 0 <= i <= j < |disk| ==> Extends(f.read(disk[j]), f.read(disk[i])))
  }

  /** `existing` is what a reader would load now. */
  ghost predicate Current(f: Format, visible: Option<string>, existing: seq<Record>) {
    f.loads(visible) && f.read(visible) == existing
  }

  /** What a phase knows of the disk. */
  ghost predicate PhaseOk(f: Format, disk: seq<Option<string>>, temps: map<Pid, string>, p: Pid, ph: Phase)
    requires disk != []
  {
    var visible := disk[|disk| - 1];
    match ph
    case Loaded(existing) => Current(f, visible, existing)
    case Built(existing, rec) => Current(f, visible, existing)
    case Checked(existing, rec) => Current(f, visible, existing) && f.accepts(existing, rec)
    case TempWritten(existing, rec) =>
      Current(f, visible, existing) && f.accepts(existing, rec)
      && p in temps && temps[p] == f.write(existing + [rec])
    case Renamed(rec) => rec in f.read(visible)
    case Synced(rec) => rec in f.read(disk[0])
    case Done(rec) => rec in f.read(disk[0])
    case _ => true
  }

  ghost predicate Inv(f: Format, s: State) {
    && GoodDisk(f, s.disk)
    && (forall p :: p in s.procs && Holding(s.procs[p]) ==> s.lock == Some(p))
    && (forall p :: p in s.procs ==> PhaseOk(f, s.disk, s.temps, p, s.procs[p]))
  }

  ghost predicate Init(f: Format, s: State) {
    |s.disk| == 1 && f.good(s.disk[0]) && s.lock == None && s.procs == map[]
  }

  lemma InitInv(f: Format, s: State)
    requires Init(f, s)
    ensures Inv(f, s)
  {
  }

  /** Changing one process, and what is visible to nobody else, keeps the rest. */
  lemma MoveKeepsInv(f: Format, s: State, s': State, p: Pid)
    requires Inv(f, s) && s'.disk == s.disk
    requires s'.procs.Keys == s.procs.Keys + {p}
    requires forall q :: q in s.procs && q != p ==> s'.procs[q] == s.procs[q]
    requires forall q :: q != p && q in s.temps ==> q in s'.temps && s'.temps[q] == s.temps[q]
    requires PhaseOk(f, s'.disk, s'.temps, p, s'.procs[p])
    requires forall q :: q in s'.procs && Holding(s'.procs[q]) ==> s'.lock == Some(q)
    ensures Inv(f, s')
  {
    forall q | q in s'.procs ensures PhaseOk(f, s'.disk, s'.temps, q, s'.procs[q]) {
      if q != p {
        assert PhaseOk(f, s.disk, s.temps, q, s.procs[q]);
      }
    }
  }

  lemma QuietStepKeepsInv(f: Format, s: State, s': State, p: Pid)
    requires Inv(f, s)
    requires Start(s, s', p) || TakeLock(s, s', p) || ReadChain(f, s, s', p) || Return(s, s', p) || Crash(s, s', p)
    ensures Inv(f, s') && s'.disk == s.disk
  {
    if p in s.procs {
      assert PhaseOk(f, s.disk, s.temps, p, s.procs[p]);
    }
    MoveKeepsInv(f, s, s', p);
  }

  lemma FailKeepsInv(f: Format, s: State, s': State, p: Pid)
    requires Inv(f, s) && Fail(s, s', p)
    ensures Inv(f, s') && s'.disk == s.disk
  {
    MoveKeepsInv(f, s, s', p);
  }

  lemma BuildKeepsInv(f: Format, s: State, s': State, p: Pid, rec: Record)
    requires Inv(f, s) && Build(s, s', p, rec)
    ensures Inv(f, s') && s'.disk == s.disk
  {
    assert PhaseOk(f, s.disk, s.temps, p, s.procs[p]);
    MoveKeepsInv(f, s, s', p);
  }

  lemma CheckKeepsInv(f: Format, s: State, s': State, p: Pid)
    requires Inv(f, s) && Check(f, s, s', p)
    ensures Inv(f, s') && s'.disk == s.disk
  {
    assert PhaseOk(f, s.disk, s.temps, p, s.procs[p]);
    MoveKeepsInv(f, s, s', p);
  }

  lemma ScribbleKeepsInv(f: Format, s: State, s': State, p: Pid, text: string)
    requires Inv(f, s) && Scribble(s, s', p, text)
    ensures Inv(f, s') && s'.disk == s.disk
  {
    assert PhaseOk(f, s.disk, s.temps, p, s.procs[p]);
    MoveKeepsInv(f, s, s', p);
  }

  lemma FinishTempKeepsInv(f: Format, s: State, s': State, p: Pid)
    requires Inv(f, s) && FinishTemp(f, s, s', p)
    ensures Inv(f, s') && s'.disk == s.disk
  {
    assert PhaseOk(f, s.disk, s.temps, p, s.procs[p]);
    MoveKeepsInv(f, s, s', p);
  }

  /** Only the lock's holder knows the visible chain, so nobody is surprised. */
  lemma OthersIdle(f: Format, s: State, p: Pid, q: Pid)
    requires Inv(f, s) && p in s.procs && q in s.procs && p != q && Holding(s.procs[p])
    ensures !Holding(s.procs[q])
  {
  }

  lemma RenameKeepsInv(f: Format, s: State, s': State, p: Pid)
    requires Faithful(f) && Inv(f, s) && Rename(s, s', p)
    ensures Inv(f, s') && s'.disk[0] == s.disk[0] && Extends(f.read(Visible(s')), f.read(Visible(s)))
  {
    var ph := s.procs[p];
    assert PhaseOk(f, s.disk, s.temps, p, ph);
    var next := ph.existing + [ph.rec];
    RenamedDisk(f, s.disk, ph.existing, ph.rec);
    assert ph.rec in next;
    forall q | q in s'.procs ensures PhaseOk(f, s'.disk, s'.temps, q, s'.procs[q]) {
      if q != p {
        assert PhaseOk(f, s.disk, s.temps, q, s.procs[q]);
        OthersIdle(f, s, p, q);
      }
    }
  }

  lemma RenamedDisk(f: Format, disk: seq<Option<string>>, existing: seq<Record>, rec: Record)
    requires Faithful(f) && GoodDisk(f, disk) && Current(f, disk[|disk| - 1], existing) && f.accepts(existing, rec)
    ensures var file := Some(f.write(existing + [rec]));
            GoodDisk(f, disk + [file]) && f.read(file) == existing + [rec]
  {
    var file := Some(f.write(existing + [rec]));
    var disk' := disk + [file];
    forall i, j | 0 <= i <= j < |disk'| ensures Extends(f.read(disk'[j]), f.read(disk'[i])) {
      if i < |disk| && j == |disk| {
        assert Extends(f.read(disk[|disk| - 1]), f.read(disk[i]));
      }
    }
  }

  lemma SyncKeepsInv(f: Format, s: State, s': State, p: Pid)
    requires Inv(f, s) && SyncDirectory(s, s', p)
    ensures Inv(f, s') && Visible(s') == Visible(s) && Extends(f.read(s'.disk[0]), f.read(s.disk[0]))
  {
    assert PhaseOk(f, s.disk, s.temps, p, s.procs[p]);
    assert Extends(f.read(Visible(s)), f.read(s.disk[0]));
    forall q | q in s'.procs ensures PhaseOk(f, s'.disk, s'.temps, q, s'.procs[q]) {
      if q != p {
        assert PhaseOk(f, s.disk, s.temps, q, s.procs[q]);
        OthersIdle(f, s, p, q);
      }
    }
  }

  lemma PowerCutKeepsInv(f: Format, s: State, s': State, k: nat)
    requires Inv(f, s) && PowerCut(s, s', k)
    ensures Inv(f, s') && Extends(f.read(s'.disk[0]), f.read(s.disk[0]))
  {
    forall q | q in s'.procs ensures PhaseOk(f, s'.disk, s'.temps, q, s'.procs[q]) {
      assert PhaseOk(f, s.disk, s.temps, q, s.procs[q]);
    }
  }

  /** Calls that have ended stay ended as they did. */
  ghost predicate EndedStay(procs: map<Pid, Phase>, procs': map<Pid, Phase>) {
    forall p :: p in procs && Final(procs[p]) ==> p in procs' && procs'[p] == procs[p]
  }

  lemma EndedStayThroughStep(f: Format, s: State, s': State, p: Pid)
    requires s.disk != [] && StepBy(f, s, s', p)
    ensures EndedStay(s.procs, s'.procs)
  {
    if rec :| Build(s, s', p, rec) {
    } else if text :| Scribble(s, s', p, text) {
    }
  }

  /** The chain a reader sees, and the one a power cut keeps, only grow. */
  ghost predicate Grows(f: Format, disk: seq<Option<string>>, disk': seq<Option<string>>)
    requires disk != [] && disk' != []
  {
    && Extends(f.read(disk'[|disk'| - 1]), f.read(disk[|disk| - 1]))
    && Extends(f.read(disk'[0]), f.read(disk[0]))
  }

  lemma ProcessStepGrows(f: Format, s: State, s': State, p: Pid)
    requires Faithful(f) && Inv(f, s) && StepBy(f, s, s', p)
    ensures Inv(f, s') && Grows(f, s.disk, s'.disk)
  {
    if rec :| Build(s, s', p, rec) {
      BuildKeepsInv(f, s, s', p, rec);
    } else if text :| Scribble(s, s', p, text) {
      ScribbleKeepsInv(f, s, s', p, text);
    } else if Check(f, s, s', p) {
      CheckKeepsInv(f, s, s', p);
    } else if FinishTemp(f, s, s', p) {
      FinishTempKeepsInv(f, s, s', p);
    } else if Rename(s, s', p) {
      RenameKeepsInv(f, s, s', p);
    } else if SyncDirectory(s, s', p) {
      SyncKeepsInv(f, s, s', p);
    } else if Fail(s, s', p) {
      FailKeepsInv(f, s, s', p);
    } else {
      QuietStepKeepsInv(f, s, s', p);
    }
  }

  /** With the power on, no step of anyone loses what is visible or durable. */
  lemma ProcessStepKeeps(f: Format, s: State, s': State)
    requires Faithful(f) && Inv(f, s) && ProcessStep(f, s, s')
    ensures Inv(f, s') && Grows(f, s.disk, s'.disk) && EndedStay(s.procs, s'.procs)
  {
    var p :| StepBy(f, s, s', p);
    ProcessStepGrows(f, s, s', p);
    EndedStayThroughStep(f, s, s', p);
  }

  lemma StepKeeps(f: Format, s: State, s': State)
    requires Faithful(f) && Inv(f, s) && Step(f, s, s')
    ensures Inv(f, s') && Extends(f.read(s'.disk[0]), f.read(s.disk[0])) && EndedStay(s.procs, s'.procs)
  {
    if ProcessStep(f, s, s') {
      ProcessStepKeeps(f, s, s');
    } else {
      var k :| PowerCut(s, s', k);
      PowerCutKeepsInv(f, s, s', k);
    }
  }

  // -- over whole runs ------------------------------------------------------

  ghost predicate Run(f: Format, run: seq<State>) {
    && Faithful(f) && run != [] && Init(f, run[0])
    && (forall i :: 0 <= i < |run| ==> run[i].disk != [])
    && (forall i {:trigger NextIn(f, run, i)} :: 0 <= i < |run| - 1 ==> NextIn(f, run, i))
  }

  ghost predicate NextIn(f: Format, run: seq<State>, i: nat)
    requires i < |run| - 1 && run[i].disk != []
  {
    Step(f, run[i], run[i + 1])
  }

  lemma {:induction false} RunInv(f: Format, run: seq<State>, i: nat)
    requires Run(f, run) && i < |run|
    ensures Inv(f, run[i])
  {
    if i == 0 {
      InitInv(f, run[0]);
    } else {
      RunInv(f, run, i - 1);
      assert NextIn(f, run, i - 1);
      StepKeeps(f, run[i - 1], run[i]);
    }
  }

  /** What is durable only grows, and calls that have ended stay ended. */
  lemma {:induction false} DurableGrows(f: Format, run: seq<State>, i: nat, j: nat)
    requires Run(f, run) && i <= j < |run|
    ensures Extends(f.read(run[j].disk[0]), f.read(run[i].disk[0]))
    ensures EndedStay(run[i].procs, run[j].procs)
    decreases j
  {
    if i == j {
    } else {
      DurableGrows(f, run, i, j - 1);
      RunInv(f, run, j - 1);
      assert NextIn(f, run, j - 1);
      StepKeeps(f, run[j - 1], run[j]);
    }
  }

  /** A record whose Append returned success is in every version of the file from
      then on, through crashes and power cuts. */
  lemma SuccessIsForever(f: Format, run: seq<State>, i: nat, j: nat, p: Pid, k: nat)
    requires Run(f, run) && i <= j < |run| && p in run[i].procs && run[i].procs[p].Done? && k < |run[j].disk|
    ensures run[i].procs[p].rec in f.read(run[j].disk[k])
  {
    DurableGrows(f, run, i, j);
    RunInv(f, run, j);
    assert PhaseOk(f, run[j].disk, run[j].temps, p, run[j].procs[p]);
    assert Extends(f.read(run[j].disk[k]), f.read(run[j].disk[0]));
  }

  /** A stretch of a run with the power on. */
  ghost predicate PowerOn(f: Format, run: seq<State>, i: nat, j: nat)
    requires Run(f, run) && i <= j < |run|
  {
    forall k {:trigger PoweredIn(f, run, k)} :: i <= k < j ==> PoweredIn(f, run, k)
  }

  ghost predicate PoweredIn(f: Format, run: seq<State>, k: nat)
    requires k < |run| - 1 && run[k].disk != []
  {
    ProcessStep(f, run[k], run[k + 1])
  }

  /** While the power is on, what a reader sees only grows. */
  lemma {:induction false} VisibleGrows(f: Format, run: seq<State>, i: nat, j: nat)
    requires Run(f, run) && i <= j < |run| && PowerOn(f, run, i, j)
    ensures Extends(f.read(Visible(run[j])), f.read(Visible(run[i])))
    decreases j
  {
    if i == j {
    } else {
      VisibleGrows(f, run, i, j - 1);
      RunInv(f, run, j - 1);
      assert PoweredIn(f, run, j - 1);
      ProcessStepKeeps(f, run[j - 1], run[j]);
    }
  }

  // -- that they get anywhere -----------------------------------------------

  /** At any point of a run at most one call is between taking the lock and leaving it. */
  lemma OneAtATime(f: Format, run: seq<State>, i: nat, p: Pid, q: Pid)
    requires Run(f, run) && i < |run| && p in run[i].procs && q in run[i].procs
    requires Holding(run[i].procs[p]) && Holding(run[i].procs[q])
    ensures p == q && run[i].lock == Some(p)
  {
    RunInv(f, run, i);
  }

  /** One call's state when it is the only one. */
  function Alone(disk: seq<Option<string>>, temps: map<Pid, string>, lock: Option<Pid>, p: Pid, ph: Phase): State {
    State(disk, temps, lock, map[p := ph])
  }

  function Reading(file: Option<string>, p: Pid, existing: seq<Record>, rec: Record): seq<State> {
    [ State([file], map[], None, map[]),
      Alone([file], map[], None, p, Waiting),
      Alone([file], map[], Some(p), p, Locked),
      Alone([file], map[], Some(p), p, Loaded(existing)),
      Alone([file], map[], Some(p), p, Built(existing, rec)),
      Alone([file], map[], Some(p), p, Checked(existing, rec)) ]
  }

  function Writing(file: Option<string>, text: string, p: Pid, existing: seq<Record>, rec: Record): seq<State> {
    [ Alone([file], map[p := text], Some(p), p, TempWritten(existing, rec)),
      Alone([file, Some(text)], map[], Some(p), p, Renamed(rec)),
      Alone([Some(text)], map[], Some(p), p, Phase.Synced(rec)),
      Alone([Some(text)], map[], None, p, Done(rec)) ]
  }

  lemma ReadingSteps(f: Format, file: Option<string>, p: Pid, rec: Record, i: nat)
    requires f.loads(file) && f.accepts(f.read(file), rec) && i < 5
    ensures var run := Reading(file, p, f.read(file), rec); Step(f, run[i], run[i + 1])
  {
    var run := Reading(file, p, f.read(file), rec);
    if i == 3 {
      assert Build(run[3], run[4], p, rec);
    }
    assert StepBy(f, run[i], run[i + 1], p);
  }

  lemma WritingSteps(f: Format, file: Option<string>, p: Pid, rec: Record, i: nat)
    requires i < 3
    ensures var run := Writing(file, f.write(f.read(file) + [rec]), p, f.read(file), rec); Step(f, run[i], run[i + 1])
  {
    var run := Writing(file, f.write(f.read(file) + [rec]), p, f.read(file), rec);
    assert [file] + [Some(run[0].temps[p])] == [file, Some(run[0].temps[p])];
    assert StepBy(f, run[i], run[i + 1], p);
  }

  /** A call that is alone, and whose record the checks accept, gets from an absent lock
      to success, and leaves the longer chain there to stay. */
  lemma AloneSucceeds(f: Format, file: Option<string>, p: Pid, rec: Record) returns (run: seq<State>)
    requires Faithful(f) && f.good(file) && f.loads(file) && f.accepts(f.read(file), rec)
    ensures Run(f, run) && run[0] == State([file], map[], None, map[])
    ensures run[|run| - 1] == Alone([Some(f.write(f.read(file) + [rec]))], map[], None, p, Done(rec))
  {
    var text := f.write(f.read(file) + [rec]);
    var reading, writing := Reading(file, p, f.read(file), rec), Writing(file, text, p, f.read(file), rec);
    run := reading + writing;
    assert FinishTemp(f, reading[5], writing[0], p);
    assert StepBy(f, reading[5], writing[0], p);
    forall i {:trigger NextIn(f, run, i)} | 0 <= i < |run| - 1 ensures NextIn(f, run, i) {
      if i < 5 {
        ReadingSteps(f, file, p, rec, i);
      } else if i > 5 {
        WritingSteps(f, file, p, rec, i - 6);
      }
    }
  }
}
