/** The compare-and-mutate protocol on one repository directory, as a state machine
    interleaved with other writers of the same directory.

    A task displaces the target to a fresh quarantine name with a no-replace rename,
    looks at what it displaced, and then removes it, replaces it, or puts it back
    without clobbering. Every system call is one step, and between any two steps
    other writers may change every name the task does not hold. */
module Quarantine {
  import opened Options

  type Name = string

  datatype Kind = RegularFile | Symlink | Directory

  /** A directory entry's file: its identity, kind and contents. Other writers
      publish by name, so an inode never changes in place. */
  datatype Inode = Inode(id: nat, kind: Kind, contents: seq<nat>)

  datatype Snapshot = Snapshot(id: nat, contents: seq<nat>)

  type Dir = map<Name, Inode>

  datatype Mode = CompareAndSwap(expected: Snapshot) | NoClobber | Replace

  datatype Job =
    | RemoveFile(expected: Snapshot)
    | StoreFile(contents: seq<nat>, mode: Mode)
    | RemoveDirectory(identity: nat)

  datatype Task = Task(target: Name, job: Job)

  datatype Error = WriteError | PersistError | ReadError | ConcurrentModification

  datatype Outcome = Answer(flag: bool) | Stored(id: nat) | Failed(error: Error)

  datatype Pc =
    | CreateTemp(attempts: nat)
    | Commit
    | Quarantining(attempts: nat)
    | Inspect
    | UnlinkMatched
    | LinkTemp
    | Publish
    | UnlinkTemp
    | UnlinkReplaced
    | RestoreLink(restored: Outcome)
    | RestoreUnlink(restored: Outcome)
    | OpenDirectory
    | LookForRacer
    | UnlinkDirectory(racer: bool)
    | RestoreRename
    | Cleanup(error: Error)
    | Done(outcome: Outcome)

  /** The shared directory and the task's own variables. `victim` is what the
      rename displaced and `linkedBack` whether it was put back at the target. */
  datatype State = State(dir: Dir, pc: Pc, temp: Option<(Name, Inode)>, quarantine: Option<Name>, victim: Option<Inode>,
                         linkedBack: bool)

  /** What the environment decides for one call: a candidate name, a fresh inode
      number, whether the call fails for a reason of its own, and whether a
      directory to remove has entries. */
  datatype Choice = Choice(name: Name, id: nat, fails: bool, notEmpty: bool)

  const ATTEMPTS: nat := 128

  predicate Matches(inode: Inode, expected: Snapshot) {
    inode.kind.RegularFile? && inode.id == expected.id && inode.contents == expected.contents
  }

  /** What the task is allowed to remove after displacing it. */
  predicate Expected(task: Task, inode: Inode) {
    match task.job
    case RemoveFile(expected) => Matches(inode, expected)
    case StoreFile(_, CompareAndSwap(expected)) => Matches(inode, expected)
    case StoreFile(_, _) => false
    case RemoveDirectory(id) => inode.kind.Directory? && inode.id == id
  }

  predicate Unconditional(task: Task) {
    task.job.StoreFile? && task.job.mode.Replace?
  }

  function Start(task: Task, dir: Dir): State {
    State(dir, if task.job.StoreFile? then CreateTemp(ATTEMPTS) else Quarantining(ATTEMPTS), None, None, None, false)
  }

  /** An error return; a store first unlinks its temporary file. */
  function Fail(s: State, error: Error): State {
    s.(pc := if s.temp.Some? then Cleanup(error) else Done(Failed(error)))
  }

  function Finish(s: State, outcome: Outcome): State {
    if outcome.Failed? then Fail(s, outcome.error) else s.(pc := Done(outcome))
  }

  function Unlink(dir: Dir, name: Name): Dir {
    dir - {name}
  }

  /** One system call of the task. */
  function Step(task: Task, s: State, c: Choice): State {
    match s.pc
    case CreateTemp(n) =>
      if n == 0 || c.fails || !task.job.StoreFile? then s.(pc := Done(Failed(WriteError)))
      else if c.name in s.dir then s.(pc := CreateTemp(n - 1))
      else
        var inode := Inode(c.id, RegularFile, task.job.contents);
        s.(dir := s.dir[c.name := inode], temp := Some((c.name, inode)), pc := Commit)
    case Commit =>
      if c.fails || !task.job.StoreFile? then Fail(s, WriteError)
      else s.(pc := if task.job.mode.CompareAndSwap? then Quarantining(ATTEMPTS) else Publish)
    case Quarantining(n) =>
      if n == 0 then Fail(s, WriteError)
      else if task.target !in s.dir then
        if task.job.StoreFile? then Fail(s, ConcurrentModification) else s.(pc := Done(Answer(false)))
      else if c.fails then Fail(s, WriteError)
      else if c.name in s.dir then s.(pc := Quarantining(n - 1))
      else
        var victim := s.dir[task.target];
        s.(dir := Unlink(s.dir, task.target)[c.name := victim], quarantine := Some(c.name), victim := Some(victim),
           pc := if task.job.RemoveDirectory? then OpenDirectory else Inspect)
    case Inspect =>
      var mismatch := if task.job.StoreFile? then Failed(ConcurrentModification) else Answer(false);
      if s.quarantine.None? || s.quarantine.value !in s.dir then s
      else if c.fails then s.(pc := RestoreLink(Failed(ReadError)))
      else if !Expected(task, s.dir[s.quarantine.value]) then s.(pc := RestoreLink(mismatch))
      else s.(pc := if task.job.StoreFile? then LinkTemp else UnlinkMatched)
    case UnlinkMatched =>
      if c.fails || s.quarantine.None? then Fail(s, WriteError)
      else s.(dir := Unlink(s.dir, s.quarantine.value), pc := Done(Answer(true)))
    case LinkTemp =>
      if task.target in s.dir then Fail(s, ConcurrentModification)
      else if c.fails || s.temp.None? then s.(pc := RestoreLink(Failed(PersistError)))
      else s.(dir := s.dir[task.target := s.temp.value.1], pc := UnlinkTemp)
    case Publish =>
      if c.fails || s.temp.None? || !task.job.StoreFile? then Fail(s, PersistError)
      else if task.job.mode.NoClobber? then
        if task.target in s.dir then Fail(s, PersistError)
        else s.(dir := s.dir[task.target := s.temp.value.1], pc := UnlinkTemp)
      else if task.target in s.dir && s.dir[task.target].kind.Directory? then Fail(s, PersistError)
      else s.(dir := Unlink(s.dir, s.temp.value.0)[task.target := s.temp.value.1],
              pc := Done(Stored(s.temp.value.1.id)))
    case UnlinkTemp =>
      if s.temp.None? then s
      else
        var gone := if c.fails then s else s.(dir := Unlink(s.dir, s.temp.value.0));
        gone.(pc := if s.quarantine.Some? then UnlinkReplaced else Done(Stored(s.temp.value.1.id)))
    case UnlinkReplaced =>
      if s.temp.None? || s.quarantine.None? then s
      else
        var gone := if c.fails then s else s.(dir := Unlink(s.dir, s.quarantine.value));
        gone.(pc := Done(Stored(s.temp.value.1.id)))
    case RestoreLink(restored) =>
      if task.target in s.dir then Fail(s, ConcurrentModification)
      else if c.fails || s.quarantine.None? || s.quarantine.value !in s.dir then Fail(s, WriteError)
      else if s.dir[s.quarantine.value].kind.Directory? then Fail(s, WriteError)
      else s.(dir := s.dir[task.target := s.dir[s.quarantine.value]], pc := RestoreUnlink(restored), linkedBack := true)
    case RestoreUnlink(restored) =>
      if c.fails || s.quarantine.None? then Fail(s, WriteError)
      else Finish(s.(dir := Unlink(s.dir, s.quarantine.value)), restored)
    case OpenDirectory =>
      if s.quarantine.None? || s.quarantine.value !in s.dir then s
      else if c.fails || !Expected(task, s.dir[s.quarantine.value]) then s.(pc := RestoreRename)
      else s.(pc := LookForRacer)
    case LookForRacer => s.(pc := UnlinkDirectory(task.target in s.dir))
    case UnlinkDirectory(racer) =>
      if s.quarantine.None? then s
      else if c.notEmpty then s.(pc := RestoreRename)
      else if c.fails then s.(pc := Done(Failed(WriteError)))
      else s.(dir := Unlink(s.dir, s.quarantine.value), pc := Done(Answer(!racer)))
    case RestoreRename =>
      if s.quarantine.None? || s.quarantine.value !in s.dir then s
      else if task.target in s.dir then s.(pc := Done(Answer(false)))
      else if c.fails then s.(pc := Done(Failed(WriteError)))
      else s.(dir := Unlink(s.dir, s.quarantine.value)[task.target := s.dir[s.quarantine.value]],
              pc := Done(Answer(false)), linkedBack := true)
    case Cleanup(error) =>
      var gone := if c.fails || s.temp.None? then s else s.(dir := Unlink(s.dir, s.temp.value.0));
      gone.(pc := Done(Failed(error)))
    case Done(_) => s
  }

  // ----- runs

  function HeldNames(s: State): set<Name> {
    (if s.temp.Some? then {s.temp.value.0} else {}) + (if s.quarantine.Some? then {s.quarantine.value} else {})
  }

  /** Other writers may do anything to the directory except touch the task's own
      temporary and quarantine names. */
  ghost predicate EnvironmentStep(s: State, s': State) {
    s' == s.(dir := s'.dir)
    && forall n :: n in HeldNames(s) ==> (n in s.dir <==> n in s'.dir) && (n in s.dir ==> s.dir[n] == s'.dir[n])
  }

  datatype Action = Environment | Call(choice: Choice)

  ghost predicate Next(task: Task, s: State, a: Action, s': State) {
    match a
    case Environment => EnvironmentStep(s, s')
    case Call(c) => c.name != task.target && s' == Step(task, s, c)
  }

  /** A finite interleaving of the task's calls with other writers. */
  datatype Run = Run(states: seq<State>, actions: seq<Action>)

  ghost predicate IsRun(task: Task, run: Run) {
    |run.states| == |run.actions| + 1
    && run.states[0] == Start(task, run.states[0].dir)
    && forall i :: 0 <= i < |run.actions| ==> Next(task, run.states[i], run.actions[i], run.states[i + 1])
  }

  function Last(run: Run): State
    requires run.states != []
  {
    run.states[|run.states| - 1]
  }

  // ----- what every step keeps

  ghost predicate TempHeld(s: State) {
    s.temp.Some? && s.temp.value.0 in s.dir && s.dir[s.temp.value.0] == s.temp.value.1
  }

  ghost predicate VictimHeld(s: State) {
    s.quarantine.Some? && s.victim.Some? && s.quarantine.value in s.dir && s.dir[s.quarantine.value] == s.victim.value
  }

  /** What the task knows at each call. */
  ghost predicate Invariant(task: Task, s: State) {
    && (s.quarantine.Some? <==> s.victim.Some?)
    && (s.temp.Some? ==>
          task.job.StoreFile? && s.temp.value.0 != task.target && s.temp.value.1.contents == task.job.contents)
    && (s.quarantine.Some? ==> s.quarantine.value != task.target && (s.temp.Some? ==>
        s.quarantine.value != s.temp.value.0))
    && (s.quarantine.Some? && task.job.StoreFile? ==> task.job.mode.CompareAndSwap?)
    && (s.linkedBack ==> s.quarantine.Some? && (s.pc.RestoreUnlink? || s.pc.Cleanup? || s.pc.Done?)
                         && (!task.job.RemoveDirectory? ==> !s.victim.value.kind.Directory?))
    && match s.pc
       case CreateTemp(_) => s.temp.None? && s.quarantine.None? && task.job.StoreFile?
       case Commit => TempHeld(s) && s.quarantine.None?
       case Publish => TempHeld(s) && s.quarantine.None? && !task.job.mode.CompareAndSwap?
       case Quarantining(_) => s.quarantine.None? && (task.job.StoreFile? ==>
           TempHeld(s) && task.job.mode.CompareAndSwap?)
       case Inspect => VictimHeld(s) && !task.job.RemoveDirectory? && (task.job.StoreFile? ==>
           TempHeld(s)) && !s.linkedBack
       case UnlinkMatched => VictimHeld(s) && Expected(task, s.victim.value) && task.job.RemoveFile? && !s.linkedBack
       case LinkTemp => VictimHeld(s) && Expected(task, s.victim.value) && TempHeld(s) && !s.linkedBack
       case UnlinkTemp => TempHeld(s) && !s.linkedBack && (task.job.mode.CompareAndSwap? ==>
           s.quarantine.Some?) && (s.quarantine.Some? ==> VictimHeld(s) && Expected(task, s.victim.value))
       case UnlinkReplaced => s.temp.Some? && VictimHeld(s) && Expected(task, s.victim.value) && !s.linkedBack
       case RestoreLink(r) => VictimHeld(s) && !task.job.RemoveDirectory? && (task.job.StoreFile? ==>
           TempHeld(s)) && !s.linkedBack && RestoreAnswer(task, s, r)
       case RestoreUnlink(r) => VictimHeld(s) && (task.job.StoreFile? ==>
           TempHeld(s)) && s.linkedBack && RestoreAnswer(task, s, r)
       case OpenDirectory => VictimHeld(s) && task.job.RemoveDirectory? && !s.linkedBack
       case LookForRacer => VictimHeld(s) && Expected(task, s.victim.value) && task.job.RemoveDirectory?
         && !s.linkedBack
       case UnlinkDirectory(_) => VictimHeld(s) && Expected(task, s.victim.value) && task.job.RemoveDirectory?
         && !s.linkedBack
       case RestoreRename => VictimHeld(s) && task.job.RemoveDirectory? && !s.linkedBack
       case Cleanup(_) => TempHeld(s) && (s.quarantine.Some? ==> s.linkedBack || VictimHeld(s))
       case Done(outcome) => DoneInvariant(task, s, outcome)
  }

  /** The return value a successful restore leads to. */
  ghost predicate RestoreAnswer(task: Task, s: State, r: Outcome) {
    match r
    case Answer(flag) => !flag && task.job.RemoveFile? && s.victim.Some? && !Expected(task, s.victim.value)
    case Stored(_) => false
    case Failed(_) => true
  }

  /** What a return certifies: a displaced file that was not put back is either
      what the caller expected, and then removed on success, or still there under
      its quarantine name. */
  ghost predicate DoneInvariant(task: Task, s: State, outcome: Outcome) {
    match outcome
    case Answer(true) => s.victim.Some? && Expected(task, s.victim.value) && !s.linkedBack && !task.job.StoreFile?
      && s.quarantine.Some? && s.quarantine.value !in s.dir
    case Answer(false) =>
      !task.job.StoreFile?
      && (task.job.RemoveFile? && s.victim.Some? ==> s.linkedBack && !Expected(task, s.victim.value))
      && (task.job.RemoveDirectory? && s.victim.Some? && !s.linkedBack ==>
          VictimHeld(s) || Expected(task, s.victim.value))
    case Stored(id) =>
      s.temp.Some? && s.temp.value.1.id == id && !s.linkedBack
      && (task.job.StoreFile? && task.job.mode.CompareAndSwap? ==> s.victim.Some? && Expected(task, s.victim.value))
    case Failed(_) => s.victim.Some? ==> s.linkedBack || VictimHeld(s)
  }

  lemma EnvironmentKeepsInvariant(task: Task, s: State, s': State)
    requires Invariant(task, s) && EnvironmentStep(s, s')
    ensures Invariant(task, s')
  {
  }

  /** Calls that stage a temporary file, publish it, or displace the target. */
  lemma StagingKeepsInvariant(task: Task, s: State, c: Choice)
    requires Invariant(task, s) && c.name != task.target
    requires s.pc.CreateTemp? || s.pc.Commit? || s.pc.Publish? || s.pc.Quarantining?
    ensures Invariant(task, Step(task, s, c))
  {
  }

  /** Calls that judge what was displaced and act on a match. */
  lemma JudgingKeepsInvariant(task: Task, s: State, c: Choice)
    requires Invariant(task, s)
    requires s.pc.Inspect? || s.pc.UnlinkMatched? || s.pc.LinkTemp? || s.pc.UnlinkTemp? || s.pc.UnlinkReplaced?
    ensures Invariant(task, Step(task, s, c))
  {
  }

  /** Calls that put back what was displaced, and error returns. */
  lemma RestoringKeepsInvariant(task: Task, s: State, c: Choice)
    requires Invariant(task, s)
    requires s.pc.RestoreLink? || s.pc.RestoreUnlink? || s.pc.Cleanup? || s.pc.Done?
    ensures Invariant(task, Step(task, s, c))
  {
  }

  /** Calls of a directory removal after the rename. */
  lemma DirectoryKeepsInvariant(task: Task, s: State, c: Choice)
    requires Invariant(task, s)
    requires s.pc.OpenDirectory? || s.pc.LookForRacer? || s.pc.UnlinkDirectory? || s.pc.RestoreRename?
    ensures Invariant(task, Step(task, s, c))
  {
  }

  lemma CallKeepsInvariant(task: Task, s: State, c: Choice)
    requires Invariant(task, s) && c.name != task.target
    ensures Invariant(task, Step(task, s, c))
  {
    hide Step, Invariant;
    match s.pc {
      case CreateTemp(_) => StagingKeepsInvariant(task, s, c);
      case Commit => StagingKeepsInvariant(task, s, c);
      case Publish => StagingKeepsInvariant(task, s, c);
      case Quarantining(_) => StagingKeepsInvariant(task, s, c);
      case Inspect => JudgingKeepsInvariant(task, s, c);
      case UnlinkMatched => JudgingKeepsInvariant(task, s, c);
      case LinkTemp => JudgingKeepsInvariant(task, s, c);
      case UnlinkTemp => JudgingKeepsInvariant(task, s, c);
      case UnlinkReplaced => JudgingKeepsInvariant(task, s, c);
      case RestoreLink(_) => RestoringKeepsInvariant(task, s, c);
      case RestoreUnlink(_) => RestoringKeepsInvariant(task, s, c);
      case Cleanup(_) => RestoringKeepsInvariant(task, s, c);
      case Done(_) => RestoringKeepsInvariant(task, s, c);
      case OpenDirectory => DirectoryKeepsInvariant(task, s, c);
      case LookForRacer => DirectoryKeepsInvariant(task, s, c);
      case UnlinkDirectory(_) => DirectoryKeepsInvariant(task, s, c);
      case RestoreRename => DirectoryKeepsInvariant(task, s, c);
    }
  }

  lemma StartInvariant(task: Task, dir: Dir)
    ensures Invariant(task, Start(task, dir))
  {
  }

  lemma {:induction false} RunInvariant(task: Task, run: Run, i: nat)
    requires IsRun(task, run) && i < |run.states|
    ensures Invariant(task, run.states[i])
  {
    if i == 0 {
      StartInvariant(task, run.states[0].dir);
    } else {
      RunInvariant(task, run, i - 1);
      assert Next(task, run.states[i - 1], run.actions[i - 1], run.states[i]);
      if run.actions[i - 1].Environment? {
        EnvironmentKeepsInvariant(task, run.states[i - 1], run.states[i]);
      } else {
        CallKeepsInvariant(task, run.states[i - 1], run.actions[i - 1].choice);
      }
    }
  }

  // ----- nothing unexpected is lost

  ghost predicate Linked(dir: Dir, x: Inode) {
    exists n :: n in dir && dir[n] == x
  }

  ghost predicate AtTarget(task: Task, s: State, x: Inode) {
    task.target in s.dir && s.dir[task.target] == x
  }

  /** The only files whose last link a call of the task removes. */
  lemma CallLosses(task: Task, s: State, c: Choice, x: Inode)
    requires Invariant(task, s) && c.name != task.target
    requires Linked(s.dir, x)
    ensures Linked(Step(task, s, c).dir, x)
         || Expected(task, x)
         || (s.temp.Some? && x == s.temp.value.1)
         || (Unconditional(task) && s.pc.Publish? && AtTarget(task, s, x))
         || (s.pc.RestoreUnlink? && s.linkedBack && s.victim == Some(x) && !AtTarget(task, s, x))
  {
    var s' := Step(task, s, c);
    var n :| n in s.dir && s.dir[n] == x;
    var m := if s.pc.Quarantining? && n == task.target && s'.quarantine.Some? then s'.quarantine.value
             else if n != task.target && (s.pc.RestoreRename? || s.pc.RestoreUnlink?) && AtTarget(task, s', x)
                 then task.target
             else n;
    assert m in s'.dir && s'.dir[m] == x ==> Linked(s'.dir, x);
  }

  /** While a put-back file is no longer at the target, some earlier step of
      another writer took it away. */
  lemma {:induction false} TakenByEnvironment(task: Task, run: Run, i: nat, x: Inode) returns (j: nat)
    requires IsRun(task, run) && i < |run.states|
    requires run.states[i].linkedBack && run.states[i].victim == Some(x) && !AtTarget(task, run.states[i], x)
    ensures j < i && run.actions[j].Environment? && run.states[j].linkedBack
    ensures AtTarget(task, run.states[j], x) && !AtTarget(task, run.states[j + 1], x)
  {
    if i == 0 {
      assert false;
    }
    var s := run.states[i - 1];
    RunInvariant(task, run, i - 1);
    assert Next(task, s, run.actions[i - 1], run.states[i]);
    if s.linkedBack && AtTarget(task, s, x) && run.actions[i - 1].Environment? {
      j := i - 1;
    } else {
      assert s.linkedBack && s.victim == Some(x) && !AtTarget(task, s, x);
      j := TakenByEnvironment(task, run, i - 1, x);
    }
  }

  /** In every interleaving, a call of the task removes the last link of a file
      only if that file is what the caller expected, is the task's own temporary
      file, is the target of an unconditional replacement, or had been put back at
      the target and was taken away from there by another writer. */
  lemma NothingUnexpectedIsLost(task: Task, run: Run, i: nat, x: Inode)
    requires IsRun(task, run) && i < |run.actions| && run.actions[i].Call?
    requires Linked(run.states[i].dir, x) && !Linked(run.states[i + 1].dir, x)
    ensures Expected(task, x)
         || (run.states[i].temp.Some? && x == run.states[i].temp.value.1)
         || (Unconditional(task) && AtTarget(task, run.states[i], x))
         || exists j :: 0 <= j < i && run.actions[j].Environment? && run.states[j].linkedBack
                        && AtTarget(task, run.states[j], x) && !AtTarget(task, run.states[j + 1], x)
  {
    RunInvariant(task, run, i);
    var s := run.states[i];
    assert Next(task, s, run.actions[i], run.states[i + 1]);
    CallLosses(task, s, run.actions[i].choice, x);
    if s.pc.RestoreUnlink? && s.linkedBack && s.victim == Some(x) && !AtTarget(task, s, x) {
      var j := TakenByEnvironment(task, run, i, x);
    }
  }

  /** No call ever overwrites an occupied target, but for an unconditional
      replacement: the rename of the protocol moves what it finds. */
  lemma TargetIsNeverClobbered(task: Task, run: Run, i: nat, x: Inode)
    requires IsRun(task, run) && i < |run.actions| && run.actions[i].Call?
    requires AtTarget(task, run.states[i], x) && !AtTarget(task, run.states[i + 1], x)
    ensures (run.states[i].pc.Quarantining? && VictimHeld(run.states[i + 1]) && run.states[i + 1].victim == Some(x))
         || (Unconditional(task) && run.states[i].pc.Publish?)
  {
    RunInvariant(task, run, i);
    assert Next(task, run.states[i], run.actions[i], run.states[i + 1]);
  }

  // ----- what a return means

  /** The call that displaced the target: what it found there and where it went. */
  ghost predicate Displaced(task: Task, run: Run, i: nat, x: Inode) {
    i < |run.actions| && i + 1 < |run.states|
    && run.actions[i].Call? && AtTarget(task, run.states[i], x)
    && task.target !in run.states[i + 1].dir && VictimHeld(run.states[i + 1]) && run.states[i + 1].victim == Some(x)
  }

  lemma {:induction false} VictimWasAtTarget(task: Task, run: Run, n: nat) returns (i: nat)
    requires IsRun(task, run) && n < |run.states| && run.states[n].victim.Some?
    ensures i < n && Displaced(task, run, i, run.states[n].victim.value)
  {
    if n == 0 {
      assert false;
    }
    var s := run.states[n - 1];
    RunInvariant(task, run, n - 1);
    assert Next(task, s, run.actions[n - 1], run.states[n]);
    if s.victim == run.states[n].victim {
      i := VictimWasAtTarget(task, run, n - 1);
    } else {
      i := n - 1;
    }
  }

  /** Where a store's file appeared at the target. */
  ghost predicate Published(task: Task, run: Run, j: nat, file: Inode) {
    j < |run.actions| && j + 1 < |run.states| && run.actions[j].Call? && AtTarget(task, run.states[j + 1], file)
    && task.job.StoreFile? && (!task.job.mode.Replace? ==> task.target !in run.states[j].dir)
  }

  predicate AfterPublication(pc: Pc) {
    pc.UnlinkTemp? || pc.UnlinkReplaced? || (pc.Done? && pc.outcome.Stored?)
  }

  lemma PublicationStep(task: Task, s: State, a: Action, s': State)
    requires Invariant(task, s) && Next(task, s, a, s') && AfterPublication(s'.pc)
    ensures s'.temp.Some? && s'.temp == s.temp
    ensures AfterPublication(s.pc) || (a.Call? && AtTarget(task, s', s'.temp.value.1) && task.job.StoreFile?
                                       && (!task.job.mode.Replace? ==> task.target !in s.dir))
    ensures task.job.StoreFile? && task.job.mode.CompareAndSwap? ==> s'.victim == s.victim
  {
  }

  lemma {:induction false} StoredWasPublished(task: Task, run: Run, n: nat) returns (j: nat)
    requires IsRun(task, run) && n < |run.states| && AfterPublication(run.states[n].pc)
    ensures j < n && run.states[n].temp.Some? && Published(task, run, j, run.states[n].temp.value.1)
    ensures task.job.mode.CompareAndSwap? ==> run.states[j].victim == run.states[n].victim
  {
    if n == 0 {
      assert false;
    }
    hide Next, Invariant;
    var s := run.states[n - 1];
    RunInvariant(task, run, n - 1);
    assert Next(task, s, run.actions[n - 1], run.states[n]);
    PublicationStep(task, s, run.actions[n - 1], run.states[n]);
    if AfterPublication(s.pc) {
      j := StoredWasPublished(task, run, n - 1);
    } else {
      j := n - 1;
    }
  }

  /** A removal that answers yes displaced exactly the expected file, and left nothing
      under its quarantine name. */
  lemma RemovedWasExpected(task: Task, run: Run) returns (i: nat)
    requires IsRun(task, run) && Last(run).pc == Done(Answer(true))
    ensures i < |run.actions| && Last(run).victim.Some? && Displaced(task, run, i, Last(run).victim.value)
    ensures Expected(task, Last(run).victim.value)
    ensures Last(run).quarantine.Some? && Last(run).quarantine.value !in Last(run).dir
  {
    RunInvariant(task, run, |run.states| - 1);
    i := VictimWasAtTarget(task, run, |run.states| - 1);
  }

  /** A compare-and-swap that succeeds displaced exactly the expected file and then
      put the new contents at a free target. */
  lemma SwapWasExpected(task: Task, run: Run) returns (i: nat, j: nat)
    requires IsRun(task, run) && Last(run).pc.Done? && Last(run).pc.outcome.Stored?
    requires task.job.StoreFile? && task.job.mode.CompareAndSwap?
    ensures i < j < |run.actions| && Last(run).victim.Some? && Last(run).temp.Some?
    ensures Displaced(task, run, i, Last(run).victim.value) && Matches(Last(run).victim.value, task.job.mode.expected)
    ensures Published(task, run, j, Last(run).temp.value.1) && Last(run).temp.value.1.contents == task.job.contents
  {
    var n := |run.states| - 1;
    RunInvariant(task, run, n);
    j := StoredWasPublished(task, run, n);
    i := VictimWasAtTarget(task, run, j);
  }

  /** A failure loses nothing: what was displaced was put back at the target, or is
      still under its quarantine name. */
  lemma FailureKeepsVictim(task: Task, run: Run)
    requires IsRun(task, run) && Last(run).pc.Done? && Last(run).pc.outcome.Failed? && Last(run).victim.Some?
    ensures Last(run).linkedBack || VictimHeld(Last(run))
  {
    RunInvariant(task, run, |run.states| - 1);
  }

  /** A file removal that answers no found nothing, or put back a file other than
      the expected one. */
  lemma RefusalPutBack(task: Task, run: Run)
    requires IsRun(task, run) && Last(run).pc == Done(Answer(false)) && task.job.RemoveFile?
    ensures Last(run).victim.None? || (Last(run).linkedBack && !Expected(task, Last(run).victim.value))
  {
    RunInvariant(task, run, |run.states| - 1);
  }

  // ----- when a displaced file is not put back

  /** Putting back succeeds exactly when the target is free, what was displaced can
      be linked, which a directory cannot, and the call does not fail. */
  lemma PutBackExactlyWhen(task: Task, s: State, c: Choice)
    requires Invariant(task, s) && s.pc.RestoreLink?
    ensures Step(task, s, c).linkedBack <==> task.target !in s.dir && !s.victim.value.kind.Directory? && !c.fails
  {
  }

  /** A file task that displaces a directory always strands it: whatever happens,
      it ends in a failure with the directory under the quarantine name. */
  lemma DirectoriesAreStranded(task: Task, run: Run)
    requires IsRun(task, run) && Last(run).pc.Done? && !task.job.RemoveDirectory?
    requires Last(run).victim.Some? && Last(run).victim.value.kind.Directory?
    ensures Last(run).pc.outcome.Failed? && VictimHeld(Last(run))
  {
    RunInvariant(task, run, |run.states| - 1);
  }

  lemma DisplacesAlone(task: Task, victim: Inode, c: Choice)
    requires !task.job.StoreFile? && !c.fails && c.name != task.target
    ensures Step(task, Start(task, map[task.target := victim]), c) ==
            State(map[c.name := victim], if task.job.RemoveDirectory? then OpenDirectory else Inspect,
                  None, Some(c.name), Some(victim), false)
  {
    assert Unlink(map[task.target := victim], task.target) == map[];
  }

  /** Such a run exists with no other writer at all. */
  lemma StrandedDirectoryExample()
    ensures var task := Task("a", RemoveFile(Snapshot(1, [])));
            exists run :: IsRun(task, run) && run.states[0].dir == map["a" := Inode(5, Directory, [])]
                          && Last(run).pc == Done(Failed(WriteError))
                          && Last(run).dir == map["q" := Inode(5, Directory, [])]
  {
    var task := Task("a", RemoveFile(Snapshot(1, [])));
    var call := Call(Choice("q", 0, false, false));
    var s0 := Start(task, map["a" := Inode(5, Directory, [])]);
    var s1 := Step(task, s0, call.choice);
    var s2 := Step(task, s1, call.choice);
    var s3 := Step(task, s2, call.choice);
    var run := Run([s0, s1, s2, s3], [call, call, call]);
    assert s1.dir == map["q" := Inode(5, Directory, [])];
    assert IsRun(task, run);
  }

  // ----- what a failure or a refusal left behind

  /** A link call that found the target occupied. */
  ghost predicate LinkBlocked(task: Task, run: Run, i: nat) {
    i < |run.actions| && i < |run.states| && run.actions[i].Call? && task.target in run.states[i].dir
    && (run.states[i].pc.LinkTemp? || run.states[i].pc.RestoreLink?)
  }

  /** On the way out with the displaced file under its quarantine name. */
  ghost predicate LeavingVictim(s: State) {
    (s.pc == Cleanup(ConcurrentModification) || s.pc == Done(Failed(ConcurrentModification))) && s.victim.Some?
      && !s.linkedBack
  }

  lemma BlockedStep(task: Task, s: State, a: Action, s': State)
    requires Invariant(task, s) && Next(task, s, a, s')
    ensures LeavingVictim(s) ==> LeavingVictim(s')
    ensures a.Call? && task.target in s.dir && (s.pc.LinkTemp? || s.pc.RestoreLink?) ==> LeavingVictim(s')
    ensures LeavingVictim(s') ==>
              LeavingVictim(s) || (a.Call? && task.target in s.dir && (s.pc.LinkTemp? || s.pc.RestoreLink?))
  {
  }

  lemma {:induction false} BlockedStays(task: Task, run: Run, i: nat, n: nat)
    requires IsRun(task, run) && LinkBlocked(task, run, i) && i < n < |run.states|
    ensures LeavingVictim(run.states[n])
    decreases n
  {
    hide Next, Invariant;
    RunInvariant(task, run, n - 1);
    assert Next(task, run.states[n - 1], run.actions[n - 1], run.states[n]);
    BlockedStep(task, run.states[n - 1], run.actions[n - 1], run.states[n]);
    if i < n - 1 {
      BlockedStays(task, run, i, n - 1);
    }
  }

  lemma {:induction false} WasBlocked(task: Task, run: Run, n: nat) returns (i: nat)
    requires IsRun(task, run) && n < |run.states| && LeavingVictim(run.states[n])
    ensures i < n && LinkBlocked(task, run, i)
    decreases n
  {
    hide Next, Invariant;
    if n == 0 {
      assert false;
    }
    RunInvariant(task, run, n - 1);
    assert Next(task, run.states[n - 1], run.actions[n - 1], run.states[n]);
    BlockedStep(task, run.states[n - 1], run.actions[n - 1], run.states[n]);
    i := n - 1;
    if LeavingVictim(run.states[n - 1]) {
      i := WasBlocked(task, run, n - 1);
    }
  }

  /** A link call that finds the target occupied ends the task in a concurrent
      modification with the displaced file under its quarantine name; and a task ends so
      only after such a call. */
  lemma OccupiedTargetKeepsQuarantine(task: Task, run: Run)
    requires IsRun(task, run) && Last(run).pc.Done?
    ensures (exists i :: LinkBlocked(task, run, i)) <==>
            Last(run).pc == Done(Failed(ConcurrentModification)) && !Last(run).linkedBack && VictimHeld(Last(run))
  {
    hide Next;
    var n := |run.states| - 1;
    RunInvariant(task, run, n);
    if i :| LinkBlocked(task, run, i) {
      BlockedStays(task, run, i, n);
    }
    if LeavingVictim(Last(run)) {
      var i := WasBlocked(task, run, n);
    }
  }

  /** Once the task has returned, nothing it knows changes, nor what its quarantine name
      stands for. */
  ghost predicate SameOutcome(s: State, s': State) {
    s'.pc == s.pc && s'.quarantine == s.quarantine && s'.victim == s.victim && s'.linkedBack == s.linkedBack
    && (s.quarantine.Some? ==> (s.quarantine.value in s.dir <==> s.quarantine.value in s'.dir))
    && (s.quarantine.Some? && s.quarantine.value in s.dir ==> s.dir[s.quarantine.value] == s'.dir[s.quarantine.value])
  }

  /** The call that returned: no state up to it is final, and all later ones are. */
  lemma {:induction false} ReturningCall(task: Task, run: Run, n: nat) returns (j: nat)
    requires IsRun(task, run) && n < |run.states| && run.states[n].pc.Done?
    ensures j < n && run.actions[j].Call? && SameOutcome(run.states[j + 1], run.states[n])
    ensures forall k :: 0 <= k <= j ==> !run.states[k].pc.Done?
    ensures forall k :: j < k <= n ==> run.states[k].pc.Done?
    decreases n
  {
    hide Step;
    if n == 0 {
      assert false;
    }
    var s, s' := run.states[n - 1], run.states[n];
    assert Next(task, s, run.actions[n - 1], s');
    if s.pc.Done? {
      DoneStays(task, s, run.actions[n - 1], s');
      j := ReturningCall(task, run, n - 1);
    } else {
      j := n - 1;
      NotYetDone(task, run, n - 1);
    }
  }

  lemma DoneStays(task: Task, s: State, a: Action, s': State)
    requires s.pc.Done? && Next(task, s, a, s')
    ensures s'.pc.Done? && SameOutcome(s, s')
  {
  }

  lemma {:induction false} NotYetDone(task: Task, run: Run, n: nat)
    requires IsRun(task, run) && n < |run.states| && !run.states[n].pc.Done?
    ensures forall k :: 0 <= k <= n ==> !run.states[k].pc.Done?
  {
    hide Next;
    if n > 0 {
      assert Next(task, run.states[n - 1], run.actions[n - 1], run.states[n]);
      if run.states[n - 1].pc.Done? {
        DoneStays(task, run.states[n - 1], run.actions[n - 1], run.states[n]);
      }
      NotYetDone(task, run, n - 1);
    }
  }

  /** The call that settled a directory removal. */
  datatype Fate = NeverFound | PutBack | Stranded | RemovedUnderRacer

  ghost predicate Settles(task: Task, s: State, a: Action, fate: Fate) {
    a.Call?
    && match fate
       case NeverFound => s.pc.Quarantining? && s.pc.attempts > 0 && task.target !in s.dir
       case PutBack => s.pc.RestoreRename? && task.target !in s.dir && !a.choice.fails
       case Stranded => s.pc.RestoreRename? && task.target in s.dir
       case RemovedUnderRacer => s.pc == UnlinkDirectory(true) && !a.choice.notEmpty && !a.choice.fails
  }

  /** What the state after a directory removal shows. */
  ghost predicate Shows(s: State, fate: Fate) {
    match fate
    case NeverFound => s.victim.None?
    case PutBack => s.victim.Some? && s.linkedBack
    case Stranded => s.victim.Some? && !s.linkedBack && VictimHeld(s)
    case RemovedUnderRacer => s.victim.Some? && !s.linkedBack && s.quarantine.Some? && s.quarantine.value !in s.dir
  }

  lemma SettlingStep(task: Task, s: State, c: Choice, fate: Fate)
    requires Invariant(task, s) && task.job.RemoveDirectory? && c.name != task.target && !s.pc.Done?
    ensures Settles(task, s, Call(c), fate) ==> Step(task, s, c).pc == Done(Answer(false))
    ensures Step(task, s, c).pc == Done(Answer(false)) ==>
              (Settles(task, s, Call(c), fate) <==> Shows(Step(task, s, c), fate))
  {
  }

  /** A directory removal that answers no never found the directory exactly when its
      rename found no target, put it back exactly when its restoring rename found the
      target free, left it under the quarantine name exactly when that rename found the
      target occupied, and removed it exactly when it had seen another writer at the
      target and unlinked the directory all the same. */
  lemma DirectoryRefusalExactlyWhen(task: Task, run: Run, fate: Fate)
    requires IsRun(task, run) && task.job.RemoveDirectory? && Last(run).pc == Done(Answer(false))
    ensures Shows(Last(run), fate) <==>
            exists i :: 0 <= i < |run.actions| && Settles(task, run.states[i], run.actions[i], fate)
  {
    hide Step, Shows, Settles, Invariant;
    var n := |run.states| - 1;
    var j := ReturningCall(task, run, n);
    RunInvariant(task, run, j);
    assert Next(task, run.states[j], run.actions[j], run.states[j + 1]);
    SettlingStep(task, run.states[j], run.actions[j].choice, fate);
    SameFate(run.states[j + 1], Last(run), fate);
    forall i | 0 <= i < |run.actions| && Settles(task, run.states[i], run.actions[i], fate) ensures i == j {
      assert Next(task, run.states[i], run.actions[i], run.states[i + 1]);
      RunInvariant(task, run, i);
      SettlesIsCall(task, run.states[i], run.actions[i], fate);
      SettlingStep(task, run.states[i], run.actions[i].choice, fate);
    }
  }

  lemma SettlesIsCall(task: Task, s: State, a: Action, fate: Fate)
    requires Settles(task, s, a, fate)
    ensures a.Call? && !s.pc.Done?
  {
  }

  lemma SameFate(s: State, s': State, fate: Fate)
    requires SameOutcome(s, s')
    ensures Shows(s, fate) <==> Shows(s', fate)
  {
  }

  /** The racer was there when the removal looked. */
  lemma {:induction false} RacerWasSeen(task: Task, run: Run, n: nat) returns (i: nat)
    requires IsRun(task, run) && n < |run.states| && run.states[n].pc == UnlinkDirectory(true)
    ensures i < n && run.actions[i].Call? && run.states[i].pc.LookForRacer? && task.target in run.states[i].dir
    decreases n
  {
    if n == 0 {
      assert false;
    }
    assert Next(task, run.states[n - 1], run.actions[n - 1], run.states[n]);
    i := n - 1;
    if run.states[n - 1].pc == UnlinkDirectory(true) {
      i := RacerWasSeen(task, run, n - 1);
    }
  }

  /** The calls of a removal that finds another directory and cannot put it back. */
  lemma StrandingSteps(task: Task, s: State, racer: Inode, c: Choice)
    requires task.job.RemoveDirectory? && s.pc.OpenDirectory? && s.quarantine.Some? && s.quarantine.value in s.dir
    requires !Expected(task, s.dir[s.quarantine.value]) && s.quarantine.value != task.target
    ensures Step(task, s, c) == s.(pc := RestoreRename)
    ensures var blocked := s.(pc := RestoreRename, dir := s.dir[task.target := racer]);
            Step(task, blocked, c) == blocked.(pc := Done(Answer(false)))
  {
  }

  /** A directory removal can answer no and still leave the directory under the
      quarantine name, when another writer takes the target meanwhile. */
  lemma DirectoryAnswerCanStrand()
    ensures var task := Task("a", RemoveDirectory(1));
            exists run :: IsRun(task, run) && Last(run).pc == Done(Answer(false)) && Shows(Last(run), Stranded)
                          && run.states[0].dir == map["a" := Inode(5, Directory, [])]
  {
    hide Step;
    var task := Task("a", RemoveDirectory(1));
    var d, racer := Inode(5, Directory, []), Inode(6, RegularFile, []);
    var call := Call(Choice("q", 0, false, false));
    var s0 := Start(task, map["a" := d]);
    DisplacesAlone(task, d, call.choice);
    var s1 := State(map["q" := d], OpenDirectory, None, Some("q"), Some(d), false);
    StrandingSteps(task, s1, racer, call.choice);
    var s2 := s1.(pc := RestoreRename);
    var s3 := s2.(dir := s2.dir["a" := racer]);
    var s4 := s3.(pc := Done(Answer(false)));
    var run := Run([s0, s1, s2, s3, s4], [call, call, Environment, call]);
    assert Next(task, s0, call, s1) && Next(task, s1, call, s2);
    assert Next(task, s2, Environment, s3) && Next(task, s3, call, s4);
    assert IsRun(task, run);
  }

  /** The calls of a removal that sees a racer and still unlinks. */
  lemma RacerSteps(task: Task, s: State, racer: Inode, c: Choice)
    requires task.job.RemoveDirectory? && s.pc.OpenDirectory? && s.quarantine.Some? && s.quarantine.value in s.dir
    requires Expected(task, s.dir[s.quarantine.value]) && s.quarantine.value != task.target && !c.fails && !c.notEmpty
    ensures Step(task, s, c) == s.(pc := LookForRacer)
    ensures var seen := s.(pc := LookForRacer, dir := s.dir[task.target := racer]);
            var after := seen.(pc := UnlinkDirectory(true));
            Step(task, seen, c) == after
            && Step(task, after, c) == after.(dir := Unlink(after.dir, s.quarantine.value), pc := Done(Answer(false)))
  {
  }

  /** It can also answer no and have removed the directory, when another writer took the
      target before the removal looked. */
  lemma DirectoryAnswerCanRemove()
    ensures var task := Task("a", RemoveDirectory(5));
            exists run :: IsRun(task, run) && Last(run).pc == Done(Answer(false)) && Shows(Last(run), RemovedUnderRacer)
                          && run.states[0].dir == map["a" := Inode(5, Directory, [])]
  {
    hide Step;
    var task := Task("a", RemoveDirectory(5));
    var d, racer := Inode(5, Directory, []), Inode(6, RegularFile, []);
    var call := Call(Choice("q", 0, false, false));
    var s0 := Start(task, map["a" := d]);
    DisplacesAlone(task, d, call.choice);
    var s1 := State(map["q" := d], OpenDirectory, None, Some("q"), Some(d), false);
    RacerSteps(task, s1, racer, call.choice);
    var s2 := s1.(pc := LookForRacer);
    var s3 := s2.(dir := s2.dir["a" := racer]);
    var s4 := s3.(pc := UnlinkDirectory(true));
    var s5 := s4.(dir := Unlink(s4.dir, "q"), pc := Done(Answer(false)));
    var run := Run([s0, s1, s2, s3, s4, s5], [call, call, Environment, call, call]);
    assert Next(task, s0, call, s1) && Next(task, s1, call, s2) && Next(task, s2, Environment, s3);
    assert Next(task, s3, call, s4) && Next(task, s4, call, s5);
    assert IsRun(task, run);
  }

  // ----- every task ends

  function Remaining(pc: Pc): nat {
    match pc
    case CreateTemp(n) => 2 * ATTEMPTS + 10 + n
    case Commit => 2 * ATTEMPTS + 9
    case Quarantining(n) => ATTEMPTS + n
    case Inspect => 8
    case OpenDirectory => 8
    case LookForRacer => 7
    case LinkTemp => 6
    case UnlinkDirectory(_) => 6
    case Publish => 5
    case RestoreLink(_) => 4
    case UnlinkTemp => 3
    case RestoreUnlink(_) => 2
    case RestoreRename => 2
    case UnlinkReplaced => 1
    case UnlinkMatched => 1
    case Cleanup(_) => 1
    case Done(_) => 0
  }

  function Calls(actions: seq<Action>): nat {
    if actions == [] then 0
    else Calls(actions[..|actions| - 1]) + if actions[|actions| - 1].Call? then 1 else 0
  }

  lemma CallMakesProgress(task: Task, s: State, c: Choice)
    requires Invariant(task, s) && !s.pc.Done?
    ensures Remaining(Step(task, s, c).pc) < Remaining(s.pc)
  {
  }

  /** However other writers interleave, the task returns within a fixed number of
      its own calls. */
  lemma {:induction false} CallsAreBounded(task: Task, run: Run, i: nat)
    requires IsRun(task, run) && i < |run.states|
    ensures run.states[i].pc.Done? || Calls(run.actions[..i]) + Remaining(run.states[i].pc) <= 3 * ATTEMPTS + 10
  {
    if i == 0 {
    } else {
      CallsAreBounded(task, run, i - 1);
      RunInvariant(task, run, i - 1);
      var s := run.states[i - 1];
      assert Next(task, s, run.actions[i - 1], run.states[i]);
      assert run.actions[..i][..i - 1] == run.actions[..i - 1];
      if run.actions[i - 1].Call? && !s.pc.Done? {
        CallMakesProgress(task, s, run.actions[i - 1].choice);
      }
    }
  }
}
