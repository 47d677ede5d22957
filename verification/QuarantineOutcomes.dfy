/** What the compare-and-mutate tasks leave in the directory when they return. */
module QuarantineOutcomes {
  import opened Options
  import opened Quarantine

  // ----- what a success leaves behind

  /** A successful store still has a name of its own in the directory. */
  ghost predicate TempLeft(s: State) {
    (s.pc.UnlinkReplaced? || (s.pc.Done? && s.pc.outcome.Stored?)) && s.temp.Some? && s.temp.value.0 in s.dir
  }

  ghost predicate ReplacedLeft(s: State) {
    s.pc.Done? && s.pc.outcome.Stored? && s.quarantine.Some? && s.quarantine.value in s.dir
  }

  /** The call that should have removed it failed. */
  ghost predicate TempUnlinkFails(s: State, a: Action) {
    a.Call? && s.pc.UnlinkTemp? && a.choice.fails
  }

  ghost predicate ReplacedUnlinkFails(s: State, a: Action) {
    a.Call? && s.pc.UnlinkReplaced? && a.choice.fails
  }

  lemma LeftoverStep(task: Task, s: State, a: Action, s': State)
    requires Invariant(task, s) && Next(task, s, a, s')
    ensures TempLeft(s') <==> TempLeft(s) || TempUnlinkFails(s, a)
    ensures ReplacedLeft(s') <==> ReplacedLeft(s) || ReplacedUnlinkFails(s, a)
  {
  }

  lemma {:induction false} Leftovers(task: Task, run: Run, n: nat)
    requires IsRun(task, run) && n < |run.states|
    ensures TempLeft(run.states[n]) <==> exists i :: 0 <= i < n && TempUnlinkFails(run.states[i], run.actions[i])
    ensures ReplacedLeft(run.states[n]) <==>
            exists i :: 0 <= i < n && ReplacedUnlinkFails(run.states[i], run.actions[i])
  {
    hide Next, Invariant, TempLeft, ReplacedLeft, TempUnlinkFails, ReplacedUnlinkFails;
    if n == 0 {
      NothingLeftAtStart(task, run.states[0].dir);
    } else {
      Leftovers(task, run, n - 1);
      RunInvariant(task, run, n - 1);
      assert Next(task, run.states[n - 1], run.actions[n - 1], run.states[n]);
      LeftoverStep(task, run.states[n - 1], run.actions[n - 1], run.states[n]);
    }
  }

  lemma NothingLeftAtStart(task: Task, dir: Dir)
    ensures !TempLeft(Start(task, dir)) && !ReplacedLeft(Start(task, dir)) && !VictimLeft(Start(task, dir))
  {
  }

  /** In every interleaving, a store that succeeds leaves its temporary name behind exactly
      when unlinking that failed, and the replaced file under its quarantine name exactly
      when unlinking that failed. */
  lemma StoredLeavesExactly(task: Task, run: Run)
    requires IsRun(task, run) && Last(run).pc.Done? && Last(run).pc.outcome.Stored?
    ensures var s := Last(run);
            && s.temp.Some?
            && (s.temp.value.0 in s.dir <==>
                exists i :: 0 <= i < |run.actions| && TempUnlinkFails(run.states[i], run.actions[i]))
            && (s.quarantine.Some? && s.quarantine.value in s.dir <==>
                exists i :: 0 <= i < |run.actions| && ReplacedUnlinkFails(run.states[i], run.actions[i]))
  {
    hide Next;
    RunInvariant(task, run, |run.states| - 1);
    Leftovers(task, run, |run.states| - 1);
  }

  /** A failed store still has its temporary file in the directory. */
  ghost predicate FailedTempLeft(s: State) {
    s.pc.Done? && s.pc.outcome.Failed? && s.temp.Some? && s.temp.value.0 in s.dir
  }

  lemma FailedLeftoverStep(task: Task, s: State, a: Action, s': State)
    requires Invariant(task, s) && Next(task, s, a, s')
    ensures FailedTempLeft(s') <==> FailedTempLeft(s) || (a.Call? && s.pc.Cleanup? && a.choice.fails)
  {
  }

  lemma {:induction false} FailedLeavesExactly(task: Task, run: Run, n: nat)
    requires IsRun(task, run) && n < |run.states|
    ensures FailedTempLeft(run.states[n]) <==>
            exists i :: 0 <= i < n && run.actions[i].Call? && run.states[i].pc.Cleanup? && run.actions[i].choice.fails
  {
    hide Next, Invariant, FailedTempLeft;
    if n > 0 {
      FailedLeavesExactly(task, run, n - 1);
      RunInvariant(task, run, n - 1);
      assert Next(task, run.states[n - 1], run.actions[n - 1], run.states[n]);
      FailedLeftoverStep(task, run.states[n - 1], run.actions[n - 1], run.states[n]);
    } else {
      NothingFailedAtStart(task, run.states[0].dir);
    }
  }

  lemma NothingFailedAtStart(task: Task, dir: Dir)
    ensures !FailedTempLeft(Start(task, dir)) && PendingError(Start(task, dir)) == None
  {
  }

  /** A file task is failing, or has failed, without having put back what it displaced. */
  ghost predicate VictimLeft(s: State) {
    (s.pc.Cleanup? || (s.pc.Done? && s.pc.outcome.Failed?)) && s.victim.Some? && !s.linkedBack
  }

  /** The call could not put it back, or could not remove it. */
  ghost predicate LeavesVictim(task: Task, s: State, a: Action) {
    a.Call?
    && var occupied := task.target in s.dir;
       || (s.pc.LinkTemp? && occupied)
       || (s.pc.RestoreLink? && (occupied || a.choice.fails || (s.victim.Some? && s.victim.value.kind.Directory?)))
       || (s.pc.UnlinkMatched? && a.choice.fails)
  }

  lemma VictimLeftStep(task: Task, s: State, a: Action, s': State)
    requires Invariant(task, s) && Next(task, s, a, s') && !task.job.RemoveDirectory?
    ensures VictimLeft(s') <==> VictimLeft(s) || LeavesVictim(task, s, a)
  {
  }

  lemma {:induction false} LeftWhen(task: Task, run: Run, n: nat)
    requires IsRun(task, run) && n < |run.states| && !task.job.RemoveDirectory?
    ensures VictimLeft(run.states[n]) <==>
            exists i :: 0 <= i < n && LeavesVictim(task, run.states[i], run.actions[i])
  {
    hide Next, Invariant, VictimLeft, LeavesVictim;
    if n > 0 {
      LeftWhen(task, run, n - 1);
      RunInvariant(task, run, n - 1);
      assert Next(task, run.states[n - 1], run.actions[n - 1], run.states[n]);
      VictimLeftStep(task, run.states[n - 1], run.actions[n - 1], run.states[n]);
    } else {
      NothingLeftAtStart(task, run.states[0].dir);
    }
  }

  /** In every interleaving, a file task that fails after displacing a file has put it back,
      unless the target was taken, the file could not be linked, or removing it failed; then
      the file is under its quarantine name. */
  lemma NotPutBackExactlyWhen(task: Task, run: Run)
    requires IsRun(task, run) && Last(run).pc.Done? && Last(run).pc.outcome.Failed? && !task.job.RemoveDirectory?
    requires Last(run).victim.Some?
    ensures !Last(run).linkedBack <==>
            exists i :: 0 <= i < |run.actions| && LeavesVictim(task, run.states[i], run.actions[i])
    ensures Last(run).linkedBack || VictimHeld(Last(run))
  {
    hide Next, LeavesVictim;
    RunInvariant(task, run, |run.states| - 1);
    LeftWhen(task, run, |run.states| - 1);
  }

  // ----- which error is reported

  /** The error the task will report unless a later call replaces it. */
  function PendingError(s: State): Option<Error> {
    match s.pc
    case RestoreLink(Failed(error)) => Some(error)
    case RestoreUnlink(Failed(error)) => Some(error)
    case Cleanup(error) => Some(error)
    case Done(Failed(error)) => Some(error)
    case _ => None
  }

  /** The call runs into this error. */
  ghost predicate Raises(task: Task, s: State, a: Action, error: Error) {
    a.Call?
    && var c, occupied := a.choice, task.target in s.dir;
       match error
       case ReadError => s.pc.Inspect? && c.fails
       case PersistError =>
         || (s.pc.LinkTemp? && !occupied && c.fails)
         || (s.pc.Publish? && c.fails)
         || (s.pc.Publish? && occupied && (!Unconditional(task) || s.dir[task.target].kind.Directory?))
       case ConcurrentModification =>
         || ((s.pc.LinkTemp? || s.pc.RestoreLink?) && occupied)
         || (s.pc.Inspect? && !c.fails && Swaps(task) && s.victim.Some? && !Expected(task, s.victim.value))
         || (s.pc.Quarantining? && s.pc.attempts > 0 && Swaps(task) && !occupied)
       case WriteError =>
         || ((s.pc.CreateTemp? || s.pc.Commit? || s.pc.UnlinkMatched? || s.pc.RestoreUnlink?) && c.fails)
         || ((s.pc.CreateTemp? || s.pc.Quarantining?) && s.pc.attempts == 0)
         || (s.pc.Quarantining? && occupied && c.fails)
         || (s.pc.RestoreLink? && !occupied && (c.fails || (s.victim.Some? && s.victim.value.kind.Directory?)))
         || (s.pc.UnlinkDirectory? && !c.notEmpty && c.fails)
         || (s.pc.RestoreRename? && !occupied && c.fails)
  }

  ghost predicate RaisesAny(task: Task, s: State, a: Action) {
    exists error :: Raises(task, s, a, error)
  }

  lemma ErrorStep(task: Task, s: State, a: Action, s': State, error: Error)
    requires Invariant(task, s) && Next(task, s, a, s')
    ensures PendingError(s') == Some(error) <==>
            Raises(task, s, a, error) || (PendingError(s) == Some(error) && !RaisesAny(task, s, a))
  {
    if a.Call? && RaisesAny(task, s, a) {
      var raised :| Raises(task, s, a, raised);
      RaisedIsPending(task, s, a.choice, raised);
    } else if a.Call? {
      NoneRaised(task, s, a.choice);
    }
  }

  lemma RaisedIsPending(task: Task, s: State, c: Choice, error: Error)
    requires Invariant(task, s) && c.name != task.target && Raises(task, s, Call(c), error)
    ensures PendingError(Step(task, s, c)) == Some(error)
  {
  }

  lemma NoneRaised(task: Task, s: State, c: Choice)
    requires Invariant(task, s) && c.name != task.target
    requires forall error :: !Raises(task, s, Call(c), error)
    ensures PendingError(Step(task, s, c)) == PendingError(s)
  {
    assert !Raises(task, s, Call(c), ReadError) && !Raises(task, s, Call(c), PersistError);
    assert !Raises(task, s, Call(c), ConcurrentModification) && !Raises(task, s, Call(c), WriteError);
  }

  /** The call at `i` was the last to run into an error before state `n`. */
  ghost predicate LastRaised(task: Task, run: Run, i: nat, n: nat, error: Error) {
    i < n <= |run.actions| && |run.actions| < |run.states| && Raises(task, run.states[i], run.actions[i], error)
    && forall j :: i < j < n ==> !RaisesAny(task, run.states[j], run.actions[j])
  }

  lemma {:induction false} PendingIsLastRaised(task: Task, run: Run, n: nat, error: Error)
    requires IsRun(task, run) && n < |run.states|
    ensures PendingError(run.states[n]) == Some(error) <==> exists i :: LastRaised(task, run, i, n, error)
  {
    hide Next, Invariant, Raises, PendingError;
    if n == 0 {
      NothingFailedAtStart(task, run.states[0].dir);
    } else {
      var m := n - 1;
      var s, a := run.states[m], run.actions[m];
      PendingIsLastRaised(task, run, m, error);
      RunInvariant(task, run, n - 1);
      assert Next(task, s, a, run.states[n]);
      ErrorStep(task, s, a, run.states[n], error);
      if Raises(task, s, a, error) {
        assert LastRaised(task, run, n - 1, n, error);
      }
      if i: nat :| LastRaised(task, run, i, m, error) {
        assert !RaisesAny(task, s, a) ==> LastRaised(task, run, i, n, error);
      }
      if i: nat :| LastRaised(task, run, i, n, error) {
        assert i < m ==> LastRaised(task, run, i, m, error);
      }
    }
  }

  /** In every interleaving the reported error is that of the last call that ran into one. */
  lemma FailureExactlyWhen(task: Task, run: Run, error: Error)
    requires IsRun(task, run) && Last(run).pc.Done?
    ensures Last(run).pc.outcome == Failed(error) <==> exists i :: LastRaised(task, run, i, |run.actions|, error)
  {
    hide LastRaised;
    PendingIsLastRaised(task, run, |run.states| - 1, error);
  }

  // ----- a task alone in the directory

  /** No other writer acts, no call fails, every name chosen is free, and directories have
      entries or not throughout. */
  ghost predicate Alone(task: Task, run: Run, empty: bool) {
    IsRun(task, run)
    && forall i :: 0 <= i < |run.actions| ==>
         run.actions[i].Call? && !run.actions[i].choice.fails && run.actions[i].choice.notEmpty == !empty
         && (run.states[i].pc.CreateTemp? || run.states[i].pc.Quarantining? ==>
               run.actions[i].choice.name !in run.states[i].dir)
  }

  /** The directory with the temporary file. */
  function WithTemp(dir: Dir, temp: Option<(Name, Inode)>): Dir {
    if temp.Some? then dir[temp.value.0 := temp.value.1] else dir
  }

  function WithVictim(dir: Dir, s: State): Dir {
    if s.quarantine.Some? && s.victim.Some? then dir[s.quarantine.value := s.victim.value] else dir
  }

  /** The task's names are free in `dir`, and what it displaced was the target. */
  ghost predicate OwnNames(task: Task, dir: Dir, s: State) {
    && (s.temp.Some? ==> s.temp.value.0 !in dir && s.temp.value.0 != task.target)
    && (s.temp.Some? ==> s.temp.value.1 == Inode(s.temp.value.1.id, RegularFile, NewContents(task)))
    && (s.temp.Some? <==> task.job.StoreFile? && !s.pc.CreateTemp?)
    && (s.quarantine.Some? <==> s.victim.Some?)
    && (s.quarantine.Some? ==>
          s.quarantine.value !in dir && s.quarantine.value != task.target && task.target in dir
          && s.victim.value == dir[task.target] && (s.temp.Some? ==> s.quarantine.value != s.temp.value.0)
          && (task.job.StoreFile? ==> task.job.mode.CompareAndSwap?))
  }

  function NewContents(task: Task): seq<nat> {
    match task.job
    case StoreFile(contents, _) => contents
    case _ => []
  }

  /** The target is displaced and nothing else has changed. */
  ghost predicate Displacing(task: Task, dir: Dir, s: State) {
    s.quarantine.Some? && s.victim.Some? && s.dir == WithVictim(WithTemp(dir - {task.target}, s.temp), s)
  }

  ghost predicate MatchesTarget(task: Task, dir: Dir) {
    task.target in dir && Expected(task, dir[task.target])
  }

  ghost predicate Mismatches(task: Task, dir: Dir) {
    task.target in dir && !Expected(task, dir[task.target])
  }

  ghost predicate Swaps(task: Task) {
    task.job.StoreFile? && task.job.mode.CompareAndSwap?
  }

  /** What the task knows at each call, in terms of the directory it started in. */
  ghost predicate AloneAt(task: Task, dir: Dir, empty: bool, s: State) {
    OwnNames(task, dir, s)
    && var mismatch := if task.job.StoreFile? then Failed(ConcurrentModification) else Answer(false);
       match s.pc
       case CreateTemp(n) => s.dir == dir && n == ATTEMPTS && task.job.StoreFile? && s.quarantine.None?
       case Commit => s.dir == WithTemp(dir, s.temp) && s.quarantine.None? && task.job.StoreFile?
       case Publish => s.dir == WithTemp(dir, s.temp) && s.quarantine.None? && task.job.StoreFile? && !Swaps(task)
       case Quarantining(n) =>
         s.dir == WithTemp(dir, s.temp) && n == ATTEMPTS && s.quarantine.None? && (task.job.StoreFile? ==> Swaps(task))
       case Inspect => Displacing(task, dir, s) && !task.job.RemoveDirectory?
       case UnlinkMatched => Displacing(task, dir, s) && task.job.RemoveFile? && MatchesTarget(task, dir)
       case LinkTemp => Displacing(task, dir, s) && Swaps(task) && MatchesTarget(task, dir)
       case UnlinkTemp =>
         s.temp.Some? && s.dir == WithVictim(WithTemp(dir[task.target := s.temp.value.1], s.temp), s)
         && (if s.quarantine.Some? then Swaps(task) && MatchesTarget(task, dir)
             else task.job.StoreFile? && task.job.mode.NoClobber? && task.target !in dir)
       case UnlinkReplaced =>
         s.temp.Some? && s.quarantine.Some? && s.dir == WithVictim(dir[task.target := s.temp.value.1], s)
         && Swaps(task) && MatchesTarget(task, dir)
       case RestoreLink(restored) =>
         Displacing(task, dir, s) && !task.job.RemoveDirectory? && Mismatches(task, dir) && restored == mismatch
       case RestoreUnlink(restored) =>
         s.quarantine.Some? && s.dir == WithVictim(WithTemp(dir, s.temp), s) && !task.job.RemoveDirectory?
         && Mismatches(task, dir) && !dir[task.target].kind.Directory? && restored == mismatch
       case OpenDirectory => Displacing(task, dir, s) && task.job.RemoveDirectory?
       case LookForRacer => Displacing(task, dir, s) && task.job.RemoveDirectory? && MatchesTarget(task, dir)
       case UnlinkDirectory(racer) =>
         Displacing(task, dir, s) && task.job.RemoveDirectory? && MatchesTarget(task, dir) && !racer
       case RestoreRename =>
         Displacing(task, dir, s) && task.job.RemoveDirectory? && (Mismatches(task, dir) || !empty)
       case Cleanup(error) => CleansUp(task, dir, s, error)
       case Done(_) => AloneEnds(task, dir, empty, s)
  }

  /** A store on its way out, with the temporary file still there. */
  ghost predicate CleansUp(task: Task, dir: Dir, s: State, error: Error) {
    task.job.StoreFile? && s.temp.Some?
    && if Swaps(task) && Mismatches(task, dir) && dir[task.target].kind.Directory?
       then error == WriteError && Displacing(task, dir, s)
       else
         s.dir == WithTemp(dir, s.temp)
         && match task.job.mode
            case CompareAndSwap(_) => error == ConcurrentModification && !MatchesTarget(task, dir)
            case NoClobber => error == PersistError && task.target in dir
            case Replace => error == PersistError && task.target in dir && dir[task.target].kind.Directory?
  }

  /** How a task that was alone returns, and what it leaves of the directory. */
  ghost predicate AloneEnds(task: Task, dir: Dir, empty: bool, s: State) {
    s.pc.Done?
    && var found := task.target in dir;
       match task.job
       case RemoveFile(expected) =>
         if !found then s.pc.outcome == Answer(false) && s.dir == dir
         else if Holds(dir[task.target], expected) then s.pc.outcome == Answer(true) && s.dir == dir - {task.target}
         else if dir[task.target].kind.Directory? then StrandsTarget(task, dir, s)
         else s.pc.outcome == Answer(false) && s.dir == dir
       case StoreFile(contents, CompareAndSwap(expected)) =>
         if found && Holds(dir[task.target], expected) then Stores(task, dir, contents, s)
         else if found && dir[task.target].kind.Directory? then StrandsTarget(task, dir, s)
         else s.pc.outcome == Failed(ConcurrentModification) && s.dir == dir
       case StoreFile(contents, NoClobber) =>
         if found then s.pc.outcome == Failed(PersistError) && s.dir == dir else Stores(task, dir, contents, s)
       case StoreFile(contents, Replace) =>
         if found && dir[task.target].kind.Directory? then s.pc.outcome == Failed(PersistError) && s.dir == dir
         else Stores(task, dir, contents, s)
       case RemoveDirectory(identity) =>
         if found && dir[task.target].kind.Directory? && dir[task.target].id == identity && empty
         then s.pc.outcome == Answer(true) && s.dir == dir - {task.target}
         else s.pc.outcome == Answer(false) && s.dir == dir
  }

  /** A regular file of this identity with these contents. */
  predicate Holds(inode: Inode, expected: Snapshot) {
    inode == Inode(expected.id, RegularFile, expected.contents)
  }

  /** The new file is at the target and nothing else has changed. */
  ghost predicate Stores(task: Task, dir: Dir, contents: seq<nat>, s: State) {
    exists id :: s.pc == Done(Stored(id)) && s.dir == dir[task.target := Inode(id, RegularFile, contents)]
  }

  /** The target is under a name of the task, and nothing else has changed. */
  ghost predicate StrandsTarget(task: Task, dir: Dir, s: State) {
    s.pc == Done(Failed(WriteError)) && task.target in dir
    && exists name :: name !in dir && s.dir == (dir - {task.target})[name := dir[task.target]]
  }

  ghost predicate Undisturbed(task: Task, empty: bool, s: State, c: Choice) {
    c.name != task.target && !c.fails && c.notEmpty == !empty
    && (s.pc.CreateTemp? || s.pc.Quarantining? ==> c.name !in s.dir)
  }

  lemma StagesAlone(task: Task, dir: Dir, empty: bool, s: State, c: Choice)
    requires AloneAt(task, dir, empty, s) && Undisturbed(task, empty, s, c)
    requires s.pc.CreateTemp? || s.pc.Commit?
    ensures AloneAt(task, dir, empty, Step(task, s, c))
  {
  }

  lemma PublishesAlone(task: Task, dir: Dir, empty: bool, s: State, c: Choice)
    requires AloneAt(task, dir, empty, s) && Undisturbed(task, empty, s, c)
    requires s.pc.Publish?
    ensures AloneAt(task, dir, empty, Step(task, s, c))
  {
  }

  lemma DisplacesTargetAlone(task: Task, dir: Dir, empty: bool, s: State, c: Choice)
    requires AloneAt(task, dir, empty, s) && Undisturbed(task, empty, s, c)
    requires s.pc.Quarantining?
    ensures AloneAt(task, dir, empty, Step(task, s, c))
  {
  }

  lemma InspectsAlone(task: Task, dir: Dir, empty: bool, s: State, c: Choice)
    requires AloneAt(task, dir, empty, s) && Undisturbed(task, empty, s, c)
    requires s.pc.Inspect? || s.pc.UnlinkMatched?
    ensures AloneAt(task, dir, empty, Step(task, s, c))
  {
  }

  lemma SwapsAlone(task: Task, dir: Dir, empty: bool, s: State, c: Choice)
    requires AloneAt(task, dir, empty, s) && Undisturbed(task, empty, s, c)
    requires s.pc.LinkTemp? || s.pc.UnlinkTemp? || s.pc.UnlinkReplaced?
    ensures AloneAt(task, dir, empty, Step(task, s, c))
  {
  }

  lemma RestoresAlone(task: Task, dir: Dir, empty: bool, s: State, c: Choice)
    requires AloneAt(task, dir, empty, s) && Undisturbed(task, empty, s, c)
    requires s.pc.RestoreLink? || s.pc.RestoreUnlink?
    ensures AloneAt(task, dir, empty, Step(task, s, c))
  {
  }

  lemma ReturnsAlone(task: Task, dir: Dir, empty: bool, s: State, c: Choice)
    requires AloneAt(task, dir, empty, s) && Undisturbed(task, empty, s, c)
    requires s.pc.Cleanup? || s.pc.Done?
    ensures AloneAt(task, dir, empty, Step(task, s, c))
  {
  }

  lemma RemovesDirectoryAlone(task: Task, dir: Dir, empty: bool, s: State, c: Choice)
    requires AloneAt(task, dir, empty, s) && Undisturbed(task, empty, s, c)
    requires s.pc.OpenDirectory? || s.pc.LookForRacer? || s.pc.UnlinkDirectory? || s.pc.RestoreRename?
    ensures AloneAt(task, dir, empty, Step(task, s, c))
  {
  }

  lemma CallsAlone(task: Task, dir: Dir, empty: bool, s: State, c: Choice)
    requires AloneAt(task, dir, empty, s) && Undisturbed(task, empty, s, c)
    ensures AloneAt(task, dir, empty, Step(task, s, c))
  {
    hide Step, AloneAt, Undisturbed;
    if s.pc.CreateTemp? || s.pc.Commit? {
      StagesAlone(task, dir, empty, s, c);
    } else if s.pc.Publish? {
      PublishesAlone(task, dir, empty, s, c);
    } else if s.pc.Quarantining? {
      DisplacesTargetAlone(task, dir, empty, s, c);
    } else if s.pc.Inspect? || s.pc.UnlinkMatched? {
      InspectsAlone(task, dir, empty, s, c);
    } else if s.pc.LinkTemp? || s.pc.UnlinkTemp? || s.pc.UnlinkReplaced? {
      SwapsAlone(task, dir, empty, s, c);
    } else if s.pc.RestoreLink? || s.pc.RestoreUnlink? {
      RestoresAlone(task, dir, empty, s, c);
    } else if s.pc.Cleanup? || s.pc.Done? {
      ReturnsAlone(task, dir, empty, s, c);
    } else {
      RemovesDirectoryAlone(task, dir, empty, s, c);
    }
  }

  lemma StartsAlone(task: Task, dir: Dir, empty: bool)
    ensures AloneAt(task, dir, empty, Start(task, dir))
  {
  }

  lemma {:induction false} RunsAlone(task: Task, run: Run, empty: bool, n: nat)
    requires Alone(task, run, empty) && n < |run.states|
    ensures AloneAt(task, run.states[0].dir, empty, run.states[n])
  {
    hide AloneAt, Step;
    if n == 0 {
      StartsAlone(task, run.states[0].dir, empty);
    } else {
      RunsAlone(task, run, empty, n - 1);
      assert Next(task, run.states[n - 1], run.actions[n - 1], run.states[n]);
      CallsAlone(task, run.states[0].dir, empty, run.states[n - 1], run.actions[n - 1].choice);
    }
  }

  /** A task that is alone in the directory returns the answer the caller is promised, and
      has changed exactly what that says: a matching file or an empty expected directory is
      gone, a store has put its file at the target and nothing else, and every other
      return leaves the directory as it was, but for a directory in the way of a file
      task, which is stranded. */
  lemma AloneOutcome(task: Task, run: Run, empty: bool)
    requires Alone(task, run, empty) && Last(run).pc.Done?
    ensures AloneEnds(task, run.states[0].dir, empty, Last(run))
  {
    hide AloneEnds;
    RunsAlone(task, run, empty, |run.states| - 1);
  }

  // ----- such a run exists

  lemma {:induction false} AloneFinishes(task: Task, run: Run, empty: bool, temp: Name, quarantine: Name)
    returns (whole: Run)
    requires Alone(task, run, empty) && temp !in run.states[0].dir && quarantine !in run.states[0].dir
    requires temp != quarantine && task.target !in {temp, quarantine}
    requires Last(run).temp.Some? ==> Last(run).temp.value.0 == temp
    requires AloneAt(task, run.states[0].dir, empty, Last(run)) && Invariant(task, Last(run))
    ensures Alone(task, whole, empty) && whole.states[0] == run.states[0] && Last(whole).pc.Done?
    decreases Remaining(Last(run).pc)
  {
    hide AloneAt, Invariant, Step;
    var s, dir := Last(run), run.states[0].dir;
    if s.pc.Done? {
      whole := run;
    } else {
      var c := Choice(if s.pc.CreateTemp? then temp else quarantine, 0, false, !empty);
      NameIsFree(task, dir, empty, s, temp, quarantine);
      CallsAlone(task, dir, empty, s, c);
      CallKeepsInvariant(task, s, c);
      CallMakesProgress(task, s, c);
      KeepsTemp(task, s, c);
      var longer := Run(run.states + [Step(task, s, c)], run.actions + [Call(c)]);
      assert forall i :: 0 <= i < |run.actions| ==> longer.actions[i] == run.actions[i];
      assert forall i :: 0 <= i < |run.states| ==> longer.states[i] == run.states[i];
      assert forall i :: 0 <= i < |run.actions| ==> Next(task, run.states[i], run.actions[i], run.states[i + 1]);
      assert Next(task, s, Call(c), Step(task, s, c));
      whole := AloneFinishes(task, longer, empty, temp, quarantine);
    }
  }

  lemma NameIsFree(task: Task, dir: Dir, empty: bool, s: State, temp: Name, quarantine: Name)
    requires AloneAt(task, dir, empty, s) && temp !in dir && quarantine !in dir && temp != quarantine
    requires s.temp.Some? ==> s.temp.value.0 == temp
    ensures s.pc.CreateTemp? ==> temp !in s.dir
    ensures s.pc.Quarantining? ==> quarantine !in s.dir
  {
  }

  lemma KeepsTemp(task: Task, s: State, c: Choice)
    ensures Step(task, s, c).temp == s.temp
            || (s.pc.CreateTemp? && Step(task, s, c).temp.Some? && Step(task, s, c).temp.value.0 == c.name)
  {
  }

  /** Given two free names, every task has a run on which it is alone and returns. */
  lemma AloneReturns(task: Task, dir: Dir, empty: bool, temp: Name, quarantine: Name) returns (run: Run)
    requires temp !in dir && quarantine !in dir && temp != quarantine && task.target !in {temp, quarantine}
    ensures Alone(task, run, empty) && run.states[0].dir == dir && Last(run).pc.Done?
    ensures AloneEnds(task, dir, empty, Last(run))
  {
    hide AloneAt, AloneEnds, Invariant;
    var start := Run([Start(task, dir)], []);
    StartsAlone(task, dir, empty);
    StartInvariant(task, dir);
    run := AloneFinishes(task, start, empty, temp, quarantine);
    AloneOutcome(task, run, empty);
  }
}
