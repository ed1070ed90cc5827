/**
 * Restoring: an item of the local rubbish is moved back, under the base
 * name of its origin, into the working directory, and its record deleted.
 */
module Restorer {
  import opened Results
  import opened Strings
  import opened Paths
  import opened FileSystem
  import opened Metadata
  import Journal
  import opened Config
  import opened State

  /** What the outside world decides for one restore: whether the rename
      is granted and whether the record delete commits. */
  datatype RestoreEffects = RestoreEffects(renameOk: bool, deleteCommit: bool)

  /** The result of one argument: skipped with nothing changed, restored,
      or the command stops. */
  datatype Step = Skipped | Restored(sys: System) | Abort(sys: System, error: Error)

  /** Where a record is restored to: its origin's base name in the working
      directory. */
  function RestoreTarget(cfg: Config, m: MetaData): string {
    Resolve(cfg.workingDir, Base(m.origin))
  }

  /** An object whose origin ends in a plain name is restored under that
      name directly inside the working directory, whatever directory it was
      tossed from. */
  lemma RestoreTargetInWorkingDir(cfg: Config, m: MetaData)
    requires IsAbs(cfg.workingDir) && PlainDir(cfg.workingDir)
    requires IsName(Base(m.origin)) && Base(m.origin) != "."
    ensures RestoreTarget(cfg, m) == cfg.workingDir + "/" + Base(m.origin)
    ensures Dir(RestoreTarget(cfg, m)) == cfg.workingDir
    ensures Base(RestoreTarget(cfg, m)) == Base(m.origin)
  {
    ResolveName(cfg.workingDir, Base(m.origin));
    DirOfSlashed(cfg.workingDir, Base(m.origin));
  }

  /** The record the local rubbish holds for `file`, if any. */
  function LocalRecord(local: seq<MetaData>, file: string): (r: Option<MetaData>)
    ensures r.Some? <==> Named(local, file)
    ensures r.Some? ==> r.value.item == file && r.value in local
  {
    match IndexOfItem(local, file)
    case None => None
    case Some(k) => Some(local[k])
  }

  /** The body of the restore loop for one non-empty argument. */
  function RestoreOne(cfg: Config, sys: System, local: seq<MetaData>, file: string, override: bool,
                      fx: RestoreEffects): (r: Step)
    // not in the local rubbish, or the target exists and no override: skipped
    ensures r.Skipped? <==>
      !Named(local, file) || (RestoreTarget(cfg, LocalRecord(local, file).value) in sys.fs && !override)
    // a refused rename stops the command and keeps the record
    ensures r.Abort? && r.error.RestoreRenameFailed? ==> r.sys == sys
    ensures r.Abort? ==> r.error == RestoreRenameFailed(file) || r.error.DeleteJournalFailed?
    ensures r.Abort? <==> !r.Skipped? && !(fx.renameOk && RubbishPath(cfg, file) in sys.fs
                                            && sys.journal.db.Some? && fx.deleteCommit)
    // the restore proper: the object is back and its record is gone
    ensures r.Restored? ==>
      var m := LocalRecord(local, file).value;
      var src := RubbishPath(cfg, file);
      var dst := RestoreTarget(cfg, m);
      && src in sys.fs && dst in r.sys.fs && r.sys.fs[dst] == sys.fs[src]
      && (src != dst ==> src !in r.sys.fs)
      && sys.journal.db.Some? && r.sys.journal.db.Some?
      && Journal.RemovedAt(sys.journal.db.value, r.sys.journal.db.value, file)
    ensures !r.Skipped? ==>
      var m := LocalRecord(local, file).value;
      SameOutside(sys.fs, r.sys.fs, {RubbishPath(cfg, file), RestoreTarget(cfg, m)})
    ensures !r.Skipped? ==> Journal.KeptOutside(sys.journal.db, r.sys.journal.db, {file})
    ensures !r.Skipped? && State.Valid(sys) ==> State.Valid(r.sys)
  {
    match LocalRecord(local, file)
    case None => Skipped
    case Some(m) =>
      var target := RestoreTarget(cfg, m);
      if target in sys.fs && !override then Skipped
      else match Rename(sys.fs, RubbishPath(cfg, m.item), target, fx.renameOk)
        case None => Abort(sys, RestoreRenameFailed(file))
        case Some(fs1) =>
          match Journal.Delete(sys.journal, m.item, fx.deleteCommit)
          case Err(e) => Abort(System(fs1, sys.journal), DeleteJournalFailed(file, e))
          case Ok(j1) => Restored(System(fs1, j1))
  }

  /** The container paths and targets of the local rubbish. */
  ghost function RestorePaths(cfg: Config, local: seq<MetaData>): set<string> {
    (set i | 0 <= i < |local| :: RubbishPath(cfg, local[i].item))
    + (set i | 0 <= i < |local| :: RestoreTarget(cfg, local[i]))
  }

  /** The loop over the arguments from index `from` on: an empty argument
      stops it, and so does a refused rename or record delete. */
  function RestoreEach(cfg: Config, sys: System, local: seq<MetaData>, files: seq<string>, from: nat,
                       override: bool, fx: nat -> RestoreEffects): (r: Transition)
    requires from <= |files|
    ensures r.outcome.Pass? ==> forall i :: from <= i < |files| ==> files[i] != ""
    ensures r.outcome.Fail? ==>
      r.outcome.error == NoFilesToRestore || r.outcome.error.RestoreRenameFailed?
      || r.outcome.error.DeleteJournalFailed?
    ensures State.Valid(sys) ==> State.Valid(r.sys)
    decreases |files| - from
  {
    if from == |files| then Transition(sys, Pass)
    else if files[from] == "" then Transition(sys, Fail(NoFilesToRestore))
    else
      match RestoreOne(cfg, sys, local, files[from], override, fx(from))
      case Abort(s, e) => Transition(s, Fail(e))
      case Skipped => RestoreEach(cfg, sys, local, files, from + 1, override, fx)
      case Restored(s) => RestoreEach(cfg, s, local, files, from + 1, override, fx)
  }

  /** One step of `RestoreEach`: an empty argument is an error, and any
      other is restored, skipped or aborts the loop. */
  function RestoreStep(cfg: Config, sys: System, local: seq<MetaData>, file: string, override: bool,
                       fx: RestoreEffects): (r: Transition)
    ensures file == "" ==> r == Transition(sys, Fail(NoFilesToRestore))
    ensures r.outcome.Pass? ==> file != ""
  {
    if file == "" then Transition(sys, Fail(NoFilesToRestore))
    else match RestoreOne(cfg, sys, local, file, override, fx)
      case Abort(s, e) => Transition(s, Fail(e))
      case Skipped => Transition(sys, Pass)
      case Restored(s) => Transition(s, Pass)
  }

  /** The steps of `RestoreEach` as a loop body: step `i` restores
      `files[i]` meeting the `i`-th effects. */
  function RestoreSteps(cfg: Config, local: seq<MetaData>, files: seq<string>, override: bool,
                        fx: nat -> RestoreEffects): (System, nat) -> Transition {
    (s: System, i: nat) =>
      if i < |files| then RestoreStep(cfg, s, local, files[i], override, fx(i)) else Transition(s, Pass)
  }

  /** `RestoreEach` is the loop of its steps. */
  lemma {:induction false} RestoreEachIsRun(cfg: Config, sys: System, local: seq<MetaData>, files: seq<string>,
                                            from: nat, override: bool, fx: nat -> RestoreEffects)
    requires from <= |files|
    ensures RestoreEach(cfg, sys, local, files, from, override, fx)
         == Run(RestoreSteps(cfg, local, files, override, fx), sys, from, |files|)
    decreases |files| - from
  {
    if from < |files| {
      var t := RestoreStep(cfg, sys, local, files[from], override, fx(from));
      assert RestoreSteps(cfg, local, files, override, fx)(sys, from) == t;
      assert RestoreEach(cfg, sys, local, files, from, override, fx)
          == if t.outcome.Fail? then t else RestoreEach(cfg, t.sys, local, files, from + 1, override, fx);
      if t.outcome.Pass? {
        RestoreEachIsRun(cfg, t.sys, local, files, from + 1, override, fx);
      }
    }
  }

  /** The arguments are worked through in order and the first empty one,
      refused rename or failed record delete stops the loop: the arguments
      from `from` on are those before `k`, and then those from `k` only when
      the first part passed. */
  lemma RestoreEachSplit(cfg: Config, sys: System, local: seq<MetaData>, files: seq<string>,
                         from: nat, k: nat, override: bool, fx: nat -> RestoreEffects)
    requires from <= k <= |files|
    ensures RestoreEach(cfg, sys, local, files, from, override, fx) ==
      var t := RestoreEach(cfg, sys, local, files[..k], from, override, fx);
      if t.outcome.Fail? then t else RestoreEach(cfg, t.sys, local, files, k, override, fx)
  {
    var steps := RestoreSteps(cfg, local, files, override, fx);
    var stepsK := RestoreSteps(cfg, local, files[..k], override, fx);
    RestoreEachIsRun(cfg, sys, local, files, from, override, fx);
    RestoreEachIsRun(cfg, sys, local, files[..k], from, override, fx);
    RunSplit(steps, sys, from, k, |files|);
    forall s, i | from <= i < k ensures stepsK(s, i) == steps(s, i) {
      assert files[..k][i] == files[i];
    }
    RunAgrees(stepsK, steps, sys, from, k);
    var t := Run(steps, sys, from, k);
    if t.outcome.Pass? {
      RestoreEachIsRun(cfg, t.sys, local, files, k, override, fx);
    }
  }

  /** The loop meets the effects of its own steps only. */
  lemma RestoreEachReadsOwnSteps(cfg: Config, sys: System, local: seq<MetaData>, files: seq<string>,
                                 from: nat, override: bool, fx: nat -> RestoreEffects, fx': nat -> RestoreEffects)
    requires from <= |files|
    requires forall i :: from <= i < |files| ==> fx(i) == fx'(i)
    ensures RestoreEach(cfg, sys, local, files, from, override, fx)
         == RestoreEach(cfg, sys, local, files, from, override, fx')
  {
    var steps := RestoreSteps(cfg, local, files, override, fx);
    var steps' := RestoreSteps(cfg, local, files, override, fx');
    RestoreEachIsRun(cfg, sys, local, files, from, override, fx);
    RestoreEachIsRun(cfg, sys, local, files, from, override, fx');
    forall s, i | from <= i < |files| ensures steps(s, i) == steps'(s, i) {
      assert fx(i) == fx'(i);
    }
    RunAgrees(steps, steps', sys, from, |files|);
  }

  /** Restoring touches only the local rubbish: the container paths and
      targets of its records, and its records' keys. */
  lemma {:induction false} RestoreEachStaysLocal(cfg: Config, sys: System, local: seq<MetaData>,
                                                 files: seq<string>, from: nat, override: bool,
                                                 fx: nat -> RestoreEffects)
    requires from <= |files|
    ensures
      var r := RestoreEach(cfg, sys, local, files, from, override, fx);
      && SameOutside(sys.fs, r.sys.fs, RestorePaths(cfg, local))
      && Journal.KeptOutside(sys.journal.db, r.sys.journal.db, ItemSet(local))
    decreases |files| - from
  {
    if from < |files| && files[from] != "" {
      var step := RestoreOne(cfg, sys, local, files[from], override, fx(from));
      LocalPathsWithin(cfg, local, files[from]);
      if !step.Skipped? {
        var m := LocalRecord(local, files[from]).value;
        var touched := {RubbishPath(cfg, files[from]), RestoreTarget(cfg, m)};
        assert touched <= RestorePaths(cfg, local);
        assert {files[from]} <= ItemSet(local);
        if step.Restored? {
          RestoreEachStaysLocal(cfg, step.sys, local, files, from + 1, override, fx);
          var r := RestoreEach(cfg, step.sys, local, files, from + 1, override, fx);
          SameOutsideStep(sys.fs, step.sys.fs, r.sys.fs, touched, RestorePaths(cfg, local));
          Journal.KeptOutsideStep(sys.journal.db, step.sys.journal.db, r.sys.journal.db,
                                  {files[from]}, ItemSet(local));
        } else {
          assert SameOutside(sys.fs, step.sys.fs, RestorePaths(cfg, local));
        }
      } else {
        RestoreEachStaysLocal(cfg, sys, local, files, from + 1, override, fx);
      }
    }
  }

  lemma LocalPathsWithin(cfg: Config, local: seq<MetaData>, file: string)
    ensures Named(local, file) ==>
      var m := LocalRecord(local, file).value;
      && RubbishPath(cfg, file) in RestorePaths(cfg, local)
      && RestoreTarget(cfg, m) in RestorePaths(cfg, local)
      && file in ItemSet(local)
  {
    if Named(local, file) {
      var k := IndexOfItem(local, file).value;
      assert local[k] == LocalRecord(local, file).value;
    }
  }

  /** `Command`: the flags must have been parsed and at least one file named;
      the local rubbish is read once, before any file is restored. */
  function Command(cfg: Config, sys: System, parsed: bool, args: seq<string>, override: bool,
                   fx: nat -> RestoreEffects): (r: Transition)
    ensures !parsed ==> r == Transition(sys, Fail(FlagsNotParsed))
    ensures parsed && args == [] ==> r == Transition(sys, Fail(NoFilesToRestore))
    ensures parsed && args != [] && sys.journal.db.None? ==>
      r == Transition(sys, Fail(LocalRetrieveFailed(NotInitialized)))
    ensures parsed && args != [] && sys.journal.db.Some? && args[0] == "" ==> r == Transition(sys, Fail(NoFilesToRestore))
    // records whose origin does not start with the working directory's path are never restored
    ensures State.Valid(sys) && sys.journal.db.Some? ==>
      forall k :: k in sys.journal.db.value && !HasPrefix(sys.journal.db.value[k].origin, cfg.workingDir) ==>
        r.sys.journal.db.Some? && k in r.sys.journal.db.value && r.sys.journal.db.value[k] == sys.journal.db.value[k]
    ensures State.Valid(sys) ==> State.Valid(r.sys)
  {
    if !parsed then Transition(sys, Fail(FlagsNotParsed))
    else if |args| == 0 then Transition(sys, Fail(NoFilesToRestore))
    else match Journal.FilterPath(sys.journal, cfg.workingDir)
      case Err(e) => Transition(sys, Fail(LocalRetrieveFailed(e)))
      case Ok(local) =>
        LocalItemsAreLocalKeys(sys.journal, cfg.workingDir, local);
        RestoreEachStaysLocal(cfg, sys, local, args, 0, override, fx);
        RestoreEach(cfg, sys, local, args, 0, override, fx)
  }

  /** In a well-keyed journal the items of the local rubbish are the keys of
      records whose origin starts with the directory's path. */
  lemma LocalItemsAreLocalKeys(j: Journal.Journal, dir: string, local: seq<MetaData>)
    requires j.db.Some? && Journal.FilterPath(j, dir) == Ok(local)
    ensures Journal.Valid(j) ==>
      forall k :: k in ItemSet(local) ==> k in j.db.value && HasPrefix(j.db.value[k].origin, dir)
  {
    if Journal.Valid(j) {
      forall k | k in ItemSet(local)
        ensures k in j.db.value && HasPrefix(j.db.value[k].origin, dir)
      {
        var i :| 0 <= i < |local| && local[i].item == k;
        assert local[i] in j.db.value.Values && HasPrefix(local[i].origin, dir);
        var x :| x in j.db.value && j.db.value[x] == local[i];
        assert x == k;
      }
    }
  }
}
