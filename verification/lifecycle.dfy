/**
 * The lifecycle across commands: an object tossed from the working
 * directory and then restored there is back where it was, and the bin is as
 * it was before the toss.
 */
module Lifecycle {
  import opened Results
  import opened Strings
  import opened Paths
  import opened FileSystem
  import opened Metadata
  import Journal
  import opened Config
  import opened State
  import Tosser
  import Restorer

  /** The toss destination is the container path the restore reads from. */
  lemma DestinationIsRubbishPath(cfg: Config, file: string, suffix: string)
    requires IsName(file) && IsName(suffix)
    ensures Tosser.TossDestination(cfg, file, suffix) == RubbishPath(cfg, Tosser.TossKey(cfg, file, suffix))
  {
    Tosser.TossKeyShape(cfg, file, suffix);
  }

  /** A directory tossed with a trailing separator ("dir/") is recorded
      with origin `cwd/dir`, so it is restored under its own name. */
  lemma SlashedNameRestoresUnderName(cwd: string, file: string)
    requires IsAbs(cwd) && cwd[|cwd| - 1] != '/' && IsName(file) && file != "."
    ensures Resolve(cwd, file + "/") == cwd + "/" + file
    ensures Base(Resolve(cwd, file + "/")) == file
    ensures Resolve(cwd, Base(Resolve(cwd, file + "/"))) == Resolve(cwd, file)
  {
    var f := file + "/";
    assert f[..|f| - 1] == file;
    assert TrimTrailingSlashes(f) == file;
    JoinUnderDir(cwd, f);
    ResolveName(cwd, file);
  }

  /** The record a well-keyed local listing holds for a key is the stored one. */
  lemma LocalRecordIsStored(j: Journal.Journal, dir: string, key: string)
    requires j.db.Some? && Journal.Valid(j)
    requires key in j.db.value && HasPrefix(j.db.value[key].origin, dir)
    ensures
      var local := Journal.FilterPath(j, dir).value;
      Restorer.LocalRecord(local, key) == Some(j.db.value[key])
  {
    var local := Journal.FilterPath(j, dir).value;
    assert j.db.value[key] in local;
    var m := Restorer.LocalRecord(local, key).value;
    var x :| x in j.db.value && j.db.value[x] == m;
  }

  /** Moving an object away and back, with the destination free before,
      gives back the same filesystem. */
  lemma FsRoundTrip(fs0: Fs, fs1: Fs, fs2: Fs, src: string, dst: string)
    requires src != dst && dst !in fs0 && src in fs0
    requires SameOutside(fs0, fs1, {src, dst}) && src !in fs1 && dst in fs1 && fs1[dst] == fs0[src]
    requires SameOutside(fs1, fs2, {dst, src}) && dst !in fs2 && src in fs2 && fs2[src] == fs1[dst]
    ensures fs2 == fs0
  {
    assert fs2.Keys == fs0.Keys;
  }

  /** Storing a record under an unused key and deleting it again gives back
      the same journal. */
  lemma DbRoundTrip(db0: Journal.Db, db1: Journal.Db, db2: Journal.Db, key: string, m: MetaData)
    requires key !in db0 && Journal.StoredAt(db0, db1, key, m) && Journal.RemovedAt(db1, db2, key)
    ensures db2 == db0
  {
    assert db2.Keys == db0.Keys;
  }

  /** What a successful toss of a plain name from the working directory
      leaves behind. */
  lemma TossOfName(cfg: Config, sys: System, p: Tosser.Principal, file: string, fx: Tosser.TossEffects)
    requires State.Valid(sys)
    requires IsAbs(cfg.workingDir) && cfg.workingDir[|cfg.workingDir| - 1] != '/'
    requires IsName(file) && file != "." && IsName(fx.suffix)
    requires Tosser.Toss(cfg, sys, p, file, fx).outcome.Pass?
    ensures
      var s1 := Tosser.Toss(cfg, sys, p, file, fx).sys;
      var key := Tosser.TossKey(cfg, file, fx.suffix);
      var src := Resolve(cfg.workingDir, file);
      var dst := RubbishPath(cfg, key);
      && src != dst && src in sys.fs && src !in s1.fs && dst in s1.fs && s1.fs[dst] == sys.fs[src]
      && SameOutside(sys.fs, s1.fs, {src, dst})
      && s1.journal.db.Some? && State.Valid(s1)
      && key in s1.journal.db.value && s1.journal.db.value[key].origin == src
      && HasPrefix(src, cfg.workingDir) && Base(src) == file
      && Journal.StoredAt(sys.journal.db.value, s1.journal.db.value, key, s1.journal.db.value[key])
      && Tosser.TossDestination(cfg, file, fx.suffix) == dst
      && Resolve(cfg.workingDir, Base(src)) == src
      && s1.journal.path == sys.journal.path
  {
    TossPathsOfName(cfg, file, fx.suffix);
  }

  /** The source and destination paths of a toss of a plain name from the
      working directory. */
  lemma TossPathsOfName(cfg: Config, file: string, suffix: string)
    requires IsAbs(cfg.workingDir) && cfg.workingDir[|cfg.workingDir| - 1] != '/'
    requires IsName(file) && file != "." && IsName(suffix)
    ensures
      var key := Tosser.TossKey(cfg, file, suffix);
      var src := Resolve(cfg.workingDir, file);
      var dst := RubbishPath(cfg, key);
      && src != dst && HasPrefix(src, cfg.workingDir) && Base(src) == file
      && Tosser.TossDestination(cfg, file, suffix) == dst
      && Resolve(cfg.workingDir, Base(src)) == src
  {
    var key := Tosser.TossKey(cfg, file, suffix);
    ResolveName(cfg.workingDir, file);
    DestinationIsRubbishPath(cfg, file, suffix);
    Tosser.TossDestinationName(cfg, file, suffix);
    Tosser.TossKeyShape(cfg, file, suffix);
    assert key == file + "_" + suffix;
    assert |key| > |file|;
  }

  /** Toss a file from the working directory, then restore it by its key:
      the filesystem and the journal are exactly as before the toss. */
  lemma TossThenRestore(cfg: Config, sys: System, p: Tosser.Principal, file: string,
                        fx: Tosser.TossEffects, override: bool, rfx: Restorer.RestoreEffects)
    requires State.Valid(sys) && sys.journal.db.Some?
    requires IsAbs(cfg.workingDir) && cfg.workingDir[|cfg.workingDir| - 1] != '/'
    requires IsName(file) && file != "." && IsName(fx.suffix)
    requires Tosser.TossKey(cfg, file, fx.suffix) !in sys.journal.db.value
    requires Tosser.TossDestination(cfg, file, fx.suffix) !in sys.fs
    requires Tosser.Toss(cfg, sys, p, file, fx).outcome.Pass?
    requires rfx.renameOk && rfx.deleteCommit
    ensures
      var s1 := Tosser.Toss(cfg, sys, p, file, fx).sys;
      var key := Tosser.TossKey(cfg, file, fx.suffix);
      var local := Journal.FilterPath(s1.journal, cfg.workingDir).value;
      Restorer.RestoreOne(cfg, s1, local, key, override, rfx) == Restorer.Restored(sys)
  {
    var s1 := Tosser.Toss(cfg, sys, p, file, fx).sys;
    var key := Tosser.TossKey(cfg, file, fx.suffix);
    TossOfName(cfg, sys, p, file, fx);
    RestoreUndoesMove(cfg, sys, s1, key, Resolve(cfg.workingDir, file), override, rfx);
  }

  /** Restoring a key whose record and object the last step put in place,
      from a state `sys` in which neither existed, gives back `sys`. */
  lemma RestoreUndoesMove(cfg: Config, sys: System, s1: System, key: string, src: string, override: bool,
                          rfx: Restorer.RestoreEffects)
    requires sys.journal.db.Some? && s1.journal.db.Some? && State.Valid(s1)
    requires key !in sys.journal.db.value && RubbishPath(cfg, key) !in sys.fs
    requires src != RubbishPath(cfg, key) && src in sys.fs
    requires src !in s1.fs && RubbishPath(cfg, key) in s1.fs && s1.fs[RubbishPath(cfg, key)] == sys.fs[src]
    requires SameOutside(sys.fs, s1.fs, {src, RubbishPath(cfg, key)})
    requires key in s1.journal.db.value && s1.journal.db.value[key].origin == src
    requires HasPrefix(src, cfg.workingDir) && Resolve(cfg.workingDir, Base(src)) == src
    requires Journal.StoredAt(sys.journal.db.value, s1.journal.db.value, key, s1.journal.db.value[key])
    requires s1.journal.path == sys.journal.path
    requires rfx.renameOk && rfx.deleteCommit
    ensures
      var local := Journal.FilterPath(s1.journal, cfg.workingDir).value;
      Restorer.RestoreOne(cfg, s1, local, key, override, rfx) == Restorer.Restored(sys)
  {
    var dst := RubbishPath(cfg, key);
    var m := s1.journal.db.value[key];
    LocalRecordIsStored(s1.journal, cfg.workingDir, key);
    var local := Journal.FilterPath(s1.journal, cfg.workingDir).value;
    var r := Restorer.RestoreOne(cfg, s1, local, key, override, rfx);
    assert r.Restored?;
    FsRoundTrip(sys.fs, s1.fs, r.sys.fs, src, dst);
    DbRoundTrip(sys.journal.db.value, s1.journal.db.value, r.sys.journal.db.value, key, m);
    assert r.sys.journal == sys.journal;
  }
}
