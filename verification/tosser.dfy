/**
 * Tossing: the write-permission gate, the random container name, and the
 * record-then-move protocol with its compensating delete.
 */
module Tosser {
  import opened Results
  import Strings
  import opened Paths
  import opened FileSystem
  import opened Metadata
  import Journal
  import opened Config
  import opened State

  // ---------------------------------------------------------------------
  // Container names

  const Charset: string := "ABCDEFGHIJKLMNOPQRSTUVWXYZ0123456789"
  const SuffixLength: nat := 6

  predicate InCharset(c: char) {
    ('A' <= c <= 'Z') || ('0' <= c <= '9')
  }

  /** A suffix as `NameSufix` produces them: upper-case letters and digits. */
  predicate IsSuffix(s: string) {
    forall i :: 0 <= i < |s| ==> InCharset(s[i])
  }

  /** `NameSufix(size)`: `draws` are the values the random source returns
      for `Intn(36)`, one per character. */
  method NameSuffix(size: nat, draws: seq<int>) returns (s: string)
    requires |draws| == size
    requires forall i :: 0 <= i < size ==> 0 <= draws[i] < |Charset|
    ensures |s| == size && IsSuffix(s)
    ensures forall i :: 0 <= i < size ==> s[i] == Charset[draws[i]]
  {
    s := [];
    var i := 0;
    while i < size
      invariant 0 <= i <= size && |s| == i
      invariant forall k :: 0 <= k < i ==> s[k] == Charset[draws[k]] && InCharset(s[k])
    {
      s := s + [Charset[draws[i]]];
      i := i + 1;
    }
  }

  // ---------------------------------------------------------------------
  // Write permission

  const OwnerWrite: bv32 := 0x80   // 0200
  const GroupWrite: bv32 := 0x10   // 0020
  const OtherWrite: bv32 := 0x02   // 0002

  /** The invoking user: uid, primary gid, and what `os.Getgroups` returns
      (`None` when it fails). */
  datatype Principal = Principal(uid: int, gid: int, groups: Option<seq<int>>)

  predicate InGroup(p: Principal, fileGid: int) {
    p.gid == fileGid || (p.groups.Some? && fileGid in p.groups.value)
  }

  /** `checkWritePermission`: each class of the mode is tried in turn, and a
      class that does not apply or lacks its bit falls through to the next. */
  function CheckWritePermission(p: Principal, fileUid: int, fileGid: int, mode: bv32): (ok: bool)
    ensures ok <==>
      || (p.uid == fileUid && mode & OwnerWrite != 0)
      || (InGroup(p, fileGid) && mode & GroupWrite != 0)
      || mode & OtherWrite != 0
  {
    if p.uid == fileUid && mode & OwnerWrite != 0 then true
    else
      var inGroup := p.gid == fileGid;
      var inGroup := if !inGroup && p.groups.Some? && fileGid in p.groups.value then true else inGroup;
      if inGroup && mode & GroupWrite != 0 then true
      else mode & OtherWrite != 0
  }

  /** The POSIX rule: only the first class that applies to the user decides. */
  predicate PosixWriteAllowed(p: Principal, fileUid: int, fileGid: int, mode: bv32) {
    if p.uid == fileUid then mode & OwnerWrite != 0
    else if InGroup(p, fileGid) then mode & GroupWrite != 0
    else mode & OtherWrite != 0
  }

  /** The check never refuses what POSIX allows. */
  lemma PosixAllowedPassesCheck(p: Principal, fileUid: int, fileGid: int, mode: bv32)
    requires PosixWriteAllowed(p, fileUid, fileGid, mode)
    ensures CheckWritePermission(p, fileUid, fileGid, mode)
  {
  }

  /** ... but it admits more: an owner whose write bit is clear still passes
      through the group or other bit. */
  lemma OwnerWithoutWriteBitPasses(p: Principal, mode: bv32)
    requires mode & OwnerWrite == 0 && mode & OtherWrite != 0
    ensures CheckWritePermission(p, p.uid, p.gid, mode)
    ensures !PosixWriteAllowed(p, p.uid, p.gid, mode)
  {
  }

  /** Both the object and its parent directory exist and pass the check. */
  predicate ItemAndParentWritable(p: Principal, fs: Fs, cwd: string, item: string) {
    var obj := Resolve(cwd, item);
    var parent := Resolve(cwd, Dir(item));
    && obj in fs && CheckWritePermission(p, fs[obj].uid, fs[obj].gid, fs[obj].mode)
    && parent in fs && CheckWritePermission(p, fs[parent].uid, fs[parent].gid, fs[parent].mode)
  }

  /** `validateParentDirAccess`. */
  function ValidateParentDirAccess(p: Principal, fs: Fs, cwd: string, item: string): (r: Outcome)
    ensures r.Pass? <==>
      var parent := Resolve(cwd, Dir(item));
      parent in fs && CheckWritePermission(p, fs[parent].uid, fs[parent].gid, fs[parent].mode)
  {
    match Stat(fs, Resolve(cwd, Dir(item)))
    case None => Fail(CannotAccessParent(item))
    case Some(n) =>
      if !CheckWritePermission(p, n.uid, n.gid, n.mode) then Fail(NoWritePermissionParent(item))
      else Pass
  }

  /** `validateAccess`: root passes without any lookup; anyone else needs
      the object and then its parent directory to pass the check. */
  function ValidateAccess(p: Principal, fs: Fs, cwd: string, item: string): (r: Outcome)
    ensures p.uid == 0 ==> r == Pass
    ensures r.Pass? <==> p.uid == 0 || ItemAndParentWritable(p, fs, cwd, item)
    ensures r.Fail? ==> r.error in {CannotAccessItem(item), NoWritePermissionItem(item),
                                    CannotAccessParent(item), NoWritePermissionParent(item)}
  {
    if p.uid == 0 then Pass
    else match Stat(fs, Resolve(cwd, item))
      case None => Fail(CannotAccessItem(item))
      case Some(n) =>
        if !CheckWritePermission(p, n.uid, n.gid, n.mode) then Fail(NoWritePermissionItem(item))
        else ValidateParentDirAccess(p, fs, cwd, item)
  }

  // ---------------------------------------------------------------------
  // Toss

  /** What the outside world decides during one toss: the random suffix,
      standing for the result of `NameSuffix(6, draws)` for the draws the
      random source makes (so six characters that satisfy `IsSuffix`),
      whether the rename is granted, whether the journal write and the
      compensating delete commit, and the clock. */
  datatype TossEffects = TossEffects(suffix: string, renameOk: bool, recordCommit: bool,
                                     compensateCommit: bool, now: int)

  /** The journal key: the base of the container destination built from the
      item's base name and the suffix. */
  function TossKey(cfg: Config, item: string, suffix: string): string {
    Base(Join(cfg.containerPath, Base(item + "_" + suffix)))
  }

  /** Where the tossed object lands. */
  function TossDestination(cfg: Config, item: string, suffix: string): string {
    Resolve(cfg.workingDir, Join(cfg.containerPath, Base(item + "_" + suffix)))
  }

  /** The key is what follows the item's last separator, "_", and the
      suffix: the item's base name when the item does not end in a
      separator, and nothing at all when it does ("dir/" is recorded under
      "_" and the suffix). */
  lemma TossKeyShape(cfg: Config, item: string, suffix: string)
    requires IsName(suffix)
    ensures Base(item + "_" + suffix) == Tail(item) + "_" + suffix
    ensures TossKey(cfg, item, suffix) == Tail(item) + "_" + suffix
    ensures item != "" && item[|item| - 1] != '/' ==> TossKey(cfg, item, suffix) == Base(item) + "_" + suffix
    ensures IsName(TossKey(cfg, item, suffix)) && |TossKey(cfg, item, suffix)| > |suffix|
  {
    BaseOfSuffixed(item, suffix);
    BaseOfJoin(cfg.containerPath, Tail(item) + "_" + suffix);
  }

  /** Two tosses with different suffixes of the same length never share a
      key, whatever the items. */
  lemma TossKeysDistinct(cfg: Config, a: string, b: string, s: string, t: string)
    requires IsName(s) && IsName(t) && |s| == |t| && s != t
    ensures TossKey(cfg, a, s) != TossKey(cfg, b, t)
  {
    TossKeyShape(cfg, a, s);
    TossKeyShape(cfg, b, t);
    Strings.EndingsDiffer(Tail(a) + "_", Tail(b) + "_", s, t);
  }

  /** `Toss`: gate, record, move; on a refused move the record is deleted
      again. */
  function Toss(cfg: Config, sys: System, p: Principal, item: string, fx: TossEffects): (r: Transition)
    // a refused gate changes nothing
    ensures ValidateAccess(p, sys.fs, cfg.workingDir, item).Fail? ==>
      r == Transition(sys, ValidateAccess(p, sys.fs, cfg.workingDir, item))
    // success needs the gate, the journal write and the move
    ensures r.outcome.Pass? <==>
      && (p.uid == 0 || ItemAndParentWritable(p, sys.fs, cfg.workingDir, item))
      && sys.journal.db.Some? && fx.recordCommit
      && fx.renameOk && Resolve(cfg.workingDir, item) in sys.fs
    // a failed toss never moves anything
    ensures r.outcome.Fail? ==> r.sys.fs == sys.fs
    // no journal write, no rename attempt, nothing changed
    ensures !(sys.journal.db.Some? && fx.recordCommit) ==> r.sys == sys
    ensures r.outcome.Pass? ==>
      var src := Resolve(cfg.workingDir, item);
      var dst := TossDestination(cfg, item, fx.suffix);
      && dst in r.sys.fs && r.sys.fs[dst] == sys.fs[src]
      && (src != dst ==> src !in r.sys.fs)
      && SameOutside(sys.fs, r.sys.fs, {src, dst})
    ensures r.outcome.Pass? ==>
      var key := TossKey(cfg, item, fx.suffix);
      var db := r.sys.journal.db;
      && db.Some? && key in db.value
      && db.value[key].item == key
      && db.value[key].origin == Resolve(cfg.workingDir, item)
      && db.value[key].wipeoutTime == cfg.wipeoutTime
      && db.value[key].tossedTime == fx.now
      && Journal.StoredAt(sys.journal.db.value, db.value, key, db.value[key])
    // a refused move whose compensation commits leaves no record under the key
    ensures (&& r.outcome.Fail? && sys.journal.db.Some? && fx.recordCommit && fx.compensateCommit
             && ValidateAccess(p, sys.fs, cfg.workingDir, item).Pass?) ==>
      && r.outcome.error == MoveFailed(item)
      && r.sys.journal.db.Some?
      && Journal.RemovedAt(sys.journal.db.value, r.sys.journal.db.value, TossKey(cfg, item, fx.suffix))
    // a failed compensation is reported as such
    ensures (&& r.outcome.Fail? && sys.journal.db.Some? && fx.recordCommit && !fx.compensateCommit
             && ValidateAccess(p, sys.fs, cfg.workingDir, item).Pass?) ==>
      r.outcome.error.CompensationFailed?
    ensures State.Valid(sys) ==> State.Valid(r.sys)
  {
    match ValidateAccess(p, sys.fs, cfg.workingDir, item)
    case Fail(e) => Transition(sys, Fail(e))
    case Pass =>
      var destination := Join(cfg.containerPath, Base(item + "_" + fx.suffix));
      var key := Base(destination);
      var keyPath := Resolve(cfg.workingDir, key);
      match Journal.Add(sys.journal, key, item, cfg.wipeoutTime, cfg.workingDir,
                        Lstat(sys.fs, keyPath), fx.now, fx.recordCommit)
      case Err(e) => Transition(sys, Fail(JournalAddFailed(e)))
      case Ok(j1) =>
        match Rename(sys.fs, Resolve(cfg.workingDir, item), Resolve(cfg.workingDir, destination), fx.renameOk)
        case Some(fs1) => Transition(System(fs1, j1), Pass)
        case None =>
          match Journal.Delete(j1, key, fx.compensateCommit)
          case Err(e) => Transition(System(sys.fs, j1), Fail(CompensationFailed(item, e)))
          case Ok(j2) => Transition(System(sys.fs, j2), Fail(MoveFailed(item)))
  }

  /** When the key was not in use, a toss whose move is refused and whose
      compensation commits leaves the journal exactly as it found it. */
  lemma TossFailureRestoresJournal(cfg: Config, sys: System, p: Principal, item: string, fx: TossEffects)
    requires sys.journal.db.Some? && TossKey(cfg, item, fx.suffix) !in sys.journal.db.value
    requires fx.compensateCommit
    requires Toss(cfg, sys, p, item, fx).outcome.Fail?
    ensures Toss(cfg, sys, p, item, fx).sys == sys
  {
    var r := Toss(cfg, sys, p, item, fx);
    var key := TossKey(cfg, item, fx.suffix);
    if fx.recordCommit && ValidateAccess(p, sys.fs, cfg.workingDir, item).Pass? {
      var db := sys.journal.db.value;
      var db' := r.sys.journal.db.value;
      assert Journal.RemovedAt(db, db', key);
      Journal.RemovedAbsentIsSame(db, db', key);
    }
  }

  /** The object type recorded is that of the key's name looked up in the
      working directory, not that of the tossed object: unless an entry of
      that name happens to exist there, it is TypeOther. */
  lemma TossRecordsTypeOfKey(cfg: Config, sys: System, p: Principal, item: string, fx: TossEffects)
    requires IsName(fx.suffix)
    requires Resolve(cfg.workingDir, TossKey(cfg, item, fx.suffix)) !in sys.fs
    requires Toss(cfg, sys, p, item, fx).outcome.Pass?
    ensures Toss(cfg, sys, p, item, fx).sys.journal.db.value[TossKey(cfg, item, fx.suffix)].fsType
      == TypeOther
  {
    var key := TossKey(cfg, item, fx.suffix);
    var stat := Lstat(sys.fs, Resolve(cfg.workingDir, key));
    TossRecordsAdd(cfg, sys, p, item, fx);
    assert stat.None?;
    assert GetType(stat) == TypeOther;
  }

  /** A successful toss leaves the journal that `Journal.Add` gives for the
      key, with the key's name looked up in the working directory. */
  lemma TossRecordsAdd(cfg: Config, sys: System, p: Principal, item: string, fx: TossEffects)
    requires Toss(cfg, sys, p, item, fx).outcome.Pass?
    ensures
      var key := TossKey(cfg, item, fx.suffix);
      var added := Journal.Add(sys.journal, key, item, cfg.wipeoutTime, cfg.workingDir,
                               Lstat(sys.fs, Resolve(cfg.workingDir, key)), fx.now, fx.recordCommit);
      added.Ok? && Toss(cfg, sys, p, item, fx).sys.journal == added.value
  {
    assert ValidateAccess(p, sys.fs, cfg.workingDir, item).Pass?;
  }

  // ---------------------------------------------------------------------
  // The toss command

  /** Toss each file in turn; the first file that does not exist or fails to
      toss ends the command with its error. */
  function TossAll(cfg: Config, sys: System, p: Principal, files: seq<string>,
                   fxs: seq<TossEffects>): (r: Transition)
    requires |fxs| == |files|
    ensures State.Valid(sys) ==> State.Valid(r.sys)
    ensures r.outcome.Fail? ==> r.outcome.error.InvalidRubbish? || r.outcome.error.TossFailed?
    ensures sys.journal.db.None? && files != [] ==> r.outcome.Fail? && r.sys == sys
    // a missing first object ends the command at once, with nothing changed
    ensures files != [] && Resolve(cfg.workingDir, files[0]) !in sys.fs ==>
      r == Transition(sys, Fail(InvalidRubbish(files[0])))
    // a failed first toss ends the command with that toss's error
    ensures files != [] && Resolve(cfg.workingDir, files[0]) in sys.fs ==>
      var t := Toss(cfg, sys, p, files[0], fxs[0]);
      t.outcome.Fail? ==> r == Transition(t.sys, Fail(TossFailed(files[0], t.outcome.error)))
    decreases |files|
  {
    if files == [] then Transition(sys, Pass)
    else if Resolve(cfg.workingDir, files[0]) !in sys.fs then
      Transition(sys, Fail(InvalidRubbish(files[0])))
    else
      var t := Toss(cfg, sys, p, files[0], fxs[0]);
      if t.outcome.Fail? then Transition(t.sys, Fail(TossFailed(files[0], t.outcome.error)))
      else TossAll(cfg, t.sys, p, files[1..], fxs[1..])
  }

  /** The command works through its files in order and stops at the first
      failure: tossing `a + b` is tossing `a`, and then `b` only when every
      file of `a` went through. */
  lemma {:induction false} TossAllSplit(cfg: Config, sys: System, p: Principal, a: seq<string>, b: seq<string>,
                                        fa: seq<TossEffects>, fb: seq<TossEffects>)
    requires |fa| == |a| && |fb| == |b|
    ensures TossAll(cfg, sys, p, a + b, fa + fb) ==
      var t := TossAll(cfg, sys, p, a, fa);
      if t.outcome.Fail? then t else TossAll(cfg, t.sys, p, b, fb)
    decreases |a|
  {
    if a == [] {
      assert a + b == b && fa + fb == fb;
    } else {
      assert (a + b)[0] == a[0] && (a + b)[1..] == a[1..] + b;
      assert (fa + fb)[0] == fa[0] && (fa + fb)[1..] == fa[1..] + fb;
      if Resolve(cfg.workingDir, a[0]) in sys.fs {
        var t := Toss(cfg, sys, p, a[0], fa[0]);
        if t.outcome.Pass? {
          TossAllSplit(cfg, t.sys, p, a[1..], b, fa[1..], fb);
        }
      }
    }
  }

  /** `Command`: at least one file is required; a non-negative retention
      overrides the configured one for every file. */
  function Command(cfg: Config, sys: System, p: Principal, args: seq<string>, retention: int,
                   fxs: seq<TossEffects>): (r: Transition)
    requires |fxs| == |args|
    ensures args == [] ==> r == Transition(sys, Fail(NoFilesToToss))
    ensures State.Valid(sys) ==> State.Valid(r.sys)
  {
    if args == [] then Transition(sys, Fail(NoFilesToToss))
    else
      var cfg' := if retention >= 0 then cfg.(wipeoutTime := retention) else cfg;
      TossAll(cfg', sys, p, args, fxs)
  }

  /** A single tossed file carries the retention the command was given, or
      the configured one when none was. */
  lemma CommandAppliesRetention(cfg: Config, sys: System, p: Principal, file: string, retention: int,
                                fx: TossEffects)
    requires Command(cfg, sys, p, [file], retention, [fx]).outcome.Pass?
    ensures
      var db := Command(cfg, sys, p, [file], retention, [fx]).sys.journal.db;
      var key := TossKey(cfg, file, fx.suffix);
      db.Some? && key in db.value
      && db.value[key].wipeoutTime == (if retention >= 0 then retention else cfg.wipeoutTime)
  {
    var cfg' := if retention >= 0 then cfg.(wipeoutTime := retention) else cfg;
    assert Command(cfg, sys, p, [file], retention, [fx]) == TossAll(cfg', sys, p, [file], [fx]);
    TossAllOfOne(cfg', sys, p, file, fx);
    assert TossKey(cfg', file, fx.suffix) == TossKey(cfg, file, fx.suffix);
  }

  /** A command of one file that went through is that file's toss. */
  lemma TossAllOfOne(cfg: Config, sys: System, p: Principal, file: string, fx: TossEffects)
    ensures TossAll(cfg, sys, p, [file], [fx]).outcome.Pass? ==>
      TossAll(cfg, sys, p, [file], [fx]) == Toss(cfg, sys, p, file, fx)
  {
    assert [file][1..] == [] && [fx][1..] == [];
  }

  /** Tossing two objects in turn, with different suffixes, leaves both in
      the container and both in the journal: neither overwrites the other. */
  lemma SequentialTossesKeepBoth(cfg: Config, sys: System, p: Principal, a: string, b: string,
                                 fa: TossEffects, fb: TossEffects, t1: Transition, t2: Transition)
    requires IsName(fa.suffix) && IsName(fb.suffix)
    requires |fa.suffix| == |fb.suffix| && fa.suffix != fb.suffix
    requires t1 == Toss(cfg, sys, p, a, fa) && t1.outcome.Pass?
    requires Resolve(cfg.workingDir, b) != TossDestination(cfg, a, fa.suffix)
    requires t2 == Toss(cfg, t1.sys, p, b, fb) && t2.outcome.Pass?
    ensures TossKey(cfg, a, fa.suffix) != TossKey(cfg, b, fb.suffix)
    ensures TossKey(cfg, a, fa.suffix) in t2.sys.journal.db.value
    ensures TossKey(cfg, b, fb.suffix) in t2.sys.journal.db.value
    ensures TossDestination(cfg, a, fa.suffix) in t2.sys.fs
    ensures TossDestination(cfg, b, fb.suffix) in t2.sys.fs
  {
    TossKeysDistinct(cfg, a, b, fa.suffix, fb.suffix);
    TossDestinationName(cfg, a, fa.suffix);
    TossDestinationName(cfg, b, fb.suffix);
    var da, db := TossDestination(cfg, a, fa.suffix), TossDestination(cfg, b, fb.suffix);
    assert Base(da) != Base(db);
    TossKeepsOtherObjects(cfg, t1.sys, p, b, fb, da);
    TossKeepsOtherRecords(cfg, t1.sys, p, b, fb, TossKey(cfg, a, fa.suffix));
  }

  /** A successful toss keeps every other object where it was. */
  lemma TossKeepsOtherObjects(cfg: Config, sys: System, p: Principal, item: string, fx: TossEffects, x: string)
    requires Toss(cfg, sys, p, item, fx).outcome.Pass?
    requires x in sys.fs && x != Resolve(cfg.workingDir, item) && x != TossDestination(cfg, item, fx.suffix)
    ensures x in Toss(cfg, sys, p, item, fx).sys.fs && Toss(cfg, sys, p, item, fx).sys.fs[x] == sys.fs[x]
  {
    var t := Toss(cfg, sys, p, item, fx);
    var changed := {Resolve(cfg.workingDir, item), TossDestination(cfg, item, fx.suffix)};
    assert x !in changed;
    assert SameOutside(sys.fs, t.sys.fs, changed);
    SameOutsideKeeps(sys.fs, t.sys.fs, changed, x);
  }

  /** A successful toss keeps every other journal record. */
  lemma TossKeepsOtherRecords(cfg: Config, sys: System, p: Principal, item: string, fx: TossEffects, k: string)
    requires Toss(cfg, sys, p, item, fx).outcome.Pass?
    requires sys.journal.db.Some? && k in sys.journal.db.value && k != TossKey(cfg, item, fx.suffix)
    ensures
      var db' := Toss(cfg, sys, p, item, fx).sys.journal.db;
      db'.Some? && k in db'.value && db'.value[k] == sys.journal.db.value[k]
  {
    var db' := Toss(cfg, sys, p, item, fx).sys.journal.db.value;
    var key := TossKey(cfg, item, fx.suffix);
    Journal.StoredAtKeeps(sys.journal.db.value, db', key, db'[key], k);
  }

  /** The last element of the destination is the journal key. */
  lemma TossDestinationName(cfg: Config, item: string, suffix: string)
    requires IsName(suffix)
    ensures Base(TossDestination(cfg, item, suffix)) == TossKey(cfg, item, suffix)
  {
    var k := TossKey(cfg, item, suffix);
    TossKeyShape(cfg, item, suffix);
    assert TossDestination(cfg, item, suffix) == Resolve(cfg.workingDir, Join(cfg.containerPath, k));
    assert k != "." by {
      assert |k| > |suffix| >= 1;
    }
    BaseOfResolvedJoin(cfg.workingDir, cfg.containerPath, k);
  }
}
