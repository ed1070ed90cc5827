/**
 * Wiping: choosing the candidate records, asking for confirmation, and
 * removing each confirmed item from the journal and the container, with
 * the record re-added when the removal is refused.
 */
module Wipe {
  import opened Results
  import opened Seqs
  import opened Paths
  import opened FileSystem
  import opened Metadata
  import Journal
  import opened Config
  import opened State

  // ---------------------------------------------------------------------
  // Candidates

  /** The records in scope: every record globally, or the local ones. */
  function ScopeRecords(j: Journal.Journal, cwd: string, global: bool): (r: Result<seq<MetaData>>)
    ensures r.Err? <==> j.db.None?
    ensures r.Ok? ==> forall i :: 0 <= i < |r.value| ==> r.value[i] in j.db.value.Values
    ensures r.Ok? && global ==> r.value == Journal.List(j).value
    ensures r.Ok? && !global ==> IsSubseq(r.value, Journal.List(j).value)
  {
    if global then Journal.List(j) else Journal.FilterPath(j, cwd)
  }

  /** `getRecords`: the records in scope, and without `force` only those
      whose retention has run out at `now`, in the same order. */
  function GetRecords(j: Journal.Journal, cwd: string, global: bool, force: bool, now: int)
    : (r: Result<seq<MetaData>>)
    ensures r.Err? <==> j.db.None?
    ensures r.Ok? ==> forall i :: 0 <= i < |r.value| ==> r.value[i] in j.db.value.Values
    ensures r.Ok? && !force ==> forall i :: 0 <= i < |r.value| ==> IsWipeable(r.value[i], now)
    ensures r.Ok? && !force ==> forall i :: 0 <= i < |ScopeRecords(j, cwd, global).value| ==>
      IsWipeable(ScopeRecords(j, cwd, global).value[i], now) ==> ScopeRecords(j, cwd, global).value[i] in r.value
    ensures r.Ok? ==> IsSubseq(r.value, ScopeRecords(j, cwd, global).value)
  {
    match ScopeRecords(j, cwd, global)
    case Err(e) => Err(e)
    case Ok(records) =>
      if !force then Ok(Filter(records, (m: MetaData) => IsWipeable(m, now)))
      else SubseqReflexive(records); Ok(records)
  }

  /** The candidates without `force` are a subsequence of those with it. */
  lemma UnforcedWithinForced(j: Journal.Journal, cwd: string, global: bool, now: int)
    requires j.db.Some?
    ensures IsSubseq(GetRecords(j, cwd, global, false, now).value, GetRecords(j, cwd, global, true, now).value)
  {
  }

  /** With `force` the retention is ignored: every record in scope is a candidate. */
  lemma ForcedIsWholeScope(j: Journal.Journal, cwd: string, global: bool, now: int)
    requires j.db.Some?
    ensures GetRecords(j, cwd, global, true, now) == ScopeRecords(j, cwd, global)
  {
  }

  // ---------------------------------------------------------------------
  // Confirmation

  /** What `fmt.Scanln` yields for the confirmation prompt: the one word the
      line held, or the read error. */
  datatype Reply = ReadFailed | Typed(text: string)

  /** The blanks `fmt.Scanln` skips around a word. */
  predicate IsBlank(c: char) {
    c == ' ' || c == '\t' || c == '\r'
  }

  predicate NoBlank(s: string) {
    forall i :: 0 <= i < |s| ==> !IsBlank(s[i])
  }

  predicate AllBlank(s: string) {
    forall i :: 0 <= i < |s| ==> IsBlank(s[i])
  }

  function TrimBlanksLeft(s: string): (r: string)
    ensures |r| <= |s| && r == s[|s| - |r|..] && AllBlank(s[..|s| - |r|])
    ensures r == "" || !IsBlank(r[0])
  {
    if s != "" && IsBlank(s[0]) then
      var r := TrimBlanksLeft(s[1..]);
      assert r == s[|s| - |r|..] by {
        assert s[1..][|s| - 1 - |r|..] == s[|s| - |r|..];
      }
      BlankHeadExtends(s, |s| - |r|);
      r
    else s
  }

  function TrimBlanksRight(s: string): (r: string)
    ensures |r| <= |s| && r == s[..|r|] && AllBlank(s[|r|..])
    ensures r == "" || !IsBlank(r[|r| - 1])
  {
    if s != "" && IsBlank(s[|s| - 1]) then
      var r := TrimBlanksRight(s[..|s| - 1]);
      assert r == s[..|r|] by {
        assert s[..|s| - 1][..|r|] == s[..|r|];
      }
      BlankTailExtends(s, |r|);
      r
    else s
  }

  lemma BlankHeadExtends(s: string, k: int)
    requires 1 <= k <= |s| && IsBlank(s[0]) && AllBlank(s[1..][..k - 1])
    ensures AllBlank(s[..k])
  {
    forall i | 1 <= i < k ensures IsBlank(s[i]) {
      assert s[i] == s[1..][..k - 1][i - 1];
    }
    assert forall i :: 0 <= i < k ==> s[..k][i] == s[i];
  }

  lemma BlankTailExtends(s: string, k: int)
    requires 0 <= k < |s| && IsBlank(s[|s| - 1]) && AllBlank(s[..|s| - 1][k..])
    ensures AllBlank(s[k..])
  {
    forall i | k <= i < |s| - 1 ensures IsBlank(s[i]) {
      assert s[i] == s[..|s| - 1][k..][i - k];
    }
    assert forall i :: 0 <= i < |s| - k ==> s[k..][i] == s[k + i];
  }

  /** `fmt.Scanln` into one string, on the line typed (`None` when nothing
      can be read): a line with exactly one word gives that word; an empty
      or blank line, which is what pressing Enter at "[y/N]" gives, and a
      line of several words are read errors. */
  function ScanWord(line: Option<string>): (r: Reply)
    ensures line.None? ==> r == ReadFailed
    ensures line.Some? && AllBlank(line.value) ==> r == ReadFailed
    ensures r.Typed? ==> r.text != "" && NoBlank(r.text) && line.Some?
    ensures r.Typed? ==> exists k :: SitsIn(r.text, line.value, k)
  {
    match line
    case None => ReadFailed
    case Some(l) =>
      var left := TrimBlanksLeft(l);
      var w := TrimBlanksRight(left);
      if w == "" || !NoBlank(w) then ReadFailed
      else
        TrimmedWordSits(l, left, w);
        Typed(w)
  }

  /** `w` stands at index `k` of `l` with only blanks before and after it. */
  predicate SitsIn(w: string, l: string, k: int) {
    && 0 <= k <= |l| - |w| && AllBlank(l[..k])
    && l[k..k + |w|] == w && AllBlank(l[k + |w|..])
  }

  /** The trimmed text stands right after the leading blanks. */
  lemma TrimmedWordSits(l: string, left: string, w: string)
    requires left == TrimBlanksLeft(l) && w == TrimBlanksRight(left)
    ensures SitsIn(w, l, |l| - |left|)
  {
    SitsInOfParts(l, left, w, |l| - |left|);
  }

  /** `w` opens `left`, the rest of `left` is blank, and `left` is what
      follows the blanks at the head of `l`. */
  lemma SitsInOfParts(l: string, left: string, w: string, k: int)
    requires 0 <= k <= |l| && left == l[k..] && AllBlank(l[..k])
    requires |w| <= |left| && w == left[..|w|] && AllBlank(left[|w|..])
    ensures SitsIn(w, l, k)
  {
    forall i | 0 <= i < |w| ensures l[k..k + |w|][i] == w[i] {
      assert l[k + i] == left[i];
    }
    forall j | k + |w| <= j < |l| ensures IsBlank(l[j]) {
      assert l[j] == left[j - k] == left[|w|..][j - k - |w|];
    }
    var post := l[k + |w|..];
    forall i | 0 <= i < |post| ensures IsBlank(post[i]) {
      assert post[i] == l[k + |w| + i];
    }
  }

  lemma {:induction false} TrimBlanksLeftOfPadded(pre: string, rest: string)
    requires AllBlank(pre) && (rest == "" || !IsBlank(rest[0]))
    ensures TrimBlanksLeft(pre + rest) == rest
    decreases |pre|
  {
    if pre != "" {
      assert (pre + rest)[0] == pre[0];
      assert (pre + rest)[1..] == pre[1..] + rest;
      TrimBlanksLeftOfPadded(pre[1..], rest);
    } else {
      assert pre + rest == rest;
    }
  }

  lemma {:induction false} TrimBlanksRightOfPadded(w: string, post: string)
    requires AllBlank(post) && (w == "" || !IsBlank(w[|w| - 1]))
    ensures TrimBlanksRight(w + post) == w
    decreases |post|
  {
    if post != "" {
      var q := w + post;
      assert q[|q| - 1] == post[|post| - 1];
      assert q[..|q| - 1] == w + post[..|post| - 1];
      TrimBlanksRightOfPadded(w, post[..|post| - 1]);
    } else {
      assert w + post == w;
    }
  }

  /** A single word with blanks around it is read as that word. */
  lemma ScanWordOfPadded(pre: string, w: string, post: string)
    requires AllBlank(pre) && AllBlank(post) && w != "" && NoBlank(w)
    ensures ScanWord(Some(pre + w + post)) == Typed(w)
  {
    assert pre + w + post == pre + (w + post);
    assert (w + post)[0] == w[0];
    TrimBlanksLeftOfPadded(pre, w + post);
    TrimBlanksRightOfPadded(w, post);
  }

  /** Two words on the line are a read error, not a reply. */
  lemma ScanWordOfTwoWords(w1: string, gap: string, w2: string)
    requires w1 != "" && NoBlank(w1) && gap != "" && AllBlank(gap) && w2 != "" && NoBlank(w2)
    ensures ScanWord(Some(w1 + gap + w2)) == ReadFailed
  {
    var l := w1 + gap + w2;
    assert l[0] == w1[0] && l[|l| - 1] == w2[|w2| - 1];
    assert TrimBlanksLeft(l) == l;
    assert TrimBlanksRight(l) == l;
    assert IsBlank(l[|w1|]);
  }

  /** `confirmWipe`: `None` is a read error. */
  function ConfirmWipe(autoAcknowledge: bool, reply: Reply): (r: Option<bool>)
    ensures autoAcknowledge ==> r == Some(true)
    ensures !autoAcknowledge ==> (r.None? <==> reply.ReadFailed?)
    ensures r == Some(true) <==> autoAcknowledge || reply == Typed("y") || reply == Typed("Y")
  {
    if autoAcknowledge then Some(true)
    else match reply
      case ReadFailed => None
      case Typed(text) => Some(text == "y" || text == "Y")
  }

  // ---------------------------------------------------------------------
  // One wipe

  /** What the outside world decides for one `executeWipe`: whether the
      record delete commits, whether the removal is granted, and whether
      the re-add after a refused removal commits. */
  datatype WipeEffects = WipeEffects(deleteCommit: bool, removeOk: bool, readdCommit: bool)

  /** Every container path the records name. */
  ghost function RubbishPaths(cfg: Config, records: seq<MetaData>): set<string> {
    set i | 0 <= i < |records| :: RubbishPath(cfg, records[i].item)
  }

  /** `executeWipe`: delete the record, then remove the object; a refused
      removal puts the record back, and a failed put-back is ignored. */
  function ExecuteWipe(cfg: Config, sys: System, record: MetaData, fx: WipeEffects): (r: Transition)
    ensures r.outcome.Pass? <==> sys.journal.db.Some? && fx.deleteCommit && fx.removeOk
    ensures r.outcome.Pass? ==>
      && r.sys.journal.db.Some?
      && Journal.RemovedAt(sys.journal.db.value, r.sys.journal.db.value, record.item)
      && RubbishPath(cfg, record.item) !in r.sys.fs
    // nothing is removed unless the record delete committed
    ensures !(sys.journal.db.Some? && fx.deleteCommit) ==>
      r == Transition(sys, Fail(DeleteRecordFailed(record.item, if sys.journal.db.None? then NotInitialized else TxnFailed)))
    // a refused removal re-adds the very record, so a stored record comes back as it was
    ensures r.outcome.Fail? ==> r.sys.fs == sys.fs
    ensures && r.outcome.Fail? && fx.readdCommit && sys.journal.db.Some?
            && record.item in sys.journal.db.value && sys.journal.db.value[record.item] == record ==>
      r.sys == sys
    ensures SameOutside(sys.fs, r.sys.fs, {RubbishPath(cfg, record.item)})
    ensures r.sys.fs.Keys <= sys.fs.Keys
    ensures Journal.KeptOutside(sys.journal.db, r.sys.journal.db, {record.item})
    ensures State.Valid(sys) ==> State.Valid(r.sys)
  {
    var rubbishFile := Join(cfg.containerPath, record.item);
    match Journal.Delete(sys.journal, record.item, fx.deleteCommit)
    case Err(e) => Transition(sys, Fail(DeleteRecordFailed(record.item, e)))
    case Ok(j1) =>
      match RemoveAll(sys.fs, Resolve(cfg.workingDir, rubbishFile), fx.removeOk)
      case Some(fs1) => Transition(System(fs1, j1), Pass)
      case None =>
        ReaddRestores(sys.journal.db.value, record.item, record);
        var j2 := match Journal.Register(j1, record, fx.readdCommit)
          case Ok(j) => j
          case Err(_) => j1;
        Journal.RemovedAtKeptOutside(sys.journal.db.value, j1.db.value, record.item);
        assert Journal.KeptOutside(j1.db, j2.db, {record.item}) by {
          if j2 != j1 {
            Journal.StoredAtKeptOutside(j1.db.value, j2.db.value, record.item, record);
          }
        }
        Journal.KeptOutsideStep(sys.journal.db, j1.db, j2.db, {record.item}, {record.item});
        Transition(System(sys.fs, j2), Fail(RemoveFailed(rubbishFile)))
  }

  /** Deleting a record and storing it again gives back the same map. */
  lemma ReaddRestores(db: Journal.Db, k: string, m: MetaData)
    ensures k in db && db[k] == m ==> (db - {k})[k := m] == db
  {
  }

  /** Confirmation followed, when given, by the wipe. `None` is a read error,
      which ends the batch; a declined item changes nothing. */
  function WipeOne(cfg: Config, sys: System, record: MetaData, autoAcknowledge: bool,
                   reply: Reply, fx: WipeEffects): (r: Option<System>)
    ensures r.None? <==> !autoAcknowledge && reply.ReadFailed?
    ensures ConfirmWipe(autoAcknowledge, reply) == Some(false) ==> r == Some(sys)
    ensures r.Some? ==> SameOutside(sys.fs, r.value.fs, {RubbishPath(cfg, record.item)})
    ensures r.Some? ==> r.value.fs.Keys <= sys.fs.Keys
    ensures r.Some? ==> Journal.KeptOutside(sys.journal.db, r.value.journal.db, {record.item})
    ensures r.Some? && State.Valid(sys) ==> State.Valid(r.value)
  {
    match ConfirmWipe(autoAcknowledge, reply)
    case None => None
    case Some(false) => Some(sys)
    case Some(true) => Some(ExecuteWipe(cfg, sys, record, fx).sys)
  }

  // ---------------------------------------------------------------------
  // Batches. `reply(i)` and `fx(i)` are what the i-th step of the batch
  // reads and meets.

  /** `wipeAllFiles`, from the record at index `from` on. Only a read error
      ends the batch early; a failed wipe is reported and the batch goes on. */
  function WipeAll(cfg: Config, sys: System, records: seq<MetaData>, from: nat, autoAcknowledge: bool,
                   reply: nat -> Reply, fx: nat -> WipeEffects): (r: Transition)
    requires from <= |records|
    ensures r.outcome.Pass? <==>
      autoAcknowledge || forall i :: from <= i < |records| ==> reply(i).Typed?
    ensures r.outcome.Fail? ==> r.outcome.error.ConfirmFailed?
    ensures SameOutside(sys.fs, r.sys.fs, RubbishPaths(cfg, records))
    ensures Journal.KeptOutside(sys.journal.db, r.sys.journal.db, ItemSet(records))
    ensures State.Valid(sys) ==> State.Valid(r.sys)
    decreases |records| - from
  {
    if from == |records| then Transition(sys, Pass)
    else
      assert RubbishPath(cfg, records[from].item) in RubbishPaths(cfg, records);
      assert records[from].item in ItemSet(records);
      match WipeOne(cfg, sys, records[from], autoAcknowledge, reply(from), fx(from))
      case None => Transition(sys, Fail(ConfirmFailed(records[from].item)))
      case Some(sys1) =>
        var r := WipeAll(cfg, sys1, records, from + 1, autoAcknowledge, reply, fx);
        SameOutsideStep(sys.fs, sys1.fs, r.sys.fs, {RubbishPath(cfg, records[from].item)}, RubbishPaths(cfg, records));
        Journal.KeptOutsideStep(sys.journal.db, sys1.journal.db, r.sys.journal.db, {records[from].item},
                                ItemSet(records));
        r
  }

  /** `wipeSelectedFiles`, from the file at index `from` on: a name with no
      candidate, or a read error, ends the batch with an error. */
  function WipeSelected(cfg: Config, sys: System, records: seq<MetaData>, files: seq<string>, from: nat,
                        autoAcknowledge: bool, reply: nat -> Reply, fx: nat -> WipeEffects): (r: Transition)
    requires from <= |files|
    ensures r.outcome.Pass? <==>
      forall i :: from <= i < |files| ==> Named(records, files[i]) && (autoAcknowledge || reply(i).Typed?)
    ensures r.outcome.Fail? ==> r.outcome.error.NotInRubbish? || r.outcome.error.ConfirmFailed?
    ensures SameOutside(sys.fs, r.sys.fs, RubbishPaths(cfg, records))
    ensures Journal.KeptOutside(sys.journal.db, r.sys.journal.db, ItemSet(records))
    ensures State.Valid(sys) ==> State.Valid(r.sys)
    decreases |files| - from
  {
    if from == |files| then Transition(sys, Pass)
    else
      var t := SelectedStep(cfg, sys, records, files[from], autoAcknowledge, reply(from), fx(from));
      SelectedPassStep(records, files, from, autoAcknowledge, reply);
      if t.outcome.Fail? then t
      else
        var r := WipeSelected(cfg, t.sys, records, files, from + 1, autoAcknowledge, reply, fx);
        SameOutsideStep(sys.fs, t.sys.fs, r.sys.fs, RubbishPaths(cfg, records), RubbishPaths(cfg, records));
        Journal.KeptOutsideStep(sys.journal.db, t.sys.journal.db, r.sys.journal.db, ItemSet(records),
                                ItemSet(records));
        r
  }

  /** Every file from `from` on goes through exactly when the file at
      `from` does and every one after it does. */
  lemma SelectedPassStep(records: seq<MetaData>, files: seq<string>, from: nat, autoAcknowledge: bool,
                         reply: nat -> Reply)
    requires from < |files|
    ensures (forall i :: from <= i < |files| ==> Named(records, files[i]) && (autoAcknowledge || reply(i).Typed?))
        <==> && Named(records, files[from]) && (autoAcknowledge || reply(from).Typed?)
             && (forall i :: from + 1 <= i < |files| ==> Named(records, files[i]) && (autoAcknowledge || reply(i).Typed?))
  {
  }

  /** One step of `WipeSelected`: the file's record is looked up and its
      wipe confirmed and carried out. */
  function SelectedStep(cfg: Config, sys: System, records: seq<MetaData>, file: string, autoAcknowledge: bool,
                        reply: Reply, fx: WipeEffects): (r: Transition)
    ensures r.outcome.Pass? <==> Named(records, file) && (autoAcknowledge || reply.Typed?)
    ensures r.outcome.Fail? ==> r.sys == sys
    ensures r.outcome.Fail? ==> r.outcome.error.NotInRubbish? || r.outcome.error.ConfirmFailed?
    ensures SameOutside(sys.fs, r.sys.fs, RubbishPaths(cfg, records))
    ensures Journal.KeptOutside(sys.journal.db, r.sys.journal.db, ItemSet(records))
    ensures State.Valid(sys) ==> State.Valid(r.sys)
  {
    match IndexOfItem(records, file)
    case None =>
      assert !Named(records, file);
      Transition(sys, Fail(NotInRubbish(file)))
    case Some(k) =>
      assert Named(records, file);
      var path, item := RubbishPath(cfg, records[k].item), records[k].item;
      assert path in RubbishPaths(cfg, records);
      assert item in ItemSet(records);
      match WipeOne(cfg, sys, records[k], autoAcknowledge, reply, fx)
      case None => Transition(sys, Fail(ConfirmFailed(item)))
      case Some(sys1) =>
        SameOutsideStep(sys.fs, sys1.fs, sys1.fs, {path}, RubbishPaths(cfg, records));
        Journal.KeptOutsideStep(sys.journal.db, sys1.journal.db, sys1.journal.db, {item}, ItemSet(records));
        Transition(sys1, Pass)
  }

  /** The steps of `WipeSelected` as a loop body: step `i` is that of
      `files[i]`, with the `i`-th reply and effects. */
  function SelectedSteps(cfg: Config, records: seq<MetaData>, files: seq<string>, autoAcknowledge: bool,
                         reply: nat -> Reply, fx: nat -> WipeEffects): (System, nat) -> Transition {
    (s: System, i: nat) =>
      if i < |files| then SelectedStep(cfg, s, records, files[i], autoAcknowledge, reply(i), fx(i))
      else Transition(s, Pass)
  }

  /** `WipeSelected` is the loop of its steps. */
  lemma {:induction false} WipeSelectedIsRun(cfg: Config, sys: System, records: seq<MetaData>, files: seq<string>,
                                             from: nat, autoAcknowledge: bool, reply: nat -> Reply,
                                             fx: nat -> WipeEffects)
    requires from <= |files|
    ensures WipeSelected(cfg, sys, records, files, from, autoAcknowledge, reply, fx)
         == Run(SelectedSteps(cfg, records, files, autoAcknowledge, reply, fx), sys, from, |files|)
    decreases |files| - from
  {
    if from < |files| {
      var t := SelectedStep(cfg, sys, records, files[from], autoAcknowledge, reply(from), fx(from));
      assert SelectedSteps(cfg, records, files, autoAcknowledge, reply, fx)(sys, from) == t;
      assert WipeSelected(cfg, sys, records, files, from, autoAcknowledge, reply, fx)
          == if t.outcome.Fail? then t else WipeSelected(cfg, t.sys, records, files, from + 1, autoAcknowledge, reply, fx);
      if t.outcome.Pass? {
        WipeSelectedIsRun(cfg, t.sys, records, files, from + 1, autoAcknowledge, reply, fx);
      }
    }
  }

  /** The selected files are worked through in order and the first unknown
      name or unreadable reply stops the batch: the files from `from` on are
      those before `k`, and then those from `k` only when the first part
      passed. */
  lemma WipeSelectedSplit(cfg: Config, sys: System, records: seq<MetaData>, files: seq<string>,
                          from: nat, k: nat, autoAcknowledge: bool, reply: nat -> Reply, fx: nat -> WipeEffects)
    requires from <= k <= |files|
    ensures WipeSelected(cfg, sys, records, files, from, autoAcknowledge, reply, fx) ==
      var t := WipeSelected(cfg, sys, records, files[..k], from, autoAcknowledge, reply, fx);
      if t.outcome.Fail? then t else WipeSelected(cfg, t.sys, records, files, k, autoAcknowledge, reply, fx)
  {
    var steps := SelectedSteps(cfg, records, files, autoAcknowledge, reply, fx);
    var stepsK := SelectedSteps(cfg, records, files[..k], autoAcknowledge, reply, fx);
    WipeSelectedIsRun(cfg, sys, records, files, from, autoAcknowledge, reply, fx);
    WipeSelectedIsRun(cfg, sys, records, files[..k], from, autoAcknowledge, reply, fx);
    RunSplit(steps, sys, from, k, |files|);
    forall s, i | from <= i < k ensures stepsK(s, i) == steps(s, i) {
      assert files[..k][i] == files[i];
    }
    RunAgrees(stepsK, steps, sys, from, k);
    var t := Run(steps, sys, from, k);
    if t.outcome.Pass? {
      WipeSelectedIsRun(cfg, t.sys, records, files, k, autoAcknowledge, reply, fx);
    }
  }

  /** A batch reads the replies and meets the effects of its own steps only. */
  lemma WipeSelectedReadsOwnSteps(cfg: Config, sys: System, records: seq<MetaData>, files: seq<string>,
                                  from: nat, autoAcknowledge: bool, reply: nat -> Reply, reply': nat -> Reply,
                                  fx: nat -> WipeEffects, fx': nat -> WipeEffects)
    requires from <= |files|
    requires forall i :: from <= i < |files| ==> reply(i) == reply'(i) && fx(i) == fx'(i)
    ensures WipeSelected(cfg, sys, records, files, from, autoAcknowledge, reply, fx)
         == WipeSelected(cfg, sys, records, files, from, autoAcknowledge, reply', fx')
  {
    var steps := SelectedSteps(cfg, records, files, autoAcknowledge, reply, fx);
    var steps' := SelectedSteps(cfg, records, files, autoAcknowledge, reply', fx');
    WipeSelectedIsRun(cfg, sys, records, files, from, autoAcknowledge, reply, fx);
    WipeSelectedIsRun(cfg, sys, records, files, from, autoAcknowledge, reply', fx');
    forall s, i | from <= i < |files| ensures steps(s, i) == steps'(s, i) {
      assert reply(i) == reply'(i) && fx(i) == fx'(i);
    }
    RunAgrees(steps, steps', sys, from, |files|);
  }

  /** `Command`: no candidates is not an error; named files select among the
      candidates, otherwise every candidate is offered. */
  function Command(cfg: Config, sys: System, args: seq<string>, global: bool, force: bool,
                   autoAcknowledge: bool, now: int, reply: nat -> Reply, fx: nat -> WipeEffects): (r: Transition)
    ensures sys.journal.db.None? ==> r == Transition(sys, Fail(RetrieveFailed(NotInitialized)))
    ensures GetRecords(sys.journal, cfg.workingDir, global, force, now) == Ok([]) ==> r == Transition(sys, Pass)
    ensures r.outcome.Fail? ==>
      r.outcome.error.RetrieveFailed? || r.outcome.error.WipeSelectedFailed? || r.outcome.error.WipeAllFailed?
    // only candidates are touched
    ensures sys.journal.db.Some? ==>
      var candidates := GetRecords(sys.journal, cfg.workingDir, global, force, now).value;
      && SameOutside(sys.fs, r.sys.fs, RubbishPaths(cfg, candidates))
      && Journal.KeptOutside(sys.journal.db, r.sys.journal.db,
                            ItemSet(candidates))
    ensures State.Valid(sys) ==> State.Valid(r.sys)
  {
    match GetRecords(sys.journal, cfg.workingDir, global, force, now)
    case Err(e) => Transition(sys, Fail(RetrieveFailed(e)))
    case Ok(records) =>
      if |records| == 0 then Transition(sys, Pass)
      else if |args| > 0 then
        var t := WipeSelected(cfg, sys, records, args, 0, autoAcknowledge, reply, fx);
        if t.outcome.Fail? then Transition(t.sys, Fail(WipeSelectedFailed(t.outcome.error))) else t
      else
        var t := WipeAll(cfg, sys, records, 0, autoAcknowledge, reply, fx);
        if t.outcome.Fail? then Transition(t.sys, Fail(WipeAllFailed(t.outcome.error))) else t
  }

  // ---------------------------------------------------------------------
  // Properties of the batches

  /** Declining every prompt leaves everything as it was. */
  lemma DeclinedChangesNothing(cfg: Config, sys: System, records: seq<MetaData>,
                               from: nat, reply: nat -> Reply, fx: nat -> WipeEffects)
    requires from <= |records|
    requires forall i :: from <= i < |records| ==> Declines(reply(i))
    ensures WipeAll(cfg, sys, records, from, false, reply, fx) == Transition(sys, Pass)
  {
    DeclinesFrom(reply, from, |records|);
    DeclinedKeepsState(cfg, sys, records, from, reply, fx);
    assert forall i :: from <= i < |records| ==> reply(i).Typed?;
  }

  /** A reply read as anything but "y" or "Y". */
  predicate Declines(reply: Reply) {
    reply.Typed? && reply.text != "y" && reply.text != "Y"
  }

  /** Every prompt in [from, to) is declined, step by step. */
  ghost predicate AllDecline(reply: nat -> Reply, from: nat, to: nat)
    decreases if from < to then to - from else 0
  {
    from >= to || (ConfirmWipe(false, reply(from)) == Some(false) && AllDecline(reply, from + 1, to))
  }

  lemma {:induction false} DeclinesFrom(reply: nat -> Reply, from: nat, to: nat)
    requires forall i :: from <= i < to ==> Declines(reply(i))
    ensures AllDecline(reply, from, to)
    decreases if from < to then to - from else 0
  {
    if from < to {
      assert Declines(reply(from));
      DeclinesFrom(reply, from + 1, to);
    }
  }

  /** Declined prompts leave the state as it was, step by step. */
  lemma {:induction false} DeclinedKeepsState(cfg: Config, sys: System, records: seq<MetaData>,
                                              from: nat, reply: nat -> Reply, fx: nat -> WipeEffects)
    requires from <= |records| && AllDecline(reply, from, |records|)
    ensures WipeAll(cfg, sys, records, from, false, reply, fx).sys == sys
    decreases |records| - from
  {
    if from < |records| {
      assert ConfirmWipe(false, reply(from)) == Some(false) && AllDecline(reply, from + 1, |records|);
      DeclinedStep(cfg, sys, records, from, reply, fx);
      DeclinedKeepsState(cfg, sys, records, from + 1, reply, fx);
    }
  }

  /** A declined prompt moves the batch on with nothing changed. */
  lemma DeclinedStep(cfg: Config, sys: System, records: seq<MetaData>,
                     from: nat, reply: nat -> Reply, fx: nat -> WipeEffects)
    requires from < |records| && ConfirmWipe(false, reply(from)) == Some(false)
    ensures WipeAll(cfg, sys, records, from, false, reply, fx) == WipeAll(cfg, sys, records, from + 1, false, reply, fx)
  {
    assert WipeOne(cfg, sys, records[from], false, reply(from), fx(from)) == Some(sys);
  }

  /** Every effect granted. */
  ghost predicate AllGranted(fx: nat -> WipeEffects) {
    forall i :: fx(i) == WipeEffects(true, true, true)
  }

  /** An acknowledged wipe of every candidate, with every delete and removal
      granted, leaves none of them in the journal or the container. */
  lemma {:induction false} AcknowledgedWipeRemovesAll(cfg: Config, sys: System, records: seq<MetaData>,
                                                      from: nat, reply: nat -> Reply, fx: nat -> WipeEffects)
    requires from <= |records| && sys.journal.db.Some? && AllGranted(fx)
    ensures
      var s := WipeAll(cfg, sys, records, from, true, reply, fx).sys;
      && s.journal.db.Some?
      && s.journal.db.value.Keys <= sys.journal.db.value.Keys
      && s.fs.Keys <= sys.fs.Keys
      && forall i :: from <= i < |records| ==>
           records[i].item !in s.journal.db.value && RubbishPath(cfg, records[i].item) !in s.fs
    decreases |records| - from
  {
    if from < |records| {
      var m := records[from];
      assert fx(from) == WipeEffects(true, true, true);
      var sys1 := ExecuteWipe(cfg, sys, m, fx(from)).sys;
      GrantedWipeRemoves(cfg, sys, m);
      assert WipeAll(cfg, sys, records, from, true, reply, fx)
          == WipeAll(cfg, sys1, records, from + 1, true, reply, fx);
      AcknowledgedWipeRemovesAll(cfg, sys1, records, from + 1, reply, fx);
      var s := WipeAll(cfg, sys1, records, from + 1, true, reply, fx).sys;
      var keys, keys1, keys0 := s.journal.db.value.Keys, sys1.journal.db.value.Keys, sys.journal.db.value.Keys;
      assert keys <= keys1 && keys1 <= keys0;
      assert s.fs.Keys <= sys1.fs.Keys && sys1.fs.Keys <= sys.fs.Keys;
      assert m.item !in keys && RubbishPath(cfg, m.item) !in s.fs;
      forall i | from <= i < |records|
        ensures records[i].item !in s.journal.db.value && RubbishPath(cfg, records[i].item) !in s.fs
      {
        if i > from {
          assert from + 1 <= i < |records|;
        }
      }
    }
  }

  /** The items of the records from index `from` on. */
  ghost function ItemsFrom(records: seq<MetaData>, from: nat): set<string> {
    set i | from <= i < |records| :: records[i].item
  }

  /** The batch from `from` on only ever takes objects away, and leaves
      every record outside the items from `from` on as it was. */
  lemma {:induction false} WipeAllFrame(cfg: Config, sys: System, records: seq<MetaData>, from: nat,
                                        autoAcknowledge: bool, reply: nat -> Reply, fx: nat -> WipeEffects)
    requires from <= |records|
    ensures
      var s := WipeAll(cfg, sys, records, from, autoAcknowledge, reply, fx).sys;
      && s.fs.Keys <= sys.fs.Keys
      && Journal.KeptOutside(sys.journal.db, s.journal.db, ItemsFrom(records, from))
    decreases |records| - from
  {
    if from < |records| {
      match WipeOne(cfg, sys, records[from], autoAcknowledge, reply(from), fx(from))
      case None =>
      case Some(sys1) =>
        WipeAllFrame(cfg, sys1, records, from + 1, autoAcknowledge, reply, fx);
        var s := WipeAll(cfg, sys1, records, from + 1, autoAcknowledge, reply, fx).sys;
        var big := ItemsFrom(records, from);
        assert records[from].item in big;
        assert ItemsFrom(records, from + 1) <= big;
        assert Journal.KeptOutside(sys1.journal.db, s.journal.db, big);
        Journal.KeptOutsideStep(sys.journal.db, sys1.journal.db, s.journal.db, {records[from].item}, big);
    }
  }

  /** An acknowledged wipe of distinct candidates removes, from the journal
      and the container, every candidate whose record delete and object
      removal were granted, whatever happened to the others: a failed wipe
      does not stop the batch. */
  lemma {:induction false} AcknowledgedWipeRemovesGranted(cfg: Config, sys: System, records: seq<MetaData>,
                                                          from: nat, reply: nat -> Reply, fx: nat -> WipeEffects)
    requires from <= |records| && sys.journal.db.Some?
    requires forall a, b :: from <= a < b < |records| ==> records[a].item != records[b].item
    ensures
      var s := WipeAll(cfg, sys, records, from, true, reply, fx).sys;
      && s.journal.db.Some?
      && forall i :: from <= i < |records| && fx(i).deleteCommit && fx(i).removeOk ==>
           records[i].item !in s.journal.db.value && RubbishPath(cfg, records[i].item) !in s.fs
    decreases |records| - from
  {
    if from < |records| {
      var m := records[from];
      var sys1 := ExecuteWipe(cfg, sys, m, fx(from)).sys;
      assert WipeAll(cfg, sys, records, from, true, reply, fx)
          == WipeAll(cfg, sys1, records, from + 1, true, reply, fx);
      assert sys1.journal.db.Some?;
      AcknowledgedWipeRemovesGranted(cfg, sys1, records, from + 1, reply, fx);
      WipeAllFrame(cfg, sys1, records, from + 1, true, reply, fx);
      var s := WipeAll(cfg, sys1, records, from + 1, true, reply, fx).sys;
      if fx(from).deleteCommit && fx(from).removeOk {
        assert m.item !in ItemsFrom(records, from + 1) by {
          forall i | from + 1 <= i < |records| ensures records[i].item != m.item {
            assert from < i;
          }
        }
        assert m.item !in sys1.journal.db.value && RubbishPath(cfg, m.item) !in sys1.fs;
        assert m.item !in s.journal.db.value && RubbishPath(cfg, m.item) !in s.fs;
      }
      forall i | from <= i < |records| && fx(i).deleteCommit && fx(i).removeOk
        ensures records[i].item !in s.journal.db.value && RubbishPath(cfg, records[i].item) !in s.fs
      {
        if i > from {
          assert from + 1 <= i < |records|;
        }
      }
    }
  }

  /** One granted wipe removes the record and its object and adds nothing. */
  lemma GrantedWipeRemoves(cfg: Config, sys: System, m: MetaData)
    requires sys.journal.db.Some?
    ensures
      var s := ExecuteWipe(cfg, sys, m, WipeEffects(true, true, true)).sys;
      && s.journal.db.Some?
      && m.item !in s.journal.db.value && RubbishPath(cfg, m.item) !in s.fs
      && s.journal.db.value.Keys <= sys.journal.db.value.Keys
      && s.fs.Keys <= sys.fs.Keys
  {
  }

}
