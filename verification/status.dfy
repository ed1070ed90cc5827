/**
 * The status report: which records are shown, how each is named and
 * classified, and the totals line. The report reads the journal and never
 * writes it.
 */
module Status {
  import opened Results
  import opened Strings
  import opened Seqs
  import opened Paths
  import opened Metadata
  import Journal
  import opened Config

  /** `retrieveJournalRecords`: global wins over wipeable-only, which wins
      over the local default. */
  function RetrieveJournalRecords(j: Journal.Journal, cwd: string, global: bool, wipeableOnly: bool,
                                  now: int): (r: Result<seq<MetaData>>)
    ensures r.Err? <==> j.db.None?
    ensures r.Ok? ==> IsSubseq(r.value, Journal.List(j).value)
    ensures r.Ok? ==> forall i :: 0 <= i < |r.value| ==> r.value[i] in j.db.value.Values
    // global: every record
    ensures r.Ok? && global ==> forall k :: k in j.db.value ==> j.db.value[k] in r.value
    ensures r.Ok? && global ==> |r.value| == |j.db.value|
    // wipeable-only: exactly the wipeable records
    ensures r.Ok? && !global && wipeableOnly ==>
      && (forall i :: 0 <= i < |r.value| ==> IsWipeable(r.value[i], now))
      && (forall k :: k in j.db.value && IsWipeable(j.db.value[k], now) ==> j.db.value[k] in r.value)
    // otherwise: exactly the records whose origin starts with the working directory's path
    ensures r.Ok? && !global && !wipeableOnly ==>
      && (forall i :: 0 <= i < |r.value| ==> HasPrefix(r.value[i].origin, cwd))
      && (forall k :: k in j.db.value && HasPrefix(j.db.value[k].origin, cwd) ==> j.db.value[k] in r.value)
  {
    if global then
      match Journal.List(j)
      case Err(e) => Err(e)
      case Ok(all) => SubseqReflexive(all); Ok(all)
    else if wipeableOnly then Journal.FilterWipeable(j, now)
    else Journal.FilterPath(j, cwd)
  }

  /** `relativePath`: the first occurrence of the working directory is cut
      out of the origin's directory, one leading '/' is dropped, and the
      item is joined on. */
  function RelativePath(m: MetaData, cwd: string): (r: string)
    ensures IsName(m.item) ==> Base(r) == m.item
  {
    var rel := ReplaceFirst(Dir(m.origin), cwd, "");
    var rel := if rel != "" && rel[0] == '/' then rel[1..] else rel;
    if IsName(m.item) then BaseOfJoin(rel, m.item); Join(rel, m.item)
    else Join(rel, m.item)
  }

  /** An object tossed straight from the working directory is shown by its
      item name alone. */
  lemma RelativePathInWorkingDir(m: MetaData, cwd: string, file: string)
    requires cwd != "" && IsName(file) && m.origin == cwd + "/" + file
    ensures RelativePath(m, cwd) == DropTrailingSlashes(m.item)
    ensures m.item == "" || m.item[|m.item| - 1] != '/' ==> RelativePath(m, cwd) == m.item
  {
    DirOfSlashed(cwd, file);
    ReplaceFirstOfPrefix(cwd, cwd);
  }

  /** An object tossed from a sub-directory is shown under that
      sub-directory's path relative to the working directory. */
  lemma RelativePathInSubdir(m: MetaData, cwd: string, sub: string, file: string)
    requires cwd != "" && IsName(file) && m.origin == cwd + "/" + sub + "/" + file
    requires sub != "" && sub[0] != '/' && sub[|sub| - 1] != '/'
    requires m.item != "" && m.item[0] != '/'
    ensures RelativePath(m, cwd) == sub + "/" + TrimTrailingSlashes(m.item)
    ensures m.item[|m.item| - 1] != '/' ==> RelativePath(m, cwd) == sub + "/" + m.item
  {
    var d := cwd + "/" + sub;
    assert Dir(m.origin) == d by {
      DirOfSlashed(d, file);
    }
    var rel := ReplaceFirst(d, cwd, "");
    assert rel == "/" + sub by {
      ConcatAssoc(cwd, "/", sub);
      assert d[..|cwd|] == cwd;
      ReplaceFirstOfPrefix(d, cwd);
    }
    assert RelativePath(m, cwd) == Join(sub, m.item) by {
      assert rel[1..] == sub;
    }
    JoinUnderDir(sub, m.item);
  }

  /** How the remaining time is displayed. */
  datatype Remaining = WipeInDays(seconds: int) | WipeIn(seconds: int) | WipeableNow

  /** The classification in `String`: more than a day left, some time left,
      or none. */
  function ClassifyRemaining(seconds: int): (c: Remaining)
    ensures c.WipeInDays? <==> seconds > SecondsPerDay
    ensures c.WipeIn? <==> 0 < seconds <= SecondsPerDay
    ensures c.WipeableNow? <==> seconds <= 0
    ensures !c.WipeableNow? ==> c.seconds == seconds
  {
    if seconds > SecondsPerDay then WipeInDays(seconds)
    else if seconds > 0 then WipeIn(seconds)
    else WipeableNow
  }

  /** A record is shown as "Wipeable" exactly when it is wipeable. */
  lemma ShownWipeableIffWipeable(m: MetaData, now: int)
    ensures ClassifyRemaining(RemainingTime(m, now)).WipeableNow? <==> IsWipeable(m, now)
  {
  }

  /** One line of the listing: the displayed name, the seconds since the toss
      and the remaining-time class. */
  datatype Entry = Entry(name: string, elapsed: int, remaining: Remaining)

  datatype Report =
    | SizeOnly(size: SizeDisplay)
    | NoRubbish
    | Listing(entries: seq<Entry>, total: nat, wipeable: nat, size: SizeDisplay)

  function EntryOf(m: MetaData, cwd: string, global: bool, now: int): Entry {
    Entry(if global then m.item else RelativePath(m, cwd), TossElapsed(m, now),
          ClassifyRemaining(RemainingTime(m, now)))
  }

  /** The listing lines of `records`, in order. */
  function Entries(records: seq<MetaData>, cwd: string, global: bool, now: int): (es: seq<Entry>)
    ensures |es| == |records|
    ensures forall i :: 0 <= i < |records| ==>
      && es[i].name == (if global then records[i].item else RelativePath(records[i], cwd))
      && es[i].elapsed == TossElapsed(records[i], now)
      && (es[i].remaining.WipeableNow? <==> IsWipeable(records[i], now))
  {
    var es := seq(|records|, i requires 0 <= i < |records| => EntryOf(records[i], cwd, global, now));
    assert forall i :: 0 <= i < |records| ==> (es[i].remaining.WipeableNow? <==> IsWipeable(records[i], now)) by {
      forall i | 0 <= i < |records| {
        ShownWipeableIffWipeable(records[i], now);
      }
    }
    es
  }

  function Wrap(n: nat, m: nat): (r: nat)
    requires m > 0
    ensures r < m
  {
    n % m
  }

  /** `uint64(size)`: the bin size as the unsigned 64-bit value displayed. */
  function ToUint64(size: nat): (r: nat)
    ensures r < Pow2(64)
    ensures size < Pow2(64) ==> r == size
  {
    if size < Pow2(64) then size else Wrap(size, Pow2(64))
  }

  /** `Command`: `binSize` is the result of `BinSize` on the container. */
  function Command(j: Journal.Journal, cwd: string, binSize: Result<nat>, sizeOnly: bool, global: bool,
                   wipeableOnly: bool, now: int): (r: Result<Report>)
    ensures binSize.Err? ==> r == Err(binSize.error)
    ensures binSize.Ok? && sizeOnly ==> r == Ok(SizeOnly(ReadableSize(ToUint64(binSize.value))))
    ensures binSize.Ok? && !sizeOnly && j.db.None? ==> r == Err(ItemsRetrieveFailed(NotInitialized))
    ensures r.Ok? && r.value.Listing? ==>
      var records := RetrieveJournalRecords(j, cwd, global, wipeableOnly, now).value;
      && r.value.total == |records| == |r.value.entries| > 0
      && r.value.wipeable == CountIf(records, (m: MetaData) => IsWipeable(m, now))
      && r.value.wipeable <= r.value.total
      && (forall i :: 0 <= i < |records| ==>
            && r.value.entries[i].name == (if global then records[i].item else RelativePath(records[i], cwd))
            && (r.value.entries[i].remaining.WipeableNow? <==> IsWipeable(records[i], now)))
    ensures r.Ok? && r.value.NoRubbish? ==> RetrieveJournalRecords(j, cwd, global, wipeableOnly, now) == Ok([])
  {
    match binSize
    case Err(e) => Err(e)
    case Ok(size) =>
      if sizeOnly then Ok(SizeOnly(ReadableSize(ToUint64(size))))
      else match RetrieveJournalRecords(j, cwd, global, wipeableOnly, now)
        case Err(e) => Err(ItemsRetrieveFailed(e))
        case Ok(records) =>
          if |records| == 0 then Ok(NoRubbish)
          else
            Ok(Listing(Entries(records, cwd, global, now), |records|, CountIf(records, (m: MetaData) => IsWipeable(m, now)),
                       ReadableSize(ToUint64(size))))
  }
}
