/**
 * The record kept for each object in the rubbish bin, the classification of
 * the object's type, and the retention predicate. Time is counted in whole
 * seconds since the Unix epoch.
 */
module Metadata {
  import opened Results
  import opened FileSystem

  /** The four recorded object types. */
  datatype FsType = TypeFile | TypeDirectory | TypeSymlink | TypeOther

  /** The numeric constant stored for each type: 1 to 4 in declaration order. */
  function TypeCode(t: FsType): (c: nat)
    ensures 1 <= c <= 4
  {
    match t
    case TypeFile => 1
    case TypeDirectory => 2
    case TypeSymlink => 3
    case TypeOther => 4
  }

  lemma TypeCodesDistinct(s: FsType, t: FsType)
    ensures TypeCode(s) == TypeCode(t) <==> s == t
  {
  }

  datatype MetaData = MetaData(
    item: string,         // the object's name inside the container; the journal key
    origin: string,       // where the object was before it was tossed
    fsType: FsType,
    wipeoutTime: int,     // days of retention
    tossedTime: int       // seconds since the epoch
  )

  const SecondsPerDay: int := 86400

  /** The type of the object `Lstat` found (or failed to find). A symbolic
      link is classified as a link whatever it points to, and every object
      that is neither a link nor a directory counts as a file: only a failed
      `Lstat` gives TypeOther. */
  function GetType(lstat: Option<Kind>): (t: FsType)
    ensures t == TypeOther <==> lstat.None?
    ensures t == TypeSymlink <==> lstat == Some(Symlink)
    ensures t == TypeDirectory <==> lstat == Some(Directory)
    ensures t == TypeFile <==> lstat.Some? && (lstat.value == RegularFile || lstat.value == Special)
  {
    match lstat
    case None => TypeOther
    case Some(Symlink) => TypeSymlink
    case Some(Directory) => TypeDirectory
    case Some(_) => TypeFile
  }

  /** A fresh record. `itemLstat` is what `Lstat` reports for the `item`
      argument (not for `path`); `now` is the clock reading. */
  function GenerateMetadata(item: string, path: string, wipeoutTime: int,
                            itemLstat: Option<Kind>, now: int): (m: MetaData)
    ensures m.item == item && m.origin == path && m.wipeoutTime == wipeoutTime
    ensures m.tossedTime == now
    ensures m.fsType == GetType(itemLstat)
  {
    MetaData(item, path, GetType(itemLstat), wipeoutTime, now)
  }

  /** Seconds the record has spent in the bin at time `now`: counted from
      the toss, so it is negative only while the clock reads before it. */
  function TossElapsed(m: MetaData, now: int): (r: int)
    ensures m.tossedTime + r == now
    ensures r >= 0 <==> now >= m.tossedTime
  {
    now - m.tossedTime
  }

  /** The moment, in seconds since the epoch, at which the retention runs out. */
  function WipeoutDeadline(m: MetaData): int {
    m.tossedTime + m.wipeoutTime * SecondsPerDay
  }

  /** Elapsed time, as a fraction of days, has reached the retention: the
      clock has reached the record's deadline. */
  function IsWipeable(m: MetaData, now: int): (b: bool)
    ensures b <==> now >= WipeoutDeadline(m)
  {
    TossElapsed(m, now) >= m.wipeoutTime * SecondsPerDay
  }

  /** Seconds left until the retention runs out; none is left exactly when
      the record is wipeable. */
  function RemainingTime(m: MetaData, now: int): (r: int)
    ensures r == WipeoutDeadline(m) - now
    ensures r <= 0 <==> IsWipeable(m, now)
  {
    m.wipeoutTime * SecondsPerDay - TossElapsed(m, now)
  }

  /** The retention test compares whole elapsed days with the retention:
      fractions of a day never make an item wipeable early. */
  lemma WipeableIffWholeDays(m: MetaData, now: int)
    ensures IsWipeable(m, now) <==> TossElapsed(m, now) / SecondsPerDay >= m.wipeoutTime
  {
    var e := TossElapsed(m, now);
    var q := e / SecondsPerDay;
    var w := m.wipeoutTime;
    assert e == SecondsPerDay * q + e % SecondsPerDay;
    if q >= w {
      assert SecondsPerDay * q >= SecondsPerDay * w;
    } else {
      assert q <= w - 1;
      assert SecondsPerDay * q <= SecondsPerDay * (w - 1);
    }
  }

  /** Once wipeable, an item stays wipeable. */
  lemma WipeableMonotone(m: MetaData, t: int, t': int)
    requires t <= t' && IsWipeable(m, t)
    ensures IsWipeable(m, t')
  {
  }

  /** A retention of zero days (or less) makes an item wipeable at once. */
  lemma NonPositiveRetentionWipeable(m: MetaData, now: int)
    requires m.wipeoutTime <= 0 && now >= m.tossedTime
    ensures IsWipeable(m, now)
  {
  }

  // ---------------------------------------------------------------------
  // Lookup by name in a list of records

  /** The index of the first record whose item is `name` (`slices.IndexFunc`). */
  function IndexOfItem(records: seq<MetaData>, name: string): (r: Option<nat>)
    ensures r.Some? ==> r.value < |records| && records[r.value].item == name
    ensures r.Some? ==> forall i :: 0 <= i < r.value ==> records[i].item != name
    ensures r.None? <==> forall i :: 0 <= i < |records| ==> records[i].item != name
  {
    if records == [] then None
    else if records[0].item == name then Some(0)
    else match IndexOfItem(records[1..], name)
      case None => None
      case Some(i) => Some(i + 1)
  }

  /** Some record carries the name (`slices.ContainsFunc`). */
  predicate Named(records: seq<MetaData>, name: string) {
    exists i :: 0 <= i < |records| && records[i].item == name
  }

  /** The items the records carry. */
  ghost function ItemSet(records: seq<MetaData>): set<string> {
    set i | 0 <= i < |records| :: records[i].item
  }
}
