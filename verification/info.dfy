/**
 * The info command: one record, chosen by its position in the listing or by
 * name, and the times derived from it.
 */
module Info {
  import opened Results
  import opened Seqs
  import opened Paths
  import opened Metadata
  import Journal

  /** `retrieveByPosition`: positions count from 1, negative ones from the
      end of the listing. Position 0 never reaches it: it means "by name". */
  function RetrieveByPosition(j: Journal.Journal, position: int): (r: Result<MetaData>)
    requires position != 0
    ensures j.db.None? ==> r == Err(ListFailed(NotInitialized))
    ensures j.db.Some? ==>
      var list := Journal.List(j).value;
      && ((position > |list| || -position > |list|) <==> r == Err(InvalidPosition(position)))
      && (0 < position <= |list| ==> r == Ok(list[position - 1]))
      && (0 < -position <= |list| ==> r == Ok(list[|list| + position]))
  {
    match Journal.List(j)
    case Err(e) => Err(ListFailed(e))
    case Ok(list) => AtPosition(list, position)
  }

  /** The record at `position` of `list`, counting from 1, or from the end
      when negative. */
  function AtPosition(list: seq<MetaData>, position: int): (r: Result<MetaData>)
    requires position != 0
    ensures (position > |list| || -position > |list|) <==> r == Err(InvalidPosition(position))
    ensures 0 < position <= |list| ==> r == Ok(list[position - 1])
    ensures 0 < -position <= |list| ==> r == Ok(list[|list| + position])
  {
    var i := if position < 0 then -position else position;
    if i > |list| then Err(InvalidPosition(position))
    else if position < 0 then Ok(Reverse(list)[i - 1])
    else Ok(list[i - 1])
  }

  /** Position p and position p - n - 1 (n records) name the same record. */
  lemma PositionFromEitherEnd(j: Journal.Journal, p: int)
    requires j.db.Some? && 1 <= p <= |j.db.value|
    ensures RetrieveByPosition(j, p) == RetrieveByPosition(j, p - |j.db.value| - 1)
  {
    var list := Journal.List(j).value;
    AtPositionFromEitherEnd(list, p);
  }

  lemma AtPositionFromEitherEnd(list: seq<MetaData>, p: int)
    requires 1 <= p <= |list|
    ensures AtPosition(list, p) == AtPosition(list, p - |list| - 1)
  {
    var q := p - |list| - 1;
    assert 0 < -q <= |list| && |list| + q == p - 1;
  }

  /** `retrieveByName`: only the last element of the argument is looked up. */
  function RetrieveByName(j: Journal.Journal, name: string): (r: Result<MetaData>)
    ensures r.Ok? <==> j.db.Some? && Base(name) in j.db.value
    ensures r.Ok? ==> r.value == j.db.value[Base(name)]
    ensures r.Err? ==> r == Err(GetFailed(Journal.Get(j, Base(name)).error))
  {
    match Journal.Get(j, Base(name))
    case Err(e) => Err(GetFailed(e))
    case Ok(m) => Ok(m)
  }

  /** Naming an item by any path that ends in it finds the same record. */
  lemma ByNameIgnoresDirectory(j: Journal.Journal, dir: string, item: string)
    requires IsName(item)
    ensures RetrieveByName(j, Join(dir, item)) == RetrieveByName(j, item)
  {
    BaseOfJoin(dir, item);
  }

  /** A trailing separator on the argument finds the same record. */
  lemma ByNameIgnoresTrailingSlash(j: Journal.Journal, item: string)
    requires IsName(item)
    ensures RetrieveByName(j, item + "/") == RetrieveByName(j, item)
  {
    BaseOfTrailingSlash(item);
    BaseOfName(item, item);
  }

  /** What the command shows, in seconds since the epoch. */
  datatype Details = Details(item: string, origin: string, tossedAt: int, wipeableAt: int,
                             remaining: nat, overdue: bool)

  /** The details of a record at time `now`: the remaining time is shown as
      its magnitude, marked overdue when negative. */
  function DetailsOf(m: MetaData, now: int): (d: Details)
    ensures d.item == m.item && d.origin == m.origin && d.tossedAt == m.tossedTime
    ensures d.wipeableAt == m.tossedTime + m.wipeoutTime * SecondsPerDay
    ensures d.overdue <==> now > d.wipeableAt
    ensures d.remaining == if d.overdue then now - d.wipeableAt else d.wipeableAt - now
  {
    var rtime := RemainingTime(m, now);
    Details(m.item, m.origin, m.tossedTime, m.tossedTime + m.wipeoutTime * SecondsPerDay,
            if rtime >= 0 then rtime else -rtime, rtime < 0)
  }

  /** An overdue record is wipeable; a record not yet wipeable is never
      overdue, and one whose retention ends exactly now is both wipeable and
      not overdue. */
  lemma OverdueMeansWipeable(m: MetaData, now: int)
    ensures DetailsOf(m, now).overdue ==> IsWipeable(m, now)
    ensures !IsWipeable(m, now) ==> !DetailsOf(m, now).overdue && DetailsOf(m, now).remaining > 0
    ensures IsWipeable(m, now) && !DetailsOf(m, now).overdue ==> DetailsOf(m, now).remaining == 0
  {
  }

  /** `Command`: a nonzero position selects by position; otherwise the first
      argument names the item. */
  function Command(j: Journal.Journal, args: seq<string>, position: int, now: int): (r: Result<Details>)
    ensures position == 0 && args == [] ==> r == Err(ItemNameRequired)
    ensures position != 0 ==>
      (r.Ok? <==> RetrieveByPosition(j, position).Ok?)
      && (r.Ok? ==> r.value == DetailsOf(RetrieveByPosition(j, position).value, now))
    ensures position == 0 && args != [] ==>
      (r.Ok? <==> j.db.Some? && Base(args[0]) in j.db.value)
      && (r.Ok? ==> r.value == DetailsOf(j.db.value[Base(args[0])], now))
  {
    if position != 0 then
      var m :- RetrieveByPosition(j, position);
      Ok(DetailsOf(m, now))
    else if |args| < 1 then Err(ItemNameRequired)
    else
      var m :- RetrieveByName(j, args[0]);
      Ok(DetailsOf(m, now))
  }
}
