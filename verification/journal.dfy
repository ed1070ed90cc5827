/**
 * The journal: a persistent key/value store from an item's name in the
 * container to its MetaData record. The on-disk store is abstracted to the
 * map it holds; `db == None` is a journal whose store was never opened.
 * Every mutating operation takes `commit`, whether the store's transaction
 * commits; an `Err` result leaves the journal as it was.
 */
module Journal {
  import opened Results
  import opened Strings
  import opened Seqs
  import opened Paths
  import opened FileSystem
  import opened Metadata

  type Db = map<string, MetaData>

  datatype Journal = Journal(path: string, db: Option<Db>)

  /** Every record is stored under its own `item`. */
  predicate WellKeyed(db: Db) {
    forall k :: k in db ==> db[k].item == k
  }

  predicate Valid(j: Journal) {
    j.db.Some? ==> WellKeyed(j.db.value)
  }

  /** `db'` is `db` with `m` stored under `k` and nothing else changed. */
  ghost predicate StoredAt(db: Db, db': Db, k: string, m: MetaData) {
    && k in db' && db'[k] == m
    && (forall x :: x != k ==> (x in db <==> x in db'))
    && (forall x :: x != k && x in db ==> db'[x] == db[x])
  }

  /** A store at one key keeps every other key's record. */
  lemma StoredAtKeeps(db: Db, db': Db, k: string, m: MetaData, x: string)
    requires StoredAt(db, db', k, m) && x != k && x in db
    ensures x in db' && db'[x] == db[x]
  {
  }

  /** `db'` is `db` without key `k` and nothing else changed. */
  ghost predicate RemovedAt(db: Db, db': Db, k: string) {
    && k !in db'
    && (forall x :: x != k ==> (x in db <==> x in db'))
    && (forall x :: x != k && x in db ==> db'[x] == db[x])
  }

  /** Removing a key that was not there changes nothing. */
  lemma RemovedAbsentIsSame(db: Db, db': Db, k: string)
    requires RemovedAt(db, db', k) && k !in db
    ensures db' == db
  {
    assert db'.Keys == db.Keys;
  }

  /** The journals agree on whether they are open and, if so, on every key
      outside `keys`. */
  ghost predicate KeptOutside(db: Option<Db>, db': Option<Db>, keys: set<string>) {
    && (db.Some? <==> db'.Some?)
    && (db.Some? ==> forall k :: k !in keys ==>
         (k in db.value <==> k in db'.value) && (k in db.value ==> db.value[k] == db'.value[k]))
  }

  /** A store at one key keeps everything outside that key. */
  lemma StoredAtKeptOutside(db: Db, db': Db, k: string, m: MetaData)
    requires StoredAt(db, db', k, m)
    ensures KeptOutside(Some(db), Some(db'), {k})
  {
  }

  /** A removal at one key keeps everything outside that key. */
  lemma RemovedAtKeptOutside(db: Db, db': Db, k: string)
    requires RemovedAt(db, db', k)
    ensures KeptOutside(Some(db), Some(db'), {k})
  {
  }

  lemma KeptOutsideStep(a: Option<Db>, b: Option<Db>, c: Option<Db>, small: set<string>, big: set<string>)
    requires small <= big && KeptOutside(a, b, small) && KeptOutside(b, c, big)
    ensures KeptOutside(a, c, big)
  {
  }

  // ---------------------------------------------------------------------
  // Key order

  predicate StrictlyAscending(s: seq<string>) {
    forall i, j :: 0 <= i < j < |s| ==> Less(s[i], s[j])
  }

  predicate IsLeast(m: string, ks: set<string>) {
    m in ks && forall k :: k in ks ==> LessEq(m, k)
  }

  lemma {:induction false} LeastExists(ks: set<string>)
    requires ks != {}
    ensures exists m :: IsLeast(m, ks)
    decreases |ks|
  {
    var x :| x in ks;
    if ks == {x} {
      assert LessEq(x, x) by { LessEqTotal(x, x); }
      assert IsLeast(x, ks);
    } else {
      LeastExists(ks - {x});
      var m :| IsLeast(m, ks - {x});
      LessEqTotal(m, x);
      if LessEq(m, x) {
        assert IsLeast(m, ks);
      } else {
        forall k | k in ks ensures LessEq(x, k) {
          if k == x {
            LessEqTotal(x, x);
          } else {
            LessEqTransitive(x, m, k);
          }
        }
        assert IsLeast(x, ks);
      }
    }
  }

  /** The keys in ascending order, each exactly once. */
  function SortedKeys(ks: set<string>): (r: seq<string>)
    ensures |r| == |ks|
    ensures forall k :: k in ks <==> k in r
    ensures StrictlyAscending(r)
    decreases |ks|
  {
    if ks == {} then []
    else
      LeastExists(ks);
      LessEqIsOrder();
      var m :| IsLeast(m, ks);
      [m] + SortedKeys(ks - {m})
  }

  lemma HeadIsMember(s: seq<string>)
    requires s != []
    ensures s[0] in s
  {
  }

  /** A set of keys has only one ascending enumeration. */
  lemma {:induction false} AscendingIsUnique(a: seq<string>, b: seq<string>)
    requires StrictlyAscending(a) && StrictlyAscending(b)
    requires forall k :: k in a <==> k in b
    ensures a == b
    decreases |a|
  {
    if a == [] {
      if b != [] {
        HeadIsMember(b);
        assert false;
      }
    } else {
      assert a[0] in b;
      assert b != [];
      assert b[0] in a;
      if a[0] != b[0] {
        var i :| 0 <= i < |a| && a[i] == b[0];
        var j :| 0 <= j < |b| && b[j] == a[0];
        assert Less(a[0], a[i]) && Less(b[0], b[j]);
        LessEqAntisymmetric(a[0], b[0]);
      }
      forall k ensures k in a[1..] <==> k in b[1..] {
        if k in a[1..] {
          var i :| 1 <= i < |a| && a[i] == k;
          assert Less(a[0], k);
          assert k in b;
        }
        if k in b[1..] {
          var i :| 1 <= i < |b| && b[i] == k;
          assert Less(b[0], k);
          assert k in a;
        }
      }
      AscendingIsUnique(a[1..], b[1..]);
      assert a == [a[0]] + a[1..];
      assert b == [b[0]] + b[1..];
    }
  }

  /** The `item` names of a sequence of records. */
  function Items(s: seq<MetaData>): (r: seq<string>)
    ensures |r| == |s| && forall i :: 0 <= i < |s| ==> r[i] == s[i].item
  {
    seq(|s|, i requires 0 <= i < |s| => s[i].item)
  }

  // ---------------------------------------------------------------------
  // Opening and closing

  /** `Load`: `stored` is what opening the store at `path` yields (`None`
      when it cannot be opened). An already open journal stays as it is. */
  function Load(j: Journal, stored: Option<Db>): (r: Result<Journal>)
    ensures j.path == "" ==> r == Err(JournalPathNotSet)
    ensures j.path != "" && j.db.Some? ==> r == Ok(j)
    ensures j.path != "" && j.db.None? ==>
      (r.Ok? <==> stored.Some?) && (r.Ok? ==> r.value == Journal(j.path, stored))
      && (r.Err? ==> r.error == OpenFailed)
  {
    if j.path == "" then Err(JournalPathNotSet)
    else if j.db.Some? then Ok(j)
    else match stored
      case None => Err(OpenFailed)
      case Some(db) => Ok(Journal(j.path, Some(db)))
  }

  /** `Close`: a journal that was never opened closes without error;
      `closeOk` is whether the store's own close succeeds. */
  function Close(j: Journal, closeOk: bool): (r: Outcome)
    ensures j.db.None? ==> r == Pass
    ensures r.Fail? <==> j.db.Some? && !closeOk
  {
    if j.db.Some? && !closeOk then Fail(CloseFailed) else Pass
  }

  // ---------------------------------------------------------------------
  // Writes

  /** `register`: store `m` under its own `item`, replacing any previous
      record with that key. */
  function Register(j: Journal, m: MetaData, commit: bool): (r: Result<Journal>)
    ensures j.db.None? ==> r == Err(NotInitialized)
    ensures r.Ok? <==> j.db.Some? && commit
    ensures r.Ok? ==>
      r.value.path == j.path && r.value.db.Some? && StoredAt(j.db.value, r.value.db.value, m.item, m)
    ensures r.Ok? && Valid(j) ==> Valid(r.value)
  {
    match j.db
    case None => Err(NotInitialized)
    case Some(db) => if commit then Ok(Journal(j.path, Some(db[m.item := m]))) else Err(TxnFailed)
  }

  /** `Add`: record `item` as a toss of `file`, with `file` made absolute
      against `cwd`, the type taken from `itemLstat` (what `Lstat` reports
      for `item`) and the tossed time `now`. */
  function Add(j: Journal, item: string, file: string, wipeoutTime: int, cwd: string,
               itemLstat: Option<Kind>, now: int, commit: bool): (r: Result<Journal>)
    ensures r.Ok? <==> j.db.Some? && commit
    ensures r.Ok? ==> r.value.db.Some? && item in r.value.db.value
    ensures r.Ok? ==>
      var m := r.value.db.value[item];
      m.item == item && m.origin == Resolve(cwd, file) && m.wipeoutTime == wipeoutTime
      && m.tossedTime == now && m.fsType == GetType(itemLstat)
    ensures r.Ok? ==> StoredAt(j.db.value, r.value.db.value, item, r.value.db.value[item])
    ensures r.Ok? && Valid(j) ==> Valid(r.value)
  {
    Register(j, GenerateMetadata(item, Resolve(cwd, file), wipeoutTime, itemLstat, now), commit)
  }

  /** `Delete`: remove the record stored under `k`; deleting an absent key
      succeeds. */
  function Delete(j: Journal, k: string, commit: bool): (r: Result<Journal>)
    ensures j.db.None? ==> r == Err(NotInitialized)
    ensures r.Ok? <==> j.db.Some? && commit
    ensures r.Ok? ==>
      r.value.path == j.path && r.value.db.Some? && RemovedAt(j.db.value, r.value.db.value, k)
    ensures r.Ok? && Valid(j) ==> Valid(r.value)
  {
    match j.db
    case None => Err(NotInitialized)
    case Some(db) => if commit then Ok(Journal(j.path, Some(db - {k}))) else Err(TxnFailed)
  }

  /** `Clear`: remove every record in one transaction. */
  function Clear(j: Journal, commit: bool): (r: Result<Journal>)
    ensures j.db.None? ==> r == Err(NotInitialized)
    ensures r.Ok? <==> j.db.Some? && commit
    ensures r.Ok? ==> r.value.path == j.path && r.value.db == Some(map[])
  {
    match j.db
    case None => Err(NotInitialized)
    case Some(_) => if commit then Ok(Journal(j.path, Some(map[]))) else Err(TxnFailed)
  }

  // ---------------------------------------------------------------------
  // Reads

  function Get(j: Journal, k: string): (r: Result<MetaData>)
    ensures j.db.None? ==> r == Err(NotInitialized)
    ensures j.db.Some? ==> (r.Ok? <==> k in j.db.value)
    ensures j.db.Some? && k !in j.db.value ==> r == Err(KeyNotFound(k))
    ensures r.Ok? ==> r.value == j.db.value[k]
  {
    match j.db
    case None => Err(NotInitialized)
    case Some(db) => if k in db then Ok(db[k]) else Err(KeyNotFound(k))
  }

  /** The number of records: one per key. */
  function Count(j: Journal): (r: Result<nat>)
    ensures j.db.None? ==> r == Err(NotInitialized)
    ensures j.db.Some? ==> r == Ok(|j.db.value.Keys|)
  {
    match j.db
    case None => Err(NotInitialized)
    case Some(db) => Ok(|db|)
  }

  /** `List`: every record once, in ascending key order. */
  function List(j: Journal): (r: Result<seq<MetaData>>)
    ensures j.db.None? ==> r == Err(NotInitialized)
    ensures j.db.Some? ==> r.Ok? && |r.value| == |j.db.value|
    ensures r.Ok? ==> forall i :: 0 <= i < |r.value| ==> r.value[i] in j.db.value.Values
    ensures r.Ok? ==> forall k :: k in j.db.value ==> j.db.value[k] in r.value
    ensures r.Ok? && WellKeyed(j.db.value) ==>
      StrictlyAscending(Items(r.value)) && (forall k :: k in j.db.value <==> k in Items(r.value))
  {
    match j.db
    case None => Err(NotInitialized)
    case Some(db) =>
      ListedHoldsEvery(db);
      if WellKeyed(db) then ListedIsAscending(db); Ok(Listed(db)) else Ok(Listed(db))
  }

  /** The records of `db` in ascending key order. */
  function Listed(db: Db): (list: seq<MetaData>)
    ensures |list| == |db|
    ensures forall i :: 0 <= i < |list| ==> list[i] in db.Values
  {
    var keys := SortedKeys(db.Keys);
    seq(|keys|, i requires 0 <= i < |keys| => db[keys[i]])
  }

  lemma ListedHoldsEvery(db: Db)
    ensures forall k :: k in db ==> db[k] in Listed(db)
  {
    var keys := SortedKeys(db.Keys);
    var list := Listed(db);
    forall k | k in db ensures db[k] in list {
      var i :| 0 <= i < |keys| && keys[i] == k;
      assert list[i] == db[k];
    }
  }

  lemma ListedIsAscending(db: Db)
    requires WellKeyed(db)
    ensures Items(Listed(db)) == SortedKeys(db.Keys)
  {
  }

  /** `GetAllItems` iterates the store exactly as `List` does. */
  function GetAllItems(j: Journal): (r: Result<seq<MetaData>>)
    ensures j.db.None? ==> r == Err(NotInitialized)
    ensures j.db.Some? ==> r.Ok? && |r.value| == |j.db.value|
    ensures r.Ok? ==> forall k :: k in j.db.value ==> j.db.value[k] in r.value
    ensures r.Ok? ==> forall i :: 0 <= i < |r.value| ==> r.value[i] in j.db.value.Values
  {
    List(j)
  }

  /** `GetContainerItems`: the records whose origin starts with `container`,
      in list order. */
  function GetContainerItems(j: Journal, container: string): (r: Result<seq<MetaData>>)
    ensures j.db.None? ==> r == Err(NotInitialized)
    ensures j.db.Some? ==> r.Ok? && IsSubseq(r.value, List(j).value)
    ensures r.Ok? ==> forall i :: 0 <= i < |r.value| ==>
      r.value[i] in j.db.value.Values && HasPrefix(r.value[i].origin, container)
    ensures r.Ok? ==>
      forall k :: k in j.db.value && HasPrefix(j.db.value[k].origin, container) ==> j.db.value[k] in r.value
  {
    if j.db.None? then Err(NotInitialized)
    else Ok(Filter(GetAllItems(j).value, (m: MetaData) => HasPrefix(m.origin, container)))
  }

  /** Local scope. The store's own path filter is not part of this model;
      it is taken to be the origin-prefix filter of `GetContainerItems`. */
  function FilterPath(j: Journal, dir: string): (r: Result<seq<MetaData>>)
    ensures j.db.None? ==> r == Err(NotInitialized)
    ensures j.db.Some? ==> r.Ok? && IsSubseq(r.value, List(j).value)
    ensures r.Ok? ==> forall i :: 0 <= i < |r.value| ==>
      r.value[i] in j.db.value.Values && HasPrefix(r.value[i].origin, dir)
    ensures r.Ok? ==>
      forall k :: k in j.db.value && HasPrefix(j.db.value[k].origin, dir) ==> j.db.value[k] in r.value
  {
    GetContainerItems(j, dir)
  }

  /** The origin filter compares strings, not directories: an object tossed
      from `/w2`, a sibling of `/w` whose name extends it, is local to `/w`
      although its origin does not lie under `/w/`. */
  lemma SiblingDirectoryIsLocal()
    ensures var m := MetaData("x", "/w2/x", TypeFile, 30, 0);
      var j := Journal("/c/.journal", Some(map["x" := m]));
      && !HasPrefix(m.origin, "/w/")
      && FilterPath(j, "/w").Ok? && m in FilterPath(j, "/w").value
  {
    var m := MetaData("x", "/w2/x", TypeFile, 30, 0);
    var j := Journal("/c/.journal", Some(map["x" := m]));
    assert j.db.value["x"] == m;
    assert HasPrefix(m.origin, "/w") by { assert m.origin[..2] == "/w"; }
    assert !HasPrefix(m.origin, "/w/") by { assert m.origin[2] != '/'; }
  }

  /** The wipeable records at time `now`, in list order. */
  function FilterWipeable(j: Journal, now: int): (r: Result<seq<MetaData>>)
    ensures j.db.None? ==> r == Err(NotInitialized)
    ensures j.db.Some? ==> r.Ok? && IsSubseq(r.value, List(j).value)
    ensures r.Ok? ==> forall i :: 0 <= i < |r.value| ==>
      r.value[i] in j.db.value.Values && IsWipeable(r.value[i], now)
    ensures r.Ok? ==>
      forall k :: k in j.db.value && IsWipeable(j.db.value[k], now) ==> j.db.value[k] in r.value
  {
    var all :- List(j);
    Ok(Filter(all, (m: MetaData) => IsWipeable(m, now)))
  }

  // ---------------------------------------------------------------------
  // Properties relating the operations

  /** A registered record is what `Get` returns for its key. */
  lemma GetAfterRegister(j: Journal, m: MetaData, j': Journal, k: string)
    requires Register(j, m, true) == Ok(j')
    ensures Get(j', m.item) == Ok(m)
    ensures k != m.item ==> Get(j', k) == Get(j, k)
  {
  }

  /** After `Delete(k)`, `k` is not found and every other key is unaffected. */
  lemma GetAfterDelete(j: Journal, k: string, j': Journal, x: string)
    requires Delete(j, k, true) == Ok(j')
    ensures Get(j', k) == Err(KeyNotFound(k))
    ensures x != k ==> Get(j', x) == Get(j, x)
  {
  }

  /** Registering a new key adds one to the count; deleting a present key
      removes one; clearing leaves none. */
  lemma CountAfterWrites(j: Journal, m: MetaData, k: string)
    requires j.db.Some?
    ensures m.item !in j.db.value ==>
      Count(Register(j, m, true).value) == Ok(Count(j).value + 1)
    ensures k in j.db.value ==>
      Count(Delete(j, k, true).value) == Ok(Count(j).value - 1)
    ensures Count(Clear(j, true).value) == Ok(0)
  {
    var db := j.db.value;
    if m.item !in db {
      var db' := Register(j, m, true).value.db.value;
      assert db' == db[m.item := m];
      assert |db'.Keys| == |db.Keys| + 1 by {
        assert db'.Keys == db.Keys + {m.item};
      }
    }
    if k in db {
      var db' := Delete(j, k, true).value.db.value;
      assert db' == db - {k};
      assert |db'.Keys| == |db.Keys| - 1 by {
        assert db'.Keys == db.Keys - {k};
      }
    }
  }

  /** The listing is determined by the keys alone: any strictly ascending
      enumeration of a well-keyed store's records is the one `List` gives. */
  lemma ListIsTheAscendingEnumeration(j: Journal, s: seq<MetaData>)
    requires j.db.Some? && WellKeyed(j.db.value)
    requires forall i :: 0 <= i < |s| ==> s[i] in j.db.value.Values
    requires forall k :: k in j.db.value ==> k in Items(s)
    requires StrictlyAscending(Items(s))
    ensures List(j) == Ok(s)
  {
    var db := j.db.value;
    var keys := SortedKeys(db.Keys);
    forall k | k in Items(s) ensures k in keys {
      var i :| 0 <= i < |s| && Items(s)[i] == k;
      var x :| x in db && db[x] == s[i];
    }
    AscendingIsUnique(Items(s), keys);
    var l := Listed(db);
    forall i | 0 <= i < |s| ensures s[i] == l[i] {
      assert Items(s)[i] == keys[i];
      var x :| x in db && db[x] == s[i];
    }
    assert s == l;
    assert List(j) == Ok(l);
  }
}
