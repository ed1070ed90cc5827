/**
 * The configuration the commands consume, the container-path
 * normalisation, the journal location, the bin-size walk and the choice of
 * unit for human-readable sizes.
 */
module Config {
  import opened Results
  import opened Strings
  import opened Paths

  /** The settings every command reads. The journal handle the program
      keeps here is passed to the engines separately, as part of their state. */
  datatype Config = Config(wipeoutTime: int, containerPath: string, workingDir: string)

  /** `NormalizePath`: absolute paths are kept; otherwise one leading '~' is
      dropped and the rest is joined onto the home directory, when there is
      one (`home` is what `os.UserHomeDir` yields); as `path.Join` does,
      the join drops trailing separators. The program indexes the first
      byte, so it cannot take the empty path once a home is known. */
  function NormalizePath(p: string, home: Option<string>): (r: string)
    requires p != "" || home.None?
    ensures IsAbs(p) || home.None? ==> r == p
    ensures !IsAbs(p) && home.Some? && IsAbs(home.value) ==> IsAbs(r)
    ensures !IsAbs(p) && home.Some? && home.value != "" ==>
      HasPrefix(r, TrimTrailingSlashes(home.value))
    ensures home.Some? && PlainDir(home.value) && p != "" && p[0] != '/' && p[0] != '~' ==>
      r == home.value + "/" + TrimTrailingSlashes(p)
    ensures home.Some? && PlainDir(home.value) && |p| >= 3 && p[..2] == "~/" && p[2] != '/' ==>
      r == home.value + "/" + TrimTrailingSlashes(p[2..])
    ensures home.Some? && home.value != "" && p == "~" ==> r == DropTrailingSlashes(home.value)
  {
    if IsAbs(p) then p
    else match home
      case None => p
      case Some(h) =>
        var rest := if p[0] == '~' then p[1..] else p;
        JoinUnderHome(p, h, rest);
        Join(h, rest)
  }

  /** The value of `NormalizePath` for a relative path under a home
      directory `h`, with `rest` the path less one leading '~'. */
  lemma JoinUnderHome(p: string, h: string, rest: string)
    requires p != "" && rest == (if p[0] == '~' then p[1..] else p)
    ensures IsAbs(h) ==> IsAbs(Join(h, rest))
    ensures h != "" ==> HasPrefix(Join(h, rest), TrimTrailingSlashes(h))
    ensures PlainDir(h) && p[0] != '/' && p[0] != '~' ==> Join(h, rest) == h + "/" + TrimTrailingSlashes(p)
    ensures PlainDir(h) && |p| >= 3 && p[..2] == "~/" && p[2] != '/' ==>
      Join(h, rest) == h + "/" + TrimTrailingSlashes(p[2..])
    ensures h != "" && p == "~" ==> Join(h, rest) == DropTrailingSlashes(h)
  {
    JoinUnderDir(h, rest);
    if h != "" { JoinHasPrefix(h, rest); }
    if |p| >= 3 && p[..2] == "~/" {
      assert rest[1..] == p[2..];
    }
  }

  /** A directory path written without a trailing separator. */
  predicate PlainDir(d: string) {
    d != "" && d[|d| - 1] != '/'
  }

  /** "~/x" and "x" name the same place under the home directory. */
  lemma TildeIsHome(x: string, h: string)
    requires h != "" && x != "" && x[0] != '/' && x[0] != '~'
    ensures NormalizePath("~/" + x, Some(h)) == NormalizePath(x, Some(h))
  {
    var p := "~/" + x;
    assert p[0] == '~' && !IsAbs(p);
    assert p[1..] == "/" + x;
    assert ("/" + x)[1..] == x;
    assert TrimLeadingSlashes(x) == x;
    assert TrimLeadingSlashes("/" + x) == x;
    assert NormalizePath(p, Some(h)) == Join(h, "/" + x);
  }

  /** With an absolute home directory, normalising twice changes nothing. */
  lemma NormalizePathIdempotent(p: string, h: string)
    requires p != "" && IsAbs(h)
    ensures NormalizePath(NormalizePath(p, Some(h)), Some(h)) == NormalizePath(p, Some(h))
  {
  }

  /** The journal lives in the `.journal` entry of the container. */
  function JournalPath(containerPath: string): (r: string)
    ensures Base(r) == ".journal"
    ensures IsAbs(containerPath) ==> IsAbs(r)
  {
    BaseOfJoin(containerPath, ".journal");
    Join(containerPath, ".journal")
  }

  /** The journal is the `.journal` entry directly inside the container. */
  lemma JournalPathInContainer(containerPath: string)
    requires PlainDir(containerPath)
    ensures JournalPath(containerPath) == containerPath + "/" + ".journal"
    ensures Dir(JournalPath(containerPath)) == containerPath
  {
    JoinPlainDirEntry(containerPath, ".journal");
  }

  /** Where an item of the container lives, seen from the working directory. */
  function RubbishPath(cfg: Config, item: string): string {
    Resolve(cfg.workingDir, Join(cfg.containerPath, item))
  }

  /** An entry named by a plain name keeps that name wherever the container
      is resolved, and inside an absolute container it is the container's
      entry itself. */
  lemma RubbishPathOfName(cfg: Config, item: string)
    requires IsName(item) && item != "."
    ensures Base(RubbishPath(cfg, item)) == item
    ensures IsAbs(cfg.containerPath) && PlainDir(cfg.containerPath) ==>
      RubbishPath(cfg, item) == cfg.containerPath + "/" + item
  {
    BaseOfResolvedJoin(cfg.workingDir, cfg.containerPath, item);
    JoinUnderDir(cfg.containerPath, item);
  }

  // ---------------------------------------------------------------------
  // Bin size

  /** One visit of the container walk: the path visited, whether the walk
      reported an error for it, and what `Lstat` said about it. */
  datatype WalkEntry = WalkEntry(path: string, failed: bool, isDir: bool, size: nat)

  /** An entry adds to the bin size when it is not a directory and its path
      does not mention the journal. */
  predicate Counted(e: WalkEntry) {
    !e.isDir && !Contains(e.path, ".journal")
  }

  /** Reference total: the sizes of the counted entries. */
  function CountedSize(walk: seq<WalkEntry>): nat {
    if walk == [] then 0
    else
      var last := walk[|walk| - 1];
      CountedSize(walk[..|walk| - 1]) + (if Counted(last) then last.size else 0)
  }

  /** `BinSize`: any walk error aborts the walk and is reported; otherwise the
      result is the counted total. */
  method BinSize(walk: seq<WalkEntry>) returns (r: Result<nat>)
    ensures r.Err? <==> exists i :: 0 <= i < |walk| && walk[i].failed
    ensures r.Err? ==> r.error == BinSizeFailed
    ensures r.Ok? ==> r.value == CountedSize(walk)
  {
    var size := 0;
    var i := 0;
    while i < |walk|
      invariant 0 <= i <= |walk|
      invariant forall j :: 0 <= j < i ==> !walk[j].failed
      invariant size == CountedSize(walk[..i])
    {
      assert walk[..i + 1][..i] == walk[..i];
      if walk[i].failed {
        return Err(BinSizeFailed);
      }
      if !Contains(walk[i].path, ".journal") && !walk[i].isDir {
        size := size + walk[i].size;
      }
      i := i + 1;
    }
    assert walk[..i] == walk;
    return Ok(size);
  }

  // ---------------------------------------------------------------------
  // Readable sizes

  function Pow2(k: nat): (r: nat)
    ensures r >= 1
  {
    if k == 0 then 1 else 2 * Pow2(k - 1)
  }

  lemma {:induction false} Pow2Monotone(a: nat, b: nat)
    requires a <= b
    ensures Pow2(a) <= Pow2(b)
    decreases b
  {
    if a < b {
      Pow2Monotone(a, b - 1);
    }
  }

  /** `bits.Len64`: the number of binary digits of `n`. */
  function BitLen(n: nat): (r: nat)
    ensures n == 0 <==> r == 0
  {
    if n == 0 then 0 else 1 + BitLen(n / 2)
  }

  lemma {:induction false} BitLenBounds(n: nat)
    requires n > 0
    ensures Pow2(BitLen(n) - 1) <= n < Pow2(BitLen(n))
  {
    if n > 1 {
      BitLenBounds(n / 2);
    }
  }

  lemma {:induction false} BitLenOfPow2(k: nat)
    ensures BitLen(Pow2(k)) == k + 1
  {
    if k > 0 {
      BitLenOfPow2(k - 1);
      assert Pow2(k) / 2 == Pow2(k - 1);
    }
  }

  /** The size is below `2^hi` exactly when its bit length is at most `hi`. */
  lemma BitLenRange(n: nat, lo: nat, hi: nat)
    requires n > 0
    ensures BitLen(n) - 1 >= lo ==> Pow2(lo) <= n
    ensures BitLen(n) <= hi ==> n < Pow2(hi)
    ensures n < Pow2(hi) ==> BitLen(n) <= hi
    ensures Pow2(lo) <= n ==> BitLen(n) >= lo + 1
  {
    BitLenBounds(n);
    var l := BitLen(n);
    if l - 1 >= lo { Pow2Monotone(lo, l - 1); }
    if l <= hi { Pow2Monotone(l, hi); }
    if l > hi { Pow2Monotone(hi, l - 1); }
    if l < lo + 1 { Pow2Monotone(l, lo); }
  }

  lemma Pow2Ten()
    ensures Pow2(10) == 1024
  {
  }

  const UnitLetters: string := " KMGTPE"

  /** How a size is displayed, short of the numeric rendering: in bytes, or
      divided by 1024^unit with the unit's letter. */
  datatype SizeDisplay = Bytes(n: nat) | Scaled(unit: nat, letter: char)

  /** `ReadableSize` as rubbish computes it, with the unit index
      `bits.Len64(size) / 10`. Sizes of 1024 and over always get one of the
      six units K..E, and the displayed value size / 1024^unit lies in
      [0.5, 512): a size from half of a power of 1024 up to that power is
      shown as a fraction of the next unit. */
  function ReadableSize(size: nat): (r: SizeDisplay)
    requires size < Pow2(64)
    ensures r.Bytes? <==> size < 1024
    ensures r.Bytes? ==> r.n == size
    ensures r.Scaled? ==> 1 <= r.unit <= 6 && r.letter == UnitLetters[r.unit]
    ensures r.Scaled? ==> Pow2(10 * r.unit - 1) <= size < Pow2(10 * r.unit + 9)
  {
    if size < 1024 then Bytes(size)
    else
      var unit := BitLen(size) / 10;
      UnitOfBitLen(size, unit);
      Scaled(unit, UnitLetters[unit])
  }

  /** The unit index `bits.Len64(size) / 10` of a size of at least 1024
      is one of 1..6, and the size lies in [2^(10u-1), 2^(10u+9)). */
  lemma UnitOfBitLen(size: nat, unit: nat)
    requires 1024 <= size < Pow2(64) && unit == BitLen(size) / 10
    ensures 1 <= unit <= 6 && Pow2(10 * unit - 1) <= size < Pow2(10 * unit + 9)
  {
    Pow2Ten();
    BitLenRange(size, 10, 64);
    var l := BitLen(size);
    assert 11 <= l <= 64;
    assert 10 * unit <= l <= 10 * unit + 9;
    BitLenRange(size, 10 * unit - 1, 10 * unit + 9);
  }

  /** Every size `2^(10k-1)` with k in 2..6 is half of 1024^k, yet
      `ReadableSize` displays it in unit k, as "0.5" of that unit. */
  lemma ReadableSizeHalfUnit(k: nat)
    requires 2 <= k <= 6
    ensures Pow2(10 * k - 1) < Pow2(10 * k) && Pow2(10 * k - 1) < Pow2(64)
    ensures ReadableSize(Pow2(10 * k - 1)) == Scaled(k, UnitLetters[k])
  {
    var e := 10 * k - 1;
    assert 10 * k == e + 1 && (e + 1) / 10 == k;
    assert Pow2(e + 1) == 2 * Pow2(e);
    BitLenOfPow2(e);
    Pow2Monotone(e, 63);
    assert Pow2(64) == 2 * Pow2(63);
    Pow2Ten();
    Pow2Monotone(10, e);
  }

  /** The unit choice with the index `(bits.Len64(size) - 1) / 10`: the
      largest unit that does not exceed the size, so the displayed value
      lies in [1, 1024). */
  function ReadableSizeCorrected(size: nat): (r: SizeDisplay)
    requires size < Pow2(64)
    ensures r.Bytes? <==> size < 1024
    ensures r.Bytes? ==> r.n == size
    ensures r.Scaled? ==> 1 <= r.unit <= 6 && r.letter == UnitLetters[r.unit]
    ensures r.Scaled? ==> Pow2(10 * r.unit) <= size < Pow2(10 * r.unit + 10)
  {
    if size < 1024 then Bytes(size)
    else
      var unit := (BitLen(size) - 1) / 10;
      assert 1 <= unit <= 6 && Pow2(10 * unit) <= size < Pow2(10 * unit + 10) by {
        Pow2Ten();
        BitLenRange(size, 10, 64);
        BitLenRange(size, 10 * unit, 10 * unit + 10);
      }
      Scaled(unit, UnitLetters[unit])
  }
}
