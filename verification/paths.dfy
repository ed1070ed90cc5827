/**
 * Slash-separated path operations in the shape of Go's `path` and
 * `path/filepath` packages: Base, Dir, Join, IsAbs, and the resolution of a
 * relative path against the working directory that the operating system
 * performs. Lexical cleaning of "." and ".." elements is not modelled.
 */
module Paths {
  import opened Results
  import opened Strings

  predicate IsAbs(p: string) {
    |p| > 0 && p[0] == '/'
  }

  predicate NoSlash(s: string) {
    forall i :: 0 <= i < |s| ==> s[i] != '/'
  }

  /** A single path element: non-empty and free of separators. */
  predicate IsName(s: string) {
    s != "" && NoSlash(s)
  }

  /** Index of the last separator in `p`. */
  function LastSlash(p: string): (r: Option<nat>)
    ensures r.Some? ==> r.value < |p| && p[r.value] == '/'
    ensures r.Some? ==> forall j :: r.value < j < |p| ==> p[j] != '/'
    ensures r.None? <==> NoSlash(p)
  {
    if p == [] then None
    else if p[|p| - 1] == '/' then Some(|p| - 1)
    else LastSlash(p[..|p| - 1])
  }

  /** Everything after the last separator of `p`: all of `p` when it has
      none, and "" when `p` ends in one. */
  function Tail(p: string): (r: string)
    ensures NoSlash(r) && |r| <= |p| && r == p[|p| - |r|..]
    ensures p != "" && p[|p| - 1] != '/' ==> r != ""
  {
    match LastSlash(p)
    case None => p
    case Some(i) => p[i + 1..]
  }

  /** `path.Base` (and `filepath.Base`): trailing separators are dropped
      first, then the last element is taken; the empty path gives "." and a
      path of separators only gives "/". */
  function Base(p: string): (r: string)
    ensures p != "" ==> r != ""
    ensures r == "/" || NoSlash(r)
    ensures p != "" && p[|p| - 1] != '/' ==> r == Tail(p)
  {
    if p == "" then "."
    else
      var t := TrimTrailingSlashes(p);
      if t == "" then "/" else Tail(t)
  }

  /** Everything before the last separator of `p`; "/" for a root entry and
      "." when `p` has no separator. */
  function Dir(p: string): string {
    match LastSlash(p)
    case None => "."
    case Some(i) => if i == 0 then "/" else p[..i]
  }

  function TrimTrailingSlashes(s: string): (r: string)
    ensures |r| <= |s| && r == s[..|r|]
    ensures r == "" || r[|r| - 1] != '/'
  {
    if s != "" && s[|s| - 1] == '/' then TrimTrailingSlashes(s[..|s| - 1]) else s
  }

  function TrimLeadingSlashes(s: string): (r: string)
    ensures |r| <= |s| && r == s[|s| - |r|..]
    ensures r == "" || r[0] != '/'
  {
    if s != "" && s[0] == '/' then TrimLeadingSlashes(s[1..]) else s
  }

  /** The end of `path.Clean`'s work: trailing separators are dropped,
      except that a path of separators only is the root "/". */
  function DropTrailingSlashes(q: string): (r: string)
    ensures r == "" <==> q == ""
    ensures r == "/" || r == "" || r[|r| - 1] != '/'
    ensures q != "" && q[|q| - 1] != '/' ==> r == q
    ensures r != "/" ==> r == TrimTrailingSlashes(q)
  {
    if q != "" && TrimTrailingSlashes(q) == "" then "/" else TrimTrailingSlashes(q)
  }

  /** `path.Join` of two elements: an empty element is ignored, the
      separators where the two meet collapse into one, and the result is
      cleaned of trailing separators. */
  function Join(a: string, b: string): (r: string)
    ensures r == "" || r == "/" || r[|r| - 1] != '/'
  {
    DropTrailingSlashes(
      if a == "" then b
      else if b == "" then a
      else TrimTrailingSlashes(a) + "/" + TrimLeadingSlashes(b))
  }

  /** Where a path names in the filesystem when the process runs in `cwd`:
      `filepath.Abs`, which joins a relative path onto the working directory
      and drops trailing separators (a path of separators only is "/"). The
      rest of its lexical cleaning, of "." and ".." elements and of doubled
      separators, is not modelled. */
  function Resolve(cwd: string, p: string): (r: string)
    ensures r == "" || r == "/" || r[|r| - 1] != '/'
    ensures IsAbs(p) ==> IsAbs(r)
    ensures IsAbs(cwd) && !IsAbs(p) ==> IsAbs(r)
  {
    DropTrailingSlashes(if IsAbs(p) then p else if p == "." then cwd else Join(cwd, p))
  }

  lemma BaseOfSlashed(prefix: string, name: string)
    requires IsName(name)
    ensures Base(prefix + "/" + name) == name
  {
    var p := prefix + "/" + name;
    assert p[|p| - 1] == name[|name| - 1];
    assert p[|prefix|] == '/';
    assert forall j :: |prefix| < j < |p| ==> p[j] == name[j - |prefix| - 1];
    assert LastSlash(p) == Some(|prefix|);
    assert p[|prefix| + 1..] == name;
  }

  lemma DirOfSlashed(prefix: string, name: string)
    requires prefix != "" && NoSlash(name)
    ensures Dir(prefix + "/" + name) == prefix
  {
    var p := prefix + "/" + name;
    assert p[|prefix|] == '/';
    assert forall j :: |prefix| < j < |p| ==> p[j] == name[j - |prefix| - 1];
    assert LastSlash(p) == Some(|prefix|);
    assert p[..|prefix|] == prefix;
  }

  /** Joining a directory with a single element yields a path whose last
      element is that element. */
  lemma BaseOfJoin(a: string, name: string)
    requires IsName(name)
    ensures Base(Join(a, name)) == name
  {
    if a != "" {
      assert TrimLeadingSlashes(name) == name;
      BaseOfSlashed(TrimTrailingSlashes(a), name);
    }
  }

  lemma IsAbsJoin(a: string, b: string)
    requires IsAbs(a) && b != ""
    ensures IsAbs(Join(a, b))
  {
  }

  /** A path that ends in a single element has that element as its base. */
  lemma BaseOfName(p: string, name: string)
    requires IsName(name) && EndsInName(p, name)
    ensures Base(p) == name
  {
    if p != name {
      var prefix := p[..|p| - |name| - 1];
      assert p == prefix + "/" + name;
      BaseOfSlashed(prefix, name);
    }
  }

  /** Appending separator-free text to a path extends its last element. */
  lemma {:induction false} TailOfAppended(p: string, t: string)
    requires NoSlash(t)
    ensures Tail(p + t) == Tail(p) + t
  {
    var q := p + t;
    match LastSlash(p)
    case None =>
      assert NoSlash(q) by {
        forall j | 0 <= j < |q| ensures q[j] != '/' {
          if j < |p| { assert q[j] == p[j]; } else { assert q[j] == t[j - |p|]; }
        }
      }
      assert LastSlash(q).None?;
    case Some(i) =>
      assert LastSlash(q) == Some(i) by {
        assert q[i] == p[i] == '/';
        var k := LastSlash(q).value;
        assert i <= k;
        assert p[k] == q[k];
      }
      assert q[i + 1..] == p[i + 1..] + t;
  }

  /** A trailing separator does not change the base of a name-ending path. */
  lemma BaseOfTrailingSlash(p: string)
    requires p != "" && p[|p| - 1] != '/'
    ensures Base(p + "/") == Base(p)
  {
    var q := p + "/";
    assert q[..|q| - 1] == p;
    assert TrimTrailingSlashes(q) == TrimTrailingSlashes(p) == p;
  }

  /** `p` is `name` or ends in a separator followed by `name`. */
  predicate EndsInName(p: string, name: string) {
    p == name || (|p| > |name| && p[|p| - |name| - 1..] == "/" + name)
  }

  lemma JoinEndsInName(a: string, name: string)
    requires IsName(name)
    ensures EndsInName(Join(a, name), name)
  {
    if a != "" {
      assert TrimLeadingSlashes(name) == name;
      var j := TrimTrailingSlashes(a) + "/" + name;
      assert j[|j| - |name| - 1..] == "/" + name;
    }
  }

  lemma {:induction false} ResolveEndsInName(cwd: string, p: string, name: string)
    requires IsName(name) && name != "." && EndsInName(p, name)
    ensures EndsInName(Resolve(cwd, p), name)
  {
    assert p[|p| - 1] == name[|name| - 1];
    assert p != "." && p != "";
    var q := if IsAbs(p) then p else Join(cwd, p);
    if !IsAbs(p) {
      JoinKeepsEnding(cwd, p, name);
    }
    assert q[|q| - 1] == name[|name| - 1];
    assert TrimTrailingSlashes(q) == q;
  }

  /** A relative path that ends in `name` still does once joined on. */
  lemma JoinKeepsEnding(cwd: string, p: string, name: string)
    requires IsName(name) && EndsInName(p, name) && p != "" && p[0] != '/'
    ensures EndsInName(Join(cwd, p), name) && Join(cwd, p)[|Join(cwd, p)| - 1] == p[|p| - 1]
  {
    if cwd != "" {
      var x := TrimTrailingSlashes(cwd) + "/";
      assert Join(cwd, p) == x + p by {
        assert TrimLeadingSlashes(p) == p;
      }
      EndsInNameAfterSlash(x, p, name);
    }
  }

  /** Text ending in a separator, followed by a path that ends in `name`,
      ends in `name`. */
  lemma EndsInNameAfterSlash(x: string, p: string, name: string)
    requires x != "" && x[|x| - 1] == '/' && EndsInName(p, name) && p != ""
    ensures EndsInName(x + p, name) && (x + p)[|x + p| - 1] == p[|p| - 1]
  {
    var q := x + p;
    if p == name {
      assert q[|q| - |name| - 1] == '/';
      assert q[|q| - |name|..] == p;
      assert q[|q| - |name| - 1..] == [q[|q| - |name| - 1]] + q[|q| - |name|..];
    } else {
      SuffixOfConcat(x, p, |name| + 1);
    }
  }

  lemma NoSlashConcat(a: string, b: string)
    requires NoSlash(a) && NoSlash(b)
    ensures NoSlash(a + b)
  {
    forall i | 0 <= i < |a + b| ensures (a + b)[i] != '/' {
      if i < |a| { assert (a + b)[i] == a[i]; } else { assert (a + b)[i] == b[i - |a|]; }
    }
  }

  /** Appending "_" and a name to a path gives a base of what followed the
      path's last separator, "_" and that name. */
  lemma BaseOfSuffixed(p: string, name: string)
    requires IsName(name)
    ensures Base(p + "_" + name) == Tail(p) + "_" + name
    ensures IsName(Tail(p) + "_" + name)
  {
    var t := "_" + name;
    assert NoSlash("_");
    NoSlashConcat("_", name);
    TailOfAppended(p, t);
    NoSlashConcat(Tail(p), t);
    var q := p + t;
    var b := Tail(p) + t;
    assert q[|q| - 1] == name[|name| - 1];
    assert Base(q) == Tail(q) == b;
    assert IsName(b);
    ConcatAssoc(p, "_", name);
    ConcatAssoc(Tail(p), "_", name);
  }

  /** A container entry keeps its name wherever the container is resolved. */
  lemma BaseOfResolvedJoin(cwd: string, c: string, k: string)
    requires IsName(k) && k != "."
    ensures Base(Resolve(cwd, Join(c, k))) == k
  {
    var j := Join(c, k);
    JoinEndsInName(c, k);
    var r := Resolve(cwd, j);
    assert EndsInName(r, k) by {
      ResolveEndsInName(cwd, j, k);
    }
    BaseOfName(r, k);
  }

  /** A name joined onto a directory without a trailing separator is the
      directory's entry of that name. */
  lemma JoinPlainDirEntry(c: string, name: string)
    requires c != "" && c[|c| - 1] != '/' && IsName(name)
    ensures Join(c, name) == c + "/" + name && Dir(Join(c, name)) == c
  {
    JoinUnderDir(c, name);
    DirOfSlashed(c, name);
  }

  /** Joining onto a directory without a trailing separator: a relative
      element is appended after one separator, one leading separator of the
      element is absorbed, and the element's trailing separators are
      dropped. */
  lemma JoinUnderDir(a: string, b: string)
    ensures a != "" && a[|a| - 1] != '/' && b != "" && b[0] != '/' ==>
      Join(a, b) == a + "/" + TrimTrailingSlashes(b)
    ensures a != "" && a[|a| - 1] != '/' && |b| >= 2 && b[0] == '/' && b[1] != '/' ==>
      Join(a, b) == a + "/" + TrimTrailingSlashes(b[1..])
  {
    if a != "" && a[|a| - 1] != '/' {
      assert TrimTrailingSlashes(a) == a;
      if b != "" && b[0] != '/' {
        assert TrimLeadingSlashes(b) == b;
        TrimTrailingKeepsHead(b);
        TrimTrailingOfConcat(a + "/", b);
      }
      if |b| >= 2 && b[0] == '/' && b[1] != '/' {
        var c := b[1..];
        assert TrimLeadingSlashes(c) == c;
        assert TrimLeadingSlashes(b) == c;
        TrimTrailingKeepsHead(c);
        TrimTrailingOfConcat(a + "/", c);
      }
    }
  }

  /** Trailing separators cannot reach a leading non-separator. */
  lemma {:induction false} TrimTrailingKeepsHead(s: string)
    requires s != "" && s[0] != '/'
    ensures TrimTrailingSlashes(s) != ""
  {
    if s[|s| - 1] == '/' {
      assert s[..|s| - 1][0] == s[0];
      TrimTrailingKeepsHead(s[..|s| - 1]);
    }
  }

  /** Trailing separators are dropped from the tail only, as long as the
      tail keeps something else. */
  lemma {:induction false} TrimTrailingOfConcat(x: string, y: string)
    requires TrimTrailingSlashes(y) != ""
    ensures TrimTrailingSlashes(x + y) == x + TrimTrailingSlashes(y)
  {
    if y[|y| - 1] == '/' {
      assert (x + y)[..|x + y| - 1] == x + y[..|y| - 1];
      TrimTrailingOfConcat(x, y[..|y| - 1]);
    }
  }

  /** A tail of separators only is dropped entirely. */
  lemma {:induction false} TrimTrailingOfSlashes(x: string, y: string)
    requires TrimTrailingSlashes(y) == ""
    ensures TrimTrailingSlashes(x + y) == TrimTrailingSlashes(x)
  {
    if y != "" {
      assert (x + y)[..|x + y| - 1] == x + y[..|y| - 1];
      assert x + y[..|y| - 1] == x + y[..|y| - 1];
      TrimTrailingOfSlashes(x, y[..|y| - 1]);
    } else {
      assert x + y == x;
    }
  }

  /** A joined path starts with the first element, less its trailing
      separators. */
  lemma JoinHasPrefix(a: string, b: string)
    requires a != ""
    ensures HasPrefix(Join(a, b), TrimTrailingSlashes(a))
  {
    var t := TrimTrailingSlashes(a);
    assert TrimTrailingSlashes(t) == t;
    if b != "" {
      var y := "/" + TrimLeadingSlashes(b);
      ConcatAssoc(t, "/", TrimLeadingSlashes(b));
      var q := t + y;
      if TrimTrailingSlashes(y) != "" {
        TrimTrailingOfConcat(t, y);
        assert TrimTrailingSlashes(q)[..|t|] == t;
      } else {
        TrimTrailingOfSlashes(t, y);
      }
    }
  }

  /** A plain name in an absolute working directory without a trailing
      separator resolves inside that directory and keeps its name. */
  lemma ResolveName(cwd: string, file: string)
    requires IsAbs(cwd) && cwd[|cwd| - 1] != '/' && IsName(file) && file != "."
    ensures Resolve(cwd, file) == cwd + "/" + file
    ensures HasPrefix(Resolve(cwd, file), cwd)
    ensures Base(Resolve(cwd, file)) == file
  {
    assert file[0] != '/';
    assert TrimLeadingSlashes(file) == file;
    assert TrimTrailingSlashes(cwd) == cwd;
    BaseOfSlashed(cwd, file);
  }
}
