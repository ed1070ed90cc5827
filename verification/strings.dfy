/**
 * The string operations the program takes from Go's `strings` package
 * (HasPrefix, Contains, Replace with n = 1) and the byte-wise key order
 * the journal's store iterates in.
 */
module Strings {
  import opened Results

  predicate HasPrefix(s: string, prefix: string) {
    |prefix| <= |s| && s[..|prefix|] == prefix
  }

  /** `sub` occurs in `s` at position `i`. */
  predicate OccursAt(s: string, sub: string, i: int) {
    0 <= i && i + |sub| <= |s| && s[i..i + |sub|] == sub
  }

  /** First position at or after `from` where `sub` occurs in `s`. */
  function IndexFrom(s: string, sub: string, from: nat): (r: Option<nat>)
    requires from <= |s|
    ensures r.Some? ==> from <= r.value && OccursAt(s, sub, r.value)
    ensures r.Some? ==> forall j :: from <= j < r.value ==> !OccursAt(s, sub, j)
    ensures r.None? ==> forall j :: from <= j ==> !OccursAt(s, sub, j)
    decreases |s| - from
  {
    if from + |sub| > |s| then None
    else if s[from..from + |sub|] == sub then Some(from)
    else IndexFrom(s, sub, from + 1)
  }

  /** First occurrence of `sub` in `s`; the empty string occurs at 0. */
  function IndexOf(s: string, sub: string): (r: Option<nat>)
    ensures r.Some? ==> OccursAt(s, sub, r.value)
    ensures r.Some? ==> forall j :: 0 <= j < r.value ==> !OccursAt(s, sub, j)
    ensures r.None? <==> forall j :: !OccursAt(s, sub, j)
  {
    IndexFrom(s, sub, 0)
  }

  predicate Contains(s: string, sub: string) {
    IndexOf(s, sub).Some?
  }

  /** `strings.Replace(s, pattern, repl, 1)`: replace the first occurrence only. */
  function ReplaceFirst(s: string, pattern: string, repl: string): (r: string)
    ensures IndexOf(s, pattern).None? ==> r == s
    ensures IndexOf(s, pattern).Some? ==>
      var i := IndexOf(s, pattern).value;
      |r| == |s| - |pattern| + |repl| && r[..i] == s[..i] && r[i..i + |repl|] == repl
      && r[i + |repl|..] == s[i + |pattern|..]
  {
    match IndexOf(s, pattern)
    case None => s
    case Some(i) => s[..i] + repl + s[i + |pattern|..]
  }

  /** Concatenation regroups freely. */
  lemma ConcatAssoc(a: string, b: string, c: string)
    ensures a + b + c == a + (b + c)
  {
  }

  /** The last `n` characters of `x + y` are those of `y` when `y` has at
      least `n`. */
  lemma SuffixOfConcat(x: string, y: string, n: nat)
    requires n <= |y|
    ensures (x + y)[|x + y| - n..] == y[|y| - n..]
  {
  }

  /** Strings that end in different texts of one length differ. */
  lemma EndingsDiffer(x: string, y: string, s: string, t: string)
    requires |s| == |t| && s != t
    ensures x + s != y + t
  {
    assert (x + s)[|x + s| - |s|..] == s;
    assert (y + t)[|y + t| - |t|..] == t;
  }

  lemma ReplaceFirstOfPrefix(s: string, pattern: string)
    requires HasPrefix(s, pattern)
    ensures ReplaceFirst(s, pattern, "") == s[|pattern|..]
  {
    assert OccursAt(s, pattern, 0);
    assert IndexOf(s, pattern) == Some(0);
    assert s[..0] + "" + s[|pattern|..] == s[|pattern|..];
  }

  // ---------------------------------------------------------------------
  // Key order. The store iterates its keys in ascending byte order; for the
  // code points of a Go string encoded as UTF-8 that is the lexicographic
  // order on code points, which is what LessEq states on `char`s.

  predicate LessEq(a: string, b: string)
    decreases |a|
  {
    |a| == 0 || (|b| > 0 && (a[0] < b[0] || (a[0] == b[0] && LessEq(a[1..], b[1..]))))
  }

  predicate Less(a: string, b: string) {
    LessEq(a, b) && a != b
  }

  lemma {:induction false} LessEqTotal(a: string, b: string)
    ensures LessEq(a, b) || LessEq(b, a)
    decreases |a|
  {
    if |a| > 0 && |b| > 0 && a[0] == b[0] {
      LessEqTotal(a[1..], b[1..]);
    }
  }

  lemma {:induction false} LessEqAntisymmetric(a: string, b: string)
    requires LessEq(a, b) && LessEq(b, a)
    ensures a == b
    decreases |a|
  {
    if |a| > 0 {
      LessEqAntisymmetric(a[1..], b[1..]);
      assert a == [a[0]] + a[1..];
      assert b == [b[0]] + b[1..];
    }
  }

  lemma {:induction false} LessEqTransitive(a: string, b: string, c: string)
    requires LessEq(a, b) && LessEq(b, c)
    ensures LessEq(a, c)
    decreases |a|
  {
    if |a| > 0 && a[0] == b[0] && b[0] == c[0] {
      LessEqTransitive(a[1..], b[1..], c[1..]);
    }
  }

  lemma LessEqIsOrder()
    ensures forall a, b :: LessEq(a, b) && LessEq(b, a) ==> a == b
    ensures forall a, b, c :: LessEq(a, b) && LessEq(b, c) ==> LessEq(a, c)
    ensures forall a, b :: LessEq(a, b) || LessEq(b, a)
  {
    forall a, b | LessEq(a, b) && LessEq(b, a) {
      LessEqAntisymmetric(a, b);
    }
    forall a, b, c | LessEq(a, b) && LessEq(b, c) {
      LessEqTransitive(a, b, c);
    }
    forall a, b {
      LessEqTotal(a, b);
    }
  }
}
