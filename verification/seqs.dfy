/**
 * Sequence helpers: order-preserving filtering (the shape of every scoped
 * query over the journal) and reversal (positional lookup from the end).
 */
module Seqs {

  /** `a` is obtained from `b` by deleting elements, keeping the order. */
  ghost predicate IsSubseq<T>(a: seq<T>, b: seq<T>)
    decreases |b|
  {
    if a == [] then true
    else if b == [] then false
    else (a[0] == b[0] && IsSubseq(a[1..], b[1..])) || IsSubseq(a, b[1..])
  }

  lemma {:induction false} SubseqReflexive<T>(s: seq<T>)
    ensures IsSubseq(s, s)
    decreases |s|
  {
    if s != [] {
      SubseqReflexive(s[1..]);
    }
  }

  /** The elements of `s` that satisfy `p`, in their original order. */
  function Filter<T>(s: seq<T>, p: T -> bool): (r: seq<T>)
    ensures IsSubseq(r, s)
    ensures forall i :: 0 <= i < |r| ==> r[i] in s && p(r[i])
    ensures forall i :: 0 <= i < |s| && p(s[i]) ==> s[i] in r
    ensures |r| <= |s|
    ensures (forall i :: 0 <= i < |s| ==> p(s[i])) ==> r == s
  {
    if s == [] then []
    else if p(s[0]) then [s[0]] + Filter(s[1..], p)
    else Filter(s[1..], p)
  }

  /** The number of elements of `s` that satisfy `p`. */
  function CountIf<T>(s: seq<T>, p: T -> bool): (n: nat)
    ensures n == |Filter(s, p)|
    ensures n <= |s|
  {
    if s == [] then 0
    else (if p(s[0]) then 1 else 0) + CountIf(s[1..], p)
  }

  function Reverse<T>(s: seq<T>): (r: seq<T>)
    ensures |r| == |s|
    ensures forall i :: 0 <= i < |s| ==> r[i] == s[|s| - 1 - i]
  {
    if s == [] then [] else Reverse(s[1..]) + [s[0]]
  }
}
