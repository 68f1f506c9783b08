/**
 * Facts about sequences that several modules use. Each is kept in a lemma
 * of its own so that proofs about recursive functions of sequences see
 * only its conclusion.
 */
module Seqs {

  /** A sequence is its prefix before `k`, its element at `k` and its suffix after `k`. */
  lemma SplitAt<T>(xs: seq<T>, k: nat)
    requires k < |xs|
    ensures xs == xs[..k] + [xs[k]] + xs[k + 1..]
  {
  }

  /** A non-empty sequence is its first element followed by the rest. */
  lemma HeadTail<T>(s: seq<T>)
    requires s != []
    ensures s == [s[0]] + s[1..]
  {
  }

  /** The pieces of a concatenation `p + q` with `q` non-empty. */
  lemma Pieces<T>(xs: seq<T>, p: seq<T>, q: seq<T>)
    requires xs == p + q && q != []
    ensures xs[..|p|] == p && xs[|p|] == q[0] && xs[|p| + 1..] == q[1..]
  {
  }

  /** Slicing at `i` and at `i + 1`. */
  lemma Step<T>(s: seq<T>, i: nat)
    requires i < |s|
    ensures s[i..] != [] && s[i..][0] == s[i] && s[i..][1..] == s[i + 1..]
    ensures s[..i + 1] == s[..i] + [s[i]]
  {
  }

  /** Slicing at either end. */
  lemma Ends<T>(s: seq<T>)
    ensures s[..|s|] == s && s[|s|..] == [] && s[..0] == [] && s[0..] == s
  {
  }

  /** Exchanging `x` with the element before it. */
  lemma SwapAdjacent<T>(t: seq<T>, x: T, rest: seq<T>, j: nat)
    requires 0 < j <= |t|
    ensures (t[..j] + [x] + t[j..] + rest)[j - 1 := x][j := t[j - 1]]
         == t[..j - 1] + [x] + t[j - 1..] + rest
  {
    var u := (t[..j] + [x] + t[j..] + rest)[j - 1 := x][j := t[j - 1]];
    var v := t[..j - 1] + [x] + t[j - 1..] + rest;
    assert |u| == |v|;
    forall k | 0 <= k < |u| ensures u[k] == v[k] {
      if k < j - 1 {
      } else if k == j - 1 {
      } else if k == j {
      } else if k < |t| + 1 {
      } else {
      }
    }
  }
}
