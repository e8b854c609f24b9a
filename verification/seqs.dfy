/** Concatenation of a list of lists: the shape shared by the index list (faces
    appended in face order), the pre-order mesh list (subtrees appended in child
    order) and the blob (mesh blocks appended in mesh order). */
module Seqs {

  /** Sum of the lengths of the parts. */
  function TotalLength<T>(xs: seq<seq<T>>): nat
  {
    if xs == [] then 0 else TotalLength(xs[..|xs| - 1]) + |xs[|xs| - 1]|
  }

  /** The parts appended one after another, first to last. */
  function Concat<T>(xs: seq<seq<T>>): (r: seq<T>)
    ensures |r| == TotalLength(xs)
  {
    if xs == [] then [] else Concat(xs[..|xs| - 1]) + xs[|xs| - 1]
  }

  /** Appending one more part appends its elements. */
  lemma ConcatSnoc<T>(xs: seq<seq<T>>, x: seq<T>)
    ensures Concat(xs + [x]) == Concat(xs) + x
    ensures TotalLength(xs + [x]) == TotalLength(xs) + |x|
  {
    assert (xs + [x])[..|xs|] == xs;
  }

  /** Concatenation distributes over appending lists of parts. */
  lemma {:induction false} ConcatAppend<T>(a: seq<seq<T>>, b: seq<seq<T>>)
    ensures Concat(a + b) == Concat(a) + Concat(b)
  {
    if b == [] {
      assert a + b == a;
    } else {
      var b' := b[..|b| - 1];
      var x := b[|b| - 1];
      assert a + b == (a + b') + [x];
      assert b == b' + [x];
      ConcatAppend(a, b');
      ConcatSnoc(a + b', x);
      ConcatSnoc(b', x);
    }
  }

  /** Part `k` sits, unchanged, right after the parts before it: nothing is
      dropped, merged or reordered. */
  lemma ConcatSlice<T>(xs: seq<seq<T>>, k: nat)
    requires k < |xs|
    ensures TotalLength(xs[..k]) + |xs[k]| <= |Concat(xs)|
    ensures Concat(xs)[TotalLength(xs[..k])..TotalLength(xs[..k]) + |xs[k]|] == xs[k]
  {
    assert xs == (xs[..k] + [xs[k]]) + xs[k + 1..];
    ConcatSnoc(xs[..k], xs[k]);
    ConcatAppend(xs[..k] + [xs[k]], xs[k + 1..]);
  }

  /** Extending a prefix by one element. */
  lemma PrefixSnoc<T>(xs: seq<T>, i: nat)
    requires i < |xs|
    ensures xs[..i + 1] == xs[..i] + [xs[i]]
  {
  }

  lemma AppendAssoc<T>(a: seq<T>, b: seq<T>, c: seq<T>)
    ensures a + b + c == a + (b + c)
  {
  }

  lemma SliceOfAppend<T>(u: seq<T>, v: seq<T>, a: nat, b: nat)
    requires a <= b <= |v|
    ensures (u + v)[|u| + a..|u| + b] == v[a..b]
  {
  }

  /** Part `j` of the parts that follow a header sits after the header and the parts before it. */
  lemma ConcatBlock<T>(head: seq<T>, xs: seq<seq<T>>, j: nat)
    requires j < |xs|
    ensures |head| + TotalLength(xs[..j]) + |xs[j]| <= |head + Concat(xs)|
    ensures (head + Concat(xs))[|head| + TotalLength(xs[..j])..|head| + TotalLength(xs[..j]) + |xs[j]|] == xs[j]
  {
    ConcatSlice(xs, j);
    SliceOfAppend(head, Concat(xs), TotalLength(xs[..j]), TotalLength(xs[..j]) + |xs[j]|);
  }

  /** A slice holding `u + v` splits into a slice holding `u` and one holding `v`. */
  lemma SliceSplit<T>(b: seq<T>, lo: nat, hi: nat, u: seq<T>, v: seq<T>)
    requires lo <= hi <= |b| && b[lo..hi] == u + v
    ensures lo + |u| <= hi
    ensures b[lo..lo + |u|] == u && b[lo + |u|..hi] == v
  {
    assert |b[lo..hi]| == |u| + |v|;
    assert b[lo..lo + |u|] == b[lo..hi][..|u|];
    assert b[lo + |u|..hi] == b[lo..hi][|u|..];
  }

  /** A block made of two parts sits in the concatenation as those two parts,
      back to back, from the offset where the block starts. */
  lemma ConcatBlockParts<T>(xs: seq<seq<T>>, k: nat, u: seq<T>, v: seq<T>, lo: nat, mid: nat, hi: nat)
    requires k < |xs| && xs[k] == u + v
    requires lo == TotalLength(xs[..k]) && mid == lo + |u| && hi == mid + |v|
    ensures hi <= |Concat(xs)|
    ensures Concat(xs)[lo..mid] == u && Concat(xs)[mid..hi] == v
  {
    ConcatSlice(xs, k);
    SliceSplit(Concat(xs), lo, lo + |xs[k]|, u, v);
  }
}
