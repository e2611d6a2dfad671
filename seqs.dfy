/** Sequence helpers shared by the sender, the receivers and the merge step. */
module Seqs {
  /** Concatenation of a list of pieces, in order (`b"".join(pieces)`). */
  function Flatten<T>(pieces: seq<seq<T>>): (r: seq<T>)
  {
    if pieces == [] then [] else Flatten(pieces[..|pieces| - 1]) + pieces[|pieces| - 1]
  }

  /** Total length of a list of pieces. */
  function TotalLength<T>(pieces: seq<seq<T>>): (n: nat)
  {
    if pieces == [] then 0 else TotalLength(pieces[..|pieces| - 1]) + |pieces[|pieces| - 1]|
  }

  lemma {:induction false} FlattenLength<T>(pieces: seq<seq<T>>)
    ensures |Flatten(pieces)| == TotalLength(pieces)
  {
    if pieces != [] {
      FlattenLength(pieces[..|pieces| - 1]);
    }
  }

  lemma {:induction false} FlattenAppend<T>(a: seq<seq<T>>, b: seq<seq<T>>)
    ensures Flatten(a + b) == Flatten(a) + Flatten(b)
    decreases |b|
  {
    if b == [] {
      assert a + b == a;
    } else {
      var b' := b[..|b| - 1];
      assert (a + b)[..|a + b| - 1] == a + b';
      FlattenAppend(a, b');
    }
  }

  /** `list(range(lo, hi))`: the integers `lo, lo + 1, ..., hi - 1`, empty when `hi <= lo`. */
  function Range(lo: int, hi: int): (r: seq<int>)
    ensures |r| == if lo < hi then hi - lo else 0
    ensures forall i :: 0 <= i < |r| ==> r[i] == lo + i
    decreases hi - lo
  {
    if lo < hi then [lo] + Range(lo + 1, hi) else []
  }

  /** A property holds of every element exactly when it holds of every
      element but the last, and of the last. */
  lemma AllOfSnoc<T>(xs: seq<T>, p: seq<T>, ok: T -> bool)
    requires xs != [] && p == xs[..|xs| - 1]
    ensures (forall i :: 0 <= i < |xs| ==> ok(xs[i])) <==> (forall i :: 0 <= i < |p| ==> ok(p[i])) && ok(xs[|p|])
  {
    assert forall i :: 0 <= i < |p| ==> p[i] == xs[i];
  }

  lemma RangeSplit(lo: int, mid: int, hi: int)
    requires lo <= mid <= hi
    ensures Range(lo, hi) == Range(lo, mid) + Range(mid, hi)
  {
  }

  /** Strictly increasing sequence of integers. */
  predicate StrictlyIncreasing(s: seq<int>)
  {
    forall i, j :: 0 <= i < j < |s| ==> s[i] < s[j]
  }
}
