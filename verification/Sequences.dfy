/** Order-preserving subsequences, the shape of every filter result in the search views. */
module Sequences {

  /** `a` is obtained from `b` by deleting zero or more elements, keeping the order of the rest. */
  predicate IsSubseq<T(==)>(a: seq<T>, b: seq<T>)
    decreases |b|
  {
    if |a| == 0 then true
    else if |b| == 0 then false
    else (a[0] == b[0] && IsSubseq(a[1..], b[1..])) || IsSubseq(a, b[1..])
  }

  /** Every element of a subsequence is an element of the sequence it was taken from. */
  lemma {:induction false} SubseqMembers<T>(a: seq<T>, b: seq<T>)
    requires IsSubseq(a, b)
    ensures forall x :: x in a ==> x in b
    decreases |b|
  {
    if |a| > 0 {
      if a[0] == b[0] && IsSubseq(a[1..], b[1..]) {
        SubseqMembers(a[1..], b[1..]);
        assert a == [a[0]] + a[1..];
      } else {
        SubseqMembers(a, b[1..]);
        assert b == [b[0]] + b[1..];
      }
    }
  }

  /**
   * `r` lists elements of `ns` at the positions `idx`: `r[j] == ns[idx[j]]`.
   */
  ghost predicate Picks<T>(r: seq<T>, ns: seq<T>, idx: seq<nat>) {
    |r| == |idx| && forall j :: 0 <= j < |r| ==> idx[j] < |ns| && r[j] == ns[idx[j]]
  }

  /** Picking position `i` in front of a picking keeps it a picking. */
  lemma PicksPrepend<T>(r: seq<T>, ns: seq<T>, idx: seq<nat>, i: nat, keep: bool)
    requires Picks(r, ns, idx) && i < |ns|
    ensures Picks((if keep then [ns[i]] else []) + r, ns, (if keep then [i] else []) + idx)
  {
  }

  /**
   * One step of counting what a filter keeps. The filter's output `out` for
   * `[x] + xs` is `tx` (the image of `x`) when `x` is kept, followed by
   * `rest`, the output for `xs`. If `rest` holds the image `ty` of `y` as often as
   * `xs` holds `y` when `y` is kept (and never otherwise), so does `out` for `[x] + xs`.
   */
  lemma CountStep<T, U>(x: T, xs: seq<T>, tx: U, kx: bool, rest: seq<U>, out: seq<U>, y: T, ty: U, ky: bool)
    requires multiset(rest)[ty] == if ky then multiset(xs)[y] else 0
    requires out == (if kx then [tx] else []) + rest
    requires (x == y <==> tx == ty) && (x == y ==> kx == ky)
    ensures multiset(out)[ty] == if ky then multiset([x] + xs)[y] else 0
  {
  }

  /** Concatenation is associative: grouping three sequences either way gives the same sequence. */
  lemma ConcatAssociative<T>(a: seq<T>, b: seq<T>, c: seq<T>)
    ensures (a + b) + c == a + (b + c)
  {
  }

}
