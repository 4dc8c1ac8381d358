/**
 * Row selection on sequences: what a boolean mask `df[mask]` keeps, how many
 * rows a mask's `.sum()` counts, and "an order-preserving choice of rows".
 */
module Sequences {

  /** The elements of `s` for which `p` holds, in their original order. */
  function Filter<T>(s: seq<T>, p: T -> bool): (r: seq<T>)
    ensures |r| <= |s|
    ensures forall k :: 0 <= k < |r| ==> p(r[k]) && r[k] in s
    decreases |s|
  {
    if s == [] then []
    else Filter(s[..|s| - 1], p) + (if p(s[|s| - 1]) then [s[|s| - 1]] else [])
  }

  /** The number of elements of `s` for which `p` holds. */
  function Count<T>(s: seq<T>, p: T -> bool): (n: nat)
    ensures n <= |s|
    decreases |s|
  {
    if s == [] then 0
    else Count(s[..|s| - 1], p) + (if p(s[|s| - 1]) then 1 else 0)
  }

  /**
   * `idx` lists strictly increasing positions of `src`, and the elements at
   * those positions, in order, are `out`: `out` is a subsequence of `src`.
   */
  ghost predicate Selects<T>(out: seq<T>, src: seq<T>, idx: seq<int>)
  {
    |idx| == |out| &&
    (forall k :: 0 <= k < |idx| ==> 0 <= idx[k] < |src| && out[k] == src[idx[k]]) &&
    (forall k, l :: 0 <= k < l < |idx| ==> idx[k] < idx[l])
  }

  /** Taking a prefix one element longer extends it by that element. */
  lemma PrefixStep<T>(s: seq<T>, i: int)
    requires 0 <= i < |s|
    ensures s[..i + 1][..i] == s[..i] && s[..i + 1][i] == s[i]
  {
  }

  /** Filtering a sequence with one more element. */
  lemma {:induction false} FilterSnoc<T>(s: seq<T>, x: T, p: T -> bool)
    ensures Filter(s + [x], p) == Filter(s, p) + (if p(x) then [x] else [])
  {
    assert (s + [x])[..|s|] == s;
  }

  /** Filtering a sequence with possibly one more element. */
  lemma {:induction false} FilterSnocIf<T>(s: seq<T>, x: T, b: bool, p: T -> bool)
    ensures Filter(s + (if b then [x] else []), p) == Filter(s, p) + (if b && p(x) then [x] else [])
  {
    if b {
      FilterSnoc(s, x, p);
    } else {
      assert s + [] == s;
    }
  }

  /** Removing the elements that satisfy `q` drops exactly `Count(s, q)` of them. */
  lemma {:induction false} FilterComplementLength<T>(s: seq<T>, p: T -> bool, q: T -> bool)
    requires forall x :: p(x) == !q(x)
    ensures |Filter(s, p)| == |s| - Count(s, q)
    decreases |s|
  {
    if s != [] {
      FilterComplementLength(s[..|s| - 1], p, q);
    }
  }

  /** Keeping the elements that satisfy `p` keeps `Count(s, p)` of them. */
  lemma {:induction false} FilterLength<T>(s: seq<T>, p: T -> bool)
    ensures |Filter(s, p)| == Count(s, p)
    decreases |s|
  {
    if s != [] {
      FilterLength(s[..|s| - 1], p);
    }
  }

  /** A filter whose condition holds everywhere changes nothing. */
  lemma {:induction false} FilterKeepsAll<T>(s: seq<T>, p: T -> bool)
    requires forall k :: 0 <= k < |s| ==> p(s[k])
    ensures Filter(s, p) == s
    decreases |s|
  {
    if s != [] {
      FilterKeepsAll(s[..|s| - 1], p);
    }
  }

  /** No element satisfies a condition with count zero. */
  lemma {:induction false} CountZero<T>(s: seq<T>, p: T -> bool)
    ensures Count(s, p) == 0 <==> forall k :: 0 <= k < |s| ==> !p(s[k])
    decreases |s|
  {
    if s != [] {
      CountZero(s[..|s| - 1], p);
      assert forall k :: 0 <= k < |s| - 1 ==> s[..|s| - 1][k] == s[k];
    }
  }

  /** A selection from a prefix is a selection from the whole, and it can take the last element too. */
  lemma SelectsExtend<T>(out: seq<T>, s: seq<T>, idx: seq<int>)
    requires s != [] && Selects(out, s[..|s| - 1], idx)
    ensures Selects(out, s, idx)
    ensures Selects(out + [s[|s| - 1]], s, idx + [|s| - 1])
  {
    assert forall k :: 0 <= k < |idx| ==> s[..|s| - 1][idx[k]] == s[idx[k]];
  }

  /**
   * The filter is an order-preserving selection of exactly the positions
   * whose element satisfies `p`.
   */
  lemma {:induction false} FilterSelects<T>(s: seq<T>, p: T -> bool) returns (idx: seq<int>)
    ensures Selects(Filter(s, p), s, idx)
    ensures forall i :: 0 <= i < |s| ==> (i in idx <==> p(s[i]))
    decreases |s|
  {
    if s == [] {
      idx := [];
    } else {
      var n := |s| - 1;
      var init := s[..n];
      var prev := FilterSelects(init, p);
      SelectsExtend(Filter(init, p), s, prev);
      assert forall i :: 0 <= i < n ==> init[i] == s[i];
      if p(s[n]) {
        idx := prev + [n];
        assert Filter(s, p) == Filter(init, p) + [s[n]];
      } else {
        idx := prev;
        assert Filter(s, p) == Filter(init, p);
      }
      assert n !in prev;
    }
  }

  /**
   * `f` applied to the elements of `s` whose position satisfies `keep`, in
   * their original order.
   */
  function Pick<T, U>(s: seq<T>, keep: int -> bool, f: T -> U): (r: seq<U>)
    ensures |r| <= |s|
    decreases |s|
  {
    if s == [] then []
    else Pick(s[..|s| - 1], keep, f) + (if keep(|s| - 1) then [f(s[|s| - 1])] else [])
  }

  /**
   * `Pick` takes exactly the positions that satisfy `keep`, in increasing
   * order: `idx[k]` is the position in `s` of the `k`-th element picked.
   */
  lemma {:induction false} PickPositions<T, U>(s: seq<T>, keep: int -> bool, f: T -> U) returns (idx: seq<int>)
    ensures |idx| == |Pick(s, keep, f)|
    ensures forall k :: 0 <= k < |idx| ==> 0 <= idx[k] < |s| && Pick(s, keep, f)[k] == f(s[idx[k]])
    ensures forall k, l :: 0 <= k < l < |idx| ==> idx[k] < idx[l]
    ensures forall i :: 0 <= i < |s| ==> (i in idx <==> keep(i))
    decreases |s|
  {
    if s == [] {
      idx := [];
    } else {
      var n := |s| - 1;
      var init := s[..n];
      var prev := PickPositions(init, keep, f);
      assert forall k :: 0 <= k < |prev| ==> init[prev[k]] == s[prev[k]];
      assert n !in prev;
      idx := if keep(n) then prev + [n] else prev;
    }
  }
}
