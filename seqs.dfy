/** Order-preserving sub-lists. */
module Seqs {

  /** `a` is `b` with some elements left out, the rest in their original order. */
  predicate IsSubseq<T(==)>(a: seq<T>, b: seq<T>)
    decreases |b|
  {
    if b == [] then a == []
    else (a != [] && a[0] == b[0] && IsSubseq(a[1..], b[1..])) || IsSubseq(a, b[1..])
  }

  lemma {:induction false} SubseqEmpty<T>(b: seq<T>)
    ensures IsSubseq([], b)
    decreases |b|
  {
    if b != [] {
      SubseqEmpty(b[1..]);
    }
  }

  lemma {:induction false} SubseqAppend<T>(a1: seq<T>, b1: seq<T>, a2: seq<T>, b2: seq<T>)
    requires IsSubseq(a1, b1) && IsSubseq(a2, b2)
    ensures IsSubseq(a1 + a2, b1 + b2)
    decreases |b1|
  {
    if b1 == [] {
      assert a1 + a2 == a2 && b1 + b2 == b2;
    } else {
      assert (b1 + b2)[1..] == b1[1..] + b2;
      if a1 != [] && a1[0] == b1[0] && IsSubseq(a1[1..], b1[1..]) {
        SubseqAppend(a1[1..], b1[1..], a2, b2);
        assert (a1 + a2)[1..] == a1[1..] + a2;
      } else {
        SubseqAppend(a1, b1[1..], a2, b2);
      }
    }
  }

  /**
   * The lists `f(x)` for the elements `x` of `xs`, concatenated in the order
   * of `xs`: what a loop over `xs` that appends `f(x)` each time accumulates.
   */
  function ConcatMap<T, U>(f: T -> seq<U>, xs: seq<T>): seq<U>
  {
    if xs == [] then [] else ConcatMap(f, xs[..|xs| - 1]) + f(xs[|xs| - 1])
  }

  /** Going through `xs + ys` accumulates what going through `xs` does, then what going through `ys` does. */
  lemma {:induction false} ConcatMapAppend<T, U>(f: T -> seq<U>, xs: seq<T>, ys: seq<T>)
    ensures ConcatMap(f, xs + ys) == ConcatMap(f, xs) + ConcatMap(f, ys)
    decreases |ys|
  {
    if ys == [] {
      assert xs + ys == xs;
    } else {
      var zs := xs + ys;
      assert zs[..|zs| - 1] == xs + ys[..|ys| - 1];
      assert zs[|zs| - 1] == ys[|ys| - 1];
      ConcatMapAppend(f, xs, ys[..|ys| - 1]);
    }
  }

  /** One more step of the loop over `xs`: the prefix up to `i + 1` adds what `xs[i]` contributes. */
  lemma ConcatMapStep<T, U>(f: T -> seq<U>, xs: seq<T>, i: nat)
    requires i < |xs|
    ensures ConcatMap(f, xs[..i + 1]) == ConcatMap(f, xs[..i]) + f(xs[i])
  {
    assert xs[..i + 1][..i] == xs[..i];
  }

  /** Everything accumulated comes from some element of `xs`. */
  lemma {:induction false} ConcatMapFrom<T, U>(f: T -> seq<U>, xs: seq<T>, u: U)
    requires u in ConcatMap(f, xs)
    ensures exists k :: 0 <= k < |xs| && u in f(xs[k])
    decreases |xs|
  {
    var init := xs[..|xs| - 1];
    if u in ConcatMap(f, init) {
      ConcatMapFrom(f, init, u);
      var k :| 0 <= k < |init| && u in f(init[k]);
      assert xs[k] == init[k];
    } else {
      assert u in f(xs[|xs| - 1]);
    }
  }

  /** When each element contributes at most `n` items, the total is at most `n` per element. */
  lemma {:induction false} ConcatMapBound<T, U>(f: T -> seq<U>, xs: seq<T>, n: nat)
    requires forall x :: x in xs ==> |f(x)| <= n
    ensures |ConcatMap(f, xs)| <= n * |xs|
    decreases |xs|
  {
    if xs != [] {
      ConcatMapBound(f, xs[..|xs| - 1], n);
      assert xs[|xs| - 1] in xs;
      assert n * |xs| == n * (|xs| - 1) + n;
    }
  }
}
