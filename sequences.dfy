/**
 * Concatenating and summing a sequence element by element, with the facts
 * about them that the flattened chord catalog needs: appending, lengths,
 * where each element's part lands, and prefix sums.
 */
module Sequences {
  /** `f(x)` for each `x` of `xs`, concatenated in order. */
  function ConcatMap<A, B>(xs: seq<A>, f: A -> seq<B>): seq<B> {
    if |xs| == 0 then [] else ConcatMap(xs[..|xs| - 1], f) + f(xs[|xs| - 1])
  }

  /** The sum of `g(x)` over the elements `x` of `xs`. */
  function SumMap<A>(xs: seq<A>, g: A -> nat): nat {
    if |xs| == 0 then 0 else SumMap(xs[..|xs| - 1], g) + g(xs[|xs| - 1])
  }

  /** Concatenating over `a + b` is concatenating over `a`, then over `b`. */
  lemma {:induction false} ConcatMapAppend<A, B>(a: seq<A>, b: seq<A>, f: A -> seq<B>)
    ensures ConcatMap(a + b, f) == ConcatMap(a, f) + ConcatMap(b, f)
    decreases |b|
  {
    if |b| == 0 {
      assert a + b == a;
    } else {
      var b' := b[..|b| - 1];
      assert (a + b)[..|a + b| - 1] == a + b';
      ConcatMapAppend(a, b', f);
    }
  }

  /** When `g` gives the length of each part, the concatenation is `SumMap(xs, g)` long. */
  lemma {:induction false} ConcatMapLength<A, B>(xs: seq<A>, f: A -> seq<B>, g: A -> nat)
    requires forall x :: |f(x)| == g(x)
    ensures |ConcatMap(xs, f)| == SumMap(xs, g)
    decreases |xs|
  {
    if |xs| > 0 {
      ConcatMapLength(xs[..|xs| - 1], f, g);
    }
  }

  /** Element `k` of the part of `xs[j]` sits at `SumMap(xs[..j], g) + k` of the concatenation. */
  lemma ConcatMapAt<A, B>(xs: seq<A>, f: A -> seq<B>, g: A -> nat, j: nat, k: nat)
    requires forall x :: |f(x)| == g(x)
    requires j < |xs| && k < g(xs[j])
    ensures SumMap(xs[..j], g) + k < |ConcatMap(xs, f)|
    ensures ConcatMap(xs, f)[SumMap(xs[..j], g) + k] == f(xs[j])[k]
  {
    var front := xs[..j + 1];
    assert xs == front + xs[j + 1..];
    assert front[..j] == xs[..j];
    ConcatMapAppend(front, xs[j + 1..], f);
    ConcatMapLength(xs[..j], f, g);
  }

  /** The sum over a prefix, plus the next element's term, is at most the whole sum. */
  lemma {:induction false} SumMapPrefix<A>(xs: seq<A>, g: A -> nat, j: nat)
    requires j < |xs|
    ensures SumMap(xs[..j], g) + g(xs[j]) <= SumMap(xs, g)
    decreases |xs|
  {
    var n := |xs| - 1;
    if j < n {
      assert xs[..n][..j] == xs[..j];
      SumMapPrefix(xs[..n], g, j);
    } else {
      assert xs[..n] == xs[..j];
    }
  }
}
