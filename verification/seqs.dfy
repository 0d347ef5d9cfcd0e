/** Sequence helpers: concatenating mapped sub-sequences and summing reals. */
module Seqs {

  /** The concatenation of `f(x)` for each `x` of `xs`, in order: the shape of a
      Python loop that appends zero or more items per iteration. */
  function FlatMap<A, B>(xs: seq<A>, f: A -> seq<B>): seq<B>
  {
    if |xs| == 0 then [] else f(xs[0]) + FlatMap(xs[1..], f)
  }

  lemma {:induction false} InFlatMap<A, B>(xs: seq<A>, f: A -> seq<B>, y: B)
    ensures y in FlatMap(xs, f) <==> exists x :: x in xs && y in f(x)
  {
    if |xs| > 0 {
      InFlatMap(xs[1..], f, y);
      assert forall x :: x in xs <==> x == xs[0] || x in xs[1..];
    }
  }

  /** `f(x)` summed over `xs` from left to right. */
  function Sum<A>(xs: seq<A>, f: A -> real): real
  {
    if |xs| == 0 then 0.0 else f(xs[0]) + Sum(xs[1..], f)
  }

  lemma {:induction false} SumCongruent<A>(xs: seq<A>, f: A -> real, g: A -> real)
    requires forall x :: x in xs ==> f(x) == g(x)
    ensures Sum(xs, f) == Sum(xs, g)
  {
    if |xs| > 0 {
      assert xs[0] in xs;
      assert forall x :: x in xs[1..] ==> x in xs;
      SumCongruent(xs[1..], f, g);
    }
  }

  lemma {:induction false} SumNegated<A>(xs: seq<A>, f: A -> real, g: A -> real)
    requires forall x :: x in xs ==> g(x) == -f(x)
    ensures Sum(xs, g) == -Sum(xs, f)
  {
    if |xs| > 0 {
      assert xs[0] in xs;
      assert forall x :: x in xs[1..] ==> x in xs;
      SumNegated(xs[1..], f, g);
    }
  }

  lemma {:induction false} SumNonNegative<A>(xs: seq<A>, f: A -> real)
    requires forall x :: x in xs ==> f(x) >= 0.0
    ensures Sum(xs, f) >= 0.0
  {
    if |xs| > 0 {
      assert xs[0] in xs;
      assert forall x :: x in xs[1..] ==> x in xs;
      SumNonNegative(xs[1..], f);
    }
  }
}
