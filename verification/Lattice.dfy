/**
  Strong convergence for state-based CRDTs: if merging is commutative, associative and idempotent, then
  what replicas end up with depends only on which states they have merged, not on order or repetition.
  */
module Lattice {
  /** The three laws, on the values that satisfy `p`. */
  ghost predicate Laws<T(!new)>(m: (T, T) -> T, p: T -> bool) {
    && (forall x, y | p(x) && p(y) :: p(m(x, y)))
    && (forall x, y | p(x) && p(y) :: m(x, y) == m(y, x))
    && (forall x | p(x) :: m(x, x) == x)
    && (forall x, y, w {:trigger m(m(x, y), w)} | p(x) && p(y) && p(w) :: m(m(x, y), w) == m(x, m(y, w)))
  }

  function Fold<T>(m: (T, T) -> T, start: T, xs: seq<T>): T
    decreases |xs|
  {
    if xs == [] then start else Fold(m, m(start, xs[0]), xs[1..])
  }

  /** Merges a nonempty sequence of states from left to right. */
  function MergeAll<T>(m: (T, T) -> T, xs: seq<T>): T
    requires xs != []
  {
    Fold(m, xs[0], xs[1..])
  }

  /** Once merged, a state is there to stay: merging it again changes nothing. */
  lemma {:induction false} FoldAbsorbs<T(!new)>(m: (T, T) -> T, p: T -> bool, start: T, xs: seq<T>, y: T)
    requires Laws(m, p) && p(start) && p(y) && (forall x | x in xs :: p(x))
    requires m(start, y) == start || y in xs
    ensures p(Fold(m, start, xs)) && m(Fold(m, start, xs), y) == Fold(m, start, xs)
    decreases |xs|
  {
    if xs != [] {
      var x, next := xs[0], m(start, xs[0]);
      assert x in xs && p(next);
      assert m(next, y) == next || y in xs[1..] by {
        if m(start, y) == start {
          assert m(m(start, x), y) == m(start, m(x, y)) == m(start, m(y, x)) == m(m(start, y), x);
        } else if y == x {
          assert m(m(start, x), x) == m(start, m(x, x));
        }
      }
      FoldAbsorbs(m, p, next, xs[1..], y);
    }
  }

  /** A state that has absorbed every one of `xs` has absorbed their merge. */
  lemma {:induction false} AbsorbsFold<T(!new)>(m: (T, T) -> T, p: T -> bool, a: T, start: T, xs: seq<T>)
    requires Laws(m, p) && p(a) && p(start) && (forall x | x in xs :: p(x))
    requires m(a, start) == a && forall x | x in xs :: m(a, x) == a
    ensures m(a, Fold(m, start, xs)) == a
    decreases |xs|
  {
    if xs != [] {
      var x := xs[0];
      assert x in xs;
      assert m(m(a, start), x) == m(a, m(start, x));
      AbsorbsFold(m, p, a, m(start, x), xs[1..]);
    }
  }

  lemma Repeats<T(!new)>(m: (T, T) -> T, p: T -> bool, x: T)
    requires Laws(m, p) && p(x)
    ensures m(x, x) == x
  {
  }

  lemma MergeAllAbsorbs<T(!new)>(m: (T, T) -> T, p: T -> bool, xs: seq<T>, ys: seq<T>)
    requires Laws(m, p) && xs != [] && ys != []
    requires (forall x | x in xs :: p(x)) && (forall y | y in ys :: y in xs)
    ensures m(MergeAll(m, xs), MergeAll(m, ys)) == MergeAll(m, xs)
    ensures p(MergeAll(m, xs))
  {
    hide Laws, Fold;
    var a := MergeAll(m, xs);
    assert xs[0] in xs && forall x | x in xs[1..] :: x in xs;
    assert forall x | x in xs :: x == xs[0] || x in xs[1..];
    Repeats(m, p, xs[0]);
    forall y | y in ys ensures p(y) && m(a, y) == a {
      FoldAbsorbs(m, p, xs[0], xs[1..], y);
    }
    FoldAbsorbs(m, p, xs[0], xs[1..], xs[0]);
    assert ys[0] in ys && forall y | y in ys[1..] :: y in ys;
    AbsorbsFold(m, p, a, ys[0], ys[1..]);
  }

  /** Any two sequences with the same elements merge to the same state. */
  lemma Converges<T(!new)>(m: (T, T) -> T, p: T -> bool, xs: seq<T>, ys: seq<T>)
    requires Laws(m, p) && xs != [] && ys != []
    requires (forall x | x in xs :: p(x)) && (forall x :: x in xs <==> x in ys)
    ensures MergeAll(m, xs) == MergeAll(m, ys)
  {
    MergeAllAbsorbs(m, p, xs, ys);
    MergeAllAbsorbs(m, p, ys, xs);
    assert m(MergeAll(m, xs), MergeAll(m, ys)) == m(MergeAll(m, ys), MergeAll(m, xs));
  }
}
