/** The positive-negative counter (`crdt/pncounter.rs`): two grow-only counters. */
module PNCounter {
  import opened Core
  import G = GCounter
  import Lattice

  datatype Pair = Pair(positive: G.Components, negative: G.Components)

  function Merge(a: Pair, b: Pair): Pair {
    Pair(G.Merge(a.positive, b.positive), G.Merge(a.negative, b.negative))
  }

  /** The difference of the two totals, each of which must fit 64 bits on its own. */
  ghost function Value(p: Pair): Result<int> {
    if G.Total(p.positive) >= U64_LIMIT || G.Total(p.negative) >= U64_LIMIT then Err(ValueOverflow)
    else Ok(G.Total(p.positive) - G.Total(p.negative))
  }

  lemma MergeLaws()
    ensures Lattice.Laws(Merge, (_: Pair) => true)
  {
    hide G.Merge;
    forall a: Pair, b: Pair ensures Merge(a, b) == Merge(b, a) {
      G.Commutes(a.positive, b.positive);
      G.Commutes(a.negative, b.negative);
    }
    forall a: Pair ensures Merge(a, a) == a {
      G.Repeats(a.positive);
      G.Repeats(a.negative);
    }
    forall a: Pair, b: Pair, c: Pair ensures Merge(Merge(a, b), c) == Merge(a, Merge(b, c)) {
      G.Associates(a.positive, b.positive, c.positive);
      G.Associates(a.negative, b.negative, c.negative);
    }
  }

  /** Replicas that have merged the same states are equal and read the same value. */
  lemma PairsConverge(xs: seq<Pair>, ys: seq<Pair>)
    requires xs != [] && ys != [] && forall x :: x in xs <==> x in ys
    ensures Lattice.MergeAll(Merge, xs) == Lattice.MergeAll(Merge, ys)
  {
    MergeLaws();
    Lattice.Converges(Merge, (_: Pair) => true, xs, ys);
  }

  class Counter {
    const positive: G.Counter
    const negative: G.Counter

    ghost predicate Valid()
      reads this
    {
      positive != negative
    }

    function State(): Pair
      reads this, positive, negative
    {
      Pair(positive.components, negative.components)
    }

    constructor ()
      ensures Valid() && fresh(positive) && fresh(negative)
      ensures State() == Pair(map[], map[])
    {
      positive := new G.Counter();
      negative := new G.Counter();
    }

    method Add(id: G.ReplicaId, amount: u64) returns (r: Result<()>)
      requires Valid()
      modifies positive
      ensures (State().positive, r) == G.Increment(old(State()).positive, id, amount)
      ensures State().negative == old(State()).negative
    {
      r := positive.Add(id, amount);
    }

    method Subtract(id: G.ReplicaId, amount: u64) returns (r: Result<()>)
      requires Valid()
      modifies negative
      ensures (State().negative, r) == G.Increment(old(State()).negative, id, amount)
      ensures State().positive == old(State()).positive
    {
      r := negative.Add(id, amount);
    }

    method Read() returns (r: Result<int>)
      ensures r == Value(State())
    {
      var plus :- positive.Read();
      var minus :- negative.Read();
      var difference: int := (plus as int) - (minus as int);
      return Ok(difference);
    }

    /** Both halves are merged, whether or not the first one changed. */
    method MergeFrom(other: Counter) returns (changed: bool)
      requires Valid() && other.Valid()
      requires {positive, negative} !! {other.positive, other.negative}
      modifies positive, negative
      ensures State() == Merge(old(State()), other.State())
      ensures changed <==> (|| G.Grew(old(State()).positive, other.State().positive)
                            || G.Grew(old(State()).negative, other.State().negative))
    {
      var positiveChanged := positive.MergeFrom(other.positive);
      var negativeChanged := negative.MergeFrom(other.negative);
      changed := positiveChanged || negativeChanged;
    }
  }
}
