/** The grow-only counter (`crdt/gcounter.rs`). */
module GCounter {
  import opened Core
  import Lattice

  /** A replica identifier: the bytes of its nonempty string. */
  type ReplicaId = Bytes

  type Components = map<ReplicaId, u64>

  function Component(m: Components, id: ReplicaId): u64 {
    if id in m then m[id] else 0
  }

  function Merge(a: Components, b: Components): (r: Components) {
    map id | id in a.Keys + b.Keys ::
      if Component(a, id) >= Component(b, id) then Component(a, id) else Component(b, id)
  }

  function Increment(m: Components, id: ReplicaId, amount: u64): (Components, Result<()>) {
    if Component(m, id) + amount >= U64_LIMIT then (m, Err(CounterOverflow))
    else (m[id := Component(m, id) + amount], Ok(()))
  }

  /** Exact until 2^64: then an error, and nothing changes.  No other component ever changes. */
  lemma IncrementExactly(m: Components, id: ReplicaId, amount: u64)
    ensures var (m', r) := Increment(m, id, amount);
            var before := if id in m then m[id] else 0;
            && (r == Ok(()) <==> before + amount <= 0xffff_ffff_ffff_ffff)
            && (r.Err? ==> r == Err(CounterOverflow) && m' == m)
            && (r.Ok? ==> id in m' && m'[id] == before + amount && m'.Keys == m.Keys + {id}
                          && forall k | k in m && k != id :: m'[k] == m[k])
  {
  }

  // ---------------------------------------------------------------- the total

  ghost function SumOver(m: Components, ids: set<ReplicaId>): nat
    requires ids <= m.Keys
    decreases |ids|
  {
    if ids == {} then 0
    else
      var id :| id in ids;
      m[id] + SumOver(m, ids - {id})
  }

  /** The sum does not depend on the order in which the components are visited. */
  lemma {:induction false} SumWithout(m: Components, ids: set<ReplicaId>, id: ReplicaId)
    requires id in ids && ids <= m.Keys
    ensures SumOver(m, ids) == m[id] + SumOver(m, ids - {id})
    decreases |ids|
  {
    var first :| first in ids && SumOver(m, ids) == m[first] + SumOver(m, ids - {first});
    if first != id {
      SumWithout(m, ids - {first}, id);
      SumWithout(m, ids - {id}, first);
      assert ids - {first} - {id} == ids - {id} - {first};
    }
  }

  ghost function Total(m: Components): nat {
    SumOver(m, m.Keys)
  }

  ghost function Value(m: Components): Result<u64> {
    if Total(m) < U64_LIMIT then Ok(Total(m)) else Err(ValueOverflow)
  }

  // ---------------------------------------------------------------- merge laws

  lemma MergeComponent(a: Components, b: Components, id: ReplicaId)
    ensures Component(Merge(a, b), id) == Max(Component(a, id), Component(b, id))
    ensures id in Merge(a, b) <==> id in a || id in b
  {
  }

  lemma SameComponents(a: Components, b: Components)
    requires a.Keys == b.Keys && forall id :: Component(a, id) == Component(b, id)
    ensures a == b
  {
    forall id | id in a ensures a[id] == b[id] {
      assert Component(a, id) == Component(b, id);
    }
  }

  lemma MergeLaws()
    ensures Lattice.Laws(Merge, (_: Components) => true)
  {
    hide Merge;
    forall a, b ensures Merge(a, b) == Merge(b, a) {
      Commutes(a, b);
    }
    forall a ensures Merge(a, a) == a {
      Repeats(a);
    }
    forall a, b, c ensures Merge(Merge(a, b), c) == Merge(a, Merge(b, c)) {
      Associates(a, b, c);
    }
  }

  lemma Commutes(a: Components, b: Components)
    ensures Merge(a, b) == Merge(b, a)
  {
    SameComponents(Merge(a, b), Merge(b, a));
  }

  lemma Repeats(a: Components)
    ensures Merge(a, a) == a
  {
    SameComponents(Merge(a, a), a);
  }

  lemma Associates(a: Components, b: Components, c: Components)
    ensures Merge(Merge(a, b), c) == Merge(a, Merge(b, c))
  {
    hide Merge, Component;
    forall id
      ensures Component(Merge(Merge(a, b), c), id) == Component(Merge(a, Merge(b, c)), id)
      ensures id in Merge(Merge(a, b), c) <==> id in Merge(a, Merge(b, c))
    {
      MergeComponent(a, b, id);
      MergeComponent(Merge(a, b), c, id);
      MergeComponent(b, c, id);
      MergeComponent(a, Merge(b, c), id);
    }
    assert Merge(Merge(a, b), c).Keys == Merge(a, Merge(b, c)).Keys;
    SameComponents(Merge(Merge(a, b), c), Merge(a, Merge(b, c)));
  }

  /** Replicas that have merged the same states are equal, whatever the order and the repetitions. */
  lemma CountersConverge(xs: seq<Components>, ys: seq<Components>)
    requires xs != [] && ys != [] && forall x :: x in xs <==> x in ys
    ensures Lattice.MergeAll(Merge, xs) == Lattice.MergeAll(Merge, ys)
  {
    MergeLaws();
    Lattice.Converges(Merge, (_: Components) => true, xs, ys);
  }

  /** What the boolean that `merge` returns says: some component's value grew. */
  ghost predicate Grew(a: Components, b: Components) {
    exists id :: id in b && b[id] > Component(a, id)
  }

  /**
    The boolean is documented as "self changed".  It misses one kind of change: a zero component that
    was absent before.  It is accurate exactly when some value grows or no component is new.
    */
  lemma GrewMeansChanged(a: Components, b: Components)
    ensures (Grew(a, b) <==> Merge(a, b) != a) <==>
            (exists id :: id in b && b[id] > Component(a, id)) || b.Keys <= a.Keys
  {
    if Grew(a, b) {
      var id :| id in b && b[id] > Component(a, id);
      MergeComponent(a, b, id);
    } else if b.Keys <= a.Keys {
      forall id ensures id in b ==> b[id] <= Component(a, id) {
      }
      SameComponents(Merge(a, b), a);
    } else {
      var id :| id in b && id !in a;
      MergeComponent(a, b, id);
      assert id in Merge(a, b);
    }
  }

  /** An input on which the boolean is wrong: an increment by zero, merged into an empty counter. */
  lemma ZeroComponentGoesUnreported(id: ReplicaId)
    ensures var a: Components, b: Components := map[], map[id := 0];
            Increment(map[], id, 0) == (b, Ok(())) && !Grew(a, b) && Merge(a, b) != a
  {
    MergeComponent(map[], map[id := 0], id);
  }

  lemma MergeNothing(before: Components)
    ensures Merge(before, map[]) == before && !Grew(before, map[])
  {
    SameComponents(Merge(before, map[]), before);
  }

  /** Taking over one more component. */
  lemma MergeStep(before: Components, done: Components, id: ReplicaId, theirs: u64)
    requires id !in done
    ensures var so, local := Merge(before, done), Component(Merge(before, done), id);
            && Merge(before, done[id := theirs]) == so[id := if theirs > local then theirs else local]
            && (Grew(before, done[id := theirs]) <==> Grew(before, done) || theirs > local)
  {
    var so, local := Merge(before, done), Component(Merge(before, done), id);
    SameComponents(Merge(before, done[id := theirs]), so[id := if theirs > local then theirs else local]);
    hide Merge;
    MergeComponent(before, done, id);
    GrewStep(before, done, id, theirs);
  }

  lemma GrewStep(before: Components, done: Components, id: ReplicaId, theirs: u64)
    requires id !in done
    ensures Grew(before, done[id := theirs]) <==> Grew(before, done) || theirs > Component(before, id)
  {
    if Grew(before, done) {
      var k :| k in done && done[k] > Component(before, k);
      assert k in done[id := theirs] && done[id := theirs][k] == done[k];
    }
    if theirs > Component(before, id) {
      assert id in done[id := theirs] && done[id := theirs][id] == theirs;
    }
  }

  // ---------------------------------------------------------------- the counter

  class Counter {
    var components: Components

    constructor ()
      ensures components == map[]
    {
      components := map[];
    }

    method Add(id: ReplicaId, amount: u64) returns (r: Result<()>)
      modifies this
      ensures (components, r) == Increment(old(components), id, amount)
    {
      var entry := if id in components then components[id] else 0;
      if entry + amount >= U64_LIMIT {
        return Err(CounterOverflow);
      }
      components := components[id := entry + amount];
      return Ok(());
    }

    /** `try_fold` with checked additions; the visiting order does not matter. */
    method Read() returns (r: Result<u64>)
      ensures r == Value(components)
    {
      var rest, total := components.Keys, 0;
      while rest != {}
        invariant rest <= components.Keys && 0 <= total < U64_LIMIT
        invariant total + SumOver(components, rest) == Total(components)
        decreases |rest|
      {
        var id :| id in rest;
        SumWithout(components, rest, id);
        if total + components[id] >= U64_LIMIT {
          return Err(ValueOverflow);
        }
        total := total + components[id];
        rest := rest - {id};
      }
      return Ok(total);
    }

    method MergeFrom(other: Counter) returns (changed: bool)
      requires other != this
      modifies this
      ensures components == Merge(old(components), other.components)
      ensures changed <==> Grew(old(components), other.components)
    {
      hide Merge, Grew;
      changed := false;
      ghost var before, done: Components := components, map[];
      MergeNothing(before);
      var theirs := other.components;
      var rest := theirs.Keys;
      while rest != {}
        invariant other.components == theirs && rest <= theirs.Keys
        invariant done.Keys == theirs.Keys - rest && forall id | id in done :: done[id] == theirs[id]
        invariant components == Merge(before, done)
        invariant changed <==> Grew(before, done)
        decreases |rest|
      {
        var id :| id in rest;
        MergeStep(before, done, id, theirs[id]);
        ghost var so := components;
        done := done[id := theirs[id]];
        var local := Component(components, id);
        components := components[id := local];
        if theirs[id] > local {
          components := components[id := theirs[id]];
          changed := true;
        }
        assert components == so[id := if theirs[id] > local then theirs[id] else local];
        rest := rest - {id};
      }
      assert done == theirs;
    }
  }
}
