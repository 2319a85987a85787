/**
  Any number of replicas, each incrementing only its own component of a grow-only counter, and a
  network that may delay, repeat, reorder or lose the copies they publish.
  */
module CounterSystem {
  import opened Core
  import opened GCounter

  /** `issued[j]` is the sum of the increments that replica `j` made successfully. */
  datatype System = System(ids: seq<ReplicaId>, replicas: seq<Components>, pool: set<Components>, issued: seq<nat>)

  datatype Event =
    | Increment(replica: nat, amount: u64)
    | Publish(replica: nat)
    | Merge(replica: nat, copy: Components)

  predicate Distinct(ids: seq<ReplicaId>) {
    forall i, j | 0 <= i < j < |ids| :: ids[i] != ids[j]
  }

  function Start(ids: seq<ReplicaId>): System {
    System(ids, seq(|ids|, _ => map[]), {}, seq(|ids|, _ => 0))
  }

  predicate WellFormed(sys: System) {
    && Distinct(sys.ids)
    && |sys.replicas| == |sys.ids| == |sys.issued|
  }

  predicate Enabled(sys: System, event: Event) {
    match event
    case Increment(i, _) => i < |sys.ids|
    case Publish(i) => i < |sys.ids|
    case Merge(i, copy) => i < |sys.ids| && copy in sys.pool
  }

  function Next(sys: System, event: Event): System
    requires WellFormed(sys) && Enabled(sys, event)
  {
    match event
    case Increment(i, amount) =>
      var (m, r) := GCounter.Increment(sys.replicas[i], sys.ids[i], amount);
      sys.(replicas := sys.replicas[i := m],
           issued := if r.Ok? then sys.issued[i := sys.issued[i] + amount] else sys.issued)
    case Publish(i) => sys.(pool := sys.pool + {sys.replicas[i]})
    case Merge(i, copy) => sys.(replicas := sys.replicas[i := GCounter.Merge(sys.replicas[i], copy)])
  }

  function Run(sys: System, events: seq<Event>): System
    requires WellFormed(sys)
    decreases |events|
  {
    if events == [] then sys
    else Run(if Enabled(sys, events[0]) then Next(sys, events[0]) else sys, events[1..])
  }

  /** No component of `m` exceeds what its owner has issued, and every component has an owner. */
  ghost predicate Backed(ids: seq<ReplicaId>, issued: seq<nat>, m: Components)
    requires |ids| == |issued|
  {
    && (forall id | id in m :: id in ids)
    && (forall j | 0 <= j < |ids| :: Component(m, ids[j]) <= issued[j])
  }

  ghost predicate Inv(sys: System) {
    && WellFormed(sys)
    && (forall i | 0 <= i < |sys.ids| :: Backed(sys.ids, sys.issued, sys.replicas[i]))
    && (forall m | m in sys.pool :: Backed(sys.ids, sys.issued, m))
    && (forall i | 0 <= i < |sys.ids| :: Component(sys.replicas[i], sys.ids[i]) == sys.issued[i])
  }

  lemma BackedMerge(ids: seq<ReplicaId>, issued: seq<nat>, a: Components, b: Components)
    requires |ids| == |issued| && Backed(ids, issued, a) && Backed(ids, issued, b)
    ensures Backed(ids, issued, GCounter.Merge(a, b))
    ensures forall j | 0 <= j < |ids| && Component(a, ids[j]) == issued[j] ::
              Component(GCounter.Merge(a, b), ids[j]) == issued[j]
  {
    forall j | 0 <= j < |ids|
      ensures Component(GCounter.Merge(a, b), ids[j]) == Max(Component(a, ids[j]), Component(b, ids[j]))
    {
      MergeComponent(a, b, ids[j]);
    }
  }

  lemma BackedAt(ids: seq<ReplicaId>, issued: seq<nat>, m: Components, j: nat)
    requires |ids| == |issued| && j < |ids| && Backed(ids, issued, m)
    ensures Component(m, ids[j]) <= issued[j]
  {
  }

  lemma BackedGrows(ids: seq<ReplicaId>, issued: seq<nat>, m: Components, i: nat, amount: nat)
    requires |ids| == |issued| && i < |ids| && Backed(ids, issued, m)
    ensures Backed(ids, issued[i := issued[i] + amount], m)
  {
  }

  lemma NextKeepsInv(sys: System, event: Event)
    requires Inv(sys) && Enabled(sys, event)
    ensures Inv(Next(sys, event))
  {
    match event {
      case Increment(i, amount) => IncrementKeepsInv(sys, i, amount);
      case Publish(i) => hide Backed;
      case Merge(i, copy) =>
        BackedMerge(sys.ids, sys.issued, sys.replicas[i], copy);
        hide Backed;
    }
  }

  lemma BackedIncrement(ids: seq<ReplicaId>, issued: seq<nat>, m: Components, i: nat, amount: nat)
    requires Distinct(ids) && |ids| == |issued| && i < |ids| && Backed(ids, issued, m)
    requires Component(m, ids[i]) == issued[i] && issued[i] + amount < U64_LIMIT
    ensures var m' := m[ids[i] := issued[i] + amount];
            && Backed(ids, issued[i := issued[i] + amount], m')
            && Component(m', ids[i]) == issued[i] + amount
  {
  }

  lemma IncrementKeepsInv(sys: System, i: nat, amount: u64)
    requires Inv(sys) && i < |sys.ids|
    ensures Inv(Next(sys, Increment(i, amount)))
  {
    IncrementIs(sys, i, amount);
    hide Next, Backed, Component;
    if sys.issued[i] + amount < U64_LIMIT {
      SuccessKeepsInv(sys, i, amount);
    }
  }

  lemma SuccessKeepsInv(sys: System, i: nat, amount: u64)
    requires Inv(sys) && i < |sys.ids| && sys.issued[i] + amount < U64_LIMIT
    ensures var m: Components := sys.replicas[i][sys.ids[i] := sys.issued[i] + amount];
            Inv(sys.(replicas := sys.replicas[i := m], issued := sys.issued[i := sys.issued[i] + amount]))
  {
    hide Backed, Component;
    var issued := sys.issued[i := sys.issued[i] + amount];
    BackedIncrement(sys.ids, sys.issued, sys.replicas[i], i, amount);
    forall k | 0 <= k < |sys.ids| && k != i ensures Backed(sys.ids, issued, sys.replicas[k]) {
      BackedGrows(sys.ids, sys.issued, sys.replicas[k], i, amount);
    }
    forall c | c in sys.pool ensures Backed(sys.ids, issued, c) {
      BackedGrows(sys.ids, sys.issued, c, i, amount);
    }
  }

  lemma IncrementIs(sys: System, i: nat, amount: u64)
    requires WellFormed(sys) && i < |sys.ids| && Component(sys.replicas[i], sys.ids[i]) == sys.issued[i]
    ensures Next(sys, Increment(i, amount)) ==
            if sys.issued[i] + amount < U64_LIMIT then
              var m: Components := sys.replicas[i][sys.ids[i] := sys.issued[i] + amount];
              sys.(replicas := sys.replicas[i := m], issued := sys.issued[i := sys.issued[i] + amount])
            else sys
  {
    hide Distinct, Component;
  }

  lemma {:induction false} RunKeepsInv(sys: System, events: seq<Event>)
    requires Inv(sys)
    ensures Inv(Run(sys, events)) && Run(sys, events).ids == sys.ids
    decreases |events|
  {
    if events != [] {
      if Enabled(sys, events[0]) {
        NextKeepsInv(sys, events[0]);
        hide Inv;
        RunKeepsInv(Next(sys, events[0]), events[1..]);
      } else {
        hide Inv;
        RunKeepsInv(sys, events[1..]);
      }
    }
  }

  /**
    In every run: no component anywhere, in a replica or in a copy, exceeds its owner's, and the owner's
    is the sum of its successful increments.
    */
  lemma OwnersLead(ids: seq<ReplicaId>, events: seq<Event>)
    requires Distinct(ids)
    ensures var sys := Run(Start(ids), events);
            && Inv(sys)
            && |sys.replicas| == |sys.issued| == |ids|
            && (forall i, j | 0 <= i < |ids| && 0 <= j < |ids| ::
                  Component(sys.replicas[i], ids[j]) <= Component(sys.replicas[j], ids[j]) == sys.issued[j])
            && (forall m, j | m in sys.pool && 0 <= j < |ids| ::
                  Component(m, ids[j]) <= Component(sys.replicas[j], ids[j]))
  {
    hide Run;
    RunKeepsInv(Start(ids), events);
  }

  // ---------------------------------------------------------------- what is read in the end

  function Sum(ns: seq<nat>): nat {
    if ns == [] then 0 else Sum(ns[..|ns| - 1]) + ns[|ns| - 1]
  }

  ghost predicate Exact(ids: seq<ReplicaId>, issued: seq<nat>, m: Components)
    requires |ids| == |issued|
  {
    && (forall id | id in m :: id in ids)
    && (forall j | 0 <= j < |ids| :: Component(m, ids[j]) == issued[j])
  }

  /** A counter whose components are exactly what was issued totals what was issued. */
  lemma {:induction false} ExactTotal(ids: seq<ReplicaId>, issued: seq<nat>, m: Components)
    requires Distinct(ids) && |ids| == |issued| && Exact(ids, issued, m)
    ensures Total(m) == Sum(issued)
    decreases |ids|
  {
    if ids == [] {
      assert m.Keys == {};
    } else {
      var last := |ids| - 1;
      var rest := Without(m, ids[last]);
      ExactWithout(ids, issued, m);
      hide Exact, Without;
      ExactTotal(ids[..last], issued[..last], rest);
      TotalWithout(m, ids[last]);
    }
  }

  function Without(m: Components, id: ReplicaId): Components {
    map k | k in m && k != id :: m[k]
  }

  lemma ExactWithout(ids: seq<ReplicaId>, issued: seq<nat>, m: Components)
    requires Distinct(ids) && |ids| == |issued| && Exact(ids, issued, m) && ids != []
    ensures var last := |ids| - 1;
            && Exact(ids[..last], issued[..last], Without(m, ids[last]))
            && Component(m, ids[last]) == issued[last]
  {
    var last := |ids| - 1;
    forall k | k in Without(m, ids[last]) ensures k in ids[..last] {
      assert k in ids;
    }
  }

  lemma TotalWithout(m: Components, id: ReplicaId)
    ensures Total(m) == Total(Without(m, id)) + Component(m, id)
  {
    var rest := Without(m, id);
    assert rest.Keys == m.Keys - {id};
    SumOfSubmap(rest, m, rest.Keys);
    if id in m {
      SumWithout(m, m.Keys, id);
    } else {
      assert m.Keys - {id} == m.Keys;
    }
  }

  lemma {:induction false} SumOfSubmap(a: Components, b: Components, ids: set<ReplicaId>)
    requires ids <= a.Keys && ids <= b.Keys && forall id | id in ids :: a[id] == b[id]
    ensures SumOver(a, ids) == SumOver(b, ids)
    decreases |ids|
  {
    if ids != {} {
      var id :| id in ids;
      SumWithout(a, ids, id);
      SumWithout(b, ids, id);
      SumOfSubmap(a, b, ids - {id});
    }
  }

  /** Merges the states of the first `n` replicas into `m`. */
  function MergeFirst(replicas: seq<Components>, m: Components, n: nat): Components
    requires n <= |replicas|
  {
    if n == 0 then m else GCounter.Merge(MergeFirst(replicas, m, n - 1), replicas[n - 1])
  }

  lemma {:induction false} MergeFirstCollects(ids: seq<ReplicaId>, issued: seq<nat>, replicas: seq<Components>,
                                              start: Components, n: nat)
    requires n <= |ids| == |issued| == |replicas| && Backed(ids, issued, start)
    requires forall k | 0 <= k < |ids| :: Backed(ids, issued, replicas[k])
    requires forall k | 0 <= k < |ids| :: Component(replicas[k], ids[k]) == issued[k]
    ensures Backed(ids, issued, MergeFirst(replicas, start, n))
    ensures forall j | 0 <= j < n :: Component(MergeFirst(replicas, start, n), ids[j]) == issued[j]
    decreases n
  {
    hide Backed, Component, GCounter.Merge;
    if n > 0 {
      var m, last := MergeFirst(replicas, start, n - 1), replicas[n - 1];
      MergeFirstCollects(ids, issued, replicas, start, n - 1);
      BackedMerge(ids, issued, m, last);
      forall j | 0 <= j < n ensures Component(GCounter.Merge(m, last), ids[j]) == issued[j] {
        MergeComponent(m, last, ids[j]);
        BackedAt(ids, issued, m, j);
        BackedAt(ids, issued, last, j);
      }
    }
  }

  lemma CollectedIsExact(ids: seq<ReplicaId>, issued: seq<nat>, m: Components)
    requires |ids| == |issued| && Backed(ids, issued, m)
    requires forall j | 0 <= j < |ids| :: Component(m, ids[j]) == issued[j]
    ensures Exact(ids, issued, m)
  {
  }

  lemma StartsInv(ids: seq<ReplicaId>)
    requires Distinct(ids)
    ensures Inv(Start(ids)) && Start(ids).ids == ids
  {
  }

  lemma SameLengths(sys: System)
    requires Inv(sys)
    ensures |sys.replicas| == |sys.ids|
  {
  }

  lemma CollectedTotal(sys: System, i: nat)
    requires Inv(sys) && i < |sys.ids|
    ensures Total(MergeFirst(sys.replicas, sys.replicas[i], |sys.ids|)) == Sum(sys.issued)
  {
    hide Total, Sum, Backed, Component;
    MergeFirstCollects(sys.ids, sys.issued, sys.replicas, sys.replicas[i], |sys.ids|);
    CollectedIsExact(sys.ids, sys.issued, MergeFirst(sys.replicas, sys.replicas[i], |sys.ids|));
    ExactTotal(sys.ids, sys.issued, MergeFirst(sys.replicas, sys.replicas[i], |sys.ids|));
  }

  /**
    After any run, a replica that merges every replica's state reads the exact sum of all successful
    increments, or an overflow error exactly when that sum does not fit 64 bits.
    */
  lemma ReadsExactTotal(ids: seq<ReplicaId>, events: seq<Event>, i: nat)
    requires Distinct(ids) && i < |ids|
    ensures var sys := Run(Start(ids), events);
            && |sys.replicas| == |ids|
            && Value(MergeFirst(sys.replicas, sys.replicas[i], |ids|)) ==
               if Sum(sys.issued) < U64_LIMIT then Ok(Sum(sys.issued)) else Err(ValueOverflow)
  {
    hide Run, Start, Inv, Total, Sum, MergeFirst;
    StartsInv(ids);
    RunKeepsInv(Start(ids), events);
    var sys := Run(Start(ids), events);
    SameLengths(sys);
    CollectedTotal(sys, i);
  }
}
