/**
  Any number of replicas of a positive-negative counter, each changing only its own components, and the same
  network as in `CounterSystem`.  The two halves of every replica run as counters of their own.
  */
module PNSystem {
  import opened Core
  import G = GCounter
  import C = CounterSystem
  import opened PNCounter

  /** `added[j]` and `taken[j]` are the sums of what replica `j` added and took off successfully. */
  datatype System = System(
    ids: seq<G.ReplicaId>,
    replicas: seq<Pair>,
    pool: set<Pair>,
    added: seq<nat>,
    taken: seq<nat>)

  datatype Event =
    | Increment(replica: nat, amount: u64)
    | Decrement(replica: nat, amount: u64)
    | Publish(replica: nat)
    | Receive(replica: nat, copy: Pair)

  function Start(ids: seq<G.ReplicaId>): System {
    System(ids, seq(|ids|, _ => Pair(map[], map[])), {}, seq(|ids|, _ => 0), seq(|ids|, _ => 0))
  }

  predicate WellFormed(sys: System) {
    C.Distinct(sys.ids) && |sys.replicas| == |sys.ids| == |sys.added| == |sys.taken|
  }

  predicate Enabled(sys: System, event: Event) {
    event.replica < |sys.ids| && (event.Receive? ==> event.copy in sys.pool)
  }

  function Next(sys: System, event: Event): System
    requires WellFormed(sys) && Enabled(sys, event)
  {
    var i := event.replica;
    var own := sys.replicas[i];
    match event
    case Increment(_, amount) =>
      var (m, r) := G.Increment(own.positive, sys.ids[i], amount);
      sys.(replicas := sys.replicas[i := own.(positive := m)],
           added := if r.Ok? then sys.added[i := sys.added[i] + amount] else sys.added)
    case Decrement(_, amount) =>
      var (m, r) := G.Increment(own.negative, sys.ids[i], amount);
      sys.(replicas := sys.replicas[i := own.(negative := m)],
           taken := if r.Ok? then sys.taken[i := sys.taken[i] + amount] else sys.taken)
    case Publish(_) => sys.(pool := sys.pool + {own})
    case Receive(_, copy) => sys.(replicas := sys.replicas[i := Merge(own, copy)])
  }

  function Run(sys: System, events: seq<Event>): System
    requires WellFormed(sys)
    decreases |events|
  {
    if events == [] then sys
    else Run(if Enabled(sys, events[0]) then Next(sys, events[0]) else sys, events[1..])
  }

  // ---------------------------------------------------------------- the two halves

  function Positives(replicas: seq<Pair>): (ms: seq<G.Components>)
    ensures |ms| == |replicas|
  {
    seq(|replicas|, n requires 0 <= n < |replicas| => replicas[n].positive)
  }

  function Negatives(replicas: seq<Pair>): (ms: seq<G.Components>)
    ensures |ms| == |replicas|
  {
    seq(|replicas|, n requires 0 <= n < |replicas| => replicas[n].negative)
  }

  function Plus(sys: System): C.System {
    C.System(sys.ids, Positives(sys.replicas), set p | p in sys.pool :: p.positive, sys.added)
  }

  function Minus(sys: System): C.System {
    C.System(sys.ids, Negatives(sys.replicas), set p | p in sys.pool :: p.negative, sys.taken)
  }

  ghost predicate Inv(sys: System) {
    WellFormed(sys) && C.Inv(Plus(sys)) && C.Inv(Minus(sys))
  }

  /** What an event does to the positive half, if anything. */
  function PlusEvent(event: Event): Option<C.Event> {
    match event
    case Increment(i, amount) => Some(C.Increment(i, amount))
    case Decrement(_, _) => None
    case Publish(i) => Some(C.Publish(i))
    case Receive(i, copy) => Some(C.Merge(i, copy.positive))
  }

  function MinusEvent(event: Event): Option<C.Event> {
    match event
    case Increment(_, _) => None
    case Decrement(i, amount) => Some(C.Increment(i, amount))
    case Publish(i) => Some(C.Publish(i))
    case Receive(i, copy) => Some(C.Merge(i, copy.negative))
  }

  lemma PlusFollows(sys: System, event: Event)
    requires WellFormed(sys) && Enabled(sys, event)
    ensures var e := PlusEvent(event);
            if e.None? then Plus(Next(sys, event)) == Plus(sys)
            else C.Enabled(Plus(sys), e.value) && Plus(Next(sys, event)) == C.Next(Plus(sys), e.value)
  {
    hide G.Increment, G.Merge;
    var i, next := event.replica, Next(sys, event);
    assert Positives(next.replicas) == Positives(sys.replicas)[i := next.replicas[i].positive];
    if event.Publish? {
      assert (set p | p in next.pool :: p.positive)
          == (set p | p in sys.pool :: p.positive) + {sys.replicas[i].positive};
    }
  }

  lemma MinusFollows(sys: System, event: Event)
    requires WellFormed(sys) && Enabled(sys, event)
    ensures var e := MinusEvent(event);
            if e.None? then Minus(Next(sys, event)) == Minus(sys)
            else C.Enabled(Minus(sys), e.value) && Minus(Next(sys, event)) == C.Next(Minus(sys), e.value)
  {
    hide G.Increment, G.Merge;
    var i, next := event.replica, Next(sys, event);
    assert Negatives(next.replicas) == Negatives(sys.replicas)[i := next.replicas[i].negative];
    if event.Publish? {
      assert (set p | p in next.pool :: p.negative)
          == (set p | p in sys.pool :: p.negative) + {sys.replicas[i].negative};
    }
  }

  lemma NextKeepsInv(sys: System, event: Event)
    requires Inv(sys) && Enabled(sys, event)
    ensures Inv(Next(sys, event))
  {
    hide C.Inv, C.Next, C.Enabled, Plus, Minus, G.Increment, G.Merge;
    PlusFollows(sys, event);
    MinusFollows(sys, event);
    if PlusEvent(event).Some? {
      C.NextKeepsInv(Plus(sys), PlusEvent(event).value);
    }
    if MinusEvent(event).Some? {
      C.NextKeepsInv(Minus(sys), MinusEvent(event).value);
    }
  }

  lemma {:induction false} RunKeepsInv(sys: System, events: seq<Event>)
    requires Inv(sys)
    ensures Inv(Run(sys, events)) && Run(sys, events).ids == sys.ids
    decreases |events|
  {
    hide C.Inv, Next, Plus, Minus;
    if events != [] {
      if Enabled(sys, events[0]) {
        NextKeepsInv(sys, events[0]);
        SameIds(sys, events[0]);
        RunKeepsInv(Next(sys, events[0]), events[1..]);
      } else {
        RunKeepsInv(sys, events[1..]);
      }
    }
  }

  lemma SameIds(sys: System, event: Event)
    requires WellFormed(sys) && Enabled(sys, event)
    ensures Next(sys, event).ids == sys.ids
  {
    hide G.Increment, G.Merge;
  }

  // ---------------------------------------------------------------- what is read in the end

  /** Merges the states of the first `n` replicas into `own`. */
  function MergeFirst(replicas: seq<Pair>, own: Pair, n: nat): Pair
    requires n <= |replicas|
  {
    if n == 0 then own else Merge(MergeFirst(replicas, own, n - 1), replicas[n - 1])
  }

  lemma {:induction false} MergeFirstHalves(replicas: seq<Pair>, own: Pair, n: nat)
    requires n <= |replicas|
    ensures MergeFirst(replicas, own, n) ==
            Pair(C.MergeFirst(Positives(replicas), own.positive, n), C.MergeFirst(Negatives(replicas), own.negative, n))
    decreases n
  {
    hide G.Merge;
    if n > 0 {
      MergeFirstHalves(replicas, own, n - 1);
    }
  }

  lemma StartsInv(ids: seq<G.ReplicaId>)
    requires C.Distinct(ids)
    ensures Inv(Start(ids))
  {
    assert Plus(Start(ids)) == C.Start(ids);
    assert Minus(Start(ids)) == C.Start(ids);
  }

  /**
    After any run of increments and decrements, a replica that merges every replica's state reads exactly what
    was added less what was taken off, or an overflow error exactly when one of the two sums does not fit 64
    bits.
    */
  lemma ReadsExactDifference(ids: seq<G.ReplicaId>, events: seq<Event>, i: nat)
    requires C.Distinct(ids) && i < |ids|
    ensures var sys := Run(Start(ids), events);
            && |sys.replicas| == |ids|
            && Value(MergeFirst(sys.replicas, sys.replicas[i], |ids|)) ==
               if C.Sum(sys.added) >= U64_LIMIT || C.Sum(sys.taken) >= U64_LIMIT then Err(ValueOverflow)
               else Ok(C.Sum(sys.added) - C.Sum(sys.taken))
  {
    hide Run, C.Inv, C.Sum, C.MergeFirst, G.Total;
    StartsInv(ids);
    RunKeepsInv(Start(ids), events);
    var sys := Run(Start(ids), events);
    MergeFirstHalves(sys.replicas, sys.replicas[i], |ids|);
    C.CollectedTotal(Plus(sys), i);
    C.CollectedTotal(Minus(sys), i);
  }
}
