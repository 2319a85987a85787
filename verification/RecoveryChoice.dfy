/**
  Which plan the history and the planner choose, said of the packets retained, their numbers and their
  lengths, and of nothing that the planners compute on the way.
  */
module RecoveryChoice {
  import opened Core
  import opened Wire
  import H = RecoveryHistory
  import R = Recovery
  import PartialRepair

  // ---------------------------------------------------------------- what the plans cost

  function Payloads(packets: seq<Packet>): Bytes {
    if packets == [] then [] else packets[0].payload + Payloads(packets[1..])
  }

  function Carried(patches: seq<PartialRepair.ChunkPatch>): Bytes {
    if patches == [] then [] else patches[0].bytes + Carried(patches[1..])
  }

  /** A replay costs its payloads and a header of 46 bytes for each packet. */
  lemma {:induction false} ReplayCost(packets: seq<Packet>)
    ensures H.TotalLen(packets) == 46 * |packets| + |Payloads(packets)|
  {
    if packets != [] {
      ReplayCost(packets[1..]);
    }
  }

  /** A repair costs the bytes that its patches carry. */
  lemma {:induction false} RepairCost(patches: seq<PartialRepair.ChunkPatch>)
    ensures PartialRepair.PayloadBytes(patches) == |Carried(patches)|
  {
    if patches != [] {
      RepairCost(patches[1..]);
    }
  }

  // ---------------------------------------------------------------- the chain in the history

  /** Positions in the history, in order. */
  ghost predicate Positions(packets: seq<Packet>, at: seq<nat>) {
    && (forall n | 0 <= n < |at| :: at[n] < |packets|)
    && (forall m, n | 0 <= m < n < |at| :: at[m] < at[n])
  }

  function Picked(packets: seq<Packet>, at: seq<nat>): (r: seq<Packet>)
    requires forall n | 0 <= n < |at| :: at[n] < |packets|
    ensures |r| == |at|
  {
    seq(|at|, n requires 0 <= n < |at| => packets[at[n]])
  }

  /**
    The packets that the history holds of the numbers after `local` up to `last` are, in this order, one for
    each number, each based on the one before.
    */
  ghost predicate CompleteChain(packets: seq<Packet>, local: nat, last: nat, at: seq<nat>) {
    && Positions(packets, at)
    && local + |at| == last
    && (forall n | 0 <= n < |at| ::
          packets[at[n]].sequence == local + 1 + n && packets[at[n]].baseSequence == local + n)
    && (forall i | 0 <= i < |packets| && local < packets[i].sequence <= last :: i in at)
  }

  /** Whether packet `i` has one of the numbers from `first` to `last`. */
  predicate Numbered(packets: seq<Packet>, first: nat, last: nat, i: nat) {
    i < |packets| && first <= packets[i].sequence <= last
  }

  function Shifted(tail: seq<nat>): (r: seq<nat>)
    ensures |r| == |tail|
  {
    seq(|tail|, n requires 0 <= n < |tail| => tail[n] + 1)
  }

  lemma {:induction false} BetweenPicks(packets: seq<Packet>, first: nat, last: nat) returns (at: seq<nat>)
    ensures Positions(packets, at)
    ensures forall i: nat :: i in at <==> Numbered(packets, first, last, i)
    ensures H.Between(packets, first, last) == Picked(packets, at)
    decreases |packets|
  {
    hide Positions, Picked, Shifted, Numbered, H.Between;
    if packets == [] {
      at := [];
      NothingBetween(first, last);
    } else {
      var tail := BetweenPicks(packets[1..], first, last);
      at := (if Numbered(packets, first, last, 0) then [0] else []) + Shifted(tail);
      BetweenStep(packets, first, last);
      ShiftedPositions(packets, tail);
      FrontPositions(packets, Shifted(tail));
      assert [] + Shifted(tail) == Shifted(tail);
      forall i: nat ensures i in at <==> Numbered(packets, first, last, i) {
        ShiftedHas(tail, Shifted(tail), i);
        NumberedTail(packets, first, last, i);
      }
    }
  }

  lemma NothingBetween(first: nat, last: nat)
    ensures Positions([], []) && H.Between([], first, last) == Picked([], [])
    ensures forall i: nat :: !Numbered([], first, last, i)
  {
  }

  lemma BetweenStep(packets: seq<Packet>, first: nat, last: nat)
    requires packets != []
    ensures H.Between(packets, first, last) ==
            (if Numbered(packets, first, last, 0) then [packets[0]] else []) + H.Between(packets[1..], first, last)
  {
  }

  lemma NumberedTail(packets: seq<Packet>, first: nat, last: nat, i: nat)
    requires packets != []
    ensures i > 0 ==> (Numbered(packets, first, last, i) <==> Numbered(packets[1..], first, last, i - 1))
  {
  }

  lemma ShiftedPositions(packets: seq<Packet>, tail: seq<nat>)
    requires packets != [] && Positions(packets[1..], tail)
    ensures Positions(packets, Shifted(tail)) && (forall n | 0 <= n < |tail| :: Shifted(tail)[n] == tail[n] + 1)
    ensures Picked(packets, Shifted(tail)) == Picked(packets[1..], tail)
  {
  }

  /** Positions that leave out the first, with it in front. */
  lemma FrontPositions(packets: seq<Packet>, at: seq<nat>)
    requires packets != [] && Positions(packets, at) && forall n | 0 <= n < |at| :: at[n] > 0
    ensures Positions(packets, [0] + at) && Picked(packets, [0] + at) == [packets[0]] + Picked(packets, at)
  {
  }

  lemma ShiftedHas(tail: seq<nat>, shifted: seq<nat>, i: nat)
    requires |shifted| == |tail| && forall n | 0 <= n < |tail| :: shifted[n] == tail[n] + 1
    ensures i in shifted <==> i > 0 && i - 1 in tail
  {
    if i > 0 && i - 1 in tail {
      var n :| 0 <= n < |tail| && tail[n] == i - 1;
      assert shifted[n] == i;
    }
  }

  /** Positions in order are determined by which they are. */
  lemma {:induction false} SamePositions(packets: seq<Packet>, a: seq<nat>, b: seq<nat>)
    requires Positions(packets, a) && Positions(packets, b) && forall i: nat :: i in a <==> i in b
    ensures a == b
    decreases |a|
  {
    SameEnds(packets, a, b);
    if a != [] {
      var m, n := |a| - 1, |b| - 1;
      forall i: nat ensures i in a[..m] <==> i in b[..n] {
        InFront(packets, a, i);
        InFront(packets, b, i);
      }
      SamePositions(packets, a[..m], b[..n]);
      assert a == a[..m] + [a[m]] && b == b[..n] + [b[n]];
    }
  }

  function Last(a: seq<nat>): nat {
    if a == [] then 0 else a[|a| - 1]
  }

  lemma SameEnds(packets: seq<Packet>, a: seq<nat>, b: seq<nat>)
    requires Positions(packets, a) && Positions(packets, b) && forall i: nat :: i in a <==> i in b
    ensures (a == [] <==> b == []) && Last(a) == Last(b)
  {
    LastIsIn(a);
    LastIsIn(b);
  }

  lemma LastIsIn(a: seq<nat>)
    ensures a != [] ==> Last(a) in a
  {
  }

  lemma InFront(packets: seq<Packet>, a: seq<nat>, i: nat)
    requires Positions(packets, a) && a != []
    ensures i in a[..|a| - 1] <==> i in a && i != a[|a| - 1]
  {
    assert a == a[..|a| - 1] + [a[|a| - 1]];
  }

  lemma ChainIsBetween(packets: seq<Packet>, local: nat, last: nat, at: seq<nat>)
    requires CompleteChain(packets, local, last, at)
    ensures H.Between(packets, local + 1, last) == Picked(packets, at)
  {
    var picked := BetweenPicks(packets, local + 1, last);
    forall i: nat ensures i in picked <==> i in at {
      assert i in picked <==> Numbered(packets, local + 1, last, i);
      if i in at {
        var n :| 0 <= n < |at| && at[n] == i;
      }
    }
    SamePositions(packets, picked, at);
  }

  // ---------------------------------------------------------------- the history's plan

  /** With a complete chain in the history the plan is to replay it if and only if it is shorter than the snapshot. */
  lemma ChainDecides(packets: seq<Packet>, local: u64, snapshot: Packet, at: seq<nat>)
    requires local < snapshot.sequence < U64_LIMIT - 1
    requires CompleteChain(packets, local, snapshot.sequence, at)
    ensures H.Plan(packets, Some(local), snapshot) ==
            if H.TotalLen(Picked(packets, at)) < EncodedLen(snapshot) then H.Replay(Picked(packets, at))
            else H.UseSnapshot(snapshot)
  {
    hide H.TotalLen, H.Between;
    ChainIsBetween(packets, local, snapshot.sequence, at);
  }

  /** Otherwise it is the snapshot: nothing but a complete chain that is shorter is ever replayed. */
  lemma OnlyChainsAreReplayed(packets: seq<Packet>, local: Option<u64>, snapshot: Packet)
    ensures var plan := H.Plan(packets, local, snapshot);
            || plan == H.UseSnapshot(snapshot)
            || (&& local.Some? && local.value < snapshot.sequence < U64_LIMIT - 1
                && exists at ::
                     && CompleteChain(packets, local.value, snapshot.sequence, at)
                     && plan == H.Replay(Picked(packets, at))
                     && H.TotalLen(Picked(packets, at)) < EncodedLen(snapshot))
  {
    hide H.TotalLen, H.Between;
    if H.CanReplay(packets, local, snapshot) {
      var at := BetweenPicks(packets, local.value + 1, snapshot.sequence);
      ChainFromPicks(packets, local.value, snapshot.sequence, at);
    }
  }

  lemma ChainFromPicks(packets: seq<Packet>, local: nat, last: nat, at: seq<nat>)
    requires Positions(packets, at) && forall i: nat :: i in at <==> Numbered(packets, local + 1, last, i)
    requires local + |at| == last && H.Chained(Picked(packets, at), local + 1)
    ensures CompleteChain(packets, local, last, at)
  {
    forall n | 0 <= n < |at|
      ensures packets[at[n]].sequence == local + 1 + n && packets[at[n]].baseSequence == local + n
    {
      assert Picked(packets, at)[n] == packets[at[n]];
    }
    forall i | 0 <= i < |packets| && local < packets[i].sequence <= last ensures i in at {
      assert Numbered(packets, local + 1, last, i);
    }
  }

  // ---------------------------------------------------------------- the planner's plan

  /** What a receiver's repair would have to carry. */
  function RepairBytes(receiver: Bytes, authoritative: Bytes, chunkSize: nat): nat {
    PartialRepair.PayloadBytes(PartialRepair.Build(receiver, authoritative, chunkSize).patches)
  }

  /** Repair is chosen exactly when there is a receiver and it carries less than the history's plan costs. */
  lemma CheapestIsChosen(packets: seq<Packet>, local: Option<u64>, receiver: Option<Bytes>, authoritative: Bytes,
                         snapshot: Packet, chunkSize: nat)
    ensures var history := H.Plan(packets, local, snapshot);
            var cost := if history.Replay? then H.TotalLen(history.packets) else EncodedLen(history.packet);
            R.PlanRecovery(packets, local, receiver, authoritative, snapshot, chunkSize) ==
            if receiver.Some? && RepairBytes(receiver.value, authoritative, chunkSize) < cost then
              R.Partial(PartialRepair.Build(receiver.value, authoritative, chunkSize))
            else if history.Replay? then R.Replay(history.packets)
            else R.UseSnapshot(snapshot)
  {
    hide H.TotalLen, H.Between, PartialRepair.Build, PartialRepair.PayloadBytes, H.CanReplay;
  }

  /** What carrying a plan out sends. */
  function Sent(plan: R.Plan): nat {
    match plan
    case Replay(packets) => H.TotalLen(packets)
    case Partial(repair) => PartialRepair.PayloadBytes(repair.patches)
    case UseSnapshot(packet) => 46 + |packet.payload|
  }

  /** The plan sends no more than any way there is: snapshot, repair of the receiver, or a complete chain. */
  lemma NoWayIsCheaper(packets: seq<Packet>, local: Option<u64>, receiver: Option<Bytes>, authoritative: Bytes,
                       snapshot: Packet, chunkSize: nat, at: seq<nat>)
    ensures var plan := R.PlanRecovery(packets, local, receiver, authoritative, snapshot, chunkSize);
            && Sent(plan) == R.EstimatedBytes(plan)
            && Sent(plan) <= 46 + |snapshot.payload|
            && (receiver.Some? ==> Sent(plan) <= RepairBytes(receiver.value, authoritative, chunkSize))
            && (local.Some? && local.value < snapshot.sequence < U64_LIMIT - 1
                && CompleteChain(packets, local.value, snapshot.sequence, at) ==>
                  Sent(plan) <= H.TotalLen(Picked(packets, at)))
  {
    hide H.TotalLen, H.Plan, CompleteChain, PartialRepair.Build, PartialRepair.PayloadBytes;
    CheapestIsChosen(packets, local, receiver, authoritative, snapshot, chunkSize);
    if && local.Some? && local.value < snapshot.sequence < U64_LIMIT - 1
       && CompleteChain(packets, local.value, snapshot.sequence, at)
    {
      ChainDecides(packets, local.value, snapshot, at);
    } else {
      HistoryPlanCost(packets, local, snapshot);
    }
  }

  lemma HistoryPlanCost(packets: seq<Packet>, local: Option<u64>, snapshot: Packet)
    ensures var plan := H.Plan(packets, local, snapshot);
            if plan.Replay? then H.TotalLen(plan.packets) < EncodedLen(snapshot) else plan.packet == snapshot
  {
    hide H.TotalLen, H.Between;
  }
}
