/**
  The recovery planner (`recovery_v30.rs`): replay, chunk repair or snapshot, whichever is estimated to
  be the cheapest.  Whichever it is, carrying it out brings the receiver to the authoritative state.
  */
module Recovery {
  import opened Core
  import opened Wire
  import opened ByteDecoder
  import opened Stream
  import RecoveryHistory
  import PartialRepair
  import Offers
  import SmartDelta
  import Fnv

  datatype Plan =
    | Replay(packets: seq<Packet>)
    | Partial(repair: PartialRepair.Repair)
    | UseSnapshot(packet: Packet)

  function EstimatedBytes(plan: Plan): nat {
    match plan
    case Replay(packets) => RecoveryHistory.TotalLen(packets)
    case Partial(repair) => PartialRepair.PayloadBytes(repair.patches)
    case UseSnapshot(packet) => EncodedLen(packet)
  }

  function FromHistory(plan: RecoveryHistory.RecoveryPlan): Plan {
    match plan
    case Replay(packets) => Replay(packets)
    case UseSnapshot(packet) => UseSnapshot(packet)
  }

  function PlanRecovery(packets: seq<Packet>, local: Option<u64>, receiver: Option<Bytes>,
                        authoritative: Bytes, snapshot: Packet, chunkSize: nat): Plan
  {
    var best := FromHistory(RecoveryHistory.Plan(packets, local, snapshot));
    if receiver.None? then best
    else
      var repair := Partial(PartialRepair.Build(receiver.value, authoritative, chunkSize));
      if EstimatedBytes(repair) < EstimatedBytes(best) then repair else best
  }

  method PlanFor(history: RecoveryHistory.History, local: Option<u64>, receiver: Option<Bytes>,
                 authoritative: Bytes, snapshot: Packet, chunkSize: nat) returns (best: Plan)
    requires |snapshot.payload| <= MAX_LEN
    ensures best == PlanRecovery(history.packets, local, receiver, authoritative, snapshot, chunkSize)
  {
    hide PartialRepair.Build, RecoveryHistory.Plan;
    var historyPlan := history.PlanFor(local, snapshot);
    best := FromHistory(historyPlan);
    if receiver.Some? {
      var repair := PartialRepair.Build(receiver.value, authoritative, chunkSize);
      if PartialRepair.PayloadBytes(repair.patches) < EstimatedBytes(best) {
        best := Partial(repair);
      }
    }
  }

  /** No plan is estimated to cost more than the snapshot. */
  lemma NeverDearerThanSnapshot(packets: seq<Packet>, local: Option<u64>, receiver: Option<Bytes>,
                                authoritative: Bytes, snapshot: Packet, chunkSize: nat)
    ensures EstimatedBytes(PlanRecovery(packets, local, receiver, authoritative, snapshot, chunkSize))
         <= EncodedLen(snapshot)
  {
    hide PartialRepair.Build, RecoveryHistory.Between, RecoveryHistory.TotalLen;
  }

  // ---------------------------------------------------------------- carrying a plan out

  /** Feeds the packets to the decoder one by one, and counts those that it applied. */
  function ReplayAll(z: Zstd, schema: u64, st: DecoderState, packets: seq<Packet>): (DecoderState, nat)
    decreases |packets|
  {
    if packets == [] then (st, 0)
    else
      var (st', r) := Receive(z, schema, st, packets[0]);
      var (last, applied) := ReplayAll(z, schema, st', packets[1..]);
      (last, applied + if r.Ok? && r.value.Applied? then 1 else 0)
  }

  /** The state that a receiver ends up with. */
  function CarryOut(z: Zstd, schema: u64, st: DecoderState, plan: Plan): Option<Bytes> {
    match plan
    case Replay(packets) => ReplayAll(z, schema, st, packets).0.state
    case Partial(repair) =>
      if st.state.None? then None
      else (match PartialRepair.Apply(st.state.value, repair) case Ok(s) => Some(s) case Err(_) => None)
    case UseSnapshot(packet) => Receive(z, schema, st, packet).0.state
  }

  /** A complete chain of honest packets is applied packet by packet. */
  lemma {:induction false} ReplayReaches(z: Zstd, schema: u64, states: seq<Bytes>, st: DecoderState,
                                         packets: seq<Packet>)
    requires Synced(states, st) && st.sequence.Some?
    requires RecoveryHistory.Chained(packets, st.sequence.value + 1)
    requires forall p | p in packets :: Honest(z, schema, states, p)
    requires forall s | s in states :: Offers.PayloadBound(s) <= MAX_PAYLOAD
    ensures var (last, applied) := ReplayAll(z, schema, st, packets);
            && applied == |packets|
            && Synced(states, last)
            && last.sequence == (if packets == [] then st.sequence else Some(packets[|packets| - 1].sequence))
    decreases |packets|
  {
    hide Receive, Honest, Synced;
    if packets != [] {
      var p, tail := packets[0], packets[1..];
      assert p in packets && p.sequence == st.sequence.value + 1 && p.baseSequence == st.sequence.value;
      StepReaches(z, schema, states, st, p);
      assert forall n | 0 <= n < |tail| :: tail[n] == packets[n + 1];
      ReplayReaches(z, schema, states, Receive(z, schema, st, p).0, tail);
    }
  }

  lemma StepReaches(z: Zstd, schema: u64, states: seq<Bytes>, st: DecoderState, p: Packet)
    requires Synced(states, st) && Honest(z, schema, states, p)
    requires st.sequence == Some(p.baseSequence) && p.sequence == p.baseSequence + 1
    requires forall s | s in states :: Offers.PayloadBound(s) <= MAX_PAYLOAD
    ensures var (st', r) := Receive(z, schema, st, p);
            && Synced(states, st') && st'.sequence == Some(p.sequence)
            && r.Ok? && r.value.Applied?
  {
    hide Receive, SmartDelta.Apply, Fnv.Hash, Unpack;
    assert states[p.sequence - 1] in states;
    DeliveryOutcome(z, schema, states, st, p);
  }

  /** No chunk that a receiver's state needs replaced hides behind an equal hash. */
  predicate NoHiddenChunks(st: DecoderState, authoritative: Bytes, size: nat) {
    st.state.Some? ==>
      forall k | 0 <= k < |authoritative| && PartialRepair.Stale(st.state.value, authoritative, size, k) ::
        PartialRepair.Patched(st.state.value, authoritative, size, k)
  }

  /** That is exactly when chunk repair gives the authoritative state. */
  lemma RepairReaches(st: DecoderState, authoritative: Bytes, chunkSize: nat)
    requires st.state.Some? && |st.state.value| <= MAX_LEN && |authoritative| <= MAX_LEN
    ensures PartialRepair.Apply(st.state.value, PartialRepair.Build(st.state.value, authoritative, chunkSize))
         == Ok(authoritative)
       <==> NoHiddenChunks(st, authoritative, Max(1, chunkSize))
  {
    var size := Max(1, chunkSize);
    hide PartialRepair.Apply, PartialRepair.Build, PartialRepair.Patched;
    forall k: nat | PartialRepair.Stale(st.state.value, authoritative, size, k) ensures k < |authoritative| {
      PartialRepair.Monotone(1, size, k);
    }
    PartialRepair.RepairIsExact(st.state.value, authoritative, chunkSize);
  }

  /**
    From any reachable state of the stream: let the history hold any packets that were sent and the
    snapshot be one of the latest update.  Then a replay applies every one of its packets, and replay and
    snapshot bring any decoder to the authoritative state; a chunk repair does so exactly when no chunk
    that needs replacing hides behind an equal hash.
    */
  lemma RecoveryReaches(z: Zstd, schema: u64, sys: System, d: nat, packets: seq<Packet>,
                        snapshot: Packet, chunkSize: nat)
    requires Inv(z, schema, sys) && d < |sys.decoders| && sys.states != []
    requires forall p | p in packets :: p in sys.wire
    requires snapshot in sys.wire && snapshot.kind == Snapshot && snapshot.sequence == |sys.states|
    requires forall s | s in sys.states :: Offers.PayloadBound(s) <= MAX_PAYLOAD
    ensures var st, latest := sys.decoders[d], sys.states[|sys.states| - 1];
            var plan := PlanRecovery(packets, st.sequence, st.state, latest, snapshot, chunkSize);
            && (CarryOut(z, schema, st, plan) == Some(latest) <==>
                (plan.Partial? ==> NoHiddenChunks(st, latest, Max(1, chunkSize))))
            && (plan.Replay? ==> ReplayAll(z, schema, st, plan.packets).1 == |plan.packets|)
  {
    hide CarryOut, PlanRecovery, ReplayAll, Honest, Synced, EncoderSynced, NoHiddenChunks;
    ReachesFrom(z, schema, sys.states, sys.decoders[d], packets, snapshot, chunkSize);
  }

  lemma ReachesFrom(z: Zstd, schema: u64, states: seq<Bytes>, st: DecoderState, packets: seq<Packet>,
                    snapshot: Packet, chunkSize: nat)
    requires Synced(states, st) && states != []
    requires forall p | p in packets :: Honest(z, schema, states, p)
    requires Honest(z, schema, states, snapshot) && snapshot.kind == Snapshot && snapshot.sequence == |states|
    requires forall s | s in states :: Offers.PayloadBound(s) <= MAX_PAYLOAD
    ensures var latest := states[|states| - 1];
            var plan := PlanRecovery(packets, st.sequence, st.state, latest, snapshot, chunkSize);
            && (CarryOut(z, schema, st, plan) == Some(latest) <==>
                (plan.Partial? ==> NoHiddenChunks(st, latest, Max(1, chunkSize))))
            && (plan.Replay? ==> ReplayAll(z, schema, st, plan.packets).1 == |plan.packets|)
  {
    hide *;
    var latest := states[|states| - 1];
    var plan := PlanRecovery(packets, st.sequence, st.state, latest, snapshot, chunkSize);
    PlanIsOneOf(packets, st.sequence, st.state, latest, snapshot, chunkSize);
    match plan {
      case Replay(replay) => ReplayCarries(z, schema, states, st, replay);
      case Partial(_) => RepairCarries(z, schema, states, st, chunkSize);
      case UseSnapshot(_) => SnapshotCarries(z, schema, states, st, snapshot);
    }
  }

  lemma ReplayCarries(z: Zstd, schema: u64, states: seq<Bytes>, st: DecoderState, replay: seq<Packet>)
    requires Synced(states, st) && st.sequence.Some? && states != [] && replay != []
    requires RecoveryHistory.Chained(replay, st.sequence.value + 1)
    requires replay[|replay| - 1].sequence == |states|
    requires forall p | p in replay :: Honest(z, schema, states, p)
    requires forall s | s in states :: Offers.PayloadBound(s) <= MAX_PAYLOAD
    ensures CarryOut(z, schema, st, Replay(replay)) == Some(states[|states| - 1])
    ensures ReplayAll(z, schema, st, replay).1 == |replay|
  {
    hide ReplayAll, Honest, RecoveryHistory.Chained;
    ReplayReaches(z, schema, states, st, replay);
  }

  lemma RepairCarries(z: Zstd, schema: u64, states: seq<Bytes>, st: DecoderState, chunkSize: nat)
    requires Synced(states, st) && st.state.Some? && states != []
    requires forall s | s in states :: Offers.PayloadBound(s) <= MAX_PAYLOAD
    ensures var latest := states[|states| - 1];
            CarryOut(z, schema, st, Partial(PartialRepair.Build(st.state.value, latest, chunkSize))) == Some(latest)
            <==> NoHiddenChunks(st, latest, Max(1, chunkSize))
  {
    hide NoHiddenChunks, PartialRepair.Build, PartialRepair.Apply;
    assert states[|states| - 1] in states && st.state.value in states;
    RepairReaches(st, states[|states| - 1], chunkSize);
  }

  lemma SnapshotCarries(z: Zstd, schema: u64, states: seq<Bytes>, st: DecoderState, p: Packet)
    requires Synced(states, st) && Honest(z, schema, states, p)
    requires p.kind == Snapshot && p.sequence == |states|
    requires forall s | s in states :: Offers.PayloadBound(s) <= MAX_PAYLOAD
    ensures CarryOut(z, schema, st, UseSnapshot(p)) == Some(states[|states| - 1])
  {
    hide Receive, Offers.Describes, Synced;
    assert states[|states| - 1] in states;
    SnapshotReaches(z, schema, states, st, p);
  }

  lemma PlanIsOneOf(packets: seq<Packet>, local: Option<u64>, receiver: Option<Bytes>,
                    authoritative: Bytes, snapshot: Packet, chunkSize: nat)
    ensures match PlanRecovery(packets, local, receiver, authoritative, snapshot, chunkSize)
            case Replay(replay) =>
              && local.Some? && replay != [] && RecoveryHistory.Chained(replay, local.value + 1)
              && replay[|replay| - 1].sequence == snapshot.sequence
              && forall p | p in replay :: p in packets
            case Partial(repair) =>
              receiver.Some? && repair == PartialRepair.Build(receiver.value, authoritative, chunkSize)
            case UseSnapshot(p) => p == snapshot
  {
    hide PartialRepair.Build, RecoveryHistory.Between, RecoveryHistory.TotalLen, PartialRepair.PayloadBytes;
  }

  /** A decoder that refuses the snapshot as a duplicate is up to date already. */
  lemma SnapshotReaches(z: Zstd, schema: u64, states: seq<Bytes>, st: DecoderState, p: Packet)
    requires Synced(states, st) && Honest(z, schema, states, p)
    requires p.kind == Snapshot && p.sequence == |states|
    requires Offers.PayloadBound(states[|states| - 1]) <= MAX_PAYLOAD
    ensures Receive(z, schema, st, p).0.state == Some(states[|states| - 1])
  {
    hide Receive, SmartDelta.Apply, Fnv.Hash, Unpack;
    DeliveryOutcome(z, schema, states, st, p);
  }
}
