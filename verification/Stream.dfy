/**
  The stream protocol as a transition system: one byte-state encoder of either kind, any number of
  decoders, and a network that may lose, repeat and reorder.  Every packet ever sent stays on `wire`
  and may be delivered to any decoder at any time, any number of times, or never.
  */
module Stream {
  import opened Core
  import opened Wire
  import opened ByteDecoder
  import Offers
  import ByteSync
  import Fnv
  import SmartDelta
  import FastSync

  datatype Encoder =
    | Full(policy: ByteSync.Policy, full: ByteSync.EncoderState)
    | Fast(fastPolicy: FastSync.Policy, fast: FastSync.EncoderState)

  function SequenceOf(e: Encoder): u64 {
    match e case Full(_, st) => st.sequence case Fast(_, st) => st.sequence
  }

  function PreviousOf(e: Encoder): Option<Bytes> {
    match e case Full(_, st) => st.previous case Fast(_, st) => st.previous
  }

  ghost predicate IsNew(e: Encoder) {
    match e
    case Full(_, st) => st == ByteSync.NEW_ENCODER
    case Fast(policy, st) => st == FastSync.NewEncoder(policy)
  }

  function Publish(z: Zstd, schema: u64, e: Encoder, current: Bytes): (Encoder, Result<Packet>) {
    match e
    case Full(policy, st) =>
      var (st', r) := ByteSync.Publish(z, schema, policy, st, current);
      (Full(policy, st'), r)
    case Fast(policy, st) =>
      var (st', r) := FastSync.Publish(z, schema, policy, st, current);
      (Fast(policy, st'), r)
  }

  function RecoverySnapshot(z: Zstd, schema: u64, e: Encoder, current: Bytes): Packet {
    match e
    case Full(policy, st) => ByteSync.RecoverySnapshot(z, schema, policy, st, current)
    case Fast(_, st) => FastSync.RecoverySnapshot(schema, st, current)
  }

  // ---------------------------------------------------------------- the system

  datatype System = System(
    encoder: Encoder,
    states: seq<Bytes>,
    wire: set<Packet>,
    decoders: seq<DecoderState>)

  datatype Event =
    | Update(current: Bytes)
    | Recover
    | Join
    | Deliver(decoder: nat, packet: Packet)
    | Reset(decoder: nat)

  function Start(e: Encoder): System {
    System(e, [], {}, [])
  }

  /** What an event can happen at: slices are of addressable length, and only sent packets arrive. */
  predicate Enabled(sys: System, event: Event) {
    match event
    case Update(current) => |current| <= MAX_LEN
    case Recover => sys.states != []
    case Join => true
    case Deliver(d, p) => d < |sys.decoders| && p in sys.wire
    case Reset(d) => d < |sys.decoders|
  }

  function Next(z: Zstd, schema: u64, sys: System, event: Event): System
    requires Enabled(sys, event)
  {
    match event
    case Update(current) =>
      var (e, r) := Publish(z, schema, sys.encoder, current);
      if r.Ok? then sys.(encoder := e, states := sys.states + [current], wire := sys.wire + {r.value})
      else sys.(encoder := e)
    case Recover =>
      var last := sys.states[|sys.states| - 1];
      sys.(wire := sys.wire + {RecoverySnapshot(z, schema, sys.encoder, last)})
    case Join => sys.(decoders := sys.decoders + [NEW_DECODER])
    case Deliver(d, p) => sys.(decoders := sys.decoders[d := Receive(z, schema, sys.decoders[d], p).0])
    case Reset(d) => sys.(decoders := sys.decoders[d := NEW_DECODER])
  }

  /** Events that are not enabled when their turn comes do not happen. */
  function Run(z: Zstd, schema: u64, sys: System, events: seq<Event>): System
    decreases |events|
  {
    if events == [] then sys
    else
      Run(z, schema, if Enabled(sys, events[0]) then Next(z, schema, sys, events[0]) else sys, events[1..])
  }

  // ---------------------------------------------------------------- safety

  function StateBefore(states: seq<Bytes>, sequence: nat): Option<Bytes>
    requires 1 <= sequence <= |states|
  {
    if sequence == 1 then None else Some(states[sequence - 2])
  }

  /** The packet describes one of the updates made so far. */
  ghost predicate Honest(z: Zstd, schema: u64, states: seq<Bytes>, p: Packet) {
    && 1 <= p.sequence <= |states|
    && Offers.Describes(z, schema, StateBefore(states, p.sequence), states[p.sequence - 1], p.sequence, p)
  }

  /** A decoder at sequence `s` holds exactly the state the encoder was given at `s`. */
  ghost predicate Synced(states: seq<Bytes>, d: DecoderState) {
    match d.sequence
    case None => d.state == None
    case Some(s) => 1 <= s <= |states| && d.state == Some(states[s - 1])
  }

  ghost predicate EncoderSynced(states: seq<Bytes>, e: Encoder) {
    && SequenceOf(e) == |states|
    && PreviousOf(e) == (if states == [] then None else Some(states[|states| - 1]))
    && forall n | 0 <= n < |states| :: |states[n]| <= MAX_LEN
  }

  ghost predicate Inv(z: Zstd, schema: u64, sys: System) {
    && EncoderSynced(sys.states, sys.encoder)
    && (forall p | p in sys.wire :: Honest(z, schema, sys.states, p))
    && (forall n | 0 <= n < |sys.decoders| :: Synced(sys.states, sys.decoders[n]))
  }

  lemma HonestPersists(z: Zstd, schema: u64, states: seq<Bytes>, more: Bytes, p: Packet)
    requires Honest(z, schema, states, p)
    ensures Honest(z, schema, states + [more], p)
  {
    hide Offers.Describes;
  }

  lemma SyncedPersists(states: seq<Bytes>, more: Bytes, d: DecoderState)
    requires Synced(states, d)
    ensures Synced(states + [more], d)
  {
  }

  lemma PublishIsHonest(z: Zstd, schema: u64, e: Encoder, states: seq<Bytes>, current: Bytes)
    requires Lossless(z) && |current| <= MAX_LEN && EncoderSynced(states, e)
    ensures var (e', r) := Publish(z, schema, e, current);
            && (r.Ok? <==> |states| + 1 < U64_LIMIT)
            && (r.Ok? ==> Honest(z, schema, states + [current], r.value) && EncoderSynced(states + [current], e'))
            && (r.Err? ==> e' == e)
  {
    hide Offers.Describes, ByteSync.Publish, FastSync.Publish, FastSync.AllOffers;
    match e {
      case Full(policy, st) => ByteSync.EncodeDescribes(z, schema, policy, st, current);
      case Fast(policy, st) => FastSync.PublishDescribes(z, schema, policy, st, current);
    }
    var (e', r) := Publish(z, schema, e, current);
    if r.Ok? {
      NewestIsHonest(z, schema, states, current, r.value);
    }
  }

  lemma NewestIsHonest(z: Zstd, schema: u64, states: seq<Bytes>, current: Bytes, p: Packet)
    requires |states| + 1 < U64_LIMIT
    requires Offers.Describes(z, schema, if states == [] then None else Some(states[|states| - 1]),
                              current, |states| + 1, p)
    ensures Honest(z, schema, states + [current], p)
  {
    assert p.sequence == |states| + 1;
    hide Offers.Describes;
  }

  lemma RecoveryIsHonest(z: Zstd, schema: u64, e: Encoder, states: seq<Bytes>)
    requires Lossless(z) && EncoderSynced(states, e) && states != []
    ensures var p := RecoverySnapshot(z, schema, e, states[|states| - 1]);
            Honest(z, schema, states, p) && p.kind == Snapshot && p.sequence == |states|
  {
    hide Offers.Describes;
    var previous, last := StateBefore(states, |states|), states[|states| - 1];
    match e {
      case Full(policy, st) => ByteSync.RecoveryDescribes(z, schema, policy, st, previous, last);
      case Fast(_, st) => Offers.SnapshotDescribes(z, schema, previous, last, st.sequence, 0, 0);
    }
  }

  /** What a decoder makes of any packet sent so far, depending only on where the two stand. */
  lemma DeliveryOutcome(z: Zstd, schema: u64, states: seq<Bytes>, d: DecoderState, p: Packet)
    requires Synced(states, d) && Honest(z, schema, states, p)
    ensures var (d', r) := Receive(z, schema, d, p);
            if d.sequence.Some? && p.sequence <= d.sequence.value then
              r == Ok(Duplicate(p.sequence)) && d' == d
            else if |Unpack(z, p).value| > MAX_PAYLOAD then
              r.Err? && d' == d
            else if p.kind == Snapshot || d.sequence == Some(p.baseSequence) then
              && r == Ok(Applied(p.sequence, states[p.sequence - 1]))
              && d' == DecoderState(Some(p.sequence), Some(states[p.sequence - 1]))
            else
              r == Ok(NeedRecovery(d.sequence, p.baseSequence)) && d' == d
  {
    hide SmartDelta.Apply, Fnv.Hash, LogicalPayload, Unpack;
    LogicalPayloadIsUnpacked(z, p, MAX_PAYLOAD);
  }

  lemma NextKeepsInv(z: Zstd, schema: u64, sys: System, event: Event)
    requires Lossless(z) && Inv(z, schema, sys) && Enabled(sys, event)
    ensures Inv(z, schema, Next(z, schema, sys, event))
  {
    hide Honest, Synced, EncoderSynced, Publish, RecoverySnapshot, Receive;
    match event {
      case Update(current) => UpdateKeepsInv(z, schema, sys, current);
      case Recover => RecoveryIsHonest(z, schema, sys.encoder, sys.states);
      case Join => NewIsSynced(sys.states);
      case Deliver(d, p) =>
        DeliveryKeepsSync(z, schema, sys.states, sys.decoders[d], p);
      case Reset(d) => NewIsSynced(sys.states);
    }
  }

  lemma UpdateKeepsInv(z: Zstd, schema: u64, sys: System, current: Bytes)
    requires Lossless(z) && Inv(z, schema, sys) && |current| <= MAX_LEN
    ensures Inv(z, schema, Next(z, schema, sys, Update(current)))
  {
    hide Honest, Synced, EncoderSynced, Publish;
    var (e, r) := Publish(z, schema, sys.encoder, current);
    PublishIsHonest(z, schema, sys.encoder, sys.states, current);
    if r.Ok? {
      var states := sys.states + [current];
      forall n | 0 <= n < |sys.decoders| ensures Synced(states, sys.decoders[n]) {
        SyncedPersists(sys.states, current, sys.decoders[n]);
      }
      forall p | p in sys.wire + {r.value} ensures Honest(z, schema, states, p) {
        if p != r.value {
          HonestPersists(z, schema, sys.states, current, p);
        }
      }
    }
  }

  lemma NewIsSynced(states: seq<Bytes>)
    ensures Synced(states, NEW_DECODER)
  {
  }

  lemma DeliveryKeepsSync(z: Zstd, schema: u64, states: seq<Bytes>, d: DecoderState, p: Packet)
    requires Synced(states, d) && Honest(z, schema, states, p)
    ensures Synced(states, Receive(z, schema, d, p).0)
  {
    hide Receive, Offers.Describes, Unpack;
    DeliveryOutcome(z, schema, states, d, p);
  }

  lemma {:induction false} RunKeepsInv(z: Zstd, schema: u64, sys: System, events: seq<Event>)
    requires Lossless(z) && Inv(z, schema, sys)
    ensures Inv(z, schema, Run(z, schema, sys, events))
    decreases |events|
  {
    if events != [] {
      hide Inv, Next, Enabled;
      if Enabled(sys, events[0]) {
        NextKeepsInv(z, schema, sys, events[0]);
        RunKeepsInv(z, schema, Next(z, schema, sys, events[0]), events[1..]);
      } else {
        RunKeepsInv(z, schema, sys, events[1..]);
      }
    }
  }

  /**
    The safety theorem.  Whatever is sent, lost, repeated, reordered or reset, with either encoder and
    any policy, every decoder holds the state of its own sequence number and every packet on the wire
    describes an update that was made.
    */
  lemma Safety(z: Zstd, schema: u64, e: Encoder, events: seq<Event>)
    requires Lossless(z) && IsNew(e)
    ensures Inv(z, schema, Run(z, schema, Start(e), events))
  {
    hide Run;
    RunKeepsInv(z, schema, Start(e), events);
  }

  /** Sequence numbers of a decoder are ordered, with "none yet" below all of them. */
  predicate NotBehind(a: Option<u64>, b: Option<u64>) {
    a.None? || (b.Some? && a.value <= b.value)
  }

  /** Unless it is reset, no decoder ever goes back, and none disappears. */
  lemma {:induction false} NeverGoesBack(z: Zstd, schema: u64, sys: System, events: seq<Event>, d: nat)
    requires d < |sys.decoders|
    requires Reset(d) !in events
    ensures d < |Run(z, schema, sys, events).decoders|
    ensures NotBehind(sys.decoders[d].sequence, Run(z, schema, sys, events).decoders[d].sequence)
    decreases |events|
  {
    if events != [] {
      var event := events[0];
      var next := if Enabled(sys, event) then Next(z, schema, sys, event) else sys;
      assert event in events;
      if Enabled(sys, event) && event.Deliver? {
        ReceiveNeverGoesBack(z, schema, sys.decoders[event.decoder], event.packet);
      }
      hide Publish, RecoverySnapshot, Receive;
      NeverGoesBack(z, schema, next, events[1..], d);
    }
  }

  // ---------------------------------------------------------------- progress

  /** From any reachable state one recovery snapshot brings any decoder up to date. */
  lemma RecoveryCatchesUp(z: Zstd, schema: u64, sys: System, d: nat)
    requires Lossless(z) && Inv(z, schema, sys)
    requires d < |sys.decoders| && sys.states != []
    requires |sys.states[|sys.states| - 1]| <= MAX_PAYLOAD
    ensures var last := sys.states[|sys.states| - 1];
            var p := RecoverySnapshot(z, schema, sys.encoder, last);
            var end := Run(z, schema, sys, [Recover, Deliver(d, p)]);
            && d < |end.decoders|
            && end.decoders[d] == DecoderState(Some(|sys.states|), Some(last))
  {
    var last := sys.states[|sys.states| - 1];
    var p := RecoverySnapshot(z, schema, sys.encoder, last);
    hide Honest, RecoverySnapshot, Receive, Run, EncoderSynced, Synced;
    RecoveryIsHonest(z, schema, sys.encoder, sys.states);
    SnapshotArrives(z, schema, sys.states, sys.decoders[d], p);
    RunTwo(z, schema, sys, d, p);
  }

  lemma RunTwo(z: Zstd, schema: u64, sys: System, d: nat, p: Packet)
    requires d < |sys.decoders| && sys.states != []
    requires p == RecoverySnapshot(z, schema, sys.encoder, sys.states[|sys.states| - 1])
    ensures Run(z, schema, sys, [Recover, Deliver(d, p)]).decoders
         == sys.decoders[d := Receive(z, schema, sys.decoders[d], p).0]
  {
    hide RecoverySnapshot, Receive, Run;
    var recovered := Next(z, schema, sys, Recover);
    assert [Recover] + [Deliver(d, p)] == [Recover, Deliver(d, p)] && [Deliver(d, p)] + [] == [Deliver(d, p)];
    RunFirst(z, schema, sys, Recover, [Deliver(d, p)]);
    RunFirst(z, schema, recovered, Deliver(d, p), []);
    RunNone(z, schema, Next(z, schema, recovered, Deliver(d, p)));
  }

  lemma RunFirst(z: Zstd, schema: u64, sys: System, first: Event, rest: seq<Event>)
    requires Enabled(sys, first)
    ensures Run(z, schema, sys, [first] + rest) == Run(z, schema, Next(z, schema, sys, first), rest)
  {
    hide Next, Enabled;
    assert ([first] + rest)[1..] == rest;
  }

  lemma RunNone(z: Zstd, schema: u64, sys: System)
    ensures Run(z, schema, sys, []) == sys
  {
  }

  lemma SnapshotArrives(z: Zstd, schema: u64, states: seq<Bytes>, d: DecoderState, p: Packet)
    requires Synced(states, d) && Honest(z, schema, states, p)
    requires p.kind == Snapshot && p.sequence == |states| && |states[|states| - 1]| <= MAX_PAYLOAD
    ensures Receive(z, schema, d, p).0 == DecoderState(Some(|states|), Some(states[|states| - 1]))
  {
    hide Receive, SmartDelta.Apply, Fnv.Hash;
    DeliveryOutcome(z, schema, states, d, p);
  }

  predicate UpToDate(states: seq<Bytes>, d: DecoderState) {
    d.sequence == if states == [] then None else Some(|states|)
  }

  /**
    A decoder that has everything so far applies the next packet, unless the payload could exceed the
    decompression limit: over a network that delivers in order nobody ever asks for recovery.
    */
  lemma NextUpdateApplies(z: Zstd, schema: u64, sys: System, d: nat, current: Bytes)
    requires Lossless(z) && Inv(z, schema, sys)
    requires d < |sys.decoders| && UpToDate(sys.states, sys.decoders[d])
    requires |sys.states| + 1 < U64_LIMIT && Offers.PayloadBound(current) <= MAX_PAYLOAD
    ensures var r := Publish(z, schema, sys.encoder, current).1;
            && r.Ok?
            && r.value.sequence == |sys.states| + 1
            && Receive(z, schema, sys.decoders[d], r.value) ==
               (DecoderState(Some(|sys.states| + 1), Some(current)), Ok(Applied(|sys.states| + 1, current)))
  {
    hide *;
    InvParts(z, schema, sys, d);
    NextOneApplies(z, schema, sys.encoder, sys.states, current, sys.decoders[d]);
  }

  lemma NextOneApplies(z: Zstd, schema: u64, e: Encoder, states: seq<Bytes>, current: Bytes, d: DecoderState)
    requires Lossless(z) && EncoderSynced(states, e) && Synced(states, d) && UpToDate(states, d)
    requires PreviousOf(e).Some? ==> |PreviousOf(e).value| <= MAX_LEN
    requires SequenceOf(e) == |states| && |states| + 1 < U64_LIMIT && Offers.PayloadBound(current) <= MAX_PAYLOAD
    ensures var r := Publish(z, schema, e, current).1;
            && r.Ok?
            && r.value.sequence == |states| + 1
            && Receive(z, schema, d, r.value) ==
               (DecoderState(Some(|states| + 1), Some(current)), Ok(Applied(|states| + 1, current)))
  {
    hide *;
    BoundedIsShort(current);
    PublishIsHonest(z, schema, e, states, current);
    PublishNumbers(z, schema, e, current);
    SyncedPersists(states, current, d);
    NewestApplies(z, schema, states, current, d, Publish(z, schema, e, current).1.value);
  }

  lemma InvParts(z: Zstd, schema: u64, sys: System, d: nat)
    requires Inv(z, schema, sys) && d < |sys.decoders|
    ensures EncoderSynced(sys.states, sys.encoder) && Synced(sys.states, sys.decoders[d])
    ensures PreviousOf(sys.encoder).Some? ==> |PreviousOf(sys.encoder).value| <= MAX_LEN
    ensures SequenceOf(sys.encoder) == |sys.states|
  {
    hide Honest, Synced;
  }

  lemma BoundedIsShort(current: Bytes)
    requires Offers.PayloadBound(current) <= MAX_PAYLOAD
    ensures |current| <= MAX_LEN
  {
  }

  lemma PublishNumbers(z: Zstd, schema: u64, e: Encoder, current: Bytes)
    requires Lossless(z) && |current| <= MAX_LEN && (PreviousOf(e).Some? ==> |PreviousOf(e).value| <= MAX_LEN)
    ensures var r := Publish(z, schema, e, current).1; r.Ok? ==> r.value.sequence == SequenceOf(e) + 1
  {
    hide ByteSync.Publish, FastSync.Publish, FastSync.AllOffers, Unpack, Fnv.Hash;
    match e {
      case Full(policy, st) => ByteSync.EncodeDescribes(z, schema, policy, st, current);
      case Fast(policy, st) => FastSync.PublishDescribes(z, schema, policy, st, current);
    }
  }

  lemma NewestApplies(z: Zstd, schema: u64, states: seq<Bytes>, current: Bytes, d: DecoderState, p: Packet)
    requires p.sequence == |states| + 1 && Honest(z, schema, states + [current], p)
    requires Synced(states + [current], d) && UpToDate(states, d)
    requires Offers.PayloadBound(current) <= MAX_PAYLOAD
    ensures Receive(z, schema, d, p) ==
            (DecoderState(Some(|states| + 1), Some(current)), Ok(Applied(|states| + 1, current)))
  {
    hide Receive, SmartDelta.Apply, Fnv.Hash, Unpack;
    DeliveryOutcome(z, schema, states + [current], d, p);
  }
}
