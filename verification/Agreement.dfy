/**
  The windowed decoder of `sync.rs`, set up for byte states, against the byte-state decoder of `byte_sync.rs`.
  */
module Agreement {
  import opened Core
  import opened Wire
  import Sync
  import ByteDecoder
  import Fnv
  import SmartDelta

  function OpenBytes(payload: Bytes, hash: u64): Result<Bytes> {
    if Fnv.Hash(payload) != hash then Err(InvalidState) else Ok(payload)
  }

  function HashBytes(state: Bytes): Result<u64> {
    Ok(Fnv.Hash(state))
  }

  function PatchBytes(payload: Bytes, state: Bytes): Result<Bytes> {
    SmartDelta.Apply(state, payload)
  }

  function ByteSetup(z: Zstd, schema: u64, capacity: nat): Sync.Setup<Bytes> {
    Sync.Setup(Sync.Codec(schema, OpenBytes, HashBytes, PatchBytes), z, MAX_PAYLOAD, capacity)
  }

  function PlaceOf(st: ByteDecoder.DecoderState): Sync.Place<Bytes> {
    Sync.Place(st.sequence, st.state)
  }

  /** The answers of the byte-state decoder in terms of the other's. */
  function Translate(r: Result<ByteDecoder.ApplyResult>): Result<Sync.Outcome<Bytes>> {
    match r
    case Err(e) => Err(e)
    case Ok(Applied(sequence, state)) => Ok(Sync.Applied(sequence, state))
    case Ok(NeedRecovery(local, required)) => Ok(Sync.NeedSnapshot(local, required))
    case Ok(Duplicate(sequence)) => Ok(Sync.Duplicate(sequence))
  }

  /** A delta that the decoder could not use whatever its payload. */
  predicate Unusable(st: ByteDecoder.DecoderState, p: Packet) {
    p.kind == Delta && (st.sequence != Some(p.baseSequence) || st.state.None? || Fnv.Hash(st.state.value) != p.baseHash)
  }

  /** A packet that is looked at: of the right schema and newer than the local sequence. */
  predicate Fresh(schema: u64, st: ByteDecoder.DecoderState, p: Packet) {
    p.schemaHash == schema && !(st.sequence.Some? && p.sequence <= st.sequence.value)
  }

  /**
    On every packet the two rules lead to the same place and agree on what is a duplicate.  Their answers are
    the same unless an unusable delta has a payload that does not unpack: the byte-state decoder unpacks first.
    */
  lemma SameRule(z: Zstd, schema: u64, capacity: nat, st: ByteDecoder.DecoderState, p: Packet)
    ensures var (at, answer) := Sync.SimpleReceive(ByteSetup(z, schema, capacity), PlaceOf(st), p);
            var (st', r) := ByteDecoder.Receive(z, schema, st, p);
            && at == PlaceOf(st')
            && (answer == Ok(Sync.Duplicate(p.sequence)) <==> r == Ok(ByteDecoder.Duplicate(p.sequence)))
            && (answer == Translate(r) <==>
                !(Fresh(schema, st, p) && Unusable(st, p) && LogicalPayload(z, p, MAX_PAYLOAD).Err?))
  {
    hide Fnv.Hash, SmartDelta.Apply;
  }

  /** A run of the byte-state decoder over the same inputs. */
  function ByteRun(z: Zstd, schema: u64, st: ByteDecoder.DecoderState, inputs: seq<Sync.Input<Bytes>>)
    : ByteDecoder.DecoderState
    requires forall n | 0 <= n < |inputs| :: !inputs[n].DeliverMigrating?
    decreases |inputs|
  {
    if inputs == [] then st
    else if inputs[0].Reset? then ByteRun(z, schema, ByteDecoder.NEW_DECODER, inputs[1..])
    else ByteRun(z, schema, ByteDecoder.Receive(z, schema, st, inputs[0].packet).0, inputs[1..])
  }

  lemma {:induction false} SimpleRunsAgree(z: Zstd, schema: u64, capacity: nat, st: ByteDecoder.DecoderState,
                                           inputs: seq<Sync.Input<Bytes>>)
    requires forall n | 0 <= n < |inputs| :: !inputs[n].DeliverMigrating?
    ensures Sync.SimpleRun(ByteSetup(z, schema, capacity), PlaceOf(st), inputs).0
         == PlaceOf(ByteRun(z, schema, st, inputs))
    decreases |inputs|
  {
    hide Sync.SimpleReceive, ByteDecoder.Receive, ByteSetup;
    if inputs != [] {
      if inputs[0].Reset? {
        SimpleRunsAgree(z, schema, capacity, ByteDecoder.NEW_DECODER, inputs[1..]);
      } else {
        SameRule(z, schema, capacity, st, inputs[0].packet);
        SimpleRunsAgree(z, schema, capacity, ByteDecoder.Receive(z, schema, st, inputs[0].packet).0, inputs[1..]);
      }
    }
  }

  /** Over every run of packets and resets, the windowed decoder is always where the byte-state decoder is. */
  lemma WindowedIsByteDecoder(z: Zstd, schema: u64, capacity: nat, inputs: seq<Sync.Input<Bytes>>)
    requires capacity >= 1 && forall n | 0 <= n < |inputs| :: !inputs[n].DeliverMigrating?
    ensures var r := Sync.Run(ByteSetup(z, schema, capacity), Sync.NewReceiver(), inputs);
            var st := ByteRun(z, schema, ByteDecoder.NEW_DECODER, inputs);
            r.sequence == st.sequence && r.state == st.state
  {
    hide Sync.Run, Sync.SimpleRun, ByteRun, Sync.Answers;
    Sync.WindowRefinesSimpleRule(ByteSetup(z, schema, capacity), inputs);
    SimpleRunsAgree(z, schema, capacity, ByteDecoder.NEW_DECODER, inputs);
  }
}
