/** The byte-state decoder of `byte_sync.rs`. */
module ByteDecoder {
  import opened Core
  import opened Wire
  import Fnv
  import SmartDelta
  import SmartDeltaCodec

  datatype DecoderState = DecoderState(sequence: Option<u64>, state: Option<Bytes>)

  const NEW_DECODER := DecoderState(None, None)

  datatype ApplyResult =
    | Applied(sequence: u64, state: Bytes)
    | NeedRecovery(local: Option<u64>, required: u64)
    | Duplicate(sequence: u64)

  function Receive(z: Zstd, schema: u64, st: DecoderState, p: Packet): (DecoderState, Result<ApplyResult>) {
    if p.schemaHash != schema then (st, Err(SchemaMismatch(schema, p.schemaHash)))
    else if st.sequence.Some? && p.sequence <= st.sequence.value then (st, Ok(Duplicate(p.sequence)))
    else
      match LogicalPayload(z, p, MAX_PAYLOAD)
      case Err(e) => (st, Err(e))
      case Ok(payload) =>
        match p.kind
        case Snapshot =>
          if Fnv.Hash(payload) != p.baseHash then (st, Err(InvalidState)) else Commit(p, payload)
        case Delta =>
          if st.sequence != Some(p.baseSequence) then
            (st, Ok(NeedRecovery(st.sequence, p.baseSequence)))
          else if st.state.None? then (st, Err(InvalidState))
          else if Fnv.Hash(st.state.value) != p.baseHash then
            (st, Ok(NeedRecovery(st.sequence, p.baseSequence)))
          else
            match SmartDelta.Apply(st.state.value, payload)
            case Err(e) => (st, Err(e))
            case Ok(next) => Commit(p, next)
  }

  function Commit(p: Packet, next: Bytes): (DecoderState, Result<ApplyResult>) {
    (DecoderState(Some(p.sequence), Some(next)), Ok(Applied(p.sequence, next)))
  }

  /** A snapshot in which any one byte was changed is refused, and leaves the decoder as it was. */
  lemma TamperedSnapshotRefused(z: Zstd, schema: u64, st: DecoderState, p: Packet, original: Bytes, k: nat)
    requires p.kind == Snapshot && p.schemaHash == schema && p.baseHash == Fnv.Hash(original)
    requires st.sequence.Some? ==> st.sequence.value < p.sequence
    requires Unpack(z, p).Some? && Fnv.DifferOnlyAt(Unpack(z, p).value, original, k)
    requires |original| <= MAX_PAYLOAD
    ensures var (st', r) := Receive(z, schema, st, p);
            if Unpack(z, p).value == original then r == Ok(Applied(p.sequence, original))
            else st' == st && r == Err(InvalidState)
  {
    Fnv.SubstitutionDetected(Unpack(z, p).value, original, k);
  }

  /** No packet at all, honest or not, makes a decoder go back or change state without moving on. */
  lemma ReceiveNeverGoesBack(z: Zstd, schema: u64, st: DecoderState, p: Packet)
    ensures var (st', r) := Receive(z, schema, st, p);
            if r.Ok? && r.value.Applied? then
              && st'.sequence == Some(p.sequence) && st'.state == Some(r.value.state)
              && (st.sequence.Some? ==> st.sequence.value < p.sequence)
            else st' == st
  {
  }

  /** A packet of another schema is refused before anything else, and nothing changes. */
  lemma OtherSchemaRefused(z: Zstd, schema: u64, st: DecoderState, p: Packet)
    requires p.schemaHash != schema
    ensures Receive(z, schema, st, p) == (st, Err(SchemaMismatch(schema, p.schemaHash)))
  {
  }

  /** Exactly when a packet is applied, and to what: the payload unpacks within 64 MiB to the state or to its change. */
  lemma AppliedExactly(z: Zstd, schema: u64, st: DecoderState, p: Packet)
    ensures var r := Receive(z, schema, st, p).1;
            var newer := p.schemaHash == schema && (st.sequence.Some? ==> p.sequence > st.sequence.value);
            r.Ok? && r.value.Applied? <==>
              && newer
              && Unpack(z, p).Some? && |Unpack(z, p).value| <= 0x400_0000
              && if p.kind == Snapshot then Fnv.Hash(Unpack(z, p).value) == p.baseHash
                 else
                   && st.sequence == Some(p.baseSequence) && st.state.Some?
                   && Fnv.Hash(st.state.value) == p.baseHash
                   && SmartDelta.Apply(st.state.value, Unpack(z, p).value).Ok?
    ensures var r := Receive(z, schema, st, p).1;
            r.Ok? && r.value.Applied? ==>
              r.value.state == if p.kind == Snapshot then Unpack(z, p).value
                               else SmartDelta.Apply(st.state.value, Unpack(z, p).value).value
  {
    hide SmartDelta.Apply, Fnv.Hash, LogicalPayload, Unpack;
    LogicalPayloadIsUnpacked(z, p, MAX_PAYLOAD);
  }

  /**
    A new delta whose base is elsewhere asks for recovery, and so does one whose base has the right number but
    differs in any one byte: a delta is never applied to such a state.
    */
  lemma WrongBaseNeedsRecovery(z: Zstd, schema: u64, st: DecoderState, p: Packet, base: Bytes, k: nat)
    requires p.kind == Delta && p.schemaHash == schema && p.baseHash == Fnv.Hash(base)
    requires st.sequence.Some? ==> st.sequence.value < p.sequence
    requires Unpack(z, p).Some? && |Unpack(z, p).value| <= 0x400_0000
    requires st.sequence == Some(p.baseSequence) ==>
               st.state.Some? && Fnv.DifferOnlyAt(st.state.value, base, k) && st.state.value != base
    ensures Receive(z, schema, st, p) == (st, Ok(NeedRecovery(st.sequence, p.baseSequence)))
  {
    hide SmartDelta.Apply, Fnv.Hash, LogicalPayload, Unpack;
    LogicalPayloadIsUnpacked(z, p, MAX_PAYLOAD);
    if st.sequence == Some(p.baseSequence) {
      Fnv.SubstitutionDetected(st.state.value, base, k);
    }
  }

  class ByteStateDecoder {
    const z: Zstd
    const schemaHash: u64
    var sequence: Option<u64>
    var state: Option<Bytes>

    function State(): DecoderState
      reads this
    {
      DecoderState(sequence, state)
    }

    constructor (z: Zstd, schemaName: Bytes)
      ensures this.z == z && schemaHash == Fnv.Hash(schemaName)
      ensures State() == NEW_DECODER
    {
      this.z := z;
      schemaHash := Fnv.Hash(schemaName);
      sequence, state := None, None;
    }

    method Apply(p: Packet) returns (r: Result<ApplyResult>)
      requires state.Some? ==> |state.value| <= MAX_LEN
      modifies this
      ensures (State(), r) == Receive(z, schemaHash, old(State()), p)
    {
      hide SmartDelta.Apply, Fnv.Hash;
      if p.schemaHash != schemaHash {
        return Err(SchemaMismatch(schemaHash, p.schemaHash));
      }
      if sequence.Some? && p.sequence <= sequence.value {
        return Ok(Duplicate(p.sequence));
      }
      var payload :- LogicalPayload(z, p, MAX_PAYLOAD);
      var next: Bytes;
      match p.kind {
        case Snapshot =>
          if Fnv.Hash(payload) != p.baseHash {
            return Err(InvalidState);
          }
          next := payload;
        case Delta =>
          if sequence != Some(p.baseSequence) {
            return Ok(NeedRecovery(sequence, p.baseSequence));
          }
          if state.None? {
            return Err(InvalidState);
          }
          var base := state.value;
          if Fnv.Hash(base) != p.baseHash {
            return Ok(NeedRecovery(sequence, p.baseSequence));
          }
          LogicalPayloadIsUnpacked(z, p, MAX_PAYLOAD);
          next :- SmartDeltaCodec.ApplyBytes(base, payload);
      }
      sequence := Some(p.sequence);
      state := Some(next);
      return Ok(Applied(p.sequence, next));
    }

    method Reset()
      modifies this
      ensures State() == NEW_DECODER
    {
      sequence, state := None, None;
    }
  }
}
