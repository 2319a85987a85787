/**
  The typed decoders of `sync.rs`.  They differ from the byte-state decoder in how they recognise a
  duplicate: by a bounded window of sequences seen, and by comparing with the local sequence.
  `Codec` stands for the state type: its schema, how a snapshot opens, how a state hashes and how a
  delta patches one.
  */
module Sync {
  import opened Core
  import opened Wire
  import opened Replay

  datatype Codec<!S> = Codec(
    schemaHash: u64,
    open: (Bytes, u64) -> Result<S>,
    hash: S -> Result<u64>,
    patch: (Bytes, S) -> Result<S>)

  /** What a decoder is set up with. */
  datatype Setup<!S> = Setup(codec: Codec<S>, zstd: Zstd, maxPayload: nat, capacity: nat)

  datatype Receiver<+S> = Receiver(sequence: Option<u64>, state: Option<S>, seen: seq<u64>)

  datatype Outcome<+S> =
    | Applied(sequence: u64, state: S)
    | NeedSnapshot(local: Option<u64>, required: u64)
    | Duplicate(sequence: u64)

  function NewReceiver<S>(): Receiver<S> {
    Receiver(None, None, [])
  }

  /** The state a packet leads to, or nothing when it needs a base that is not there. */
  function Advance<S>(setup: Setup<S>, sequence: Option<u64>, state: Option<S>, p: Packet): Result<Option<S>> {
    match p.kind
    case Snapshot =>
      var payload :- LogicalPayload(setup.zstd, p, setup.maxPayload);
      var next :- setup.codec.open(payload, p.baseHash);
      Ok(Some(next))
    case Delta =>
      if sequence != Some(p.baseSequence) then Ok(None)
      else if state.None? then Err(InvalidState)
      else
        var hash :- setup.codec.hash(state.value);
        if hash != p.baseHash then Ok(None)
        else
          var payload :- LogicalPayload(setup.zstd, p, setup.maxPayload);
          var next :- setup.codec.patch(payload, state.value);
          Ok(Some(next))
  }

  function Commit<S>(setup: Setup<S>, r: Receiver<S>, p: Packet, next: S): Receiver<S> {
    Receiver(Some(p.sequence), Some(next), Recorded(setup.capacity, r.seen, p.sequence))
  }

  predicate Seen<S>(r: Receiver<S>, p: Packet) {
    p.sequence in r.seen || (r.sequence.Some? && p.sequence < r.sequence.value)
  }

  function Receive<S>(setup: Setup<S>, r: Receiver<S>, p: Packet): (Receiver<S>, Result<Outcome<S>>) {
    if p.schemaHash != setup.codec.schemaHash then
      (r, Err(SchemaMismatch(setup.codec.schemaHash, p.schemaHash)))
    else if Seen(r, p) then (r, Ok(Duplicate(p.sequence)))
    else
      match Advance(setup, r.sequence, r.state, p)
      case Err(e) => (r, Err(e))
      case Ok(None) => (r, Ok(NeedSnapshot(r.sequence, p.baseSequence)))
      case Ok(Some(next)) => (Commit(setup, r, p, next), Ok(Applied(p.sequence, next)))
  }

  /** A packet of another schema: only its snapshots can be migrated. */
  function ReceiveMigrating<S>(setup: Setup<S>, migrate: (u64, Bytes) -> Result<S>, hash: Bytes -> u64,
                               r: Receiver<S>, p: Packet): (Receiver<S>, Result<Outcome<S>>) {
    if p.schemaHash == setup.codec.schemaHash then Receive(setup, r, p)
    else if p.kind != Snapshot then (r, Ok(NeedSnapshot(r.sequence, p.baseSequence)))
    else if Seen(r, p) then (r, Ok(Duplicate(p.sequence)))
    else
      match Migrate(setup, migrate, hash, p)
      case Err(e) => (r, Err(e))
      case Ok(next) => (Commit(setup, r, p, next), Ok(Applied(p.sequence, next)))
  }

  function Migrate<S>(setup: Setup<S>, migrate: (u64, Bytes) -> Result<S>, hash: Bytes -> u64, p: Packet): Result<S> {
    var payload :- LogicalPayload(setup.zstd, p, setup.maxPayload);
    if hash(payload) != p.baseHash then Err(InvalidState) else migrate(p.schemaHash, payload)
  }

  // ---------------------------------------------------------------- the simple rule

  /** The window is ascending and ends at the local sequence. */
  predicate WindowInv<S>(setup: Setup<S>, r: Receiver<S>) {
    && setup.capacity >= 1
    && |r.seen| <= setup.capacity
    && Ascending(r.seen)
    && (if r.seen == [] then r.sequence == None else r.sequence == Some(r.seen[|r.seen| - 1]))
  }

  /** Under the window invariant a packet counts as seen exactly when it is not newer than the local one. */
  lemma SeenMeansNotNewer<S>(setup: Setup<S>, r: Receiver<S>, p: Packet)
    requires WindowInv(setup, r)
    ensures Seen(r, p) <==> r.sequence.Some? && p.sequence <= r.sequence.value
  {
    if p.sequence in r.seen {
      var i :| 0 <= i < |r.seen| && r.seen[i] == p.sequence;
      assert i == |r.seen| - 1 || r.seen[i] < r.seen[|r.seen| - 1];
    }
  }

  lemma CommitKeepsWindow<S>(setup: Setup<S>, r: Receiver<S>, p: Packet, next: S)
    requires WindowInv(setup, r) && !Seen(r, p)
    ensures WindowInv(setup, Commit(setup, r, p, next))
    ensures r.sequence.Some? ==> r.sequence.value < p.sequence
  {
    SeenMeansNotNewer(setup, r, p);
    RecordNewest(setup.capacity, r.seen, p.sequence);
  }

  /** What arrives at a decoder: packets, with or without migrations at hand, and resets. */
  datatype Input<!S> =
    | Deliver(packet: Packet)
    | DeliverMigrating(packet: Packet, migrate: (u64, Bytes) -> Result<S>, hash: Bytes -> u64)
    | Reset

  function Step<S>(setup: Setup<S>, r: Receiver<S>, input: Input<S>): Receiver<S> {
    match input
    case Deliver(p) => Receive(setup, r, p).0
    case DeliverMigrating(p, migrate, hash) => ReceiveMigrating(setup, migrate, hash, r, p).0
    case Reset => NewReceiver()
  }

  function Run<S>(setup: Setup<S>, r: Receiver<S>, inputs: seq<Input<S>>): Receiver<S>
    decreases |inputs|
  {
    if inputs == [] then r else Run(setup, Step(setup, r, inputs[0]), inputs[1..])
  }

  lemma StepKeepsWindow<S>(setup: Setup<S>, r: Receiver<S>, input: Input<S>)
    requires WindowInv(setup, r)
    ensures WindowInv(setup, Step(setup, r, input))
    ensures !input.Reset? && r.sequence.Some? ==>
              Step(setup, r, input).sequence.Some? && r.sequence.value <= Step(setup, r, input).sequence.value
  {
    match input {
      case Reset =>
      case Deliver(p) =>
        hide WindowInv, Advance, Commit, Seen;
        if Receive(setup, r, p).0 != r {
          var next := Advance(setup, r.sequence, r.state, p).value.value;
          CommitKeepsWindow(setup, r, p, next);
          CommitSequence(setup, r, p, next);
        }
      case DeliverMigrating(p, migrate, hash) =>
        hide WindowInv, Advance, Commit, Seen, Migrate;
        if ReceiveMigrating(setup, migrate, hash, r, p).0 != r {
          var next := ReceiveMigrating(setup, migrate, hash, r, p).1.value.state;
          CommitKeepsWindow(setup, r, p, next);
          CommitSequence(setup, r, p, next);
        }
    }
  }

  lemma CommitSequence<S>(setup: Setup<S>, r: Receiver<S>, p: Packet, next: S)
    ensures Commit(setup, r, p, next).sequence == Some(p.sequence)
  {
  }

  /** In every run of a decoder, whatever arrives and however small the window. */
  lemma {:induction false} RunKeepsWindow<S>(setup: Setup<S>, r: Receiver<S>, inputs: seq<Input<S>>)
    requires WindowInv(setup, r)
    ensures WindowInv(setup, Run(setup, r, inputs))
    decreases |inputs|
  {
    if inputs != [] {
      hide WindowInv, Step;
      StepKeepsWindow(setup, r, inputs[0]);
      RunKeepsWindow(setup, Step(setup, r, inputs[0]), inputs[1..]);
    }
  }

  /** What a decoder answered to an input; a reset has no answer. */
  function Answer<S>(setup: Setup<S>, r: Receiver<S>, input: Input<S>): Option<Result<Outcome<S>>> {
    match input
    case Deliver(p) => Some(Receive(setup, r, p).1)
    case DeliverMigrating(p, migrate, hash) => Some(ReceiveMigrating(setup, migrate, hash, r, p).1)
    case Reset => None
  }

  function Answers<S>(setup: Setup<S>, r: Receiver<S>, inputs: seq<Input<S>>): seq<Option<Result<Outcome<S>>>>
    decreases |inputs|
  {
    if inputs == [] then []
    else [Answer(setup, r, inputs[0])] + Answers(setup, Step(setup, r, inputs[0]), inputs[1..])
  }

  /** A decoder without a window. */
  datatype Place<+S> = Place(sequence: Option<u64>, state: Option<S>)

  function PlaceOf<S>(r: Receiver<S>): Place<S> {
    Place(r.sequence, r.state)
  }

  /** The rule of the byte-state decoder: what is not newer than the local sequence is a duplicate. */
  predicate NotNewer<S>(at: Place<S>, p: Packet) {
    at.sequence.Some? && p.sequence <= at.sequence.value
  }

  function SimpleReceive<S>(setup: Setup<S>, at: Place<S>, p: Packet): (Place<S>, Result<Outcome<S>>) {
    if p.schemaHash != setup.codec.schemaHash then
      (at, Err(SchemaMismatch(setup.codec.schemaHash, p.schemaHash)))
    else if NotNewer(at, p) then (at, Ok(Duplicate(p.sequence)))
    else
      match Advance(setup, at.sequence, at.state, p)
      case Err(e) => (at, Err(e))
      case Ok(None) => (at, Ok(NeedSnapshot(at.sequence, p.baseSequence)))
      case Ok(Some(next)) => (Place(Some(p.sequence), Some(next)), Ok(Applied(p.sequence, next)))
  }

  function SimpleMigrating<S>(setup: Setup<S>, migrate: (u64, Bytes) -> Result<S>, hash: Bytes -> u64,
                              at: Place<S>, p: Packet): (Place<S>, Result<Outcome<S>>) {
    if p.schemaHash == setup.codec.schemaHash then SimpleReceive(setup, at, p)
    else if p.kind != Snapshot then (at, Ok(NeedSnapshot(at.sequence, p.baseSequence)))
    else if NotNewer(at, p) then (at, Ok(Duplicate(p.sequence)))
    else
      match Migrate(setup, migrate, hash, p)
      case Err(e) => (at, Err(e))
      case Ok(next) => (Place(Some(p.sequence), Some(next)), Ok(Applied(p.sequence, next)))
  }

  function SimpleStep<S>(setup: Setup<S>, at: Place<S>, input: Input<S>): (Place<S>, Option<Result<Outcome<S>>>) {
    match input
    case Deliver(p) => var (at', r) := SimpleReceive(setup, at, p); (at', Some(r))
    case DeliverMigrating(p, migrate, hash) =>
      var (at', r) := SimpleMigrating(setup, migrate, hash, at, p);
      (at', Some(r))
    case Reset => (Place(None, None), None)
  }

  /** Where a decoder that follows the simple rule ends, and everything it answered. */
  function SimpleRun<S>(setup: Setup<S>, at: Place<S>, inputs: seq<Input<S>>)
    : (Place<S>, seq<Option<Result<Outcome<S>>>>)
    decreases |inputs|
  {
    if inputs == [] then (at, [])
    else
      var (next, answer) := SimpleStep(setup, at, inputs[0]);
      var (end, answers) := SimpleRun(setup, next, inputs[1..]);
      (end, [answer] + answers)
  }

  lemma StepRefines<S>(setup: Setup<S>, r: Receiver<S>, input: Input<S>)
    requires WindowInv(setup, r)
    ensures (PlaceOf(Step(setup, r, input)), Answer(setup, r, input)) == SimpleStep(setup, PlaceOf(r), input)
  {
    if !input.Reset? {
      SeenMeansNotNewer(setup, r, input.packet);
    }
    hide WindowInv, Seen, Advance, Migrate, Recorded;
  }

  lemma {:induction false} RunRefines<S>(setup: Setup<S>, r: Receiver<S>, inputs: seq<Input<S>>)
    requires WindowInv(setup, r)
    ensures (PlaceOf(Run(setup, r, inputs)), Answers(setup, r, inputs)) == SimpleRun(setup, PlaceOf(r), inputs)
    decreases |inputs|
  {
    hide WindowInv, Step, Answer, SimpleStep, PlaceOf;
    if inputs != [] {
      StepRefines(setup, r, inputs[0]);
      StepKeepsWindow(setup, r, inputs[0]);
      RunRefines(setup, Step(setup, r, inputs[0]), inputs[1..]);
    }
  }

  /**
    The window refines the simple rule: over every run, whatever arrives and however small the window, the
    two end in the same place and give the same answers throughout.
    */
  lemma WindowRefinesSimpleRule<S>(setup: Setup<S>, inputs: seq<Input<S>>)
    requires setup.capacity >= 1
    ensures (PlaceOf(Run(setup, NewReceiver(), inputs)), Answers(setup, NewReceiver(), inputs))
         == SimpleRun(setup, Place(None, None), inputs)
  {
    RunRefines(setup, NewReceiver(), inputs);
  }

  // ---------------------------------------------------------------- the decoder

  class Decoder<S(0)> {
    const setup: Setup<S>
    const replay: ReplayWindow
    var sequence: Option<u64>
    var state: Option<S>

    ghost predicate Valid()
      reads this
    {
      replay.capacity == setup.capacity
    }

    function View(): Receiver<S>
      reads this, replay
    {
      Receiver(sequence, state, replay.seen)
    }

    constructor (codec: Codec<S>, zstd: Zstd, maxPayload: nat, capacity: nat)
      ensures Valid() && fresh(replay)
      ensures setup == Setup(codec, zstd, maxPayload, Max(capacity, 1))
      ensures View() == NewReceiver()
    {
      setup := Setup(codec, zstd, maxPayload, Max(capacity, 1));
      replay := new ReplayWindow(capacity);
      sequence, state := None, None;
    }

    method ApplyPacket(p: Packet) returns (r: Result<Outcome<S>>)
      requires Valid()
      modifies this, replay
      ensures Valid()
      ensures (View(), r) == Receive(setup, old(View()), p)
    {
      if p.schemaHash != setup.codec.schemaHash {
        return Err(SchemaMismatch(setup.codec.schemaHash, p.schemaHash));
      }
      if replay.Contains(p.sequence) {
        return Ok(Duplicate(p.sequence));
      }
      if sequence.Some? && p.sequence < sequence.value {
        return Ok(Duplicate(p.sequence));
      }
      match p.kind {
        case Snapshot =>
          var payload :- LogicalPayload(setup.zstd, p, setup.maxPayload);
          var next :- setup.codec.open(payload, p.baseHash);
          sequence := Some(p.sequence);
          state := Some(next);
          r := Ok(Applied(p.sequence, next));
        case Delta =>
          if sequence != Some(p.baseSequence) {
            return Ok(NeedSnapshot(sequence, p.baseSequence));
          }
          if state.None? {
            return Err(InvalidState);
          }
          var current := state.value;
          var hash :- setup.codec.hash(current);
          if hash != p.baseHash {
            return Ok(NeedSnapshot(sequence, p.baseSequence));
          }
          var payload :- LogicalPayload(setup.zstd, p, setup.maxPayload);
          var next :- setup.codec.patch(payload, current);
          sequence := Some(p.sequence);
          state := Some(next);
          r := Ok(Applied(p.sequence, next));
      }
      replay.Record(p.sequence);
    }

    method ApplyPacketWithMigrations(p: Packet, migrate: (u64, Bytes) -> Result<S>, hash: Bytes -> u64)
      returns (r: Result<Outcome<S>>)
      requires Valid()
      modifies this, replay
      ensures Valid()
      ensures (View(), r) == ReceiveMigrating(setup, migrate, hash, old(View()), p)
    {
      if p.schemaHash == setup.codec.schemaHash {
        r := ApplyPacket(p);
        return;
      }
      if p.kind != Snapshot {
        return Ok(NeedSnapshot(sequence, p.baseSequence));
      }
      if replay.Contains(p.sequence) {
        return Ok(Duplicate(p.sequence));
      }
      if sequence.Some? && p.sequence < sequence.value {
        return Ok(Duplicate(p.sequence));
      }
      var payload :- LogicalPayload(setup.zstd, p, setup.maxPayload);
      if hash(payload) != p.baseHash {
        return Err(InvalidState);
      }
      var next :- migrate(p.schemaHash, payload);
      sequence := Some(p.sequence);
      state := Some(next);
      replay.Record(p.sequence);
      return Ok(Applied(p.sequence, next));
    }

    method Reset()
      requires Valid()
      modifies this, replay
      ensures Valid() && View() == NewReceiver()
    {
      sequence, state := None, None;
      replay.Clear();
    }
  }
}
