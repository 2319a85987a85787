/**
  The agent-state encoder of `sync.rs`, and the stream it makes with the decoders of `Sync` and
  `Reorder`.  Which of the four candidates the adaptive policy picks is left open: `Mode` is any choice.
  */
module AgentSync {
  import opened Core
  import opened Wire
  import opened AgentCodec
  import opened Sync
  import opened OutOfOrder
  import AgentBytes
  import Fnv
  import Reorder
  import Utf8
  import Varint

  function StateHash(s: AgentState): u64 {
    Fnv.Hash(EncodeState(s))
  }

  function OpenAgent(payload: Bytes, hash: u64): Result<AgentState> {
    var s :- DecodeState(payload);
    if StateHash(s) != hash then Err(InvalidState) else Ok(s)
  }

  function HashAgent(s: AgentState): Result<u64> {
    Ok(StateHash(s))
  }

  function PatchAgent(payload: Bytes, s: AgentState): Result<AgentState> {
    var d :- DecodeDelta(payload);
    ApplyDelta(d, s)
  }

  /** The decoder's set-up for agent states; `schema` is the hash of their schema's name. */
  function AgentSetup(schema: u64, z: Zstd): Setup<AgentState> {
    Setup(Codec(schema, OpenAgent, HashAgent, PatchAgent), z, MAX_PAYLOAD, 256)
  }

  // ---------------------------------------------------------------- the encoder

  datatype Mode = RawSnapshot | ZstdSnapshot | RawDelta | ZstdDelta

  /** The schema hash and the compression settings. */
  datatype Options = Options(schema: u64, zstd: Zstd, level: int, minSavings: nat)

  datatype EncoderState = EncoderState(sequence: u64, last: Option<AgentState>)

  const NEW_ENCODER := EncoderState(0, None)

  function Snapshots(c: Options, mode: Mode, snapshot: Packet): Packet {
    if mode == ZstdSnapshot then ZstdCandidate(c.zstd, snapshot, c.level, c.minSavings) else snapshot
  }

  function Choose(c: Options, mode: Mode, snapshot: Packet, delta: Packet): Packet {
    match mode
    case RawDelta => delta
    case ZstdDelta => ZstdCandidate(c.zstd, delta, c.level, c.minSavings)
    case _ => Snapshots(c, mode, snapshot)
  }

  function RawSnapshotOf(c: Options, sequence: u64, s: AgentState): Packet {
    NewSnapshot(sequence, StateHash(s), c.schema, EncodeState(s))
  }

  function Publish(c: Options, mode: Mode, st: EncoderState, current: AgentState): (EncoderState, Result<Packet>) {
    var sequence := SaturatingAdd(st.sequence, 1);
    var snapshot := RawSnapshotOf(c, sequence, current);
    if st.last.None? then (EncoderState(sequence, Some(current)), Ok(Snapshots(c, mode, snapshot)))
    else
      match EncodeDelta(Between(st.last.value, current))
      case Err(e) => (st.(sequence := sequence), Err(e))
      case Ok(payload) =>
        var delta := NewDelta(sequence, sequence - 1, StateHash(st.last.value), c.schema, payload);
        (EncoderState(sequence, Some(current)), Ok(Choose(c, mode, snapshot, delta)))
  }

  function RecoverySnapshot(c: Options, mode: Mode, st: EncoderState, current: AgentState): Packet {
    Snapshots(c, mode, RawSnapshotOf(c, st.sequence, current))
  }

  function Force(c: Options, mode: Mode, st: EncoderState, current: AgentState): (EncoderState, Packet) {
    var st' := EncoderState(SaturatingAdd(st.sequence, 1), Some(current));
    (st', RecoverySnapshot(c, mode, st', current))
  }

  class Encoder {
    const options: Options
    var sequence: u64
    var lastState: Option<AgentState>

    function View(): EncoderState
      reads this
    {
      EncoderState(sequence, lastState)
    }

    constructor (options: Options)
      ensures this.options == options && View() == NEW_ENCODER
    {
      this.options := options;
      sequence, lastState := 0, None;
    }

    method Encode(mode: Mode, current: AgentState) returns (r: Result<Packet>)
      modifies this
      ensures (View(), r) == Publish(options, mode, old(View()), current)
    {
      hide EncodeState, EncodeDelta, Between, Fnv.Hash, ZstdCandidate;
      sequence := SaturatingAdd(sequence, 1);
      var bytes := AgentBytes.EncodeAgentState(current);
      var hash := Fnv.Fnv1a64(bytes);
      var snapshot := NewSnapshot(sequence, hash, options.schema, bytes);
      var packet: Packet;
      match lastState {
        case None => packet := Snapshots(options, mode, snapshot);
        case Some(previous) =>
          var d := AgentBytes.BetweenStates(previous, current);
          var previousBytes := AgentBytes.EncodeAgentState(previous);
          var previousHash := Fnv.Fnv1a64(previousBytes);
          var payload :- AgentBytes.EncodeAgentDelta(d);
          var delta := NewDelta(sequence, sequence - 1, previousHash, options.schema, payload);
          packet := Choose(options, mode, snapshot, delta);
      }
      lastState := Some(current);
      return Ok(packet);
    }

    /** A numbered snapshot, whatever came before. */
    method ForceSnapshot(mode: Mode, current: AgentState) returns (p: Packet)
      modifies this
      ensures (View(), p) == Force(options, mode, old(View()), current)
    {
      hide EncodeState, Fnv.Hash, ZstdCandidate;
      sequence := SaturatingAdd(sequence, 1);
      lastState := Some(current);
      p := Recover(mode, current);
    }

    /** A snapshot at the current sequence, which it leaves as it is. */
    method Recover(mode: Mode, current: AgentState) returns (p: Packet)
      ensures p == RecoverySnapshot(options, mode, View(), current)
    {
      hide EncodeState, Fnv.Hash, ZstdCandidate;
      var bytes := AgentBytes.EncodeAgentState(current);
      var hash := Fnv.Fnv1a64(bytes);
      p := Snapshots(options, mode, NewSnapshot(sequence, hash, options.schema, bytes));
    }
  }

  /**
    What is sent: a delta exactly when there is a last state and the choice is for one, compressed only when
    the choice says so, and always numbered one above the last packet.
    */
  lemma ModeIsKept(c: Options, mode: Mode, st: EncoderState, current: AgentState)
    requires Storable(current) && st.sequence < U64_LIMIT - 1
    ensures var (st', r) := Publish(c, mode, st, current);
            && st' == EncoderState(st.sequence + 1, Some(current))
            && r.Ok? && r.value.sequence == st.sequence + 1 && r.value.schemaHash == c.schema
            && (r.value.kind == Delta <==> st.last.Some? && (mode == RawDelta || mode == ZstdDelta))
            && (mode == RawSnapshot || mode == RawDelta ==> r.value.flags == 0)
            && (r.value.flags == 0 ==>
                  Ok(r.value.payload) == if r.value.kind == Snapshot then Ok(EncodeState(current))
                                         else EncodeDelta(Between(st.last.value, current)))
            && var delta := NewDelta(st.sequence + 1, st.sequence, r.value.baseHash, c.schema, r.value.payload);
               var snapshot := NewSnapshot(st.sequence + 1, StateHash(current), c.schema, r.value.payload);
               r.value.(flags := 0) == if r.value.kind == Delta then delta else snapshot
  {
    hide EncodeState, EncodeDelta, Between, Fnv.Hash, MaskMatches, StorableDelta, Storable, DecodeDelta;
    if st.last.Some? {
      BetweenIsWellFormed(st.last.value, current);
      DeltaRoundTrip(Between(st.last.value, current));
    }
  }

  /** Compression, when it is chosen, is tried on what would be sent without it. */
  lemma ChosenIsTried(c: Options, st: EncoderState, current: AgentState)
    requires Storable(current) && st.sequence < U64_LIMIT - 1
    ensures var raw, zstd := Publish(c, RawSnapshot, st, current).1, Publish(c, ZstdSnapshot, st, current).1;
            raw.Ok? && zstd == Ok(ZstdCandidate(c.zstd, raw.value, c.level, c.minSavings))
    ensures var raw, zstd := Publish(c, RawDelta, st, current).1, Publish(c, ZstdDelta, st, current).1;
            raw.Ok? && zstd == Ok(if st.last.None? then raw.value
                                  else ZstdCandidate(c.zstd, raw.value, c.level, c.minSavings))
  {
    hide EncodeState, EncodeDelta, Between, Fnv.Hash, MaskMatches, StorableDelta, Storable, DecodeDelta, ZstdCandidate;
    if st.last.Some? {
      BetweenIsWellFormed(st.last.value, current);
      DeltaRoundTrip(Between(st.last.value, current));
    }
  }

  /** A snapshot opens exactly when it decodes and what it decodes to has the hash it was sent with. */
  lemma OpensExactly(payload: Bytes, hash: u64, s: AgentState)
    ensures OpenAgent(payload, hash) == Ok(s) <==> DecodeState(payload) == Ok(s) && Fnv.Hash(EncodeState(s)) == hash
    ensures DecodeState(payload).Ok? && OpenAgent(payload, hash).Err? ==> OpenAgent(payload, hash) == Err(InvalidState)
  {
    hide DecodeState, EncodeState, Fnv.Hash;
  }

  // ---------------------------------------------------------------- payload sizes

  function TextSize(s: AgentState): nat {
    |s.agentId| + |s.model| + |s.status| + |s.task| + |s.currentFile|
  }

  /** Small enough for every packet about it to be accepted. */
  predicate Sendable(s: AgentState) {
    TextSize(s) + 128 <= MAX_PAYLOAD
  }

  /** A number below 2^70 takes at most ten bytes. */
  lemma ShortNumber(n: nat)
    requires n < 0x40_0000_0000_0000_0000
    ensures |Varint.Put(n)| <= 10
  {
    assert Pow2(7 * 10) == 0x40_0000_0000_0000_0000 by {
      hide Pow2;
      Pow2Of7();
      Pow2Add(7, 7);
      Pow2Add(14, 14);
      Pow2Add(28, 28);
      Pow2Add(56, 14);
    }
    hide Varint.Put, Pow2;
    Varint.PutLength(n, 10);
  }

  /** No number of the 128-bit width takes more than nineteen. */
  lemma NumbersAreShort(n: nat)
    requires n < 2 * I128_LIMIT
    ensures |Varint.Put(n)| <= 19
  {
    hide Varint.Put, Pow2;
    Pow2Of128();
    Pow2Add(128, 5);
    Varint.PutLength(n, 19);
  }

  lemma ShortDifference(v: i128)
    requires -U64_LIMIT < v < U64_LIMIT
    ensures |Varint.Put(ZigZag(v))| <= 10
  {
    hide Varint.Put;
    if v < 0 {
      assert 2 * v % (2 * I128_LIMIT) == 2 * v + 2 * I128_LIMIT;
    } else {
      assert 2 * v % (2 * I128_LIMIT) == 2 * v;
    }
    ShortNumber(ZigZag(v));
  }

  lemma StateSize(s: AgentState)
    requires Storable(s)
    ensures |EncodeState(s)| <= TextSize(s) + 128
  {
    hide Varint.Put, Utf8.Valid;
    ShortNumber(|s.agentId|);
    ShortNumber(|s.model|);
    ShortNumber(|s.status|);
    ShortNumber(|s.task|);
    ShortNumber(|s.currentFile|);
    ShortNumber(s.progress);
    ShortNumber(s.tokens);
    ShortNumber(s.memoryMb);
    ShortNumber(s.filesProcessed);
  }

  lemma TextFieldSize(present: bool, changed: bool, s: Utf8.Text)
    requires |s| <= MAX_LEN
    ensures var e := PutOptText(present, IfChanged(changed, s)); e.Ok? ==> |e.value| <= 10 + |s|
  {
    hide Varint.Put, Utf8.Valid;
    ShortNumber(|s|);
  }

  lemma AmountFieldSize(present: bool, changed: bool, v: i128)
    requires -U64_LIMIT < v < U64_LIMIT
    ensures var e := PutOptSigned(present, IfChanged<i128>(changed, v)); e.Ok? ==> |e.value| <= 10
  {
    hide Varint.Put, ZigZag;
    ShortDifference(v);
  }

  lemma FloatFieldSize(present: bool, f: Option<F32>)
    ensures var e := PutOptFloat(present, f); e.Ok? ==> |e.value| <= 4
  {
  }

  lemma RestSize(d: AgentDelta, before: AgentState, after: AgentState)
    requires d == Between(before, after) && Storable(after)
    ensures EncodeRest(d).Ok? ==> |EncodeRest(d).value| <= 54 + |after.currentFile|
  {
    hide PutOptText, PutOptSigned, PutOptFloat, Utf8.Valid, Bit, MaskOf, Changes, IfChanged;
    var c := Changes(before, after);
    AmountFieldSize(Bit(d.mask, 4), c[4], after.progress - before.progress);
    AmountFieldSize(Bit(d.mask, 5), c[5], after.tokens - before.tokens);
    AmountFieldSize(Bit(d.mask, 6), c[6], after.memoryMb - before.memoryMb);
    FloatFieldSize(Bit(d.mask, 7), d.cpuPercent);
    AmountFieldSize(Bit(d.mask, 8), c[8], after.filesProcessed - before.filesProcessed);
    TextFieldSize(Bit(d.mask, 9), c[9], after.currentFile);
  }

  lemma DeltaSize(before: AgentState, after: AgentState)
    requires Storable(after)
    ensures var e := EncodeDelta(Between(before, after)); e.Ok? ==> |e.value| <= TextSize(after) + 128
  {
    hide PutOptText, EncodeRest, PutLe, Utf8.Valid, Bit, MaskOf, Changes, IfChanged;
    var d := Between(before, after);
    var c := Changes(before, after);
    RestSize(d, before, after);
    TextFieldSize(Bit(d.mask, 0), c[0], after.agentId);
    TextFieldSize(Bit(d.mask, 1), c[1], after.model);
    TextFieldSize(Bit(d.mask, 2), c[2], after.status);
    TextFieldSize(Bit(d.mask, 3), c[3], after.task);
  }

  // ---------------------------------------------------------------- the stream

  lemma ChoiceKeepsMeaning(c: Options, p: Packet)
    requires Lossless(c.zstd) && !IsCompressed(p) && |p.payload| <= MAX_PAYLOAD
    ensures var q := ZstdCandidate(c.zstd, p, c.level, c.minSavings);
            && LogicalPayload(c.zstd, q, MAX_PAYLOAD) == Ok(p.payload)
            && q.(payload := p.payload, flags := p.flags) == p
    ensures LogicalPayload(c.zstd, p, MAX_PAYLOAD) == Ok(p.payload)
  {
    CandidateMeansTheSame(c.zstd, p, c.level, c.minSavings);
    LogicalPayloadIsUnpacked(c.zstd, p, MAX_PAYLOAD);
    LogicalPayloadIsUnpacked(c.zstd, ZstdCandidate(c.zstd, p, c.level, c.minSavings), MAX_PAYLOAD);
  }

  /** A snapshot of the newest state, in either form. */
  lemma SnapshotIsHonest(c: Options, mode: Mode, states: seq<AgentState>, current: AgentState)
    requires Lossless(c.zstd) && |states| + 1 < U64_LIMIT - 1 && Sendable(current)
    ensures var p := Snapshots(c, mode, RawSnapshotOf(c, |states| + 1, current));
            && Honest(AgentSetup(c.schema, c.zstd), states + [current], p)
            && p.sequence == |states| + 1 && p.kind == Snapshot
  {
    hide EncodeState, DecodeState, Fnv.Hash, ZstdCandidate, LogicalPayload, TextSize, Utf8.Valid;
    var raw := RawSnapshotOf(c, |states| + 1, current);
    SendableIsStorable(current);
    StateSize(current);
    StateRoundTrip(current);
    ChoiceKeepsMeaning(c, raw);
  }

  lemma SendableIsStorable(s: AgentState)
    requires Sendable(s)
    ensures Storable(s)
  {
  }

  /** A difference from the last state, in either form: honest unless it loses the sign of a zero. */
  lemma DeltaIsHonest(c: Options, states: seq<AgentState>, current: AgentState)
    requires Lossless(c.zstd) && 1 <= |states| && |states| + 1 < U64_LIMIT - 1 && Sendable(current)
    ensures var last := states[|states| - 1];
            var kept := !OppositeZeros(last.cpuPercent, current.cpuPercent);
            var e := EncodeDelta(Between(last, current));
            && e.Ok?
            && var raw := NewDelta(|states| + 1, |states|, StateHash(last), c.schema, e.value);
               var z := ZstdCandidate(c.zstd, raw, c.level, c.minSavings);
               && (Honest(AgentSetup(c.schema, c.zstd), states + [current], raw) <==> kept)
               && (Honest(AgentSetup(c.schema, c.zstd), states + [current], z) <==> kept)
               && z.sequence == |states| + 1
  {
    hide EncodeDelta, DecodeDelta, ApplyDelta, Between, StateHash, ZstdCandidate, LogicalPayload,
         TextSize, OppositeZeros, Received, Utf8.Valid;
    var last := states[|states| - 1];
    SendableIsStorable(current);
    AgentDeltaEndToEnd(last, current);
    DeltaSize(last, current);
    var payload := EncodeDelta(Between(last, current)).value;
    var raw := NewDelta(|states| + 1, |states|, StateHash(last), c.schema, payload);
    ChoiceKeepsMeaning(c, raw);
    assert PatchAgent(payload, last) == Ok(current) <==> !OppositeZeros(last.cpuPercent, current.cpuPercent);
  }

  /** The encoding of a state around its float. */
  lemma AroundFloat(s: AgentState) returns (head: Bytes, tail: Bytes)
    ensures forall f: F32 :: EncodeState(s.(cpuPercent := f)) == head + f + tail
  {
    hide Varint.Put, PutText, Utf8.Valid;
    head := PutText(s.agentId) + PutText(s.model) + PutText(s.status) + PutText(s.task)
            + Varint.Put(s.progress) + Varint.Put(s.tokens) + Varint.Put(s.memoryMb);
    tail := Varint.Put(s.filesProcessed) + (PutText(s.currentFile) + []);
    forall f: F32 ensures EncodeState(s.(cpuPercent := f)) == head + f + tail {
    }
  }

  /** A lost sign is noticed: the state that the receiver is left with never has the hash of the true one. */
  lemma LostSignIsNoticed(before: AgentState, after: AgentState)
    requires OppositeZeros(before.cpuPercent, after.cpuPercent)
    ensures StateHash(Received(before, after)) != StateHash(after)
  {
    hide EncodeState, Fnv.Hash;
    var head, tail := AroundFloat(after);
    var was, now := before.cpuPercent, after.cpuPercent;
    assert after.(cpuPercent := now) == after;
    var s, t := head + was + tail, head + now + tail;
    assert s == EncodeState(Received(before, after)) && t == EncodeState(after);
    assert was[3] != now[3] && forall i | 0 <= i < 3 :: was[i] == now[i];
    assert s[|head| + 3] != t[|head| + 3];
    assert Fnv.DifferOnlyAt(s, t, |head| + 3);
    Fnv.SubstitutionDetected(s, t, |head| + 3);
  }

  lemma HonestPersists<S>(setup: Setup<S>, states: seq<S>, more: S, p: Packet)
    requires p.sequence <= |states| && |states| + 1 < U64_LIMIT - 1
    ensures Honest(setup, states, p) <==> Honest(setup, states + [more], p)
  {
  }

  /** The packet picked is a snapshot, or the difference loses no sign. */
  predicate SignKept(mode: Mode, states: seq<AgentState>, current: AgentState) {
    || states == [] || mode == RawSnapshot || mode == ZstdSnapshot
    || !OppositeZeros(states[|states| - 1].cpuPercent, current.cpuPercent)
  }

  /**
    Whatever the policy picks, what the encoder publishes next is an honest packet of the longer stream,
    unless it is a difference that loses the sign of a zero.
    */
  lemma PublishIsHonest(c: Options, mode: Mode, st: EncoderState, states: seq<AgentState>, current: AgentState)
    requires Lossless(c.zstd) && |states| + 1 < U64_LIMIT - 1 && Sendable(current)
    requires st == EncoderState(|states|, if states == [] then None else Some(states[|states| - 1]))
    ensures var (st', r) := Publish(c, mode, st, current);
            && st' == EncoderState(|states| + 1, Some(current))
            && r.Ok?
            && r.value.sequence == |states| + 1
            && (Honest(AgentSetup(c.schema, c.zstd), states + [current], r.value) <==> SignKept(mode, states, current))
  {
    hide EncodeDelta, Between, RawSnapshotOf, StateHash, ZstdCandidate, Honest, Sendable, OppositeZeros;
    SnapshotIsHonest(c, mode, states, current);
    if states != [] {
      DeltaIsHonest(c, states, current);
    }
  }

  /** A recovery snapshot of the last state is an honest packet of the stream as it stands. */
  lemma RecoveryIsHonest(c: Options, mode: Mode, states: seq<AgentState>)
    requires Lossless(c.zstd) && 1 <= |states| < U64_LIMIT - 1 && Sendable(states[|states| - 1])
    ensures var last := states[|states| - 1];
            var p := RecoverySnapshot(c, mode, EncoderState(|states|, Some(last)), last);
            Honest(AgentSetup(c.schema, c.zstd), states, p) && p.kind == Snapshot && p.sequence == |states|
  {
    hide Honest, AgentSetup, Sendable, RawSnapshotOf, Snapshots;
    var init, last := states[..|states| - 1], states[|states| - 1];
    assert init + [last] == states;
    SnapshotIsHonest(c, mode, init, last);
  }

  // ---------------------------------------------------------------- whole sessions

  /** What a publisher asks of its encoder. */
  datatype Call =
    | Update(mode: Mode, current: AgentState)
    | Forced(mode: Mode, current: AgentState)
    | Recovery(mode: Mode)

  datatype Session = Session(encoder: EncoderState, states: seq<AgentState>, sent: seq<Packet>)

  const NEW_SESSION := Session(NEW_ENCODER, [], [])

  /** A recovery snapshot is taken of the last state, once there is one. */
  function Do(c: Options, s: Session, call: Call): Session {
    match call
    case Update(mode, current) =>
      var (st, r) := Publish(c, mode, s.encoder, current);
      if r.Ok? then Session(st, s.states + [current], s.sent + [r.value]) else s.(encoder := st)
    case Forced(mode, current) =>
      var (st, p) := Force(c, mode, s.encoder, current);
      Session(st, s.states + [current], s.sent + [p])
    case Recovery(mode) =>
      if s.states == [] then s
      else s.(sent := s.sent + [RecoverySnapshot(c, mode, s.encoder, s.states[|s.states| - 1])])
  }

  function DoAll(c: Options, s: Session, calls: seq<Call>): Session
    decreases |calls|
  {
    if calls == [] then s else DoAll(c, Do(c, s, calls[0]), calls[1..])
  }

  predicate CallKeepsSign(s: Session, call: Call) {
    call.Update? ==> SignKept(call.mode, s.states, call.current)
  }

  /** No call of the session publishes a difference that loses the sign of a zero. */
  predicate SignsKept(c: Options, s: Session, calls: seq<Call>)
    decreases |calls|
  {
    calls == [] || (CallKeepsSign(s, calls[0]) && SignsKept(c, Do(c, s, calls[0]), calls[1..]))
  }

  predicate SendableCall(call: Call) {
    call.Recovery? || Sendable(call.current)
  }

  /** The encoder is where the states say, and every state has been sent in some packet. */
  ghost predicate InStep(s: Session) {
    && |s.states| < U64_LIMIT - 1
    && s.encoder == EncoderState(|s.states|, if s.states == [] then None else Some(s.states[|s.states| - 1]))
    && (s.states != [] ==> Sendable(s.states[|s.states| - 1]))
    && (forall p | p in s.sent :: p.sequence <= |s.states|)
    && (forall n: u64 | 1 <= n <= |s.states| :: Delivered(s.sent, n))
  }

  ghost predicate AllHonest(c: Options, s: Session) {
    forall p | p in s.sent :: Honest(AgentSetup(c.schema, c.zstd), s.states, p)
  }

  /** A new state, sent in a packet of its number. */
  lemma Extend(c: Options, s: Session, current: AgentState, p: Packet)
    requires InStep(s) && |s.states| + 1 < U64_LIMIT - 1 && Sendable(current) && p.sequence == |s.states| + 1
    ensures var next := Session(EncoderState(|s.states| + 1, Some(current)), s.states + [current], s.sent + [p]);
            && InStep(next)
            && (AllHonest(c, next) <==>
                AllHonest(c, s) && Honest(AgentSetup(c.schema, c.zstd), s.states + [current], p))
  {
    hide Honest, AgentSetup, Sendable, Delivered;
    var setup, sent := AgentSetup(c.schema, c.zstd), s.sent + [p];
    assert forall q :: q in sent <==> q in s.sent || q == p;
    forall q | q in s.sent ensures Honest(setup, s.states, q) <==> Honest(setup, s.states + [current], q) {
      HonestPersists(setup, s.states, current, q);
    }
    forall n: u64 | 1 <= n <= |s.states| + 1 ensures Delivered(sent, n) {
      StaysDelivered(s.sent, p, n);
    }
  }

  lemma StaysDelivered(sent: seq<Packet>, p: Packet, n: u64)
    ensures Delivered(sent + [p], n) <==> Delivered(sent, n) || p.sequence == n
  {
    if Delivered(sent, n) {
      var q :| q in sent && q.sequence == n;
      assert q in sent + [p];
    }
    assert p in sent + [p];
  }

  /** One more packet about a state that was sent before. */
  lemma Resend(c: Options, s: Session, p: Packet)
    requires InStep(s) && p.sequence <= |s.states|
    requires Honest(AgentSetup(c.schema, c.zstd), s.states, p)
    ensures var next := s.(sent := s.sent + [p]);
            InStep(next) && (AllHonest(c, next) <==> AllHonest(c, s))
  {
    hide Honest, AgentSetup, Sendable, Delivered;
    assert forall q :: q in s.sent + [p] <==> q in s.sent || q == p;
    forall n: u64 | 1 <= n <= |s.states| ensures Delivered(s.sent + [p], n) {
      StaysDelivered(s.sent, p, n);
    }
  }

  lemma CallOutcome(c: Options, s: Session, call: Call)
    requires Lossless(c.zstd) && InStep(s) && |s.states| + 1 < U64_LIMIT - 1 && SendableCall(call)
    ensures var next := Do(c, s, call);
            && InStep(next)
            && |next.states| <= |s.states| + 1
            && (AllHonest(c, next) <==> AllHonest(c, s) && CallKeepsSign(s, call))
  {
    hide AllHonest, Honest, AgentSetup, Sendable, Delivered, Publish, Lossless, SignKept, Snapshots, RawSnapshotOf;
    match call {
      case Update(mode, current) =>
        PublishIsHonest(c, mode, s.encoder, s.states, current);
        Extend(c, s, current, Publish(c, mode, s.encoder, current).1.value);
      case Forced(mode, current) =>
        SnapshotIsHonest(c, mode, s.states, current);
        Extend(c, s, current, Force(c, mode, s.encoder, current).1);
      case Recovery(mode) =>
        if s.states != [] {
          RecoveryIsHonest(c, mode, s.states);
          Resend(c, s, RecoverySnapshot(c, mode, s.encoder, s.states[|s.states| - 1]));
        }
    }
  }

  /** All packets of a session are honest exactly when none of them is a difference that loses a sign. */
  lemma {:induction false} SessionIsHonest(c: Options, s: Session, calls: seq<Call>)
    requires Lossless(c.zstd) && InStep(s) && |s.states| + |calls| < U64_LIMIT - 1
    requires forall call | call in calls :: SendableCall(call)
    ensures var end := DoAll(c, s, calls);
            && InStep(end)
            && (AllHonest(c, end) <==> AllHonest(c, s) && SignsKept(c, s, calls))
    decreases |calls|
  {
    if calls != [] {
      hide AllHonest, InStep, Do, CallKeepsSign, SendableCall, Lossless;
      assert calls[0] in calls;
      RoomForCall(s);
      CallOutcome(c, s, calls[0]);
      SessionIsHonest(c, Do(c, s, calls[0]), calls[1..]);
    }
  }

  lemma RoomForCall(s: Session)
    requires InStep(s)
    ensures |s.states| < U64_LIMIT - 1
  {
  }

  function AgentConfig(schema: u64, z: Zstd, maxGap: u64, maxPending: nat): Reorder.Config<AgentState> {
    Reorder.Config(AgentSetup(schema, z), maxGap, maxPending)
  }

  /**
    A session of updates, forced snapshots and recovery snapshots in any mixture.  Deliver its packets in any
    order with any repeats, and at least one of each number: unless the decoder asked for recovery, it ends
    with the last state.
    */
  lemma AgentsInAnyOrder(c: Options, calls: seq<Call>, maxGap: u64, maxPending: nat, deliveries: seq<Packet>)
    requires Lossless(c.zstd) && |calls| < U64_LIMIT - 1 && maxGap >= 1 && maxPending >= 1
    requires forall call | call in calls :: SendableCall(call)
    requires SignsKept(c, NEW_SESSION, calls)
    requires DoAll(c, NEW_SESSION, calls).states != []
    requires forall p | p in deliveries :: p in DoAll(c, NEW_SESSION, calls).sent
    requires forall n: u64 | 1 <= n <= |DoAll(c, NEW_SESSION, calls).states| :: Delivered(deliveries, n)
    requires NeverRefused(AgentConfig(c.schema, c.zstd, maxGap, maxPending), Reorder.NewReorder(), deliveries)
    ensures var st := Reorder.Run(AgentConfig(c.schema, c.zstd, maxGap, maxPending), Reorder.NewReorder(), deliveries);
            var states := DoAll(c, NEW_SESSION, calls).states;
            st.inner.sequence == Some(|states|) && st.inner.state == Some(states[|states| - 1])
  {
    hide Honest, DoAll, SignsKept, NeverRefused, Reorder.Run, Delivered, SendableCall, Lossless;
    SessionIsHonest(c, NEW_SESSION, calls);
    AnyOrderReachesTheEnd(AgentConfig(c.schema, c.zstd, maxGap, maxPending), DoAll(c, NEW_SESSION, calls).states,
                          deliveries);
  }
}
