/** The byte-state encoder of `byte_sync.rs`. */
module ByteSync {
  import opened Core
  import opened Wire
  import opened Offers
  import Fnv
  import SmartDelta
  import SmartDeltaCodec

  // ---------------------------------------------------------------- adaptive tuner

  datatype Tuner = Tuner(samples: u64, attempts: u64, wins: u64, minZstdPayload: u64)

  const NEW_TUNER := Tuner(0, 0, 0, 256)

  predicate ShouldTryZstd(t: Tuner, payloadLen: nat) {
    payloadLen >= Max(t.minZstdPayload, 64)
  }

  /** The threshold doubles when under a tenth of 32 attempts paid, and halves when over three fifths did. */
  function Observe(t: Tuner, before: nat, after: nat): Tuner {
    var samples, attempts := SaturatingAdd(t.samples, 1), SaturatingAdd(t.attempts, 1);
    var wins := if after < before then SaturatingAdd(t.wins, 1) else t.wins;
    if attempts < 32 then Tuner(samples, attempts, wins, t.minZstdPayload)
    else if wins * 10 < attempts then
      Tuner(samples, 0, 0, Min(Max(Min(t.minZstdPayload * 2, U64_LIMIT - 1), 64), 0x1_0000))
    else if wins * 10 > attempts * 6 then Tuner(samples, 0, 0, Max(t.minZstdPayload / 2, 64))
    else Tuner(samples, 0, 0, t.minZstdPayload)
  }

  // ---------------------------------------------------------------- encoder

  datatype Policy = Policy(
    smartDelta: SmartDelta.Policy,
    enableZstd: bool,
    zstdLevel: int,
    minCompressionSavings: nat,
    cpuPenalty: nat)

  datatype EncoderState = EncoderState(sequence: u64, previous: Option<Bytes>, tuner: Tuner)

  const NEW_ENCODER := EncoderState(0, None, NEW_TUNER)

  function Score(policy: Policy, p: Packet): nat {
    if IsCompressed(p) then SaturatingAdd(EncodedLen(p), policy.cpuPenalty) else EncodedLen(p)
  }

  /** A packet as it is, and compressed as well when the tuner says so. */
  function RawAndZstd(z: Zstd, policy: Policy, t: Tuner, raw: Packet, rawMode: Mode, zstdMode: Mode)
    : (seq<Offer>, Tuner)
  {
    var first := Offer(rawMode, raw, EncodedLen(raw));
    if policy.enableZstd && ShouldTryZstd(t, |raw.payload|) then
      var c := ZstdCandidate(z, raw, policy.zstdLevel, policy.minCompressionSavings);
      ([first, Offer(zstdMode, c, Score(policy, c))], Observe(t, EncodedLen(raw), EncodedLen(c)))
    else ([first], t)
  }

  /** The offers for each strategy in turn; the tuner learns along the way. */
  function DeltaOffers(z: Zstd, schema: u64, policy: Policy, t: Tuner, sequence: u64,
                       previous: Bytes, current: Bytes, kinds: seq<SmartDelta.Kind>): (seq<Offer>, Tuner)
    requires sequence > 0 && forall n | 0 <= n < |kinds| :: SmartDelta.Legal(kinds[n], previous, current)
    decreases |kinds|
  {
    if kinds == [] then ([], t)
    else
      var raw := DeltaOf(schema, sequence, previous, current, kinds[0], policy.smartDelta);
      var (now, t1) := RawAndZstd(z, policy, t, raw, RawDelta(kinds[0]), ZstdDelta(kinds[0]));
      var (later, t2) := DeltaOffers(z, schema, policy, t1, sequence, previous, current, kinds[1..]);
      (now + later, t2)
  }

  function AllOffers(z: Zstd, schema: u64, policy: Policy, st: EncoderState, sequence: u64, current: Bytes)
    : (r: (seq<Offer>, Tuner))
    requires sequence > 0
    ensures r.0 != []
    ensures r.0[0] == Offer(RawSnapshot, SnapshotOf(schema, sequence, current),
                            EncodedLen(SnapshotOf(schema, sequence, current)))
  {
    var (first, t) := RawAndZstd(z, policy, st.tuner, SnapshotOf(schema, sequence, current),
                                 RawSnapshot, ZstdSnapshot);
    if st.previous.None? then (first, t)
    else
      var previous := st.previous.value;
      var (rest, t') := DeltaOffers(z, schema, policy, t, sequence, previous, current,
                                    SmartDeltaCodec.KindsFor(previous, current));
      (first + rest, t')
  }

  function Publish(z: Zstd, schema: u64, policy: Policy, st: EncoderState, current: Bytes)
    : (EncoderState, Result<Packet>)
  {
    if st.sequence + 1 >= U64_LIMIT then (st, Err(InvalidState))
    else
      var (offers, tuner) := AllOffers(z, schema, policy, st, st.sequence + 1, current);
      (EncoderState(st.sequence + 1, Some(current), tuner), Ok(Best(offers).packet))
  }

  function RecoverySnapshot(z: Zstd, schema: u64, policy: Policy, st: EncoderState, current: Bytes): Packet {
    var snapshot := SnapshotOf(schema, st.sequence, current);
    if policy.enableZstd && ShouldTryZstd(st.tuner, |snapshot.payload|)
    then ZstdCandidate(z, snapshot, policy.zstdLevel, policy.minCompressionSavings)
    else snapshot
  }

  lemma {:induction false} DeltaOffersDescribe(z: Zstd, schema: u64, policy: Policy, t: Tuner, sequence: u64,
                                               previous: Bytes, current: Bytes, kinds: seq<SmartDelta.Kind>)
    requires Lossless(z) && |previous| <= MAX_LEN && |current| <= MAX_LEN
    requires sequence > 0 && forall n | 0 <= n < |kinds| :: SmartDelta.Legal(kinds[n], previous, current)
    ensures forall o | o in DeltaOffers(z, schema, policy, t, sequence, previous, current, kinds).0 ::
              Describes(z, schema, Some(previous), current, sequence, o.packet)
    decreases |kinds|
  {
    if kinds != [] {
      hide Describes, DeltaOf;
      var raw := DeltaOf(schema, sequence, previous, current, kinds[0], policy.smartDelta);
      var t1 := RawAndZstd(z, policy, t, raw, RawDelta(kinds[0]), ZstdDelta(kinds[0])).1;
      DeltaDescribes(z, schema, previous, current, sequence, kinds[0], policy.smartDelta,
                     policy.zstdLevel, policy.minCompressionSavings);
      DeltaOffersDescribe(z, schema, policy, t1, sequence, previous, current, kinds[1..]);
    }
  }

  /** Whatever the policy and the tuner do, the packet sent describes the update. */
  lemma EncodeDescribes(z: Zstd, schema: u64, policy: Policy, st: EncoderState, current: Bytes)
    requires Lossless(z) && |current| <= MAX_LEN
    requires st.previous.Some? ==> |st.previous.value| <= MAX_LEN
    ensures var (st', r) := Publish(z, schema, policy, st, current);
            && (r.Ok? <==> st.sequence + 1 < U64_LIMIT)
            && (r.Ok? ==> Describes(z, schema, st.previous, current, st.sequence + 1, r.value))
            && (if r.Ok? then st'.sequence == st.sequence + 1 && st'.previous == Some(current) else st' == st)
  {
    if st.sequence + 1 < U64_LIMIT {
      var sequence := st.sequence + 1;
      AllOffersDescribe(z, schema, policy, st, sequence, current);
      hide AllOffers, Describes;
    }
  }

  lemma AllOffersDescribe(z: Zstd, schema: u64, policy: Policy, st: EncoderState, sequence: u64, current: Bytes)
    requires Lossless(z) && |current| <= MAX_LEN && sequence > 0
    requires st.previous.Some? ==> |st.previous.value| <= MAX_LEN
    ensures forall o | o in AllOffers(z, schema, policy, st, sequence, current).0 ::
              Describes(z, schema, st.previous, current, sequence, o.packet)
  {
    hide Describes, DeltaOffers, SnapshotOf;
    var snapshot := SnapshotOf(schema, sequence, current);
    SnapshotDescribes(z, schema, st.previous, current, sequence, policy.zstdLevel, policy.minCompressionSavings);
    if st.previous.Some? {
      var t := RawAndZstd(z, policy, st.tuner, snapshot, RawSnapshot, ZstdSnapshot).1;
      DeltaOffersDescribe(z, schema, policy, t, sequence, st.previous.value, current,
                          SmartDeltaCodec.KindsFor(st.previous.value, current));
    }
  }

  /** The packet sent is the first of least score among all considered, and never longer than the raw snapshot. */
  lemma PublishIsCheapest(z: Zstd, schema: u64, policy: Policy, st: EncoderState, current: Bytes)
    requires st.sequence + 1 < U64_LIMIT && |current| <= MAX_LEN
    ensures var p := Publish(z, schema, policy, st, current).1.value;
            var offers := AllOffers(z, schema, policy, st, st.sequence + 1, current).0;
            && (exists n :: 0 <= n < |offers| && offers[n].packet == p
                 && (forall m | 0 <= m < |offers| :: offers[n].score <= offers[m].score)
                 && (forall m | 0 <= m < n :: offers[n].score < offers[m].score))
            && EncodedLen(p) <= HEADER_LEN + |current|
  {
    hide AllOffers, Best;
    var offers := AllOffers(z, schema, policy, st, st.sequence + 1, current).0;
    AllOffersAreScored(z, schema, policy, st, st.sequence + 1, current);
    var n := BestIsFirstLeast(offers);
  }

  /** The score charges at least for the bytes. */
  ghost predicate Scored(offers: seq<Offer>) {
    forall o | o in offers :: EncodedLen(o.packet) <= o.score || U64_LIMIT - 1 <= o.score
  }

  lemma AllOffersAreScored(z: Zstd, schema: u64, policy: Policy, st: EncoderState, sequence: u64, current: Bytes)
    requires sequence > 0
    ensures Scored(AllOffers(z, schema, policy, st, sequence, current).0)
  {
    hide SnapshotOf, DeltaOffers;
    if st.previous.Some? {
      var t := RawAndZstd(z, policy, st.tuner, SnapshotOf(schema, sequence, current), RawSnapshot, ZstdSnapshot).1;
      DeltaOffersAreScored(z, schema, policy, t, sequence, st.previous.value, current,
                           SmartDeltaCodec.KindsFor(st.previous.value, current));
    }
  }

  lemma {:induction false} DeltaOffersAreScored(z: Zstd, schema: u64, policy: Policy, t: Tuner, sequence: u64,
                                                previous: Bytes, current: Bytes, kinds: seq<SmartDelta.Kind>)
    requires sequence > 0 && forall n | 0 <= n < |kinds| :: SmartDelta.Legal(kinds[n], previous, current)
    ensures Scored(DeltaOffers(z, schema, policy, t, sequence, previous, current, kinds).0)
    decreases |kinds|
  {
    if kinds != [] {
      hide DeltaOf;
      var raw := DeltaOf(schema, sequence, previous, current, kinds[0], policy.smartDelta);
      var t1 := RawAndZstd(z, policy, t, raw, RawDelta(kinds[0]), ZstdDelta(kinds[0])).1;
      DeltaOffersAreScored(z, schema, policy, t1, sequence, previous, current, kinds[1..]);
    }
  }

  lemma RecoveryDescribes(z: Zstd, schema: u64, policy: Policy, st: EncoderState,
                          previous: Option<Bytes>, current: Bytes)
    requires Lossless(z)
    ensures Describes(z, schema, previous, current, st.sequence, RecoverySnapshot(z, schema, policy, st, current))
    ensures RecoverySnapshot(z, schema, policy, st, current).kind == Snapshot
  {
    SnapshotDescribes(z, schema, previous, current, st.sequence, policy.zstdLevel, policy.minCompressionSavings);
  }

  lemma NotCompressedIsRaw(z: Zstd, raw: Packet, level: int, minSavings: nat)
    ensures var c := ZstdCandidate(z, raw, level, minSavings); !IsCompressed(c) ==> c == raw
  {
  }

  lemma CandidateIsDelta(schema: u64, sequence: u64, previous: Bytes, current: Bytes,
                         kind: SmartDelta.Kind, policy: SmartDelta.Policy)
    requires sequence > 0 && SmartDelta.Legal(kind, previous, current)
    ensures var c := SmartDeltaCodec.CandidateFor(kind, previous, current, policy);
            c.kind == kind && NewDelta(sequence, sequence - 1, Fnv.Hash(previous), schema, c.payload)
                              == DeltaOf(schema, sequence, previous, current, kind, policy)
  {
  }

  lemma DeltaOffersStep(z: Zstd, schema: u64, policy: Policy, t: Tuner, sequence: u64, previous: Bytes,
                        current: Bytes, kinds: seq<SmartDelta.Kind>, before: seq<Offer>)
    requires kinds != [] && sequence > 0
    requires forall n | 0 <= n < |kinds| :: SmartDelta.Legal(kinds[n], previous, current)
    ensures var raw := DeltaOf(schema, sequence, previous, current, kinds[0], policy.smartDelta);
            var (now, t1) := RawAndZstd(z, policy, t, raw, RawDelta(kinds[0]), ZstdDelta(kinds[0]));
            var (later, t2) := DeltaOffers(z, schema, policy, t1, sequence, previous, current, kinds[1..]);
            var (all, last) := DeltaOffers(z, schema, policy, t, sequence, previous, current, kinds);
            before + all == before + now + later && last == t2
  {
    hide RawAndZstd, DeltaOf;
    var raw := DeltaOf(schema, sequence, previous, current, kinds[0], policy.smartDelta);
    var (now, t1) := RawAndZstd(z, policy, t, raw, RawDelta(kinds[0]), ZstdDelta(kinds[0]));
    Associative(before, now, DeltaOffers(z, schema, policy, t1, sequence, previous, current, kinds[1..]).0);
  }

  lemma NoDeltaOffers(z: Zstd, schema: u64, policy: Policy, t: Tuner, sequence: u64, previous: Bytes,
                      current: Bytes, before: seq<Offer>)
    requires sequence > 0
    ensures var (none, last) := DeltaOffers(z, schema, policy, t, sequence, previous, current, []);
            before + none == before && last == t
  {
  }

  lemma BestOfOne(o: Offer)
    ensures Best([] + [o]) == o
  {
  }

  datatype Decision = Decision(mode: Mode, selectedBytes: nat, snapshotBytes: nat, considered: nat)

  function DecisionOf(offers: seq<Offer>): Decision
    requires offers != []
  {
    Decision(Best(offers).mode, EncodedLen(Best(offers).packet), EncodedLen(offers[0].packet), |offers|)
  }

  class ByteStateEncoder {
    const z: Zstd
    const schemaHash: u64
    const policy: Policy
    var sequence: u64
    var previous: Option<Bytes>
    var tuner: Tuner
    var lastDecision: Option<Decision>

    function State(): EncoderState
      reads this
    {
      EncoderState(sequence, previous, tuner)
    }

    constructor (z: Zstd, schemaName: Bytes, policy: Policy)
      ensures this.z == z && schemaHash == Fnv.Hash(schemaName) && this.policy == policy
      ensures State() == NEW_ENCODER && lastDecision == None
    {
      this.z, this.policy := z, policy;
      schemaHash := Fnv.Hash(schemaName);
      sequence, previous, tuner, lastDecision := 0, None, NEW_TUNER, None;
    }

    /** Builds every candidate, keeps the best so far, and remembers the update. */
    method EncodeUpdate(current: Bytes) returns (r: Result<Packet>)
      modifies this
      ensures (State(), r) == Publish(z, schemaHash, policy, old(State()), current)
      ensures r.Err? ==> lastDecision == old(lastDecision)
      ensures r.Ok? ==>
                lastDecision == Some(DecisionOf(
                  AllOffers(z, schemaHash, policy, old(State()), old(sequence) + 1, current).0))
    {
      hide SnapshotOf, DeltaOffers, RawAndZstd, Best, SmartDeltaCodec.KindsFor, Fnv.Hash;
      if sequence + 1 >= U64_LIMIT {
        return Err(InvalidState);
      }
      sequence := sequence + 1;
      var snapshot := SnapshotOf(schemaHash, sequence, current);
      var snapshotBytes := EncodedLen(snapshot);
      var best, considered := Offer(RawSnapshot, snapshot, snapshotBytes), 1;
      BestOfOne(best);
      ghost var offers := [best];
      best, considered, offers := TryZstd(snapshot, RawSnapshot, ZstdSnapshot, best, considered, [], best);
      assert offers == RawAndZstd(z, policy, old(tuner), snapshot, RawSnapshot, ZstdSnapshot).0;
      if previous.Some? {
        best, considered, offers := TryDeltas(previous.value, current, best, considered, offers);
      }
      previous := Some(current);
      lastDecision := Some(Decision(best.mode, EncodedLen(best.packet), snapshotBytes, considered));
      return Ok(best.packet);
    }

    /** The compressed form of a packet that has just been considered as it is. */
    method TryZstd(raw: Packet, ghost rawMode: Mode, zstdMode: Mode, start: Offer, startCount: nat,
                   ghost earlier: seq<Offer>, ghost first: Offer)
      returns (best: Offer, considered: nat, ghost offers: seq<Offer>)
      requires first == Offer(rawMode, raw, EncodedLen(raw))
      requires start == Best(earlier + [first]) && startCount == |earlier| + 1
      modifies this`tuner
      ensures var (added, t) := RawAndZstd(z, policy, old(tuner), raw, rawMode, zstdMode);
              offers == earlier + added && tuner == t
      ensures best == Best(offers) && considered == |offers|
    {
      hide Best, Observe, ZstdCandidate;
      best, considered, offers := start, startCount, earlier + [first];
      if policy.enableZstd && ShouldTryZstd(tuner, |raw.payload|) {
        var compressed := ZstdCandidate(z, raw, policy.zstdLevel, policy.minCompressionSavings);
        considered := considered + 1;
        tuner := Observe(tuner, EncodedLen(raw), EncodedLen(compressed));
        var score := Score(policy, compressed);
        ghost var last := Offer(zstdMode, compressed, score);
        NotCompressedIsRaw(z, raw, policy.zstdLevel, policy.minCompressionSavings);
        BestAppend(earlier, first);
        BestAppend(earlier + [first], last);
        offers := offers + [last];
        assert offers == earlier + [first, last];
        if IsCompressed(compressed) && score < best.score {
          best := Offer(zstdMode, compressed, score);
        }
      }
    }

    method TryDeltas(before: Bytes, current: Bytes, start: Offer, startCount: nat, ghost startOffers: seq<Offer>)
      returns (best: Offer, considered: nat, ghost offers: seq<Offer>)
      requires sequence > 0 && startOffers != [] && start == Best(startOffers) && startCount == |startOffers|
      modifies this`tuner
      ensures var (rest, t) := DeltaOffers(z, schemaHash, policy, old(tuner), sequence, before, current,
                                           SmartDeltaCodec.KindsFor(before, current));
              offers == startOffers + rest && tuner == t
      ensures best == Best(offers) && considered == |offers|
    {
      hide *;
      best, considered, offers := start, startCount, startOffers;
      var candidates := SmartDeltaCodec.EncodeCandidates(before, current, policy.smartDelta);
      ghost var kinds := SmartDeltaCodec.KindsFor(before, current);
      ghost var (all, last) := DeltaOffers(z, schemaHash, policy, tuner, sequence, before, current, kinds);
      for n := 0 to |candidates|
        invariant offers != [] && best == Best(offers) && considered == |offers|
        invariant forall m | 0 <= m < |kinds[n..]| :: SmartDelta.Legal(kinds[n..][m], before, current)
        invariant var (rest, t) := DeltaOffers(z, schemaHash, policy, tuner, sequence, before, current, kinds[n..]);
                  offers + rest == startOffers + all && t == last
      {
        var kind := candidates[n].kind;
        var delta := NewDelta(sequence, sequence - 1, Fnv.Hash(before), schemaHash, candidates[n].payload);
        assert kinds[n..][0] == kinds[n] && kinds[n..][1..] == kinds[n + 1..];
        CandidateIsDelta(schemaHash, sequence, before, current, kinds[n], policy.smartDelta);
        DeltaOffersStep(z, schemaHash, policy, tuner, sequence, before, current, kinds[n..], offers);
        var raw := Offer(RawDelta(kind), delta, EncodedLen(delta));
        considered := considered + 1;
        BestAppend(offers, raw);
        if EncodedLen(delta) < best.score {
          best := raw;
        }
        best, considered, offers := TryZstd(delta, RawDelta(kind), ZstdDelta(kind), best, considered, offers, raw);
      }
      NoDeltaOffers(z, schemaHash, policy, tuner, sequence, before, current, offers);
      assert kinds[|candidates|..] == [];
    }

    /** An authoritative snapshot at the sequence of the last update, which the encoder leaves as it is. */
    method Recover(current: Bytes) returns (p: Packet)
      ensures IsSnapshotOf(z, schemaHash, sequence, current, p)
      ensures IsCompressed(p) ==> policy.enableZstd && ShouldTryZstd(tuner, |current|)
      ensures p == RecoverySnapshot(z, schemaHash, policy, State(), current)
    {
      hide Fnv.Hash, IsSnapshotOf;
      CandidateIsSnapshot(z, schemaHash, sequence, current, policy.zstdLevel, policy.minCompressionSavings);
      var snapshot := SnapshotOf(schemaHash, sequence, current);
      if policy.enableZstd && ShouldTryZstd(tuner, |snapshot.payload|) {
        p := ZstdCandidate(z, snapshot, policy.zstdLevel, policy.minCompressionSavings);
      } else {
        p := snapshot;
      }
    }
  }
}
