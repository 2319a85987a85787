/** The shortlisting byte-state encoder of `v30_sync.rs`. */
module FastSync {
  import opened Core
  import opened Wire
  import opened Offers
  import opened FastSelector
  import Fnv
  import SmartDelta
  import SmartDeltaCodec

  datatype Policy = Policy(
    smartDelta: SmartDelta.Policy,
    selector: SelectorPolicy,
    enableZstd: bool,
    zstdLevel: int,
    minZstdPayload: nat,
    minCompressionSavings: nat)

  datatype EncoderState = EncoderState(sequence: u64, previous: Option<Bytes>, advice: Advice)

  function NewEncoder(policy: Policy): EncoderState {
    EncoderState(0, None, Advice(policy.selector, [], 0, 0, 0))
  }

  function OfferOf(mode: Mode, p: Packet): Offer {
    Offer(mode, p, EncodedLen(p))
  }

  function Candidate(z: Zstd, policy: Policy, raw: Packet): Packet {
    ZstdCandidate(z, raw, policy.zstdLevel, policy.minCompressionSavings)
  }

  /** A delta as it is, and compressed as well when the advisor says so. */
  function DeltaAndZstd(z: Zstd, policy: Policy, a: Advice, raw: Packet, kind: SmartDelta.Kind)
    : (seq<Offer>, Advice)
  {
    if policy.enableZstd && ShouldCompress(a, |raw.payload|, policy.minZstdPayload) then
      var c := Candidate(z, policy, raw);
      ([OfferOf(RawDelta(kind), raw), OfferOf(ZstdDelta(kind), c)],
       WithCompression(a, IsCompressed(c) && EncodedLen(c) < EncodedLen(raw)))
    else ([OfferOf(RawDelta(kind), raw)], a)
  }

  function DeltaOffers(z: Zstd, schema: u64, policy: Policy, a: Advice, sequence: u64,
                       previous: Bytes, current: Bytes, kinds: seq<SmartDelta.Kind>): (seq<Offer>, Advice)
    requires sequence > 0 && forall n | 0 <= n < |kinds| :: SmartDelta.Legal(kinds[n], previous, current)
    decreases |kinds|
  {
    if kinds == [] then ([], a)
    else
      var raw := DeltaOf(schema, sequence, previous, current, kinds[0], policy.smartDelta);
      var (now, a1) := DeltaAndZstd(z, policy, a, raw, kinds[0]);
      var (later, a2) := DeltaOffers(z, schema, policy, a1, sequence, previous, current, kinds[1..]);
      (now + later, a2)
  }

  function KindsFor(a: Advice, previous: Bytes, current: Bytes): (kinds: seq<SmartDelta.Kind>)
    ensures 1 <= |kinds| <= 2
    ensures forall n | 0 <= n < |kinds| :: SmartDelta.Legal(kinds[n], previous, current)
  {
    ShortlistIsLegal(a, previous, current);
    Shortlist(a, Profile(previous, current))
  }

  function Learn(a: Advice, mode: Mode): Advice {
    if mode.RawDelta? || mode.ZstdDelta? then WithWinner(a, mode.kind) else WithoutDelta(a)
  }

  function AllOffers(z: Zstd, schema: u64, policy: Policy, st: EncoderState, sequence: u64, current: Bytes)
    : (r: (seq<Offer>, Advice))
    requires sequence > 0
    ensures r.0 != [] && r.0[0] == OfferOf(RawSnapshot, SnapshotOf(schema, sequence, current))
  {
    var snapshot := SnapshotOf(schema, sequence, current);
    var first := OfferOf(RawSnapshot, snapshot);
    if st.previous.Some? then
      var previous := st.previous.value;
      var (rest, a) := DeltaOffers(z, schema, policy, st.advice, sequence, previous, current,
                                   KindsFor(st.advice, previous, current));
      ([first] + rest, a)
    else if policy.enableZstd && |current| >= policy.minZstdPayload then
      ([first, OfferOf(ZstdSnapshot, Candidate(z, policy, snapshot))], st.advice)
    else ([first], st.advice)
  }

  function Publish(z: Zstd, schema: u64, policy: Policy, st: EncoderState, current: Bytes)
    : (EncoderState, Result<Packet>)
  {
    if st.sequence + 1 >= U64_LIMIT then (st, Err(InvalidState))
    else
      var (offers, a) := AllOffers(z, schema, policy, st, st.sequence + 1, current);
      var learnt := if st.previous.Some? then Learn(a, Best(offers).mode) else a;
      (EncoderState(st.sequence + 1, Some(current), learnt), Ok(Best(offers).packet))
  }

  function RecoverySnapshot(schema: u64, st: EncoderState, current: Bytes): Packet {
    SnapshotOf(schema, st.sequence, current)
  }

  // ---------------------------------------------------------------- what is sent

  lemma {:induction false} DeltaOffersDescribe(z: Zstd, schema: u64, policy: Policy, a: Advice, sequence: u64,
                                               previous: Bytes, current: Bytes, kinds: seq<SmartDelta.Kind>)
    requires Lossless(z) && |previous| <= MAX_LEN && |current| <= MAX_LEN
    requires sequence > 0 && forall n | 0 <= n < |kinds| :: SmartDelta.Legal(kinds[n], previous, current)
    ensures var offers := DeltaOffers(z, schema, policy, a, sequence, previous, current, kinds).0;
            && |offers| <= 2 * |kinds|
            && forall o | o in offers ::
                 Describes(z, schema, Some(previous), current, sequence, o.packet) && o.score == EncodedLen(o.packet)
    decreases |kinds|
  {
    if kinds != [] {
      hide Describes, DeltaOf;
      var raw := DeltaOf(schema, sequence, previous, current, kinds[0], policy.smartDelta);
      var a1 := DeltaAndZstd(z, policy, a, raw, kinds[0]).1;
      DeltaDescribes(z, schema, previous, current, sequence, kinds[0], policy.smartDelta,
                     policy.zstdLevel, policy.minCompressionSavings);
      DeltaOffersDescribe(z, schema, policy, a1, sequence, previous, current, kinds[1..]);
    }
  }

  /** At most five packets are considered; every one describes the update and is scored by its length. */
  lemma AllOffersDescribe(z: Zstd, schema: u64, policy: Policy, st: EncoderState, sequence: u64, current: Bytes)
    requires Lossless(z) && |current| <= MAX_LEN && sequence > 0
    requires st.previous.Some? ==> |st.previous.value| <= MAX_LEN
    ensures var offers := AllOffers(z, schema, policy, st, sequence, current).0;
            && |offers| <= 5
            && forall o | o in offers ::
                 Describes(z, schema, st.previous, current, sequence, o.packet) && o.score == EncodedLen(o.packet)
  {
    hide Describes, DeltaOffers, SnapshotOf, KindsFor;
    SnapshotDescribes(z, schema, st.previous, current, sequence, policy.zstdLevel, policy.minCompressionSavings);
    if st.previous.Some? {
      DeltaOffersDescribe(z, schema, policy, st.advice, sequence, st.previous.value, current,
                          KindsFor(st.advice, st.previous.value, current));
    }
  }

  /** The packet sent describes the update and is no longer than any of the packets considered. */
  lemma PublishDescribes(z: Zstd, schema: u64, policy: Policy, st: EncoderState, current: Bytes)
    requires Lossless(z) && |current| <= MAX_LEN
    requires st.previous.Some? ==> |st.previous.value| <= MAX_LEN
    ensures var (st', r) := Publish(z, schema, policy, st, current);
            && (r.Ok? <==> st.sequence + 1 < U64_LIMIT)
            && (if r.Ok? then st'.sequence == st.sequence + 1 && st'.previous == Some(current) else st' == st)
            && (r.Ok? ==>
                  var offers := AllOffers(z, schema, policy, st, st.sequence + 1, current).0;
                  && Describes(z, schema, st.previous, current, st.sequence + 1, r.value)
                  && EncodedLen(r.value) <= HEADER_LEN + |current|
                  && forall o | o in offers :: EncodedLen(r.value) <= EncodedLen(o.packet))
  {
    hide Publish, AllOffers, Describes, Best, Learn, SnapshotOf, OfferOf;
    PublishIs(z, schema, policy, st, current);
    if st.sequence + 1 < U64_LIMIT {
      SnapshotLength(schema, st.sequence + 1, current);
      AllOffersDescribe(z, schema, policy, st, st.sequence + 1, current);
      BestIsShortest(AllOffers(z, schema, policy, st, st.sequence + 1, current).0);
    }
  }

  lemma PublishIs(z: Zstd, schema: u64, policy: Policy, st: EncoderState, current: Bytes)
    ensures var (st', r) := Publish(z, schema, policy, st, current);
            if st.sequence + 1 >= U64_LIMIT then r.Err? && st' == st
            else
              && r == Ok(Best(AllOffers(z, schema, policy, st, st.sequence + 1, current).0).packet)
              && st'.sequence == st.sequence + 1 && st'.previous == Some(current)
  {
    hide AllOffers, Best, Learn;
  }

  lemma SnapshotLength(schema: u64, sequence: u64, current: Bytes)
    ensures EncodedLen(OfferOf(RawSnapshot, SnapshotOf(schema, sequence, current)).packet) == HEADER_LEN + |current|
  {
  }

  lemma BestIsShortest(offers: seq<Offer>)
    requires offers != [] && forall o | o in offers :: o.score == EncodedLen(o.packet)
    ensures forall o | o in offers :: EncodedLen(Best(offers).packet) <= EncodedLen(o.packet)
    ensures EncodedLen(Best(offers).packet) <= EncodedLen(offers[0].packet)
  {
    hide Best;
    var n := BestIsFirstLeast(offers);
    assert offers[0] in offers;
  }

  // ---------------------------------------------------------------- the encoder

  datatype Decision = Decision(mode: Mode, profile: Option<ChangeProfile>, considered: nat,
                               selectedBytes: nat, snapshotBytes: nat)

  function DecisionOf(offers: seq<Offer>, previous: Option<Bytes>, current: Bytes): Decision
    requires offers != []
  {
    Decision(Best(offers).mode, if previous.Some? then Some(Profile(previous.value, current)) else None,
             |offers|, EncodedLen(Best(offers).packet), EncodedLen(offers[0].packet))
  }

  lemma DeltaOffersStep(z: Zstd, schema: u64, policy: Policy, a: Advice, sequence: u64, previous: Bytes,
                        current: Bytes, kinds: seq<SmartDelta.Kind>, before: seq<Offer>)
    requires kinds != [] && sequence > 0
    requires forall n | 0 <= n < |kinds| :: SmartDelta.Legal(kinds[n], previous, current)
    ensures var raw := DeltaOf(schema, sequence, previous, current, kinds[0], policy.smartDelta);
            var (now, a1) := DeltaAndZstd(z, policy, a, raw, kinds[0]);
            var (later, a2) := DeltaOffers(z, schema, policy, a1, sequence, previous, current, kinds[1..]);
            var (all, last) := DeltaOffers(z, schema, policy, a, sequence, previous, current, kinds);
            before + all == before + now + later && last == a2
  {
    hide DeltaAndZstd, DeltaOf;
    var raw := DeltaOf(schema, sequence, previous, current, kinds[0], policy.smartDelta);
    var (now, a1) := DeltaAndZstd(z, policy, a, raw, kinds[0]);
    Associative(before, now, DeltaOffers(z, schema, policy, a1, sequence, previous, current, kinds[1..]).0);
  }

  lemma NoDeltaOffers(z: Zstd, schema: u64, policy: Policy, a: Advice, sequence: u64, previous: Bytes,
                      current: Bytes, before: seq<Offer>)
    requires sequence > 0
    ensures var (none, last) := DeltaOffers(z, schema, policy, a, sequence, previous, current, []);
            before + none == before && last == a
  {
  }

  lemma NotCompressedIsRaw(z: Zstd, policy: Policy, raw: Packet)
    ensures var c := Candidate(z, policy, raw); !IsCompressed(c) ==> c == raw
  {
  }

  class FastByteStateEncoder {
    const z: Zstd
    const schemaHash: u64
    const policy: Policy
    const advisor: StrategyAdvisor
    var sequence: u64
    var previous: Option<Bytes>
    var lastDecision: Option<Decision>

    function State(): EncoderState
      reads this, advisor
    {
      EncoderState(sequence, previous, advisor.State())
    }

    constructor (z: Zstd, schemaName: Bytes, policy: Policy)
      ensures fresh(advisor)
      ensures this.z == z && schemaHash == Fnv.Hash(schemaName) && this.policy == policy
      ensures State() == NewEncoder(policy) && lastDecision == None
    {
      this.z, this.policy := z, policy;
      schemaHash := Fnv.Hash(schemaName);
      advisor := new StrategyAdvisor(policy.selector);
      sequence, previous, lastDecision := 0, None, None;
    }

    method EncodeUpdate(current: Bytes) returns (r: Result<Packet>)
      modifies this, advisor
      ensures (State(), r) == Publish(z, schemaHash, policy, old(State()), current)
      ensures r.Err? ==> lastDecision == old(lastDecision)
      ensures r.Ok? ==>
                lastDecision == Some(DecisionOf(
                  AllOffers(z, schemaHash, policy, old(State()), old(sequence) + 1, current).0,
                  old(previous), current))
    {
      hide SnapshotOf, DeltaOffers, Best, Profile, Shortlist, Fnv.Hash;
      if sequence + 1 >= U64_LIMIT {
        return Err(InvalidState);
      }
      sequence := sequence + 1;
      var snapshot := SnapshotOf(schemaHash, sequence, current);
      var snapshotBytes := EncodedLen(snapshot);
      var best, considered := OfferOf(RawSnapshot, snapshot), 1;
      ghost var offers := [best];
      BestAppend([], best);
      assert [] + [best] == offers;
      var profile := None;
      if previous.Some? {
        var analysed := Analyze(previous.value, current);
        profile := Some(analysed);
        var kinds := advisor.ShortlistFor(analysed);
        assert kinds == KindsFor(advisor.State(), previous.value, current);
        best, considered, offers := TryShortlist(previous.value, current, kinds, best, considered, offers);
        if best.mode.RawDelta? || best.mode.ZstdDelta? {
          advisor.ObserveWinner(best.mode.kind);
        } else {
          advisor.ObserveNoDelta();
        }
      } else if policy.enableZstd && |current| >= policy.minZstdPayload {
        var compressed := Candidate(z, policy, snapshot);
        considered := considered + 1;
        NotCompressedIsRaw(z, policy, snapshot);
        BestAppend(offers, OfferOf(ZstdSnapshot, compressed));
        offers := offers + [OfferOf(ZstdSnapshot, compressed)];
        assert offers == [OfferOf(RawSnapshot, snapshot), OfferOf(ZstdSnapshot, compressed)];
        if IsCompressed(compressed) && EncodedLen(compressed) < EncodedLen(best.packet) {
          best := OfferOf(ZstdSnapshot, compressed);
        }
      }
      assert offers == AllOffers(z, schemaHash, policy, old(State()), sequence, current).0;
      previous := Some(current);
      lastDecision := Some(Decision(best.mode, profile, considered, EncodedLen(best.packet), snapshotBytes));
      return Ok(best.packet);
    }

    method TryShortlist(before: Bytes, current: Bytes, kinds: seq<SmartDelta.Kind>,
                        start: Offer, startCount: nat, ghost startOffers: seq<Offer>)
      returns (best: Offer, considered: nat, ghost offers: seq<Offer>)
      requires sequence > 0 && startOffers != [] && start == Best(startOffers) && startCount == |startOffers|
      requires start.score == EncodedLen(start.packet)
      requires forall n | 0 <= n < |kinds| :: SmartDelta.Legal(kinds[n], before, current)
      modifies advisor
      ensures var (rest, a) :=
                DeltaOffers(z, schemaHash, policy, old(advisor.State()), sequence, before, current, kinds);
              offers == startOffers + rest && advisor.State() == a
      ensures best == Best(offers) && considered == |offers|
    {
      hide *;
      best, considered, offers := start, startCount, startOffers;
      ghost var (all, last) := DeltaOffers(z, schemaHash, policy, advisor.State(), sequence, before, current, kinds);
      assert kinds[0..] == kinds;
      for n := 0 to |kinds|
        invariant offers != [] && best == Best(offers) && considered == |offers|
        invariant best.score == EncodedLen(best.packet)
        invariant forall m | 0 <= m < |kinds[n..]| :: SmartDelta.Legal(kinds[n..][m], before, current)
        invariant var (rest, a) :=
                    DeltaOffers(z, schemaHash, policy, advisor.State(), sequence, before, current, kinds[n..]);
                  offers + rest == startOffers + all && a == last
      {
        assert kinds[n..][0] == kinds[n] && kinds[n..][1..] == kinds[n + 1..];
        DeltaOffersStep(z, schemaHash, policy, advisor.State(), sequence, before, current, kinds[n..], offers);
        best, considered, offers := TryKind(before, current, kinds[n], best, considered, offers);
      }
      NoDeltaOffers(z, schemaHash, policy, advisor.State(), sequence, before, current, offers);
      assert kinds[|kinds|..] == [];
    }

    /** One turn of the shortlist loop. */
    method TryKind(before: Bytes, current: Bytes, kind: SmartDelta.Kind,
                   start: Offer, startCount: nat, ghost startOffers: seq<Offer>)
      returns (best: Offer, considered: nat, ghost offers: seq<Offer>)
      requires sequence > 0 && startOffers != [] && start == Best(startOffers) && startCount == |startOffers|
      requires start.score == EncodedLen(start.packet)
      requires SmartDelta.Legal(kind, before, current)
      modifies advisor
      ensures var raw := DeltaOf(schemaHash, sequence, before, current, kind, policy.smartDelta);
              var (added, a) := DeltaAndZstd(z, policy, old(advisor.State()), raw, kind);
              offers == startOffers + added && advisor.State() == a
      ensures best == Best(offers) && considered == |offers| && best.score == EncodedLen(best.packet)
    {
      hide SmartDelta.Encode, Best, Candidate, ShouldCompress, WithCompression, Fnv.Hash;
      best, considered, offers := start, startCount, startOffers;
      var encoded := SmartDeltaCodec.EncodeCandidate(kind, before, current, policy.smartDelta);
      var delta := NewDelta(sequence, sequence - 1, Fnv.Hash(before), schemaHash, encoded.value.payload);
      considered := considered + 1;
      BestAppend(offers, OfferOf(RawDelta(kind), delta));
      offers := offers + [OfferOf(RawDelta(kind), delta)];
      if EncodedLen(delta) < EncodedLen(best.packet) {
        best := OfferOf(RawDelta(kind), delta);
      }
      if policy.enableZstd && ShouldCompress(advisor.State(), |delta.payload|, policy.minZstdPayload) {
        var compressed := Candidate(z, policy, delta);
        considered := considered + 1;
        advisor.ObserveCompression(IsCompressed(compressed) && EncodedLen(compressed) < EncodedLen(delta));
        NotCompressedIsRaw(z, policy, delta);
        BestAppend(offers, OfferOf(ZstdDelta(kind), compressed));
        offers := offers + [OfferOf(ZstdDelta(kind), compressed)];
        assert offers == startOffers + [OfferOf(RawDelta(kind), delta), OfferOf(ZstdDelta(kind), compressed)];
        if IsCompressed(compressed) && EncodedLen(compressed) < EncodedLen(best.packet) {
          best := OfferOf(ZstdDelta(kind), compressed);
        }
      }
    }

    /** An authoritative snapshot at the sequence of the last update, never compressed. */
    method Recover(current: Bytes) returns (p: Packet)
      ensures IsSnapshotOf(z, schemaHash, sequence, current, p) && !IsCompressed(p) && p.payload == current
      ensures p == RecoverySnapshot(schemaHash, State(), current)
    {
      hide Fnv.Hash, IsSnapshotOf;
      CandidateIsSnapshot(z, schemaHash, sequence, current, 0, 0);
      p := SnapshotOf(schemaHash, sequence, current);
    }
  }
}
