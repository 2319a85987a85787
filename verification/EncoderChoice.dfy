/**
  What the two byte-state encoders consider, said of the packet they send and of nothing in between: it is
  never longer than the raw snapshot, than the raw delta of any strategy in play, or than what compression
  would have made of either when compression is in play.
  */
module EncoderChoice {
  import opened Core
  import opened Wire
  import opened Offers
  import D = SmartDelta
  import SmartDeltaCodec
  import B = ByteSync
  import F = FastSync
  import Fnv
  import S = FastSelector

  /** Splices and chunks fit any two states, the other three only states of equal length. */
  predicate Fits(kind: D.Kind, previous: Bytes, current: Bytes) {
    kind == D.Splice || kind == D.Chunks || |previous| == |current|
  }

  lemma BestIsNoDearer(offers: seq<Offer>, o: Offer)
    requires o in offers
    ensures Best(offers).score <= o.score
  {
    hide Best;
    var n := BestIsFirstLeast(offers);
  }

  // ---------------------------------------------------------------- the full encoder

  lemma FitsIsConsidered(kind: D.Kind, previous: Bytes, current: Bytes)
    requires Fits(kind, previous, current)
    ensures D.Legal(kind, previous, current) && kind in SmartDeltaCodec.KindsFor(previous, current)
  {
  }

  lemma {:induction false} RawDeltaIsOffered(z: Zstd, schema: u64, policy: B.Policy, t: B.Tuner, sequence: u64,
                                             previous: Bytes, current: Bytes, kinds: seq<D.Kind>, kind: D.Kind)
    returns (o: Offer)
    requires sequence > 0 && forall n | 0 <= n < |kinds| :: D.Legal(kinds[n], previous, current)
    requires kind in kinds && D.Legal(kind, previous, current)
    ensures o in B.DeltaOffers(z, schema, policy, t, sequence, previous, current, kinds).0
    ensures o.packet == DeltaOf(schema, sequence, previous, current, kind, policy.smartDelta)
    ensures o.score == EncodedLen(o.packet)
    decreases |kinds|
  {
    hide DeltaOf;
    var raw := DeltaOf(schema, sequence, previous, current, kinds[0], policy.smartDelta);
    var (now, t1) := B.RawAndZstd(z, policy, t, raw, RawDelta(kinds[0]), ZstdDelta(kinds[0]));
    if kinds[0] == kind {
      o := now[0];
    } else {
      o := RawDeltaIsOffered(z, schema, policy, t1, sequence, previous, current, kinds[1..], kind);
    }
  }

  /** No tuner that started at or below 64 KiB asks for more. */
  lemma TunerStaysBelow(t: B.Tuner, before: nat, after: nat)
    requires t.minZstdPayload <= 0x1_0000
    ensures B.Observe(t, before, after).minZstdPayload <= 0x1_0000
  {
  }

  lemma {:induction false} LargeDeltaIsCompressed(z: Zstd, schema: u64, policy: B.Policy, t: B.Tuner, sequence: u64,
                                                  previous: Bytes, current: Bytes, kinds: seq<D.Kind>, kind: D.Kind)
    returns (o: Offer)
    requires sequence > 0 && forall n | 0 <= n < |kinds| :: D.Legal(kinds[n], previous, current)
    requires kind in kinds && D.Legal(kind, previous, current)
    requires policy.enableZstd && t.minZstdPayload <= 0x1_0000
    requires |D.Encode(kind, previous, current, policy.smartDelta)| >= 0x1_0000
    ensures o in B.DeltaOffers(z, schema, policy, t, sequence, previous, current, kinds).0
    ensures o.packet == ZstdCandidate(z, DeltaOf(schema, sequence, previous, current, kind, policy.smartDelta),
                                      policy.zstdLevel, policy.minCompressionSavings)
    ensures o.score == B.Score(policy, o.packet)
    decreases |kinds|
  {
    hide D.Encode, ZstdCandidate, B.Observe, B.Score;
    var raw := DeltaOf(schema, sequence, previous, current, kinds[0], policy.smartDelta);
    var (now, t1) := B.RawAndZstd(z, policy, t, raw, RawDelta(kinds[0]), ZstdDelta(kinds[0]));
    if kinds[0] == kind {
      o := now[1];
    } else {
      TunerStaysBelow(t, EncodedLen(raw),
                      EncodedLen(ZstdCandidate(z, raw, policy.zstdLevel, policy.minCompressionSavings)));
      o := LargeDeltaIsCompressed(z, schema, policy, t1, sequence, previous, current, kinds[1..], kind);
    }
  }

  /** The score of what is sent, and what that says about its length. */
  lemma SentScore(z: Zstd, schema: u64, policy: B.Policy, st: B.EncoderState, current: Bytes, o: Offer)
    requires st.sequence + 1 < U64_LIMIT && |current| <= MAX_LEN
    requires o in B.AllOffers(z, schema, policy, st, st.sequence + 1, current).0
    ensures var p := B.Publish(z, schema, policy, st, current).1;
            p.Ok? && EncodedLen(p.value) <= o.score && EncodedLen(p.value) <= HEADER_LEN + |current|
  {
    hide B.AllOffers, Best;
    var offers := B.AllOffers(z, schema, policy, st, st.sequence + 1, current).0;
    B.AllOffersAreScored(z, schema, policy, st, st.sequence + 1, current);
    BestIsNoDearer(offers, o);
    BestIsNoDearer(offers, offers[0]);
  }

  /** The packet sent is no longer than the raw snapshot, nor than the raw delta of any strategy that fits. */
  lemma NoDeltaIsShorter(z: Zstd, schema: u64, policy: B.Policy, st: B.EncoderState, current: Bytes, kind: D.Kind)
    requires st.sequence + 1 < U64_LIMIT && |current| <= MAX_LEN
    requires st.previous.Some? && Fits(kind, st.previous.value, current)
    ensures D.Legal(kind, st.previous.value, current)
    ensures var p := B.Publish(z, schema, policy, st, current).1;
            && p.Ok?
            && EncodedLen(p.value) <= 46 + |current|
            && EncodedLen(p.value) <= 46 + |D.Encode(kind, st.previous.value, current, policy.smartDelta)|
  {
    hide B.Publish, B.DeltaOffers, B.RawAndZstd, D.Encode, SmartDeltaCodec.KindsFor;
    var previous, sequence := st.previous.value, st.sequence + 1;
    FitsIsConsidered(kind, previous, current);
    var t := B.RawAndZstd(z, policy, st.tuner, SnapshotOf(schema, sequence, current), RawSnapshot, ZstdSnapshot).1;
    var o := RawDeltaIsOffered(z, schema, policy, t, sequence, previous, current,
                               SmartDeltaCodec.KindsFor(previous, current), kind);
    SentScore(z, schema, policy, st, current, o);
  }

  /** Without anything to compare with, and with compression off, it is the raw snapshot. */
  lemma FirstIsSnapshot(z: Zstd, schema: u64, policy: B.Policy, st: B.EncoderState, current: Bytes)
    requires st.sequence + 1 < U64_LIMIT && st.previous.None? && !policy.enableZstd
    ensures B.Publish(z, schema, policy, st, current).1 ==
            Ok(Packet(Snapshot, 0, st.sequence + 1, 0, Fnv.Hash(current), schema, current))
  {
  }

  /** A recovery snapshot is compressed whenever that is enabled, large enough and saves more than the margin. */
  lemma RecoveryIsCompressed(z: Zstd, schema: u64, policy: B.Policy, st: B.EncoderState, current: Bytes)
    requires |current| <= MAX_LEN
    ensures var p, compressed := B.RecoverySnapshot(z, schema, policy, st, current),
                                 z.compress(policy.zstdLevel, current);
            p == if policy.enableZstd && |current| >= 64 && |current| >= st.tuner.minZstdPayload
                    && |compressed| + policy.minCompressionSavings < |current|
                 then Packet(Snapshot, 1, st.sequence, 0, Fnv.Hash(current), schema, compressed)
                 else Packet(Snapshot, 0, st.sequence, 0, Fnv.Hash(current), schema, current)
  {
    hide Fnv.Hash;
  }

  /** Nor is it dearer than the compressed snapshot, once that reaches the tuner's threshold. */
  lemma CompressedSnapshotIsTried(z: Zstd, schema: u64, policy: B.Policy, st: B.EncoderState, current: Bytes)
    requires st.sequence + 1 < U64_LIMIT && |current| <= MAX_LEN && policy.enableZstd
    requires |current| >= 64 && |current| >= st.tuner.minZstdPayload
    ensures var p := B.Publish(z, schema, policy, st, current).1;
            var c := ZstdCandidate(z, SnapshotOf(schema, st.sequence + 1, current), policy.zstdLevel,
                                   policy.minCompressionSavings);
            p.Ok? && EncodedLen(p.value) <= EncodedLen(c) + policy.cpuPenalty
  {
    hide B.Publish, B.DeltaOffers, ZstdCandidate, B.Observe;
    var snapshot := SnapshotOf(schema, st.sequence + 1, current);
    var offers := B.RawAndZstd(z, policy, st.tuner, snapshot, RawSnapshot, ZstdSnapshot).0;
    SentScore(z, schema, policy, st, current, offers[1]);
  }

  /** Nor than the compressed delta of any strategy that fits, once that takes 64 KiB. */
  lemma CompressedDeltaIsTried(z: Zstd, schema: u64, policy: B.Policy, st: B.EncoderState, current: Bytes, kind: D.Kind)
    requires st.sequence + 1 < U64_LIMIT && |current| <= MAX_LEN && policy.enableZstd
    requires st.previous.Some? && Fits(kind, st.previous.value, current) && D.Legal(kind, st.previous.value, current)
    requires st.tuner.minZstdPayload <= 0x1_0000
    requires |D.Encode(kind, st.previous.value, current, policy.smartDelta)| >= 0x1_0000
    ensures var p := B.Publish(z, schema, policy, st, current).1;
            var delta := DeltaOf(schema, st.sequence + 1, st.previous.value, current, kind, policy.smartDelta);
            var c := ZstdCandidate(z, delta, policy.zstdLevel, policy.minCompressionSavings);
            p.Ok? && EncodedLen(p.value) <= EncodedLen(c) + policy.cpuPenalty
  {
    hide B.Publish, B.DeltaOffers, B.Observe, ZstdCandidate, D.Encode, SmartDeltaCodec.KindsFor;
    var previous, sequence := st.previous.value, st.sequence + 1;
    var snapshot := SnapshotOf(schema, sequence, current);
    FitsIsConsidered(kind, previous, current);
    TunerStaysBelow(st.tuner, EncodedLen(snapshot),
                    EncodedLen(ZstdCandidate(z, snapshot, policy.zstdLevel, policy.minCompressionSavings)));
    var t := B.RawAndZstd(z, policy, st.tuner, snapshot, RawSnapshot, ZstdSnapshot).1;
    var o := LargeDeltaIsCompressed(z, schema, policy, t, sequence, previous, current,
                                    SmartDeltaCodec.KindsFor(previous, current), kind);
    SentScore(z, schema, policy, st, current, o);
  }

  // ---------------------------------------------------------------- what the tuner learns

  /** The tuner after some tries, each the length before and after compression. */
  function ObserveAll(t: B.Tuner, tries: seq<(nat, nat)>): B.Tuner {
    if tries == [] then t
    else
      var last := tries[|tries| - 1];
      B.Observe(ObserveAll(t, tries[..|tries| - 1]), last.0, last.1)
  }

  /** How many of them paid. */
  function Paid(tries: seq<(nat, nat)>): (n: nat)
    ensures n <= |tries|
  {
    if tries == [] then 0
    else
      var last := tries[|tries| - 1];
      Paid(tries[..|tries| - 1]) + if last.1 < last.0 then 1 else 0
  }

  lemma {:induction false} TunerCounts(t: B.Tuner, tries: seq<(nat, nat)>)
    requires t.attempts == 0 && t.wins == 0 && |tries| < 32
    ensures var t' := ObserveAll(t, tries);
            t'.attempts == |tries| && t'.wins == Paid(tries) && t'.minZstdPayload == t.minZstdPayload
    decreases |tries|
  {
    if tries != [] {
      TunerCounts(t, tries[..|tries| - 1]);
    }
  }

  /**
    Over 32 tries the threshold doubles, between 64 bytes and 64 KiB, if at most three paid, halves, to no less
    than 64 bytes, if at least twenty did, and stays otherwise; then the count begins again.
    */
  lemma TunerAdapts(t: B.Tuner, tries: seq<(nat, nat)>)
    requires t.attempts == 0 && t.wins == 0 && |tries| == 32
    requires t.minZstdPayload <= 0x1_0000
    ensures var t' := ObserveAll(t, tries);
            && t'.attempts == 0 && t'.wins == 0
            && t'.minZstdPayload ==
               if Paid(tries) <= 3 then Max(64, Min(2 * t.minZstdPayload, 65536))
               else if Paid(tries) >= 20 then Max(t.minZstdPayload / 2, 64)
               else t.minZstdPayload
  {
    TunerCounts(t, tries[..31]);
  }

  // ---------------------------------------------------------------- the shortlisting encoder

  lemma {:induction false} ShortlistedIsOffered(z: Zstd, schema: u64, policy: F.Policy, a: S.Advice, sequence: u64,
                                                previous: Bytes, current: Bytes, kinds: seq<D.Kind>, kind: D.Kind)
    returns (o: Offer)
    requires sequence > 0 && forall n | 0 <= n < |kinds| :: D.Legal(kinds[n], previous, current)
    requires kind in kinds && D.Legal(kind, previous, current)
    ensures o in F.DeltaOffers(z, schema, policy, a, sequence, previous, current, kinds).0
    ensures o == F.OfferOf(RawDelta(kind), DeltaOf(schema, sequence, previous, current, kind, policy.smartDelta))
    decreases |kinds|
  {
    hide DeltaOf;
    var raw := DeltaOf(schema, sequence, previous, current, kinds[0], policy.smartDelta);
    var (now, a1) := F.DeltaAndZstd(z, policy, a, raw, kinds[0]);
    if kinds[0] == kind {
      o := now[0];
    } else {
      o := ShortlistedIsOffered(z, schema, policy, a1, sequence, previous, current, kinds[1..], kind);
    }
  }

  lemma FastScore(z: Zstd, schema: u64, policy: F.Policy, st: F.EncoderState, current: Bytes, o: Offer)
    requires st.sequence + 1 < U64_LIMIT
    requires o in F.AllOffers(z, schema, policy, st, st.sequence + 1, current).0
    requires forall q | q in F.AllOffers(z, schema, policy, st, st.sequence + 1, current).0 ::
               q.score == EncodedLen(q.packet)
    ensures var p := F.Publish(z, schema, policy, st, current).1;
            p.Ok? && EncodedLen(p.value) <= EncodedLen(o.packet)
  {
    hide F.AllOffers, Best;
    BestIsNoDearer(F.AllOffers(z, schema, policy, st, st.sequence + 1, current).0, o);
  }

  lemma {:induction false} DeltasScoreTheirLength(z: Zstd, schema: u64, policy: F.Policy, a: S.Advice, sequence: u64,
                                                  previous: Bytes, current: Bytes, kinds: seq<D.Kind>)
    requires sequence > 0 && forall n | 0 <= n < |kinds| :: D.Legal(kinds[n], previous, current)
    ensures forall o | o in F.DeltaOffers(z, schema, policy, a, sequence, previous, current, kinds).0 ::
              o.score == EncodedLen(o.packet)
    decreases |kinds|
  {
    hide DeltaOf;
    if kinds != [] {
      var raw := DeltaOf(schema, sequence, previous, current, kinds[0], policy.smartDelta);
      var a1 := F.DeltaAndZstd(z, policy, a, raw, kinds[0]).1;
      DeltasScoreTheirLength(z, schema, policy, a1, sequence, previous, current, kinds[1..]);
    }
  }

  lemma OffersScoreTheirLength(z: Zstd, schema: u64, policy: F.Policy, st: F.EncoderState, sequence: u64,
                               current: Bytes)
    requires sequence > 0
    ensures forall o | o in F.AllOffers(z, schema, policy, st, sequence, current).0 :: o.score == EncodedLen(o.packet)
  {
    hide F.DeltaOffers, F.KindsFor, SnapshotOf;
    if st.previous.Some? {
      DeltasScoreTheirLength(z, schema, policy, st.advice, sequence, st.previous.value, current,
                             F.KindsFor(st.advice, st.previous.value, current));
    }
  }

  /** The packet sent is no longer than the raw snapshot, nor than the raw delta of any strategy on the shortlist. */
  lemma NoShortlistedIsShorter(z: Zstd, schema: u64, policy: F.Policy, st: F.EncoderState, current: Bytes, kind: D.Kind)
    requires st.sequence + 1 < U64_LIMIT && st.previous.Some?
    requires kind in S.Shortlist(st.advice, S.Profile(st.previous.value, current))
    ensures D.Legal(kind, st.previous.value, current)
    ensures var p := F.Publish(z, schema, policy, st, current).1;
            && p.Ok?
            && EncodedLen(p.value) <= 46 + |current|
            && EncodedLen(p.value) <= 46 + |D.Encode(kind, st.previous.value, current, policy.smartDelta)|
  {
    hide F.Publish, F.DeltaOffers, D.Encode, S.Shortlist, S.Profile;
    var previous, sequence := st.previous.value, st.sequence + 1;
    S.ShortlistIsLegal(st.advice, previous, current);
    OffersScoreTheirLength(z, schema, policy, st, sequence, current);
    var o := ShortlistedIsOffered(z, schema, policy, st.advice, sequence, previous, current,
                                  F.KindsFor(st.advice, previous, current), kind);
    FastScore(z, schema, policy, st, current, o);
    FastScore(z, schema, policy, st, current, F.AllOffers(z, schema, policy, st, sequence, current).0[0]);
  }

  /** `kind` fills three quarters of the latest winners, of which there are at least eight. */
  predicate Dominates(a: S.Advice, kind: D.Kind) {
    |a.recent| >= 8 && 4 * multiset(a.recent)[kind] >= 3 * |a.recent|
  }

  /** Every `exploreEvery` updates the advisor looks past the dominant strategy. */
  predicate Exploring(a: S.Advice) {
    a.policy.exploreEvery != 0 && a.updates != 0 && a.updates % a.policy.exploreEvery == 0
  }

  /** Few changed bytes, or few runs of them. */
  predicate Few(a: S.Advice, previous: Bytes, current: Bytes) {
    var profile := S.Profile(previous, current);
    || S.ChangePercent(a.policy, profile) <= a.policy.sparseRatio as real
    || profile.changedRuns <= a.policy.rangeRunLimit
  }

  predicate Many(a: S.Advice, previous: Bytes, current: Bytes) {
    S.ChangePercent(a.policy, S.Profile(previous, current)) >= 45.0
  }

  /**
    Which strategies are on the shortlist: for different lengths splice and chunks; for equal lengths the
    dominant one alone unless it is time to explore, and otherwise ranges, with xor when there are many
    changes in many runs, and with sparse in all other cases.
    */
  lemma ShortlistIs(a: S.Advice, previous: Bytes, current: Bytes, kind: D.Kind)
    ensures kind in S.Shortlist(a, S.Profile(previous, current)) <==>
            if |previous| != |current| then kind == D.Splice || kind == D.Chunks
            else if !Exploring(a) && exists k :: Dominates(a, k) then Dominates(a, kind)
            else if !Few(a, previous, current) && Many(a, previous, current) then kind == D.Ranges || kind == D.Xor
            else kind == D.Ranges || kind == D.Sparse
  {
    hide S.Dominant, S.ChangePercent;
    forall k: D.Kind ensures S.Dominant(a.recent) == Some(k) <==> Dominates(a, k) {
      S.DominantIsTheHeavyOne(a.recent, k);
    }
  }

  lemma {:induction false} EarlyDeltaIsCompressed(z: Zstd, schema: u64, policy: F.Policy, a: S.Advice, sequence: u64,
                                                  previous: Bytes, current: Bytes, kinds: seq<D.Kind>, kind: D.Kind)
    returns (o: Offer)
    requires sequence > 0 && forall n | 0 <= n < |kinds| :: D.Legal(kinds[n], previous, current)
    requires kind in kinds && D.Legal(kind, previous, current)
    requires policy.enableZstd && a.attempts + |kinds| <= 16
    requires |D.Encode(kind, previous, current, policy.smartDelta)| >= policy.minZstdPayload
    ensures o in F.DeltaOffers(z, schema, policy, a, sequence, previous, current, kinds).0
    ensures o.packet == ZstdCandidate(z, DeltaOf(schema, sequence, previous, current, kind, policy.smartDelta),
                                      policy.zstdLevel, policy.minCompressionSavings)
    decreases |kinds|
  {
    hide D.Encode, ZstdCandidate;
    var raw := DeltaOf(schema, sequence, previous, current, kinds[0], policy.smartDelta);
    var (now, a1) := F.DeltaAndZstd(z, policy, a, raw, kinds[0]);
    if kinds[0] == kind {
      o := now[1];
    } else {
      o := EarlyDeltaIsCompressed(z, schema, policy, a1, sequence, previous, current, kinds[1..], kind);
    }
  }

  /** While fewer than fifteen compressions were tried, every shortlisted delta that is large enough is. */
  lemma ShortlistedIsCompressed(z: Zstd, schema: u64, policy: F.Policy, st: F.EncoderState, current: Bytes,
                                kind: D.Kind)
    requires st.sequence + 1 < U64_LIMIT && st.previous.Some? && policy.enableZstd && st.advice.attempts < 15
    requires kind in S.Shortlist(st.advice, S.Profile(st.previous.value, current))
    requires D.Legal(kind, st.previous.value, current)
    requires |D.Encode(kind, st.previous.value, current, policy.smartDelta)| >= policy.minZstdPayload
    ensures var p := F.Publish(z, schema, policy, st, current).1;
            var delta := DeltaOf(schema, st.sequence + 1, st.previous.value, current, kind, policy.smartDelta);
            var c := ZstdCandidate(z, delta, policy.zstdLevel, policy.minCompressionSavings);
            p.Ok? && EncodedLen(p.value) <= EncodedLen(c)
  {
    hide F.Publish, F.DeltaOffers, D.Encode, S.Shortlist, S.Profile, ZstdCandidate;
    var previous, sequence := st.previous.value, st.sequence + 1;
    S.ShortlistIsLegal(st.advice, previous, current);
    OffersScoreTheirLength(z, schema, policy, st, sequence, current);
    var o := EarlyDeltaIsCompressed(z, schema, policy, st.advice, sequence, previous, current,
                                    F.KindsFor(st.advice, previous, current), kind);
    FastScore(z, schema, policy, st, current, o);
  }

  /** The first snapshot is tried compressed as soon as it is large enough. */
  lemma FirstSnapshotIsCompressed(z: Zstd, schema: u64, policy: F.Policy, st: F.EncoderState, current: Bytes)
    requires st.sequence + 1 < U64_LIMIT && st.previous.None?
    ensures var p := F.Publish(z, schema, policy, st, current).1;
            var raw := SnapshotOf(schema, st.sequence + 1, current);
            var c := ZstdCandidate(z, raw, policy.zstdLevel, policy.minCompressionSavings);
            p == Ok(if policy.enableZstd && |current| >= policy.minZstdPayload && |c.payload| < |current| then c
                    else raw)
  {
    hide ZstdCandidate, Fnv.Hash;
  }

  // ---------------------------------------------------------------- what the advisor learns

  /** The packet is a delta of this strategy, raw or compressed. */
  predicate IsDeltaOf(z: Zstd, schema: u64, policy: F.Policy, sequence: u64, previous: Bytes, current: Bytes,
                      kind: D.Kind, p: Packet)
    requires sequence > 0 && D.Legal(kind, previous, current)
  {
    var raw := DeltaOf(schema, sequence, previous, current, kind, policy.smartDelta);
    p == raw || p == ZstdCandidate(z, raw, policy.zstdLevel, policy.minCompressionSavings)
  }

  lemma {:induction false} ModesAreTrue(z: Zstd, schema: u64, policy: F.Policy, a: S.Advice, sequence: u64,
                                        previous: Bytes, current: Bytes, kinds: seq<D.Kind>)
    requires sequence > 0 && forall n | 0 <= n < |kinds| :: D.Legal(kinds[n], previous, current)
    ensures var (offers, a') := F.DeltaOffers(z, schema, policy, a, sequence, previous, current, kinds);
            && a'.recent == a.recent && a'.updates == a.updates && a'.policy == a.policy
            && forall o | o in offers ::
                 && (o.mode.RawDelta? || o.mode.ZstdDelta?) && D.Legal(o.mode.kind, previous, current)
                 && o.mode.kind in kinds
                 && IsDeltaOf(z, schema, policy, sequence, previous, current, o.mode.kind, o.packet)
    decreases |kinds|
  {
    hide DeltaOf, ZstdCandidate;
    if kinds != [] {
      var raw := DeltaOf(schema, sequence, previous, current, kinds[0], policy.smartDelta);
      var a1 := F.DeltaAndZstd(z, policy, a, raw, kinds[0]).1;
      ModesAreTrue(z, schema, policy, a1, sequence, previous, current, kinds[1..]);
    }
  }

  /** The latest winners with one more, at most `window` of them. */
  function WithLatest(recent: seq<D.Kind>, window: nat, kind: D.Kind): seq<D.Kind> {
    (if |recent| == window && recent != [] then recent[1..] else recent) + [kind]
  }

  /** After an update the window has taken in the strategy of the delta sent; a snapshot leaves it as it was. */
  lemma WinnerIsLearnt(z: Zstd, schema: u64, policy: F.Policy, st: F.EncoderState, current: Bytes)
    requires st.sequence + 1 < U64_LIMIT && st.previous.Some?
    ensures var (st', r) := F.Publish(z, schema, policy, st, current);
            var sequence, previous, window := st.sequence + 1, st.previous.value, Max(1, st.advice.policy.winnerWindow);
            && r.Ok?
            && st'.advice.updates == SaturatingAdd(st.advice.updates, 1)
            && (r.value.kind == Snapshot ==> st'.advice.recent == st.advice.recent)
            && (r.value.kind == Delta ==>
                  exists kind ::
                    && D.Legal(kind, previous, current)
                    && IsDeltaOf(z, schema, policy, sequence, previous, current, kind, r.value)
                    && st'.advice.recent == WithLatest(st.advice.recent, window, kind))
  {
    hide F.DeltaOffers, F.KindsFor, Best, IsDeltaOf;
    var previous, sequence := st.previous.value, st.sequence + 1;
    var kinds := F.KindsFor(st.advice, previous, current);
    ModesAreTrue(z, schema, policy, st.advice, sequence, previous, current, kinds);
    var offers := F.AllOffers(z, schema, policy, st, sequence, current).0;
    var best := Best(offers);
    assert best in offers;
    if best != offers[0] {
      assert best in F.DeltaOffers(z, schema, policy, st.advice, sequence, previous, current, kinds).0;
      DeltaKind(z, schema, policy, sequence, previous, current, best.mode.kind, best.packet);
    }
  }

  lemma DeltaKind(z: Zstd, schema: u64, policy: F.Policy, sequence: u64, previous: Bytes, current: Bytes,
                  kind: D.Kind, p: Packet)
    requires sequence > 0 && D.Legal(kind, previous, current)
    requires IsDeltaOf(z, schema, policy, sequence, previous, current, kind, p)
    ensures p.kind == Delta
  {
    hide D.Encode;
  }
}
