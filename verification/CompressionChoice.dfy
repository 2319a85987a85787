/**
  When the two byte-state encoders leave compression alone, and what they learn from the times they tried it,
  said of the packets sent and of the lengths before and after.
  */
module CompressionChoice {
  import opened Core
  import opened Wire
  import opened Offers
  import opened EncoderChoice
  import D = SmartDelta
  import SmartDeltaCodec
  import B = ByteSync
  import F = FastSync
  import S = FastSelector

  // ---------------------------------------------------------------- the full encoder

  /** The score of every packet is its length, with the penalty on top when it is compressed. */
  ghost predicate ScoredExactly(policy: B.Policy, offers: seq<Offer>) {
    forall o | o in offers ::
      && o.score == (if IsCompressed(o.packet) then SaturatingAdd(EncodedLen(o.packet), policy.cpuPenalty)
                     else EncodedLen(o.packet))
      && (!policy.enableZstd ==> !IsCompressed(o.packet))
  }

  lemma PairIsScored(z: Zstd, policy: B.Policy, t: B.Tuner, raw: Packet, rawMode: Mode, zstdMode: Mode)
    requires !IsCompressed(raw)
    ensures ScoredExactly(policy, B.RawAndZstd(z, policy, t, raw, rawMode, zstdMode).0)
  {
    hide ZstdCandidate;
  }

  lemma {:induction false} DeltasAreScored(z: Zstd, schema: u64, policy: B.Policy, t: B.Tuner, sequence: u64,
                                           previous: Bytes, current: Bytes, kinds: seq<D.Kind>)
    requires sequence > 0 && forall n | 0 <= n < |kinds| :: D.Legal(kinds[n], previous, current)
    ensures ScoredExactly(policy, B.DeltaOffers(z, schema, policy, t, sequence, previous, current, kinds).0)
    decreases |kinds|
  {
    if kinds != [] {
      hide B.RawAndZstd, D.Encode;
      var raw := DeltaOf(schema, sequence, previous, current, kinds[0], policy.smartDelta);
      PairIsScored(z, policy, t, raw, RawDelta(kinds[0]), ZstdDelta(kinds[0]));
      var t1 := B.RawAndZstd(z, policy, t, raw, RawDelta(kinds[0]), ZstdDelta(kinds[0])).1;
      DeltasAreScored(z, schema, policy, t1, sequence, previous, current, kinds[1..]);
    }
  }

  lemma AllAreScored(z: Zstd, schema: u64, policy: B.Policy, st: B.EncoderState, sequence: u64, current: Bytes)
    requires sequence > 0
    ensures ScoredExactly(policy, B.AllOffers(z, schema, policy, st, sequence, current).0)
  {
    hide B.RawAndZstd, B.DeltaOffers;
    var snapshot := SnapshotOf(schema, sequence, current);
    PairIsScored(z, policy, st.tuner, snapshot, RawSnapshot, ZstdSnapshot);
    if st.previous.Some? {
      var t := B.RawAndZstd(z, policy, st.tuner, snapshot, RawSnapshot, ZstdSnapshot).1;
      DeltasAreScored(z, schema, policy, t, sequence, st.previous.value, current,
                      SmartDeltaCodec.KindsFor(st.previous.value, current));
    }
  }

  lemma BestIsOffered(offers: seq<Offer>)
    requires offers != []
    ensures Best(offers) in offers
  {
    hide Best;
    var n := BestIsFirstLeast(offers);
  }

  /**
    A compressed packet is sent only if, with the processor penalty on top, it is still no longer than the raw
    snapshot and the raw delta of any strategy that fits; and never when compression is off.
    */
  lemma CompressionMustPay(z: Zstd, schema: u64, policy: B.Policy, st: B.EncoderState, current: Bytes, kind: D.Kind)
    requires st.sequence + 1 < U64_LIMIT && |current| <= MAX_LEN
    requires st.previous.Some? && Fits(kind, st.previous.value, current)
    ensures D.Legal(kind, st.previous.value, current)
    ensures var p := B.Publish(z, schema, policy, st, current).1;
            p.Ok? && (IsCompressed(p.value) ==>
              var dear := SaturatingAdd(EncodedLen(p.value), policy.cpuPenalty);
              && policy.enableZstd
              && dear <= 46 + |current|
              && dear <= 46 + |D.Encode(kind, st.previous.value, current, policy.smartDelta)|)
  {
    hide B.AllOffers, B.DeltaOffers, B.RawAndZstd, D.Encode, SmartDeltaCodec.KindsFor, Best;
    var previous, sequence := st.previous.value, st.sequence + 1;
    FitsIsConsidered(kind, previous, current);
    var offers := B.AllOffers(z, schema, policy, st, sequence, current).0;
    var o := DeltaIsOffered(z, schema, policy, st, current, kind);
    AllAreScored(z, schema, policy, st, sequence, current);
    BestIsNoDearer(offers, o);
    BestIsNoDearer(offers, offers[0]);
    BestIsOffered(offers);
  }

  lemma DeltaIsOffered(z: Zstd, schema: u64, policy: B.Policy, st: B.EncoderState, current: Bytes, kind: D.Kind)
    returns (o: Offer)
    requires st.sequence + 1 < U64_LIMIT && st.previous.Some? && Fits(kind, st.previous.value, current)
    ensures D.Legal(kind, st.previous.value, current)
    ensures o in B.AllOffers(z, schema, policy, st, st.sequence + 1, current).0
    ensures o.score == 46 + |D.Encode(kind, st.previous.value, current, policy.smartDelta)|
  {
    hide B.DeltaOffers, B.RawAndZstd, D.Encode, SmartDeltaCodec.KindsFor;
    var previous, sequence := st.previous.value, st.sequence + 1;
    FitsIsConsidered(kind, previous, current);
    var t := B.RawAndZstd(z, policy, st.tuner, SnapshotOf(schema, sequence, current), RawSnapshot, ZstdSnapshot).1;
    o := RawDeltaIsOffered(z, schema, policy, t, sequence, previous, current,
                           SmartDeltaCodec.KindsFor(previous, current), kind);
  }

  // ---------------------------------------------------------------- what the tuner is told

  lemma {:induction false} ObserveFirst(t: B.Tuner, first: (nat, nat), rest: seq<(nat, nat)>)
    ensures ObserveAll(t, [first] + rest) == ObserveAll(B.Observe(t, first.0, first.1), rest)
    decreases |rest|
  {
    hide B.Observe;
    if rest == [] {
      assert [first] + rest == [first] && [first][..0] == [];
      assert ObserveAll(t, [first]) == B.Observe(ObserveAll(t, []), first.0, first.1);
    } else {
      var m := |rest| - 1;
      assert ([first] + rest)[..|rest|] == [first] + rest[..m];
      ObserveFirst(t, first, rest[..m]);
    }
  }

  /** The lengths before and after compressing a packet. */
  function Try(z: Zstd, policy: B.Policy, raw: Packet): (nat, nat) {
    (EncodedLen(raw), EncodedLen(ZstdCandidate(z, raw, policy.zstdLevel, policy.minCompressionSavings)))
  }

  ghost predicate IsDeltaTry(z: Zstd, schema: u64, policy: B.Policy, sequence: u64, previous: Bytes, current: Bytes,
                             e: (nat, nat))
    requires sequence > 0
  {
    exists kind ::
      && D.Legal(kind, previous, current)
      && e == Try(z, policy, DeltaOf(schema, sequence, previous, current, kind, policy.smartDelta))
  }

  lemma {:induction false} DeltasAreTried(z: Zstd, schema: u64, policy: B.Policy, t: B.Tuner, sequence: u64,
                                          previous: Bytes, current: Bytes, kinds: seq<D.Kind>)
    returns (tries: seq<(nat, nat)>)
    requires sequence > 0 && forall n | 0 <= n < |kinds| :: D.Legal(kinds[n], previous, current)
    ensures B.DeltaOffers(z, schema, policy, t, sequence, previous, current, kinds).1 == ObserveAll(t, tries)
    ensures |tries| <= |kinds| && (!policy.enableZstd ==> tries == [])
    ensures forall e | e in tries :: IsDeltaTry(z, schema, policy, sequence, previous, current, e)
    ensures policy.enableZstd && t.minZstdPayload <= 0x1_0000 ==>
              forall n | 0 <= n < |kinds| && |D.Encode(kinds[n], previous, current, policy.smartDelta)| >= 0x1_0000 ::
                Try(z, policy, DeltaOf(schema, sequence, previous, current, kinds[n], policy.smartDelta)) in tries
    decreases |kinds|
  {
    hide B.Observe, D.Encode, ZstdCandidate, ObserveAll;
    if kinds == [] {
      tries := [];
      NothingObserved(t);
    } else {
      var raw := DeltaOf(schema, sequence, previous, current, kinds[0], policy.smartDelta);
      var t1 := B.RawAndZstd(z, policy, t, raw, RawDelta(kinds[0]), ZstdDelta(kinds[0])).1;
      if t.minZstdPayload <= 0x1_0000 {
        TunerStaysBelow(t, Try(z, policy, raw).0, Try(z, policy, raw).1);
      }
      var later := DeltasAreTried(z, schema, policy, t1, sequence, previous, current, kinds[1..]);
      assert forall n | 0 <= n < |kinds| - 1 :: kinds[1..][n] == kinds[n + 1];
      if policy.enableZstd && B.ShouldTryZstd(t, |raw.payload|) {
        ObserveFirst(t, Try(z, policy, raw), later);
        tries := [Try(z, policy, raw)] + later;
      } else {
        tries := later;
      }
    }
  }

  lemma NothingObserved(t: B.Tuner)
    ensures ObserveAll(t, []) == t
  {
  }

  /**
    An update tells the tuner of every compression tried, the snapshot first and then deltas, and of nothing
    else: the snapshot is among them when it reaches the threshold, a delta when it takes 64 KiB.
    */
  lemma TunerIsFed(z: Zstd, schema: u64, policy: B.Policy, st: B.EncoderState, current: Bytes)
    returns (tries: seq<(nat, nat)>)
    requires st.sequence + 1 < U64_LIMIT
    ensures var snapshot := Try(z, policy, SnapshotOf(schema, st.sequence + 1, current));
            && B.Publish(z, schema, policy, st, current).0.tuner == ObserveAll(st.tuner, tries)
            && |tries| <= 6 && (!policy.enableZstd ==> tries == [])
            && (policy.enableZstd && |current| >= 64 && |current| >= st.tuner.minZstdPayload ==>
                  tries != [] && tries[0] == snapshot)
            && (forall e | e in tries :: e == snapshot || (st.previous.Some? &&
                  IsDeltaTry(z, schema, policy, st.sequence + 1, st.previous.value, current, e)))
    ensures policy.enableZstd && st.tuner.minZstdPayload <= 0x1_0000 && st.previous.Some? ==>
              forall kind |
                && Fits(kind, st.previous.value, current) && D.Legal(kind, st.previous.value, current)
                && |D.Encode(kind, st.previous.value, current, policy.smartDelta)| >= 0x1_0000 ::
                Try(z, policy, DeltaOf(schema, st.sequence + 1, st.previous.value, current, kind, policy.smartDelta))
                in tries
  {
    hide B.Observe, B.DeltaOffers, D.Encode, ZstdCandidate, ObserveAll, Best, SnapshotOf, DeltaOf;
    var sequence := st.sequence + 1;
    var raw := SnapshotOf(schema, sequence, current);
    var (now, t) := B.RawAndZstd(z, policy, st.tuner, raw, RawSnapshot, ZstdSnapshot);
    var later: seq<(nat, nat)> := [];
    SnapshotCarries(schema, sequence, current);
    NothingObserved(t);
    if st.tuner.minZstdPayload <= 0x1_0000 {
      TunerStaysBelow(st.tuner, Try(z, policy, raw).0, Try(z, policy, raw).1);
    }
    if st.previous.Some? {
      var previous := st.previous.value;
      var kinds := SmartDeltaCodec.KindsFor(previous, current);
      later := DeltasAreTried(z, schema, policy, t, sequence, previous, current, kinds);
      forall kind | Fits(kind, previous, current) ensures kind in kinds {
        FitsIsConsidered(kind, previous, current);
      }
    }
    if policy.enableZstd && B.ShouldTryZstd(st.tuner, |current|) {
      ObserveFirst(st.tuner, Try(z, policy, raw), later);
      tries := [Try(z, policy, raw)] + later;
    } else {
      tries := later;
    }
  }

  lemma SnapshotCarries(schema: u64, sequence: u64, current: Bytes)
    ensures SnapshotOf(schema, sequence, current).payload == current
  {
  }

  // ---------------------------------------------------------------- the shortlisting encoder

  /**
    Compression is off, or it paid in fewer than 15 of 100 tries and it is not time to explore.  The limit is
    the double nearest to 0.15.
    */
  predicate GivenUp(policy: F.Policy, a: S.Advice) {
    || !policy.enableZstd
    || (&& a.attempts >= 16
        && a.policy.arithmetic.ratio(a.wins, a.attempts) < 0.1499999999999999944488848768742172978818416595458984375
        && !Exploring(a))
  }

  lemma {:induction false} NoneIsTried(z: Zstd, schema: u64, policy: F.Policy, a: S.Advice, sequence: u64,
                                       previous: Bytes, current: Bytes, kinds: seq<D.Kind>)
    requires sequence > 0 && forall n | 0 <= n < |kinds| :: D.Legal(kinds[n], previous, current)
    requires GivenUp(policy, a)
    ensures var (offers, a') := F.DeltaOffers(z, schema, policy, a, sequence, previous, current, kinds);
            a' == a && forall o | o in offers :: !IsCompressed(o.packet)
    decreases |kinds|
  {
    if kinds != [] {
      hide D.Encode, ZstdCandidate;
      NoneIsTried(z, schema, policy, a, sequence, previous, current, kinds[1..]);
    }
  }

  /** Once compression is given up an update is sent as it is, and the advisor counts no try. */
  lemma CompressionIsGivenUp(z: Zstd, schema: u64, policy: F.Policy, st: F.EncoderState, current: Bytes)
    requires st.sequence + 1 < U64_LIMIT && st.previous.Some? && GivenUp(policy, st.advice)
    ensures var (st', p) := F.Publish(z, schema, policy, st, current);
            && p.Ok? && !IsCompressed(p.value)
            && st'.advice.attempts == st.advice.attempts && st'.advice.wins == st.advice.wins
  {
    hide F.DeltaOffers, F.KindsFor, Best, GivenUp;
    var previous, sequence := st.previous.value, st.sequence + 1;
    NoneIsTried(z, schema, policy, st.advice, sequence, previous, current, F.KindsFor(st.advice, previous, current));
    BestIsOffered(F.AllOffers(z, schema, policy, st, sequence, current).0);
  }

  /** Until then what is sent is no longer than the first shortlisted delta compressed, if that is large enough. */
  lemma CompressionIsKeptUp(z: Zstd, schema: u64, policy: F.Policy, st: F.EncoderState, current: Bytes)
    requires st.sequence + 1 < U64_LIMIT && st.previous.Some? && !GivenUp(policy, st.advice)
    ensures var kind := S.Shortlist(st.advice, S.Profile(st.previous.value, current))[0];
            && D.Legal(kind, st.previous.value, current)
            && (|D.Encode(kind, st.previous.value, current, policy.smartDelta)| >= policy.minZstdPayload ==>
                  var p := F.Publish(z, schema, policy, st, current).1;
                  var raw := DeltaOf(schema, st.sequence + 1, st.previous.value, current, kind, policy.smartDelta);
                  p.Ok? && EncodedLen(p.value) <=
                           EncodedLen(ZstdCandidate(z, raw, policy.zstdLevel, policy.minCompressionSavings)))
  {
    hide F.Publish, D.Encode, S.Shortlist, S.Profile, ZstdCandidate, Best;
    var previous, sequence := st.previous.value, st.sequence + 1;
    S.ShortlistIsLegal(st.advice, previous, current);
    var kinds := F.KindsFor(st.advice, previous, current);
    OffersScoreTheirLength(z, schema, policy, st, sequence, current);
    if |D.Encode(kinds[0], previous, current, policy.smartDelta)| >= policy.minZstdPayload {
      var o := FirstIsTried(z, schema, policy, st.advice, sequence, previous, current, kinds);
      hide F.DeltaOffers;
      FastScore(z, schema, policy, st, current, o);
    }
  }

  lemma FirstIsTried(z: Zstd, schema: u64, policy: F.Policy, a: S.Advice, sequence: u64, previous: Bytes,
                     current: Bytes, kinds: seq<D.Kind>) returns (o: Offer)
    requires sequence > 0 && forall n | 0 <= n < |kinds| :: D.Legal(kinds[n], previous, current)
    requires kinds != [] && !GivenUp(policy, a)
    requires |D.Encode(kinds[0], previous, current, policy.smartDelta)| >= policy.minZstdPayload
    ensures o in F.DeltaOffers(z, schema, policy, a, sequence, previous, current, kinds).0
    ensures var raw := DeltaOf(schema, sequence, previous, current, kinds[0], policy.smartDelta);
            o.packet == ZstdCandidate(z, raw, policy.zstdLevel, policy.minCompressionSavings)
  {
    hide D.Encode, ZstdCandidate;
    o := F.DeltaOffers(z, schema, policy, a, sequence, previous, current, kinds).0[1];
  }

  /** How many of the strategies compress to something shorter. */
  function Shorter(z: Zstd, schema: u64, policy: F.Policy, sequence: u64, previous: Bytes, current: Bytes,
                   kinds: seq<D.Kind>): (n: nat)
    requires sequence > 0 && forall n | 0 <= n < |kinds| :: D.Legal(kinds[n], previous, current)
    ensures n <= |kinds|
  {
    if kinds == [] then 0
    else
      var raw := DeltaOf(schema, sequence, previous, current, kinds[0], policy.smartDelta);
      var c := ZstdCandidate(z, raw, policy.zstdLevel, policy.minCompressionSavings);
      (if |c.payload| < |raw.payload| then 1 else 0)
      + Shorter(z, schema, policy, sequence, previous, current, kinds[1..])
  }

  lemma {:induction false} AllAreTried(z: Zstd, schema: u64, policy: F.Policy, a: S.Advice, sequence: u64,
                                       previous: Bytes, current: Bytes, kinds: seq<D.Kind>)
    requires sequence > 0 && forall n | 0 <= n < |kinds| :: D.Legal(kinds[n], previous, current)
    requires policy.enableZstd && a.attempts + |kinds| <= 16 && a.wins <= a.attempts
    requires forall n | 0 <= n < |kinds| ::
               |D.Encode(kinds[n], previous, current, policy.smartDelta)| >= policy.minZstdPayload
    ensures var a' := F.DeltaOffers(z, schema, policy, a, sequence, previous, current, kinds).1;
            && a'.attempts == a.attempts + |kinds|
            && a'.wins == a.wins + Shorter(z, schema, policy, sequence, previous, current, kinds)
    decreases |kinds|
  {
    if kinds != [] {
      hide D.Encode, ZstdCandidate;
      var raw := DeltaOf(schema, sequence, previous, current, kinds[0], policy.smartDelta);
      var a1 := F.DeltaAndZstd(z, policy, a, raw, kinds[0]).1;
      ShorterIsCompressed(z, raw, policy.zstdLevel, policy.minCompressionSavings);
      AllAreTried(z, schema, policy, a1, sequence, previous, current, kinds[1..]);
    }
  }

  lemma ShorterIsCompressed(z: Zstd, raw: Packet, level: int, minSavings: nat)
    ensures var c := ZstdCandidate(z, raw, level, minSavings); |c.payload| < |raw.payload| ==> IsCompressed(c)
  {
  }

  /** The advisor counts every try, and as paid those that came out shorter. */
  lemma TriesAreCounted(z: Zstd, schema: u64, policy: F.Policy, st: F.EncoderState, current: Bytes)
    requires st.sequence + 1 < U64_LIMIT && st.previous.Some? && policy.enableZstd
    requires st.advice.attempts < 15 && st.advice.wins <= st.advice.attempts
    requires forall kind | kind in S.Shortlist(st.advice, S.Profile(st.previous.value, current)) ::
               && D.Legal(kind, st.previous.value, current)
               && |D.Encode(kind, st.previous.value, current, policy.smartDelta)| >= policy.minZstdPayload
    ensures var kinds := S.Shortlist(st.advice, S.Profile(st.previous.value, current));
            var a' := F.Publish(z, schema, policy, st, current).0.advice;
            && a'.attempts == st.advice.attempts + |kinds|
            && a'.wins == st.advice.wins
                        + Shorter(z, schema, policy, st.sequence + 1, st.previous.value, current, kinds)
  {
    hide F.DeltaOffers, D.Encode, Shorter, S.Shortlist, S.Profile, Best;
    var previous, sequence := st.previous.value, st.sequence + 1;
    S.ShortlistIsLegal(st.advice, previous, current);
    AllAreTried(z, schema, policy, st.advice, sequence, previous, current,
                S.Shortlist(st.advice, S.Profile(previous, current)));
  }
}
