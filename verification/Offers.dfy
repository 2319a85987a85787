/**
  What both byte-state encoders share: the packets they consider for one update, the choice among
  them, and what it means for a packet to describe that update.
  */
module Offers {
  import opened Core
  import opened Wire
  import Fnv
  import SmartDelta

  datatype Mode =
    | RawSnapshot
    | ZstdSnapshot
    | RawDelta(kind: SmartDelta.Kind)
    | ZstdDelta(kind: SmartDelta.Kind)

  datatype Offer = Offer(mode: Mode, packet: Packet, score: nat)

  /** A later offer replaces the best one so far only when its score is strictly smaller. */
  function Best(offers: seq<Offer>): (best: Offer)
    requires offers != []
    ensures best in offers
  {
    var last := offers[|offers| - 1];
    if |offers| == 1 then last
    else
      var best := Best(offers[..|offers| - 1]);
      if last.score < best.score then last else best
  }

  lemma BestAppend(offers: seq<Offer>, last: Offer)
    ensures Best(offers + [last]) == if offers != [] && Best(offers).score <= last.score then Best(offers) else last
  {
    assert (offers + [last])[..|offers|] == offers;
  }

  /** The packet that wins has the least score of all, and is the first with that score. */
  lemma {:induction false} BestIsFirstLeast(offers: seq<Offer>) returns (n: nat)
    requires offers != []
    ensures n < |offers| && offers[n] == Best(offers)
    ensures forall m | 0 <= m < |offers| :: Best(offers).score <= offers[m].score
    ensures forall m | 0 <= m < n :: Best(offers).score < offers[m].score
    decreases |offers|
  {
    var last := |offers| - 1;
    if last == 0 {
      return 0;
    }
    n := BestIsFirstLeast(offers[..last]);
    if offers[last].score < Best(offers[..last]).score {
      n := last;
    }
  }

  /** No payload, however it is packed, stands for more than this many bytes. */
  function PayloadBound(current: Bytes): nat {
    3 * |current| + 64
  }

  /** The packet carries update number `sequence`, from `previous` to `current`. */
  ghost predicate Describes(z: Zstd, schema: u64, previous: Option<Bytes>, current: Bytes, sequence: u64, p: Packet) {
    && p.sequence == sequence
    && p.schemaHash == schema
    && Unpack(z, p).Some?
    && var logical := Unpack(z, p).value;
       && |logical| <= PayloadBound(current)
       && match p.kind
       case Snapshot => logical == current && p.baseHash == Fnv.Hash(current)
       case Delta =>
         && previous.Some?
         && p.baseSequence == sequence - 1
         && p.baseHash == Fnv.Hash(previous.value)
         && SmartDelta.Apply(previous.value, logical) == Ok(current)
  }

  function SnapshotOf(schema: u64, sequence: u64, current: Bytes): Packet {
    NewSnapshot(sequence, Fnv.Hash(current), schema, current)
  }

  function DeltaOf(schema: u64, sequence: u64, previous: Bytes, current: Bytes,
                   kind: SmartDelta.Kind, policy: SmartDelta.Policy): Packet
    requires sequence > 0 && SmartDelta.Legal(kind, previous, current)
  {
    NewDelta(sequence, sequence - 1, Fnv.Hash(previous), schema,
             SmartDelta.Encode(kind, previous, current, policy))
  }

  /** A snapshot of the state at a sequence: its header, and under a lossless compression its contents. */
  ghost predicate IsSnapshotOf(z: Zstd, schema: u64, sequence: u64, current: Bytes, p: Packet) {
    && p.kind == Snapshot && p.sequence == sequence && p.schemaHash == schema && p.baseHash == Fnv.Hash(current)
    && (|current| <= MAX_LEN ==> EncodedLen(p) <= HEADER_LEN + |current|)
    && (Lossless(z) ==> Unpack(z, p) == Some(current))
  }

  lemma CandidateIsSnapshot(z: Zstd, schema: u64, sequence: u64, current: Bytes, level: int, minSavings: nat)
    ensures var p := SnapshotOf(schema, sequence, current);
            && IsSnapshotOf(z, schema, sequence, current, p)
            && IsSnapshotOf(z, schema, sequence, current, ZstdCandidate(z, p, level, minSavings))
  {
    hide Fnv.Hash;
  }

  lemma SnapshotDescribes(z: Zstd, schema: u64, previous: Option<Bytes>, current: Bytes, sequence: u64,
                          level: int, minSavings: nat)
    requires Lossless(z)
    ensures var p := SnapshotOf(schema, sequence, current);
            && Describes(z, schema, previous, current, sequence, p)
            && Describes(z, schema, previous, current, sequence, ZstdCandidate(z, p, level, minSavings))
  {
    CandidateMeansTheSame(z, SnapshotOf(schema, sequence, current), level, minSavings);
  }

  lemma DeltaDescribes(z: Zstd, schema: u64, previous: Bytes, current: Bytes, sequence: u64,
                       kind: SmartDelta.Kind, policy: SmartDelta.Policy, level: int, minSavings: nat)
    requires Lossless(z) && |previous| <= MAX_LEN && |current| <= MAX_LEN
    requires sequence > 0 && SmartDelta.Legal(kind, previous, current)
    ensures var p := DeltaOf(schema, sequence, previous, current, kind, policy);
            && |p.payload| <= 3 * |current| + 64
            && Describes(z, schema, Some(previous), current, sequence, p)
            && Describes(z, schema, Some(previous), current, sequence, ZstdCandidate(z, p, level, minSavings))
  {
    hide SmartDelta.Encode, SmartDelta.Apply;
    SmartDelta.RoundTrip(kind, previous, current, policy);
    SmartDelta.PayloadIsShort(kind, previous, current, policy);
    CandidateMeansTheSame(z, DeltaOf(schema, sequence, previous, current, kind, policy), level, minSavings);
  }
}
