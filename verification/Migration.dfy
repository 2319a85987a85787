/**
  Packets of another schema (`apply_packet_with_migrations` in `sync.rs`), in terms of what was sent, what the
  migration makes of it and the FNV-1a hash.
  */
module Migration {
  import opened Core
  import opened Wire
  import opened Sync
  import Fnv

  /** The packet is older than the receiver, or as old. */
  predicate NotNewer<S>(r: Receiver<S>, p: Packet) {
    r.sequence.Some? && p.sequence <= r.sequence.value
  }

  /**
    A snapshot of another schema, sent raw or compressed: the receiver takes on what the migration makes of
    the payload, at the number of the snapshot, or reports the migration's error and stays as it is.
    */
  lemma SnapshotIsMigrated<S>(setup: Setup<S>, migrate: (u64, Bytes) -> Result<S>, r: Receiver<S>, n: u64,
                              other: u64, b: Bytes, level: int, minSavings: nat, compressed: bool)
    requires Lossless(setup.zstd) && WindowInv(setup, r)
    requires other != setup.codec.schemaHash && |b| <= setup.maxPayload
    requires r.sequence.Some? ==> r.sequence.value < n
    ensures var q := NewSnapshot(n, Fnv.Hash(b), other, b);
            var p := if compressed then ZstdCandidate(setup.zstd, q, level, minSavings) else q;
            var (r', answer) := ReceiveMigrating(setup, migrate, Fnv.Hash, r, p);
            && (forall s :: (answer == Ok(Applied(n, s)) && r'.sequence == Some(n) && r'.state == Some(s))
                            <==> migrate(other, b) == Ok(s))
            && (migrate(other, b).Err? ==> r' == r && answer == Err(migrate(other, b).error))
  {
    hide Fnv.Hash, WindowInv, Seen, ZstdCandidate, LogicalPayload;
    var q := NewSnapshot(n, Fnv.Hash(b), other, b);
    var p := if compressed then ZstdCandidate(setup.zstd, q, level, minSavings) else q;
    CandidateMeansTheSame(setup.zstd, q, level, minSavings);
    LogicalPayloadIsUnpacked(setup.zstd, p, setup.maxPayload);
    SeenMeansNotNewer(setup, r, p);
    if migrate(other, b).Ok? {
      CommitSequence(setup, r, p, migrate(other, b).value);
    }
  }

  /** If any one byte of what the packet carries was changed, it is refused and nothing changes. */
  lemma TamperedIsNotMigrated<S>(setup: Setup<S>, migrate: (u64, Bytes) -> Result<S>, r: Receiver<S>, p: Packet,
                                 original: Bytes, k: nat)
    requires WindowInv(setup, r) && !NotNewer(r, p)
    requires p.kind == Snapshot && p.schemaHash != setup.codec.schemaHash && p.baseHash == Fnv.Hash(original)
    requires Unpack(setup.zstd, p).Some? && |Unpack(setup.zstd, p).value| <= setup.maxPayload
    requires Fnv.DifferOnlyAt(Unpack(setup.zstd, p).value, original, k) && Unpack(setup.zstd, p).value != original
    ensures ReceiveMigrating(setup, migrate, Fnv.Hash, r, p) == (r, Err(InvalidState))
  {
    hide Fnv.Hash, WindowInv, Seen, LogicalPayload, Unpack;
    Fnv.SubstitutionDetected(Unpack(setup.zstd, p).value, original, k);
    LogicalPayloadIsUnpacked(setup.zstd, p, setup.maxPayload);
    SeenMeansNotNewer(setup, r, p);
  }

  /** A delta of another schema always asks for a snapshot, and a snapshot that is not newer is a duplicate. */
  lemma OnlyNewSnapshotsAreMigrated<S>(setup: Setup<S>, migrate: (u64, Bytes) -> Result<S>, r: Receiver<S>, p: Packet)
    requires WindowInv(setup, r) && p.schemaHash != setup.codec.schemaHash
    ensures var (r', answer) := ReceiveMigrating(setup, migrate, Fnv.Hash, r, p);
            && (p.kind == Delta ==> r' == r && answer == Ok(NeedSnapshot(r.sequence, p.baseSequence)))
            && (p.kind == Snapshot && NotNewer(r, p) ==> r' == r && answer == Ok(Duplicate(p.sequence)))
  {
    hide Fnv.Hash, WindowInv, Seen, Migrate;
    SeenMeansNotNewer(setup, r, p);
  }

  /** Packets of the receiver's own schema are no business of the migrations. */
  lemma SameSchemaIsReceived<S>(setup: Setup<S>, migrate: (u64, Bytes) -> Result<S>, hash: Bytes -> u64,
                                r: Receiver<S>, p: Packet)
    requires p.schemaHash == setup.codec.schemaHash
    ensures ReceiveMigrating(setup, migrate, hash, r, p) == Receive(setup, r, p)
  {
  }

  /** Without migrations every packet of another schema is refused, and nothing changes. */
  lemma OtherSchemaRefused<S>(setup: Setup<S>, r: Receiver<S>, p: Packet)
    requires p.schemaHash != setup.codec.schemaHash
    ensures Receive(setup, r, p) == (r, Err(SchemaMismatch(setup.codec.schemaHash, p.schemaHash)))
  {
  }
}
