# DeltaStream: a verified model of the synchronisation engine

DeltaStream keeps copies of a changing state in step by sending numbered packets: snapshots, or deltas in
the smallest of several encodings.  This project models its synchronisation engine in Dafny and proves
what the engine is for: decoders never hold a wrong state, whatever the network does, and every shortcut
(compact encodings, reordering, recovery plans, merging of counters) gives the same result as the plain way.

`dafny verify dfyconfig.toml` checks everything.

## How the model is built

Each component has a specification made of functions and, where the program works by changing things step
by step, methods or classes with the program's loops and fields, proved to compute exactly what the
specification says on every input, errors included.  The properties are proved of the specification.

| file | models |
|---|---|
| `Core`, `Varint`, `Utf8` | machine integers, byte strings, results; LEB128 integers (DWARF 5, section 7.6); well-formed UTF-8 |
| `Fnv` | the FNV-1a hash (draft-eastlake-fnv, section 2) |
| `DeltaRecords`, `RangeGrouping`, `SmartDelta`, `SmartDeltaCodec` | the five byte-delta strategies: record format, range grouping, meaning, and loops |
| `SmartDeltaFormat` | what their payloads hold byte by byte, and what the appliers refuse |
| `Wire` | packets, compression, the wire envelope |
| `FastSelector`, `Offers`, `ByteSync`, `FastSync` | the strategy advisor and the two byte-state encoders |
| `EncoderChoice`, `CompressionChoice` | which packets the two encoders consider, compress and send, and what they learn from it |
| `ByteDecoder`, `Stream` | the byte-state decoder, and the whole system of one encoder, a lossy network and any number of decoders |
| `PartialRepair`, `RecoveryHistory`, `Recovery` | chunk repair, the bounded history, and the planner that picks among replay, repair and snapshot |
| `RecoveryChoice` | which of the three the planner must pick |
| `AgentCodec`, `AgentBytes`, `AgentFormat` | the binary form of agent states and deltas: round trips, loops, and the layout on its own |
| `Replay`, `Sync`, `Agreement`, `AgentSync` | the replay window, the typed decoders, how they agree with the byte-state decoder, and the agent-state encoder |
| `Migration` | packets of another schema |
| `Reorder`, `OutOfOrder` | the reordering decoder, and an honest stream delivered to it in any order |
| `Lattice`, `GCounter`, `CounterSystem`, `PNCounter`, `PNSystem`, `LwwRegister` | convergence, the counters, runs of their replicas, and the register |

`Sync.Decoder` stands for both `Decoder` and `GenericDecoder` of `src/sync.rs`: they take the same steps and
differ only in how a snapshot is opened and a delta applied, which is what a `Codec` holds.

The main results, each over all inputs or all runs:

- `Stream.Safety`: with packets and recovery snapshots lost, repeated and reordered at will, a decoder at
  sequence *s* holds exactly the state published at *s*; `Stream.NeverGoesBack` that it never goes back.
- `OutOfOrder.AnyOrderReachesTheEnd`, and `AgentSync.AgentsInAnyOrder` for the real agent encoder: any order
  and any repeats lead to the last state unless the decoder asked for recovery, which `OutOfOrder.ApplyIsHonest`
  shows to happen in exactly two situations; after that, `OutOfOrder.LastSnapshotReachesTheEnd`.
  `Reorder.BufferIsBounded` holds for packets of any kind.
- `Recovery.RecoveryReaches`: from any reachable state replay and snapshot lead to the authoritative state, and
  chunk repair does exactly when no chunk that needs replacing hides behind an equal hash.
- `SmartDelta.RoundTrip`, `SmartDelta.SpliceIsOptimal`, `RangeGrouping.GroupIsCanonical` with
  `RangeGrouping.CanonicalIsUnique`.
- `EncoderChoice.NoDeltaIsShorter` and `CompressionChoice.CompressionMustPay`: the packet sent is no longer than the raw
  snapshot and the raw delta of every strategy that fits, and a compressed one is so even with the processor penalty.
  `RecoveryChoice.ChainDecides`, `RecoveryChoice.OnlyChainsAreReplayed` and `RecoveryChoice.CheapestIsChosen` say which
  recovery plan is chosen, and `RecoveryChoice.NoWayIsCheaper` that there is none with fewer bytes.
- `Migration.SnapshotIsMigrated` with `Migration.TamperedIsNotMigrated`.
- `PartialRepair.RepairIsExact` as an if-and-only-if, and its two sufficient conditions.
- `Fnv.SubstitutionDetected` for inputs of any length.
- `Sync.WindowRefinesSimpleRule` and `Agreement.WindowedIsByteDecoder`: over every run the bounded window and the
  "older than local" test together are the byte-state decoder's duplicate rule.
- `Wire.DecodesExactly`: which bytes decode, and to what; `Wire.DecodeEncode` and `Wire.EncodeDecode`: the envelope is a
  bijection up to the version byte.
- `CounterSystem.ReadsExactTotal` and `PNSystem.ReadsExactDifference`, the convergence of both counters, and for the
  register `LwwRegister.ConvergesExactly`: exactly when the newest write has one value.  `LwwRegister.LaterWriteWins` and
  `LwwRegister.LatestIsLeft` say which write that is.

Where code and documentation disagree, the model follows the code.  `GCounter::merge` is documented to return
whether `self` changed (`src/crdt/mod.rs` calls it that for every type), but a zero component that is new to
`self` is added without being reported: `GCounter.ZeroComponentGoesUnreported` is such an input, and
`GCounter.GrewMeansChanged` says exactly when the boolean is right.

`AgentDelta::between` compares `cpu_percent` as a float, so a change from -0.0 to +0.0 is not sent, while the state
hash sees it.  `AgentCodec.SignOfZeroIsLost` is such an input, `AgentCodec.ApplyBetween` says that this is the only
case, and `AgentSync.LostSignIsNoticed` that the next delta is then refused for its base hash.

## Model

| member | source | states |
|---|---|---|
| Varint.ReadPut | src/smart_delta.rs:492-517 | Any value of the width, written and read back with anything after it, comes back with exactly what follows it; stated for every width, so for the 64-bit and the 128-bit pair |
| Varint.ReadPutU64 | src/smart_delta.rs:492-517 | The same for every u64 |
| Varint.ReadFits | src/smart_delta.rs:500-517 | What the reader returns fits the width, although the last group may lose its high bits |
| Varint.PutLength | src/smart_delta.rs:492-498 | A 7k-bit value takes at most k bytes: 10 for u64, 19 for u128 |
| Varint.PutSpells | src/smart_delta.rs:492-498 | What is written are the groups of seven bits of the value, lowest first, the high bit set on all bytes but the last, and no empty last group |
| Varint.ReadsWhatIsSpelled | src/smart_delta.rs:500-517 | On any bytes: if the first byte without its high bit comes within the width, the number spelled up to it, modulo the width, and what follows; otherwise an error |
| Varint.PutVar | src/smart_delta.rs:492-498 | The writing loop appends exactly the LEB128 encoding |
| Varint.ReadVar | src/smart_delta.rs:500-517 | The reading loop returns the value, the error and the cursor that the format defines |
| SmartDelta.RoundTrip | src/smart_delta.rs:121-170 | Every strategy legal for the lengths reproduces the current state from the previous one, for every chunk size and gap, with growth and shrinkage |
| SmartDelta.SparseRoundTrip | src/smart_delta.rs:186-241 | Sparse payloads round-trip |
| SmartDelta.RangesRoundTrip | src/smart_delta.rs:243-315 | Range payloads round-trip for every gap |
| SmartDelta.XorRoundTrip | src/smart_delta.rs:317-338 | XOR payloads round-trip |
| SmartDelta.SpliceRoundTrip | src/smart_delta.rs:340-404 | Splice payloads round-trip for any two lengths |
| SmartDelta.ChunksRoundTrip | src/smart_delta.rs:406-480 | Chunk payloads round-trip for any two lengths and any chunk size of at least one |
| SmartDelta.SpliceIsOptimal | src/smart_delta.rs:340-404 | Any splice payload that the applier accepts and that turns previous into current carries a middle at least as long as the encoder's |
| SmartDelta.PayloadIsShort | src/smart_delta.rs:121-154 | No payload is longer than three times the current state plus 64 bytes |
| SmartDelta.SparseAscends | src/smart_delta.rs:186-209 | The sparse changes are in ascending order and inside the state, which is what delta-coding their indices needs |
| SmartDelta.SparseRepairs | src/smart_delta.rs:186-209 | Writing the sparse changes over the previous state gives the current one |
| SmartDelta.GroupedRepair | src/smart_delta.rs:243-278 | Writing the ranges over the previous state gives the current one |
| SmartDelta.ChunksRepair | src/smart_delta.rs:406-436 | Writing the stored chunks over the resized previous state gives the current one |
| SmartDeltaFormat.SparseRecordsAreChanges | src/smart_delta.rs:186-209 | A position is among the sparse records if and only if its byte changed, and then once with the new byte |
| SmartDeltaFormat.RangeRecordsAreCanonical | src/smart_delta.rs:243-278 | The range records are the ranges of the one canonical grouping, each with its new bytes |
| SmartDeltaFormat.ChunkRecordsAreLacking | src/smart_delta.rs:406-436 | A chunk is stored if and only if the receiver has no such chunk or another one, compared over the slices, and then once with the new bytes |
| SmartDeltaFormat.EqualStatesStoreNothing | src/smart_delta.rs:186-436 | Two equal states give no records in any of the three formats |
| SmartDeltaFormat.PayloadLayout | src/smart_delta.rs:186-436 | For each strategy what the payload holds from its tag (1 to 5) to its last byte |
| SmartDeltaFormat.RecordsAreWritten | src/smart_delta.rs:186-436 | The records one after the other, each index relative to the end of the one before |
| SmartDeltaFormat.KindIsRecognised | src/smart_delta.rs:156-184 | The first byte of a payload says which strategy made it |
| SmartDeltaFormat.TrailingBytesRefused | src/smart_delta.rs:211-480 | Anything after a payload of any strategy makes the applier refuse the whole |
| SmartDeltaFormat.OtherLengthRefused | src/smart_delta.rs:211-338 | A receiver of another length refuses sparse, range and XOR payloads |
| SmartDeltaFormat.UnknownKindRefused | src/smart_delta.rs:156-184 | An empty payload, or one with any other first byte, is refused by every receiver |
| DeltaRecords.ReadPutRecords | src/smart_delta.rs:211-241 | A list of records, read back over any buffer, patches it to the state the records were taken from, and consumes the whole payload |
| DeltaRecords.ReadPutRecordsThen | src/smart_delta.rs:211-241 | The same with anything after the records, which is then refused |
| RangeGrouping.GroupIsCanonical | src/smart_delta.rs:243-278 | The ranges start and end on changed bytes, cover every change, hold no unchanged run longer than the gap and lie more than the gap apart |
| RangeGrouping.CanonicalIsUnique | src/smart_delta.rs:243-278 | Those properties leave only one grouping |
| RangeGrouping.FindRanges | src/smart_delta.rs:243-278 | The outer loop, whose index moves backwards after each range, terminates and computes that grouping |
| RangeGrouping.ScanRange | src/smart_delta.rs:253-268 | The inner loop finds the last change of the range |
| SmartDeltaCodec.EncodeSparseBytes | src/smart_delta.rs:186-209 | The sparse encoder writes the specified payload |
| SmartDeltaCodec.EncodeRangesBytes | src/smart_delta.rs:243-278 | The range encoder writes the specified payload |
| SmartDeltaCodec.EncodeXorBytes | src/smart_delta.rs:317-323 | The XOR encoder writes the specified payload |
| SmartDeltaCodec.EncodeSpliceBytes | src/smart_delta.rs:340-368 | The splice encoder writes the specified payload |
| SmartDeltaCodec.FindEnds | src/smart_delta.rs:340-360 | The two scans find the common prefix and the common suffix beyond it |
| SmartDeltaCodec.EncodeChunksBytes | src/smart_delta.rs:406-436 | The chunk encoder writes the specified payload |
| SmartDeltaCodec.FindChunks | src/smart_delta.rs:407-418 | The loop over the chunks, the last of which may be short, finds exactly those that differ, in order |
| SmartDeltaCodec.EncodeCandidate | src/smart_delta.rs:121-154 | One candidate, or an error exactly when the lengths rule the strategy out |
| SmartDeltaCodec.EncodeCandidates | src/smart_delta.rs:88-119 | Five candidates for equal lengths and two otherwise, in this order, each the payload of its strategy |
| SmartDeltaCodec.ApplySparseBytes | src/smart_delta.rs:211-241 | The sparse applier gives the specified state or error on every payload |
| SmartDeltaCodec.ApplyRangesBytes | src/smart_delta.rs:280-315 | The range applier gives the specified state or error on every payload |
| SmartDeltaCodec.ApplyXorBytes | src/smart_delta.rs:325-338 | The XOR applier gives the specified state or error on every payload |
| SmartDeltaCodec.ApplySpliceBytes | src/smart_delta.rs:370-404 | The splice applier gives the specified state or error on every payload |
| SmartDeltaCodec.ApplyChunksBytes | src/smart_delta.rs:438-480 | The chunk applier gives the specified state or error on every payload |
| SmartDeltaCodec.ApplyBytes | src/smart_delta.rs:156-170 | The dispatcher agrees with the specification on every payload, well-formed or not |
| SmartDeltaCodec.PatchSparse | src/smart_delta.rs:219-236 | One turn of the sparse loop patches the buffer in place and moves the cursor as one record says |
| SmartDeltaCodec.PatchRange | src/smart_delta.rs:288-310 | One turn of the range loop, likewise |
| SmartDeltaCodec.PatchChunk | src/smart_delta.rs:450-475 | One turn of the chunk loop, likewise |
| Wire.DecodeEncode | src/packet.rs:162-292 | A packet encodes exactly when its flags are known and its payload is at most 64 MiB, and then decodes to itself under any limit that admits its length |
| Wire.EncodeDecode | src/packet.rs:162-292 | Whatever bytes are accepted re-encode to themselves, except that the version byte becomes 3; which bytes are accepted is DecodesExactly |
| Wire.DecodesExactly | src/packet.rs:189-292 | Bytes decode to a packet if and only if they are its envelope with version 2 or 3, flag bits 0 or 1, a payload of at most 64 MiB and its true checksum, within the limit |
| Wire.VersionsUnderstood | src/packet.rs:189-222 | The envelope of any packet that can be sent, with any version byte, decodes to the packet for versions 2 and 3 and is refused with that version for all others |
| Wire.FieldsOfEnvelope | src/packet.rs:162-292 | Where every field of the envelope lies, in little-endian order |
| Wire.EncodePacket | src/packet.rs:162-187 | The field-by-field writer produces the envelope, or the error |
| Wire.CandidateMeansTheSame | src/packet.rs:104-142 | A compressed candidate unpacks to the same payload, keeps the header and saves more than the margin |
| Wire.CompressedExactly | src/packet.rs:104-117 | A packet is compressed exactly at 64 bytes and more, if that saves more than the margin, and never twice |
| Wire.LogicalPayloadIsUnpacked | src/packet.rs:123-142 | The logical payload is the unpacked one when that fits the limit, and an error otherwise |
| Fnv.StepInjective | src/sync.rs:28-35 | One FNV-1a step is injective in the byte and in the running hash |
| Fnv.TailKeepsApart | src/sync.rs:28-35 | Equal tails never make two different hashes meet |
| Fnv.SuffixPreservesCollision | src/sync.rs:28-35 | Two inputs with a common tail collide exactly when their heads do |
| Fnv.SubstitutionDetected | src/sync.rs:28-35 | Changing one byte of an input of any length changes the hash |
| Fnv.MultiplyInverts | src/sync.rs:28-35 | Multiplying by the prime is undone by 0xce965057aff6957b modulo 2^64 |
| Fnv.MixIsXor | src/sync.rs:28-35 | Mixing in a byte is the bitwise exclusive or of the word with it, bit by bit |
| Fnv.HashIsDraft | src/sync.rs:28-35 | The empty string hashes to 0xcbf29ce484222325, and one more byte is combined by exclusive or before the product with 0x100000001b3 modulo 2^64, so FNV-1a and not FNV-1 |
| Fnv.Fnv1a64 | src/sync.rs:28-35 | The loop computes the hash |
| ByteDecoder.ByteStateDecoder.Apply | src/byte_sync.rs:218-264 | The decoder's whole new state and answer, for every packet |
| ByteDecoder.ReceiveNeverGoesBack | src/byte_sync.rs:218-264 | On any packet at all, either the sequence moves forward to the packet's or nothing changes |
| ByteDecoder.TamperedSnapshotRefused | src/byte_sync.rs:232-236 | A snapshot with any one byte changed is refused and leaves the decoder as it was |
| ByteDecoder.AppliedExactly | src/byte_sync.rs:218-264 | Exactly when a packet is applied, and to which state: right schema, newer, unpacked within 64 MiB, and the hash of the snapshot or number, presence and hash of the base |
| ByteDecoder.WrongBaseNeedsRecovery | src/byte_sync.rs:238-257 | A delta whose base has another number, or the right number and any one byte changed, asks for recovery and changes nothing |
| ByteDecoder.OtherSchemaRefused | src/byte_sync.rs:219-224 | A packet of another schema is refused before anything else, and nothing changes |
| Offers.BestIsFirstLeast | src/byte_sync.rs:88-150 | Keeping a later candidate only when strictly better selects the first of least score |
| Offers.DeltaDescribes | src/byte_sync.rs:104-140 | A delta of any legal strategy, raw or compressed, turns the previous state into the current one and stays within three times the state plus 64 bytes |
| ByteSync.EncodeDescribes | src/byte_sync.rs:71-160 | Whatever the policy and the tuner, the packet sent describes the update; the encoder fails only when the sequence is used up |
| ByteSync.PublishIsCheapest | src/byte_sync.rs:71-160 | The packet sent has the least score of those considered; which those are is what EncoderChoice and CompressionChoice say |
| EncoderChoice.NoDeltaIsShorter | src/byte_sync.rs:104-150 | The packet sent is no longer than the raw snapshot, nor than the raw delta of any strategy that fits the two lengths |
| EncoderChoice.FirstIsSnapshot | src/byte_sync.rs:71-103 | With nothing to compare with and compression off, every field of the snapshot sent |
| EncoderChoice.CompressedSnapshotIsTried | src/byte_sync.rs:79-103 | Nor is it dearer than the compressed snapshot, once that reaches the threshold |
| EncoderChoice.CompressedDeltaIsTried | src/byte_sync.rs:109-150 | Nor than the compressed delta of any strategy that fits, once that takes 64 KiB |
| CompressionChoice.CompressionMustPay | src/byte_sync.rs:79-150 | A compressed packet is sent only if with the processor penalty it is still no longer than the raw snapshot and every raw delta, and never when compression is off |
| CompressionChoice.TunerIsFed | src/byte_sync.rs:79-150 | The tuner after an update has seen the lengths before and after of every compression tried, the snapshot first, and nothing else |
| EncoderChoice.TunerAdapts | src/smart_delta.rs:58-86 | Over 32 tries the threshold doubles within 64 bytes and 64 KiB if at most three paid, halves if at least twenty did, and stays otherwise |
| ByteSync.ByteStateEncoder.EncodeUpdate | src/byte_sync.rs:71-160 | The encoder's loop, with its running best, sequence, previous state and tuner, does what the specification of one update says |
| ByteSync.ByteStateEncoder.Recover | src/byte_sync.rs:162-174 | A snapshot packet at the current sequence with the hash of the state, whose contents unpack to exactly that state and which is no longer than the raw one; the encoder is left as it is |
| ByteSync.RecoveryDescribes | src/byte_sync.rs:162-174 | The recovery snapshot describes the last update, compressed or not |
| EncoderChoice.RecoveryIsCompressed | src/byte_sync.rs:162-174 | Every field of the recovery snapshot, and exactly when it is compressed |
| FastSync.AllOffersDescribe | src/v30_sync.rs:76-186 | At most five packets are considered; every one describes the update |
| FastSync.PublishDescribes | src/v30_sync.rs:76-186 | The packet sent describes the update and is no longer than any packet considered |
| EncoderChoice.NoShortlistedIsShorter | src/v30_sync.rs:76-186 | The packet sent is no longer than the raw snapshot, nor than the raw delta of any strategy on the shortlist |
| EncoderChoice.ShortlistedIsCompressed | src/v30_sync.rs:76-186 | While fewer than fifteen compressions were tried, nor than the compressed delta of any strategy on the shortlist that is large enough |
| EncoderChoice.FirstSnapshotIsCompressed | src/v30_sync.rs:76-186 | The first packet is the shorter of the snapshot raw and compressed, compressed only when large enough |
| EncoderChoice.WinnerIsLearnt | src/v30_sync.rs:76-186 | After an update the window has taken in the strategy of the delta sent, and stays after a snapshot |
| CompressionChoice.CompressionIsGivenUp | src/fast_selector.rs:134-157 | Once fewer than 15 of 100 tries paid, an update is sent uncompressed and no try is counted, unless it is time to explore |
| CompressionChoice.CompressionIsKeptUp | src/fast_selector.rs:134-157 | Until then the packet is no longer than the first shortlisted delta compressed |
| CompressionChoice.TriesAreCounted | src/v30_sync.rs:76-186 | The advisor counts one try for each shortlisted delta that is large enough, and as paid those that came out shorter |
| FastSync.FastByteStateEncoder.EncodeUpdate | src/v30_sync.rs:76-186 | The encoder's loop, with its advisor, does what the specification of one update says |
| FastSync.FastByteStateEncoder.Recover | src/v30_sync.rs:188-194 | An uncompressed snapshot packet at the current sequence, with the state as its payload and the hash of the state; the encoder is left as it is |
| FastSelector.Analyze | src/fast_selector.rs:16-50 | The profile agrees with the encoders: sparse change count, gap-0 range count, and the prefix and suffix of the splice header |
| FastSelector.CountChanges | src/fast_selector.rs:17-30 | One scan counts the changed bytes and the changed runs |
| FastSelector.ShortlistIsLegal | src/fast_selector.rs:101-120 | One or two strategies, never one that the lengths rule out |
| EncoderChoice.ShortlistIs | src/fast_selector.rs:101-177 | Which strategies are on the shortlist: if and only if, from lengths, dominance, exploring, share and runs of changes |
| FastSelector.StrategyAdvisor.ShortlistFor | src/fast_selector.rs:101-120 | The advisor's decision, for any rounding of the change percentage |
| FastSelector.DominantIsUnique | src/fast_selector.rs:158-171 | Two strategies cannot both fill three quarters of the window |
| FastSelector.DominantIsTheHeavyOne | src/fast_selector.rs:158-171 | A strategy is dominant exactly when there are eight winners and it fills three quarters of them |
| FastSelector.FindDominant | src/fast_selector.rs:158-171 | Counting into an array and taking the last maximum finds it, so breaking ties never matters |
| FastSelector.WindowHoldsLatest | src/fast_selector.rs:122-128 | After any history the window holds exactly the latest winners |
| FastSelector.StrategyAdvisor.ObserveWinner | src/fast_selector.rs:122-128 | The window slides by one |
| Stream.Safety | src/byte_sync.rs:71-264 | In every run with loss, repetition, reordering, resets and recovery snapshots, with either encoder, each decoder holds exactly the state that was published at its sequence |
| Stream.NeverGoesBack | src/byte_sync.rs:218-264 | In every run, a decoder that is not reset never goes back |
| Stream.DeliveryOutcome | src/byte_sync.rs:218-264 | What a decoder answers to any packet ever sent, case by case, from the two sequence numbers alone |
| Stream.RecoveryIsHonest | src/byte_sync.rs:162-174 | A recovery snapshot of the last state, from either encoder, describes the last update |
| Stream.RecoveryCatchesUp | src/byte_sync.rs:162-174 | From any reachable state one recovery snapshot brings any decoder up to date |
| Stream.NextUpdateApplies | src/byte_sync.rs:71-264 | A decoder that has everything so far applies the next packet, when three times the state plus 64 bytes fits the limit |
| Stream.NextKeepsInv | src/v30_sync.rs:76-194 | Every step of the system keeps the invariant, with the fast encoder as with the full one |
| RecoveryHistory.EvictIsLongest | src/recovery_history.rs:29-39 | What is kept is the longest suffix that fits both limits |
| RecoveryHistory.EvictIncrementally | src/recovery_history.rs:29-39 | Evicting after every packet keeps what evicting once at the end would |
| RecoveryHistory.History.Record | src/recovery_history.rs:29-39 | After any number of packets the history is the longest fitting suffix of everything ever recorded and its byte counter is exact |
| RecoveryHistory.History.PlanFor | src/recovery_history.rs:41-78 | The planner computes the plan that ChainDecides and OnlyChainsAreReplayed describe |
| RecoveryChoice.ChainDecides | src/recovery_history.rs:41-78 | When the retained packets numbered after the receiver and up to the snapshot are one chained run, the plan is to replay it if and only if it is shorter than the snapshot, and otherwise the snapshot |
| RecoveryChoice.OnlyChainsAreReplayed | src/recovery_history.rs:41-78 | Nothing but such a run is ever replayed |
| RecoveryChoice.ReplayCost | src/recovery_history.rs:29-78 | A replay costs its payloads and 46 bytes for each packet |
| Recovery.PlanFor | src/recovery_v30.rs:25-45 | The planner computes the plan that CheapestIsChosen and NoWayIsCheaper describe |
| RecoveryChoice.CheapestIsChosen | src/recovery_v30.rs:25-45 | Repair is chosen exactly when there is a receiver and it carries less than the history's plan costs, replay or snapshot |
| RecoveryChoice.NoWayIsCheaper | src/recovery_v30.rs:15-45 | The plan sends no more than the snapshot, than the repair of the receiver, and than any complete chain in the history |
| RecoveryChoice.RepairCost | src/partial_repair.rs:101-103 | A repair costs the bytes that its patches carry |
| Recovery.NeverDearerThanSnapshot | src/recovery_v30.rs:15-45 | No plan is estimated to cost more than the snapshot |
| Recovery.RecoveryReaches | src/recovery_v30.rs:25-45 | From any reachable state of the stream: a plan of replay or snapshot gives the authoritative state and every replayed packet is applied; a plan of repair gives it if and only if no chunk that needs replacing has an equal hash |
| Recovery.ReplayReaches | src/byte_sync.rs:218-264 | A complete chain of honest packets is applied packet by packet |
| PartialRepair.RepairIsExact | src/partial_repair.rs:43-99 | Repair gives the target if and only if no chunk that needs replacing has an equal hash |
| PartialRepair.ExactWithoutCollisions | src/partial_repair.rs:43-99 | In particular when unequal corresponding chunks hash differently, for any lengths and chunk size |
| PartialRepair.ExactForOneBytePerChunk | src/partial_repair.rs:43-99 | And with no hash assumption when lengths are equal and each chunk differs in at most one byte |
| PartialRepair.DifferingIs | src/partial_repair.rs:21-26 | The differing chunks, by index |
| PartialRepair.SentExactly | src/partial_repair.rs:43-72 | A chunk is sent if and only if just one of the states has it, or both do and its hashes differ |
| PartialRepair.SentInOrder | src/partial_repair.rs:43-72 | In ascending order, none twice, each with the target's own bytes, under the target's length and hash |
| PartialRepair.RepairIsChecked | src/partial_repair.rs:74-99 | Whatever a repair holds and wherever it is applied, it succeeds only with every patch in bounds and the announced length and hash |
| PartialRepair.ApplyRepair | src/partial_repair.rs:74-99 | The patch loop computes the specified buffer or error for every repair |
| Replay.ReplayWindow.Record | src/replay.rs:22-31 | The window keeps the last entries, without repeats |
| Replay.RecordNewest | src/replay.rs:22-31 | Recording something newer keeps the window ascending with that at its end |
| Replay.RecordKeepsTheLast | src/replay.rs:22-31 | Nothing is recorded twice and nothing dropped that there is room for |
| Sync.RunKeepsWindow | src/sync.rs:353-468 | In every run of any packets, migrations and resets the window is ascending and ends at the local sequence |
| Sync.SeenMeansNotNewer | src/sync.rs:152-161 | Under that invariant the two duplicate tests say "not newer than the local sequence" |
| Sync.WindowRefinesSimpleRule | src/sync.rs:145-208 | Over every run, for any window of at least one entry, the windowed decoder and the rule "not newer than the local sequence is a duplicate" end in the same place and give the same answers throughout |
| Agreement.SameRule | src/byte_sync.rs:218-264 | Packet by packet that rule is the byte-state decoder's: the same new state and the same duplicates always, and the same answer unless an unusable delta has a payload that does not unpack |
| Agreement.WindowedIsByteDecoder | src/sync.rs:145-208 | Over every run of packets and resets the windowed decoder, set up for byte states, is where the byte-state decoder is |
| Sync.Decoder.ApplyPacket | src/sync.rs:353-417 | The typed decoder's whole new state and answer, for every packet |
| Sync.Decoder.ApplyPacketWithMigrations | src/sync.rs:418-456 | The same for packets of other schemas; what that means is stated in Migration |
| Migration.SnapshotIsMigrated | src/sync.rs:440-456 | A new snapshot of another schema, raw or compressed: the receiver takes on what the migration makes of the payload, if and only if it makes anything |
| Migration.TamperedIsNotMigrated | src/sync.rs:440-448 | With any one byte changed it is refused and nothing changes |
| Migration.OnlyNewSnapshotsAreMigrated | src/sync.rs:418-440 | A delta of another schema asks for a snapshot, and a snapshot that is not newer is a duplicate |
| Migration.SameSchemaIsReceived | src/sync.rs:423-425 | A packet of the receiver's own schema is received as without migrations |
| Migration.OtherSchemaRefused | src/sync.rs:353-365 | Without migrations a packet of another schema is refused |
| Sync.Decoder.Reset | src/sync.rs:464-468 | Reset forgets the state and the window |
| Reorder.BufferIsBounded | src/reorder.rs:47-110 | In every run of any packets at all the buffer holds at most max_pending deltas, each under its own sequence with a base at most max_gap ahead |
| Reorder.ApplyKeepsBuffer | src/reorder.rs:47-110 | Every call keeps that and never moves the decoder back |
| Reorder.WaitingIsKept | src/reorder.rs:47-94 | A waiting packet is never replaced, whatever arrives under its number |
| Reorder.ReorderDecoder.ApplyPacket | src/reorder.rs:47-110 | The decoder's whole new state and answer, for every packet |
| Reorder.ReorderDecoder.DrainPending | src/reorder.rs:69-94 | The drain loop terminates and computes the specified drain |
| Reorder.ReorderDecoder.Reset | src/reorder.rs:124-127 | Reset empties the buffer and the decoder |
| OutOfOrder.HonestOutcome | src/sync.rs:145-208 | What a decoder in step with the stream answers to an honest packet |
| OutOfOrder.DrainIsHonest | src/reorder.rs:69-99 | Draining honest deltas always succeeds, loses none, counts what it applied and reports the state it ends at |
| OutOfOrder.ApplyIsHonest | src/reorder.rs:47-110 | An honest packet never errs; recovery is asked for exactly when a delta comes before any snapshot or finds no room |
| OutOfOrder.AnswerToHonest | src/reorder.rs:47-110 | The whole answer to an honest packet, case by case from the numbers: recovery, already seen, buffered, or applied with the state and count that draining ends at |
| OutOfOrder.AnyOrderReachesTheEnd | src/reorder.rs:47-110 | All packets in any order with any repeats: if no call asked for recovery, the decoder ends at the last sequence with the last state |
| OutOfOrder.SnapshotFirstReachesTheEnd | src/reorder.rs:47-110 | With a snapshot first and a buffer as large as the stream the condition is met |
| OutOfOrder.LastSnapshotReachesTheEnd | src/reorder.rs:65-99 | From wherever a stream has taken the decoder, refusals included, a snapshot of the last state brings it to the end |
| OutOfOrder.WhatStays | src/reorder.rs:65-99 | A packet that applies at once takes with it exactly the waiting packets that follow on from it; what a snapshot jumps over stays |
| OutOfOrder.StaleEntriesTakeRoom | src/reorder.rs:49-61 | An early delta within the gap is refused only because of entries already passed exactly when the buffer is full and holds such an entry |
| OutOfOrder.JumpedOverDeltaTakesRoom | src/reorder.rs:47-110 | A four-packet run in which this happens |
| OutOfOrder.RoomForTheStream | src/reorder.rs:49-61 | A buffer as large as the stream never refuses one of its packets |
| AgentCodec.ZigZagRoundTrip | src/binary.rs:254-320 | Zigzag is undone for every i128 |
| AgentCodec.UnZigZagRoundTrip | src/binary.rs:254-320 | And the other way for every u128 |
| AgentCodec.NumberRoundTrip | src/binary.rs:258-316 | Every u128 survives its varint |
| AgentCodec.TextRoundTrip | src/binary.rs:250-327 | Every string survives its encoding |
| Utf8.ValidMeansScalars | src/binary.rs:321-327 | The texts that are accepted are exactly the encodings of Unicode scalar values, one after the other |
| AgentCodec.StateRoundTrip | src/binary.rs:102-137 | Every agent state survives its encoding, with nothing left over |
| AgentCodec.DeltaRoundTrip | src/binary.rs:139-239 | Every delta whose mask says what it holds survives its encoding |
| AgentCodec.DeltaRoundTripThen | src/binary.rs:139-239 | The same with anything after it, which is then refused |
| AgentFormat.TrailingBytesRefused | src/binary.rs:117-137 | A state with anything after it is refused |
| AgentFormat.FieldsOfState | src/binary.rs:102-115 | An encoded state is its ten fields in this order: numbers in groups of seven bits, texts behind their length, the float as its four bytes |
| AgentFormat.FieldsOfDelta | src/binary.rs:139-201 | An encoded delta is its mask, low byte first, and the fields that bits 1 to 512 of the mask call for, in this order |
| AgentFormat.MissingValueRefused | src/binary.rs:139-201 | A delta is refused exactly when a field that its mask calls for is missing |
| AgentFormat.ZigZagIs | src/binary.rs:254-257 | Twice the value when it is not negative, and one less than twice its absolute value otherwise |
| AgentFormat.OnlyChangesAreSent | src/binary.rs:30-67 | Every field that differs is sent with the new value or the signed difference, and no other is |
| AgentFormat.FloatsCompared | src/binary.rs:56-59 | As 32-bit words, a float is sent unless it has the same bits and is a number, or both are zeros |
| AgentFormat.NothingChanged | src/binary.rs:30-201 | Two equal states differ by an empty delta exactly when their float is a number |
| AgentCodec.MaskBit | src/binary.rs:4-13 | Bit k of a mask put together from flags is flag k |
| AgentCodec.BetweenIsWellFormed | src/binary.rs:30-67 | In the difference of any two states a bit is set exactly when its field is there |
| AgentCodec.ApplyBetween | src/binary.rs:30-99 | The difference of two states, applied to the first, gives the second if and only if their cpu_percent are not opposite zeros, which the float comparison takes for equal; otherwise it gives the second with the first's zero |
| AgentCodec.SignOfZeroIsLost | src/binary.rs:56-59 | An input on which the difference is lost |
| AgentCodec.AgentDeltaEndToEnd | src/binary.rs:30-239 | From one state to the next over the wire, under the same condition |
| AgentBytes.BetweenStates | src/binary.rs:30-67 | Filling the difference in field by field |
| AgentBytes.EncodeAgentState | src/binary.rs:102-115 | The state writer |
| AgentBytes.DecodeAgentState | src/binary.rs:117-137 | The state reader gives the specified state or error on every input |
| AgentBytes.EncodeAgentDelta | src/binary.rs:139-201 | The delta writer, with its mask and value mismatch error |
| AgentBytes.DecodeAgentDelta | src/binary.rs:203-239 | The delta reader gives the specified delta or error on every input |
| AgentBytes.Reader.Take | src/binary.rs:274-285 | Taking bytes moves the position past them, or fails and leaves it |
| AgentBytes.Reader.VarU128 | src/binary.rs:299-316 | The varint loop over the reader reads what the format defines |
| AgentBytes.Reader.String | src/binary.rs:321-327 | A length, that many bytes, and a UTF-8 check |
| AgentSync.NumbersAreShort | src/binary.rs:258-264 | No u128 takes more than nineteen bytes |
| AgentSync.DeltaSize | src/binary.rs:139-201 | An agent delta is at most 128 bytes longer than the texts of the new state |
| AgentSync.PublishIsHonest | src/sync.rs:64-92 | Whatever the policy picks, the packet leads a decoder in step from the previous state to the current one, if and only if it is a snapshot or the two states do not hold opposite zeros |
| AgentSync.ModeIsKept | src/sync.rs:64-92 | A delta exactly when there is a last state and the policy picks one, every header field, and compressed only when the policy picks that |
| AgentSync.ChosenIsTried | src/adaptive.rs:81-140 | A compressed choice sends the compressed candidate of what the raw choice would send |
| AgentSync.OpensExactly | src/sync.rs:165-177 | A snapshot opens exactly when it decodes to a state with the hash it was sent with |
| AgentSync.LostSignIsNoticed | src/sync.rs:184-193 | When they do, the state the receiver is left with never has the base hash of the next delta |
| AgentSync.RecoveryIsHonest | src/sync.rs:106-109 | A recovery snapshot of the last state leads any decoder to it |
| AgentSync.SessionIsHonest | src/sync.rs:64-109 | All packets of a session of updates, forced snapshots and recovery snapshots in any mixture are honest if and only if none is a delta between opposite zeros |
| AgentSync.AgentsInAnyOrder | src/sync.rs:64-92 | The packets of such a session, at least one of each number, in any order with any repeats: if no call asked for recovery, the decoder ends with the last state |
| AgentSync.Encoder.Encode | src/sync.rs:64-92 | The encoder's new state and packet |
| AgentSync.Encoder.ForceSnapshot | src/sync.rs:94-101 | A numbered snapshot, whatever came before |
| AgentSync.Encoder.Recover | src/sync.rs:106-109 | A snapshot at the current sequence, which it leaves as it is |
| Lattice.Converges | src/crdt/gcounter.rs:49-61 | If merging is commutative, associative and idempotent, sequences with the same elements merge to the same state |
| GCounter.MergeLaws | src/crdt/gcounter.rs:49-61 | The component-wise maximum has these three laws |
| GCounter.IncrementExactly | src/crdt/gcounter.rs:23-29 | An increment adds exactly its amount to one component and nothing elsewhere, or is an error and changes nothing exactly when the component would exceed u64 |
| GCounter.CountersConverge | src/crdt/gcounter.rs:49-61 | Counters converge for every order and multiplicity |
| GCounter.GrewMeansChanged | src/crdt/gcounter.rs:49-61 | The boolean that merge returns says "self changed" if and only if some value grows or no component is new |
| GCounter.ZeroComponentGoesUnreported | src/crdt/gcounter.rs:49-61 | An input on which it does not, made by an increment of zero |
| GCounter.Counter.Add | src/crdt/gcounter.rs:23-29 | Checked addition to one component |
| GCounter.Counter.Read | src/crdt/gcounter.rs:32-36 | The fold gives the sum of all components, or an error exactly when it exceeds u64 |
| GCounter.Counter.MergeFrom | src/crdt/gcounter.rs:49-61 | The loop gives the component-wise maximum, and true exactly when some component's value grew |
| CounterSystem.OwnersLead | src/crdt/gcounter.rs:23-61 | In every run no component anywhere exceeds its owner's, which is the sum of its successful increments |
| CounterSystem.ReadsExactTotal | src/crdt/gcounter.rs:32-61 | After any run a replica that merges every state reads the exact total, or ValueOverflow exactly when it exceeds u64 |
| PNCounter.PairsConverge | src/crdt/pncounter.rs:50-56 | Pairs of counters converge likewise |
| PNSystem.ReadsExactDifference | src/crdt/pncounter.rs:21-56 | After any run of increments and decrements a replica that merges every state reads exactly what was added less what was taken off, or ValueOverflow exactly when one of the sums exceeds u64 |
| PNCounter.Counter.Read | src/crdt/pncounter.rs:31-37 | The difference of the totals, each of which must fit u64 |
| PNCounter.Counter.MergeFrom | src/crdt/pncounter.rs:50-56 | Both halves are merged whether or not the first changed |
| LwwRegister.MergeCommutes | src/crdt/lww_register.rs:47-62 | Merging two registers commutes if and only if equal metadata comes with equal values |
| LwwRegister.MergeAssociates | src/crdt/lww_register.rs:47-62 | Merging is associative without any assumption |
| LwwRegister.LaterWriteWins | src/crdt/lww_register.rs:47-55 | Of two writes the one with the later timestamp wins on either side, whoever made them |
| LwwRegister.LatestIsLeft | src/crdt/lww_register.rs:47-62 | Of any writes one is left, and none of them has a later timestamp |
| LwwRegister.LargerReplicaWins | src/crdt/lww_register.rs:11-13 | At the same time the identifier that is larger at the first differing byte wins |
| LwwRegister.LongerReplicaWins | src/crdt/lww_register.rs:11-13 | And a proper extension of an identifier wins over it |
| LwwRegister.SameWriteStays | src/crdt/lww_register.rs:47-55 | The same metadata keeps what is there |
| LwwRegister.ConvergesExactly | src/crdt/lww_register.rs:47-62 | Every order and repetition of some writes merges to the same register if and only if the newest of them has one value |
| LwwRegister.RegistersConverge | src/crdt/lww_register.rs:47-62 | So replicas that have merged the same writes hold the same register when the newest has one value |
| LwwRegister.ConsistentWritesConverge | src/crdt/lww_register.rs:47-62 | As it has when timestamp and replica identify the value |
| LwwRegister.OlderConflictsAreHarmless | src/crdt/lww_register.rs:47-62 | Conflicting older writes that converge all the same |
| LwwRegister.ConflictingWritesDiverge | src/crdt/lww_register.rs:47-62 | Two newest writes with different values diverge |
| LwwRegister.Cell.Assign | src/crdt/lww_register.rs:47-55 | Assigning merges in the write and says whether anything was overwritten; which write wins is LaterWriteWins and the three after it |
| LwwRegister.Cell.MergeFrom | src/crdt/lww_register.rs:58-62 | Merging is assigning the other's write |

## Left out

What the model abstracts from:

- zstd: a pair of functions with `decompress(compress(x)) = x`; compression itself never fails.
- CRC-32: an arbitrary function of the payload, so nothing is claimed about what it detects.
- The texts of error messages: errors keep their kind and the numbers in them.
- Allocation failure, and the memory that a large length field in a chunk payload makes `resize` ask for.
- 32-bit platforms: `usize` is 64 bits wide and no slice exceeds `isize::MAX` bytes.
- `f64` rounding: `FastSelector.Arithmetic` holds the quotients that the advisor computes as arbitrary functions, and everything is proved for all of them.  The tuner's win rate is only ever taken of 32 attempts, where the model's integer comparison and the program's agree.
- Overflow of `base + delta` in `apply_u64_delta`: the model adds without bound and reports an error; in the program a delta near `i128::MAX`, which `between` never makes, panics in a debug build and gives the same error in a release build.
- Bitwise or, where the operands share no bits, is addition; shifts are multiplications and divisions by powers of two.
- The varint readers drop the bits of the last group that exceed the width, as the code does, so no claim is made that a decoded number had its canonical form.

What a stated property assumes:

- Stream.Safety: a recovery snapshot is made atomically and of the last encoded state, and only after a first update.
- Stream.NextUpdateApplies: three times the state plus 64 bytes must be at most 64 MiB, because a compressed payload may otherwise expand past the decoder's limit.
- Recovery.RecoveryReaches: the same bound on the published states.
- RecoveryHistory.History.Record: the encoded lengths of the packets held at one time add up to less than 2^64, as they are all in memory.
- AgentSync.AgentsInAnyOrder: fewer than `u64::MAX - 1` calls; the texts of each state leave 128 bytes of the 64 MiB limit; no delta goes from one zero of `cpu_percent` to the other, since `AgentSync.SessionIsHonest` shows that exactly those deltas do not lead to the state published.
- OutOfOrder.AnyOrderReachesTheEnd: `honest` is a condition on what a packet means to a decoder in step, not on who sent it.
- LwwRegister.RegistersConverge: the newest write has one value, which is needed: `LwwRegister.ConvergesExactly`.
- PNCounter.Counter.MergeFrom: the two counters are different objects, as Rust's borrowing rules require; likewise `GCounter.Counter.MergeFrom`.

What is not modelled:

- `GenericEncoder`: the same steps as `AgentSync.Encoder` over JSON forms.
- `src/schema.rs`, `src/migration.rs` and `delta-stream-derive`: JSON behaviour; `Sync.Codec` and the `migrate` parameter stand for them.
- `src/adaptive.rs`: the choice among the four candidates is left open, since all of them mean the same state.
- `src/session.rs`, `src/transport`, `src/ws_broker.rs`, `src/demo_server.rs`, `src/app.rs`: asynchronous plumbing, network and command line.
- `src/metrics.rs`, `src/runtime.rs`, `src/control.rs`, `src/compat.rs`: counters, constants and one-branch decisions; the encoders' runtime metrics are left out with them.
- Iterator pipelines (`ChunkManifest::build`, `differing_chunks`, `PartialRepair::build`, the sparse and XOR zips) are functions, as they are expressions in the program.
- Byte buffers that only grow are values that the writers extend; the appliers' buffers are arrays that are patched in place.
