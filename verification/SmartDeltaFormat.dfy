/**
  What the payloads of `smart_delta.rs` hold, byte for byte and independent of how they are built, and what
  the applier refuses.
  */
module SmartDeltaFormat {
  import opened Core
  import opened Varint
  import opened DeltaRecords
  import opened SmartDelta
  import RangeGrouping

  // ---------------------------------------------------------------- what is stored

  predicate Stored(records: seq<Record>, k: nat) {
    exists n :: 0 <= n < |records| && records[n].key == k
  }

  /** The sparse records are the changed positions, each once and with its new byte. */
  lemma {:induction false} SparseRecordsAreChanges(previous: Bytes, current: Bytes, i: nat)
    requires |previous| == |current| && i <= |current|
    ensures var records := SparseRecords(previous, current, i);
            && (forall n | 0 <= n < |records| ::
                  i <= records[n].key < |current| && records[n].data == [current[records[n].key]])
            && (forall m, n | 0 <= m < n < |records| :: records[m].key < records[n].key)
            && (forall k | i <= k < |current| :: previous[k] != current[k] <==> Stored(records, k))
    decreases |current| - i
  {
    hide SparseRecords, Stored;
    SparseTurn(previous, current, i);
    var records := SparseRecords(previous, current, i);
    if i < |current| {
      var rest := SparseRecords(previous, current, i + 1);
      SparseRecordsAreChanges(previous, current, i + 1);
      if previous[i] != current[i] {
        forall k: nat ensures Stored(records, k) <==> k == i || Stored(rest, k) {
          StoredCons(Record(i, [current[i]]), rest, k);
        }
      } else {
        assert records == rest;
        NotStoredBefore(rest, i);
      }
    }
  }

  lemma SparseTurn(previous: Bytes, current: Bytes, i: nat)
    requires |previous| == |current| && i <= |current|
    ensures i == |current| ==> SparseRecords(previous, current, i) == []
    ensures i < |current| ==>
              SparseRecords(previous, current, i) ==
              (if previous[i] != current[i] then [Record(i, [current[i]])] else [])
              + SparseRecords(previous, current, i + 1)
  {
  }

  /** The range records are the ranges of the one canonical grouping for the gap, with their new bytes. */
  lemma RangeRecordsAreCanonical(previous: Bytes, current: Bytes, gap: nat, ranges: seq<RangeGrouping.Range>)
    requires |previous| == |current| && RangeGrouping.Canonical(previous, current, gap, ranges, 0)
    ensures var records := GroupedRecords(previous, current, gap);
            && |records| == |ranges|
            && forall n | 0 <= n < |ranges| ::
                 && ranges[n].start <= ranges[n].end <= |current|
                 && records[n] == Record(ranges[n].start, current[ranges[n].start..ranges[n].end])
  {
    hide RangeGrouping.Group, RangeGrouping.Canonical;
    RangeGrouping.GroupIsCanonical(previous, current, gap, 0);
    RangeGrouping.CanonicalIsUnique(previous, current, gap, ranges, RangeGrouping.Group(previous, current, gap, 0), 0);
    RangeGrouping.GroupBounds(previous, current, gap);
  }

  /** Where chunk `k` begins. */
  function At(size: nat, k: nat): nat {
    k * size
  }

  /** Chunk `k` of the state: `size` bytes, or what is left of them. */
  function ChunkAt(state: Bytes, size: nat, k: nat): Bytes
    requires At(size, k) <= |state|
  {
    state[At(size, k)..Min(At(size, k) + size, |state|)]
  }

  /** The receiver has no such chunk, or another one. */
  predicate Lacks(previous: Bytes, current: Bytes, size: nat, k: nat)
    requires At(size, k) <= |current|
  {
    var start, end := At(size, k), Min(At(size, k) + size, |current|);
    end > |previous| || previous[start..end] != current[start..end]
  }

  /** The chunk records are the chunks that the receiver lacks, each once and with its new bytes. */
  lemma {:induction false} ChunkRecordsAreLacking(previous: Bytes, current: Bytes, size: nat, k: nat)
    requires size >= 1
    ensures var records := ChunkRecords(previous, current, size, k, At(size, k));
            && (forall n | 0 <= n < |records| ::
                  && k <= records[n].key && At(size, records[n].key) < |current|
                  && records[n].data == ChunkAt(current, size, records[n].key))
            && (forall m, n | 0 <= m < n < |records| :: records[m].key < records[n].key)
            && (forall j | k <= j && At(size, j) < |current| ::
                  Lacks(previous, current, size, j) <==> Stored(records, j))
    decreases |current| - At(size, k)
  {
    hide ChunkRecords, At, ChunkAt, Lacks, Stored;
    var records := ChunkRecords(previous, current, size, k, At(size, k));
    if At(size, k) >= |current| {
      NoChunkBeyond(previous, current, size, k, At(size, k));
      forall j | k <= j ensures At(size, j) >= |current| {
        Grows(k, j, size);
      }
    } else {
      NextChunk(k, size);
      ChunkRecordsAreLacking(previous, current, size, k + 1);
      ChunkStep(previous, current, size, k);
      var rest := ChunkRecords(previous, current, size, k + 1, At(size, k + 1));
      if Lacks(previous, current, size, k) {
        forall j ensures Stored(records, j) <==> j == k || Stored(rest, j) {
          StoredCons(Record(k, ChunkAt(current, size, k)), rest, j);
        }
      } else {
        NotStoredBefore(rest, k);
      }
    }
  }

  lemma StoredCons(r: Record, rest: seq<Record>, k: nat)
    ensures Stored([r] + rest, k) <==> r.key == k || Stored(rest, k)
  {
    var records := [r] + rest;
    if r.key == k {
      assert records[0].key == k;
    } else if Stored(rest, k) {
      var n :| 0 <= n < |rest| && rest[n].key == k;
      assert records[n + 1].key == k;
    }
  }

  lemma NotStoredBefore(records: seq<Record>, k: nat)
    requires forall n | 0 <= n < |records| :: k < records[n].key
    ensures !Stored(records, k)
  {
  }

  lemma Grows(a: nat, b: nat, size: nat)
    requires a <= b
    ensures At(size, a) <= At(size, b)
  {
  }

  lemma NextChunk(k: nat, size: nat)
    ensures At(size, k + 1) == At(size, k) + size
  {
  }

  lemma NoChunkBeyond(previous: Bytes, current: Bytes, size: nat, k: nat, start: nat)
    requires size >= 1 && start >= |current|
    ensures ChunkRecords(previous, current, size, k, start) == []
  {
  }

  lemma ChunkStep(previous: Bytes, current: Bytes, size: nat, k: nat)
    requires size >= 1 && At(size, k) < |current|
    ensures var rest := ChunkRecords(previous, current, size, k + 1, At(size, k) + size);
            ChunkRecords(previous, current, size, k, At(size, k)) ==
            if Lacks(previous, current, size, k) then [Record(k, ChunkAt(current, size, k))] + rest else rest
  {
    hide At;
  }

  /** Nothing is stored when nothing changed. */
  lemma EqualStatesStoreNothing(state: Bytes, size: nat, gap: nat)
    requires size >= 1
    ensures SparseRecords(state, state, 0) == [] && GroupedRecords(state, state, gap) == []
    ensures ChunkRecords(state, state, size, 0, 0) == []
  {
    hide SparseRecords, GroupedRecords, ChunkRecords, ChunkAt, Stored;
    SparseRecordsAreChanges(state, state, 0);
    RangeRecordsAreCanonical(state, state, gap, []);
    ChunkRecordsAreLacking(state, state, size, 0);
    var sparse, chunks := SparseRecords(state, state, 0), ChunkRecords(state, state, size, 0, 0);
    if |sparse| > 0 {
      IsStored(sparse);
    }
    if |chunks| > 0 {
      IsStored(chunks);
    }
  }

  lemma IsStored(records: seq<Record>)
    requires |records| > 0
    ensures Stored(records, records[0].key)
  {
  }

  // ---------------------------------------------------------------- how it is written

  /** Record `n` as written: its distance, its length unless it is a single byte, and its bytes. */
  function Written(layout: Layout, records: seq<Record>, n: nat): Bytes
    requires n < |records|
  {
    var from := if n == 0 then 0
                else if layout == RangeLayout then records[n - 1].key + |records[n - 1].data|
                else records[n - 1].key;
    Put(Max(0, records[n].key - from))
    + (if layout == SparseLayout then [] else Put(|records[n].data|))
    + records[n].data
  }

  function AllWritten(layout: Layout, records: seq<Record>, n: nat): Bytes
    requires n <= |records|
    decreases |records| - n
  {
    if n == |records| then [] else Written(layout, records, n) + AllWritten(layout, records, n + 1)
  }

  lemma {:induction false} RecordsAreWritten(layout: Layout, records: seq<Record>, n: nat, prev: nat)
    requires n <= |records|
    requires prev == if n == 0 then 0 else Following(layout, records[n - 1])
    ensures PutRecords(layout, prev, records[n..]) == AllWritten(layout, records, n)
    decreases |records| - n
  {
    hide Put;
    if n < |records| {
      RecordsAreWritten(layout, records, n + 1, Following(layout, records[n]));
      assert records[n..][1..] == records[n + 1..];
      var head := Put(Max(0, records[n].key - prev));
      if layout == SparseLayout {
        assert head + [] == head;
      } else {
        Associative(head, Put(|records[n].data|), records[n].data);
      }
    }
  }

  /**
    The five payloads: the tag; the length of the current state; for chunks the chunk size; the number of
    records and the records; or the mask; or the lengths of prefix, suffix and middle, and the middle.
    */
  lemma PayloadLayout(kind: Kind, previous: Bytes, current: Bytes, policy: Policy)
    requires Legal(kind, previous, current)
    ensures var payload := Encode(kind, previous, current, policy);
            match kind
            case Sparse =>
              var records := SparseRecords(previous, current, 0);
              payload == [1] + Put(|current|) + Put(|records|) + AllWritten(SparseLayout, records, 0)
            case Ranges =>
              var records := GroupedRecords(previous, current, policy.maxRangeGap);
              payload == [2] + Put(|current|) + Put(|records|) + AllWritten(RangeLayout, records, 0)
            case Xor =>
              && |payload| == 1 + |Put(|current|)| + |current|
              && payload[..1 + |Put(|current|)|] == [3] + Put(|current|)
              && forall i | 0 <= i < |current| ::
                   payload[1 + |Put(|current|)| + i] == XorByte(previous[i], current[i])
            case Splice =>
              var prefix, suffix := SplicePrefix(previous, current), SpliceSuffix(previous, current);
              var middle := current[prefix..|current| - suffix];
              payload == [4] + Put(|current|) + Put(prefix) + Put(suffix) + Put(|middle|) + middle
            case Chunks =>
              var size := if policy.chunkSize == 0 then 1 else policy.chunkSize;
              var records := ChunkRecords(previous, current, size, 0, 0);
              payload == [5] + Put(|current|) + Put(size) + Put(|records|) + AllWritten(ChunkLayout(size), records, 0)
  {
    hide Put, SparseRecords, GroupedRecords, ChunkRecords, PutRecords, AllWritten, SplicePrefix, SpliceSuffix, XorByte;
    match kind {
      case Sparse => RecordsPayload(1, SparseLayout, |current|, SparseRecords(previous, current, 0));
      case Ranges => RecordsPayload(2, RangeLayout, |current|, GroupedRecords(previous, current, policy.maxRangeGap));
      case Xor =>
        var header := [3] + Put(|current|);
        Associative([3], Put(|current|), Mask(previous, current));
        Split(header, Mask(previous, current));
      case Splice =>
        var h, middle := SpliceHeaderOf(previous, current), SpliceMiddle(previous, current);
        SplicePayload(h, middle);
      case Chunks =>
        var size := Max(1, policy.chunkSize);
        RecordsPayload(5, ChunkLayout(size), |current|, ChunkRecords(previous, current, size, 0, 0));
    }
  }

  lemma RecordsPayload(tag: byte, layout: Layout, len: nat, records: seq<Record>)
    ensures EncodeRecords(tag, layout, len, records) ==
            (if layout.ChunkLayout? then [tag] + Put(len) + Put(layout.size) else [tag] + Put(len))
            + Put(|records|) + AllWritten(layout, records, 0)
  {
    hide Put, PutRecords, AllWritten;
    EncodeRecordsFlat(tag, layout, len, records);
    RecordsAreWritten(layout, records, 0, 0);
    assert records[0..] == records;
  }

  lemma SplicePayload(h: SpliceHeader, middle: Bytes)
    ensures [4] + PutSplice(h, middle)
         == [4] + Put(h.len) + Put(h.prefix) + Put(h.suffix) + Put(h.middleLen) + middle
  {
    hide Put;
    var a, b, c, d := Put(h.len), Put(h.prefix), Put(h.suffix), Put(h.middleLen);
    Associative([4], a, b + (c + (d + middle)));
    Associative([4] + a, b, c + (d + middle));
    Associative([4] + a + b, c, d + middle);
    Associative([4] + a + b + c, d, middle);
  }

  /** `kind` reads the strategy off the first byte. */
  function KindOf(payload: Bytes): Result<Kind> {
    if payload == [] then Err(InvalidPacket)
    else
      match payload[0]
      case 1 => Ok(Sparse)
      case 2 => Ok(Ranges)
      case 3 => Ok(Xor)
      case 4 => Ok(Splice)
      case 5 => Ok(Chunks)
      case _ => Err(InvalidPacket)
  }

  lemma KindIsRecognised(kind: Kind, previous: Bytes, current: Bytes, policy: Policy)
    requires Legal(kind, previous, current)
    ensures KindOf(Encode(kind, previous, current, policy)) == Ok(kind)
  {
    hide Put, SparseRecords, GroupedRecords, ChunkRecords, PutRecords, SpliceMiddle, Mask, SplicePrefix, SpliceSuffix;
  }

  // ---------------------------------------------------------------- what is refused

  /** Anything after a payload makes the applier refuse the whole. */
  lemma TrailingBytesRefused(kind: Kind, previous: Bytes, current: Bytes, policy: Policy, rest: Bytes)
    requires Legal(kind, previous, current) && rest != []
    requires |previous| <= MAX_LEN && |current| <= MAX_LEN
    ensures Apply(previous, Encode(kind, previous, current, policy) + rest) == Err(InvalidPacket)
  {
    hide Apply, EncodeSparse, EncodeRanges, EncodeXor, EncodeSplice, EncodeChunks;
    match kind {
      case Sparse => SparseTrailing(previous, current, rest);
      case Ranges => RangesTrailing(previous, current, policy.maxRangeGap, rest);
      case Xor => XorTrailing(previous, current, rest);
      case Splice => SpliceTrailing(previous, current, rest);
      case Chunks => ChunksTrailing(previous, current, Max(1, policy.chunkSize), rest);
    }
  }

  lemma SparseTrailing(previous: Bytes, current: Bytes, rest: Bytes)
    requires |previous| == |current| <= MAX_LEN && rest != []
    ensures Apply(previous, EncodeSparse(previous, current) + rest) == Err(InvalidPacket)
  {
    hide ApplyPatches, EncodeRecords, SparseRecords;
    var records := SparseRecords(previous, current, 0);
    SparseAscends(previous, current, 0, 0);
    SparseRepairs(previous, current, 0);
    assert current[..0] + previous[0..] == previous;
    PatchesTrailing(1, SparseLayout, previous, current, records, rest);
  }

  lemma RangesTrailing(previous: Bytes, current: Bytes, gap: nat, rest: Bytes)
    requires |previous| == |current| <= MAX_LEN && rest != []
    ensures Apply(previous, EncodeRanges(previous, current, gap) + rest) == Err(InvalidPacket)
  {
    hide ApplyPatches, EncodeRecords, GroupedRecords;
    GroupedAscend(previous, current, gap);
    GroupedRepair(previous, current, gap);
    PatchesTrailing(2, RangeLayout, previous, current, GroupedRecords(previous, current, gap), rest);
  }

  lemma PatchesTrailing(tag: byte, layout: Layout, previous: Bytes, current: Bytes, records: seq<Record>, rest: Bytes)
    requires |previous| == |current| <= MAX_LEN && !layout.ChunkLayout? && rest != []
    requires Ascending(layout, 0, 0, |current|, records)
    requires Repairs(layout, records, previous, current)
    ensures var b := EncodeRecords(tag, layout, |current|, records) + rest;
            b[0] == tag && ApplyPatches(layout, previous, b[1..]) == Err(InvalidPacket)
  {
    hide ReadRecords, PutRecords, Put, ReadU64, Repairs;
    var put := PutRecords(layout, 0, records);
    var body := Put(|records|) + (put + rest);
    RecordsAreShort(layout, 0, 0, |current|, records);
    EncodeRecordsFlat(tag, layout, |current|, records);
    assert EncodeRecords(tag, layout, |current|, records) + rest == [tag] + (Put(|current|) + body);
    Split([tag], Put(|current|) + body);
    ReadPutU64(|current|, body);
    ReadPutU64(|records|, put + rest);
    ReadPutRecordsThen(layout, previous, 0, 0, records, current, rest);
  }

  lemma XorTrailing(previous: Bytes, current: Bytes, rest: Bytes)
    requires |previous| == |current| <= MAX_LEN && rest != []
    ensures Apply(previous, EncodeXor(previous, current) + rest) == Err(InvalidPacket)
  {
    hide Put, ReadU64;
    var mask := Mask(previous, current);
    assert EncodeXor(previous, current) + rest == [TAG_XOR] + (Put(|current|) + (mask + rest));
    Split([TAG_XOR], Put(|current|) + (mask + rest));
    ReadPutU64(|current|, mask + rest);
  }

  lemma SpliceTrailing(previous: Bytes, current: Bytes, rest: Bytes)
    requires |previous| <= MAX_LEN && |current| <= MAX_LEN && rest != []
    ensures Apply(previous, EncodeSplice(previous, current) + rest) == Err(InvalidPacket)
  {
    hide Put, ReadSplice, SplicePrefix, SpliceSuffix;
    var h, middle := SpliceHeaderOf(previous, current), SpliceMiddle(previous, current);
    assert [TAG_SPLICE] + PutSplice(h, middle) + rest == [TAG_SPLICE] + PutSplice(h, middle + rest);
    ApplyStripsSplice(previous, PutSplice(h, middle + rest));
    hide PutSplice;
    ReadPutSplice(h, middle + rest);
  }

  lemma ChunksTrailing(previous: Bytes, current: Bytes, size: nat, rest: Bytes)
    requires |previous| <= MAX_LEN && |current| <= MAX_LEN && 1 <= size < U64_LIMIT && rest != []
    ensures Apply(previous, EncodeChunks(previous, current, size) + rest) == Err(InvalidPacket)
  {
    hide Put, PutRecords, ChunkRecords, ApplyChunks, Apply;
    var records := ChunkRecords(previous, current, size, 0, 0);
    var put := PutRecords(ChunkLayout(size), 0, records);
    var b := Put(|current|) + (Put(size) + (Put(|records|) + (put + rest)));
    assert EncodeChunks(previous, current, size) + rest == [TAG_CHUNKS] + b;
    ApplyStripsChunks(previous, b);
    ChunkBodyTrailing(previous, current, size, rest);
  }

  lemma ChunkBodyTrailing(previous: Bytes, current: Bytes, size: nat, rest: Bytes)
    requires |previous| <= MAX_LEN && |current| <= MAX_LEN && 1 <= size < U64_LIMIT && rest != []
    ensures var records := ChunkRecords(previous, current, size, 0, 0);
            var body := PutRecords(ChunkLayout(size), 0, records) + rest;
            ApplyChunks(previous, Put(|current|) + (Put(size) + (Put(|records|) + body))) == Err(InvalidPacket)
  {
    hide Put, PutRecords, ReadU64, ReadRecords, ChunkRecords, Ascending, Repairs;
    var records := ChunkRecords(previous, current, size, 0, 0);
    NextStart(0, size);
    ChunksAscend(previous, current, size, 0, 0, 0);
    ChunksRepair(previous, current, size, 0, 0);
    assert Progress(previous, current, 0) == Resize(previous, |current|);
    RecordsAreShort(ChunkLayout(size), 0, 0, |current|, records);
    ReadChunkHeader(|current|, size, |records|, PutRecords(ChunkLayout(size), 0, records) + rest);
    ReadPutRecordsThen(ChunkLayout(size), Resize(previous, |current|), 0, 0, records, current, rest);
  }

  /** The strategies for equal lengths refuse a receiver of another length. */
  lemma OtherLengthRefused(kind: Kind, previous: Bytes, current: Bytes, policy: Policy, base: Bytes)
    requires kind.Sparse? || kind.Ranges? || kind.Xor?
    requires |previous| == |current| <= MAX_LEN && |base| != |current|
    ensures Apply(base, Encode(kind, previous, current, policy)) == Err(InvalidPacket)
  {
    hide Put, ReadU64, SparseRecords, GroupedRecords, PutRecords, Mask, ReadRecords;
    var payload := Encode(kind, previous, current, policy);
    var head := Put(|current|);
    var tail := payload[1 + |head|..];
    assert payload == [payload[0]] + (head + tail);
    Split([payload[0]], head + tail);
    ReadPutU64(|current|, tail);
  }

  /** No payload, or one with another first byte, is refused by every receiver. */
  lemma UnknownKindRefused(base: Bytes, payload: Bytes)
    requires payload == [] || payload[0] == 0 || payload[0] > 5
    ensures Apply(base, payload) == Err(InvalidPacket) && KindOf(payload) == Err(InvalidPacket)
  {
    hide ApplyPatches, ApplyXor, ApplySplice, ApplyChunks;
  }
}
