/**
  The encoder and applier loops of `smart_delta.rs`, proved to compute what module `SmartDelta`
  specifies.  Appliers patch a copy of the receiver's buffer in place while a cursor walks the payload.
  */
module SmartDeltaCodec {
  import opened Core
  import opened Varint
  import opened DeltaRecords
  import opened SmartDelta
  import RangeGrouping

  datatype Candidate = Candidate(kind: Kind, payload: Bytes)

  // ---------------------------------------------------------------- encoders

  method EncodeSparseBytes(previous: Bytes, current: Bytes) returns (out: Bytes)
    requires |previous| == |current|
    ensures out == EncodeSparse(previous, current)
  {
    var changes := SparseRecords(previous, current, 0);
    SparseAscends(previous, current, 0, 0);
    EncodeRecordsFlat(TAG_SPARSE, SparseLayout, |current|, changes);
    out := [TAG_SPARSE];
    out := PutVar(out, |current|);
    out := PutVar(out, |changes|);
    out := WriteSparse(out, changes, |current|);
  }

  method WriteSparse(header: Bytes, changes: seq<Record>, ghost len: nat) returns (out: Bytes)
    requires Ascending(SparseLayout, 0, 0, len, changes)
    ensures out == header + PutRecords(SparseLayout, 0, changes)
  {
    hide Put, Ascending;
    ghost var target := header + PutRecords(SparseLayout, 0, changes);
    out := header;
    var previousIndex := 0;
    ghost var pos := 0;
    for n := 0 to |changes|
      invariant Ascending(SparseLayout, previousIndex, pos, len, changes[n..])
      invariant out + PutRecords(SparseLayout, previousIndex, changes[n..]) == target
      invariant n == 0 ==> previousIndex == 0
    {
      var record := changes[n];
      AscendingHead(SparseLayout, previousIndex, pos, len, changes[n..]);
      PutNext(out, SparseLayout, previousIndex, changes[n..]);
      assert changes[n..][1..] == changes[n + 1..];
      pos := End(SparseLayout, record);
      out := PutVar(out, if n == 0 then record.key else record.key - previousIndex);
      out := out + record.data;
      previousIndex := record.key;
    }
  }

  method EncodeRangesBytes(previous: Bytes, current: Bytes, maxGap: nat) returns (out: Bytes)
    requires |previous| == |current|
    ensures out == EncodeRanges(previous, current, maxGap)
  {
    var ranges := RangeGrouping.FindRanges(previous, current, maxGap);
    GroupedBounds(previous, current, maxGap);
    EncodeRecordsFlat(TAG_RANGES, RangeLayout, |current|, RangeRecords(current, ranges));
    out := [TAG_RANGES];
    out := PutVar(out, |current|);
    out := PutVar(out, |ranges|);
    out := WriteRanges(out, current, ranges, RangeRecords(current, ranges));
  }

  lemma GroupedBounds(previous: Bytes, current: Bytes, maxGap: nat)
    requires |previous| == |current|
    ensures var ranges := RangeGrouping.Group(previous, current, maxGap, 0);
            && (forall n | 0 <= n < |ranges| :: ranges[n].start <= ranges[n].end <= |current|)
            && Ascending(RangeLayout, 0, 0, |current|, RangeRecords(current, ranges))
  {
    var ranges := RangeGrouping.Group(previous, current, maxGap, 0);
    RangeGrouping.GroupIsCanonical(previous, current, maxGap, 0);
    assert forall n | 0 <= n < |ranges| :: RangeGrouping.Tight(previous, current, maxGap, ranges[n]);
    GroupedAscend(previous, current, maxGap);
  }

  method WriteRanges(header: Bytes, current: Bytes, ranges: seq<RangeGrouping.Range>, ghost records: seq<Record>)
    returns (out: Bytes)
    requires forall n | 0 <= n < |ranges| :: ranges[n].start <= ranges[n].end <= |current|
    requires records == RangeRecords(current, ranges)
    requires Ascending(RangeLayout, 0, 0, |current|, records)
    ensures out == header + PutRecords(RangeLayout, 0, records)
  {
    hide *;
    ghost var target := header + PutRecords(RangeLayout, 0, records);
    out := header;
    var previousEnd := 0;
    assert records[0..] == records;
    for n := 0 to |ranges|
      invariant Ascending(RangeLayout, previousEnd, previousEnd, |current|, records[n..])
      invariant out + PutRecords(RangeLayout, previousEnd, records[n..]) == target
    {
      var start, end := ranges[n].start, ranges[n].end;
      assert records[n..][0] == Record(start, current[start..end]);
      assert records[n..][1..] == records[n + 1..];
      FollowingRange(start, current[start..end]);
      AscendingHead(RangeLayout, previousEnd, previousEnd, |current|, records[n..]);
      PutNext(out, RangeLayout, previousEnd, records[n..]);
      out := PutVar(out, if start > previousEnd then start - previousEnd else 0);
      out := PutVar(out, end - start);
      out := out + current[start..end];
      previousEnd := end;
    }
    assert records[|ranges|..] == [];
    NoRecords(RangeLayout, previousEnd, out);
  }

  lemma FollowingRange(start: nat, data: Bytes)
    ensures Following(RangeLayout, Record(start, data)) == End(RangeLayout, Record(start, data)) == start + |data|
  {
  }

  lemma NoRecords(layout: Layout, prev: nat, out: Bytes)
    ensures out + PutRecords(layout, prev, []) == out
  {
  }

  method EncodeXorBytes(previous: Bytes, current: Bytes) returns (out: Bytes)
    requires |previous| == |current|
    ensures out == EncodeXor(previous, current)
  {
    out := [TAG_XOR];
    out := PutVar(out, |current|);
    Associative([TAG_XOR], Put(|current|), Mask(previous, current));
    out := out + Mask(previous, current);
  }

  method EncodeSpliceBytes(previous: Bytes, current: Bytes) returns (out: Bytes)
    ensures out == EncodeSplice(previous, current)
  {
    var prefix, suffix := FindEnds(previous, current);
    var middle := current[prefix..|current| - suffix];
    out := [TAG_SPLICE];
    out := PutVar(out, |current|);
    out := PutVar(out, prefix);
    out := PutVar(out, suffix);
    out := PutVar(out, |middle|);
    out := out + middle;
    PutSpliceFlat(SpliceHeader(|current|, prefix, suffix, |middle|), middle);
  }

  method FindEnds(previous: Bytes, current: Bytes) returns (prefix: nat, suffix: nat)
    ensures prefix == SplicePrefix(previous, current)
    ensures suffix == SpliceSuffix(previous, current)
  {
    prefix := FindPrefix(previous, current);
    var maxSuffix := Min(|previous| - prefix, |current| - prefix);
    suffix := 0;
    while suffix < maxSuffix && previous[|previous| - 1 - suffix] == current[|current| - 1 - suffix]
      invariant suffix <= maxSuffix
      invariant CommonSuffix(previous, current, maxSuffix, suffix)
             == CommonSuffix(previous, current, maxSuffix, 0)
    {
      suffix := suffix + 1;
    }
  }

  method FindPrefix(previous: Bytes, current: Bytes) returns (prefix: nat)
    ensures prefix == SplicePrefix(previous, current)
  {
    var maxPrefix := Min(|previous|, |current|);
    prefix := 0;
    while prefix < maxPrefix && previous[prefix] == current[prefix]
      invariant prefix <= maxPrefix
      invariant CommonPrefix(previous, current, prefix) == CommonPrefix(previous, current, 0)
    {
      prefix := prefix + 1;
    }
  }

  lemma PutSpliceFlat(h: SpliceHeader, middle: Bytes)
    ensures [TAG_SPLICE] + PutSplice(h, middle) ==
            [TAG_SPLICE] + Put(h.len) + Put(h.prefix) + Put(h.suffix) + Put(h.middleLen) + middle
  {
    var a, b, c, d := Put(h.len), Put(h.prefix), Put(h.suffix), Put(h.middleLen);
    Associative([TAG_SPLICE], a, b + (c + (d + middle)));
    Associative([TAG_SPLICE] + a, b, c + (d + middle));
    Associative([TAG_SPLICE] + a + b, c, d + middle);
    Associative([TAG_SPLICE] + a + b + c, d, middle);
  }

  method EncodeChunksBytes(previous: Bytes, current: Bytes, chunkSize: nat) returns (out: Bytes)
    requires chunkSize >= 1
    ensures out == EncodeChunks(previous, current, chunkSize)
  {
    var changed := FindChunks(previous, current, chunkSize);
    ChunksAscend(previous, current, chunkSize, 0, 0, 0);
    EncodeRecordsFlat(TAG_CHUNKS, ChunkLayout(chunkSize), |current|, changed);
    out := [TAG_CHUNKS];
    out := PutVar(out, |current|);
    out := PutVar(out, chunkSize);
    out := PutVar(out, |changed|);
    out := WriteChunks(out, ChunkLayout(chunkSize), changed, |current|);
  }

  /** Of `chunks` chunks, each starts inside the state, and together they cover it. */
  lemma ChunkBounds(len: nat, size: nat, chunks: nat, chunk: nat)
    requires size >= 1 && chunks == (len + size - 1) / size && chunk <= chunks
    ensures (chunk + 1) * size == chunk * size + size
    ensures if chunk < chunks then chunk * size < len else chunk * size >= len
  {
    assert chunks * size <= len + size - 1 < chunks * size + size;
    if chunk < chunks {
      Monotone(chunk, chunks - 1, size);
      assert (chunks - 1) * size == chunks * size - size;
    }
  }

  lemma Monotone(a: nat, b: nat, size: nat)
    requires a <= b
    ensures a * size <= b * size
  {
  }

  /** One turn of the loop. */
  lemma ChunkTurn(previous: Bytes, current: Bytes, size: nat, k: nat, start: nat)
    requires size >= 1
    ensures start >= |current| ==> ChunkRecords(previous, current, size, k, start) == []
    ensures start < |current| ==>
              var end := Min(start + size, |current|);
              ChunkRecords(previous, current, size, k, start) ==
              (if HasChunk(previous, current, start, end) then [] else [Record(k, current[start..end])])
              + ChunkRecords(previous, current, size, k + 1, start + size)
  {
    hide HasChunk;
  }

  method FindChunks(previous: Bytes, current: Bytes, chunkSize: nat) returns (changed: seq<Record>)
    requires chunkSize >= 1
    ensures changed == ChunkRecords(previous, current, chunkSize, 0, 0)
  {
    hide ChunkRecords, HasChunk;
    var chunks := (|current| + chunkSize - 1) / chunkSize;
    changed := [];
    for chunk := 0 to chunks
      invariant changed + ChunkRecords(previous, current, chunkSize, chunk, chunk * chunkSize)
             == ChunkRecords(previous, current, chunkSize, 0, 0)
    {
      ChunkBounds(|current|, chunkSize, chunks, chunk);
      var start := chunk * chunkSize;
      var end := Min(start + chunkSize, |current|);
      ChunkTurn(previous, current, chunkSize, chunk, start);
      ghost var rest := ChunkRecords(previous, current, chunkSize, chunk + 1, start + chunkSize);
      if HasChunk(previous, current, start, end) {
        assert changed + ([] + rest) == changed + rest;
      } else {
        Associative(changed, [Record(chunk, current[start..end])], rest);
        changed := changed + [Record(chunk, current[start..end])];
      }
    }
    ChunkBounds(|current|, chunkSize, chunks, chunks);
    ChunkTurn(previous, current, chunkSize, chunks, chunks * chunkSize);
  }

  method WriteChunks(header: Bytes, layout: Layout, changed: seq<Record>, ghost len: nat) returns (out: Bytes)
    requires layout.ChunkLayout? && Ascending(layout, 0, 0, len, changed)
    ensures out == header + PutRecords(layout, 0, changed)
  {
    hide Put, Ascending;
    ghost var target := header + PutRecords(layout, 0, changed);
    out := header;
    var previousChunk := 0;
    ghost var pos := 0;
    for n := 0 to |changed|
      invariant Ascending(layout, previousChunk, pos, len, changed[n..])
      invariant out + PutRecords(layout, previousChunk, changed[n..]) == target
      invariant n == 0 ==> previousChunk == 0
    {
      var record := changed[n];
      AscendingHead(layout, previousChunk, pos, len, changed[n..]);
      PutNext(out, layout, previousChunk, changed[n..]);
      assert changed[n..][1..] == changed[n + 1..];
      pos := End(layout, record);
      out := PutVar(out, if n == 0 then record.key else record.key - previousChunk);
      out := PutVar(out, |record.data|);
      out := out + record.data;
      previousChunk := record.key;
    }
  }

  method EncodeCandidate(kind: Kind, previous: Bytes, current: Bytes, policy: Policy)
    returns (r: Result<Candidate>)
    ensures r == if Legal(kind, previous, current)
                 then Ok(Candidate(kind, Encode(kind, previous, current, policy)))
                 else Err(InvalidState)
  {
    var payload: Bytes;
    match kind {
      case Sparse =>
        if |previous| != |current| { return Err(InvalidState); }
        payload := EncodeSparseBytes(previous, current);
      case Ranges =>
        if |previous| != |current| { return Err(InvalidState); }
        payload := EncodeRangesBytes(previous, current, policy.maxRangeGap);
      case Xor =>
        if |previous| != |current| { return Err(InvalidState); }
        payload := EncodeXorBytes(previous, current);
      case Splice =>
        payload := EncodeSpliceBytes(previous, current);
      case Chunks =>
        payload := EncodeChunksBytes(previous, current, Max(1, policy.chunkSize));
    }
    r := Ok(Candidate(kind, payload));
  }

  /** The strategies that `EncodeCandidates` tries, in its order. */
  function KindsFor(previous: Bytes, current: Bytes): (kinds: seq<Kind>)
    ensures forall n | 0 <= n < |kinds| :: Legal(kinds[n], previous, current)
  {
    if |previous| == |current| then [Sparse, Ranges, Xor, Splice, Chunks] else [Splice, Chunks]
  }

  function CandidateFor(kind: Kind, previous: Bytes, current: Bytes, policy: Policy): Candidate
    requires Legal(kind, previous, current)
  {
    Candidate(kind, Encode(kind, previous, current, policy))
  }

  method EncodeCandidates(previous: Bytes, current: Bytes, policy: Policy) returns (out: seq<Candidate>)
    ensures |out| == |KindsFor(previous, current)|
    ensures forall n | 0 <= n < |out| ::
              out[n] == CandidateFor(KindsFor(previous, current)[n], previous, current, policy)
  {
    hide EncodeSparse, EncodeRanges, EncodeXor, EncodeSplice, EncodeChunks;
    out := [];
    if |previous| == |current| {
      var sparse := EncodeSparseBytes(previous, current);
      var ranges := EncodeRangesBytes(previous, current, policy.maxRangeGap);
      var xor := EncodeXorBytes(previous, current);
      out := [Candidate(Sparse, sparse), Candidate(Ranges, ranges), Candidate(Xor, xor)];
    }
    var splice := EncodeSpliceBytes(previous, current);
    var chunks := EncodeChunksBytes(previous, current, Max(1, policy.chunkSize));
    out := out + [Candidate(Splice, splice), Candidate(Chunks, chunks)];
  }

  // ---------------------------------------------------------------- appliers

  /** `copy_from_slice` into `out[start..]`. */
  method CopyInto(out: array<byte>, start: nat, src: Bytes)
    requires start + |src| <= out.Length
    modifies out
    ensures out[..] == Overwrite(old(out[..]), start, src)
  {
    forall i | 0 <= i < |src| {
      out[start + i] := src[i];
    }
  }

  method CopyOf(base: Bytes, len: nat) returns (out: array<byte>)
    ensures fresh(out) && out[..] == Resize(base, len)
  {
    out := new byte[len](i => if 0 <= i < |base| then base[i] else 0);
  }

  /** One turn of the sparse loop: returns the position written and the cursor behind the record. */
  method PatchSparse(out: array<byte>, previousIndex: nat, bytes: Bytes, cursor: nat)
    returns (r: Result<nat>, next: nat)
    requires cursor <= |bytes| && out.Length < U64_LIMIT
    modifies out
    ensures next <= |bytes|
    ensures var p := ReadRecord(SparseLayout, old(out[..]), previousIndex, bytes[cursor..]);
            if r.Ok? then p == Ok(Patched(out[..], r.value, bytes[next..])) else p == Err(r.error)
  {
    hide ReadU64;
    var delta: nat;
    delta, next :- ReadVarU64(bytes, cursor);
    if previousIndex + delta >= U64_LIMIT {
      return Err(InvalidPacket), next;
    }
    var index := previousIndex + delta;
    if next >= |bytes| {
      return Err(InvalidPacket), next;
    }
    var value := bytes[next];
    assert bytes[next..][..1] == [value] && bytes[next..][1..] == bytes[next + 1..];
    next := next + 1;
    if index >= out.Length {
      return Err(InvalidPacket), next;
    }
    CopyInto(out, index, [value]);
    r := Ok(index);
  }

  method ApplySparseBytes(base: Bytes, bytes: Bytes) returns (r: Result<Bytes>)
    requires |base| <= MAX_LEN
    ensures r == ApplyPatches(SparseLayout, base, bytes)
  {
    hide ReadU64, ReadRecords;
    assert bytes[0..] == bytes;
    var newLen, c1 :- ReadVarU64(bytes, 0);
    if newLen != |base| {
      return Err(InvalidPacket);
    }
    var count, cursor :- ReadVarU64(bytes, c1);
    r := PatchAllSparse(base, count, bytes, cursor);
  }

  method PatchAllSparse(base: Bytes, count: nat, bytes: Bytes, start: nat) returns (r: Result<Bytes>)
    requires start <= |bytes| && |base| <= MAX_LEN
    ensures r == ReadRecords(SparseLayout, base, 0, count, bytes[start..])
  {
    hide ReadRecord;
    var out := CopyOf(base, |base|);
    assert out[..] == base;
    ghost var target := ReadRecords(SparseLayout, base, 0, count, bytes[start..]);
    var previousIndex: nat, cursor: nat := 0, start;
    for n := 0 to count
      invariant cursor <= |bytes|
      invariant ReadRecords(SparseLayout, out[..], previousIndex, count - n, bytes[cursor..]) == target
    {
      ReadNext(SparseLayout, out[..], previousIndex, count - n, bytes[cursor..]);
      previousIndex, cursor :- PatchSparse(out, previousIndex, bytes, cursor);
    }
    r := if cursor == |bytes| then Ok(out[..]) else Err(InvalidPacket);
  }

  /** One turn of the range loop: returns the end of the range and the cursor behind the record. */
  method PatchRange(out: array<byte>, previousEnd: nat, bytes: Bytes, cursor: nat)
    returns (r: Result<nat>, next: nat)
    requires cursor <= |bytes| && out.Length < U64_LIMIT
    modifies out
    ensures next <= |bytes|
    ensures var p := ReadRecord(RangeLayout, old(out[..]), previousEnd, bytes[cursor..]);
            if r.Ok? then p == Ok(Patched(out[..], r.value, bytes[next..])) else p == Err(r.error)
  {
    hide ReadU64;
    var gap: nat, len: nat;
    gap, next :- ReadVarU64(bytes, cursor);
    len, next :- ReadVarU64(bytes, next);
    var start := previousEnd + gap;
    var end := start + len;
    var srcEnd := next + len;
    if start >= U64_LIMIT || end >= U64_LIMIT || srcEnd > |bytes| || end > out.Length {
      return Err(InvalidPacket), next;
    }
    var src := bytes[next..srcEnd];
    assert bytes[next..][..len] == src && bytes[next..][len..] == bytes[srcEnd..];
    CopyInto(out, start, src);
    next := srcEnd;
    r := Ok(end);
  }

  method ApplyRangesBytes(base: Bytes, bytes: Bytes) returns (r: Result<Bytes>)
    requires |base| <= MAX_LEN
    ensures r == ApplyPatches(RangeLayout, base, bytes)
  {
    hide ReadU64, ReadRecords;
    assert bytes[0..] == bytes;
    var newLen, c1 :- ReadVarU64(bytes, 0);
    if newLen != |base| {
      return Err(InvalidPacket);
    }
    var count, cursor :- ReadVarU64(bytes, c1);
    r := PatchAllRanges(base, count, bytes, cursor);
  }

  method PatchAllRanges(base: Bytes, count: nat, bytes: Bytes, start: nat) returns (r: Result<Bytes>)
    requires start <= |bytes| && |base| <= MAX_LEN
    ensures r == ReadRecords(RangeLayout, base, 0, count, bytes[start..])
  {
    hide ReadRecord;
    var out := CopyOf(base, |base|);
    assert out[..] == base;
    ghost var target := ReadRecords(RangeLayout, base, 0, count, bytes[start..]);
    var previousEnd: nat, cursor: nat := 0, start;
    for n := 0 to count
      invariant cursor <= |bytes|
      invariant ReadRecords(RangeLayout, out[..], previousEnd, count - n, bytes[cursor..]) == target
    {
      ReadNext(RangeLayout, out[..], previousEnd, count - n, bytes[cursor..]);
      previousEnd, cursor :- PatchRange(out, previousEnd, bytes, cursor);
    }
    r := if cursor == |bytes| then Ok(out[..]) else Err(InvalidPacket);
  }

  method ApplyXorBytes(base: Bytes, bytes: Bytes) returns (r: Result<Bytes>)
    ensures r == ApplyXor(base, bytes)
  {
    var len, cursor :- ReadVarU64(bytes, 0);
    assert bytes[0..] == bytes;
    if len != |base| || |bytes| - cursor != len {
      return Err(InvalidPacket);
    }
    r := Ok(Mask(base, bytes[cursor..]));
  }

  method ApplySpliceBytes(base: Bytes, bytes: Bytes) returns (r: Result<Bytes>)
    requires |bytes| <= MAX_LEN
    ensures r == ApplySplice(base, bytes)
  {
    hide ReadSplice;
    var h, cursor :- ReadSpliceHeader(bytes);
    if h.prefix > |base| || h.suffix > |base| - h.prefix {
      return Err(InvalidPacket);
    }
    var middleEnd := cursor + h.middleLen;
    if middleEnd >= U64_LIMIT || middleEnd > |bytes| {
      return Err(InvalidPacket);
    }
    var middle := bytes[cursor..middleEnd];
    if middleEnd != |bytes| {
      return Err(InvalidPacket);
    }
    assert middle == bytes[cursor..];
    var expectedLen := h.prefix + h.middleLen + h.suffix;
    if expectedLen >= U64_LIMIT || expectedLen != h.len {
      return Err(InvalidPacket);
    }
    var out := base[..h.prefix];
    out := out + middle;
    out := out + base[|base| - h.suffix..];
    r := Ok(out);
  }

  method ReadSpliceHeader(bytes: Bytes) returns (r: Result<SpliceHeader>, cursor: nat)
    ensures cursor <= |bytes|
    ensures if r.Ok? then ReadSplice(bytes) == Ok((r.value, bytes[cursor..])) && r.value.len < U64_LIMIT
            else ReadSplice(bytes) == Err(r.error)
  {
    hide ReadU64;
    assert bytes[0..] == bytes;
    var newLen, prefix, suffix, middleLen: nat;
    newLen, cursor :- ReadVarU64(bytes, 0);
    prefix, cursor :- ReadVarU64(bytes, cursor);
    suffix, cursor :- ReadVarU64(bytes, cursor);
    middleLen, cursor :- ReadVarU64(bytes, cursor);
    r := Ok(SpliceHeader(newLen, prefix, suffix, middleLen));
  }

  /** One turn of the chunk loop: returns the chunk number and the cursor behind the record. */
  method PatchChunk(out: array<byte>, layout: Layout, previousChunk: nat, bytes: Bytes, cursor: nat)
    returns (r: Result<nat>, next: nat)
    requires layout.ChunkLayout? && layout.size > 0
    requires cursor <= |bytes| && out.Length < U64_LIMIT
    modifies out
    ensures next <= |bytes|
    ensures var p := ReadRecord(layout, old(out[..]), previousChunk, bytes[cursor..]);
            if r.Ok? then p == Ok(Patched(out[..], r.value, bytes[next..])) else p == Err(r.error)
  {
    hide ReadU64;
    var delta: nat, len: nat;
    delta, next :- ReadVarU64(bytes, cursor);
    len, next :- ReadVarU64(bytes, next);
    var chunk := previousChunk + delta;
    var start := Start(layout, chunk);
    var end := start + len;
    var srcEnd := next + len;
    ChunkStart(layout, chunk);
    if chunk >= U64_LIMIT || start >= U64_LIMIT || end >= U64_LIMIT || srcEnd > |bytes| || end > out.Length {
      return Err(InvalidPacket), next;
    }
    var src := bytes[next..srcEnd];
    assert bytes[next..][..len] == src && bytes[next..][len..] == bytes[srcEnd..];
    CopyInto(out, start, src);
    next := srcEnd;
    r := Ok(chunk);
  }

  lemma ChunkStart(layout: Layout, chunk: nat)
    requires layout.ChunkLayout? && layout.size > 0
    ensures chunk <= Start(layout, chunk)
  {
  }

  method ApplyChunksBytes(base: Bytes, bytes: Bytes) returns (r: Result<Bytes>)
    ensures r == ApplyChunks(base, bytes)
  {
    hide ReadU64, ReadRecords;
    assert bytes[0..] == bytes;
    var newLen, c1 :- ReadVarU64(bytes, 0);
    var chunkSize, c2 :- ReadVarU64(bytes, c1);
    if chunkSize == 0 {
      return Err(InvalidPacket);
    }
    var count, cursor :- ReadVarU64(bytes, c2);
    r := PatchAllChunks(base, newLen, ChunkLayout(chunkSize), count, bytes, cursor);
  }

  method PatchAllChunks(base: Bytes, len: nat, layout: Layout, count: nat, bytes: Bytes, start: nat)
    returns (r: Result<Bytes>)
    requires start <= |bytes| && len < U64_LIMIT && layout.ChunkLayout? && layout.size > 0
    ensures r == ReadRecords(layout, Resize(base, len), 0, count, bytes[start..])
  {
    hide ReadRecord;
    var out := CopyOf(base, len);
    ghost var target := ReadRecords(layout, out[..], 0, count, bytes[start..]);
    var previousChunk: nat, cursor: nat := 0, start;
    for n := 0 to count
      invariant cursor <= |bytes|
      invariant ReadRecords(layout, out[..], previousChunk, count - n, bytes[cursor..]) == target
    {
      ReadNext(layout, out[..], previousChunk, count - n, bytes[cursor..]);
      previousChunk, cursor :- PatchChunk(out, layout, previousChunk, bytes, cursor);
    }
    r := if cursor == |bytes| then Ok(out[..]) else Err(InvalidPacket);
  }

  method ApplyBytes(base: Bytes, payload: Bytes) returns (r: Result<Bytes>)
    requires |base| <= MAX_LEN && |payload| <= MAX_LEN
    ensures r == Apply(base, payload)
  {
    hide ApplyPatches, ApplyXor, ApplySplice, ApplyChunks;
    if payload == [] {
      return Err(InvalidPacket);
    }
    var tag, rest := payload[0], payload[1..];
    if tag == TAG_SPARSE {
      r := ApplySparseBytes(base, rest);
    } else if tag == TAG_RANGES {
      r := ApplyRangesBytes(base, rest);
    } else if tag == TAG_XOR {
      r := ApplyXorBytes(base, rest);
    } else if tag == TAG_SPLICE {
      r := ApplySpliceBytes(base, rest);
    } else if tag == TAG_CHUNKS {
      r := ApplyChunksBytes(base, rest);
    } else {
      r := Err(InvalidPacket);
    }
  }
}
