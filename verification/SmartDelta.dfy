/**
  The five byte-diff strategies: what each encoder writes, what each applier makes of a payload, and
  why the second undoes the first.
  */
module SmartDelta {
  import opened Core
  import opened Varint
  import opened DeltaRecords
  import opened RangeGrouping

  datatype Kind = Sparse | Ranges | Xor | Splice | Chunks

  datatype Policy = Policy(chunkSize: u64, maxRangeGap: u64)

  const TAG_SPARSE: byte := 1
  const TAG_RANGES: byte := 2
  const TAG_XOR: byte := 3
  const TAG_SPLICE: byte := 4
  const TAG_CHUNKS: byte := 5

  /** The strategies that a pair of states admits: three of them need equal lengths. */
  predicate Legal(kind: Kind, previous: Bytes, current: Bytes) {
    kind.Splice? || kind.Chunks? || |previous| == |current|
  }

  // ---------------------------------------------------------------- encoding

  /** One record for every changed byte from `i` on. */
  function SparseRecords(previous: Bytes, current: Bytes, i: nat): (records: seq<Record>)
    requires |previous| == |current| && i <= |current|
    ensures records != [] ==> i <= records[0].key
    decreases |current| - i
  {
    if i == |current| then []
    else
      var rest := SparseRecords(previous, current, i + 1);
      if previous[i] != current[i] then [Record(i, [current[i]])] + rest else rest
  }

  /** One record for every range. */
  function RangeRecords(current: Bytes, ranges: seq<Range>): (records: seq<Record>)
    requires forall n | 0 <= n < |ranges| :: ranges[n].start <= ranges[n].end <= |current|
    ensures |records| == |ranges|
    ensures forall n | 0 <= n < |ranges| ::
              records[n] == Record(ranges[n].start, current[ranges[n].start..ranges[n].end])
  {
    seq(|ranges|, n requires 0 <= n < |ranges| =>
      Record(ranges[n].start, current[ranges[n].start..ranges[n].end]))
  }

  function GroupedRecords(previous: Bytes, current: Bytes, gap: nat): seq<Record>
    requires |previous| == |current|
  {
    GroupBounds(previous, current, gap);
    RangeRecords(current, Group(previous, current, gap, 0))
  }

  /** Whether the receiver's bytes at `start..end` exist and are the wanted ones. */
  predicate HasChunk(previous: Bytes, current: Bytes, start: nat, end: nat)
    requires start <= end <= |current|
  {
    end <= |previous| && previous[start..end] == current[start..end]
  }

  /** One record for every chunk from number `k`, which begins at `start`, that differs. */
  function ChunkRecords(previous: Bytes, current: Bytes, size: nat, k: nat, start: nat): (records: seq<Record>)
    requires size >= 1
    ensures records != [] ==> k <= records[0].key
    decreases |current| - start
  {
    if start >= |current| then []
    else
      var end := Min(start + size, |current|);
      var rest := ChunkRecords(previous, current, size, k + 1, start + size);
      if HasChunk(previous, current, start, end) then rest else [Record(k, current[start..end])] + rest
  }

  /** How many leading bytes agree, counting from `i`. */
  function CommonPrefix(previous: Bytes, current: Bytes, i: nat): (n: nat)
    requires i <= |previous| && i <= |current|
    ensures i <= n <= |previous| && n <= |current|
    ensures previous[i..n] == current[i..n]
    ensures n < |previous| && n < |current| ==> previous[n] != current[n]
    decreases |current| - i
  {
    if i < |previous| && i < |current| && previous[i] == current[i]
    then CommonPrefix(previous, current, i + 1)
    else i
  }

  /** How many trailing bytes agree, at most `limit`, counting from `i`. */
  function CommonSuffix(previous: Bytes, current: Bytes, limit: nat, i: nat): (n: nat)
    requires i <= limit <= |previous| && limit <= |current|
    ensures i <= n <= limit
    ensures previous[|previous| - n..|previous| - i] == current[|current| - n..|current| - i]
    ensures n < limit ==> previous[|previous| - 1 - n] != current[|current| - 1 - n]
    decreases limit - i
  {
    var p, c := |previous| - 1 - i, |current| - 1 - i;
    if i < limit && previous[p] == current[c] then
      var n := CommonSuffix(previous, current, limit, i + 1);
      assert previous[|previous| - n..|previous| - i] == previous[|previous| - n..p] + [previous[p]];
      assert current[|current| - n..|current| - i] == current[|current| - n..c] + [current[c]];
      n
    else i
  }

  function SplicePrefix(previous: Bytes, current: Bytes): (n: nat)
    ensures n <= |previous| && n <= |current| && previous[..n] == current[..n]
  {
    var n := CommonPrefix(previous, current, 0);
    assert previous[..n] == previous[0..n] && current[..n] == current[0..n];
    n
  }

  function SpliceSuffix(previous: Bytes, current: Bytes): (n: nat)
    ensures SplicePrefix(previous, current) + n <= |previous|
    ensures SplicePrefix(previous, current) + n <= |current|
    ensures previous[|previous| - n..] == current[|current| - n..]
  {
    var limit := Min(|previous|, |current|) - SplicePrefix(previous, current);
    var n := CommonSuffix(previous, current, limit, 0);
    assert previous[|previous| - n..] == previous[|previous| - n..|previous| - 0];
    assert current[|current| - n..] == current[|current| - n..|current| - 0];
    n
  }

  function SpliceMiddle(previous: Bytes, current: Bytes): Bytes {
    current[SplicePrefix(previous, current)..|current| - SpliceSuffix(previous, current)]
  }

  function EncodeRecords(tag: byte, layout: Layout, len: nat, records: seq<Record>): Bytes {
    [tag] +
    (Put(len) +
     ((if layout.ChunkLayout? then Put(layout.size) else []) +
      (Put(|records|) + PutRecords(layout, 0, records))))
  }

  /** The same bytes in the order in which a writer appends them. */
  lemma EncodeRecordsFlat(tag: byte, layout: Layout, len: nat, records: seq<Record>)
    ensures EncodeRecords(tag, layout, len, records) ==
            (if layout.ChunkLayout? then [tag] + Put(len) + Put(layout.size) else [tag] + Put(len))
            + Put(|records|) + PutRecords(layout, 0, records)
  {
    var count, body := Put(|records|), PutRecords(layout, 0, records);
    if layout.ChunkLayout? {
      var size := Put(layout.size);
      Associative([tag], Put(len), size + (count + body));
      Associative([tag] + Put(len), size, count + body);
      Associative([tag] + Put(len) + size, count, body);
    } else {
      assert [] + (count + body) == count + body;
      Associative([tag], Put(len), count + body);
      Associative([tag] + Put(len), count, body);
    }
  }

  function EncodeSparse(previous: Bytes, current: Bytes): Bytes
    requires |previous| == |current|
  {
    EncodeRecords(TAG_SPARSE, SparseLayout, |current|, SparseRecords(previous, current, 0))
  }

  function EncodeRanges(previous: Bytes, current: Bytes, gap: nat): Bytes
    requires |previous| == |current|
  {
    EncodeRecords(TAG_RANGES, RangeLayout, |current|, GroupedRecords(previous, current, gap))
  }

  function EncodeXor(previous: Bytes, current: Bytes): Bytes
    requires |previous| == |current|
  {
    [TAG_XOR] + (Put(|current|) + Mask(previous, current))
  }

  function Mask(a: Bytes, b: Bytes): (r: Bytes)
    requires |a| == |b|
  {
    seq(|a|, i requires 0 <= i < |a| => XorByte(a[i], b[i]))
  }

  function SpliceHeaderOf(previous: Bytes, current: Bytes): SpliceHeader {
    SpliceHeader(|current|, SplicePrefix(previous, current), SpliceSuffix(previous, current),
                 |SpliceMiddle(previous, current)|)
  }

  function EncodeSplice(previous: Bytes, current: Bytes): Bytes {
    [TAG_SPLICE] + PutSplice(SpliceHeaderOf(previous, current), SpliceMiddle(previous, current))
  }

  function EncodeChunks(previous: Bytes, current: Bytes, size: nat): Bytes
    requires size >= 1
  {
    EncodeRecords(TAG_CHUNKS, ChunkLayout(size), |current|, ChunkRecords(previous, current, size, 0, 0))
  }

  function Encode(kind: Kind, previous: Bytes, current: Bytes, policy: Policy): Bytes
    requires Legal(kind, previous, current)
  {
    match kind
    case Sparse => EncodeSparse(previous, current)
    case Ranges => EncodeRanges(previous, current, policy.maxRangeGap)
    case Xor => EncodeXor(previous, current)
    case Splice => EncodeSplice(previous, current)
    case Chunks => EncodeChunks(previous, current, Max(1, policy.chunkSize))
  }

  // ---------------------------------------------------------------- applying

  function Resize(base: Bytes, len: nat): (r: Bytes)
    ensures |r| == len
  {
    if len <= |base| then base[..len] else base + seq(len - |base|, _ => 0)
  }

  /** Sparse and range deltas: the stated length must be the receiver's own. */
  function ApplyPatches(layout: Layout, base: Bytes, b: Bytes): Result<Bytes>
    requires !layout.ChunkLayout?
  {
    var (len, b1) :- ReadU64(b);
    if len != |base| then Err(InvalidPacket)
    else
      var (count, b2) :- ReadU64(b1);
      ReadRecords(layout, base, 0, count, b2)
  }

  function ApplyXor(base: Bytes, b: Bytes): Result<Bytes> {
    var (len, b1) :- ReadU64(b);
    if len != |base| || |b1| != len then Err(InvalidPacket) else Ok(Mask(base, b1))
  }

  datatype SpliceHeader = SpliceHeader(len: nat, prefix: nat, suffix: nat, middleLen: nat)

  function PutSplice(h: SpliceHeader, middle: Bytes): Bytes {
    Put(h.len) + (Put(h.prefix) + (Put(h.suffix) + (Put(h.middleLen) + middle)))
  }

  function ReadSplice(b: Bytes): Result<(SpliceHeader, Bytes)> {
    var (len, b1) :- ReadU64(b);
    var (prefix, b2) :- ReadU64(b1);
    var (suffix, b3) :- ReadU64(b2);
    var (middleLen, middle) :- ReadU64(b3);
    Ok((SpliceHeader(len, prefix, suffix, middleLen), middle))
  }

  function ApplySplice(base: Bytes, b: Bytes): Result<Bytes> {
    var (h, middle) :- ReadSplice(b);
    if || h.prefix + h.suffix > |base|
       || |middle| != h.middleLen
       || h.prefix + h.middleLen + h.suffix != h.len
    then Err(InvalidPacket)
    else Ok(base[..h.prefix] + middle + base[|base| - h.suffix..])
  }

  function ApplyChunks(base: Bytes, b: Bytes): Result<Bytes> {
    var (len, b1) :- ReadU64(b);
    var (size, b2) :- ReadU64(b1);
    if size == 0 then Err(InvalidPacket)
    else
      var (count, b3) :- ReadU64(b2);
      ReadRecords(ChunkLayout(size), Resize(base, len), 0, count, b3)
  }

  function ApplyTagged(base: Bytes, tag: byte, b: Bytes): Result<Bytes> {
    if tag == TAG_SPARSE then ApplyPatches(SparseLayout, base, b)
    else if tag == TAG_RANGES then ApplyPatches(RangeLayout, base, b)
    else if tag == TAG_XOR then ApplyXor(base, b)
    else if tag == TAG_SPLICE then ApplySplice(base, b)
    else if tag == TAG_CHUNKS then ApplyChunks(base, b)
    else Err(InvalidPacket)
  }

  function Apply(base: Bytes, payload: Bytes): Result<Bytes> {
    if payload == [] then Err(InvalidPacket) else ApplyTagged(base, payload[0], payload[1..])
  }

  lemma ApplyStripsSplice(base: Bytes, b: Bytes)
    ensures Apply(base, [TAG_SPLICE] + b) == ApplySplice(base, b)
  {
    Split([TAG_SPLICE], b);
  }

  lemma ApplyStripsChunks(base: Bytes, b: Bytes)
    ensures Apply(base, [TAG_CHUNKS] + b) == ApplyChunks(base, b)
  {
    Split([TAG_CHUNKS], b);
  }

  // ---------------------------------------------------------------- the records repair

  lemma {:induction false} SparseAscends(previous: Bytes, current: Bytes, i: nat, prev: nat)
    requires |previous| == |current| && prev <= i <= |current|
    ensures Ascending(SparseLayout, prev, i, |current|, SparseRecords(previous, current, i))
    decreases |current| - i
  {
    if i < |current| {
      var rest := SparseRecords(previous, current, i + 1);
      if previous[i] != current[i] {
        SparseAscends(previous, current, i + 1, i);
        assert SparseRecords(previous, current, i)[1..] == rest;
      } else {
        SparseAscends(previous, current, i + 1, prev);
        AscendingFrom(SparseLayout, prev, i + 1, i, |current|, rest);
      }
    }
  }

  lemma AscendingFrom(layout: Layout, prev: nat, pos: nat, pos': nat, limit: nat, records: seq<Record>)
    requires pos' <= pos && Ascending(layout, prev, pos, limit, records)
    ensures Ascending(layout, prev, pos', limit, records)
  {
  }

  lemma AscendingCons(layout: Layout, prev: nat, pos: nat, limit: nat, r: Record, tail: seq<Record>)
    requires prev <= r.key <= Start(layout, r.key)
    requires pos <= Start(layout, r.key) < End(layout, r) <= limit
    requires layout.SparseLayout? ==> |r.data| == 1
    requires tail != [] ==> Following(layout, r) < tail[0].key
    requires Ascending(layout, Following(layout, r), End(layout, r), limit, tail)
    ensures Ascending(layout, prev, pos, limit, [r] + tail)
  {
    hide Start;
    assert ([r] + tail)[1..] == tail;
  }

  lemma {:induction false} SparseRepairs(previous: Bytes, current: Bytes, i: nat)
    requires |previous| == |current| && i <= |current|
    ensures Repairs(SparseLayout, SparseRecords(previous, current, i),
                    current[..i] + previous[i..], current)
    decreases |current| - i
  {
    var out := current[..i] + previous[i..];
    if i < |current| {
      hide Repairs;
      SparseRepairs(previous, current, i + 1);
      var out' := current[..i + 1] + previous[i + 1..];
      if previous[i] != current[i] {
        var r := Record(i, [current[i]]);
        assert Overwrite(out, i, r.data) == out';
        RepairsExtend(SparseLayout, r, SparseRecords(previous, current, i + 1), out, current);
      } else {
        assert out == out';
      }
    }
  }

  lemma {:induction false} RangesAscend(current: Bytes, ranges: seq<Range>, prev: nat)
    requires forall n | 0 <= n < |ranges| :: ranges[n].start < ranges[n].end <= |current|
    requires ranges != [] ==> prev <= ranges[0].start
    requires Apart(0, ranges)
    ensures Ascending(RangeLayout, prev, prev, |current|, RangeRecords(current, ranges))
    decreases |ranges|
  {
    if ranges != [] {
      var tail := ranges[1..];
      assert forall n | 0 <= n < |tail| :: tail[n] == ranges[n + 1];
      RangesAscend(current, tail, ranges[0].end);
      assert RangeRecords(current, ranges)[1..] == RangeRecords(current, tail);
    }
  }

  lemma GroupedAscend(previous: Bytes, current: Bytes, gap: nat)
    requires |previous| == |current|
    ensures Ascending(RangeLayout, 0, 0, |current|, GroupedRecords(previous, current, gap))
  {
    hide Group;
    GroupBounds(previous, current, gap);
    RangesAscend(current, Group(previous, current, gap, 0), 0);
  }

  lemma GroupedRepair(previous: Bytes, current: Bytes, gap: nat)
    requires |previous| == |current|
    ensures Repairs(RangeLayout, GroupedRecords(previous, current, gap), previous, current)
  {
    hide Group, Apart, AllTight, Canonical;
    var ranges, records := Group(previous, current, gap, 0), GroupedRecords(previous, current, gap);
    GroupBounds(previous, current, gap);
    assert forall n | 0 <= n < |records| :: RecordHolds(RangeLayout, records[n], current);
    forall i | 0 <= i < |current| && previous[i] != current[i]
      ensures Reached(RangeLayout, records, i)
    {
      assert Inside(ranges, i);
      var n :| 0 <= n < |ranges| && ranges[n].start <= i < ranges[n].end;
      assert Touches(RangeLayout, records[n], i);
    }
  }

  lemma NextStart(k: nat, size: nat)
    requires size >= 1
    ensures var layout := ChunkLayout(size);
            k <= Start(layout, k) && Start(layout, k + 1) == Start(layout, k) + size
    ensures Start(ChunkLayout(size), 0) == 0
  {
  }

  lemma {:induction false} ChunksAscend(previous: Bytes, current: Bytes, size: nat, k: nat, start: nat, prev: nat)
    requires size >= 1 && start == Start(ChunkLayout(size), k) && prev <= k
    ensures Ascending(ChunkLayout(size), prev, start, |current|, ChunkRecords(previous, current, size, k, start))
    decreases |current| - start
  {
    if start < |current| {
      hide *;
      NextStart(k, size);
      ChunksAscend(previous, current, size, k + 1, start + size, prev);
      ChunksAscend(previous, current, size, k + 1, start + size, k);
      OneChunkAscends(previous, current, size, k, start, prev);
    }
  }

  lemma OneChunkAscends(previous: Bytes, current: Bytes, size: nat, k: nat, start: nat, prev: nat)
    requires size >= 1 && k <= start == Start(ChunkLayout(size), k) < |current| && prev <= k
    requires var rest := ChunkRecords(previous, current, size, k + 1, start + size);
             && Ascending(ChunkLayout(size), prev, start + size, |current|, rest)
             && Ascending(ChunkLayout(size), k, start + size, |current|, rest)
    ensures Ascending(ChunkLayout(size), prev, start, |current|, ChunkRecords(previous, current, size, k, start))
  {
    hide HasChunk, Start, Ascending;
    var layout, end := ChunkLayout(size), Min(start + size, |current|);
    var rest := ChunkRecords(previous, current, size, k + 1, start + size);
    if HasChunk(previous, current, start, end) {
      AscendingFrom(layout, prev, start + size, start, |current|, rest);
    } else {
      AscendingFrom(layout, k, start + size, end, |current|, rest);
      AscendingCons(layout, prev, start, |current|, Record(k, current[start..end]), rest);
    }
  }

  lemma {:induction false} ChunksRepair(previous: Bytes, current: Bytes, size: nat, k: nat, start: nat)
    requires size >= 1 && start == Start(ChunkLayout(size), k)
    ensures Repairs(ChunkLayout(size), ChunkRecords(previous, current, size, k, start),
                    Progress(previous, current, Min(start, |current|)), current)
    decreases |current| - start
  {
    if start >= |current| {
      hide Progress, Repairs;
      NothingLeft(previous, current, size);
    } else {
      hide *;
      NextStart(k, size);
      ChunksRepair(previous, current, size, k + 1, start + size);
      OneChunkRepairs(previous, current, size, k, start);
    }
  }

  lemma OneChunkRepairs(previous: Bytes, current: Bytes, size: nat, k: nat, start: nat)
    requires size >= 1 && start == Start(ChunkLayout(size), k) < |current|
    requires Repairs(ChunkLayout(size), ChunkRecords(previous, current, size, k + 1, start + size),
                     Progress(previous, current, Min(start + size, |current|)), current)
    ensures Repairs(ChunkLayout(size), ChunkRecords(previous, current, size, k, start),
                    Progress(previous, current, Min(start, |current|)), current)
  {
    hide Repairs, Progress, HasChunk, Start;
    var end := Min(start + size, |current|);
    if HasChunk(previous, current, start, end) {
      CleanChunk(previous, current, start, end);
    } else {
      DirtyChunk(previous, current, size, k, end, ChunkRecords(previous, current, size, k + 1, start + size));
    }
  }

  lemma NothingLeft(previous: Bytes, current: Bytes, size: nat)
    ensures Repairs(ChunkLayout(size), [], Progress(previous, current, |current|), current)
  {
  }

  /** What the buffer holds once the first `done` bytes have been dealt with. */
  function Progress(previous: Bytes, current: Bytes, done: nat): (out: Bytes)
    requires done <= |current|
    ensures |out| == |current|
  {
    current[..done] + Resize(previous, |current|)[done..]
  }

  lemma CleanChunk(previous: Bytes, current: Bytes, start: nat, end: nat)
    requires start <= end <= |current| && HasChunk(previous, current, start, end)
    ensures Progress(previous, current, start) == Progress(previous, current, end)
  {
    forall i | start <= i < end ensures Resize(previous, |current|)[i] == current[i] {
      assert previous[start..end][i - start] == current[start..end][i - start];
    }
  }

  lemma DirtyChunk(previous: Bytes, current: Bytes, size: nat, k: nat, end: nat, rest: seq<Record>)
    requires Start(ChunkLayout(size), k) <= end <= |current|
    requires Repairs(ChunkLayout(size), rest, Progress(previous, current, end), current)
    ensures var start := Start(ChunkLayout(size), k);
            Repairs(ChunkLayout(size), [Record(k, current[start..end])] + rest,
                    Progress(previous, current, start), current)
  {
    hide Start, Repairs;
    var start := Start(ChunkLayout(size), k);
    var r := Record(k, current[start..end]);
    var out := Progress(previous, current, start);
    assert Overwrite(out, start, r.data) == Progress(previous, current, end);
    RepairsExtend(ChunkLayout(size), r, rest, out, current);
  }

  // ---------------------------------------------------------------- round trips

  lemma SparseRoundTrip(previous: Bytes, current: Bytes)
    requires |previous| == |current| <= MAX_LEN
    ensures Apply(previous, EncodeSparse(previous, current)) == Ok(current)
  {
    var records := SparseRecords(previous, current, 0);
    SparseAscends(previous, current, 0, 0);
    SparseRepairs(previous, current, 0);
    assert current[..0] + previous[0..] == previous;
    PatchesRoundTrip(TAG_SPARSE, SparseLayout, previous, current, records);
  }

  lemma RangesRoundTrip(previous: Bytes, current: Bytes, gap: nat)
    requires |previous| == |current| <= MAX_LEN
    ensures Apply(previous, EncodeRanges(previous, current, gap)) == Ok(current)
  {
    hide GroupedRecords, ReadU64, ReadRecords;
    GroupedAscend(previous, current, gap);
    GroupedRepair(previous, current, gap);
    PatchesRoundTrip(TAG_RANGES, RangeLayout, previous, current, GroupedRecords(previous, current, gap));
  }

  lemma PatchesRoundTrip(tag: byte, layout: Layout, previous: Bytes, current: Bytes, records: seq<Record>)
    requires |previous| == |current| <= MAX_LEN && !layout.ChunkLayout?
    requires Ascending(layout, 0, 0, |current|, records)
    requires Repairs(layout, records, previous, current)
    ensures ApplyPatches(layout, previous, EncodeRecords(tag, layout, |current|, records)[1..]) == Ok(current)
  {
    hide ReadRecords, PutRecords, Put, ReadU64, Repairs;
    var body := Put(|records|) + PutRecords(layout, 0, records);
    RecordsAreShort(layout, 0, 0, |current|, records);
    assert [] + body == body;
    Split([tag], Put(|current|) + body);
    ReadPutU64(|current|, body);
    ReadPutU64(|records|, PutRecords(layout, 0, records));
    ReadPutRecords(layout, previous, 0, 0, records, current);
  }

  lemma XorRoundTrip(previous: Bytes, current: Bytes)
    requires |previous| == |current| <= MAX_LEN
    ensures Apply(previous, EncodeXor(previous, current)) == Ok(current)
  {
    var mask := Mask(previous, current);
    Split([TAG_XOR], Put(|current|) + mask);
    ReadPutU64(|current|, mask);
    forall i | 0 <= i < |current| ensures Mask(previous, mask)[i] == current[i] {
      XorCancels(previous[i], current[i]);
    }
    assert Mask(previous, mask) == current;
  }

  lemma ReadPutSplice(h: SpliceHeader, middle: Bytes)
    requires h.len < U64_LIMIT && h.prefix < U64_LIMIT && h.suffix < U64_LIMIT && h.middleLen < U64_LIMIT
    ensures ReadSplice(PutSplice(h, middle)) == Ok((h, middle))
  {
    hide Put, ReadU64;
    var b3 := Put(h.middleLen) + middle;
    var b2 := Put(h.suffix) + b3;
    var b1 := Put(h.prefix) + b2;
    ReadPutU64(h.len, b1);
    ReadPutU64(h.prefix, b2);
    ReadPutU64(h.suffix, b3);
    ReadPutU64(h.middleLen, middle);
  }

  lemma SpliceRoundTrip(previous: Bytes, current: Bytes)
    requires |previous| <= MAX_LEN && |current| <= MAX_LEN
    ensures Apply(previous, EncodeSplice(previous, current)) == Ok(current)
  {
    hide ApplySplice, PutSplice, SpliceHeaderOf, SpliceMiddle, Apply;
    SpliceApplies(previous, current, SpliceHeaderOf(previous, current), SpliceMiddle(previous, current));
    ApplyStripsSplice(previous, PutSplice(SpliceHeaderOf(previous, current), SpliceMiddle(previous, current)));
  }

  lemma SpliceApplies(previous: Bytes, current: Bytes, h: SpliceHeader, middle: Bytes)
    requires |previous| <= MAX_LEN && |current| <= MAX_LEN
    requires h == SpliceHeaderOf(previous, current) && middle == SpliceMiddle(previous, current)
    ensures ApplySplice(previous, PutSplice(h, middle)) == Ok(current)
  {
    hide PutSplice, ReadSplice, ApplySplice, SplicePrefix, SpliceSuffix;
    ReadPutSplice(h, middle);
    SpliceReassembles(previous, current);
    ApplySpliceTo(previous, h, middle, PutSplice(h, middle));
  }

  lemma ApplySpliceTo(base: Bytes, h: SpliceHeader, middle: Bytes, b: Bytes)
    requires ReadSplice(b) == Ok((h, middle))
    requires h.prefix + h.suffix <= |base| && |middle| == h.middleLen
    requires h.len == h.prefix + h.middleLen + h.suffix
    ensures ApplySplice(base, b) == Ok(base[..h.prefix] + middle + base[|base| - h.suffix..])
  {
    hide ReadSplice;
  }

  lemma SpliceReassembles(previous: Bytes, current: Bytes)
    ensures current == previous[..SplicePrefix(previous, current)] + SpliceMiddle(previous, current)
                       + previous[|previous| - SpliceSuffix(previous, current)..]
  {
    var prefix, suffix := SplicePrefix(previous, current), SpliceSuffix(previous, current);
    assert current == current[..prefix] + current[prefix..|current| - suffix] + current[|current| - suffix..];
  }

  lemma ReadChunkHeader(len: nat, size: nat, count: nat, rest: Bytes)
    requires len < U64_LIMIT && size < U64_LIMIT && count < U64_LIMIT
    ensures var b1 := Put(size) + (Put(count) + rest);
            && ReadU64(Put(len) + b1) == Ok((len, b1))
            && ReadU64(b1) == Ok((size, Put(count) + rest))
            && ReadU64(Put(count) + rest) == Ok((count, rest))
  {
    hide Put, ReadU64;
    ReadPutU64(len, Put(size) + (Put(count) + rest));
    ReadPutU64(size, Put(count) + rest);
    ReadPutU64(count, rest);
  }

  lemma ChunksRoundTrip(previous: Bytes, current: Bytes, size: nat)
    requires |previous| <= MAX_LEN && |current| <= MAX_LEN && 1 <= size < U64_LIMIT
    ensures Apply(previous, EncodeChunks(previous, current, size)) == Ok(current)
  {
    var records := ChunkRecords(previous, current, size, 0, 0);
    var b := Put(|current|) + (Put(size) + (Put(|records|) + PutRecords(ChunkLayout(size), 0, records)));
    assert ApplyChunks(previous, b) == Ok(current) by {
      NextStart(0, size);
      ChunksAscend(previous, current, size, 0, 0, 0);
      ChunksRepair(previous, current, size, 0, 0);
      assert Progress(previous, current, 0) == Resize(previous, |current|);
      ChunkRecordsRoundTrip(previous, current, size, records);
    }
    ApplyStripsChunks(previous, b);
  }

  lemma ChunkRecordsRoundTrip(previous: Bytes, current: Bytes, size: nat, records: seq<Record>)
    requires |current| <= MAX_LEN && 1 <= size < U64_LIMIT
    requires Ascending(ChunkLayout(size), 0, 0, |current|, records)
    requires Repairs(ChunkLayout(size), records, Resize(previous, |current|), current)
    ensures var b := PutRecords(ChunkLayout(size), 0, records);
            ApplyChunks(previous, Put(|current|) + (Put(size) + (Put(|records|) + b))) == Ok(current)
  {
    RecordsAreShort(ChunkLayout(size), 0, 0, |current|, records);
    ReadChunkHeader(|current|, size, |records|, PutRecords(ChunkLayout(size), 0, records));
    ReadPutRecords(ChunkLayout(size), Resize(previous, |current|), 0, 0, records, current);
  }

  /** Every strategy that is legal for the lengths reproduces the new state from the old one. */
  lemma RoundTrip(kind: Kind, previous: Bytes, current: Bytes, policy: Policy)
    requires Legal(kind, previous, current)
    requires |previous| <= MAX_LEN && |current| <= MAX_LEN
    ensures Apply(previous, Encode(kind, previous, current, policy)) == Ok(current)
  {
    match kind
    case Sparse => SparseRoundTrip(previous, current);
    case Ranges => RangesRoundTrip(previous, current, policy.maxRangeGap);
    case Xor => XorRoundTrip(previous, current);
    case Splice => SpliceRoundTrip(previous, current);
    case Chunks => ChunksRoundTrip(previous, current, Max(1, policy.chunkSize));
  }

  // ---------------------------------------------------------------- optimality and size

  lemma {:induction false} PrefixIsLongest(previous: Bytes, current: Bytes, i: nat, n: nat)
    requires i <= n <= |previous| && n <= |current| && previous[..n] == current[..n]
    ensures CommonPrefix(previous, current, i) >= n
    decreases n - i
  {
    if i < n {
      assert previous[..n][i] == current[..n][i];
      PrefixIsLongest(previous, current, i + 1, n);
    }
  }

  lemma {:induction false} SuffixIsLongest(previous: Bytes, current: Bytes, limit: nat, i: nat, n: nat)
    requires i <= limit <= |previous| && limit <= |current|
    requires i <= n <= |previous| && n <= |current|
    requires previous[|previous| - n..] == current[|current| - n..]
    ensures CommonSuffix(previous, current, limit, i) >= Min(n, limit)
    decreases limit - i
  {
    if i < Min(n, limit) {
      assert previous[|previous| - n..][n - 1 - i] == current[|current| - n..][n - 1 - i];
      SuffixIsLongest(previous, current, limit, i + 1, n);
    }
  }

  /** No splice payload that produces `current` from `previous` carries a shorter middle. */
  lemma SpliceIsOptimal(previous: Bytes, current: Bytes, payload: Bytes)
    requires payload != [] && payload[0] == TAG_SPLICE
    requires Apply(previous, payload) == Ok(current)
    ensures ReadSplice(payload[1..]).Ok?
    ensures |SpliceMiddle(previous, current)| <= |ReadSplice(payload[1..]).value.1|
  {
    assert Apply(previous, payload) == ApplySplice(previous, payload[1..]);
    hide Apply, ReadSplice, SpliceMiddle;
    var (h, middle) := ReadSplice(payload[1..]).value;
    SharedEnds(previous, h.prefix, middle, h.suffix);
    MiddleIsShortest(previous, current, h.prefix, h.suffix);
  }

  lemma SharedEnds(base: Bytes, prefix: nat, middle: Bytes, suffix: nat)
    requires prefix + suffix <= |base|
    ensures var out := base[..prefix] + middle + base[|base| - suffix..];
            && |out| == prefix + |middle| + suffix
            && out[..prefix] == base[..prefix]
            && out[|out| - suffix..] == base[|base| - suffix..]
  {
  }

  lemma MiddleIsShortest(previous: Bytes, current: Bytes, prefix: nat, suffix: nat)
    requires prefix + suffix <= |previous| && prefix + suffix <= |current|
    requires current[..prefix] == previous[..prefix]
    requires current[|current| - suffix..] == previous[|previous| - suffix..]
    ensures |SpliceMiddle(previous, current)| <= |current| - prefix - suffix
  {
    var limit := Min(|previous|, |current|) - SplicePrefix(previous, current);
    PrefixIsLongest(previous, current, 0, prefix);
    SuffixIsLongest(previous, current, limit, 0, suffix);
  }

  /** A payload is never much more than three times the state it describes. */
  lemma PayloadIsShort(kind: Kind, previous: Bytes, current: Bytes, policy: Policy)
    requires Legal(kind, previous, current)
    requires |previous| <= MAX_LEN && |current| <= MAX_LEN
    ensures |Encode(kind, previous, current, policy)| <= 3 * |current| + 64
  {
    match kind
    case Sparse =>
      SparseAscends(previous, current, 0, 0);
      RecordsPayloadIsShort(TAG_SPARSE, SparseLayout, |current|, SparseRecords(previous, current, 0));
    case Ranges =>
      GroupedAscend(previous, current, policy.maxRangeGap);
      RecordsPayloadIsShort(TAG_RANGES, RangeLayout, |current|,
                            GroupedRecords(previous, current, policy.maxRangeGap));
    case Xor => HeaderIsShort(|current|);
    case Splice =>
      HeaderIsShort(|current|);
      HeaderIsShort(SplicePrefix(previous, current));
      HeaderIsShort(SpliceSuffix(previous, current));
      HeaderIsShort(|SpliceMiddle(previous, current)|);
    case Chunks =>
      var size := Max(1, policy.chunkSize);
      NextStart(0, size);
      ChunksAscend(previous, current, size, 0, 0, 0);
      RecordsPayloadIsShort(TAG_CHUNKS, ChunkLayout(size), |current|,
                            ChunkRecords(previous, current, size, 0, 0));
  }

  lemma RecordsPayloadIsShort(tag: byte, layout: Layout, len: nat, records: seq<Record>)
    requires len <= MAX_LEN && (layout.ChunkLayout? ==> layout.size < U64_LIMIT)
    requires Ascending(layout, 0, 0, len, records)
    ensures |EncodeRecords(tag, layout, len, records)| <= 3 * len + 64
  {
    RecordsAreShort(layout, 0, 0, len, records);
    HeaderIsShort(len);
    HeaderIsShort(|records|);
    if layout.ChunkLayout? {
      HeaderIsShort(layout.size);
    }
  }

  lemma HeaderIsShort(n: nat)
    requires n < U64_LIMIT
    ensures |Put(n)| <= 10
  {
    Pow2Of64();
    Pow2Add(64, 6);
    PutLength(n, 10);
  }
}
