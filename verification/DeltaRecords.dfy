/**
  The record lists inside sparse, range and chunk deltas.  The three share one shape, a list of
  records that overwrite parts of a buffer, and differ only in how a record is addressed; `Layout`
  captures that difference.
  */
module DeltaRecords {
  import opened Core
  import opened Varint

  /** Sparse keys are positions, range keys are starts, chunk keys are chunk numbers. */
  datatype Layout = SparseLayout | RangeLayout | ChunkLayout(size: nat)

  datatype Record = Record(key: nat, data: Bytes)

  function Start(layout: Layout, key: nat): nat {
    if layout.ChunkLayout? then key * layout.size else key
  }

  function End(layout: Layout, record: Record): nat {
    Start(layout, record.key) + |record.data|
  }

  /** The key that the next record's distance is measured from. */
  function Following(layout: Layout, record: Record): nat {
    if layout.RangeLayout? then record.key + |record.data| else record.key
  }

  // ---------------------------------------------------------------- writing

  function PutRecord(layout: Layout, prev: nat, record: Record): Bytes {
    Put(Max(0, record.key - prev)) +
    if layout.SparseLayout? then record.data else Put(|record.data|) + record.data
  }

  function PutRecords(layout: Layout, prev: nat, records: seq<Record>): Bytes
    decreases |records|
  {
    if records == [] then []
    else
      PutRecord(layout, prev, records[0])
      + PutRecords(layout, Following(layout, records[0]), records[1..])
  }

  /** Appending one record's fields in turn. */
  lemma PutNext(out: Bytes, layout: Layout, prev: nat, records: seq<Record>)
    requires records != [] && prev <= records[0].key
    ensures var r, rest := records[0], PutRecords(layout, Following(layout, records[0]), records[1..]);
            var head := out + Put(r.key - prev);
            out + PutRecords(layout, prev, records) ==
            (if layout.SparseLayout? then head + r.data else head + Put(|r.data|) + r.data) + rest
  {
    hide Put;
    var r, rest := records[0], PutRecords(layout, Following(layout, records[0]), records[1..]);
    if layout.SparseLayout? {
      Flatten(out, Put(r.key - prev), r.data, rest);
    } else {
      Flatten(out, Put(r.key - prev), Put(|r.data|) + r.data, rest);
      Associative(out + Put(r.key - prev), Put(|r.data|), r.data);
    }
  }

  lemma Flatten(out: Bytes, a: Bytes, b: Bytes, rest: Bytes)
    ensures out + ((a + b) + rest) == out + a + b + rest
    ensures (out + (a + b)) + rest == out + a + b + rest
  {
    Associative(out, a + b, rest);
    Associative(out, a, b);
  }

  /** Nonempty records in increasing, disjoint order, none starting before `pos` or ending after `limit`. */
  predicate Ascending(layout: Layout, prev: nat, pos: nat, limit: nat, records: seq<Record>)
    decreases |records|
  {
    records == [] ||
    (var r, tail := records[0], records[1..];
     && prev <= r.key <= Start(layout, r.key)
     && pos <= Start(layout, r.key) < End(layout, r) <= limit
     && (layout.SparseLayout? ==> |r.data| == 1)
     && (tail != [] ==> Following(layout, r) < tail[0].key)
     && Ascending(layout, Following(layout, r), End(layout, r), limit, tail))
  }

  lemma AscendingHead(layout: Layout, prev: nat, pos: nat, limit: nat, records: seq<Record>)
    requires records != [] && Ascending(layout, prev, pos, limit, records)
    ensures var r := records[0];
            && prev <= r.key < limit && |r.data| <= limit && End(layout, r) <= limit
            && (layout.SparseLayout? ==> |r.data| == 1)
            && Ascending(layout, Following(layout, r), End(layout, r), limit, records[1..])
  {
  }

  // ---------------------------------------------------------------- reading

  function Overwrite(out: Bytes, start: nat, data: Bytes): (r: Bytes)
    requires start + |data| <= |out|
    ensures |r| == |out|
    ensures forall i | 0 <= i < |out| ::
              r[i] == if start <= i < start + |data| then data[i - start] else out[i]
  {
    out[..start] + data + out[start + |data|..]
  }

  datatype Patched = Patched(out: Bytes, prev: nat, rest: Bytes)

  /**
    Reads one record and applies it.  A start or an end that overflows 64 bits lies beyond every
    buffer, so the bounds test below also stands for the source's checked additions.
    */
  function ReadRecord(layout: Layout, out: Bytes, prev: nat, b: Bytes): (r: Result<Patched>)
    ensures r.Ok? ==> |r.value.out| == |out|
  {
    var (delta, b1) :- ReadU64(b);
    var (len, b2) :- if layout.SparseLayout? then Ok((1, b1)) else ReadU64(b1);
    var start := Start(layout, prev + delta);
    if |b2| < len || start + len > |out| then Err(InvalidPacket)
    else
      var record := Record(prev + delta, b2[..len]);
      Ok(Patched(Overwrite(out, start, record.data), Following(layout, record), b2[len..]))
  }

  /** `count` records and then nothing. */
  function ReadRecords(layout: Layout, out: Bytes, prev: nat, count: nat, b: Bytes): Result<Bytes>
    decreases count
  {
    if count == 0 then if b == [] then Ok(out) else Err(InvalidPacket)
    else
      var p :- ReadRecord(layout, out, prev, b);
      ReadRecords(layout, p.out, p.prev, count - 1, p.rest)
  }

  lemma ReadNext(layout: Layout, out: Bytes, prev: nat, count: nat, b: Bytes)
    requires count > 0
    ensures var p := ReadRecord(layout, out, prev, b);
            ReadRecords(layout, out, prev, count, b) ==
            if p.Ok? then ReadRecords(layout, p.value.out, p.value.prev, count - 1, p.value.rest)
            else Err(p.error)
  {
  }

  // ---------------------------------------------------------------- meaning

  predicate RecordHolds(layout: Layout, record: Record, current: Bytes) {
    && End(layout, record) <= |current|
    && record.data == current[Start(layout, record.key)..End(layout, record)]
  }

  predicate Touches(layout: Layout, record: Record, i: nat) {
    Start(layout, record.key) <= i < End(layout, record)
  }

  ghost predicate Reached(layout: Layout, records: seq<Record>, i: nat) {
    exists n :: 0 <= n < |records| && Touches(layout, records[n], i)
  }

  /** The records hold bytes of `current`, and reach every position where `out` is not `current`. */
  ghost predicate Repairs(layout: Layout, records: seq<Record>, out: Bytes, current: Bytes) {
    && |out| == |current|
    && (forall n | 0 <= n < |records| :: RecordHolds(layout, records[n], current))
    && (forall i | 0 <= i < |current| && out[i] != current[i] :: Reached(layout, records, i))
  }

  /** Writing a record sets the positions it touches to the current state and leaves the others. */
  lemma WrittenAt(layout: Layout, r: Record, out: Bytes, current: Bytes, i: nat)
    requires RecordHolds(layout, r, current) && |out| == |current| && i < |current|
    ensures var out' := Overwrite(out, Start(layout, r.key), r.data);
            |out'| == |out| && out'[i] == if Touches(layout, r, i) then current[i] else out[i]
  {
    hide Start;
  }

  lemma RepairsTail(layout: Layout, records: seq<Record>, out: Bytes, current: Bytes)
    requires records != [] && Repairs(layout, records, out, current)
    ensures var r := records[0];
            Repairs(layout, records[1..], Overwrite(out, Start(layout, r.key), r.data), current)
  {
    hide Start, Overwrite, Touches;
    var r, tail := records[0], records[1..];
    var out' := Overwrite(out, Start(layout, r.key), r.data);
    forall i | 0 <= i < |current| && out'[i] != current[i] ensures Reached(layout, tail, i) {
      WrittenAt(layout, r, out, current, i);
      assert Reached(layout, records, i);
      var n :| 0 <= n < |records| && Touches(layout, records[n], i);
      assert Touches(layout, tail[n - 1], i);
    }
  }

  lemma RepairsExtend(layout: Layout, r: Record, tail: seq<Record>, out: Bytes, current: Bytes)
    requires RecordHolds(layout, r, current) && |out| == |current|
    requires Repairs(layout, tail, Overwrite(out, Start(layout, r.key), r.data), current)
    ensures Repairs(layout, [r] + tail, out, current)
  {
    var records := [r] + tail;
    forall i | 0 <= i < |current| && out[i] != current[i]
      ensures Reached(layout, records, i)
    {
      if Touches(layout, r, i) {
        assert Touches(layout, records[0], i);
      } else {
        assert Reached(layout, tail, i);
        var n :| 0 <= n < |tail| && Touches(layout, tail[n], i);
        assert Touches(layout, records[n + 1], i);
      }
    }
  }

  lemma ReadPutRecord(layout: Layout, out: Bytes, prev: nat, record: Record, rest: Bytes)
    requires prev <= record.key < U64_LIMIT && |record.data| < U64_LIMIT
    requires layout.SparseLayout? ==> |record.data| == 1
    requires End(layout, record) <= |out|
    ensures ReadRecord(layout, out, prev, PutRecord(layout, prev, record) + rest) ==
            Ok(Patched(Overwrite(out, Start(layout, record.key), record.data),
                       Following(layout, record), rest))
  {
    hide Put, ReadU64;
    var b, data := PutRecord(layout, prev, record) + rest, record.data + rest;
    Split(record.data, rest);
    HeaderReads(layout, prev, record, rest);
    assert prev + (record.key - prev) == record.key;
  }

  /** The numbers in front of a record's bytes. */
  lemma HeaderReads(layout: Layout, prev: nat, record: Record, rest: Bytes)
    requires prev <= record.key < U64_LIMIT && |record.data| < U64_LIMIT
    ensures var b, data := PutRecord(layout, prev, record) + rest, record.data + rest;
            && ReadU64(b).Ok?
            && ReadU64(b).value.0 == record.key - prev
            && var b1 := ReadU64(b).value.1;
               if layout.SparseLayout? then b1 == data else ReadU64(b1) == Ok((|record.data|, data))
  {
    hide Put, ReadU64;
    var data := record.data + rest;
    if layout.SparseLayout? {
      Associative(Put(record.key - prev), record.data, rest);
      ReadPutU64(record.key - prev, data);
    } else {
      var tail := Put(|record.data|) + data;
      Associative(Put(record.key - prev), Put(|record.data|) + record.data, rest);
      Associative(Put(|record.data|), record.data, rest);
      ReadPutU64(record.key - prev, tail);
      ReadPutU64(|record.data|, data);
    }
  }

  lemma NothingToRepair(layout: Layout, prev: nat, out: Bytes, current: Bytes, rest: Bytes)
    requires Repairs(layout, [], out, current)
    ensures ReadRecords(layout, out, prev, 0, PutRecords(layout, prev, []) + rest)
         == if rest == [] then Ok(current) else Err(InvalidPacket)
  {
    hide Touches, RecordHolds;
    forall i | 0 <= i < |current| ensures out[i] == current[i] {
      assert !Reached(layout, [], i);
    }
    assert out == current && [] + rest == rest;
  }

  lemma RepairsKeepsLength(layout: Layout, records: seq<Record>, out: Bytes, current: Bytes)
    requires Repairs(layout, records, out, current)
    ensures |out| == |current|
  {
  }

  lemma PutFirst(layout: Layout, prev: nat, records: seq<Record>, rest: Bytes)
    requires records != []
    ensures PutRecords(layout, prev, records) + rest
         == PutRecord(layout, prev, records[0])
            + (PutRecords(layout, Following(layout, records[0]), records[1..]) + rest)
  {
    Associative(PutRecord(layout, prev, records[0]),
                PutRecords(layout, Following(layout, records[0]), records[1..]), rest);
  }

  /**
    Records that repair a buffer still do so after a trip through their encoding, if nothing comes after it;
    otherwise the reader refuses the whole.
    */
  lemma {:induction false} ReadPutRecordsThen(layout: Layout, out: Bytes, prev: nat, pos: nat,
                                              records: seq<Record>, current: Bytes, rest: Bytes)
    requires Ascending(layout, prev, pos, |current|, records)
    requires Repairs(layout, records, out, current)
    requires |current| <= MAX_LEN
    ensures ReadRecords(layout, out, prev, |records|, PutRecords(layout, prev, records) + rest)
         == if rest == [] then Ok(current) else Err(InvalidPacket)
    decreases |records|
  {
    hide Put, ReadU64, ReadRecord, ReadRecords, PutRecord, PutRecords, Overwrite, Ascending, Repairs, Start, Following;
    if records == [] {
      NothingToRepair(layout, prev, out, current, rest);
    } else {
      var r, tail := records[0], records[1..];
      AscendingHead(layout, prev, pos, |current|, records);
      RepairsKeepsLength(layout, records, out, current);
      RepairsTail(layout, records, out, current);
      PutFirst(layout, prev, records, rest);
      ReadPutRecord(layout, out, prev, r, PutRecords(layout, Following(layout, r), tail) + rest);
      ReadNext(layout, out, prev, |records|, PutRecords(layout, prev, records) + rest);
      ReadPutRecordsThen(layout, Overwrite(out, Start(layout, r.key), r.data), Following(layout, r), End(layout, r),
                         tail, current, rest);
    }
  }

  lemma ReadPutRecords(layout: Layout, out: Bytes, prev: nat, pos: nat, records: seq<Record>, current: Bytes)
    requires Ascending(layout, prev, pos, |current|, records)
    requires Repairs(layout, records, out, current)
    requires |current| <= MAX_LEN
    ensures ReadRecords(layout, out, prev, |records|, PutRecords(layout, prev, records)) == Ok(current)
  {
    hide ReadRecords, PutRecords, Ascending, Repairs;
    ReadPutRecordsThen(layout, out, prev, pos, records, current, []);
    assert PutRecords(layout, prev, records) + [] == PutRecords(layout, prev, records);
  }

  // ---------------------------------------------------------------- size

  lemma {:induction false} RecordsAreShort(layout: Layout, prev: nat, pos: nat, limit: nat, records: seq<Record>)
    requires pos <= limit && prev <= limit
    requires Ascending(layout, prev, pos, limit, records)
    ensures |records| <= limit - pos
    ensures |PutRecords(layout, prev, records)| <=
            (limit - prev) + 2 * (limit - pos)
            + if records != [] && records[0].key == prev then 1 else 0
    decreases |records|
  {
    if records != [] {
      var r, tail := records[0], records[1..];
      PutLinear(r.key - prev);
      PutLinear(|r.data|);
      RecordsAreShort(layout, Following(layout, r), End(layout, r), limit, tail);
    }
  }
}
