/**
  The binary form of agent states and agent deltas (`binary.rs`).  The 32-bit float is its four
  bytes, and a string is its UTF-8 bytes.
  */
module AgentCodec {
  import opened Core
  import opened Varint
  import opened Utf8
  import Wire

  type i128 = x: int | -0x8000_0000_0000_0000_0000_0000_0000_0000 <= x < 0x8000_0000_0000_0000_0000_0000_0000_0000

  type F32 = b: Bytes | |b| == 4 witness [0, 0, 0, 0]

  datatype AgentState = AgentState(
    agentId: Text,
    model: Text,
    status: Text,
    task: Text,
    progress: byte,
    tokens: u64,
    memoryMb: u64,
    cpuPercent: F32,
    filesProcessed: u64,
    currentFile: Text)

  datatype AgentDelta = AgentDelta(
    mask: u16,
    agentId: Option<Text>,
    model: Option<Text>,
    status: Option<Text>,
    task: Option<Text>,
    progress: Option<i128>,
    tokens: Option<i128>,
    memoryMb: Option<i128>,
    cpuPercent: Option<F32>,
    filesProcessed: Option<i128>,
    currentFile: Option<Text>)

  /** Strings are of addressable length. */
  predicate Storable(s: AgentState) {
    && |s.agentId| <= MAX_LEN && |s.model| <= MAX_LEN && |s.status| <= MAX_LEN
    && |s.task| <= MAX_LEN && |s.currentFile| <= MAX_LEN
  }

  // ---------------------------------------------------------------- primitive fields

  const I128_LIMIT: int := 0x8000_0000_0000_0000_0000_0000_0000_0000

  /** `(v << 1) ^ (v >> 127)` on 128 bits: the shifted value, complemented when negative. */
  function ZigZag(v: i128): (n: nat)
    ensures n < 2 * I128_LIMIT
  {
    var shifted := 2 * v % (2 * I128_LIMIT);
    if v < 0 then 2 * I128_LIMIT - 1 - shifted else shifted
  }

  /** `(n >> 1) ^ -(n & 1)`: half the value, complemented when odd. */
  function UnZigZag(n: nat): int {
    if n % 2 == 1 then -(n / 2) - 1 else n / 2
  }

  lemma ZigZagRoundTrip(v: i128)
    ensures UnZigZag(ZigZag(v)) == v
  {
    if v < 0 {
      assert 2 * v % (2 * I128_LIMIT) == 2 * v + 2 * I128_LIMIT;
    } else {
      assert 2 * v % (2 * I128_LIMIT) == 2 * v;
    }
  }

  /** And the other way: zigzag is a bijection between the signed and the unsigned 128-bit words. */
  lemma UnZigZagRoundTrip(n: nat)
    requires n < 2 * I128_LIMIT
    ensures -I128_LIMIT <= UnZigZag(n) < I128_LIMIT && ZigZag(UnZigZag(n)) == n
  {
    var v := UnZigZag(n);
    if v < 0 {
      assert 2 * v % (2 * I128_LIMIT) == 2 * v + 2 * I128_LIMIT;
    } else {
      assert 2 * v % (2 * I128_LIMIT) == 2 * v;
    }
  }

  function PutText(s: Text): Bytes {
    Put(|s|) + s
  }

  function ReadNumber(b: Bytes): (r: Result<(nat, Bytes)>)
    ensures r.Ok? ==> r.value.0 < 2 * I128_LIMIT
  {
    ReadFits(128, b, 0, 0);
    Pow2Of128();
    Read(128, b)
  }

  function ReadBelow(limit: nat, b: Bytes): (r: Result<(nat, Bytes)>)
    ensures r.Ok? ==> r.value.0 < limit
  {
    var (n, rest) :- ReadNumber(b);
    if n < limit then Ok((n, rest)) else Err(InvalidPacket)
  }

  function ReadSigned(b: Bytes): Result<(i128, Bytes)> {
    var (n, rest) :- ReadNumber(b);
    Ok((UnZigZag(n), rest))
  }

  function ReadText(b: Bytes): Result<(Text, Bytes)> {
    var (len, rest) :- ReadNumber(b);
    if len > |rest| || !Valid(rest[..len]) then Err(InvalidPacket) else Ok((rest[..len], rest[len..]))
  }

  function ReadFloat(b: Bytes): Result<(F32, Bytes)> {
    if |b| < 4 then Err(InvalidPacket) else Ok((b[..4], b[4..]))
  }

  lemma NumberRoundTrip(n: nat, rest: Bytes)
    requires n < 2 * I128_LIMIT
    ensures ReadNumber(Put(n) + rest) == Ok((n, rest))
  {
    hide Put, Read;
    Pow2Of128();
    ReadPut(128, n, rest);
  }

  lemma BelowRoundTrip(limit: nat, n: nat, rest: Bytes)
    requires n < limit <= U64_LIMIT
    ensures ReadBelow(limit, Put(n) + rest) == Ok((n, rest))
  {
    hide Put, ReadNumber;
    NumberRoundTrip(n, rest);
  }

  lemma SignedRoundTrip(v: i128, rest: Bytes)
    ensures ReadSigned(Put(ZigZag(v)) + rest) == Ok((v, rest))
  {
    hide Put, ReadNumber, ZigZag, UnZigZag;
    NumberRoundTrip(ZigZag(v), rest);
    ZigZagRoundTrip(v);
  }

  lemma TextRoundTrip(s: Text, rest: Bytes)
    requires |s| <= MAX_LEN
    ensures ReadText(PutText(s) + rest) == Ok((s, rest))
  {
    hide Put, ReadNumber, Valid;
    Associative(Put(|s|), s, rest);
    NumberRoundTrip(|s|, s + rest);
    Split(s, rest);
  }

  // ---------------------------------------------------------------- agent states

  function EncodeState(s: AgentState): Bytes {
    PutText(s.agentId) +
    (PutText(s.model) +
     (PutText(s.status) +
      (PutText(s.task) +
       (Put(s.progress) +
        (Put(s.tokens) +
         (Put(s.memoryMb) +
          (s.cpuPercent +
           (Put(s.filesProcessed) +
            (PutText(s.currentFile) + [])))))))))
  }

  function DecodeState(b0: Bytes): Result<AgentState> {
    var (agentId, b1) :- ReadText(b0);
    var (model, b2) :- ReadText(b1);
    var (status, b3) :- ReadText(b2);
    var (task, b4) :- ReadText(b3);
    DecodeFigures(agentId, model, status, task, b4)
  }

  function DecodeFigures(agentId: Text, model: Text, status: Text, task: Text, b4: Bytes): Result<AgentState> {
    var (progress, b5) :- ReadBelow(0x100, b4);
    var (tokens, b6) :- ReadBelow(U64_LIMIT, b5);
    var (memoryMb, b7) :- ReadBelow(U64_LIMIT, b6);
    var (cpuPercent, b8) :- ReadFloat(b7);
    var (filesProcessed, b9) :- ReadBelow(U64_LIMIT, b8);
    var (currentFile, b10) :- ReadText(b9);
    if b10 != [] then Err(InvalidPacket)
    else
      Ok(AgentState(agentId, model, status, task, progress, tokens, memoryMb, cpuPercent, filesProcessed, currentFile))
  }

  /** Every agent state survives its encoding, and nothing is left over. */
  lemma StateRoundTrip(s: AgentState)
    requires Storable(s)
    ensures DecodeState(EncodeState(s)) == Ok(s)
  {
    hide Put, PutText, ReadText, ReadBelow, Valid;
    var b9 := PutText(s.currentFile) + [];
    var b8 := Put(s.filesProcessed) + b9;
    var b7 := s.cpuPercent + b8;
    var b6 := Put(s.memoryMb) + b7;
    var b5 := Put(s.tokens) + b6;
    var b4 := Put(s.progress) + b5;
    var b3 := PutText(s.task) + b4;
    var b2 := PutText(s.status) + b3;
    var b1 := PutText(s.model) + b2;
    TextRoundTrip(s.agentId, b1);
    TextRoundTrip(s.model, b2);
    TextRoundTrip(s.status, b3);
    TextRoundTrip(s.task, b4);
    BelowRoundTrip(0x100, s.progress, b5);
    BelowRoundTrip(U64_LIMIT, s.tokens, b6);
    BelowRoundTrip(U64_LIMIT, s.memoryMb, b7);
    Split(s.cpuPercent, b8);
    BelowRoundTrip(U64_LIMIT, s.filesProcessed, b9);
    TextRoundTrip(s.currentFile, []);
  }

  // ---------------------------------------------------------------- masks

  predicate Bit(mask: nat, k: nat) {
    if k == 0 then mask % 2 == 1 else Bit(mask / 2, k - 1)
  }

  function MaskOf(bits: seq<bool>): (mask: nat)
    ensures mask < Pow2(|bits|)
  {
    if bits == [] then 0 else (if bits[0] then 1 else 0) + 2 * MaskOf(bits[1..])
  }

  lemma MaskCons(bits: seq<bool>)
    requires bits != []
    ensures MaskOf(bits) % 2 == 1 <==> bits[0]
    ensures MaskOf(bits) / 2 == MaskOf(bits[1..])
  {
    hide Pow2;
  }

  lemma {:induction false} MaskBit(bits: seq<bool>, k: nat)
    requires k < |bits|
    ensures Bit(MaskOf(bits), k) <==> bits[k]
    decreases |bits|
  {
    hide MaskOf, Pow2;
    MaskCons(bits);
    if k > 0 {
      MaskBit(bits[1..], k - 1);
    }
  }

  // ---------------------------------------------------------------- differences

  // The bytes of a float are in little-endian order: the sign and the top of the exponent come last.

  predicate IsNan(f: F32) {
    f[3] % 0x80 == 0x7f && f[2] >= 0x80 && (f[2] > 0x80 || f[1] > 0 || f[0] > 0)
  }

  predicate IsZero(f: F32) {
    f[3] % 0x80 == 0 && f[2] == 0 && f[1] == 0 && f[0] == 0
  }

  /** `!=` on floats (IEEE 754-2019, section 5.11): NaN differs from everything, and the two zeros are equal. */
  predicate FloatDiffers(a: F32, b: F32) {
    IsNan(a) || IsNan(b) || (a != b && !(IsZero(a) && IsZero(b)))
  }

  /** One is -0.0 and the other +0.0. */
  predicate OppositeZeros(a: F32, b: F32) {
    a != b && IsZero(a) && IsZero(b)
  }

  /** Which fields changed, in the order of their mask bits. */
  function Changes(before: AgentState, after: AgentState): (bits: seq<bool>)
    ensures |bits| == 10
  {
    [before.agentId != after.agentId, before.model != after.model, before.status != after.status,
     before.task != after.task, before.progress != after.progress, before.tokens != after.tokens,
     before.memoryMb != after.memoryMb, FloatDiffers(before.cpuPercent, after.cpuPercent),
     before.filesProcessed != after.filesProcessed, before.currentFile != after.currentFile]
  }

  function IfChanged<T>(changed: bool, value: T): Option<T> {
    if changed then Some(value) else None
  }

  lemma MaskFits(bits: seq<bool>)
    requires |bits| == 10
    ensures MaskOf(bits) < 0x1_0000
  {
    assert Pow2(10) == 0x400;
  }

  function Between(before: AgentState, after: AgentState): AgentDelta {
    var c := Changes(before, after);
    MaskFits(c);
    AgentDelta(MaskOf(c),
               IfChanged(c[0], after.agentId), IfChanged(c[1], after.model),
               IfChanged(c[2], after.status), IfChanged(c[3], after.task),
               IfChanged<i128>(c[4], after.progress - before.progress),
               IfChanged<i128>(c[5], after.tokens - before.tokens),
               IfChanged<i128>(c[6], after.memoryMb - before.memoryMb), IfChanged(c[7], after.cpuPercent),
               IfChanged<i128>(c[8], after.filesProcessed - before.filesProcessed),
               IfChanged(c[9], after.currentFile))
  }

  function AddWithin(limit: nat, base: nat, delta: Option<i128>): (r: Result<nat>)
    requires base < limit
    ensures r.Ok? ==> r.value < limit
  {
    if delta.None? then Ok(base)
    else if 0 <= base + delta.value < limit then Ok(base + delta.value)
    else Err(InvalidPacket)
  }

  function Or<T>(o: Option<T>, default: T): T {
    if o.Some? then o.value else default
  }

  function ApplyDelta(d: AgentDelta, base: AgentState): Result<AgentState> {
    var progress :- AddWithin(0x100, base.progress, d.progress);
    var tokens :- AddWithin(U64_LIMIT, base.tokens, d.tokens);
    var memoryMb :- AddWithin(U64_LIMIT, base.memoryMb, d.memoryMb);
    var filesProcessed :- AddWithin(U64_LIMIT, base.filesProcessed, d.filesProcessed);
    Ok(AgentState(Or(d.agentId, base.agentId), Or(d.model, base.model), Or(d.status, base.status),
                  Or(d.task, base.task), progress, tokens, memoryMb, Or(d.cpuPercent, base.cpuPercent),
                  filesProcessed, Or(d.currentFile, base.currentFile)))
  }

  // ---------------------------------------------------------------- agent deltas

  /** A field is present exactly when its bit is set. */
  predicate MaskMatches(d: AgentDelta) {
    && (Bit(d.mask, 0) <==> d.agentId.Some?) && (Bit(d.mask, 1) <==> d.model.Some?)
    && (Bit(d.mask, 2) <==> d.status.Some?) && (Bit(d.mask, 3) <==> d.task.Some?)
    && (Bit(d.mask, 4) <==> d.progress.Some?) && (Bit(d.mask, 5) <==> d.tokens.Some?)
    && (Bit(d.mask, 6) <==> d.memoryMb.Some?) && (Bit(d.mask, 7) <==> d.cpuPercent.Some?)
    && (Bit(d.mask, 8) <==> d.filesProcessed.Some?) && (Bit(d.mask, 9) <==> d.currentFile.Some?)
  }

  function PutOptText(present: bool, s: Option<Text>): Result<Bytes> {
    if !present then Ok([]) else if s.None? then Err(InvalidState) else Ok(PutText(s.value))
  }

  function PutOptSigned(present: bool, v: Option<i128>): Result<Bytes> {
    if !present then Ok([]) else if v.None? then Err(InvalidState) else Ok(Put(ZigZag(v.value)))
  }

  function PutOptFloat(present: bool, f: Option<F32>): Result<Bytes> {
    if !present then Ok([]) else if f.None? then Err(InvalidState) else Ok(f.value)
  }

  function EncodeDelta(d: AgentDelta): Result<Bytes> {
    var fields :- EncodeFields(d);
    Ok(Wire.PutLe(d.mask, 2) + fields)
  }

  function EncodeFields(d: AgentDelta): Result<Bytes> {
    var e0 :- PutOptText(Bit(d.mask, 0), d.agentId);
    var e1 :- PutOptText(Bit(d.mask, 1), d.model);
    var e2 :- PutOptText(Bit(d.mask, 2), d.status);
    var e3 :- PutOptText(Bit(d.mask, 3), d.task);
    var e4 :- EncodeRest(d);
    Ok(e0 + (e1 + (e2 + (e3 + e4))))
  }

  function EncodeRest(d: AgentDelta): Result<Bytes> {
    var e4 :- PutOptSigned(Bit(d.mask, 4), d.progress);
    var e5 :- PutOptSigned(Bit(d.mask, 5), d.tokens);
    var e6 :- PutOptSigned(Bit(d.mask, 6), d.memoryMb);
    var e7 :- PutOptFloat(Bit(d.mask, 7), d.cpuPercent);
    var e8 :- PutOptSigned(Bit(d.mask, 8), d.filesProcessed);
    var e9 :- PutOptText(Bit(d.mask, 9), d.currentFile);
    Ok(e4 + (e5 + (e6 + (e7 + (e8 + (e9 + []))))))
  }

  function ReadOptText(present: bool, b: Bytes): Result<(Option<Text>, Bytes)> {
    if !present then Ok((None, b))
    else
      var (s, rest) :- ReadText(b);
      Ok((Some(s), rest))
  }

  function ReadOptSigned(present: bool, b: Bytes): Result<(Option<i128>, Bytes)> {
    if !present then Ok((None, b))
    else
      var (v, rest) :- ReadSigned(b);
      Ok((Some(v), rest))
  }

  function ReadOptFloat(present: bool, b: Bytes): Result<(Option<F32>, Bytes)> {
    if !present then Ok((None, b))
    else
      var (f, rest) :- ReadFloat(b);
      Ok((Some(f), rest))
  }

  function DecodeDelta(b: Bytes): Result<AgentDelta> {
    if |b| < 2 then Err(InvalidPacket) else DecodeFields(Wire.ReadU16(b, 0), b[2..])
  }

  function DecodeFields(mask: u16, b0: Bytes): Result<AgentDelta> {
    var (agentId, b1) :- ReadOptText(Bit(mask, 0), b0);
    var (model, b2) :- ReadOptText(Bit(mask, 1), b1);
    var (status, b3) :- ReadOptText(Bit(mask, 2), b2);
    var (task, b4) :- ReadOptText(Bit(mask, 3), b3);
    DecodeRest(AgentDelta(mask, agentId, model, status, task, None, None, None, None, None, None), b4)
  }

  function DecodeRest(d: AgentDelta, b4: Bytes): Result<AgentDelta> {
    var (progress, b5) :- ReadOptSigned(Bit(d.mask, 4), b4);
    var (tokens, b6) :- ReadOptSigned(Bit(d.mask, 5), b5);
    var (memoryMb, b7) :- ReadOptSigned(Bit(d.mask, 6), b6);
    var (cpuPercent, b8) :- ReadOptFloat(Bit(d.mask, 7), b7);
    var (filesProcessed, b9) :- ReadOptSigned(Bit(d.mask, 8), b8);
    var (currentFile, b10) :- ReadOptText(Bit(d.mask, 9), b9);
    if b10 != [] then Err(InvalidPacket)
    else
      Ok(d.(progress := progress, tokens := tokens, memoryMb := memoryMb, cpuPercent := cpuPercent,
            filesProcessed := filesProcessed, currentFile := currentFile))
  }

  lemma OptTextRoundTrip(present: bool, s: Option<Text>, rest: Bytes)
    requires present <==> s.Some?
    requires s.Some? ==> |s.value| <= MAX_LEN
    ensures PutOptText(present, s).Ok?
    ensures ReadOptText(present, PutOptText(present, s).value + rest) == Ok((s, rest))
  {
    hide PutText, ReadText, Valid;
    if s.Some? {
      TextRoundTrip(s.value, rest);
    } else {
      assert [] + rest == rest;
    }
  }

  lemma OptSignedRoundTrip(present: bool, v: Option<i128>, rest: Bytes)
    requires present <==> v.Some?
    ensures PutOptSigned(present, v).Ok?
    ensures ReadOptSigned(present, PutOptSigned(present, v).value + rest) == Ok((v, rest))
  {
    hide Put, ReadSigned;
    if v.Some? {
      SignedRoundTrip(v.value, rest);
    } else {
      assert [] + rest == rest;
    }
  }

  lemma OptFloatRoundTrip(present: bool, f: Option<F32>, rest: Bytes)
    requires present <==> f.Some?
    ensures PutOptFloat(present, f).Ok?
    ensures ReadOptFloat(present, PutOptFloat(present, f).value + rest) == Ok((f, rest))
  {
    if f.Some? {
      Split(f.value, rest);
    } else {
      assert [] + rest == rest;
    }
  }

  predicate StorableDelta(d: AgentDelta) {
    && (d.agentId.Some? ==> |d.agentId.value| <= MAX_LEN)
    && (d.model.Some? ==> |d.model.value| <= MAX_LEN)
    && (d.status.Some? ==> |d.status.value| <= MAX_LEN)
    && (d.task.Some? ==> |d.task.value| <= MAX_LEN)
    && (d.currentFile.Some? ==> |d.currentFile.value| <= MAX_LEN)
  }

  /** What reading gives when `extra` follows: a codec reads its payload to the end. */
  function OrTrailing<T>(extra: Bytes, value: T): Result<T> {
    if extra == [] then Ok(value) else Err(InvalidPacket)
  }

  lemma RestThen(d: AgentDelta, extra: Bytes)
    requires EncodeRest(d).Ok?
    ensures EncodeRest(d).value + extra ==
            PutOptSigned(Bit(d.mask, 4), d.progress).value +
            (PutOptSigned(Bit(d.mask, 5), d.tokens).value +
             (PutOptSigned(Bit(d.mask, 6), d.memoryMb).value +
              (PutOptFloat(Bit(d.mask, 7), d.cpuPercent).value +
               (PutOptSigned(Bit(d.mask, 8), d.filesProcessed).value +
                (PutOptText(Bit(d.mask, 9), d.currentFile).value + extra)))))
  {
    hide PutOptText, PutOptSigned, PutOptFloat, Bit, Valid;
    var e9 := PutOptText(Bit(d.mask, 9), d.currentFile).value + [];
    var e8 := PutOptSigned(Bit(d.mask, 8), d.filesProcessed).value;
    var e7 := PutOptFloat(Bit(d.mask, 7), d.cpuPercent).value;
    var e6 := PutOptSigned(Bit(d.mask, 6), d.memoryMb).value;
    var e5 := PutOptSigned(Bit(d.mask, 5), d.tokens).value;
    var e4 := PutOptSigned(Bit(d.mask, 4), d.progress).value;
    assert e9 == PutOptText(Bit(d.mask, 9), d.currentFile).value;
    Associative(e8, e9, extra);
    Associative(e7, e8 + e9, extra);
    Associative(e6, e7 + (e8 + e9), extra);
    Associative(e5, e6 + (e7 + (e8 + e9)), extra);
    Associative(e4, e5 + (e6 + (e7 + (e8 + e9))), extra);
  }

  /** The last six fields, read into a delta that has the first four. */
  lemma RestRoundTrip(d: AgentDelta, extra: Bytes)
    requires MaskMatches(d) && StorableDelta(d)
    ensures EncodeRest(d).Ok?
    ensures DecodeRest(AgentDelta(d.mask, d.agentId, d.model, d.status, d.task, None, None, None, None, None, None),
                       EncodeRest(d).value + extra) == OrTrailing(extra, d)
  {
    hide PutOptText, PutOptSigned, PutOptFloat, ReadOptText, ReadOptSigned, ReadOptFloat, Bit, Valid;
    OptTextRoundTrip(Bit(d.mask, 9), d.currentFile, extra);
    var b9 := PutOptText(Bit(d.mask, 9), d.currentFile).value + extra;
    OptSignedRoundTrip(Bit(d.mask, 8), d.filesProcessed, b9);
    var b8 := PutOptSigned(Bit(d.mask, 8), d.filesProcessed).value + b9;
    OptFloatRoundTrip(Bit(d.mask, 7), d.cpuPercent, b8);
    var b7 := PutOptFloat(Bit(d.mask, 7), d.cpuPercent).value + b8;
    OptSignedRoundTrip(Bit(d.mask, 6), d.memoryMb, b7);
    var b6 := PutOptSigned(Bit(d.mask, 6), d.memoryMb).value + b7;
    OptSignedRoundTrip(Bit(d.mask, 5), d.tokens, b6);
    var b5 := PutOptSigned(Bit(d.mask, 5), d.tokens).value + b6;
    OptSignedRoundTrip(Bit(d.mask, 4), d.progress, b5);
    RestThen(d, extra);
  }

  lemma FieldsThen(d: AgentDelta, extra: Bytes)
    requires EncodeFields(d).Ok?
    ensures EncodeFields(d).value + extra ==
            PutOptText(Bit(d.mask, 0), d.agentId).value +
            (PutOptText(Bit(d.mask, 1), d.model).value +
             (PutOptText(Bit(d.mask, 2), d.status).value +
              (PutOptText(Bit(d.mask, 3), d.task).value + (EncodeRest(d).value + extra))))
  {
    hide PutOptText, Bit, Valid, EncodeRest;
    var e4 := EncodeRest(d).value;
    var e3 := PutOptText(Bit(d.mask, 3), d.task).value;
    var e2 := PutOptText(Bit(d.mask, 2), d.status).value;
    var e1 := PutOptText(Bit(d.mask, 1), d.model).value;
    var e0 := PutOptText(Bit(d.mask, 0), d.agentId).value;
    Associative(e3, e4, extra);
    Associative(e2, e3 + e4, extra);
    Associative(e1, e2 + (e3 + e4), extra);
    Associative(e0, e1 + (e2 + (e3 + e4)), extra);
  }

  lemma FieldsRoundTrip(d: AgentDelta, extra: Bytes)
    requires MaskMatches(d) && StorableDelta(d)
    ensures EncodeFields(d).Ok? && DecodeFields(d.mask, EncodeFields(d).value + extra) == OrTrailing(extra, d)
  {
    hide PutOptText, ReadOptText, Bit, Valid, EncodeRest, DecodeRest, OrTrailing;
    RestRoundTrip(d, extra);
    var b4 := EncodeRest(d).value + extra;
    OptTextRoundTrip(Bit(d.mask, 3), d.task, b4);
    var b3 := PutOptText(Bit(d.mask, 3), d.task).value + b4;
    OptTextRoundTrip(Bit(d.mask, 2), d.status, b3);
    var b2 := PutOptText(Bit(d.mask, 2), d.status).value + b3;
    OptTextRoundTrip(Bit(d.mask, 1), d.model, b2);
    var b1 := PutOptText(Bit(d.mask, 1), d.model).value + b2;
    OptTextRoundTrip(Bit(d.mask, 0), d.agentId, b1);
    FieldsThen(d, extra);
  }

  /** Every delta whose mask says what it holds survives its encoding; with anything after it, it is refused. */
  lemma DeltaRoundTripThen(d: AgentDelta, extra: Bytes)
    requires MaskMatches(d) && StorableDelta(d)
    ensures EncodeDelta(d).Ok?
    ensures DecodeDelta(EncodeDelta(d).value + extra) == if extra == [] then Ok(d) else Err(InvalidPacket)
  {
    hide EncodeFields, DecodeFields, MaskMatches, StorableDelta, Wire.PutLe, Wire.ReadU16;
    FieldsRoundTrip(d, extra);
    Associative(Wire.PutLe(d.mask, 2), EncodeFields(d).value, extra);
    MaskRoundTrip(d.mask, EncodeFields(d).value + extra);
  }

  lemma DeltaRoundTrip(d: AgentDelta)
    requires MaskMatches(d) && StorableDelta(d)
    ensures EncodeDelta(d).Ok? && DecodeDelta(EncodeDelta(d).value) == Ok(d)
  {
    hide EncodeDelta, DecodeDelta, MaskMatches, StorableDelta;
    DeltaRoundTripThen(d, []);
    assert EncodeDelta(d).value + [] == EncodeDelta(d).value;
  }

  lemma MaskRoundTrip(mask: u16, rest: Bytes)
    ensures var b := Wire.PutLe(mask, 2) + rest; |b| >= 2 && Wire.ReadU16(b, 0) == mask && b[2..] == rest
  {
    hide Wire.PutLe, Wire.ReadLe;
    Wire.LeWidths();
    Wire.ReadPutLe(mask, 2);
    Split(Wire.PutLe(mask, 2), rest);
    assert (Wire.PutLe(mask, 2) + rest)[0..0 + 2] == Wire.PutLe(mask, 2);
  }

  lemma BetweenIsWellFormed(before: AgentState, after: AgentState)
    requires Storable(after)
    ensures MaskMatches(Between(before, after)) && StorableDelta(Between(before, after))
  {
    hide Bit, MaskOf, Valid, FloatDiffers;
    var c := Changes(before, after);
    forall k: nat | k < 10 ensures Bit(MaskOf(c), k) <==> c[k] {
      MaskBit(c, k);
    }
  }

  lemma TakenOver<T>(changed: bool, before: T, after: T)
    requires changed || before == after
    ensures Or(IfChanged(changed, after), before) == after
  {
  }

  lemma AddedUp(limit: nat, changed: bool, before: nat, after: nat)
    requires before < limit && after < limit <= U64_LIMIT && (changed || before == after)
    ensures AddWithin(limit, before, IfChanged<i128>(changed, after - before)) == Ok(after)
  {
  }

  /** A field whose flag is clear is the same before and after. */
  lemma TextsUnchanged(before: AgentState, after: AgentState)
    ensures var c := Changes(before, after);
            && (c[0] || before.agentId == after.agentId) && (c[1] || before.model == after.model)
            && (c[2] || before.status == after.status) && (c[3] || before.task == after.task)
            && (c[9] || before.currentFile == after.currentFile)
  {
    hide FloatDiffers, Valid;
  }

  lemma AmountsUnchanged(before: AgentState, after: AgentState)
    ensures var c := Changes(before, after);
            && (c[4] || before.progress == after.progress) && (c[5] || before.tokens == after.tokens)
            && (c[6] || before.memoryMb == after.memoryMb)
            && c[7] == FloatDiffers(before.cpuPercent, after.cpuPercent)
            && (c[8] || before.filesProcessed == after.filesProcessed)
  {
    hide FloatDiffers, Valid;
  }

  /** Applying a delta, field by field. */
  lemma ApplyFields(d: AgentDelta, base: AgentState, s: AgentState)
    requires Or(d.agentId, base.agentId) == s.agentId && Or(d.model, base.model) == s.model
    requires Or(d.status, base.status) == s.status && Or(d.task, base.task) == s.task
    requires AddWithin(0x100, base.progress, d.progress) == Ok(s.progress)
    requires AddWithin(U64_LIMIT, base.tokens, d.tokens) == Ok(s.tokens)
    requires AddWithin(U64_LIMIT, base.memoryMb, d.memoryMb) == Ok(s.memoryMb)
    requires Or(d.cpuPercent, base.cpuPercent) == s.cpuPercent
    requires AddWithin(U64_LIMIT, base.filesProcessed, d.filesProcessed) == Ok(s.filesProcessed)
    requires Or(d.currentFile, base.currentFile) == s.currentFile
    ensures ApplyDelta(d, base) == Ok(s)
  {
    hide Or, AddWithin, Valid;
  }

  /** The state that the receiver of a difference ends with: it never learns of a zero that changes its sign. */
  function Received(before: AgentState, after: AgentState): AgentState {
    if OppositeZeros(before.cpuPercent, after.cpuPercent) then after.(cpuPercent := before.cpuPercent) else after
  }

  lemma TextsReach(before: AgentState, after: AgentState)
    ensures var d := Between(before, after);
            && Or(d.agentId, before.agentId) == after.agentId && Or(d.model, before.model) == after.model
            && Or(d.status, before.status) == after.status && Or(d.task, before.task) == after.task
            && Or(d.currentFile, before.currentFile) == after.currentFile
  {
    hide MaskOf, Changes, Valid, IfChanged, Or, FloatDiffers;
    var c := Changes(before, after);
    TextsUnchanged(before, after);
    TakenOver(c[0], before.agentId, after.agentId);
    TakenOver(c[1], before.model, after.model);
    TakenOver(c[2], before.status, after.status);
    TakenOver(c[3], before.task, after.task);
    TakenOver(c[9], before.currentFile, after.currentFile);
  }

  lemma AmountsReach(before: AgentState, after: AgentState)
    ensures var d := Between(before, after);
            && AddWithin(0x100, before.progress, d.progress) == Ok(after.progress)
            && AddWithin(U64_LIMIT, before.tokens, d.tokens) == Ok(after.tokens)
            && AddWithin(U64_LIMIT, before.memoryMb, d.memoryMb) == Ok(after.memoryMb)
            && AddWithin(U64_LIMIT, before.filesProcessed, d.filesProcessed) == Ok(after.filesProcessed)
  {
    hide MaskOf, Changes, Valid, IfChanged, AddWithin, FloatDiffers;
    var c := Changes(before, after);
    AmountsUnchanged(before, after);
    AddedUp(0x100, c[4], before.progress, after.progress);
    AddedUp(U64_LIMIT, c[5], before.tokens, after.tokens);
    AddedUp(U64_LIMIT, c[6], before.memoryMb, after.memoryMb);
    AddedUp(U64_LIMIT, c[8], before.filesProcessed, after.filesProcessed);
  }

  lemma FloatReaches(before: AgentState, after: AgentState)
    ensures Or(Between(before, after).cpuPercent, before.cpuPercent) == Received(before, after).cpuPercent
  {
    hide MaskOf, Changes, Valid, IfChanged, Or, FloatDiffers, OppositeZeros;
    AmountsUnchanged(before, after);
    FloatTakenOver(before.cpuPercent, after.cpuPercent);
  }

  /**
    The difference of two states, applied to the first, gives the second, unless they hold opposite zeros:
    the program's comparison takes those for equal.
    */
  lemma ApplyBetween(before: AgentState, after: AgentState)
    ensures ApplyDelta(Between(before, after), before) == Ok(Received(before, after))
    ensures ApplyDelta(Between(before, after), before) == Ok(after) <==>
            !OppositeZeros(before.cpuPercent, after.cpuPercent)
  {
    hide ApplyDelta, Between, Or, AddWithin, Valid, IsZero;
    TextsReach(before, after);
    AmountsReach(before, after);
    FloatReaches(before, after);
    ApplyFields(Between(before, after), before, Received(before, after));
  }

  lemma FloatTakenOver(before: F32, after: F32)
    ensures Or(IfChanged(FloatDiffers(before, after), after), before)
         == if OppositeZeros(before, after) then before else after
  {
  }

  /** An input on which a difference is lost: nothing but the sign of a zero changes. */
  lemma SignOfZeroIsLost(s: AgentState)
    ensures var before, after := s.(cpuPercent := [0, 0, 0, 0x80]), s.(cpuPercent := [0, 0, 0, 0]);
            before != after && ApplyDelta(Between(before, after), before) == Ok(before)
  {
    hide ApplyDelta, Between;
    var before, after := s.(cpuPercent := [0, 0, 0, 0x80]), s.(cpuPercent := [0, 0, 0, 0]);
    assert before.cpuPercent[3] != after.cpuPercent[3];
    ApplyBetween(before, after);
    assert Received(before, after) == before;
  }

  /** From one state to the next over the wire. */
  lemma AgentDeltaEndToEnd(before: AgentState, after: AgentState)
    requires Storable(after)
    ensures var encoded := EncodeDelta(Between(before, after));
            && encoded.Ok?
            && DecodeDelta(encoded.value).Ok?
            && var r := ApplyDelta(DecodeDelta(encoded.value).value, before);
               && r == Ok(Received(before, after))
               && (r == Ok(after) <==> !OppositeZeros(before.cpuPercent, after.cpuPercent))
  {
    hide EncodeDelta, DecodeDelta, ApplyDelta, Between, MaskMatches, StorableDelta, Valid, Received, OppositeZeros;
    BetweenIsWellFormed(before, after);
    DeltaRoundTrip(Between(before, after));
    ApplyBetween(before, after);
  }
}
